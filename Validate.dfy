/** The structural checks run on a translated page: that it keeps the
    original's links, its front-matter fields, and a well-formed Tabs block. */
module Validate {
  import opened Wrappers
  import opened Text
  import opened Pages

  // ---------------------------------------------------------------------
  // Links
  // ---------------------------------------------------------------------

  /** Python's `x in ys` on links: some element is `x` itself or equal to it
      under the link class's `==`, which `eq` stands for. */
  predicate LinkIn(x: Link, ys: seq<Link>, eq: (Link, Link) -> bool) {
    exists k :: 0 <= k < |ys| && (ys[k] == x || eq(x, ys[k]))
  }

  /** Every link of `xs` is in `ys`. */
  predicate Covered(xs: seq<Link>, ys: seq<Link>, eq: (Link, Link) -> bool) {
    forall k :: 0 <= k < |xs| ==> LinkIn(xs[k], ys, eq)
  }

  /** `[link for link in xs if link not in ys]`. */
  function Missing(xs: seq<Link>, ys: seq<Link>, eq: (Link, Link) -> bool): (r: seq<Link>)
    ensures r == [] <==> Covered(xs, ys, eq)
  {
    if xs == [] then []
    else
      var rest := Missing(xs[1..], ys, eq);
      assert Covered(xs, ys, eq) <==> LinkIn(xs[0], ys, eq) && Covered(xs[1..], ys, eq) by {
        if LinkIn(xs[0], ys, eq) && Covered(xs[1..], ys, eq) {
          forall k | 0 <= k < |xs| ensures LinkIn(xs[k], ys, eq) {
            if k > 0 { assert xs[k] == xs[1..][k - 1]; }
          }
        }
      }
      (if LinkIn(xs[0], ys, eq) then [] else [xs[0]]) + rest
  }

  /** The missing links keep the order of `xs` and its duplicates: each
      link occurs in the result as often as in `xs` when it is not in `ys`,
      and not at all when it is. */
  lemma {:induction false} MissingIsFilter(xs: seq<Link>, ys: seq<Link>, eq: (Link, Link) -> bool)
    ensures IsSubsequence(Missing(xs, ys, eq), xs)
    ensures forall l :: multiset(Missing(xs, ys, eq))[l] == if LinkIn(l, ys, eq) then 0 else multiset(xs)[l]
  {
    if xs != [] {
      MissingIsFilter(xs[1..], ys, eq);
      var rest := Missing(xs[1..], ys, eq);
      assert xs == [xs[0]] + xs[1..];
      if LinkIn(xs[0], ys, eq) {
        assert Missing(xs, ys, eq) == rest;
      } else {
        assert Missing(xs, ys, eq) == [xs[0]] + rest;
        assert Missing(xs, ys, eq)[1..] == rest;
      }
    }
  }

  /** The targets of a list of links, in order. */
  function Targets(links: seq<Link>): (r: seq<string>)
    ensures |r| == |links| && forall k :: 0 <= k < |links| ==> r[k] == links[k].target
  {
    seq(|links|, k requires 0 <= k < |links| => links[k].target)
  }

  /** The dictionary `validate_links` returns. */
  datatype LinksReport = LinksReport(linksMatch: bool, missingLinks: seq<string>, extraLinks: seq<string>, totalLinks: nat)

  /** `validate_links(original_page, translated_page)`: the links match when
      every original link is in the translation and every translated link
      is in the original. */
  function ValidateLinks(original: Page, translated: Page, eq: (Link, Link) -> bool): (r: LinksReport)
    ensures r.linksMatch <==> Covered(original.links, translated.links, eq) && Covered(translated.links, original.links, eq)
    ensures r.linksMatch <==> r.missingLinks == [] && r.extraLinks == []
    ensures r.totalLinks == |original.links|
  {
    var missing := Missing(original.links, translated.links, eq);
    var extra := Missing(translated.links, original.links, eq);
    LinksReport(|missing| == 0 && |extra| == 0, Targets(missing), Targets(extra), |original.links|)
  }

  /** The reported lists are the targets of the missing and extra links, in
      the order of the list each was drawn from, duplicates kept. */
  lemma ValidateLinksLists(original: Page, translated: Page, eq: (Link, Link) -> bool)
    ensures var r := ValidateLinks(original, translated, eq);
      && (exists ms :: IsSubsequence(ms, original.links) && r.missingLinks == Targets(ms)
            && forall l :: multiset(ms)[l] == if LinkIn(l, translated.links, eq) then 0 else multiset(original.links)[l])
      && (exists es :: IsSubsequence(es, translated.links) && r.extraLinks == Targets(es)
            && forall l :: multiset(es)[l] == if LinkIn(l, original.links, eq) then 0 else multiset(translated.links)[l])
  {
    MissingIsFilter(original.links, translated.links, eq);
    MissingIsFilter(translated.links, original.links, eq);
    var ms := Missing(original.links, translated.links, eq);
    var es := Missing(translated.links, original.links, eq);
    assert IsSubsequence(ms, original.links) && ValidateLinks(original, translated, eq).missingLinks == Targets(ms);
    assert IsSubsequence(es, translated.links) && ValidateLinks(original, translated, eq).extraLinks == Targets(es);
  }

  /** A translation whose links are a reordering of the original's always
      matches, whatever the link class's `==` does. */
  lemma PermutedLinksMatch(original: Page, translated: Page, eq: (Link, Link) -> bool)
    requires multiset(original.links) == multiset(translated.links)
    ensures ValidateLinks(original, translated, eq).linksMatch
  {
    forall k | 0 <= k < |original.links| ensures LinkIn(original.links[k], translated.links, eq) {
      var x := original.links[k];
      assert x in multiset(translated.links);
      var j :| 0 <= j < |translated.links| && translated.links[j] == x;
    }
    forall k | 0 <= k < |translated.links| ensures LinkIn(translated.links[k], original.links, eq) {
      var x := translated.links[k];
      assert x in multiset(original.links);
      var j :| 0 <= j < |original.links| && original.links[j] == x;
    }
  }

  // ---------------------------------------------------------------------
  // Headers
  // ---------------------------------------------------------------------

  /** The dictionary `validate_headers` returns. */
  datatype HeadersReport = HeadersReport(titleMatch: bool, descriptionMatch: bool, slugMatch: bool,
                                         displayedSidebarMatch: bool, importsMatch: bool)
  {
    predicate AllMatch() {
      titleMatch && descriptionMatch && slugMatch && displayedSidebarMatch && importsMatch
    }
  }

  /** `validate_headers(original_page, translated_page)`: one flag per
      compared front-matter field, each true exactly when that field is the
      same on both pages. */
  function ValidateHeaders(original: Page, translated: Page): (r: HeadersReport)
    ensures r.titleMatch <==> original.header.title == translated.header.title
    ensures r.descriptionMatch <==> original.header.description == translated.header.description
    ensures r.slugMatch <==> original.header.slug == translated.header.slug
    ensures r.displayedSidebarMatch <==> original.header.displayedSidebar == translated.header.displayedSidebar
    ensures r.importsMatch <==> original.header.imports == translated.header.imports
  {
    var o, t := original.header, translated.header;
    HeadersReport(o.title == t.title, o.description == t.description, o.slug == t.slug,
                  o.displayedSidebar == t.displayedSidebar, o.imports == t.imports)
  }

  /** Comparing pages is symmetric, and a page compared with any page
      carrying the same five fields, itself included, matches everywhere. */
  lemma HeadersCompare(original: Page, translated: Page)
    ensures ValidateHeaders(original, translated) == ValidateHeaders(translated, original)
    ensures ValidateHeaders(original, original).AllMatch()
    ensures ValidateHeaders(original, translated).AllMatch() <==>
      (original.header.title, original.header.description, original.header.slug,
       original.header.displayedSidebar, original.header.imports) ==
      (translated.header.title, translated.header.description, translated.header.slug,
       translated.header.displayedSidebar, translated.header.imports)
  {
  }

  // ---------------------------------------------------------------------
  // Tabs
  // ---------------------------------------------------------------------

  const TabsOpen := "<Tabs"
  const TabsClose := "</Tabs>"
  const ItemOpen := "<TabItem"
  const ItemClose := "</TabItem>"

  /** `s[a..b]` holds no `>`. */
  predicate NoGt(s: string, a: int, b: int) {
    0 <= a <= b <= |s| && forall k :: a <= k < b ==> s[k] != '>'
  }

  /** `s[a..b]` is all whitespace. */
  predicate Spaces(s: string, a: int, b: int) {
    0 <= a <= b <= |s| && forall k :: a <= k < b ==> IsSpace(s[k])
  }

  /** One block `<TabItem\s*[^>]*>\s*.*?\s*</TabItem>\s*` spans `s[a..b]`,
      its tag closing at `p` and its closing tag at `t`. `\s*[^>]*` is the
      same language as `[^>]*`, since whitespace is never `>`, and
      `\s*.*?\s*` the same as `.*`, so only those are written. */
  ghost predicate ItemParts(s: string, a: int, p: int, t: int, b: int) {
    OccursAt(s, ItemOpen, a) && NoGt(s, a + 8, p) && p < t && OccursAt(s, ItemClose, t)
    && s[p] == '>' && Spaces(s, t + 10, b)
  }

  ghost predicate Item(s: string, a: int, b: int) {
    exists p, t :: ItemParts(s, a, p, t, b)
  }

  /** One or more blocks, one after the other, span `s[a..b]`. */
  ghost predicate Items(s: string, a: int, b: int)
    decreases b - a
  {
    Item(s, a, b) || exists m :: a < m < b && Item(s, a, m) && Items(s, m, b)
  }

  /** The whole pattern spans `s[i..m + 7]`: `<Tabs`, no `>` up to the `>`
      at `p`, whitespace up to `q`, the blocks up to `m`, then `</Tabs>`. */
  ghost predicate TabsParts(s: string, i: int, p: int, q: int, m: int) {
    OccursAt(s, TabsOpen, i) && NoGt(s, i + 5, p) && p < |s| && s[p] == '>'
    && Spaces(s, p + 1, q) && Items(s, q, m) && OccursAt(s, TabsClose, m)
  }

  ghost predicate TabsAt(s: string, i: int) {
    exists p, q, m :: TabsParts(s, i, p, q, m)
  }

  /** `tab_pattern.search(s)` finds a match: one starts somewhere. Whether
      `.*?` is lazy or greedy changes which match is found, never whether
      there is one. */
  ghost predicate PatternFound(s: string) {
    exists i :: 0 <= i < |s| && TabsAt(s, i)
  }

  /** The position of the first `>` at or after `a`, if any (what `[^>]*>` finds). */
  function FirstGt(s: string, a: nat): (r: Option<nat>)
    requires a <= |s|
    ensures r.Some? ==> NoGt(s, a, r.value) && r.value < |s| && s[r.value] == '>'
    ensures r.None? ==> NoGt(s, a, |s|)
    decreases |s| - a
  {
    if a == |s| then None
    else if s[a] == '>' then Some(a)
    else FirstGt(s, a + 1)
  }

  /** Where the whitespace run starting at `a` ends. */
  function SkipSpace(s: string, a: nat): (r: nat)
    requires a <= |s|
    ensures Spaces(s, a, r) && (r == |s| || !IsSpace(s[r]))
    decreases |s| - a
  {
    if a < |s| && IsSpace(s[a]) then SkipSpace(s, a + 1) else a
  }

  /** Some `</TabItem>` at or after `t` is followed, after whitespace, by `</Tabs>`. */
  predicate ClosesFrom(s: string, t: nat)
    decreases |s| - t
  {
    t < |s| && ((t + 10 <= |s| && OccursAt(s, ItemClose, t) && OccursAt(s, TabsClose, SkipSpace(s, t + 10)))
                || ClosesFrom(s, t + 1))
  }

  /** A match starts at `i`, found by following the pattern left to right:
      the first `>` closes each tag, whitespace runs are taken whole, and the
      one block left to find needs only a closing tag followed by `</Tabs>`. */
  predicate StartsAt(s: string, i: nat) {
    match ScanToItem(s, i)
    case None => false
    case Some(p2) => ClosesFrom(s, p2 + 1)
  }

  /** The scan from `i` up to the `>` that ends the first `<TabItem` tag:
      `<Tabs`, the first `>`, a whitespace run, `<TabItem`, the first `>`. */
  function ScanToItem(s: string, i: nat): Option<nat> {
    if !OccursAt(s, TabsOpen, i) then None
    else match FirstGt(s, i + 5)
      case None => None
      case Some(p) =>
        var q := SkipSpace(s, p + 1);
        if OccursAt(s, ItemOpen, q) then FirstGt(s, q + 8) else None
  }

  /** A match starts at `i` or later. */
  predicate FoundFrom(s: string, i: nat)
    decreases |s| - i
  {
    i < |s| && (StartsAt(s, i) || FoundFrom(s, i + 1))
  }

  // Small facts about the scan.

  lemma FirstCharOf(s: string, p: string, i: int)
    requires OccursAt(s, p, i) && p != []
    ensures s[i] == p[0]
  {
    assert s[i..i + |p|][0] == s[i];
  }

  /** The first `>` at or after `a` is at `p`. */
  lemma FirstGtIs(s: string, a: nat, p: nat)
    requires NoGt(s, a, p) && p < |s| && s[p] == '>'
    ensures FirstGt(s, a) == Some(p)
    decreases p - a
  {
    if a < p {
      FirstGtIs(s, a + 1, p);
    }
  }

  lemma SkipSpaceIs(s: string, a: nat, q: nat)
    requires a <= |s| && Spaces(s, a, q) && q < |s| && !IsSpace(s[q])
    ensures SkipSpace(s, a) == q
    decreases |s| - a
  {
    if a < q {
      SkipSpaceIs(s, a + 1, q);
    }
  }

  lemma {:induction false} ClosesFromIntro(s: string, from: nat, t: nat)
    requires from <= t && t + 10 <= |s| && OccursAt(s, ItemClose, t) && OccursAt(s, TabsClose, SkipSpace(s, t + 10))
    ensures ClosesFrom(s, from)
    decreases t - from
  {
    if from < t {
      ClosesFromIntro(s, from + 1, t);
    }
  }

  lemma {:induction false} ClosesFromElim(s: string, from: nat)
    requires ClosesFrom(s, from)
    ensures exists t :: from <= t && t + 10 <= |s| && OccursAt(s, ItemClose, t) && OccursAt(s, TabsClose, SkipSpace(s, t + 10))
    decreases |s| - from
  {
    if !(from + 10 <= |s| && OccursAt(s, ItemClose, from) && OccursAt(s, TabsClose, SkipSpace(s, from + 10))) {
      ClosesFromElim(s, from + 1);
    }
  }

  lemma {:induction false} FoundFromIntro(s: string, from: nat, i: nat)
    requires from <= i < |s| && StartsAt(s, i)
    ensures FoundFrom(s, from)
    decreases i - from
  {
    if from < i {
      FoundFromIntro(s, from + 1, i);
    }
  }

  lemma {:induction false} FoundFromElim(s: string, from: nat)
    requires FoundFrom(s, from)
    ensures exists i :: from <= i < |s| && StartsAt(s, i)
    decreases |s| - from
  {
    if !StartsAt(s, from) {
      FoundFromElim(s, from + 1);
    }
  }

  /** Several blocks in a row are one block: the body of the first runs on
      to the closing tag of the last, since `.*` takes in the tags between. */
  lemma {:induction false} ItemsAreOneItem(s: string, a: int, b: int)
    requires Items(s, a, b)
    ensures Item(s, a, b)
    decreases b - a
  {
    if exists m :: a < m < b && Item(s, a, m) && Items(s, m, b) {
      var m :| a < m < b && Item(s, a, m) && Items(s, m, b);
      ItemsAreOneItem(s, m, b);
      var p1, t1 :| ItemParts(s, a, p1, t1, m);
      var p2, t2 :| ItemParts(s, m, p2, t2, b);
      assert ItemParts(s, a, p1, t2, b);
    }
  }

  /** The scan at `i` follows a match laid out as one block. */
  lemma StartsFromParts(s: string, i: nat, p: nat, q: nat, p2: nat, t: nat, m: nat)
    requires OccursAt(s, TabsOpen, i) && NoGt(s, i + 5, p) && p < |s| && s[p] == '>' && Spaces(s, p + 1, q)
    requires ItemParts(s, q, p2, t, m) && OccursAt(s, TabsClose, m)
    ensures StartsAt(s, i)
  {
    OpenPart(s, i, p, q);
    ItemPart(s, q, p2, t, m);
    ScanToItemIs(s, i, p, q, p2);
    StartsAtIntro(s, i, p2);
  }

  lemma OpenPart(s: string, i: nat, p: nat, q: nat)
    requires NoGt(s, i + 5, p) && p < |s| && s[p] == '>' && Spaces(s, p + 1, q) && OccursAt(s, ItemOpen, q)
    ensures FirstGt(s, i + 5) == Some(p) && SkipSpace(s, p + 1) == q
  {
    FirstGtIs(s, i + 5, p);
    SkipToTag(s, p + 1, q, ItemOpen);
  }

  lemma ItemPart(s: string, q: nat, p2: nat, t: nat, m: nat)
    requires ItemParts(s, q, p2, t, m) && OccursAt(s, TabsClose, m)
    ensures q + 8 <= |s| && FirstGt(s, q + 8) == Some(p2) && ClosesFrom(s, p2 + 1)
  {
    FirstGtIs(s, q + 8, p2);
    ClosesAt(s, p2 + 1, t, m);
  }

  /** A whitespace run that ends at a tag is skipped up to the tag. */
  lemma SkipToTag(s: string, a: nat, q: nat, tag: string)
    requires Spaces(s, a, q) && OccursAt(s, tag, q) && tag != [] && tag[0] == '<'
    ensures SkipSpace(s, a) == q
  {
    FirstCharOf(s, tag, q);
    SkipSpaceIs(s, a, q);
  }

  lemma ClosesAt(s: string, from: nat, t: nat, m: nat)
    requires from <= t && OccursAt(s, ItemClose, t) && Spaces(s, t + 10, m) && OccursAt(s, TabsClose, m)
    ensures ClosesFrom(s, from)
  {
    SkipToTag(s, t + 10, m, TabsClose);
    ClosesFromIntro(s, from, t);
  }

  lemma StartsAtIntro(s: string, i: nat, p2: nat)
    requires ScanToItem(s, i) == Some(p2) && ClosesFrom(s, p2 + 1)
    ensures StartsAt(s, i)
  {
  }

  lemma ScanToItemIs(s: string, i: nat, p: nat, q: nat, p2: nat)
    requires OccursAt(s, TabsOpen, i) && FirstGt(s, i + 5) == Some(p) && SkipSpace(s, p + 1) == q
    requires OccursAt(s, ItemOpen, q) && FirstGt(s, q + 8) == Some(p2)
    ensures ScanToItem(s, i) == Some(p2)
  {
  }

  /** A match starting at `i` is what the scan finds at `i`. */
  lemma TabsAtStarts(s: string, i: nat)
    requires TabsAt(s, i)
    ensures StartsAt(s, i)
  {
    var p, q, m :| TabsParts(s, i, p, q, m);
    ItemsAreOneItem(s, q, m);
    var p2, t :| ItemParts(s, q, p2, t, m);
    StartsFromParts(s, i, p, q, p2, t, m);
  }

  /** What the scan finds at `i` is a match. */
  lemma StartsTabsAt(s: string, i: nat)
    requires StartsAt(s, i)
    ensures TabsAt(s, i)
  {
    var p2 := ScanThenClose(s, i);
    var p, q := ScanToItemElim(s, i, p2);
    var t := CloseElim(s, p2 + 1);
    PartsFromScan(s, i, p, q, p2, t, SkipSpace(s, t + 10));
  }

  lemma ScanThenClose(s: string, i: nat) returns (p2: nat)
    requires StartsAt(s, i)
    ensures ScanToItem(s, i) == Some(p2) && ClosesFrom(s, p2 + 1)
  {
    p2 := ScanToItem(s, i).value;
  }

  /** Where a `</TabItem>` followed by `</Tabs>` sits, at or after `from`. */
  lemma CloseElim(s: string, from: nat) returns (t: nat)
    requires ClosesFrom(s, from)
    ensures from <= t && t + 10 <= |s| && OccursAt(s, ItemClose, t) && OccursAt(s, TabsClose, SkipSpace(s, t + 10))
  {
    ClosesFromElim(s, from);
    t :| from <= t && t + 10 <= |s| && OccursAt(s, ItemClose, t) && OccursAt(s, TabsClose, SkipSpace(s, t + 10));
  }

  lemma ScanToItemElim(s: string, i: nat, p2: nat) returns (p: nat, q: nat)
    requires ScanToItem(s, i) == Some(p2)
    ensures OccursAt(s, TabsOpen, i) && NoGt(s, i + 5, p) && p < |s| && s[p] == '>'
    ensures Spaces(s, p + 1, q) && OccursAt(s, ItemOpen, q)
    ensures NoGt(s, q + 8, p2) && p2 < |s| && s[p2] == '>'
  {
    p := FirstGt(s, i + 5).value;
    q := SkipSpace(s, p + 1);
  }

  /** The scan's positions, with a closing `</TabItem>` at `t` and `</Tabs>`
      at `m`, lay out a match as one block. */
  lemma PartsFromScan(s: string, i: nat, p: nat, q: nat, p2: nat, t: nat, m: nat)
    requires OccursAt(s, TabsOpen, i) && NoGt(s, i + 5, p) && p < |s| && s[p] == '>'
    requires Spaces(s, p + 1, q) && OccursAt(s, ItemOpen, q)
    requires NoGt(s, q + 8, p2) && p2 < |s| && s[p2] == '>'
    requires p2 + 1 <= t && OccursAt(s, ItemClose, t) && Spaces(s, t + 10, m) && OccursAt(s, TabsClose, m)
    ensures TabsAt(s, i)
  {
    assert ItemParts(s, q, p2, t, m);
    assert Items(s, q, m);
    assert TabsParts(s, i, p, q, m);
  }

  /** The scan and the pattern agree on every text. */
  lemma {:induction false} ScanFindsPattern(s: string)
    ensures FoundFrom(s, 0) <==> PatternFound(s)
  {
    if FoundFrom(s, 0) {
      FoundFromElim(s, 0);
      var i :| 0 <= i < |s| && StartsAt(s, i);
      StartsTabsAt(s, i);
    }
    if PatternFound(s) {
      var i :| 0 <= i < |s| && TabsAt(s, i);
      TabsAtStarts(s, i);
      FoundFromIntro(s, 0, i);
    }
  }

  /** `_validate_tabs_format(content)`. */
  function ValidateTabsFormat(content: string): (r: bool)
    ensures r <==> PatternFound(content)
  {
    ScanFindsPattern(content);
    FoundFrom(content, 0)
  }

  /** The dictionary `validate_tabs` returns. */
  datatype TabsReport = TabsReport(tabsFormatValid: bool)

  /** `validate_tabs(translated_page)`: the pattern check on the page's body. */
  function ValidateTabs(translated: Page): (r: TabsReport)
    ensures r.tabsFormatValid <==> PatternFound(translated.content)
  {
    TabsReport(ValidateTabsFormat(translated.content))
  }

  /** Every match ends with a `</TabItem>` followed, after whitespace only,
      by `</Tabs>`: a text whose last item is left unclosed before
      `</Tabs>` has none. */
  lemma PatternNeedsClosedItem(s: string)
    requires PatternFound(s)
    ensures exists t :: 0 <= t && t + 10 <= |s| && OccursAt(s, ItemClose, t) && OccursAt(s, TabsClose, SkipSpace(s, t + 10))
  {
    var i :| 0 <= i < |s| && TabsAt(s, i);
    var p, q, m :| TabsParts(s, i, p, q, m);
    ItemsAreOneItem(s, q, m);
    var p2, t :| ItemParts(s, q, p2, t, m);
    ClosedItemAt(s, q, p2, t, m);
  }

  lemma ClosedItemAt(s: string, q: int, p2: int, t: int, m: int)
    requires ItemParts(s, q, p2, t, m) && OccursAt(s, TabsClose, m)
    ensures 0 <= t && t + 10 <= |s| && OccursAt(s, ItemClose, t) && OccursAt(s, TabsClose, SkipSpace(s, t + 10))
  {
    SkipToTag(s, t + 10, m, TabsClose);
  }

  /** A text without `<Tabs` has no match. */
  lemma NoTabsNoPattern(s: string)
    requires !Contains(s, TabsOpen)
    ensures !PatternFound(s)
  {
    ContainsIff(s, TabsOpen);
  }

  // Where a match sits in the text does not matter.

  lemma OccursInContext(pre: string, s: string, post: string, p: string, i: int)
    requires OccursAt(s, p, i)
    ensures OccursAt(pre + s + post, p, i + |pre|)
  {
    var u := pre + s + post;
    assert u[i + |pre|..i + |pre| + |p|] == s[i..i + |p|];
  }

  lemma NoGtInContext(pre: string, s: string, post: string, a: int, b: int)
    requires NoGt(s, a, b)
    ensures NoGt(pre + s + post, a + |pre|, b + |pre|)
  {
    var u, d := pre + s + post, |pre|;
    forall k | a + d <= k < b + d ensures u[k] != '>' {
      assert u[k] == s[k - d];
    }
  }

  lemma SpacesInContext(pre: string, s: string, post: string, a: int, b: int)
    requires Spaces(s, a, b)
    ensures Spaces(pre + s + post, a + |pre|, b + |pre|)
  {
    var u, d := pre + s + post, |pre|;
    forall k | a + d <= k < b + d ensures IsSpace(u[k]) {
      assert u[k] == s[k - d];
    }
  }

  lemma ItemInContext(pre: string, s: string, post: string, q: int, p2: int, t: int, m: int)
    requires ItemParts(s, q, p2, t, m)
    ensures ItemParts(pre + s + post, q + |pre|, p2 + |pre|, t + |pre|, m + |pre|)
  {
    var u, d := pre + s + post, |pre|;
    OccursInContext(pre, s, post, ItemOpen, q);
    OccursInContext(pre, s, post, ItemClose, t);
    NoGtInContext(pre, s, post, q + 8, p2);
    SpacesInContext(pre, s, post, t + 10, m);
    assert u[p2 + d] == s[p2];
  }

  lemma PartsInContext(pre: string, s: string, post: string, i: int, p: int, q: int, p2: int, t: int, m: int)
    requires OccursAt(s, TabsOpen, i) && NoGt(s, i + 5, p) && p < |s| && s[p] == '>' && Spaces(s, p + 1, q)
    requires ItemParts(s, q, p2, t, m) && OccursAt(s, TabsClose, m)
    ensures TabsParts(pre + s + post, i + |pre|, p + |pre|, q + |pre|, m + |pre|)
  {
    var u, d := pre + s + post, |pre|;
    OccursInContext(pre, s, post, TabsOpen, i);
    OccursInContext(pre, s, post, TabsClose, m);
    NoGtInContext(pre, s, post, i + 5, p);
    SpacesInContext(pre, s, post, p + 1, q);
    assert u[p + d] == s[p];
    ItemInContext(pre, s, post, q, p2, t, m);
    assert Items(u, q + d, m + d);
  }

  /** Text before and after a match leaves it a match. */
  lemma PatternInContext(pre: string, s: string, post: string)
    requires PatternFound(s)
    ensures PatternFound(pre + s + post)
  {
    var i :| 0 <= i < |s| && TabsAt(s, i);
    var p, q, m :| TabsParts(s, i, p, q, m);
    ItemsAreOneItem(s, q, m);
    var p2, t :| ItemParts(s, q, p2, t, m);
    PartsInContext(pre, s, post, i, p, q, p2, t, m);
    assert TabsAt(pre + s + post, i + |pre|);
  }

  /** A Tabs block written out as intended matches, whatever the attributes
      (no `>`), the whitespace and the item's body: the body may hold any
      text, an unclosed `<TabItem>` included. */
  lemma WrittenOutTabsMatch(attrs: string, ws: string, itemAttrs: string, body: string, ws2: string)
    requires '>' !in attrs && '>' !in itemAttrs && AllSpace(ws) && AllSpace(ws2)
    ensures PatternFound((TabsOpen + attrs + ">" + ws) + (ItemOpen + itemAttrs + ">" + body + ItemClose + ws2 + TabsClose))
  {
    var head := TabsOpen + attrs + ">" + ws;
    var rest := ItemOpen + itemAttrs + ">" + body + ItemClose + ws2 + TabsClose;
    var u := head + rest;
    var q := |head|;
    var t := 9 + |itemAttrs| + |body|;
    var m := t + 10 + |ws2|;
    WrittenHead(attrs, ws, rest);
    WrittenItem(itemAttrs, body, ws2);
    ItemAfterHead(head, rest, 8 + |itemAttrs|, t, m);
    FoundFromLayout(u, 5 + |attrs|, q, q + 8 + |itemAttrs|, q + t, q + m);
  }

  /** A block at the start of `v`, closed by `</Tabs>`, stays one after `head`. */
  lemma ItemAfterHead(head: string, v: string, p2: int, t: int, m: int)
    requires ItemParts(v, 0, p2, t, m) && OccursAt(v, TabsClose, m)
    ensures ItemParts(head + v, |head|, p2 + |head|, t + |head|, m + |head|)
    ensures OccursAt(head + v, TabsClose, m + |head|)
  {
    ItemInContext(head, v, [], 0, p2, t, m);
    OccursInContext(head, v, [], TabsClose, m);
    assert head + v + [] == head + v;
  }

  /** A match laid out at the start of `u` as one block is found. */
  lemma FoundFromLayout(u: string, p: nat, q: nat, p2: nat, t: nat, m: nat)
    requires OccursAt(u, TabsOpen, 0) && NoGt(u, 5, p) && p < |u| && u[p] == '>' && Spaces(u, p + 1, q)
    requires ItemParts(u, q, p2, t, m) && OccursAt(u, TabsClose, m)
    ensures PatternFound(u)
  {
    assert Items(u, q, m);
    assert TabsParts(u, 0, p, q, m);
    assert TabsAt(u, 0);
  }

  lemma WrittenHead(attrs: string, ws: string, rest: string)
    requires '>' !in attrs && AllSpace(ws)
    ensures var u := (TabsOpen + attrs + ">" + ws) + rest; var p := 5 + |attrs|;
      OccursAt(u, TabsOpen, 0) && NoGt(u, 5, p) && p < |u| && u[p] == '>' && Spaces(u, p + 1, p + 1 + |ws|)
  {
    var u := (TabsOpen + attrs + ">" + ws) + rest;
    var p := 5 + |attrs|;
    assert u[0..5] == TabsOpen;
    forall k | 5 <= k < p ensures u[k] != '>' { assert u[k] == attrs[k - 5]; }
    forall k | p + 1 <= k < p + 1 + |ws| ensures IsSpace(u[k]) { assert u[k] == ws[k - p - 1]; }
  }

  lemma WrittenItem(itemAttrs: string, body: string, ws2: string)
    requires '>' !in itemAttrs && AllSpace(ws2)
    ensures var v := ItemOpen + itemAttrs + ">" + body + ItemClose + ws2 + TabsClose;
      var t := 9 + |itemAttrs| + |body|;
      ItemParts(v, 0, 8 + |itemAttrs|, t, t + 10 + |ws2|) && OccursAt(v, TabsClose, t + 10 + |ws2|)
  {
    var v := ItemOpen + itemAttrs + ">" + body + ItemClose + ws2 + TabsClose;
    var p2 := 8 + |itemAttrs|;
    var t := p2 + 1 + |body|;
    var m := t + 10 + |ws2|;
    assert v[0..8] == ItemOpen;
    forall k | 8 <= k < p2 ensures v[k] != '>' { assert v[k] == itemAttrs[k - 8]; }
    assert v[p2] == '>';
    assert v[t..t + 10] == ItemClose;
    forall k | t + 10 <= k < m ensures IsSpace(v[k]) { assert v[k] == ws2[k - t - 10]; }
    assert v[m..m + 7] == TabsClose;
  }
}
