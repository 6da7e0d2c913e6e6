/** The markdown loader: stripping HTML comments and cutting a document into
    chunks at its headings. */
module Loader {
  import opened Wrappers
  import opened Text

  const CommentOpen: string := "<!--"
  const CommentClose: string := "-->"

  // ---------------------------------------------------------------------------
  // Comment removal
  // ---------------------------------------------------------------------------

  /** `re.sub(r'<!--.*?-->', '', s, flags=re.DOTALL)`. The pattern is tried at
      each position from the left; a match runs from a `<!--` to the first
      `-->` that starts after it (possibly across lines) and is replaced by
      nothing, and the scan resumes after it. When the first remaining `<!--`
      has no `-->` after it, no later one has either, and the rest of the text
      is kept as it is. */
  function RemoveComments(s: string): (r: string)
    ensures |r| <= |s|
    decreases |s|
  {
    if s == [] then []
    else if OccursAt(s, CommentOpen, 0) then
      match FindFrom(s, CommentClose, 4)
      case Some(j) => RemoveComments(s[j + 3..])
      case None => s
    else [s[0]] + RemoveComments(s[1..])
  }

  /** Dropping the first character shifts every occurrence one place left. */
  lemma OccursShift(t: string, p: string)
    requires t != []
    ensures forall i :: 0 <= i ==> (OccursAt(t[1..], p, i) <==> OccursAt(t, p, i + 1))
  {
    forall i | 0 <= i ensures OccursAt(t[1..], p, i) <==> OccursAt(t, p, i + 1) {
      if i + |p| <= |t| - 1 {
        assert t[1..][i..i + |p|] == t[i + 1..i + 1 + |p|];
      }
    }
  }

  /** An occurrence in `a` is one in `a + b` too. */
  lemma OccursInPrefix(a: string, b: string, p: string)
    ensures forall i :: OccursAt(a, p, i) ==> OccursAt(a + b, p, i)
  {
    forall i | OccursAt(a, p, i) ensures OccursAt(a + b, p, i) {
      assert (a + b)[i..i + |p|] == a[i..i + |p|];
    }
  }

  /** An occurrence in `a + b` that ends within `a` is one in `a`. */
  lemma OccursInPrefixBack(a: string, b: string, p: string)
    ensures forall i :: i + |p| <= |a| && OccursAt(a + b, p, i) ==> OccursAt(a, p, i)
  {
    forall i | i + |p| <= |a| && OccursAt(a + b, p, i) ensures OccursAt(a, p, i) {
      assert (a + b)[i..i + |p|] == a[i..i + |p|];
    }
  }

  /** An occurrence in `a + b` that starts within `b` is one in `b`. */
  lemma OccursInSuffixBack(a: string, b: string, p: string)
    ensures forall i :: |a| <= i && OccursAt(a + b, p, i) ==> OccursAt(b, p, i - |a|)
  {
    forall i | |a| <= i && OccursAt(a + b, p, i) ensures OccursAt(b, p, i - |a|) {
      assert (a + b)[i..i + |p|] == b[i - |a|..i - |a| + |p|];
    }
  }

  /** When `b` starts with a character that occurs in `p` only at its front,
      no occurrence of `p` in `a + b` begins inside `a` and ends inside `b`. */
  lemma NoStraddle(a: string, b: string, p: string)
    requires b != [] && p != [] && b[0] !in p[1..]
    ensures forall j :: 0 <= j < |a| < j + |p| ==> !OccursAt(a + b, p, j)
  {
    forall j | 0 <= j < |a| < j + |p| <= |a| + |b| ensures !OccursAt(a + b, p, j) {
      var w := (a + b)[j..j + |p|];
      assert w[|a| - j] == b[0];
      assert p[|a| - j] == p[1..][|a| - j - 1];
    }
  }

  /** Text with no `<!--` in it comes back unchanged. */
  lemma {:induction false} RemoveCommentsNoOpener(s: string)
    requires !Contains(s, CommentOpen)
    ensures RemoveComments(s) == s
    decreases |s|
  {
    ContainsIff(s, CommentOpen);
    if s != [] {
      assert !OccursAt(s, CommentOpen, 0);
      OccursShift(s, CommentOpen);
      ContainsIff(s[1..], CommentOpen);
      RemoveCommentsNoOpener(s[1..]);
    }
  }

  /** One step of the scan away from any `<!--`: the character is kept. */
  lemma RemoveCommentsStep(t: string)
    requires t != [] && !OccursAt(t, CommentOpen, 0)
    ensures RemoveComments(t) == [t[0]] + RemoveComments(t[1..])
  {
  }

  /** Text in front of the first `<!--` is kept as it is. */
  lemma {:induction false} RemoveCommentsKeepsPrefix(a: string, s: string)
    requires forall i :: 0 <= i < |a| ==> !OccursAt(a + s, CommentOpen, i)
    ensures RemoveComments(a + s) == a + RemoveComments(s)
    decreases |a|
  {
    var t := a + s;
    if a != [] {
      var t' := a[1..] + s;
      assert t[1..] == t';
      OccursShift(t, CommentOpen);
      forall i | 0 <= i < |a| - 1 ensures !OccursAt(t', CommentOpen, i) {
        assert !OccursAt(t, CommentOpen, i + 1);
      }
      RemoveCommentsKeepsPrefix(a[1..], s);
      KeptPrefixStep(a, s);
    } else {
      assert t == s;
    }
  }

  lemma KeptPrefixStep(a: string, s: string)
    requires a != [] && !OccursAt(a + s, CommentOpen, 0)
    requires RemoveComments(a[1..] + s) == a[1..] + RemoveComments(s)
    ensures RemoveComments(a + s) == a + RemoveComments(s)
  {
    RemoveCommentsStepFront(a, s);
    ConsOnto(a, RemoveComments(a + s), RemoveComments(a[1..] + s), RemoveComments(s));
  }

  /** `RemoveCommentsStep` on `a + s`, with `a` not empty. */
  lemma RemoveCommentsStepFront(a: string, s: string)
    requires a != [] && !OccursAt(a + s, CommentOpen, 0)
    ensures RemoveComments(a + s) == [a[0]] + RemoveComments(a[1..] + s)
  {
    var t := a + s;
    assert t[1..] == a[1..] + s;
    RemoveCommentsStep(t);
  }

  /** `[a[0]] + (a[1..] + z) == a + z`, with the pieces named. */
  lemma ConsOnto(a: string, x: string, y: string, z: string)
    requires a != [] && x == [a[0]] + y && y == a[1..] + z
    ensures x == a + z
  {
    assert [a[0]] + a[1..] == a;
  }

  /** A comment that runs from `<!--` to the first `-->` after it is dropped
      whole, with nothing put in its place. */
  lemma RemoveCommentsDropsComment(body: string, rest: string)
    requires !Contains(body + "--", CommentClose)
    ensures RemoveComments(CommentOpen + body + CommentClose + rest) == RemoveComments(rest)
  {
    var s := CommentOpen + body + CommentClose + rest;
    CommentEnds(body, rest);
    assert OccursAt(s, CommentOpen, 0);
    assert s[4 + |body| + 3..] == rest;
  }

  /** The first `-->` after the opener of `<!--body-->rest` is the one
      written after `body`. */
  lemma CommentEnds(body: string, rest: string)
    requires !Contains(body + "--", CommentClose)
    ensures FindFrom(CommentOpen + body + CommentClose + rest, CommentClose, 4) == Some(4 + |body|)
  {
    var s := CommentOpen + body + CommentClose + rest;
    var e := 4 + |body|;
    assert OccursAt(s, CommentClose, e) by { assert s[e..e + 3] == CommentClose; }
    ContainsIff(body + "--", CommentClose);
    assert s == CommentOpen + (body + "--") + (">" + rest);
    OccursInSuffixBack(CommentOpen, (body + "--") + (">" + rest), CommentClose);
    OccursInPrefixBack(body + "--", ">" + rest, CommentClose);
    forall j | 4 <= j < e ensures !OccursAt(s, CommentClose, j) {
      assert !OccursAt(body + "--", CommentClose, j - 4);
    }
  }

  /** Two texts with the same occurrences of `p` from `from` on have the same
      first one. */
  lemma FindFromAgrees(s: string, t: string, p: string, from: nat)
    requires forall j :: from <= j ==> (OccursAt(s, p, j) <==> OccursAt(t, p, j))
    ensures FindFrom(s, p, from) == FindFrom(t, p, from)
  {
    var x := FindFrom(s, p, from);
    var y := FindFrom(t, p, from);
    if x.Some? && y.Some? {
      assert !(x.value < y.value) && !(y.value < x.value);
    }
  }

  /** When `b` starts with `<` and has no `-->`, every `-->` in `a + b` lies
      wholly inside `a`. */
  lemma CloseInsidePrefix(a: string, b: string)
    requires b != [] && b[0] == '<'
    requires !Contains(b, CommentClose)
    ensures forall j :: OccursAt(a + b, CommentClose, j) <==> OccursAt(a, CommentClose, j)
  {
    ContainsIff(b, CommentClose);
    OccursInPrefix(a, b, CommentClose);
    OccursInPrefixBack(a, b, CommentClose);
    OccursInSuffixBack(a, b, CommentClose);
    NoStraddle(a, b, CommentClose);
  }

  /** A `<!--` with no `-->` anywhere after it stays in the output, with
      everything that follows it. */
  lemma {:induction false} RemoveCommentsKeepsUnclosed(a: string, b: string)
    requires OccursAt(b, CommentOpen, 0)
    requires !Contains(b, CommentClose)
    ensures RemoveComments(a + b) == RemoveComments(a) + b
    decreases |a|
  {
    if a == [] {
      UnclosedAlone(b);
      assert a + b == b;
    } else if OccursAt(a + b, CommentOpen, 0) {
      OpenerInPrefix(a, b);
      match FindFrom(a, CommentClose, 4)
      case Some(j) =>
        assert OccursAt(a, CommentClose, j);
        RemoveCommentsKeepsUnclosed(a[j + 3..], b);
        OpenerClosed(a, b, j);
      case None =>
        OpenerUnclosed(a, b);
    } else {
      RemoveCommentsKeepsUnclosed(a[1..], b);
      UnclosedAfterChar(a, b);
    }
  }

  lemma UnclosedAlone(b: string)
    requires OccursAt(b, CommentOpen, 0) && !Contains(b, CommentClose)
    ensures RemoveComments(b) == b
  {
    ContainsIff(b, CommentClose);
    assert FindFrom(b, CommentClose, 4).None?;
  }

  lemma OpenerClosed(a: string, b: string, j: nat)
    requires OccursAt(a, CommentOpen, 0) && OccursAt(a + b, CommentOpen, 0)
    requires FindFrom(a + b, CommentClose, 4) == FindFrom(a, CommentClose, 4) == Some(j)
    requires RemoveComments(a[j + 3..] + b) == RemoveComments(a[j + 3..]) + b
    ensures RemoveComments(a + b) == RemoveComments(a) + b
  {
    assert OccursAt(a, CommentClose, j);
    assert (a + b)[j + 3..] == a[j + 3..] + b;
  }

  lemma OpenerUnclosed(a: string, b: string)
    requires OccursAt(a, CommentOpen, 0) && OccursAt(a + b, CommentOpen, 0)
    requires FindFrom(a + b, CommentClose, 4) == FindFrom(a, CommentClose, 4) == None
    ensures RemoveComments(a + b) == RemoveComments(a) + b
  {
  }

  /** An opener at the start of `a + b`, with `b` an unclosed comment, is an
      opener of `a` and is closed in `a + b` where it is closed in `a`. */
  lemma OpenerInPrefix(a: string, b: string)
    requires a != [] && OccursAt(b, CommentOpen, 0) && !Contains(b, CommentClose)
    requires OccursAt(a + b, CommentOpen, 0)
    ensures OccursAt(a, CommentOpen, 0)
    ensures FindFrom(a + b, CommentClose, 4) == FindFrom(a, CommentClose, 4)
  {
    assert b[0] == '<';
    CloseInsidePrefix(a, b);
    NoStraddle(a, b, CommentOpen);
    OccursInPrefixBack(a, b, CommentOpen);
    FindFromAgrees(a + b, a, CommentClose, 4);
  }

  lemma UnclosedAfterChar(a: string, b: string)
    requires a != [] && OccursAt(b, CommentOpen, 0)
    requires !OccursAt(a + b, CommentOpen, 0)
    requires RemoveComments(a[1..] + b) == RemoveComments(a[1..]) + b
    ensures RemoveComments(a + b) == RemoveComments(a) + b
  {
    var t := a + b;
    OccursInPrefix(a, b, CommentOpen);
    assert t[0] == a[0];
    assert t[1..] == a[1..] + b;
    RemoveCommentsStep(t);
    RemoveCommentsStep(a);
    ConsThenAppend(a[0], RemoveComments(t), RemoveComments(a), RemoveComments(a[1..]), b);
  }

  /** `[c] + (y + z) == ([c] + y) + z`, with the pieces named. */
  lemma ConsThenAppend(c: char, x: string, w: string, y: string, z: string)
    requires x == [c] + (y + z) && w == [c] + y
    ensures x == w + z
  {
  }

  /** Text with one comment between two comment-free pieces loses exactly the
      comment: `"Some content\n<!-- ... -->\nMore content\n"` becomes
      `"Some content\n\nMore content\n"` (no blank line is added). */
  lemma RemoveOneComment(a: string, body: string, b: string)
    requires !Contains(a, CommentOpen) && !Contains(b, CommentOpen)
    requires !Contains(body + "--", CommentClose)
    ensures RemoveComments(a + CommentOpen + body + CommentClose + b) == a + b
  {
    var rest := CommentOpen + body + CommentClose + b;
    assert a + CommentOpen + body + CommentClose + b == a + rest;
    assert rest[0] == '<';
    ContainsIff(a, CommentOpen);
    OccursInPrefixBack(a, rest, CommentOpen);
    NoStraddle(a, rest, CommentOpen);
    RemoveCommentsKeepsPrefix(a, rest);
    RemoveCommentsDropsComment(body, b);
    RemoveCommentsNoOpener(b);
  }

  // ---------------------------------------------------------------------------
  // Splitting at headings
  // ---------------------------------------------------------------------------

  /** The number of `#` characters a line starts with. */
  function LeadingHashes(line: string): (n: nat)
    ensures n <= |line|
    ensures forall i :: 0 <= i < n ==> line[i] == '#'
    ensures n < |line| ==> line[n] != '#'
  {
    if line != [] && line[0] == '#' then 1 + LeadingHashes(line[1..]) else 0
  }

  /** `re.compile(r'^(#{1,6} .+)$', re.MULTILINE).match(line)`: one to six
      `#`, a space, and at least one character that is not a line break. */
  predicate IsHeading(line: string) {
    var n := LeadingHashes(line);
    1 <= n <= 6 && n + 1 < |line| && line[n] == ' ' && line[n + 1] != '\n'
  }

  /** `re.compile(r'^```').match(line)`: the line opens or closes a code fence. */
  predicate IsFence(line: string) {
    StartsWith(line, "```")
  }

  /** Whether the walk is inside a code fence once it has seen `lines[..n]`:
      each fence line flips the flag. */
  function InFence(lines: seq<string>, n: nat): bool
    requires n <= |lines|
  {
    if n == 0 then false else InFence(lines, n - 1) != IsFence(lines[n - 1])
  }

  /** Line `i` starts a new chunk: it is a heading, the fence flag (after line
      `i` itself has flipped it) is off, and something has accumulated before
      it (every line but the first). */
  predicate SplitsAt(lines: seq<string>, i: nat)
    requires i < |lines|
  {
    0 < i && IsHeading(lines[i]) && !InFence(lines, i + 1)
  }

  /** The indices, among the first `n` lines, at which a chunk starts: 0 and
      every splitting heading, in increasing order. */
  function RunStarts(lines: seq<string>, n: nat): (r: seq<nat>)
    requires 1 <= n <= |lines|
    ensures |r| >= 1 && r[0] == 0
    ensures forall k :: 0 <= k < |r| ==> r[k] < n
    ensures CutPoints(r, |lines|)
  {
    if n == 1 then [0]
    else RunStarts(lines, n - 1) + (if SplitsAt(lines, n - 1) then [n - 1] else [])
  }

  lemma RunStartsNext(lines: seq<string>, i: nat)
    requires 1 <= i < |lines|
    ensures RunStarts(lines, i + 1) == RunStarts(lines, i) + (if SplitsAt(lines, i) then [i] else [])
  {
  }

  /** A line other than the first starts a chunk exactly when it splits. */
  lemma {:induction false} RunStartsMembers(lines: seq<string>, n: nat)
    requires 1 <= n <= |lines|
    ensures forall i :: 0 < i < n ==> (i in RunStarts(lines, n) <==> SplitsAt(lines, i))
  {
    if n > 1 {
      RunStartsMembers(lines, n - 1);
    }
  }

  /** The chunk boundaries of a line list: every run start, then the end. */
  function Boundaries(lines: seq<string>): (b: seq<nat>)
    requires |lines| >= 1
    ensures |b| >= 2 && b[0] == 0 && b[|b| - 1] == |lines|
    ensures CutPoints(b, |lines|)
  {
    RunStarts(lines, |lines|) + [|lines|]
  }

  /** The text of one chunk: its lines joined by newlines, then stripped. */
  function ChunkOf(run: seq<string>): string {
    Strip(Join(run, "\n"))
  }

  /** Increasing cut points within a sequence of length `n`, starting anywhere. */
  predicate CutPoints(b: seq<nat>, n: nat) {
    (forall k :: 0 <= k < |b| ==> b[k] <= n) && (forall k :: 0 < k < |b| ==> b[k - 1] < b[k])
  }

  /** The text of each run, in order, `f` giving the text of one run. */
  function ChunksOf<T>(runs: seq<T>, f: T -> string): (r: seq<string>)
    ensures |r| == |runs|
    ensures forall k :: 0 <= k < |runs| ==> r[k] == f(runs[k])
  {
    if runs == [] then [] else [f(runs[0])] + ChunksOf(runs[1..], f)
  }

  /** The slices of a sequence between consecutive cut points. */
  function SlicesAt<T>(xs: seq<T>, b: seq<nat>): (r: seq<seq<T>>)
    requires CutPoints(b, |xs|)
    ensures |b| >= 1 ==> |r| == |b| - 1
    ensures forall k :: 0 <= k < |b| - 1 ==> r[k] == xs[b[k]..b[k + 1]]
    decreases |b|
  {
    if |b| < 2 then [] else [xs[b[0]..b[1]]] + SlicesAt(xs, b[1..])
  }

  /** What `split_markdown` returns, stated through the chunk boundaries. */
  function Chunks(content: string): seq<string>
  {
    ChunksOf(Runs(content), ChunkOf)
  }

  /** The runs of lines behind the chunks. */
  function Runs(content: string): seq<seq<string>>
  {
    var lines := Split(content, '\n');
    SlicesAt(lines, Boundaries(lines))
  }

  function Flatten<T>(xss: seq<seq<T>>): seq<T> {
    if xss == [] then [] else xss[0] + Flatten(xss[1..])
  }

  /** Cutting a sequence at increasing indices and gluing the pieces back gives it back. */
  lemma {:induction false} FlattenSlices<T>(xs: seq<T>, b: seq<nat>)
    requires |b| >= 1 && b[|b| - 1] == |xs| && CutPoints(b, |xs|)
    ensures Flatten(SlicesAt(xs, b)) == xs[b[0]..]
    decreases |b|
  {
    if |b| > 1 {
      FlattenSlices(xs, b[1..]);
      assert xs[b[0]..b[1]] + xs[b[1]..] == xs[b[0]..];
    }
  }

  /** The runs cover the lines in order, with nothing left out or repeated,
      and none of them is empty. */
  lemma RunsCoverLines(content: string)
    ensures Flatten(Runs(content)) == Split(content, '\n')
    ensures |Runs(content)| >= 1 && forall k :: 0 <= k < |Runs(content)| ==> Runs(content)[k] != []
  {
    var lines := Split(content, '\n');
    var b := Boundaries(lines);
    FlattenSlices(lines, b);
    assert lines[0..] == lines;
    SlicesNonEmpty(lines, b);
  }

  /** Slices between strictly increasing cut points are not empty. */
  lemma SlicesNonEmpty<T>(xs: seq<T>, b: seq<nat>)
    requires |b| >= 1 && CutPoints(b, |xs|)
    ensures forall k :: 0 <= k < |SlicesAt(xs, b)| ==> SlicesAt(xs, b)[k] != []
  {
    var runs := SlicesAt(xs, b);
    forall k | 0 <= k < |runs| ensures runs[k] != [] {
      assert b[k] < b[k + 1];
      assert |runs[k]| == b[k + 1] - b[k];
    }
  }

  /** Every run but the first starts at a heading outside any code fence. */
  lemma RunsStartAtHeadings(content: string)
    ensures var runs := Runs(content);
      forall k :: 1 <= k < |runs| ==> runs[k] != [] && IsHeading(runs[k][0]) && !InFence(Split(content, '\n'), Boundaries(Split(content, '\n'))[k] + 1)
  {
    var lines := Split(content, '\n');
    var b := Boundaries(lines);
    var rs := RunStarts(lines, |lines|);
    var runs := SlicesAt(lines, b);
    assert runs == Runs(content);
    RunStartsMembers(lines, |lines|);
    forall k | 1 <= k < |runs| ensures runs[k] != [] && IsHeading(runs[k][0]) && !InFence(lines, b[k] + 1) {
      assert b[k] < b[k + 1];
      assert runs[k] == lines[b[k]..b[k + 1]];
      assert runs[k][0] == lines[b[k]];
      assert b[k] == rs[k];
      assert rs[k] in rs;
      assert rs[k - 1] < rs[k];
      assert 0 < rs[k] < |lines|;
    }
  }

  /** The number of headings among the first `n` lines that split. */
  function CountSplits(lines: seq<string>, n: nat): nat
    requires n <= |lines|
  {
    if n == 0 then 0 else CountSplits(lines, n - 1) + (if SplitsAt(lines, n - 1) then 1 else 0)
  }

  lemma {:induction false} RunStartsCount(lines: seq<string>, n: nat)
    requires 1 <= n <= |lines|
    ensures |RunStarts(lines, n)| == 1 + CountSplits(lines, n)
  {
    if n > 1 {
      RunStartsCount(lines, n - 1);
    }
  }

  /** The number of chunks is one more than the number of headings that split. */
  lemma ChunkCount(content: string)
    ensures var lines := Split(content, '\n'); |Chunks(content)| == 1 + CountSplits(lines, |lines|)
  {
    var lines := Split(content, '\n');
    RunStartsCount(lines, |lines|);
  }

  /** A heading inside a code fence never starts a chunk. */
  lemma FencedHeadingNeverSplits(content: string, i: nat)
    requires var lines := Split(content, '\n'); 0 < i < |lines| && InFence(lines, i + 1)
    ensures var lines := Split(content, '\n'); i !in Boundaries(lines)
  {
    var lines := Split(content, '\n');
    RunStartsMembers(lines, |lines|);
  }

  /** The empty document is one empty chunk: empty chunks are not dropped. */
  lemma ChunksOfEmpty()
    ensures Chunks("") == [""]
  {
    var lines := Split("", '\n');
    assert lines == [""];
    assert Boundaries(lines) == [0, 1];
    assert lines[0..1] == [""];
  }

  /** The chunks closed once the first `i` lines have been walked. */
  function Closed(lines: seq<string>, i: nat): seq<string>
    requires 1 <= i <= |lines|
  {
    ChunksOf(SlicesAt(lines, RunStarts(lines, i)), ChunkOf)
  }

  /** Where the chunk still open after the first `i` lines starts. */
  function OpenStart(lines: seq<string>, i: nat): (s: nat)
    requires 1 <= i <= |lines|
    ensures s < i
  {
    var rs := RunStarts(lines, i);
    rs[|rs| - 1]
  }

  lemma SlicesAtSnoc<T>(xs: seq<T>, b: seq<nat>, x: nat)
    requires |b| >= 1 && CutPoints(b, |xs|) && CutPoints(b + [x], |xs|)
    requires b[|b| - 1] <= x <= |xs|
    ensures SlicesAt(xs, b + [x]) == SlicesAt(xs, b) + [xs[b[|b| - 1]..x]]
  {
    var b' := b + [x];
    var l := SlicesAt(xs, b');
    var r := SlicesAt(xs, b) + [xs[b[|b| - 1]..x]];
    assert |l| == |r|;
    forall k | 0 <= k < |l| ensures l[k] == r[k] {
      assert l[k] == xs[b'[k]..b'[k + 1]];
      assert b'[k] == b[k];
      if k < |b| - 1 {
        assert b'[k + 1] == b[k + 1];
      } else {
        assert b'[k + 1] == x;
      }
    }
  }

  lemma ChunksOfAppend<T>(a: seq<T>, b: seq<T>, f: T -> string)
    ensures ChunksOf(a + b, f) == ChunksOf(a, f) + ChunksOf(b, f)
  {
    var l := ChunksOf(a + b, f);
    var r := ChunksOf(a, f) + ChunksOf(b, f);
    forall k | 0 <= k < |l| ensures l[k] == r[k] {
      if k < |a| { assert (a + b)[k] == a[k]; } else { assert (a + b)[k] == b[k - |a|]; }
    }
  }

  /** Adding a cut point adds the chunk between the last two. */
  lemma ChunksSnoc<T>(xs: seq<T>, rs: seq<nat>, x: nat, f: seq<T> -> string)
    requires |rs| >= 1 && CutPoints(rs, |xs|) && CutPoints(rs + [x], |xs|)
    requires rs[|rs| - 1] <= x <= |xs|
    ensures ChunksOf(SlicesAt(xs, rs + [x]), f) == ChunksOf(SlicesAt(xs, rs), f) + [f(xs[rs[|rs| - 1]..x])]
  {
    SlicesAtSnoc(xs, rs, x);
    ChunksOfAppend(SlicesAt(xs, rs), [xs[rs[|rs| - 1]..x]], f);
  }

  /** Walking one more line closes the open chunk exactly when the line splits. */
  lemma ClosedNext(lines: seq<string>, i: nat)
    requires 1 <= i < |lines|
    ensures SplitsAt(lines, i) ==>
      Closed(lines, i + 1) == Closed(lines, i) + [ChunkOf(lines[OpenStart(lines, i)..i])] && OpenStart(lines, i + 1) == i
    ensures !SplitsAt(lines, i) ==> Closed(lines, i + 1) == Closed(lines, i) && OpenStart(lines, i + 1) == OpenStart(lines, i)
  {
    RunStartsNext(lines, i);
    var rs := RunStarts(lines, i);
    if SplitsAt(lines, i) {
      ChunksSnoc(lines, rs, i, ChunkOf);
    } else {
      assert rs + [] == rs;
    }
  }

  /** The chunks of a document are those closed by the walk and the one left open. */
  lemma ChunksAfterWalk(content: string)
    ensures var lines := Split(content, '\n');
      Chunks(content) == Closed(lines, |lines|) + [ChunkOf(lines[OpenStart(lines, |lines|)..|lines|])]
  {
    ChunksAtEnd(Split(content, '\n'));
  }

  lemma ChunksAtEnd(lines: seq<string>)
    requires |lines| >= 1
    ensures ChunksOf(SlicesAt(lines, Boundaries(lines)), ChunkOf)
      == Closed(lines, |lines|) + [ChunkOf(lines[OpenStart(lines, |lines|)..|lines|])]
  {
    var rs := RunStarts(lines, |lines|);
    assert Boundaries(lines) == rs + [|lines|];
    var last := lines[rs[|rs| - 1]..|lines|];
    ChunksSnoc(lines, rs, |lines|, ChunkOf);
    assert ChunksOf(SlicesAt(lines, rs + [|lines|]), ChunkOf) == ChunksOf(SlicesAt(lines, rs), ChunkOf) + [ChunkOf(last)];
    assert Closed(lines, |lines|) == ChunksOf(SlicesAt(lines, rs), ChunkOf);
    assert OpenStart(lines, |lines|) == rs[|rs| - 1];
    assert ChunksOf(SlicesAt(lines, Boundaries(lines)), ChunkOf) == ChunksOf(SlicesAt(lines, rs + [|lines|]), ChunkOf);
  }

  /** Where the walk stands once it has seen the first `i` lines: the
      closed chunks, the lines of the open one and the fence flag. */
  predicate WalkState(lines: seq<string>, i: nat, chunks: seq<string>, current: seq<string>, inCodeBlock: bool)
    requires i <= |lines|
  {
    && inCodeBlock == InFence(lines, i)
    && (i == 0 ==> current == [] && chunks == [])
    && (i > 0 ==> chunks == Closed(lines, i) && current == lines[OpenStart(lines, i)..i])
  }

  lemma WalkFirst(lines: seq<string>)
    requires 0 < |lines|
    ensures WalkState(lines, 1, [], [lines[0]], InFence(lines, 1))
  {
    assert Closed(lines, 1) == [] && OpenStart(lines, 1) == 0;
    assert lines[0..1] == [lines[0]];
  }

  lemma WalkSplit(lines: seq<string>, i: nat)
    requires 0 < i < |lines| && SplitsAt(lines, i)
    ensures WalkState(lines, i + 1, Closed(lines, i) + [ChunkOf(lines[OpenStart(lines, i)..i])], [lines[i]], false)
  {
    ClosedNext(lines, i);
    SliceSingle(lines, i);
  }

  lemma SliceSingle<T>(xs: seq<T>, i: nat)
    requires i < |xs|
    ensures xs[i..i + 1] == [xs[i]]
  {
  }

  lemma WalkJoin(lines: seq<string>, i: nat)
    requires 0 < i < |lines| && !SplitsAt(lines, i)
    ensures WalkState(lines, i + 1, Closed(lines, i), lines[OpenStart(lines, i)..i] + [lines[i]], InFence(lines, i + 1))
  {
    ClosedNext(lines, i);
    SliceSnoc(lines, OpenStart(lines, i), i);
  }

  lemma SliceSnoc<T>(xs: seq<T>, a: nat, b: nat)
    requires a <= b < |xs|
    ensures xs[a..b + 1] == xs[a..b] + [xs[b]]
  {
  }

  /** The walk state after line `i`: a heading outside a fence with
      something accumulated closes the open chunk, and any other line joins
      it. */
  lemma WalkNext(lines: seq<string>, i: nat, chunks: seq<string>, current: seq<string>, inCodeBlock: bool)
    requires i < |lines| && WalkState(lines, i, chunks, current, inCodeBlock)
    ensures var flag := inCodeBlock != IsFence(lines[i]);
      if IsHeading(lines[i]) && !flag && current != [] then WalkState(lines, i + 1, chunks + [ChunkOf(current)], [lines[i]], false)
      else WalkState(lines, i + 1, chunks, current + [lines[i]], flag)
  {
    if i == 0 {
      WalkFirst(lines);
    } else {
      assert |lines[OpenStart(lines, i)..i]| > 0;
      if SplitsAt(lines, i) {
        WalkSplit(lines, i);
      } else {
        WalkJoin(lines, i);
      }
    }
  }

  /** One iteration of the loop of `split_markdown`, on line `i`. */
  method WalkLine(lines: seq<string>, i: nat, chunks: seq<string>, current: seq<string>, inCodeBlock: bool)
    returns (chunks': seq<string>, current': seq<string>, inCodeBlock': bool)
    requires i < |lines| && WalkState(lines, i, chunks, current, inCodeBlock)
    ensures WalkState(lines, i + 1, chunks', current', inCodeBlock')
  {
    WalkNext(lines, i, chunks, current, inCodeBlock);
    var line := lines[i];
    chunks', current', inCodeBlock' := chunks, current, inCodeBlock;
    if IsFence(line) {
      inCodeBlock' := !inCodeBlock';
    }
    if IsHeading(line) && !inCodeBlock' {
      if current' != [] {
        chunks' := chunks' + [ChunkOf(current')];
        current' := [line];
        inCodeBlock' := false;
      } else {
        current' := current' + [line];
      }
    } else {
      current' := current' + [line];
    }
  }

  /** `split_markdown(content)`: walks the lines with a code-fence flag and
      closes the current chunk at each heading met outside a fence. */
  method SplitMarkdown(content: string) returns (chunks: seq<string>)
    ensures chunks == Chunks(content)
  {
    var lines := Split(content, '\n');
    chunks := [];
    var current: seq<string> := [];
    var inCodeBlock := false;
    for i := 0 to |lines|
      invariant WalkState(lines, i, chunks, current, inCodeBlock)
    {
      chunks, current, inCodeBlock := WalkLine(lines, i, chunks, current, inCodeBlock);
    }
    ChunksAfterWalk(content);
    // The last chunk is appended when it holds a line, which it always does:
    // splitting gives at least one line, and a split leaves the heading behind.
    chunks := chunks + [ChunkOf(current)];
  }
}
