/** The few Python string operations the translator relies on: whitespace,
    `strip`, ASCII `lower`, substring search (`in`, `find`, `rfind`),
    `split` on one character and `join`. */
module Text {
  import opened Wrappers

  /** The characters for which Python's `str.isspace` holds (also what `\s`
      matches in a `re` pattern): tab to carriage return, the four
      separators U+001C..U+001F, space, U+0085, U+00A0, U+1680, U+2000..U+200A,
      U+2028, U+2029, U+202F, U+205F and U+3000. */
  predicate IsSpace(c: char) {
    || '\t' <= c <= '\r'
    || '\U{1C}' <= c <= ' '
    || c == '\U{85}' || c == '\U{A0}' || c == '\U{1680}'
    || '\U{2000}' <= c <= '\U{200A}'
    || c == '\U{2028}' || c == '\U{2029}' || c == '\U{202F}' || c == '\U{205F}' || c == '\U{3000}'
  }

  predicate AllSpace(s: string) {
    forall i :: 0 <= i < |s| ==> IsSpace(s[i])
  }

  /** `s.lstrip()`: the longest suffix of `s` that does not start with whitespace. */
  function TrimStart(s: string): (r: string)
    ensures |r| <= |s| && r == s[|s| - |r|..]
    ensures r == [] || !IsSpace(r[0])
  {
    if s != [] && IsSpace(s[0]) then TrimStart(s[1..]) else s
  }

  /** What `lstrip` cuts off is whitespace. */
  lemma {:induction false} TrimStartCut(s: string)
    ensures AllSpace(s[..|s| - |TrimStart(s)|])
  {
    if s != [] && IsSpace(s[0]) {
      TrimStartCut(s[1..]);
      var k := |s| - |TrimStart(s)|;
      forall j | 0 <= j < k ensures IsSpace(s[..k][j]) {
        if j > 0 {
          assert s[..k][j] == s[1..][..k - 1][j - 1];
        }
      }
    }
  }

  /** `s.rstrip()`: the longest prefix of `s` that does not end with whitespace. */
  function TrimEnd(s: string): (r: string)
    ensures |r| <= |s| && r == s[..|r|]
    ensures r == [] || !IsSpace(r[|r| - 1])
  {
    if s != [] && IsSpace(s[|s| - 1]) then TrimEnd(s[..|s| - 1]) else s
  }

  /** What `rstrip` cuts off is whitespace. */
  lemma {:induction false} TrimEndCut(s: string)
    ensures AllSpace(s[|TrimEnd(s)|..])
  {
    if s != [] && IsSpace(s[|s| - 1]) {
      var init := s[..|s| - 1];
      TrimEndCut(init);
      var k := |TrimEnd(s)|;
      forall j | 0 <= j < |s| - k ensures IsSpace(s[k..][j]) {
        if k + j < |s| - 1 {
          assert s[k..][j] == init[k..][j];
        }
      }
    }
  }

  /** `s.strip()`: `s` without its leading and trailing whitespace. */
  function Strip(s: string): (r: string)
    ensures |r| <= |s|
    ensures r == [] || (!IsSpace(r[0]) && !IsSpace(r[|r| - 1]))
  {
    TrimEnd(TrimStart(s))
  }

  /** `s.strip()` is the slice of `s` left once the leading and the trailing
      whitespace are cut off. */
  lemma StripSlice(s: string)
    ensures var i := |s| - |TrimStart(s)|; var r := Strip(s);
      i + |r| <= |s| && r == s[i..i + |r|] && AllSpace(s[..i]) && AllSpace(s[i + |r|..])
  {
    StripKept(s);
    TrimStartCut(s);
    StripCutEnd(s);
  }

  lemma StripKept(s: string)
    ensures var i := |s| - |TrimStart(s)|; var r := Strip(s);
      i + |r| <= |s| && r == s[i..i + |r|]
  {
    var t := TrimStart(s);
    SliceParts(s, |s| - |t|, |TrimEnd(t)|);
  }

  lemma StripCutEnd(s: string)
    ensures AllSpace(s[|s| - |TrimStart(s)| + |Strip(s)|..])
  {
    var t := TrimStart(s);
    TrimEndCut(t);
    SliceParts(s, |s| - |t|, |TrimEnd(t)|);
  }

  lemma SliceParts<T>(s: seq<T>, i: nat, n: nat)
    requires i + n <= |s|
    ensures s[i..][..n] == s[i..i + n] && s[i..][n..] == s[i + n..]
  {
  }

  /** A string strips to nothing exactly when it is all whitespace. */
  lemma StripEmptyIff(s: string)
    ensures Strip(s) == [] <==> AllSpace(s)
  {
    var t := TrimStart(s);
    if Strip(s) == [] {
      TrimStartCut(s);
      TrimEndCut(t);
      assert s[..|s|] == s;
    } else {
      StripKept(s);
    }
  }

  function LowerChar(c: char): char {
    if 'A' <= c <= 'Z' then (c as int + 32) as char else c
  }

  /** `s.lower()`, restricted to ASCII letters. */
  function Lower(s: string): (r: string)
    ensures |r| == |s|
    ensures forall i :: 0 <= i < |s| ==> r[i] == LowerChar(s[i])
  {
    seq(|s|, i requires 0 <= i < |s| => LowerChar(s[i]))
  }

  predicate StartsWith(s: string, p: string) {
    |p| <= |s| && s[..|p|] == p
  }

  predicate EndsWith(s: string, p: string) {
    |p| <= |s| && s[|s| - |p|..] == p
  }

  /** `p` occurs in `s` starting at index `i`. */
  predicate OccursAt(s: string, p: string, i: int) {
    0 <= i && i + |p| <= |s| && s[i..i + |p|] == p
  }

  /** `s.find(p, from)`: the first occurrence of `p` at or after `from`. */
  function FindFrom(s: string, p: string, from: nat): (r: Option<nat>)
    ensures r.Some? ==> from <= r.value && OccursAt(s, p, r.value)
    ensures r.Some? ==> forall j :: from <= j < r.value ==> !OccursAt(s, p, j)
    ensures r.None? ==> forall j :: from <= j ==> !OccursAt(s, p, j)
    decreases |s| - from
  {
    if from + |p| > |s| then None
    else if s[from..from + |p|] == p then Some(from)
    else FindFrom(s, p, from + 1)
  }

  /** Python's `p in s`. */
  predicate Contains(s: string, p: string) {
    FindFrom(s, p, 0).Some?
  }

  lemma ContainsIff(s: string, p: string)
    ensures Contains(s, p) <==> exists i :: OccursAt(s, p, i)
  {
    if exists i :: OccursAt(s, p, i) {
      var i :| OccursAt(s, p, i);
      assert 0 <= i;
    }
  }

  /** The last occurrence of `p` in `s` at an index below `bound`. */
  function FindLastBelow(s: string, p: string, bound: nat): (r: Option<nat>)
    ensures r.Some? ==> r.value < bound && OccursAt(s, p, r.value)
    ensures r.Some? ==> forall j :: r.value < j < bound ==> !OccursAt(s, p, j)
    ensures r.None? ==> forall j :: j < bound ==> !OccursAt(s, p, j)
  {
    if bound == 0 then None
    else if OccursAt(s, p, bound - 1) then Some(bound - 1)
    else FindLastBelow(s, p, bound - 1)
  }

  /** `s.rfind(p)`: the last occurrence of `p` in `s`. */
  function RFind(s: string, p: string): (r: Option<nat>)
    ensures r.Some? ==> OccursAt(s, p, r.value) && forall j :: r.value < j ==> !OccursAt(s, p, j)
    ensures r.None? <==> !Contains(s, p)
  {
    ContainsIff(s, p);
    var r := FindLastBelow(s, p, |s| + 1);
    assert forall j :: OccursAt(s, p, j) ==> j < |s| + 1;
    r
  }

  /** `s.split(c)` for a one-character separator: the pieces between the occurrences of `c`. */
  function Split(s: string, c: char): (r: seq<string>)
    ensures |r| >= 1
    ensures forall k :: 0 <= k < |r| ==> c !in r[k]
  {
    if s == [] then [[]]
    else
      var rest := Split(s[1..], c);
      if s[0] == c then [[]] + rest
      else [[s[0]] + rest[0]] + rest[1..]
  }

  /** `sep.join(parts)`. */
  function Join(parts: seq<string>, sep: string): string {
    if |parts| == 0 then []
    else if |parts| == 1 then parts[0]
    else parts[0] + sep + Join(parts[1..], sep)
  }

  lemma {:induction false} JoinSplit(s: string, c: char)
    ensures Join(Split(s, c), [c]) == s
  {
    if s != [] {
      var rest := Split(s[1..], c);
      JoinSplit(s[1..], c);
      if s[0] != c && |rest| > 1 {
        assert Join(rest, [c]) == rest[0] + [c] + Join(rest[1..], [c]);
      }
    }
  }

  lemma {:induction false} SplitJoin(parts: seq<string>, c: char)
    requires |parts| >= 1
    requires forall k :: 0 <= k < |parts| ==> c !in parts[k]
    ensures Split(Join(parts, [c]), c) == parts
    decreases |parts|, |parts[0]|
  {
    var p0 := parts[0];
    if |parts| == 1 {
      if p0 != [] {
        SplitJoin([p0[1..]], c);
        assert p0[0] != c;
        assert [p0[0]] + p0[1..] == p0;
      }
    } else if p0 == [] {
      SplitJoin(parts[1..], c);
      assert Join(parts, [c]) == [c] + Join(parts[1..], [c]);
      assert parts == [[]] + parts[1..];
    } else {
      var parts' := [p0[1..]] + parts[1..];
      SplitJoin(parts', c);
      assert parts'[1..] == parts[1..];
      assert Join(parts, [c]) == [p0[0]] + Join(parts', [c]);
      assert p0[0] != c;
      assert [p0[0]] + p0[1..] == p0;
    }
  }

  /** Concatenation of a sequence of strings. */
  function Concat(parts: seq<string>): string {
    if parts == [] then [] else parts[0] + Concat(parts[1..])
  }

  lemma {:induction false} ConcatAppend(parts: seq<string>, last: string)
    ensures Concat(parts + [last]) == Concat(parts) + last
  {
    if parts != [] {
      ConcatAppend(parts[1..], last);
      assert (parts + [last])[1..] == parts[1..] + [last];
    }
  }

  lemma {:induction false} ConcatSplit(parts: seq<string>, k: nat)
    requires k <= |parts|
    ensures Concat(parts) == Concat(parts[..k]) + Concat(parts[k..])
  {
    if k > 0 {
      ConcatSplit(parts[1..], k - 1);
      assert parts[1..][..k - 1] == parts[..k][1..];
      assert parts[1..][k - 1..] == parts[k..];
    }
  }

  /** `a` can be obtained from `b` by deleting elements. */
  predicate IsSubsequence<T(==)>(a: seq<T>, b: seq<T>)
    decreases |b|
  {
    a == [] || (b != [] && ((a[0] == b[0] && IsSubsequence(a[1..], b[1..])) || IsSubsequence(a, b[1..])))
  }
}
