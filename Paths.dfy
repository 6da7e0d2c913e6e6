/** What the translator takes from `pathlib`: a path's file name, its suffix
    and stem, and the order in which `sorted` puts paths. Paths are taken as
    already normalised text with `/` as the separator. */
module Paths {
  import opened Wrappers
  import opened Text

  /** `PurePath(p).name`: the text after the last `/`. */
  function Name(p: string): (r: string)
    ensures '/' !in r
    ensures EndsWith(p, r)
    ensures |r| < |p| ==> p[|p| - |r| - 1] == '/'
  {
    if p == [] then []
    else if p[|p| - 1] == '/' then []
    else Name(p[..|p| - 1]) + [p[|p| - 1]]
  }

  /** Where the file name is split into stem and suffix, if anywhere: the last
      `.` of the name, unless it is the first or the last character. */
  function DotIndex(name: string): (r: Option<nat>)
    ensures r.Some? ==> 0 < r.value < |name| - 1 && name[r.value] == '.'
    ensures r.Some? ==> forall j :: r.value < j < |name| ==> name[j] != '.'
    ensures r.None? ==> forall i :: 0 < i < |name| - 1 && name[i] == '.' ==> name[|name| - 1] == '.'
  {
    var last := RFind(name, ".");
    assert forall j :: 0 <= j < |name| ==> (OccursAt(name, ".", j) <==> name[j] == '.') by {
      forall j | 0 <= j < |name| ensures OccursAt(name, ".", j) <==> name[j] == '.' {
        assert name[j..j + 1] == [name[j]];
      }
    }
    match last
    case Some(i) => if 0 < i < |name| - 1 then Some(i) else None
    case None => None
  }

  /** `PurePath(p).suffix`: the name from its last inner `.` on, or nothing. */
  function Suffix(p: string): string {
    var n := Name(p);
    match DotIndex(n)
    case Some(i) => n[i..]
    case None => []
  }

  /** `PurePath(p).stem`: the name without its suffix. */
  function Stem(p: string): string {
    var n := Name(p);
    match DotIndex(n)
    case Some(i) => n[..i]
    case None => n
  }

  /** The stem and the suffix together make up the file name. */
  lemma StemSuffix(p: string)
    ensures Stem(p) + Suffix(p) == Name(p)
    ensures Suffix(p) == [] || (Suffix(p)[0] == '.' && '.' !in Suffix(p)[1..] && |Suffix(p)| >= 2)
  {
    var n := Name(p);
    match DotIndex(n)
    case Some(i) =>
      assert Stem(p) == n[..i] && Suffix(p) == n[i..];
      SplitAtLastDot(n, i);
    case None =>
  }

  lemma SplitAtLastDot(n: string, i: nat)
    requires 0 < i < |n| - 1 && n[i] == '.' && forall j :: i < j < |n| ==> n[j] != '.'
    ensures n[..i] + n[i..] == n
    ensures n[i..][0] == '.' && '.' !in n[i..][1..] && |n[i..]| >= 2
  {
    assert n[i..][1..] == n[i + 1..];
  }

  lemma {:induction false} NameOfFile(dir: string, file: string)
    requires '/' !in file
    ensures Name(dir + "/" + file) == file
    decreases |file|
  {
    var p := dir + "/" + file;
    if file == [] {
      assert p[|p| - 1] == '/';
    } else {
      var last := file[|file| - 1];
      assert p[..|p| - 1] == dir + "/" + file[..|file| - 1];
      NameOfFile(dir, file[..|file| - 1]);
      assert file[..|file| - 1] + [last] == file;
    }
  }

  /** A file `<dir>/<base><ext>`, with `ext` a dot and at least one further
      character, none of them a dot, has the stem `base` and the suffix
      `ext` (so `configs/language_dicts/ja.yaml` has the stem `ja`). */
  lemma StemAndSuffixOfFile(dir: string, base: string, ext: string)
    requires base != [] && '/' !in base
    requires |ext| >= 2 && ext[0] == '.' && '.' !in ext[1..] && '/' !in ext
    ensures Stem(dir + "/" + base + ext) == base
    ensures Suffix(dir + "/" + base + ext) == ext
  {
    var file := base + ext;
    assert '/' !in file by {
      forall k | 0 <= k < |file| ensures file[k] != '/' {
        if k < |base| { assert file[k] == base[k]; } else { assert file[k] == ext[k - |base|]; }
      }
    }
    assert dir + "/" + base + ext == dir + "/" + file;
    NameOfFile(dir, file);
    assert 0 < |base| < |file| - 1 && file[|base|] == '.';
    assert file[|file| - 1] == ext[1..][|ext| - 2];
    assert forall j :: |base| < j < |file| ==> file[j] != '.' by {
      forall j | |base| < j < |file| ensures file[j] != '.' {
        assert file[j] == ext[1..][j - |base| - 1];
      }
    }
    var d := DotIndex(file);
    assert d.Some?;
    var i := d.value;
    assert i == |base|;
    assert file[..|base|] == base;
    assert file[|base|..] == ext;
  }

  /** Python's `a < b` on two strings: code-point lexicographic order. */
  predicate StrLess(a: string, b: string) {
    if a == [] then b != []
    else if b == [] then false
    else a[0] < b[0] || (a[0] == b[0] && StrLess(a[1..], b[1..]))
  }

  /** Python's `a < b` on two lists of strings: lexicographic order on `StrLess`. */
  predicate PartsLess(a: seq<string>, b: seq<string>) {
    if a == [] then b != []
    else if b == [] then false
    else StrLess(a[0], b[0]) || (a[0] == b[0] && PartsLess(a[1..], b[1..]))
  }

  /** `PurePath(p) < PurePath(q)`: the paths' `/`-separated parts compared as lists. */
  predicate PathLess(p: string, q: string) {
    PartsLess(Split(p, '/'), Split(q, '/'))
  }

  lemma {:induction false} StrLessAsymmetric(a: string, b: string)
    ensures StrLess(a, b) ==> !StrLess(b, a)
  {
    if a != [] && b != [] && a[0] == b[0] {
      StrLessAsymmetric(a[1..], b[1..]);
    }
  }

  lemma {:induction false} PartsLessAsymmetric(a: seq<string>, b: seq<string>)
    ensures PartsLess(a, b) ==> !PartsLess(b, a)
  {
    if a != [] && b != [] {
      StrLessAsymmetric(a[0], b[0]);
      if a[0] == b[0] {
        PartsLessAsymmetric(a[1..], b[1..]);
      }
    }
  }

  /** No two paths are each less than the other. */
  lemma PathLessAsymmetric(p: string, q: string)
    ensures PathLess(p, q) ==> !PathLess(q, p)
  {
    PartsLessAsymmetric(Split(p, '/'), Split(q, '/'));
  }

  lemma {:induction false} StrLessTotal(a: string, b: string)
    ensures a != b ==> StrLess(a, b) || StrLess(b, a)
  {
    if a != [] && b != [] && a[0] == b[0] {
      assert a == [a[0]] + a[1..] && b == [b[0]] + b[1..];
      StrLessTotal(a[1..], b[1..]);
    }
  }

  lemma {:induction false} PartsLessTotal(a: seq<string>, b: seq<string>)
    ensures a != b ==> PartsLess(a, b) || PartsLess(b, a)
  {
    if a != [] && b != [] {
      StrLessTotal(a[0], b[0]);
      if a[0] == b[0] {
        assert a == [a[0]] + a[1..] && b == [b[0]] + b[1..];
        PartsLessTotal(a[1..], b[1..]);
      }
    }
  }

  /** Of two different paths, one is less than the other. */
  lemma PathLessTotal(p: string, q: string)
    ensures p != q ==> PathLess(p, q) || PathLess(q, p)
  {
    JoinSplit(p, '/');
    JoinSplit(q, '/');
    PartsLessTotal(Split(p, '/'), Split(q, '/'));
  }

  /** Sorted in the sense of Python's `list.sort`: no element is less than the one before it. */
  predicate SortedPaths(s: seq<string>) {
    forall i :: 0 < i < |s| ==> !PathLess(s[i], s[i - 1])
  }
}
