/** The older odd-line remover: a file whose lines are mostly blank is
    rewritten with only its even-indexed lines. */
module LegacyUtils {
  import opened Wrappers

  /** How many lines are exactly `"\n"`. */
  function BlankCount(lines: seq<string>): (r: nat)
    ensures r <= |lines|
  {
    if lines == [] then 0 else (if lines[0] == "\n" then 1 else 0) + BlankCount(lines[1..])
  }

  /** The blank fraction exceeds `pctNum / pctDen`: `blank / n > pct`
      with both sides multiplied out, for `n > 0` and `pctDen > 0`. */
  predicate MostlyBlank(lines: seq<string>, pctNum: int, pctDen: nat) {
    BlankCount(lines) * pctDen > pctNum * |lines|
  }

  /** The lines at indices 0, 2, 4, ... */
  function EvenLines(lines: seq<string>): seq<string> {
    if |lines| <= 1 then lines else [lines[0]] + EvenLines(lines[2..])
  }

  /** The even-indexed lines are `ceil(n / 2)` lines, the `k`-th being line `2k`. */
  lemma {:induction false} EvenLinesIndex(lines: seq<string>)
    ensures |EvenLines(lines)| == (|lines| + 1) / 2
    ensures forall k :: 0 <= k < |EvenLines(lines)| ==> EvenLines(lines)[k] == lines[2 * k]
  {
    if |lines| > 1 {
      EvenLinesIndex(lines[2..]);
      var rest := EvenLines(lines[2..]);
      forall k | 0 < k < |EvenLines(lines)| ensures EvenLines(lines)[k] == lines[2 * k] {
        assert EvenLines(lines)[k] == rest[k - 1];
      }
    }
  }

  /** `maybe_remove_odd_lines(path, pct)` on a file whose lines are `lines`,
      with `pct = pctNum / pctDen`. The result is the file's lines
      afterwards, and `rewritten` says whether the file was written. An
      empty file divides by zero. */
  method MaybeRemoveOddLines(lines: seq<string>, pctNum: int, pctDen: nat) returns (r: Result<seq<string>>, rewritten: bool)
    requires pctDen > 0
    ensures r.Failure? <==> lines == []
    ensures r.Success? ==> (rewritten <==> MostlyBlank(lines, pctNum, pctDen))
    ensures r.Success? && rewritten ==> r.value == EvenLines(lines)
    ensures r.Success? && !rewritten ==> r.value == lines
    ensures r.Failure? ==> !rewritten
  {
    if |lines| == 0 {
      return Failure("ZeroDivisionError: division by zero"), false;
    }
    if BlankCount(lines) * pctDen > pctNum * |lines| {
      var written: seq<string> := [];
      for i := 0 to |lines|
        invariant |written| == (i + 1) / 2
        invariant forall k :: 0 <= k < |written| ==> written[k] == lines[2 * k]
      {
        if i % 2 == 0 {
          written := written + [lines[i]];
        }
      }
      EvenLinesIndex(lines);
      assert written == EvenLines(lines);
      return Success(written), true;
    }
    return Success(lines), false;
  }

  /** A rewrite keeps the first line and drops every line at an odd index:
      a file of alternating text and blank lines loses all its blank lines. */
  lemma AlternatingLosesBlanks(lines: seq<string>)
    requires forall k :: 0 <= k < |lines| ==> (lines[k] == "\n" <==> k % 2 == 1)
    ensures forall k :: 0 <= k < |EvenLines(lines)| ==> EvenLines(lines)[k] != "\n"
  {
    EvenLinesIndex(lines);
    forall k | 0 <= k < |EvenLines(lines)| ensures EvenLines(lines)[k] != "\n" {
      assert (2 * k) % 2 == 0;
    }
  }
}
