/** Trimming a cut-off completion back to a separator, stitching
    continuations together, and joining translated chunks. */
module Utils {
  import opened Wrappers
  import opened Text
  import opened Prompts

  /** The default separators of `remove_after`, most preferred first. */
  const DefaultSeps: seq<string> := ["\n\n", "\n", ". ", ", "]

  /** The text kept by `remove_after` and the separator it broke at, if any. */
  datatype Trimmed = Trimmed(text: string, sepBreak: Option<string>)

  /** The index of the first separator, in order of preference, that occurs
      anywhere in `text`. */
  function FirstPresent(text: string, seps: seq<string>, from: nat): (r: Option<nat>)
    requires from <= |seps|
    ensures r.Some? ==> from <= r.value < |seps| && Contains(text, seps[r.value])
    ensures r.Some? ==> forall j :: from <= j < r.value ==> !Contains(text, seps[j])
    ensures r.None? ==> forall j :: from <= j < |seps| ==> !Contains(text, seps[j])
    decreases |seps| - from
  {
    if from == |seps| then None
    else if Contains(text, seps[from]) then Some(from)
    else FirstPresent(text, seps, from + 1)
  }

  /** What `remove_after(text, seps)` returns: when some separator occurs,
      the first one in `seps` that does wins, and the text is cut right after
      its last occurrence; otherwise the text is kept whole. */
  function TrimAtSeparator(text: string, seps: seq<string>): (r: Trimmed)
  {
    match FirstPresent(text, seps, 0)
    case None => Trimmed(text, None)
    case Some(k) =>
      var s := seps[k];
      var i := RFind(text, s).value;
      Trimmed(text[..i + |s|], Some(s))
  }

  /** The separator broken at is the first of `seps`, in order, that occurs
      in the text, and the kept text ends with it and holds every occurrence
      of it; with no separator present the text is kept whole. */
  lemma TrimAtSeparatorMeaning(text: string, seps: seq<string>)
    ensures var r := TrimAtSeparator(text, seps);
      && (r.sepBreak.None? <==> forall j :: 0 <= j < |seps| ==> !Contains(text, seps[j]))
      && (r.sepBreak.None? ==> r.text == text)
      && (r.sepBreak.Some? ==> exists k :: (0 <= k < |seps| && seps[k] == r.sepBreak.value
            && Contains(text, seps[k]) && forall j :: 0 <= j < k ==> !Contains(text, seps[j])))
      && (r.sepBreak.Some? ==> (EndsWith(r.text, r.sepBreak.value)
            && forall j :: OccursAt(text, r.sepBreak.value, j) ==> j + |r.sepBreak.value| <= |r.text|))
  {
    match FirstPresent(text, seps, 0)
    case None =>
    case Some(k) =>
      var s := seps[k];
      var i := RFind(text, s).value;
      assert text[..i + |s|][i..] == s;
  }

  /** The kept text is a prefix of the text. */
  lemma TrimKeepsPrefix(text: string, seps: seq<string>)
    ensures var r := TrimAtSeparator(text, seps); |r.text| <= |text| && r.text == text[..|r.text|]
  {
  }

  /** `remove_after(text, sep)`: tries the separators in order and, at the
      first one present, cuts after its last occurrence and stops. */
  method RemoveAfter(text: string, seps: seq<string>) returns (r: Trimmed)
    ensures r == TrimAtSeparator(text, seps)
  {
    var outputText := text;
    var sepBreak: Option<string> := None;
    for k := 0 to |seps|
      invariant forall j :: 0 <= j < k ==> !Contains(text, seps[j])
    {
      var s := seps[k];
      if Contains(text, s) {
        var index := RFind(text, s).value;
        outputText := text[..index + |s|];
        sepBreak := Some(s);
        assert FirstPresent(text, seps, 0) == Some(k) by {
          FirstPresentFrom(text, seps, 0, k);
        }
        return Trimmed(outputText, sepBreak);
      }
    }
    assert FirstPresent(text, seps, 0).None? by {
      FirstPresentFrom(text, seps, 0, |seps|);
    }
    r := Trimmed(outputText, sepBreak);
  }

  /** With no separator present before `k`, the search from `from` goes on at `k`. */
  lemma {:induction false} FirstPresentFrom(text: string, seps: seq<string>, from: nat, k: nat)
    requires from <= k <= |seps|
    requires forall j :: from <= j < k ==> !Contains(text, seps[j])
    ensures FirstPresent(text, seps, from) == FirstPresent(text, seps, k)
    decreases k - from
  {
    if from < k {
      FirstPresentFrom(text, seps, from + 1, k);
    }
  }

  /** Why the service stopped a completion: the `finish_reason` string
      `"length"` (the token budget ran out) or any other one. */
  datatype FinishReason = Length | Other(reason: string)

  /** The reason named by a `finish_reason` string. */
  function ReasonOf(s: string): (r: FinishReason)
    ensures r == Length <==> s == "length"
    ensures r.Other? ==> r.reason == s
  {
    if s == "length" then Length else Other(s)
  }

  /** A completion returned by the service: its text and why it stopped. */
  datatype Response = Response(content: string, finishReason: FinishReason)

  /** The script holds an answer that did not stop for length, so the
      continuation loop ends. */
  predicate HasFinal(script: seq<Response>) {
    exists k :: 0 <= k < |script| && script[k].finishReason != Length
  }

  lemma HasFinalTail(script: seq<Response>)
    requires HasFinal(script) && script[0].finishReason == Length
    ensures HasFinal(script[1..])
  {
    var k :| 0 <= k < |script| && script[k].finishReason != Length;
    assert script[1..][k - 1] == script[k];
  }

  /** The position of the first response that did not stop for length. */
  function FirstFinal(script: seq<Response>): (n: nat)
    requires HasFinal(script)
    ensures n < |script| && script[n].finishReason != Length
    ensures forall k :: 0 <= k < n ==> script[k].finishReason == Length
  {
    if script[0].finishReason != Length then 0
    else
      HasFinalTail(script);
      1 + FirstFinal(script[1..])
  }

  /** The text kept from a response that stopped for length. */
  function Kept(res: Response, seps: seq<string>): string {
    TrimAtSeparator(res.content, seps).text
  }

  /** What `longer_create` returns over a script of responses. */
  function Stitched(script: seq<Response>, seps: seq<string>): string
    requires HasFinal(script)
    decreases |script|
  {
    if script[0].finishReason == Length then
      HasFinalTail(script);
      Kept(script[0], seps) + Stitched(script[1..], seps)
    else script[0].content
  }

  /** The assistant messages appended to the conversation: one per response
      that stopped for length. */
  function Continuations(script: seq<Response>, seps: seq<string>): (r: seq<Message>)
    requires HasFinal(script)
    ensures |r| == FirstFinal(script)
    decreases |script|
  {
    if script[0].finishReason == Length then
      HasFinalTail(script);
      [Message("assistant", Kept(script[0], seps))] + Continuations(script[1..], seps)
    else []
  }

  /** The trimmed texts of the first `n` responses. */
  function Pieces(script: seq<Response>, n: nat, seps: seq<string>): (r: seq<string>)
    requires n <= |script|
    ensures |r| == n
  {
    if n == 0 then [] else [Kept(script[0], seps)] + Pieces(script[1..], n - 1, seps)
  }

  /** The `k`-th piece is the trimmed text of the `k`-th response. */
  lemma {:induction false} PiecesIndex(script: seq<Response>, n: nat, seps: seq<string>)
    requires n <= |script|
    ensures forall k :: 0 <= k < n ==> Pieces(script, n, seps)[k] == Kept(script[k], seps)
  {
    if n > 0 {
      PiecesIndex(script[1..], n - 1, seps);
    }
  }

  lemma PiecesCons(script: seq<Response>, n: nat, seps: seq<string>)
    requires 0 < n <= |script|
    ensures Concat(Pieces(script, n, seps)) == Kept(script[0], seps) + Concat(Pieces(script[1..], n - 1, seps))
  {
    var p := Pieces(script, n, seps);
    assert p[1..] == Pieces(script[1..], n - 1, seps);
  }

  /** The result is the trimmed text of every response that stopped for
      length, in order, then the whole text of the first one that did not. */
  lemma {:induction false} StitchedPieces(script: seq<Response>, seps: seq<string>)
    requires HasFinal(script)
    ensures Stitched(script, seps) == Concat(Pieces(script, FirstFinal(script), seps)) + script[FirstFinal(script)].content
    decreases |script|
  {
    if script[0].finishReason == Length {
      HasFinalTail(script);
      StitchedPieces(script[1..], seps);
      StitchedPiecesStep(script, seps);
    }
  }

  lemma StitchedPiecesStep(script: seq<Response>, seps: seq<string>)
    requires HasFinal(script) && script[0].finishReason == Length && HasFinal(script[1..])
    requires var tail := script[1..];
      Stitched(tail, seps) == Concat(Pieces(tail, FirstFinal(tail), seps)) + tail[FirstFinal(tail)].content
    ensures Stitched(script, seps) == Concat(Pieces(script, FirstFinal(script), seps)) + script[FirstFinal(script)].content
  {
    var tail := script[1..];
    var n := FirstFinalStep(script);
    PiecesCons(script, n, seps);
    StitchedStep(script, seps);
    Regroup(Stitched(script, seps), Kept(script[0], seps), Stitched(tail, seps),
            Concat(Pieces(tail, n - 1, seps)), tail[n - 1].content, Concat(Pieces(script, n, seps)));
  }

  lemma FirstFinalStep(script: seq<Response>) returns (n: nat)
    requires HasFinal(script) && script[0].finishReason == Length
    ensures HasFinal(script[1..]) && n == FirstFinal(script) == FirstFinal(script[1..]) + 1
    ensures n < |script| && script[n] == script[1..][n - 1]
  {
    HasFinalTail(script);
    n := FirstFinal(script);
  }

  lemma StitchedStep(script: seq<Response>, seps: seq<string>)
    requires HasFinal(script) && script[0].finishReason == Length
    ensures HasFinal(script[1..]) && Stitched(script, seps) == Kept(script[0], seps) + Stitched(script[1..], seps)
  {
    HasFinalTail(script);
  }

  /** `a + (b + c) == (a + b) + c`, with the pieces named. */
  lemma Regroup(x: string, a: string, y: string, b: string, c: string, z: string)
    requires x == a + y && y == b + c && z == a + b
    ensures x == z + c
  {
  }

  /** One assistant message carries each trimmed text, in order. */
  lemma {:induction false} ContinuationsPieces(script: seq<Response>, seps: seq<string>)
    requires HasFinal(script)
    ensures forall k :: 0 <= k < FirstFinal(script) ==> Continuations(script, seps)[k] == Message("assistant", Kept(script[k], seps))
    decreases |script|
  {
    if script[0].finishReason == Length {
      HasFinalTail(script);
      ContinuationsPieces(script[1..], seps);
    }
  }

  /** The caller's list of chat messages, which `longer_create` appends to in place. */
  class Conversation {
    var messages: seq<Message>

    constructor(messages: seq<Message>)
      ensures this.messages == messages
    {
      this.messages := messages;
    }
  }

  /** `longer_create(messages, max_tokens)`: the `k`-th call to the
      completion service answers `script[k]`; `sent[k]` is the message list
      that call was given; `seps` is the separator list `remove_after` is
      called with, `DefaultSeps` in the source. A `null` conversation stands for `messages=None`,
      which starts from a fresh empty list the caller never sees. */
  method LongerCreate(conv: Conversation?, script: seq<Response>, seps: seq<string>) returns (text: string, sent: seq<seq<Message>>)
    requires HasFinal(script)
    modifies conv
    ensures text == Stitched(script, seps)
    ensures |sent| == FirstFinal(script) + 1
    ensures conv != null ==> conv.messages == old(conv.messages) + Continuations(script, seps)
    ensures forall k :: 0 <= k < |sent| ==>
      sent[k] == (if conv == null then [] else old(conv.messages)) + Continuations(script, seps)[..k]
    decreases |script|
  {
    var c := conv;
    if c == null {
      c := new Conversation([]);
    }
    var before := c.messages;
    var res := script[0];
    if res.finishReason == Length {
      var processTail := RemoveAfter(res.content, seps);
      c.messages := c.messages + [Message("assistant", processTail.text)];
      HasFinalTail(script);
      var next, rest := LongerCreate(c, script[1..], seps);
      text := processTail.text + next;
      sent := [before] + rest;
      StitchedStep(script, seps);
      ContinuationsStep(script, seps);
      var n := FirstFinalStep(script);
      Reassociate(c.messages, before, Message("assistant", Kept(res, seps)), Continuations(script[1..], seps));
      SentStep(before, Message("assistant", Kept(res, seps)), Continuations(script[1..], seps), rest);
    } else {
      text := res.content;
      sent := [before];
    }
  }

  lemma ContinuationsStep(script: seq<Response>, seps: seq<string>)
    requires HasFinal(script) && script[0].finishReason == Length
    ensures HasFinal(script[1..])
    ensures Continuations(script, seps) == [Message("assistant", Kept(script[0], seps))] + Continuations(script[1..], seps)
  {
    HasFinalTail(script);
  }

  /** `(before + [m]) + tail == before + ([m] + tail)`, with the pieces named. */
  lemma Reassociate(x: seq<Message>, before: seq<Message>, m: Message, tail: seq<Message>)
    requires x == before + [m] + tail
    ensures x == before + ([m] + tail)
  {
  }

  lemma SentStep(before: seq<Message>, m: Message, tail: seq<Message>, rest: seq<seq<Message>>)
    requires |rest| <= |tail| + 1
    requires forall k :: 0 <= k < |rest| ==> rest[k] == before + [m] + tail[..k]
    ensures forall k :: 0 <= k < |rest| + 1 ==> ([before] + rest)[k] == before + ([m] + tail)[..k]
  {
    forall k | 0 <= k < |rest| + 1
      ensures ([before] + rest)[k] == before + ([m] + tail)[..k]
    {
      if k > 0 {
        assert ([m] + tail)[..k] == [m] + tail[..k - 1];
      }
    }
  }

  /** The separator `concat_md_chunks` uses when none is given: a blank line. */
  const DefaultChunkSep: string := "\n\n"

  /** `concat_md_chunks(chunks, sep)`: the chunks joined by `sep`
      (`DefaultChunkSep` by default). */
  function ConcatMdChunks(chunks: seq<string>, sep: string): (r: string)
    ensures |chunks| >= 1 ==> |r| == TotalLength(chunks) + (|chunks| - 1) * |sep|
    ensures |chunks| >= 1 ==> StartsWith(r, chunks[0]) && EndsWith(r, chunks[|chunks| - 1])
  {
    JoinShape(chunks, sep);
    Join(chunks, sep)
  }

  function TotalLength(chunks: seq<string>): nat {
    if chunks == [] then 0 else |chunks[0]| + TotalLength(chunks[1..])
  }

  lemma {:induction false} JoinShape(chunks: seq<string>, sep: string)
    ensures |chunks| >= 1 ==> |Join(chunks, sep)| == TotalLength(chunks) + (|chunks| - 1) * |sep|
    ensures |chunks| >= 1 ==> StartsWith(Join(chunks, sep), chunks[0]) && EndsWith(Join(chunks, sep), chunks[|chunks| - 1])
  {
    if |chunks| > 1 {
      JoinShape(chunks[1..], sep);
      var j := Join(chunks, sep);
      var rest := Join(chunks[1..], sep);
      assert j == chunks[0] + sep + rest;
      assert j[..|chunks[0]|] == chunks[0];
      assert chunks[1..][|chunks[1..]| - 1] == chunks[|chunks| - 1];
      assert j[|j| - |chunks[|chunks| - 1]|..] == rest[|rest| - |chunks[|chunks| - 1]|..];
    }
  }

  /** Joining chunks that hold no `c` with the one-character separator `[c]`
      can be undone by splitting at `c`. */
  lemma ConcatMdChunksSplit(chunks: seq<string>, c: char)
    requires |chunks| >= 1 && forall k :: 0 <= k < |chunks| ==> c !in chunks[k]
    ensures Split(ConcatMdChunks(chunks, [c]), c) == chunks
  {
    SplitJoin(chunks, c);
  }

  /** No chunks give the empty text, one chunk itself, and each further
      chunk is appended after exactly one `sep`. */
  lemma {:induction false} ConcatMdChunksSnoc(chunks: seq<string>, last: string, sep: string)
    ensures ConcatMdChunks([], sep) == [] && ConcatMdChunks([last], sep) == last
    ensures chunks != [] ==> ConcatMdChunks(chunks + [last], sep) == ConcatMdChunks(chunks, sep) + sep + last
  {
    if |chunks| > 1 {
      ConcatMdChunksSnoc(chunks[1..], last, sep);
      assert (chunks + [last])[1..] == chunks[1..] + [last];
    }
  }

  /** With the default separator, two chunks are kept apart by a blank line. */
  lemma ConcatMdChunksDefault(chunks: seq<string>, last: string)
    requires chunks != []
    ensures ConcatMdChunks(chunks + [last], DefaultChunkSep) == ConcatMdChunks(chunks, DefaultChunkSep) + "\n\n" + last
  {
    ConcatMdChunksSnoc(chunks, last, DefaultChunkSep);
  }
}
