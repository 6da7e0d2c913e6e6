/** The older token-budget translator: markdown chunks are packed greedily
    into buffers of at most `maxTokens` tokens, and each full buffer is
    translated when the next chunk would overflow it. As written, the buffer
    left over after the last chunk is never translated. */
module LegacyTranslate {

  /** The settings of a packing run. `countTokens` stands for the tokenizer
      and `translate` for `translate_chunk` with its prompt. */
  datatype Packer = Packer(countTokens: string -> nat, maxTokens: int, sep: string, translate: string -> string)

  /** The state after some chunks: the buffer and its token count, the
      output so far, the buffers sent for translation, and, for the
      statement of properties, the chunks in the buffer and how many chunks
      went into buffers already sent. */
  datatype Packing = Packing(buffer: string, bufferLen: int, output: string, sent: seq<string>,
                             members: seq<string>, done: nat)

  /** The token count of some chunks. */
  function Tokens(xs: seq<string>, P: Packer): nat {
    if xs == [] then 0 else Tokens(xs[..|xs| - 1], P) + P.countTokens(xs[|xs| - 1])
  }

  /** `sep + x0 + sep + x1 + ...`. */
  function Prefixed(xs: seq<string>, sep: string): string {
    if xs == [] then [] else Prefixed(xs[..|xs| - 1], sep) + sep + xs[|xs| - 1]
  }

  /** `sep + T(b0) + sep + T(b1) + ...` over the buffers sent. */
  function Flushes(sent: seq<string>, P: Packer): string {
    if sent == [] then [] else Flushes(sent[..|sent| - 1], P) + P.sep + P.translate(sent[|sent| - 1])
  }

  /** One iteration of the loop over the chunks. */
  function Step(p: Packing, chunk: string, P: Packer): Packing {
    var n := P.countTokens(chunk);
    if p.bufferLen + n <= P.maxTokens then
      Packing(p.buffer + P.sep + chunk, p.bufferLen + n, p.output, p.sent, p.members + [chunk], p.done)
    else
      Packing(chunk, n, p.output + P.sep + P.translate(p.buffer), p.sent + [p.buffer], [chunk], p.done + |p.members|)
  }

  /** The state after the loop has seen `chunks`. */
  function Pack(chunks: seq<string>, P: Packer): Packing {
    if chunks == [] then Packing([], 0, [], [], [], 0)
    else Step(Pack(chunks[..|chunks| - 1], P), chunks[|chunks| - 1], P)
  }

  /** The loop of `translate_splitted_md`; `sent` lists the buffers given to
      `translate_chunk`, in order, and `packed` is the buffer it leaves. */
  method PackLoop(chunks: seq<string>, P: Packer) returns (translated: string, sent: seq<string>, packed: string)
    ensures translated == Pack(chunks, P).output
    ensures sent == Pack(chunks, P).sent
    ensures packed == Pack(chunks, P).buffer
  {
    var packedLen: int := 0;
    packed, translated, sent := [], [], [];
    for i := 0 to |chunks|
      invariant var p := Pack(chunks[..i], P);
        packed == p.buffer && packedLen == p.bufferLen && translated == p.output && sent == p.sent
    {
      var chunk := chunks[i];
      var n := P.countTokens(chunk);
      if packedLen + n <= P.maxTokens {
        packed := packed + P.sep + chunk;
        packedLen := packedLen + n;
      } else {
        var t := P.translate(packed);
        translated := translated + P.sep + t;
        sent := sent + [packed];
        packed := chunk;
        packedLen := n;
      }
      assert chunks[..i + 1][..i] == chunks[..i];
    }
    assert chunks[..|chunks|] == chunks;
  }

  /** `translate_splitted_md(splitted_markdown, prompt, max_chunk_tokens,
      sep)`: the loop's output; the buffer it leaves is dropped. */
  method TranslateSplittedMd(chunks: seq<string>, P: Packer) returns (translated: string, sent: seq<string>)
    ensures translated == Pack(chunks, P).output
    ensures sent == Pack(chunks, P).sent
  {
    var leftover;
    translated, sent, leftover := PackLoop(chunks, P);
  }

  /** The buffer holds the last chunks seen, after those already sent, and
      its count is the sum of their token counts. */
  predicate MembersAccount(p: Packing, chunks: seq<string>, P: Packer) {
    p.done + |p.members| == |chunks| && p.members == chunks[p.done..] && p.bufferLen == Tokens(p.members, P)
  }

  lemma {:induction false} PackMembers(chunks: seq<string>, P: Packer)
    ensures MembersAccount(Pack(chunks, P), chunks, P)
  {
    if chunks != [] {
      PackMembers(chunks[..|chunks| - 1], P);
      StepMembers(Pack(chunks[..|chunks| - 1], P), chunks, P);
    }
  }

  /** One step of the loop keeps the account of the buffer's chunks. */
  lemma StepMembers(p: Packing, chunks: seq<string>, P: Packer)
    requires chunks != [] && MembersAccount(p, chunks[..|chunks| - 1], P)
    ensures MembersAccount(Step(p, chunks[|chunks| - 1], P), chunks, P)
  {
    var init, c := chunks[..|chunks| - 1], chunks[|chunks| - 1];
    assert (p.members + [c])[..|p.members|] == p.members;
    assert [c][..0] == [];
    assert chunks[p.done..] == init[p.done..] + [c];
  }

  /** The output is the in-order concatenation of `sep + T(buffer)`, one per
      buffer sent. */
  lemma {:induction false} PackOutput(chunks: seq<string>, P: Packer)
    ensures Pack(chunks, P).output == Flushes(Pack(chunks, P).sent, P)
  {
    if chunks != [] {
      var init := chunks[..|chunks| - 1];
      PackOutput(init, P);
      var p := Pack(init, P);
      assert (p.sent + [p.buffer])[..|p.sent|] == p.sent;
    }
  }

  /** Until the first buffer is sent the buffer is `sep + c1 + sep + c2 ...`
      (a leading separator); afterwards it starts with a chunk itself. */
  predicate BufferShape(p: Packing, sep: string) {
    && (p.sent == [] ==> p.done == 0 && p.buffer == Prefixed(p.members, sep))
    && (p.sent != [] ==> p.members != [] && p.buffer == p.members[0] + Prefixed(p.members[1..], sep))
  }

  lemma {:induction false} PackBufferShape(chunks: seq<string>, P: Packer)
    ensures BufferShape(Pack(chunks, P), P.sep)
  {
    if chunks != [] {
      PackBufferShape(chunks[..|chunks| - 1], P);
      StepBufferShape(Pack(chunks[..|chunks| - 1], P), chunks[|chunks| - 1], P);
    }
  }

  /** One step of the loop keeps the buffer's shape. */
  lemma StepBufferShape(p: Packing, c: string, P: Packer)
    requires BufferShape(p, P.sep)
    ensures BufferShape(Step(p, c, P), P.sep)
  {
    var q := Step(p, c, P);
    if p.bufferLen + P.countTokens(c) <= P.maxTokens {
      assert (p.members + [c])[..|p.members|] == p.members;
      if p.sent != [] {
        assert (p.members + [c])[1..] == p.members[1..] + [c];
        assert (p.members[1..] + [c])[..|p.members| - 1] == p.members[1..];
        assert q.buffer == p.members[0] + Prefixed(p.members[1..], P.sep) + P.sep + c;
      }
    } else {
      assert [c][1..] == [];
    }
  }

  /** A buffer over the budget is a single chunk over the budget on its own
      (or, with a negative budget, the empty starting buffer). */
  lemma PackOverBudget(chunks: seq<string>, P: Packer)
    ensures var p := Pack(chunks, P);
      p.bufferLen > P.maxTokens ==>
        (|p.members| == 1 && P.countTokens(p.members[0]) > P.maxTokens) || (p.members == [] && P.maxTokens < 0)
  {
    if chunks != [] {
      PackMembers(chunks, P);
    }
  }

  /** The buffers sent after a prefix of the chunks are a prefix of those
      sent after all of them. */
  lemma {:induction false} SentGrows(chunks: seq<string>, i: nat, P: Packer)
    requires i <= |chunks|
    ensures Pack(chunks[..i], P).sent <= Pack(chunks, P).sent
    decreases |chunks| - i
  {
    if i < |chunks| {
      var init := chunks[..|chunks| - 1];
      assert chunks[..i] == init[..i];
      SentGrows(init, i, P);
    } else {
      assert chunks[..i] == chunks;
    }
  }

  /** When the first chunk alone is over the budget, the first buffer sent
      is the empty string. */
  lemma FirstChunkOverBudget(chunks: seq<string>, P: Packer)
    requires chunks != [] && P.countTokens(chunks[0]) > P.maxTokens
    ensures Pack(chunks, P).sent != [] && Pack(chunks, P).sent[0] == []
  {
    assert chunks[..1][..0] == [];
    assert Pack(chunks[..1], P).sent == [[]];
    SentGrows(chunks, 1, P);
  }

  /** As written: when every chunk fits in one budget nothing is sent, the
      result is empty, and all the chunks stay in the unsent buffer. */
  lemma {:induction false} AllFitNothingTranslated(chunks: seq<string>, P: Packer)
    requires Tokens(chunks, P) <= P.maxTokens
    ensures Pack(chunks, P).output == [] && Pack(chunks, P).sent == [] && Pack(chunks, P).members == chunks
  {
    if chunks != [] {
      var init := chunks[..|chunks| - 1];
      AllFitNothingTranslated(init, P);
      PackMembers(init, P);
      assert init + [chunks[|chunks| - 1]] == chunks;
    }
  }

  /** As written: the chunks of the last buffer, at least the last chunk,
      are never sent. */
  lemma LastBufferNeverSent(chunks: seq<string>, P: Packer)
    requires chunks != []
    ensures var p := Pack(chunks, P);
      p.done < |chunks| && p.members == chunks[p.done..] && p.members[|p.members| - 1] == chunks[|chunks| - 1]
  {
    PackMembers(chunks, P);
  }

  /** The intended result: the loop followed by a translation of the buffer
      it leaves, when there was any chunk. */
  function PackFlushed(chunks: seq<string>, P: Packer): Packing {
    var p := Pack(chunks, P);
    if chunks == [] then p
    else Packing([], 0, p.output + P.sep + P.translate(p.buffer), p.sent + [p.buffer], [], p.done + |p.members|)
  }

  /** The packer with the final buffer flushed after the loop. */
  method TranslateSplittedMdFlushed(chunks: seq<string>, P: Packer) returns (translated: string, sent: seq<string>)
    ensures translated == PackFlushed(chunks, P).output
    ensures sent == PackFlushed(chunks, P).sent
  {
    var packed;
    translated, sent, packed := PackLoop(chunks, P);
    if chunks != [] {
      translated := translated + P.sep + P.translate(packed);
      sent := sent + [packed];
    }
  }

  /** With the final flush every chunk goes into a buffer that is sent, and
      the output is still one `sep + T(buffer)` per buffer sent. */
  lemma FlushedCoversAll(chunks: seq<string>, P: Packer)
    ensures var p := PackFlushed(chunks, P);
      p.done == |chunks| && p.members == [] && p.output == Flushes(p.sent, P)
  {
    PackMembers(chunks, P);
    PackOutput(chunks, P);
    if chunks != [] {
      var p := Pack(chunks, P);
      assert (p.sent + [p.buffer])[..|p.sent|] == p.sent;
    }
  }

  /** With the final flush, chunks that all fit in one budget are sent as
      one buffer and their translation is the result. */
  lemma FlushedAllFit(chunks: seq<string>, P: Packer)
    requires chunks != [] && Tokens(chunks, P) <= P.maxTokens
    ensures PackFlushed(chunks, P).sent == [Prefixed(chunks, P.sep)]
    ensures PackFlushed(chunks, P).output == P.sep + P.translate(Prefixed(chunks, P.sep))
  {
    AllFitNothingTranslated(chunks, P);
    PackBufferShape(chunks, P);
  }
}
