/**
 * One extraction (`scrape_via_prompt`, `execute` and the JSON text of the `run` loop): the
 * prompt built around the cleaned document and the schema, the response accumulated from the
 * completion stream, and the text handed to the JSON decoder.
 */
module Extraction {
  import opened Basics
  import opened Text
  import opened Cleaning

  /** One streamed completion chunk: `choices[0]["text"]` and `choices[0]["finish_reason"]`. */
  datatype Chunk = Chunk(text: string, finishReason: Option<string>)

  /** A chunk whose finish reason is truthy ends the stream for the caller. */
  predicate Finishes(c: Chunk) {
    c.finishReason.Some? && c.finishReason.value != ""
  }

  /** The chunks' texts, in order. */
  function ChunkTexts(chunks: seq<Chunk>): (ts: seq<string>)
    ensures |ts| == |chunks|
    ensures forall i :: 0 <= i < |chunks| ==> ts[i] == chunks[i].text
  {
    seq(|chunks|, i requires 0 <= i < |chunks| => chunks[i].text)
  }

  /**
   * The response: the chunk texts up to and including the first chunk that finishes. It begins
   * with the first chunk's text and is a prefix of all the texts streamed.
   */
  function Accumulate(chunks: seq<Chunk>): (response: string)
    ensures |chunks| > 0 ==> chunks[0].text <= response
    ensures response <= Concat(ChunkTexts(chunks))
    decreases |chunks|
  {
    if |chunks| == 0 then ""
    else
      var head := chunks[0].text;
      var rest := if Finishes(chunks[0]) then "" else Accumulate(chunks[1..]);
      assert ChunkTexts(chunks) == [head] + ChunkTexts(chunks[1..]);
      ConcatCons(head, ChunkTexts(chunks[1..]));
      head + rest
  }

  /** Text after a finishing chunk never reaches the response. */
  lemma {:induction false} AccumulateStopsAtFinish(chunks: seq<Chunk>, more: seq<Chunk>)
    requires exists i :: 0 <= i < |chunks| && Finishes(chunks[i])
    ensures Accumulate(chunks + more) == Accumulate(chunks)
    decreases |chunks|
  {
    assert (chunks + more)[0] == chunks[0];
    if !Finishes(chunks[0]) {
      var i :| 0 <= i < |chunks| && Finishes(chunks[i]);
      assert Finishes(chunks[1..][i - 1]);
      AccumulateStopsAtFinish(chunks[1..], more);
      assert (chunks + more)[1..] == chunks[1..] + more;
    }
  }

  /** Without a finishing chunk the response is every chunk's text, concatenated. */
  lemma {:induction false} AccumulateAll(chunks: seq<Chunk>)
    requires forall i :: 0 <= i < |chunks| ==> !Finishes(chunks[i])
    ensures Accumulate(chunks) == Concat(ChunkTexts(chunks))
    decreases |chunks|
  {
    if |chunks| > 0 {
      var init := chunks[..|chunks| - 1];
      var last := chunks[|chunks| - 1];
      assert chunks == init + [last];
      AccumulateSnoc(init, last);
      AccumulateAll(init);
      assert ChunkTexts(chunks) == ChunkTexts(init) + [last.text];
      ConcatSnoc(ChunkTexts(init), last.text);
    }
  }

  /** Appending a chunk after chunks that do not finish appends its text. */
  lemma {:induction false} AccumulateSnoc(chunks: seq<Chunk>, c: Chunk)
    requires forall i :: 0 <= i < |chunks| ==> !Finishes(chunks[i])
    ensures Accumulate(chunks + [c]) == Accumulate(chunks) + c.text
    decreases |chunks|
  {
    if |chunks| == 0 {
      assert [] + [c] == [c];
      assert Accumulate([c]) == c.text + (if Finishes(c) then "" else Accumulate([]));
    } else {
      assert (chunks + [c])[1..] == chunks[1..] + [c];
      AccumulateSnoc(chunks[1..], c);
    }
  }

  /** The response from position `i` on: that chunk's text, then the rest unless it finishes. */
  lemma AccumulateStep(chunks: seq<Chunk>, i: nat)
    requires i < |chunks|
    ensures Accumulate(chunks[i..])
            == chunks[i].text + (if Finishes(chunks[i]) then "" else Accumulate(chunks[i + 1..]))
  {
    assert chunks[i..][1..] == chunks[i + 1..];
  }

  /** Reading chunk `i` after the response so far: it ends the response or leaves the rest to read. */
  lemma ReadChunk(chunks: seq<Chunk>, i: nat, response: string)
    requires i < |chunks| && response + Accumulate(chunks[i..]) == Accumulate(chunks)
    ensures Finishes(chunks[i]) ==> response + chunks[i].text == Accumulate(chunks)
    ensures !Finishes(chunks[i]) ==> (response + chunks[i].text) + Accumulate(chunks[i + 1..]) == Accumulate(chunks)
  {
    AccumulateStep(chunks, i);
    if !Finishes(chunks[i]) {
      AppendAssoc3(response, chunks[i].text, Accumulate(chunks[i + 1..]));
    }
  }

  /** `execute`: read the stream, appending each chunk's text, and stop after a finishing chunk. */
  method Execute(prompt: string, complete: string -> seq<Chunk>) returns (response: string)
    ensures response == Accumulate(complete(prompt))
  {
    var chunks := complete(prompt);
    response := "";
    var i := 0;
    assert chunks[0..] == chunks;
    while i < |chunks|
      invariant 0 <= i <= |chunks|
      invariant response + Accumulate(chunks[i..]) == Accumulate(chunks)
    {
      ReadChunk(chunks, i, response);
      if Finishes(chunks[i]) {
        response := response + chunks[i].text;
        return;
      }
      response := response + chunks[i].text;
      i := i + 1;
    }
    assert chunks[i..] == [];
  }

  /** The code fence of the prompt and of the stop sequence. */
  const Fence: string := "```"

  /** The text before the document in the prompt. */
  const DocumentHead: string := "Document:\n```"

  /** The text between the document and the schema. */
  const SchemaHead: string := "```\nJSON schema:\n```\n"

  /** The text after the schema: the instruction, then an opened fence and brace for the model to continue. */
  const PromptTail: string := "\n```\nA JSON representation of the text document above that follows the JSON schema is:\n```\n{"

  /** The prefix the response continues: the last five characters of the prompt. */
  const Continuation: string := "```\n{"

  /**
   * Where the parts of a prompt sit: the document head, the document, the schema head, the
   * schema and the closing instruction, one after the other with nothing between them.
   */
  predicate Layout(prompt: string, doc: string, schema: string) {
    PartsAt(prompt, DocumentHead, doc, SchemaHead, schema, PromptTail)
  }

  /** The text is the five parts one after the other, each at the sum of the lengths before it. */
  predicate PartsAt(s: string, a: string, b: string, c: string, d: string, f: string) {
    var i, j, k := |a|, |a| + |b|, |a| + |b| + |c|;
    && |s| == k + |d| + |f|
    && s[..i] == a && s[i..j] == b && s[j..k] == c && s[k..k + |d|] == d && s[k + |d|..] == f
  }

  /** Five appended parts are where `PartsAt` puts them. */
  lemma FiveParts(a: string, b: string, c: string, d: string, f: string)
    ensures PartsAt(a + b + c + d + f, a, b, c, d, f)
  {
    var s := a + b + c + d + f;
    var i, j, k := |a|, |a| + |b|, |a| + |b| + |c|;
    assert s[..i] == a;
    assert s[i..j] == b;
    assert s[j..k] == c;
    assert s[k..k + |d|] == d;
    assert s[k + |d|..] == f;
  }

  /** The prompt of `scrape_via_prompt` for a cleaned document and a serialised schema. */
  function Prompt(doc: string, schema: string): (prompt: string)
    ensures Layout(prompt, doc, schema)
    ensures EndsWith(prompt, Continuation)
  {
    var prompt := DocumentHead + doc + SchemaHead + schema + PromptTail;
    TailContinues();
    FivePartsEnd(DocumentHead, doc, SchemaHead, schema, PromptTail, Continuation);
    prompt
  }

  /** The closing instruction ends with the continuation. */
  lemma TailContinues()
    ensures EndsWith(PromptTail, Continuation)
  {
  }

  /** Five appended parts are where `PartsAt` puts them, and a suffix of the last one ends the text. */
  lemma FivePartsEnd(a: string, b: string, c: string, d: string, f: string, end: string)
    requires EndsWith(f, end)
    ensures PartsAt(a + b + c + d + f, a, b, c, d, f) && EndsWith(a + b + c + d + f, end)
  {
    var s := a + b + c + d + f;
    FiveParts(a, b, c, d, f);
    SuffixOfSuffix(s, |s| - |f|, f, end);
  }

  /** A suffix of a suffix is a suffix. */
  lemma SuffixOfSuffix(s: string, i: nat, f: string, c: string)
    requires i <= |s| && s[i..] == f
    requires EndsWith(f, c)
    ensures EndsWith(s, c)
  {
    assert s[|s| - |c|..] == s[i..][|f| - |c|..];
  }

  /** Documents of the same length give the same prompt only with the same document and schema. */
  lemma PromptInjective(doc: string, schema: string, doc': string, schema': string)
    requires |doc| == |doc'| && Prompt(doc, schema) == Prompt(doc', schema')
    ensures doc == doc' && schema == schema'
  {
    var p := Prompt(doc, schema);
    var start := |DocumentHead| + |doc| + |SchemaHead|;
    assert p[start..start + |schema|] == schema;
    assert p[start..start + |schema'|] == schema';
  }

  /** A fence starts at index `i`. */
  predicate FenceAt(s: string, i: int) {
    0 <= i && i + |Fence| <= |s| && s[i..i + |Fence|] == Fence
  }

  /** The text before the first fence, or all of it when there is none. */
  function UpToFence(s: string): (r: string)
    ensures |r| <= |s| && r == s[..|r|]
    ensures forall i :: 0 <= i < |r| ==> !FenceAt(s, i)
    ensures |r| < |s| ==> FenceAt(s, |r|)
    decreases |s|
  {
    if |s| < |Fence| then s
    else if s[..|Fence|] == Fence then ""
    else
      var r := [s[0]] + UpToFence(s[1..]);
      assert forall i :: 1 <= i < |s| ==> (FenceAt(s, i) <==> FenceAt(s[1..], i - 1)) by {
        forall i | 1 <= i < |s| ensures FenceAt(s, i) <==> FenceAt(s[1..], i - 1) {
          FenceAtShift(s, i);
        }
      }
      r
  }

  /** Whether a fence starts at an index does not change when the text loses its first character. */
  lemma FenceAtShift(s: string, i: int)
    requires 1 <= i < |s|
    ensures FenceAt(s, i) <==> FenceAt(s[1..], i - 1)
  {
    if i + |Fence| <= |s| {
      var a := s[i..i + |Fence|];
      var b := s[1..][i - 1..i - 1 + |Fence|];
      forall t | 0 <= t < |Fence| ensures a[t] == b[t] {
        assert a[t] == s[i + t];
        assert b[t] == s[1..][i - 1 + t];
      }
      assert a == b;
    }
  }

  /** Python's `s.split("```")`: the pieces between fences. */
  function FencePieces(s: string): (ps: seq<string>)
    ensures |ps| >= 1 && ps[0] == UpToFence(s)
    decreases |s|
  {
    var head := UpToFence(s);
    if |head| == |s| then [s] else [head] + FencePieces(s[|head| + |Fence|..])
  }

  /** A text with a fence at `k` is the text before it, the fence, and the text after it. */
  lemma SplitAtFence(s: string, k: nat)
    requires FenceAt(s, k)
    ensures s == s[..k] + Fence + s[k + |Fence|..]
  {
    assert s == s[..k] + s[k..];
    assert s[k..] == s[k..k + |Fence|] + s[k + |Fence|..];
  }

  /** Joining the pieces with the fence gives back the text. */
  lemma {:induction false} FencePiecesJoin(s: string)
    ensures Join(FencePieces(s), Fence) == s
    decreases |s|
  {
    var head := UpToFence(s);
    if |head| < |s| {
      var rest := s[|head| + |Fence|..];
      FencePiecesJoin(rest);
      SplitAtFence(s, |head|);
      JoinCons(head, FencePieces(rest), Fence);
    }
  }

  /** A character other than a backtick cannot start a fence, so it stays before the first one. */
  lemma UpToFenceCons(c: char, s: string)
    requires c != '`'
    ensures UpToFence([c] + s) == [c] + UpToFence(s)
  {
    var t := [c] + s;
    assert t[1..] == s;
    if |t| >= |Fence| {
      assert t[..|Fence|][0] == c;
    }
  }

  /** A text that opens with a fence splits into an empty piece and the pieces after the fence. */
  lemma FencePiecesOpening(rest: string)
    ensures FencePieces(Fence + rest) == [""] + FencePieces(rest)
  {
    var s := Fence + rest;
    assert s[..|Fence|] == Fence;
    assert UpToFence(s) == "";
    assert s[|Fence|..] == rest;
  }

  /** The continued response opens with a fence, so its pieces are an empty one and those of the rest. */
  lemma ContinuationSplit(response: string)
    ensures FencePieces(Continuation + response) == [""] + FencePieces("\n{" + response)
  {
    assert Continuation + response == Fence + ("\n{" + response);
    FencePiecesOpening("\n{" + response);
  }

  /** The newline and brace before the response stay before its first fence. */
  lemma UpToFenceBody(response: string)
    ensures UpToFence("\n{" + response) == "\n{" + UpToFence(response)
  {
    UpToFenceCons('{', response);
    assert "\n{" + response == ['\n'] + (['{'] + response);
    UpToFenceCons('\n', ['{'] + response);
  }

  /** The second piece of the continued response is a newline, a brace and the response up to its first fence. */
  lemma ContinuedPieces(response: string)
    ensures |FencePieces(Continuation + response)| >= 2
    ensures FencePieces(Continuation + response)[1] == "\n{" + UpToFence(response)
  {
    ContinuationSplit(response);
    UpToFenceBody(response);
  }

  /**
   * The text `json.loads` receives: the second piece of the response continued from the prompt's
   * last characters, which is a newline, a brace, and the response up to its first fence.
   */
  function JsonText(response: string): (text: string)
    ensures text == "\n{" + UpToFence(response)
  {
    ContinuedPieces(response);
    FencePieces(Continuation + response)[1]
  }
}
