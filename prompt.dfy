/** The prompt branch of the `ask` route in main.py: the retrieved chunks,
    the document's filename and the question become the text sent to the
    language model. With chunks, they are joined into a grounded prompt;
    without, a fallback prompt says nothing was found. */
module PromptBuilder {
  import opened Chunker
  import opened Ranker

  /** The `top_k` the `ask` route passes to retrieve_relevant_chunks. */
  const AskTopK: int := 4

  const Separator: string := "\n\n---\n\n"
  const Preamble: string := "You are a helpful assistant answering questions using only the provided document content.\n"
  const FallbackNotice: string := "Not found in documents; general answer below.\n\n"

  /** Python's `sep.join(parts)`. */
  function Join(sep: string, parts: seq<string>): string
  {
    if |parts| == 0 then []
    else if |parts| == 1 then parts[0]
    else parts[0] + sep + Join(sep, parts[1..])
  }

  /** The text after the context: `Question: {question}\n\nAnswer:`. */
  function QuestionBlock(question: string): string {
    "Question: " + question + "\n\nAnswer:"
  }

  /** The lines before the context: the instruction and the source file. */
  function Header(filename: string): string {
    Preamble + "(From document: " + filename + ")\n\n"
  }

  /** The prompt `ask` sends, by whether any chunk was retrieved. */
  function BuildPrompt(chunks: seq<string>, filename: string, question: string): string
  {
    if |chunks| > 0 then
      Header(filename) + Join(Separator, chunks) + "\n\n" + QuestionBlock(question)
    else
      FallbackNotice + QuestionBlock(question)
  }

  /** Joining splits at any inner boundary: the parts before it, one
      separator, the parts after it. */
  lemma {:induction false} JoinSplit(sep: string, parts: seq<string>, k: nat)
    requires 0 < k < |parts|
    ensures Join(sep, parts) == Join(sep, parts[..k]) + sep + Join(sep, parts[k..])
  {
    if k > 1 {
      var rest := parts[1..];
      JoinSplit(sep, rest, k - 1);
      assert parts[..k][1..] == rest[..k - 1];
      assert rest[k - 1..] == parts[k..];
    }
  }

  /** The text of a join before part k: the earlier parts and a separator. */
  function Before(sep: string, parts: seq<string>, k: nat): string
    requires k <= |parts|
  {
    if k == 0 then [] else Join(sep, parts[..k]) + sep
  }

  /** The text of a join after part k: a separator and the later parts. */
  function After(sep: string, parts: seq<string>, k: nat): string
    requires k < |parts|
  {
    if k == |parts| - 1 then [] else sep + Join(sep, parts[k + 1..])
  }

  /** Every part appears whole in the join, between the text of the parts
      before it and the text of the parts after it. */
  lemma JoinAround(sep: string, parts: seq<string>, k: nat)
    requires k < |parts|
    ensures Join(sep, parts) == Before(sep, parts, k) + parts[k] + After(sep, parts, k)
  {
    var tail := parts[k..];
    assert tail[1..] == parts[k + 1..];
    assert Join(sep, tail) == parts[k] + After(sep, parts, k);
    if k > 0 {
      JoinSplit(sep, parts, k);
    }
  }

  /** Every retrieved chunk appears verbatim in the grounded prompt, after
      the header and the chunks before it, before the chunks after it and
      the question. */
  lemma ChunkInPrompt(chunks: seq<string>, filename: string, question: string, k: nat)
    requires k < |chunks|
    ensures BuildPrompt(chunks, filename, question)
      == Header(filename) + Before(Separator, chunks, k) + chunks[k]
         + After(Separator, chunks, k) + "\n\n" + QuestionBlock(question)
  {
    JoinAround(Separator, chunks, k);
  }

  /** Both prompts end with the question block, and the fallback prompt is
      chosen exactly when no chunk was retrieved. */
  lemma PromptShape(chunks: seq<string>, filename: string, question: string)
    ensures var p := BuildPrompt(chunks, filename, question);
      && |p| >= |QuestionBlock(question)|
      && p[|p| - |QuestionBlock(question)|..] == QuestionBlock(question)
      && (p == FallbackNotice + QuestionBlock(question) <==> chunks == [])
  {
    var p := BuildPrompt(chunks, filename, question);
    var qb := QuestionBlock(question);
    if chunks != [] {
      var front := Header(filename) + Join(Separator, chunks) + "\n\n";
      assert p == front + qb;
      assert |FallbackNotice| < |Preamble| <= |front|;
    }
  }

  /** The route falls back to the ungrounded prompt exactly when no chunk of
      the document scores above zero (which includes the empty document). */
  lemma AskFallsBackIff(text: string, filename: string, question: string, scores: seq<real>, order: seq<nat>)
    requires |scores| == |Chunks(text, DefaultChunkSize, DefaultOverlap)|
    requires IsRanking(order, scores)
    ensures BuildPrompt(Retrieve(text, scores, order, AskTopK), filename, question)
            == FallbackNotice + QuestionBlock(question)
        <==> forall i :: 0 <= i < |scores| ==> scores[i] <= 0.0
  {
    var chunks := Chunks(text, DefaultChunkSize, DefaultOverlap);
    PromptShape(Retrieve(text, scores, order, AskTopK), filename, question);
    if chunks != [] {
      SelectEmptyIff(chunks, scores, order, AskTopK);
    }
  }
}
