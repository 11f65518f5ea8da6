/**
 * The logic of the `RAGSystem` class: the optional vector index that a PDF
 * upload replaces, the guard that refuses a query engine without one, the
 * assembly of the retrieved context, the prompt template, and the extraction
 * of the final answer from the model's decoded output.
 *
 * The libraries behind it are parameters: retrieval is the list of node texts
 * (or the error) that the query engine returned, generation is a function from
 * prompt to decoded text (or the error), and the PDF upload is the outcome of
 * each of its steps.
 */
module Context {
  import opened Wrappers
  import opened PyStr

  // The two fixed replies are written word by word: the proofs that they lack
  // the answer marker then only look at short literals.

  /** Reply when the retained node texts hold nothing but whitespace: "No relvant information from PDF document". */
  const NoInfoReply := "No relvant " + "information " + "from PDF " + "document"
  /** Reply when the text extracted from the model output is empty: "unable to generate a response from PDF documents". */
  const EmptyAnswerReply := "unable to " + "generate a " + "response " + "from PDF " + "documents"
  /** Prefix of the reply that reports a failure of retrieval or generation. */
  const ErrorPrefix := "Error processing your question:"
  /** Message of the error raised when a query engine is asked for before any upload succeeded. */
  const NoIndexError := "No index available.Please process a pdf file"

  /** The marker that closes the prompt and after which the model writes its answer. */
  const AnswerMarker := "Answer:"
  /** The word whose presence in the output decides whether extraction happens. */
  const AnswerWord := "Answer"

  /** At most this many retrieved nodes contribute to the context. */
  const MaxContextNodes := 2
  /** What follows every node text in the context. */
  const NodeSeparator := "\n\n"
  /** Default number of neighbours the retriever asks for. */
  const DefaultTopK := 2
  /** Minimum similarity a retrieved node must reach. */
  const SimilarityCutoff: real := 0.5

  /** Prompt text in front of the context. */
  const PromptIntro := "I am an AI assiantant tasked with answering question based on the provided PDF content.\n        please analyze the following except from PDF and answer the question\n        PDF content:\n        "
  /** Prompt text between the context and the question. */
  const PromptQuestionLabel := "\n\n        Question:"
  /** Prompt text between the question and the closing marker. */
  const PromptInstructions := "\n\n\n        Instructions:\n\n         \n        -Answer only based on the information provided in the PDF content above.\n        -If the answer cannot be found in the provided content,say I cannot find the answer to the question and provide a PDF documnets\n        -Be concise and specifice\n        -Include relevant quote or references from the PDF when applicable\n        "

  /** One page (or section) of text read from the uploaded PDF. */
  datatype Document = Document(text: string)

  /** The vector index, identified by the documents it was built from. */
  datatype VectorIndex = VectorIndex(documents: seq<Document>)

  /** A retriever over an index with its top-k and its similarity post-filter. */
  datatype QueryEngine = QueryEngine(index: VectorIndex, topK: nat, similarityCutoff: real)

  // ---------------------------------------------------------------------------
  // Context assembly

  /** The node texts the context keeps: the first `MaxContextNodes`, in retrieval order. */
  function Retained(texts: seq<string>): (kept: seq<string>)
    ensures |kept| <= MaxContextNodes && |kept| <= |texts|
    ensures |kept| == |texts| || |kept| == MaxContextNodes
    ensures kept == texts[..|kept|]
  {
    if |texts| <= MaxContextNodes then texts else texts[..MaxContextNodes]
  }

  /** Every text followed by the node separator, concatenated in order. */
  function Joined(texts: seq<string>): string {
    if texts == [] then [] else Joined(texts[..|texts| - 1]) + texts[|texts| - 1] + NodeSeparator
  }

  /** The context built from the retrieved node texts. */
  function ContextOf(texts: seq<string>): string {
    Joined(Retained(texts))
  }

  /** The context is the first text and the separator, then the second text and the separator, and nothing more. */
  lemma ContextLayout(texts: seq<string>)
    ensures ContextOf(texts) ==
      if |texts| == 0 then ""
      else if |texts| == 1 then texts[0] + NodeSeparator
      else texts[0] + NodeSeparator + texts[1] + NodeSeparator
  {
    var kept := Retained(texts);
    if |kept| == 2 {
      assert kept[..1] == [texts[0]];
      assert kept[..1][..0] == [];
    } else if |kept| == 1 {
      assert kept[..0] == [];
      assert Joined(kept) == Joined(kept[..0]) + kept[0] + NodeSeparator;
    }
  }

  /** Nodes after the second never reach the context. */
  lemma ContextIgnoresLaterNodes(texts: seq<string>, later: seq<string>)
    requires |texts| >= MaxContextNodes
    ensures ContextOf(texts + later) == ContextOf(texts)
  {
    assert (texts + later)[..MaxContextNodes] == texts[..MaxContextNodes];
  }

  /** A blank joining is one whose every text is blank, since the separator is whitespace. */
  lemma {:induction false} JoinedBlank(texts: seq<string>)
    ensures IsBlank(Joined(texts)) <==> forall i :: 0 <= i < |texts| ==> IsBlank(texts[i])
    decreases |texts|
  {
    if texts != [] {
      var front := texts[..|texts| - 1];
      var last := texts[|texts| - 1];
      JoinedBlank(front);
      var j := Joined(texts);
      assert j == Joined(front) + last + NodeSeparator;
      assert IsBlank(NodeSeparator);
      assert IsBlank(j) <==> IsBlank(Joined(front)) && IsBlank(last) by {
        if IsBlank(j) {
          assert forall k :: 0 <= k < |last| ==> last[k] == j[|Joined(front)| + k];
          assert forall k :: 0 <= k < |Joined(front)| ==> Joined(front)[k] == j[k];
        }
      }
      assert forall i :: 0 <= i < |front| ==> front[i] == texts[i];
    }
  }

  /** The context is blank exactly when every retained node text is blank (in particular when nothing was retrieved). */
  lemma ContextBlank(texts: seq<string>)
    ensures IsBlank(ContextOf(texts)) <==> forall i :: 0 <= i < |texts| && i < MaxContextNodes ==> IsBlank(texts[i])
  {
    JoinedBlank(Retained(texts));
  }

  /** The loop that builds the context, one retained node at a time. */
  method AssembleContext(texts: seq<string>) returns (context: string)
    ensures context == ContextOf(texts)
  {
    var kept := Retained(texts);
    context := "";
    for i := 0 to |kept|
      invariant context == Joined(kept[..i])
    {
      assert kept[..i + 1][..i] == kept[..i];
      context := context + (kept[i] + NodeSeparator);
    }
    assert kept[..|kept|] == kept;
  }

  // ---------------------------------------------------------------------------
  // Prompt

  /** The prompt: the fixed preamble, the context, the question, the instructions, and the closing answer marker. */
  function CreatePrompt(context: string, query: string): string {
    PromptIntro + context + PromptQuestionLabel + query + PromptInstructions + AnswerMarker
  }

  /**
   * The prompt starts with the fixed preamble, holds the context verbatim right
   * after it, then the question label and the question verbatim, and ends with
   * the answer marker.
   */
  lemma PromptLayout(context: string, query: string)
    ensures OccursAt(CreatePrompt(context, query), PromptIntro, 0)
    ensures OccursAt(CreatePrompt(context, query), context, |PromptIntro|)
    ensures OccursAt(CreatePrompt(context, query), PromptQuestionLabel, |PromptIntro| + |context|)
    ensures OccursAt(CreatePrompt(context, query), query, |PromptIntro| + |context| + |PromptQuestionLabel|)
    ensures |CreatePrompt(context, query)|
      == |PromptIntro| + |context| + |PromptQuestionLabel| + |query| + |PromptInstructions| + |AnswerMarker|
    ensures OccursAt(CreatePrompt(context, query), AnswerMarker,
      |PromptIntro| + |context| + |PromptQuestionLabel| + |query| + |PromptInstructions|)
  {
    ConcatLayout(PromptIntro, context, PromptQuestionLabel, query, PromptInstructions, AnswerMarker);
  }

  // ---------------------------------------------------------------------------
  // Answer extraction

  /** The answer marker never overlaps itself: its first letter does not recur in it. */
  lemma AnswerMarkerHeadUnique()
    ensures AnswerMarker != [] && HeadUnique(AnswerMarker)
  {
    assert AnswerMarker == ['A', 'n', 's', 'w', 'e', 'r', ':'];
  }

  /** The no-information reply does not hold the marker: it lacks the marker's capital first letter. */
  lemma NoInfoReplyHasNoMarker()
    ensures !Contains(NoInfoReply, AnswerMarker)
  {
    assert 'A' !in "No relvant " && 'A' !in "information " && 'A' !in "from PDF " && 'A' !in "document";
    MissingHead(NoInfoReply, AnswerMarker);
  }

  /** The empty-answer reply does not hold the marker: it lacks the marker's capital first letter. */
  lemma EmptyAnswerReplyHasNoMarker()
    ensures !Contains(EmptyAnswerReply, AnswerMarker)
  {
    assert 'A' !in "unable to " && 'A' !in "generate a " && 'A' !in "response ";
    assert 'A' !in "from PDF " && 'A' !in "documents";
    MissingHead(EmptyAnswerReply, AnswerMarker);
  }

  /** A text that contains the marker contains the marker word. */
  lemma MarkerHasWord(s: string)
    requires Contains(s, AnswerMarker)
    ensures Contains(s, AnswerWord)
  {
    assert AnswerMarker == AnswerWord + ":";
    ContainsPrefixOf(s, AnswerWord, ":");
  }

  /** The output text before the fallback: after the last marker and stripped, when the marker word occurs. */
  function ExtractText(decoded: string): (text: string)
    ensures !Contains(text, AnswerMarker)
  {
    if Contains(decoded, AnswerWord) then
      StrippedLastPieceFree(decoded);
      Strip(Last(Split(decoded, AnswerMarker)))
    else
      WordlessHasNoMarker(decoded);
      decoded
  }

  /** The stripped last piece of a split at the marker holds no marker. */
  lemma StrippedLastPieceFree(decoded: string)
    ensures !Contains(Strip(Last(Split(decoded, AnswerMarker))), AnswerMarker)
  {
    var tail := Last(Split(decoded, AnswerMarker));
    SplitLast(decoded, AnswerMarker);
    if Contains(Strip(tail), AnswerMarker) {
      ContainsTransitive(tail, Strip(tail), AnswerMarker);
    }
  }

  /** A text without the marker word holds no marker. */
  lemma WordlessHasNoMarker(decoded: string)
    requires !Contains(decoded, AnswerWord)
    ensures !Contains(decoded, AnswerMarker)
  {
    if Contains(decoded, AnswerMarker) {
      MarkerHasWord(decoded);
    }
  }

  /** The answer returned for a decoded model output: never empty and never holding the marker. */
  function ExtractAnswer(decoded: string): (answer: string)
    ensures answer != []
    ensures !Contains(answer, AnswerMarker)
  {
    var text := ExtractText(decoded);
    if text != [] then text
    else
      EmptyAnswerReplyHasNoMarker();
      EmptyAnswerReply
  }

  /** Output with a marker: the answer is the stripped text after the LAST marker, or the fallback when that text is blank. */
  lemma ExtractAfterLastMarker(before: string, after: string)
    requires !Contains(after, AnswerMarker)
    ensures ExtractAnswer(before + AnswerMarker + after) == if IsBlank(after) then EmptyAnswerReply else Strip(after)
  {
    var decoded := before + AnswerMarker + after;
    assert decoded[|before|..|before| + |AnswerMarker|] == AnswerMarker;
    assert OccursAt(decoded, AnswerMarker, |before|);
    MarkerHasWord(decoded);
    AnswerMarkerHeadUnique();
    LastAfterFinalSeparator(before, AnswerMarker, after);
  }

  /** Output without the marker word: the decoded text is kept as it is, unless it is empty. */
  lemma ExtractWithoutWord(decoded: string)
    requires !Contains(decoded, AnswerWord)
    ensures ExtractAnswer(decoded) == if decoded == [] then EmptyAnswerReply else decoded
  {
  }

  /** Output with the word but no marker: the whole text is stripped and kept, unless blank. */
  lemma ExtractWordWithoutColon(decoded: string)
    requires Contains(decoded, AnswerWord) && !Contains(decoded, AnswerMarker)
    ensures ExtractAnswer(decoded) == if IsBlank(decoded) then EmptyAnswerReply else Strip(decoded)
  {
    SplitLast(decoded, AnswerMarker);
  }

  /**
   * A model that echoes the prompt and continues it: the answer is the
   * stripped continuation, whatever the context and the question hold.
   */
  lemma ExtractFromEchoedPrompt(context: string, query: string, continuation: string)
    requires !Contains(continuation, AnswerMarker)
    ensures ExtractAnswer(CreatePrompt(context, query) + continuation)
      == if IsBlank(continuation) then EmptyAnswerReply else Strip(continuation)
  {
    var before := PromptIntro + context + PromptQuestionLabel + query + PromptInstructions;
    assert CreatePrompt(context, query) + continuation == before + AnswerMarker + continuation;
    ExtractAfterLastMarker(before, continuation);
  }

  // ---------------------------------------------------------------------------
  // The whole answer

  /**
   * The reply to a question, given what retrieval returned and what the model
   * does with a prompt. Every failure becomes an error reply.
   */
  function Response(retrieved: Result<seq<string>>, query: string, generate: string -> Result<string>): (reply: string)
    ensures reply != []
  {
    match retrieved
    case Err(e) => ErrorPrefix + e
    case Ok(texts) =>
      var context := ContextOf(texts);
      if Strip(context) == [] then NoInfoReply
      else
        match generate(CreatePrompt(context, query))
        case Err(e) => ErrorPrefix + e
        case Ok(decoded) => ExtractAnswer(decoded)
  }

  /** A failed retrieval is reported with the error message, never raised. */
  lemma RetrievalFailureReported(e: string, query: string, generate: string -> Result<string>)
    ensures Response(Err(e), query, generate) == ErrorPrefix + e
  {
  }

  /**
   * When every retained node text is blank the reply is the fixed
   * no-information reply, and the model is not consulted: any other model gives the same reply.
   */
  lemma BlankContextSkipsModel(texts: seq<string>, query: string, generate: string -> Result<string>, other: string -> Result<string>)
    requires forall i :: 0 <= i < |texts| && i < MaxContextNodes ==> IsBlank(texts[i])
    ensures Response(Ok(texts), query, generate) == NoInfoReply
    ensures Response(Ok(texts), query, other) == Response(Ok(texts), query, generate)
  {
    ContextBlank(texts);
  }

  /** With some non-blank retained text, the model gets the prompt built from the context and the question. */
  lemma ModelSeesPrompt(texts: seq<string>, query: string, generate: string -> Result<string>)
    requires exists i :: 0 <= i < |texts| && i < MaxContextNodes && !IsBlank(texts[i])
    ensures var outcome := generate(CreatePrompt(ContextOf(texts), query));
      Response(Ok(texts), query, generate) ==
        match outcome
        case Err(e) => ErrorPrefix + e
        case Ok(decoded) => ExtractAnswer(decoded)
  {
    ContextBlank(texts);
  }

  /** Apart from error replies, a reply never holds the answer marker. */
  lemma ReplyHasNoMarker(texts: seq<string>, query: string, generate: string -> Result<string>)
    requires IsBlank(ContextOf(texts)) || generate(CreatePrompt(ContextOf(texts), query)).Ok?
    ensures !Contains(Response(Ok(texts), query, generate), AnswerMarker)
  {
    NoInfoReplyHasNoMarker();
  }

  /** Message of the error raised by reading the `tokenizer` attribute, which is never set. */
  const MissingTokenizerError := "'RAGSystem' object has no attribute 'tokenizer'"

  /** Generation as the code wires it: the tokenizer attribute is never set, so the call always raises. */
  function GenerateAsWritten(prompt: string): Result<string> {
    Err(MissingTokenizerError)
  }

  /** With the tokenizer never assigned, a question is answered only by the no-information reply or an error. */
  lemma TokenizerNeverAssigned(texts: seq<string>, query: string)
    ensures Response(Ok(texts), query, GenerateAsWritten) ==
      if IsBlank(ContextOf(texts)) then NoInfoReply else ErrorPrefix + MissingTokenizerError
  {
  }

  /** With a tokenizer in place and a model that echoes the prompt, the reply is the model's continuation, stripped. */
  lemma EchoingModelAnswers(texts: seq<string>, query: string, generate: string -> Result<string>, continuation: string)
    requires !IsBlank(ContextOf(texts))
    requires generate(CreatePrompt(ContextOf(texts), query)) == Ok(CreatePrompt(ContextOf(texts), query) + continuation)
    requires !Contains(continuation, AnswerMarker)
    ensures Response(Ok(texts), query, generate) == if IsBlank(continuation) then EmptyAnswerReply else Strip(continuation)
  {
    ExtractFromEchoedPrompt(ContextOf(texts), query, continuation);
  }

  // ---------------------------------------------------------------------------
  // The stateful system

  /** Raised by the cleanup call of the upload as the code writes it. */
  const MisspelledCleanupError := "module 'os' has no attribute 'unlike'"

  class RAGSystem {
    /** The index of the most recently processed PDF, if any. */
    var index: Option<VectorIndex>
    /** Tokenize, generate and decode, loaded once at construction. */
    const generate: string -> Result<string>

    constructor(generate: string -> Result<string>)
      ensures index == None && this.generate == generate
    {
      this.generate := generate;
      index := None;
    }

    /**
     * Processes an uploaded PDF. The steps are: write the temporary file,
     * read the documents, build the index, assign it, delete the temporary
     * file. A failure in the first three keeps the previous index; a failure
     * in the cleanup comes after the assignment. Any failure returns false.
     */
    method ProcessPdf(stored: Outcome, loaded: Result<seq<Document>>, built: Outcome, removed: Outcome) returns (ok: bool)
      modifies this
      ensures ok <==> stored.Pass? && loaded.Ok? && built.Pass? && removed.Pass?
      ensures index == if stored.Pass? && loaded.Ok? && built.Pass? then Some(VectorIndex(loaded.value)) else old(index)
    {
      if stored.Fail? || loaded.Err? || built.Fail? {
        return false;
      }
      index := Some(VectorIndex(loaded.value));
      if removed.Fail? {
        return false;
      }
      return true;
    }

    /** The upload as the code writes it: the cleanup always raises, so success is never reported although the index is replaced. */
    method ProcessPdfAsWritten(stored: Outcome, loaded: Result<seq<Document>>, built: Outcome) returns (ok: bool)
      modifies this
      ensures !ok
      ensures index == if stored.Pass? && loaded.Ok? && built.Pass? then Some(VectorIndex(loaded.value)) else old(index)
    {
      ok := ProcessPdf(stored, loaded, built, Fail(MisspelledCleanupError));
    }

    /** The query engine over the current index; refused while there is none. */
    function GetQueryEngine(topK: nat): (engine: Result<QueryEngine>)
      reads this
      ensures engine.Err? <==> index == None
      ensures engine.Err? ==> engine.error == NoIndexError
      ensures engine.Ok? ==> engine.value.index == index.value && engine.value.topK == topK
      ensures engine.Ok? ==> engine.value.similarityCutoff == SimilarityCutoff
    {
      if index == None then Err(NoIndexError) else Ok(QueryEngine(index.value, topK, SimilarityCutoff))
    }

    /** Answers a question from what the query engine retrieved; no failure escapes as an exception. */
    method GenerateResponse(retrieved: Result<seq<string>>, query: string) returns (answer: string)
      ensures answer == Response(retrieved, query, generate)
    {
      if retrieved.Err? {
        return ErrorPrefix + retrieved.error;
      }
      var context := AssembleContext(retrieved.value);
      if Strip(context) == [] {
        return NoInfoReply;
      }
      var prompt := CreatePrompt(context, query);
      var outcome := generate(prompt);
      if outcome.Err? {
        return ErrorPrefix + outcome.error;
      }
      answer := ExtractAnswer(outcome.value);
    }
  }

  /**
   * A session as the contracts above let a caller see it: no query engine
   * before any upload, one over the uploaded documents after a successful
   * upload, the index kept by an upload whose reading fails, and replaced by
   * an upload whose only failure is the cleanup.
   */
  method UploadSession(first: seq<Document>, second: seq<Document>, generate: string -> Result<string>)
  {
    var rag := new RAGSystem(generate);
    assert rag.GetQueryEngine(DefaultTopK) == Err(NoIndexError);
    var ok := rag.ProcessPdf(Pass, Ok(first), Pass, Pass);
    assert ok;
    assert rag.GetQueryEngine(DefaultTopK) == Ok(QueryEngine(VectorIndex(first), DefaultTopK, SimilarityCutoff));
    ok := rag.ProcessPdf(Pass, Err("EOF marker not found"), Pass, Pass);
    assert !ok && rag.index == Some(VectorIndex(first));
    ok := rag.ProcessPdfAsWritten(Pass, Ok(second), Pass);
    assert !ok && rag.index == Some(VectorIndex(second));
  }
}
