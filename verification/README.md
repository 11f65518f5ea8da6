# RAG over one PDF: a Dafny model of `RAGSystem`

The application lets a user upload a PDF and ask questions about it. The
upload is turned into a vector index. A question retrieves the most similar
passages. A language model then answers from a prompt built around those
passages. Embedding, indexing, retrieval and generation are all done by
libraries. The logic the repository writes itself lives in the `RAGSystem`
class of `context.py`, and that is what this project models:

- the index field, which starts unset and is replaced wholesale by a PDF
  upload (`Context.RAGSystem.index`, `ProcessPdf`);
- the guard that refuses a query engine while no index is set
  (`GetQueryEngine`);
- the context assembly: the texts of at most the first two retrieved nodes,
  each followed by a blank line, and the short circuit when that context is
  blank (`AssembleContext`, `ContextOf`);
- the prompt template (`CreatePrompt`);
- the extraction of the answer from the decoded model output: the stripped
  text after the last `Answer:` marker, with a fixed fallback for an empty
  result (`ExtractText`, `ExtractAnswer`);
- the whole question-answering path, in which every failure becomes an error
  string (`Response`, `GenerateResponse`).

The libraries are parameters. Retrieval is the list of node texts the query
engine returned, or the message of the exception it raised. Tokenizing,
generating and decoding together are one function from prompt to decoded
text or error message. That function is fixed when the system is constructed.
The PDF upload is described by the outcome of each of its steps: writing the
temporary file, reading the documents, building the index, and deleting the
temporary file.

Module `PyStr` (`pystr.dfy`) gives the meaning of the Python string
operations the code relies on: `str.isspace`, `str.strip`, `in`, and
`str.split` with its inverse `str.join`. Module `Wrappers` (`wrappers.dfy`)
holds the Option, Result and Outcome types. Module `Context` (`context.py`'s
model, `context.dfy`) holds the rest.

## Model

| member | source | states |
|---|---|---|
| `Context.RAGSystem.constructor` | context.py:12-15 | A new system has no index; the generation collaborator is the one loaded at construction. |
| `Context.RAGSystem.ProcessPdf` | context.py:36-54 | Returns true exactly when the temporary-file write, the PDF read, the index build and the cleanup all succeed. The index becomes one built from the documents just read exactly when the first three succeed, even if the cleanup then fails; otherwise the previous index is kept. |
| `Context.RAGSystem.ProcessPdfAsWritten` | context.py:49 | With the cleanup call as written, the upload never reports success, yet the index is still replaced whenever reading and building succeed. |
| `Context.RAGSystem.GetQueryEngine` | context.py:56-69 | Fails with exactly "No index available.Please process a pdf file" if and only if no index is set; otherwise gives an engine over the current index with the requested top-k and the 0.5 similarity cutoff. |
| `Context.Joined` | context.py:94-97 | Each text followed by a blank line, concatenated in order; characterized by `ContextLayout` and `JoinedBlank`. |
| `Context.ContextOf` | context.py:94-97 | The context built from the retrieved texts; characterized by `ContextLayout`, `ContextIgnoresLaterNodes` and `ContextBlank`. |
| `Context.Retained` | context.py:96 | At most two node texts are kept, and they are the first ones in retrieval order. |
| `Context.ContextLayout` | context.py:94-97 | The context is empty for no nodes, the first text plus a blank line for one, and the first two texts each followed by a blank line otherwise. |
| `Context.ContextIgnoresLaterNodes` | context.py:96 | Nodes after the second never change the context. |
| `Context.JoinedBlank` | context.py:94-99 | A concatenation of texts, each followed by the separator, is blank if and only if every text is blank. |
| `Context.ContextBlank` | context.py:94-99 | The context is blank (so `context.strip()` is empty) if and only if each of the first two node texts is blank; in particular when nothing was retrieved. |
| `Context.AssembleContext` | context.py:94-97 | The loop over the retained nodes builds exactly the context defined by `ContextOf`. |
| `Context.CreatePrompt` | context.py:72-88 | The prompt template; characterized by `PromptLayout`. |
| `Context.PromptLayout` | context.py:72-88 | The prompt starts with the fixed preamble, holds the context verbatim right after it, then the question label and the question verbatim, and ends with the `Answer:` marker; its length is the sum of its parts. |
| `PyStr.IsSpace` | context.py:99 | Python's whitespace set for `str.strip`: tab through carriage return, the file, group, record and unit separators, space, next line, no-break space, and the Unicode space, line and paragraph separators. |
| `PyStr.LStrip` | context.py:99 | The result is a suffix of the input, what it drops is blank, and it starts with a non-space when not empty. |
| `PyStr.RStrip` | context.py:99 | The result is a prefix of the input, what it drops is blank, and it ends with a non-space when not empty. |
| `PyStr.Strip` | context.py:117 | The stripped text is a piece of the input, empty exactly when the input is all whitespace, and starts and ends with a non-space. |
| `PyStr.StripPadded` | context.py:117 | Stripping removes exactly the blank padding around a piece that starts and ends with a non-space. |
| `PyStr.Contains` | context.py:116 | Python's `t in s`: `t` occurs at some position of `s`; used through `MarkerHasWord`, `WordlessHasNoMarker` and `MissingHead`. |
| `PyStr.Last` | context.py:117 | `parts[-1]` of a non-empty list. |
| `PyStr.Split` | context.py:117 | `str.split` with an explicit separator: never an empty list; characterized by `SplitJoin`, `SplitPiecesFree` and `SplitLast`. |
| `PyStr.SplitJoin` | context.py:117 | Joining the pieces of a split with the separator gives back the original text. |
| `PyStr.SplitPiecesFree` | context.py:117 | No piece of a split contains the separator, and the first piece is a prefix of the text. |
| `PyStr.SplitLast` | context.py:117 | The last piece of a split has no separator; it is the whole text when the separator does not occur, and otherwise the suffix right behind an occurrence of the separator. |
| `PyStr.LastAfterFinalSeparator` | context.py:117 | For a separator whose first character does not recur in it, the last piece of splitting `p + sep + c` is `c` whenever `c` has no separator, whatever `p` holds. |
| `Context.ExtractText` | context.py:116-117 | The text kept from the decoded output never contains `Answer:`. |
| `Context.ExtractAnswer` | context.py:116-118 | The extracted answer is never empty and never contains `Answer:`. |
| `Context.ExtractAfterLastMarker` | context.py:116-118 | For output `before + "Answer:" + after` where `after` has no marker, the answer is `after` stripped, or "unable to generate a response from PDF documents" when `after` is blank, whatever `before` holds. |
| `Context.ExtractWithoutWord` | context.py:116-118 | When the word `Answer` does not occur, the decoded text is returned unchanged (whitespace included), or the fallback when it is empty. |
| `Context.ExtractWordWithoutColon` | context.py:116-118 | When `Answer` occurs but `Answer:` does not, the split yields the whole text, so the answer is the stripped output, or the fallback when it is blank. |
| `Context.ExtractFromEchoedPrompt` | context.py:103-118 | When the output is the prompt followed by a continuation without a marker, the answer is the stripped continuation (or the fallback), whatever the context and the question contain. |
| `Context.Response` | context.py:90-121 | A reply is never the empty string. |
| `Context.RetrievalFailureReported` | context.py:119-121 | A failed retrieval gives "Error processing your question:" followed by the error message. |
| `Context.BlankContextSkipsModel` | context.py:99-100 | When each of the first two node texts is blank, the reply is exactly "No relvant information from PDF document", and it is the same for any model, so the model is not consulted. |
| `Context.ModelSeesPrompt` | context.py:99-121 | When some retained text is not blank, the model receives the prompt built from the context and the question; its failure gives the error reply and its output gives the extracted answer. |
| `Context.ReplyHasNoMarker` | context.py:99-118 | Except for error replies, the reply never contains `Answer:`. |
| `Context.GenerateAsWritten` | context.py:105-115 | Generation as the code wires it: the call through the never-assigned `self.tokenizer` always fails with the missing-attribute error; characterized by `TokenizerNeverAssigned`. |
| `Context.TokenizerNeverAssigned` | context.py:105-121 | With the tokenizer never assigned, every question whose retrieval succeeds gets either the no-information reply or the error reply for the missing `tokenizer` attribute. |
| `Context.EchoingModelAnswers` | context.py:103-118 | With a working model that echoes the prompt and continues it, the reply is the stripped continuation, or the fallback when the continuation is blank. |
| `Context.RAGSystem.GenerateResponse` | context.py:90-121 | Answering a question on a system gives exactly the reply `Response` defines for the system's model: retrieval errors and model errors as error strings, the no-information reply for a blank context, and the extracted answer otherwise. |

## Left out

- Embedding, chunking (chunk size 256, overlap 15), vector indexing, top-k retrieval and the 0.5 similarity cutoff are library work. A query engine only records its index, top-k and cutoff, and retrieval is the list of node texts it returned. The invariant that only chunks of the latest document are retrievable is not modelled beyond the index being rebuilt from the latest documents.
- Model and tokenizer loading and the sampling settings (`do_sample=True`, 512 new tokens, temperature 0.3, top-p 0.9, repetition penalty 1.2) are not modelled. Generation is an injected function that may fail.
- `RAGSystem.generate`: because generation samples, the same question can get a different reply on each call. The model fixes one generation function per system, so `generate` stands for one draw per prompt. Every property holds per call, not across calls, and two calls with the same prompt giving the same answer is an artefact of the model.
- The temporary file is an outcome of its write and of its deletion. Its name and contents are not modelled, and neither is the file that the code leaves behind when reading or indexing fails (there is no `finally`).
- The `print` calls that log errors are left out.
- The Streamlit interface and its session state (app.py) are not part of this model.
- `GetQueryEngine`: the default `top_k=2` is the constant `DefaultTopK`, not a default argument. The test `not self.index` is modelled as "no index is set", because an index object is always truthy.
- Node texts are taken to be strings. A node whose text is `None` would contribute the characters `None` in the code; that case is not modelled.
- Deleting the temporary file on every path, and leaving no partial index when an upload fails, would be more robust. The code assigns the index before the cleanup call, and the model follows the code.
- Splitting always, without the check for the word `Answer`, would also strip output that lacks the word. The code keeps the check, and the model follows the code. This is why output without the word keeps its surrounding whitespace.

## Findings

| source | as written | input that shows it | evidently intended | confidence | as-written member | corrected member |
|---|---|---|---|---|---|---|
| context.py:49 | The cleanup calls `os.unlike`, which does not exist, after the index was already assigned. | Any PDF that is read and indexed: the upload returns false although the index was replaced. | Delete the file with `os.unlink`, so a successful upload returns true. | high; not executed | `Context.RAGSystem.ProcessPdfAsWritten` | `Context.RAGSystem.ProcessPdf` |
| context.py:33 | The tokenizer is bound to a local variable and never to `self.tokenizer`, so the call at line 105 always raises. | Any question whose first two retrieved texts are not all blank: the reply is the error for the missing `tokenizer` attribute. | Assign `self.tokenizer`, so the model runs and its continuation is returned. | high; not executed | `Context.TokenizerNeverAssigned` | `Context.EchoingModelAnswers` |
