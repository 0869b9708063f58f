# A Dafny model of the NLProc RAG engine

This project models, in Dafny, the deterministic core of a retrieval-augmented question
answering system written in Python:

- **two chunkers**. The baseline `chunk_text` cuts `text.split()` into windows of
  `chunk_size` words that start every `chunk_size - overlap` words, joining each window
  with single spaces. The week-3 `_chunk_text` cuts the raw characters into windows over
  `range(0, len(text), step)`.
- **two retrievers**. The baseline retriever replaces its corpus on every build, names each
  chunk `<basename>_chunk<i>` and maps search positions back to `(doc_id, chunk)`. The
  week-3 retriever appends to a list of texts kept in step with a flat L2 index, and pairs
  positions with distances through `zip`.
- **the Recall@k evaluator**. It builds gold-comparable ids from result metadata and counts
  the benchmark cases that hit.
- **the prompt builder** `build_prompt`.
- **the audit logger**. Its constructor creates the CSV header and the empty JSON list. Its
  `log` rewrites the JSON list, resetting it when the file holds no list, and appends a
  CSV row.

Python's own semantics are written out where the code relies on them: slicing clamps its
bounds, a negative index counts from the end, `str.split()` splits on every Unicode
whitespace character, `os.path.splitext` leaves a hidden file's leading dot alone, and
`str.replace` removes every occurrence of its pattern.

Modules: `Wrappers` (Option, Result), `PySeq` (slicing, indexing), `Windowing` (the windows
both chunkers produce), `Text` (split, join, decimal rendering, `replace(pat, "")`),
`Paths` (basename, extension, ASCII lower-casing), `BaselineRetriever`, `Week3Retriever`,
`RecallEvaluator`, `Generator` and `AuditLogger`.

Each operation with a loop or with state is a method proved against a specification
function. The lemmas state what the source promises about those functions. These include
the window shape and count, the reconstruction of the input from the chunks minus their
overlap, the uniqueness of chunk ids within one file, the bounds and monotonicity of Recall@k, the prompt's
layout and its split/join round trip, and the logger's append, reset and lockstep
behaviour.

The embedding model, the vector index, the file readers and the clock are not modelled.
Instead, they become inputs. A query receives the positions, and for week 3 the distances,
that the index search returned. A build receives a function from path to extracted text.
`log` receives the timestamp string.

Behaviours of the code that the model keeps as written:

- Only the week-3 `add_documents` adds to what is already indexed. The baseline replaces its
  whole corpus and index on each call (baseline/retriever/retreiver.py:56-59).
- Neither chunker rejects `overlap >= size`. The baseline loop never ends in that case when
  the text has a word. Week 3 raises `ValueError` only when `overlap == size`, and returns no
  chunk when `overlap > size`.
- The evaluator removes `.pdf`, `.md` and `.txt` wherever they occur in the source name, not
  only at its end (`RecallEvaluator.StripIsGlobal`).
- Recall@k cannot drop as k grows only when a larger k extends each result list;
  `RecallEvaluator.HitsMonotoneInK` states it under that assumption.
- Chunk ids are unique only within one file. Two files with the same base name in different
  directories, or a path given twice, produce the same ids, because the id is built from
  `os.path.basename` (baseline/retriever/retreiver.py:49).
- None of the modelled files filters by metadata, keeps a conversation memory or computes
  precision or F1, so the model has none of these.

## Model

| member | source | states |
|---|---|---|
| PySeq.Slice | experiments/week_3/retriever.py:49 | a Python slice is never longer than its sequence, and for `0 <= lo <= hi` it is the part between the bounds clamped to the length |
| PySeq.Position | baseline/retriever/retreiver.py:71 | a Python index is valid exactly when `-n <= i < n`; a non-negative index is itself, and -1 denotes the last element |
| Windowing.WindowCount | baseline/retriever/retreiver.py:19-23 | there are ceil(n / step) windows: none exactly for an empty input, and `(c-1)*step < n <= c*step` |
| Windowing.WindowAt | experiments/week_3/retriever.py:48-49 | window i starts at `i*step`, inside the input, and is `s[i*step : i*step+size]` |
| Windowing.WindowBounds | baseline/retriever/retreiver.py:20-21 | with a positive size every window holds between 1 and `size` elements |
| Windowing.LastWindowEnds | baseline/retriever/retreiver.py:19-23 | when windows overlap or touch, the last window runs to the end of the input |
| Windowing.Reconstruct | experiments/week_3/retriever.py:47-49 | for `0 <= overlap < size`, the first window followed by every later window minus its first `overlap` elements is exactly the input |
| Text.Words | baseline/retriever/retreiver.py:16 | every word of `str.split()` is non-empty and free of whitespace |
| Text.WordsEmptyIffBlank | baseline/retriever/retreiver.py:16 | `str.split()` is empty exactly when every character is whitespace |
| Text.WordsOfJoin | baseline/retriever/retreiver.py:21 | splitting the single-space join of a list of words gives the list back |
| Text.ParseNatToString | baseline/retriever/retreiver.py:49 | the decimal rendering of a chunk index parses back to the index |
| Text.NatToStringInjective | baseline/retriever/retreiver.py:49 | different chunk indices render differently |
| Text.RemoveAll | baseline/metrics/recall_evaluator.py:25 | `replace(pat, "")` never lengthens a string |
| Text.RemoveAbsent | baseline/metrics/recall_evaluator.py:25 | `replace(pat, "")` leaves a string without `pat` unchanged |
| Text.RemoveTrailing | baseline/metrics/recall_evaluator.py:25 | `replace(pat, "")` strips a trailing `pat` when no other occurrence starts before it |
| Paths.NameStart | baseline/retriever/retreiver.py:49 | the base name starts right after the last '/', and no '/' follows |
| Paths.ExtensionOfFile | baseline/retriever/retreiver.py:39 | for `dir/stem.ext` the base name is `stem.ext` and `splitext` yields `.ext` |
| BaselineRetriever.ChunkWords | baseline/retriever/retreiver.py:16-23 | the words of chunk i are exactly window i of the text's words |
| BaselineRetriever.WordChunkAt | baseline/retriever/retreiver.py:19-23 | chunk i is `" ".join(words[i*step : min(i*step+chunk_size, n)])`, and its start lies inside the word list |
| BaselineRetriever.ChunkWordBounds | baseline/retriever/retreiver.py:20-21 | every chunk holds between 1 and `chunk_size` words |
| BaselineRetriever.WordChunkCount | baseline/retriever/retreiver.py:19-23 | there are ceil(n / step) chunks for n words |
| BaselineRetriever.BlankTextHasNoChunks | baseline/retriever/retreiver.py:16-19 | no chunk exactly when the text is all whitespace |
| BaselineRetriever.LastChunkEnds | baseline/retriever/retreiver.py:19-23 | the last chunk's words are the final words of the text |
| BaselineRetriever.WordChunksReconstruct | baseline/retriever/retreiver.py:19-23 | the words of chunk 0, then the words of each later chunk minus the first `overlap`, give back the text's words |
| BaselineRetriever.ChunkText | baseline/retriever/retreiver.py:12-24 | `chunk_text` returns the word-window chunks of the text |
| BaselineRetriever.JoinWindows | baseline/retriever/retreiver.py:17-24 | the `while` loop returns the word windows joined by single spaces, and nothing for no words |
| BaselineRetriever.NameChunks | baseline/retriever/retreiver.py:48-50 | chunk j is paired with the id `<basename>_chunk<j>`, in chunk order |
| BaselineRetriever.FileDocsAt | baseline/retriever/retreiver.py:48-50 | a supported file contributes one entry per chunk, the i-th being `(id i, chunk i)` |
| BaselineRetriever.FileChunkIds | baseline/retriever/retreiver.py:49 | ids within one file are pairwise distinct and number the chunks in order |
| BaselineRetriever.CorpusSkipsUnsupported | baseline/retriever/retreiver.py:39-47 | a file whose extension is not .txt, .md or .pdf in any letter case adds nothing |
| BaselineRetriever.CorpusAppend | baseline/retriever/retreiver.py:37-50 | a build over two lists of files yields the first list's entries followed by the second's |
| BaselineRetriever.FileDocsReassemble | baseline/retriever/retreiver.py:48-52 | the texts one file contributes, read back without overlaps, are the words of that file |
| BaselineRetriever.Retriever.constructor | baseline/retriever/retreiver.py:28-31 | no index and no documents |
| BaselineRetriever.Retriever.AddDocuments | baseline/retriever/retreiver.py:33-59 | succeeds exactly when the files yield a chunk; then documents are the new corpus, replacing the old one, and the index holds their texts by position; otherwise nothing changes |
| BaselineRetriever.Retriever.Query | baseline/retriever/retreiver.py:61-73 | before a build: an error; otherwise succeeds exactly when every returned position is a valid Python index; result j is the document at position j, in search order, and its chunk is the one the index holds at that position |
| Week3Retriever.StepCases | experiments/week_3/retriever.py:47-48 | a zero step is an error for every text; a negative step or an empty text gives no chunk |
| Week3Retriever.CharChunkAt | experiments/week_3/retriever.py:48-49 | chunk k is `text[k*step : k*step+chunk_size]` and starts inside the text |
| Week3Retriever.CharChunkShape | experiments/week_3/retriever.py:47-49 | with a positive step and size, every chunk has 1 to `chunk_size` characters and there are ceil(len / step) of them |
| Week3Retriever.CharChunksReconstruct | experiments/week_3/retriever.py:44-50 | for `0 <= overlap < size`, the chunks minus their overlaps concatenate to the text |
| Week3Retriever.Retriever.constructor | experiments/week_3/retriever.py:27-42 | keeps the configured sizes; no texts, empty index |
| Week3Retriever.Retriever.ChunkText | experiments/week_3/retriever.py:44-50 | `_chunk_text` returns the character windows, or the zero-step error |
| Week3Retriever.Retriever.AddDocuments | experiments/week_3/retriever.py:52-73 | fails exactly for a zero step with some path, changing nothing; otherwise appends every file's chunks in path order to the texts and, as one batch when there is any, to the index; texts and index stay equal (when encoding and `index.add` succeed) |
| Week3Retriever.Retriever.Query | experiments/week_3/retriever.py:75-89 | the result is as long as the shorter of positions and distances; it succeeds exactly when those positions are valid; result j is `(texts[idx_j], dist_j)`, and its text is the chunk the index holds at that position |
| RecallEvaluator.RetrievedIds | baseline/metrics/recall_evaluator.py:25-26 | the id list exists exactly when every result has a "source"; it keeps result order and holds one id per result |
| RecallEvaluator.HitsAtMostCases | baseline/metrics/recall_evaluator.py:20-33 | each case adds at most one hit |
| RecallEvaluator.RecallInUnitInterval | baseline/metrics/recall_evaluator.py:35-36 | Recall@k lies in [0, 1], and it is 0.0 for an empty benchmark |
| RecallEvaluator.HitsErrorPersists | baseline/metrics/recall_evaluator.py:23-26 | a case whose results lack a source fails the whole evaluation |
| RecallEvaluator.HitsMonotoneInK | baseline/metrics/recall_evaluator.py:23-33 | when a larger k only extends each case's result list, the hit count cannot drop |
| RecallEvaluator.ComputeRecallAtK | baseline/metrics/recall_evaluator.py:4-36 | returns Recall@k (hits / total, or 0.0) or the missing-source error, and asks the retriever each question once, in order, with k; on the error, the last question asked is the first case whose results lack a source, and every case before it was scored |
| RecallEvaluator.GoldIdOfChunk | baseline/metrics/recall_evaluator.py:25-26 | for a source `base + ext` with ext one of .pdf/.md/.txt and no extension string inside `base`, the id is `base_chunk<i>` |
| Text.RemoveMiddle | baseline/metrics/recall_evaluator.py:25 | on `a + t` where `t` starts with `pat` and no occurrence of `pat` starts inside `a`, `replace(pat, "")` keeps `a`, drops that `pat` and goes on removing in the rest of `t` |
| RecallEvaluator.StripMiddle | baseline/metrics/recall_evaluator.py:25 | one `replace(q, "")` on `a + e + b` with dot-free `a`, `b` removes the extension `e` exactly when `e == q`, and otherwise changes nothing |
| RecallEvaluator.StripIsGlobal | baseline/metrics/recall_evaluator.py:25 | for every dot-free `a` and `b` and extension `e` among .pdf/.md/.txt, the stripped source name `a + e + b` is `a + b`: the extension is removed even in the middle of the name |
| Generator.BuildPrompt | baseline/generator/generator.py:10-22 | the prompt opens with the two-sentence preamble and "Context:\n", ends with "\n\n", and has the question right before that, after "\n\nQuestion:\n" |
| Generator.ContextSectionOfPrompt | baseline/generator/generator.py:14-19 | the text between the two headers is exactly the newline-joined context |
| Generator.EmptyContextPrompt | baseline/generator/generator.py:14-19 | an empty context gives the preamble, "Context:\n\n\nQuestion:\n", the question and "\n\n" |
| Generator.SplitJoin | baseline/generator/generator.py:14 | splitting the joined context on newlines gives the chunks back in order when none holds a newline |
| Generator.JoinSplit | baseline/generator/generator.py:14 | joining the newline-split pieces restores any text |
| Generator.PromptContextRoundTrip | baseline/generator/generator.py:14-19 | reading the context section out of a prompt and splitting it recovers the chunks, whole and in order |
| AuditLogger.Init | baseline/logger/logger.py:11-26 | after construction the JSON file exists |
| AuditLogger.LogStep | baseline/logger/logger.py:28-64 | after a log the JSON file always holds a list |
| AuditLogger.RowFollowsHeader | baseline/logger/logger.py:55-64 | the header names the six columns and each row cell is the entry's field under that column name |
| AuditLogger.InitIdempotent | baseline/logger/logger.py:12-26 | an absent CSV gets just the header and an absent JSON the empty list; existing files are untouched, so opening twice changes nothing |
| AuditLogger.LogAppends | baseline/logger/logger.py:39-52 | on a JSON list, prior entries are kept and the new entry is last; the CSV gains one row at the end |
| AuditLogger.LogResets | baseline/logger/logger.py:42-48 | on a JSON value that is not a list, or UTF-8 text that is not JSON, the list becomes just the new entry; the CSV keeps its rows |
| AuditLogger.EntryVerbatim | baseline/logger/logger.py:29-36 | the entry holds the team id, the clock reading and the arguments unchanged |
| AuditLogger.LogKeepsSync | baseline/logger/logger.py:39-64 | with a JSON list and one CSV row per entry, a log keeps that correspondence |
| AuditLogger.ResetBreaksSync | baseline/logger/logger.py:42-64 | after a reset over a CSV with data rows, the CSV has more data rows than the JSON has entries |
| AuditLogger.LogAllFresh | baseline/logger/logger.py:12-64 | from absent files, logging a list of entries yields the header plus one row per entry and the JSON list of those entries, in order |
| AuditLogger.Logger.constructor | baseline/logger/logger.py:7-26 | the files become what `Init` gives for the files found |
| AuditLogger.Logger.Log | baseline/logger/logger.py:28-64 | fails exactly when the JSON file is not UTF-8, which `except json.JSONDecodeError` does not catch, and then neither file changes; otherwise builds the entry and both files become one `LogStep` further |

## Left out

- Sentence embedding, FAISS `IndexFlatIP`/`IndexFlatL2` search and L2 normalisation are floating-point work in foreign libraries. A query receives the positions (and distances) the search returned, with -1 padding included.
- File reading and PDF text extraction are I/O. A build receives a function from path to text, so the page joining ("\n" in the baseline, "" in week 3) happens inside it.
- `save` and `load` of both retrievers (pickle and FAISS files) are not modelled.
- `Generator.generate_answer` is a sampled transformer model and is not deterministic. The model and tokenizer loading in the constructors is left out too.
- The evaluator's `print` calls produce output only and are not modelled.
- JSON and CSV text formats are treated as opaque records. A JSON list is assumed to hold entries written by this logger.
- AuditLogger.Logger.Log: requires the JSON file to exist, as the constructor guarantees. A file deleted between calls (the `FileNotFoundError` of `open(..., "r+")`, or a CSV recreated without header) is not modelled.
- `os.makedirs` for the log directory is I/O and is not modelled.
- Week3Retriever.Retriever.AddDocuments: any failure after `texts` has been extended is not modelled: a read error halfway through a call, or a failure of `encode` or `index.add`. The case that matters is an encoder whose vector width differs from the constructor's `embedding_dim` (experiments/week_3/retriever.py:29-30 against :42). Then `index.add` raises at :73 after :69 has extended `texts`, and `texts` is left longer than the index. The reader is a total function and the encoder is assumed to match the index.
- BaselineRetriever.Retriever.AddDocuments: a build with no chunk is modelled as an error that leaves the state unchanged. In the source the encoder then returns an array without a second dimension, and `shape[1]` raises before either field is assigned.
- BaselineRetriever.ChunkText: requires `overlap < chunk_size` when the text has a word, because the source loop never ends otherwise.
- Paths.Lower: lowers only ASCII letters. Extensions are compared against ASCII names, so only ASCII case matters for which files are read.
- RecallEvaluator.ChunkNumber: `chunk_id` and `row_id` are taken to be integers; other value types are not modelled.
- RecallEvaluator.RecallInUnitInterval: states the bounds and the empty case but not the exact quotient, which `RecallAtK` defines as hits / total.
- RecallEvaluator.RecallAtK: the value is the exact rational `hits / total` as a Dafny `real`. The source returns the Python float nearest to that quotient, so the model does not capture rounding.
- RecallEvaluator.ComputeRecallAtK: the queries put to the retriever are recorded in a ghost result, `asked`. It states the order and number of calls; the source returns only the score.
- The timestamp is an input string. UTC clock behaviour and ordering of timestamps are not modelled.
- The Streamlit app, the pipeline orchestration, the latency benchmark, the tests and the scripts are outside this model. So are calls between files whose signatures do not match: the app passes filter arguments `query` does not take and calls `build_prompt` with four arguments, and the evaluator expects `(metadata, text)` pairs while the baseline retriever returns `(doc_id, text)`.
