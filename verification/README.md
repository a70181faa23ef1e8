# Recipe assistant: ingestion batching and the chat handler, in Dafny

This project models the two pieces of logic the program itself implements in a small
retrieval-augmented recipe assistant:

- **Ingestion** (`src/vector.py`). `load_parquet_files` reads four fixed
  partition files in order and concatenates them into one table whose rows
  are numbered 0..n-1. `create_vector_store` walks the rows in order and
  builds one document per row, whose id and metadata id are both `str(idx)`.
  A row whose construction raises is skipped. Documents are buffered and
  flushed to the vector store once the buffer holds 100. A flush that raises
  inside the loop is swallowed by the per-row `try`, so the buffer is kept and
  resent with the next row. The final flush of the remainder is outside the
  `try`, so its failure propagates out of `main`.
- **The `/chat` handler** (`src/webserver.py`). It validates the JSON body
  and the query, picks raw or enhanced mode, searches for exactly one result,
  and answers from it. It truncates the content preview to 500 characters.
  Any exception becomes a generic 500 reply.

Everything outside these is a collaborator and appears as a parameter:

- Reading a parquet file is `read: string -> Fallible<seq<Row>>`, keyed by file name.
- Each `add_documents` call is a flush attempt. `ok: nat -> bool` says whether
  the k-th attempt of the run returns. The run is deterministic, so every
  behaviour of the store is some such `ok`.
- Query rewriting, search, summarising and suggesting are the four functions
  of `Chat.Oracles`. The reply records the calls made, so the model can state
  which collaborators are *not* called.

Ingestion is sequential: rows are handled one after another, a flush is
triggered once 100 documents are buffered (101, 102, ... while a raised flush's
batch is kept), and a run always starts from the first row; there is no resume.

Files: `exceptions.dfy` (a value for "returned or raised"), `decimal.dfy`
(`str` of a non-negative int and its inverse), `table.dfy` (the loader),
`documents.dfy` (row to document), `ingest.dfy` (the batching loop and
`main`), `pystr.dfy` (`str.strip`), `chat.dfy` (the handler).

## Model

| member | source | states |
|---|---|---|
| Decimal.NatToString | src/vector.py:65-69 | `str(idx)` is a canonical decimal: at least one digit, only digits, no leading zero except for 0 itself |
| Decimal.ParseOfString | src/vector.py:65-69 | reading back `str(n)` gives `n` |
| Decimal.StringOfParse | src/vector.py:65-69 | every canonical digit string is `str` of the number it denotes |
| Decimal.NatToStringInjective | src/vector.py:65-69 | two row indices get the same id string exactly when they are equal |
| Table.ReadAll | src/vector.py:26-35 | reading the files succeeds exactly when every file can be read, and then yields their rows file after file; any failing file aborts with no partial result |
| Table.Renumber | src/vector.py:37 | `concat(..., ignore_index=True)` keeps the row order and labels row i with index i |
| Table.LoadParquetFiles | src/vector.py:15-39 | `load_parquet_files` succeeds exactly when all four files can be read; its table is then numbered 0..n-1 and carries the files' rows in order |
| Table.LoadSpec | src/vector.py:19-37 | the load succeeds iff all four files are readable; the table is then the four files' rows in the fixed list order, numbered 0..n-1, of total length the sum of the four |
| Documents.Build | src/vector.py:61-67 | building a row raises exactly when its "input" is absent or not a string; otherwise the document's content is that string and its id and metadata id are `str(idx)` |
| Documents.Built | src/vector.py:60-69 | the loop builds at most one document per row, each with metadata exactly `{"id": id}` |
| Documents.GoodPositions | src/vector.py:60-62 | one position per built document, each a row of the table, strictly increasing |
| Documents.BuiltFromGoodRows | src/vector.py:60-69 | the j-th document produced is the document of the j-th row whose construction does not raise |
| Documents.GoodPositionsExact | src/vector.py:61-62 | a row contributes a document exactly when its construction does not raise (a missing or non-string "input" makes it raise) |
| Documents.BuiltDocumentsFromRows | src/vector.py:63-67 | every document has `id == metadata["id"] == str(idx)` of its own row |
| Documents.BuiltIdsDistinct | src/vector.py:63-69 | rows with distinct indices yield documents with pairwise distinct ids |
| Documents.NumberedDistinct | src/vector.py:37 | a table numbered 0..n-1 has distinct row indices |
| Ingest.ProcessRow | src/vector.py:60-79 | a skipped row changes nothing; a row makes at most one flush attempt, of at least 100 documents, answered by the oracle's next answer; without a flush the buffer gains the row's document and stays below 100; a returned flush empties the buffer |
| Ingest.RowLoopConsistent | src/vector.py:60-79 | `RowLoop` is the row loop as a fold of `ProcessRow` over the rows; after any number of rows, the documents accepted plus the buffer are exactly the documents built from those rows, with the flush pattern, lockstep ids and oracle answers of the loop |
| Ingest.ShapeExtend | src/vector.py:72-75 | a flush of a full batch after a returned flush, or of the kept buffer plus one document after a raised flush, keeps the loop's flush pattern |
| Ingest.AppendConsistent | src/vector.py:68-69 | appending a document below the batch size keeps the buffer equal to the documents the store has not accepted, with ids in lockstep |
| Ingest.FlushConsistent | src/vector.py:72-79 | a flush that returns empties the buffer and the store gains it; a flush that raises leaves the buffer as it was and the store unchanged |
| Ingest.ProcessRowConsistent | src/vector.py:60-79 | one loop iteration keeps the store's accepted documents plus the buffer equal to the documents built so far |
| Ingest.AllOkFullBatches | src/vector.py:72-75 | when no flush raises, every in-loop flush carries exactly 100 documents |
| Ingest.FlushedFullBatches | src/vector.py:72-75 | k returned flushes of 100 documents deliver exactly 100·k documents |
| Ingest.FinalFlush | src/vector.py:82-83 | the final flush keeps the in-loop flushes, happens exactly when the buffer is non-empty, sends the buffer's documents and ids, and raises exactly when the oracle's next answer says so |
| Ingest.FinalFlushDelivers | src/vector.py:82-83 | after the loop, the final flush keeps ids in lockstep and completes the delivery: unless it raises, the documents accepted in the run are exactly the built ones, in order; if it raises, the accepted ones plus its batch are |
| Ingest.FinalFlushShape | src/vector.py:82-83 | the final flush carries at least one document; after a returned in-loop flush it carries fewer than 100; after a raised one it resends that flush's batch |
| Ingest.FinalFlushCounts | src/vector.py:72-83 | with no in-loop flush failing, m documents take m div 100 full in-loop flushes and a final flush exactly when m mod 100 is not 0 |
| Ingest.FinalFlushDistinct | src/vector.py:63-69 | if the built documents have distinct ids, so do the documents accepted in the run |
| Ingest.CreateVectorStore | src/vector.py:57-83 | ids in lockstep with documents in every call. Unless the final flush raises, the run delivers to the store exactly the built documents, in row order, each once; otherwise the accepted documents plus the final batch are exactly them. In-loop flushes carry 100, or after a raised flush the same batch plus one. The final flush happens iff documents remain, carries 1..99 after a returned flush, and resends the kept batch after a raised one. With no in-loop failure there are m div 100 in-loop flushes and a final one iff m mod 100 ≠ 0. Distinct row indices give distinct accepted ids |
| Ingest.Vectorize | src/vector.py:88-113 | the script fails at loading iff some partition file cannot be read. Once loaded, every flush attempt gets the oracle's answer in turn, ids are in lockstep, and the in-loop and final flushes follow the loop's pattern and the final-flush rules. A raised final flush ends the script with an exception, its batch being what the store has not accepted of the built documents. A completed run delivers to the store one document per good row, in table order, with id `str(position)`, no id twice |
| PyStr.Strip | src/webserver.py:41 | the stripped string is a contiguous piece of the original, starting right after its leading whitespace |
| PyStr.Leading | src/webserver.py:41 | the number of leading whitespace characters: all of them whitespace, the next one not |
| PyStr.Trailing | src/webserver.py:41 | the number of trailing whitespace characters: all of them whitespace, the one before not |
| PyStr.StripSpec | src/webserver.py:41 | `strip()` returns the middle of the string between an all-whitespace start and an all-whitespace end |
| PyStr.StripEnds | src/webserver.py:41 | a non-empty stripped string neither starts nor ends with whitespace |
| PyStr.StripEmpty | src/webserver.py:41-45 | the stripped query is empty exactly when the query is all whitespace |
| Chat.Preview | src/webserver.py:77-79 | the preview is the content when it has at most 500 characters; otherwise it is its first 500 characters followed by "...", 503 in all; never more than 503 |
| Chat.RawResponseShows | src/webserver.py:64-72 | the raw-mode text `RawResponse` shows the user's query and the whole content, however long |
| Chat.EnhancedResponseShows | src/webserver.py:75-89 | the enhanced text `EnhancedResponse` shows the summary and the content only as its preview, so its length exceeds the summary, score and metadata by a bound that does not depend on the content |
| Chat.HandleChat | src/webserver.py:36-101 | status is 200, 400 or 500, with an answer body exactly on 200 and the generic error exactly on 500. "Invalid JSON data." exactly for a falsy body (`null`, `false`, `0`, `""`, `[]`, `{}`). "Please enter a valid query." exactly for a non-empty object whose query is absent or all whitespace. No collaborator is called on a 400. Raw mode never calls the rewriter. Every search asks for one result. Raw mode answers with no suggestions. A 500 happens exactly when the body cannot be parsed, is a truthy non-object, is a non-empty object with a non-string query, or the last call made raised; no earlier call raised. What each path after the search calls and answers is stated in `Chat.ResultPaths` |
| Chat.Respond | src/webserver.py:47-101 | after validation: a 500 exactly when the last call made raised, and no earlier call raised. Raw mode makes exactly one call, the search on the user's query, and answers 200 whenever it returns. Enhanced mode rewrites first and searches on the rewritten query; with a result it summarises and then suggests on the first result's content and the user's query, and an exception from either gives 500 |
| Chat.ResultPaths | src/webserver.py:62-101 | for a valid request whose search returns a result: raw mode answers 200 after the search alone; enhanced mode calls the summariser third, on the first result's content, gives 500 if it raises, and otherwise calls rewrite, search, summarise and suggest in that order with a 500 exactly when the suggester raises |
| Chat.SearchQueryChoice | src/webserver.py:48-54 | in raw mode the search runs first on the stripped user query; otherwise the rewriter is called first and the search runs on its result |
| Chat.EmptyResults | src/webserver.py:56-60 | a search with no results gives 200 with "No matching results found." and no suggestions |
| Chat.FirstResultOnly | src/webserver.py:54-62 | two searches that agree on their first result give the same reply |
| Chat.EnhancedAnswer | src/webserver.py:75-97 | a complete enhanced answer calls rewrite, search, summarise and suggest in that order, on the first result's content and the user's query, and returns the suggester's list |

## Left out

- Parquet reading, `pd.concat` internals, Chroma, the Ollama embeddings and
  the `Document` constructor are foreign libraries. They appear only as the
  `read` and `ok` parameters and as plain records.
- A cell of a row is only a string or not a string (`Table.Cell`). A row
  whose "input" is absent or not a string is the row whose construction raises.
- A flush that raises is taken to have stored nothing. Chroma may store part of
  a batch before raising; that is not modelled.
- Creating the store and the embedding client (`src/vector.py:46-53`),
  `os.makedirs`, and `as_retriever` in `main` can raise. They are not modelled:
  the model starts with the store in place.
- The dataset directory and `os.path.join` are folded into `read`, which is
  keyed by file name.
- Logging and the `tqdm` progress bar have no effect on the result.
- `request.get_json()` is an input (`Fallible<Json>`). Which bodies make it
  raise and which make it return `None` depends on the Flask version. JSON
  `null` stands for `None`.
- JSON numbers are integers; floating-point values, and so their truthiness,
  are not modelled.
- The similarity score (`:.4f`) and the metadata dict reach the reply only as
  text. `SearchResult` holds them already rendered. A result missing a key, or
  a score that cannot be formatted, is not modelled.
- The rewriter is taken to return a string and the suggester a list of strings.
- The search is taken to return a list. The source's `if not results` would
  treat a `None` from it like an empty list; that case is not modelled.
- The collection at `database/chroma_db` persists between runs, so the store
  may already hold documents from earlier runs. The model speaks only of the
  documents one run delivers, and the store's earlier contents are not modelled.
- Chat.HandleChat: the Markdown text of `response` is built as in the source but
  its contract says nothing about it. `Chat.RawResponseShows` and
  `Chat.EnhancedResponseShows` state what each text shows, apart from the
  call that uses it.
- `PyStr.IsSpace` is the set of characters Python's `str.isspace` accepts, listed
  by code point.
- Flask routing, app initialisation, `/`, `/health`, the 404 and 500 handlers,
  `src/search.py`, `src/main.py` and `src/legacy/main.py` are plumbing or
  thin wrappers over foreign libraries.
