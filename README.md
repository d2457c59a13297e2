# Retrieval-augmented Q&A backend: a Dafny model of its in-memory core

The system answers questions about one uploaded document. On upload it cleans the
document's text, cuts it into windows of 500 words, embeds each window with an embedding
service, and builds a FAISS exact L2 index over the vectors. On a question it embeds the
question, searches the index, maps the hit positions back to chunk texts and asks a chat
model, through Ollama, to answer from that context.

This project models the logic between those external calls:

- `text.dfy` (module `Text`): Python's `str.split()`, `str.strip()` and `sep.join(parts)`,
  over the exact whitespace set of `str.isspace()`.
- `chunker.dfy` (module `Chunker`): `chunk_text` and `process_records`.
- `load_data.dfy` (module `Loader`): the record-building loop of `load_dataset`.
- `vector_store.dfy` (module `VectorStore`): the index as a class whose rows `index.add`
  appends. The embedding service and the search are function types.
- `ingest.dfy` (module `Ingest`): `process_uploaded_file` from the blank-text check to the
  return.
- `retriever.dfy` (module `Retriever`): `retrieve_relevant_context`, with its on-disk
  fallback and every path that yields `[]`.
- `generator.dfy` (module `Generator`): how `generate_response` builds the request and
  sorts the reply.
- `pipeline.dfy` (module `Pipeline`): the `RAGPipeline` class, its alignment invariant
  `Valid()`, and two client scenarios.

External effects are parameters, so every outcome, failure included, is an input:

- `embed: string -> Option<Embedding>`: `None` means `get_embedding` raised.
- `search: (rows, query, k) -> Option<seq<int>>`: the positions may hold `-1` or any other
  integer, and `None` means the search raised.
- `post: ChatRequest -> ChatReply`: the chat call. `Raised` stands for any exception inside
  the `try` block: the HTTP call failing, and also a malformed reply body, such as a
  `message` that is not a dict or a `content` that is null or not a string, whose lookup
  or `.strip()` raises (`generator.py:39-43`).
- `read: string -> Result<string, string>`: reading the file.
- `clean: string -> string`: `clean_text`.
- `DiskFiles`: the state of the two fallback files.

Python exceptions become `Result`/`Option` values. `Initialize` returns the error it
re-raises.

Where the system's design description and its code disagree, the model follows the code:

- The design says that one failed chunk embedding should abort the whole ingestion. The
  code logs the failure and skips that chunk (`ingest_file.py:62-63`). The model skips it.
- The design says that ids are positional (`id = position + 1`). The code gives each entry
  the number `i + 1` of its original chunk (`ingest_file.py:61`), so there are gaps after
  a skipped chunk. `Ingest.KeptIds` and `Ingest.KeptAllSucceed` state both facts. The
  dataset and the index rows still stay aligned (`Ingest.KeptAligned`), because the code
  appends to both lists only together.
- The design says that a failed re-upload leaves the previous initialized state in place,
  so that queries keep working on the old data. The code keeps the old `index` and
  `dataset` but sets `initialized = False` (`pipeline.py:36`). Later queries therefore get
  the not-initialized error (`Pipeline.QueryAfterFailedReupload`).

## Model

| member | source | states |
|---|---|---|
| `Text.Split` | local_qna_chatbot/src/ingestion/chunker.py:2 | every word `text.split()` yields is non-empty and free of whitespace |
| `Text.Strip` | local_qna_chatbot/src/ingestion/ingest_file.py:43 | the stripped string has no whitespace at either end, and it is empty exactly when the text is all whitespace |
| `Text.SplitJoin` | local_qna_chatbot/src/ingestion/chunker.py:2-5 | joining well-formed words with single spaces and splitting again gives back the same words |
| `Text.StripEmptyIffNoWords` | local_qna_chatbot/src/ingestion/ingest_file.py:43-50 | `text.strip()` is empty exactly when `text.split()` is empty, so the blank check stands for "no words to chunk" |
| `Text.StripIdempotent` | local_qna_chatbot/src/rag/generator.py:43 | stripping a stripped string changes nothing |
| `Text.Join` | local_qna_chatbot/src/ingestion/chunker.py:5 | no parts give `""`, one part is returned unchanged, and more parts start with the first part followed by the separator |
| `Text.JoinLength` | local_qna_chatbot/src/ingestion/chunker.py:5 | the joined string is as long as the parts together plus one separator for each gap between two parts |
| `Text.JoinSingleSpaced` | local_qna_chatbot/src/ingestion/chunker.py:5 | joining a non-empty list of words gives a string with no leading, trailing or double spaces |
| `Text.JoinContainsParts` | local_qna_chatbot/src/rag/generator.py:18 | every part of a join appears verbatim somewhere in the joined string |
| `Chunker.ChunkText` | local_qna_chatbot/src/ingestion/chunker.py:1-7 | fails exactly when `size == 0` (the range step), gives `[]` for a negative size, and otherwise gives the space-joined windows of the word list |
| `Chunker.ChunkSizes` | local_qna_chatbot/src/ingestion/chunker.py:4-5 | every chunk but the last has exactly `size` words, and the last has between 1 and `size` |
| `Chunker.ChunkCount` | local_qna_chatbot/src/ingestion/chunker.py:2-4 | there are `ceil(len(text.split()) / size)` chunks, and none for a blank text |
| `Chunker.ChunksReconstructWords` | local_qna_chatbot/src/ingestion/chunker.py:2-6 | splitting every chunk and concatenating the results gives `text.split()` exactly, with nothing lost, repeated or reordered |
| `Chunker.ChunksSingleSpaced` | local_qna_chatbot/src/ingestion/chunker.py:5 | each chunk is non-empty, single-spaced, and equal to its own words joined by single spaces |
| `Chunker.TwelveHundredWords` | local_qna_chatbot/src/ingestion/chunker.py:1-7 | a 1200-word text gives 3 chunks at the default size of 500 |
| `Chunker.WindowsFlatten` | local_qna_chatbot/src/ingestion/chunker.py:4-6 | the windows, read in order, are exactly the word list |
| `Chunker.WindowCount` | local_qna_chatbot/src/ingestion/chunker.py:4 | the number of windows is `ceil(n / size)` for `n` words |
| `Chunker.ProcessRecords` | local_qna_chatbot/src/ingestion/chunker.py:9-17 | the output is the chunks of every record, in record order, at size 500, and entry `p` has id `p + 1` |
| `Chunker.ProcessedIdsConsecutive` | local_qna_chatbot/src/ingestion/chunker.py:11-16 | ids numbered by position rise strictly and run from 1 to N |
| `Loader.LoadDataset` | local_qna_chatbot/src/ingestion/load_data.py:10-20 | one record per item, in the same order, each with the item's id (or None) and its question/answer text |
| `Loader.RecordWords` | local_qna_chatbot/src/ingestion/load_data.py:14-18 | the words of a record are the question's words followed by the answer's words, whichever are present |
| `VectorStore.VectorIndex.constructor` | local_qna_chatbot/src/ingestion/ingest_file.py:70-71 | a new index has the given dimension and no rows |
| `VectorStore.VectorIndex.Add` | local_qna_chatbot/src/ingestion/ingest_file.py:72 | adding appends the vectors after the existing rows, in order |
| `Ingest.EmbedChunks` | local_qna_chatbot/src/ingestion/ingest_file.py:53-63 | the loop builds exactly the kept entries and the kept embeddings of the chunks, with failed chunks skipped |
| `Ingest.ProcessUploadedFile` | local_qna_chatbot/src/ingestion/ingest_file.py:43-74 | fails with the ingestion outcome's error, or returns a fresh index whose rows are the kept embeddings, together with the kept dataset, each row matching one dataset entry |
| `Ingest.KeptAligned` | local_qna_chatbot/src/ingestion/ingest_file.py:57-61 | `len(dataset) == len(embeddings)`, and row `p` is the embedding of dataset entry `p`'s text |
| `Ingest.KeptIds` | local_qna_chatbot/src/ingestion/ingest_file.py:57-63 | each entry's id is `i + 1` for the chunk `i` it holds, and the ids rise strictly, so the texts are an order-preserving subsequence of the chunks |
| `Ingest.KeptComplete` | local_qna_chatbot/src/ingestion/ingest_file.py:57-61 | every chunk whose embedding succeeds is in the dataset |
| `Ingest.KeptAllSucceed` | local_qna_chatbot/src/ingestion/ingest_file.py:61 | when no embedding fails, entry `p` is chunk `p` with id `p + 1` |
| `Ingest.KeptNone` | local_qna_chatbot/src/ingestion/ingest_file.py:65-66 | no embedding is kept exactly when every chunk's embedding fails, which is the case that raises "No embeddings were generated" |
| `Ingest.IngestAligned` | local_qna_chatbot/src/ingestion/ingest_file.py:65-74 | a successful ingestion has at least one entry and as many index rows as entries, each row being its entry's embedding, all of the index dimension |
| `Ingest.IngestText` | local_qna_chatbot/src/ingestion/ingest_file.py:43-71 | fails with "File is empty" exactly when the text is all whitespace; fails with "No embeddings were generated" exactly when it is not and every chunk's embedding fails; no other error than these two and the inhomogeneous shape |
| `Retriever.RetrieveRelevantContext` | local_qna_chatbot/src/rag/retriever.py:15-66 | the result is the texts of the in-range search positions over the given or fallback index and dataset, or `[]` on every missing-file or exception path |
| `Retriever.InRangeTextsFromDataset` | local_qna_chatbot/src/rag/retriever.py:58-60 | every result is `dataset[idx].text` for a returned position `idx` with `0 <= idx < len(dataset)` |
| `Retriever.InRangeTextsLength` | local_qna_chatbot/src/rag/retriever.py:57-61 | there are no more results than positions, and when every position is in range the result maps the positions one to one, in order |
| `Retriever.InRangeTextsAppend` | local_qna_chatbot/src/rag/retriever.py:57-62 | the filter follows the position order and keeps duplicates: the result for `a + b` is the result for `a` followed by the result for `b` |
| `Retriever.OutOfRangeDropped` | local_qna_chatbot/src/rag/retriever.py:59 | an out-of-range position, such as `-1` padding, adds nothing |
| `Retriever.NoSourceNoContext` | local_qna_chatbot/src/rag/retriever.py:33-48 | with no index (or no dataset) given and its fallback file not loaded, the result is `[]` |
| `Retriever.FailureNoContext` | local_qna_chatbot/src/rag/retriever.py:50-66 | when the query embedding or the search raises, the result is `[]` |
| `Retriever.RetrievedFromDataset` | local_qna_chatbot/src/rag/retriever.py:55-62 | with an index and dataset given, every result is the text of some dataset entry, and there are at most as many results as search positions |
| `Generator.GenerateResponse` | local_qna_chatbot/src/rag/generator.py:7-50 | never raises, and always returns a non-empty string |
| `Generator.RequestShape` | local_qna_chatbot/src/rag/generator.py:23-37 | the request is one non-streaming call to the chat endpoint with model phi3 and the given temperature, with exactly two messages: the system instruction, then the user turn |
| `Generator.UserContent` | local_qna_chatbot/src/rag/generator.py:17-21 | the question always ends the user turn; with None or empty context the turn is exactly the prompt; with non-empty context it starts with "Context:\n" and ends with "\n\nQuestion: " and the prompt |
| `Generator.PassagesInUserContent` | local_qna_chatbot/src/rag/generator.py:17-19 | with non-empty context the turn starts with "Context:\n" and contains every passage verbatim after that header |
| `Generator.Interpret` | local_qna_chatbot/src/rag/generator.py:39-50 | the answer is never empty; non-blank content gives an answer without whitespace at either end; any other reply gives the unexpected-format message or a string starting with the error prefix |
| `Generator.ContentReply` | local_qna_chatbot/src/rag/generator.py:42-44 | non-blank `message.content` gives its stripped form, which has no whitespace at its ends; blank content gives the empty-output message |
| `Generator.OtherReplies` | local_qna_chatbot/src/rag/generator.py:45-50 | a reply without `message.content` gives the unexpected-format message; an exception gives the error prefix followed by the exception text |
| `Pipeline.EffectiveTemperature` | local_qna_chatbot/src/rag/pipeline.py:62 | the query's temperature is the argument if not None, otherwise the pipeline's own |
| `Pipeline.RagPipeline.Valid` | local_qna_chatbot/src/rag/pipeline.py:15-19 | the alignment invariant holds that the index and dataset are set together with one row per entry; an initialized pipeline has both, of equal length |
| `Pipeline.RagPipeline.constructor` | local_qna_chatbot/src/rag/pipeline.py:7-19 | a new pipeline is uninitialized, holds no index and no dataset, keeps the given `k_context` (default 2) and temperature (default 0.7), and satisfies the alignment invariant |
| `Pipeline.RagPipeline.Initialize` | local_qna_chatbot/src/rag/pipeline.py:21-44 | keeps the alignment invariant; a falsy path changes nothing; success replaces index and dataset with the ingestion result and sets initialized; failure returns the error, leaves index and dataset as they were and clears initialized |
| `Pipeline.RagPipeline.ProcessQuery` | local_qna_chatbot/src/rag/pipeline.py:46-84 | uninitialized: exactly the not-initialized error; initialized: `{response, context, query}` with `query` the input, `context` the retrieval over the stored index and dataset with `k_context`, and `response` the non-empty generated answer at the effective temperature; each context string is a stored chunk's text; no field changes |
| `Pipeline.QueryBeforeUpload` | local_qna_chatbot/src/rag/pipeline.py:57-58 | a query on a new pipeline gets the not-initialized error |
| `Pipeline.QueryAfterFailedReupload` | local_qna_chatbot/src/rag/pipeline.py:28-58 | after a successful upload and then a failed one, a query gets the not-initialized error, although the old dataset is still held |

## Left out

- Reading the uploaded file (`open` and pypdf, `ingest_file.py:22-41`) becomes the `read` parameter. The read error's message is whatever that parameter supplies.
- `clean_text` is not part of this model. It is the uninterpreted parameter `clean`.
- `get_embedding`, the Ollama chat call and the FAISS search are network or native code. They are function parameters. Their results, failures included, are inputs to the model.
- Floating point: embedding values, L2 distances, the float32 conversion and reshaping are not modelled. The temperature is a `real` that is only passed along.
- `np.array` of embeddings with different lengths raises in numpy. The model has this as `InhomogeneousShape`, but its message gives only the start of numpy's text, which varies between numpy versions.
- `Pipeline.RagPipeline.ProcessQuery`: the `except` branch that returns "Error processing query: ..." (`pipeline.py:86-87`) is not modelled. Retrieval and generation both catch every exception themselves, so with the callees modelled as total, that branch cannot be reached.
- `Pipeline.RagPipeline.ProcessQuery`: the external calls are pure function parameters, so the model cannot observe whether they are made. That the not-initialized path calls neither retrieval nor generation is true only by the method's structure, and no contract states it.
- `Retriever.RetrieveRelevantContext`: dataset entries are always `{id, text}` records. The `KeyError` of an on-disk entry without `"text"`, which would also yield `[]`, is not modelled. A bound of "at most k results" would depend on FAISS returning k positions, and the model does not assume that. The model proves only "at most as many results as positions".
- `Loader.LoadDataset`: items are taken as well-typed, with string question and answer and an integer id or none. The `TypeError` of other JSON values, and `load_json`'s file and JSON I/O, are not modelled.
- `print` logging, the persistence helpers of the index (`write_index`, `read_index`), the offline scripts, the Streamlit UI, the FastAPI server and its process-wide pipeline, and any concurrent upload/query race are not part of this model. The pipeline is a single sequential object.
