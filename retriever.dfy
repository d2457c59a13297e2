/** retrieve_relevant_context of local_qna_chatbot/src/rag/retriever.py: embed the query,
    search the index, keep the positions that fall inside the dataset and map them to
    chunk texts, in the order the search returned them. Every exception yields []. */
module Retriever {
  import opened Outcomes
  import Chunker
  import opened VectorStore

  /** The k of retrieve_relevant_context when the caller gives none. */
  const DefaultK: int := 3

  /** The state of one of the on-disk fallback files. */
  datatype FileState<T> = Missing | Unreadable | Loaded(content: T)

  /** The on-disk fallback: data/embeddings/index.faiss and data/processed/processed_data.json. */
  datatype DiskFiles = DiskFiles(indexFile: FileState<seq<Embedding>>, dataFile: FileState<seq<Chunker.Chunk>>)

  predicate InRange(idx: int, data: seq<Chunker.Chunk>) {
    0 <= idx < |data|
  }

  /** The texts of the in-range positions, in the order of the positions: the result of the
      filtering loop of lines 57-61. */
  function InRangeTexts(indices: seq<int>, data: seq<Chunker.Chunk>): seq<string>
    decreases |indices|
  {
    if indices == [] then []
    else
      var idx := indices[|indices| - 1];
      InRangeTexts(indices[..|indices| - 1], data) + (if InRange(idx, data) then [data[idx].text] else [])
  }

  /** The index rows and the dataset in use: the ones given, else the loaded fallback files;
      None when either is missing or cannot be loaded. */
  function Source(rows: Option<seq<Embedding>>, dataset: Option<seq<Chunker.Chunk>>, disk: DiskFiles)
    : Option<(seq<Embedding>, seq<Chunker.Chunk>)>
  {
    var r := if rows.Some? then rows else if disk.indexFile.Loaded? then Some(disk.indexFile.content) else None;
    var d := if dataset.Some? then dataset else if disk.dataFile.Loaded? then Some(disk.dataFile.content) else None;
    if r.Some? && d.Some? then Some((r.value, d.value)) else None
  }

  /** The result of retrieve_relevant_context, where rows are the given index's rows. */
  function Retrieved(query: string, k: int, rows: Option<seq<Embedding>>, dataset: Option<seq<Chunker.Chunk>>,
                     disk: DiskFiles, embed: Embedder, search: Searcher): seq<string>
  {
    match Source(rows, dataset, disk)
    case None => []
    case Some((r, d)) =>
      match embed(query)
      case None => []
      case Some(q) =>
        match search(r, q, k)
        case None => []
        case Some(indices) => InRangeTexts(indices, d)
  }

  /** retrieve_relevant_context(query, k, index, dataset). */
  method RetrieveRelevantContext(query: string, k: int := DefaultK, index: VectorIndex?, dataset: Option<seq<Chunker.Chunk>>,
                                 disk: DiskFiles, embed: Embedder, search: Searcher)
    returns (results: seq<string>)
    ensures results == Retrieved(query, k, if index == null then None else Some(index.rows), dataset, disk, embed, search)
  {
    var rows: seq<Embedding>;
    if index == null {
      if disk.indexFile.Missing? {
        return [];
      }
      if disk.indexFile.Unreadable? {
        return [];   // load_faiss_index raised
      }
      rows := disk.indexFile.content;
    } else {
      rows := index.rows;
    }
    var processedData: seq<Chunker.Chunk>;
    if dataset.None? {
      if disk.dataFile.Missing? {
        return [];
      }
      if disk.dataFile.Unreadable? {
        return [];   // open or json.load raised
      }
      processedData := disk.dataFile.content;
    } else {
      processedData := dataset.value;
    }
    var queryEmbedding := embed(query);
    if queryEmbedding.None? {
      return [];     // get_embedding raised
    }
    var found := search(rows, queryEmbedding.value, k);
    if found.None? {
      return [];     // search raised
    }
    var indices := found.value;
    results := [];
    for j := 0 to |indices|
      invariant results == InRangeTexts(indices[..j], processedData)
    {
      assert indices[..j + 1][..j] == indices[..j];
      var idx := indices[j];
      if 0 <= idx < |processedData| {
        results := results + [processedData[idx].text];
      }
    }
    assert indices[..|indices|] == indices;
  }

  // ---------------------------------------------------------------------------
  // What the filtering loop guarantees
  // ---------------------------------------------------------------------------

  /** Every result is the text of a dataset entry at an in-range position. */
  lemma {:induction false} InRangeTextsFromDataset(indices: seq<int>, data: seq<Chunker.Chunk>)
    ensures forall s :: s in InRangeTexts(indices, data) ==>
      exists idx :: 0 <= idx < |data| && idx in indices && s == data[idx].text
    decreases |indices|
  {
    if indices != [] {
      var front := indices[..|indices| - 1];
      InRangeTextsFromDataset(front, data);
      assert forall idx :: idx in front ==> idx in indices;
    }
  }

  /** There are at most as many results as positions, and exactly as many when all
      positions are in range. */
  lemma {:induction false} InRangeTextsLength(indices: seq<int>, data: seq<Chunker.Chunk>)
    ensures |InRangeTexts(indices, data)| <= |indices|
    ensures (forall j :: 0 <= j < |indices| ==> InRange(indices[j], data)) ==>
      InRangeTexts(indices, data) == seq(|indices|, j requires 0 <= j < |indices| => data[indices[j]].text)
    decreases |indices|
  {
    if indices != [] {
      var front := indices[..|indices| - 1];
      InRangeTextsLength(front, data);
    }
  }

  /** The filter keeps order and duplicates: the results of a list of positions are the
      results of its first part followed by the results of the rest. */
  lemma {:induction false} InRangeTextsAppend(a: seq<int>, b: seq<int>, data: seq<Chunker.Chunk>)
    ensures InRangeTexts(a + b, data) == InRangeTexts(a, data) + InRangeTexts(b, data)
    decreases |b|
  {
    if b == [] {
      assert a + b == a;
    } else {
      var front := b[..|b| - 1];
      InRangeTextsAppend(a, front, data);
      assert (a + b)[..|a + b| - 1] == a + front;
    }
  }

  /** An out-of-range position, such as FAISS's -1 padding, contributes nothing. */
  lemma OutOfRangeDropped(indices: seq<int>, idx: int, data: seq<Chunker.Chunk>)
    requires !InRange(idx, data)
    ensures InRangeTexts(indices + [idx], data) == InRangeTexts(indices, data)
  {
    assert (indices + [idx])[..|indices|] == indices;
  }

  /** Without an index or dataset, and with the fallback file missing, the result is []. */
  lemma NoSourceNoContext(query: string, k: int, rows: Option<seq<Embedding>>, dataset: Option<seq<Chunker.Chunk>>,
                          disk: DiskFiles, embed: Embedder, search: Searcher)
    requires (rows.None? && !disk.indexFile.Loaded?) || (dataset.None? && !disk.dataFile.Loaded?)
    ensures Retrieved(query, k, rows, dataset, disk, embed, search) == []
  {
  }

  /** When the query embedding or the search raises, the result is []. */
  lemma FailureNoContext(query: string, k: int, rows: Option<seq<Embedding>>, dataset: Option<seq<Chunker.Chunk>>,
                         disk: DiskFiles, embed: Embedder, search: Searcher)
    requires Source(rows, dataset, disk).Some?
    requires embed(query).None? || search(Source(rows, dataset, disk).value.0, embed(query).value, k).None?
    ensures Retrieved(query, k, rows, dataset, disk, embed, search) == []
  {
  }

  /** With a given index and dataset, every retrieved string is the text of one of the
      dataset's entries, and there are no more of them than positions the search returned. */
  lemma RetrievedFromDataset(query: string, k: int, rows: seq<Embedding>, dataset: seq<Chunker.Chunk>,
                             disk: DiskFiles, embed: Embedder, search: Searcher)
    ensures var r := Retrieved(query, k, Some(rows), Some(dataset), disk, embed, search);
      && (forall s :: s in r ==> exists idx :: 0 <= idx < |dataset| && s == dataset[idx].text)
      && (embed(query).Some? && search(rows, embed(query).value, k).Some? ==>
            |r| <= |search(rows, embed(query).value, k).value|)
  {
    match embed(query)
    case None =>
    case Some(q) =>
      match search(rows, q, k)
      case None =>
      case Some(indices) =>
        InRangeTextsFromDataset(indices, dataset);
        InRangeTextsLength(indices, dataset);
  }
}
