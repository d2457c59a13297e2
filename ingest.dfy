/** process_uploaded_file of local_qna_chatbot/src/ingestion/ingest_file.py, from the
    blank-text check to the return: clean, chunk, embed chunk by chunk (skipping a chunk
    whose embedding fails), and build the index from the embeddings that succeeded. */
module Ingest {
  import opened Outcomes
  import Text
  import Chunker
  import opened VectorStore

  /** The ValueErrors that process_uploaded_file raises. */
  datatype IngestError =
    | FileUnreadable(message: string) // the file could not be read; the read branch's message
    | FileEmpty                      // text.strip() is empty
    | NoEmbeddings                   // every chunk's embedding failed (or there were no chunks)
    | InhomogeneousShape             // numpy refused embeddings of different lengths

  /** The message of each error, where the source fixes it. */
  function Message(e: IngestError): string {
    match e
    case FileUnreadable(message) => message
    case FileEmpty => "File is empty"
    case NoEmbeddings => "No embeddings were generated"
    case InhomogeneousShape => "setting an array element with a sequence"
  }

  /** The dataset the embedding loop builds from the chunks: chunk i (0-based) gives the
      entry {"id": i + 1, "text": chunk} when its embedding succeeds, and nothing otherwise. */
  function KeptChunks(chunks: seq<string>, embed: Embedder): seq<Chunker.Chunk>
    decreases |chunks|
  {
    if chunks == [] then []
    else
      var n := |chunks|;
      KeptChunks(chunks[..n - 1], embed)
      + (if embed(chunks[n - 1]).Some? then [Chunker.Chunk(n, chunks[n - 1])] else [])
  }

  /** The embeddings list the loop builds: the vector of each chunk whose embedding succeeds. */
  function KeptEmbeddings(chunks: seq<string>, embed: Embedder): seq<Embedding>
    decreases |chunks|
  {
    if chunks == [] then []
    else
      var n := |chunks|;
      var e := embed(chunks[n - 1]);
      KeptEmbeddings(chunks[..n - 1], embed) + (if e.Some? then [e.value] else [])
  }

  /** The loop of lines 57-63: for i, chunk in enumerate(chunks), append the embedding and
      the entry together, or skip the chunk when get_embedding raises. */
  method EmbedChunks(chunks: seq<string>, embed: Embedder)
    returns (dataset: seq<Chunker.Chunk>, embeddings: seq<Embedding>)
    ensures dataset == KeptChunks(chunks, embed)
    ensures embeddings == KeptEmbeddings(chunks, embed)
  {
    dataset, embeddings := [], [];
    for i := 0 to |chunks|
      invariant dataset == KeptChunks(chunks[..i], embed)
      invariant embeddings == KeptEmbeddings(chunks[..i], embed)
    {
      assert chunks[..i + 1][..i] == chunks[..i];
      var emb := embed(chunks[i]);
      if emb.Some? {
        embeddings := embeddings + [emb.value];
        dataset := dataset + [Chunker.Chunk(i + 1, chunks[i])];
      }
    }
    assert chunks[..|chunks|] == chunks;
  }

  /** What a successful ingestion hands back, before the index object is built:
      the dataset, the index rows, and the index dimension (embeddings_np.shape[1]). */
  datatype Ingestion = Ingestion(dataset: seq<Chunker.Chunk>, embeddings: seq<Embedding>, dim: nat)

  /** The outcome of ingesting a document whose text has been read. */
  function IngestText(text: string, clean: string -> string, embed: Embedder): (r: Result<Ingestion, IngestError>)
    ensures r == Failure(FileEmpty) <==> Text.AllSpace(text)
    ensures r == Failure(NoEmbeddings) <==>
      && !Text.AllSpace(text)
      && var chunks := Chunker.Chunks(clean(text), Chunker.DefaultSize);
         forall i :: 0 <= i < |chunks| ==> embed(chunks[i]).None?
    ensures r.Failure? ==> r.error in {FileEmpty, NoEmbeddings, InhomogeneousShape}
  {
    KeptNone(Chunker.Chunks(clean(text), Chunker.DefaultSize), embed);
    if Text.Strip(text) == [] then Failure(FileEmpty)
    else
      var chunks := Chunker.Chunks(clean(text), Chunker.DefaultSize);
      var embeddings := KeptEmbeddings(chunks, embed);
      if embeddings == [] then Failure(NoEmbeddings)
      else if !Rectangular(embeddings) then Failure(InhomogeneousShape)
      else Success(Ingestion(KeptChunks(chunks, embed), embeddings, |embeddings[0]|))
  }

  /** Reading a document: its text, or the message of the ValueError raised when it cannot
      be read. */
  type Reader = string -> Result<string, string>

  /** The outcome of process_uploaded_file(path). */
  function IngestFile(path: string, read: Reader, clean: string -> string, embed: Embedder)
    : Result<Ingestion, IngestError>
  {
    match read(path)
    case Failure(message) => Failure(FileUnreadable(message))
    case Success(text) => IngestText(text, clean, embed)
  }

  /** process_uploaded_file(path): returns (index, dataset) or raises. */
  method ProcessUploadedFile(path: string, read: Reader, clean: string -> string, embed: Embedder)
    returns (r: Result<(VectorIndex, seq<Chunker.Chunk>), IngestError>)
    ensures IngestFile(path, read, clean, embed).Failure? ==> r == Failure(IngestFile(path, read, clean, embed).error)
    ensures IngestFile(path, read, clean, embed).Success? ==>
      var ing := IngestFile(path, read, clean, embed).value;
      && r.Success? && fresh(r.value.0)
      && r.value.0.dim == ing.dim && r.value.0.rows == ing.embeddings && r.value.1 == ing.dataset
    ensures r.Success? ==> |r.value.0.rows| == |r.value.1| > 0
  {
    var contents := read(path);
    if contents.Failure? {
      return Failure(FileUnreadable(contents.error));
    }
    var text := contents.value;
    if Text.Strip(text) == [] {
      return Failure(FileEmpty);
    }
    var cleaned := clean(text);
    var chunked := Chunker.ChunkText(cleaned);
    var chunks := chunked.value;
    var dataset, embeddings := EmbedChunks(chunks, embed);
    KeptAligned(chunks, embed);
    if embeddings == [] {
      return Failure(NoEmbeddings);
    }
    if !Rectangular(embeddings) {
      return Failure(InhomogeneousShape);
    }
    var index := new VectorIndex(|embeddings[0]|);
    index.Add(embeddings);
    return Success((index, dataset));
  }

  // ---------------------------------------------------------------------------
  // What the embedding loop guarantees
  // ---------------------------------------------------------------------------

  /** The alignment invariant: dataset and embeddings have the same length, and index row p
      is the embedding of dataset entry p's text. */
  lemma {:induction false} KeptAligned(chunks: seq<string>, embed: Embedder)
    ensures |KeptChunks(chunks, embed)| == |KeptEmbeddings(chunks, embed)|
    ensures forall p :: 0 <= p < |KeptChunks(chunks, embed)| ==>
      embed(KeptChunks(chunks, embed)[p].text) == Some(KeptEmbeddings(chunks, embed)[p])
    decreases |chunks|
  {
    if chunks != [] {
      KeptAligned(chunks[..|chunks| - 1], embed);
    }
  }

  /** Each entry keeps the number of its original chunk: its id is i + 1 for the chunk
      position i it came from, and the ids rise strictly, so the dataset texts are the
      chunks in their original order with the failed ones left out. */
  lemma {:induction false} KeptIds(chunks: seq<string>, embed: Embedder)
    ensures forall p :: 0 <= p < |KeptChunks(chunks, embed)| ==>
      var c := KeptChunks(chunks, embed)[p];
      1 <= c.id <= |chunks| && c.text == chunks[c.id - 1]
    ensures forall p, q :: 0 <= p < q < |KeptChunks(chunks, embed)| ==>
      KeptChunks(chunks, embed)[p].id < KeptChunks(chunks, embed)[q].id
    decreases |chunks|
  {
    if chunks != [] {
      var front := chunks[..|chunks| - 1];
      KeptIds(front, embed);
      assert forall i :: 0 <= i < |front| ==> front[i] == chunks[i];
    }
  }

  /** No successful chunk is lost: every chunk whose embedding succeeds is in the dataset. */
  lemma {:induction false} KeptComplete(chunks: seq<string>, embed: Embedder, i: nat)
    requires i < |chunks| && embed(chunks[i]).Some?
    ensures Chunker.Chunk(i + 1, chunks[i]) in KeptChunks(chunks, embed)
    decreases |chunks|
  {
    if i < |chunks| - 1 {
      var front := chunks[..|chunks| - 1];
      KeptComplete(front, embed, i);
    }
  }

  /** When no embedding fails, nothing is skipped: entry p is chunk p with id p + 1. */
  lemma {:induction false} KeptAllSucceed(chunks: seq<string>, embed: Embedder)
    requires forall i :: 0 <= i < |chunks| ==> embed(chunks[i]).Some?
    ensures |KeptChunks(chunks, embed)| == |chunks|
    ensures forall p :: 0 <= p < |chunks| ==> KeptChunks(chunks, embed)[p] == Chunker.Chunk(p + 1, chunks[p])
    decreases |chunks|
  {
    if chunks != [] {
      var front := chunks[..|chunks| - 1];
      KeptAllSucceed(front, embed);
    }
  }

  /** No embedding is kept exactly when every chunk's embedding fails. */
  lemma {:induction false} KeptNone(chunks: seq<string>, embed: Embedder)
    ensures KeptEmbeddings(chunks, embed) == [] <==> forall i :: 0 <= i < |chunks| ==> embed(chunks[i]).None?
    decreases |chunks|
  {
    if chunks != [] {
      var front := chunks[..|chunks| - 1];
      KeptNone(front, embed);
      assert forall i :: 0 <= i < |front| ==> front[i] == chunks[i];
    }
  }

  /** A successful ingestion is aligned: the index holds one row per dataset entry, row p
      being the embedding of entry p, all rows of the index dimension, and at least one. */
  lemma IngestAligned(text: string, clean: string -> string, embed: Embedder)
    requires IngestText(text, clean, embed).Success?
    ensures var ing := IngestText(text, clean, embed).value;
      && 0 < |ing.dataset| == |ing.embeddings|
      && (forall p :: 0 <= p < |ing.dataset| ==> embed(ing.dataset[p].text) == Some(ing.embeddings[p]))
      && (forall p :: 0 <= p < |ing.embeddings| ==> |ing.embeddings[p]| == ing.dim)
  {
    KeptAligned(Chunker.Chunks(clean(text), Chunker.DefaultSize), embed);
  }
}
