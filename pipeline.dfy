/** RAGPipeline of local_qna_chatbot/src/rag/pipeline.py: the object that holds the current
    index and chunk dataset, replaces them on a successful upload, and answers queries. */
module Pipeline {
  import opened Outcomes
  import Chunker
  import opened VectorStore
  import Ingest
  import Retriever
  import Generator

  const NotInitializedMessage := "RAG pipeline not initialized. Please upload a document first."

  /** The dict process_query returns: {response, context, query} or {error}. */
  datatype QueryResult = Answer(response: string, context: seq<string>, query: string) | QueryError(error: string)

  /** Python truthiness of the Optional[str] document path: neither None nor "". */
  predicate Truthy(path: Option<string>) {
    path.Some? && path.value != ""
  }

  /** The temperature of one query: the argument when it is not None, else the pipeline's. */
  function EffectiveTemperature(argument: Option<real>, own: real): (t: real)
    ensures argument.Some? ==> t == argument.value
    ensures argument.None? ==> t == own
  {
    argument.GetOr(own)
  }

  class RagPipeline {
    var kContext: int
    var temperature: real
    var initialized: bool
    var index: VectorIndex?
    var dataset: Option<seq<Chunker.Chunk>>

    /** The alignment invariant: the index and the dataset are present together, with one
        index row per dataset entry, and an initialized pipeline has both. */
    ghost predicate Valid()
      reads this, index
      ensures Valid() && initialized ==> index != null && dataset.Some? && |dataset.value| == |index.rows|
    {
      && (index == null <==> dataset.None?)
      && (index != null ==> |index.rows| == |dataset.value|)
      && (initialized ==> index != null)
    }

    /** RAGPipeline(k_context=2, temperature=0.7): no document yet. */
    constructor (kContext: int := 2, temperature: real := 0.7)
      ensures Valid()
      ensures this.kContext == kContext && this.temperature == temperature
      ensures !initialized && index == null && dataset.None?
    {
      this.kContext := kContext;
      this.temperature := temperature;
      initialized := false;
      index := null;
      dataset := None;
    }

    /** initialize(documents_path). The returned error is the exception that the source
        re-raises; on a failure the old index and dataset stay, but the pipeline is marked
        uninitialized. */
    method Initialize(documentsPath: Option<string>, read: Ingest.Reader, clean: string -> string, embed: Embedder)
      returns (err: Option<Ingest.IngestError>)
      requires Valid()
      modifies this
      ensures Valid()
      ensures kContext == old(kContext) && temperature == old(temperature)
      ensures !Truthy(documentsPath) ==>
        err.None? && initialized == old(initialized) && index == old(index) && dataset == old(dataset)
      ensures Truthy(documentsPath) ==>
        var outcome := Ingest.IngestFile(documentsPath.value, read, clean, embed);
        match outcome
        case Success(ing) =>
          && err.None? && initialized && fresh(index)
          && index.rows == ing.embeddings && index.dim == ing.dim && dataset == Some(ing.dataset)
        case Failure(e) =>
          err == Some(e) && !initialized && index == old(index) && dataset == old(dataset)
    {
      if documentsPath.None? || documentsPath.value == "" {
        return None;
      }
      var r := Ingest.ProcessUploadedFile(documentsPath.value, read, clean, embed);
      if r.Failure? {
        initialized := false;
        return Some(r.error);
      }
      index, dataset := r.value.0, Some(r.value.1);
      initialized := true;
      return None;
    }

    /** process_query(query, temperature). */
    method ProcessQuery(query: string, temperature: Option<real>, disk: Retriever.DiskFiles,
                        embed: Embedder, search: Searcher, post: Generator.ChatRequest -> Generator.ChatReply)
      returns (r: QueryResult)
      requires Valid()
      ensures !initialized ==> r == QueryError(NotInitializedMessage)
      ensures initialized ==>
        var context := Retriever.Retrieved(query, kContext, Some(index.rows), dataset, disk, embed, search);
        r == Answer(Generator.GenerateResponse(query, Some(context), EffectiveTemperature(temperature, this.temperature), post),
                    context, query)
      ensures initialized ==> r.Answer? && r.query == query && r.response != []
      ensures initialized ==> forall s :: s in r.context ==>
        exists p :: 0 <= p < |dataset.value| && s == dataset.value[p].text
    {
      if !initialized {
        return QueryError(NotInitializedMessage);
      }
      var temp := EffectiveTemperature(temperature, this.temperature);
      var context := Retriever.RetrieveRelevantContext(query, k := kContext, index := index, dataset := dataset,
                                                          disk := disk, embed := embed, search := search);
      Retriever.RetrievedFromDataset(query, kContext, index.rows, dataset.value, disk, embed, search);
      var response := Generator.GenerateResponse(query, context := Some(context), temperature := temp, post := post);
      return Answer(response, context, query);
    }
  }

  /** A query before any upload gets the not-initialized error. */
  method QueryBeforeUpload(query: string, disk: Retriever.DiskFiles, embed: Embedder, search: Searcher,
                           post: Generator.ChatRequest -> Generator.ChatReply)
    returns (r: QueryResult)
    ensures r == QueryError(NotInitializedMessage)
  {
    var p := new RagPipeline();
    r := p.ProcessQuery(query, None, disk, embed, search, post);
  }

  /** A successful upload followed by a failed one: the failed upload keeps the old index and
      dataset but marks the pipeline uninitialized, so the next query is refused. */
  method QueryAfterFailedReupload(first: string, second: string, read: Ingest.Reader, clean: string -> string,
                                  embed: Embedder, query: string, disk: Retriever.DiskFiles, search: Searcher,
                                  post: Generator.ChatRequest -> Generator.ChatReply)
    returns (r: QueryResult)
    requires first != "" && second != ""
    requires Ingest.IngestFile(first, read, clean, embed).Success?
    requires Ingest.IngestFile(second, read, clean, embed).Failure?
    ensures r == QueryError(NotInitializedMessage)
  {
    var p := new RagPipeline();
    var e1 := p.Initialize(Some(first), read, clean, embed);
    var kept := p.dataset;
    var e2 := p.Initialize(Some(second), read, clean, embed);
    assert p.dataset == kept && kept.Some?;
    r := p.ProcessQuery(query, None, disk, embed, search, post);
  }
}
