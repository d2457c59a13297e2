/** The FAISS exact L2 index (faiss.IndexFlatL2) as the core uses it: built empty for a
    dimension, then filled once with index.add. Distances and the search itself stay
    abstract: a search is a function parameter of the retriever. */
module VectorStore {
  import opened Outcomes

  /** An embedding vector; its float32 values are opaque to the core. */
  type Embedding = seq<real>

  /** The embedding service (get_embedding): a vector, or None when the call raised. */
  type Embedder = string -> Option<Embedding>

  /** index.search on the index rows, a query vector and k: the positions of the hits,
      possibly padded with -1, or None when the search raised. */
  type Searcher = (seq<Embedding>, Embedding, int) -> Option<seq<int>>

  /** All vectors have the same length, the condition under which numpy builds the
      2-D float32 array that index.add receives. */
  predicate Rectangular(vectors: seq<Embedding>) {
    forall p :: 0 <= p < |vectors| ==> |vectors[p]| == |vectors[0]|
  }

  class VectorIndex {
    /** The vector dimension the index was created with. */
    const dim: nat
    /** The stored vectors, in insertion order (index.ntotal is their number): row p is
        position p of a search result. */
    var rows: seq<Embedding>

    /** faiss.IndexFlatL2(dim): an empty index. */
    constructor (dim: nat)
      ensures this.dim == dim && rows == []
    {
      this.dim := dim;
      rows := [];
    }

    /** index.add(vectors): append the rows, keeping their order. */
    method Add(vectors: seq<Embedding>)
      requires forall p :: 0 <= p < |vectors| ==> |vectors[p]| == dim
      modifies this
      ensures rows == old(rows) + vectors
    {
      rows := rows + vectors;
    }
  }
}
