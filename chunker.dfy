/** chunk_text and process_records of local_qna_chatbot/src/ingestion/chunker.py. */
module Chunker {
  import opened Outcomes
  import Text
  import Loader

  /** The default window size of chunk_text, used by every caller in the core. */
  const DefaultSize: int := 500

  /** One entry of a chunk dataset: {"id": id, "text": text}. */
  datatype Chunk = Chunk(id: int, text: string)

  function Min(a: int, b: int): int {
    if a <= b then a else b
  }

  /** The consecutive windows of at most size words each, front to back. */
  function Windows(words: seq<string>, size: nat): seq<seq<string>>
    requires size >= 1
    decreases |words|
  {
    if words == [] then []
    else
      var n := Min(size, |words|);
      [words[..n]] + Windows(words[n..], size)
  }

  /** Each window rejoined with single spaces. */
  function JoinWindows(windows: seq<seq<string>>): (chunks: seq<string>)
    ensures |chunks| == |windows|
    ensures forall i :: 0 <= i < |windows| ==> chunks[i] == Text.Join(" ", windows[i])
  {
    seq(|windows|, i requires 0 <= i < |windows| => Text.Join(" ", windows[i]))
  }

  /** What chunk_text(text, size) returns when size is positive. */
  function Chunks(text: string, size: nat): seq<string>
    requires size >= 1
  {
    JoinWindows(Windows(Text.Split(text), size))
  }

  /** The concatenation of a list of lists. */
  function Flatten<T>(xss: seq<seq<T>>): seq<T>
    decreases |xss|
  {
    if xss == [] then [] else xss[0] + Flatten(xss[1..])
  }

  /** The words of each chunk, after split(). */
  function SplitEach(chunks: seq<string>): (wss: seq<seq<string>>)
    ensures |wss| == |chunks|
    ensures forall i :: 0 <= i < |chunks| ==> wss[i] == Text.Split(chunks[i])
  {
    seq(|chunks|, i requires 0 <= i < |chunks| => Text.Split(chunks[i]))
  }

  /** chunk_text(text, size). A step of zero makes Python's range() raise; a negative step
      gives an empty range and so no chunks. */
  method ChunkText(text: string, size: int := DefaultSize) returns (r: Result<seq<string>, string>)
    ensures size == 0 <==> r.Failure?
    ensures size < 0 ==> r == Success([])
    ensures size > 0 ==> r == Success(Chunks(text, size))
  {
    var words := Text.Split(text);
    if size == 0 {
      return Failure("range() arg 3 must not be zero");
    }
    if size < 0 {
      return Success([]);
    }
    var chunks: seq<string> := [];
    var i := 0;
    while i < |words|
      invariant 0 <= i
      invariant chunks + JoinWindows(Windows(words[Min(i, |words|)..], size))
             == JoinWindows(Windows(words, size))
      decreases |words| - i
    {
      var end := Min(i + size, |words|);
      var chunk := Text.Join(" ", words[i..end]);
      ChunkStep(words, size, i, chunks);
      chunks := chunks + [chunk];
      i := i + size;
    }
    EmptyWindows(words[Min(i, |words|)..], size);
    assert chunks + [] == chunks;
    return Success(chunks);
  }

  /** One turn of chunk_text's loop: the window that starts at word i, then the rest. */
  lemma WindowStep(words: seq<string>, size: nat, i: nat)
    requires size >= 1 && i < |words|
    ensures var end := Min(i + size, |words|);
      JoinWindows(Windows(words[i..], size))
      == [Text.Join(" ", words[i..end])] + JoinWindows(Windows(words[end..], size))
  {
    var end := Min(i + size, |words|);
    assert words[i..][..end - i] == words[i..end];
    assert words[i..][end - i..] == words[end..];
    assert Windows(words[i..], size) == [words[i..end]] + Windows(words[end..], size);
  }

  /** chunk_text's loop invariant survives one turn. */
  lemma ChunkStep(words: seq<string>, size: nat, i: nat, chunks: seq<string>)
    requires size >= 1 && i < |words|
    requires chunks + JoinWindows(Windows(words[i..], size)) == JoinWindows(Windows(words, size))
    ensures var end := Min(i + size, |words|);
      (chunks + [Text.Join(" ", words[i..end])]) + JoinWindows(Windows(words[end..], size))
      == JoinWindows(Windows(words, size))
  {
    WindowStep(words, size, i);
  }

  lemma EmptyWindows(words: seq<string>, size: nat)
    requires size >= 1 && words == []
    ensures JoinWindows(Windows(words, size)) == []
  {
  }

  // ---------------------------------------------------------------------------
  // What chunk_text promises
  // ---------------------------------------------------------------------------

  /** Every window but the last holds exactly size words; the last holds 1 to size. */
  lemma {:induction false} WindowSizes(words: seq<string>, size: nat)
    requires size >= 1
    ensures forall i :: 0 <= i < |Windows(words, size)| ==> 1 <= |Windows(words, size)[i]| <= size
    ensures forall i :: 0 <= i < |Windows(words, size)| - 1 ==> |Windows(words, size)[i]| == size
    decreases |words|
  {
    if words != [] {
      var n := Min(size, |words|);
      WindowSizes(words[n..], size);
      var ws := Windows(words, size);
      assert ws == [words[..n]] + Windows(words[n..], size);
      assert n < size ==> words[n..] == [];
    }
  }

  /** There are ceil(len(words) / size) windows, so none for no words. */
  lemma {:induction false} WindowCount(words: seq<string>, size: nat)
    requires size >= 1
    ensures |Windows(words, size)| == (|words| + size - 1) / size
    decreases |words|
  {
    if words == [] {
      assert (size - 1) / size == 0;
    } else if |words| <= size {
      assert size <= |words| + size - 1 < 2 * size;
      DivIsOne(|words| + size - 1, size);
    } else {
      WindowCount(words[size..], size);
      DivStep(|words| - size + size - 1, size);
    }
  }

  lemma DivIsOne(x: int, d: int)
    requires d >= 1 && d <= x < 2 * d
    ensures x / d == 1
  {
  }

  lemma {:induction false} MulAtLeast(k: int, d: int)
    requires k >= 1 && d >= 1
    ensures k * d >= d
    decreases k
  {
    if k > 1 {
      MulAtLeast(k - 1, d);
      assert k * d == (k - 1) * d + d;
    }
  }
  lemma MulMono(a: int, b: int, d: int)
    requires d >= 1 && a < b
    ensures a * d + d <= b * d
  {
    MulAtLeast(b - a, d);
    assert b * d == a * d + (b - a) * d;
  }
  lemma DivUnique(n: int, d: int, q: int, r: int)
    requires d >= 1 && n == q * d + r && 0 <= r < d
    ensures n / d == q
  {
    var q', r' := n / d, n % d;
    assert n == q' * d + r' && 0 <= r' < d;
    if q' < q {
      MulMono(q', q, d);
    } else if q < q' {
      MulMono(q, q', d);
    }
  }
  lemma DivStep(x: int, d: int)
    requires d >= 1 && x >= 0
    ensures (x + d) / d == x / d + 1
  {
    var q, r := x / d, x % d;
    assert x + d == (q + 1) * d + r;
    DivUnique(x + d, d, q + 1, r);
  }

  /** The windows, read in order, are the words: nothing dropped, repeated or reordered. */
  lemma {:induction false} WindowsFlatten(words: seq<string>, size: nat)
    requires size >= 1
    ensures Flatten(Windows(words, size)) == words
    decreases |words|
  {
    if words != [] {
      var n := Min(size, |words|);
      WindowsFlatten(words[n..], size);
      var ws := Windows(words, size);
      assert ws[0] == words[..n] && ws[1..] == Windows(words[n..], size);
      assert words == words[..n] + words[n..];
    }
  }

  /** The windows of a text's split() hold only words. */
  lemma WindowsAreWords(words: seq<string>, size: nat, i: nat)
    requires size >= 1 && Text.AllWords(words)
    requires i < |Windows(words, size)|
    ensures Text.AllWords(Windows(words, size)[i])
    decreases |words|
  {
    var n := Min(size, |words|);
    if i > 0 {
      WindowsAreWords(words[n..], size, i - 1);
    }
  }

  /** Splitting every chunk and concatenating the results gives back text.split() exactly. */
  lemma ChunksReconstructWords(text: string, size: nat)
    requires size >= 1
    ensures Flatten(SplitEach(Chunks(text, size))) == Text.Split(text)
  {
    var words := Text.Split(text);
    var ws := Windows(words, size);
    forall i | 0 <= i < |ws| ensures Text.Split(Text.Join(" ", ws[i])) == ws[i] {
      WindowsAreWords(words, size, i);
      Text.SplitJoin(ws[i]);
    }
    assert SplitEach(Chunks(text, size)) == ws;
    WindowsFlatten(words, size);
  }

  /** Every chunk is single-spaced: non-empty, no whitespace at its ends, no double spaces,
      and it is its own words joined by single spaces. */
  lemma ChunksSingleSpaced(text: string, size: nat, i: nat)
    requires size >= 1 && i < |Chunks(text, size)|
    ensures Text.SingleSpaced(Chunks(text, size)[i])
    ensures Text.Join(" ", Text.Split(Chunks(text, size)[i])) == Chunks(text, size)[i]
  {
    var words := Text.Split(text);
    var ws := Windows(words, size);
    WindowsAreWords(words, size, i);
    WindowSizes(words, size);
    Text.JoinSingleSpaced(ws[i]);
    Text.SplitJoin(ws[i]);
  }

  /** The number of chunks is ceil(len(text.split()) / size); a blank text has none. */
  lemma ChunkCount(text: string, size: nat)
    requires size >= 1
    ensures |Chunks(text, size)| == (|Text.Split(text)| + size - 1) / size
    ensures Text.AllSpace(text) ==> Chunks(text, size) == []
  {
    WindowCount(Text.Split(text), size);
    Text.StripEmptyIffNoWords(text);
  }

  /** A 1200-word text gives three chunks of the default size: 500, 500 and 200 words. */
  lemma TwelveHundredWords(text: string)
    requires |Text.Split(text)| == 1200
    ensures |Chunks(text, DefaultSize)| == 3
  {
    ChunkCount(text, DefaultSize);
  }

  /** Every chunk but the last has exactly size words; the last has between 1 and size. */
  lemma ChunkSizes(text: string, size: nat, i: nat)
    requires size >= 1 && i < |Chunks(text, size)|
    ensures 1 <= |Text.Split(Chunks(text, size)[i])| <= size
    ensures i < |Chunks(text, size)| - 1 ==> |Text.Split(Chunks(text, size)[i])| == size
  {
    var words := Text.Split(text);
    WindowSizes(words, size);
    WindowsAreWords(words, size, i);
    Text.SplitJoin(Windows(words, size)[i]);
  }

  // ---------------------------------------------------------------------------
  // process_records
  // ---------------------------------------------------------------------------

  /** The chunk texts of all records, record by record, with the default window size. */
  function RecordChunks(records: seq<Loader.Record>): seq<string>
    decreases |records|
  {
    if records == [] then []
    else RecordChunks(records[..|records| - 1]) + Chunks(records[|records| - 1].text, DefaultSize)
  }

  /** process_records(records): every chunk of every record, with ids 1, 2, ... in order. */
  method ProcessRecords(records: seq<Loader.Record>) returns (dataset: seq<Chunk>)
    ensures |dataset| == |RecordChunks(records)|
    ensures forall p :: 0 <= p < |dataset| ==> dataset[p] == Chunk(p + 1, RecordChunks(records)[p])
  {
    dataset := [];
    var chunkId := 1;
    for j := 0 to |records|
      invariant chunkId == |dataset| + 1
      invariant |dataset| == |RecordChunks(records[..j])|
      invariant forall p :: 0 <= p < |dataset| ==> dataset[p] == Chunk(p + 1, RecordChunks(records[..j])[p])
    {
      var r := ChunkText(records[j].text);
      var chunks := r.value;
      assert records[..j + 1][..j] == records[..j];
      ghost var done := RecordChunks(records[..j]);
      assert RecordChunks(records[..j + 1]) == done + chunks;
      for c := 0 to |chunks|
        invariant chunkId == |dataset| + 1
        invariant |dataset| == |done| + c
        invariant forall p :: 0 <= p < |dataset| ==> dataset[p] == Chunk(p + 1, (done + chunks)[p])
      {
        dataset := dataset + [Chunk(chunkId, chunks[c])];
        chunkId := chunkId + 1;
      }
    }
    assert records[..|records|] == records;
  }

  /** The ids that process_records hands out are 1, 2, ..., N: distinct and increasing. */
  lemma ProcessedIdsConsecutive(dataset: seq<Chunk>, texts: seq<string>)
    requires |dataset| == |texts|
    requires forall p :: 0 <= p < |dataset| ==> dataset[p] == Chunk(p + 1, texts[p])
    ensures forall p, q :: 0 <= p < q < |dataset| ==> dataset[p].id < dataset[q].id
    ensures |dataset| > 0 ==> dataset[0].id == 1 && dataset[|dataset| - 1].id == |dataset|
  {
  }
}
