/** The additive retriever of experiments/week_3/retriever.py: character windows of a
    configured size and overlap, a list of chunk texts kept position by position in step
    with a flat L2 index, and queries that map the positions the index returns back to
    texts. Embedding and search are not modelled: the index is represented by the chunk
    each of its vectors was computed from, and a query receives the search's output. */
module Week3Retriever {
  import opened Wrappers
  import PySeq
  import Windowing

  /** `range(0, len(text), 0)` raises ValueError. */
  datatype ChunkError = ZeroStep
  datatype QueryError = IndexError

  /** What `_chunk_text` returns for a chunk size and overlap: `text[start:start+chunkSize]`
      for every `start` in `range(0, len(text), chunkSize - chunkOverlap)`. */
  function CharChunks(text: string, chunkSize: int, chunkOverlap: int): Result<seq<string>, ChunkError>
  {
    var step := chunkSize - chunkOverlap;
    if step == 0 then Err(ZeroStep)
    else if step < 0 then Ok([])
    else Ok(Windowing.Windows(text, chunkSize, step))
  }

  /** A zero step is an error for every text, the empty one included; a negative step
      (overlap larger than the size) silently gives no chunk; empty text gives no chunk. */
  lemma StepCases(text: string, chunkSize: int, chunkOverlap: int)
    ensures CharChunks(text, chunkSize, chunkOverlap).Err? <==> chunkSize == chunkOverlap
    ensures chunkOverlap > chunkSize ==> CharChunks(text, chunkSize, chunkOverlap) == Ok([])
    ensures text == [] && chunkSize != chunkOverlap ==> CharChunks(text, chunkSize, chunkOverlap) == Ok([])
  {
  }

  /** Chunk k is `text[k*step : k*step + chunkSize]`, and its start lies inside the text. */
  lemma CharChunkAt(text: string, chunkSize: int, chunkOverlap: int, k: nat)
    requires chunkOverlap < chunkSize
    requires k < |CharChunks(text, chunkSize, chunkOverlap).value|
    ensures 0 <= k * (chunkSize - chunkOverlap) < |text|
    ensures var lo := k * (chunkSize - chunkOverlap);
      CharChunks(text, chunkSize, chunkOverlap).value[k] == PySeq.Slice(text, lo, lo + chunkSize)
    ensures var lo := k * (chunkSize - chunkOverlap);
      chunkSize >= 0 ==> CharChunks(text, chunkSize, chunkOverlap).value[k] == text[lo..PySeq.Min(lo + chunkSize, |text|)]
  {
    assert CharChunks(text, chunkSize, chunkOverlap).value == Windowing.Windows(text, chunkSize, chunkSize - chunkOverlap);
    Windowing.WindowAt(text, chunkSize, chunkSize - chunkOverlap, k);
  }

  /** With a positive step every chunk is non-empty and at most `chunkSize` characters long,
      and there are ceil(len(text) / step) of them. */
  lemma CharChunkShape(text: string, chunkSize: int, chunkOverlap: int)
    requires 0 < chunkSize && chunkOverlap < chunkSize
    ensures var chunks, step := CharChunks(text, chunkSize, chunkOverlap).value, chunkSize - chunkOverlap;
      (forall k :: 0 <= k < |chunks| ==> 1 <= |chunks[k]| <= chunkSize) &&
      (|chunks| == 0 <==> |text| == 0) && (|chunks| - 1) * step < |text| <= |chunks| * step
  {
    var step := chunkSize - chunkOverlap;
    Windowing.WindowCount(text, chunkSize, step);
    forall k | 0 <= k < |Windowing.Windows(text, chunkSize, step)|
      ensures 1 <= |Windowing.Windows(text, chunkSize, step)[k]| <= chunkSize
    {
      Windowing.WindowBounds(text, chunkSize, step, k);
    }
  }

  /** With 0 <= overlap < chunkSize, chunk 0 followed by every later chunk without its first
      `overlap` characters is exactly the text. */
  lemma CharChunksReconstruct(text: string, chunkSize: int, chunkOverlap: int)
    requires 0 <= chunkOverlap < chunkSize
    ensures Windowing.Reassemble(CharChunks(text, chunkSize, chunkOverlap).value, chunkOverlap) == text
  {
    Windowing.Reconstruct(text, chunkSize, chunkOverlap);
  }

  /** The chunks of every file, in path order; `read` gives each file's text. */
  function AllChunks(paths: seq<string>, read: string -> string, chunkSize: int, chunkOverlap: int): seq<string>
    requires chunkSize != chunkOverlap
  {
    if paths == [] then []
    else
      var last := paths[|paths| - 1];
      AllChunks(paths[..|paths| - 1], read, chunkSize, chunkOverlap) + CharChunks(read(last), chunkSize, chunkOverlap).value
  }

  /** The concatenation of a list of batches. */
  function Flatten(batches: seq<seq<string>>): seq<string>
  {
    if batches == [] then [] else Flatten(batches[..|batches| - 1]) + batches[|batches| - 1]
  }

  class Retriever {
    const chunkSize: int
    const chunkOverlap: int
    /** `self.texts`: texts[i] is the chunk for vector position i. */
    var texts: seq<string>
    /** The flat L2 index, vector by vector: the chunk each vector was embedded from. */
    var vectors: seq<string>
    /** Every batch handed to `index.add`, in call order. */
    ghost var batches: seq<seq<string>>

    /** The texts and the index agree position by position, and the index holds exactly
        the batches added to it, none of them empty. */
    ghost predicate Valid()
      reads this
    {
      texts == vectors && vectors == Flatten(batches) &&
      forall b :: 0 <= b < |batches| ==> batches[b] != []
    }

    constructor (chunkSize: int, chunkOverlap: int)
      ensures Valid() && texts == [] && vectors == []
      ensures this.chunkSize == chunkSize && this.chunkOverlap == chunkOverlap
    {
      this.chunkSize := chunkSize;
      this.chunkOverlap := chunkOverlap;
      texts := [];
      vectors := [];
      batches := [];
    }

    /** `_chunk_text`. */
    method ChunkText(text: string) returns (r: Result<seq<string>, ChunkError>)
      ensures r == CharChunks(text, chunkSize, chunkOverlap)
    {
      var step := chunkSize - chunkOverlap;
      if step == 0 {
        return Err(ZeroStep);
      }
      var chunks: seq<string> := [];
      if step > 0 {
        var start := 0;
        while start < |text|
          invariant 0 <= start
          invariant chunks + Windowing.WindowsFrom(text, chunkSize, step, start)
                 == Windowing.Windows(text, chunkSize, step)
          decreases |text| - start
        {
          assert Windowing.WindowsFrom(text, chunkSize, step, start)
              == [PySeq.Slice(text, start, start + chunkSize)] + Windowing.WindowsFrom(text, chunkSize, step, start + step);
          chunks := chunks + [PySeq.Slice(text, start, start + chunkSize)];
          start := start + step;
        }
        assert chunks + [] == chunks;
      }
      r := Ok(chunks);
    }

    /** `add_documents`: appends the chunks of every file to `texts` in path order and adds
        them to the index as one batch, when there is at least one. Nothing is replaced.
        With a zero step the first file's chunking raises before anything is appended. */
    method AddDocuments(paths: seq<string>, read: string -> string) returns (r: Result<(), ChunkError>)
      requires Valid()
      modifies this
      ensures Valid()
      ensures r.Err? <==> paths != [] && chunkSize == chunkOverlap
      ensures r.Err? ==> texts == old(texts) && vectors == old(vectors) && batches == old(batches)
      ensures r.Ok? && chunkSize != chunkOverlap ==>
        var added := AllChunks(paths, read, chunkSize, chunkOverlap);
        texts == old(texts) + added && vectors == old(vectors) + added &&
        batches == old(batches) + (if added == [] then [] else [added])
      ensures r.Ok? && chunkSize == chunkOverlap ==>
        texts == old(texts) && vectors == old(vectors) && batches == old(batches)
    {
      var newChunks: seq<string> := [];
      var i := 0;
      while i < |paths|
        invariant 0 <= i <= |paths|
        invariant i > 0 ==> chunkSize != chunkOverlap
        invariant chunkSize != chunkOverlap ==> newChunks == AllChunks(paths[..i], read, chunkSize, chunkOverlap)
        invariant chunkSize == chunkOverlap ==> newChunks == []
        invariant texts == old(texts) + newChunks
        invariant vectors == old(vectors) && batches == old(batches)
      {
        var raw := read(paths[i]);
        var chunks := ChunkText(raw);
        if chunks.Err? {
          return Err(chunks.error);
        }
        assert paths[..i + 1][..i] == paths[..i];
        var j := 0;
        while j < |chunks.value|
          invariant 0 <= j <= |chunks.value|
          invariant newChunks == AllChunks(paths[..i], read, chunkSize, chunkOverlap) + chunks.value[..j]
          invariant texts == old(texts) + newChunks
          invariant vectors == old(vectors) && batches == old(batches)
        {
          assert chunks.value[..j + 1] == chunks.value[..j] + [chunks.value[j]];
          newChunks := newChunks + [chunks.value[j]];
          texts := texts + [chunks.value[j]];
          j := j + 1;
        }
        assert chunks.value[..j] == chunks.value;
        i := i + 1;
      }
      assert paths[..i] == paths;
      if newChunks != [] {
        vectors := vectors + newChunks;
        batches := batches + [newChunks];
        assert Flatten(batches) == Flatten(old(batches)) + newChunks;
      }
      r := Ok(());
    }

    /** `query`: pairs each position the search returned with its distance, in the order
        returned, as `(texts[idx], dist)`; `zip` stops at the shorter of the two lists.
        Python indexing applies, so -1 selects the last text. Because the texts and the index
        agree by position, each text returned is the chunk its vector was embedded from. */
    method Query(hits: seq<int>, distances: seq<real>) returns (r: Result<seq<(string, real)>, QueryError>)
      requires Valid()
      ensures var n := PySeq.Min(|hits|, |distances|);
        r.Ok? <==> forall j :: 0 <= j < n ==> PySeq.Position(|texts|, hits[j]).Some?
      ensures r.Ok? ==> |r.value| == PySeq.Min(|hits|, |distances|)
      ensures r.Ok? ==> forall j :: 0 <= j < |r.value| ==>
        r.value[j] == (texts[PySeq.Position(|texts|, hits[j]).value], distances[j])
      ensures r.Ok? ==> forall j :: 0 <= j < |r.value| ==>
        r.value[j].0 == vectors[PySeq.Position(|vectors|, hits[j]).value]
    {
      var n := PySeq.Min(|hits|, |distances|);
      var results: seq<(string, real)> := [];
      var j := 0;
      while j < n
        invariant 0 <= j <= n && |results| == j
        invariant forall m :: 0 <= m < j ==> PySeq.Position(|texts|, hits[m]).Some?
        invariant forall m :: 0 <= m < j ==>
          results[m] == (texts[PySeq.Position(|texts|, hits[m]).value], distances[m])
      {
        var idx := PySeq.Position(|texts|, hits[j]);
        if idx.None? {
          return Err(IndexError);
        }
        results := results + [(texts[idx.value], distances[j])];
        j := j + 1;
      }
      r := Ok(results);
    }
  }
}
