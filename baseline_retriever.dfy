/** The baseline retriever (baseline/retriever/retreiver.py): a word-window chunker and a
    corpus of (doc_id, chunk) pairs whose positions are the positions of the vectors in an
    inner-product index. Embedding and search are not modelled: a query receives the
    positions the index returned, and a build receives the text of each file. */
module BaselineRetriever {
  import opened Wrappers
  import PySeq
  import Windowing
  import Text
  import Paths

  /** The window size and overlap, in words, that `add_documents` chunks every file with. */
  const ChunkSize: int := 500
  const Overlap: int := 50

  /** The extensions `add_documents` reads; every other file is skipped. */
  const SupportedExtensions: set<string> := {".txt", ".md", ".pdf"}

  /** " ".join(w) for every window w. */
  function JoinEach(ws: seq<seq<string>>): (r: seq<string>)
    ensures |r| == |ws|
  {
    if ws == [] then [] else [Text.Join(" ", ws[0])] + JoinEach(ws[1..])
  }

  /** The split of every chunk back into words. */
  function WordsEach(chunks: seq<string>): (r: seq<seq<string>>)
    ensures |r| == |chunks|
  {
    if chunks == [] then [] else [Text.Words(chunks[0])] + WordsEach(chunks[1..])
  }

  /** What `chunk_text(text, chunkSize, overlap)` returns: the words of `text` cut into
      windows of `chunkSize` words started every `chunkSize - overlap` words, each joined
      by single spaces. The source loops forever when the text has a word and the step
      `chunkSize - overlap` is not positive, so that case is excluded. */
  function WordChunks(text: string, chunkSize: int, overlap: int): seq<string>
    requires overlap < chunkSize || Text.Words(text) == []
  {
    var words := Text.Words(text);
    if words == [] then [] else JoinEach(Windowing.Windows(words, chunkSize, chunkSize - overlap))
  }

  lemma JoinEachAt(ws: seq<seq<string>>, i: nat)
    requires i < |ws|
    ensures JoinEach(ws)[i] == Text.Join(" ", ws[i])
  {
    if i > 0 {
      JoinEachAt(ws[1..], i - 1);
    }
  }

  /** The words of chunk `i` are exactly window `i` of `text.split()`. */
  lemma ChunkWords(text: string, chunkSize: int, overlap: int, i: nat)
    requires overlap < chunkSize
    requires i < |WordChunks(text, chunkSize, overlap)|
    ensures var ws := Windowing.Windows(Text.Words(text), chunkSize, chunkSize - overlap);
      i < |ws| && Text.Words(WordChunks(text, chunkSize, overlap)[i]) == ws[i]
  {
    var words := Text.Words(text);
    var ws := Windowing.Windows(words, chunkSize, chunkSize - overlap);
    JoinEachAt(ws, i);
    Windowing.WindowWithin(words, chunkSize, chunkSize - overlap, i);
    var w := ws[i];
    forall k | 0 <= k < |w| ensures Text.IsWord(w[k]) {
      assert w[k] in words;
    }
    Text.WordsOfJoin(w);
  }

  /** Chunk `i` is `" ".join(words[i*step : min(i*step + chunkSize, n)])`, where `words` is
      `text.split()`, `n` its length and `step` is `chunkSize - overlap`. */
  lemma WordChunkAt(text: string, chunkSize: int, overlap: int, i: nat)
    requires overlap < chunkSize && 0 < chunkSize
    requires i < |WordChunks(text, chunkSize, overlap)|
    ensures 0 <= i * (chunkSize - overlap) < |Text.Words(text)|
    ensures var words, lo := Text.Words(text), i * (chunkSize - overlap);
      WordChunks(text, chunkSize, overlap)[i] == Text.Join(" ", words[lo..PySeq.Min(lo + chunkSize, |words|)])
  {
    var words := Text.Words(text);
    assert WordChunks(text, chunkSize, overlap) == JoinEach(Windowing.Windows(words, chunkSize, chunkSize - overlap));
    JoinedWindowAt(words, chunkSize, chunkSize - overlap, i);
  }

  lemma JoinedWindowAt(words: seq<string>, size: int, step: int, i: nat)
    requires 0 < step && 0 < size
    requires i < |Windowing.Windows(words, size, step)|
    ensures 0 <= i * step < |words|
    ensures JoinEach(Windowing.Windows(words, size, step))[i]
         == Text.Join(" ", words[i * step..PySeq.Min(i * step + size, |words|)])
  {
    Windowing.WindowAt(words, size, step, i);
    JoinEachAt(Windowing.Windows(words, size, step), i);
  }

  /** Every chunk holds at least one and at most `chunkSize` words. */
  lemma ChunkWordBounds(text: string, chunkSize: int, overlap: int, i: nat)
    requires overlap < chunkSize && 0 < chunkSize
    requires i < |WordChunks(text, chunkSize, overlap)|
    ensures 1 <= |Text.Words(WordChunks(text, chunkSize, overlap)[i])| <= chunkSize
  {
    ChunkWords(text, chunkSize, overlap, i);
    Windowing.WindowBounds(Text.Words(text), chunkSize, chunkSize - overlap, i);
  }

  /** There are ceil(n / step) chunks for n words: none exactly when the text is blank. */
  lemma WordChunkCount(text: string, chunkSize: int, overlap: int)
    requires overlap < chunkSize
    ensures var n, step, c := |Text.Words(text)|, chunkSize - overlap, |WordChunks(text, chunkSize, overlap)|;
      (c == 0 <==> n == 0) && (c - 1) * step < n <= c * step
  {
    Windowing.WindowCount(Text.Words(text), chunkSize, chunkSize - overlap);
  }

  /** `chunk_text` returns no chunk exactly when the text has no non-whitespace character. */
  lemma BlankTextHasNoChunks(text: string, chunkSize: int, overlap: int)
    requires overlap < chunkSize || Text.Words(text) == []
    ensures WordChunks(text, chunkSize, overlap) == []
        <==> forall i :: 0 <= i < |text| ==> Text.IsSpace(text[i])
  {
    Text.WordsEmptyIffBlank(text);
    if Text.Words(text) != [] {
      WordChunkCount(text, chunkSize, overlap);
    }
  }

  /** With a non-negative overlap the last chunk ends at the last word of the text: its
      words are the final words of `text.split()`. */
  lemma LastChunkEnds(text: string, chunkSize: int, overlap: int)
    requires 0 <= overlap < chunkSize && Text.Words(text) != []
    ensures |WordChunks(text, chunkSize, overlap)| > 0
    ensures var words, chunks := Text.Words(text), WordChunks(text, chunkSize, overlap);
      var tail := Text.Words(chunks[|chunks| - 1]);
      0 < |tail| <= |words| && tail == words[|words| - |tail|..]
  {
    var words, step := Text.Words(text), chunkSize - overlap;
    var ws := Windowing.Windows(words, chunkSize, step);
    var chunks := WordChunks(text, chunkSize, overlap);
    assert |chunks| == |ws|;
    var last := |ws| - 1;
    var lo := last * step;
    assert lo < |words| && ws[last] == words[lo..] by {
      Windowing.LastWindowEnds(words, chunkSize, step);
    }
    assert Text.Words(chunks[last]) == ws[last] by {
      ChunkWords(text, chunkSize, overlap, last);
    }
  }

  lemma {:induction false} WordsEachJoinEach(ws: seq<seq<string>>)
    requires forall i, k :: 0 <= i < |ws| && 0 <= k < |ws[i]| ==> Text.IsWord(ws[i][k])
    ensures WordsEach(JoinEach(ws)) == ws
  {
    if ws != [] {
      Text.WordsOfJoin(ws[0]);
      WordsEachJoinEach(ws[1..]);
    }
  }

  /** With 0 <= overlap < chunkSize, the words of chunk 0 followed by the words of every
      later chunk without its first `overlap` words are exactly `text.split()`. */
  lemma WordChunksReconstruct(text: string, chunkSize: int, overlap: int)
    requires 0 <= overlap < chunkSize
    ensures Windowing.Reassemble(WordsEach(WordChunks(text, chunkSize, overlap)), overlap)
         == Text.Words(text)
  {
    var words, step := Text.Words(text), chunkSize - overlap;
    if words != [] {
      var ws := Windowing.Windows(words, chunkSize, step);
      forall i, k | 0 <= i < |ws| && 0 <= k < |ws[i]| ensures Text.IsWord(ws[i][k]) {
        Windowing.WindowWithin(words, chunkSize, step, i);
        assert ws[i][k] in words;
      }
      WordsEachJoinEach(ws);
      Windowing.Reconstruct(words, chunkSize, overlap);
    }
  }

  /** `chunk_text`: splits the text into words, then windows them. */
  method ChunkText(text: string, chunkSize: int, overlap: int) returns (chunks: seq<string>)
    requires overlap < chunkSize || Text.Words(text) == []
    ensures chunks == WordChunks(text, chunkSize, overlap)
  {
    var words := Text.Words(text);
    chunks := JoinWindows(words, chunkSize, overlap);
  }

  /** The loop of `chunk_text`: walks `start` over the words by `chunkSize - overlap`,
      appending the window that starts there, joined by single spaces. */
  method JoinWindows(words: seq<string>, chunkSize: int, overlap: int) returns (chunks: seq<string>)
    requires overlap < chunkSize || words == []
    ensures words == [] ==> chunks == []
    ensures words != [] ==> chunks == JoinEach(Windowing.Windows(words, chunkSize, chunkSize - overlap))
  {
    chunks := [];
    var start := 0;
    ghost var step := chunkSize - overlap;
    while start < |words|
      invariant 0 <= start
      invariant words != [] ==> step > 0
      invariant words != [] ==>
        chunks + JoinEach(Windowing.WindowsFrom(words, chunkSize, step, start))
          == JoinEach(Windowing.Windows(words, chunkSize, step))
      invariant words == [] ==> chunks == []
      decreases |words| - start
    {
      var end := PySeq.Min(start + chunkSize, |words|);
      var window := PySeq.Slice(words, start, end);
      assert window == PySeq.Slice(words, start, start + chunkSize);
      ghost var rest := Windowing.WindowsFrom(words, chunkSize, step, start + step);
      assert Windowing.WindowsFrom(words, chunkSize, step, start) == [window] + rest;
      assert JoinEach([window] + rest) == [Text.Join(" ", window)] + JoinEach(rest);
      chunks := chunks + [Text.Join(" ", window)];
      start := start + (chunkSize - overlap);
    }
  }

  function IsSupported(path: string): bool
  {
    Paths.Lower(Paths.Extension(path)) in SupportedExtensions
  }

  /** The id of chunk `i` of the file at `path`: its base name, "_chunk", then `i`. */
  function ChunkId(path: string, i: nat): string
  {
    Paths.Basename(path) + "_chunk" + Text.NatToString(i)
  }

  /** The (doc_id, chunk) pairs a build takes from one file whose text is `text`. */
  function FileDocs(path: string, text: string): (docs: seq<(string, string)>)
  {
    if !IsSupported(path) then [] else Named(path, WordChunks(text, ChunkSize, Overlap))
  }

  /** Chunk `i` of the file at `path` paired with its id, for every `i`. */
  function Named(path: string, chunks: seq<string>): seq<(string, string)>
  {
    seq(|chunks|, i requires 0 <= i < |chunks| => (ChunkId(path, i), chunks[i]))
  }

  /** The corpus a build over `paths` produces, the files taken in the order given;
      `read` gives the text extracted from each file. */
  function Corpus(paths: seq<string>, read: string -> string): seq<(string, string)>
  {
    if paths == [] then []
    else Corpus(paths[..|paths| - 1], read) + FileDocs(paths[|paths| - 1], read(paths[|paths| - 1]))
  }

  /** The chunk texts of a corpus, in position order. */
  function Texts(docs: seq<(string, string)>): (r: seq<string>)
    ensures |r| == |docs| && forall i :: 0 <= i < |docs| ==> r[i] == docs[i].1
  {
    seq(|docs|, i requires 0 <= i < |docs| => docs[i].1)
  }

  /** The inner loop of `add_documents`: pairs chunk `j` of a file with the id
      `<basename>_chunk<j>`. */
  method NameChunks(path: string, chunks: seq<string>) returns (docs: seq<(string, string)>)
    ensures docs == Named(path, chunks)
  {
    docs := [];
    var j := 0;
    while j < |chunks|
      invariant 0 <= j <= |chunks| && |docs| == j
      invariant forall m :: 0 <= m < j ==> docs[m] == (ChunkId(path, m), chunks[m])
    {
      docs := docs + [(ChunkId(path, j), chunks[j])];
      j := j + 1;
    }
  }

  datatype BuildError = EmptyCorpus
  datatype QueryError = IndexNotReady | IndexError

  /** A supported file contributes one entry per chunk, in chunk order, the i-th named
      after the file's base name and `i`. */
  lemma FileDocsAt(path: string, text: string, i: nat)
    requires IsSupported(path) && i < |WordChunks(text, ChunkSize, Overlap)|
    ensures |FileDocs(path, text)| == |WordChunks(text, ChunkSize, Overlap)|
    ensures FileDocs(path, text)[i] == (ChunkId(path, i), WordChunks(text, ChunkSize, Overlap)[i])
  {
  }

  /** Inside one file the ids are pairwise distinct and number the chunks 0, 1, ... in order. */
  lemma FileChunkIds(path: string, text: string, i: nat, j: nat)
    requires i < j < |FileDocs(path, text)|
    ensures FileDocs(path, text)[i].0 == Paths.Basename(path) + "_chunk" + Text.NatToString(i)
    ensures FileDocs(path, text)[i].0 != FileDocs(path, text)[j].0
  {
    var pre := Paths.Basename(path) + "_chunk";
    var a, b := FileDocs(path, text)[i].0, FileDocs(path, text)[j].0;
    assert a == pre + Text.NatToString(i) && b == pre + Text.NatToString(j);
    assert a[|pre|..] == Text.NatToString(i) && b[|pre|..] == Text.NatToString(j);
    Text.NatToStringInjective(i, j);
  }

  /** A file whose extension is not .txt, .md or .pdf (in any letter case) adds nothing. */
  lemma {:induction false} CorpusSkipsUnsupported(paths: seq<string>, read: string -> string, p: string)
    requires !IsSupported(p)
    ensures Corpus(paths + [p], read) == Corpus(paths, read)
  {
    assert (paths + [p])[..|paths|] == paths;
  }

  /** Building over two lists of files gives the first list's chunks followed by the second's. */
  lemma {:induction false} CorpusAppend(ps: seq<string>, qs: seq<string>, read: string -> string)
    ensures Corpus(ps + qs, read) == Corpus(ps, read) + Corpus(qs, read)
    decreases |qs|
  {
    if qs != [] {
      var q := qs[|qs| - 1];
      assert (ps + qs)[..|ps + qs| - 1] == ps + qs[..|qs| - 1];
      CorpusAppend(ps, qs[..|qs| - 1], read);
    } else {
      assert ps + qs == ps;
    }
  }

  /** The chunks of one supported file, read back as words without the overlaps, give the
      words of its text. */
  lemma FileDocsReassemble(path: string, text: string)
    requires IsSupported(path)
    ensures Windowing.Reassemble(WordsEach(Texts(FileDocs(path, text))), Overlap) == Text.Words(text)
  {
    assert Texts(FileDocs(path, text)) == WordChunks(text, ChunkSize, Overlap);
    WordChunksReconstruct(text, ChunkSize, Overlap);
  }

  class Retriever {
    /** `self.documents`: (doc_id, chunk) for every vector position of the index. */
    var documents: seq<(string, string)>
    /** `self.index`: None before the first build; afterwards, the chunk each vector of the
        inner-product index was embedded from, by position. */
    var index: Option<seq<string>>

    /** Position i of the index and entry i of the corpus describe the same chunk. */
    ghost predicate Valid()
      reads this
    {
      index.Some? ==> index.value == Texts(documents)
    }

    constructor ()
      ensures Valid() && documents == [] && index == None
    {
      documents := [];
      index := None;
    }

    /** `add_documents`: chunks every supported file, then replaces the whole corpus and a
        fresh index with the new batch; earlier chunks are not kept. A batch without any
        chunk fails before either field is assigned: the encoder then returns an array
        without a second dimension and reading the dimension raises. */
    method AddDocuments(paths: seq<string>, read: string -> string) returns (r: Result<(), BuildError>)
      requires Valid()
      modifies this
      ensures Valid()
      ensures r.Ok? <==> Corpus(paths, read) != []
      ensures r.Ok? ==> documents == Corpus(paths, read) && index == Some(Texts(documents))
      ensures r.Err? ==> r.error == EmptyCorpus && documents == old(documents) && index == old(index)
    {
      var texts: seq<(string, string)> := [];
      var i := 0;
      while i < |paths|
        invariant 0 <= i <= |paths|
        invariant texts == Corpus(paths[..i], read)
        invariant documents == old(documents) && index == old(index)
      {
        var path := paths[i];
        ghost var docs := FileDocs(path, read(path));
        assert Corpus(paths[..i + 1], read) == Corpus(paths[..i], read) + docs by {
          assert paths[..i + 1][..i] == paths[..i];
        }
        if !IsSupported(path) {
          i := i + 1;
          continue;
        }
        var raw := read(path);
        var chunks := ChunkText(raw, ChunkSize, Overlap);
        var named := NameChunks(path, chunks);
        texts := texts + named;
        i := i + 1;
      }
      assert paths[..i] == paths;
      if texts == [] {
        return Err(EmptyCorpus);
      }
      index := Some(Texts(texts));
      documents := texts;
      r := Ok(());
    }

    /** `query`: maps each position the search returned to its (doc_id, chunk), in the order
        returned. Python indexing applies: position -1, which the index reports when it has
        fewer vectors than requested, selects the last document. Because the corpus and the
        index agree by position, each chunk returned is the one its vector was embedded
        from. */
    method Query(hits: seq<int>) returns (r: Result<seq<(string, string)>, QueryError>)
      requires Valid()
      ensures index.None? ==> r == Err(IndexNotReady)
      ensures index.Some? ==>
        (r.Ok? <==> forall j :: 0 <= j < |hits| ==> PySeq.Position(|documents|, hits[j]).Some?)
      ensures r.Err? && index.Some? ==> r.error == IndexError
      ensures r.Ok? ==> |r.value| == |hits|
      ensures r.Ok? ==> forall j :: 0 <= j < |hits| ==>
        r.value[j] == documents[PySeq.Position(|documents|, hits[j]).value]
      ensures r.Ok? ==> forall j :: 0 <= j < |hits| ==>
        r.value[j].1 == index.value[PySeq.Position(|index.value|, hits[j]).value]
    {
      if index.None? {
        return Err(IndexNotReady);
      }
      var results: seq<(string, string)> := [];
      var j := 0;
      while j < |hits|
        invariant 0 <= j <= |hits| && |results| == j
        invariant forall m :: 0 <= m < j ==> PySeq.Position(|documents|, hits[m]).Some?
        invariant forall m :: 0 <= m < j ==> results[m] == documents[PySeq.Position(|documents|, hits[m]).value]
      {
        var idx := PySeq.Position(|documents|, hits[j]);
        if idx.None? {
          return Err(IndexError);
        }
        results := results + [documents[idx.value]];
        j := j + 1;
      }
      r := Ok(results);
    }
  }
}
