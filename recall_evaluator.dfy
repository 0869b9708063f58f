/** Recall@k over a labelled benchmark (baseline/metrics/recall_evaluator.py). The retriever
    is a function from a question and k to the (metadata, text) pairs it returns. */
module RecallEvaluator {
  import opened Wrappers
  import Text

  /** The metadata dict of one retrieved result: "source", and optionally "chunk_id" and
      "row_id" (both integers). */
  datatype Meta = Meta(source: Option<string>, chunkId: Option<int>, rowId: Option<int>)

  /** A benchmark case: a question and its gold ids. */
  datatype Case = Case(question: string, gold: seq<string>)

  /** `meta["source"]` raises KeyError when a result has no source. */
  datatype EvalError = MissingSource

  /** `source.replace(".pdf", "").replace(".md", "").replace(".txt", "")`: every occurrence is
      removed, not only a trailing one. */
  function StripExtensions(source: string): string
  {
    Text.RemoveAll(Text.RemoveAll(Text.RemoveAll(source, ".pdf"), ".md"), ".txt")
  }

  /** `meta.get('chunk_id', meta.get('row_id', 0))`. */
  function ChunkNumber(m: Meta): int
  {
    if m.chunkId.Some? then m.chunkId.value else if m.rowId.Some? then m.rowId.value else 0
  }

  /** The gold-comparable id of one result, or None where `meta["source"]` raises. */
  function RetrievedId(m: Meta): Option<string>
  {
    if m.source.None? then None
    else Some(StripExtensions(m.source.value) + "_chunk" + Text.IntToString(ChunkNumber(m)))
  }

  /** The list comprehension over one query's results. */
  function RetrievedIds(results: seq<(Meta, string)>): (r: Option<seq<string>>)
    ensures r.Some? <==> forall j :: 0 <= j < |results| ==> results[j].0.source.Some?
    ensures r.Some? ==> |r.value| == |results|
    ensures r.Some? ==> forall j :: 0 <= j < |results| ==> Some(r.value[j]) == RetrievedId(results[j].0)
  {
    if results == [] then Some([])
    else
      var first, rest := RetrievedId(results[0].0), RetrievedIds(results[1..]);
      if first.None? || rest.None? then None else Some([first.value] + rest.value)
  }

  /** A case is a hit when at least one of its gold ids is among the retrieved ids. */
  predicate IsHit(gold: seq<string>, ids: seq<string>)
  {
    exists g :: g in gold && g in ids
  }

  /** The number of hits over `cases`, queried in order, or the error of the first case
      whose results lack a source. */
  function Hits(cases: seq<Case>, retrieve: (string, int) -> seq<(Meta, string)>, k: int): Result<nat, EvalError>
  {
    if cases == [] then Ok(0)
    else
      var c := cases[|cases| - 1];
      match Hits(cases[..|cases| - 1], retrieve, k)
      case Err(e) => Err(e)
      case Ok(h) =>
        match RetrievedIds(retrieve(c.question, k))
        case None => Err(MissingSource)
        case Some(ids) => Ok(h + if IsHit(c.gold, ids) then 1 else 0)
  }

  /** The value `compute_recall_at_k` returns: hits / total, or 0.0 for an empty benchmark. */
  function RecallAtK(cases: seq<Case>, retrieve: (string, int) -> seq<(Meta, string)>, k: int): Result<real, EvalError>
  {
    match Hits(cases, retrieve, k)
    case Err(e) => Err(e)
    case Ok(h) => Ok(if |cases| > 0 then h as real / |cases| as real else 0.0)
  }

  /** The queries put to the retriever for `cases`: each question once, in order, with k. */
  function Questions(cases: seq<Case>, k: int): (qs: seq<(string, int)>)
    ensures |qs| == |cases|
  {
    seq(|cases|, i requires 0 <= i < |cases| => (cases[i].question, k))
  }

  /** Each case adds at most one hit. */
  lemma {:induction false} HitsAtMostCases(cases: seq<Case>, retrieve: (string, int) -> seq<(Meta, string)>, k: int)
    requires Hits(cases, retrieve, k).Ok?
    ensures Hits(cases, retrieve, k).value <= |cases|
  {
    if cases != [] {
      HitsAtMostCases(cases[..|cases| - 1], retrieve, k);
    }
  }

  /** Recall@k lies in [0, 1]; and it is 0.0 for an empty benchmark. */
  lemma RecallInUnitInterval(cases: seq<Case>, retrieve: (string, int) -> seq<(Meta, string)>, k: int)
    requires RecallAtK(cases, retrieve, k).Ok?
    ensures 0.0 <= RecallAtK(cases, retrieve, k).value <= 1.0
    ensures cases == [] ==> RecallAtK(cases, retrieve, k).value == 0.0
  {
    HitsAtMostCases(cases, retrieve, k);
    var h := Hits(cases, retrieve, k).value;
    assert RecallAtK(cases, retrieve, k) == Ok(if |cases| > 0 then h as real / |cases| as real else 0.0);
    if cases != [] {
      var v := RecallAtK(cases, retrieve, k).value;
      RatioAtMostOne(h, |cases|, v);
    }
  }

  lemma RatioAtMostOne(h: nat, n: nat, v: real)
    requires h <= n && 0 < n && v == h as real / n as real
    ensures 0.0 <= v <= 1.0
  {
  }

  /** Once a case fails, the whole evaluation fails. */
  lemma {:induction false} HitsErrorPersists(cases: seq<Case>, retrieve: (string, int) -> seq<(Meta, string)>, k: int, n: nat)
    requires n <= |cases| && Hits(cases[..n], retrieve, k).Err?
    ensures Hits(cases, retrieve, k) == Hits(cases[..n], retrieve, k)
    decreases |cases| - n
  {
    if n < |cases| {
      assert cases[..n + 1][..n] == cases[..n];
      HitsErrorPersists(cases, retrieve, k, n + 1);
    } else {
      assert cases[..n] == cases;
    }
  }

  /** When a larger k only extends every case's result list, Recall@k cannot drop. */
  lemma {:induction false} HitsMonotoneInK(cases: seq<Case>, retrieve: (string, int) -> seq<(Meta, string)>, k1: int, k2: int)
    requires forall i :: 0 <= i < |cases| ==> retrieve(cases[i].question, k1) <= retrieve(cases[i].question, k2)
    requires Hits(cases, retrieve, k1).Ok? && Hits(cases, retrieve, k2).Ok?
    ensures Hits(cases, retrieve, k1).value <= Hits(cases, retrieve, k2).value
  {
    if cases != [] {
      var front := cases[..|cases| - 1];
      var c := cases[|cases| - 1];
      assert forall i :: 0 <= i < |front| ==> front[i] == cases[i];
      HitsMonotoneInK(front, retrieve, k1, k2);
      var r1, r2 := retrieve(c.question, k1), retrieve(c.question, k2);
      assert r1 == r2[..|r1|];
      var ids1, ids2 := RetrievedIds(r1).value, RetrievedIds(r2).value;
      if IsHit(c.gold, ids1) {
        var g :| g in c.gold && g in ids1;
        var j :| 0 <= j < |ids1| && ids1[j] == g;
        assert Some(ids2[j]) == RetrievedId(r2[j].0) == RetrievedId(r1[j].0) == Some(g);
        assert g in ids2;
      }
    }
  }

  /** The outcome of one more case extends the count over the cases before it. */
  lemma HitsSnoc(cases: seq<Case>, retrieve: (string, int) -> seq<(Meta, string)>, k: int, i: nat)
    requires i < |cases| && Hits(cases[..i], retrieve, k).Ok?
    ensures var ids := RetrievedIds(retrieve(cases[i].question, k));
      Hits(cases[..i + 1], retrieve, k) ==
        if ids.None? then Err(MissingSource)
        else Ok(Hits(cases[..i], retrieve, k).value + if IsHit(cases[i].gold, ids.value) then 1 else 0)
  {
    var pre := cases[..i + 1];
    assert |pre| - 1 == i;
    assert pre[..|pre| - 1] == cases[..i];
    assert pre[|pre| - 1] == cases[i];
  }

  /** `compute_recall_at_k`: queries the retriever once per case, in benchmark order, with
      `top_k = k`, counts the hits, and divides by the number of cases. */
  method ComputeRecallAtK(retrieve: (string, int) -> seq<(Meta, string)>, benchmark: seq<Case>, k: int)
    returns (r: Result<real, EvalError>, ghost asked: seq<(string, int)>)
    ensures r == RecallAtK(benchmark, retrieve, k)
    ensures r.Ok? ==> asked == Questions(benchmark, k)
    ensures r.Err? ==> 0 < |asked| <= |benchmark| && asked == Questions(benchmark[..|asked|], k)
    ensures r.Err? ==> (Hits(benchmark[..|asked| - 1], retrieve, k).Ok? &&
                        RetrievedIds(retrieve(benchmark[|asked| - 1].question, k)).None?)
  {
    var hits := 0;
    var total := |benchmark|;
    asked := [];
    var i := 0;
    while i < total
      invariant 0 <= i <= total
      invariant Hits(benchmark[..i], retrieve, k) == Ok(hits)
      invariant asked == Questions(benchmark[..i], k)
    {
      var c := benchmark[i];
      var results := retrieve(c.question, k);
      asked := asked + [(c.question, k)];
      assert asked == Questions(benchmark[..i + 1], k);
      HitsSnoc(benchmark, retrieve, k, i);
      var ids := RetrievedIds(results);
      if ids.None? {
        HitsErrorPersists(benchmark, retrieve, k, i + 1);
        return Err(MissingSource), asked;
      }
      if IsHit(c.gold, ids.value) {
        hits := hits + 1;
      }
      i := i + 1;
    }
    assert benchmark[..i] == benchmark;
    r := Ok(if total > 0 then hits as real / total as real else 0.0);
  }

  /** The three extension strings: a '.' followed by letters. */
  predicate DotFirst(x: string)
  {
    |x| > 0 && x[0] == '.' && forall m :: 1 <= m < |x| ==> x[m] != '.'
  }

  lemma ExtensionsDotFirst()
    ensures DotFirst(".pdf") && DotFirst(".md") && DotFirst(".txt")
  {
  }

  /** A dot-first pattern cannot occur across the boundary of `base` and a dot-first suffix. */
  lemma NoStraddle(base: string, e: string, q: string, j: int)
    requires DotFirst(e) && DotFirst(q)
    requires 0 <= j < |base| < j + |q|
    ensures !Text.OccursAt(base + e, q, j)
  {
    var s := base + e;
    assert s[|base|] == '.';
    assert j + |q| <= |s| ==> s[j..j + |q|][|base| - j] == '.';
    assert q[|base| - j] != '.';
  }

  /** `base + e` has no occurrence of `q` starting inside `base`, when `base` has none. */
  lemma NoOccurrenceInBase(base: string, e: string, q: string)
    requires DotFirst(e) && DotFirst(q)
    requires forall j :: !Text.OccursAt(base, q, j)
    ensures forall j :: 0 <= j < |base| ==> !Text.OccursAt(base + e, q, j)
  {
    forall j | 0 <= j < |base|
      ensures !Text.OccursAt(base + e, q, j)
    {
      if j + |q| <= |base| {
        assert (base + e)[j..j + |q|] == base[j..j + |q|];
        assert !Text.OccursAt(base, q, j);
      } else {
        NoStraddle(base, e, q, j);
      }
    }
  }

  /** A dot-first pattern that is not a prefix of the dot-first suffix `e` does not occur in
      the suffix either. */
  lemma NoOccurrenceInSuffix(base: string, e: string, q: string, j: int)
    requires DotFirst(e) && DotFirst(q) && !(q <= e)
    requires |base| <= j
    ensures !Text.OccursAt(base + e, q, j)
  {
    var s := base + e;
    var d := j - |base|;
    if 0 < d < |e| {
      assert s[j] == e[d] != '.';
    }
    assert j + |q| <= |s| ==> s[j..j + |q|] == e[d..d + |q|];
    assert d == 0 && |q| <= |e| ==> e[d..d + |q|] == e[..|q|];
    assert q <= e <==> |q| <= |e| && q == e[..|q|];
  }

  /** One `replace(q, "")` on `base + e`: it strips `e` when `e == q` and changes nothing
      when `q` is not a prefix of `e`. */
  lemma StripOne(base: string, e: string, q: string)
    requires DotFirst(e) && DotFirst(q) && (e == q || !(q <= e))
    requires forall j :: !Text.OccursAt(base, q, j)
    ensures Text.RemoveAll(base + e, q) == if e == q then base else base + e
  {
    NoOccurrenceInBase(base, e, q);
    if e == q {
      Text.RemoveTrailing(base, q);
    } else {
      forall j ensures !Text.OccursAt(base + e, q, j) {
        if |base| <= j {
          NoOccurrenceInSuffix(base, e, q, j);
        }
      }
      Text.RemoveAbsent(base + e, q);
    }
  }

  /** No extension string occurs anywhere in `base`. */
  ghost predicate FreeOfExtensions(base: string)
  {
    (forall j :: !Text.OccursAt(base, ".pdf", j)) &&
    (forall j :: !Text.OccursAt(base, ".md", j)) &&
    (forall j :: !Text.OccursAt(base, ".txt", j))
  }

  /** For a source named `base` plus one supported extension, with no extension string
      elsewhere in it, the evaluator's id is `base` + "_chunk" + the chunk number. */
  lemma GoldIdOfChunk(base: string, e: string, i: int, row: Option<int>)
    requires FreeOfExtensions(base)
    requires e == ".pdf" || e == ".md" || e == ".txt"
    ensures StripExtensions(base + e) == base
    ensures RetrievedId(Meta(Some(base + e), Some(i), row)) == Some(base + "_chunk" + Text.IntToString(i))
  {
    ExtensionsDotFirst();
    assert ".md"[1] != ".pdf"[1] && ".txt"[1] != ".pdf"[1];
    assert !(".md" <= ".pdf") && !(".txt" <= ".pdf") && !(".pdf" <= ".md");
    assert !(".txt" <= ".md") && !(".pdf" <= ".txt") && !(".md" <= ".txt");
    StripOne(base, e, ".pdf");
    var r1 := Text.RemoveAll(base + e, ".pdf");
    if e == ".pdf" {
      Text.RemoveAbsent(base, ".md");
      Text.RemoveAbsent(base, ".txt");
    } else {
      StripOne(base, e, ".md");
      var r2 := Text.RemoveAll(r1, ".md");
      if e == ".md" {
        Text.RemoveAbsent(base, ".txt");
      } else {
        StripOne(base, e, ".txt");
      }
    }
  }

  /** The three extension strings `compute_recall_at_k` removes. */
  predicate IsExtension(e: string)
  {
    e == ".pdf" || e == ".md" || e == ".txt"
  }

  /** A name part without any '.'. */
  predicate DotFree(s: string)
  {
    forall m :: 0 <= m < |s| ==> s[m] != '.'
  }

  /** The only '.' of `a + e + b` with dot-free `a` and `b` is the first character of `e`. */
  lemma OnlyDot(a: string, e: string, b: string)
    requires DotFree(a) && DotFree(b) && IsExtension(e)
    ensures forall m :: 0 <= m < |a + e + b| && m != |a| ==> (a + e + b)[m] != '.'
  {
    var s := a + e + b;
    forall m | 0 <= m < |s| && m != |a| ensures s[m] != '.' {
      if m < |a| {
        assert s[m] == a[m];
      } else if m < |a| + |e| {
        assert s[m] == e[m - |a|];
      } else {
        assert s[m] == b[m - |a| - |e|];
      }
    }
  }

  /** In `a + e + b` with dot-free `a` and `b`, an extension string can only start at the
      dot of `e`, and only when it is `e` itself. */
  lemma OnlyOccurrence(a: string, e: string, b: string, q: string, j: int)
    requires DotFree(a) && DotFree(b) && IsExtension(e) && IsExtension(q)
    requires Text.OccursAt(a + e + b, q, j)
    ensures j == |a| && e == q
  {
    var s := a + e + b;
    OnlyDot(a, e, b);
    assert s[j] == s[j..j + |q|][0] == q[0] == '.';
    assert s[j + 1] == s[j..j + |q|][1] == q[1];
    assert s[|a| + 1] == e[1];
  }

  /** One `replace(q, "")` on `a + e + b`: it removes `e` when `e == q`, and changes nothing
      otherwise. */
  lemma StripMiddle(a: string, e: string, b: string, q: string)
    requires DotFree(a) && DotFree(b) && IsExtension(e) && IsExtension(q)
    ensures Text.RemoveAll(a + e + b, q) == if e == q then a + b else a + e + b
  {
    forall j | Text.OccursAt(a + e + b, q, j) ensures j == |a| && e == q {
      OnlyOccurrence(a, e, b, q, j);
    }
    if e == q {
      assert (e + b)[..|q|] == q && (e + b)[|q|..] == b;
      assert a + e + b == a + (e + b);
      Text.RemoveMiddle(a, e + b, q);
      StripDotFree(b, q);
    } else {
      Text.RemoveAbsent(a + e + b, q);
    }
  }

  /** `replace(q, "")` leaves a string without any '.' unchanged. */
  lemma StripDotFree(s: string, q: string)
    requires DotFree(s) && IsExtension(q)
    ensures Text.RemoveAll(s, q) == s
  {
    forall j ensures !Text.OccursAt(s, q, j) {
      if 0 <= j && j + |q| <= |s| {
        assert s[j..j + |q|][0] == s[j] != q[0];
      }
    }
    Text.RemoveAbsent(s, q);
  }

  /** The replacement is global: an extension string between two dot-free name parts is
      removed wherever it stands, so `a + e + b` becomes `a + b` even when `b` is not empty. */
  lemma StripIsGlobal(a: string, e: string, b: string)
    requires DotFree(a) && DotFree(b) && IsExtension(e)
    ensures StripExtensions(a + e + b) == a + b
  {
    assert DotFree(a + b) by {
      forall m | 0 <= m < |a + b| ensures (a + b)[m] != '.' {
        if m >= |a| {
          assert (a + b)[m] == b[m - |a|];
        }
      }
    }
    var s1 := Text.RemoveAll(a + e + b, ".pdf");
    StripMiddle(a, e, b, ".pdf");
    var s2 := Text.RemoveAll(s1, ".md");
    if e == ".pdf" {
      StripDotFree(a + b, ".md");
      StripDotFree(a + b, ".txt");
    } else {
      StripMiddle(a, e, b, ".md");
      if e == ".md" {
        StripDotFree(a + b, ".txt");
      } else {
        StripMiddle(a, e, b, ".txt");
      }
    }
  }
}
