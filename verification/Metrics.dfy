/** The consumer's metrics: delivery counts from sequence numbers, exact nearest-rank percentiles
    from the sorted samples.  A percentile p is the rational num/den; means and rates are left out. */
module Metrics {
  import opened Words
  import opened Seqs

  // ---- Sorting ----

  predicate Ordered(s: seq<u64>) {
    forall i, j :: 0 <= i < j < |s| ==> s[i] <= s[j]
  }

  function Insert(x: u64, s: seq<u64>): (r: seq<u64>)
    ensures |r| == |s| + 1
  {
    if s == [] || x <= s[0] then [x] + s else [s[0]] + Insert(x, s[1..])
  }

  function Sort(s: seq<u64>): (r: seq<u64>)
    ensures |r| == |s|
  {
    if s == [] then [] else Insert(s[|s| - 1], Sort(s[..|s| - 1]))
  }

  lemma {:induction false} InsertElements(x: u64, s: seq<u64>)
    ensures multiset(Insert(x, s)) == multiset(s) + multiset{x}
    ensures forall y :: y in Insert(x, s) <==> y == x || y in s
  {
    if s != [] && x > s[0] {
      InsertElements(x, s[1..]);
      assert s == [s[0]] + s[1..];
    }
    forall y
      ensures y in Insert(x, s) <==> y == x || y in s
    {
      assert y in Insert(x, s) <==> y in multiset(Insert(x, s));
      assert y in s <==> y in multiset(s);
    }
  }

  lemma {:induction false} InsertOrdered(x: u64, s: seq<u64>)
    requires Ordered(s)
    ensures Ordered(Insert(x, s))
  {
    if s != [] && x > s[0] {
      InsertOrdered(x, s[1..]);
      InsertElements(x, s[1..]);
      var r := Insert(x, s[1..]);
      forall k | 0 <= k < |r|
        ensures s[0] <= r[k]
      {
        assert r[k] in r;
      }
    }
  }

  /** Sorting orders the samples and loses none. */
  lemma {:induction false} SortIsSorted(s: seq<u64>)
    ensures Ordered(Sort(s))
    ensures multiset(Sort(s)) == multiset(s)
    ensures forall y :: y in Sort(s) <==> y in s
  {
    if s != [] {
      var n := |s| - 1;
      SortIsSorted(s[..n]);
      InsertOrdered(s[n], Sort(s[..n]));
      InsertElements(s[n], Sort(s[..n]));
      assert s == s[..n] + [s[n]];
    }
  }

  // ---- Nearest rank ----

  /** ceil(num * n / den), at least 1. */
  function Rank(n: nat, num: int, den: int): int
    requires den > 0
  {
    var whole := num * n / den;
    Max(1, if whole * den < num * n then whole + 1 else whole)
  }

  /** The percentile of a sorted sample. */
  function Percentile(sorted: seq<u64>, num: int, den: int): u64
    requires den > 0
  {
    if sorted == [] then 0 else sorted[Min(Rank(|sorted|, num, den), |sorted|) - 1]
  }

  lemma {:induction false} RankIsCeiling(n: nat, num: int, den: int)
    requires den > 0
    ensures forall r: int :: r >= 1 ==> (Rank(n, num, den) <= r <==> num * n <= r * den)
  {
    var whole := num * n / den;
    forall r: int | r >= 1
      ensures Rank(n, num, den) <= r <==> num * n <= r * den
    {
      if r <= whole - 1 {
        MulAtLeast(whole - r, den);
        assert (whole - r) * den == whole * den - r * den;
      } else if r >= whole + 1 {
        MulAtLeast(r - whole, den);
        assert (r - whole) * den == r * den - whole * den;
      }
    }
  }

  lemma {:induction false} RankInside(n: nat, num: int, den: int)
    requires 0 <= num <= den && den > 0 && n > 0
    ensures 1 <= Rank(n, num, den) <= n
  {
    RankIsCeiling(n, num, den);
    assert num * n <= n * den;
  }

  /** How many samples are at most x. */
  function AtMost(s: seq<u64>, x: u64): nat {
    if s == [] then 0 else AtMost(s[..|s| - 1], x) + if s[|s| - 1] <= x then 1 else 0
  }

  lemma {:induction false} AtMostOrdered(t: seq<u64>, x: u64, k: nat)
    requires Ordered(t) && k < |t|
    ensures t[k] <= x ==> AtMost(t, x) >= k + 1
    ensures t[k] > x ==> AtMost(t, x) <= k
  {
    var n := |t| - 1;
    if t[n] <= x {
      AtMostAll(t, x);
    } else if k < n {
      AtMostOrdered(t[..n], x, k);
    } else {
      AtMostBound(t[..n], x);
    }
  }

  lemma {:induction false} AtMostBound(t: seq<u64>, x: u64)
    ensures AtMost(t, x) <= |t|
  {
    if t != [] {
      AtMostBound(t[..|t| - 1], x);
    }
  }

  lemma {:induction false} AtMostAll(t: seq<u64>, x: u64)
    requires Ordered(t) && t != [] && t[|t| - 1] <= x
    ensures AtMost(t, x) == |t|
  {
    var n := |t| - 1;
    if n > 0 {
      AtMostAll(t[..n], x);
    }
  }

  lemma {:induction false} AtMostInsert(v: u64, s: seq<u64>, x: u64)
    ensures AtMost(Insert(v, s), x) == AtMost(s, x) + if v <= x then 1 else 0
  {
    if s == [] || v <= s[0] {
      AtMostCons(v, s, x);
    } else {
      AtMostInsert(v, s[1..], x);
      AtMostCons(s[0], s[1..], x);
      AtMostCons(s[0], Insert(v, s[1..]), x);
      assert s == [s[0]] + s[1..];
    }
  }

  lemma {:induction false} AtMostCons(v: u64, s: seq<u64>, x: u64)
    ensures AtMost([v] + s, x) == AtMost(s, x) + if v <= x then 1 else 0
  {
    var t := [v] + s;
    if s != [] {
      var n := |s| - 1;
      AtMostCons(v, s[..n], x);
      assert t[..|t| - 1] == [v] + s[..n];
    } else {
      assert t[..0] == [];
    }
  }

  lemma {:induction false} AtMostSort(s: seq<u64>, x: u64)
    ensures AtMost(Sort(s), x) == AtMost(s, x)
  {
    if s != [] {
      var n := |s| - 1;
      AtMostSort(s[..n], x);
      AtMostInsert(s[n], Sort(s[..n]), x);
    }
  }

  /** The exact percentile is the nearest-rank one: the smallest sample with at least p*n samples, and at
      least one, at or below it. */
  lemma {:induction false} NearestRank(s: seq<u64>, num: int, den: int)
    requires s != [] && 0 <= num <= den && den > 0
    ensures var x := Percentile(Sort(s), num, den);
            && x in s && AtMost(s, x) * den >= num * |s|
            && forall y: u64 :: y < x ==> AtMost(s, y) == 0 || AtMost(s, y) * den < num * |s|
  {
    var t, rank := Sort(s), Rank(|s|, num, den);
    SortIsSorted(s);
    RankInside(|s|, num, den);
    RankIsCeiling(|s|, num, den);
    var x := t[rank - 1];
    assert x in t;
    AtMostOrdered(t, x, rank - 1);
    AtMostSort(s, x);
    MulMonotone(rank, AtMost(s, x), den);
    forall y: u64 | y < x
      ensures AtMost(s, y) == 0 || AtMost(s, y) * den < num * |s|
    {
      AtMostOrdered(t, y, rank - 1);
      AtMostSort(s, y);
      if AtMost(s, y) >= 1 {
        assert !(rank <= AtMost(s, y));
      }
    }
  }

  lemma {:induction false} RankMonotone(n: nat, num1: int, den1: int, num2: int, den2: int)
    requires den1 > 0 && den2 > 0 && num1 * den2 <= num2 * den1
    ensures Rank(n, num1, den1) <= Rank(n, num2, den2)
  {
    RankIsCeiling(n, num1, den1);
    RankIsCeiling(n, num2, den2);
    CrossMultiply(n, num1, den1, num2, den2, Rank(n, num2, den2));
  }

  /** num1/den1 <= num2/den2 and num2/den2 <= r/n give num1/den1 <= r/n. */
  lemma {:induction false} CrossMultiply(n: nat, num1: int, den1: int, num2: int, den2: int, r: int)
    requires den1 > 0 && den2 > 0 && num1 * den2 <= num2 * den1 && num2 * n <= r * den2
    ensures num1 * n <= r * den1
  {
    calc {
      (num1 * n) * den2;
    == { Swap(num1, n, den2); }
      (num1 * den2) * n;
    <= { MulMonotone(num1 * den2, num2 * den1, n); }
      (num2 * den1) * n;
    == { Swap(num2, den1, n); }
      (num2 * n) * den1;
    <= { MulMonotone(num2 * n, r * den2, den1); }
      (r * den2) * den1;
    == { Swap(r, den2, den1); }
      (r * den1) * den2;
    }
    CancelRight(num1 * n, r * den1, den2);
  }

  lemma Swap(a: int, b: int, c: int)
    ensures (a * b) * c == (a * c) * b
  {
  }

  lemma CancelRight(a: int, b: int, d: int)
    requires d > 0 && a * d <= b * d
    ensures a <= b
  {
    if a > b {
      assert (a - b) * d == a * d - b * d;
      MulAtLeast(a - b, d);
    }
  }

  // ---- Delivery accounting ----

  datatype Latency = Latency(min: u64, max: u64, p01: u64, p50: u64, p99: u64, p999: u64, p9999: u64)

  datatype Report = Report(received: nat, expected: nat, dropped: nat, latency: Latency)

  ghost predicate Distinct(ids: seq<u64>) {
    forall i, j :: 0 <= i < j < |ids| ==> ids[i] != ids[j]
  }

  ghost function IdSet(ids: seq<u64>): set<u64> {
    set q | q in ids
  }

  /** The sequence numbers between the first and the last one that were never recorded. */
  ghost function Missing(ids: seq<u64>): set<int>
    requires ids != []
  {
    set q | MinOf(ids) <= q <= MaxOf(ids) && q !in ids
  }

  /** Received never exceeds expected and `dropped` is the number of missing ids. */
  ghost predicate Accurate(r: Report, ids: seq<u64>)
    requires ids != []
  {
    r.received <= r.expected && r.dropped == |Missing(ids)|
  }

  lemma ExtremesSnoc(ids: seq<u64>, q: u64)
    ensures MinOf(ids + [q]) == if ids == [] then q else Min(MinOf(ids), q)
    ensures MaxOf(ids + [q]) == if ids == [] then q else Max(MaxOf(ids), q)
  {
    assert (ids + [q])[..|ids|] == ids;
  }

  class Accumulator {
    var received: nat
    var firstSeq: u64
    var lastSeq: u64
    var latencies: seq<u64>
    ghost var ids: seq<u64>

    ghost predicate Valid()
      reads this
    {
      && received == |ids| == |latencies|
      && (ids != [] ==> firstSeq == MinOf(ids) && lastSeq == MaxOf(ids))
    }

    constructor ()
      ensures Valid() && ids == [] && latencies == []
    {
      received, firstSeq, lastSeq, latencies, ids := 0, 0, 0, [], [];
    }

    method Record(seqId: u64, latency: u64)
      requires Valid()
      modifies this
      ensures Valid() && ids == old(ids) + [seqId] && latencies == old(latencies) + [latency]
    {
      if received == 0 {
        firstSeq := seqId;
        lastSeq := seqId;
      } else {
        if seqId < firstSeq {
          firstSeq := seqId;
        }
        if seqId > lastSeq {
          lastSeq := seqId;
        }
      }
      received := received + 1;
      latencies := latencies + [latency];
      ids := ids + [seqId];
      ExtremesSnoc(old(ids), seqId);
    }

    /** Received never exceeds expected and `dropped` is the number of sequence numbers in the span that
        were not recorded, iff no id repeats and the ids do not span all 64-bit numbers. */
    method MakeReport() returns (r: Report)
      requires Valid()
      ensures r.received == |ids|
      ensures ids == [] ==> r.expected == 0 && r.dropped == 0 && r.latency == Latency(0, 0, 0, 0, 0, 0, 0)
      ensures ids != [] ==> r.expected == Expected(ids) && r.dropped == Dropped(ids)
      ensures ids != [] ==> IsSummary(r.latency, latencies)
      ensures ids != [] ==> (Accurate(r, ids) <==> Distinct(ids) && !FullSpan(ids))
    {
      if received == 0 {
        return Report(0, 0, 0, Latency(0, 0, 0, 0, 0, 0, 0));
      }
      var expected := (lastSeq - firstSeq + 1) % TWO_64;
      var dropped := if expected > received then expected - received else 0;
      assert expected == Expected(ids) && dropped == Dropped(ids);
      var latency := Summarise(latencies);
      r := Report(received, expected, dropped, latency);
      AccurateIff(r, ids);
    }
  }

  ghost predicate IsSummary(l: Latency, samples: seq<u64>)
    requires samples != []
  {
    && l.min == MinOf(samples)
    && l.max == MaxOf(samples)
    && l.p01 == Percentile(Sort(samples), 1, 100)
    && l.p50 == Percentile(Sort(samples), 50, 100)
    && l.p99 == Percentile(Sort(samples), 99, 100)
    && l.p999 == Percentile(Sort(samples), 999, 1000)
    && l.p9999 == Percentile(Sort(samples), 9999, 10000)
  }

  /** The latency half of the report, from one sort. */
  method Summarise(samples: seq<u64>) returns (l: Latency)
    requires samples != []
    ensures IsSummary(l, samples)
  {
    var s := Sort(samples);
    SortEnds(samples);
    l := Latency(s[0], s[|s| - 1], Percentile(s, 1, 100), Percentile(s, 50, 100), Percentile(s, 99, 100),
                 Percentile(s, 999, 1000), Percentile(s, 9999, 10000));
  }

  /** last - first + 1 in 64 bits. */
  function Expected(ids: seq<u64>): nat
    requires ids != []
  {
    (MaxOf(ids) - MinOf(ids) + 1) % TWO_64
  }

  function Dropped(ids: seq<u64>): nat
    requires ids != []
  {
    if Expected(ids) > |ids| then Expected(ids) - |ids| else 0
  }

  lemma {:induction false} SortEnds(s: seq<u64>)
    requires s != []
    ensures Sort(s)[0] == MinOf(s) && Sort(s)[|s| - 1] == MaxOf(s)
  {
    SortIsSorted(s);
    var t := Sort(s);
    assert MinOf(s) in t && MaxOf(s) in t && t[0] in s && t[|t| - 1] in s;
  }

  ghost function Range(lo: int, hi: int): (r: set<int>)
    requires lo <= hi
    ensures |r| == hi - lo && forall q :: q in r <==> lo <= q < hi
    decreases hi - lo
  {
    if lo == hi then {} else Range(lo, hi - 1) + {hi - 1}
  }

  /** Recorded ids occupy at most |ids| places, and exactly |ids| only when none repeats. */
  lemma {:induction false} IdSetSize(ids: seq<u64>)
    ensures |IdSet(ids)| <= |ids|
    ensures |IdSet(ids)| == |ids| <==> Distinct(ids)
  {
    if ids != [] {
      var n := |ids| - 1;
      IdSetSize(ids[..n]);
      assert IdSet(ids) == IdSet(ids[..n]) + {ids[n]};
      DistinctSnoc(ids);
    }
  }

  lemma {:induction false} DistinctSnoc(ids: seq<u64>)
    requires ids != []
    ensures var n := |ids| - 1; Distinct(ids) <==> Distinct(ids[..n]) && ids[n] !in IdSet(ids[..n])
  {
    var n := |ids| - 1;
    if Distinct(ids) {
      assert forall i :: 0 <= i < n ==> ids[..n][i] == ids[i] != ids[n];
    } else {
      var i, j :| 0 <= i < j < |ids| && ids[i] == ids[j];
      assert ids[..n][i] == ids[i];
      if j < n {
        assert ids[..n][j] == ids[j];
      }
    }
  }

  /** The span minus the recorded set is what is missing. */
  lemma {:induction false} MissingSize(ids: seq<u64>)
    requires ids != []
    ensures |Missing(ids)| == MaxOf(ids) - MinOf(ids) + 1 - |IdSet(ids)|
  {
    var span := Range(MinOf(ids), MaxOf(ids) + 1);
    var got := IdSet(ids);
    assert Missing(ids) == span - got && got <= span;
  }

  /** The span of all 2^64 numbers: last - first + 1 wraps to 0. */
  predicate FullSpan(ids: seq<u64>) {
    0 in ids && TWO_64 - 1 in ids
  }

  lemma {:induction false} ExpectedSpan(ids: seq<u64>)
    requires ids != []
    ensures FullSpan(ids) ==> Expected(ids) == 0 && |ids| >= 2
    ensures !FullSpan(ids) ==> Expected(ids) == MaxOf(ids) - MinOf(ids) + 1
  {
    if FullSpan(ids) {
      assert MinOf(ids) == 0 && MaxOf(ids) == TWO_64 - 1;
    } else {
      assert MinOf(ids) in ids && MaxOf(ids) in ids;
    }
  }

  /** `dropped` is the number of missing ids exactly when nothing is missing, or no id repeats and the
      ids do not span all 64-bit numbers: a repeat hides a loss, and a full span hides all of them. */
  lemma {:induction false} DroppedExactIff(ids: seq<u64>)
    requires ids != []
    ensures Dropped(ids) == |Missing(ids)| <==> Missing(ids) == {} || (Distinct(ids) && !FullSpan(ids))
  {
    MissingSize(ids);
    IdSetSize(ids);
    ExpectedSpan(ids);
    if |Missing(ids)| == 0 {
      assert Missing(ids) == {};
    }
  }

  /** The same of the counts that the ids lead to. */
  ghost predicate Exact(ids: seq<u64>) {
    ids != [] ==> |ids| <= Expected(ids) && Dropped(ids) == |Missing(ids)|
  }

  lemma {:induction false} AccurateIff(r: Report, ids: seq<u64>)
    requires ids != [] && r.received == |ids| && r.expected == Expected(ids) && r.dropped == Dropped(ids)
    ensures Accurate(r, ids) <==> Distinct(ids) && !FullSpan(ids)
  {
    ExactIff(ids);
  }

  /** The whole report is exact iff no id repeats and the ids do not span all 64-bit numbers. */
  lemma {:induction false} ExactIff(ids: seq<u64>)
    ensures Exact(ids) <==> Distinct(ids) && !FullSpan(ids)
  {
    if ids != [] {
      DroppedExactIff(ids);
      MissingSize(ids);
      IdSetSize(ids);
      ExpectedSpan(ids);
    }
  }

  /** Two messages at the ends of the number space: the report shows no loss and nothing expected. */
  lemma {:induction false} FullSpanHides()
    ensures var ids: seq<u64> := [0, TWO_64 - 1];
            && Distinct(ids) && Expected(ids) == 0 && Dropped(ids) == 0
            && |Missing(ids)| == TWO_64 - 2
  {
    var ids: seq<u64> := [0, TWO_64 - 1];
    assert ids[0] == 0 && ids[1] == TWO_64 - 1;
    ExpectedSpan(ids);
    MissingSize(ids);
    IdSetSize(ids);
  }
}
