/** What the histogram's counters and percentiles mean in terms of the recorded samples. */
module HistSpec {
  import opened Words
  import opened Seqs
  import opened HistBuckets
  import opened Metrics

  /** Samples counted in bucket i. */
  function Tally(sub: nat, top: nat, s: seq<u64>, i: nat): nat
    requires Params(sub, top)
  {
    if s == [] then 0
    else Tally(sub, top, s[..|s| - 1], i) + if BucketOf(sub, top, s[|s| - 1]) == i then 1 else 0
  }

  /** Samples counted in buckets 0..i. */
  function UpTo(sub: nat, top: nat, s: seq<u64>, i: int): nat
    requires Params(sub, top)
  {
    if s == [] then 0
    else UpTo(sub, top, s[..|s| - 1], i) + if BucketOf(sub, top, s[|s| - 1]) <= i then 1 else 0
  }

  function Total(s: seq<u64>): nat {
    if s == [] then 0 else Total(s[..|s| - 1]) + s[|s| - 1]
  }

  /** The exact nearest-rank percentile of the same samples. */
  function Exact(s: seq<u64>, num: int, den: int): u64
    requires den > 0
  {
    Percentile(Sort(s), num, den)
  }

  /** What the histogram reports for p = num/den: the end of the bucket holding the exact percentile,
      but never more than the largest sample. */
  function Quantile(sub: nat, top: nat, s: seq<u64>, num: int, den: int): int
    requires Params(sub, top) && den > 0
  {
    if s == [] then 0
    else if num <= 0 then MinOf(s)
    else if num >= den then MaxOf(s)
    else Min(Upper(sub, BucketOf(sub, top, Exact(s, num, den))), MaxOf(s))
  }

  // ---- Counting ----

  lemma TallySnoc(sub: nat, top: nat, s: seq<u64>, v: u64, i: nat)
    requires Params(sub, top)
    ensures Tally(sub, top, s + [v], i) == Tally(sub, top, s, i) + if BucketOf(sub, top, v) == i then 1 else 0
  {
    assert (s + [v])[..|s|] == s;
  }

  lemma UpToSnoc(sub: nat, top: nat, s: seq<u64>, v: u64, i: int)
    requires Params(sub, top)
    ensures UpTo(sub, top, s + [v], i) == UpTo(sub, top, s, i) + if BucketOf(sub, top, v) <= i then 1 else 0
  {
    assert (s + [v])[..|s|] == s;
  }

  lemma {:induction false} TallyAppend(sub: nat, top: nat, s: seq<u64>, t: seq<u64>, i: nat)
    requires Params(sub, top)
    ensures Tally(sub, top, s + t, i) == Tally(sub, top, s, i) + Tally(sub, top, t, i)
  {
    if t == [] {
      assert s + t == s;
    } else {
      var n := |t| - 1;
      TallyAppend(sub, top, s, t[..n], i);
      assert s + t == (s + t[..n]) + [t[n]];
      TallySnoc(sub, top, s + t[..n], t[n], i);
    }
  }

  lemma TotalSnoc(s: seq<u64>, v: u64)
    ensures Total(s + [v]) == Total(s) + v
  {
    assert (s + [v])[..|s|] == s;
  }

  lemma {:induction false} TotalAppend(s: seq<u64>, t: seq<u64>)
    ensures Total(s + t) == Total(s) + Total(t)
  {
    if t == [] {
      assert s + t == s;
    } else {
      var n := |t| - 1;
      TotalAppend(s, t[..n]);
      assert (s + t)[..|s + t| - 1] == s + t[..n];
    }
  }

  /** The running count over the buckets. */
  lemma {:induction false} UpToStep(sub: nat, top: nat, s: seq<u64>, i: nat)
    requires Params(sub, top)
    ensures UpTo(sub, top, s, i) == UpTo(sub, top, s, i - 1) + Tally(sub, top, s, i)
  {
    if s != [] {
      UpToStep(sub, top, s[..|s| - 1], i);
    }
  }

  lemma {:induction false} UpToEnds(sub: nat, top: nat, s: seq<u64>)
    requires Params(sub, top)
    ensures UpTo(sub, top, s, -1) == 0
    ensures UpTo(sub, top, s, Buckets(sub, top) - 1) == |s|
  {
    if s != [] {
      UpToEnds(sub, top, s[..|s| - 1]);
      BucketMonotone(sub, top, s[|s| - 1], s[|s| - 1]);
    }
  }

  lemma {:induction false} UpToInsert(sub: nat, top: nat, s: seq<u64>, x: u64, i: int)
    requires Params(sub, top)
    ensures UpTo(sub, top, Insert(x, s), i) == UpTo(sub, top, s, i) + if BucketOf(sub, top, x) <= i then 1 else 0
  {
    if s == [] || x <= s[0] {
      UpToCons(sub, top, x, s, i);
    } else {
      UpToInsert(sub, top, s[1..], x, i);
      UpToCons(sub, top, s[0], s[1..], i);
      UpToCons(sub, top, s[0], Insert(x, s[1..]), i);
      assert s == [s[0]] + s[1..];
    }
  }

  lemma {:induction false} UpToCons(sub: nat, top: nat, x: u64, s: seq<u64>, i: int)
    requires Params(sub, top)
    ensures UpTo(sub, top, [x] + s, i) == UpTo(sub, top, s, i) + if BucketOf(sub, top, x) <= i then 1 else 0
  {
    if s == [] {
      assert [x] + s == [] + [x];
      UpToSnoc(sub, top, [], x, i);
    } else {
      var n := |s| - 1;
      UpToCons(sub, top, x, s[..n], i);
      assert [x] + s == ([x] + s[..n]) + [s[n]];
      UpToSnoc(sub, top, [x] + s[..n], s[n], i);
    }
  }

  lemma {:induction false} UpToSort(sub: nat, top: nat, s: seq<u64>, i: int)
    requires Params(sub, top)
    ensures UpTo(sub, top, Sort(s), i) == UpTo(sub, top, s, i)
  {
    if s != [] {
      var n := |s| - 1;
      UpToSort(sub, top, s[..n], i);
      UpToInsert(sub, top, Sort(s[..n]), s[n], i);
    }
  }

  /** Over sorted samples the running count reaches the rank exactly at the bucket of that sample. */
  lemma {:induction false} RankReached(sub: nat, top: nat, t: seq<u64>, rank: nat, i: int)
    requires Params(sub, top) && Ordered(t) && 1 <= rank <= |t|
    ensures UpTo(sub, top, t, i) >= rank <==> BucketOf(sub, top, t[rank - 1]) <= i
    ensures UpTo(sub, top, t, i) <= |t|
  {
    var n := |t| - 1;
    UpToBound(sub, top, t[..n], i);
    BucketMonotone(sub, top, t[rank - 1], t[n]);
    if BucketOf(sub, top, t[n]) <= i {
      UpToAll(sub, top, t, i);
    } else if rank <= n {
      RankReached(sub, top, t[..n], rank, i);
    }
  }

  lemma {:induction false} UpToBound(sub: nat, top: nat, t: seq<u64>, i: int)
    requires Params(sub, top)
    ensures UpTo(sub, top, t, i) <= |t|
  {
    if t != [] {
      UpToBound(sub, top, t[..|t| - 1], i);
    }
  }

  lemma {:induction false} UpToAll(sub: nat, top: nat, t: seq<u64>, i: int)
    requires Params(sub, top) && Ordered(t) && t != [] && BucketOf(sub, top, t[|t| - 1]) <= i
    ensures UpTo(sub, top, t, i) == |t|
  {
    var n := |t| - 1;
    if n > 0 {
      BucketMonotone(sub, top, t[n - 1], t[n]);
      UpToAll(sub, top, t[..n], i);
    }
  }

  /** Scanning for the first bucket whose running count reaches the rank finds the exact percentile's
      bucket. */
  lemma {:induction false} ScanStops(sub: nat, top: nat, s: seq<u64>, num: int, den: int, i: int)
    requires Params(sub, top) && s != [] && 0 < num < den
    ensures 1 <= Rank(|s|, num, den) <= |s|
    ensures UpTo(sub, top, s, i) >= Rank(|s|, num, den) <==> BucketOf(sub, top, Exact(s, num, den)) <= i
  {
    RankInside(|s|, num, den);
    SortIsSorted(s);
    UpToSort(sub, top, s, i);
    RankReached(sub, top, Sort(s), Rank(|s|, num, den), i);
  }

  /** The bucket in which the running count first reaches the rank. */
  lemma {:induction false} BucketFound(sub: nat, top: nat, s: seq<u64>, num: int, den: int, i: nat)
    requires Params(sub, top) && s != [] && 0 < num < den
    requires UpTo(sub, top, s, i - 1) < Rank(|s|, num, den) <= UpTo(sub, top, s, i)
    ensures Quantile(sub, top, s, num, den) == Min(Upper(sub, i), MaxOf(s))
  {
    ScanStops(sub, top, s, num, den, i - 1);
    ScanStops(sub, top, s, num, den, i);
  }

  // ---- Percentile laws ----

  lemma {:induction false} ExactIsSample(s: seq<u64>, num: int, den: int)
    requires s != [] && 0 <= num <= den && den > 0
    ensures Exact(s, num, den) in s && MinOf(s) <= Exact(s, num, den) <= MaxOf(s)
    ensures num == 0 ==> Exact(s, num, den) == MinOf(s)
    ensures num == den ==> Exact(s, num, den) == MaxOf(s)
  {
    RankInside(|s|, num, den);
    EndRanks(|s|, den);
    SortIsSorted(s);
    SortEnds(s);
    assert Exact(s, num, den) in Sort(s);
  }

  lemma {:induction false} EndRanks(n: nat, den: int)
    requires n > 0 && den > 0
    ensures Rank(n, 0, den) == 1 && Rank(n, den, den) == n
  {
    RankIsCeiling(n, 0, den);
    RankIsCeiling(n, den, den);
    if n > 1 {
      assert den * n - (n - 1) * den == den;
    }
  }

  /** The report for one p: never below the exact percentile, above it by at most 2^-sub of it, and
      equal to it below 2^sub, as long as that percentile is in range. */
  lemma {:induction false} QuantileBounds(sub: nat, top: nat, s: seq<u64>, num: int, den: int)
    requires Params(sub, top) && s != [] && 0 <= num <= den && den > 0
    requires Exact(s, num, den) < Pow2(top + 1)
    ensures var x := Exact(s, num, den);
            && x <= Quantile(sub, top, s, num, den) <= x + x / Pow2(sub)
            && (x < Pow2(sub) ==> Quantile(sub, top, s, num, den) == x)
  {
    ExactIsSample(s, num, den);
    Resolution(sub, top, Exact(s, num, den));
    DivBounds(Exact(s, num, den), Pow2(sub));
    QuotientAtLeast(Exact(s, num, den), Pow2(sub), 0);
  }

  /** Out-of-range percentiles are reported as the end of the last bucket. */
  lemma {:induction false} SaturatedQuantile(sub: nat, top: nat, s: seq<u64>, num: int, den: int)
    requires Params(sub, top) && s != [] && 0 < num < den && Exact(s, num, den) >= Pow2(top + 1)
    ensures Quantile(sub, top, s, num, den) == Pow2(top + 1) - 1
  {
    ExactIsSample(s, num, den);
    Saturates(sub, top, Exact(s, num, den));
    LastBucket(sub, top);
  }

  lemma {:induction false} QuantileBetween(sub: nat, top: nat, s: seq<u64>, num: int, den: int)
    requires Params(sub, top) && s != [] && 0 <= num <= den && den > 0 && MinOf(s) < Pow2(top + 1)
    ensures MinOf(s) <= Quantile(sub, top, s, num, den) <= MaxOf(s)
  {
    ExactIsSample(s, num, den);
    if 0 < num < den {
      if Exact(s, num, den) < Pow2(top + 1) {
        QuantileBounds(sub, top, s, num, den);
      } else {
        SaturatedQuantile(sub, top, s, num, den);
      }
    }
  }

  /** When all samples saturate, p = 1/2 is reported below p = 0 and below the smallest sample. */
  lemma {:induction false} AllSaturated(sub: nat, top: nat, s: seq<u64>)
    requires Params(sub, top) && s != [] && MinOf(s) >= Pow2(top + 1)
    ensures Quantile(sub, top, s, 1, 2) < MinOf(s) == Quantile(sub, top, s, 0, 2)
  {
    ExactIsSample(s, 1, 2);
    SaturatedQuantile(sub, top, s, 1, 2);
  }

  /** Every report lies between the extremes iff the smallest sample is in range. */
  lemma {:induction false} QuantileBetweenIff(sub: nat, top: nat, s: seq<u64>)
    requires Params(sub, top) && s != []
    ensures (forall num: int, den: int :: 0 <= num <= den && den > 0 ==>
               MinOf(s) <= Quantile(sub, top, s, num, den) <= MaxOf(s))
            <==> MinOf(s) < Pow2(top + 1)
  {
    if MinOf(s) < Pow2(top + 1) {
      forall num: int, den: int | 0 <= num <= den && den > 0
        ensures MinOf(s) <= Quantile(sub, top, s, num, den) <= MaxOf(s)
      {
        QuantileBetween(sub, top, s, num, den);
      }
    } else {
      AllSaturated(sub, top, s);
    }
  }

  /** The report is the largest recordable value of the exact percentile's own bucket: it is counted there,
      and nothing else counted there, up to the largest sample, exceeds it. */
  lemma {:induction false} QuantileIsBucketEnd(sub: nat, top: nat, s: seq<u64>, num: int, den: int)
    requires Params(sub, top) && s != [] && 0 < num < den && Exact(s, num, den) < Pow2(top + 1)
    ensures var x, r := Exact(s, num, den), Quantile(sub, top, s, num, den);
            && 0 <= r <= MaxOf(s) && r < Pow2(top + 1)
            && BucketOf(sub, top, r) == BucketOf(sub, top, x)
            && forall v: u64 :: v <= MaxOf(s) && v < Pow2(top + 1) && BucketOf(sub, top, v) == BucketOf(sub, top, x)
                             ==> v <= r
  {
    var x, r := Exact(s, num, den), Quantile(sub, top, s, num, den);
    var b := BucketOf(sub, top, x);
    ExactIsSample(s, num, den);
    BucketHolds(sub, top, x);
    BucketEnds(sub, top, b);
    BucketIff(sub, top, r, b);
    forall v: u64 | v <= MaxOf(s) && v < Pow2(top + 1) && BucketOf(sub, top, v) == b
      ensures v <= r
    {
      BucketIff(sub, top, v, b);
    }
  }

  /** At both ends the report is the exact percentile itself: the smallest and the largest sample; of no
      samples it is 0. */
  lemma {:induction false} QuantileEnds(sub: nat, top: nat, s: seq<u64>, num: int, den: int)
    requires Params(sub, top) && den > 0
    ensures s == [] ==> Quantile(sub, top, s, num, den) == 0
    ensures s != [] && num <= 0 ==> Quantile(sub, top, s, num, den) == MinOf(s) == Exact(s, 0, den)
    ensures s != [] && num >= den ==> Quantile(sub, top, s, num, den) == MaxOf(s) == Exact(s, den, den)
  {
    if s != [] {
      ExactIsSample(s, 0, den);
      ExactIsSample(s, den, den);
    }
  }

  /** "Never optimistic" holds for every p exactly when no sample saturates. */
  lemma {:induction false} NeverOptimisticIff(sub: nat, top: nat, s: seq<u64>)
    requires Params(sub, top) && s != []
    ensures (forall num: int, den: int :: 0 <= num <= den && den > 0 ==>
               Exact(s, num, den) <= Quantile(sub, top, s, num, den))
            <==> MaxOf(s) < Pow2(top + 1)
  {
    if MaxOf(s) < Pow2(top + 1) {
      forall num: int, den: int | 0 <= num <= den && den > 0
        ensures Exact(s, num, den) <= Quantile(sub, top, s, num, den)
      {
        ExactIsSample(s, num, den);
        QuantileBounds(sub, top, s, num, den);
      }
    } else {
      var num, den := 2 * |s| - 1, 2 * |s|;
      TopRank(|s|);
      SortIsSorted(s);
      SortEnds(s);
      assert Exact(s, num, den) == MaxOf(s);
      Saturates(sub, top, MaxOf(s));
      LastBucket(sub, top);
      assert Exact(s, num, den) > Quantile(sub, top, s, num, den);
    }
  }

  /** A p just below 1 selects the last of n samples. */
  lemma {:induction false} TopRank(n: nat)
    requires n > 0
    ensures Rank(n, 2 * n - 1, 2 * n) == n
  {
    RankIsCeiling(n, 2 * n - 1, 2 * n);
    RankInside(n, 2 * n - 1, 2 * n);
    assert (2 * n - 1) * n == 2 * n * n - n;
    assert (n - 1) * (2 * n) == 2 * n * n - 2 * n;
  }

  lemma {:induction false} ExactMonotone(s: seq<u64>, num1: int, den1: int, num2: int, den2: int)
    requires s != [] && den1 > 0 && den2 > 0 && num1 * den2 <= num2 * den1
    ensures Exact(s, num1, den1) <= Exact(s, num2, den2)
  {
    RankMonotone(|s|, num1, den1, num2, den2);
    SortIsSorted(s);
  }

  lemma {:induction false} UpperMonotone(sub: nat, i: nat, j: nat)
    requires i <= j
    ensures Upper(sub, i) <= Upper(sub, j)
  {
    Seam(sub, j);
    if i < j {
      LowerIncreasing(sub, i, j);
    }
  }

  /** A larger p never reports a smaller percentile. */
  lemma {:induction false} QuantileMonotone(sub: nat, top: nat, s: seq<u64>,
                                            num1: int, den1: int, num2: int, den2: int)
    requires Params(sub, top) && s != [] && MinOf(s) < Pow2(top + 1)
    requires 0 <= num1 <= den1 && den1 > 0 && 0 <= num2 <= den2 && den2 > 0 && num1 * den2 <= num2 * den1
    ensures Quantile(sub, top, s, num1, den1) <= Quantile(sub, top, s, num2, den2)
  {
    QuantileBetween(sub, top, s, num1, den1);
    QuantileBetween(sub, top, s, num2, den2);
    if 0 < num1 < den1 && 0 < num2 < den2 {
      var x, y := Exact(s, num1, den1), Exact(s, num2, den2);
      ExactMonotone(s, num1, den1, num2, den2);
      BucketMonotone(sub, top, x, y);
      UpperMonotone(sub, BucketOf(sub, top, x), BucketOf(sub, top, y));
    } else if num1 == den1 && num2 < den2 {
      MulStrict(num1, num2, den2);
    } else if num2 == 0 && num1 > 0 {
      MulAtLeast(num1, den2);
    }
  }

  /** Reports grow with p. */
  ghost predicate Monotone(sub: nat, top: nat, s: seq<u64>)
    requires Params(sub, top)
  {
    forall num1: int, den1: int, num2: int, den2: int ::
      0 <= num1 <= den1 && den1 > 0 && 0 <= num2 <= den2 && den2 > 0 && num1 * den2 <= num2 * den1 ==>
        Quantile(sub, top, s, num1, den1) <= Quantile(sub, top, s, num2, den2)
  }

  /** Reports grow with p iff the smallest sample is in range. */
  lemma {:induction false} QuantileMonotoneIff(sub: nat, top: nat, s: seq<u64>)
    requires Params(sub, top) && s != []
    ensures Monotone(sub, top, s) <==> MinOf(s) < Pow2(top + 1)
  {
    if MinOf(s) < Pow2(top + 1) {
      forall num1: int, den1: int, num2: int, den2: int |
        0 <= num1 <= den1 && den1 > 0 && 0 <= num2 <= den2 && den2 > 0 && num1 * den2 <= num2 * den1
        ensures Quantile(sub, top, s, num1, den1) <= Quantile(sub, top, s, num2, den2)
      {
        QuantileMonotone(sub, top, s, num1, den1, num2, den2);
      }
    } else {
      AllSaturated(sub, top, s);
    }
  }

  lemma MulStrict(d: int, num: int, den: int)
    requires d > 0 && num < den
    ensures num * d < d * den
  {
    MulAtLeast(den - num, d);
    assert (den - num) * d == d * den - num * d;
  }
}
