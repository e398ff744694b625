/** Bucket arithmetic of the log-linear histogram, for every kSubBits (`sub`) and kMaxPow2 (`top`). */
module HistBuckets {
  import opened Words

  predicate Params(sub: nat, top: nat) {
    1 <= sub <= 16 && sub < top <= 63
  }

  // ---- Division by powers of two ----

  lemma DivBounds(v: nat, d: nat)
    requires d > 0
    ensures (v / d) * d <= v < (v / d + 1) * d
  {
  }

  lemma QuotientAtLeast(v: nat, d: nat, q: nat)
    requires d > 0 && v >= d * q
    ensures v / d >= q
  {
    DivBounds(v, d);
    if v / d < q {
      MulMonotone(v / d + 1, q, d);
    }
  }

  // ---- Buckets ----

  /** 63 - clz(v). */
  function FloorLog2(v: nat): nat
    requires v > 0
  {
    if v == 1 then 0 else 1 + FloorLog2(v / 2)
  }

  lemma {:induction false} FloorLog2Bounds(v: nat)
    requires v > 0
    ensures Pow2(FloorLog2(v)) <= v < Pow2(FloorLog2(v) + 1)
  {
    if v > 1 {
      FloorLog2Bounds(v / 2);
    }
  }

  lemma MagnitudeAtLeast(sub: nat, v: nat)
    requires v >= Pow2(sub)
    ensures FloorLog2(v) >= sub
  {
    FloorLog2Bounds(v);
    if FloorLog2(v) < sub {
      Pow2Monotone(FloorLog2(v) + 1, sub);
    }
  }

  lemma MagnitudeAtMost(top: nat, v: nat)
    requires 0 < v < Pow2(top + 1)
    ensures FloorLog2(v) <= top
  {
    FloorLog2Bounds(v);
    if FloorLog2(v) > top {
      Pow2Monotone(top + 1, FloorLog2(v));
    }
  }

  lemma Mantissa(sub: nat, v: nat, k: nat)
    requires sub <= k && Pow2(k) <= v < Pow2(k + 1)
    ensures Pow2(sub) <= v / Pow2(k - sub) < 2 * Pow2(sub)
  {
    var d := Pow2(k - sub);
    Pow2Add(sub, k - sub);
    Pow2Add(sub + 1, k - sub);
    DivBounds(v, d);
    var q := v / d;
    if q < Pow2(sub) {
      MulMonotone(q + 1, Pow2(sub), d);
    }
    if q >= 2 * Pow2(sub) {
      MulMonotone(2 * Pow2(sub), q, d);
    }
  }

  /** The leading sub+1 bits of a value above the exact region. */
  lemma MantissaOf(sub: nat, v: nat)
    requires v >= Pow2(sub)
    ensures FloorLog2(v) >= sub
    ensures Pow2(sub) <= Shr(v, FloorLog2(v) - sub) < 2 * Pow2(sub)
  {
    MagnitudeAtLeast(sub, v);
    var k := FloorLog2(v);
    FloorLog2Bounds(v);
    Mantissa(sub, v, k);
    ShrIsDiv(v, k - sub);
  }

  function Buckets(sub: nat, top: nat): (n: nat)
    requires Params(sub, top)
    ensures n >= Pow2(sub)
  {
    MulAtLeast(top - sub + 2, Pow2(sub));
    (top - sub + 2) * Pow2(sub)
  }

  /** The index of sub-bucket m of octave e. */
  function Index(sub: nat, e: nat, m: nat): nat {
    MulMonotone(0, e, Pow2(sub));
    e * Pow2(sub) + m
  }

  /** Where a value is counted; anything of magnitude above 2^top saturates into the last bucket. */
  function BucketOf(sub: nat, top: nat, v: u64): nat
    requires Params(sub, top)
  {
    if v < Pow2(sub) then v
    else
      MantissaOf(sub, v);
      var k := FloorLog2(v);
      if k > top then Buckets(sub, top) - 1
      else Index(sub, k - sub + 1, Shr(v, k - sub) - Pow2(sub))
  }

  lemma OctaveIndex(sub: nat, i: nat)
    requires i >= Pow2(sub)
    ensures i / Pow2(sub) >= 1
  {
    QuotientAtLeast(i, Pow2(sub), 1);
  }

  function Lower(sub: nat, i: nat): nat {
    if i < Pow2(sub) then i
    else
      OctaveIndex(sub, i);
      (Pow2(sub) + i % Pow2(sub)) * Pow2(i / Pow2(sub) - 1)
  }

  function Upper(sub: nat, i: nat): int {
    if i < Pow2(sub) then i
    else
      OctaveIndex(sub, i);
      Lower(sub, i) + Pow2(i / Pow2(sub) - 1) - 1
  }

  /** The bounds of sub-bucket m of octave e. */
  lemma {:induction false} OctaveBounds(sub: nat, e: nat, m: nat)
    requires e >= 1 && m < Pow2(sub)
    ensures Index(sub, e, m) >= Pow2(sub)
    ensures Lower(sub, Index(sub, e, m)) == (Pow2(sub) + m) * Pow2(e - 1)
    ensures Upper(sub, Index(sub, e, m)) == (Pow2(sub) + m + 1) * Pow2(e - 1) - 1
  {
    MulAtLeast(e, Pow2(sub));
    DivModUnique(Index(sub, e, m), Pow2(sub), e, m);
    assert (Pow2(sub) + m + 1) * Pow2(e - 1) == (Pow2(sub) + m) * Pow2(e - 1) + Pow2(e - 1);
  }

  /** Every index above the exact region is sub-bucket m of octave e. */
  lemma {:induction false} SplitBucket(sub: nat, i: nat) returns (e: nat, m: nat)
    requires i >= Pow2(sub)
    ensures e >= 1 && m < Pow2(sub) && i == Index(sub, e, m)
  {
    OctaveIndex(sub, i);
    e, m := i / Pow2(sub), i % Pow2(sub);
  }

  // ---- Tiling ----

  /** Consecutive buckets meet without gap or overlap, across octave seams too. */
  lemma {:induction false} Seam(sub: nat, i: nat)
    ensures Lower(sub, i) <= Upper(sub, i) && Upper(sub, i) + 1 == Lower(sub, i + 1)
  {
    if i + 1 < Pow2(sub) {
    } else if i + 1 == Pow2(sub) {
      OctaveBounds(sub, 1, 0);
    } else {
      var e, m := SplitBucket(sub, i);
      OctaveSeam(sub, e, m);
    }
  }

  lemma OctaveSeam(sub: nat, e: nat, m: nat)
    requires e >= 1 && m < Pow2(sub)
    ensures var i := Index(sub, e, m);
            Lower(sub, i) <= Upper(sub, i) && Upper(sub, i) + 1 == Lower(sub, i + 1)
  {
    OctaveBounds(sub, e, m);
    if m + 1 < Pow2(sub) {
      OctaveBounds(sub, e, m + 1);
    } else {
      OctaveBounds(sub, e + 1, 0);
      assert Index(sub, e, m) + 1 == Index(sub, e + 1, 0);
      Regroup(Pow2(sub), Pow2(e - 1));
    }
    assert (Pow2(sub) + m + 1) * Pow2(e - 1) == (Pow2(sub) + m) * Pow2(e - 1) + Pow2(e - 1);
  }

  lemma Regroup(a: nat, b: nat)
    ensures (2 * a) * b == a * (2 * b)
  {
  }

  lemma {:induction false} LowerIncreasing(sub: nat, i: nat, j: nat)
    requires i < j
    ensures Upper(sub, i) < Lower(sub, j)
    decreases j
  {
    Seam(sub, j - 1);
    if i < j - 1 {
      LowerIncreasing(sub, i, j - 1);
    }
  }

  lemma {:induction false} LastBucket(sub: nat, top: nat)
    requires Params(sub, top)
    ensures Upper(sub, Buckets(sub, top) - 1) == Pow2(top + 1) - 1
  {
    var e, m := top - sub + 1, Pow2(sub) - 1;
    assert Buckets(sub, top) - 1 == Index(sub, e, m);
    OctaveBounds(sub, e, m);
    Pow2Add(sub + 1, e - 1);
  }

  /** A value lies inside the bounds of the bucket it is counted in. */
  lemma {:induction false} BucketHolds(sub: nat, top: nat, v: u64)
    requires Params(sub, top) && v < Pow2(top + 1)
    ensures 0 <= BucketOf(sub, top, v) < Buckets(sub, top)
    ensures Lower(sub, BucketOf(sub, top, v)) <= v <= Upper(sub, BucketOf(sub, top, v))
  {
    if v >= Pow2(sub) {
      MantissaOf(sub, v);
      MagnitudeAtMost(top, v);
      var k := FloorLog2(v);
      MantissaHolds(sub, v, k - sub);
      OctaveFits(top - sub + 2, k - sub + 1, Shr(v, k - sub) - Pow2(sub), Pow2(sub));
    }
  }

  /** The value lies between its leading bits and the next ones, shifted back. */
  lemma MantissaSpan(v: nat, s: nat)
    ensures Shr(v, s) * Pow2(s) <= v < (Shr(v, s) + 1) * Pow2(s)
  {
    ShrIsDiv(v, s);
    DivBounds(v, Pow2(s));
  }

  lemma MantissaHolds(sub: nat, v: nat, s: nat)
    requires Pow2(sub) <= Shr(v, s) < 2 * Pow2(sub)
    ensures var i := Index(sub, s + 1, Shr(v, s) - Pow2(sub));
            Lower(sub, i) <= v <= Upper(sub, i)
  {
    MantissaSpan(v, s);
    OctaveBounds(sub, s + 1, Shr(v, s) - Pow2(sub));
  }

  lemma OctaveFits(n: nat, e: nat, m: nat, d: nat)
    requires e < n && m < d
    ensures 0 <= e * d + m < n * d
  {
    MulMonotone(e + 1, n, d);
    assert (e + 1) * d == e * d + d;
  }

  /** Buckets tile [0, 2^(top+1)): a value is counted in bucket i exactly when it lies in its bounds. */
  lemma {:induction false} BucketIff(sub: nat, top: nat, v: u64, i: nat)
    requires Params(sub, top) && v < Pow2(top + 1)
    ensures BucketOf(sub, top, v) == i <==> Lower(sub, i) <= v <= Upper(sub, i)
  {
    BucketHolds(sub, top, v);
    var b := BucketOf(sub, top, v);
    if i < b {
      LowerIncreasing(sub, i, b);
    } else if b < i {
      LowerIncreasing(sub, b, i);
    }
  }

  /** Both ends of every bucket are counted in it, so the mapping is onto; all bounds fit 64 bits. */
  lemma {:induction false} BucketEnds(sub: nat, top: nat, i: nat)
    requires Params(sub, top) && i < Buckets(sub, top)
    ensures 0 <= Lower(sub, i) <= Upper(sub, i) < Pow2(top + 1) <= TWO_64
    ensures BucketOf(sub, top, Lower(sub, i)) == i == BucketOf(sub, top, Upper(sub, i))
  {
    Seam(sub, i);
    LastBucket(sub, top);
    Pow2Values();
    Pow2Monotone(top + 1, 64);
    if i < Buckets(sub, top) - 1 {
      Seam(sub, Buckets(sub, top) - 1);
      LowerIncreasing(sub, i, Buckets(sub, top) - 1);
    }
    BucketIff(sub, top, Lower(sub, i), i);
    BucketIff(sub, top, Upper(sub, i), i);
  }

  /** In closed form: between 2^k and 2^(k+1) buckets are 2^(k-sub) wide, aligned, and numbered on from
      (k-sub) * 2^sub by the leading sub+1 bits. */
  lemma {:induction false} BucketFormula(sub: nat, top: nat, v: u64, k: nat)
    requires Params(sub, top) && sub <= k <= top && Pow2(k) <= v < Pow2(k + 1)
    ensures var width := Pow2(k - sub);
            var b := BucketOf(sub, top, v);
            && b == (k - sub) * Pow2(sub) + v / width
            && Lower(sub, b) == v / width * width
            && Upper(sub, b) == v / width * width + width - 1
  {
    Pow2Monotone(sub, k);
    Magnitude(v, k);
    MantissaOf(sub, v);
    ShrIsDiv(v, k - sub);
    var m := v / Pow2(k - sub);
    OctaveBounds(sub, k - sub + 1, m - Pow2(sub));
    assert (k - sub + 1) * Pow2(sub) == (k - sub) * Pow2(sub) + Pow2(sub);
    assert (m + 1) * Pow2(k - sub) == m * Pow2(k - sub) + Pow2(k - sub);
  }

  lemma {:induction false} Magnitude(v: nat, k: nat)
    requires Pow2(k) <= v < Pow2(k + 1)
    ensures FloorLog2(v) == k
  {
    FloorLog2Bounds(v);
    if FloorLog2(v) < k {
      Pow2Monotone(FloorLog2(v) + 1, k);
    } else if FloorLog2(v) > k {
      Pow2Monotone(k + 1, FloorLog2(v));
    }
  }

  /** A larger value is never counted in an earlier bucket, saturation included. */
  lemma {:induction false} BucketMonotone(sub: nat, top: nat, v: u64, w: u64)
    requires Params(sub, top) && v <= w
    ensures 0 <= BucketOf(sub, top, v) <= BucketOf(sub, top, w) < Buckets(sub, top)
  {
    if w < Pow2(top + 1) {
      BucketHolds(sub, top, v);
      BucketHolds(sub, top, w);
      if BucketOf(sub, top, w) < BucketOf(sub, top, v) {
        LowerIncreasing(sub, BucketOf(sub, top, w), BucketOf(sub, top, v));
      }
    } else {
      Saturates(sub, top, w);
      LastBucket(sub, top);
      if v < Pow2(top + 1) {
        BucketHolds(sub, top, v);
      } else {
        Saturates(sub, top, v);
      }
    }
  }

  lemma {:induction false} Saturates(sub: nat, top: nat, v: u64)
    requires Params(sub, top) && v >= Pow2(top + 1)
    ensures BucketOf(sub, top, v) == Buckets(sub, top) - 1
  {
    FloorLog2Bounds(v);
    if FloorLog2(v) <= top {
      Pow2Monotone(FloorLog2(v) + 1, top + 1);
    }
    Pow2Monotone(sub, top + 1);
  }

  /** The claimed resolution: exact below 2^sub, and above it a bucket is narrower than any of its
      values divided by 2^sub. */
  lemma {:induction false} Resolution(sub: nat, top: nat, v: u64)
    requires Params(sub, top) && v < Pow2(top + 1)
    ensures v <= Upper(sub, BucketOf(sub, top, v)) <= v + v / Pow2(sub)
    ensures v < Pow2(sub) ==> Upper(sub, BucketOf(sub, top, v)) == v
  {
    if v < Pow2(sub) {
      DivModUnique(v, Pow2(sub), 0, v);
    } else {
      BucketHolds(sub, top, v);
      assert Upper(sub, BucketOf(sub, top, v)) <= v + v / Pow2(sub) by {
        MantissaOf(sub, v);
        MagnitudeAtMost(top, v);
        MantissaWidth(sub, v, FloorLog2(v) - sub);
      }
    }
  }

  lemma MantissaWidth(sub: nat, v: nat, s: nat)
    requires Pow2(sub) <= Shr(v, s) < 2 * Pow2(sub)
    ensures Upper(sub, Index(sub, s + 1, Shr(v, s) - Pow2(sub))) <= v + v / Pow2(sub)
  {
    MantissaHolds(sub, v, s);
    OctaveWidth(sub, s + 1, Shr(v, s) - Pow2(sub), v);
  }

  lemma OctaveWidth(sub: nat, e: nat, m: nat, v: nat)
    requires e >= 1 && m < Pow2(sub) && Lower(sub, Index(sub, e, m)) <= v
    ensures Upper(sub, Index(sub, e, m)) <= v + v / Pow2(sub)
  {
    OctaveBounds(sub, e, m);
    var width := Pow2(e - 1);
    MulMonotone(Pow2(sub), Pow2(sub) + m, width);
    QuotientAtLeast(v, Pow2(sub), width);
    assert (Pow2(sub) + m + 1) * width == (Pow2(sub) + m) * width + width;
  }
}
