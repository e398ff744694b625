/** The log-linear latency histogram, proved against the list of samples recorded into it. */
module Hist {
  import opened Words
  import opened Seqs
  import opened HistBuckets
  import opened HistSpec
  import Metrics

  // ---- The counters of a list of samples ----

  ghost predicate Tallies(sub: nat, top: nat, counts: seq<nat>, s: seq<u64>)
    requires Params(sub, top)
  {
    |counts| == Buckets(sub, top) && forall i :: 0 <= i < |counts| ==> counts[i] == Tally(sub, top, s, i)
  }

  ghost predicate Ends(lo: u64, hi: u64, s: seq<u64>) {
    if s == [] then lo == 0 == hi else lo == MinOf(s) && hi == MaxOf(s)
  }

  lemma {:induction false} TalliesSnoc(sub: nat, top: nat, counts: seq<nat>, s: seq<u64>, v: u64)
    requires Params(sub, top) && Tallies(sub, top, counts, s)
    ensures BucketOf(sub, top, v) < |counts|
    ensures var b := BucketOf(sub, top, v); Tallies(sub, top, counts[b := counts[b] + 1], s + [v])
  {
    BucketMonotone(sub, top, v, v);
    forall i | 0 <= i < |counts|
      ensures Tally(sub, top, s + [v], i) == counts[i] + if BucketOf(sub, top, v) == i then 1 else 0
    {
      TallySnoc(sub, top, s, v, i);
    }
  }

  lemma {:induction false} TalliesAppend(sub: nat, top: nat, c: seq<nat>, d: seq<nat>, e: seq<nat>,
                                         s: seq<u64>, t: seq<u64>)
    requires Params(sub, top) && Tallies(sub, top, c, s) && Tallies(sub, top, d, t)
    requires |e| == |c| && forall i :: 0 <= i < |e| ==> e[i] == c[i] + d[i]
    ensures Tallies(sub, top, e, s + t)
  {
    forall i | 0 <= i < |e|
      ensures e[i] == Tally(sub, top, s + t, i)
    {
      TallyAppend(sub, top, s, t, i);
    }
  }

  lemma {:induction false} EndsSnoc(lo: u64, hi: u64, s: seq<u64>, v: u64)
    requires Ends(lo, hi, s)
    ensures Ends(if s == [] || v < lo then v else lo, if v > hi then v else hi, s + [v])
  {
    assert (s + [v])[..|s|] == s;
  }

  lemma {:induction false} EndsAppend(lo: u64, hi: u64, lo': u64, hi': u64, s: seq<u64>, t: seq<u64>)
    requires Ends(lo, hi, s) && Ends(lo', hi', t)
    ensures t == [] ==> s + t == s
    ensures t != [] ==> Ends(if s == [] || lo' < lo then lo' else lo, if hi' > hi then hi' else hi, s + t)
  {
    if t != [] {
      if s == [] {
        assert s + t == t;
      } else {
        var u := s + t;
        assert lo in u && lo' in u && hi in u && hi' in u;
        assert MinOf(u) in s || MinOf(u) in t;
        assert MaxOf(u) in s || MaxOf(u) in t;
      }
    }
  }

  lemma WrapAdd(a: nat, b: nat)
    ensures (a % TWO_64 + b) % TWO_64 == (a + b) % TWO_64
    ensures (a % TWO_64 + b % TWO_64) % TWO_64 == (a + b) % TWO_64
  {
  }

  class Histogram {
    const sub: nat
    const top: nat
    const counts: array<nat>
    var count: nat
    var sum: u64
    var minSeen: u64
    var maxSeen: u64
    ghost var samples: seq<u64>

    ghost predicate Valid()
      reads this, counts
    {
      && Params(sub, top)
      && Tallies(sub, top, counts[..], samples)
      && Summary()
    }

    ghost predicate Summary()
      reads this
    {
      && count == |samples|
      && sum == Total(samples) % TWO_64
      && Ends(minSeen, maxSeen, samples)
    }

    constructor (sub: nat, top: nat)
      requires Params(sub, top)
      ensures Valid() && fresh(counts) && samples == [] && this.sub == sub && this.top == top
    {
      this.sub, this.top := sub, top;
      counts := new nat[Buckets(sub, top)](_ => 0);
      count, sum, minSeen, maxSeen, samples := 0, 0, 0, 0, [];
    }

    method Record(v: u64)
      requires Valid()
      modifies this, counts
      ensures Valid() && samples == old(samples) + [v]
    {
      TalliesSnoc(sub, top, counts[..], samples, v);
      Bump(BucketOf(sub, top, v));
      Observe(v);
    }

    method Observe(v: u64)
      requires Summary()
      modifies this
      ensures Summary() && samples == old(samples) + [v]
    {
      EndsSnoc(minSeen, maxSeen, samples, v);
      TotalSnoc(samples, v);
      WrapAdd(Total(samples), v);
      if count == 0 || v < minSeen {
        minSeen := v;
      }
      if v > maxSeen {
        maxSeen := v;
      }
      sum := (sum + v) % TWO_64;
      count := count + 1;
      samples := samples + [v];
    }

    method Bump(b: nat)
      requires b < counts.Length
      modifies counts
      ensures counts[..] == old(counts[..])[b := old(counts[b]) + 1]
    {
      counts[b] := counts[b] + 1;
    }

    method Reset()
      requires Valid()
      modifies this, counts
      ensures Valid() && samples == []
    {
      forall i | 0 <= i < counts.Length {
        counts[i] := 0;
      }
      count, sum, minSeen, maxSeen, samples := 0, 0, 0, 0, [];
    }

    /** Merging is recording the other's samples too; a histogram may be merged with itself. */
    method Merge(other: Histogram)
      requires Valid() && other.Valid() && sub == other.sub && top == other.top
      requires other == this || counts != other.counts
      modifies this, counts
      ensures Valid() && samples == old(samples) + old(other.samples)
    {
      ghost var c, d, s, t := counts[..], other.counts[..], samples, other.samples;
      AddCounts(other.counts);
      TalliesAppend(sub, top, c, d, counts[..], s, t);
      if other.count != 0 {
        MergeSummary(other);
      }
      assert other.count == 0 ==> s + t == s;
      samples := s + t;
    }

    method MergeEnds(other: Histogram)
      requires Summary() && other.Summary() && other.count != 0
      modifies this`minSeen, this`maxSeen
      ensures Ends(minSeen, maxSeen, samples + other.samples)
    {
      EndsAppend(minSeen, maxSeen, other.minSeen, other.maxSeen, samples, other.samples);
      if count == 0 || other.minSeen < minSeen {
        minSeen := other.minSeen;
      }
      if other.maxSeen > maxSeen {
        maxSeen := other.maxSeen;
      }
    }

    method MergeSummary(other: Histogram)
      requires Summary() && other.Summary() && other.count != 0
      modifies this
      ensures Summary() && samples == old(samples) + old(other.samples)
    {
      TotalAppend(samples, other.samples);
      WrapAdd(Total(samples), Total(other.samples));
      ghost var t := other.samples;
      var n, total := other.count, other.sum;
      MergeEnds(other);
      sum := (sum + total) % TWO_64;
      count := count + n;
      samples := samples + t;
    }

    method AddCounts(more: array<nat>)
      requires more.Length == counts.Length
      modifies counts
      ensures forall k :: 0 <= k < counts.Length ==> counts[k] == old(counts[k]) + old(more[k])
    {
      var i := 0;
      while i < counts.Length
        invariant 0 <= i <= counts.Length
        invariant forall k :: 0 <= k < i ==> counts[k] == old(counts[k]) + old(more[k])
        invariant forall k :: i <= k < counts.Length ==> counts[k] == old(counts[k]) && more[k] == old(more[k])
      {
        counts[i] := counts[i] + more[i];
        i := i + 1;
      }
    }

    method Percentile(num: int, den: int) returns (r: int)
      requires Valid() && den > 0
      ensures r == Quantile(sub, top, samples, num, den)
    {
      if count == 0 {
        return 0;
      }
      if num <= 0 {
        return minSeen;
      }
      if num >= den {
        return maxSeen;
      }
      var rank := Metrics.Rank(count, num, den);
      UpToEnds(sub, top, samples);
      ScanStops(sub, top, samples, num, den, -1);
      var cum, i := 0, 0;
      while i < counts.Length
        invariant 0 <= i <= counts.Length
        invariant cum == UpTo(sub, top, samples, i - 1) && cum < rank
      {
        UpToStep(sub, top, samples, i);
        cum := cum + counts[i];
        if cum >= rank {
          BucketFound(sub, top, samples, num, den, i);
          var hi := Upper(sub, i);
          return if hi > maxSeen then maxSeen else hi;
        }
        i := i + 1;
      }
      return maxSeen;
    }
  }
}
