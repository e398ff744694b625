/** Whole-run properties of the duplicate-suppression window. */
module DedupLaws {
  import opened Words
  import opened Seqs
  import opened DedupSpec

  // ---- Exactly which runs the window handles ----

  /** The call on which a run leaves the specification. */
  lemma {:induction false} FirstUnsafe(w: nat, xs: seq<u64>) returns (v: nat)
    requires !SafeRun(w, xs)
    ensures v < |xs| && SafeRun(w, xs[..v]) && !SafeStep(w, xs[..v], xs[v])
  {
    var n := |xs| - 1;
    assert xs == xs[..n] + [xs[n]];
    SafeSnoc(w, xs[..n], xs[n]);
    if SafeRun(w, xs[..n]) {
      v := n;
    } else {
      v := FirstUnsafe(w, xs[..n]);
      assert xs[..n][..v] == xs[..v];
    }
  }

  /** With the window at the very top, a smaller number in it slides it back and wipes it. */
  lemma SlidesBack(w: nat, st: State, q: u64)
    requires 0 < w <= Pow2(63) && st.base == TWO_64 - w <= q < TOP && w <= q
    ensures Slide(w, st, q) == st.(base := q - w + 1, marks := {}, cleared := st.cleared + w)
  {
    Pow2Values();
    DivModUnique(TWO_64, TWO_64, 1, 0);
    DivModUnique(q - w + 1, TWO_64, 0, q - w + 1);
    DivModUnique(q - TOP, TWO_64, -1, TWO_64 + q - TOP);
  }

  /** An unsafe call moves the window back and forgets everything: as if q were the first arrival, which
      it accepts. */
  lemma {:induction false} UnsafeForgets(w: nat, st: State, xs: seq<u64>, q: u64)
    requires 0 < w <= Pow2(63) && Holds(w, st, xs) && !SafeStep(w, xs, q)
    ensures Holds(w, Step(w, st, q).0, [q]) && Step(w, st, q).0.base < Floor(w, xs + [q])
    ensures Step(w, st, q).1
  {
    Pow2Values();
    assert MaxOf(xs) == TOP;
    MaxSnoc(xs, q);
    SlidesBack(w, st, q);
    MarkTracks(w, Slide(w, st, q), [], q);
    AcceptedSnoc(w, [], q);
    assert [] + [q] == [q];
  }

  /** From then on, until the largest word comes again, the window goes by what came since. */
  lemma {:induction false} UnsafeRun(w: nat, xs: seq<u64>, q: u64, rest: seq<u64>)
    requires 0 < w <= Pow2(63) && SafeRun(w, xs) && !SafeStep(w, xs, q) && TOP !in rest
    ensures Holds(w, Run(w, xs + [q] + rest), [q] + rest)
  {
    if rest == [] {
      RunTracks(w, xs);
      RunSnoc(w, xs, q);
      UnsafeForgets(w, Run(w, xs), xs, q);
      assert xs + [q] + [] == xs + [q] && [q] + [] == [q];
    } else {
      var n := |rest| - 1;
      UnsafeRun(w, xs, q, rest[..n]);
      Seqs.SplitLast(xs + [q], rest);
      Seqs.SplitLast([q], rest);
      RunSnoc(w, xs + [q] + rest[..n], rest[n]);
      StepHolds(w, Run(w, xs + [q] + rest[..n]), [q] + rest[..n], rest[n]);
    }
  }

  /** The largest word is always accepted when it comes first. */
  lemma {:induction false} TopAccepted(w: nat, xs: seq<u64>)
    requires w > 0 && TOP in xs
    ensures TOP in Accepted(w, xs)
  {
    var i :| 0 <= i < |xs| && xs[i] == TOP;
    assert InWindow(w, xs[..i], TOP);
    AcceptedIff(w, xs, TOP);
  }

  /** When the largest word comes again it is published again. */
  lemma {:induction false} TopAgain(w: nat, xs: seq<u64>, q: u64, rest: seq<u64>)
    requires 0 < w <= Pow2(63) && SafeRun(w, xs) && !SafeStep(w, xs, q) && TOP !in rest
    ensures LastVerdict(w, xs + [q] + rest + [TOP]) && !FreshLast(w, xs + [q] + rest + [TOP])
  {
    var ys := xs + [q] + rest;
    UnsafeRun(w, xs, q, rest);
    StepHolds(w, Run(w, ys), [q] + rest, TOP);
    RunSnoc(w, ys, TOP);
    AcceptedDistinct(w, [q] + rest);
    AcceptedSnoc(w, ys, TOP);
    TopAccepted(w, ys);
  }

  /** What `seen` looks up. */
  predicate Remembered(w: nat, st: State, q: u64)
    requires w > 0
  {
    st.started && st.base <= q < (st.base + w) % TWO_64 && q % w in st.marks
  }

  /** What `seen` is meant to say: accepted and still in the window. */
  predicate Live(w: nat, xs: seq<u64>, q: u64) {
    q in Accepted(w, xs) && q >= Floor(w, xs)
  }

  lemma {:induction false} RememberedIff(w: nat, st: State, xs: seq<u64>, q: u64)
    requires 0 < w <= Pow2(63) && Holds(w, st, xs) && (xs != [] ==> MaxOf(xs) < TOP)
    ensures Remembered(w, st, q) <==> Live(w, xs, q)
  {
    if xs != [] {
      WindowEnd(w, xs);
      DivModUnique(st.base + w, TWO_64, 0, st.base + w);
      if q >= st.base + w {
        AcceptedBelowMax(w, xs, q);
      }
    }
  }

  lemma {:induction false} SeenLive(w: nat, xs: seq<u64>, q: u64)
    requires 0 < w <= Pow2(63)
    ensures TOP !in xs ==> (Remembered(w, Run(w, xs), q) <==> Live(w, xs, q))
  {
    if TOP !in xs {
      RunHolds(w, xs);
      RememberedIff(w, Run(w, xs), xs, q);
    }
  }

  /** `seen` is right about every number iff the largest word has not arrived: it never finds that one. */
  lemma {:induction false} SeenIff(w: nat, xs: seq<u64>)
    requires 0 < w <= Pow2(63)
    ensures (forall q: u64 :: Remembered(w, Run(w, xs), q) <==> Live(w, xs, q)) <==> TOP !in xs
  {
    if TOP in xs {
      TopAccepted(w, xs);
      assert Live(w, xs, TOP) && !Remembered(w, Run(w, xs), TOP);
    } else {
      forall q: u64
        ensures Remembered(w, Run(w, xs), q) <==> Live(w, xs, q)
      {
        SeenLive(w, xs, q);
      }
    }
  }

  function FirstIndex(xs: seq<u64>, q: u64): (i: nat)
    requires q in xs
    ensures i < |xs| && xs[i] == q && q !in xs[..i]
  {
    if xs[0] == q then 0
    else
      assert xs == [xs[0]] + xs[1..];
      var i := 1 + FirstIndex(xs[1..], q);
      assert xs[..i] == [xs[0]] + xs[1..][..i - 1];
      i
  }

  lemma {:induction false} UnsafeUntracked(w: nat, xs: seq<u64>, v: nat)
    requires 0 < w <= Pow2(63) && v < |xs| && SafeRun(w, xs[..v]) && !SafeStep(w, xs[..v], xs[v])
    ensures !Tracks(w, Run(w, xs[..v + 1]), xs[..v + 1])
  {
    UnsafeBase(w, xs[..v], xs[v]);
    assert xs[..v + 1] == xs[..v] + [xs[v]];
  }

  lemma {:induction false} UnsafeBase(w: nat, xs: seq<u64>, q: u64)
    requires 0 < w <= Pow2(63) && SafeRun(w, xs) && !SafeStep(w, xs, q)
    ensures Run(w, xs + [q]).base < Floor(w, xs + [q])
  {
    RunTracks(w, xs);
    UnsafeForgets(w, Run(w, xs), xs, q);
    RunSnoc(w, xs, q);
  }

  /** The window's state is the specified one all along a run iff no number of the topmost window comes
      after the largest word. */
  lemma {:induction false} TracksIff(w: nat, xs: seq<u64>)
    requires 0 < w <= Pow2(63)
    ensures (forall n :: 0 <= n <= |xs| ==> Tracks(w, Run(w, xs[..n]), xs[..n])) <==> SafeRun(w, xs)
  {
    if SafeRun(w, xs) {
      forall n | 0 <= n <= |xs|
        ensures Tracks(w, Run(w, xs[..n]), xs[..n])
      {
        SafePrefix(w, xs, n);
        RunTracks(w, xs[..n]);
      }
    } else {
      var v := FirstUnsafe(w, xs);
      UnsafeUntracked(w, xs, v);
    }
  }

  lemma SafePrefix(w: nat, xs: seq<u64>, n: nat)
    requires SafeRun(w, xs) && n <= |xs|
    ensures SafeRun(w, xs[..n])
  {
  }

  lemma WrongPrefix(w: nat, zs: seq<u64>, ys: seq<u64>)
    requires w > 0 && zs != [] && zs <= ys && LastVerdict(w, zs) != FreshLast(w, zs)
    ensures !Agrees(w, ys)
  {
    assert ys[..|zs|] == zs;
  }

  /** What comes between call v and the next arrival of the largest word. */
  lemma {:induction false} UntilTop(xs: seq<u64>, v: nat) returns (rest: seq<u64>)
    requires v < |xs|
    ensures TOP !in rest && xs[..v] + [xs[v]] + rest + [TOP] <= xs + [TOP]
  {
    var tail := xs[v + 1..] + [TOP];
    assert tail[|tail| - 1] == TOP;
    var m := FirstIndex(tail, TOP);
    rest := tail[..m];
    assert tail == rest + [TOP] + tail[m + 1..];
    assert xs + [TOP] == xs[..v] + [xs[v]] + tail;
  }

  lemma {:induction false} UnsafeDisagrees(w: nat, xs: seq<u64>)
    requires 0 < w <= Pow2(63) && !SafeRun(w, xs)
    ensures !Agrees(w, xs + [TOP])
  {
    var v := FirstUnsafe(w, xs);
    var rest := UntilTop(xs, v);
    TopAgain(w, xs[..v], xs[v], rest);
    WrongPrefix(w, xs[..v] + [xs[v]] + rest + [TOP], xs + [TOP]);
  }

  /** The same condition decides the verdicts: a run that meets it gets every verdict right, and so does
      one more arrival of the largest word; any other run gets that arrival, or an earlier one, wrong. */
  lemma {:induction false} AgreementIff(w: nat, xs: seq<u64>)
    requires 0 < w <= Pow2(63)
    ensures SafeRun(w, xs) ==> Agrees(w, xs)
    ensures Agrees(w, xs + [TOP]) <==> SafeRun(w, xs)
  {
    if SafeRun(w, xs) {
      SafeSnoc(w, xs, TOP);
      RunTracks(w, xs);
      RunTracks(w, xs + [TOP]);
    } else {
      UnsafeDisagrees(w, xs);
    }
  }

  /** Three calls on which the window publishes the largest word twice. */
  function WrapRun(): seq<u64> {
    [TOP, TOP - 1, TOP]
  }

  lemma {:induction false} WrapRunRepublishes(w: nat)
    requires 1 < w <= Pow2(63)
    ensures !Agrees(w, WrapRun())
  {
    var xs: seq<u64> := [TOP, TOP - 1];
    assert xs[0] == TOP && xs[1] == TOP - 1;
    AgreementIff(w, xs);
    assert xs + [TOP] == WrapRun();
  }

  /** The window gives the specified verdict on every call of every run below `bound` exactly when the
      bound leaves out the largest word. */
  lemma {:induction false} BoundIff(p: nat, bound: nat)
    requires 6 <= p <= 63 && bound <= TWO_64
    ensures (forall xs: seq<u64> :: Below(xs, bound) ==> Agrees(Pow2(p), xs)) <==> bound < TWO_64
  {
    Pow2Values();
    Pow2Monotone(6, p);
    Pow2Monotone(p, 63);
    if bound < TWO_64 {
      forall xs: seq<u64> | Below(xs, bound)
        ensures Agrees(Pow2(p), xs)
      {
        RunTracks(Pow2(p), xs);
      }
    } else {
      WrapRunRepublishes(Pow2(p));
      assert Below(WrapRun(), bound);
    }
  }

  // ---- Accounting ----

  /** Every call is counted once, whatever the numbers are. */
  lemma {:induction false} EveryCallCounted(w: nat, xs: seq<u64>)
    requires w > 0
    ensures Run(w, xs).accepted + Run(w, xs).duplicates + Run(w, xs).tooOld == |xs|
  {
    if xs != [] {
      EveryCallCounted(w, xs[..|xs| - 1]);
    }
  }

  /** Clearing over a whole run costs at most the distance the window has moved. */
  lemma {:induction false} ClearingBounded(w: nat, xs: seq<u64>)
    requires 0 < w <= Pow2(63) && xs != [] && SafeRun(w, xs)
    ensures Run(w, xs).cleared <= Run(w, xs).base - Run(w, xs[..1]).base
  {
    var ys, q := xs[..|xs| - 1], xs[|xs| - 1];
    assert xs == ys + [q];
    if ys == [] {
      assert xs[..1] == xs;
      FirstClearsNothing(w, q);
    } else {
      assert xs[..1] == ys[..1];
      SafeSnoc(w, ys, q);
      ClearingBounded(w, ys);
      RunTracks(w, ys);
      StepWork(w, Run(w, ys), ys, q);
    }
  }

  lemma {:induction false} StepWork(w: nat, st: State, xs: seq<u64>, q: u64)
    requires 0 < w <= Pow2(63) && xs != [] && Holds(w, st, xs) && SafeStep(w, xs, q)
    ensures Step(w, st, q).0.cleared - st.cleared <= Step(w, st, q).0.base - st.base
  {
    if MaxOf(xs) < TOP {
      WindowEnd(w, xs);
      SlideWork(w, st, q);
    } else {
      Pow2Values();
      TopStays(w, st);
    }
  }

  lemma FirstClearsNothing(w: nat, q: u64)
    requires 0 < w <= Pow2(63)
    ensures Step(w, EMPTY, q).0.cleared == 0
  {
    Pow2Values();
    var s := Start(w, EMPTY, q);
    if q == TOP {
      DivModUnique(q - w + 1, TWO_64, 0, q - w + 1);
      TopStays(w, s);
    } else {
      SlideNoWrap(w, s, q);
    }
  }

  // ---- Losing arrivals ----

  lemma InWindowFewer(w: nat, xs: seq<u64>, ys: seq<u64>, q: u64)
    requires InWindow(w, xs, q) && forall x :: x in ys ==> x in xs
    ensures InWindow(w, ys, q)
  {
    if ys != [] {
      assert MaxOf(ys) in xs;
    }
  }

  lemma ArrivesInWindow(w: nat, xs: seq<u64>, i: nat, q: u64)
    requires i < |xs| && xs[i] == q && InWindow(w, xs[..i], q)
    ensures q in Accepted(w, xs)
  {
    AcceptedIff(w, xs, q);
  }

  /** When some arrivals are cut to their first few, every other number that was accepted still is. */
  lemma {:induction false} FewerArrivals(w: nat, a: seq<u64>, b: seq<u64>, part: seq<u64>, c: seq<u64>, q: u64)
    requires part <= b && q in Accepted(w, a + b + c) && (q in b ==> q in part)
    ensures q in Accepted(w, a + part + c)
  {
    var xs, ys := a + b + c, a + part + c;
    AcceptedIff(w, xs, q);
    var i :| 0 <= i < |xs| && xs[i] == q && InWindow(w, xs[..i], q);
    var j := MovedTo(a, b, part, c, q, i);
    InWindowFewer(w, xs[..i], ys[..j], q);
    ArrivesInWindow(w, ys, j, q);
  }

  /** Where the arrival of q at i, or an earlier one, stands after the cut. */
  lemma {:induction false} MovedTo(a: seq<u64>, b: seq<u64>, part: seq<u64>, c: seq<u64>, q: u64, i: nat)
    returns (j: nat)
    requires part <= b && (q in b ==> q in part) && i < |a + b + c| && (a + b + c)[i] == q
    ensures j < |a + part + c| && (a + part + c)[j] == q
    ensures forall x :: x in (a + part + c)[..j] ==> x in (a + b + c)[..i]
  {
    var xs, ys := a + b + c, a + part + c;
    if i < |a| + |part| {
      j := i;
      assert ys[..i] == xs[..i];
    } else if i < |a| + |b| {
      assert q == b[i - |a|];
      var k :| 0 <= k < |part| && part[k] == q;
      j := |a| + k;
      assert ys[..j] == xs[..j];
      assert xs[..j] == xs[..i][..j];
    } else {
      j := i - |b| + |part|;
      var d := i - |a| - |b|;
      assert xs[..i] == a + b + c[..d] && ys[..j] == a + part + c[..d];
    }
  }

  lemma {:induction false} FewerSafe(w: nat, a: seq<u64>, b: seq<u64>, part: seq<u64>, c: seq<u64>)
    requires part <= b && SafeRun(w, a + b + c)
    ensures SafeRun(w, a + part + c)
  {
    var xs, ys := a + b + c, a + part + c;
    forall i, j | 0 <= i < j < |ys| && ys[i] == TOP
      ensures ys[j] == TOP || ys[j] + w < TWO_64
    {
      var cut := |a| + |part|;
      var i', j' := if i < cut then i else i - |part| + |b|, if j < cut then j else j - |part| + |b|;
      assert xs[i'] == ys[i] && xs[j'] == ys[j];
    }
  }

  // ---- Order independence ----

  predicate SpanBelow(w: nat, xs: seq<u64>) {
    forall i, j :: 0 <= i < |xs| && 0 <= j < |xs| ==> xs[i] < xs[j] + w
  }

  /** When the values span less than the window, every distinct one is published once, in whatever
      order they arrive, and nothing is too old. */
  lemma {:induction false} NarrowSpanAcceptsAll(w: nat, xs: seq<u64>)
    requires 0 < w <= Pow2(63) && SpanBelow(w, xs) && SafeRun(w, xs)
    ensures forall q :: q in Accepted(w, xs) <==> q in xs
    ensures Run(w, xs).tooOld == 0
    ensures Run(w, xs).accepted == |set q | q in xs|
    ensures Run(w, xs).duplicates == |xs| - |set q | q in xs|
  {
    forall q | q in xs
      ensures q in Accepted(w, xs)
    {
      NarrowAccepts(w, xs, q);
    }
    AcceptedDistinct(w, xs);
    RunTracks(w, xs);
    DistinctSize(Accepted(w, xs));
    assert (set q | q in xs) == (set q | q in Accepted(w, xs));
    NothingTooOld(w, xs);
    EveryCallCounted(w, xs);
  }

  lemma NarrowAccepts(w: nat, xs: seq<u64>, q: u64)
    requires 0 < w <= Pow2(63) && SpanBelow(w, xs) && SafeRun(w, xs) && q in xs
    ensures q in Accepted(w, xs)
  {
    var i :| 0 <= i < |xs| && xs[i] == q;
    assert InWindow(w, xs[..i], q);
    AcceptedIff(w, xs, q);
  }

  lemma {:induction false} DistinctSize(s: seq<int>)
    requires forall i, j :: 0 <= i < j < |s| ==> s[i] != s[j]
    ensures |set q | q in s| == |s|
  {
    if s != [] {
      var n := |s| - 1;
      DistinctSize(s[..n]);
      assert (set q | q in s) == (set q | q in s[..n]) + {s[n]};
    }
  }

  lemma {:induction false} NothingTooOld(w: nat, xs: seq<u64>)
    requires 0 < w <= Pow2(63) && SpanBelow(w, xs) && SafeRun(w, xs)
    ensures Run(w, xs).tooOld == 0
  {
    if xs != [] {
      var ys, q := xs[..|xs| - 1], xs[|xs| - 1];
      assert xs == ys + [q];
      SafeSnoc(w, ys, q);
      NothingTooOld(w, ys);
      RunSnoc(w, ys, q);
      RunTracks(w, ys);
      if ys != [] {
        SpanFloor(w, ys, q);
      }
      StepNotTooOld(w, Run(w, ys), q);
    }
  }

  lemma SpanFloor(w: nat, xs: seq<u64>, q: u64)
    requires w > 0 && xs != [] && SpanBelow(w, xs + [q])
    ensures q >= Floor(w, xs)
  {
    var i :| 0 <= i < |xs| && xs[i] == MaxOf(xs);
    var ys := xs + [q];
    assert ys[i] < ys[|xs|] + w;
  }

  lemma StepNotTooOld(w: nat, st: State, q: u64)
    requires w > 0 && (st.started ==> q >= st.base)
    ensures Step(w, st, q).0.tooOld == st.tooOld
  {
    if q >= w {
      DivModUnique(q - w + 1, TWO_64, 0, q - w + 1);
    }
  }

  /** Any two arrival orders of the same datagrams end with the same published set and counters. */
  lemma {:induction false} OrderIndependent(w: nat, xs: seq<u64>, ys: seq<u64>)
    requires 0 < w <= Pow2(63) && SpanBelow(w, xs) && SafeRun(w, xs) && SafeRun(w, ys)
    requires multiset(xs) == multiset(ys)
    ensures forall q :: q in Accepted(w, xs) <==> q in Accepted(w, ys)
    ensures Run(w, xs).accepted == Run(w, ys).accepted
    ensures Run(w, xs).duplicates == Run(w, ys).duplicates
    ensures Run(w, xs).tooOld == 0 == Run(w, ys).tooOld
  {
    forall q
      ensures q in xs <==> q in ys
    {
      assert q in multiset(xs) <==> q in multiset(ys);
    }
    assert SpanBelow(w, ys) by {
      forall i, j | 0 <= i < |ys| && 0 <= j < |ys|
        ensures ys[i] < ys[j] + w
      {
        assert ys[i] in xs && ys[j] in xs;
      }
    }
    NarrowSpanAcceptsAll(w, xs);
    NarrowSpanAcceptsAll(w, ys);
    assert (set q | q in xs) == (set q | q in ys);
    assert |xs| == |multiset(xs)| == |ys|;
  }
}
