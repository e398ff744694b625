/** What the duplicate-suppression window is for, stated over the whole list of arrivals, and the
    window's own step on its abstract state, wrap-around included. */
module DedupSpec {
  import opened Words
  import opened Seqs

  // ---- The specification: a plain list of accepted sequence numbers ----

  /** q is not yet forgotten after the arrivals xs. */
  predicate InWindow(w: nat, xs: seq<u64>, q: u64) {
    xs == [] || q + w > MaxOf(xs)
  }

  predicate Fresh(w: nat, xs: seq<u64>, q: u64) {
    q !in Accepted(w, xs) && InWindow(w, xs, q)
  }

  /** The arrivals that are to be published, in order. */
  function Accepted(w: nat, xs: seq<u64>): seq<u64>
    decreases |xs|, 0
  {
    if xs == [] then []
    else
      var n := |xs| - 1;
      Accepted(w, xs[..n]) + if FreshLast(w, xs) then [xs[n]] else []
  }

  predicate FreshLast(w: nat, xs: seq<u64>)
    requires xs != []
    decreases |xs| - 1, 1
  {
    var n := |xs| - 1;
    xs[n] !in Accepted(w, xs[..n]) && InWindow(w, xs[..n], xs[n])
  }

  /** The oldest sequence number still remembered. */
  function Floor(w: nat, xs: seq<u64>): nat {
    if xs == [] then 0 else Max(0, MaxOf(xs) - w + 1)
  }

  /** No sequence number is published twice, and every published one arrived. */
  lemma {:induction false} AcceptedDistinct(w: nat, xs: seq<u64>)
    ensures forall i, j :: 0 <= i < j < |Accepted(w, xs)| ==> Accepted(w, xs)[i] != Accepted(w, xs)[j]
    ensures forall q :: q in Accepted(w, xs) ==> q in xs
  {
    if xs != [] {
      AcceptedDistinct(w, xs[..|xs| - 1]);
    }
  }

  /** A number is published iff one of its arrivals came within the window of the largest one so far. */
  lemma {:induction false} AcceptedIff(w: nat, xs: seq<u64>, q: u64)
    ensures q in Accepted(w, xs) <==> exists i :: 0 <= i < |xs| && xs[i] == q && InWindow(w, xs[..i], q)
  {
    if xs != [] {
      var n := |xs| - 1;
      AcceptedIff(w, xs[..n], q);
      forall i | 0 <= i < n
        ensures xs[..n][..i] == xs[..i]
      {
      }
      if q in Accepted(w, xs[..n]) {
        var i :| 0 <= i < n && xs[..n][i] == q && InWindow(w, xs[..n][..i], q);
        assert xs[i] == q && InWindow(w, xs[..i], q);
      }
    }
  }

  // ---- The window's step ----

  /** `marks` are the positions of the set bits; `cleared` counts bits cleared, a wipe as w. */
  datatype State = State(started: bool, base: u64, marks: set<nat>,
                         accepted: nat, duplicates: nat, tooOld: nat, cleared: nat)

  const EMPTY := State(false, 0, {}, 0, 0, 0, 0)

  function Residues(w: nat, lo: nat, hi: nat): set<nat>
    requires w > 0
  {
    set s | lo <= s < hi :: s % w
  }

  function AdvanceTo(w: nat, st: State, newBase: u64): State
    requires w > 0
  {
    if (newBase - st.base) % TWO_64 >= w then
      st.(marks := {}, base := newBase, cleared := st.cleared + w)
    else
      st.(marks := st.marks - Residues(w, st.base, newBase), base := newBase,
          cleared := st.cleared + Max(0, newBase - st.base))
  }

  function Start(w: nat, st: State, q: u64): State {
    if st.started then st
    else st.(started := true, base := if q >= w then (q - w + 1) % TWO_64 else 0)
  }

  function Slide(w: nat, st: State, q: u64): State
    requires w > 0
  {
    if q >= (st.base + w) % TWO_64 then AdvanceTo(w, st, (q - w + 1) % TWO_64) else st
  }

  function Mark(w: nat, st: State, q: u64): (State, bool)
    requires w > 0
  {
    if q % w in st.marks then (st.(duplicates := st.duplicates + 1), false)
    else (st.(marks := st.marks + {q % w}, accepted := st.accepted + 1), true)
  }

  /** One call of accept. */
  function Step(w: nat, st: State, q: u64): (State, bool)
    requires w > 0
  {
    var s := Start(w, st, q);
    if q < s.base then (s.(tooOld := s.tooOld + 1), false)
    else Mark(w, Slide(w, s, q), q)
  }

  function Run(w: nat, xs: seq<u64>): State
    requires w > 0
  {
    if xs == [] then EMPTY else Step(w, Run(w, xs[..|xs| - 1]), xs[|xs| - 1]).0
  }

  /** The verdict on the last arrival. */
  predicate LastVerdict(w: nat, xs: seq<u64>)
    requires w > 0 && xs != []
  {
    Step(w, Run(w, xs[..|xs| - 1]), xs[|xs| - 1]).1
  }

  predicate Agrees(w: nat, xs: seq<u64>)
    requires w > 0
  {
    forall n :: 0 < n <= |xs| ==> LastVerdict(w, xs[..n]) == FreshLast(w, xs[..n])
  }

  // ---- The step implements the specification ----

  predicate Below(xs: seq<u64>, bound: int) {
    forall i :: 0 <= i < |xs| ==> xs[i] < bound
  }

  const TOP: u64 := TWO_64 - 1

  /** Once the largest word has arrived, the end of the window wraps around: only numbers outside the
      window and the largest word itself are still handled as specified. */
  predicate SafeStep(w: nat, xs: seq<u64>, q: u64) {
    TOP in xs ==> q == TOP || q + w < TWO_64
  }

  /** No number of the topmost window comes after the largest word. */
  predicate SafeRun(w: nat, xs: seq<u64>) {
    forall i, j :: 0 <= i < j < |xs| && xs[i] == TOP ==> xs[j] == TOP || xs[j] + w < TWO_64
  }

  /** Base and live bits are those of the arrivals xs. */
  ghost predicate Holds(w: nat, st: State, xs: seq<u64>)
    requires w > 0
  {
    && st.started == (xs != [])
    && st.base == Floor(w, xs)
    && (forall q :: st.base <= q < st.base + w ==> (q % w in st.marks <==> q in Accepted(w, xs)))
  }

  /** The calls whose number was fresh, was accepted before, or came too late for the window. */
  ghost function FreshCalls(w: nat, xs: seq<u64>): set<nat> {
    set i: nat | i < |xs| && InWindow(w, xs[..i], xs[i]) && xs[i] !in Accepted(w, xs[..i])
  }

  ghost function RepeatedCalls(w: nat, xs: seq<u64>): set<nat> {
    set i: nat | i < |xs| && InWindow(w, xs[..i], xs[i]) && xs[i] in Accepted(w, xs[..i])
  }

  ghost function LateCalls(w: nat, xs: seq<u64>): set<nat> {
    set i: nat | i < |xs| && !InWindow(w, xs[..i], xs[i])
  }

  ghost predicate Counted(w: nat, st: State, xs: seq<u64>) {
    && st.accepted == |FreshCalls(w, xs)| == |Accepted(w, xs)|
    && st.duplicates == |RepeatedCalls(w, xs)|
    && st.tooOld == |LateCalls(w, xs)|
  }

  ghost predicate Tracks(w: nat, st: State, xs: seq<u64>)
    requires w > 0
  {
    Holds(w, st, xs) && Counted(w, st, xs)
  }

  lemma {:induction false} CallsSnoc(w: nat, xs: seq<u64>, q: u64)
    ensures FreshCalls(w, xs + [q]) == FreshCalls(w, xs) + if Fresh(w, xs, q) then {|xs|} else {}
    ensures RepeatedCalls(w, xs + [q]) ==
            RepeatedCalls(w, xs) + if InWindow(w, xs, q) && q in Accepted(w, xs) then {|xs|} else {}
    ensures LateCalls(w, xs + [q]) == LateCalls(w, xs) + if InWindow(w, xs, q) then {} else {|xs|}
  {
    var ys := xs + [q];
    assert ys[..|xs|] == xs && ys[|xs|] == q;
    forall i: nat | i < |xs|
      ensures ys[..i] == xs[..i] && ys[i] == xs[i]
    {
    }
  }

  lemma AcceptedBelowMax(w: nat, xs: seq<u64>, q: nat)
    requires xs != [] && q > MaxOf(xs)
    ensures q !in Accepted(w, xs)
  {
    AcceptedDistinct(w, xs);
  }

  lemma ResidueIn(w: nat, lo: nat, hi: nat, s: nat)
    requires w > 0 && lo <= s < hi
    ensures s % w in Residues(w, lo, hi)
  {
  }

  lemma ResidueOut(w: nat, lo: nat, hi: nat, q: nat)
    requires w > 0 && lo <= hi <= q < lo + w
    ensures q % w !in Residues(w, lo, hi)
  {
    forall s | lo <= s < hi
      ensures s % w != q % w
    {
      ModApart(s, q, w);
    }
  }

  /** Sliding keeps the bits of what stays in the window and shows the rest as unseen. */
  lemma {:induction false} AdvanceTracks(w: nat, st: State, xs: seq<u64>, newBase: u64, x: nat)
    requires w > 0 && xs != [] && Holds(w, st, xs)
    requires MaxOf(xs) < st.base + w && st.base <= newBase <= x < newBase + w
    ensures x % w in AdvanceTo(w, st, newBase).marks <==> x in Accepted(w, xs)
  {
    DivModUnique(newBase - st.base, TWO_64, 0, newBase - st.base);
    if x >= st.base + w {
      AcceptedBelowMax(w, xs, x);
      if newBase - st.base < w {
        ModShift(x - w, w);
        ResidueIn(w, st.base, newBase, x - w);
      }
    } else {
      ResidueOut(w, st.base, newBase, x);
    }
  }

  /** Below the largest word the end of the window does not wrap around. */
  lemma WindowEnd(w: nat, xs: seq<u64>)
    requires 0 < w <= Pow2(63) && xs != [] && MaxOf(xs) < TWO_64 - 1
    ensures MaxOf(xs) < Floor(w, xs) + w < TWO_64
  {
    Pow2Values();
  }

  lemma SlideNoWrap(w: nat, st: State, q: u64)
    requires w > 0 && st.base + w < TWO_64
    ensures q >= st.base + w ==> Slide(w, st, q) == AdvanceTo(w, st, q - w + 1)
    ensures q < st.base + w ==> Slide(w, st, q) == st
  {
    DivModUnique(st.base + w, TWO_64, 0, st.base + w);
    if q >= st.base + w {
      DivModUnique(q - w + 1, TWO_64, 0, q - w + 1);
    }
  }

  /** A slide clears one bit for every position the window moves by, and never more than the window. */
  lemma SlideWork(w: nat, st: State, q: u64)
    requires w > 0 && st.base + w < TWO_64
    ensures Slide(w, st, q).base >= st.base
    ensures Slide(w, st, q).cleared - st.cleared == Min(w, Slide(w, st, q).base - st.base)
  {
    SlideNoWrap(w, st, q);
    if q >= st.base + w {
      DivModUnique(q - w + 1 - st.base, TWO_64, 0, q - w + 1 - st.base);
    }
  }

  lemma {:induction false} SlideHolds(w: nat, st: State, xs: seq<u64>, q: u64)
    requires 0 < w <= Pow2(63) && xs != [] && Holds(w, st, xs) && MaxOf(xs) < TOP
    ensures var s := Slide(w, st, q);
            && s.base == Max(st.base, q - w + 1)
            && (forall x :: s.base <= x < s.base + w ==> (x % w in s.marks <==> x in Accepted(w, xs)))
            && s == st.(base := s.base, marks := s.marks, cleared := s.cleared)
  {
    WindowEnd(w, xs);
    SlideNoWrap(w, st, q);
    var s := Slide(w, st, q);
    forall x | s.base <= x < s.base + w
      ensures x % w in s.marks <==> x in Accepted(w, xs)
    {
      if q >= st.base + w {
        AdvanceTracks(w, st, xs, s.base, x);
      }
    }
  }

  /** With the window at the very top its end wraps to 0 and the largest word slides it nowhere. */
  lemma TopStays(w: nat, st: State)
    requires 0 < w <= Pow2(63) && st.base == TWO_64 - w
    ensures Slide(w, st, TOP) == st
  {
    Pow2Values();
    DivModUnique(TWO_64, TWO_64, 1, 0);
    DivModUnique(TOP - w + 1, TWO_64, 0, TOP - w + 1);
    DivModUnique(0, TWO_64, 0, 0);
    assert st.marks - Residues(w, st.base, st.base) == st.marks;
  }

  lemma {:induction false} MaxSnoc(xs: seq<u64>, q: u64)
    requires xs != []
    ensures MaxOf(xs + [q]) == Max(MaxOf(xs), q)
  {
    assert (xs + [q])[..|xs|] == xs;
  }

  lemma {:induction false} AcceptedSnoc(w: nat, xs: seq<u64>, q: u64)
    ensures FreshLast(w, xs + [q]) == Fresh(w, xs, q)
    ensures Accepted(w, xs + [q]) == Accepted(w, xs) + if Fresh(w, xs, q) then [q] else []
  {
    assert (xs + [q])[..|xs|] == xs;
  }

  lemma NothingMarked(w: nat, st: State)
    requires w > 0 && Holds(w, st, [])
    ensures forall x: nat :: x % w !in st.marks
  {
    forall x: nat
      ensures x % w !in st.marks
    {
      DivModUnique(x % w, w, 0, x % w);
      assert x % w !in Accepted(w, []);
    }
  }

  /** The first arrival puts the window where it belongs. */
  lemma {:induction false} FirstSlide(w: nat, st: State, q: u64)
    requires 0 < w <= Pow2(63) && Holds(w, st, [])
    ensures var s := Slide(w, Start(w, st, q), q);
            && s.started && s.base == Max(0, q - w + 1) && s.marks == st.marks
            && s == Start(w, st, q).(base := s.base, marks := s.marks, cleared := s.cleared)
  {
    Pow2Values();
    var s := Start(w, st, q);
    if q >= w {
      DivModUnique(q - w + 1, TWO_64, 0, q - w + 1);
    }
    if q == TOP {
      TopStays(w, s);
    } else {
      SlideNoWrap(w, s, q);
    }
  }

  /** After the slide the bits are those of xs in the window that ends with the new maximum. */
  lemma {:induction false} SlidInto(w: nat, st: State, xs: seq<u64>, q: u64)
    requires 0 < w <= Pow2(63) && Holds(w, st, xs) && SafeStep(w, xs, q)
    requires q >= Start(w, st, q).base
    ensures var s := Slide(w, Start(w, st, q), q);
            && s.started && s.base == Floor(w, xs + [q])
            && (forall x :: s.base <= x < s.base + w ==> (x % w in s.marks <==> x in Accepted(w, xs)))
  {
    if xs == [] {
      FirstSlide(w, st, q);
      NothingMarked(w, st);
    } else {
      MaxSnoc(xs, q);
      if MaxOf(xs) < TOP {
        SlideHolds(w, st, xs, q);
      } else {
        Pow2Values();
        TopStays(w, st);
      }
    }
  }

  lemma {:induction false} MarkTracks(w: nat, s: State, xs: seq<u64>, q: u64)
    requires w > 0 && s.base <= q < s.base + w
    requires forall x :: s.base <= x < s.base + w ==> (x % w in s.marks <==> x in Accepted(w, xs))
    ensures var (t, verdict) := Mark(w, s, q);
            && verdict == (q !in Accepted(w, xs))
            && (forall x :: s.base <= x < s.base + w ==>
                  (x % w in t.marks <==> x in Accepted(w, xs) || x == q))
            && t == s.(marks := t.marks, accepted := t.accepted, duplicates := t.duplicates)
  {
    forall x | s.base <= x < s.base + w && x != q
      ensures x % w != q % w
    {
      if x < q {
        ModApart(x, q, w);
      } else {
        ModApart(q, x, w);
      }
    }
  }

  /** Arrivals below the floor are exactly those that are too old. */
  lemma {:induction false} TooOldIff(w: nat, st: State, xs: seq<u64>, q: u64)
    requires 0 < w <= Pow2(63) && Holds(w, st, xs)
    ensures q < Start(w, st, q).base <==> !InWindow(w, xs, q)
  {
    Pow2Values();
    if xs == [] && q >= w {
      DivModUnique(q - w + 1, TWO_64, 0, q - w + 1);
    }
  }

  /** One step in the window keeps base and bits and gives the specified verdict. */
  lemma {:induction false} StepHolds(w: nat, st: State, xs: seq<u64>, q: u64)
    requires 0 < w <= Pow2(63) && Holds(w, st, xs) && SafeStep(w, xs, q)
    ensures Holds(w, Step(w, st, q).0, xs + [q])
    ensures Step(w, st, q).1 == Fresh(w, xs, q)
  {
    TooOldIff(w, st, xs, q);
    AcceptedSnoc(w, xs, q);
    if q < Start(w, st, q).base {
      assert xs != [];
      MaxSnoc(xs, q);
    } else {
      SlidInto(w, st, xs, q);
      FloorCovers(w, xs, q);
      MarkTracks(w, Slide(w, Start(w, st, q), q), xs, q);
    }
  }

  lemma FloorCovers(w: nat, xs: seq<u64>, q: u64)
    requires w > 0 && InWindow(w, xs, q)
    ensures Floor(w, xs + [q]) <= q < Floor(w, xs + [q]) + w
  {
    if xs != [] {
      MaxSnoc(xs, q);
    }
  }

  /** Every call is counted in exactly one of the three counters: `tooOld` below the base, otherwise by
      the verdict. */
  lemma StepCounts(w: nat, st: State, q: u64)
    requires w > 0
    ensures var (t, isNew) := Step(w, st, q);
            var late := q < Start(w, st, q).base;
            && t.tooOld - st.tooOld == (if late then 1 else 0)
            && t.accepted - st.accepted == (if isNew then 1 else 0)
            && t.duplicates - st.duplicates == (if late || isNew then 0 else 1)
  {
  }

  lemma {:induction false} StepCounted(w: nat, st: State, xs: seq<u64>, q: u64)
    requires 0 < w <= Pow2(63) && Holds(w, st, xs) && Counted(w, st, xs) && Step(w, st, q).1 == Fresh(w, xs, q)
    ensures Counted(w, Step(w, st, q).0, xs + [q])
  {
    StepCounts(w, st, q);
    TooOldIff(w, st, xs, q);
    CallsSnoc(w, xs, q);
    AcceptedSnoc(w, xs, q);
  }

  /** One step, unless the number is one that the wrapped end of the window mishandles: the verdict and
      the new state are the specified ones. */
  lemma {:induction false} StepTracks(w: nat, st: State, xs: seq<u64>, q: u64)
    requires 0 < w <= Pow2(63) && Tracks(w, st, xs) && SafeStep(w, xs, q)
    ensures Tracks(w, Step(w, st, q).0, xs + [q])
    ensures Step(w, st, q).1 == Fresh(w, xs, q) == FreshLast(w, xs + [q])
  {
    StepHolds(w, st, xs, q);
    StepCounted(w, st, xs, q);
    AcceptedSnoc(w, xs, q);
  }

  lemma RunSnoc(w: nat, xs: seq<u64>, q: u64)
    requires w > 0
    ensures Run(w, xs + [q]) == Step(w, Run(w, xs), q).0
    ensures LastVerdict(w, xs + [q]) == Step(w, Run(w, xs), q).1
  {
    assert (xs + [q])[..|xs|] == xs;
  }

  lemma {:induction false} SafeSnoc(w: nat, xs: seq<u64>, q: u64)
    ensures SafeRun(w, xs + [q]) <==> SafeRun(w, xs) && SafeStep(w, xs, q)
  {
    var ys := xs + [q];
    if SafeRun(w, ys) {
      forall i, j | 0 <= i < j < |xs| && xs[i] == TOP
        ensures xs[j] == TOP || xs[j] + w < TWO_64
      {
        assert ys[i] == xs[i] && ys[j] == xs[j];
      }
      if TOP in xs {
        var i :| 0 <= i < |xs| && xs[i] == TOP;
        assert ys[i] == TOP && ys[|xs|] == q;
      }
    }
  }

  /** Every run without a number of the topmost window after the largest word; in particular every run
      that avoids the largest word. */
  lemma {:induction false} RunTracks(w: nat, xs: seq<u64>)
    requires 0 < w <= Pow2(63) && SafeRun(w, xs)
    ensures Tracks(w, Run(w, xs), xs)
    ensures Agrees(w, xs)
  {
    if xs != [] {
      var ys, q := xs[..|xs| - 1], xs[|xs| - 1];
      assert xs == ys + [q];
      SafeSnoc(w, ys, q);
      RunTracks(w, ys);
      StepTracks(w, Run(w, ys), ys, q);
      RunSnoc(w, ys, q);
      AgreesSnoc(w, ys, q);
    }
  }

  lemma BelowSafe(w: nat, xs: seq<u64>)
    requires TOP !in xs
    ensures SafeRun(w, xs)
  {
  }

  lemma RunHolds(w: nat, xs: seq<u64>)
    requires 0 < w <= Pow2(63) && TOP !in xs
    ensures Holds(w, Run(w, xs), xs) && (xs != [] ==> MaxOf(xs) < TOP)
  {
    BelowSafe(w, xs);
    RunTracks(w, xs);
  }

  lemma AgreesSnoc(w: nat, xs: seq<u64>, q: u64)
    requires w > 0 && Agrees(w, xs) && LastVerdict(w, xs + [q]) == FreshLast(w, xs + [q])
    ensures Agrees(w, xs + [q])
  {
    var ys := xs + [q];
    forall n | 0 < n <= |ys|
      ensures LastVerdict(w, ys[..n]) == FreshLast(w, ys[..n])
    {
      assert ys[..n] == if n == |ys| then ys else xs[..n];
    }
  }
}
