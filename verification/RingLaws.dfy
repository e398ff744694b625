/** What every finished read of the interleaved ring guarantees, which results are possible at all, and
    exactly when reads are exact. */
module RingLaws {
  import opened Words
  import opened RingSpec
  import opened RingProtocol
  import opened RingInvariant

  ghost predicate Finished(s: State, k: nat, r: nat, result: ReadResult, at: Snapshot) {
    Reachable(s) && k < |s.readers| && Finish(r, result, at) in s.readers[k].past
  }

  // ---- Guarantees of a finished read ----

  lemma {:induction false} FinishedVerdict(s: State, k: nat, r: nat, result: ReadResult, at: Snapshot)
    requires Finished(s, k, r, result, at)
    ensures Inv(s) && Capped(s.log) && Verdict(s, Finish(r, result, at))
  {
    ReachableInv(s);
    var past := s.readers[k].past;
    assert ReaderOk(s, s.readers[k]);
    var i :| 0 <= i < |past| && past[i] == Finish(r, result, at);
  }

  /** A successful read of r has the length of frame r or of the frame that overwrites it; each byte is
      the overwriting frame's or what frame r left at that offset: its own byte or, beyond its end, an
      older one.  If the overwriting publication had not begun by the re-check, the read is exactly
      frame r. */
  lemma {:induction false} OkSound(s: State, k: nat, r: nat, f: Frame, at: Snapshot)
    requires Finished(s, k, r, Ok(f), at)
    ensures Blank(s.n, s.blank) && r < at.stored <= |s.log| && at.begun <= |s.log| && |f| <= FRAME_CAP
    ensures LenFrom(s, r, |f|, at.begun)
    ensures forall o :: 0 <= o < |f| ==> ByteFrom(s, r, o, f[o], at.begun)
    ensures at.begun <= r + s.n ==> f == s.log[r]
  {
    FinishedVerdict(s, k, r, Ok(f), at);
    if at.begun <= r + s.n {
      assert forall o :: 0 <= o < |f| ==> ByteFrom(s, r, o, f[o], at.begun);
    }
  }

  /** A lapped reader is never sent backwards.  It is sent nowhere exactly when the write index still
      points at the frame that overwrote it, which happens only between the producer's two stores. */
  lemma {:induction false} ResumeForward(s: State, k: nat, r: nat, p: nat, at: Snapshot)
    requires Finished(s, k, r, Lapped(p), at)
    ensures p >= r && p <= at.edge
    ensures p == r <==> at.edge == r + s.n
    ensures p == r ==> at.stored == at.edge + 1
  {
    FinishedVerdict(s, k, r, Lapped(p), at);
  }

  /** The log as it stood at some moment between the two stores around the read's last load. */
  ghost predicate TakesEffect(s: State, r: nat, result: ReadResult, at: Snapshot) {
    exists m :: at.edge <= m <= at.stored && m <= |s.log| && result == LogRead(s.log[..m], s.n, r)
  }

  /** An untorn read takes effect at its last load, on the frames stored or the frames the write index
      shows by then, iff it does not send a lapped reader nowhere.  With no publication between its two
      stores it takes effect on exactly the frames stored. */
  lemma {:induction false} Linearizable(s: State, k: nat, r: nat, result: ReadResult, at: Snapshot)
    requires Finished(s, k, r, result, at)
    requires result.Ok? ==> at.begun <= r + s.n
    ensures TakesEffect(s, r, result, at) <==> result != Lapped(r)
    ensures at.stored <= |s.log|
    ensures (result.Lapped? ==> at.stored == at.edge) ==> result == LogRead(s.log[..at.stored], s.n, r)
  {
    FinishedVerdict(s, k, r, result, at);
    match result
    case Ok(f) =>
      OkSound(s, k, r, f, at);
      assert result == LogRead(s.log[..at.stored], s.n, r);
    case Empty =>
      assert result == LogRead(s.log[..at.stored], s.n, r);
    case Lapped(p) =>
      if r + s.n < at.edge {
        assert result == LogRead(s.log[..at.edge], s.n, r);
      }
  }

  /** Every read of the interleaved ring, torn ones included, keeps a reader's books in order. */
  lemma {:induction false} FinishedInPlace(s: State, k: nat, r: nat, result: ReadResult, at: Snapshot)
    requires Finished(s, k, r, result, at)
    ensures InPlace(s.log, r, result)
  {
    match result
    case Ok(f) => OkSound(s, k, r, f, at);
    case Empty =>
    case Lapped(p) => ResumeForward(s, k, r, p, at);
  }

  /** Between publications the memory is exactly a state of the ring whose operations are single steps. */
  lemma {:induction false} IdleIsAtomic(s: State, j: nat)
    requires Reachable(s) && s.producer == Idle && j < s.n
    ensures Sized(s) && s.edge == |s.log| && SlotHolds(s.slots[j], j, s.n, s.log)
  {
    ReachableInv(s);
    assert Content(s, j) && Placed(s.slots[j].seqNo, j, s.n, Stored(s));
    var slot := s.slots[j];
    if slot.seqNo > 0 {
      var f := s.log[slot.seqNo - 1];
      forall o | 0 <= o < |f|
        ensures slot.bytes[o] == f[o]
      {
        assert slot.bytes[o] == Held(s, j, slot.seqNo, o);
      }
      assert slot.bytes[..slot.len] == f;
    }
  }

  // ---- Reaching states ----

  lemma {:induction false} ReachStep(s: State, a: Action)
    requires Reachable(s) && Sized(s) && Enabled(s, a)
    ensures Reachable(Apply(s, a)) && Sized(Apply(s, a))
  {
    var s0: State, acts: seq<Action> :| Init(s0) && Execution(s0, acts, s);
    var more := acts + [a];
    assert more[..|more| - 1] == acts && more[|more| - 1] == a;
    assert Execution(s0, more, Apply(s, a));
    assert Reachable(Apply(s, a));
    ReachableInv(Apply(s, a));
  }

  /** A state of this ring with one reader and no publication under way. */
  ghost predicate Ready(s: State, n: nat, blank: seq<Slot>, log: seq<Frame>, rd: Reader) {
    && Reachable(s) && Sized(s) && s.n == n && s.blank == blank
    && s.producer == Idle && s.log == log && s.readers == [rd]
  }

  /** The same in the middle of publishing the last frame, with its length and the offsets `copied`
      already written. */
  ghost predicate InFlight(s: State, n: nat, blank: seq<Slot>, log: seq<Frame>, copied: set<nat>, rd: Reader)
    requires log != []
  {
    && Reachable(s) && Sized(s) && s.n == n && s.blank == blank
    && s.producer == Writing(log[|log| - 1], true, copied) && s.log == log && s.readers == [rd]
  }

  function Offsets(m: nat): (r: set<nat>)
    ensures forall o :: o in r <==> 0 <= o < m
  {
    if m == 0 then {} else Offsets(m - 1) + {m - 1}
  }

  lemma {:induction false} StartWriting(s: State, n: nat, blank: seq<Slot>, log: seq<Frame>, f: Frame, rd: Reader)
    returns (t: State)
    requires Ready(s, n, blank, log, rd) && |f| <= FRAME_CAP
    ensures InFlight(t, n, blank, log + [f], {}, rd)
  {
    ReachStep(s, Begin(f));
    var s1 := Apply(s, Begin(f));
    ReachStep(s1, WriteLen);
    t := Apply(s1, WriteLen);
  }

  /** The producer copies the whole frame before any reader moves. */
  lemma {:induction false} CopyAll(s: State, n: nat, blank: seq<Slot>, log: seq<Frame>, m: nat, rd: Reader)
    returns (t: State)
    requires log != [] && m <= |log[|log| - 1]| <= FRAME_CAP && InFlight(s, n, blank, log, Offsets(m), rd)
    ensures InFlight(t, n, blank, log, Offsets(|log[|log| - 1]|), rd)
    decreases |log[|log| - 1]| - m
  {
    if m == |log[|log| - 1]| {
      t := s;
    } else {
      ReachStep(s, WriteByte(m));
      t := CopyAll(Apply(s, WriteByte(m)), n, blank, log, m + 1, rd);
    }
  }

  lemma {:induction false} StoreBoth(s: State, n: nat, blank: seq<Slot>, log: seq<Frame>, rd: Reader)
    returns (t: State)
    requires log != [] && InFlight(s, n, blank, log, Offsets(|log[|log| - 1]|), rd)
    ensures Ready(t, n, blank, log, rd)
  {
    ReachStep(s, StoreSeq);
    var s1 := Apply(s, StoreSeq);
    ReachStep(s1, StoreEdge);
    t := Apply(s1, StoreEdge);
  }

  /** Any frames can be published one after the other while the reader rests. */
  lemma {:induction false} PublishAll(n: nat, blank: seq<Slot>, log: seq<Frame>) returns (t: State)
    requires Blank(n, blank) && Capped(log)
    ensures Ready(t, n, blank, log, Reader(Resting, []))
    decreases |log|
  {
    var rd := Reader(Resting, []);
    if log == [] {
      t := State(n, blank, blank, 0, Idle, [], [rd]);
      assert Init(t) && Execution(t, [], t);
    } else {
      var m := |log| - 1;
      assert log == log[..m] + [log[m]];
      var s := PublishAll(n, blank, log[..m]);
      s := StartWriting(s, n, blank, log[..m], log[m], rd);
      s := CopyAll(s, n, blank, log, 0, rd);
      t := StoreBoth(s, n, blank, log, rd);
    }
  }

  /** What a reader that expects f at r knows of it so far. */
  predicate Collecting(rd: Reader, past: seq<Finish>, r: nat, f: Frame) {
    && rd.past == past && rd.stage.Copying? && rd.stage.r == r && rd.stage.len == |f|
    && forall o :: o in rd.stage.out ==> o < |f| && rd.stage.out[o] == f[o]
  }

  /** From offset m on, a reader can pick up all bytes of its slot that are f's, and no others. */
  lemma {:induction false} LoadMatching(s: State, past: seq<Finish>, r: nat, f: Frame, m: nat) returns (t: State)
    requires Reachable(s) && Sized(s) && m <= |f| <= FRAME_CAP && |s.readers| == 1
    requires Collecting(s.readers[0], past, r, f)
    ensures Reachable(t) && Sized(t) && t == s.(readers := t.readers) && |t.readers| == 1
    ensures Collecting(t.readers[0], past, r, f)
    ensures forall o :: o in s.readers[0].stage.out ==> o in t.readers[0].stage.out
    ensures forall o :: m <= o < |f| && s.slots[r % s.n].bytes[o] == f[o] ==> o in t.readers[0].stage.out
    decreases |f| - m
  {
    if m == |f| {
      t := s;
    } else if m in s.readers[0].stage.out || s.slots[r % s.n].bytes[m] != f[m] {
      t := LoadMatching(s, past, r, f, m + 1);
    } else {
      ReachStep(s, LoadByte(0, m));
      t := LoadMatching(Apply(s, LoadByte(0, m)), past, r, f, m + 1);
    }
  }

  /** With all bytes of f collected, the read of r succeeds while r's number still stands. */
  lemma {:induction false} Conclude(s: State, past: seq<Finish>, r: nat, f: Frame) returns (t: State, at: Snapshot)
    requires Reachable(s) && Sized(s) && |s.readers| == 1 && Collecting(s.readers[0], past, r, f)
    requires forall o: nat :: o < |f| ==> o in s.readers[0].stage.out
    requires r < Stored(s) <= r + s.n
    ensures Reachable(t) && Sized(t) && t == s.(readers := [Reader(Resting, past + [Finish(r, Ok(f), at)])])
    ensures at == Now(s)
  {
    ReachableInv(s);
    PlacedTells(s.slots[r % s.n].seqNo, s.n, Stored(s), r);
    ReachStep(s, Recheck(0));
    t, at := Apply(s, Recheck(0)), Now(s);
    assert Collect(|f|, s.readers[0].stage.out) == f;
  }

  /** A reader passes its first check of a position that can still be read. */
  lemma {:induction false} FirstCheck(s: State, n: nat, blank: seq<Slot>, log: seq<Frame>, past: seq<Finish>, r: nat)
    returns (t: State)
    requires Ready(s, n, blank, log, Reader(Resting, past)) && r < |log| <= r + n
    ensures Ready(t, n, blank, log, Reader(WantLen(r), past))
  {
    ReachableInv(s);
    PlacedTells(s.slots[r % n].seqNo, n, Stored(s), r);
    ReachStep(s, LoadSeq(0, r));
    t := Apply(s, LoadSeq(0, r));
  }

  /** While nothing is being published, a read of any of the last n positions returns its frame. */
  lemma {:induction false} QuietRead(s: State, n: nat, blank: seq<Slot>, log: seq<Frame>, past: seq<Finish>, r: nat)
    returns (t: State, at: Snapshot)
    requires Ready(s, n, blank, log, Reader(Resting, past)) && r < |log| <= r + n
    ensures Ready(t, n, blank, log, Reader(Resting, past + [Finish(r, Ok(log[r]), at)]))
    ensures at == Snapshot(|log|, |log|, |log|)
  {
    IdleIsAtomic(s, r % n);
    PlacedTells(s.slots[r % n].seqNo, n, |log|, r);
    var s1 := FirstCheck(s, n, blank, log, past, r);
    IdleIsAtomic(s1, r % n);
    PlacedTells(s1.slots[r % n].seqNo, n, |log|, r);
    ReachStep(s1, LoadLen(0));
    var s2 := Apply(s1, LoadLen(0));
    var slot := s2.slots[r % n];
    assert slot.bytes[..slot.len] == log[r];
    var s3 := LoadMatching(s2, past, r, log[r], 0);
    t, at := Conclude(s3, past, r, log[r]);
  }

  /** What the slot's number tells in any state. */
  lemma {:induction false} NumberTells(s: State, r: nat)
    requires Reachable(s)
    ensures Sized(s) && |s.log| == s.edge + (if s.producer == Idle then 0 else 1)
    ensures var seqNo := s.slots[r % s.n].seqNo;
            && (seqNo < r + 1 <==> Stored(s) <= r)
            && (seqNo == r + 1 <==> r < Stored(s) <= r + s.n)
            && (seqNo > r + 1 <==> r + s.n < Stored(s))
  {
    ReachableInv(s);
    PlacedTells(s.slots[r % s.n].seqNo, s.n, Stored(s), r);
  }

  /** While nothing is being published, the reader's own steps finish a read of any position with the
      log's answer: empty at or past the edge, the frame among the last n, else lapped to n behind the
      edge. */
  lemma {:induction false} QuietResult(s: State, n: nat, blank: seq<Slot>, log: seq<Frame>, past: seq<Finish>, r: nat)
    returns (t: State, result: ReadResult, at: Snapshot)
    requires Ready(s, n, blank, log, Reader(Resting, past))
    ensures Ready(t, n, blank, log, Reader(Resting, past + [Finish(r, result, at)]))
    ensures at == Snapshot(|log|, |log|, |log|) && result == LogRead(log, n, r)
    ensures r >= |log| ==> result == Empty
    ensures r < |log| <= r + n ==> result == Ok(log[r])
    ensures r + n < |log| ==> result == Lapped(|log| - n)
  {
    result := LogRead(log, n, r);
    if r < |log| <= r + n {
      t, at := QuietRead(s, n, blank, log, past, r);
    } else if r + n < |log| {
      t, at := QuietLapped(s, n, blank, log, past, r);
    } else {
      NumberTells(s, r);
      ReachStep(s, LoadSeq(0, r));
      t, at := Apply(s, LoadSeq(0, r)), Now(s);
    }
  }

  lemma {:induction false} QuietLapped(s: State, n: nat, blank: seq<Slot>, log: seq<Frame>, past: seq<Finish>, r: nat)
    returns (t: State, at: Snapshot)
    requires Ready(s, n, blank, log, Reader(Resting, past)) && r + n < |log|
    ensures Ready(t, n, blank, log, Reader(Resting, past + [Finish(r, Lapped(|log| - n), at)]))
    ensures at == Snapshot(|log|, |log|, |log|)
  {
    var s1 := PassedBy(s, n, blank, log, past, r);
    NumberTells(s1, r);
    ResumeIs(s1.edge, n, |log| - n);
    t, at := LoadIndex(s1, r, past);
  }

  lemma {:induction false} PassedBy(s: State, n: nat, blank: seq<Slot>, log: seq<Frame>, past: seq<Finish>, r: nat)
    returns (t: State)
    requires Ready(s, n, blank, log, Reader(Resting, past)) && r + n < |log|
    ensures Ready(t, n, blank, log, Reader(WantEdge(r), past))
  {
    NumberTells(s, r);
    ReachStep(s, LoadSeq(0, r));
    t := Apply(s, LoadSeq(0, r));
  }

  lemma ResumeIs(edge: nat, n: nat, p: nat)
    requires edge == p + n
    ensures Resume(edge, n) == p
  {
  }

  lemma {:induction false} LoadIndex(s: State, r: nat, past: seq<Finish>) returns (t: State, at: Snapshot)
    requires Reachable(s) && Sized(s) && s.readers == [Reader(WantEdge(r), past)]
    ensures Reachable(t) && Sized(t) && at == Now(s)
    ensures t == s.(readers := [Reader(Resting, past + [Finish(r, Lapped(Resume(s.edge, s.n)), at)])])
  {
    ReachStep(s, LoadEdge(0));
    t, at := Apply(s, LoadEdge(0)), Now(s);
  }

  // ---- Every read returns ----

  predicate OwnStep(s: State, k: nat, a: Action)
    requires Sized(s)
  {
    !Moves(a) && a.k == k && Enabled(s, a)
  }

  /** The position under way. */
  function Position(stage: Stage): nat
    requires !stage.Resting?
  {
    stage.r
  }

  /** The reader is still at r, or has returned a result for r. */
  predicate GoesOn(before: Reader, after: Reader, r: nat) {
    if after.stage.Resting? then
      |after.past| == |before.past| + 1 && before.past <= after.past && after.past[|before.past|].r == r
    else after.past == before.past && Position(after.stage) == r
  }

  /** No step of a read drops it: it stays at its position until it returns a result for it. */
  lemma {:induction false} NeverForgets(s: State, k: nat, a: Action)
    requires Reachable(s) && Sized(s) && OwnStep(s, k, a)
    ensures k < |s.readers| == |Apply(s, a).readers|
    ensures GoesOn(s.readers[k], Apply(s, a).readers[k],
                   if a.LoadSeq? then a.r else Position(s.readers[k].stage))
  {
  }

  /** How many of its own steps a read can still take. */
  function StepsLeft(stage: Stage): int {
    match stage
    case Resting => 0
    case WantEdge(_) => 1
    case Copying(_, len, out) => 2 + len - |out|
    case WantLen(_) => 3 + FRAME_CAP
  }

  lemma {:induction false} KeysFewer(out: map<nat, byte>, len: nat)
    requires forall o :: o in out ==> o < len
    ensures |out| <= len
    ensures |out| == len ==> forall o: nat :: o < len ==> o in out
  {
    OffsetsCount(len);
    assert out.Keys <= Offsets(len);
    SubsetCount(out.Keys, Offsets(len));
  }

  lemma {:induction false} OffsetsCount(m: nat)
    ensures |Offsets(m)| == m
  {
    if m > 0 {
      OffsetsCount(m - 1);
    }
  }

  lemma {:induction false} SubsetCount(a: set<nat>, b: set<nat>)
    requires a <= b
    ensures |a| <= |b| && (|a| == |b| ==> a == b)
  {
    assert |b| == |a| + |b - a| by {
      assert b == a + (b - a);
    }
    if |b - a| == 0 {
      assert b - a == {};
    }
  }

  /** Reads are wait-free: whatever the producer and other readers do in between, a read under way can
      always take a step, and after at most FRAME_CAP + 3 of them it has returned. */
  lemma {:induction false} WaitFree(s: State, k: nat)
    requires Reachable(s) && k < |s.readers| && !s.readers[k].stage.Resting?
    ensures Sized(s) && 0 < StepsLeft(s.readers[k].stage) <= FRAME_CAP + 3
    ensures exists a :: OwnStep(s, k, a)
    ensures forall a :: OwnStep(s, k, a) ==>
              k < |Apply(s, a).readers| && StepsLeft(Apply(s, a).readers[k].stage) < StepsLeft(s.readers[k].stage)
  {
    ReachableInv(s);
    var stage := s.readers[k].stage;
    assert ReaderOk(s, s.readers[k]);
    if stage.Copying? {
      KeysFewer(stage.out, stage.len);
      if o: nat :| o < stage.len && o !in stage.out {
        assert OwnStep(s, k, LoadByte(k, o));
      } else {
        assert OwnStep(s, k, Recheck(k));
      }
    } else if stage.WantLen? {
      assert OwnStep(s, k, LoadLen(k));
    } else {
      assert OwnStep(s, k, LoadEdge(k));
    }
    forall a | OwnStep(s, k, a)
      ensures k < |Apply(s, a).readers| && StepsLeft(Apply(s, a).readers[k].stage) < StepsLeft(stage)
    {
      if a.LoadLen? {
        LenFits(s, stage.r);
      }
    }
  }

  // ---- Exactly which results are possible ----

  /** What successful reads of r can return: the length of frame r or of the frame that overwrites it,
      and at each offset what r left there or the overwriting frame's byte. */
  predicate Mixture(n: nat, blank: seq<Slot>, log: seq<Frame>, r: nat, f: Frame)
    requires Blank(n, blank) && r < |log| && Capped(log)
  {
    && (|f| == |log[r]| || (r + n < |log| && |f| == |log[r + n]|))
    && forall o :: 0 <= o < |f| ==>
         || f[o] == Leftover(n, blank, log, r, o)
         || (r + n < |log| && o < |log[r + n]| && f[o] == log[r + n][o])
  }

  /** A reader past its first check of r can load the length before the producer stores that of frame
      r+n. */
  lemma {:induction false} OldLength(s: State, n: nat, blank: seq<Slot>, log: seq<Frame>, g: Frame,
                                     past: seq<Finish>, r: nat) returns (t: State)
    requires Ready(s, n, blank, log, Reader(WantLen(r), past)) && |log| == r + n && |g| <= FRAME_CAP
    ensures InFlight(t, n, blank, log + [g], {}, Reader(Copying(r, |log[r]|, map[]), past))
  {
    IdleIsAtomic(s, r % n);
    PlacedTells(s.slots[r % n].seqNo, n, |log|, r);
    ReachStep(s, LoadLen(0));
    var s1 := Apply(s, LoadLen(0));
    t := StartWriting(s1, n, blank, log, g, Reader(Copying(r, |log[r]|, map[]), past));
  }

  /** It can also load it afterwards. */
  lemma {:induction false} NewLength(s: State, n: nat, blank: seq<Slot>, log: seq<Frame>, g: Frame,
                                     past: seq<Finish>, r: nat) returns (t: State)
    requires Ready(s, n, blank, log, Reader(WantLen(r), past)) && |log| == r + n && |g| <= FRAME_CAP
    ensures InFlight(t, n, blank, log + [g], {}, Reader(Copying(r, |g|, map[]), past))
  {
    var s1 := StartWriting(s, n, blank, log, g, Reader(WantLen(r), past));
    ReachableInv(s1);
    ModShift(r, n);
    assert Busy(s1, r % n) && Content(s1, r % n);
    ReachStep(s1, LoadLen(0));
    t := Apply(s1, LoadLen(0));
  }

  /** Before the producer has copied anything the slot of r holds what r left; afterwards, frame r+n. */
  lemma {:induction false} FlightBytes(s: State, n: nat, blank: seq<Slot>, log: seq<Frame>, rd: Reader,
                                       r: nat, all: bool)
    requires log != [] && |log| == r + n + 1 && Capped(log)
    requires InFlight(s, n, blank, log, if all then Offsets(|log[r + n]|) else {}, rd)
    ensures r < Stored(s) <= r + n
    ensures !all ==> forall o :: 0 <= o < FRAME_CAP ==> s.slots[r % n].bytes[o] == Leftover(n, blank, log, r, o)
    ensures all ==> forall o :: 0 <= o < |log[r + n]| ==> s.slots[r % n].bytes[o] == log[r + n][o]
  {
    ReachableInv(s);
    ModShift(r, n);
    SlotOfReader(s, r);
    assert Content(s, r % n);
    if all {
      assert forall o: nat :: o < |log[r + n]| ==> o in Fresh(s, r % n);
    }
  }

  /** Of a mixture the reader picks up what r left before the producer copies, and the rest afterwards. */
  lemma {:induction false} CollectMixture(s: State, n: nat, blank: seq<Slot>, log: seq<Frame>,
                                          past: seq<Finish>, r: nat, f: Frame) returns (t: State)
    requires Blank(n, blank) && |log| == r + n + 1 && Capped(log) && Mixture(n, blank, log, r, f)
    requires InFlight(s, n, blank, log, {}, Reader(Copying(r, |f|, map[]), past))
    ensures |t.readers| == 1 && InFlight(t, n, blank, log, Offsets(|log[r + n]|), t.readers[0])
    ensures Collecting(t.readers[0], past, r, f)
    ensures forall o: nat :: o < |f| ==> o in t.readers[0].stage.out
  {
    FlightBytes(s, n, blank, log, s.readers[0], r, false);
    var s1 := LoadMatching(s, past, r, f, 0);
    assert s1.readers == [s1.readers[0]];
    var s2 := CopyAll(s1, n, blank, log, 0, s1.readers[0]);
    FlightBytes(s2, n, blank, log, s2.readers[0], r, true);
    t := LoadMatching(s2, past, r, f, 0);
    assert t.readers == [t.readers[0]];
  }

  /** A reader past its first check of r can watch the producer write frame r+n and return any mixture
      as frame r. */
  lemma {:induction false} MixedRead(n: nat, blank: seq<Slot>, log: seq<Frame>, r: nat, f: Frame)
    returns (t: State, at: Snapshot)
    requires Blank(n, blank) && |log| == r + n + 1 && Capped(log) && Mixture(n, blank, log, r, f)
    ensures InFlight(t, n, blank, log, Offsets(|log[r + n]|), Reader(Resting, [Finish(r, Ok(f), at)]))
  {
    var before, g := log[..r + n], log[r + n];
    assert log == before + [g];
    var s := PublishAll(n, blank, before);
    s := FirstCheck(s, n, blank, before, [], r);
    if |f| == |log[r]| {
      s := OldLength(s, n, blank, before, g, [], r);
    } else {
      s := NewLength(s, n, blank, before, g, [], r);
    }
    s := CollectMixture(s, n, blank, log, [], r, f);
    FlightBytes(s, n, blank, log, s.readers[0], r, true);
    t, at := Conclude(s, [], r, f);
    assert [] + [Finish(r, Ok(f), at)] == [Finish(r, Ok(f), at)];
  }

  /** A read whose re-check fails returns lapped, to n behind the write index it then loads: past the
      overwritten position once both stores of the overwriting publication are done, and to that same
      position between the two. */
  lemma {:induction false} OverwrittenRead(n: nat, blank: seq<Slot>, log: seq<Frame>, r: nat, both: bool)
    returns (t: State, at: Snapshot)
    requires Blank(n, blank) && |log| == r + n + 1 && Capped(log)
    ensures Finished(t, 0, r, Lapped(if both then r + 1 else r), at) && t.n == n && t.blank == blank && t.log == log
    ensures at == Snapshot(|log|, |log|, if both then |log| else |log| - 1)
    ensures if both then r + 1 == |log| - n else r == |log| - 1 - n
  {
    var before, g := log[..r + n], log[r + n];
    assert log == before + [g];
    var s := PublishAll(n, blank, before);
    s := FirstCheck(s, n, blank, before, [], r);
    s := OldLength(s, n, blank, before, g, [], r);
    FlightBytes(s, n, blank, log, s.readers[0], r, false);
    s := LoadMatching(s, [], r, log[r], 0);
    t, at := RecheckFails(s, n, blank, log, r, both);
  }

  lemma {:induction false} RecheckFails(s: State, n: nat, blank: seq<Slot>, log: seq<Frame>, r: nat, both: bool)
    returns (t: State, at: Snapshot)
    requires n > 0 && |log| == r + n + 1 && Capped(log) && |s.readers| == 1
    requires InFlight(s, n, blank, log, {}, s.readers[0]) && Collecting(s.readers[0], [], r, log[r])
    requires forall o: nat :: o < |log[r]| ==> o in s.readers[0].stage.out
    ensures Finished(t, 0, r, Lapped(if both then r + 1 else r), at) && t.n == n && t.blank == blank && t.log == log
    ensures at == Snapshot(|log|, |log|, if both then |log| else |log| - 1)
  {
    var rd := s.readers[0];
    var u := CopyAll(s, n, blank, log, 0, rd);
    if both {
      u := StoreBoth(u, n, blank, log, rd);
    } else {
      u := StoreNumber(u, n, blank, log, rd);
    }
    NumberTells(u, r);
    ResumeIs(u.edge, n, if both then r + 1 else r);
    t, at := LateRecheck(u, r, log[r]);
  }

  lemma {:induction false} StoreNumber(s: State, n: nat, blank: seq<Slot>, log: seq<Frame>, rd: Reader)
    returns (t: State)
    requires log != [] && InFlight(s, n, blank, log, Offsets(|log[|log| - 1]|), rd)
    ensures Reachable(t) && Sized(t) && t.n == n && t.blank == blank && t.log == log && t.readers == [rd]
    ensures t.producer == SeqStored
  {
    ReachStep(s, StoreSeq);
    t := Apply(s, StoreSeq);
  }

  /** After the overwriting number has been stored the re-check fails and the write index is loaded. */
  lemma {:induction false} LateRecheck(s: State, r: nat, f: Frame) returns (t: State, at: Snapshot)
    requires Reachable(s) && |s.readers| == 1 && Collecting(s.readers[0], [], r, f) && r + s.n < Stored(s)
    requires forall o: nat :: o < |f| ==> o in s.readers[0].stage.out
    ensures Finished(t, 0, r, Lapped(Resume(s.edge, s.n)), at) && at == Now(s) && t == s.(readers := t.readers)
  {
    NumberTells(s, r);
    ReachStep(s, Recheck(0));
    var s1 := Apply(s, Recheck(0));
    assert s1 == s.(readers := [Reader(WantEdge(r), [])]);
    t, at := LoadIndex(s1, r, []);
    assert t.readers[0].past[0] == Finish(r, Lapped(Resume(s.edge, s.n)), at);
  }

  ghost predicate Possible(n: nat, blank: seq<Slot>, log: seq<Frame>, r: nat, f: Frame) {
    exists s: State, k: nat, at: Snapshot ::
      Finished(s, k, r, Ok(f), at) && s.n == n && s.blank == blank && s.log <= log
  }

  /** In interleavings that publish frames of `log`, the results of successful reads of r are exactly the
      mixtures. */
  lemma {:induction false} PossibleIff(n: nat, blank: seq<Slot>, log: seq<Frame>, r: nat, f: Frame)
    requires Blank(n, blank) && r < |log| && Capped(log)
    ensures Possible(n, blank, log, r, f) <==> Mixture(n, blank, log, r, f)
  {
    if Possible(n, blank, log, r, f) {
      var s: State, k: nat, at: Snapshot :|
        Finished(s, k, r, Ok(f), at) && s.n == n && s.blank == blank && s.log <= log;
      PossibleMixes(s, k, r, f, at, log);
    }
    if Mixture(n, blank, log, r, f) {
      if r + n < |log| {
        var shorter := log[..r + n + 1];
        MixtureShorter(n, blank, log, shorter, r, f);
        var s, at := MixedRead(n, blank, shorter, r, f);
        assert Finished(s, 0, r, Ok(f), at) && s.log <= log;
      } else {
        assert f == log[r];
        var s := PublishAll(n, blank, log);
        var t, at := QuietRead(s, n, blank, log, [], r);
        assert Finished(t, 0, r, Ok(f), at);
      }
    }
  }

  lemma {:induction false} PossibleMixes(s: State, k: nat, r: nat, f: Frame, at: Snapshot, log: seq<Frame>)
    requires Finished(s, k, r, Ok(f), at) && Blank(s.n, s.blank) && s.log <= log && Capped(log)
    ensures r < |log| && Mixture(s.n, s.blank, log, r, f)
  {
    OkSound(s, k, r, f, at);
    forall o | 0 <= o < |f|
      ensures || f[o] == Leftover(s.n, s.blank, log, r, o)
              || (r + s.n < |log| && o < |log[r + s.n]| && f[o] == log[r + s.n][o])
    {
      assert ByteFrom(s, r, o, f[o], at.begun);
      LeftoverGrows(s.n, s.blank, s.log, log, r, o);
    }
  }

  lemma {:induction false} MixtureShorter(n: nat, blank: seq<Slot>, log: seq<Frame>, shorter: seq<Frame>,
                                          r: nat, f: Frame)
    requires Blank(n, blank) && Capped(log) && shorter <= log && r + n < |shorter| && Mixture(n, blank, log, r, f)
    ensures Capped(shorter) && Mixture(n, blank, shorter, r, f)
  {
    forall o | 0 <= o < |f|
      ensures Leftover(n, blank, shorter, r, o) == Leftover(n, blank, log, r, o)
    {
      LeftoverGrows(n, blank, shorter, log, r, o);
    }
  }

  // ---- Exactly when reads are exact ----

  /** Every successful read of r, in every interleaving that publishes a prefix of `log`, returns frame r. */
  ghost predicate AlwaysExact(n: nat, r: nat, log: seq<Frame>)
    requires r < |log|
  {
    forall s: State, k: nat, f: Frame, at: Snapshot ::
      Finished(s, k, r, Ok(f), at) && s.n == n && s.log <= log ==> f == log[r]
  }

  function Filled(n: nat, b: byte): (blank: seq<Slot>)
    requires n > 0
    ensures Blank(n, blank) && forall j, o :: 0 <= j < n && 0 <= o < FRAME_CAP ==> blank[j].bytes[o] == b
  {
    seq(n, _ => Slot(0, 0, seq(FRAME_CAP, _ => b)))
  }

  /** Reads of r are exact in every interleaving iff the frame that overwrites it is never published or
      does not differ from it. */
  lemma {:induction false} ExactIff(n: nat, r: nat, log: seq<Frame>)
    requires n > 0 && r < |log| && Capped(log)
    ensures AlwaysExact(n, r, log) <==> (|log| <= r + n || log[r + n] == log[r])
  {
    if |log| <= r + n || log[r + n] == log[r] {
      forall s: State, k: nat, f: Frame, at: Snapshot |
        Finished(s, k, r, Ok(f), at) && s.n == n && s.log <= log
        ensures f == log[r]
      {
        OkSound(s, k, r, f, at);
        PossibleMixes(s, k, r, f, at, log);
      }
    } else {
      assert Mixture(n, Filled(n, 0), log, r, log[r + n]);
      PossibleIff(n, Filled(n, 0), log, r, log[r + n]);
    }
  }

  /** Byte o of f is frame r's or frame r+n's at that offset. */
  predicate OfEither(n: nat, r: nat, log: seq<Frame>, f: Frame, o: nat)
    requires r < |log| && o < |f|
  {
    || (o < |log[r]| && f[o] == log[r][o])
    || (r + n < |log| && o < |log[r + n]| && f[o] == log[r + n][o])
  }

  /** No successful read of r returns a byte that is neither frame r's nor frame r+n's at its offset. */
  ghost predicate NeverForeign(n: nat, blank: seq<Slot>, r: nat, log: seq<Frame>)
    requires r < |log|
  {
    forall f: Frame, o: nat :: Possible(n, blank, log, r, f) && o < |f| ==> OfEither(n, r, log, f, o)
  }

  /** Wherever the overwriting frame is longer, what is left in the slot equals it. */
  predicate LeftoversMatch(n: nat, blank: seq<Slot>, r: nat, log: seq<Frame>)
    requires Blank(n, blank) && r + n < |log| && Capped(log)
  {
    forall o :: |log[r]| <= o < |log[r + n]| ==> Leftover(n, blank, log, r, o) == log[r + n][o]
  }

  /** Frame r at the length of frame r+n, filled up with what older frames left. */
  lemma {:induction false} StaleRead(n: nat, blank: seq<Slot>, r: nat, log: seq<Frame>) returns (f: Frame)
    requires Blank(n, blank) && r + n < |log| && Capped(log)
    ensures |f| == |log[r + n]| && forall o :: 0 <= o < |f| ==> f[o] == Leftover(n, blank, log, r, o)
    ensures Possible(n, blank, log, r, f)
  {
    f := seq(|log[r + n]|, i requires 0 <= i < |log[r + n]| => Leftover(n, blank, log, r, i));
    PossibleIff(n, blank, log, r, f);
  }

  /** Both frames' bytes are all a reader of r can see iff frame r+n is never published or, wherever it
      is longer, equals what older frames left in the slot. */
  lemma {:induction false} NeverForeignIff(n: nat, blank: seq<Slot>, r: nat, log: seq<Frame>)
    requires Blank(n, blank) && r < |log| && Capped(log)
    ensures NeverForeign(n, blank, r, log) <==> (|log| <= r + n || LeftoversMatch(n, blank, r, log))
  {
    if |log| <= r + n || LeftoversMatch(n, blank, r, log) {
      forall f: Frame, o: nat | Possible(n, blank, log, r, f) && o < |f|
        ensures OfEither(n, r, log, f, o)
      {
        PossibleIff(n, blank, log, r, f);
      }
    } else {
      var o: nat :| |log[r]| <= o < |log[r + n]| && Leftover(n, blank, log, r, o) != log[r + n][o];
      var f := StaleRead(n, blank, r, log);
      assert Possible(n, blank, log, r, f) && !OfEither(n, r, log, f, o);
    }
  }

  /** On the first lap, whatever the memory contained: iff the overwriting frame is not longer. */
  lemma {:induction false} FirstLapIff(n: nat, r: nat, log: seq<Frame>)
    requires r < n && r < |log| && Capped(log)
    ensures (forall blank: seq<Slot> :: Blank(n, blank) ==> NeverForeign(n, blank, r, log)) <==>
            (|log| <= r + n || |log[r + n]| <= |log[r]|)
  {
    if r + n < |log| && |log[r]| < |log[r + n]| {
      var o := |log[r]|;
      var blank := Filled(n, if log[r + n][o] == 0 then 1 else 0);
      NeverForeignIff(n, blank, r, log);
      assert Leftover(n, blank, log, r, o) != log[r + n][o];
    } else {
      forall blank: seq<Slot> | Blank(n, blank)
        ensures NeverForeign(n, blank, r, log)
      {
        NeverForeignIff(n, blank, r, log);
      }
    }
  }
}
