/** RingProtocol's invariant is inductive. */
module RingInvariant {
  import opened Words
  import opened RingSpec
  import opened RingProtocol

  // ---- Growth of the log ----

  /** s' is s after some steps of the producer. */
  predicate Extends(s: State, s': State) {
    && s'.n == s.n && s'.blank == s.blank && s.log <= s'.log
    && Stored(s) <= Stored(s') <= |s'.log| && Stored(s) <= |s.log|
  }

  /** What frame i leaves in its slot does not depend on later frames. */
  lemma {:induction false} LeftoverGrows(n: nat, blank: seq<Slot>, log: seq<Frame>, log': seq<Frame>, i: nat, o: nat)
    requires Blank(n, blank) && log <= log' && i < |log| && o < FRAME_CAP
    ensures Leftover(n, blank, log', i, o) == Leftover(n, blank, log, i, o)
    decreases i
  {
    assert log'[i] == log[i];
    if o >= |log[i]| && i >= n {
      LeftoverGrows(n, blank, log, log', i - n, o);
    }
  }

  lemma {:induction false} ByteFromGrows(s: State, s': State, r: nat, o: nat, b: byte, begun: nat, begun': nat)
    requires Blank(s.n, s.blank) && Extends(s, s') && begun <= begun' && r < |s.log| && o < FRAME_CAP
    requires ByteFrom(s, r, o, b, begun)
    ensures ByteFrom(s', r, o, b, begun')
  {
    LeftoverGrows(s.n, s.blank, s.log, s'.log, r, o);
  }

  /** What a reader knows stays true while the producer moves. */
  lemma {:induction false} KnowsGrows(s: State, s': State, stage: Stage)
    requires Blank(s.n, s.blank) && Extends(s, s') && Knows(s, stage)
    ensures Knows(s', stage)
  {
    if stage.Copying? && Stored(s') <= stage.r + s.n {
      forall o | o in stage.out
        ensures ByteFrom(s', stage.r, o, stage.out[o], |s'.log|)
      {
        ByteFromGrows(s, s', stage.r, o, stage.out[o], |s.log|, |s'.log|);
      }
    }
  }

  lemma {:induction false} VerdictGrows(s: State, s': State, f: Finish)
    requires Blank(s.n, s.blank) && Extends(s, s') && Verdict(s, f)
    ensures Verdict(s', f)
  {
    if f.result.Ok? {
      forall o | 0 <= o < |f.result.frame|
        ensures ByteFrom(s', f.r, o, f.result.frame[o], f.at.begun)
      {
        ByteFromGrows(s, s', f.r, o, f.result.frame[o], f.at.begun, f.at.begun);
      }
    }
  }

  lemma {:induction false} ReaderGrows(s: State, s': State, rd: Reader)
    requires Blank(s.n, s.blank) && Extends(s, s') && ReaderOk(s, rd)
    ensures ReaderOk(s', rd)
  {
    KnowsGrows(s, s', rd.stage);
    forall i | 0 <= i < |rd.past|
      ensures Verdict(s', rd.past[i])
    {
      VerdictGrows(s, s', rd.past[i]);
    }
  }

  // ---- Producer steps ----

  predicate Moves(a: Action) {
    a.Begin? || a.WriteLen? || a.WriteByte? || a.StoreSeq? || a.StoreEdge?
  }

  lemma {:induction false} HeldGrows(s: State, s': State, j: nat)
    requires Sized(s) && Sized(s') && Extends(s, s') && j < s.n && s.slots[j].seqNo <= |s.log|
    ensures forall o :: 0 <= o < FRAME_CAP ==> Held(s', j, s.slots[j].seqNo, o) == Held(s, j, s.slots[j].seqNo, o)
  {
    forall o | 0 <= o < FRAME_CAP
      ensures Held(s', j, s.slots[j].seqNo, o) == Held(s, j, s.slots[j].seqNo, o)
    {
      if s.slots[j].seqNo > 0 {
        LeftoverGrows(s.n, s.blank, s.log, s'.log, s.slots[j].seqNo - 1, o);
      }
    }
  }

  /** The frame a slot held before frame i is the one n positions earlier. */
  lemma {:induction false} Previous(seqNo: nat, n: nat, i: nat)
    requires n > 0 && Placed(seqNo, i % n, n, i)
    ensures seqNo == if i < n then 0 else i - n + 1
    ensures i < n ==> i % n == i
  {
    if i < n {
      DivModUnique(i, n, 0, i);
    }
    if seqNo > 0 {
      SameSlot(seqNo - 1, i, n);
    } else {
      ModAtMost(i, n);
    }
  }

  lemma {:induction false} StoreSeqKeeps(s: State, a: Action, j: nat)
    requires Shared(s) && a.StoreSeq? && Enabled(s, a) && j < s.n
    ensures Content(Apply(s, a), j)
    ensures Placed(Apply(s, a).slots[j].seqNo, j, s.n, Stored(Apply(s, a)))
  {
    var s' := Apply(s, a);
    assert Content(s, j);
    PlacedNext(s.slots[j].seqNo, j, s.n, s.edge);
    if j == s.edge % s.n {
      Previous(s.slots[j].seqNo, s.n, s.edge);
      forall o | 0 <= o < FRAME_CAP
        ensures s'.slots[j].bytes[o] == Held(s', j, s.edge + 1, o)
      {
        assert o < |s.producer.frame| <==> o in s.producer.copied;
      }
    }
  }

  /** The other steps of the producer leave the numbers alone. */
  lemma {:induction false} WriteKeeps(s: State, a: Action, j: nat)
    requires Shared(s) && Moves(a) && !a.StoreSeq? && Enabled(s, a) && j < s.n
    requires Extends(s, Apply(s, a)) && Sized(Apply(s, a))
    ensures Content(Apply(s, a), j)
  {
    assert Content(s, j);
    HeldGrows(s, Apply(s, a), j);
  }

  lemma {:induction false} ProducerKeepsShared(s: State, a: Action)
    requires Shared(s) && Moves(a) && Enabled(s, a)
    ensures Shared(Apply(s, a)) && Extends(s, Apply(s, a))
  {
    var s' := Apply(s, a);
    assert Sized(s');
    forall j | 0 <= j < s.n
      ensures Placed(s'.slots[j].seqNo, j, s.n, Stored(s')) && Content(s', j)
    {
      if a.StoreSeq? {
        StoreSeqKeeps(s, a, j);
      } else {
        WriteKeeps(s, a, j);
      }
    }
  }

  // ---- Reader steps ----

  /** While frame r is the last one stored in its slot, only the frame n later can be under way there. */
  lemma {:induction false} SlotOfReader(s: State, r: nat)
    requires Shared(s) && r < Stored(s) <= r + s.n
    ensures s.slots[r % s.n].seqNo == r + 1
    ensures Busy(s, r % s.n) ==> s.edge == r + s.n && r + s.n < |s.log| && s.producer.frame == s.log[r + s.n]
  {
    PlacedTells(s.slots[r % s.n].seqNo, s.n, Stored(s), r);
    if Busy(s, r % s.n) {
      SameSlot(r, s.edge, s.n);
    }
  }

  lemma {:induction false} LenLoaded(s: State, r: nat)
    requires Shared(s) && r < Stored(s) <= r + s.n
    ensures LenFrom(s, r, s.slots[r % s.n].len, |s.log|)
  {
    SlotOfReader(s, r);
    assert Content(s, r % s.n);
  }

  lemma {:induction false} ByteLoaded(s: State, r: nat, o: nat)
    requires Shared(s) && r < Stored(s) <= r + s.n && o < FRAME_CAP
    ensures ByteFrom(s, r, o, s.slots[r % s.n].bytes[o], |s.log|)
  {
    SlotOfReader(s, r);
    assert Content(s, r % s.n);
  }

  lemma {:induction false} LenFits(s: State, r: nat)
    requires Shared(s) && r < Stored(s)
    ensures s.slots[r % s.n].len <= FRAME_CAP
  {
    PlacedTells(s.slots[r % s.n].seqNo, s.n, Stored(s), r);
    assert Content(s, r % s.n);
  }

  lemma {:induction false} ByteStep(s: State, a: Action)
    requires Inv(s) && a.LoadByte? && Enabled(s, a)
    ensures ReaderOk(s, StepReader(s, a))
  {
    var rd := s.readers[a.k];
    assert ReaderOk(s, rd);
    if Stored(s) <= rd.stage.r + s.n {
      ByteLoaded(s, rd.stage.r, a.o);
    }
  }

  lemma {:induction false} ReaderKeeps(s: State, a: Action)
    requires Inv(s) && !Moves(a) && Enabled(s, a)
    ensures ReaderOk(s, StepReader(s, a))
  {
    assert ReaderOk(s, s.readers[a.k]);
    var stage := s.readers[a.k].stage;
    match a
    case LoadSeq(k, r) => PlacedTells(s.slots[r % s.n].seqNo, s.n, Stored(s), r);
    case LoadLen(k) =>
      LenFits(s, stage.r);
      if Stored(s) <= stage.r + s.n {
        LenLoaded(s, stage.r);
      }
    case LoadByte(k, o) => ByteStep(s, a);
    case Recheck(k) => PlacedTells(s.slots[stage.r % s.n].seqNo, s.n, Stored(s), stage.r);
    case LoadEdge(k) =>
  }

  // ---- Every reachable state ----

  lemma {:induction false} InitInv(s: State)
    requires Init(s)
    ensures Inv(s)
  {
  }

  lemma {:induction false} StepKeepsInv(s: State, a: Action)
    requires Inv(s) && Enabled(s, a)
    ensures Inv(Apply(s, a))
  {
    var s' := Apply(s, a);
    if Moves(a) {
      ProducerKeepsShared(s, a);
    } else {
      ReaderKeeps(s, a);
      SharedSame(s, s');
    }
    forall k | 0 <= k < |s'.readers|
      ensures ReaderOk(s', s'.readers[k])
    {
      ReaderGrows(s, s', s'.readers[k]);
    }
  }

  /** The shared memory does not depend on the readers. */
  lemma {:induction false} SharedSame(s: State, s': State)
    requires Shared(s) && s' == s.(readers := s'.readers)
    ensures Shared(s') && Extends(s, s')
  {
    forall j | 0 <= j < s.n
      ensures Content(s', j)
    {
      assert Content(s, j);
      HeldGrows(s, s', j);
    }
  }

  lemma {:induction false} ExecutionInv(s0: State, acts: seq<Action>, s: State)
    requires Init(s0) && Execution(s0, acts, s)
    ensures Inv(s)
    decreases |acts|
  {
    if acts == [] {
      InitInv(s0);
    } else {
      var n := |acts| - 1;
      var m: State :| Execution(s0, acts[..n], m) && Sized(m) && Enabled(m, acts[n]) && s == Apply(m, acts[n]);
      ExecutionInv(s0, acts[..n], m);
      StepKeepsInv(m, acts[n]);
    }
  }

  lemma {:induction false} ReachableInv(s: State)
    requires Reachable(s)
    ensures Inv(s)
  {
    var s0: State, acts: seq<Action> :| Init(s0) && Execution(s0, acts, s);
    ExecutionInv(s0, acts, s);
  }
}
