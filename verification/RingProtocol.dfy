/** The ring's loads and stores as separate steps: one producer and any number of readers, interleaved
    in any order, with sequentially consistent memory.  memcpy moves its bytes in any order. */
module RingProtocol {
  import opened Words
  import opened RingSpec

  // ---- The step system ----

  /** Where the producer stands in publish.  `copied` are the offsets already written. */
  datatype Producer =
    | Idle
    | Writing(frame: Frame, lenDone: bool, copied: set<nat>)
    | SeqStored

  /** What had happened at the last load of a finished read: publications begun, slot numbers stored,
      write index stored. */
  datatype Snapshot = Snapshot(begun: nat, stored: nat, edge: nat)

  /** A finished read of position r. */
  datatype Finish = Finish(r: nat, result: ReadResult, at: Snapshot)

  /** Where a reader stands in read(r).  `out` holds the bytes copied so far. */
  datatype Stage =
    | Resting
    | WantLen(r: nat)
    | Copying(r: nat, len: nat, out: map<nat, byte>)
    | WantEdge(r: nat)

  /** `past` lists the reads the reader has finished, in order. */
  datatype Reader = Reader(stage: Stage, past: seq<Finish>)

  /** `log` lists the frames whose publication has begun; `blank` is what the slots held at attach. */
  datatype State = State(n: nat, blank: seq<Slot>, slots: seq<Slot>, edge: nat,
                         producer: Producer, log: seq<Frame>, readers: seq<Reader>)

  datatype Action =
    | Begin(frame: Frame)
    | WriteLen
    | WriteByte(o: nat)
    | StoreSeq
    | StoreEdge
    | LoadSeq(k: nat, r: nat)
    | LoadLen(k: nat)
    | LoadByte(k: nat, o: nat)
    | Recheck(k: nat)
    | LoadEdge(k: nat)

  /** A freshly attached ring of n slots. */
  predicate Blank(n: nat, blank: seq<Slot>) {
    && n > 0 && |blank| == n
    && forall j :: 0 <= j < n ==> blank[j].seqNo == 0 && |blank[j].bytes| == FRAME_CAP
  }

  predicate Init(s: State) {
    && Blank(s.n, s.blank) && s.slots == s.blank
    && s.edge == 0 && s.producer == Idle && s.log == []
    && (forall k :: 0 <= k < |s.readers| ==> s.readers[k] == Reader(Resting, []))
  }

  /** Slot numbers stored so far. */
  function Stored(s: State): nat {
    s.edge + if s.producer == SeqStored then 1 else 0
  }

  function Now(s: State): Snapshot {
    Snapshot(|s.log|, Stored(s), s.edge)
  }

  predicate Enabled(s: State, a: Action)
    requires Sized(s)
  {
    match a
    case Begin(f) => s.producer == Idle && |f| <= FRAME_CAP
    case WriteLen => s.producer.Writing? && !s.producer.lenDone
    case WriteByte(o) => s.producer.Writing? && s.producer.lenDone &&
                         o < |s.producer.frame| <= FRAME_CAP && o !in s.producer.copied
    case StoreSeq => s.producer.Writing? && s.producer.lenDone &&
                     forall o: nat :: o < |s.producer.frame| ==> o in s.producer.copied
    case StoreEdge => s.producer == SeqStored
    case LoadSeq(k, r) => k < |s.readers| && s.readers[k].stage.Resting?
    case LoadLen(k) => k < |s.readers| && s.readers[k].stage.WantLen?
    case LoadByte(k, o) => k < |s.readers| && s.readers[k].stage.Copying? &&
                           o < s.readers[k].stage.len <= FRAME_CAP && o !in s.readers[k].stage.out
    case Recheck(k) => k < |s.readers| && s.readers[k].stage.Copying? &&
                       forall o: nat :: o < s.readers[k].stage.len ==> o in s.readers[k].stage.out
    case LoadEdge(k) => k < |s.readers| && s.readers[k].stage.WantEdge?
  }

  predicate Sized(s: State) {
    && Blank(s.n, s.blank) && |s.slots| == s.n
    && forall j :: 0 <= j < s.n ==> |s.slots[j].bytes| == FRAME_CAP
  }

  function Collect(len: nat, out: map<nat, byte>): Frame
    requires forall o: nat :: o < len ==> o in out
  {
    seq(len, o requires 0 <= o < len => out[o])
  }

  function Resume(edge: nat, n: nat): nat {
    if edge > n then edge - n else 0
  }

  function Return(s: State, rd: Reader, r: nat, result: ReadResult): Reader {
    Reader(Resting, rd.past + [Finish(r, result, Now(s))])
  }

  function StepReader(s: State, a: Action): Reader
    requires Sized(s) && Enabled(s, a) && (a.LoadSeq? || a.LoadLen? || a.LoadByte? || a.Recheck? || a.LoadEdge?)
  {
    var rd := s.readers[a.k];
    var at := rd.stage;
    match a
    case LoadSeq(k, r) =>
      var seqNo := s.slots[r % s.n].seqNo;
      if seqNo < r + 1 then Return(s, rd, r, Empty)
      else rd.(stage := if seqNo > r + 1 then WantEdge(r) else WantLen(r))
    case LoadLen(k) => rd.(stage := Copying(at.r, s.slots[at.r % s.n].len, map[]))
    case LoadByte(k, o) => rd.(stage := at.(out := at.out[o := s.slots[at.r % s.n].bytes[o]]))
    case Recheck(k) =>
      if s.slots[at.r % s.n].seqNo != at.r + 1 then rd.(stage := WantEdge(at.r))
      else Return(s, rd, at.r, Ok(Collect(at.len, at.out)))
    case LoadEdge(k) => Return(s, rd, at.r, Lapped(Resume(s.edge, s.n)))
  }

  function Apply(s: State, a: Action): State
    requires Sized(s) && Enabled(s, a)
  {
    var j := s.edge % s.n;
    match a
    case Begin(f) => s.(producer := Writing(f, false, {}), log := s.log + [f])
    case WriteLen =>
      s.(slots := s.slots[j := s.slots[j].(len := |s.producer.frame|)],
         producer := s.producer.(lenDone := true))
    case WriteByte(o) =>
      s.(slots := s.slots[j := s.slots[j].(bytes := s.slots[j].bytes[o := s.producer.frame[o]])],
         producer := s.producer.(copied := s.producer.copied + {o}))
    case StoreSeq => s.(slots := s.slots[j := s.slots[j].(seqNo := s.edge + 1)], producer := SeqStored)
    case StoreEdge => s.(edge := s.edge + 1, producer := Idle)
    case LoadSeq(k, r) => s.(readers := s.readers[k := StepReader(s, a)])
    case LoadLen(k) => s.(readers := s.readers[k := StepReader(s, a)])
    case LoadByte(k, o) => s.(readers := s.readers[k := StepReader(s, a)])
    case Recheck(k) => s.(readers := s.readers[k := StepReader(s, a)])
    case LoadEdge(k) => s.(readers := s.readers[k := StepReader(s, a)])
  }

  /** The actions lead from s0 to s. */
  ghost predicate Execution(s0: State, acts: seq<Action>, s: State)
    decreases |acts|
  {
    if acts == [] then s == s0
    else
      var n := |acts| - 1;
      exists m: State :: Execution(s0, acts[..n], m) && Sized(m) && Enabled(m, acts[n]) && s == Apply(m, acts[n])
  }

  ghost predicate Reachable(s: State) {
    exists s0: State, acts: seq<Action> :: Init(s0) && Execution(s0, acts, s)
  }

  // ---- The invariant of the shared memory ----

  predicate Busy(s: State, j: nat)
    requires s.n > 0
  {
    s.producer.Writing? && s.edge % s.n == j
  }

  /** Offsets of slot j that already hold the frame being written. */
  function Fresh(s: State, j: nat): set<nat>
    requires s.n > 0
  {
    if Busy(s, j) then s.producer.copied else {}
  }

  /** What offset o of a slot holds once frame i is complete there: the byte of the latest frame up to i
      in that slot that is long enough, or what the memory held at attach. */
  function Leftover(n: nat, blank: seq<Slot>, log: seq<Frame>, i: nat, o: nat): byte
    requires Blank(n, blank) && i < |log| && o < FRAME_CAP
    decreases i
  {
    if o < |log[i]| then log[i][o]
    else if i >= n then Leftover(n, blank, log, i - n, o)
    else blank[i].bytes[o]
  }

  /** The byte a slot numbered seqNo holds at offset o while nothing is being written there. */
  function Held(s: State, j: nat, seqNo: nat, o: nat): byte
    requires Sized(s) && j < s.n && seqNo <= |s.log| && o < FRAME_CAP
  {
    if seqNo == 0 then s.blank[j].bytes[o] else Leftover(s.n, s.blank, s.log, seqNo - 1, o)
  }

  ghost predicate Content(s: State, j: nat)
    requires Sized(s) && j < s.n
  {
    var slot := s.slots[j];
    && slot.seqNo <= |s.log|
    && (if Busy(s, j) && s.producer.lenDone then slot.len == |s.producer.frame|
        else slot.seqNo > 0 ==> slot.len == |s.log[slot.seqNo - 1]|)
    && (forall o :: o in Fresh(s, j) ==> o < |s.producer.frame| <= FRAME_CAP && slot.bytes[o] == s.producer.frame[o])
    && (forall o :: 0 <= o < FRAME_CAP && o !in Fresh(s, j) ==> slot.bytes[o] == Held(s, j, slot.seqNo, o))
  }

  ghost predicate Shared(s: State) {
    && Sized(s)
    && Capped(s.log)
    && |s.log| == s.edge + (if s.producer == Idle then 0 else 1)
    && (s.producer.Writing? ==>
          s.producer.frame == s.log[s.edge] &&
          (forall o :: o in s.producer.copied ==> o < |s.producer.frame|) &&
          (!s.producer.lenDone ==> s.producer.copied == {}))
    && (forall j :: 0 <= j < s.n ==> Placed(s.slots[j].seqNo, j, s.n, Stored(s)) && Content(s, j))
  }

  // ---- What a reader knows ----

  /** A length read for frame r while at most `begun` publications have begun. */
  predicate LenFrom(s: State, r: nat, len: nat, begun: nat) {
    && r < |s.log|
    && (len == |s.log[r]| || (r + s.n < begun && r + s.n < |s.log| && len == |s.log[r + s.n]|))
  }

  /** A byte read for frame r: of the frame that overwrites r, or what r left at that offset. */
  predicate ByteFrom(s: State, r: nat, o: nat, b: byte, begun: nat)
    requires Blank(s.n, s.blank) && r < |s.log| && o < FRAME_CAP
  {
    || b == Leftover(s.n, s.blank, s.log, r, o)
    || (r + s.n < begun && r + s.n < |s.log| && o < |s.log[r + s.n]| && b == s.log[r + s.n][o])
  }

  ghost predicate Knows(s: State, stage: Stage)
    requires Blank(s.n, s.blank) && Stored(s) <= |s.log|
  {
    match stage
    case Resting => true
    case WantLen(r) => r < Stored(s)
    case Copying(r, len, out) =>
      && r < Stored(s)
      && len <= FRAME_CAP
      && (forall o :: o in out ==> o < len)
      && (Stored(s) <= r + s.n ==>
            LenFrom(s, r, len, |s.log|) && forall o :: o in out ==> ByteFrom(s, r, o, out[o], |s.log|))
    case WantEdge(r) => r + s.n < Stored(s)
  }

  /** The guarantee of a finished read; it mentions only the append-only log. */
  ghost predicate Verdict(s: State, f: Finish)
    requires Blank(s.n, s.blank)
  {
    && f.at.begun <= |s.log| && f.at.edge <= f.at.stored <= f.at.begun <= f.at.edge + 1
    && match f.result
       case Empty => f.at.stored <= f.r
       case Ok(frame) =>
         && f.r < f.at.stored <= f.r + s.n
         && |frame| <= FRAME_CAP
         && LenFrom(s, f.r, |frame|, f.at.begun)
         && (forall o :: 0 <= o < |frame| ==> ByteFrom(s, f.r, o, frame[o], f.at.begun))
       case Lapped(p) =>
         && f.r + s.n < f.at.stored
         && p == Resume(f.at.edge, s.n)
  }

  ghost predicate ReaderOk(s: State, rd: Reader)
    requires Blank(s.n, s.blank) && Stored(s) <= |s.log|
  {
    Knows(s, rd.stage) && forall i :: 0 <= i < |rd.past| ==> Verdict(s, rd.past[i])
  }

  ghost predicate Inv(s: State) {
    Shared(s) && forall k :: 0 <= k < |s.readers| ==> ReaderOk(s, s.readers[k])
  }
}
