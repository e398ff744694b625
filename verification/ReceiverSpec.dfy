/** What a receiver's run amounts to: the frames heard from surviving datagrams, and the ones of them
    that the duplicate window lets through. */
module ReceiverSpec {
  import opened Words
  import opened WireSpec
  import opened WireLaws
  import opened RingSpec
  import opened Message
  import opened DedupSpec
  import opened DedupLaws
  import Dropper
  import Seqs

  datatype Config = Config(window: nat, threshold: u64, seed: u64)

  predicate Injected(c: Config, b: Bytes)
    requires WellHeaded(b)
  {
    Dropper.Drop(c.threshold, c.seed, DecodeHeader(b).dgramId, DecodeHeader(b).streamId)
  }

  predicate Survives(c: Config, b: Bytes) {
    WellHeaded(b) && !Injected(c, b)
  }

  /** All frames parsed out of the surviving arrivals. */
  function Heard(c: Config, arrivals: seq<Bytes>): seq<Bytes> {
    if arrivals == [] then []
    else
      var n := |arrivals| - 1;
      Heard(c, arrivals[..n]) + if Survives(c, arrivals[n]) then Parsed(arrivals[n]) else []
  }

  predicate Readable(fs: seq<Bytes>) {
    forall i :: 0 <= i < |fs| ==> |fs[i]| >= MSG_HEADER
  }

  /** The frames long enough to hold a message header. */
  function Usable(fs: seq<Bytes>): (r: seq<Bytes>)
    ensures Readable(r) && |r| <= |fs|
  {
    if fs == [] then []
    else
      var n := |fs| - 1;
      Usable(fs[..n]) + if |fs[n]| < MSG_HEADER then [] else [fs[n]]
  }

  function Ids(fs: seq<Bytes>): (r: seq<u64>)
    requires Readable(fs)
    ensures |r| == |fs| && forall i :: 0 <= i < |r| ==> r[i] == SeqId(fs[i])
  {
    seq(|fs|, i requires 0 <= i < |fs| => SeqId(fs[i]))
  }

  /** The frames the window lets through, in order. */
  function Published(w: nat, fs: seq<Bytes>): (r: seq<Bytes>)
    requires w > 0 && Readable(fs)
    ensures Readable(r)
  {
    if fs == [] then []
    else
      var n := |fs| - 1;
      Published(w, fs[..n]) + if LastVerdict(w, Ids(fs)) then [fs[n]] else []
  }

  /** Every frame that gets past the injector, the header check and the window fits a slot.  The loop does
      not check this; it is what its call of publish relies on. */
  predicate Fits(c: Config, arrivals: seq<Bytes>)
    requires c.window > 0
  {
    Capped(Published(c.window, Usable(Heard(c, arrivals))))
  }

  // ---- Counters ----

  function InjectedCount(c: Config, arrivals: seq<Bytes>): nat {
    if arrivals == [] then 0
    else
      var n := |arrivals| - 1;
      InjectedCount(c, arrivals[..n]) + if WellHeaded(arrivals[n]) && Injected(c, arrivals[n]) then 1 else 0
  }

  /** Datagrams that are not ours, frames too short for a header, datagrams not as advertised. */
  function MalformedCount(c: Config, arrivals: seq<Bytes>): nat {
    if arrivals == [] then 0
    else
      MalformedCount(c, arrivals[..|arrivals| - 1]) + Defects(c, arrivals[|arrivals| - 1])
  }

  function Defects(c: Config, b: Bytes): nat {
    if !WellHeaded(b) then 1
    else if Injected(c, b) then 0
    else |Parsed(b)| - |Usable(Parsed(b))| + (if Complete(b) then 0 else 1)
  }

  // ---- One more ----

  lemma HeardSnoc(c: Config, arrivals: seq<Bytes>, b: Bytes)
    ensures Survives(c, b) ==> Heard(c, arrivals + [b]) == Heard(c, arrivals) + Parsed(b)
    ensures !Survives(c, b) ==> Heard(c, arrivals + [b]) == Heard(c, arrivals)
    ensures InjectedCount(c, arrivals + [b]) ==
            InjectedCount(c, arrivals) + if WellHeaded(b) && Injected(c, b) then 1 else 0
    ensures MalformedCount(c, arrivals + [b]) == MalformedCount(c, arrivals) + Defects(c, b)
  {
    assert (arrivals + [b])[..|arrivals|] == arrivals;
  }

  /** What an arrival adds to the frames heard. */
  function Added(c: Config, b: Bytes): seq<Bytes> {
    if Survives(c, b) then Parsed(b) else []
  }

  lemma HeardAdds(c: Config, arrivals: seq<Bytes>, b: Bytes)
    ensures Heard(c, arrivals + [b]) == Heard(c, arrivals) + Added(c, b)
  {
    HeardSnoc(c, arrivals, b);
  }

  lemma {:induction false} HeardAppend(c: Config, a: seq<Bytes>, b: seq<Bytes>)
    ensures Heard(c, a + b) == Heard(c, a) + Heard(c, b)
  {
    if b == [] {
      Seqs.NilRight(a);
      Seqs.NilRight(Heard(c, a));
    } else {
      var n := |b| - 1;
      HeardAppend(c, a, b[..n]);
      Seqs.SplitLast(a, b);
      HeardAdds(c, a + b[..n], b[n]);
      Seqs.Assoc(Heard(c, a), Heard(c, b[..n]), Added(c, b[n]));
    }
  }

  /** Cutting a datagram costs only its own messages that no longer fit; the datagrams before and after
      it are heard in full. */
  lemma {:induction false} CutIsLocal(c: Config, before: seq<Bytes>, h: Header, fs: seq<Bytes>, cut: nat,
                                      after: seq<Bytes>)
    requires Short(fs) && h.nMsgs == |fs| && HEADER <= cut < |Encode(h, fs)|
    requires !Dropper.Drop(c.threshold, c.seed, h.dgramId, h.streamId)
    ensures Heard(c, before + [Encode(h, fs)] + after) == Heard(c, before) + fs + Heard(c, after)
    ensures Heard(c, before + [Encode(h, fs)[..cut]] + after) ==
            Heard(c, before) + fs[..Fitting(fs, cut - HEADER)] + Heard(c, after)
  {
    RoundTrip(h, fs);
    Truncated(h, fs, cut);
    var whole, part := Encode(h, fs), Encode(h, fs)[..cut];
    HeardAppend(c, before + [whole], after);
    HeardAppend(c, before + [part], after);
    HeardSnoc(c, before, whole);
    HeardSnoc(c, before, part);
  }

  lemma UsableSnoc(fs: seq<Bytes>, f: Bytes)
    ensures |f| < MSG_HEADER ==> Usable(fs + [f]) == Usable(fs)
    ensures |f| >= MSG_HEADER ==> Usable(fs + [f]) == Usable(fs) + [f]
  {
    assert (fs + [f])[..|fs|] == fs;
  }

  lemma IdsSnoc(fs: seq<Bytes>, f: Bytes)
    requires Readable(fs) && |f| >= MSG_HEADER
    ensures Ids(fs + [f]) == Ids(fs) + [SeqId(f)]
  {
  }

  lemma IdsAppend(fs: seq<Bytes>, gs: seq<Bytes>)
    requires Readable(fs) && Readable(gs)
    ensures Readable(fs + gs) && Ids(fs + gs) == Ids(fs) + Ids(gs)
  {
  }

  lemma PublishedSnoc(w: nat, fs: seq<Bytes>, f: Bytes)
    requires w > 0 && Readable(fs) && |f| >= MSG_HEADER
    ensures var isNew := Step(w, Run(w, Ids(fs)), SeqId(f)).1;
            && (isNew ==> Published(w, fs + [f]) == Published(w, fs) + [f])
            && (!isNew ==> Published(w, fs + [f]) == Published(w, fs))
  {
    assert (fs + [f])[..|fs|] == fs;
    IdsSnoc(fs, f);
    RunSnoc(w, Ids(fs), SeqId(f));
  }

  lemma {:induction false} UsableAppend(fs: seq<Bytes>, gs: seq<Bytes>)
    ensures Usable(fs + gs) == Usable(fs) + Usable(gs)
  {
    if gs == [] {
      assert fs + gs == fs;
    } else {
      var n := |gs| - 1;
      UsableAppend(fs, gs[..n]);
      Seqs.SplitLast(fs, gs);
      UsableSnoc(fs + gs[..n], gs[n]);
    }
  }

  /** Hearing more never unpublishes anything. */
  lemma {:induction false} PublishedGrows(w: nat, fs: seq<Bytes>, gs: seq<Bytes>)
    requires w > 0 && Readable(fs) && Readable(gs)
    ensures Published(w, fs) <= Published(w, fs + gs)
  {
    if gs == [] {
      assert fs + gs == fs;
    } else {
      var n := |gs| - 1;
      PublishedGrows(w, fs, gs[..n]);
      Seqs.SplitLast(fs, gs);
      PublishedSnoc(w, fs + gs[..n], gs[n]);
      Seqs.PrefixTransitive(Published(w, fs), Published(w, fs + gs[..n]), Published(w, fs + gs));
    }
  }

  /** What has been published of a part of the frames is published of all of them. */
  lemma {:induction false} CappedPart(w: nat, fs: seq<Bytes>, gs: seq<Bytes>)
    requires w > 0 && Capped(Published(w, Usable(fs + gs)))
    ensures Capped(Published(w, Usable(fs)))
  {
    UsableAppend(fs, gs);
    PublishedGrows(w, Usable(fs), Usable(gs));
    CappedPrefix(Published(w, Usable(fs)), Published(w, Usable(fs + gs)));
  }

  lemma CappedPrefix(a: seq<Bytes>, b: seq<Bytes>)
    requires a <= b && Capped(b)
    ensures Capped(a)
  {
    assert forall i :: 0 <= i < |a| ==> a[i] == b[i];
  }

  lemma {:induction false} ArrivalGrows(c: Config, arrivals: seq<Bytes>, b: Bytes)
    requires c.window > 0
    ensures Published(c.window, Usable(Heard(c, arrivals))) <= Published(c.window, Usable(Heard(c, arrivals + [b])))
    ensures Fits(c, arrivals + [b]) ==> Fits(c, arrivals)
  {
    HeardSnoc(c, arrivals, b);
    if Survives(c, b) {
      UsableAppend(Heard(c, arrivals), Parsed(b));
      PublishedGrows(c.window, Usable(Heard(c, arrivals)), Usable(Parsed(b)));
    }
    if Fits(c, arrivals + [b]) {
      CappedPrefix(Published(c.window, Usable(Heard(c, arrivals))),
                   Published(c.window, Usable(Heard(c, arrivals + [b]))));
    }
  }

  /** On every safe run the published frames are the specified ones. */
  lemma {:induction false} PublishedIds(w: nat, fs: seq<Bytes>)
    requires 0 < w <= Pow2(63) && Readable(fs) && SafeRun(w, Ids(fs))
    ensures Ids(Published(w, fs)) == Accepted(w, Ids(fs))
    ensures forall f :: f in Published(w, fs) ==> f in fs
  {
    if fs != [] {
      var n := |fs| - 1;
      var gs, f := fs[..n], fs[n];
      assert fs == gs + [f];
      IdsSnoc(gs, f);
      SafeSnoc(w, Ids(gs), SeqId(f));
      PublishedIds(w, gs);
      PublishedIdsSnoc(w, gs, f);
    }
  }

  lemma {:induction false} PublishedIdsSnoc(w: nat, fs: seq<Bytes>, f: Bytes)
    requires 0 < w <= Pow2(63) && Readable(fs) && |f| >= MSG_HEADER
    requires SafeRun(w, Ids(fs)) && SafeStep(w, Ids(fs), SeqId(f))
    requires Ids(Published(w, fs)) == Accepted(w, Ids(fs))
    ensures Ids(Published(w, fs + [f])) == Accepted(w, Ids(fs + [f]))
  {
    var xs, q := Ids(fs), SeqId(f);
    IdsSnoc(fs, f);
    PublishedSnoc(w, fs, f);
    RunTracks(w, xs);
    StepTracks(w, Run(w, xs), xs, q);
    AcceptedSnoc(w, xs, q);
    IdsSnoc(Published(w, fs), f);
  }

  // ---- What the counters count ----

  /** Arrivals that are not ours, that the injector took, and that got through but are not as announced. */
  ghost function Foreign(arrivals: seq<Bytes>): set<nat> {
    set i: nat | i < |arrivals| && !WellHeaded(arrivals[i])
  }

  ghost function Taken(c: Config, arrivals: seq<Bytes>): set<nat> {
    set i: nat | i < |arrivals| && WellHeaded(arrivals[i]) && Injected(c, arrivals[i])
  }

  ghost function Damaged(c: Config, arrivals: seq<Bytes>): set<nat> {
    set i: nat | i < |arrivals| && Survives(c, arrivals[i]) && !Complete(arrivals[i])
  }

  /** Frames too short for a message header. */
  ghost function Stubs(fs: seq<Bytes>): set<nat> {
    set i: nat | i < |fs| && |fs[i]| < MSG_HEADER
  }

  lemma {:induction false} StubsCount(fs: seq<Bytes>)
    ensures |Usable(fs)| + |Stubs(fs)| == |fs|
  {
    if fs != [] {
      var n := |fs| - 1;
      StubsCount(fs[..n]);
      assert Stubs(fs) == Stubs(fs[..n]) + if |fs[n]| < MSG_HEADER then {n} else {};
    }
  }

  lemma {:induction false} ArrivalSets(c: Config, arrivals: seq<Bytes>, b: Bytes)
    ensures Foreign(arrivals + [b]) == Foreign(arrivals) + if WellHeaded(b) then {} else {|arrivals|}
    ensures Taken(c, arrivals + [b]) ==
            Taken(c, arrivals) + if WellHeaded(b) && Injected(c, b) then {|arrivals|} else {}
    ensures Damaged(c, arrivals + [b]) ==
            Damaged(c, arrivals) + if Survives(c, b) && !Complete(b) then {|arrivals|} else {}
  {
    var more := arrivals + [b];
    assert more[|arrivals|] == b && forall i :: 0 <= i < |arrivals| ==> more[i] == arrivals[i];
  }

  /** `injected` counts the arrivals the injector took; `malformed` those that are not ours, those that got
      through but are not as announced, and the frames too short for a header. */
  lemma {:induction false} CountersAre(c: Config, arrivals: seq<Bytes>)
    ensures InjectedCount(c, arrivals) == |Taken(c, arrivals)|
    ensures MalformedCount(c, arrivals) ==
            |Foreign(arrivals)| + |Damaged(c, arrivals)| + |Stubs(Heard(c, arrivals))|
  {
    StubsCount(Heard(c, arrivals));
    if arrivals != [] {
      var n := |arrivals| - 1;
      var before, b := arrivals[..n], arrivals[n];
      assert arrivals == before + [b];
      CountersAre(c, before);
      StubsCount(Heard(c, before));
      ArrivalSets(c, before, b);
      HeardAdds(c, before, b);
      UsableAppend(Heard(c, before), Added(c, b));
    }
  }

  // ---- Losing messages ----

  /** The ids of what can be used of these frames. */
  function UsableIds(fs: seq<Bytes>): seq<u64> {
    Ids(Usable(fs))
  }

  lemma UsableIdsAppend(fs: seq<Bytes>, gs: seq<Bytes>)
    ensures UsableIds(fs + gs) == UsableIds(fs) + UsableIds(gs)
  {
    UsableAppend(fs, gs);
    IdsAppend(Usable(fs), Usable(gs));
  }

  function PublishedOf(w: nat, fs: seq<Bytes>): seq<u64>
    requires w > 0
  {
    Ids(Published(w, Usable(fs)))
  }

  /** When of some frames only the first few are heard, everything else is published as before. */
  lemma {:induction false} FewerHeard(w: nat, before: seq<Bytes>, fs: seq<Bytes>, k: nat, after: seq<Bytes>, q: u64)
    requires 0 < w <= Pow2(63) && k <= |fs| && SafeRun(w, UsableIds(before + fs + after))
    requires q in PublishedOf(w, before + fs + after) && (q in UsableIds(fs) ==> q in UsableIds(fs[..k]))
    ensures q in PublishedOf(w, before + fs[..k] + after)
  {
    var a, b, part, c := UsableIds(before), UsableIds(fs), UsableIds(fs[..k]), UsableIds(after);
    UsableIdsAppend(before + fs, after);
    UsableIdsAppend(before, fs);
    UsableIdsAppend(before + fs[..k], after);
    UsableIdsAppend(before, fs[..k]);
    assert fs == fs[..k] + fs[k..];
    UsableIdsAppend(fs[..k], fs[k..]);
    FewerSafe(w, a, b, part, c);
    PublishedIds(w, Usable(before + fs + after));
    PublishedIds(w, Usable(before + fs[..k] + after));
    FewerArrivals(w, a, b, part, c, q);
  }

  /** Cutting a datagram never costs the publication of a message that is outside it or still fits. */
  lemma {:induction false} CutPublishesRest(c: Config, before: seq<Bytes>, h: Header, fs: seq<Bytes>, cut: nat,
                                            after: seq<Bytes>, q: u64)
    requires Short(fs) && h.nMsgs == |fs| && HEADER <= cut < |Encode(h, fs)| && 0 < c.window <= Pow2(63)
    requires !Dropper.Drop(c.threshold, c.seed, h.dgramId, h.streamId)
    requires SafeRun(c.window, UsableIds(Heard(c, before + [Encode(h, fs)] + after)))
    requires q in PublishedOf(c.window, Heard(c, before + [Encode(h, fs)] + after))
    requires q in UsableIds(fs) ==> q in UsableIds(fs[..Fitting(fs, cut - HEADER)])
    ensures q in PublishedOf(c.window, Heard(c, before + [Encode(h, fs)[..cut]] + after))
  {
    CutIsLocal(c, before, h, fs, cut, after);
    FewerHeard(c.window, Heard(c, before), fs, Fitting(fs, cut - HEADER), Heard(c, after), q);
  }

  /** Losing an arrival, whatever its bytes, never costs the publication of a message outside it. */
  lemma {:induction false} LossPublishesRest(c: Config, before: seq<Bytes>, b: Bytes, after: seq<Bytes>, q: u64)
    requires 0 < c.window <= Pow2(63) && SafeRun(c.window, UsableIds(Heard(c, before + [b] + after)))
    requires q in PublishedOf(c.window, Heard(c, before + [b] + after)) && q !in UsableIds(Heard(c, [b]))
    ensures q in PublishedOf(c.window, Heard(c, before + after))
  {
    HeardAppend(c, before + [b], after);
    HeardAppend(c, before, [b]);
    HeardAppend(c, before, after);
    FewerHeard(c.window, Heard(c, before), Heard(c, [b]), 0, Heard(c, after), q);
    assert Heard(c, before) + Heard(c, [b])[..0] == Heard(c, before);
  }

  // ---- Exactly which datagram sizes the slots can take ----

  /** No datagram is longer than this. */
  predicate Sized(arrivals: seq<Bytes>, size: nat) {
    forall i :: 0 <= i < |arrivals| ==> |arrivals[i]| <= size
  }

  lemma {:induction false} FramesInside(b: Bytes, off: nat, n: nat)
    requires HEADER <= off
    ensures forall f :: f in Frames(b, off, n) ==> HEADER + PREFIX + |f| <= |b|
    decreases n
  {
    if n > 0 && HasRecord(b, off) {
      FramesInside(b, off + PREFIX + |FrameAt(b, off)|, n - 1);
    }
  }

  lemma {:induction false} HeardInside(c: Config, arrivals: seq<Bytes>, size: nat)
    requires Sized(arrivals, size)
    ensures forall f :: f in Heard(c, arrivals) ==> HEADER + PREFIX + |f| <= size
  {
    if arrivals != [] {
      var n := |arrivals| - 1;
      HeardInside(c, arrivals[..n], size);
      if Survives(c, arrivals[n]) {
        FramesInside(arrivals[n], HEADER, DecodeHeader(arrivals[n]).nMsgs);
      }
    }
  }

  lemma {:induction false} UsableFrom(fs: seq<Bytes>)
    ensures forall f :: f in Usable(fs) ==> f in fs
  {
    if fs != [] {
      UsableFrom(fs[..|fs| - 1]);
    }
  }

  lemma {:induction false} PublishedFrom(w: nat, fs: seq<Bytes>)
    requires w > 0 && Readable(fs)
    ensures forall f :: f in Published(w, fs) ==> f in fs
  {
    if fs != [] {
      PublishedFrom(w, fs[..|fs| - 1]);
    }
  }

  /** Datagrams that hold no more than one full frame never publish a longer one, for any configuration. */
  lemma {:induction false} SmallFits(c: Config, arrivals: seq<Bytes>, size: nat)
    requires c.window > 0 && Sized(arrivals, size) && size <= HEADER + PREFIX + FRAME_CAP
    ensures Fits(c, arrivals)
  {
    var heard := Heard(c, arrivals);
    var out := Published(c.window, Usable(heard));
    HeardInside(c, arrivals, size);
    UsableFrom(heard);
    PublishedFrom(c.window, Usable(heard));
    forall i | 0 <= i < |out|
      ensures |out[i]| <= FRAME_CAP
    {
      assert out[i] in heard;
    }
  }

  /** Some copy gets past the injector. */
  ghost predicate LetsThrough(c: Config) {
    exists d: u32, s: u16 :: !Dropper.Drop(c.threshold, c.seed, d, s)
  }

  /** A datagram with a single message. */
  function OneMessage(d: u32, s: u16, f: Bytes): (b: Bytes)
    requires |f| < TWO_16
    ensures |b| == HEADER + PREFIX + |f|
  {
    assert [] + [f] == [f] && Records([]) == [];
    RecordsSnoc([], f);
    RecordLength(f);
    Encode(Header(d, s, 1, 0, 0, 0), [f])
  }

  /** The first message to arrive is published, whatever its length. */
  lemma {:induction false} FirstMessage(c: Config, d: u32, s: u16, f: Bytes)
    requires MSG_HEADER <= |f| < TWO_16 && 0 < c.window <= Pow2(63) && !Dropper.Drop(c.threshold, c.seed, d, s)
    ensures Published(c.window, Usable(Heard(c, [OneMessage(d, s, f)]))) == [f]
  {
    var b := OneMessage(d, s, f);
    RoundTrip(Header(d, s, 1, 0, 0, 0), [f]);
    HeardAdds(c, [], b);
    assert [] + [b] == [b];
    assert [] + [f] == [f];
    FirstPublished(c.window, [], f);
  }

  lemma {:induction false} FirstPublished(w: nat, none: seq<Bytes>, f: Bytes)
    requires none == [] && |f| >= MSG_HEADER && 0 < w <= Pow2(63)
    ensures Published(w, Usable(none + [f])) == [f]
  {
    UsableSnoc(none, f);
    PublishedSnoc(w, none, f);
    FirstVerdict(w, Ids(none), SeqId(f));
  }

  lemma {:induction false} FirstVerdict(w: nat, none: seq<u64>, q: u64)
    requires none == [] && 0 < w <= Pow2(63)
    ensures Step(w, Run(w, none), q).1
  {
    RunTracks(w, none);
    StepHolds(w, Run(w, none), none, q);
  }

  /** So a datagram one byte longer than one with a full frame can make the loop publish a frame that does
      not fit its slot. */
  lemma {:induction false} LongMessage(c: Config, d: u32, s: u16) returns (b: Bytes)
    requires 0 < c.window <= Pow2(63) && !Dropper.Drop(c.threshold, c.seed, d, s)
    ensures |b| == HEADER + PREFIX + FRAME_CAP + 1 && !Fits(c, [b])
  {
    var f: Bytes := seq(FRAME_CAP + 1, _ => 0);
    b := OneMessage(d, s, f);
    FirstMessage(c, d, s, f);
    assert Published(c.window, Usable(Heard(c, [b])))[0] == f;
  }

  /** Every list of datagrams up to a size is safe for the slots iff the size leaves no room for more than
      one full frame, or the injector drops everything. */
  lemma {:induction false} FitsIffSize(c: Config, size: nat)
    requires 0 < c.window <= Pow2(63)
    ensures (forall arrivals: seq<Bytes> :: Sized(arrivals, size) ==> Fits(c, arrivals)) <==>
            (size <= HEADER + PREFIX + FRAME_CAP || !LetsThrough(c))
  {
    if size <= HEADER + PREFIX + FRAME_CAP {
      forall arrivals: seq<Bytes> | Sized(arrivals, size)
        ensures Fits(c, arrivals)
      {
        SmallFits(c, arrivals, size);
      }
    } else if LetsThrough(c) {
      var d: u32, s: u16 :| !Dropper.Drop(c.threshold, c.seed, d, s);
      var b := LongMessage(c, d, s);
      assert Sized([b], size) && !Fits(c, [b]);
    } else {
      forall arrivals: seq<Bytes>
        ensures Fits(c, arrivals)
      {
        NothingHeard(c, arrivals);
      }
    }
  }

  lemma {:induction false} NothingHeard(c: Config, arrivals: seq<Bytes>)
    requires !LetsThrough(c)
    ensures Heard(c, arrivals) == []
  {
    if arrivals != [] {
      NothingHeard(c, arrivals[..|arrivals| - 1]);
    }
  }

  /** Without injected loss every datagram size above that is dangerous. */
  lemma {:induction false} FitsIffSizeUndropped(c: Config, size: nat)
    requires 0 < c.window <= Pow2(63) && c.threshold == 0
    ensures (forall arrivals: seq<Bytes> :: Sized(arrivals, size) ==> Fits(c, arrivals)) <==>
            size <= HEADER + PREFIX + FRAME_CAP
  {
    assert !Dropper.Drop(c.threshold, c.seed, 0, 0);
    FitsIffSize(c, size);
  }
}
