/** The composed system, from the producer's ring to the consumer's report.

    The network delivers copies of sent datagrams: any of them, any number of times, in any order. */
module PipelineSpec {
  import opened Words
  import opened WireSpec
  import opened WireLaws
  import opened RingSpec
  import opened Message
  import opened DedupSpec
  import opened DedupLaws
  import opened SenderSpec
  import opened ReceiverSpec
  import opened Consumer
  import Metrics
  import Dropper
  import Seqs

  /** Copy s of datagram d. */
  datatype Copy = Copy(d: nat, s: nat)

  predicate Routed(net: seq<Copy>, datagrams: nat, streams: nat) {
    forall i :: 0 <= i < |net| ==> net[i].d < datagrams && net[i].s < streams
  }

  /** A sender's run over a producer's log. */
  ghost predicate Ran(log: seq<Frame>, streams: nat, batches: seq<seq<nat>>, sent: seq<seq<Bytes>>) {
    && Produced(log) && streams < TWO_16
    && SentOk(log, streams, batches, sent)
    && Increasing(Flat(batches))
  }

  function Delivered(sent: seq<seq<Bytes>>, streams: nat, net: seq<Copy>): (bs: seq<Bytes>)
    requires Routed(net, |sent|, streams) && forall d :: 0 <= d < |sent| ==> |sent[d]| == streams
    ensures |bs| == |net|
  {
    seq(|net|, i requires 0 <= i < |net| => sent[net[i].d][net[i].s])
  }

  /** The injected dropper lets this copy through. */
  predicate Passes(c: Config, x: Copy)
    requires x.s < TWO_16
  {
    !Dropper.Drop(c.threshold, c.seed, x.d % TWO_32, x.s)
  }

  predicate Numbered(batches: seq<seq<nat>>) {
    forall d :: 0 <= d < |batches| ==> forall i :: 0 <= i < |batches[d]| ==> batches[d][i] < TWO_64 - 2
  }

  /** The sequence numbers of a batch: position p carries number p + 1. */
  function BatchIds(b: seq<nat>): (r: seq<u64>)
    requires forall i :: 0 <= i < |b| ==> b[i] < TWO_64 - 2
    ensures |r| == |b| && forall i :: 0 <= i < |r| ==> r[i] == b[i] + 1
  {
    seq(|b|, i requires 0 <= i < |b| => b[i] + 1)
  }

  /** What one more arrival adds to the stream. */
  function Brought(c: Config, batches: seq<seq<nat>>, x: Copy): seq<u64>
    requires Numbered(batches) && x.d < |batches| && x.s < TWO_16
  {
    if Passes(c, x) then BatchIds(batches[x.d]) else []
  }

  /** The sequence numbers that reach the duplicate window, in order. */
  function Stream(c: Config, batches: seq<seq<nat>>, streams: nat, net: seq<Copy>): seq<u64>
    requires Numbered(batches) && streams < TWO_16 && Routed(net, |batches|, streams)
  {
    if net == [] then []
    else
      var n := |net| - 1;
      Stream(c, batches, streams, net[..n]) + Brought(c, batches, net[n])
  }

  /** What the receiver publishes. */
  function Output(c: Config, sent: seq<seq<Bytes>>, streams: nat, net: seq<Copy>): (r: seq<Bytes>)
    requires c.window > 0 && Routed(net, |sent|, streams) && forall d :: 0 <= d < |sent| ==> |sent[d]| == streams
    ensures Readable(r)
  {
    Published(c.window, Usable(Heard(c, Delivered(sent, streams, net))))
  }

  // ---- What arrives ----

  /** A copy parses to exactly its batch, under its own ids. */
  lemma {:induction false} CopyParses(b: Bytes, d: nat, s: nat, fs: seq<Bytes>)
    requires IsCopy(b, d, s, fs)
    ensures WellHeaded(b) && Parsed(b) == fs && Complete(b)
    ensures DecodeHeader(b).dgramId == d % TWO_32 && DecodeHeader(b).streamId == s
  {
    RoundTrip(DecodeHeader(b), fs);
  }

  /** Every frame is the producer's frame with that number. */
  predicate Genuine(log: seq<Frame>, fs: seq<Bytes>)
    requires Readable(fs)
  {
    forall i :: 0 <= i < |fs| ==> 1 <= SeqId(fs[i]) <= |log| && fs[i] == log[SeqId(fs[i]) - 1]
  }

  lemma {:induction false} BatchFrames(log: seq<Frame>, b: seq<nat>)
    requires Produced(log) && Inside(log, b)
    ensures var fs := FramesAt(log, b);
            && Readable(fs) && Usable(fs) == fs && Genuine(log, fs)
            && (forall i :: 0 <= i < |b| ==> b[i] < TWO_64 - 2)
            && Ids(fs) == BatchIds(b)
  {
    UsableAll(FramesAt(log, b));
  }

  lemma {:induction false} UsableAll(fs: seq<Bytes>)
    requires Readable(fs)
    ensures Usable(fs) == fs
  {
    if fs != [] {
      UsableAll(fs[..|fs| - 1]);
    }
  }

  lemma RanNumbered(log: seq<Frame>, streams: nat, batches: seq<seq<nat>>, sent: seq<seq<Bytes>>)
    requires Ran(log, streams, batches, sent)
    ensures Numbered(batches)
  {
    forall d | 0 <= d < |batches|
      ensures forall i :: 0 <= i < |batches[d]| ==> batches[d][i] < TWO_64 - 2
    {
      BatchFrames(log, batches[d]);
    }
  }

  /** From the arrivals bs the receiver hears genuine frames numbered xs and finds nothing malformed. */
  ghost predicate Hears(c: Config, log: seq<Frame>, bs: seq<Bytes>, xs: seq<u64>) {
    var heard := Heard(c, bs);
    && Readable(heard) && Usable(heard) == heard && Genuine(log, heard)
    && Ids(heard) == xs
    && MalformedCount(c, bs) == 0
  }

  /** The receiver hears the producer's own frames, batch by batch. */
  lemma {:induction false} HeardIsStream(c: Config, log: seq<Frame>, streams: nat, batches: seq<seq<nat>>,
                                         sent: seq<seq<Bytes>>, net: seq<Copy>)
    requires Ran(log, streams, batches, sent) && Routed(net, |sent|, streams)
    ensures Numbered(batches)
    ensures Hears(c, log, Delivered(sent, streams, net), Stream(c, batches, streams, net))
  {
    RanNumbered(log, streams, batches, sent);
    if net != [] {
      var n := |net| - 1;
      HeardIsStream(c, log, streams, batches, sent, net[..n]);
      DeliveredSnoc(sent, streams, net);
      OneArrival(c, log, Delivered(sent, streams, net[..n]), Stream(c, batches, streams, net[..n]),
                 sent[net[n].d][net[n].s], net[n], batches[net[n].d]);
    }
  }

  lemma DeliveredSnoc(sent: seq<seq<Bytes>>, streams: nat, net: seq<Copy>)
    requires net != [] && Routed(net, |sent|, streams) && forall d :: 0 <= d < |sent| ==> |sent[d]| == streams
    ensures var n := |net| - 1;
            Delivered(sent, streams, net) == Delivered(sent, streams, net[..n]) + [sent[net[n].d][net[n].s]]
  {
  }

  lemma {:induction false} OneArrival(c: Config, log: seq<Frame>, before: seq<Bytes>, xs: seq<u64>,
                                      b: Bytes, x: Copy, batch: seq<nat>)
    requires Produced(log) && Inside(log, batch) && x.s < TWO_16 && IsCopy(b, x.d, x.s, FramesAt(log, batch))
    requires Hears(c, log, before, xs)
    ensures forall i :: 0 <= i < |batch| ==> batch[i] < TWO_64 - 2
    ensures Hears(c, log, before + [b], xs + if Passes(c, x) then BatchIds(batch) else [])
  {
    var fs := FramesAt(log, batch);
    BatchFrames(log, batch);
    CopyHeard(c, b, x, fs);
    if Passes(c, x) {
      HearsMore(c, log, before, xs, b, fs);
    } else {
      Seqs.NilRight(xs);
      HearsSame(c, log, before, xs, b);
    }
  }

  lemma {:induction false} HearsMore(c: Config, log: seq<Frame>, before: seq<Bytes>, xs: seq<u64>,
                                     b: Bytes, fs: seq<Bytes>)
    requires Hears(c, log, before, xs) && Survives(c, b) && Parsed(b) == fs && Defects(c, b) == 0
    requires Readable(fs) && Genuine(log, fs)
    ensures Hears(c, log, before + [b], xs + Ids(fs))
  {
    HeardSnoc(c, before, b);
    HeardMore(log, Heard(c, before), fs);
  }

  lemma {:induction false} HearsSame(c: Config, log: seq<Frame>, before: seq<Bytes>, xs: seq<u64>, b: Bytes)
    requires Hears(c, log, before, xs) && !Survives(c, b) && Defects(c, b) == 0
    ensures Hears(c, log, before + [b], xs)
  {
    HeardSnoc(c, before, b);
  }

  /** A copy survives iff the injector lets it through, and brings its batch and nothing malformed. */
  lemma {:induction false} CopyHeard(c: Config, b: Bytes, x: Copy, fs: seq<Bytes>)
    requires x.s < TWO_16 && IsCopy(b, x.d, x.s, fs) && Usable(fs) == fs
    ensures (Survives(c, b) <==> Passes(c, x)) && Defects(c, b) == 0
    ensures Survives(c, b) ==> Parsed(b) == fs
  {
    CopyParses(b, x.d, x.s, fs);
  }

  lemma GenuineAppend(log: seq<Frame>, fs: seq<Bytes>, gs: seq<Bytes>)
    requires Readable(fs) && Genuine(log, fs) && Readable(gs) && Genuine(log, gs)
    ensures Readable(fs + gs) && Genuine(log, fs + gs)
  {
  }

  lemma {:induction false} HeardMore(log: seq<Frame>, heard: seq<Bytes>, fs: seq<Bytes>)
    requires Readable(heard) && Genuine(log, heard) && Readable(fs) && Genuine(log, fs)
    ensures Readable(heard + fs) && Usable(heard + fs) == heard + fs && Genuine(log, heard + fs)
    ensures Ids(heard + fs) == Ids(heard) + Ids(fs)
  {
    GenuineAppend(log, heard, fs);
    UsableAll(heard + fs);
    IdsAppend(heard, fs);
  }

  lemma {:induction false} StreamBelow(c: Config, batches: seq<seq<nat>>, streams: nat, net: seq<Copy>)
    requires Numbered(batches) && streams < TWO_16 && Routed(net, |batches|, streams)
    ensures TOP !in Stream(c, batches, streams, net)
    ensures SafeRun(c.window, Stream(c, batches, streams, net))
  {
    if net != [] {
      StreamBelow(c, batches, streams, net[..|net| - 1]);
    }
    BelowSafe(c.window, Stream(c, batches, streams, net));
  }

  /** A number is in the stream iff a copy of a datagram with that position got through. */
  lemma {:induction false} StreamIff(c: Config, batches: seq<seq<nat>>, streams: nat, net: seq<Copy>, p: nat)
    requires Numbered(batches) && streams < TWO_16 && Routed(net, |batches|, streams)
    ensures p + 1 in Stream(c, batches, streams, net) <==>
            exists i :: 0 <= i < |net| && Passes(c, net[i]) && p in batches[net[i].d]
  {
    if net != [] {
      var n := |net| - 1;
      StreamIff(c, batches, streams, net[..n], p);
      BatchIdsIff(batches[net[n].d], p);
    }
  }

  lemma BatchIdsIff(b: seq<nat>, p: nat)
    requires forall i :: 0 <= i < |b| ==> b[i] < TWO_64 - 2
    ensures p + 1 in BatchIds(b) <==> p in b
  {
    if p in b {
      var i :| 0 <= i < |b| && b[i] == p;
      assert BatchIds(b)[i] == p + 1;
    }
  }

  // ---- Exactly once ----

  predicate Once(fs: seq<Bytes>)
    requires Readable(fs)
  {
    forall i, j :: 0 <= i < j < |fs| ==> SeqId(fs[i]) != SeqId(fs[j])
  }

  /** Whatever the network does: every published frame is the producer's, none is published twice, and
      position p is published iff one of its arrivals came within the window of the largest number that
      had arrived before. */
  lemma {:induction false} PublishedOnce(c: Config, log: seq<Frame>, streams: nat, batches: seq<seq<nat>>,
                                         sent: seq<seq<Bytes>>, net: seq<Copy>)
    requires Ran(log, streams, batches, sent) && Routed(net, |sent|, streams) && 0 < c.window <= Pow2(63)
    ensures Numbered(batches)
    ensures var out := Output(c, sent, streams, net);
            var xs := Stream(c, batches, streams, net);
            && Once(out) && Genuine(log, out)
            && Ids(out) == Accepted(c.window, xs)
            && forall p: nat :: p < |log| ==>
                 (log[p] in out <==> exists i :: 0 <= i < |xs| && xs[i] == p + 1 && InWindow(c.window, xs[..i], p + 1))
  {
    HeardIsStream(c, log, streams, batches, sent, net);
    StreamBelow(c, batches, streams, net);
    var heard := Heard(c, Delivered(sent, streams, net));
    var xs, out := Stream(c, batches, streams, net), Output(c, sent, streams, net);
    PublishedIds(c.window, heard);
    AcceptedDistinct(c.window, xs);
    OutputGenuine(log, heard, out);
    forall p: nat | p < |log|
      ensures log[p] in out <==> exists i :: 0 <= i < |xs| && xs[i] == p + 1 && InWindow(c.window, xs[..i], p + 1)
    {
      AcceptedIff(c.window, xs, p + 1);
      InOutputIff(log, out, p);
    }
  }

  /** The frames the receiver publishes fit the slots of its ring: each of them came out of a ring. */
  lemma {:induction false} OutputFits(c: Config, log: seq<Frame>, streams: nat, batches: seq<seq<nat>>,
                                      sent: seq<seq<Bytes>>, net: seq<Copy>)
    requires Ran(log, streams, batches, sent) && Routed(net, |sent|, streams) && 0 < c.window <= Pow2(63)
    ensures Fits(c, Delivered(sent, streams, net))
  {
    PublishedOnce(c, log, streams, batches, sent, net);
    GenuineFits(log, Output(c, sent, streams, net));
  }

  lemma GenuineFits(log: seq<Frame>, fs: seq<Bytes>)
    requires Produced(log) && Readable(fs) && Genuine(log, fs)
    ensures Capped(fs)
  {
    assert forall i :: 0 <= i < |fs| ==> fs[i] == log[SeqId(fs[i]) - 1];
  }

  lemma OutputGenuine(log: seq<Frame>, heard: seq<Bytes>, out: seq<Bytes>)
    requires Readable(heard) && Readable(out) && Genuine(log, heard) && forall f :: f in out ==> f in heard
    ensures Genuine(log, out)
  {
    forall i | 0 <= i < |out|
      ensures 1 <= SeqId(out[i]) <= |log| && out[i] == log[SeqId(out[i]) - 1]
    {
      assert out[i] in heard;
    }
  }

  lemma InOutputIff(log: seq<Frame>, out: seq<Bytes>, p: nat)
    requires Produced(log) && Readable(out) && Genuine(log, out) && p < |log|
    ensures log[p] in out <==> p + 1 in Ids(out)
  {
    if log[p] in out {
      var i :| 0 <= i < |out| && out[i] == log[p];
      assert Ids(out)[i] == p + 1;
    }
    if p + 1 in Ids(out) {
      var i :| 0 <= i < |out| && Ids(out)[i] == p + 1;
      assert out[i] == log[p];
    }
  }

  // ---- Only the injected dropper loses ----

  /** Every copy arrives at least once. */
  predicate Lossless(net: seq<Copy>, datagrams: nat, streams: nat) {
    forall d, s :: 0 <= d < datagrams && 0 <= s < streams ==> Copy(d, s) in net
  }

  /** Nothing arrives later than the window allows. */
  predicate Orderly(w: nat, xs: seq<u64>) {
    forall i, j :: 0 <= i < j < |xs| ==> xs[j] + w > xs[i]
  }

  /** The dropper took every copy of datagram d. */
  predicate AllDropped(c: Config, d: nat, streams: nat)
    requires streams < TWO_16
  {
    forall s :: 0 <= s < streams ==> Dropper.Drop(c.threshold, c.seed, d % TWO_32, s)
  }

  /** A picked-up position belongs to one datagram only. */
  lemma {:induction false} OneBatch(batches: seq<seq<nat>>, d: nat, e: nat, p: nat)
    requires Increasing(Flat(batches)) && d <= e < |batches| && p in batches[d] && p in batches[e]
    ensures d == e
  {
    var n := |batches| - 1;
    var front, last := Flat(batches[..n]), batches[n];
    if e < n {
      assert forall i, j :: 0 <= i < j < |front| ==> Flat(batches)[i] == front[i] && Flat(batches)[j] == front[j];
      OneBatch(batches[..n], d, e, p);
    } else if d < n {
      FlatHas(batches[..n], d, p);
      var i :| 0 <= i < |front| && front[i] == p;
      var j :| 0 <= j < |last| && last[j] == p;
      IncreasingApart(Flat(batches), i, |front| + j);
    }
  }

  lemma IncreasingApart(s: seq<nat>, i: nat, j: nat)
    requires Increasing(s) && i < j < |s|
    ensures s[i] < s[j]
  {
  }

  lemma {:induction false} FlatHas(batches: seq<seq<nat>>, d: nat, p: nat)
    requires d < |batches| && p in batches[d]
    ensures p in Flat(batches)
  {
    var n := |batches| - 1;
    if d < n {
      FlatHas(batches[..n], d, p);
    }
  }

  lemma OrderlyInWindow(w: nat, xs: seq<u64>, i: nat)
    requires Orderly(w, xs) && i < |xs|
    ensures InWindow(w, xs[..i], xs[i])
  {
    if i > 0 {
      var m := Seqs.MaxOf(xs[..i]);
      var k :| 0 <= k < i && xs[..i][k] == m;
    }
  }

  lemma {:induction false} OrderlyAppend(w: nat, a: seq<u64>, b: seq<u64>)
    ensures Orderly(w, a + b) <==>
            Orderly(w, a) && Orderly(w, b) && forall x, y :: x in a && y in b ==> y + w > x
  {
    var s := a + b;
    if Orderly(w, s) {
      forall i, j | 0 <= i < j < |a|
        ensures a[j] + w > a[i]
      {
        assert s[i] == a[i] && s[j] == a[j];
      }
      forall i, j | 0 <= i < j < |b|
        ensures b[j] + w > b[i]
      {
        assert s[|a| + i] == b[i] && s[|a| + j] == b[j];
      }
      forall x, y | x in a && y in b
        ensures y + w > x
      {
        var i :| 0 <= i < |a| && a[i] == x;
        var j :| 0 <= j < |b| && b[j] == y;
        assert s[i] == x && s[|a| + j] == y;
      }
    } else {
      var i, j :| 0 <= i < j < |s| && s[j] + w <= s[i];
      if i < |a| && j >= |a| {
        assert a[i] in a && b[j - |a|] in b;
      } else if i >= |a| {
        assert b[j - |a|] + w <= b[i - |a|];
      }
    }
  }

  /** Dropping copies on purpose does not increase displacement: it is enough that all arrivals, dropped
      ones included, stay within the window. */
  lemma {:induction false} DroppingKeepsOrder(c: Config, batches: seq<seq<nat>>, streams: nat, net: seq<Copy>)
    requires Numbered(batches) && streams < TWO_16 && Routed(net, |batches|, streams)
    requires Orderly(c.window, Stream(c.(threshold := 0), batches, streams, net))
    ensures Orderly(c.window, Stream(c, batches, streams, net))
    ensures forall x :: x in Stream(c, batches, streams, net) ==> x in Stream(c.(threshold := 0), batches, streams, net)
  {
    if net != [] {
      var n := |net| - 1;
      var ids := BatchIds(batches[net[n].d]);
      OrderlyAppend(c.window, Stream(c.(threshold := 0), batches, streams, net[..n]), ids);
      DroppingKeepsOrder(c, batches, streams, net[..n]);
      OrderlyAppend(c.window, Stream(c, batches, streams, net[..n]), ids);
    }
  }

  /** With the injected dropper as the only loss and displacement below the window, a picked-up message
      is missing exactly when the dropper took all of its copies. */
  lemma {:induction false} MissingIffAllDropped(c: Config, log: seq<Frame>, streams: nat, batches: seq<seq<nat>>,
                                                sent: seq<seq<Bytes>>, net: seq<Copy>, d: nat, p: nat)
    requires Ran(log, streams, batches, sent) && Routed(net, |sent|, streams) && 0 < c.window <= Pow2(63)
    requires Lossless(net, |sent|, streams) && Numbered(batches) && Orderly(c.window, Stream(c, batches, streams, net))
    requires d < |batches| && p in batches[d]
    ensures p < |log|
    ensures log[p] !in Output(c, sent, streams, net) <==> AllDropped(c, d, streams)
  {
    PickedInside(log, streams, batches, sent, d, p);
    if AllDropped(c, d, streams) {
      DroppedMissing(c, log, streams, batches, sent, net, d, p);
    } else {
      var s :| 0 <= s < streams && !Dropper.Drop(c.threshold, c.seed, d % TWO_32, s);
      assert Copy(d, s) in net;
      PassingArrives(c, log, streams, batches, sent, net, d, s, p);
    }
  }

  /** A message whose copies are all dropped is not published, whatever the network does. */
  lemma {:induction false} DroppedMissing(c: Config, log: seq<Frame>, streams: nat, batches: seq<seq<nat>>,
                                          sent: seq<seq<Bytes>>, net: seq<Copy>, d: nat, p: nat)
    requires Ran(log, streams, batches, sent) && Routed(net, |sent|, streams) && 0 < c.window <= Pow2(63)
    requires Numbered(batches) && d < |batches| && p in batches[d] && p < |log| && AllDropped(c, d, streams)
    ensures log[p] !in Output(c, sent, streams, net)
  {
    if log[p] in Output(c, sent, streams, net) {
      var x := ArrivedPassed(c, log, streams, batches, sent, net, p);
      OneBatch(batches, Min(x.d, d), Max(x.d, d), p);
      assert false;
    }
  }

  lemma PickedInside(log: seq<Frame>, streams: nat, batches: seq<seq<nat>>, sent: seq<seq<Bytes>>, d: nat, p: nat)
    requires Ran(log, streams, batches, sent) && d < |batches| && p in batches[d]
    ensures p < |log|
  {
    assert Inside(log, batches[d]);
  }

  /** A copy that is not dropped gets its messages published. */
  lemma {:induction false} PassingArrives(c: Config, log: seq<Frame>, streams: nat, batches: seq<seq<nat>>,
                                          sent: seq<seq<Bytes>>, net: seq<Copy>, d: nat, s: nat, p: nat)
    requires Ran(log, streams, batches, sent) && Routed(net, |sent|, streams) && 0 < c.window <= Pow2(63)
    requires Numbered(batches) && Orderly(c.window, Stream(c, batches, streams, net))
    requires d < |batches| && s < streams && p < |log| && p in batches[d] && Copy(d, s) in net && Passes(c, Copy(d, s))
    ensures log[p] in Output(c, sent, streams, net)
  {
    var xs := Stream(c, batches, streams, net);
    var i :| 0 <= i < |net| && net[i] == Copy(d, s);
    StreamIff(c, batches, streams, net, p);
    var j :| 0 <= j < |xs| && xs[j] == p + 1;
    OrderlyInWindow(c.window, xs, j);
    PublishedOnce(c, log, streams, batches, sent, net);
  }

  /** A published message came in a copy that was not dropped. */
  lemma {:induction false} ArrivedPassed(c: Config, log: seq<Frame>, streams: nat, batches: seq<seq<nat>>,
                                         sent: seq<seq<Bytes>>, net: seq<Copy>, p: nat) returns (x: Copy)
    requires Ran(log, streams, batches, sent) && Routed(net, |sent|, streams) && 0 < c.window <= Pow2(63)
    requires Numbered(batches) && p < |log| && log[p] in Output(c, sent, streams, net)
    ensures x in net && x.d < |batches| && x.s < streams && p in batches[x.d] && Passes(c, x)
  {
    PublishedOnce(c, log, streams, batches, sent, net);
    StreamIff(c, batches, streams, net, p);
    var i :| 0 <= i < |net| && Passes(c, net[i]) && p in batches[net[i].d];
    x := net[i];
  }

  /** Sending the same batches on more streams never loses a message. */
  lemma {:induction false} MoreStreamsNeverLose(c: Config, log: seq<Frame>, batches: seq<seq<nat>>,
                                                streams: nat, sent: seq<seq<Bytes>>, net: seq<Copy>,
                                                streams': nat, sent': seq<seq<Bytes>>, net': seq<Copy>, f: Bytes)
    requires streams <= streams' && 0 < c.window <= Pow2(63) && Numbered(batches)
    requires Ran(log, streams, batches, sent) && Routed(net, |sent|, streams)
    requires Ran(log, streams', batches, sent') && Routed(net', |sent'|, streams')
    requires Lossless(net', |sent'|, streams') && Orderly(c.window, Stream(c, batches, streams', net'))
    ensures f in Output(c, sent, streams, net) ==> f in Output(c, sent', streams', net')
  {
    if f in Output(c, sent, streams, net) {
      PublishedOnce(c, log, streams, batches, sent, net);
      var p := PositionOf(log, Output(c, sent, streams, net), f);
      var x := ArrivedPassed(c, log, streams, batches, sent, net, p);
      PassingArrives(c, log, streams', batches, sent', net', x.d, x.s, p);
    }
  }

  lemma PositionOf(log: seq<Frame>, fs: seq<Bytes>, f: Bytes) returns (p: nat)
    requires Readable(fs) && Genuine(log, fs) && f in fs
    ensures p < |log| && f == log[p]
  {
    var i :| 0 <= i < |fs| && fs[i] == f;
    p := SeqId(fs[i]) - 1;
  }

  // ---- Losing a delivery ----

  lemma StreamSnoc(c: Config, batches: seq<seq<nat>>, streams: nat, net: seq<Copy>, x: Copy)
    requires Numbered(batches) && streams < TWO_16 && Routed(net, |batches|, streams)
    requires x.d < |batches| && x.s < streams
    ensures Routed(net + [x], |batches|, streams)
    ensures Stream(c, batches, streams, net + [x]) == Stream(c, batches, streams, net) + Brought(c, batches, x)
  {
    var all := net + [x];
    assert all[..|net|] == net && all[|net|] == x;
  }

  lemma {:induction false} StreamSplit(c: Config, batches: seq<seq<nat>>, streams: nat, net: seq<Copy>, rest: seq<Copy>)
    requires Numbered(batches) && streams < TWO_16
    requires Routed(net, |batches|, streams) && Routed(rest, |batches|, streams)
    ensures Routed(net + rest, |batches|, streams)
    ensures Stream(c, batches, streams, net + rest) ==
            Stream(c, batches, streams, net) + Stream(c, batches, streams, rest)
  {
    if rest == [] {
      Seqs.NilRight(net);
      Seqs.NilRight(Stream(c, batches, streams, net));
    } else {
      var n := |rest| - 1;
      StreamSplit(c, batches, streams, net, rest[..n]);
      Seqs.SplitLast(net, rest);
      StreamSnoc(c, batches, streams, net + rest[..n], rest[n]);
      Seqs.Assoc(Stream(c, batches, streams, net), Stream(c, batches, streams, rest[..n]),
                 Brought(c, batches, rest[n]));
    }
  }

  /** When a delivery fails, every published message that is not in that datagram is still published. */
  lemma {:induction false} LossIsLocal(c: Config, log: seq<Frame>, streams: nat, batches: seq<seq<nat>>,
                                       sent: seq<seq<Bytes>>, net: seq<Copy>, x: Copy, rest: seq<Copy>, p: nat)
    requires Ran(log, streams, batches, sent) && 0 < c.window <= Pow2(63) && p < |log|
    requires Routed(net, |sent|, streams) && Routed(rest, |sent|, streams) && x.d < |sent| && x.s < streams
    requires p !in batches[x.d]
    ensures Routed(net + [x] + rest, |sent|, streams) && Routed(net + rest, |sent|, streams)
    ensures log[p] in Output(c, sent, streams, net + [x] + rest) ==> log[p] in Output(c, sent, streams, net + rest)
  {
    RanNumbered(log, streams, batches, sent);
    StreamSnoc(c, batches, streams, net, x);
    StreamSplit(c, batches, streams, net + [x], rest);
    StreamSplit(c, batches, streams, net, rest);
    if log[p] in Output(c, sent, streams, net + [x] + rest) {
      var lost := Brought(c, batches, x);
      BatchIdsIff(batches[x.d], p);
      OutputHas(c, log, streams, batches, sent, net + [x] + rest, p);
      FewerArrivals(c.window, Stream(c, batches, streams, net), lost, [], Stream(c, batches, streams, rest), p + 1);
      Seqs.NilRight(Stream(c, batches, streams, net));
      OutputHas(c, log, streams, batches, sent, net + rest, p);
    }
  }

  lemma {:induction false} OutputHas(c: Config, log: seq<Frame>, streams: nat, batches: seq<seq<nat>>,
                                     sent: seq<seq<Bytes>>, net: seq<Copy>, p: nat)
    requires Ran(log, streams, batches, sent) && Routed(net, |sent|, streams) && 0 < c.window <= Pow2(63)
    requires Numbered(batches) && p < |log|
    ensures log[p] in Output(c, sent, streams, net) <==> p + 1 in Accepted(c.window, Stream(c, batches, streams, net))
  {
    PublishedOnce(c, log, streams, batches, sent, net);
    InOutputIff(log, Output(c, sent, streams, net), p);
  }

  // ---- The report ----

  /** Once reads return the frames of distinct numbers at increasing positions, the report is exact iff
      those read do not span all 64-bit numbers. */
  lemma {:induction false} DistinctReport(log: seq<Frame>, start: nat, readIndex: nat, picks: seq<nat>, ids: seq<u64>)
    requires Readable(log) && Once(log) && Consumed(log, start, readIndex, picks, ids)
    ensures Metrics.Distinct(ids) && (Metrics.Exact(ids) <==> !Metrics.FullSpan(ids))
    ensures forall q :: q in ids ==> q in Ids(log)
  {
    ConsumedDistinct(log, start, readIndex, picks, ids);
    forall i | 0 <= i < |ids|
      ensures ids[i] == Ids(log)[picks[i]]
    {
    }
    Metrics.ExactIff(ids);
  }

  /** Whatever arrives, no number is published twice. */
  lemma {:induction false} PublishedDistinct(w: nat, fs: seq<Bytes>)
    requires 0 < w <= Pow2(63) && Readable(fs) && SafeRun(w, Ids(fs))
    ensures Once(Published(w, fs)) && forall q :: q in Ids(Published(w, fs)) ==> q in Ids(fs)
  {
    PublishedIds(w, fs);
    AcceptedDistinct(w, Ids(fs));
    var ids := Ids(Published(w, fs));
    assert forall i :: 0 <= i < |ids| ==> ids[i] == SeqId(Published(w, fs)[i]);
  }

  /** Whatever the network does, the report of a consumer that reads the published frames is exact:
      received never exceeds expected, and `dropped` is the number of sequence numbers in the span that
      were not received. */
  lemma {:induction false} ReportIsExact(c: Config, log: seq<Frame>, streams: nat, batches: seq<seq<nat>>,
                                         sent: seq<seq<Bytes>>, net: seq<Copy>,
                                         start: nat, readIndex: nat, picks: seq<nat>, ids: seq<u64>)
    requires Ran(log, streams, batches, sent) && Routed(net, |sent|, streams) && 0 < c.window <= Pow2(63)
    requires Consumed(Output(c, sent, streams, net), start, readIndex, picks, ids)
    ensures Metrics.Distinct(ids) && Metrics.Exact(ids)
    ensures forall q :: q in ids ==> 1 <= q <= |log|
  {
    var out := Output(c, sent, streams, net);
    PublishedOnce(c, log, streams, batches, sent, net);
    forall i | 0 <= i < |out|
      ensures 1 <= Ids(out)[i] <= |log|
    {
      assert Ids(out)[i] == SeqId(out[i]);
    }
    DistinctReport(out, start, readIndex, picks, ids);
  }

  // ---- Growth of a run ----

  /** The arrivals are copies of what was sent. */
  predicate Carried(sent: seq<seq<Bytes>>, streams: nat, net: seq<Copy>, arrivals: seq<Bytes>) {
    && Routed(net, |sent|, streams) && (forall d :: 0 <= d < |sent| ==> |sent[d]| == streams)
    && arrivals == Delivered(sent, streams, net)
  }

  lemma NothingCarried(sent: seq<seq<Bytes>>, streams: nat)
    requires sent == []
    ensures Carried(sent, streams, [], [])
  {
  }

  lemma CarriedOne(sent: seq<seq<Bytes>>, streams: nat, net: seq<Copy>, arrivals: seq<Bytes>, x: Copy)
    requires Carried(sent, streams, net, arrivals) && x.d < |sent| && x.s < streams
    ensures Carried(sent, streams, net + [x], arrivals + [sent[x.d][x.s]])
  {
    assert (net + [x])[..|net|] == net;
    DeliveredSnoc(sent, streams, net + [x]);
  }

  lemma CarriedGrows(sent: seq<seq<Bytes>>, sent': seq<seq<Bytes>>, streams: nat, net: seq<Copy>, arrivals: seq<Bytes>)
    requires Carried(sent, streams, net, arrivals) && sent <= sent'
    requires forall d :: 0 <= d < |sent'| ==> |sent'[d]| == streams
    ensures Carried(sent', streams, net, arrivals)
  {
    assert forall d :: 0 <= d < |sent| ==> sent'[d] == sent[d];
  }

  lemma ProducedPrefix(log: seq<Frame>, frames: seq<Frame>)
    requires Produced(frames) && log <= frames
    ensures Produced(log)
  {
    assert forall i :: 0 <= i < |log| ==> log[i] == frames[i];
  }

  /** The producer's next frames, cut into the groups published before successive reads. */
  function Slices(frames: seq<Frame>, from: nat, cuts: seq<nat>): seq<seq<Frame>>
    requires from <= |frames|
    decreases |cuts|
  {
    if cuts == [] then []
    else
      var to := Min(from + cuts[0], |frames|);
      [frames[from..to]] + Slices(frames, to, cuts[1..])
  }

  lemma {:induction false} SlicesPrefix(frames: seq<Frame>, from: nat, cuts: seq<nat>)
    requires from <= |frames|
    ensures frames[..from] + Flat(Slices(frames, from, cuts)) <= frames
    decreases |cuts|
  {
    if cuts != [] {
      var to := Min(from + cuts[0], |frames|);
      var rest := Slices(frames, to, cuts[1..]);
      SlicesPrefix(frames, to, cuts[1..]);
      FlatCons(frames[from..to], rest);
      assert frames[..from] + frames[from..to] == frames[..to];
      Seqs.Assoc(frames[..from], frames[from..to], Flat(rest));
    }
  }
}
