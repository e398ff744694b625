/** The whole system as one object: producer ring, sender, network, receiver, its ring and consumer,
    driven by any sequence of events. */
module Pipeline {
  import opened Words
  import opened WireSpec
  import opened RingSpec
  import opened ShmRing
  import opened Message
  import opened SenderSpec
  import opened ReceiverSpec
  import opened PipelineSpec
  import Sender
  import Receiver
  import Consumer
  import Metrics
  import Seqs
  import opened DedupSpec
  import opened DedupLaws

  /** One round of the sender, with the producer publishing cuts[i] frames before its i-th read; the
      arrival of one copy; one pass of the consumer's loop. */
  datatype Event = Send(cuts: seq<nat>) | Deliver(x: Copy) | Consume(now: u64)

  /** Rounds of the sender at the end of a run in which the producer stands still. */
  function IdleRounds(events: seq<Event>): nat {
    if events == [] || events[|events| - 1] != Event.Send([]) then 0 else 1 + IdleRounds(events[..|events| - 1])
  }

  /** Polls of the consumer at the end of a run. */
  function Polls(events: seq<Event>): nat {
    if events == [] || !events[|events| - 1].Consume? then 0 else 1 + Polls(events[..|events| - 1])
  }

  lemma EndsWith(events: seq<Event>, i: nat)
    requires i < |events|
    ensures IdleRounds(events[..i + 1]) == if events[i] == Event.Send([]) then 1 + IdleRounds(events[..i]) else 0
    ensures Polls(events[..i + 1]) == if events[i].Consume? then 1 + Polls(events[..i]) else 0
  {
    assert events[..i + 1][..i] == events[..i];
  }

  lemma WholeRun(events: seq<Event>, i: nat)
    requires i == |events|
    ensures IdleRounds(events[..i]) == IdleRounds(events) && Polls(events[..i]) == Polls(events)
  {
    assert events[..i] == events;
  }

  /** Every delivery among the first i events of a copy of one of these datagrams has taken place. */
  predicate Delivers(events: seq<Event>, i: nat, sent: nat, streams: nat, net: seq<Copy>)
    requires i <= |events|
  {
    forall j :: 0 <= j < i && events[j].Deliver? && events[j].x.d < sent && events[j].x.s < streams
                ==> events[j].x in net
  }

  lemma DeliversNext(events: seq<Event>, i: nat, sent: nat, streams: nat, net: seq<Copy>, more: seq<Copy>)
    requires i < |events| && Delivers(events, i, sent, streams, net) && net <= more
    requires events[i].Deliver? && events[i].x.d < sent && events[i].x.s < streams ==> events[i].x in more
    ensures Delivers(events, i + 1, sent, streams, more)
  {
    assert forall x :: x in net ==> x in more;
  }

  class Pipeline {
    const tx: Ring
    const rx: Ring
    const sender: Sender.Sender
    const receiver: Receiver.Receiver
    const consumer: Consumer.Consumer
    /** Everything the producer will ever write, in order. */
    const frames: seq<Frame>
    ghost var net: seq<Copy>

    ghost predicate Wired()
    {
      && tx != rx && tx.slots != rx.slots
      && sender.ring == tx && receiver.ring == rx && consumer.ring == rx
      && sender.dgram != consumer.frame
    }

    ghost predicate Parts()
      reads tx, tx.slots, rx, rx.slots, sender, sender.builder
      reads receiver, receiver.window, receiver.window.bits, consumer, consumer.acc
    {
      && Wired() && Produced(frames) && tx.log <= frames
      && sender.Valid() && receiver.Valid() && consumer.Valid()
    }

    ghost predicate Valid()
      reads this`net, tx, tx.slots, rx, rx.slots, sender, sender.builder
      reads receiver, receiver.window, receiver.window.bits, consumer, consumer.acc
    {
      Parts() && Carried(sender.sent, sender.streams, net, receiver.arrivals)
    }

    /** Connects freshly started components. */
    constructor (sender: Sender.Sender, receiver: Receiver.Receiver, consumer: Consumer.Consumer,
                 frames: seq<Frame>)
      requires Produced(frames) && sender.ring.log <= frames
      requires sender.Valid() && receiver.Valid() && consumer.Valid()
      requires sender.sent == [] && receiver.arrivals == [] && consumer.ring == receiver.ring
      requires sender.ring != receiver.ring && sender.ring.slots != receiver.ring.slots
      requires sender.dgram != consumer.frame
      ensures Valid() && net == [] && this.frames == frames
      ensures this.sender == sender && this.receiver == receiver && this.consumer == consumer
    {
      this.tx, this.rx := sender.ring, receiver.ring;
      this.sender, this.receiver, this.consumer, this.frames := sender, receiver, consumer, frames;
      net := [];
      NothingCarried(sender.sent, sender.streams);
    }

    method Send(cuts: seq<nat>)
      requires Valid()
      modifies tx, tx.slots, sender, sender.builder, sender.dgram
      ensures Valid() && old(sender.sent) <= sender.sent && old(tx.log) <= tx.log
      ensures cuts == [] ==> tx.log == old(tx.log)
      ensures cuts == [] && sender.count == 0 ==>
                RoundDone(|tx.log|, tx.slotCount, old(sender.readIndex), sender.readIndex,
                          |sender.sent| > |old(sender.sent)|)
    {
      var from := tx.LiveEdge();
      var feed := Slices(frames, from, cuts);
      FeedFits(from, cuts);
      ghost var sent := sender.sent;
      var progress := sender.Iterate(feed);
      CarriedGrows(sent, sender.sent, sender.streams, net, receiver.arrivals);
    }

    lemma FeedFits(from: nat, cuts: seq<nat>)
      requires Valid() && from == |tx.log|
      ensures from <= |frames| && tx.log + Flat(Slices(frames, from, cuts)) <= frames
      ensures forall i :: 0 <= i < |Slices(frames, from, cuts)| ==> Capped(Slices(frames, from, cuts)[i])
    {
      assert tx.log == frames[..from];
      SlicesPrefix(frames, from, cuts);
      SlicesCapped(frames, from, cuts);
    }

    method Deliver(x: Copy)
      requires Valid() && x.d < |sender.sent| && x.s < sender.streams
      modifies this`net, rx, rx.slots, receiver, receiver.window, receiver.window.bits, receiver.reader
      ensures Valid() && net == old(net) + [x]
    {
      var b := sender.sent[x.d][x.s];
      NextFits(x);
      Arrive(b);
      Book(x);
    }

    ghost method Book(x: Copy)
      requires Parts() && Carried(sender.sent, sender.streams, net + [x], receiver.arrivals)
      modifies this`net
      ensures Valid() && net == old(net) + [x]
    {
      net := net + [x];
    }

    /** The next arrival publishes only frames that fit the consumer's ring. */
    lemma {:induction false} NextFits(x: Copy)
      requires Valid() && x.d < |sender.sent| && x.s < sender.streams
      ensures Fits(receiver.Cfg(), receiver.arrivals + [sender.sent[x.d][x.s]])
      ensures Carried(sender.sent, sender.streams, net + [x], receiver.arrivals + [sender.sent[x.d][x.s]])
    {
      ProducedPrefix(tx.log, frames);
      WindowFits();
      CarriedOne(sender.sent, sender.streams, net, receiver.arrivals, x);
      Seqs.NilRight(Flat(sender.batches));
      OutputFits(receiver.Cfg(), tx.log, sender.streams, sender.batches, sender.sent, net + [x]);
    }

    /** The receiver handles a datagram; the consumer's ring only grows. */
    method Arrive(b: Bytes)
      requires Parts() && Fits(receiver.Cfg(), receiver.arrivals + [b])
      modifies rx, rx.slots, receiver, receiver.window, receiver.window.bits, receiver.reader
      ensures Parts() && receiver.arrivals == old(receiver.arrivals) + [b]
    {
      ghost var log := rx.log;
      receiver.HandleMore(b);
      assert sender.Valid();
      assert consumer.Valid() by {
        Consumer.ConsumedGrows(log, rx.log, consumer.start, consumer.readIndex, consumer.picks, consumer.acc.ids);
      }
    }

    method Consume(now: u64)
      requires Valid()
      modifies consumer, consumer.acc, consumer.frame
      ensures Valid()
      ensures match LogRead(rx.log, rx.slotCount, old(consumer.readIndex))
              case Ok(f) =>
                && consumer.picks == old(consumer.picks) + [old(consumer.readIndex)]
                && consumer.readIndex == old(consumer.readIndex) + 1
                && (|f| >= MSG_HEADER ==>
                      consumer.acc.latencies == old(consumer.acc.latencies) + [Consumer.Age(now, SendTs(f))])
              case Empty => consumer.picks == old(consumer.picks) && consumer.readIndex == old(consumer.readIndex)
              case Lapped(p) => consumer.picks == old(consumer.picks) && consumer.readIndex == p
    {
      consumer.Poll(now);
    }

    /** The sender's trace is a proper run, and the receiver has published the specified output. */
    lemma {:induction false} Proper()
      requires Valid()
      ensures Ran(tx.log, sender.streams, sender.batches, sender.sent)
      ensures rx.log == Output(receiver.Cfg(), sender.sent, sender.streams, net)
    {
      ProducedPrefix(tx.log, frames);
      Seqs.NilRight(Flat(sender.batches));
    }

    /** What holds in every state of every run: the sender's trace is a proper run over the producer's
        log, the receiver has published exactly the specified output, each message once and unaltered,
        nothing was malformed, and both ends' books balance. */
    lemma {:induction false} Sound()
      requires Valid()
      ensures Ran(tx.log, sender.streams, sender.batches, sender.sent)
      ensures rx.log == Output(receiver.Cfg(), sender.sent, sender.streams, net)
      ensures Once(rx.log) && Genuine(tx.log, rx.log)
      ensures receiver.malformed == 0
      ensures receiver.messages == receiver.window.accepted + receiver.window.duplicates + receiver.window.tooOld
      ensures receiver.published == receiver.window.accepted
      ensures sender.readIndex == sender.start + sender.messages + sender.lappedMsgs
      ensures |Skipped(sender.start, sender.readIndex, Flat(sender.batches))| == sender.lappedMsgs
    {
      Proper();
      Seqs.NilRight(Flat(sender.batches));
      PassedOrPicked(tx.log, sender.start, sender.readIndex, Flat(sender.batches));
      WindowFits();
      HeardIsStream(receiver.Cfg(), tx.log, sender.streams, sender.batches, sender.sent, net);
      PublishedOnce(receiver.Cfg(), tx.log, sender.streams, sender.batches, sender.sent, net);
      Balanced();
    }

    lemma WindowFits()
      requires Valid()
      ensures 0 < receiver.window.size <= Pow2(63)
    {
      Pow2Monotone(receiver.window.pow2, 63);
    }

    lemma Balanced()
      requires Valid() && Ran(tx.log, sender.streams, sender.batches, sender.sent)
      ensures receiver.messages == receiver.window.accepted + receiver.window.duplicates + receiver.window.tooOld
      ensures receiver.published == receiver.window.accepted
    {
      var c := receiver.Cfg();
      var heard := Heard(c, receiver.arrivals);
      WindowFits();
      HeardIsStream(c, tx.log, sender.streams, sender.batches, sender.sent, net);
      StreamBelow(c, sender.batches, sender.streams, net);
      EveryCallCounted(c.window, Ids(heard));
      PublishedIds(c.window, heard);
      RunTracks(c.window, Ids(heard));
    }

    /** x is a copy of one of these datagrams. */
    predicate Sendable(x: Copy, sent: seq<seq<Bytes>>) {
      x.d < |sent| && x.s < sender.streams
    }

    method Step(e: Event)
      requires Valid()
      modifies this`net, tx, tx.slots, rx, rx.slots, sender, sender.builder, sender.dgram
      modifies receiver, receiver.window, receiver.window.bits, receiver.reader
      modifies consumer, consumer.acc, consumer.frame
      ensures Valid() && old(net) <= net && old(sender.sent) <= sender.sent
      ensures e == Event.Send([]) ==> tx.log == old(tx.log)
      ensures e == Event.Send([]) && sender.count == 0 ==>
                sender.readIndex >= Min(|tx.log|, old(sender.readIndex) + 1)
      ensures e.Consume? ==> rx.log == old(rx.log) && consumer.readIndex >= Min(|rx.log|, old(consumer.readIndex) + 1)
      ensures e.Deliver? && Sendable(e.x, old(sender.sent)) ==> e.x in net
    {
      match e {
        case Send(cuts) => Send(cuts);
        case Consume(now) => Consume(now);
        case Deliver(x) =>
          if x.d < |sender.sent| && x.s < sender.streams {
            Deliver(x);
          }
      }
    }

    /** After the first i events: nothing taken back, and every delivery of a copy sent before them done;
        each round at the end has advanced the sender and each poll the consumer. */
    ghost predicate Advanced(events: seq<Event>, i: nat, netBefore: seq<Copy>, sentBefore: seq<seq<Bytes>>)
      requires i <= |events|
      reads this`net, tx, rx, sender, consumer
    {
      && netBefore <= net && sentBefore <= sender.sent
      && Delivers(events, i, |sentBefore|, sender.streams, net)
      && (sender.count == 0 ==> sender.readIndex >= Min(|tx.log|, IdleRounds(events[..i])))
      && consumer.readIndex >= Min(|rx.log|, Polls(events[..i]))
    }

    method Next(events: seq<Event>, i: nat, ghost netBefore: seq<Copy>, ghost sentBefore: seq<seq<Bytes>>)
      requires Valid() && i < |events| && Advanced(events, i, netBefore, sentBefore)
      modifies this`net, tx, tx.slots, rx, rx.slots, sender, sender.builder, sender.dgram
      modifies receiver, receiver.window, receiver.window.bits, receiver.reader
      modifies consumer, consumer.acc, consumer.frame
      ensures Valid() && Advanced(events, i + 1, netBefore, sentBefore)
    {
      EndsWith(events, i);
      ghost var before := net;
      Step(events[i]);
      DeliversNext(events, i, |sentBefore|, sender.streams, before, net);
    }

    /** Any run: rounds, arrivals and polls in any order.  Enough rounds at the end, with a producer that
        stands still, leave the sender with nothing to read, and enough polls the consumer. */
    method Run(events: seq<Event>)
      requires Valid()
      modifies this`net, tx, tx.slots, rx, rx.slots, sender, sender.builder, sender.dgram
      modifies receiver, receiver.window, receiver.window.bits, receiver.reader
      modifies consumer, consumer.acc, consumer.frame
      ensures Valid() && Once(rx.log) && Genuine(tx.log, rx.log)
      ensures Advanced(events, |events|, old(net), old(sender.sent))
      ensures sender.count == 0 && IdleRounds(events) >= |tx.log| ==> sender.readIndex >= |tx.log|
      ensures Polls(events) >= |rx.log| ==> consumer.readIndex >= |rx.log|
    {
      var i := 0;
      while i < |events|
        invariant 0 <= i <= |events| && Valid() && Advanced(events, i, old(net), old(sender.sent))
      {
        Next(events, i, old(net), old(sender.sent));
        i := i + 1;
      }
      WholeRun(events, i);
      Sound();
    }

    /** Once the consumer has nothing left to read, it has every published message that is still in its
        ring. */
    lemma {:induction false} AllPicked(q: nat)
      requires Valid() && consumer.readIndex >= |rx.log|
      requires consumer.start <= q < |rx.log| && q + rx.slotCount >= |rx.log|
      ensures |rx.log[q]| >= MSG_HEADER && q in consumer.picks && SeqId(rx.log[q]) in consumer.acc.ids
    {
      Sound();
      assert consumer.Valid();
      RecordedAt(rx.log, consumer.picks, consumer.acc.ids, q);
    }

    /** Position q of the consumer's ring holds message p; it has been read unless it has left the ring. */
    ghost predicate Recorded(q: nat, p: nat)
      reads rx, consumer, consumer.acc
    {
      q + rx.slotCount >= |rx.log| ==> q in consumer.picks && p + 1 in consumer.acc.ids
    }

    /** In particular, while nothing arrives later than the window allows: every position of a delivered copy
        that the injector let through, unless its frame has left the ring. */
    lemma {:induction false} DeliveredIsRecorded(x: Copy, p: nat)
      requires Valid() && consumer.readIndex >= |rx.log| && consumer.start == 0
      requires x in net && Sendable(x, sender.sent) && Passes(receiver.Cfg(), x) && p in sender.batches[x.d]
      requires Numbered(sender.batches)
      requires Orderly(receiver.window.size, Stream(receiver.Cfg(), sender.batches, sender.streams, net))
      ensures p < |tx.log| && exists q: nat :: q < |rx.log| && rx.log[q] == tx.log[p] && Recorded(q, p)
    {
      Proper();
      WindowFits();
      PickedInside(tx.log, sender.streams, sender.batches, sender.sent, x.d, p);
      PassingArrives(receiver.Cfg(), tx.log, sender.streams, sender.batches, sender.sent, net, x.d, x.s, p);
      var q: nat :| q < |rx.log| && rx.log[q] == tx.log[p];
      if q + rx.slotCount >= |rx.log| {
        AllPicked(q);
      }
    }

    /** The consumer's report after any run is exact. */
    method Finish() returns (r: Metrics.Report)
      requires Valid()
      ensures r.received == |consumer.acc.ids|
      ensures consumer.acc.ids != [] ==>
                r.received <= r.expected && r.dropped == |Metrics.Missing(consumer.acc.ids)|
    {
      if consumer.acc.ids != [] {
        Sound();
        WindowFits();
        ReportIsExact(receiver.Cfg(), tx.log, sender.streams, sender.batches, sender.sent, net,
                      consumer.start, consumer.readIndex, consumer.picks, consumer.acc.ids);
      }
      r := consumer.acc.MakeReport();
    }
  }

  /** Starts all components the way the programs do: the sender at the live edge, the consumer at 0. */
  method Start(frames: seq<Frame>, txPow2: nat, txMemory: seq<Slot>, rxPow2: nat, rxMemory: seq<Slot>,
               streams: nat, windowPow2: nat, threshold: u64, seed: u64) returns (p: Pipeline)
    requires Produced(frames) && 1 <= streams < TWO_16 && 6 <= windowPow2 <= 63
    requires |txMemory| == Pow2(txPow2) && |rxMemory| == Pow2(rxPow2)
    requires forall j :: 0 <= j < |txMemory| ==> |txMemory[j].bytes| == FRAME_CAP
    requires forall j :: 0 <= j < |rxMemory| ==> |rxMemory[j].bytes| == FRAME_CAP
    ensures p.Valid() && p.net == [] && p.frames == frames
  {
    var tx := new Ring(txPow2, txMemory);
    var rx := new Ring(rxPow2, rxMemory);
    var sender := new Sender.Sender(tx, streams, 0, true);
    var receiver := new Receiver.Receiver(rx, windowPow2, threshold, seed);
    var consumer := new Consumer.Consumer(rx, 0, false);
    assert sender.Valid();
    assert receiver.Valid();
    p := new Pipeline(sender, receiver, consumer, frames);
  }

  lemma {:induction false} SlicesCapped(frames: seq<Frame>, from: nat, cuts: seq<nat>)
    requires Produced(frames) && from <= |frames|
    ensures forall i :: 0 <= i < |Slices(frames, from, cuts)| ==> Capped(Slices(frames, from, cuts)[i])
    decreases |cuts|
  {
    if cuts != [] {
      SlicesCapped(frames, Min(from + cuts[0], |frames|), cuts[1..]);
    }
  }

  lemma RecordedAt(log: seq<Frame>, picks: seq<nat>, ids: seq<u64>, q: nat)
    requires Inside(log, picks) && Consumer.IdsMatch(log, picks, ids) && q in picks && q < |log|
    requires |log[q]| >= MSG_HEADER
    ensures SeqId(log[q]) in ids
  {
    var i :| 0 <= i < |picks| && picks[i] == q;
    assert ids[i] == SeqId(log[q]);
  }

  /** Every frame of a copy came out of the producer's ring and so fits a slot. */
  lemma CopyFits(log: seq<Frame>, streams: nat, batches: seq<seq<nat>>, sent: seq<seq<Bytes>>, x: Copy)
    requires Produced(log) && SentOk(log, streams, batches, sent) && x.d < |sent| && x.s < streams
    ensures WellHeaded(sent[x.d][x.s]) && Capped(Parsed(sent[x.d][x.s]))
  {
    CopyParses(sent[x.d][x.s], x.d, x.s, FramesAt(log, batches[x.d]));
  }
}
