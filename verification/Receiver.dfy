/** The receiver's loop: parse, drop on purpose, suppress duplicates, publish. */
module Receiver {
  import opened Words
  import opened WireSpec
  import opened Wire
  import opened RingSpec
  import opened ShmRing
  import opened Message
  import opened DedupSpec
  import opened Dedup
  import opened ReceiverSpec
  import Dropper
  import Seqs

  class Receiver {
    const ring: Ring
    const window: Window
    const reader: Reader
    const threshold: u64
    const seed: u64
    var datagrams: nat
    var injectedDrops: nat
    var malformed: nat
    var messages: nat
    var published: nat
    ghost var arrivals: seq<Bytes>

    ghost predicate Wired()
      reads ring, ring.slots, window, window.bits
    {
      ring.Valid() && window.Valid()
    }

    ghost function Cfg(): (c: Config)
    {
      Config(window.size, threshold, seed)
    }

    /** The state after hearing fs. */
    ghost predicate After(fs: seq<Bytes>)
      requires Wired()
      reads this`messages, this`published, ring, ring.slots, window, window.bits
    {
      && window.history == Ids(Usable(fs))
      && ring.log == ReceiverSpec.Published(window.size, Usable(fs))
      && messages == |fs| && published == |ring.log|
    }

    ghost predicate Valid()
      reads this, ring, ring.slots, window, window.bits
    {
      && Wired() && After(Heard(Cfg(), arrivals))
      && datagrams == |arrivals|
      && injectedDrops == InjectedCount(Cfg(), arrivals)
      && malformed == MalformedCount(Cfg(), arrivals)
    }

    /** What is published of fs fits the slots. */
    ghost predicate Publishable(fs: seq<Bytes>)
    {
      window.size > 0 && Capped(ReceiverSpec.Published(window.size, Usable(fs)))
    }

    constructor (ring: Ring, pow2: nat, threshold: u64, seed: u64)
      requires ring.Valid() && ring.log == [] && 6 <= pow2 <= 63
      ensures Valid() && arrivals == [] && this.ring == ring && window.pow2 == pow2
      ensures fresh(window) && fresh(window.bits) && fresh(reader)
      ensures this.threshold == threshold && this.seed == seed
    {
      this.ring, this.threshold, this.seed := ring, threshold, seed;
      window := new Window(pow2);
      reader := new Reader();
      datagrams, injectedDrops, malformed, messages, published, arrivals := 0, 0, 0, 0, 0, [];
    }

    /** One message of a datagram. */
    method Hear(frame: Bytes, ghost fs: seq<Bytes>)
      requires Wired() && After(fs) && Publishable(fs + [frame])
      modifies this`messages, this`published, this`malformed, ring, ring.slots, window, window.bits
      ensures Wired() && After(fs + [frame])
      ensures malformed == old(malformed) + if |frame| < MSG_HEADER then 1 else 0
    {
      messages := messages + 1;
      UsableSnoc(fs, frame);
      if |frame| < MSG_HEADER {
        malformed := malformed + 1;
        return;
      }
      IdsSnoc(Usable(fs), frame);
      PublishedSnoc(window.size, Usable(fs), frame);
      var isNew := window.Accept(SeqId(frame));
      if isNew {
        LastFits(ring.log, frame);
        ring.Publish(frame);
        published := published + 1;
      }
    }

    /** The state inside a datagram, with some of its messages heard. */
    ghost predicate Walking(b: Bytes, before: seq<Bytes>)
      reads this`messages, this`published, ring, ring.slots, window, window.bits, reader
    {
      && Wired() && After(before + reader.yielded)
      && reader.Valid() && reader.data == b && |reader.yielded| <= |Parsed(b)|
    }

    /** The message that follows those heard from this datagram; `now` includes it. */
    method HearNext(frame: Bytes, ghost before: seq<Bytes>, ghost heard: seq<Bytes>, ghost now: seq<Bytes>)
      requires Wired() && After(before + heard) && now == heard + [frame] && Publishable(before + now)
      modifies this`messages, this`published, this`malformed, ring, ring.slots, window, window.bits
      ensures Wired() && After(before + now)
      ensures malformed + |Usable(now)| == old(malformed) + |Usable(heard)| + 1
    {
      Seqs.Assoc(before, heard, [frame]);
      UsableSnoc(heard, frame);
      Hear(frame, before + heard);
    }

    /** The next message of the datagram; false when there is none. */
    method Next(ghost b: Bytes, ghost before: seq<Bytes>) returns (more: bool)
      requires Walking(b, before) && Publishable(before + Parsed(b))
      modifies this`messages, this`published, this`malformed, ring, ring.slots, window, window.bits, reader
      ensures Walking(b, before)
      ensures malformed + |Usable(reader.yielded)| ==
              old(malformed) + |Usable(old(reader.yielded))| + if more then 1 else 0
      ensures if more then |reader.yielded| == |old(reader.yielded)| + 1
              else reader.yielded == old(reader.yielded) == Parsed(b)
    {
      ghost var heard := reader.yielded;
      var at, flen;
      more, at, flen := reader.NextRaw();
      if more {
        PublishablePart(before, reader.yielded, Parsed(b));
        HearNext(reader.data[at..at + flen], before, heard, reader.yielded);
      }
    }

    /** The inner loop over the messages of one datagram. */
    method Walk(ghost b: Bytes, ghost before: seq<Bytes>)
      requires Walking(b, before) && reader.yielded == [] && Publishable(before + Parsed(b))
      modifies this`messages, this`published, this`malformed, ring, ring.slots, window, window.bits, reader
      ensures Walking(b, before) && reader.yielded == Parsed(b)
      ensures malformed == old(malformed) + |Parsed(b)| - |Usable(Parsed(b))|
    {
      var walking := true;
      while walking
        invariant Walking(b, before)
        invariant malformed == old(malformed) + |reader.yielded| - |Usable(reader.yielded)|
        invariant !walking ==> reader.yielded == Parsed(b)
        decreases |Parsed(b)| - |reader.yielded|, walking
      {
        walking := Next(b, before);
      }
    }

    /** A datagram that survived: its messages, and whether it was complete. */
    method Admit(ghost b: Bytes, ghost before: seq<Bytes>)
      requires Wired() && After(before) && reader.Valid() && reader.data == b && reader.yielded == []
      requires Publishable(before + Parsed(b))
      modifies this`messages, this`published, this`malformed, ring, ring.slots, window, window.bits, reader
      ensures Wired() && After(before + Parsed(b))
      ensures malformed == old(malformed) + |Parsed(b)| - |Usable(Parsed(b))| + (if Complete(b) then 0 else 1)
    {
      Seqs.NilRight(before);
      Walk(b, before);
      var complete := reader.IsComplete();
      if !complete {
        malformed := malformed + 1;
      }
    }

    /** One datagram off the wire, whatever its bytes, as long as what it publishes fits the slots. */
    method Handle(b: Bytes)
      requires Valid() && Fits(Cfg(), arrivals + [b])
      modifies this, ring, ring.slots, window, window.bits, reader
      ensures Valid() && arrivals == old(arrivals) + [b]
    {
      HeardSnoc(Cfg(), arrivals, b);
      Process(b, Heard(Cfg(), arrivals));
      datagrams := datagrams + 1;
      arrivals := arrivals + [b];
    }

    /** What the datagram adds to the messages heard and to the counters. */
    method Process(b: Bytes, ghost before: seq<Bytes>)
      requires Wired() && After(before) && (Survives(Cfg(), b) ==> Publishable(before + Parsed(b)))
      modifies this`messages, this`published, this`malformed, this`injectedDrops
      modifies ring, ring.slots, window, window.bits, reader
      ensures Wired() && After(if Survives(Cfg(), b) then before + Parsed(b) else before)
      ensures malformed == old(malformed) + Defects(Cfg(), b)
      ensures injectedDrops == old(injectedDrops) + if WellHeaded(b) && Injected(Cfg(), b) then 1 else 0
    {
      var ok := reader.Reset(b);
      if !ok {
        malformed := malformed + 1;
        return;
      }
      var h := DecodeHeader(reader.data);
      if Dropper.Drop(threshold, seed, h.dgramId, h.streamId) {
        injectedDrops := injectedDrops + 1;
        return;
      }
      Admit(b, before);
    }

    lemma {:induction false} PublishablePart(before: seq<Bytes>, part: seq<Bytes>, all: seq<Bytes>)
      requires part <= all && Publishable(before + all)
      ensures Publishable(before + part)
    {
      var rest := all[|part|..];
      assert all == part + rest;
      Seqs.Assoc(before, part, rest);
      CappedPart(window.size, before + part, rest);
    }

    /** What the counters have counted. */
    lemma CountersExact()
      requires Valid()
      ensures datagrams == |arrivals| && injectedDrops == |Taken(Cfg(), arrivals)|
      ensures malformed == |Foreign(arrivals)| + |Damaged(Cfg(), arrivals)| + |Stubs(Heard(Cfg(), arrivals))|
      ensures messages == |Heard(Cfg(), arrivals)| && published == |ring.log|
    {
      CountersAre(Cfg(), arrivals);
    }

    /** The same, for callers that share the ring: nothing published is taken back. */
    method HandleMore(b: Bytes)
      requires Valid() && Fits(Cfg(), arrivals + [b])
      modifies this, ring, ring.slots, window, window.bits, reader
      ensures Valid() && arrivals == old(arrivals) + [b] && old(ring.log) <= ring.log
    {
      ArrivalGrows(Cfg(), arrivals, b);
      Handle(b);
    }

    /** The datagrams one recvmmsg returned, in order. */
    method Drain(rx: seq<Bytes>)
      requires Valid() && Fits(Cfg(), arrivals + rx)
      modifies this, ring, ring.slots, window, window.bits, reader
      ensures Valid() && arrivals == old(arrivals) + rx
    {
      var i := 0;
      Seqs.TakeAll(arrivals, rx);
      while i < |rx|
        invariant 0 <= i <= |rx| && Valid() && arrivals == old(arrivals) + rx[..i]
      {
        Seqs.TakeSnoc(old(arrivals), rx, i);
        FitsPart(Cfg(), old(arrivals), rx, i + 1);
        Handle(rx[i]);
        i := i + 1;
      }
    }
  }

  lemma LastFits(log: seq<Frame>, f: Bytes)
    requires Capped(log + [f])
    ensures |f| <= FRAME_CAP
  {
    assert (log + [f])[|log|] == f;
  }

  lemma {:induction false} FitsPart(c: Config, arrivals: seq<Bytes>, more: seq<Bytes>, i: nat)
    requires c.window > 0 && i <= |more| && Fits(c, arrivals + more)
    ensures Fits(c, arrivals + more[..i])
    decreases |more| - i
  {
    if i < |more| {
      FitsPart(c, arrivals, more, i + 1);
      Seqs.TakeSnoc(arrivals, more, i);
      ArrivalGrows(c, arrivals + more[..i], more[i]);
    } else {
      Seqs.TakeAll(arrivals, more);
    }
  }
}
