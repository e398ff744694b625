/** The consumer: reads its ring position by position and feeds the metrics. */
module Consumer {
  import opened Words
  import opened WireSpec
  import opened RingSpec
  import opened ShmRing
  import opened Message
  import opened SenderSpec
  import opened Metrics
  import Seqs

  /** The recorded ids are those of the frames at the picked positions. */
  predicate IdsMatch(log: seq<Frame>, picks: seq<nat>, ids: seq<u64>)
    requires Inside(log, picks)
  {
    && |ids| == |picks|
    && forall i :: 0 <= i < |picks| && |log[picks[i]]| >= MSG_HEADER ==> ids[i] == SeqId(log[picks[i]])
  }

  /** What the consumer has done so far: read_index only moves forward, past picked or lost positions. */
  predicate Consumed(log: seq<Frame>, start: nat, readIndex: nat, picks: seq<nat>, ids: seq<u64>) {
    Picked(log, start, readIndex, picks) && Inside(log, picks) && start <= readIndex && IdsMatch(log, picks, ids)
  }

  lemma {:induction false} ConsumedGrows(log: seq<Frame>, log': seq<Frame>, start: nat, r: nat,
                                         picks: seq<nat>, ids: seq<u64>)
    requires Consumed(log, start, r, picks, ids) && log <= log'
    ensures Consumed(log', start, r, picks, ids)
  {
    forall i | 0 <= i < |picks|
      ensures log'[picks[i]] == log[picks[i]]
    {
    }
  }

  lemma {:induction false} ConsumedOne(log: seq<Frame>, start: nat, r: nat, picks: seq<nat>, ids: seq<u64>, q: u64)
    requires Consumed(log, start, r, picks, ids) && r < |log|
    requires |log[r]| >= MSG_HEADER ==> q == SeqId(log[r])
    ensures Consumed(log, start, r + 1, picks + [r], ids + [q])
  {
    PickedSnoc(log, start, r, picks);
  }

  /** Distinct ids at distinct positions are recorded once each. */
  lemma {:induction false} ConsumedDistinct(log: seq<Frame>, start: nat, r: nat, picks: seq<nat>, ids: seq<u64>)
    requires Consumed(log, start, r, picks, ids)
    requires forall i :: 0 <= i < |log| ==> |log[i]| >= MSG_HEADER
    requires forall i, j :: 0 <= i < j < |log| ==> SeqId(log[i]) != SeqId(log[j])
    ensures Distinct(ids)
  {
    forall i, j | 0 <= i < j < |ids|
      ensures ids[i] != ids[j]
    {
      assert picks[i] < picks[j];
    }
  }

  /** Clocks may disagree; a negative latency counts as none. */
  function Age(now: u64, sent: u64): (age: u64)
    ensures sent + age == Max(now, sent)
  {
    if now > sent then now - sent else 0
  }

  class Consumer {
    const ring: Ring
    const acc: Accumulator
    const frame: array<byte>
    const count: nat
    var readIndex: nat
    var received: nat
    var lappedEvents: nat
    ghost const start: nat
    ghost var picks: seq<nat>

    ghost predicate Valid()
      reads this, ring, ring.slots, acc
    {
      && ring.Valid() && acc.Valid() && frame.Length == FRAME_CAP
      && received == |picks|
      && Consumed(ring.log, start, readIndex, picks, acc.ids)
      && readIndex <= |ring.log| && Kept(ring.log, ring.slotCount, start, readIndex, picks)
    }

    constructor (ring: Ring, count: nat, fromEdge: bool)
      requires ring.Valid()
      ensures Valid() && this.ring == ring && picks == [] && fresh(acc) && fresh(frame)
      ensures start == readIndex == if fromEdge then |ring.log| else 0
    {
      var edge := ring.LiveEdge();
      this.ring, this.count := ring, count;
      acc := new Accumulator();
      frame := new byte[FRAME_CAP](_ => 0);
      readIndex := if fromEdge then edge else 0;
      start := if fromEdge then edge else 0;
      received, lappedEvents, picks := 0, 0, [];
    }

    /** One pass of the loop at time `now`. */
    method Poll(now: u64)
      requires Valid()
      modifies this, acc, frame
      ensures Valid()
      ensures match LogRead(ring.log, ring.slotCount, old(readIndex))
              case Ok(f) =>
                && picks == old(picks) + [old(readIndex)] && readIndex == old(readIndex) + 1
                && lappedEvents == old(lappedEvents)
                && (|f| >= MSG_HEADER ==> acc.latencies == old(acc.latencies) + [Age(now, SendTs(f))])
              case Empty => picks == old(picks) && readIndex == old(readIndex) && lappedEvents == old(lappedEvents)
              case Lapped(p) => picks == old(picks) && readIndex == p && lappedEvents == old(lappedEvents) + 1
    {
      var status, len, resume := ring.Read(readIndex, frame, 0);
      if status == kOk {
        Keep(len, now);
      } else if status == kLapped {
        lappedEvents := lappedEvents + 1;
        readIndex := resume;
      }
    }

    /** Books one message. */
    method Note(q: u64, latency: u64)
      requires Valid() && readIndex < |ring.log|
      requires |ring.log[readIndex]| >= MSG_HEADER ==> q == SeqId(ring.log[readIndex])
      modifies this`received, this`picks, this`readIndex, acc
      ensures Valid() && picks == old(picks) + [old(readIndex)] && readIndex == old(readIndex) + 1
      ensures acc.latencies == old(acc.latencies) + [latency]
    {
      ConsumedOne(ring.log, start, readIndex, picks, acc.ids, q);
      KeptSnoc(ring.log, ring.slotCount, start, readIndex, picks);
      acc.Record(q, latency);
      received := received + 1;
      picks := picks + [readIndex];
      readIndex := readIndex + 1;
    }

    /** Records the frame that was read. */
    method Keep(len: nat, now: u64)
      requires Valid() && readIndex < |ring.log| && len <= FRAME_CAP && frame[0..len] == ring.log[readIndex]
      modifies this, acc
      ensures Valid() && picks == old(picks) + [old(readIndex)] && readIndex == old(readIndex) + 1
      ensures lappedEvents == old(lappedEvents)
      ensures |ring.log[old(readIndex)]| >= MSG_HEADER ==>
                acc.latencies == old(acc.latencies) + [Age(now, SendTs(ring.log[old(readIndex)]))]
    {
      FieldFits(frame[0..8]);
      FieldFits(frame[8..16]);
      var q, ts := FromLe(frame[0..8]), FromLe(frame[8..16]);
      Peeked(frame[..], 0, ring.log[readIndex]);
      Note(q, Age(now, ts));
    }

    /** The producer side of the ring moves: any frames are published. */
    method Produce(frames: seq<Frame>)
      requires Valid() && Capped(frames)
      modifies ring, ring.slots
      ensures Valid() && ring.log == old(ring.log) + frames
    {
      var i := 0;
      while i < |frames|
        invariant 0 <= i <= |frames| && ring.Valid() && ring.log == old(ring.log) + frames[..i]
      {
        ring.Publish(frames[i]);
        i := i + 1;
      }
      ConsumedGrows(old(ring.log), ring.log, start, readIndex, picks, acc.ids);
    }

    /** One pass, before which the producer publishes some frames. */
    method Pass(now: u64, frames: seq<Frame>)
      requires Valid() && Capped(frames)
      modifies this, acc, frame, ring, ring.slots
      ensures Valid() && ring.log == old(ring.log) + frames && old(picks) <= picks
      ensures readIndex >= Min(|ring.log|, old(readIndex) + 1) && received <= old(received) + 1
    {
      Produce(frames);
      Poll(now);
    }

    /** The main loop: at each time in `nows` the ring has moved on by the next entry of `feed`.  Without a
        quota every entry is published, and more passes than there are unread positions leave nothing
        unread: every position still in the ring has been picked. */
    method Run(nows: seq<u64>, feed: seq<seq<Frame>>)
      requires Valid() && forall k :: 0 <= k < |feed| ==> Capped(feed[k])
      modifies this, acc, frame, ring, ring.slots
      ensures Valid() && old(ring.log) <= ring.log && old(picks) <= picks
      ensures count != 0 && old(received) <= count ==> received <= count
      ensures || (count != 0 && received >= count)
              || readIndex >= Min(|old(ring.log)|, old(readIndex) + |nows|)
      ensures count == 0 ==> ring.log == old(ring.log) + Upto(feed, |nows|)
      ensures count == 0 && (|nows| >= |feed| + |ring.log| || (feed == [] && |nows| >= |ring.log| - old(readIndex))) ==>
                && readIndex == |ring.log|
                && forall q: nat :: start <= q < |ring.log| && q + ring.slotCount >= |ring.log| ==> q in picks
    {
      var k := 0;
      Seqs.NilRight(ring.log);
      while k < |nows| && (count == 0 || received < count)
        invariant 0 <= k <= |nows| && Valid() && old(ring.log) <= ring.log && old(picks) <= picks
        invariant count != 0 && old(received) <= count ==> received <= count
        invariant readIndex >= Min(|old(ring.log)|, old(readIndex) + k)
        invariant ring.log == old(ring.log) + Upto(feed, k)
        invariant k >= |feed| ==> readIndex >= Min(|ring.log|, k - |feed|)
      {
        FlatTake(old(ring.log), feed, k);
        Pass(nows[k], Entry(feed, k));
        k := k + 1;
      }
    }
  }

  /** The frames published before pass k. */
  function Upto(feed: seq<seq<Frame>>, k: nat): seq<Frame> {
    Flat(feed[..Min(k, |feed|)])
  }

  function Entry(feed: seq<seq<Frame>>, k: nat): seq<Frame> {
    if k < |feed| then feed[k] else []
  }

  lemma FlatTake(base: seq<Frame>, feed: seq<seq<Frame>>, k: nat)
    ensures base + Upto(feed, k + 1) == base + Upto(feed, k) + Entry(feed, k)
  {
    if k < |feed| {
      assert feed[..k + 1] == feed[..k] + [feed[k]];
      FlatSnoc(feed[..k], feed[k]);
      Seqs.Assoc(base, Flat(feed[..k]), feed[k]);
    } else {
      Seqs.NilRight(base + Flat(feed));
    }
  }
}
