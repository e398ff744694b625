/** The sender: drains the producer's ring into datagrams and sends each on every stream.

    The producer runs beside it: before a read it publishes the next entry of `feed`.  Clocks, signals
    and the idle timeout decide only how many rounds are run. */
module Sender {
  import opened Words
  import opened WireSpec
  import opened WireLaws
  import opened Wire
  import opened RingSpec
  import opened ShmRing
  import opened Message
  import opened SenderSpec
  import Seqs

  class Sender {
    const ring: Ring
    const dgram: array<byte>
    const builder: Builder
    const streams: nat
    const count: nat
    var readIndex: nat
    var dgramId: u32
    var messages: nat
    var datagrams: nat
    var lapped: nat
    var lappedMsgs: nat
    /** The copies handed to the network: datagram by datagram, stream by stream. */
    var sent: seq<seq<Bytes>>
    ghost const start: nat
    ghost var batches: seq<seq<nat>>
    ghost var cur: seq<nat>

    ghost predicate Wired()
      reads this, ring, ring.slots, builder
    {
      && ring.Valid() && builder.Room() && builder.buf == dgram
      && builder.cap == dgram.Length == MAX_DATAGRAM && 1 <= streams < TWO_16
    }

    ghost predicate Trace()
      reads this, ring
    {
      && SentOk(ring.log, streams, batches, sent)
      && Booked(ring.log, ring.slotCount, Now())
      && datagrams == |batches| && dgramId == datagrams % TWO_32
    }

    ghost function Now(): Progress
      reads this
    {
      Progress(start, readIndex, messages, lappedMsgs, batches, cur)
    }

    /** Between datagrams. */
    ghost predicate Valid()
      reads this, ring, ring.slots, builder
    {
      Wired() && Trace() && cur == []
    }

    /** While a datagram is being filled. */
    ghost predicate Filling()
      reads this, ring, ring.slots, builder, dgram
    {
      && Wired() && Trace() && builder.Valid()
      && builder.frames == FramesAt(ring.log, cur)
      && HeaderFor(builder.header, datagrams, 0, builder.frames)
    }

    constructor (ring: Ring, streams: nat, count: nat, fromEdge: bool)
      requires ring.Valid() && 1 <= streams < TWO_16
      ensures Valid() && this.ring == ring && this.streams == streams && fresh(builder) && fresh(dgram)
      ensures batches == [] && sent == [] && start == readIndex == if fromEdge then |ring.log| else 0
    {
      var edge := ring.LiveEdge();
      var buf := new byte[MAX_DATAGRAM](_ => 0);
      this.ring, this.streams, this.count := ring, streams, count;
      dgram := buf;
      builder := new Builder(buf, MAX_DATAGRAM);
      readIndex := if fromEdge then edge else 0;
      start := if fromEdge then edge else 0;
      dgramId, messages, datagrams, lapped, lappedMsgs, sent := 0, 0, 0, 0, 0, [];
      batches, cur := [], [];
    }

    /** The producer publishes some frames. */
    method Produce(frames: seq<Frame>)
      requires Wired() && Trace() && Capped(frames)
      modifies ring, ring.slots
      ensures Wired() && Trace() && ring.log == old(ring.log) + frames
    {
      var i := 0;
      while i < |frames|
        invariant 0 <= i <= |frames|
        invariant ring.Valid() && ring.log == old(ring.log) + frames[..i]
      {
        ring.Publish(frames[i]);
        i := i + 1;
      }
      SentOkGrows(old(ring.log), ring.log, streams, batches, sent);
      BookedGrows(old(ring.log), ring.log, ring.slotCount, Now());
    }

    /** Counts the messages lost before the wire and jumps to the resume position. */
    method Skip(resume: nat)
      requires Filling() && LogRead(ring.log, ring.slotCount, readIndex) == Lapped(resume)
      modifies this`readIndex, this`lapped, this`lappedMsgs
      ensures Filling() && Now() == AfterRead(old(Now()), Lapped(resume)) && lapped == old(lapped) + 1
    {
      BookedRead(ring.log, ring.slotCount, Now());
      lapped := lapped + 1;
      lappedMsgs := lappedMsgs + if resume > readIndex then resume - readIndex else 0;
      readIndex := resume;
    }

    /** Books the frame. */
    method Advance()
      requires Wired() && Trace() && LogRead(ring.log, ring.slotCount, readIndex).Ok?
      modifies this`readIndex, this`messages, this`cur
      ensures Wired() && Trace() && Now() == AfterRead(old(Now()), Ok(ring.log[old(readIndex)]))
      ensures FramesAt(ring.log, cur) == FramesAt(ring.log, old(cur)) + [ring.log[old(readIndex)]]
    {
      BookedRead(ring.log, ring.slotCount, Now());
      cur := cur + [readIndex];
      readIndex := readIndex + 1;
      messages := messages + 1;
    }

    /** Commits the frame that was read. */
    method Take(at: nat, len: nat)
      requires Filling() && LogRead(ring.log, ring.slotCount, readIndex).Ok?
      requires at == builder.len + PREFIX && at + FRAME_CAP <= MAX_DATAGRAM
      requires len == |ring.log[readIndex]| <= FRAME_CAP && dgram[at..at + len] == ring.log[readIndex]
      modifies this`readIndex, this`messages, this`cur, builder, dgram
      ensures Filling() && Now() == AfterRead(old(Now()), Ok(ring.log[old(readIndex)]))
      ensures builder.len > old(builder.len)
    {
      Append(at, len, ring.log[readIndex]);
      Advance();
    }

    /** Lets the producer run and reads the next position into dgram[at..]. */
    method Fetch(frames: seq<Frame>, at: nat) returns (status: Status, len: nat, resume: nat)
      requires Filling() && Capped(frames)
      requires at == builder.len + PREFIX && at + FRAME_CAP <= MAX_DATAGRAM
      modifies dgram, ring, ring.slots
      ensures Filling() && ring.log == old(ring.log) + frames && len <= FRAME_CAP
      ensures match LogRead(ring.log, ring.slotCount, readIndex)
              case Ok(f) => status == kOk && len == |f| && dgram[at..at + len] == f
              case Empty => status == kEmpty
              case Lapped(p) => status == kLapped && resume == p
    {
      BookedGrows(ring.log, ring.log + frames, ring.slotCount, Now());
      Produce(frames);
      status, len, resume := ring.Read(readIndex, dgram, at);
      assert dgram[..builder.len] == dgram[..at][..builder.len];
    }

    /** Commits the frame that was read into dgram[at..]. */
    method Append(at: nat, len: nat, ghost f: Frame)
      requires builder.Valid() && builder.buf == dgram && builder.cap == dgram.Length == MAX_DATAGRAM
      requires at == builder.len + PREFIX && at + FRAME_CAP <= MAX_DATAGRAM && len == |f| <= FRAME_CAP
      requires HeaderFor(builder.header, datagrams, 0, builder.frames) && dgram[at..at + len] == f
      modifies builder, dgram
      ensures builder.Valid() && builder.frames == old(builder.frames) + [f] && builder.len > old(builder.len)
      ensures HeaderFor(builder.header, datagrams, 0, builder.frames)
    {
      FieldFits(dgram[at..at + 8]);
      FieldFits(dgram[at + 8..at + 16]);
      var q, ts := FromLe(dgram[at..at + 8]), FromLe(dgram[at + 8..at + 16]);
      Peeked(dgram[..], at, f);
      ghost var h := builder.header;
      builder.CountField();
      builder.AppendCommit(len, q, ts);
      HeaderCounts(h, builder.header, datagrams, old(builder.frames), f, q, ts);
    }

    /** Reads the next position into dgram[at..] and acts on the result. */
    method Attempt(frames: seq<Frame>, at: nat) returns (more: bool)
      requires Filling() && Capped(frames)
      requires at == builder.len + PREFIX && at + FRAME_CAP <= MAX_DATAGRAM
      modifies this`readIndex, this`messages, this`lapped, this`lappedMsgs, this`cur
      modifies builder, dgram, ring, ring.slots
      ensures Filling() && ring.log == old(ring.log) + frames
      ensures var result := LogRead(ring.log, ring.slotCount, old(readIndex));
              && Now() == AfterRead(old(Now()), result)
              && lapped == old(lapped) + (if result.Lapped? then 1 else 0)
              && more == (result.Ok? && (count == 0 || messages < count))
      ensures builder.len >= old(builder.len) && (more ==> builder.len > old(builder.len))
    {
      more := false;
      var status, len, resume := Fetch(frames, at);
      if status == kLapped {
        Skip(resume);
      } else if status == kOk {
        Take(at, len);
        more := !(count != 0 && messages >= count);
      }
    }

    /** One pass of the inner loop: reads one frame straight into the datagram.  An abandoned read leaves
        the committed part untouched; false means that the batch is over. */
    method Pick(frames: seq<Frame>) returns (more: bool)
      requires Filling() && Capped(frames)
      modifies this`readIndex, this`messages, this`lapped, this`lappedMsgs, this`cur
      modifies builder, dgram, ring, ring.slots
      ensures Filling()
      ensures if old(builder.len) + PREFIX + FRAME_CAP > MAX_DATAGRAM then
                !more && ring.log == old(ring.log) && Now() == old(Now()) && lapped == old(lapped)
              else
                && ring.log == old(ring.log) + frames
                && var result := LogRead(ring.log, ring.slotCount, old(readIndex));
                && Now() == AfterRead(old(Now()), result)
                && lapped == old(lapped) + (if result.Lapped? then 1 else 0)
                && more == (result.Ok? && (count == 0 || messages < count))
      ensures builder.len >= old(builder.len) && (more ==> builder.len > old(builder.len))
    {
      more := false;
      var at := builder.AppendPtr(FRAME_CAP);
      if at >= 0 {
        more := Attempt(frames, at);
      }
    }

    /** Why a batch may end: the ring had nothing more, the read was lapped, or the run's quota is full. */
    ghost predicate Exhausted(lappedBefore: nat)
      reads this, ring
    {
      readIndex >= |ring.log| || lapped > lappedBefore || (count != 0 && messages >= count)
    }

    /** The batch so far: consecutive positions from r on, until a lap ends it. */
    ghost predicate Consecutive(r: nat, lappedBefore: nat, more: bool)
      reads this
    {
      lapped >= lappedBefore && InRow(Now(), r, lapped == lappedBefore, more)
    }

    ghost predicate StandingStill(r: nat, lappedBefore: nat)
      reads this, ring
    {
      Standing(|ring.log|, ring.slotCount, Now(), r, lapped == lappedBefore)
    }

    /** A quota that was open before the batch is not exceeded by it. */
    ghost predicate InQuota(messagesBefore: nat, more: bool)
      reads this
    {
      count != 0 && messagesBefore < count ==> messages <= count && (more ==> messages < count)
    }

    /** The same with the first entry of what is left of a feed, in a batch that began at r. */
    method PickNext(rest: seq<seq<Frame>>, ghost base: seq<Frame>, ghost all: seq<Frame>,
                    ghost r: nat, ghost lappedBefore: nat, ghost messagesBefore: nat, ghost still: bool)
      returns (more: bool)
      requires Filling() && forall i :: 0 <= i < |rest| ==> Capped(rest[i])
      requires base <= ring.log && ring.log + Flat(rest) == all
      requires Consecutive(r, lappedBefore, true) && InQuota(messagesBefore, true)
      requires still ==> rest == [] && StandingStill(r, lappedBefore)
      modifies this`readIndex, this`messages, this`lapped, this`lappedMsgs, this`cur
      modifies builder, dgram, ring, ring.slots
      ensures Filling() && base <= ring.log <= all
      ensures more ==> ring.log + Flat(if rest == [] then [] else rest[1..]) == all
      ensures builder.len >= old(builder.len) && (more ==> builder.len > old(builder.len))
      ensures !more ==> Exhausted(lappedBefore) || builder.len + PREFIX + FRAME_CAP > MAX_DATAGRAM
      ensures Consecutive(r, lappedBefore, more) && InQuota(messagesBefore, more)
      ensures still ==> ring.log == old(ring.log) && StandingStill(r, lappedBefore)
    {
      FeedTake(base, ring.log, rest, all);
      RowStep(ring.log + (if rest == [] then [] else rest[0]), ring.slotCount, Now(), r);
      Seqs.NilRight(ring.log);
      more := Pick(if rest == [] then [] else rest[0]);
    }

    /** The inner loop: takes what the ring has, up to one datagram. */
    method Drain(feed: seq<seq<Frame>>) returns (inBatch: nat)
      requires Filling() && cur == [] && forall i :: 0 <= i < |feed| ==> Capped(feed[i])
      modifies this`readIndex, this`messages, this`lapped, this`lappedMsgs, this`cur
      modifies builder, dgram, ring, ring.slots
      ensures Filling() && inBatch == |cur|
      ensures Exhausted(old(lapped)) || builder.len + PREFIX + FRAME_CAP > MAX_DATAGRAM
      ensures old(ring.log) <= ring.log <= old(ring.log) + Flat(feed)
      ensures Consecutive(old(readIndex), old(lapped), false) && InQuota(old(messages), false)
      ensures feed == [] ==> ring.log == old(ring.log) && StandingStill(old(readIndex), old(lapped))
    {
      var more, before := true, messages;
      var rest := feed;
      ghost var all := ring.log + Flat(feed);
      while more
        invariant old(ring.log) <= ring.log <= all
        invariant more ==> ring.log + Flat(rest) == all
        invariant forall i :: 0 <= i < |rest| ==> Capped(rest[i])
        invariant Filling() && before == |Flat(batches)|
        invariant !more ==> Exhausted(old(lapped)) || builder.len + PREFIX + FRAME_CAP > MAX_DATAGRAM
        invariant Consecutive(old(readIndex), old(lapped), more) && InQuota(old(messages), more)
        invariant feed == [] ==> rest == [] && ring.log == old(ring.log)
        invariant feed == [] ==> StandingStill(old(readIndex), old(lapped))
        decreases MAX_DATAGRAM - builder.len, more
      {
        more := PickNext(rest, old(ring.log), all, old(readIndex), old(lapped), old(messages), feed == []);
        rest := if rest == [] then [] else rest[1..];
      }
      inBatch := messages - before;
    }

    /** Sends the finished datagram once on every stream; the copies differ in the stream id only. */
    method Replicate() returns (copies: seq<Bytes>)
      requires Wired() && builder.Valid() && HeaderFor(builder.header, datagrams, 0, builder.frames)
      modifies dgram
      ensures |copies| == streams && CopiesOf(copies, datagrams, builder.frames)
    {
      ghost var tail, len := Records(builder.frames), builder.len;
      ghost var h := builder.header;
      copies := [];
      var s := 0;
      while s < streams
        invariant 0 <= s <= streams && |copies| == s
        invariant dgram[..len] == EncodeHeader(h) + tail && h == builder.header.(streamId := h.streamId)
        invariant CopiesOf(copies, datagrams, builder.frames)
      {
        PatchPrefix(dgram[..], 8, Le(s, 2), len);
        PatchStream(h, tail, s);
        CopyIn(dgram, 8, Le(s, 2));
        h := h.(streamId := s);
        CopyMade(dgram[..len], datagrams, s, builder.frames, h);
        copies := copies + [dgram[..builder.len]];
        s := s + 1;
      }
    }

    /** Begins a datagram and fills it with consecutive positions from the read index on. */
    method Fill(feed: seq<seq<Frame>>) returns (inBatch: nat)
      requires Valid() && forall i :: 0 <= i < |feed| ==> Capped(feed[i])
      modifies this`readIndex, this`messages, this`lapped, this`lappedMsgs, this`cur
      modifies builder, dgram, ring, ring.slots
      ensures Filling() && inBatch == |cur| && cur == Span(old(readIndex), inBatch)
      ensures old(ring.log) <= ring.log <= old(ring.log) + Flat(feed)
      ensures inBatch == 0 ==> Exhausted(old(lapped))
      ensures count != 0 && old(messages) < count ==> messages <= count
      ensures readIndex >= old(readIndex)
      ensures count == 0 || old(messages) < count ==> readIndex > old(readIndex) || readIndex == |ring.log|
      ensures feed == [] ==> ring.log == old(ring.log)
      ensures feed == [] && count == 0 ==>
                RoundDone(|ring.log|, ring.slotCount, old(readIndex), readIndex, inBatch > 0)
    {
      builder.Begin(dgramId, 0, 0, 0);
      inBatch := Drain(feed);
    }

    /** One round of the main loop; false when nothing was picked up.  The datagram carries consecutive
        positions from the read index on. */
    method Iterate(feed: seq<seq<Frame>>) returns (progress: bool)
      requires Valid() && forall i :: 0 <= i < |feed| ==> Capped(feed[i])
      modifies this, builder, dgram, ring, ring.slots
      ensures Valid() && old(ring.log) <= ring.log <= old(ring.log) + Flat(feed)
      ensures old(batches) <= batches && old(sent) <= sent
      ensures !progress ==> batches == old(batches) && sent == old(sent) && Exhausted(old(lapped))
      ensures progress ==> |batches| == |old(batches)| + 1 && |batches[|old(batches)|]| > 0 &&
                           batches[|old(batches)|] == Span(old(readIndex), |batches[|old(batches)|]|)
      ensures count != 0 && old(messages) < count ==> messages <= count
      ensures readIndex >= old(readIndex)
      ensures count == 0 || old(messages) < count ==> readIndex > old(readIndex) || readIndex == |ring.log|
      ensures feed == [] ==> ring.log == old(ring.log)
      ensures feed == [] && count == 0 ==>
                RoundDone(|ring.log|, ring.slotCount, old(readIndex), readIndex, progress)
    {
      var inBatch := Fill(feed);
      if inBatch == 0 {
        return false;
      }
      var copies := Replicate();
      Flush(copies);
      return true;
    }

    /** Books the datagram that was just sent. */
    method Flush(copies: seq<Bytes>)
      requires Wired() && Trace() && cur != []
      requires |copies| == streams && CopiesOf(copies, datagrams, FramesAt(ring.log, cur))
      modifies this`sent, this`batches, this`cur, this`datagrams, this`dgramId
      ensures Valid() && batches == old(batches) + [old(cur)] && sent == old(sent) + [copies]
    {
      BookedFlush(ring.log, ring.slotCount, Now());
      SentOkSnoc(ring.log, streams, batches, sent, cur, copies);
      sent := sent + [copies];
      batches, cur := batches + [cur], [];
      NextId(datagrams);
      datagrams := datagrams + 1;
      dgramId := (dgramId + 1) % TWO_32;
      assert SentOk(ring.log, streams, batches, sent);
      assert Booked(ring.log, ring.slotCount, Now());
    }

    /** The main loop, for as many rounds as the run lasts.  Unless the quota is met, every round moves on
        or finds the ring drained: as many rounds as there were unread positions reach the edge of that
        moment, and every position behind the read index that is still in the ring has been sent. */
    method Run(feeds: seq<seq<seq<Frame>>>)
      requires Valid() && forall k, i :: 0 <= k < |feeds| && 0 <= i < |feeds[k]| ==> Capped(feeds[k][i])
      modifies this, builder, dgram, ring, ring.slots
      ensures Valid() && old(ring.log) <= ring.log && old(sent) <= sent && old(batches) <= batches
      ensures count != 0 && old(messages) <= count ==> messages <= count
      ensures || (count != 0 && messages >= count)
              || readIndex >= Min(|old(ring.log)|, old(readIndex) + |feeds|)
      ensures (forall k :: 0 <= k < |feeds| ==> feeds[k] == []) ==> ring.log == old(ring.log)
      ensures forall q: nat :: start <= q < readIndex && q + ring.slotCount >= |ring.log| ==> q in Flat(batches)
    {
      ghost var still := forall k :: 0 <= k < |feeds| ==> feeds[k] == [];
      var k := 0;
      while k < |feeds| && (count == 0 || messages < count)
        invariant 0 <= k <= |feeds| && Valid() && old(sent) <= sent && old(batches) <= batches
        invariant count != 0 && old(messages) <= count ==> messages <= count
        invariant old(ring.log) <= ring.log && readIndex >= Min(|old(ring.log)|, old(readIndex) + k)
        invariant still ==> ring.log == old(ring.log)
      {
        var progress := Iterate(feeds[k]);
        k := k + 1;
      }
      Seqs.NilRight(Flat(batches));
    }
  }
}
