/** The broadcast ring as a reader sees it: an unbounded log of which only the last n frames can
    still be read. */
module RingSpec {
  import opened Words

  type Frame = seq<byte>

  /** sizeof(OrderBook), the largest message. */
  const FRAME_CAP: nat := 576

  /** These frames fit the slots. */
  predicate Capped(frames: seq<Frame>) {
    forall i :: 0 <= i < |frames| ==> |frames[i]| <= FRAME_CAP
  }

  datatype ReadResult = Ok(frame: Frame) | Empty | Lapped(resume: nat)

  /** Reading position r when the frames `log` have been published. */
  function LogRead(log: seq<Frame>, n: nat, r: nat): ReadResult {
    if r >= |log| then Empty
    else if r + n >= |log| then Ok(log[r])
    else Lapped(|log| - n)
  }

  /** All that a reader needs of a read at r to keep its books: only published positions are read, and a
      lapped reader is not sent backwards. */
  predicate InPlace(log: seq<Frame>, r: nat, result: ReadResult) {
    match result
    case Ok(_) => r < |log|
    case Empty => true
    case Lapped(p) => p >= r
  }

  datatype Slot = Slot(seqNo: nat, len: nat, bytes: seq<byte>)

  /** Slot j carries the number of the last of `stored` publications that belongs to it. */
  predicate Placed(seqNo: nat, j: nat, n: nat, stored: nat)
    requires n > 0
  {
    if seqNo == 0 then j >= stored
    else (seqNo - 1) % n == j && seqNo <= stored < seqNo + n
  }

  lemma {:induction false} SameSlot(a: nat, b: nat, n: nat)
    requires n > 0 && a % n == b % n && a < b
    ensures a + n <= b
  {
    if b < a + n {
      ModApart(a, b, n);
    }
  }

  /** What comparing the slot's number with r+1 tells about the publications so far. */
  lemma {:induction false} PlacedTells(seqNo: nat, n: nat, stored: nat, r: nat)
    requires n > 0 && Placed(seqNo, r % n, n, stored)
    ensures seqNo < r + 1 <==> stored <= r
    ensures seqNo == r + 1 <==> r < stored <= r + n
    ensures seqNo > r + 1 <==> r + n < stored
  {
    if seqNo == 0 {
      ModAtMost(r, n);
    } else if seqNo - 1 < r {
      SameSlot(seqNo - 1, r, n);
    } else if r < seqNo - 1 {
      SameSlot(r, seqNo - 1, n);
    }
  }

  lemma ModAtMost(r: nat, n: nat)
    requires n > 0
    ensures r % n <= r
  {
    if r < n {
      DivModUnique(r, n, 0, r);
    }
  }

  /** One more publication renumbers its own slot and leaves the others placed. */
  lemma {:induction false} PlacedNext(seqNo: nat, j: nat, n: nat, stored: nat)
    requires n > 0 && j < n && Placed(seqNo, j, n, stored)
    ensures Placed(stored + 1, stored % n, n, stored + 1)
    ensures j != stored % n ==> Placed(seqNo, j, n, stored + 1)
  {
    if j != stored % n {
      if seqNo == 0 {
        if j == stored {
          DivModUnique(stored, n, 0, stored);
        }
      } else if stored + 1 == seqNo + n {
        ModShift(seqNo - 1, n);
      }
    }
  }

  /** A slot at rest holds the frame its number names. */
  predicate SlotHolds(slot: Slot, j: nat, n: nat, log: seq<Frame>)
    requires n > 0
  {
    && |slot.bytes| == FRAME_CAP
    && Placed(slot.seqNo, j, n, |log|)
    && (slot.seqNo > 0 ==>
          slot.len == |log[slot.seqNo - 1]| <= FRAME_CAP && slot.bytes[..slot.len] == log[slot.seqNo - 1])
  }

  /** Publishing f overwrites one slot and leaves the others holding their frames. */
  lemma {:induction false} SlotHoldsNext(slot: Slot, j: nat, n: nat, log: seq<Frame>, f: Frame)
    requires n > 0 && j < n && SlotHolds(slot, j, n, log) && |f| <= FRAME_CAP
    ensures SlotHolds(if j == |log| % n then Slot(|log| + 1, |f|, f + slot.bytes[|f|..]) else slot, j, n, log + [f])
  {
    PlacedNext(slot.seqNo, j, n, |log|);
  }
}
