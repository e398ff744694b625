/** The shared-memory ring with each operation taken as one step: it refines the log of everything
    published.  RingProtocol takes the operations apart. */
module ShmRing {
  import opened Words
  import opened RingSpec

  datatype Status = kOk | kEmpty | kLapped

  class Ring {
    const slotCount: nat
    const mask: nat
    const slots: array<Slot>
    var writeIndex: nat
    ghost var log: seq<Frame>
    ghost const pow2: nat

    ghost predicate Shape()
      reads this, slots
    {
      slotCount == Pow2(pow2) == slots.Length && mask == slotCount - 1 && writeIndex == |log|
    }

    ghost predicate Valid()
      reads this, slots
    {
      Shape() && forall j :: 0 <= j < slots.Length ==> SlotHolds(slots[j], j, slotCount, log)
    }

    /** attach with init; `memory` is whatever the mapped region contained. */
    constructor (pow2: nat, memory: seq<Slot>)
      requires |memory| == Pow2(pow2)
      requires forall j :: 0 <= j < |memory| ==> |memory[j].bytes| == FRAME_CAP
      ensures Valid() && fresh(slots) && log == [] && slotCount == Pow2(pow2)
    {
      slotCount, mask := |memory|, |memory| - 1;
      this.pow2 := pow2;
      slots := new Slot[|memory|](j requires 0 <= j < |memory| => memory[j].(seqNo := 0));
      writeIndex, log := 0, [];
    }

    /** `& mask_` is the position modulo the slot count. */
    lemma MaskIndex(i: nat)
      requires Shape()
      ensures BitAnd(i, mask) == i % slotCount < slots.Length
    {
      MaskIsMod(i, pow2);
    }

    method Publish(frame: Frame)
      requires Valid() && |frame| <= FRAME_CAP
      modifies this, slots
      ensures Valid() && log == old(log) + [frame]
    {
      var idx := writeIndex;
      MaskIndex(idx);
      var j := BitAnd(idx, mask);
      forall i | 0 <= i < slots.Length
        ensures SlotHolds(if i == j then Slot(idx + 1, |frame|, frame + slots[i].bytes[|frame|..]) else slots[i],
                          i, slotCount, log + [frame])
      {
        SlotHoldsNext(slots[i], i, slotCount, log, frame);
      }
      slots[j] := slots[j].(len := |frame|);
      slots[j] := slots[j].(bytes := frame + slots[j].bytes[|frame|..]);
      slots[j] := slots[j].(seqNo := idx + 1);
      writeIndex := idx + 1;
      log := log + [frame];
    }

    method LiveEdge() returns (edge: nat)
      requires Valid()
      ensures edge == |log|
    {
      return writeIndex;
    }

    /** Reads position r into out[at..].  The result is that of the log, for every r; from a resume
        position an immediate read succeeds. */
    method Read(r: nat, out: array<byte>, at: nat) returns (status: Status, len: nat, resume: nat)
      requires Valid() && at + FRAME_CAP <= out.Length
      modifies out
      ensures len <= FRAME_CAP
      ensures match LogRead(log, slotCount, r)
              case Ok(f) => status == kOk && len == |f| && out[at..at + len] == f
              case Empty => status == kEmpty
              case Lapped(p) => status == kLapped && resume == p > r && LogRead(log, slotCount, p) == Ok(log[p])
      ensures out[..at] == old(out[..at])
      ensures out[at + FRAME_CAP..] == old(out[at + FRAME_CAP..])
    {
      len, resume := 0, 0;
      MaskIndex(r);
      var slot := slots[BitAnd(r, mask)];
      assert SlotHolds(slot, r % slotCount, slotCount, log);
      PlacedTells(slot.seqNo, slotCount, |log|, r);
      var want := r + 1;
      if slot.seqNo < want {
        return kEmpty, 0, 0;
      }
      if slot.seqNo > want {
        var edge := LiveEdge();
        if edge > slotCount {
          resume := edge - slotCount;
        }
        return kLapped, 0, resume;
      }
      len := slot.len;
      var i := 0;
      while i < len
        invariant 0 <= i <= len
        invariant out[..at] == old(out[..at])
        invariant out[at..at + i] == slot.bytes[..i]
        invariant out[at + FRAME_CAP..] == old(out[at + FRAME_CAP..])
      {
        out[at + i] := slot.bytes[i];
        i := i + 1;
      }
      // Nothing intervenes within one step, so the second look at the number cannot differ here.
      return kOk, len, 0;
    }
  }
}
