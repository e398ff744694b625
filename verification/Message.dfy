/** The part of a message every stage relies on: a 24-byte header that starts with the sequence number
    and the send timestamp, in little-endian order. */
module Message {
  import opened Words
  import opened WireSpec
  import opened WireLaws
  import opened RingSpec
  import Seqs

  const MSG_HEADER: nat := 24

  function SeqId(f: Bytes): u64
    requires |f| >= 16
  {
    FieldFits(f[..8]);
    FromLe(f[..8])
  }

  function SendTs(f: Bytes): u64
    requires |f| >= 16
  {
    FieldFits(f[8..16]);
    FromLe(f[8..16])
  }

  /** The sequence number stands in bytes 0 to 7, the timestamp in bytes 8 to 15, low byte first. */
  lemma {:induction false} HeaderFields(f: Bytes, q: u64, ts: u64)
    requires |f| >= 16
    ensures SeqId(f) == q <==> Stands(f, 0, 8, q)
    ensures SendTs(f) == ts <==> Stands(f, 8, 8, ts)
  {
    Limits();
    StandsIff(f, 0, 8, q);
    StandsIff(f, 8, 8, ts);
  }

  /** What the producer writes: the frame at position i carries number i + 1. */
  ghost predicate Produced(log: seq<Frame>) {
    && |log| < TWO_64 - 1
    && forall i :: 0 <= i < |log| ==> MSG_HEADER <= |log[i]| <= FRAME_CAP && SeqId(log[i]) == i + 1
  }

  /** The first sixteen bytes of a frame are its sequence number and timestamp. */
  lemma Peeked(b: Bytes, at: nat, f: Frame)
    requires at + FRAME_CAP <= |b| && |f| <= FRAME_CAP && b[at..at + |f|] == f
    ensures |f| >= MSG_HEADER ==> FromLe(b[at..at + 8]) == SeqId(f) && FromLe(b[at + 8..at + 16]) == SendTs(f)
  {
    if |f| >= MSG_HEADER {
      Seqs.SliceOfSlice(b, at, |f|, 0, 8);
      Seqs.SliceOfSlice(b, at, |f|, 8, 16);
    }
  }
}
