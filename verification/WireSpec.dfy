/** The datagram format: a 32-byte header and a batch of length-prefixed frames. */
module WireSpec {
  import opened Words

  type Bytes = seq<byte>

  const HEADER: nat := 32
  const PREFIX: nat := 2
  const MAGIC: u32 := 0x5350_4331
  const MAX_DATAGRAM: nat := 1472

  // ---- Little-endian integers ----

  function Le(x: nat, n: nat): (r: Bytes)
    ensures |r| == n
    decreases n, x
  {
    if n == 0 then [] else [x % 256] + Le(x / 256, n - 1)
  }

  function FromLe(b: Bytes): nat {
    if b == [] then 0 else b[0] + 256 * FromLe(b[1..])
  }

  function Limit(n: nat): nat {
    if n == 0 then 1 else 256 * Limit(n - 1)
  }

  lemma {:induction false} LeRoundTrip(x: nat, n: nat)
    requires x < Limit(n)
    ensures FromLe(Le(x, n)) == x
    decreases n
  {
    if n > 0 {
      LeRoundTrip(x / 256, n - 1);
      assert Le(x, n)[1..] == Le(x / 256, n - 1);
    }
  }

  lemma {:induction false} FromLeRoundTrip(b: Bytes)
    ensures FromLe(b) < Limit(|b|) && Le(FromLe(b), |b|) == b
  {
    if b != [] {
      FromLeRoundTrip(b[1..]);
      assert FromLe(b) / 256 == FromLe(b[1..]) && FromLe(b) % 256 == b[0];
      assert b == [b[0]] + b[1..];
    }
  }

  lemma Limits()
    ensures Limit(2) == TWO_16 && Limit(4) == TWO_32 && Limit(8) == TWO_64
  {
    assert Limit(4) == 256 * (256 * Limit(2));
    assert Limit(6) == 256 * (256 * Limit(4));
    assert Limit(8) == 256 * (256 * Limit(6));
  }

  // ---- Flags ----

  /** Encoding in the low nibble, role in the high one. */
  function MakeFlags(enc: byte, role: byte): (flags: byte)
    ensures flags == (role % 16) * 16 + enc % 16
  {
    FlagsFit(enc, role);
    BitOr(BitAnd(enc, 0x0f), (role * 16) % 256)
  }

  function EncodingOf(flags: byte): nat {
    BitAnd(flags, 0x0f)
  }

  function RoleOf(flags: byte): nat {
    Shr(flags, 4)
  }

  lemma {:induction false} LowNibble(x: nat)
    ensures BitAnd(x, 0x0f) == x % 16
  {
    MaskIsMod(x, 4);
    assert Pow2(4) == 16;
  }

  lemma {:induction false} Nibbles(x: nat, hi: nat, lo: nat)
    requires lo < 16 && x == hi * 16 + lo
    ensures BitAnd(x, 0x0f) == lo && Shr(x, 4) == hi
  {
    LowNibble(x);
    ShrIsDiv(x, 4);
    assert Pow2(4) == 16;
  }

  lemma ShiftedNibble(role: nat)
    ensures (role * 16) % 256 == (role % 16) * 16
  {
    DivModUnique(role * 16, 256, role / 16, (role % 16) * 16);
  }

  lemma {:induction false} FlagsFit(enc: byte, role: byte)
    ensures BitOr(BitAnd(enc, 0x0f), (role * 16) % 256) == (role % 16) * 16 + enc % 16 < 256
  {
    LowNibble(enc);
    ShiftedNibble(role);
    assert Pow2(4) == 16;
    OrDisjoint(role % 16, enc % 16, 4);
  }

  /** Packing loses nothing that fits a nibble. */
  lemma {:induction false} FlagsRoundTrip(enc: byte, role: byte)
    requires enc < 16 && role < 16
    ensures EncodingOf(MakeFlags(enc, role)) == enc && RoleOf(MakeFlags(enc, role)) == role
  {
    Nibbles(MakeFlags(enc, role), role, enc);
  }

  // ---- Printing ----

  datatype Header = Header(dgramId: u32, streamId: u16, nMsgs: u16, flags: byte, firstSeq: u64, baseTs: u64)

  function EncodeHeader(h: Header): (r: Bytes)
    ensures |r| == HEADER
  {
    Le(MAGIC, 4) + Le(h.dgramId, 4) + Le(h.streamId, 2) + Le(h.nMsgs, 2) + [h.flags, 0, 0, 0] +
    Le(h.firstSeq, 8) + Le(h.baseTs, 8)
  }

  function Record(f: Bytes): Bytes {
    Le(|f| % TWO_16, 2) + f
  }

  function Records(fs: seq<Bytes>): Bytes {
    if fs == [] then [] else Records(fs[..|fs| - 1]) + Record(fs[|fs| - 1])
  }

  function Encode(h: Header, fs: seq<Bytes>): Bytes {
    EncodeHeader(h) + Records(fs)
  }

  predicate Short(fs: seq<Bytes>) {
    forall i :: 0 <= i < |fs| ==> |fs[i]| < TWO_16
  }

  // ---- Parsing ----

  predicate WellHeaded(b: Bytes) {
    |b| >= HEADER && FromLe(b[..4]) == MAGIC
  }

  function DecodeHeader(b: Bytes): Header
    requires |b| >= HEADER
  {
    FieldFits(b[4..8]);
    FieldFits(b[8..10]);
    FieldFits(b[10..12]);
    FieldFits(b[16..24]);
    FieldFits(b[24..32]);
    Header(FromLe(b[4..8]), FromLe(b[8..10]), FromLe(b[10..12]), b[12], FromLe(b[16..24]), FromLe(b[24..32]))
  }

  lemma FieldFits(b: Bytes)
    ensures |b| == 2 ==> FromLe(b) < TWO_16
    ensures |b| == 4 ==> FromLe(b) < TWO_32
    ensures |b| == 8 ==> FromLe(b) < TWO_64
  {
    FromLeRoundTrip(b);
    Limits();
  }

  /** Whether a whole record starts at `off`. */
  predicate HasRecord(b: Bytes, off: nat) {
    off + PREFIX <= |b| && off + PREFIX + FromLe(b[off..off + PREFIX]) <= |b|
  }

  function FrameAt(b: Bytes, off: nat): Bytes
    requires HasRecord(b, off)
  {
    b[off + PREFIX..off + PREFIX + FromLe(b[off..off + PREFIX])]
  }

  /** What the reader yields from `off` when at most n frames are still announced. */
  function Frames(b: Bytes, off: nat, n: nat): seq<Bytes>
    decreases n
  {
    if n == 0 || !HasRecord(b, off) then []
    else [FrameAt(b, off)] + Frames(b, off + PREFIX + |FrameAt(b, off)|, n - 1)
  }

  function Parsed(b: Bytes): seq<Bytes>
    requires |b| >= HEADER
  {
    Frames(b, HEADER, DecodeHeader(b).nMsgs)
  }

  /** The datagram holds exactly what its header announces. */
  predicate Complete(b: Bytes)
    requires |b| >= HEADER
  {
    |Parsed(b)| == DecodeHeader(b).nMsgs && HEADER + |Records(Parsed(b))| == |b|
  }
}
