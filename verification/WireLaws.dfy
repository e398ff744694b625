/** Printing and parsing datagrams undo each other, also for cut and arbitrary bytes. */
module WireLaws {
  import opened Words
  import opened WireSpec
  import Seqs

  // ---- Records ----

  lemma RecordsSnoc(fs: seq<Bytes>, f: Bytes)
    ensures Records(fs + [f]) == Records(fs) + Record(f)
  {
    assert (fs + [f])[..|fs|] == fs;
  }

  lemma RecordsFlat(fs: seq<Bytes>, f: Bytes)
    requires |f| < TWO_16
    ensures Records(fs + [f]) == Records(fs) + Le(|f|, 2) + f
  {
    RecordsSnoc(fs, f);
    DivModUnique(|f|, TWO_16, 0, |f|);
    Seqs.Assoc(Records(fs), Le(|f|, 2), f);
  }

  lemma {:induction false} RecordsCons(f: Bytes, fs: seq<Bytes>)
    ensures Records([f] + fs) == Record(f) + Records(fs)
  {
    if fs == [] {
      assert [f] + fs == [f] && [f][..0] == [];
    } else {
      var n := |fs| - 1;
      RecordsCons(f, fs[..n]);
      RecordsSnoc([f] + fs[..n], fs[n]);
      RecordsSnoc(fs[..n], fs[n]);
      assert fs == fs[..n] + [fs[n]] && [f] + fs == ([f] + fs[..n]) + [fs[n]];
    }
  }

  lemma {:induction false} RecordsAppend(fs: seq<Bytes>, gs: seq<Bytes>)
    ensures Records(fs + gs) == Records(fs) + Records(gs)
  {
    if gs == [] {
      Seqs.NilRight(fs);
      Seqs.NilRight(Records(fs));
    } else {
      var n := |gs| - 1;
      RecordsAppend(fs, gs[..n]);
      Seqs.SplitLast(fs, gs);
      RecordsSnoc(fs + gs[..n], gs[n]);
      Seqs.Assoc(Records(fs), Records(gs[..n]), Record(gs[n]));
    }
  }

  lemma {:induction false} RecordsSize(fs: seq<Bytes>)
    ensures |Records(fs)| >= 2 * |fs|
  {
    if fs != [] {
      RecordsSize(fs[..|fs| - 1]);
    }
  }

  lemma {:induction false} RecordLength(f: Bytes)
    requires |f| < TWO_16
    ensures |Record(f)| == PREFIX + |f| && FromLe(Record(f)[..PREFIX]) == |f| && Record(f)[PREFIX..] == f
  {
    Limits();
    LeRoundTrip(|f|, 2);
    assert Record(f)[..PREFIX] == Le(|f|, 2);
  }

  // ---- The parser inverts the printer ----

  /** A record standing at `off` is read as its frame. */
  lemma {:induction false} ReadsRecord(b: Bytes, off: nat, f: Bytes)
    requires |f| < TWO_16 && off + PREFIX + |f| <= |b| && b[off..off + PREFIX + |f|] == Record(f)
    ensures HasRecord(b, off) && FrameAt(b, off) == f
  {
    RecordLength(f);
    assert b[off..off + PREFIX] == b[off..off + PREFIX + |f|][..PREFIX];
    assert b[off + PREFIX..off + PREFIX + |f|] == b[off..off + PREFIX + |f|][PREFIX..];
  }

  lemma {:induction false} FramesOfRecords(b: Bytes, off: nat, fs: seq<Bytes>)
    requires Short(fs) && off <= |b| && b[off..] == Records(fs)
    ensures Frames(b, off, |fs|) == fs
    decreases |fs|
  {
    if fs != [] {
      var f, rest := fs[0], fs[1..];
      assert fs == [f] + rest;
      RecordsCons(f, rest);
      RecordLength(f);
      var next := off + PREFIX + |f|;
      TailSplit(b, off, next, Record(f), Records(rest));
      ReadsRecord(b, off, f);
      FramesOfRecords(b, next, rest);
    }
  }

  lemma {:induction false} FieldRoundTrip(x: nat)
    ensures x < TWO_16 ==> FromLe(Le(x, 2)) == x
    ensures x < TWO_32 ==> FromLe(Le(x, 4)) == x
    ensures x < TWO_64 ==> FromLe(Le(x, 8)) == x
  {
    Limits();
    if x < TWO_16 {
      LeRoundTrip(x, 2);
    }
    if x < TWO_32 {
      LeRoundTrip(x, 4);
    }
    if x < TWO_64 {
      LeRoundTrip(x, 8);
    }
  }

  /** Where the header's fields stand. */
  lemma HeaderSlices(magic: Bytes, id: Bytes, stream: Bytes, n: Bytes, flags: Bytes, q: Bytes, ts: Bytes, tail: Bytes)
    requires |magic| == 4 && |id| == 4 && |stream| == 2 && |n| == 2 && |flags| == 4 && |q| == 8 && |ts| == 8
    ensures var b := magic + id + stream + n + flags + q + ts + tail;
            && |b| >= 32
            && b[..4] == magic && b[4..8] == id && b[8..10] == stream && b[10..12] == n
            && b[12] == flags[0] && b[16..24] == q && b[24..32] == ts && b[32..] == tail
  {
  }

  lemma {:induction false} HeaderRoundTrip(h: Header, tail: Bytes)
    ensures WellHeaded(EncodeHeader(h) + tail) && DecodeHeader(EncodeHeader(h) + tail) == h
  {
    HeaderSlices(Le(MAGIC, 4), Le(h.dgramId, 4), Le(h.streamId, 2), Le(h.nMsgs, 2), [h.flags, 0, 0, 0],
                 Le(h.firstSeq, 8), Le(h.baseTs, 8), tail);
    FieldRoundTrip(MAGIC);
    FieldRoundTrip(h.dgramId);
    FieldRoundTrip(h.streamId);
    FieldRoundTrip(h.nMsgs);
    FieldRoundTrip(h.firstSeq);
    FieldRoundTrip(h.baseTs);
  }

  /** Parsing a printed datagram gives back its header and exactly its frames, and it is complete. */
  lemma {:induction false} RoundTrip(h: Header, fs: seq<Bytes>)
    requires Short(fs) && h.nMsgs == |fs|
    ensures var b := Encode(h, fs);
            WellHeaded(b) && DecodeHeader(b) == h && Parsed(b) == fs && Complete(b)
  {
    HeaderRoundTrip(h, Records(fs));
    var b := Encode(h, fs);
    assert b[HEADER..] == Records(fs);
    FramesOfRecords(b, HEADER, fs);
  }

  /** The copies a sender makes by overwriting the stream id yield the same frames. */
  lemma {:induction false} StreamIdOnly(h: Header, fs: seq<Bytes>, s: u16)
    requires Short(fs) && h.nMsgs == |fs|
    ensures Encode(h, fs)[..8] + Le(s, 2) + Encode(h, fs)[10..] == Encode(h.(streamId := s), fs)
    ensures Parsed(Encode(h.(streamId := s), fs)) == Parsed(Encode(h, fs))
  {
    RoundTrip(h, fs);
    RoundTrip(h.(streamId := s), fs);
  }

  // ---- Where every byte stands ----

  lemma DivDiv(x: nat, p: nat)
    requires p > 0
    ensures x / 256 / p == x / (256 * p)
  {
    var q, r := x / 256 / p, x / 256 % p;
    assert x == 256 * (q * p + r) + x % 256;
    assert 256 * (q * p + r) == q * (256 * p) + 256 * r;
    DivModUnique(x, 256 * p, q, 256 * r + x % 256);
  }

  lemma {:induction false} LimitPositive(k: nat)
    ensures Limit(k) > 0
  {
    if k > 0 {
      LimitPositive(k - 1);
    }
  }

  /** Byte k of a little-endian number is its k-th digit to the base 256. */
  lemma {:induction false} LeByte(x: nat, n: nat, k: nat)
    requires k < n
    ensures Limit(k) > 0 && Le(x, n)[k] == x / Limit(k) % 256
    decreases n
  {
    LimitPositive(k);
    if k > 0 {
      LeByte(x / 256, n - 1, k - 1);
      LimitPositive(k - 1);
      DivDiv(x, Limit(k - 1));
    }
  }

  /** b holds x in little-endian order from `at` on. */
  predicate Stands(b: Bytes, at: nat, n: nat, x: nat)
    requires at + n <= |b|
  {
    forall k :: 0 <= k < n ==> Limit(k) > 0 && b[at + k] == x / Limit(k) % 256
  }

  lemma {:induction false} StandsIff(b: Bytes, at: nat, n: nat, x: nat)
    requires at + n <= |b| && x < Limit(n)
    ensures FromLe(b[at..at + n]) == x <==> Stands(b, at, n, x)
  {
    var s := b[at..at + n];
    forall k | 0 <= k < n
      ensures Limit(k) > 0 && Le(x, n)[k] == x / Limit(k) % 256
    {
      LeByte(x, n, k);
    }
    if FromLe(s) == x {
      FromLeRoundTrip(s);
      assert forall k :: 0 <= k < n ==> b[at + k] == s[k];
    }
    if Stands(b, at, n, x) {
      assert forall k :: 0 <= k < n ==> s[k] == b[at + k];
      assert s == Le(x, n);
      LeRoundTrip(x, n);
    }
  }

  /** The magic number is "1CPS" on the wire. */
  lemma {:induction false} MagicBytes(b: Bytes)
    requires |b| >= 4
    ensures FromLe(b[..4]) == MAGIC <==> b[0] == 0x31 && b[1] == 0x43 && b[2] == 0x50 && b[3] == 0x53
  {
    StandsIff(b, 0, 4, MAGIC);
    Limits();
    assert b[0..4] == b[..4];
    assert Limit(1) == 256 && Limit(3) == 256 * (256 * 256);
    if Stands(b, 0, 4, MAGIC) {
      assert b[0 + 0] == 0x31 && b[0 + 1] == 0x43 && b[0 + 2] == 0x50 && b[0 + 3] == 0x53;
    }
  }

  lemma HeadedIff(b: Bytes)
    ensures WellHeaded(b) <==> |b| >= 32 && b[0] == 0x31 && b[1] == 0x43 && b[2] == 0x50 && b[3] == 0x53
  {
    if |b| >= 4 {
      MagicBytes(b);
    }
  }

  /** The layout of every printed datagram. */
  lemma {:induction false} HeaderLayout(h: Header, tail: Bytes)
    ensures var b := EncodeHeader(h) + tail;
            && |b| == 32 + |tail| && b[32..] == tail
            && b[0] == 0x31 && b[1] == 0x43 && b[2] == 0x50 && b[3] == 0x53
            && Stands(b, 4, 4, h.dgramId) && Stands(b, 8, 2, h.streamId) && Stands(b, 10, 2, h.nMsgs)
            && b[12] == h.flags && b[13] == b[14] == b[15] == 0
            && Stands(b, 16, 8, h.firstSeq) && Stands(b, 24, 8, h.baseTs)
  {
    var b := EncodeHeader(h) + tail;
    HeaderSlices(Le(MAGIC, 4), Le(h.dgramId, 4), Le(h.streamId, 2), Le(h.nMsgs, 2), [h.flags, 0, 0, 0],
                 Le(h.firstSeq, 8), Le(h.baseTs, 8), tail);
    HeaderRoundTrip(h, tail);
    HeadedIff(b);
    FieldStands(b, 4, 4, h.dgramId);
    FieldStands(b, 8, 2, h.streamId);
    FieldStands(b, 10, 2, h.nMsgs);
    FieldStands(b, 16, 8, h.firstSeq);
    FieldStands(b, 24, 8, h.baseTs);
    Padding(h, tail);
  }

  lemma Padding(h: Header, tail: Bytes)
    ensures var b := EncodeHeader(h) + tail; b[13] == b[14] == b[15] == 0
  {
  }

  lemma {:induction false} FieldStands(b: Bytes, at: nat, n: nat, x: nat)
    requires at + n <= |b| && b[at..at + n] == Le(x, n)
    ensures Stands(b, at, n, x)
  {
    forall k | 0 <= k < n
      ensures Limit(k) > 0 && b[at + k] == x / Limit(k) % 256
    {
      LeByte(x, n, k);
      assert b[at + k] == b[at..at + n][k];
    }
  }

  /** A record is its length in two bytes, low byte first, and the frame. */
  lemma {:induction false} RecordLayout(f: Bytes)
    requires |f| < TWO_16
    ensures Record(f) == [|f| % 256, |f| / 256] + f
  {
    DivModUnique(|f|, TWO_16, 0, |f|);
    assert Le(|f|, 2) == [|f| % 256] + Le(|f| / 256, 1);
    assert Le(|f| / 256, 1) == [|f| / 256 % 256] + [];
  }

  // ---- The printer inverts the parser ----

  /** On arbitrary bytes the yielded frames are whole, in bounds, consecutive and disjoint. */
  lemma {:induction false} FramesConsecutive(b: Bytes, off: nat, n: nat)
    requires off <= |b|
    ensures var fs := Frames(b, off, n);
            && |fs| <= n
            && Short(fs)
            && off + |Records(fs)| <= |b|
            && b[off..off + |Records(fs)|] == Records(fs)
    decreases n
  {
    if n > 0 && HasRecord(b, off) {
      var f := FrameAt(b, off);
      var next := off + PREFIX + |f|;
      RecordAt(b, off);
      FramesConsecutive(b, next, n - 1);
      ConsecutiveCons(b, off, f, Frames(b, next, n - 1));
    }
  }

  /** A record followed by records. */
  lemma {:induction false} ConsecutiveCons(b: Bytes, off: nat, f: Bytes, rest: seq<Bytes>)
    requires |f| < TWO_16 && Short(rest) && off + PREFIX + |f| + |Records(rest)| <= |b|
    requires var next := off + PREFIX + |f|;
             b[off..next] == Record(f) && b[next..next + |Records(rest)|] == Records(rest)
    ensures var fs := [f] + rest;
            && Short(fs) && off + |Records(fs)| <= |b|
            && b[off..off + |Records(fs)|] == Records(fs)
  {
    RecordsCons(f, rest);
    var next := off + PREFIX + |f|;
    JoinSlices(b, off, next, next + |Records(rest)|);
  }

  lemma JoinSlices(b: Bytes, i: nat, j: nat, k: nat)
    requires i <= j <= k <= |b|
    ensures b[i..k] == b[i..j] + b[j..k]
  {
  }

  /** No whole record stands at `at`: its length does not fit, or what the length announces does not. */
  predicate NoneAt(b: Bytes, at: nat) {
    at + 2 > |b| || at + 2 + b[at] + 256 * (b[at + 1] as int) > |b|
  }

  lemma NoneAtIff(b: Bytes, at: nat)
    ensures NoneAt(b, at) <==> !HasRecord(b, at)
  {
    if at + PREFIX <= |b| {
      TwoBytes(b[at..at + PREFIX]);
    }
  }

  lemma {:induction false} StopCons(off: nat, f: Bytes, rest: seq<Bytes>)
    requires |f| < TWO_16
    ensures off + |Records([f] + rest)| == off + PREFIX + |f| + |Records(rest)|
  {
    RecordsCons(f, rest);
    RecordLength(f);
  }

  /** The reader stops only when all announced frames have been yielded or the next one is not whole. */
  lemma {:induction false} FramesMaximal(b: Bytes, off: nat, n: nat)
    requires off <= |b|
    ensures |Frames(b, off, n)| < n ==> NoneAt(b, off + |Records(Frames(b, off, n))|)
    decreases n
  {
    if n > 0 && HasRecord(b, off) {
      var f := FrameAt(b, off);
      RecordAt(b, off);
      FramesMaximal(b, off + PREFIX + |f|, n - 1);
      StopCons(off, f, Frames(b, off + PREFIX + |f|, n - 1));
    } else {
      NoneAtIff(b, off);
    }
  }

  lemma TwoBytes(b: Bytes)
    requires |b| == 2
    ensures FromLe(b) == (b[0] as int) + 256 * (b[1] as int)
  {
    var t := b[1..];
    assert t[0] == b[1] && t[1..] == [];
    assert FromLe(t) == (t[0] as int) + 256 * FromLe(t[1..]);
  }

  lemma {:induction false} RecordAt(b: Bytes, off: nat)
    requires HasRecord(b, off)
    ensures var f := FrameAt(b, off);
            && |f| < TWO_16
            && |Record(f)| == PREFIX + |f|
            && off + PREFIX + |f| <= |b|
            && b[off..off + PREFIX + |f|] == Record(f)
  {
    var prefix := b[off..off + PREFIX];
    var f := FrameAt(b, off);
    FieldFits(prefix);
    FromLeRoundTrip(prefix);
    assert b[off..off + PREFIX + |f|] == prefix + f;
  }

  /** A datagram is complete exactly when its payload is the concatenation of the announced number of
      records, and printing the yielded frames then reproduces the payload. */
  lemma {:induction false} CompleteIff(b: Bytes)
    requires |b| >= HEADER
    ensures Complete(b) <==>
            exists fs :: Short(fs) && |fs| == DecodeHeader(b).nMsgs && b[HEADER..] == Records(fs)
    ensures Complete(b) ==> b[HEADER..] == Records(Parsed(b))
  {
    FramesConsecutive(b, HEADER, DecodeHeader(b).nMsgs);
    if Complete(b) {
      assert b[HEADER..] == b[HEADER..HEADER + |Records(Parsed(b))|];
    }
    if fs :| Short(fs) && |fs| == DecodeHeader(b).nMsgs && b[HEADER..] == Records(fs) {
      FramesOfRecords(b, HEADER, fs);
    }
  }

  // ---- Truncation ----

  /** How many whole records of fs fit into `room` bytes. */
  function Fitting(fs: seq<Bytes>, room: int): (k: nat)
    ensures k <= |fs|
  {
    if fs == [] || PREFIX + |fs[0]| > room then 0 else 1 + Fitting(fs[1..], room - PREFIX - |fs[0]|)
  }

  lemma TakeCons(f: Bytes, rest: seq<Bytes>, k: nat)
    requires k <= |rest|
    ensures ([f] + rest)[..k + 1] == [f] + rest[..k]
  {
  }

  /** The size of the first k+1 records. */
  lemma {:induction false} SizeCons(f: Bytes, rest: seq<Bytes>, k: nat)
    requires |f| < TWO_16 && k <= |rest|
    ensures |Records(([f] + rest)[..k + 1])| == PREFIX + |f| + |Records(rest[..k])|
  {
    TakeCons(f, rest, k);
    RecordsCons(f, rest[..k]);
    RecordLength(f);
  }

  /** The first k records fit into `room` bytes and one more would not. */
  predicate Longest(fs: seq<Bytes>, room: int, k: nat) {
    && k <= |fs| && |Records(fs[..k])| <= room
    && (k < |fs| ==> |Records(fs[..k + 1])| > room)
  }

  lemma {:induction false} LongestCons(f: Bytes, rest: seq<Bytes>, room: int, k: nat)
    requires |f| < TWO_16 && Longest(rest, room - PREFIX - |f|, k)
    ensures Longest([f] + rest, room, k + 1)
  {
    SizeCons(f, rest, k);
    if k < |rest| {
      SizeCons(f, rest, k + 1);
    }
  }

  lemma {:induction false} LongestNone(f: Bytes, rest: seq<Bytes>, room: nat)
    requires |f| < TWO_16 && PREFIX + |f| > room
    ensures Longest([f] + rest, room, 0)
  {
    SizeCons(f, rest, 0);
    assert ([f] + rest)[..0] == [];
  }

  /** Fitting is the longest prefix whose records fit. */
  lemma {:induction false} FittingLongest(fs: seq<Bytes>, room: nat)
    requires Short(fs)
    ensures Longest(fs, room, Fitting(fs, room))
  {
    if fs != [] {
      var f, rest := fs[0], fs[1..];
      assert fs == [f] + rest;
      if PREFIX + |f| <= room {
        FittingLongest(rest, room - PREFIX - |f|);
        LongestCons(f, rest, room, Fitting(rest, room - PREFIX - |f|));
      } else {
        LongestNone(f, rest, room);
      }
    }
  }

  lemma CutConcat(r: Bytes, m: Bytes, room: nat)
    requires room < |r + m|
    ensures room <= |r| ==> (r + m)[..room] == r[..room]
    ensures |r| <= room ==> (r + m)[..room] == r + m[..room - |r|]
  {
  }

  lemma {:induction false} FramesOfPrefix(b: Bytes, off: nat, fs: seq<Bytes>, n: nat)
    requires Short(fs) && n >= |fs| && off <= |b|
    requires |b| - off < |Records(fs)| && b[off..] == Records(fs)[..|b| - off]
    ensures Frames(b, off, n) == fs[..Fitting(fs, |b| - off)]
    decreases |fs|, 0
  {
    var f, rest, room := fs[0], fs[1..], |b| - off;
    assert fs == [f] + rest;
    RecordsCons(f, rest);
    RecordLength(f);
    CutConcat(Record(f), Records(rest), room);
    if PREFIX + |f| <= room {
      var next := off + PREFIX + |f|;
      TailSplit(b, off, next, Record(f), Records(rest)[..|b| - next]);
      ReadsRecord(b, off, f);
      assert HasRecord(b, off) && FrameAt(b, off) == f;
      PrefixOfRest(b, off, f, rest, n);
    } else {
      NoRecord(b, off, f);
    }
  }

  lemma {:induction false} PrefixOfRest(b: Bytes, off: nat, f: Bytes, rest: seq<Bytes>, n: nat)
    requires Short(rest) && n >= |rest| + 1 && HasRecord(b, off) && FrameAt(b, off) == f
    requires var next := off + PREFIX + |f|;
             next <= |b| && |b| - next < |Records(rest)| && b[next..] == Records(rest)[..|b| - next]
    ensures Frames(b, off, n) == ([f] + rest)[..Fitting([f] + rest, |b| - off)]
    decreases |rest|, 1
  {
    FramesOfPrefix(b, off + PREFIX + |f|, rest, n - 1);
    PrefixCons(b, off, f, rest, n);
  }

  lemma PrefixCons(b: Bytes, off: nat, f: Bytes, rest: seq<Bytes>, n: nat)
    requires n > 0 && HasRecord(b, off) && FrameAt(b, off) == f && off + PREFIX + |f| <= |b|
    requires var next := off + PREFIX + |f|; Frames(b, next, n - 1) == rest[..Fitting(rest, |b| - next)]
    ensures Frames(b, off, n) == ([f] + rest)[..Fitting([f] + rest, |b| - off)]
  {
    assert ([f] + rest)[1..] == rest;
    TakeCons(f, rest, Fitting(rest, |b| - off - PREFIX - |f|));
  }

  lemma TailSplit(b: Bytes, off: nat, next: nat, r: Bytes, m: Bytes)
    requires off + |r| == next <= |b| && b[off..] == r + m
    ensures b[off..next] == r && b[next..] == m
  {
    assert b[off..next] == b[off..][..|r|] && b[next..] == b[off..][|r|..];
  }

  /** A record that was cut short is not read. */
  lemma NoRecord(b: Bytes, off: nat, f: Bytes)
    requires |f| < TWO_16 && off <= |b| < off + PREFIX + |f|
    requires |b| - off <= |Record(f)| && b[off..] == Record(f)[..|b| - off]
    ensures !HasRecord(b, off)
  {
    RecordLength(f);
    if off + PREFIX <= |b| {
      assert b[off..off + PREFIX] == b[off..][..PREFIX] == Record(f)[..PREFIX];
    }
  }

  /** A datagram cut anywhere after its header yields exactly the frames that arrived whole, and is
      never mistaken for a complete one. */
  lemma {:induction false} Truncated(h: Header, fs: seq<Bytes>, cut: nat)
    requires Short(fs) && h.nMsgs == |fs| && HEADER <= cut < |Encode(h, fs)|
    ensures var b := Encode(h, fs)[..cut];
            && WellHeaded(b)
            && DecodeHeader(b) == h
            && Parsed(b) == fs[..Fitting(fs, cut - HEADER)]
            && !Complete(b)
  {
    var b := Encode(h, fs)[..cut];
    var tail := Records(fs)[..cut - HEADER];
    assert b == EncodeHeader(h) + tail;
    HeaderRoundTrip(h, tail);
    FittingLongest(fs, cut - HEADER);
    assert b[HEADER..] == tail;
    FramesOfPrefix(b, HEADER, fs, |fs|);
    assert fs[..|fs|] == fs;
  }
}
