/** The datagram builder and reader, which write and walk the buffer in place. */
module Wire {
  import opened Words
  import opened WireSpec
  import opened WireLaws

  // ---- Writing into a buffer ----

  /** b with the bytes from `at` on replaced by x. */
  function Patch(b: Bytes, at: nat, x: Bytes): (r: Bytes)
    requires at + |x| <= |b|
    ensures |r| == |b|
  {
    b[..at] + x + b[at + |x|..]
  }

  /** memcpy into a buffer. */
  method CopyIn(dst: array<byte>, at: nat, src: Bytes)
    requires at + |src| <= dst.Length
    modifies dst
    ensures dst[..] == Patch(old(dst[..]), at, src)
  {
    var i := 0;
    while i < |src|
      invariant 0 <= i <= |src|
      invariant forall k :: 0 <= k < dst.Length ==>
                              dst[k] == if at <= k < at + i then src[k - at] else old(dst[k])
    {
      dst[at + i] := src[i];
      i := i + 1;
    }
  }

  lemma PatchPrefix(b: Bytes, at: nat, x: Bytes, n: nat)
    requires at + |x| <= n <= |b|
    ensures Patch(b, at, x)[..n] == Patch(b[..n], at, x) && Patch(b, at, x)[n..] == b[n..]
  {
  }

  lemma PatchMiddle(pre: Bytes, old_: Bytes, post: Bytes, x: Bytes)
    requires |old_| == |x|
    ensures Patch(pre + old_ + post, |pre|, x) == pre + x + post
  {
  }

  lemma PatchGap(head: Bytes, body: Bytes, gap: Bytes, f: Bytes, x: Bytes)
    requires |gap| == |x|
    ensures Patch(head + (body + gap + f), |head| + |body|, x) == head + (body + x + f)
  {
    PatchMiddle(head + body, gap, f, x);
    Regroup(head, body, gap, f);
    Regroup(head, body, x, f);
  }

  lemma Regroup(a: Bytes, b: Bytes, c: Bytes, d: Bytes)
    ensures a + (b + c + d) == a + b + c + d
  {
  }

  lemma Assoc2(a: Bytes, b: Bytes, c: Bytes, d: Bytes)
    ensures (a + b + c) + d == a + b + (c + d)
  {
  }

  lemma Assoc4(a: Bytes, b: Bytes, c: Bytes, d: Bytes, e: Bytes, f: Bytes)
    ensures (a + b + c + d + e) + f == a + b + (c + d + e + f)
  {
    var cd := c + d;
    assert a + b + c + d == a + b + cd;
    assert a + b + cd + e == a + b + (cd + e);
    Assoc2(a, b, cd + e, f);
  }

  lemma PatchFirstSeq(h: Header, tail: Bytes, q: u64)
    ensures Patch(EncodeHeader(h) + tail, 16, Le(q, 8)) == EncodeHeader(h.(firstSeq := q)) + tail
  {
    var pre := Le(MAGIC, 4) + Le(h.dgramId, 4) + Le(h.streamId, 2) + Le(h.nMsgs, 2) + [h.flags, 0, 0, 0];
    PatchMiddle(pre, Le(h.firstSeq, 8), Le(h.baseTs, 8) + tail, Le(q, 8));
    Assoc2(pre, Le(h.firstSeq, 8), Le(h.baseTs, 8), tail);
    Assoc2(pre, Le(q, 8), Le(h.baseTs, 8), tail);
  }

  lemma PatchBaseTs(h: Header, tail: Bytes, ts: u64)
    ensures Patch(EncodeHeader(h) + tail, 24, Le(ts, 8)) == EncodeHeader(h.(baseTs := ts)) + tail
  {
    var pre := Le(MAGIC, 4) + Le(h.dgramId, 4) + Le(h.streamId, 2) + Le(h.nMsgs, 2) + [h.flags, 0, 0, 0] +
               Le(h.firstSeq, 8);
    PatchMiddle(pre, Le(h.baseTs, 8), tail, Le(ts, 8));
  }

  lemma PatchCount(h: Header, tail: Bytes, n: u16)
    ensures Patch(EncodeHeader(h) + tail, 10, Le(n, 2)) == EncodeHeader(h.(nMsgs := n)) + tail
  {
    var pre := Le(MAGIC, 4) + Le(h.dgramId, 4) + Le(h.streamId, 2);
    var flags, q, ts := [h.flags, 0, 0, 0], Le(h.firstSeq, 8), Le(h.baseTs, 8);
    PatchMiddle(pre, Le(h.nMsgs, 2), flags + q + ts + tail, Le(n, 2));
    Assoc4(pre, Le(h.nMsgs, 2), flags, q, ts, tail);
    Assoc4(pre, Le(n, 2), flags, q, ts, tail);
  }

  lemma PatchStream(h: Header, tail: Bytes, s: u16)
    ensures Patch(EncodeHeader(h) + tail, 8, Le(s, 2)) == EncodeHeader(h.(streamId := s)) + tail
  {
    var pre := Le(MAGIC, 4) + Le(h.dgramId, 4);
    var n, flags, q, ts := Le(h.nMsgs, 2), [h.flags, 0, 0, 0], Le(h.firstSeq, 8), Le(h.baseTs, 8);
    PatchMiddle(pre, Le(h.streamId, 2), n + flags + q + (ts + tail), Le(s, 2));
    Assoc4(pre, Le(h.streamId, 2), n, flags, q, ts + tail);
    Assoc4(pre, Le(s, 2), n, flags, q, ts + tail);
    assert (pre + Le(h.streamId, 2) + n + flags + q) + (ts + tail) == EncodeHeader(h) + tail;
    assert (pre + Le(s, 2) + n + flags + q) + (ts + tail) == EncodeHeader(h.(streamId := s)) + tail;
  }

  /** The count stored in the buffer is the header's. */
  lemma CountIn(b: Bytes, len: nat, h: Header, tail: Bytes)
    requires HEADER <= len <= |b| && b[..len] == EncodeHeader(h) + tail
    ensures FromLe(b[10..12]) == h.nMsgs
  {
    HeaderRoundTrip(h, tail);
    assert b[10..12] == b[..len][10..12];
  }

  lemma SplitTail(b: Bytes, len: nat, end: nat, head: Bytes, body: Bytes)
    requires len + PREFIX <= end <= |b| && b[..len] == head + body
    ensures b[..end] == head + (body + b[len..len + PREFIX] + b[len + PREFIX..end])
  {
    assert b[..end] == b[..len] + b[len..len + PREFIX] + b[len + PREFIX..end];
  }

  /** Appending one record to a printed datagram. */
  lemma CommitEncodes(h: Header, frames: seq<Bytes>, f: Bytes)
    requires |f| < TWO_16
    ensures EncodeHeader(h) + (Records(frames) + Le(|f|, 2) + f) == Encode(h, frames + [f])
    ensures |Records(frames + [f])| == |Records(frames)| + PREFIX + |f|
  {
    RecordsFlat(frames, f);
  }

  lemma NextFrame(b: Bytes, off: nat, n: nat, yielded: seq<Bytes>)
    requires n > 0 && HasRecord(b, off)
    ensures var f := FrameAt(b, off);
            && yielded + Frames(b, off, n) == (yielded + [f]) + Frames(b, off + PREFIX + |f|, n - 1)
            && |Records(yielded + [f])| == |Records(yielded)| + PREFIX + |f|
  {
    var f := FrameAt(b, off);
    RecordAt(b, off);
    RecordsSnoc(yielded, f);
    assert Frames(b, off, n) == [f] + Frames(b, off + PREFIX + |f|, n - 1);
  }

  lemma NothingMore(b: Bytes, off: nat, n: nat, yielded: seq<Bytes>)
    ensures n == 0 || !HasRecord(b, off) ==> yielded + Frames(b, off, n) == yielded
  {
  }

  /** The header after one more message. */
  function Counted(h: Header, isFirst: bool, q: u64, ts: u64): Header
    requires h.nMsgs < TWO_16 - 1
  {
    Based(h, isFirst, q, ts).(nMsgs := h.nMsgs + 1)
  }

  /** The bases come from the first message of the datagram. */
  function Based(h: Header, isFirst: bool, q: u64, ts: u64): Header {
    if isFirst then h.(firstSeq := q, baseTs := ts) else h
  }

  class Builder {
    const buf: array<byte>
    const cap: nat
    var len: nat
    var first: bool
    ghost var header: Header
    ghost var frames: seq<Bytes>

    ghost predicate Room()
      reads this
    {
      HEADER <= cap <= buf.Length && cap < TWO_16
    }

    /** The buffer holds the printed datagram of the committed frames. */
    ghost predicate Valid()
      reads this, buf
    {
      && Room()
      && Short(frames) && header.nMsgs == |frames| && first == (frames == [])
      && len == HEADER + |Records(frames)| <= cap
      && buf[..len] == Encode(header, frames)
    }

    constructor (buf: array<byte>, cap: nat)
      requires HEADER <= cap <= buf.Length && cap < TWO_16
      ensures Room() && this.buf == buf && this.cap == cap
    {
      this.buf, this.cap := buf, cap;
      len, first := 0, true;
      header, frames := Header(0, 0, 0, 0, 0, 0), [];
    }

    method Begin(dgramId: u32, streamId: u16, enc: byte, role: byte)
      requires Room()
      modifies this, buf
      ensures Valid() && frames == []
      ensures header == Header(dgramId, streamId, 0, MakeFlags(enc, role), 0, 0)
    {
      var h := Header(dgramId, streamId, 0, MakeFlags(enc, role), 0, 0);
      CopyIn(buf, 0, EncodeHeader(h));
      header, frames := h, [];
      len, first := HEADER, true;
      assert buf[..len] == EncodeHeader(header) == Encode(header, frames);
    }

    method IsEmpty() returns (r: bool)
      requires Valid()
      ensures r == (frames == [])
    {
      CountField();
      r := FromLe(buf[10..12]) == 0;
    }

    /** The count stored in the buffer is the number of frames. */
    lemma CountField()
      requires Valid()
      ensures FromLe(buf[10..12]) == |frames| < TWO_16 - 1
    {
      CountIn(buf[..], len, header, Records(frames));
      RecordsSize(frames);
    }

    /** Where the next frame may be written, if `need` bytes of it fit. */
    method AppendPtr(need: nat) returns (at: int)
      requires Valid()
      ensures at >= 0 <==> len + PREFIX + need <= cap
      ensures at >= 0 ==> at == len + PREFIX && at + need <= cap
    {
      at := if len + PREFIX + need > cap then -1 else len + PREFIX;
    }

    /** Whatever is written from there on leaves the datagram as it is, so an append can be abandoned. */
    twostate lemma WritesBehind(at: nat)
      requires old(Valid()) && unchanged(this) && old(len) + PREFIX <= at <= buf.Length
      requires buf[..at] == old(buf[..at])
      ensures Valid() && buf[..len] == old(buf[..len])
    {
      assert buf[..len] == buf[..at][..len];
    }

    /** The buffer parses back to the header and exactly the frames appended so far, and is complete. */
    lemma Decodes()
      requires Valid()
      ensures len <= cap && WellHeaded(buf[..len]) && DecodeHeader(buf[..len]) == header
      ensures Parsed(buf[..len]) == frames && Complete(buf[..len])
    {
      RoundTrip(header, frames);
    }

    /** Commits the frameLen bytes already written behind the next length prefix. */
    method AppendCommit(frameLen: nat, q: u64, ts: u64)
      requires Valid() && len + PREFIX + frameLen <= cap
      modifies this, buf
      ensures Valid() && len == old(len) + PREFIX + frameLen
      ensures frames == old(frames) + [old(buf[len + PREFIX..len + PREFIX + frameLen])]
      ensures header.nMsgs == old(header.nMsgs) + 1
      ensures header == Counted(old(header), old(frames) == [], q, ts)
    {
      ghost var b, at := buf[..], len + PREFIX;
      SplitTail(b, len, at + frameLen, EncodeHeader(header), Records(frames));
      Commit(frameLen, q, ts, b[len..at], b[at..at + frameLen]);
    }

    method Commit(frameLen: nat, q: u64, ts: u64, ghost gap: Bytes, ghost f: Bytes)
      requires Valid() && len + PREFIX + frameLen <= cap && |gap| == PREFIX && |f| == frameLen
      requires buf[..len + PREFIX + frameLen] == EncodeHeader(header) + (Records(frames) + gap + f)
      modifies this, buf
      ensures Valid() && len == old(len) + PREFIX + frameLen && frames == old(frames) + [f]
      ensures header.nMsgs == old(header.nMsgs) + 1
      ensures header == Counted(old(header), old(frames) == [], q, ts)
    {
      CountField();
      var n := (FromLe(buf[10..12]) + 1) % TWO_16;
      ghost var h, body := Based(header, first, q, ts), Records(frames);
      ghost var h', frames' := h.(nMsgs := n), frames + [f];
      CommitEncodes(h', frames, f);
      PutBases(q, ts, body + gap + f, len + PREFIX + frameLen);
      PutLength(frameLen, h, body, gap, f);
      len := len + PREFIX + frameLen;
      PutCount(n, h, body + Le(frameLen, 2) + f);
      Seal(h', frames');
    }

    /** The buffer now holds the printed datagram h, fs. */
    ghost method Seal(h: Header, fs: seq<Bytes>)
      requires Room() && Short(fs) && h.nMsgs == |fs| && first == (fs == [])
      requires len == HEADER + |Records(fs)| <= cap && buf[..len] == Encode(h, fs)
      modifies this`header, this`frames
      ensures Valid() && header == h && frames == fs
    {
      header, frames := h, fs;
    }

    /** The two bases, taken from the first message. */
    method PutBases(q: u64, ts: u64, ghost tail: Bytes, ghost end: nat)
      requires Room() && HEADER <= end <= cap && buf[..end] == EncodeHeader(header) + tail
      modifies this`first, buf
      ensures !first && buf[..end] == EncodeHeader(Based(header, old(first), q, ts)) + tail
    {
      if first {
        PatchPrefix(buf[..], 16, Le(q, 8), end);
        PatchFirstSeq(header, tail, q);
        CopyIn(buf, 16, Le(q, 8));
        PatchPrefix(buf[..], 24, Le(ts, 8), end);
        PatchBaseTs(header.(firstSeq := q), tail, ts);
        CopyIn(buf, 24, Le(ts, 8));
        first := false;
      }
    }

    /** The length prefix of the frame that is being committed. */
    method PutLength(frameLen: nat, ghost h: Header, ghost body: Bytes, ghost gap: Bytes, ghost f: Bytes)
      requires Room() && len == HEADER + |body| && |gap| == PREFIX && |f| == frameLen && len + PREFIX + frameLen <= cap
      requires buf[..len + PREFIX + frameLen] == EncodeHeader(h) + (body + gap + f)
      modifies buf
      ensures buf[..len + PREFIX + frameLen] == EncodeHeader(h) + (body + Le(frameLen, 2) + f)
    {
      ghost var end := len + PREFIX + frameLen;
      DivModUnique(frameLen, TWO_16, 0, frameLen);
      var prefix := Le(frameLen % TWO_16, 2);
      ghost var b := buf[..];
      assert b[..end] == buf[..end];
      PatchPrefix(b, len, prefix, end);
      PatchGap(EncodeHeader(h), body, gap, f, prefix);
      CopyIn(buf, len, prefix);
    }

    method PutCount(n: u16, ghost h: Header, ghost tail: Bytes)
      requires Room() && HEADER <= len <= cap && buf[..len] == EncodeHeader(h) + tail
      modifies buf
      ensures buf[..len] == EncodeHeader(h.(nMsgs := n)) + tail
    {
      PatchPrefix(buf[..], 10, Le(n, 2), len);
      PatchCount(h, tail, n);
      CopyIn(buf, 10, Le(n, 2));
    }

    /** Refuses a frame that does not fit and leaves everything as it was. */
    method AppendRaw(frame: Bytes, q: u64, ts: u64) returns (ok: bool)
      requires Valid()
      modifies this, buf
      ensures Valid() && ok == (old(len) + PREFIX + |frame| <= cap)
      ensures ok ==> frames == old(frames) + [frame] && header.nMsgs == old(header.nMsgs) + 1 &&
                     header == Counted(old(header), old(frames) == [], q, ts)
      ensures !ok ==> frames == old(frames) && header == old(header) && buf[..] == old(buf[..])
    {
      if len + (PREFIX + |frame|) > cap {
        return false;
      }
      PatchPrefix(buf[..], len + PREFIX, frame, len + PREFIX + |frame|);
      ghost var b := buf[..];
      CopyIn(buf, len + PREFIX, frame);
      assert buf[..len] == b[..len];
      assert buf[len + PREFIX..len + PREFIX + |frame|] == frame;
      AppendCommit(|frame|, q, ts);
      return true;
    }
  }

  class Reader {
    var data: Bytes
    var off: nat
    var seen: nat
    ghost var yielded: seq<Bytes>

    ghost predicate Valid()
      reads this
    {
      && WellHeaded(data)
      && HEADER <= off <= |data| && off == HEADER + |Records(yielded)|
      && seen == |yielded| <= DecodeHeader(data).nMsgs
      && yielded + Frames(data, off, DecodeHeader(data).nMsgs - seen) == Parsed(data)
    }

    constructor ()
    {
      data, off, seen, yielded := [], 0, 0, [];
    }

    /** Accepts any bytes with a whole header and the right magic. */
    method Reset(b: Bytes) returns (ok: bool)
      modifies this
      ensures ok == WellHeaded(b)
      ensures ok ==> Valid() && data == b && yielded == []
    {
      data, off, seen, yielded := b, HEADER, 0, [];
      if |data| < HEADER {
        return false;
      }
      if FromLe(data[..4]) != MAGIC {
        return false;
      }
      return true;
    }

    /** Yields the next frame as an in-bounds slice of the datagram; false means that everything the
        datagram holds has been yielded. */
    method NextRaw() returns (ok: bool, at: nat, flen: nat)
      requires Valid()
      modifies this
      ensures Valid() && data == old(data)
      ensures ok == (|old(yielded)| < |Parsed(data)|)
      ensures ok ==> at + flen <= |data| && at == old(off) + PREFIX && off == at + flen &&
                     yielded == old(yielded) + [data[at..at + flen]]
      ensures !ok ==> yielded == old(yielded) == Parsed(data)
      ensures yielded <= Parsed(data)
    {
      NothingMore(data, off, DecodeHeader(data).nMsgs - seen, yielded);
      if seen >= DecodeHeader(data).nMsgs {
        return false, 0, 0;
      }
      if off + PREFIX > |data| {
        return false, 0, 0;
      }
      at := off + PREFIX;
      flen := FromLe(data[off..off + PREFIX]);
      if at + flen > |data| {
        return false, 0, 0;
      }
      Take(at, flen);
      ok := true;
    }

    method Take(at: nat, flen: nat)
      requires Valid() && seen < DecodeHeader(data).nMsgs && HasRecord(data, off)
      requires at == off + PREFIX && flen == |FrameAt(data, off)|
      modifies this
      ensures Valid() && data == old(data) && off == at + flen <= |data|
      ensures |old(yielded)| < |Parsed(data)| && yielded == old(yielded) + [data[at..at + flen]]
    {
      NextFrame(data, off, DecodeHeader(data).nMsgs - seen, yielded);
      yielded := yielded + [FrameAt(data, off)];
      off := at + flen;
      seen := seen + 1;
    }

    /** After the walk: whether the datagram parsed exactly as advertised. */
    method IsComplete() returns (r: bool)
      requires Valid()
      ensures yielded == Parsed(data) ==> r == Complete(data)
    {
      r := seen == DecodeHeader(data).nMsgs && off == |data|;
    }
  }
}
