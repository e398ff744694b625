/** What a sender's run amounts to: the ring positions it picked up, batch by batch, and the copies it
    handed to the network. */
module SenderSpec {
  import opened Words
  import opened WireSpec
  import opened WireLaws
  import opened RingSpec
  import opened Message
  import Seqs

  predicate Inside(log: seq<Frame>, positions: seq<nat>) {
    forall i :: 0 <= i < |positions| ==> positions[i] < |log|
  }

  function FramesAt(log: seq<Frame>, positions: seq<nat>): (fs: seq<Bytes>)
    requires Inside(log, positions)
    ensures |fs| == |positions| && forall i :: 0 <= i < |fs| ==> fs[i] == log[positions[i]]
  {
    seq(|positions|, i requires 0 <= i < |positions| => log[positions[i]])
  }

  function Flat<T>(batches: seq<seq<T>>): seq<T> {
    if batches == [] then [] else Flat(batches[..|batches| - 1]) + batches[|batches| - 1]
  }

  predicate Increasing(s: seq<nat>) {
    forall i, j :: 0 <= i < j < |s| ==> s[i] < s[j]
  }

  /** The header of copy s of datagram d. */
  predicate HeaderFor(h: Header, d: nat, s: nat, fs: seq<Bytes>) {
    && h.dgramId == d % TWO_32 && h.streamId == s && h.nMsgs == |fs| && h.flags == MakeFlags(0, 0)
    && (fs != [] && |fs[0]| >= MSG_HEADER ==> h.firstSeq == SeqId(fs[0]) && h.baseTs == SendTs(fs[0]))
  }

  /** b is copy s of datagram d, carrying exactly fs. */
  predicate IsCopy(b: Bytes, d: nat, s: nat, fs: seq<Bytes>) {
    && HEADER <= |b| <= MAX_DATAGRAM
    && Short(fs)
    && HeaderFor(DecodeHeader(b), d, s, fs)
    && b == Encode(DecodeHeader(b), fs)
  }

  predicate CopiesOf(copies: seq<Bytes>, d: nat, fs: seq<Bytes>) {
    forall s :: 0 <= s < |copies| ==> IsCopy(copies[s], d, s, fs)
  }

  /** Every datagram carries a non-empty batch and went out once on every stream. */
  predicate SentOk(log: seq<Frame>, streams: nat, batches: seq<seq<nat>>, sent: seq<seq<Bytes>>) {
    && |sent| == |batches|
    && forall d :: 0 <= d < |sent| ==>
         batches[d] != [] && Inside(log, batches[d]) && |sent[d]| == streams &&
         CopiesOf(sent[d], d, FramesAt(log, batches[d]))
  }

  predicate Picked(log: seq<Frame>, start: nat, readIndex: nat, picks: seq<nat>) {
    Increasing(picks) && forall i :: 0 <= i < |picks| ==> start <= picks[i] < readIndex && picks[i] < |log|
  }

  lemma CopyMade(b: Bytes, d: nat, s: nat, fs: seq<Bytes>, h: Header)
    requires b == Encode(h, fs) && |b| <= MAX_DATAGRAM && Short(fs) && HeaderFor(h, d, s, fs)
    ensures IsCopy(b, d, s, fs)
  {
    HeaderRoundTrip(h, Records(fs));
  }

  lemma {:induction false} SentOkGrows(log: seq<Frame>, log': seq<Frame>, streams: nat,
                                       batches: seq<seq<nat>>, sent: seq<seq<Bytes>>)
    requires SentOk(log, streams, batches, sent) && log <= log'
    ensures SentOk(log', streams, batches, sent)
  {
    forall d | 0 <= d < |sent|
      ensures Inside(log', batches[d]) && FramesAt(log', batches[d]) == FramesAt(log, batches[d])
    {
    }
  }

  lemma {:induction false} SentOkSnoc(log: seq<Frame>, streams: nat, batches: seq<seq<nat>>, sent: seq<seq<Bytes>>,
                                     b: seq<nat>, copies: seq<Bytes>)
    requires SentOk(log, streams, batches, sent) && b != [] && Inside(log, b)
    requires |copies| == streams && CopiesOf(copies, |batches|, FramesAt(log, b))
    ensures SentOk(log, streams, batches + [b], sent + [copies])
  {
    var batches', sent' := batches + [b], sent + [copies];
    forall d | 0 <= d < |sent'|
      ensures batches'[d] != [] && Inside(log, batches'[d]) && |sent'[d]| == streams
      ensures CopiesOf(sent'[d], d, FramesAt(log, batches'[d]))
    {
      if d < |sent| {
        assert batches'[d] == batches[d] && sent'[d] == sent[d];
      }
    }
  }

  lemma FlatSnoc<T>(batches: seq<seq<T>>, b: seq<T>)
    ensures Flat(batches + [b]) == Flat(batches) + b
  {
    assert (batches + [b])[..|batches|] == batches;
  }

  /** The sender's position and counters; `cur` are the positions in the unsent datagram. */
  datatype Progress = Progress(start: nat, readIndex: nat, messages: nat, lappedMsgs: nat,
                               batches: seq<seq<nat>>, cur: seq<nat>)

  /** read_index = start + messages + lapped_msgs, over strictly increasing picks. */
  predicate Accounted(log: seq<Frame>, p: Progress) {
    && Picked(log, p.start, p.readIndex, Flat(p.batches) + p.cur)
    && Inside(log, p.cur)
    && p.messages == |Flat(p.batches)| + |p.cur|
    && p.readIndex == p.start + p.messages + p.lappedMsgs
  }

  lemma AccountedGrows(log: seq<Frame>, log': seq<Frame>, p: Progress)
    requires Accounted(log, p) && log <= log'
    ensures Accounted(log', p)
    ensures FramesAt(log', p.cur) == FramesAt(log, p.cur)
  {
  }

  /** The effect of one ring read on the sender. */
  function AfterRead(p: Progress, result: ReadResult): Progress {
    match result
    case Ok(_) => p.(readIndex := p.readIndex + 1, messages := p.messages + 1, cur := p.cur + [p.readIndex])
    case Empty => p
    case Lapped(resume) =>
      p.(readIndex := resume, lappedMsgs := p.lappedMsgs + Max(0, resume - p.readIndex))
  }

  /** Every read in place keeps the account, whatever bytes it returns. */
  lemma {:induction false} AccountedRead(log: seq<Frame>, p: Progress, result: ReadResult)
    requires Accounted(log, p) && InPlace(log, p.readIndex, result)
    ensures var q := AfterRead(p, result);
            && Accounted(log, q) && q.readIndex >= p.readIndex
            && FramesAt(log, q.cur) == FramesAt(log, p.cur) + if result.Ok? then [log[p.readIndex]] else []
  {
    if result.Ok? {
      PickedSnoc(log, p.start, p.readIndex, Flat(p.batches) + p.cur);
      assert Flat(p.batches) + (p.cur + [p.readIndex]) == Flat(p.batches) + p.cur + [p.readIndex];
    }
  }

  lemma AccountedFlush(log: seq<Frame>, p: Progress)
    requires Accounted(log, p)
    ensures Accounted(log, p.(batches := p.batches + [p.cur], cur := []))
  {
    FlatSnoc(p.batches, p.cur);
    assert Flat(p.batches) + p.cur + [] == Flat(p.batches) + p.cur;
  }

  lemma PickedSnoc(log: seq<Frame>, start: nat, r: nat, picks: seq<nat>)
    requires Picked(log, start, r, picks) && start <= r < |log|
    ensures Picked(log, start, r + 1, picks + [r])
  {
  }

  /** Committing frame f keeps the header in step. */
  lemma HeaderCounts(h: Header, h': Header, d: nat, fs: seq<Bytes>, f: Bytes, q: u64, ts: u64)
    requires HeaderFor(h, d, 0, fs) && |fs| < TWO_16 - 1
    requires h' == (if fs == [] then h.(firstSeq := q, baseTs := ts) else h).(nMsgs := h.nMsgs + 1)
    requires |f| >= MSG_HEADER ==> q == SeqId(f) && ts == SendTs(f)
    ensures HeaderFor(h', d, 0, fs + [f])
  {
  }

  lemma {:induction false} FlatCons<T>(b: seq<T>, rest: seq<seq<T>>)
    ensures Flat([b] + rest) == b + Flat(rest)
  {
    if rest == [] {
      assert [b] + rest == [b] && [b][..0] == [];
    } else {
      var n := |rest| - 1;
      FlatCons(b, rest[..n]);
      assert ([b] + rest)[..|rest|] == [b] + rest[..n];
      Seqs.Assoc(b, Flat(rest[..n]), rest[n]);
    }
  }

  /** Publishing the first entry of what is left of a feed. */
  lemma FeedTake(base: seq<Frame>, log: seq<Frame>, rest: seq<seq<Frame>>, all: seq<Frame>)
    requires base <= log && log + Flat(rest) == all
    ensures log <= all
    ensures rest == [] ==> log + [] == log
    ensures rest != [] ==> base <= log + rest[0] <= all && (log + rest[0]) + Flat(rest[1..]) == all
  {
    if rest != [] {
      assert rest == [rest[0]] + rest[1..];
      FlatCons(rest[0], rest[1..]);
      Seqs.Assoc(log, rest[0], Flat(rest[1..]));
    }
  }

  // ---- Nothing readable is passed over ----

  /** Of the positions a reader has gone past, those still in the ring have all been picked up. */
  ghost predicate Kept(log: seq<Frame>, n: nat, start: nat, readIndex: nat, picks: seq<nat>) {
    forall q: nat :: start <= q < readIndex && q + n >= |log| ==> q in picks
  }

  /** The sender's books are in order and nothing it could still read lies behind it. */
  ghost predicate Booked(log: seq<Frame>, n: nat, p: Progress) {
    && Accounted(log, p) && p.readIndex <= |log|
    && Kept(log, n, p.start, p.readIndex, Flat(p.batches) + p.cur)
  }

  lemma BookedGrows(log: seq<Frame>, log': seq<Frame>, n: nat, p: Progress)
    requires Booked(log, n, p) && log <= log'
    ensures Booked(log', n, p) && FramesAt(log', p.cur) == FramesAt(log, p.cur)
  {
    AccountedGrows(log, log', p);
  }

  lemma {:induction false} KeptSnoc(log: seq<Frame>, n: nat, start: nat, r: nat, picks: seq<nat>)
    requires Kept(log, n, start, r, picks)
    ensures Kept(log, n, start, r + 1, picks + [r])
  {
    forall q: nat | start <= q < r + 1 && q + n >= |log|
      ensures q in picks + [r]
    {
      assert (picks + [r])[|picks|] == r;
    }
  }

  /** The log's answer keeps the books in order and passes over nothing that is still there. */
  lemma {:induction false} BookedRead(log: seq<Frame>, n: nat, p: Progress)
    requires Booked(log, n, p)
    ensures var result := LogRead(log, n, p.readIndex);
            var q := AfterRead(p, result);
            && Booked(log, n, q) && q.readIndex >= p.readIndex
            && FramesAt(log, q.cur) == FramesAt(log, p.cur) + if result.Ok? then [result.frame] else []
  {
    var result := LogRead(log, n, p.readIndex);
    var picks := Flat(p.batches) + p.cur;
    AccountedRead(log, p, result);
    if result.Ok? {
      KeptSnoc(log, n, p.start, p.readIndex, picks);
      assert Flat(p.batches) + (p.cur + [p.readIndex]) == picks + [p.readIndex];
    }
  }

  lemma BookedFlush(log: seq<Frame>, n: nat, p: Progress)
    requires Booked(log, n, p)
    ensures Booked(log, n, p.(batches := p.batches + [p.cur], cur := []))
  {
    AccountedFlush(log, p);
    FlatSnoc(p.batches, p.cur);
    Seqs.NilRight(Flat(p.batches) + p.cur);
  }

  /** k positions from `from` on. */
  function Span(from: nat, k: nat): (s: seq<nat>)
    ensures |s| == k && forall i :: 0 <= i < k ==> s[i] == from + i
  {
    seq(k, i => from + i)
  }

  lemma SpanSnoc(from: nat, k: nat)
    ensures Span(from, k) + [from + k] == Span(from, k + 1)
  {
  }

  /** A batch that began at r: consecutive positions, and the reader right behind them unless a lap has
      ended it. */
  predicate InRow(p: Progress, r: nat, unlapped: bool, more: bool) {
    && p.cur == Span(r, |p.cur|) && (more ==> unlapped)
    && (if unlapped then p.readIndex == r + |p.cur| else p.readIndex > r)
  }

  /** The same with a producer that stands still: a lap can only come first. */
  predicate Standing(edge: nat, n: nat, p: Progress, r: nat, unlapped: bool) {
    && (p.cur != [] ==> r + n >= edge)
    && (!unlapped ==> p.cur == [] && r + n < edge && p.readIndex == edge - n)
  }

  lemma {:induction false} RowStep(log: seq<Frame>, n: nat, p: Progress, r: nat)
    requires InRow(p, r, true, true)
    ensures var result := LogRead(log, n, p.readIndex);
            var q := AfterRead(p, result);
            && InRow(q, r, !result.Lapped?, result.Ok?)
            && (Standing(|log|, n, p, r, true) ==> Standing(|log|, n, q, r, !result.Lapped?))
  {
    SpanSnoc(r, |p.cur|);
  }

  /** What one round does when the producer stands still and no quota is set: at the edge nothing, behind
      the ring a jump to its oldest frame, otherwise a datagram with the next frames. */
  predicate RoundDone(edge: nat, n: nat, before: nat, after: nat, progress: bool) {
    if before >= edge then !progress && after == before
    else if before + n < edge then !progress && after == edge - n
    else progress && before < after <= edge
  }

  lemma NextId(d: nat)
    ensures (d % TWO_32 + 1) % TWO_32 == (d + 1) % TWO_32
  {
  }

  // ---- Accounting ----

  /** The positions the sender went past without picking them up. */
  ghost function Skipped(start: nat, readIndex: nat, picks: seq<nat>): set<nat> {
    set p | start <= p < readIndex && p !in picks
  }

  /** Picking strictly increasing positions, every position passed is either picked once or skipped. */
  lemma {:induction false} PassedOrPicked(log: seq<Frame>, start: nat, readIndex: nat, picks: seq<nat>)
    requires Picked(log, start, readIndex, picks) && start <= readIndex
    ensures |Skipped(start, readIndex, picks)| == readIndex - start - |picks|
    decreases readIndex - start
  {
    var last, n := readIndex - 1, |picks| - 1;
    if picks != [] && picks[n] == last {
      PassedOrPicked(log, start, last, picks[..n]);
      assert Skipped(start, readIndex, picks) == Skipped(start, last, picks[..n]);
    } else if readIndex > start {
      assert last !in picks;
      PassedOrPicked(log, start, last, picks);
      assert Skipped(start, readIndex, picks) == Skipped(start, last, picks) + {last};
    } else {
      assert Skipped(start, readIndex, picks) == {};
    }
  }
}
