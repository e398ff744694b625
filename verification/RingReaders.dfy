/** The sender's and the consumer's loops on the interleaved ring, where the producer moves inside their
    reads: which books still balance, which frames they carry, and exactly when their results are right. */
module RingReaders {
  import opened Words
  import opened WireSpec
  import opened RingSpec
  import opened RingProtocol
  import opened RingInvariant
  import opened RingLaws
  import opened Message
  import opened DedupSpec
  import opened SenderSpec
  import opened ReceiverSpec
  import opened Consumer
  import opened PipelineSpec
  import Metrics
  import Seqs

  // ---- Loops of reads ----

  /** Where the loop reads next. */
  function Next(f: Finish): nat {
    match f.result
    case Ok(_) => f.r + 1
    case Empty => f.r
    case Lapped(p) => p
  }

  function IndexAfter(start: nat, past: seq<Finish>): nat {
    if past == [] then start else Next(past[|past| - 1])
  }

  /** Each read is at the position the one before it left. */
  predicate Chained(start: nat, past: seq<Finish>) {
    past == [] ||
    var n := |past| - 1;
    Chained(start, past[..n]) && past[n].r == IndexAfter(start, past[..n])
  }

  /** Reader k of a reachable ring is a loop that started at `start`. */
  ghost predicate Looping(s: RingProtocol.State, k: nat, start: nat) {
    Reachable(s) && k < |s.readers| && Chained(start, s.readers[k].past)
  }

  /** No overwriting publication had begun by the re-check of a successful read. */
  predicate Untorn(n: nat, past: seq<Finish>) {
    forall i :: 0 <= i < |past| && past[i].result.Ok? ==> past[i].at.begun <= past[i].r + n
  }

  /** The reads are those of a reader of s. */
  ghost predicate PastOf(s: RingProtocol.State, k: nat, past: seq<Finish>) {
    Reachable(s) && k < |s.readers| && past <= s.readers[k].past
  }

  lemma LastOfPast(s: RingProtocol.State, k: nat, past: seq<Finish>)
    requires PastOf(s, k, past) && past != []
    ensures var n := |past| - 1;
            PastOf(s, k, past[..n]) && Finished(s, k, past[n].r, past[n].result, past[n].at)
  {
    assert past[|past| - 1] in s.readers[k].past;
  }

  // ---- The sender ----

  /** The sender's books, the frames of the datagrams it has sent and those of the open one. */
  datatype Sending = Sending(books: Progress, done: seq<seq<Frame>>, open: seq<Frame>)

  /** One read; `flush` tells whether the datagram is sent after it. */
  function Extend(x: Sending, result: ReadResult, flush: bool): Sending {
    var books := AfterRead(x.books, result);
    var open := if result.Ok? then x.open + [result.frame] else x.open;
    if flush && books.cur != [] then
      Sending(books.(batches := books.batches + [books.cur], cur := []), x.done + [open], [])
    else Sending(books, x.done, open)
  }

  function SenderRun(start: nat, past: seq<Finish>, flush: seq<bool>): Sending
    requires |flush| == |past|
  {
    if past == [] then Sending(Progress(start, start, 0, 0, [], []), [], [])
    else
      var n := |past| - 1;
      Extend(SenderRun(start, past[..n], flush[..n]), past[n].result, flush[n])
  }

  lemma {:induction false} ExtendAccounted(log: seq<Frame>, x: Sending, r: nat, result: ReadResult, flush: bool)
    requires Accounted(log, x.books) && InPlace(log, x.books.readIndex, result)
    ensures var y := Extend(x, result, flush);
            Accounted(log, y.books) && y.books.start == x.books.start && y.books.readIndex >= x.books.readIndex
  {
    AccountedRead(log, x.books, result);
    AccountedFlush(log, AfterRead(x.books, result));
  }

  /** Whatever the interleaving, torn reads and a resume position that stays put included:
      read_index = start + messages + lapped_msgs over strictly increasing picks, and the positions
      passed without being picked number exactly lapped_msgs. */
  lemma {:induction false} SenderAccounted(s: RingProtocol.State, k: nat, start: nat, past: seq<Finish>,
                                           flush: seq<bool>)
    requires PastOf(s, k, past) && Chained(start, past) && |flush| == |past|
    ensures var p := SenderRun(start, past, flush).books;
            && Accounted(s.log, p) && p.start == start && p.readIndex == IndexAfter(start, past)
            && |Skipped(start, p.readIndex, Flat(p.batches) + p.cur)| == p.lappedMsgs
  {
    if past != [] {
      var n := |past| - 1;
      LastOfPast(s, k, past);
      SenderAccounted(s, k, start, past[..n], flush[..n]);
      FinishedInPlace(s, k, past[n].r, past[n].result, past[n].at);
      ExtendAccounted(s.log, SenderRun(start, past[..n], flush[..n]), past[n].r, past[n].result, flush[n]);
    }
    var p := SenderRun(start, past, flush).books;
    PassedOrPicked(s.log, start, p.readIndex, Flat(p.batches) + p.cur);
  }

  /** Every datagram carries exactly the frames at the positions booked for it. */
  ghost predicate Carries(log: seq<Frame>, x: Sending) {
    && |x.done| == |x.books.batches|
    && (forall d :: 0 <= d < |x.done| ==>
          x.books.batches[d] != [] && Inside(log, x.books.batches[d]) && x.done[d] == FramesAt(log, x.books.batches[d]))
    && Inside(log, x.books.cur) && x.open == FramesAt(log, x.books.cur)
  }

  lemma {:induction false} ExtendCarries(log: seq<Frame>, x: Sending, result: ReadResult, flush: bool)
    requires Accounted(log, x.books) && InPlace(log, x.books.readIndex, result) && Carries(log, x)
    requires result.Ok? ==> result.frame == log[x.books.readIndex]
    ensures Carries(log, Extend(x, result, flush))
  {
    AccountedRead(log, x.books, result);
  }

  /** A sender none of whose reads is torn carries exactly the frames of its picks. */
  lemma {:induction false} UntornSender(s: RingProtocol.State, k: nat, start: nat, past: seq<Finish>, flush: seq<bool>)
    requires PastOf(s, k, past) && Chained(start, past) && |flush| == |past| && Untorn(s.n, past)
    ensures Carries(s.log, SenderRun(start, past, flush))
  {
    if past != [] {
      var n := |past| - 1;
      LastOfPast(s, k, past);
      UntornSender(s, k, start, past[..n], flush[..n]);
      SenderAccounted(s, k, start, past[..n], flush[..n]);
      FinishedInPlace(s, k, past[n].r, past[n].result, past[n].at);
      if past[n].result.Ok? {
        OkSound(s, k, past[n].r, past[n].result.frame, past[n].at);
      }
      ExtendCarries(s.log, SenderRun(start, past[..n], flush[..n]), past[n].result, flush[n]);
    }
  }

  /** So the copies it makes of its datagrams are a proper run over the producer's log. */
  lemma {:induction false} UntornSenderRan(s: RingProtocol.State, k: nat, start: nat, flush: seq<bool>,
                                           streams: nat, sent: seq<seq<Bytes>>)
    requires Looping(s, k, start) && |flush| == |s.readers[k].past| && Untorn(s.n, s.readers[k].past)
    requires Produced(s.log) && streams < TWO_16
    requires var x := SenderRun(start, s.readers[k].past, flush);
             && |sent| == |x.done|
             && forall d :: 0 <= d < |sent| ==> |sent[d]| == streams && CopiesOf(sent[d], d, x.done[d])
    ensures Ran(s.log, streams, SenderRun(start, s.readers[k].past, flush).books.batches, sent)
  {
    var past := s.readers[k].past;
    var x := SenderRun(start, past, flush);
    UntornSender(s, k, start, past, flush);
    SenderAccounted(s, k, start, past, flush);
    IncreasingPrefix(Flat(x.books.batches), x.books.cur);
  }

  lemma IncreasingPrefix(a: seq<nat>, b: seq<nat>)
    requires Increasing(a + b)
    ensures Increasing(a)
  {
    forall i, j | 0 <= i < j < |a|
      ensures a[i] < a[j]
    {
      assert (a + b)[i] == a[i] && (a + b)[j] == a[j];
    }
  }

  /** On n+1 publications a sender that starts at 0 can put frame n on the wire as frame 0. */
  lemma {:induction false} TornSender(n: nat, log: seq<Frame>) returns (t: RingProtocol.State)
    requires n > 0 && |log| == n + 1 && Produced(log)
    ensures Looping(t, 0, 0) && t.n == n && t.log == log && |t.readers[0].past| == 1
    ensures !Carries(log, SenderRun(0, t.readers[0].past, [false]))
  {
    var at;
    t, at := MixedRead(n, Filled(n, 0), log, 0, log[n]);
    OneTornPick(log, Finish(0, Ok(log[n]), at));
  }

  lemma {:induction false} OneTornPick(log: seq<Frame>, f: Finish)
    requires |log| > 1 && Produced(log) && f.r == 0 && f.result == Ok(log[|log| - 1])
    ensures Chained(0, [f]) && !Carries(log, SenderRun(0, [f], [false]))
  {
    assert [f][..0] == [] && [false][..0] == [];
    var x := SenderRun(0, [f], [false]);
    assert x == Extend(SenderRun(0, [], []), f.result, false);
    assert x.books.cur == [0] && x.open == [log[|log| - 1]];
    assert x.open[0] != log[0];
  }

  /** Every sender on every interleaving that publishes a prefix of `log` carries the frames of its picks. */
  ghost predicate AlwaysCarries(n: nat, log: seq<Frame>) {
    forall s: RingProtocol.State, k: nat, start: nat, flush: seq<bool> ::
      Looping(s, k, start) && s.n == n && s.log <= log && |flush| == |s.readers[k].past| ==>
        Carries(s.log, SenderRun(start, s.readers[k].past, flush))
  }

  /** A producer's frames reach the wire as picked in every interleaving iff the ring is never overwritten. */
  lemma {:induction false} AlwaysCarriesIff(n: nat, log: seq<Frame>)
    requires n > 0 && Produced(log)
    ensures AlwaysCarries(n, log) <==> |log| <= n
  {
    if |log| <= n {
      forall s: RingProtocol.State, k: nat, start: nat, flush: seq<bool> |
        Looping(s, k, start) && s.n == n && s.log <= log && |flush| == |s.readers[k].past|
        ensures Carries(s.log, SenderRun(start, s.readers[k].past, flush))
      {
        NothingTorn(s, k, log);
        UntornSender(s, k, start, s.readers[k].past, flush);
      }
    } else {
      var t := TornSender(n, log[..n + 1]);
      assert Looping(t, 0, 0) && t.n == n && t.log <= log && |[false]| == |t.readers[0].past|;
    }
  }

  /** With at most n frames nothing is ever overwritten, so no read is torn. */
  lemma {:induction false} NothingTorn(s: RingProtocol.State, k: nat, log: seq<Frame>)
    requires Reachable(s) && k < |s.readers| && s.log <= log && |log| <= s.n
    ensures Untorn(s.n, s.readers[k].past)
  {
    var past := s.readers[k].past;
    forall i | 0 <= i < |past| && past[i].result.Ok?
      ensures past[i].at.begun <= past[i].r + s.n
    {
      OkSound(s, k, past[i].r, past[i].result.frame, past[i].at);
    }
  }

  // ---- The consumer ----

  function Picks(past: seq<Finish>): seq<nat> {
    if past == [] then []
    else
      var n := |past| - 1;
      Picks(past[..n]) + if past[n].result.Ok? then [past[n].r] else []
  }

  /** The frames the loop was given. */
  function Given(past: seq<Finish>): seq<Frame> {
    if past == [] then []
    else
      var n := |past| - 1;
      Given(past[..n]) + if past[n].result.Ok? then [past[n].result.frame] else []
  }

  /** Whatever the interleaving, no loop goes past a position that can still be read without picking it up. */
  lemma {:induction false} NothingPassedOver(s: RingProtocol.State, k: nat, start: nat, past: seq<Finish>)
    requires PastOf(s, k, past) && Chained(start, past)
    ensures Kept(s.log, s.n, start, IndexAfter(start, past), Picks(past))
  {
    if past != [] {
      var n := |past| - 1;
      LastOfPast(s, k, past);
      NothingPassedOver(s, k, start, past[..n]);
      FinishedVerdict(s, k, past[n].r, past[n].result, past[n].at);
      if past[n].result.Ok? {
        KeptSnoc(s.log, s.n, start, past[n].r, Picks(past[..n]));
      }
    }
  }

  /** Torn or not, every frame given is long enough to hold a header if all published ones are. */
  lemma {:induction false} GivenReadable(s: RingProtocol.State, k: nat, past: seq<Finish>)
    requires PastOf(s, k, past) && Readable(s.log)
    ensures Readable(Given(past))
  {
    if past != [] {
      var n := |past| - 1;
      LastOfPast(s, k, past);
      GivenReadable(s, k, past[..n]);
      if past[n].result.Ok? {
        OkSound(s, k, past[n].r, past[n].result.frame, past[n].at);
      }
    }
  }

  /** A consumer none of whose reads is torn records the ids at strictly increasing positions. */
  lemma {:induction false} UntornConsumer(s: RingProtocol.State, k: nat, start: nat, past: seq<Finish>)
    requires PastOf(s, k, past) && Chained(start, past) && Untorn(s.n, past) && Readable(s.log)
    ensures Readable(Given(past))
    ensures Consumed(s.log, start, IndexAfter(start, past), Picks(past), Ids(Given(past)))
  {
    GivenReadable(s, k, past);
    if past != [] {
      var n := |past| - 1;
      LastOfPast(s, k, past);
      UntornConsumer(s, k, start, past[..n]);
      FinishedInPlace(s, k, past[n].r, past[n].result, past[n].at);
      if past[n].result.Ok? {
        OkSound(s, k, past[n].r, past[n].result.frame, past[n].at);
        IdsSnoc(Given(past[..n]), past[n].result.frame);
        ConsumedOne(s.log, start, past[n].r, Picks(past[..n]), Ids(Given(past[..n])), SeqId(past[n].result.frame));
      }
    }
  }

  /** Whatever the receiver heard, torn pickups of the sender included: a consumer whose reads of its
      interleaved ring are untorn records distinct numbers and reports exactly, unless these span all
      64-bit numbers. */
  lemma {:induction false} UntornReport(w: nat, heard: seq<Bytes>, t: RingProtocol.State, k: nat, start: nat)
    requires 0 < w <= Pow2(63) && Readable(heard) && SafeRun(w, Ids(heard))
    requires Looping(t, k, start) && t.log <= Published(w, heard) && Untorn(t.n, t.readers[k].past)
    ensures Readable(Given(t.readers[k].past))
    ensures var ids := Ids(Given(t.readers[k].past));
            && Metrics.Distinct(ids) && (Metrics.Exact(ids) <==> !Metrics.FullSpan(ids))
            && forall q :: q in ids ==> q in Ids(heard)
  {
    var out, past := Published(w, heard), t.readers[k].past;
    PublishedDistinct(w, heard);
    OncePrefix(t.log, out);
    UntornConsumer(t, k, start, past);
    DistinctReport(t.log, start, IndexAfter(start, past), Picks(past), Ids(Given(past)));
  }

  lemma {:induction false} OncePrefix(a: seq<Frame>, b: seq<Frame>)
    requires a <= b && Readable(b) && Once(b)
    ensures Readable(a) && Once(a)
    ensures forall q :: q in Ids(a) ==> q in Ids(b)
  {
    assert forall i :: 0 <= i < |a| ==> a[i] == b[i];
    forall i | 0 <= i < |a|
      ensures Ids(a)[i] == Ids(b)[i]
    {
    }
  }

  /** Both rings interleaved and no read torn: whatever the network does, every frame in the consumer's
      ring is the producer's, none is there twice, and the report is exact. */
  lemma {:induction false} UntornPipeline(c: Config, s: RingProtocol.State, k: nat, start: nat, flush: seq<bool>,
                                          streams: nat, sent: seq<seq<Bytes>>, net: seq<Copy>,
                                          t: RingProtocol.State, j: nat, from: nat)
    requires Looping(s, k, start) && |flush| == |s.readers[k].past| && Untorn(s.n, s.readers[k].past)
    requires Produced(s.log) && streams < TWO_16 && 0 < c.window <= Pow2(63)
    requires var x := SenderRun(start, s.readers[k].past, flush);
             && |sent| == |x.done|
             && forall d :: 0 <= d < |sent| ==> |sent[d]| == streams && CopiesOf(sent[d], d, x.done[d])
    requires Routed(net, |sent|, streams) && t.log <= Output(c, sent, streams, net)
    requires Looping(t, j, from) && Untorn(t.n, t.readers[j].past)
    ensures Readable(t.log) && Once(t.log) && Genuine(s.log, t.log) && Readable(Given(t.readers[j].past))
    ensures var ids := Ids(Given(t.readers[j].past));
            && Metrics.Distinct(ids) && Metrics.Exact(ids)
            && forall q :: q in ids ==> 1 <= q <= |s.log|
  {
    var batches := SenderRun(start, s.readers[k].past, flush).books.batches;
    var past := t.readers[j].past;
    UntornSenderRan(s, k, start, flush, streams, sent);
    PublishedOnce(c, s.log, streams, batches, sent, net);
    GenuinePrefix(s.log, t.log, Output(c, sent, streams, net));
    UntornConsumer(t, j, from, past);
    DistinctReport(t.log, from, IndexAfter(from, past), Picks(past), Ids(Given(past)));
  }

  lemma {:induction false} GenuinePrefix(log: seq<Frame>, a: seq<Frame>, b: seq<Frame>)
    requires a <= b && Readable(b) && Once(b) && Genuine(log, b) && |log| < TWO_64 - 1
    ensures Readable(a) && Once(a) && Genuine(log, a)
    ensures forall q :: q in Ids(a) ==> 1 <= q <= |log|
  {
    assert forall i :: 0 <= i < |a| ==> a[i] == b[i];
  }

  // ---- Torn consumers ----

  lemma {:induction false} ChainedSnoc(start: nat, past: seq<Finish>, f: Finish)
    requires Chained(start, past) && f.r == IndexAfter(start, past)
    ensures Chained(start, past + [f]) && IndexAfter(start, past + [f]) == Next(f)
    ensures f.result.Ok? ==> Given(past + [f]) == Given(past) + [f.result.frame]
  {
    assert (past + [f])[..|past|] == past;
  }

  lemma {:induction false} FirstRead(none: seq<Finish>, f: Finish)
    requires none == [] && f.r == 0 && f.result.Ok?
    ensures Chained(0, [f]) && IndexAfter(0, [f]) == 1 && Given([f]) == [f.result.frame]
  {
    assert none + [f] == [f];
    ChainedSnoc(0, none, f);
  }

  lemma SliceSnoc(log: seq<Frame>, from: nat, m: nat)
    requires from <= m < |log|
    ensures log[from..m + 1] == log[from..m] + [log[m]]
  {
  }

  /** While nothing is published, a loop standing at `from` can read on up to m. */
  lemma {:induction false} ReadOn(s: RingProtocol.State, n: nat, blank: seq<Slot>, log: seq<Frame>,
                                  past: seq<Finish>, from: nat, m: nat)
    returns (t: RingProtocol.State)
    requires Ready(s, n, blank, log, Reader(Resting, past)) && from <= m <= |log| <= from + n
    requires Chained(0, past) && IndexAfter(0, past) == from
    ensures |t.readers| == 1 && Ready(t, n, blank, log, t.readers[0])
    ensures t.readers[0].stage == Resting && Chained(0, t.readers[0].past) && IndexAfter(0, t.readers[0].past) == m
    ensures Given(t.readers[0].past) == Given(past) + log[from..m]
    decreases m - from
  {
    if m == from {
      t := s;
      Seqs.NilRight(Given(past));
    } else {
      var u := ReadOn(s, n, blank, log, past, from, m - 1);
      var before := u.readers[0].past;
      var at;
      t, at := QuietRead(u, n, blank, log, before, m - 1);
      ChainedSnoc(0, before, Finish(m - 1, Ok(log[m - 1]), at));
      SliceSnoc(log, from, m - 1);
      Seqs.Assoc(Given(past), log[from..m - 1], [log[m - 1]]);
    }
  }

  /** On n+1 publications a consumer that starts at 0 can be given the last frame twice: once as frame 0
      and once in its own place. */
  lemma {:induction false} TornConsumer(n: nat, log: seq<Frame>) returns (t: RingProtocol.State)
    requires n > 0 && |log| == n + 1 && Capped(log) && Readable(log)
    ensures Looping(t, 0, 0) && t.n == n && t.log == log
    ensures Given(t.readers[0].past) == [log[n]] + log[1..]
  {
    var blank := Filled(n, 0);
    var s, at := MixedRead(n, blank, log, 0, log[n]);
    var past := [Finish(0, Ok(log[n]), at)];
    FirstRead([], past[0]);
    s := StoreBoth(s, n, blank, log, Reader(Resting, past));
    t := ReadOn(s, n, blank, log, past, 1, n + 1);
    assert log[1..n + 1] == log[1..];
  }

  /** With at most n publications a consumer that starts at 0 can be given all of them. */
  lemma {:induction false} WholeConsumer(n: nat, log: seq<Frame>) returns (t: RingProtocol.State)
    requires 0 < n && |log| <= n && Capped(log)
    ensures Looping(t, 0, 0) && t.n == n && t.log == log && Given(t.readers[0].past) == log
  {
    var blank := Filled(n, 0);
    var s := PublishAll(n, blank, log);
    t := ReadOn(s, n, blank, log, [], 0, |log|);
    assert Given([]) + log[0..|log|] == log;
  }

  /** With consecutive numbers its report shows more messages received than expected. */
  lemma {:induction false} TornReport(n: nat, log: seq<Frame>) returns (t: RingProtocol.State)
    requires n > 0 && |log| == n + 1 && Produced(log)
    ensures Looping(t, 0, 0) && t.n == n && t.log == log && Readable(Given(t.readers[0].past))
    ensures var ids := Ids(Given(t.readers[0].past));
            ids != [] && |ids| == n + 1 && Metrics.Expected(ids) == n && !Metrics.Exact(ids)
  {
    t := TornConsumer(n, log);
    RepeatedSpan(n, log, Given(t.readers[0].past));
  }

  lemma {:induction false} RepeatedSpan(n: nat, log: seq<Frame>, given: seq<Frame>)
    requires n > 0 && |log| == n + 1 && Produced(log) && given == [log[n]] + log[1..]
    ensures Readable(given) && |given| == n + 1
    ensures Metrics.Expected(Ids(given)) == n && !Metrics.Exact(Ids(given))
  {
    forall i | 0 <= i < |given|
      ensures SeqId(given[i]) == if i == 0 then n + 1 else i + 1
    {
      assert given[i] == log[if i == 0 then n else i];
    }
    CountedOnce(n, Ids(given));
  }

  /** The numbers 2 to n+1 with the last one repeated in front. */
  lemma {:induction false} CountedOnce(n: nat, ids: seq<u64>)
    requires n > 0 && |ids| == n + 1 < TWO_64
    requires forall i :: 0 <= i < |ids| ==> ids[i] == if i == 0 then n + 1 else i + 1
    ensures Metrics.Expected(ids) == n
  {
    var lo: u64 := if n == 1 then n + 1 else 2;
    assert ids[if n == 1 then 0 else 1] == lo && ids[0] == n + 1;
    SpanOf(ids, lo, n + 1);
    DivModUnique(n, TWO_64, 0, n);
  }

  lemma SpanOf(ids: seq<u64>, lo: u64, hi: u64)
    requires lo in ids && hi in ids && forall q :: q in ids ==> lo <= q <= hi
    ensures Metrics.Expected(ids) == (hi - lo + 1) % TWO_64
  {
  }

  /** Every consumer on every interleaving that publishes a prefix of `log` reports exactly. */
  ghost predicate AlwaysReports(n: nat, log: seq<Frame>)
  {
    forall s: RingProtocol.State, k: nat, start: nat ::
      Looping(s, k, start) && s.n == n && s.log <= log && Readable(Given(s.readers[k].past)) ==>
        Metrics.Exact(Ids(Given(s.readers[k].past)))
  }

  /** On a ring of n slots every interleaved consumer of distinct numbers reports exactly iff at most n
      frames are ever published and their numbers do not span all 64-bit numbers. */
  lemma {:induction false} AlwaysReportsIff(n: nat, log: seq<Frame>)
    requires n > 0 && Capped(log) && Readable(log) && Once(log)
    ensures AlwaysReports(n, log) <==> |log| <= n && !Metrics.FullSpan(Ids(log))
  {
    if |log| > n {
      var shorter := log[..n + 1];
      OncePrefix(shorter, log);
      var t := TornConsumer(n, shorter);
      RepeatInexact(Given(t.readers[0].past), shorter);
    } else if Metrics.FullSpan(Ids(log)) {
      var t := WholeConsumer(n, log);
      Metrics.ExactIff(Ids(log));
    } else {
      forall s: RingProtocol.State, k: nat, start: nat |
        Looping(s, k, start) && s.n == n && s.log <= log && Readable(Given(s.readers[k].past))
        ensures Metrics.Exact(Ids(Given(s.readers[k].past)))
      {
        UnwrittenReports(s, k, start, log);
      }
    }
  }

  lemma {:induction false} UnwrittenReports(s: RingProtocol.State, k: nat, start: nat, log: seq<Frame>)
    requires Looping(s, k, start) && s.log <= log && |log| <= s.n
    requires Readable(log) && Once(log) && !Metrics.FullSpan(Ids(log))
    ensures Readable(Given(s.readers[k].past)) && Metrics.Exact(Ids(Given(s.readers[k].past)))
  {
    var past := s.readers[k].past;
    OncePrefix(s.log, log);
    NothingTorn(s, k, log);
    UntornConsumer(s, k, start, past);
    DistinctReport(s.log, start, IndexAfter(start, past), Picks(past), Ids(Given(past)));
  }

  lemma {:induction false} RepeatInexact(given: seq<Frame>, log: seq<Frame>)
    requires Readable(log) && |log| > 1 && given == [log[|log| - 1]] + log[1..]
    ensures Readable(given) && !Metrics.Exact(Ids(given))
  {
    forall i | 0 <= i < |given|
      ensures |given[i]| >= MSG_HEADER
    {
      assert given[i] in log;
    }
    var ids := Ids(given);
    assert given[0] == given[|log| - 1];
    assert ids[0] == ids[|log| - 1];
    Metrics.ExactIff(ids);
  }
}
