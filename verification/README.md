# Verification of the broadcast pipeline

A producer writes market-data frames into a shared-memory ring. A sender drains the ring into
datagrams and sends each of them once on every redundancy stream. The network may drop, duplicate and
reorder copies. A receiver parses what arrives, drops copies on purpose when asked to, suppresses
duplicates and publishes the rest into its own ring, from which a consumer computes delivery metrics.

This project models these programs in Dafny and proves what each stage guarantees and what the stages
guarantee together. `dafny verify dfyconfig.toml` checks everything.

## Layout

| files | component |
|---|---|
| `Words`, `Seqs` | 64-bit words, bit operations, sequence facts |
| `RingSpec`, `ShmRing` | the ring as a sliding window on a log; the ring with one-step operations |
| `RingProtocol`, `RingInvariant`, `RingLaws` | the ring's loads and stores interleaved; its invariant; what every read guarantees |
| `RingReaders` | the sender's and the consumer's loops on the interleaved ring |
| `DedupSpec`, `DedupLaws`, `Dedup` | duplicate suppression: specification, whole-run laws, the bitmap |
| `HistBuckets`, `HistSpec`, `Hist`, `Metrics` | bucket arithmetic, percentile laws, the histogram, exact metrics |
| `WireSpec`, `WireLaws`, `Wire` | the datagram format, its laws, builder and reader |
| `Dropper`, `DropperLaws`, `Fanout` | the loss injector, what its mixer computes; destination rotation |
| `SenderSpec`, `Sender`, `ReceiverSpec`, `Receiver`, `Consumer`, `Message` | the three loops |
| `PipelineSpec`, `Pipeline` | the composed system |

Loops and objects that change state are classes and methods proved against functions on their abstract
state; the laws are then lemmas about those functions. The interleaved ring is a step system: one
producer, any number of readers, one memory access per step, `memcpy` in any byte order.

## What the code turns out to guarantee

Where a comment or a design claim is stronger than the code, the model follows the code and the exact
condition is proved.

- The second look at the slot number in `read` notices a finished overwrite, not one in progress, because
  `publish` writes the frame before the number (the comment at harness/include/shm_ring.h:105 says
  otherwise). `RingLaws.PossibleIff` gives the exact set of results: the length of frame r or of frame
  r+N, and at each offset the byte of frame r+N or the one frame r left in the slot.
  `RingLaws.ExactIff`: reads of r are exact in every interleaving iff frame r+N is never published or is
  identical. `RingLaws.NeverForeignIff`: no byte of a third frame is returned iff, wherever frame r+N is
  longer than r, it equals what older frames left there.
- So a sender or consumer of the real ring can be given a frame at the wrong position. The positions it
  books are right all the same (`RingReaders.SenderAccounted`); the frames and the report are right
  whenever no read is torn, that is, no overwriting publication has begun by a successful read's second
  look (`RingReaders.UntornPipeline`), and for the producer's numbers in every interleaving iff at most N
  frames are ever published (`RingReaders.AlwaysCarriesIff`, `RingReaders.AlwaysReportsIff`).
  `RingReaders.TornReport` is a run whose report shows more messages received than expected.
- The histogram never reports less than the exact percentile iff no sample reaches 2^(kMaxPow2+1)
  (`HistSpec.NeverOptimisticIff`); larger samples saturate.
- The duplicate window follows its specification all along a run iff no number of the topmost window,
  [2^64-W, 2^64-2], arrives after 2^64-1 (`DedupLaws.TracksIff`). Exactly the other runs get a verdict
  wrong by the time 2^64-1 arrives once more (`DedupLaws.AgreementIff`): `base_ + kWindow` has wrapped
  around, and the number is published twice.
- `dropped` in the report is the number of missing ids iff none is missing, or no id repeats and the ids do
  not include both 0 and 2^64-1 (`Metrics.DroppedExactIff`). A repeat makes the clamp hide a loss; with
  both ends of the number space `expected` wraps to 0 and hides all of them (`Metrics.FullSpanHides`).
- The receive loop hands frames of any length to `ring.publish`. All datagrams up to a size are safe for the
  slots iff the size is at most 610 bytes, one full frame, or the injector drops everything
  (`ReceiverSpec.FitsIffSize`); the receive buffers take 1472 (transport/include/net.h:231-239).
  `ReceiverSpec.LongMessage` is a datagram of 611 bytes whose frame does not fit.
- `seen` is right about every number iff 2^64-1 has not arrived (`DedupLaws.SeenIff`): that one it never
  finds.
- Percentiles grow with p, and stay between the extremes, iff the smallest sample is below 2^(kMaxPow2+1)
  (`HistSpec.QuantileMonotoneIff`, `HistSpec.QuantileBetweenIff`).
- The injector's threshold for "100 percent" still lets exactly one key through
  (`Dropper.DropIffKeyDropped`). Whether that key belongs to a copy of a datagram depends on the seed
  alone (`Dropper.SparesIff`).

In the composed system `ring.publish` is given frames of at most the slot size, because every frame on the
wire was read out of a ring (`PipelineSpec.OutputFits`).

## Model

| member | source | states |
|---|---|---|
| RingSpec.PlacedTells | harness/include/shm_ring.h:92-97 | comparing a slot's number with r+1 decides exactly whether r is unpublished, readable or overwritten |
| ShmRing.Ring.MaskIndex | harness/include/shm_ring.h:65-72 | masking with slots-1 is the position modulo the slot count, for every power of two |
| ShmRing.Ring.Publish | harness/include/shm_ring.h:70-79 | appends to the log; every slot then holds the newest frame that belongs to it, for frames up to the slot size |
| ShmRing.Ring.Read | harness/include/shm_ring.h:90-113 | as one step, for every position: empty iff at or past the edge, the log's frame iff among the last N, else lapped to edge-N, strictly ahead, where an immediate read succeeds; only the frame area of the output is written |
| RingInvariant.ExecutionInv | harness/include/shm_ring.h:70-113 | every state of every interleaving of one producer and any number of readers satisfies the memory and reader invariant |
| RingLaws.OkSound | harness/include/shm_ring.h:103-112 | a successful read of r has the length of frame r or r+N; each byte is that of r+N or what r left at its offset, which past the end of r is an older frame's; exactly frame r if r+N had not begun by the re-check |
| RingLaws.PossibleIff | harness/include/shm_ring.h:70-113 | the results of successful reads of r over all interleavings are exactly the mixtures of frame r+N and what r left in the slot, for every log and initial memory |
| RingLaws.MixedRead | harness/include/shm_ring.h:73-77 | a constructed run for each mixture, among them all of frame r+N as frame r |
| RingLaws.ExactIff | harness/include/shm_ring.h:70-113 | reads of r are exact in every interleaving iff frame r+N is never published or equals frame r |
| RingLaws.StaleRead | harness/include/shm_ring.h:103-106 | for every r: a read of r can return the length of frame r+N filled up with what older frames, or the memory before them, left in the slot |
| RingLaws.NeverForeignIff | harness/include/shm_ring.h:103-112 | every byte read for r is frame r's or r+N's iff r+N is never published or, wherever it is longer, equals what is left in the slot |
| RingLaws.FirstLapIff | harness/include/shm_ring.h:103-112 | on the first lap, whatever the memory held: iff frame r+N is never published or is not longer than r |
| RingLaws.ResumeForward | harness/include/shm_ring.h:97-110 | a lapped reader is never sent backwards, and stays put exactly when the write index still points at the overwriting frame, between the producer's two stores |
| RingLaws.Linearizable | harness/include/shm_ring.h:90-113 | an untorn read has the result of the log at some moment from the write index to the stored numbers of its last load iff it does not send a lapped reader nowhere; of the stored log unless the last load fell between the two stores |
| RingLaws.QuietResult | harness/include/shm_ring.h:90-113 | while nothing is published, the reader's own steps finish a read of every position: empty at or past the edge, the log's frame among the last N, else lapped with resume edge-N |
| RingLaws.NeverForgets | harness/include/shm_ring.h:90-113 | every step of a read keeps it at its position or returns exactly one result for that position |
| RingLaws.WaitFree | harness/include/shm_ring.h:90-113 | in every reachable state a read under way has a step to take, and each of its own steps, whatever happens in between, brings it closer to its return: at most slot size + 3 after the first |
| RingLaws.OverwrittenRead | harness/include/shm_ring.h:105-110 | a constructed run whose re-check fails returns lapped, to r+1 = edge-N after both stores of the overwriting publication, and to r between the two |
| RingLaws.IdleIsAtomic | harness/include/shm_ring.h:77-78 | between publications the interleaved memory is a state of the one-step ring |
| RingLaws.FinishedInPlace | harness/include/shm_ring.h:90-113 | every finished read, torn or not, is of a published position or does not move the reader back |
| DedupSpec.StepTracks | transport/include/dedup.h:33-59 | one accept returns true iff the number is new and within the window of the maximum, unless the number is of the topmost window and 2^64-1 has come before; floor and live bits stay as specified, and accepted, duplicates and too_old count the fresh, the repeated and the late calls |
| DedupSpec.RunTracks | transport/include/dedup.h:33-94 | after every run without a number of the topmost window after 2^64-1: base = max(0, max-W+1), a live bit is set iff its number was accepted, every verdict was the specified one |
| DedupSpec.AcceptedIff | transport/include/dedup.h:33-59 | a number is accepted iff one of its arrivals came within the window of the largest before it |
| DedupSpec.AcceptedDistinct | transport/include/dedup.h:1-12 | no number is accepted twice |
| DedupSpec.AdvanceTracks | transport/include/dedup.h:83-94 | after moving the window, bits that stay keep their meaning and new positions read as unseen |
| DedupSpec.SlideWork | transport/include/dedup.h:81-94 | while the end of the window does not wrap, one slide clears min(W, distance moved) bits |
| DedupLaws.TracksIff | transport/include/dedup.h:33-94 | base, live bits and each of the three counters are the specified ones after every call of a run iff no number in [2^64-W, 2^64-2] comes after 2^64-1 |
| DedupLaws.AgreementIff | transport/include/dedup.h:33-47 | the same condition on a run holds iff all verdicts are right on it and one further arrival of 2^64-1 |
| DedupLaws.UnsafeRun | transport/include/dedup.h:44-47 | after the first such number the window remembers only what came since |
| DedupLaws.BoundIff | transport/include/dedup.h:33-47 | right on all runs below a bound iff the bound excludes the largest word, for every window size of 2^6 to 2^63 |
| DedupLaws.WrapRunRepublishes | transport/include/dedup.h:36-47 | three calls on which the wrapped end of the window forgets an accepted number |
| DedupLaws.EveryCallCounted | transport/include/dedup.h:39-57 | accepted + duplicates + too_old = calls, for all 64-bit inputs |
| DedupLaws.ClearingBounded | transport/include/dedup.h:81-94 | on runs without a number of the topmost window after 2^64-1: total clearing work, a wipe counted as the window, is at most final base minus first base |
| DedupLaws.NarrowSpanAcceptsAll | transport/include/dedup.h:10-12 | on such runs, numbers spanning less than the window are each accepted once in any order and nothing is too old |
| DedupLaws.OrderIndependent | transport/include/dedup.h:10-12 | two such runs of the same numbers, spanning less than the window, end with the same accepted set and counters |
| DedupLaws.FewerArrivals | transport/include/dedup.h:33-59 | when some arrivals are cut to their first few, every other accepted number is still accepted |
| DedupLaws.SeenIff | transport/include/dedup.h:62-66 | `seen` says accepted and still in the window for every number iff 2^64-1 has not arrived |
| Dedup.SetMark | transport/include/dedup.h:49-56 | or-ing the shifted mask into its word adds exactly one position to the bitmap |
| Dedup.ClearMark | transport/include/dedup.h:89-92 | and-ing the inverted mask removes exactly one position |
| Dedup.Window.Accept | transport/include/dedup.h:33-59 | the words in place take exactly the specified step for every 64-bit number; the verdict is freshness on every run without a number of the topmost window after 2^64-1 |
| Dedup.Window.CountersExact | transport/include/dedup.h:39-57 | on such runs duplicates is the number of calls with a number accepted before and still in the window, too_old the number of calls below the window |
| Dedup.Window.AdvanceTo | transport/include/dedup.h:83-94 | the clearing loop and the wipe retire exactly the residues of [base, new base) |
| Dedup.Window.Seen | transport/include/dedup.h:62-66 | looks up started, window and bit; before 2^64-1 arrives: true iff the number was accepted and is still in the window |
| Dedup.Window.Reset | transport/include/dedup.h:73-78 | back to the empty history |
| HistBuckets.BucketIff | transport/include/hist.h:93-114 | a value below 2^(kMaxPow2+1) is counted in bucket i iff it lies between the bounds of i |
| HistBuckets.Seam | transport/include/hist.h:93-105 | consecutive buckets meet exactly, also across octaves and out of the exact region |
| HistBuckets.BucketEnds | transport/include/hist.h:93-114 | both ends of every bucket are counted in it and all bounds fit 64 bits |
| HistBuckets.LastBucket | transport/include/hist.h:28-31 | the last bucket ends at 2^(kMaxPow2+1)-1 |
| HistBuckets.BucketFormula | transport/include/hist.h:93-114 | between 2^k and 2^(k+1) a value v is counted in bucket (k-kSubBits)*2^kSubBits + v/2^(k-kSubBits), whose bounds are v cut down to a multiple of that width and width-1 above |
| HistBuckets.BucketMonotone | transport/include/hist.h:107-114 | a larger value is never in an earlier bucket, and every index is valid |
| HistBuckets.Saturates | transport/include/hist.h:109-110 | larger values land in the last bucket |
| HistBuckets.Resolution | transport/include/hist.h:3-5 | the bucket's end exceeds a value below 2^(kMaxPow2+1) by at most 2^-kSubBits of it, and not at all below 2^kSubBits |
| HistBuckets.FloorLog2Bounds | transport/include/hist.h:109 | the magnitude brackets the value between powers of two |
| HistSpec.ScanStops | transport/include/hist.h:79-88 | the running count reaches the rank exactly from the bucket of the exact percentile on |
| HistSpec.QuantileBounds | transport/include/hist.h:70-90 | exact <= reported <= exact + exact/2^kSubBits for every p with an in-range exact percentile; equal below 2^kSubBits |
| HistSpec.QuantileIsBucketEnd | transport/include/hist.h:79-88 | inside 0 < p < 1 the report of an in-range percentile is counted in the percentile's own bucket, and is the largest value counted there up to the largest sample |
| HistSpec.QuantileEnds | transport/include/hist.h:71-73 | no samples report 0; p <= 0 and p >= 1 report the exact smallest and largest sample |
| HistSpec.NeverOptimisticIff | transport/include/hist.h:10-12 | never below the exact percentile for all p iff no sample reaches 2^(kMaxPow2+1) |
| HistSpec.QuantileMonotoneIff | transport/include/hist.h:70-90 | monotone in p iff the smallest sample is below 2^(kMaxPow2+1), ends included |
| HistSpec.QuantileBetweenIff | transport/include/hist.h:70-90 | every report lies between the smallest and the largest sample iff the smallest is below 2^(kMaxPow2+1) |
| HistSpec.AllSaturated | transport/include/hist.h:70-90 | otherwise p = 1/2 reports less than p = 0 and than every sample |
| Hist.Histogram.Record | transport/include/hist.h:35-41 | counters, count, sum modulo 2^64, min and max are those of the samples with the new one |
| Hist.Histogram.Merge | transport/include/hist.h:51-59 | the state is that of recording both sample lists, also when either is empty or both are the same object |
| Hist.Histogram.Percentile | transport/include/hist.h:70-90 | the scan returns the end of the bucket of the exact nearest-rank percentile, capped by the maximum |
| Hist.Histogram.Reset | transport/include/hist.h:43-49 | the state of no samples |
| Metrics.SortIsSorted | harness/include/metrics.h:55-56 | sorting orders the samples and loses none |
| Metrics.RankIsCeiling | harness/include/metrics.h:73-75 | the rank is the least r >= 1 with p*n <= r |
| Metrics.NearestRank | harness/include/metrics.h:70-78 | the exact percentile is a sample with at least p*n samples at or below it, and the smallest such, but for p = 0 where it is the smallest sample |
| Metrics.Accumulator.Record | harness/include/metrics.h:31-42 | first and last are the extremes of all recorded ids; samples are appended |
| Metrics.Accumulator.MakeReport | harness/include/metrics.h:44-66 | received <= expected and dropped is the number of missing ids iff ids are distinct and do not include both 0 and 2^64-1; latencies summarise the samples |
| Metrics.Summarise | harness/include/metrics.h:55-64 | min, max and the five percentiles of the samples from one sort |
| Metrics.DroppedExactIff | harness/include/metrics.h:49-50 | dropped = number of missing ids iff none is missing, or no id repeats and not both 0 and 2^64-1 occur; for all id lists |
| Metrics.ExactIff | harness/include/metrics.h:44-53 | received <= expected and dropped is exact iff no id repeats and not both 0 and 2^64-1 occur; for all id lists |
| Metrics.FullSpanHides | harness/include/metrics.h:48-50 | ids 0 and 2^64-1 alone: expected and dropped are 0, 2^64-2 ids are missing |
| WireSpec.FlagsRoundTrip | transport/include/wire.h:59-68 | encoding and role come back from the packed byte |
| WireLaws.HeaderLayout | transport/include/wire.h:41-54 | where every byte of a printed header stands: the magic as 31 43 50 53, each field low byte first at its offset, zero padding, then the payload |
| WireLaws.RecordLayout | transport/include/wire.h:70-77 | a record is the length in two bytes, low byte first, and the frame |
| WireLaws.HeadedIff | transport/include/wire.h:168-176 | accepted are exactly 32 bytes or more that begin with 31 43 50 53 |
| WireLaws.RoundTrip | transport/include/wire.h:166-203 | parsing a printed datagram returns its header and exactly its frames, and it is complete |
| WireLaws.StreamIdOnly | transport/src/sender.cpp:309-315 | overwriting the stream id prints the same datagram with that id and yields the same frames |
| WireLaws.FramesConsecutive | transport/include/wire.h:188-200 | on arbitrary bytes the yielded frames are in bounds, consecutive and disjoint |
| WireLaws.FramesMaximal | transport/include/wire.h:188-200 | on arbitrary bytes the reader stops early only where a length prefix does not fit or announces more bytes than are left |
| WireLaws.CompleteIff | transport/include/wire.h:202-203 | complete iff the payload is the concatenation of the announced number of records; printing the yielded frames reproduces it |
| WireLaws.Truncated | transport/include/wire.h:185-203 | a datagram cut anywhere after the header keeps its header, yields the longest prefix of whole frames and is not complete |
| WireLaws.FittingLongest | transport/include/wire.h:188-200 | that prefix fits and one more frame would not |
| Wire.Builder.Begin | transport/include/wire.h:87-99 | the buffer holds the printed empty datagram with the given ids and flags |
| Wire.Builder.AppendPtr | transport/include/wire.h:113-116 | gives a place iff `need` bytes fit, with all of them inside the capacity |
| Wire.Builder.WritesBehind | transport/include/wire.h:107-116 | whatever is written from that place on leaves the datagram as it is |
| Wire.Builder.Decodes | transport/include/wire.h:87-149 | after any mix of appends the buffer parses to its header and exactly the appended frames, is complete and within the capacity |
| Wire.Builder.AppendCommit | transport/include/wire.h:118-129 | the bytes already behind the prefix become the next frame; the buffer is the printed datagram, the count goes up, the bases come from the first message |
| Wire.Builder.AppendRaw | transport/include/wire.h:132-149 | appends iff it fits; a refusal changes nothing; never beyond the capacity |
| Wire.Builder.IsEmpty | transport/include/wire.h:101 | the stored count is zero iff no frame was committed |
| Wire.Reader.Reset | transport/include/wire.h:168-176 | accepts exactly bytes with a whole header and the magic |
| Wire.Reader.NextRaw | transport/include/wire.h:188-200 | yields the next frame as an in-bounds slice, refuses exactly when all that the bytes hold has been yielded |
| Wire.Reader.IsComplete | transport/include/wire.h:203 | after the walk, whether the datagram is complete |
| Dropper.SplitMixBijective | transport/src/receiver.cpp:87-92 | the mixer has a two-sided inverse on 64-bit words |
| DropperLaws.SplitMixIff | transport/src/receiver.cpp:87-92 | the mixer computes, and is determined by, the addition and the three xor-shifts and two multiplications modulo 2^64, stated bit by bit with the literal constants |
| DropperLaws.MixZero | transport/src/receiver.cpp:87-92 | of 0 it is e220a8397b1dcdaf |
| DropperLaws.MixOne | transport/src/receiver.cpp:87-92 | of 1 it is 910a2dec89025cc1 |
| DropperLaws.KeyIs | transport/src/receiver.cpp:114-117 | the key is dgram_id*2^16 + stream_id, xor-ed with the seed times 9e3779b9 modulo 2^64 |
| DropperLaws.DropIff | transport/src/receiver.cpp:112-119 | a copy is dropped iff what the rounds make of its key lies below the threshold |
| DropperLaws.KeptAndDropped | transport/src/receiver.cpp:112-119 | at one percent and seed 0, of the copies of datagram 0 on streams 0, 1 and 196 only the last is dropped |
| DropperLaws.KeptWithSeedOne | transport/src/receiver.cpp:112-119 | at one percent and the default seed 1 the copy of datagram 0 on stream 0 is kept, with its key and hash as numerals |
| Dropper.KeyInjective | transport/src/receiver.cpp:114-118 | for one seed the key determines datagram and stream |
| Dropper.DrawsDistinct | transport/src/receiver.cpp:101-104 | no two copies share a draw |
| Dropper.DroppedExactly | transport/src/receiver.cpp:107-119 | exactly `threshold` keys of all 2^64 drop, and a higher threshold drops a superset |
| Dropper.DropIffKeyDropped | transport/src/receiver.cpp:107-119 | dropping is membership of the key in that set; the largest threshold spares one key |
| Dropper.SparesIff | transport/src/receiver.cpp:107-119 | at the largest threshold some copy gets through iff the spared key and the seed's salt agree above the 48 id bits |
| Dropper.SparingSeeds | transport/src/receiver.cpp:107-119 | a seed that spares datagram 0 on stream 0, and one that spares nothing |
| Fanout.TxStream.SendAll | transport/include/net.h:173-203 | addresses the rotated destinations and books the kernel's answer |
| Fanout.DestIsSum | transport/include/net.h:175-188 | position k of call c addresses destination (k + c) mod n |
| Fanout.EachCallPermutes | transport/include/net.h:175-187 | every call addresses each destination exactly once |
| Fanout.EachPositionOnce | transport/include/net.h:176-188 | over n consecutive calls each destination takes each position exactly once |
| SenderSpec.AccountedRead | transport/src/sender.cpp:272-299 | any read in place, whatever bytes it returns, keeps read_index = start + messages + lapped_msgs over strictly increasing picks, and never moves back |
| SenderSpec.PassedOrPicked | transport/src/sender.cpp:274-283 | the positions passed without being picked number exactly lapped_msgs |
| SenderSpec.BookedRead | transport/src/sender.cpp:272-299 | reading the log's answer never passes a position that is still in the ring without picking it up |
| Sender.Sender.Pick | transport/src/sender.cpp:263-301 | with one-step reads: one pass reads only when a whole frame fits and commits exactly the log's frame; an empty or lapped read leaves the committed datagram as it was |
| Sender.Sender.Drain | transport/src/sender.cpp:263-301 | the batch is consecutive positions from the read index on; it ends only when no whole frame fits, the ring is drained, the reader was lapped or the quota is met, which it never exceeds |
| Sender.Sender.Replicate | transport/src/sender.cpp:308-315 | one copy per stream, each the same datagram under its own stream id |
| Sender.Sender.Iterate | transport/src/sender.cpp:258-323 | with one-step reads: every datagram sent is non-empty, at most 1472 bytes, carries exactly the frames of its batch, and ids count up modulo 2^32; with a still producer a round sends the next frames, jumps behind a lap, or finds nothing, exactly as the read index says |
| Sender.Sender.Run | transport/src/sender.cpp:258-324 | the same over whole runs with the producer publishing between any two reads, not inside one; unless the quota is met, as many rounds as there were unread positions reach the edge of that moment, and every position behind the read index still in the ring has been sent |
| ReceiverSpec.CutIsLocal | transport/src/receiver.cpp:257-282 | cutting one datagram costs only its own messages that no longer fit, among the messages heard |
| ReceiverSpec.CutPublishesRest | transport/src/receiver.cpp:257-282 | on the same runs, every id published with the whole datagram that is not lost with the cut part is still published |
| ReceiverSpec.LossPublishesRest | transport/src/receiver.cpp:257-282 | losing any arrival, whatever its bytes, never costs the publication of an id outside it |
| ReceiverSpec.FitsIffSize | transport/src/receiver.cpp:269-279 | all lists of datagrams up to a size publish only frames that fit a slot iff the size is at most 610 or the injector drops every copy |
| ReceiverSpec.FitsIffSizeUndropped | transport/src/receiver.cpp:269-279 | without injected loss: iff the size is at most 610 |
| ReceiverSpec.LongMessage | transport/src/receiver.cpp:278 | for every configuration that lets some copy through, a 611-byte datagram whose published frame does not fit |
| ReceiverSpec.PublishedIds | transport/src/receiver.cpp:270-280 | on runs without a number of the topmost window after 2^64-1 the published ids are the accepted ones, in order |
| ReceiverSpec.PublishedGrows | transport/src/receiver.cpp:270-280 | hearing more never changes what was published |
| Receiver.Receiver.Handle | transport/src/receiver.cpp:257-282 | on any bytes from which only frames up to the slot size are published: malformed, dropped, parsed and published counters and the ring are those of all arrivals so far |
| Receiver.Receiver.CountersExact | transport/src/receiver.cpp:257-281 | injected counts what the injector took; malformed the foreign datagrams, the incomplete survivors and the frames too short for a header; messages the frames heard; published the ring's frames |
| ReceiverSpec.CountersAre | transport/src/receiver.cpp:257-281 | the same as a law of the counting functions |
| Receiver.Receiver.Drain | transport/src/receiver.cpp:257-282 | the same for a batch of datagrams |
| Consumer.Consumer.Poll | harness/src/consumer.cpp:97-120 | with a one-step read: records id and latency of the log's frame at read_index, or skips to the resume position |
| Consumer.Age | harness/src/consumer.cpp:107-110 | send time plus latency is the later of receive and send time |
| Consumer.Consumer.Run | harness/src/consumer.cpp:97-120 | recorded ids are those at strictly increasing positions, with the ring moving between any two passes, not inside a read; every feed entry is published, each pass moves on unless the ring is drained or the quota met, and enough passes leave every position still in the ring picked |
| Consumer.ConsumedDistinct | harness/src/consumer.cpp:107-112 | distinct published ids are recorded once each |
| Message.Peeked | harness/include/message.h:23-29 | the first sixteen bytes of a frame in a buffer are its sequence number and timestamp |
| Message.HeaderFields | harness/include/message.h:23-29 | the sequence number stands in bytes 0 to 7 and the timestamp in bytes 8 to 15, low byte first |
| PipelineSpec.HeardIsStream | transport/src/receiver.cpp:257-282 | from delivered copies the receiver hears exactly the batches that survive, frame by frame the producer's, and counts nothing malformed |
| PipelineSpec.PublishedOnce | transport/src/receiver.cpp:270-280 | for any network: published frames are the producer's, no number twice, and a position is published iff an arrival of it came within the window |
| PipelineSpec.OutputFits | transport/src/receiver.cpp:278 | whatever the network does, every published frame fits a ring slot |
| PipelineSpec.DroppingKeepsOrder | transport/src/receiver.cpp:263-266 | injected drops never increase displacement |
| PipelineSpec.MissingIffAllDropped | transport/src/sender.cpp:310-315 | if every copy arrives and displacement stays in the window, a message is missing iff the injector drops all copies of its datagram |
| PipelineSpec.MoreStreamsNeverLose | transport/src/sender.cpp:309-315 | the same batches on more streams publish a superset |
| PipelineSpec.LossIsLocal | transport/src/receiver.cpp:257-282 | for any network, a failed delivery costs the output no message outside its datagram |
| PipelineSpec.ReportIsExact | harness/include/metrics.h:49-50 | for any network and a consumer that reads published frames at increasing positions, ids are distinct, received <= expected and dropped is exact without the clamp |
| RingReaders.SenderAccounted | transport/src/sender.cpp:272-299 | on every interleaving, for every course of one reader's reads, torn ones and unmoved resumes included: read_index = start + messages + lapped_msgs, strictly increasing picks, and exactly lapped_msgs positions passed |
| RingReaders.NothingPassedOver | harness/src/consumer.cpp:97-120 | on every interleaving no loop of reads goes past a position that is still in the ring without picking it up |
| RingReaders.UntornSender | transport/src/sender.cpp:272-299 | a sender none of whose interleaved reads is torn carries exactly the frames at its picks, datagram by datagram |
| RingReaders.AlwaysCarriesIff | transport/src/sender.cpp:272-299 | every interleaved sender does so iff the ring is never overwritten |
| RingReaders.UntornConsumer | harness/src/consumer.cpp:97-120 | a consumer none of whose interleaved reads is torn records the ids at strictly increasing positions |
| RingReaders.UntornReport | harness/include/metrics.h:44-53 | whatever the receiver heard on a run without a number of the topmost window after 2^64-1: such a consumer's ids are distinct, and its report is exact iff they do not include both 0 and 2^64-1 |
| RingReaders.UntornPipeline | transport/src/receiver.cpp:270-281 | with both rings interleaved and no read torn, for any network: each message at most once and unaltered in the consumer's ring, and an exact report |
| RingReaders.TornConsumer | harness/src/consumer.cpp:97-112 | a constructed run in which a consumer is given the last frame as frame 0 and again in its own place |
| RingReaders.TornReport | harness/include/metrics.h:44-53 | with consecutive numbers that run reports N+1 messages received of N expected |
| RingReaders.AlwaysReportsIff | harness/src/consumer.cpp:97-126 | every interleaved consumer of distinct numbers reports exactly iff at most N frames are ever published and their numbers do not include both 0 and 2^64-1 |
| Pipeline.CopyFits | transport/src/receiver.cpp:278 | every frame of a sent copy fits a ring slot |
| Pipeline.Pipeline.Sound | transport/src/receiver.cpp:270-281 | with one-step reads of both rings, in every state of every run: output as specified, each message once and unaltered, nothing malformed, both ends' books balance |
| Pipeline.Pipeline.Run | transport/src/receiver.cpp:243-303 | any order of sender rounds, arrivals and consumer passes, each taken as a whole, keeps all of this; every delivery of a copy sent before happens, and enough rounds or passes at the end leave sender or consumer with nothing to read |
| Pipeline.Pipeline.AllPicked | harness/src/consumer.cpp:97-120 | then every published message still in the consumer's ring is among its picks and recorded |
| Pipeline.Pipeline.DeliveredIsRecorded | transport/src/receiver.cpp:257-281 | with displacement inside the window, so is every position of a delivered copy that the injector let through, unless its frame has left the ring |
| Pipeline.Pipeline.Finish | harness/src/consumer.cpp:126 | the report after any such run is exact |

## Left out

- Weak memory: ring steps are sequentially consistent and each 64-bit number is one access.
- Ring.write_index wrap-around: positions are unbounded naturals; 2^64 publications are not reached.
- Sender.Sender.Pick: reads the ring in one step; what an interleaved sender carries is in `RingReaders`.
- Sender.Sender.Iterate: the same, so datagrams with torn frames are not among those it sends.
- Sender.Sender.Run: the producer publishes between reads only.
- Consumer.Consumer.Poll: reads the ring in one step; interleaved consumers are in `RingReaders`.
- Consumer.Consumer.Run: the ring moves between passes only.
- Pipeline.Pipeline.Sound: both rings are read in one step, because "each message once and unaltered" fails for torn pickups; `RingReaders.UntornPipeline` has the interleaved form.
- Pipeline.Pipeline.Run: rounds and passes are not interleaved with each other.
- Pipeline.Pipeline.Finish: covers consumers without torn reads; `RingReaders.AlwaysReportsIff` says when there are no others.
- Floating point: p is a rational, the drop threshold an integer; means, drop_rate and the percentage-to-threshold conversion are not modelled.
- Counter overflow: event counters are unbounded; only the histogram's sum, the window's base and expected wrap as in the code.
- Dedup.Window.constructor: window sizes below 2^6 are excluded, because the bitmap would then have no words.
- Wire.Builder.AppendRaw: capacity is below 2^16, so the 32-bit sum of lengths is not made to wrap.
- Wire.Reader.NextRaw: offsets are unbounded, which agrees with 32-bit offsets for datagrams of any UDP size.
- Receiver.Receiver.Handle: requires that what it publishes fits a ring slot; what a longer frame does to the memory behind the slot is not modelled (`ReceiverSpec.FitsIffSize` says when it can come up).
- Receiver.Receiver.Drain: the same for all datagrams of a batch.
- Sockets, `sendmmsg`, `recvmmsg`, socket options and several receivers: the network is any list of deliveries of sent copies; a refused send is a copy that never arrives.
- Clocks, the idle timeout and signals: arrival times are parameters and a run may stop after any round.
- The sender's and receiver's stage histograms and clock_backwards: no effect on delivery.
- `control.h`, `tsc.h`, `util.h`, `shm_segment.h`, argument parsing, CSV and report printing: I/O around the core.
- `producer.cpp` message bodies: only the sequence number, position + 1, and the frame size matter here.
- Features described only in `plans/` (NACK, FEC, codec, stagger, adaptive tiers): there is no code to model.
