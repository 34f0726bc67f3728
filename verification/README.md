# quack: a Dafny model of the ping probe, the TTL trace and the anomaly scan

quack watches one network target. Every second it sends an ICMP echo request
(a *ping*) and folds the latency into running statistics. Every thirty seconds
it runs a *TTL trace*, one echo request per TTL from 1 to 63, recording which
router answered each hop. It then scans the trace for hops whose latency jumps
by more than 100 ms and passes those hosts on as potentially unhealthy.

The model covers those four pieces of logic:

- `probe.dfy` (module `Probe`) holds what the ping and the trace share:
  - the `PingResult` record;
  - the echo requests and their payloads (the 56-character ping and trace markers, the `'X'` padding, and the echo identifier `pid & 0xffff`);
  - the order of the send steps;
  - the receive loop behind `goto LISTEN` / `goto LISTENTRACE` (`Listen`, specified by `Receive`).
- `trace.dfy` (module `Trace`) models `TTLTrace`. The method `TtlTrace` keeps the source's map from TTL to result and its list of TTLs tried, then lays the map out in TTL order. It is proved equal to the specification `TraceOf`, and the lemmas about `TraceOf` give:
  - the shape of a trace;
  - gaps for silent hops;
  - the early stop at the target;
  - the error paths.
- `ping.dfy` (module `Ping`) models `SendPing`. The method is proved equal to `PingOf`, which describes:
  - the returned latency and error;
  - the result sent on the results channel (`emitted`);
  - the request written to the wire (`sent`).
- `scan.dfy` (module `Scan`) models the anomaly scan of the trace goroutine. `ScanTrace` keeps `lastLatency`, the high-water mark and the list of flagged hosts, and is proved equal to `Unhealthy` / `HighWater`.
- `round.dfy` (module `Round`) models one firing of the trace ticker: trace, publish, scan, decide on confirmation traces, pass on the flagged hosts. A trace that ends in `log.Fatal` ends the program, and the round then hands on nothing.
- `stats.dfy` (module `Stats`) models the ping tick as a class `PingStats`. It holds:
  - the counters `packetsTx` and `packetsRx`;
  - the blended average;
  - the running minimum (starting at 99999.9) and maximum;
  - the 30-sample rolling window, the package-level slice `thirtySampleRollingLatency`, held here as a field.

  A ghost history of ping outcomes ties the fields to `Replay`, which folds the value-level tick `Step` over that history, and `Tick` preserves this. `ReplayMatchesSpec` shows what `Replay` keeps: the counts, the blended average, the extremes and the last thirty samples of the history.

The network is an input:

- Opening the socket is a boolean.
- The calls before the request is on the wire (control messages, marshal, set TTL, write) are a `SendSteps` record.
- Each `ReadFrom` is a `Read`: it either fails or returns a `Packet`. A `Packet` says:
  - whether the ICMP parser accepted it;
  - its type;
  - its peer;
  - the milliseconds since the request was written;
  - the wall clock in unix seconds;
  - whether its bytes contain the ping marker.
- A sequence of reads ends where the 2-second socket deadline makes the next read fail.
- A trace takes one `HopProbe` per TTL. A TTL past the end of that sequence behaves as a hop whose reads all time out.
- `conn.TTL()` in `SendPing` is an input that either yields a number or fails.

The model follows the code, including where one might expect otherwise:

- An unparseable reply does not leave a gap; it aborts the whole trace, and in a ping it makes `SendPing` return an error (quack.go:123-126, quack.go:242-245).
- The TTL a ping records comes from `conn.TTL()`, the socket option, not from the reply (quack.go:253).
- `SendPing` never sets `Sequence`, so the emitted result carries 0 (quack.go:258-266).
- The tick's minimum starts at 99999.9 (quack_test.go:26).
- The scan can report the same hop twice. `Scan.SlowPredecessorReportedTwice` shows it.
- The scan treats a drop as a jump, since the test is on the absolute difference. `Scan.DropAfterFirstHopFlagged` shows it.

## Model

| member | source | states |
|---|---|---|
| Probe.FirstKept | quack.go:232-249 | the position where the receive loop stops: every earlier read was a fresh, parseable packet the probe discards, and the read there is not one |
| Probe.Classify | quack.go:234-245 | a failed read gives no reply, an unparseable packet is malformed, and a parseable packet is accepted unchanged |
| Probe.ReceiveStopsAtFirstKept | quack.go:116-130 | any index preceded only by discarded packets and not itself discarded decides the outcome of the receive loop |
| Probe.AcceptedIsNotDiscarded | quack.go:247-249 | an accepted packet parsed. For a ping it carries the marker or arrived at 2000 ms or later. For a trace (the test at quack.go:128-130) it lacks the ping marker or arrived at 2000 ms or later |
| Probe.Listen | quack.go:232-249 | the `goto LISTEN` loop returns exactly the outcome `Receive` specifies |
| Probe.SendFailure | quack.go:84-114 | the first failing step in source order, for the trace's steps and for `SendPing`'s at quack.go:191-230. A trace that cannot set control messages ends the process (log.Fatal), while a ping returns that error. When control messages, marshal and set-TTL succeed, a failed write is a write error. There is no error exactly when every step succeeds |
| Probe.Discards | quack.go:128-130 | a packet is passed over only if it arrived before the 2000 ms deadline; before it, a trace passes over exactly the packets with the ping marker and a ping exactly those without it |
| Probe.EchoId | quack.go:92 | the identifier lies in [0, 65535], equals the pid when the pid fits, and agrees with the pid modulo 2^16 (the low 16 bits) |
| Probe.Repeat | quack.go:198 | `bytes.Repeat`: exactly n copies of the character |
| Probe.EffectiveSize | quack.go:197-201 | the size is max(size, 56) |
| Probe.PingPayload | quack.go:195-201 | the payload is max(size, 56) characters long: the ping marker followed only by 'X' |
| Probe.MarkersSeparateProbes | quack.go:88-96 | a ping request's payload contains the ping marker, a trace request's payload does not, and the ping payload length equals the reported size |
| Trace.Lookup | quack.go:169 | reading a missing TTL from the map yields Go's zero PingResult |
| Trace.LastTtlFrom | quack.go:73-164 | the number of TTLs tried is the first TTL that aborts or is answered by the target, or 63 if none is. No earlier TTL ends the trace |
| Trace.Slots | quack.go:166-170 | one slot per TTL tried, in TTL order: slot k is TTL k+1's result |
| Trace.Assemble | quack.go:166-170 | the second loop yields one entry per TTL in the list, each the map's value for that TTL or the zero result |
| Trace.SendAndListen | quack.go:84-130 | one pass of the hop loop up to the type switch: a send failure aborts, a failed read is a silent hop, a malformed reply aborts with a parse error, an accepted packet answers the hop |
| Trace.TtlTrace | quack.go:60-173 | the hop loop and the assembly produce exactly the trace `TraceOf` specifies: the listen error, the error of the aborting hop, or the slots of the TTLs tried |
| Trace.TraceShape | quack.go:73-170 | a successful trace has 1 to 63 entries, is 63 long unless the target answered its last TTL, no earlier TTL was answered by the target, and entry k is TTL k+1's slot |
| Trace.Records | quack.go:134-159 | echo replies and time-exceeded messages are recorded; destination unreachable and other types are not |
| Trace.HopRecord | quack.go:137-153 | the recorded result has the peer as target, the measured latency and the wall-clock time; message, peer, size, TTL and sequence stay zero |
| Trace.SlotContents | quack.go:134-159 | an echo reply or time-exceeded message gives the zero result with only target (the peer), latency and time set, so size, TTL and sequence stay 0. Destination unreachable, other types and silent hops leave the zero result |
| Trace.SilentNetwork | quack.go:116-122 | when every hop is silent the trace is 63 zero results |
| Trace.NoRepliesAtAll | quack.go:118-121 | a network on which every read hits the deadline yields 63 zero results |
| Trace.StopsAtTarget | quack.go:161-163 | the first reply from the target, whatever its type, ends the trace at that TTL with that hop's slot last |
| Trace.TargetAtFifthHop | quack.go:135-163 | four silent hops then an echo reply from the target give four gaps followed by the target's record |
| Trace.MalformedReplyAborts | quack.go:123-126 | an unparseable reply at a TTL the trace reaches makes the trace fail with a parse error and no slice |
| Trace.SendFailureAborts | quack.go:97-114 | a marshal, set-TTL or write failure at a TTL the trace reaches makes the trace fail with that error |
| Trace.ReadFailureSkipsHop | quack.go:116-130 | a hop whose request went out and whose listening ends in a failed read, at once or after passing over ping replies, leaves a gap and never stops the trace at that TTL, even if a reply from the target was still to come |
| Trace.TracePassesOverPingReplies | quack.go:128-130 | fresh replies carrying the ping marker are passed over and the next packet answers the hop |
| Ping.SendPing | quack.go:175-275 | the latency, error, emitted result and written request are exactly those `PingOf` specifies |
| Ping.EmitsExactlyOnSuccess | quack.go:272-274 | a result goes on the channel if and only if the call returns no error |
| Ping.EmittedResult | quack.go:258-270 | the emitted result has the target, the sent size max(size, 56) and sequence 0. Its latency is 2000 for a time-exceeded reply and the measured latency otherwise, while the call returns the measured latency |
| Ping.PingRecord | quack.go:258-270 | the result built for the channel has the target, the wall-clock time, the socket TTL, sequence 0, size max(size, 56), the reply's type and peer, and latency 2000 for a time-exceeded reply or the measured latency otherwise |
| Ping.AcceptedPingReply | quack.go:247-249 | the reply a ping accepts carries the ping marker or arrived at 2000 ms or later |
| Ping.FailuresEmitNothing | quack.go:177-256 | every error emits nothing and returns latency 0, except a failed `conn.TTL()`, which comes after a reply was accepted and returns that reply's measured latency. Read, parse and TTL errors happen after the request was written |
| Ping.PingPassesOverForeignReplies | quack.go:247-249 | fresh packets without the ping marker are passed over and the next marked packet is accepted |
| Scan.Abs | quack_test.go:99 | the absolute value is non-negative and equals x or -x |
| Scan.HighWater | quack_test.go:94-109 | the high-water mark is never negative |
| Scan.Flagged | quack_test.go:99-104 | a flagged hop is not the first, has a positive latency and exceeds the high-water mark before it |
| Scan.ReportedAtShape | quack_test.go:99-104 | a hop reports something exactly when it is flagged: itself, or its predecessor then itself when the predecessor is above 100 ms |
| Scan.ScanStep | quack_test.go:94-109 | one pass of the loop: after a zero latency nothing changes; otherwise a hop that jumps by more than 100 ms, is not 0 and beats the mark is appended (after its slow predecessor, if any), and the mark rises to the hop's latency when that is larger |
| Scan.ReportedUpTo | quack_test.go:90-111 | the reported positions are in trace order. Each is a flagged hop, or the slow (>100 ms) predecessor of the flagged hop right after it |
| Scan.ScanTrace | quack_test.go:86-111 | the scan loop returns exactly the hosts `Unhealthy` specifies and the high-water mark `HighWater` specifies |
| Scan.HighWaterMonotone | quack_test.go:107-109 | the high-water mark never decreases along the scan |
| Scan.HighWaterIsMaximum | quack_test.go:94-109 | the high-water mark is the largest latency among hops not passed over, or 0 when there is none |
| Scan.FlaggedHopsReported | quack_test.go:99-103 | every flagged hop is reported. When its predecessor is above 100 ms, that predecessor is reported immediately before it |
| Scan.SkippedHopIgnored | quack_test.go:94-97 | a hop after a zero latency is never flagged and leaves the high-water mark unchanged |
| Scan.FourthHopFlagged | quack_test.go:90-111 | latencies 20, 25, 30, 180, 35 report only the fourth hop and end with a mark of 180 |
| Scan.SlowPredecessorReportedTwice | quack_test.go:99-103 | latencies 10, 150, 300 report hops 1, 1, 2: the second hop appears twice |
| Scan.DropAfterFirstHopFlagged | quack_test.go:99-103 | latencies 200 then 5 report both hops, and the mark ends at 5 |
| Round.TraceRound | quack_test.go:78-133 | a trace ending in log.Fatal ends the round with nothing handed on. Otherwise one trace round publishes the trace (an empty one on error), passes on exactly the scan's flagged hosts, and asks for 4 confirmation traces exactly when the mark exceeds 100 |
| Round.FailedTraceReportsNothing | quack_test.go:79-84 | a trace that returns an error publishes no hops, flags no host and asks for no confirmation; one that ended in log.Fatal hands on nothing at all |
| Round.FatalTraceEndsRound | quack.go:84-86 | a first probe that cannot set its control messages makes the trace fail with log.Fatal, and the round hands on nothing |
| Round.FlaggedHostsArePublished | quack_test.go:129-133 | in a round that completes, every host passed on as unhealthy is one of the published hops |
| Round.ConfirmsExactlyWhenSlow | quack_test.go:115-117 | in a round that completes, 4 confirmation traces are asked for if and only if some hop not passed over is slower than 100 ms, and otherwise none |
| Stats.BlendLiesBetween | quack_test.go:49-53 | a zero average is replaced by the sample; otherwise the blend lies between the average and the sample, strictly when they differ |
| Stats.RollKeepsOrder | quack_test.go:72-75 | rolling appends the sample last after the newest part of the old window, drops a sample only when the window holds 30, and never grows it past 30 |
| Stats.Recent | quack_test.go:72-75 | the window is the last 30 samples, never more |
| Stats.Samples | quack_test.go:40-47 | one sample per tick: the ping's latency, or 2000 when the ping failed |
| Stats.PingStats.constructor | quack_test.go:25-30 | counters at 0, average 0, minimum 99999.9, maximum 0 and an empty window, matching an empty history |
| Stats.PingStats.Tick | quack_test.go:38-75 | the tick appends the ping's outcome to the history, records the latency or 2000, and keeps the fields equal to the replay of the history |
| Stats.ReplayMatchesSpec | quack_test.go:39-75 | ticking through a history gives tx equal to its length, rx equal to the replies received, the blended average, the minimum and maximum of the samples, and the last 30 samples |
| Stats.RollKeepsRecent | quack_test.go:72-75 | rolling the window drops the oldest sample only when it holds 30, so it stays the last 30 samples (never more) with the newest last |
| Stats.ReceivedAtMostSent | quack_test.go:39-47 | packetsRx is at most packetsTx, with equality exactly when no ping failed |
| Stats.LowestIsMinimum | quack_test.go:58-60 | the minimum is at most every sample and is one of them, unless it is still 99999.9 |
| Stats.HighestIsMaximum | quack_test.go:62-64 | the maximum is at least every sample and is one of them, unless it is still 0 |
| Stats.BlendedBetweenExtremes | quack_test.go:49-53 | for non-negative samples the blended average lies between the minimum and the maximum |
| Stats.BlendExample | quack_test.go:49-53 | samples 100, 50, 200 blend to 100, 75, 137.5 |

## Left out

- Raw sockets and their options (`net.ListenPacket`, `SetControlMessage`, `SetDeadline`, `SetTTL`, `WriteTo`, `ReadFrom`, `conn.TTL()`) are operating-system I/O. They are inputs: a boolean, a `SendSteps` record, a sequence of `Read`s, and an optional TTL.
- ICMP marshalling and parsing come from a foreign library. Parsing is a `parses` flag plus a message type on each packet, and marshalling success is a flag. The echo request is kept as identifier, sequence and payload, not wire bytes.
- The 128-byte receive buffer and the byte search for the ping marker are not modelled: whether a packet's bytes contain the marker is an input flag. `Probe.MarkersSeparateProbes` states which requests carry the marker.
- The clock: the two `time.Since` readings after a read are one `elapsedMs` input per packet, and `time.Now().Unix()` is `unixTime`. The deadline is the end of the reads.
- float64 arithmetic is modelled as exact `real` arithmetic, so rounding in the blended average and the latency division is not captured.
- Goroutines, tickers, the `select` loop and the channels are concurrency. A channel send is an output value: `emitted` for the results channel, `published` and `unhealthy` for the trace round.
- The ping tick does not call `Ping.SendPing`; it takes the ping's latency or failure as input. The test calls `sendPing(target, packetsTx)`, which does not match the signature of `SendPing` in quack.go.
- Round.TraceRound: the test calls `ttlTrace(target)` (quack_test.go:79); the model takes it to be `TTLTrace` from quack.go, as the file shown declares no `ttlTrace`.
- Round.TraceRound: the four confirmation traces and their 200 ms sleeps are only counted (`confirmations`), because their results are discarded. As they are not run, a `log.Fatal` inside one of them, which would end the program before the flagged hosts are sent (quack_test.go:118, quack_test.go:129-133), is not modelled.
- int64 wrap-around of `packetsTx`/`packetsRx` is not modelled; the counters are unbounded.
- The standard-deviation update (`math.Pow`/`math.Sqrt`) is floating-point numerics.
- Printing and logging (`echoResults`, every `log`/`fmt` call, the colour constants) are presentation. `log.Fatal` in a trace is the error `FatalExit`, after which `Round.RoundOf` yields no report.
- `resultProcessor`, `HostStats`/`PathStats` aggregation and reverse DNS are not part of this model; only their declarations appear in quack.go.
- `PingResult.ICMPMessage` is kept as the message type only, and `Peer` as the peer's address string.
