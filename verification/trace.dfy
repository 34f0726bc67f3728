/**
 * TTLTrace: one echo request per TTL from 1 to 63, recording who answered
 * each, stopping once the target itself answers. The result has one slot per
 * TTL tried; a hop that recorded nothing keeps Go's zero PingResult.
 */
module Trace {
  import opened Wrappers
  import opened Probe

  /** The last TTL a trace tries (the loop runs while i < 64). */
  const MaxTtl: nat := 63

  /** What happens to the request sent with one TTL: the send steps and the reads that follow. */
  datatype HopProbe = HopProbe(steps: SendSteps, replies: seq<Read>)

  /** A probe whose sends succeed and whose reads all time out. */
  const QuietHop := HopProbe(AllSent, [])

  /** A TTL beyond the given probes is a hop whose every read times out. */
  function ProbeAt(probes: seq<HopProbe>, ttl: int): HopProbe
  {
    if 1 <= ttl <= |probes| then probes[ttl - 1] else QuietHop
  }

  /** The fate of one TTL: no accepted reply, the whole trace fails, or a reply accepted. */
  datatype Hop = Silent | Aborted(error: ProbeError) | Answered(packet: Packet)

  function HopOf(probe: HopProbe): Hop
  {
    match SendFailure(TraceProbe, probe.steps)
    case Some(e) => Aborted(e)
    case None =>
      match Receive(TraceProbe, probe.replies)
      case NoReply => Silent
      case Malformed => Aborted(ParseError)
      case Accepted(p) => Answered(p)
  }

  function HopAt(probes: seq<HopProbe>, ttl: int): Hop
  {
    HopOf(ProbeAt(probes, ttl))
  }

  /** The reply of this hop came from the trace's target. */
  predicate FromTarget(target: string, h: Hop)
  {
    h.Answered? && h.packet.peer == target
  }

  /** After this hop the trace tries no further TTL. */
  predicate Ends(target: string, h: Hop)
  {
    h.Aborted? || FromTarget(target, h)
  }

  /** Echo replies and time-exceeded messages are recorded; other types are not. */
  predicate Records(p: Packet): (r: bool)
    ensures p.kind == DestinationUnreachable || p.kind.OtherType? ==> !r
    ensures p.kind == EchoReply || p.kind == TimeExceeded ==> r
  {
    p.kind == EchoReply || p.kind == TimeExceeded
  }

  /** The record kept for a hop: only Target, Latency and Time are filled in. */
  function HopRecord(p: Packet): (r: PingResult)
    ensures r.target == p.peer && r.latency == p.elapsedMs && r.time == p.unixTime
    ensures r.message.None? && r.peer.None? && r.size == 0 && r.ttl == 0 && r.sequence == 0
  {
    ZeroResult.(target := p.peer, latency := p.elapsedMs, time := p.unixTime)
  }

  /** What a trace holds at a hop's position. */
  function Slot(h: Hop): PingResult
  {
    if h.Answered? && Records(h.packet) then HopRecord(h.packet) else ZeroResult
  }

  /** Go's `m[k]` on a map: the zero value for a missing key. */
  function Lookup(m: map<int, PingResult>, ttl: int): (r: PingResult)
    ensures ttl !in m ==> r == ZeroResult
    ensures ttl in m ==> r == m[ttl]
  {
    if ttl in m then m[ttl] else ZeroResult
  }

  /** The first TTL from `ttl` on that ends the trace, or 63 when none does. */
  function LastTtlFrom(target: string, probes: seq<HopProbe>, ttl: nat): (n: nat)
    requires 1 <= ttl <= MaxTtl
    ensures ttl <= n <= MaxTtl
    ensures forall t :: ttl <= t < n ==> !Ends(target, HopAt(probes, t))
    ensures n < MaxTtl ==> Ends(target, HopAt(probes, n))
    decreases MaxTtl - ttl
  {
    if ttl == MaxTtl || Ends(target, HopAt(probes, ttl)) then ttl
    else LastTtlFrom(target, probes, ttl + 1)
  }

  /** The number of TTLs a trace tries. */
  function LastTtl(target: string, probes: seq<HopProbe>): nat
  {
    LastTtlFrom(target, probes, 1)
  }

  /** The slots of the first `n` TTLs, in TTL order. */
  function Slots(probes: seq<HopProbe>, n: nat): (s: seq<PingResult>)
    ensures |s| == n
    ensures forall k :: 0 <= k < n ==> s[k] == Slot(HopAt(probes, k + 1))
  {
    seq(n, k => Slot(HopAt(probes, k + 1)))
  }

  /** The specification of TTLTrace. */
  function TraceOf(target: string, listenOk: bool, probes: seq<HopProbe>): Result<seq<PingResult>, ProbeError>
  {
    if !listenOk then Err(ListenError)
    else
      var n := LastTtl(target, probes);
      if HopAt(probes, n).Aborted? then Err(HopAt(probes, n).error)
      else Ok(Slots(probes, n))
  }

  /** The TTL count is pinned down by the hops: no earlier hop ends the trace, and this one does or is the 63rd. */
  lemma LastTtlIs(target: string, probes: seq<HopProbe>, n: nat)
    requires 1 <= n <= MaxTtl
    requires forall t :: 1 <= t < n ==> !Ends(target, HopAt(probes, t))
    requires n < MaxTtl ==> Ends(target, HopAt(probes, n))
    ensures LastTtl(target, probes) == n
  {
  }

  /** The second loop of TTLTrace: the recorded results in the order the TTLs were tried. */
  method Assemble(ttls: seq<int>, traceResults: map<int, PingResult>) returns (slice: seq<PingResult>)
    ensures |slice| == |ttls|
    ensures forall k :: 0 <= k < |ttls| ==> slice[k] == Lookup(traceResults, ttls[k])
  {
    slice := [];
    for j := 0 to |ttls|
      invariant |slice| == j
      invariant forall k :: 0 <= k < j ==> slice[k] == Lookup(traceResults, ttls[k])
    {
      slice := slice + [Lookup(traceResults, ttls[j])];
    }
  }

  /**
   * One pass of the hop loop up to the reply switch: send the request, then
   * read until a packet is accepted, a read fails or a packet does not parse.
   */
  method SendAndListen(probe: HopProbe) returns (hop: Hop)
    ensures hop == HopOf(probe)
  {
    var failure := SendFailure(TraceProbe, probe.steps);
    if failure.Some? {
      return Aborted(failure.value);
    }
    var got := Listen(TraceProbe, probe.replies);
    match got {
      case NoReply => hop := Silent;          // `continue`: next TTL, no early-stop check
      case Malformed => hop := Aborted(ParseError);
      case Accepted(p) => hop := Answered(p);
    }
  }

  /**
   * What the hop loop has built after trying the TTLs in `ttls`: the TTLs
   * 1, 2, ... in order, and a map whose entry for each TTL tried is that hop's slot.
   */
  ghost predicate Tried(probes: seq<HopProbe>, ttls: seq<int>, traceResults: map<int, PingResult>)
  {
    && |ttls| <= MaxTtl
    && (forall k :: 0 <= k < |ttls| ==> ttls[k] == k + 1)
    && (forall t :: t in traceResults ==> 1 <= t <= |ttls|)
    && (forall t :: 1 <= t <= |ttls| ==> Lookup(traceResults, t) == Slot(HopAt(probes, t)))
  }

  /** No TTL up to `n` ended the trace. */
  ghost predicate NoneEnded(target: string, probes: seq<HopProbe>, n: int)
  {
    forall t :: 1 <= t <= n ==> !Ends(target, HopAt(probes, t))
  }

  /** The loop has tried its last TTL and did not abort. */
  ghost predicate Finished(target: string, probes: seq<HopProbe>, ttls: seq<int>, traceResults: map<int, PingResult>)
  {
    && Tried(probes, ttls, traceResults)
    && 1 <= |ttls|
    && NoneEnded(target, probes, |ttls| - 1)
    && (|ttls| == MaxTtl || FromTarget(target, HopAt(probes, |ttls|)))
    && !HopAt(probes, |ttls|).Aborted?
  }

  /** Trying one more TTL that did not abort: its slot is whatever the switch recorded. */
  lemma TryNext(probes: seq<HopProbe>, ttls: seq<int>, traceResults: map<int, PingResult>, updated: map<int, PingResult>)
    requires Tried(probes, ttls, traceResults) && |ttls| < MaxTtl
    requires var h := HopAt(probes, |ttls| + 1);
      updated == if h.Answered? && Records(h.packet) then traceResults[|ttls| + 1 := HopRecord(h.packet)] else traceResults
    ensures Tried(probes, ttls + [|ttls| + 1], updated)
  {
    var n := |ttls| + 1;
    forall t | 1 <= t <= n
      ensures Lookup(updated, t) == Slot(HopAt(probes, t))
    {
      if t < n {
        assert Lookup(updated, t) == Lookup(traceResults, t);
      }
    }
  }

  /** A hop that aborts ends the trace with its error. */
  lemma AbortedTrace(target: string, probes: seq<HopProbe>, ttl: nat)
    requires 1 <= ttl <= MaxTtl && NoneEnded(target, probes, ttl - 1)
    requires HopAt(probes, ttl).Aborted?
    ensures TraceOf(target, true, probes) == Err(HopAt(probes, ttl).error)
  {
    LastTtlIs(target, probes, ttl);
  }

  /** Laid out by TTL, the map of a finished loop is the trace. */
  lemma AssembledSlots(target: string, probes: seq<HopProbe>, ttls: seq<int>,
                       traceResults: map<int, PingResult>, slice: seq<PingResult>)
    requires Finished(target, probes, ttls, traceResults)
    requires |slice| == |ttls|
    requires forall k :: 0 <= k < |ttls| ==> slice[k] == Lookup(traceResults, ttls[k])
    ensures TraceOf(target, true, probes) == Ok(slice)
  {
    LastTtlIs(target, probes, |ttls|);
    LaidOutInOrder(probes, ttls, traceResults, slice);
  }

  lemma LaidOutInOrder(probes: seq<HopProbe>, ttls: seq<int>, traceResults: map<int, PingResult>, slice: seq<PingResult>)
    requires Tried(probes, ttls, traceResults)
    requires |slice| == |ttls|
    requires forall k :: 0 <= k < |ttls| ==> slice[k] == Lookup(traceResults, ttls[k])
    ensures slice == Slots(probes, |ttls|)
  {
    forall k | 0 <= k < |ttls|
      ensures slice[k] == Slots(probes, |ttls|)[k]
    {
      assert ttls[k] == k + 1;
    }
  }

  /**
   * The hop loop fills a map by TTL and a list of the TTLs tried, then lays
   * the map out in TTL order. A failed read moves on to the next TTL without
   * the early-stop check; an unparseable reply or a failed send ends the trace
   * with an error.
   */
  method TtlTrace(target: string, listenOk: bool, probes: seq<HopProbe>)
    returns (r: Result<seq<PingResult>, ProbeError>)
    ensures r == TraceOf(target, listenOk, probes)
  {
    if !listenOk {
      return Err(ListenError);
    }
    var traceResults: map<int, PingResult> := map[];
    var ttls: seq<int> := [];
    var i := 1;
    while i < 64
      invariant 1 <= i <= 64 && |ttls| == i - 1
      invariant Tried(probes, ttls, traceResults)
      invariant NoneEnded(target, probes, i - 1)
    {
      var hop := SendAndListen(ProbeAt(probes, i));
      if hop.Aborted? {
        AbortedTrace(target, probes, i);
        return Err(hop.error);
      }
      ghost var before := traceResults;
      if hop.Silent? {
        TryNext(probes, ttls, before, traceResults);
        ttls := ttls + [i];
        i := i + 1;
        continue;
      }
      var p := hop.packet;
      // destination unreachable and other types are only reported
      if p.kind == EchoReply || p.kind == TimeExceeded {
        traceResults := traceResults[i := HopRecord(p)];
      }
      TryNext(probes, ttls, before, traceResults);
      ttls := ttls + [i];
      if target == p.peer {
        assert Finished(target, probes, ttls, traceResults);
        break;
      }
      i := i + 1;
    }
    if i == 64 {
      assert Finished(target, probes, ttls, traceResults);
    }
    var traceResultSlice := Assemble(ttls, traceResults);
    AssembledSlots(target, probes, ttls, traceResults, traceResultSlice);
    return Ok(traceResultSlice);
  }

  /**
   * A trace has one entry per TTL tried: it stops at the first TTL answered
   * by the target itself and otherwise runs to 63; entry k is TTL k+1's slot.
   */
  lemma TraceShape(target: string, listenOk: bool, probes: seq<HopProbe>)
    requires TraceOf(target, listenOk, probes).Ok?
    ensures var s := TraceOf(target, listenOk, probes).value;
      && 1 <= |s| <= MaxTtl
      && (forall t :: 1 <= t < |s| ==> !FromTarget(target, HopAt(probes, t)))
      && (|s| == MaxTtl || FromTarget(target, HopAt(probes, |s|)))
      && (forall k :: 0 <= k < |s| ==> s[k] == Slot(HopAt(probes, k + 1)))
  {
  }

  /**
   * What a slot holds: the peer, latency and time of an echo reply or
   * time-exceeded message, and the zero result for anything else.
   */
  lemma SlotContents(h: Hop)
    ensures h.Answered? && Records(h.packet) ==>
      Slot(h) == ZeroResult.(target := h.packet.peer, latency := h.packet.elapsedMs, time := h.packet.unixTime)
    ensures h.Silent? || (h.Answered? && h.packet.kind == DestinationUnreachable) ==> Slot(h) == ZeroResult
    ensures h.Answered? && h.packet.kind.OtherType? ==> Slot(h) == ZeroResult
  {
  }

  /** A network that never answers yields 63 gaps, with no early stop. */
  lemma {:induction false} SilentNetwork(target: string, probes: seq<HopProbe>)
    requires forall t :: 1 <= t <= MaxTtl ==> HopAt(probes, t).Silent?
    ensures TraceOf(target, true, probes) == Ok(seq(MaxTtl, k => ZeroResult))
  {
    LastTtlIs(target, probes, MaxTtl);
    forall k | 0 <= k < MaxTtl
      ensures Slots(probes, MaxTtl)[k] == ZeroResult
    {
      assert HopAt(probes, k + 1).Silent?;
    }
    assert Slots(probes, MaxTtl) == seq(MaxTtl, k => ZeroResult);
  }

  /** With nothing arriving at all (every read hits the deadline) the trace is 63 zero results. */
  lemma NoRepliesAtAll(target: string)
    ensures TraceOf(target, true, []) == Ok(seq(MaxTtl, k => ZeroResult))
  {
    forall t | 1 <= t <= MaxTtl
      ensures HopAt([], t).Silent?
    {
      assert Receive(TraceProbe, []) == NoReply;
    }
    SilentNetwork(target, []);
  }

  /**
   * The first reply from the target ends the trace at its TTL, whatever its
   * type; earlier hops that were silent or answered by routers stay in place.
   */
  lemma {:induction false} StopsAtTarget(target: string, probes: seq<HopProbe>, m: nat)
    requires 1 <= m <= MaxTtl
    requires forall t :: 1 <= t < m ==>
      HopAt(probes, t).Silent? || (HopAt(probes, t).Answered? && HopAt(probes, t).packet.peer != target)
    requires FromTarget(target, HopAt(probes, m))
    ensures TraceOf(target, true, probes).Ok?
    ensures |TraceOf(target, true, probes).value| == m
    ensures TraceOf(target, true, probes).value[m - 1] == Slot(HopAt(probes, m))
  {
    LastTtlIs(target, probes, m);
  }

  /** The target answering the fifth TTL ends the trace at five entries, four of them gaps. */
  lemma TargetAtFifthHop(target: string, reply: Packet)
    requires reply.parses && reply.kind == EchoReply && reply.peer == target && !reply.hasPingMarker
    ensures var probes := [QuietHop, QuietHop, QuietHop, QuietHop, HopProbe(AllSent, [Got(reply)])];
      TraceOf(target, true, probes) == Ok([ZeroResult, ZeroResult, ZeroResult, ZeroResult, HopRecord(reply)])
  {
    var probes := [QuietHop, QuietHop, QuietHop, QuietHop, HopProbe(AllSent, [Got(reply)])];
    assert Receive(TraceProbe, []) == NoReply;
    ReceiveStopsAtFirstKept(TraceProbe, [Got(reply)], 0);
    StopsAtTarget(target, probes, 5);
    assert TraceOf(target, true, probes).value == [ZeroResult, ZeroResult, ZeroResult, ZeroResult, HopRecord(reply)];
  }

  /** An unparseable reply aborts the whole trace: an error and no hops at all. */
  lemma MalformedReplyAborts(target: string, probes: seq<HopProbe>, m: nat)
    requires 1 <= m <= MaxTtl && NoneEnded(target, probes, m - 1)
    requires SendFailure(TraceProbe, ProbeAt(probes, m).steps).None?
    requires Receive(TraceProbe, ProbeAt(probes, m).replies) == Malformed
    ensures TraceOf(target, true, probes) == Err(ParseError)
  {
    AbortedTrace(target, probes, m);
  }

  /** A failed marshal, TTL change or write aborts the trace with that error. */
  lemma SendFailureAborts(target: string, probes: seq<HopProbe>, m: nat)
    requires 1 <= m <= MaxTtl && NoneEnded(target, probes, m - 1)
    requires SendFailure(TraceProbe, ProbeAt(probes, m).steps).Some?
    ensures TraceOf(target, true, probes) == Err(SendFailure(TraceProbe, ProbeAt(probes, m).steps).value)
  {
    AbortedTrace(target, probes, m);
  }

  /**
   * A hop whose request went out but whose listening ends in a failed read,
   * whether at once or after passing over replies to pings, leaves a gap and
   * never stops the trace, even when the failed read hid a reply from the
   * target: tracing goes on with the next TTL.
   */
  lemma ReadFailureSkipsHop(target: string, probes: seq<HopProbe>, m: nat)
    requires 1 <= m < MaxTtl && NoneEnded(target, probes, m - 1)
    requires SendFailure(TraceProbe, ProbeAt(probes, m).steps).None?
    requires Receive(TraceProbe, ProbeAt(probes, m).replies) == NoReply
    ensures LastTtl(target, probes) > m
    ensures TraceOf(target, true, probes).Ok? ==> TraceOf(target, true, probes).value[m - 1] == ZeroResult
  {
    assert HopAt(probes, m) == Silent;
  }

  /**
   * While a trace waits for its hop, fresh replies to concurrent pings
   * (they carry the ping marker) are passed over and the next packet decides.
   */
  lemma TracePassesOverPingReplies(pings: seq<Read>, p: Packet)
    requires forall j :: 0 <= j < |pings| ==>
      pings[j].Got? && pings[j].packet.parses && pings[j].packet.hasPingMarker && pings[j].packet.elapsedMs < DeadlineMs
    requires p.parses && !p.hasPingMarker
    ensures HopOf(HopProbe(AllSent, pings + [Got(p)])) == Answered(p)
  {
    var replies := pings + [Got(p)];
    assert forall j :: 0 <= j < |pings| ==> replies[j] == pings[j];
    ReceiveStopsAtFirstKept(TraceProbe, replies, |pings|);
  }
}
