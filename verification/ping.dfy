/**
 * SendPing: one echo request carrying the ping marker, then reads until a
 * reply carries the marker or the 2-second mark has passed. The accepted reply
 * becomes a PingResult on the results channel (here: the `emitted` output);
 * a time-exceeded reply is recorded with the sentinel latency 2000 while the
 * call still returns the measured latency.
 */
module Ping {
  import opened Wrappers
  import opened Probe

  /** Latency recorded for a ping answered by a router's time-exceeded message. */
  const TimeExceededLatency: real := 2000.0

  /**
   * What the socket does during one ping: whether it opens, the send steps,
   * the reads after the write, and what conn.TTL() answers afterwards.
   */
  datatype PingNetwork = PingNetwork(listenOk: bool, steps: SendSteps, replies: seq<Read>, ttlQuery: Option<int>)

  /**
   * The observable effect of one ping: the returned latency and error, the
   * result sent on the channel, and the request written to the wire.
   */
  datatype PingOutcome = PingOutcome(latency: real, err: Option<ProbeError>, emitted: Option<PingResult>, sent: Option<EchoRequest>)

  /** The result sent for an accepted reply. Sequence is left at zero, as in SendPing. */
  function PingRecord(target: string, size: int, p: Packet, ttl: int): (r: PingResult)
    ensures r.target == target && r.time == p.unixTime && r.ttl == ttl && r.sequence == 0
    ensures r.latency == if p.kind == TimeExceeded then TimeExceededLatency else p.elapsedMs
    ensures r.size == EffectiveSize(size) >= MinPayload
    ensures r.message == Some(p.kind) && r.peer == Some(p.peer)
  {
    PingResult(target, if p.kind == TimeExceeded then TimeExceededLatency else p.elapsedMs,
               p.unixTime, Some(p.kind), EffectiveSize(size), ttl, 0, Some(p.peer))
  }

  /** The specification of SendPing. */
  function PingOf(target: string, pid: int, sequence: int, size: int, net: PingNetwork): PingOutcome
  {
    if !net.listenOk then PingOutcome(0.0, Some(ListenError), None, None)
    else if SendFailure(PingProbe, net.steps).Some? then
      PingOutcome(0.0, SendFailure(PingProbe, net.steps), None, None)
    else
      var sent := Some(PingRequest(pid, sequence, size));
      match Receive(PingProbe, net.replies)
      case NoReply => PingOutcome(0.0, Some(ReadError), None, sent)
      case Malformed => PingOutcome(0.0, Some(ParseError), None, sent)
      case Accepted(p) =>
        if net.ttlQuery.None? then PingOutcome(p.elapsedMs, Some(TtlQueryError), None, sent)
        else PingOutcome(p.elapsedMs, None, Some(PingRecord(target, size, p, net.ttlQuery.value)), sent)
  }

  method SendPing(target: string, pid: int, sequence: int, size: int, net: PingNetwork)
    returns (latency: real, err: Option<ProbeError>, emitted: Option<PingResult>, sent: Option<EchoRequest>)
    ensures PingOutcome(latency, err, emitted, sent) == PingOf(target, pid, sequence, size, net)
  {
    latency, emitted, sent := 0.0, None, None;
    if !net.listenOk {
      err := Some(ListenError);
      return;
    }
    if !net.steps.controlOk {
      err := Some(ControlError);
      return;
    }

    var payload := PingMarker;
    var reportedSize := size;
    if size > MinPayload {
      payload := payload + Repeat('X', size - MinPayload);
    } else {
      reportedSize := MinPayload;
    }
    var wm := EchoRequest(EchoId(pid), sequence, payload);

    if !net.steps.marshalOk {
      err := Some(MarshalError);
      return;
    }
    if !net.steps.setTtlOk {
      err := Some(SetTtlError);
      return;
    }
    if !net.steps.writeOk {
      err := Some(WriteError);
      return;
    }
    sent := Some(wm);

    var got := Listen(PingProbe, net.replies);
    if got.NoReply? {
      err := Some(ReadError);
      return;
    }
    if got.Malformed? {
      err := Some(ParseError);
      return;
    }
    var rm := got.packet;
    latency := rm.elapsedMs;

    if net.ttlQuery.None? {
      err := Some(TtlQueryError);
      return;
    }
    var pr := PingResult(target, latency, rm.unixTime, Some(rm.kind), reportedSize, net.ttlQuery.value, 0, Some(rm.peer));
    if rm.kind == TimeExceeded {
      pr := pr.(latency := TimeExceededLatency);
    }
    emitted := Some(pr);
    err := None;
  }

  /** A result goes on the channel exactly when the call returns no error. */
  lemma EmitsExactlyOnSuccess(target: string, pid: int, sequence: int, size: int, net: PingNetwork)
    ensures var o := PingOf(target, pid, sequence, size, net);
      o.emitted.Some? <==> o.err.None?
  {
  }

  /**
   * The emitted result: the latency of the accepted reply, or 2000 when it
   * was a time-exceeded message, while the call itself returns the measured
   * latency either way; the size reported is the size sent.
   */
  lemma EmittedResult(target: string, pid: int, sequence: int, size: int, net: PingNetwork)
    requires PingOf(target, pid, sequence, size, net).emitted.Some?
    ensures var o := PingOf(target, pid, sequence, size, net);
      var pr := o.emitted.value;
      && Receive(PingProbe, net.replies).Accepted?
      && o.latency == Receive(PingProbe, net.replies).packet.elapsedMs
      && pr.latency == (if pr.message == Some(TimeExceeded) then TimeExceededLatency else o.latency)
      && pr.target == target
      && o.sent.Some? && pr.size == |o.sent.value.data| == EffectiveSize(size)
      && pr.sequence == 0
  {
  }

  /** An accepted ping reply carries the ping marker or arrived at the 2-second mark or later. */
  lemma AcceptedPingReply(target: string, pid: int, sequence: int, size: int, net: PingNetwork)
    requires PingOf(target, pid, sequence, size, net).emitted.Some?
    ensures var p := Receive(PingProbe, net.replies).packet;
      p.hasPingMarker || p.elapsedMs >= DeadlineMs
  {
    AcceptedIsNotDiscarded(PingProbe, net.replies);
  }

  /**
   * Before a reply is accepted, every failure returns the zero latency and
   * emits nothing; only a failed conn.TTL() returns the measured latency
   * beside its error.
   */
  lemma FailuresEmitNothing(target: string, pid: int, sequence: int, size: int, net: PingNetwork)
    requires PingOf(target, pid, sequence, size, net).err.Some?
    ensures var o := PingOf(target, pid, sequence, size, net);
      && o.emitted.None?
      && (o.err.value != TtlQueryError ==> o.latency == 0.0)
      && (o.err.value in {ReadError, ParseError} ==> o.sent.Some?)
      && (o.err.value == TtlQueryError ==>
            && Receive(PingProbe, net.replies).Accepted?
            && o.latency == Receive(PingProbe, net.replies).packet.elapsedMs
            && o.sent.Some?)
  {
  }

  /** While a ping waits, fresh packets without its marker (trace replies, strangers) are passed over. */
  lemma PingPassesOverForeignReplies(others: seq<Read>, p: Packet)
    requires forall j :: 0 <= j < |others| ==>
      others[j].Got? && others[j].packet.parses && !others[j].packet.hasPingMarker && others[j].packet.elapsedMs < DeadlineMs
    requires p.parses && p.hasPingMarker
    ensures Receive(PingProbe, others + [Got(p)]) == Accepted(p)
  {
    var replies := others + [Got(p)];
    assert forall j :: 0 <= j < |others| ==> replies[j] == others[j];
    ReceiveStopsAtFirstKept(PingProbe, replies, |others|);
  }
}
