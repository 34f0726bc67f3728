/**
 * What the ping probe and the TTL trace share: the result record, the ICMP
 * reply as the socket delivers it, the echo requests they send and the
 * receive loop that discards foreign packets until one is accepted.
 *
 * The raw socket is replaced by inputs: each `ReadFrom` call is one `Read`,
 * and a sequence of replies ends where the 2-second socket deadline makes the
 * next read fail.
 */
module Probe {
  import opened Wrappers

  /** The ICMP message types the probes tell apart (RFC 792). */
  datatype IcmpType = EchoReply | DestinationUnreachable | TimeExceeded | OtherType(number: int)

  /** The record both probes produce; `message` and `peer` are Go's nil-able fields. */
  datatype PingResult = PingResult(
    target: string,
    latency: real,       // milliseconds
    time: int,           // unix seconds at which the result was made
    message: Option<IcmpType>,
    size: int,
    ttl: int,
    sequence: int,
    peer: Option<string>)

  /** Go's zero value of PingResult: what a silent hop leaves in a trace. */
  const ZeroResult := PingResult("", 0.0, 0, None, 0, 0, 0, None)

  /**
   * One datagram returned by a successful read: whether the ICMP parser
   * accepted it, its type, who sent it, the time since the request was
   * written, the wall clock, and whether its bytes hold the ping marker.
   */
  datatype Packet = Packet(
    parses: bool,
    kind: IcmpType,
    peer: string,
    elapsedMs: real,
    unixTime: int,
    hasPingMarker: bool)

  /** One `ReadFrom` call: it fails (deadline passed or socket error) or returns a packet. */
  datatype Read = ReadFails | Got(packet: Packet)

  datatype ProbeKind = TraceProbe | PingProbe

  datatype ProbeError =
    | ListenError     // net.ListenPacket failed
    | ControlError    // SetControlMessage failed (ping)
    | FatalExit       // SetControlMessage failed in a trace: log.Fatal ends the process
    | MarshalError
    | SetTtlError
    | WriteError
    | ReadError
    | ParseError
    | TtlQueryError   // conn.TTL() failed

  /** The per-read deadline, in milliseconds. */
  const DeadlineMs: real := 2000.0

  /**
   * The receive loop goes back for another read when this holds of a packet
   * that parsed: a trace ignores fresh packets carrying the ping marker (they
   * answer a concurrent ping); a ping ignores fresh packets without it.
   */
  predicate Discards(kind: ProbeKind, p: Packet): (d: bool)
    ensures d ==> p.elapsedMs < DeadlineMs
    ensures p.elapsedMs < DeadlineMs ==> (d <==> (p.hasPingMarker <==> kind == TraceProbe))
  {
    match kind
    case TraceProbe => p.hasPingMarker && p.elapsedMs < DeadlineMs
    case PingProbe => !p.hasPingMarker && p.elapsedMs < DeadlineMs
  }

  /** A read the receive loop passes over. */
  predicate Passed(kind: ProbeKind, r: Read)
  {
    r.Got? && r.packet.parses && Discards(kind, r.packet)
  }

  /** Position of the first read the receive loop does not pass over. */
  function FirstKept(kind: ProbeKind, replies: seq<Read>): (i: nat)
    ensures i <= |replies|
    ensures forall j :: 0 <= j < i ==> Passed(kind, replies[j])
    ensures i < |replies| ==> !Passed(kind, replies[i])
  {
    if replies == [] || !Passed(kind, replies[0]) then 0
    else 1 + FirstKept(kind, replies[1..])
  }

  datatype ReadOutcome = NoReply | Malformed | Accepted(packet: Packet)

  /** What the loop makes of the read it stops at. */
  function Classify(r: Read): (o: ReadOutcome)
    ensures o.Accepted? <==> r.Got? && r.packet.parses
    ensures o.Accepted? ==> o.packet == r.packet
    ensures o.NoReply? <==> r.ReadFails?
  {
    match r
    case ReadFails => NoReply
    case Got(p) => if p.parses then Accepted(p) else Malformed
  }

  /** The outcome of the receive loop over the replies the socket delivers. */
  function Receive(kind: ProbeKind, replies: seq<Read>): ReadOutcome
  {
    var i := FirstKept(kind, replies);
    if i == |replies| then NoReply else Classify(replies[i])
  }

  /**
   * The receive loop stops at the first read it does not pass over: whatever
   * index has only passed-over replies before it and is not itself passed over
   * decides the outcome.
   */
  lemma {:induction false} ReceiveStopsAtFirstKept(kind: ProbeKind, replies: seq<Read>, i: nat)
    requires i <= |replies|
    requires forall j :: 0 <= j < i ==> Passed(kind, replies[j])
    requires i < |replies| ==> !Passed(kind, replies[i])
    ensures Receive(kind, replies) == if i == |replies| then NoReply else Classify(replies[i])
  {
  }

  /** An accepted packet parsed, and the probe's discard rule let it through. */
  lemma AcceptedIsNotDiscarded(kind: ProbeKind, replies: seq<Read>)
    requires Receive(kind, replies).Accepted?
    ensures Receive(kind, replies).packet.parses
    ensures !Discards(kind, Receive(kind, replies).packet)
    ensures kind == TraceProbe ==>
      !(Receive(kind, replies).packet.hasPingMarker && Receive(kind, replies).packet.elapsedMs < DeadlineMs)
    ensures kind == PingProbe ==>
      Receive(kind, replies).packet.hasPingMarker || Receive(kind, replies).packet.elapsedMs >= DeadlineMs
  {
  }

  /**
   * The `goto LISTEN` loop: read until a packet is not discarded; a failed
   * read or an unparseable packet ends the loop.
   */
  method Listen(kind: ProbeKind, replies: seq<Read>) returns (o: ReadOutcome)
    ensures o == Receive(kind, replies)
  {
    var i := 0;
    while i < |replies|
      invariant i <= |replies|
      invariant forall j :: 0 <= j < i ==> Passed(kind, replies[j])
    {
      var r := replies[i];
      if r.ReadFails? {
        o := NoReply;
        ReceiveStopsAtFirstKept(kind, replies, i);
        return;
      }
      if !r.packet.parses {
        o := Malformed;
        ReceiveStopsAtFirstKept(kind, replies, i);
        return;
      }
      if !Discards(kind, r.packet) {
        o := Accepted(r.packet);
        ReceiveStopsAtFirstKept(kind, replies, i);
        return;
      }
      i := i + 1;
    }
    o := NoReply;
    ReceiveStopsAtFirstKept(kind, replies, i);
  }

  /** The outcomes of the calls made before the request is on the wire. */
  datatype SendSteps = SendSteps(controlOk: bool, marshalOk: bool, setTtlOk: bool, writeOk: bool)

  /** Every send step succeeds. */
  const AllSent := SendSteps(true, true, true, true)

  /**
   * The first failing step, in the order the probes make them: control
   * messages, marshal, set TTL, write. A trace that cannot enable control
   * messages calls log.Fatal; a ping returns the error.
   */
  function SendFailure(kind: ProbeKind, steps: SendSteps): (e: Option<ProbeError>)
    ensures e.None? <==> steps.controlOk && steps.marshalOk && steps.setTtlOk && steps.writeOk
    ensures !steps.controlOk ==> e == Some(if kind == TraceProbe then FatalExit else ControlError)
    ensures steps.controlOk && !steps.marshalOk ==> e == Some(MarshalError)
    ensures steps.controlOk && steps.marshalOk && !steps.setTtlOk ==> e == Some(SetTtlError)
    ensures steps.controlOk && steps.marshalOk && steps.setTtlOk && !steps.writeOk ==> e == Some(WriteError)
    ensures e.Some? ==> e.value in {FatalExit, ControlError, MarshalError, SetTtlError, WriteError}
  {
    if !steps.controlOk then Some(if kind == TraceProbe then FatalExit else ControlError)
    else if !steps.marshalOk then Some(MarshalError)
    else if !steps.setTtlOk then Some(SetTtlError)
    else if !steps.writeOk then Some(WriteError)
    else None
  }

  /** Payload of ping echo requests; replies carrying it belong to pings. */
  const PingMarker: string := "HELLO-R-U-THERE-KNOCK-KNOCK-QUACK-QUACK-QUACK-QUACK-BYE!"
  /** Payload of trace echo requests. */
  const TraceMarker: string := "HELLO-R-U-THERE-TTLTRACE-TTLTRACE-TTLTRACE-TTLTRACE-BYE!"
  /** The smallest ping payload: the marker alone. */
  const MinPayload: nat := 56

  datatype EchoRequest = EchoRequest(id: int, sequence: int, data: string)

  /**
   * The echo identifier `pid & 0xffff`. On two's-complement integers masking
   * with 0xffff keeps the low 16 bits, which is the Euclidean remainder
   * modulo 2^16 for every sign of `pid`.
   */
  function EchoId(pid: int): (id: int)
    ensures 0 <= id <= 0xffff
    ensures 0 <= pid <= 0xffff ==> id == pid
    ensures (pid - id) % 0x10000 == 0
  {
    pid % 0x10000
  }

  predicate OccursAt(hay: string, needle: string, i: int)
  {
    0 <= i <= |hay| - |needle| && hay[i..i + |needle|] == needle
  }

  /** `bytes.Contains`: the needle occurs somewhere in the haystack. */
  predicate Contains(hay: string, needle: string)
  {
    exists i :: 0 <= i <= |hay| && OccursAt(hay, needle, i)
  }

  /** `n` copies of `c`. */
  function Repeat(c: char, n: nat): (s: string)
    ensures |s| == n
    ensures forall i :: 0 <= i < n ==> s[i] == c
  {
    if n == 0 then [] else [c] + Repeat(c, n - 1)
  }

  /** The size a ping reports and sends: never below the marker's length. */
  function EffectiveSize(size: int): (n: nat)
    ensures n >= MinPayload
    ensures size >= MinPayload ==> n == size
    ensures size <= MinPayload ==> n == MinPayload
  {
    if size > MinPayload as int then size else MinPayload
  }

  /** The ping payload: the marker padded with 'X' up to the requested size. */
  function PingPayload(size: int): (p: string)
    ensures |p| == EffectiveSize(size)
    ensures p[..MinPayload] == PingMarker
    ensures forall i :: MinPayload <= i < |p| ==> p[i] == 'X'
  {
    if size > MinPayload as int then PingMarker + Repeat('X', size - MinPayload) else PingMarker
  }

  function PingRequest(pid: int, sequence: int, size: int): EchoRequest
  {
    EchoRequest(EchoId(pid), sequence, PingPayload(size))
  }

  /** The trace's request for one TTL carries the TTL as its sequence number. */
  function TraceRequest(pid: int, ttl: int): EchoRequest
  {
    EchoRequest(EchoId(pid), ttl, TraceMarker)
  }

  /**
   * The two markers keep the probes apart: every ping payload carries the
   * ping marker and a trace payload does not, so a trace never discards the
   * echo of its own request as a ping's.
   */
  lemma MarkersSeparateProbes(pid: int, sequence: int, size: int, ttl: int)
    ensures Contains(PingRequest(pid, sequence, size).data, PingMarker)
    ensures !Contains(TraceRequest(pid, ttl).data, PingMarker)
    ensures |PingRequest(pid, sequence, size).data| == EffectiveSize(size)
  {
    assert OccursAt(PingPayload(size), PingMarker, 0);
    forall i | 0 <= i <= |TraceMarker|
      ensures !OccursAt(TraceMarker, PingMarker, i)
    {
      if i == 0 {
        // the markers part at their seventeenth character: "TTLTRACE" against "KNOCK"
        assert TraceMarker[16] == 'T' && PingMarker[16] == 'K';
        assert TraceMarker[0..|PingMarker|][16] != PingMarker[16];
      }
    }
  }
}
