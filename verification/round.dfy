/**
 * One firing of the trace ticker: run a trace to the target, publish its
 * hops, scan them for latency anomalies, ask for confirmation traces when the
 * high-water mark is above 100 ms, and pass on the hosts the scan flagged.
 */
module Round {
  import opened Wrappers
  import opened Probe
  import Trace
  import Scan

  /** How many extra traces a high-latency trace asks for. */
  const ConfirmationTraces: nat := 4

  /** What a trace round hands on: the hops it published, the hosts it flagged, the extra traces it asked for. */
  datatype RoundReport = RoundReport(published: seq<PingResult>, unhealthy: seq<PingResult>, confirmations: nat)

  /** The hops published for a trace that returned: the trace, or the empty (nil) slice when it failed. */
  function Published(trace: Result<seq<PingResult>, ProbeError>): seq<PingResult>
  {
    if trace.Ok? then trace.value else []
  }

  /**
   * What a round does with the given network behaviour: None when the trace
   * ends the program through log.Fatal, so that nothing is handed on.
   */
  function RoundOf(target: string, listenOk: bool, probes: seq<Trace.HopProbe>): Option<RoundReport>
  {
    var trace := Trace.TraceOf(target, listenOk, probes);
    if trace == Err(FatalExit) then None
    else
      var hops := Published(trace);
      Some(RoundReport(hops, Scan.Unhealthy(hops),
                       if Scan.HighWater(hops, |hops|) > Scan.JumpMs then ConfirmationTraces else 0))
  }

  /**
   * The body of the trace goroutine, up to the confirmation traces, whose
   * results it discards; `exited` says the trace ended the program.
   */
  method TraceRound(target: string, listenOk: bool, probes: seq<Trace.HopProbe>)
    returns (exited: bool, published: seq<PingResult>, unhealthy: seq<PingResult>, confirmations: nat)
    ensures exited <==> RoundOf(target, listenOk, probes).None?
    ensures exited ==> published == [] && unhealthy == [] && confirmations == 0
    ensures !exited ==> RoundOf(target, listenOk, probes) == Some(RoundReport(published, unhealthy, confirmations))
  {
    var traceResults := Trace.TtlTrace(target, listenOk, probes);
    if traceResults == Err(FatalExit) {
      exited, published, unhealthy, confirmations := true, [], [], 0;
      return;
    }
    exited := false;
    published := if traceResults.Ok? then traceResults.value else [];
    var latencyHighWaterMark;
    unhealthy, latencyHighWaterMark := Scan.ScanTrace(published);
    confirmations := 0;
    if latencyHighWaterMark > Scan.JumpMs {
      confirmations := ConfirmationTraces;
    }
  }

  /**
   * A trace that fails publishes no hops, flags no host and asks for no
   * confirmation; when it failed through log.Fatal the round hands on nothing at all.
   */
  lemma FailedTraceReportsNothing(target: string, listenOk: bool, probes: seq<Trace.HopProbe>)
    requires Trace.TraceOf(target, listenOk, probes).Err?
    ensures RoundOf(target, listenOk, probes) ==
      if Trace.TraceOf(target, listenOk, probes).error == FatalExit then None else Some(RoundReport([], [], 0))
  {
  }

  /**
   * A trace whose first probe cannot set its control messages ends the
   * program: the round publishes nothing and flags nothing.
   */
  lemma FatalTraceEndsRound(target: string, probes: seq<Trace.HopProbe>)
    requires |probes| >= 1 && !probes[0].steps.controlOk
    ensures Trace.TraceOf(target, true, probes) == Err(FatalExit)
    ensures RoundOf(target, true, probes).None?
  {
    Trace.AbortedTrace(target, probes, 1);
  }

  /** Every flagged host is one of the published hops. */
  lemma FlaggedHostsArePublished(target: string, listenOk: bool, probes: seq<Trace.HopProbe>)
    ensures RoundOf(target, listenOk, probes).Some? ==> var r := RoundOf(target, listenOk, probes).value;
      forall k :: 0 <= k < |r.unhealthy| ==> r.unhealthy[k] in r.published
  {
    if RoundOf(target, listenOk, probes).None? {
      return;
    }
    var r := RoundOf(target, listenOk, probes).value;
    var idx := Scan.ReportedUpTo(r.published, |r.published|);
    forall k | 0 <= k < |r.unhealthy|
      ensures r.unhealthy[k] in r.published
    {
      assert r.unhealthy[k] == r.published[idx[k]];
    }
  }

  /**
   * Confirmation traces are asked for exactly when some hop that the scan
   * does not pass over is slower than 100 ms.
   */
  lemma ConfirmsExactlyWhenSlow(target: string, listenOk: bool, probes: seq<Trace.HopProbe>)
    ensures RoundOf(target, listenOk, probes).Some? ==> var r := RoundOf(target, listenOk, probes).value;
      && (r.confirmations == ConfirmationTraces <==>
            exists j :: 0 <= j < |r.published| && !Scan.Skipped(r.published, j) && r.published[j].latency > Scan.JumpMs)
      && r.confirmations in {0, ConfirmationTraces}
  {
    if RoundOf(target, listenOk, probes).Some? {
      var hops := RoundOf(target, listenOk, probes).value.published;
      Scan.HighWaterIsMaximum(hops, |hops|);
    }
  }
}
