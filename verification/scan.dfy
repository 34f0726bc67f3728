/**
 * The anomaly scan run after each trace: walk the hops in order, remember
 * the previous hop's latency and the highest latency seen, and flag a hop
 * whose latency jumps by more than 100 ms to a new high; a flagged hop whose
 * predecessor is itself above 100 ms is reported together with it.
 */
module Scan {
  import opened Probe

  /** The latency jump, in milliseconds, that marks a hop as suspect. */
  const JumpMs: real := 100.0

  function Abs(x: real): (r: real)
    ensures r >= 0.0 && (r == x || r == -x)
  {
    if x < 0.0 then -x else x
  }

  /** `lastLatency` when hop i is reached: the previous hop's latency, 0 before the first. */
  function LatencyBefore(hops: seq<PingResult>, i: nat): real
    requires i <= |hops|
  {
    if i == 0 then 0.0 else hops[i - 1].latency
  }

  /** A hop is passed over when the latency before it is zero: the first hop, or one after a gap. */
  predicate Skipped(hops: seq<PingResult>, i: nat)
    requires i <= |hops|
  {
    LatencyBefore(hops, i) == 0.0
  }

  /** The high-water mark after the first n hops: the largest latency of a hop not passed over, or 0. */
  function HighWater(hops: seq<PingResult>, n: nat): (h: real)
    requires n <= |hops|
    ensures h >= 0.0
  {
    if n == 0 then 0.0
    else
      var h := HighWater(hops, n - 1);
      if !Skipped(hops, n - 1) && hops[n - 1].latency > h then hops[n - 1].latency else h
  }

  /** Hop i is flagged: not passed over, a jump of more than 100 ms, nonzero, and above the mark so far. */
  predicate Flagged(hops: seq<PingResult>, i: nat): (f: bool)
    requires i < |hops|
    ensures f ==> i > 0 && hops[i].latency > 0.0 && hops[i].latency > HighWater(hops, i)
  {
    && !Skipped(hops, i)
    && Abs(hops[i].latency - LatencyBefore(hops, i)) > JumpMs
    && hops[i].latency != 0.0
    && hops[i].latency > HighWater(hops, i)
  }

  /** The positions reported at hop i: none, the hop, or its slow predecessor and then the hop. */
  function ReportedAt(hops: seq<PingResult>, i: nat): seq<nat>
    requires i < |hops|
  {
    if !Flagged(hops, i) then []
    else if i > 0 && hops[i - 1].latency > JumpMs then [i - 1, i]
    else [i]
  }

  /**
   * Hop i reports something exactly when it is flagged: the hop itself, or
   * its predecessor and then the hop when the predecessor is above 100 ms.
   */
  lemma ReportedAtShape(hops: seq<PingResult>, i: nat)
    requires i < |hops|
    ensures ReportedAt(hops, i) != [] <==> Flagged(hops, i)
    ensures var r := ReportedAt(hops, i);
      r == [] || r == [i] || (i > 0 && r == [i - 1, i] && hops[i - 1].latency > JumpMs)
    ensures Flagged(hops, i) && hops[i - 1].latency > JumpMs ==> ReportedAt(hops, i) == [i - 1, i]
  {
  }

  /**
   * The positions reported while scanning the first n hops. They come in
   * trace order, and each is a flagged hop or the slow predecessor of one.
   */
  function ReportedUpTo(hops: seq<PingResult>, n: nat): (r: seq<nat>)
    requires n <= |hops|
    ensures forall k :: 0 <= k < |r| ==> r[k] < n
    ensures forall a, b :: 0 <= a < b < |r| ==> r[a] <= r[b]
    ensures forall k :: 0 <= k < |r| ==>
      Flagged(hops, r[k]) || (r[k] + 1 < n && Flagged(hops, r[k] + 1) && hops[r[k]].latency > JumpMs)
  {
    if n == 0 then [] else ReportedUpTo(hops, n - 1) + ReportedAt(hops, n - 1)
  }

  /** The hops at the given positions. */
  function HopsAt(hops: seq<PingResult>, idx: seq<nat>): (r: seq<PingResult>)
    requires forall k :: 0 <= k < |idx| ==> idx[k] < |hops|
    ensures |r| == |idx| && forall k :: 0 <= k < |idx| ==> r[k] == hops[idx[k]]
  {
    seq(|idx|, k requires 0 <= k < |idx| => hops[idx[k]])
  }

  /** The hops a scan sends to the unhealthy-host channel. */
  function Unhealthy(hops: seq<PingResult>): seq<PingResult>
  {
    HopsAt(hops, ReportedUpTo(hops, |hops|))
  }

  /** Scanning one more hop appends its reports to those before it. */
  lemma ReportedThrough(hops: seq<PingResult>, i: nat)
    requires i < |hops|
    ensures HopsAt(hops, ReportedUpTo(hops, i + 1))
         == HopsAt(hops, ReportedUpTo(hops, i)) + HopsAt(hops, ReportedAt(hops, i))
  {
    var a, b := ReportedUpTo(hops, i), ReportedAt(hops, i);
    assert ReportedUpTo(hops, i + 1) == a + b;
    assert HopsAt(hops, a + b) == HopsAt(hops, a) + HopsAt(hops, b);
  }

  /**
   * One pass of the scan loop, stated in the loop's own terms: given the
   * previous latency, the mark so far and the hosts reported so far, what
   * hop i leaves as the reported hosts and the mark.
   */
  lemma ScanStep(hops: seq<PingResult>, i: nat, lastLatency: real, mark: real, hosts: seq<PingResult>)
    requires i < |hops| && lastLatency == LatencyBefore(hops, i) && mark == HighWater(hops, i)
    requires hosts == HopsAt(hops, ReportedUpTo(hops, i))
    ensures lastLatency == 0.0 ==>
      HopsAt(hops, ReportedUpTo(hops, i + 1)) == hosts && HighWater(hops, i + 1) == mark
    ensures lastLatency != 0.0 ==>
      var lat := hops[i].latency;
      var flagged := Abs(lat - lastLatency) > JumpMs && lat != 0.0 && lat > mark;
      var slowBefore := i > 0 && hops[i - 1].latency > JumpMs;
      && HopsAt(hops, ReportedUpTo(hops, i + 1))
         == (if flagged && slowBefore then hosts + [hops[i - 1]] + [hops[i]]
             else if flagged then hosts + [hops[i]]
             else hosts)
      && HighWater(hops, i + 1) == (if lat > mark then lat else mark)
  {
    ReportedThrough(hops, i);
    if lastLatency != 0.0 && Flagged(hops, i) && hops[i - 1].latency > JumpMs {
      assert HopsAt(hops, ReportedAt(hops, i)) == [hops[i - 1], hops[i]];
    }
  }

  /** The scan loop of the trace goroutine; it returns the flagged hops and the final high-water mark. */
  method ScanTrace(traceResults: seq<PingResult>) returns (highLatencyHosts: seq<PingResult>, latencyHighWaterMark: real)
    ensures highLatencyHosts == Unhealthy(traceResults)
    ensures latencyHighWaterMark == HighWater(traceResults, |traceResults|)
  {
    var lastLatency := 0.0;
    highLatencyHosts := [];
    latencyHighWaterMark := 0.0;
    for i := 0 to |traceResults|
      invariant lastLatency == LatencyBefore(traceResults, i)
      invariant latencyHighWaterMark == HighWater(traceResults, i)
      invariant highLatencyHosts == HopsAt(traceResults, ReportedUpTo(traceResults, i))
    {
      ScanStep(traceResults, i, lastLatency, latencyHighWaterMark, highLatencyHosts);
      var traceResult := traceResults[i];
      if lastLatency == 0.0 {
        lastLatency := traceResult.latency;
        continue;
      }
      if Abs(traceResult.latency - lastLatency) > JumpMs && traceResult.latency != 0.0
         && traceResult.latency > latencyHighWaterMark {
        if i > 0 && traceResults[i - 1].latency > JumpMs {
          highLatencyHosts := highLatencyHosts + [traceResults[i - 1]];
        }
        highLatencyHosts := highLatencyHosts + [traceResult];
      }
      lastLatency := traceResult.latency;
      if traceResult.latency > latencyHighWaterMark {
        latencyHighWaterMark := traceResult.latency;
      }
    }
  }

  /** The high-water mark never decreases along the scan. */
  lemma {:induction false} HighWaterMonotone(hops: seq<PingResult>, m: nat, n: nat)
    requires m <= n <= |hops|
    ensures HighWater(hops, m) <= HighWater(hops, n)
    decreases n - m
  {
    if m < n {
      HighWaterMonotone(hops, m, n - 1);
    }
  }

  /**
   * The high-water mark is the largest latency among the hops not passed
   * over: it bounds each of them and is one of them, or 0 when there is none.
   */
  lemma {:induction false} HighWaterIsMaximum(hops: seq<PingResult>, n: nat)
    requires n <= |hops|
    ensures forall j :: 0 <= j < n && !Skipped(hops, j) ==> hops[j].latency <= HighWater(hops, n)
    ensures HighWater(hops, n) == 0.0
         || exists j :: 0 <= j < n && !Skipped(hops, j) && hops[j].latency == HighWater(hops, n)
  {
    if n > 0 {
      HighWaterIsMaximum(hops, n - 1);
    }
  }

  /**
   * Every flagged hop is reported, and a flagged hop whose predecessor is
   * above 100 ms is reported right after it.
   */
  lemma {:induction false} FlaggedHopsReported(hops: seq<PingResult>, n: nat, i: nat)
    requires i < n <= |hops| && Flagged(hops, i)
    ensures exists k :: 0 <= k < |ReportedUpTo(hops, n)| && ReportedUpTo(hops, n)[k] == i
    ensures hops[i - 1].latency > JumpMs ==>
      exists k :: 1 <= k < |ReportedUpTo(hops, n)| && ReportedUpTo(hops, n)[k - 1] == i - 1 && ReportedUpTo(hops, n)[k] == i
  {
    var r := ReportedUpTo(hops, n);
    if i < n - 1 {
      FlaggedHopsReported(hops, n - 1, i);
      var before := ReportedUpTo(hops, n - 1);
      assert forall k :: 0 <= k < |before| ==> r[k] == before[k];
    } else {
      var before := ReportedUpTo(hops, n - 1);
      assert r == before + ReportedAt(hops, i);
      ReportedAtShape(hops, i);
      if hops[i - 1].latency > JumpMs {
        assert r[|before|] == i - 1 && r[|before| + 1] == i;
      } else {
        assert r[|before|] == i;
      }
    }
  }

  /** A hop passed over is never flagged and leaves the high-water mark where it was. */
  lemma SkippedHopIgnored(hops: seq<PingResult>, i: nat)
    requires i < |hops| && Skipped(hops, i)
    ensures !Flagged(hops, i) && ReportedAt(hops, i) == []
    ensures HighWater(hops, i + 1) == HighWater(hops, i)
  {
  }

  /** Hop latencies 20, 25, 30, 180, 35: only the fourth hop is reported, and the mark ends at 180. */
  lemma FourthHopFlagged(hops: seq<PingResult>)
    requires |hops| == 5
    requires hops[0].latency == 20.0 && hops[1].latency == 25.0 && hops[2].latency == 30.0
    requires hops[3].latency == 180.0 && hops[4].latency == 35.0
    ensures ReportedUpTo(hops, 5) == [3]
    ensures Unhealthy(hops) == [hops[3]]
    ensures HighWater(hops, 5) == 180.0
  {
    assert HighWater(hops, 1) == 0.0;
    assert HighWater(hops, 2) == 25.0;
    assert HighWater(hops, 3) == 30.0;
    assert HighWater(hops, 4) == 180.0;
    assert !Flagged(hops, 1) && !Flagged(hops, 2) && Flagged(hops, 3) && !Flagged(hops, 4);
  }

  /**
   * A hop can be reported twice: with latencies 10, 150, 300 the second hop
   * is flagged, then reported again as the slow predecessor of the third.
   */
  lemma SlowPredecessorReportedTwice(hops: seq<PingResult>)
    requires |hops| == 3
    requires hops[0].latency == 10.0 && hops[1].latency == 150.0 && hops[2].latency == 300.0
    ensures ReportedUpTo(hops, 3) == [1, 1, 2]
    ensures Unhealthy(hops) == [hops[1], hops[1], hops[2]]
  {
    assert HighWater(hops, 1) == 0.0;
    assert HighWater(hops, 2) == 150.0;
    assert Flagged(hops, 1) && Flagged(hops, 2);
  }

  /**
   * A drop counts as a jump: with latencies 200 then 5 the second hop is
   * flagged and reported after its slow predecessor, while the mark stays at 5.
   */
  lemma DropAfterFirstHopFlagged(hops: seq<PingResult>)
    requires |hops| == 2
    requires hops[0].latency == 200.0 && hops[1].latency == 5.0
    ensures ReportedUpTo(hops, 2) == [0, 1]
    ensures HighWater(hops, 2) == 5.0
  {
    assert HighWater(hops, 1) == 0.0;
    assert Flagged(hops, 1);
    assert ReportedUpTo(hops, 1) == [];
    assert ReportedAt(hops, 1) == [0, 1];
  }
}
