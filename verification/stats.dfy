/**
 * The once-a-second ping tick: count the packet, turn a failed ping into the
 * 2000 ms sentinel, blend the sample into the running average, track the
 * extremes and keep the last thirty samples.
 */
module Stats {
  import opened Wrappers

  /** The sample recorded for a ping that returned an error. */
  const FailedLatency: real := 2000.0
  /** The minimum before any sample. */
  const MinSentinel: real := 99999.9
  /** How many samples the rolling window keeps. */
  const WindowSize: nat := 30

  /** The latency a tick records: the ping's latency, or the sentinel when the ping failed. */
  function SampleOf(reply: Option<real>): real
  {
    if reply.None? then FailedLatency else reply.value
  }

  /** Pairwise blending: a zero average is replaced by the sample, otherwise halved toward it. */
  function Blend(avg: real, sample: real): real
  {
    if avg == 0.0 then sample else (avg + sample) / 2.0
  }

  /** The running minimum after a sample: replaced only by a strictly smaller sample. */
  function Lower(sample: real, lo: real): real
  {
    if sample < lo then sample else lo
  }

  /** The running maximum after a sample: replaced only by a strictly larger sample. */
  function Higher(sample: real, hi: real): real
  {
    if sample > hi then sample else hi
  }

  /** The running average of a series of samples, oldest first. */
  function Blended(samples: seq<real>): real
  {
    if samples == [] then 0.0 else Blend(Blended(samples[..|samples| - 1]), samples[|samples| - 1])
  }

  function Lowest(samples: seq<real>): real
  {
    if samples == [] then MinSentinel
    else
      Lower(samples[|samples| - 1], Lowest(samples[..|samples| - 1]))
  }

  function Highest(samples: seq<real>): real
  {
    if samples == [] then 0.0
    else
      Higher(samples[|samples| - 1], Highest(samples[..|samples| - 1]))
  }

  /** The rolling window after one more sample: drop the oldest only when already full. */
  function Roll(window: seq<real>, sample: real): seq<real>
  {
    (if |window| == WindowSize then window[1..] else window) + [sample]
  }

  /** The last `WindowSize` samples, or all of them when there are fewer. */
  function Recent(samples: seq<real>): (r: seq<real>)
    ensures |r| <= WindowSize
  {
    if |samples| <= WindowSize then samples else samples[|samples| - WindowSize..]
  }

  /** The samples of a history of ping replies. */
  function Samples(history: seq<Option<real>>): (s: seq<real>)
    ensures |s| == |history|
    ensures forall i :: 0 <= i < |history| ==> s[i] == SampleOf(history[i])
  {
    if history == [] then []
    else
      var front := history[..|history| - 1];
      assert forall i :: 0 <= i < |front| ==> front[i] == history[i];
      Samples(front) + [SampleOf(history[|history| - 1])]
  }

  /** How many pings of the history got a reply. */
  function Received(history: seq<Option<real>>): (n: nat)
  {
    if history == [] then 0
    else Received(history[..|history| - 1]) + (if history[|history| - 1].Some? then 1 else 0)
  }

  /** The counters and summaries the ping loop keeps between ticks, as one value. */
  datatype Summary = Summary(
    packetsTx: int, packetsRx: int, avgLatency: real,
    minLatency: real, maxLatency: real, rollingLatency: seq<real>)

  /** The summary before the first tick. */
  const Initial := Summary(0, 0, 0.0, MinSentinel, 0.0, [])

  /** One tick on values: the summary after one more ping reply, or None for an error. */
  function Step(s: Summary, reply: Option<real>): Summary
  {
    var x := SampleOf(reply);
    Summary(s.packetsTx + 1, s.packetsRx + (if reply.Some? then 1 else 0), Blend(s.avgLatency, x),
            Lower(x, s.minLatency), Higher(x, s.maxLatency), Roll(s.rollingLatency, x))
  }

  /** The summary after a tick for each reply of the history, oldest first. */
  function Replay(history: seq<Option<real>>): Summary
  {
    if history == [] then Initial
    else Step(Replay(history[..|history| - 1]), history[|history| - 1])
  }

  /** The counters and summaries the ping loop keeps between ticks. */
  class PingStats {
    var packetsTx: int
    var packetsRx: int
    var avgLatency: real
    var minLatency: real
    var maxLatency: real
    var rollingLatency: seq<real>
    /** Every reply so far, oldest first. */
    ghost var history: seq<Option<real>>

    /** The fields hold what ticking through the history gives (see ReplayMatchesSpec for what that means). */
    ghost predicate Valid()
      reads this
    {
      Summary(packetsTx, packetsRx, avgLatency, minLatency, maxLatency, rollingLatency) == Replay(history)
    }

    constructor ()
      ensures Valid() && history == []
      ensures packetsTx == 0 && packetsRx == 0 && rollingLatency == []
      ensures avgLatency == 0.0 && minLatency == MinSentinel && maxLatency == 0.0
    {
      packetsTx, packetsRx := 0, 0;
      avgLatency, minLatency, maxLatency := 0.0, MinSentinel, 0.0;
      rollingLatency := [];
      history := [];
    }

    /** One ping tick, given the ping's latency or None for an error; returns the sample recorded. */
    method Tick(reply: Option<real>) returns (latency: real)
      requires Valid()
      modifies this
      ensures Valid() && history == old(history) + [reply]
      ensures latency == SampleOf(reply)
    {
      packetsTx := packetsTx + 1;
      if reply.None? {
        latency := FailedLatency;
      } else {
        latency := reply.value;
        packetsRx := packetsRx + 1;
      }
      avgLatency := Blend(avgLatency, latency);
      minLatency := Lower(latency, minLatency);
      maxLatency := Higher(latency, maxLatency);
      rollingLatency := Roll(rollingLatency, latency);
      assert (history + [reply])[..|history|] == history;
      history := history + [reply];
    }
  }

  /**
   * Ticking through a history keeps exactly what the history implies: one
   * packet sent per reply, one received per reply that is not an error, the
   * blended average, the minimum and maximum of the samples, and the last
   * thirty samples.
   */
  lemma {:induction false} ReplayMatchesSpec(history: seq<Option<real>>)
    ensures var s := Replay(history);
      && s.packetsTx == |history|
      && s.packetsRx == Received(history)
      && s.avgLatency == Blended(Samples(history))
      && s.minLatency == Lowest(Samples(history))
      && s.maxLatency == Highest(Samples(history))
      && s.rollingLatency == Recent(Samples(history))
  {
    if history != [] {
      var front := history[..|history| - 1];
      var reply := history[|history| - 1];
      ReplayMatchesSpec(front);
      assert history == front + [reply];
      Appended(front, reply);
      RollKeepsRecent(Samples(front), SampleOf(reply));
    }
  }

  /** What one more reply does to each summary of the history. */
  lemma Appended(history: seq<Option<real>>, reply: Option<real>)
    ensures Samples(history + [reply]) == Samples(history) + [SampleOf(reply)]
    ensures Received(history + [reply]) == Received(history) + (if reply.Some? then 1 else 0)
    ensures Blended(Samples(history + [reply])) == Blend(Blended(Samples(history)), SampleOf(reply))
    ensures Lowest(Samples(history + [reply])) == Lower(SampleOf(reply), Lowest(Samples(history)))
    ensures Highest(Samples(history + [reply])) == Higher(SampleOf(reply), Highest(Samples(history)))
  {
    var s := Samples(history + [reply]);
    assert s == Samples(history) + [SampleOf(reply)];
    assert s[..|s| - 1] == Samples(history);
    assert (history + [reply])[..|history|] == history;
  }

  /**
   * A blend replaces a zero average by the sample; otherwise it lies
   * strictly between the average and the sample, unless the two are equal.
   */
  lemma BlendLiesBetween(avg: real, sample: real)
    ensures avg == 0.0 ==> Blend(avg, sample) == sample
    ensures avg != 0.0 ==> (avg <= Blend(avg, sample) <= sample || sample <= Blend(avg, sample) <= avg)
    ensures avg != 0.0 && avg != sample ==> Blend(avg, sample) != avg && Blend(avg, sample) != sample
  {
  }

  /**
   * Rolling appends the sample last and keeps the order of the window: the
   * rest is the newest part of the old window, which loses a sample only
   * when it already holds thirty, so the window never grows past thirty.
   */
  lemma RollKeepsOrder(window: seq<real>, sample: real)
    ensures var r := Roll(window, sample);
      && 1 <= |r| <= |window| + 1 && r[|r| - 1] == sample
      && r[..|r| - 1] == window[|window| - (|r| - 1)..]
      && (|window| <= WindowSize ==> |r| <= WindowSize)
      && (|window| < WindowSize ==> |r| == |window| + 1)
  {
  }

  /** Rolling the window of the last thirty samples gives the last thirty samples of the longer series. */
  lemma RollKeepsRecent(samples: seq<real>, sample: real)
    ensures Roll(Recent(samples), sample) == Recent(samples + [sample])
    ensures |Roll(Recent(samples), sample)| <= WindowSize
    ensures Roll(Recent(samples), sample)[|Roll(Recent(samples), sample)| - 1] == sample
  {
    var s := samples + [sample];
    if |samples| < WindowSize {
    } else if |samples| == WindowSize {
      assert Recent(s) == s[1..];
    } else {
      assert Recent(samples)[1..] + [sample] == s[|s| - WindowSize..];
    }
  }

  /** No more pings are received than sent. */
  lemma {:induction false} ReceivedAtMostSent(history: seq<Option<real>>)
    ensures Received(history) <= |history|
    ensures Received(history) == |history| <==> forall i :: 0 <= i < |history| ==> history[i].Some?
  {
    if history != [] {
      var front := history[..|history| - 1];
      ReceivedAtMostSent(front);
      assert forall i :: 0 <= i < |front| ==> front[i] == history[i];
    }
  }

  /** The minimum is at most every sample and is a sample itself, unless it is still the sentinel. */
  lemma {:induction false} LowestIsMinimum(samples: seq<real>)
    ensures forall i :: 0 <= i < |samples| ==> Lowest(samples) <= samples[i]
    ensures Lowest(samples) <= MinSentinel
    ensures Lowest(samples) == MinSentinel || Lowest(samples) in samples
  {
    if samples != [] {
      var front := samples[..|samples| - 1];
      LowestIsMinimum(front);
      assert forall i :: 0 <= i < |front| ==> front[i] == samples[i];
    }
  }

  /** The maximum is at least every sample and is a sample itself, unless it is still 0. */
  lemma {:induction false} HighestIsMaximum(samples: seq<real>)
    ensures forall i :: 0 <= i < |samples| ==> samples[i] <= Highest(samples)
    ensures 0.0 <= Highest(samples)
    ensures Highest(samples) == 0.0 || Highest(samples) in samples
  {
    if samples != [] {
      var front := samples[..|samples| - 1];
      HighestIsMaximum(front);
      assert forall i :: 0 <= i < |front| ==> front[i] == samples[i];
    }
  }

  /** For latencies that are never negative, the blended average stays between the minimum and the maximum. */
  lemma {:induction false} BlendedBetweenExtremes(samples: seq<real>)
    requires samples != []
    requires forall i :: 0 <= i < |samples| ==> samples[i] >= 0.0
    ensures Lowest(samples) <= Blended(samples) <= Highest(samples)
  {
    var front := samples[..|samples| - 1];
    if front != [] {
      assert forall i :: 0 <= i < |front| ==> front[i] == samples[i];
      BlendedBetweenExtremes(front);
    }
  }

  /** Samples 100, 50, 200 from a fresh average blend to 100, then 75, then 137.5. */
  lemma BlendExample()
    ensures Blended([100.0]) == 100.0
    ensures Blended([100.0, 50.0]) == 75.0
    ensures Blended([100.0, 50.0, 200.0]) == 137.5
  {
    assert [100.0, 50.0, 200.0][..2] == [100.0, 50.0];
    assert [100.0, 50.0][..1] == [100.0];
    assert [100.0][..0] == [];
  }
}
