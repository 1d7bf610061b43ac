/** The measurement loop's sampler (iobench.cpp:79-87). Once a second it reads
    the cumulative byte counter, appends the bytes moved since the previous
    reading, in MiB, under the next second index, and remembers the reading.
    The clock decides how many readings there are; here the readings are
    given, in order, as `snapshots`. MiB/s values are real numbers: floating
    point rounding is outside the model. */
module Sampler {

  /** Bytes in one MiB (iobench.cpp:85). */
  const BYTES_PER_MB: real := 1048576.0

  /** One point of the series (iobench.cpp:18). */
  datatype Point = Point(sec: int, mbps: real)

  /** The reading before the i-th: 0 before the first one, since the previous
      reading starts at 0 rather than at the counter's value when measuring
      begins (iobench.cpp:80). */
  function Previous(snapshots: seq<int>, i: nat): int
    requires i < |snapshots|
  {
    if i == 0 then 0 else snapshots[i - 1]
  }

  /** A series sampled from the given readings: one point per reading, point i
      with second index i and the MiB moved between reading i - 1 (or 0) and
      reading i. */
  ghost predicate Sampled(series: seq<Point>, snapshots: seq<int>) {
    |series| == |snapshots| &&
    forall i :: 0 <= i < |series| ==>
      series[i].sec == i && series[i].mbps * BYTES_PER_MB == (snapshots[i] - Previous(snapshots, i)) as real
  }

  /** The sampling loop. */
  method Sample(snapshots: seq<int>) returns (series: seq<Point>)
    ensures Sampled(series, snapshots)
  {
    var prevB := 0;
    var sec := 0;
    series := [];
    while sec < |snapshots|
      invariant 0 <= sec <= |snapshots|
      invariant |series| == sec
      invariant sec > 0 ==> prevB == snapshots[sec - 1]
      invariant sec == 0 ==> prevB == 0
      invariant forall i :: 0 <= i < sec ==> series[i].sec == i
      invariant forall i :: 0 <= i < sec ==>
        series[i].mbps * BYTES_PER_MB == (snapshots[i] - Previous(snapshots, i)) as real
    {
      var cur := snapshots[sec];
      var delta := cur - prevB;
      prevB := cur;
      var mbps := delta as real / BYTES_PER_MB;
      series := series + [Point(sec, mbps)];
      sec := sec + 1;
    }
  }

  /** Total MiB over a series. */
  function TotalMB(series: seq<Point>): real {
    if series == [] then 0.0 else TotalMB(series[..|series| - 1]) + series[|series| - 1].mbps
  }

  /** The deltas telescope: the series adds up to the last reading, which
      counts every byte since the workers started, warmup included. */
  lemma {:induction false} SeriesTelescopes(series: seq<Point>, snapshots: seq<int>)
    requires Sampled(series, snapshots) && |snapshots| > 0
    ensures TotalMB(series) * BYTES_PER_MB == snapshots[|snapshots| - 1] as real
  {
    var n := |series|;
    if n > 1 {
      var s', p' := snapshots[..n - 1], series[..n - 1];
      assert forall i :: 0 <= i < n - 1 ==> Previous(s', i) == Previous(snapshots, i);
      SeriesTelescopes(p', s');
      assert series[n - 1].mbps * BYTES_PER_MB == (snapshots[n - 1] - snapshots[n - 2]) as real;
    } else {
      assert series[..0] == [];
    }
  }

  /** Readings of the byte counter up to a final value `total`: none is
      negative, none is smaller than an earlier one (the counter only grows),
      and none exceeds the final value, read after every worker has stopped. */
  ghost predicate CounterReadings(snapshots: seq<int>, total: int) {
    (forall i :: 0 <= i < |snapshots| ==> 0 <= snapshots[i] <= total) &&
    (forall i, j :: 0 <= i < j < |snapshots| ==> snapshots[i] <= snapshots[j])
  }

  /** The series never reports more than the final total: its MiB add up to
      at most `total` bytes. */
  lemma SeriesBounded(series: seq<Point>, snapshots: seq<int>, total: int)
    requires Sampled(series, snapshots) && CounterReadings(snapshots, total)
    requires 0 <= total
    ensures TotalMB(series) * BYTES_PER_MB <= total as real
  {
    if |snapshots| > 0 {
      SeriesTelescopes(series, snapshots);
    } else {
      assert series == [];
    }
  }

  /** Readings of a counter that only grows give no negative point. */
  lemma SeriesNonNegative(series: seq<Point>, snapshots: seq<int>)
    requires Sampled(series, snapshots)
    requires forall i :: 0 <= i < |snapshots| ==> 0 <= snapshots[i]
    requires forall i, j :: 0 <= i < j < |snapshots| ==> snapshots[i] <= snapshots[j]
    ensures forall i :: 0 <= i < |series| ==> series[i].mbps >= 0.0
  {
    forall i | 0 <= i < |series|
      ensures series[i].mbps >= 0.0
    {
      assert snapshots[i] - Previous(snapshots, i) >= 0;
    }
  }
}
