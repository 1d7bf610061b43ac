/** The run as a whole (iobench.cpp:43-129): decode the test type, open the
    file, run the workers against one pair of shared counters, sample the
    byte counter, and report.

    The environment is given as parameters: `sys` is what open(2) returns for
    each flag set, `workers` lists what each worker's transfers return and
    which block indices its generator yields, and `snapshots` lists the byte
    counter's value at each one-second tick. The workers' loops run one after
    another here; they only add to the counters, so the totals do not depend
    on how the threads interleave. */
module Benchmark {

  import opened TestType
  import opened FileOpener
  import opened Worker
  import opened Sampler
  import opened Aggregate

  /** The configuration the host passes in (iobench.cpp:17). */
  datatype Config = Config(
    path: string, testType: string, fileSize: int, block: int,
    qd: int, dur: int, warm: int, useDirect: bool)

  /** The result object handed back to the host (iobench.cpp:117-127). */
  datatype RunResult = RunResult(
    mbps: real, iops: real,
    avgLatencyUs: real, p99LatencyUs: real, maxLatencyUs: real,
    bytesDone: int, opsDone: int, engine: string,
    series: seq<Point>, note: string)

  /** How a run ends: a result, the "open failed" exception thrown to the
      host (iobench.cpp:49), or the process aborting because a `reserve` with
      a negative count, converted to a huge size_t, throws std::length_error
      that nothing catches (iobench.cpp:73, 79). */
  datatype Result<T> = Success(value: T) | Failure(error: string) | Aborted

  /** One worker's environment: its generator's draws and its transfers' results. */
  datatype WorkerIo = WorkerIo(draws: seq<int>, results: seq<int>)

  function ResultsOf(workers: seq<WorkerIo>): seq<seq<int>> {
    seq(|workers|, i requires 0 <= i < |workers| => workers[i].results)
  }

  /** The engine label: it follows the requested mode, whatever the open
      actually achieved (iobench.cpp:114). */
  function EngineLabel(useDirect: bool): string {
    if useDirect then "O_DIRECT/Maybe" else "BUFFERED"
  }

  /** The number of worker threads the loop at iobench.cpp:74 starts. A
      negative qd never reaches that loop: the `reserve` before it aborts. */
  function WorkerCount(qd: int): nat {
    if qd > 0 then qd else 0
  }

  method Run(cfg: Config, sys: set<Flag> -> int, workers: seq<WorkerIo>, snapshots: seq<int>)
    returns (r: Result<RunResult>)
    // a block of 0 divides by zero at iobench.cpp:61; the model takes the
    // quotient to be 0, as arm64 computes it
    requires 0 <= cfg.block && 0 <= cfg.fileSize
    requires |workers| == WorkerCount(cfg.qd)
    requires Decode(cfg.testType).isRand ==> forall w :: w in workers ==>
      |w.draws| >= |w.results| && DrawsInRange(w.draws, cfg.block, cfg.fileSize)
    // each tick sleeps at least a second before a monotonic deadline dur
    // seconds away, so there are at most dur readings (iobench.cpp:80-83)
    requires |snapshots| <= if cfg.dur > 0 then cfg.dur else 0
    // the exception: every open attempt failed
    ensures r.Failure? <==> OpenFile(Decode(cfg.testType).isWrite, cfg.useDirect, sys).fd < 0
    ensures r.Failure? ==> r.error == "open failed"
    // the abort: the file opened, but qd or dur + 1 is negative
    ensures r.Aborted? <==> OpenFile(Decode(cfg.testType).isWrite, cfg.useDirect, sys).fd >= 0
                            && (cfg.qd < 0 || cfg.dur < -1)
    // totals are the whole counters: every full transfer of every worker
    ensures r.Success? ==> r.value.bytesDone == FullBytes(ResultsOf(workers), cfg.block)
    ensures r.Success? ==> r.value.opsDone == FullOps(ResultsOf(workers), cfg.block)
    ensures r.Success? ==> r.value.bytesDone == r.value.opsDone * cfg.block
    ensures r.Success? ==> Average(r.value.bytesDone, r.value.opsDone, cfg.dur)
                           == Averages(r.value.mbps, r.value.iops)
    ensures r.Success? ==> Sampled(r.value.series, snapshots)
    ensures r.Success? ==> r.value.engine == EngineLabel(cfg.useDirect)
    ensures r.Success? ==> r.value.avgLatencyUs == r.value.p99LatencyUs == r.value.maxLatencyUs == 0.0
    ensures r.Success? ==> r.value.note == ""
    // readings of the counter that grows to bytesDone: no negative point,
    // and the series never adds up to more than the total
    ensures r.Success? && CounterReadings(snapshots, r.value.bytesDone) ==>
      (forall i :: 0 <= i < |r.value.series| ==> r.value.series[i].mbps >= 0.0) &&
      TotalMB(r.value.series) * BYTES_PER_MB <= r.value.bytesDone as real
    // a duration of zero or less: no points and zero averages
    ensures r.Success? && cfg.dur <= 0 ==>
      r.value.series == [] && r.value.mbps == 0.0 && r.value.iops == 0.0
  {
    var flags := Decode(cfg.testType);
    var file := OpenFile(flags.isWrite, cfg.useDirect, sys);
    if file.fd < 0 {
      return Failure("open failed");
    }
    if cfg.qd < 0 {
      return Aborted;
    }
    var c := new Counters();
    ghost var rs := ResultsOf(workers);
    var i := 0;
    while i < |workers|
      invariant 0 <= i <= |workers|
      invariant c.bytes == FullBytes(rs[..i], cfg.block)
      invariant c.ops == FullOps(rs[..i], cfg.block)
    {
      var w := workers[i];
      var _, _ := RunWorker(c, flags.isRand, cfg.block, cfg.fileSize, w.draws, w.results);
      assert rs[..i + 1][..i] == rs[..i];
      i := i + 1;
    }
    assert rs[..|workers|] == rs;
    TotalsConsistent(rs, cfg.block);
    if cfg.dur < -1 {
      return Aborted;
    }
    var series := Sample(snapshots);
    if CounterReadings(snapshots, c.bytes) {
      FullBytesNonNegative(rs, cfg.block);
      SeriesNonNegative(series, snapshots);
      SeriesBounded(series, snapshots, c.bytes);
    }
    var avg := Average(c.bytes, c.ops, cfg.dur);
    r := Success(RunResult(avg.mbps, avg.iops, 0.0, 0.0, 0.0, c.bytes, c.ops,
                           EngineLabel(cfg.useDirect), series, ""));
  }

  /** The label can claim direct I/O for a run whose file was opened without
      it: when the O_DIRECT open fails and the plain one succeeds. */
  lemma EngineLabelCanMisreport(wr: bool)
    ensures var sys := (fl: set<Flag>) => if Direct in fl then -1 else 3;
      var o := OpenFile(wr, true, sys);
      o.fd >= 0 && !AchievedDirect(o) && EngineLabel(true) == "O_DIRECT/Maybe"
  {
    var sys := (fl: set<Flag>) => if Direct in fl then -1 else 3;
    assert Direct in InitialFlags(wr, true) && Direct !in InitialFlags(wr, false);
    FallbackEngages(wr, sys);
  }
}
