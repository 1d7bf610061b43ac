/** The run's averages (iobench.cpp:94-96): throughput in MiB/s and
    operations per second over the configured duration, taken from the whole
    counters, with a duration of zero or less giving 0 instead of a division.
    Values are real numbers: floating point rounding is outside the model. */
module Aggregate {

  import opened Sampler

  datatype Averages = Averages(mbps: real, iops: real)

  function Average(bytes: int, ops: int, dur: int): (a: Averages)
    ensures dur <= 0 ==> a == Averages(0.0, 0.0)
    ensures dur > 0 ==> a.mbps * dur as real * BYTES_PER_MB == bytes as real
    ensures dur > 0 ==> a.iops * dur as real == ops as real
  {
    var totalMB := bytes as real / BYTES_PER_MB;
    if dur > 0 then Averages(totalMB / dur as real, ops as real / dur as real)
    else Averages(0.0, 0.0)
  }

  /** With consistent counters, average throughput is average IOPS times the
      block size. */
  lemma ThroughputIsIopsTimesBlock(bytes: int, ops: int, blk: int, dur: int)
    requires bytes == ops * blk
    ensures Average(bytes, ops, dur).mbps * BYTES_PER_MB == Average(bytes, ops, dur).iops * blk as real
  {
    if dur > 0 {
      var a := Average(bytes, ops, dur);
      var d := dur as real;
      assert a.mbps * BYTES_PER_MB * d == a.iops * blk as real * d;
    }
  }
}
