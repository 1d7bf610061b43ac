/** One worker's transfer loop (iobench.cpp:62-68) and the two counters all
    workers share (iobench.cpp:52).

    The loop runs until the shared stop flag is seen or a transfer moves
    fewer bytes than a block. Threads and the stop flag are outside the
    model: `results` lists, in order, what each pread/pwrite the worker
    issues before it sees the flag returns, so the loop stops when `results`
    is used up. In random mode `draws` lists the block indices the generator
    yields, one per transfer. */
module Worker {

  import opened Offsets

  /** The run's cumulative byte and operation counters. */
  class Counters {
    var bytes: int
    var ops: int

    constructor ()
      ensures bytes == 0 && ops == 0
    {
      bytes := 0;
      ops := 0;
    }

    /** Every counted operation moved exactly one block. */
    ghost predicate Consistent(blk: int)
      reads this
    {
      bytes == ops * blk
    }
  }

  /** Why a worker's loop ended. */
  datatype Exit = Stopped | ShortTransfer

  /** The number of leading transfers that moved exactly blk bytes. */
  function FullPrefix(results: seq<int>, blk: int): (k: nat)
    ensures k <= |results|
    ensures forall i :: 0 <= i < k ==> results[i] == blk
    ensures k < |results| ==> results[k] != blk
  {
    if results == [] || results[0] != blk then 0 else 1 + FullPrefix(results[1..], blk)
  }

  /** Transfers issued: the full ones, plus the short one that ends the loop. */
  function Issued(results: seq<int>, blk: int): nat {
    var k := FullPrefix(results, blk);
    if k < |results| then k + 1 else k
  }

  /** The offset of the i-th transfer (iobench.cpp:64). */
  function OffsetAt(i: nat, isRand: bool, draws: seq<int>, blk: int, fileSize: int): int
    requires isRand ==> i < |draws|
  {
    if isRand then draws[i] * blk else CursorAfter(i, blk, fileSize)
  }

  /** What the random generator can yield: a block index in
      [0, (fileSize - blk) / blk] for each transfer. */
  ghost predicate DrawsInRange(draws: seq<int>, blk: int, fileSize: int) {
    0 < blk <= fileSize && forall i :: 0 <= i < |draws| ==> 0 <= draws[i] <= MaxBlockIndex(blk, fileSize)
  }

  /** The worker loop. The counters grow by one block and one operation per
      full transfer and by nothing else; the first short or failed transfer
      ends the loop without touching them. */
  method RunWorker(c: Counters, isRand: bool, blk: int, fileSize: int, draws: seq<int>, results: seq<int>)
    returns (offsets: seq<int>, exit: Exit)
    requires isRand ==> |draws| >= |results| && DrawsInRange(draws, blk, fileSize)
    modifies c
    ensures exit == ShortTransfer <==> FullPrefix(results, blk) < |results|
    ensures |offsets| == Issued(results, blk)
    ensures forall i :: 0 <= i < |offsets| ==> offsets[i] == OffsetAt(i, isRand, draws, blk, fileSize)
    ensures c.bytes == old(c.bytes) + FullPrefix(results, blk) * blk
    ensures c.ops == old(c.ops) + FullPrefix(results, blk)
    ensures old(c.Consistent(blk)) ==> c.Consistent(blk)
  {
    var seqOff := 0;
    var i := 0;
    offsets, exit := [], Stopped;
    ghost var full := FullPrefix(results, blk);
    while i < |results|
      invariant 0 <= i <= full
      invariant !isRand ==> seqOff == CursorAfter(i, blk, fileSize)
      invariant |offsets| == i
      invariant forall j :: 0 <= j < i ==> offsets[j] == OffsetAt(j, isRand, draws, blk, fileSize)
      invariant c.bytes == old(c.bytes) + i * blk && c.ops == old(c.ops) + i
      invariant exit == Stopped
    {
      var off := if isRand then draws[i] * blk else seqOff;
      if !isRand {
        seqOff := seqOff + blk;
        if seqOff + blk > fileSize {
          seqOff := 0;
        }
      }
      offsets := offsets + [off];
      var n := results[i];
      if n == blk {
        c.bytes := c.bytes + n;
        c.ops := c.ops + 1;
      } else {
        exit := ShortTransfer;
        break;
      }
      i := i + 1;
    }
    assert old(c.Consistent(blk)) ==> c.bytes == (old(c.ops) + full) * blk;
  }

  /** Every transfer a worker issues is block-aligned and lies wholly inside
      the file, in both modes. */
  lemma OffsetsInBounds(i: nat, isRand: bool, draws: seq<int>, blk: int, fileSize: int)
    requires 0 < blk <= fileSize
    requires isRand ==> i < |draws| && DrawsInRange(draws, blk, fileSize)
    ensures var off := OffsetAt(i, isRand, draws, blk, fileSize);
      off % blk == 0 && 0 <= off && off + blk <= fileSize
  {
    if isRand {
      var off := RandOffset(draws[i], blk, fileSize);
    } else {
      CursorInBounds(i, blk, fileSize);
    }
  }

  /** Bytes and operations that several workers add to the shared counters,
      given each one's transfer results. */
  function FullBytes(rs: seq<seq<int>>, blk: int): int {
    if rs == [] then 0 else FullBytes(rs[..|rs| - 1], blk) + FullPrefix(rs[|rs| - 1], blk) * blk
  }

  function FullOps(rs: seq<seq<int>>, blk: int): int {
    if rs == [] then 0 else FullOps(rs[..|rs| - 1], blk) + FullPrefix(rs[|rs| - 1], blk)
  }

  /** With a non-negative block size the workers never take bytes away. */
  lemma {:induction false} FullBytesNonNegative(rs: seq<seq<int>>, blk: int)
    requires 0 <= blk
    ensures 0 <= FullBytes(rs, blk)
  {
    if rs != [] {
      FullBytesNonNegative(rs[..|rs| - 1], blk);
    }
  }

  /** However many workers there are, the bytes they add together are their
      operations times the block size. */
  lemma {:induction false} TotalsConsistent(rs: seq<seq<int>>, blk: int)
    ensures FullBytes(rs, blk) == FullOps(rs, blk) * blk
  {
    if rs != [] {
      var init := rs[..|rs| - 1];
      TotalsConsistent(init, blk);
      var k := FullPrefix(rs[|rs| - 1], blk);
      calc {
        FullBytes(rs, blk);
        FullBytes(init, blk) + k * blk;
        FullOps(init, blk) * blk + k * blk;
        (FullOps(init, blk) + k) * blk;
      }
    }
  }
}
