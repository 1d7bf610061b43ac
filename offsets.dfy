/** Where a worker's transfers land (iobench.cpp:61-65). Sequential mode walks
    a private cursor one block at a time and wraps to 0 when the next block
    would pass the end of the file; random mode multiplies a drawn block index
    by the block size. Integers are unbounded here: with 0 < blk <= fileSize
    every value computed stays below fileSize + blk, so the source's 64-bit
    arithmetic does not wrap. */
module Offsets {

  import opened Arith

  /** One step of the sequential cursor: advance by a block, and restart at 0
      when the block after that would pass fileSize (iobench.cpp:65). */
  function NextCursor(cur: int, blk: int, fileSize: int): int {
    var next := cur + blk;
    if next + blk > fileSize then 0 else next
  }

  /** The cursor after n transfers, starting from 0 (iobench.cpp:62). */
  function CursorAfter(n: nat, blk: int, fileSize: int): int {
    if n == 0 then 0 else NextCursor(CursorAfter(n - 1, blk, fileSize), blk, fileSize)
  }

  /** The number of whole blocks in the file. */
  function BlockCount(blk: int, fileSize: int): int
    requires 0 < blk
  {
    fileSize / blk
  }

  /** Upper end of the random block index range (iobench.cpp:61). */
  function MaxBlockIndex(blk: int, fileSize: int): int
    requires 0 < blk
  {
    (fileSize - blk) / blk
  }

  /** A random-mode offset: the drawn block index times the block size
      (iobench.cpp:64). Block-aligned, inside the file, and the index can be
      read back from it. */
  function RandOffset(draw: int, blk: int, fileSize: int): (off: int)
    requires 0 < blk <= fileSize
    requires 0 <= draw <= MaxBlockIndex(blk, fileSize)
    ensures off % blk == 0 && off / blk == draw
    ensures 0 <= off && off + blk <= fileSize
  {
    FitsIff(draw, blk, fileSize - blk);
    DivModUnique(draw * blk, blk, draw, 0);
    draw * blk
  }

  /** k whole blocks fit in `size` bytes exactly when k is at most size / blk. */
  lemma FitsIff(k: int, blk: int, size: int)
    requires 0 < blk && 0 <= k
    ensures k * blk <= size <==> k <= size / blk
  {
    var q, r := size / blk, size % blk;
    assert size == q * blk + r && 0 <= r < blk;
    if k <= q {
      MulMono(k, q, blk);
    } else {
      MulMono(q + 1, k, blk);
      MulAddOne(q, blk);
    }
  }

  /** Closed form of the sequential cursor: the n-th offset is block n modulo
      the number of whole blocks, so offsets run 0, blk, 2*blk, ... and drop
      back to 0 right after the last block that fits. */
  lemma {:induction false} CursorClosedForm(n: nat, blk: int, fileSize: int)
    requires 0 < blk <= fileSize
    ensures CursorAfter(n, blk, fileSize) == (n % BlockCount(blk, fileSize)) * blk
  {
    var count := BlockCount(blk, fileSize);
    FitsIff(1, blk, fileSize);
    if n == 0 {
      DivModUnique(0, count, 0, 0);
    } else {
      CursorClosedForm(n - 1, blk, fileSize);
      var j := (n - 1) % count;
      var k := if j + 1 == count then 0 else j + 1;
      ModStep(n - 1, count);
      CursorStep(j, blk, fileSize);
      calc {
        CursorAfter(n, blk, fileSize);
        NextCursor(CursorAfter(n - 1, blk, fileSize), blk, fileSize);
        NextCursor(j * blk, blk, fileSize);
        k * blk;
        { assert k == n % count; }
        (n % count) * blk;
      }
    }
  }

  /** One cursor step from block j: on to block j + 1, or back to block 0
      when j is the last whole block. */
  lemma CursorStep(j: int, blk: int, fileSize: int)
    requires 0 < blk <= fileSize
    requires 0 <= j < BlockCount(blk, fileSize)
    ensures NextCursor(j * blk, blk, fileSize)
         == (if j + 1 == BlockCount(blk, fileSize) then 0 else j + 1) * blk
  {
    FitsIff(j + 2, blk, fileSize);
    MulAddOne(j, blk);
    MulAddOne(j + 1, blk);
  }

  lemma ModStep(m: nat, count: int)
    requires 0 < count
    ensures (m + 1) % count == if m % count + 1 == count then 0 else m % count + 1
  {
    var q, r := m / count, m % count;
    if r + 1 == count {
      MulAddOne(q, count);
      DivModUnique(m + 1, count, q + 1, 0);
    } else {
      DivModUnique(m + 1, count, q, r + 1);
    }
  }

  /** Every sequential offset is block-aligned and leaves room for a whole
      block before the end of the file. */
  lemma CursorInBounds(n: nat, blk: int, fileSize: int)
    requires 0 < blk <= fileSize
    ensures CursorAfter(n, blk, fileSize) % blk == 0
    ensures 0 <= CursorAfter(n, blk, fileSize) && CursorAfter(n, blk, fileSize) + blk <= fileSize
  {
    var count := BlockCount(blk, fileSize);
    FitsIff(1, blk, fileSize);
    CursorClosedForm(n, blk, fileSize);
    var j := n % count;
    FitsIff(j + 1, blk, fileSize);
    MulAddOne(j, blk);
    DivModUnique(j * blk, blk, j, 0);
  }

  /** The cursor wraps to 0 exactly when the block after the next one would
      pass the end of the file; otherwise it moves on by one block. */
  lemma CursorWrapsExactly(n: nat, blk: int, fileSize: int)
    requires 0 < blk <= fileSize
    ensures var cur := CursorAfter(n, blk, fileSize);
      CursorAfter(n + 1, blk, fileSize) == if cur + 2 * blk > fileSize then 0 else cur + blk
    ensures CursorAfter(n + 1, blk, fileSize) == 0 <==> (n + 1) % BlockCount(blk, fileSize) == 0
  {
    CursorClosedForm(n + 1, blk, fileSize);
    FitsIff(1, blk, fileSize);
    var j := (n + 1) % BlockCount(blk, fileSize);
    if j != 0 {
      MulMono(1, j, blk);
    }
  }

  /** Every block-aligned offset that leaves room for a block is some random
      draw's offset: random mode can reach the whole file. */
  lemma RandReachesEveryBlock(off: int, blk: int, fileSize: int)
    requires 0 < blk <= fileSize
    requires off % blk == 0 && 0 <= off && off + blk <= fileSize
    ensures 0 <= off / blk <= MaxBlockIndex(blk, fileSize)
    ensures RandOffset(off / blk, blk, fileSize) == off
  {
    var k := off / blk;
    assert off == k * blk;
    FitsIff(k, blk, fileSize - blk);
  }

  /** Both modes address the same blocks: random indices run up to the last
      block the sequential cursor visits before it wraps. */
  lemma ModesShareBlocks(blk: int, fileSize: int)
    requires 0 < blk <= fileSize
    ensures MaxBlockIndex(blk, fileSize) + 1 == BlockCount(blk, fileSize)
  {
    var q, r := fileSize / blk, fileSize % blk;
    MulAddOne(q - 1, blk);
    DivModUnique(fileSize - blk, blk, q - 1, r);
  }
}
