/** The write buffer's contents (iobench.cpp:58-59). For a write test each
    worker fills its block-sized buffer one 32-bit word at a time; the word at
    byte index i is the 64-bit product i * 2654435761 truncated to 32 bits.
    For a read test the buffer is left as allocated. The buffer is modelled as
    blk / 4 words; blocks whose size is not a multiple of 4 are outside the
    model. */
module Pattern {

  import opened Arith

  newtype u32 = x: int | 0 <= x < 0x1_0000_0000

  /** 2^32 and 2^64: the ranges of uint32_t and of a 64-bit size_t. */
  const WORD: int := 0x1_0000_0000
  const SIZE_T: int := 0x1_0000_0000_0000_0000

  /** The multiplicative-hash constant of the fill loop. */
  const MULTIPLIER: int := 2654435761

  /** MULTIPLIER is odd, so it has an inverse modulo 2^32:
      MULTIPLIER * INVERSE == 1 + INVERSE_CARRY * 2^32. */
  const INVERSE: int := 244002641
  const INVERSE_CARRY: int := 150801925

  /** The value the loop stores for byte index i: the size_t product, which
      wraps at 2^64, cast to uint32_t. */
  function WordAt(i: nat): u32 {
    (((i * MULTIPLIER) % SIZE_T) % WORD) as u32
  }

  /** The word at word index k of a filled buffer. */
  function PatternWord(k: nat): u32 {
    WordAt(4 * k)
  }

  /** The 64-bit wrap never matters: the stored word is the product modulo
      2^32, so word k is (4k * 2654435761) mod 2^32. */
  lemma PatternWordValue(k: nat)
    ensures PatternWord(k) as int == (4 * k * MULTIPLIER) % WORD
  {
    var x := 4 * k * MULTIPLIER;
    var q, q1, r1 := x / SIZE_T, x / WORD, x % WORD;
    assert x % SIZE_T == x - q * SIZE_T;
    assert x % SIZE_T == (q1 - q * WORD) * WORD + r1;
    DivModUnique(x % SIZE_T, WORD, q1 - q * WORD, r1);
  }

  /** Multiplying a word by INVERSE modulo 2^32 gives back its byte index, so
      the pattern can be decoded for any buffer smaller than 4 GiB. */
  lemma PatternDecode(k: nat)
    requires k < WORD / 4
    ensures (PatternWord(k) as int * INVERSE) % WORD == 4 * k
  {
    PatternWordValue(k);
    var w := PatternWord(k) as int;
    var a := (4 * k * MULTIPLIER) / WORD;
    assert 4 * k * MULTIPLIER == a * WORD + w;
    assert w * INVERSE == 4 * k + (4 * k * INVERSE_CARRY - a * INVERSE) * WORD;
    DivModUnique(w * INVERSE, WORD, 4 * k * INVERSE_CARRY - a * INVERSE, 4 * k);
  }

  /** Within a buffer smaller than 4 GiB no two words are equal. */
  lemma PatternInjective(j: nat, k: nat)
    requires j < WORD / 4 && k < WORD / 4
    requires PatternWord(j) == PatternWord(k)
    ensures j == k
  {
    PatternDecode(j);
    PatternDecode(k);
  }

  /** Word 0 is zero and every other word of such a buffer is not, so a
      filled buffer of two words or more is never all zeros. */
  lemma PatternNonZero(k: nat)
    requires k < WORD / 4
    ensures PatternWord(k) == 0 <==> k == 0
  {
    PatternDecode(k);
  }

  /** The fill loop (iobench.cpp:59): for a write test every word of the
      buffer holds its pattern word; for a read test nothing is written. */
  method FillPattern(buf: array<u32>, blk: int, isWrite: bool)
    requires 0 <= blk && blk % 4 == 0 && buf.Length == blk / 4
    modifies buf
    ensures isWrite ==> forall k :: 0 <= k < buf.Length ==> buf[k] == PatternWord(k)
    ensures !isWrite ==> buf[..] == old(buf[..])
  {
    if isWrite {
      var i := 0;
      while i < blk
        invariant 0 <= i <= blk && i % 4 == 0
        invariant forall k :: 0 <= k < i / 4 ==> buf[k] == PatternWord(k)
      {
        buf[i / 4] := WordAt(i);
        i := i + 4;
      }
    }
  }
}
