/**
 * Bytes, 16-bit words and the integer conventions of the Ruby interpreter:
 * Ruby integers are unbounded, so every truncation the interpreter performs
 * (`& 255`, `& 65535`) is written out here.
 */
module Words {

  type Byte = x: int | 0 <= x < 0x100
  type Word = x: int | 0 <= x < 0x1_0000

  /** A 5-bit Z-character of packed story text. */
  type ZChar = c: int | 0 <= c < 32

  /** `value & 255` on a Ruby integer of any sign (two's complement masking). */
  function Mask8(v: int): Byte { v % 0x100 }

  /** `value & 65535` on a Ruby integer of any sign (two's complement masking). */
  function Mask16(v: int): Word { v % 0x1_0000 }

  /** Big-endian word from its high and low bytes. */
  function WordOf(high: Byte, low: Byte): Word { high * 0x100 + low }

  /** High byte `(v >> 8) & 255` of a value about to be stored as a word. */
  function HighByte(v: int): Byte { (v / 0x100) % 0x100 }

  function Pow2(n: nat): (r: nat)
    ensures r >= 1
  {
    if n == 0 then 1 else 2 * Pow2(n - 1)
  }

  /** Bitwise AND of two words. */
  function And16(a: Word, b: Word): Word { ((a as bv16) & (b as bv16)) as int }

  /** Bitwise OR of two words. */
  function Or16(a: Word, b: Word): Word { ((a as bv16) | (b as bv16)) as int }

  /** Bit `k` (0 = least significant) of a byte. */
  predicate BitSet(b: Byte, k: nat)
    requires k < 8
  {
    (b as bv8) & ((1 as bv8) << k) != 0
  }

  /** `b | (1 << k)` */
  function WithBit(b: Byte, k: nat): Byte
    requires k < 8
  {
    ((b as bv8) | ((1 as bv8) << k)) as int
  }

  /** `b & ~(1 << k)` */
  function WithoutBit(b: Byte, k: nat): Byte
    requires k < 8
  {
    ((b as bv8) & !((1 as bv8) << k)) as int
  }

  lemma MaskedBits(x: bv8, k: nat, j: nat)
    requires k < 8 && j < 8
    ensures (x | ((1 as bv8) << k)) & ((1 as bv8) << j) != 0 <==> (j == k || x & ((1 as bv8) << j) != 0)
    ensures (x & !((1 as bv8) << k)) & ((1 as bv8) << j) != 0 <==> (j != k && x & ((1 as bv8) << j) != 0)
  {
  }

  lemma ByteRoundTrip(y: bv8)
    ensures (y as int) as bv8 == y
  {
  }

  lemma BitOfByte(y: bv8, j: nat)
    requires j < 8
    ensures BitSet(y as int, j) == (y & ((1 as bv8) << j) != 0)
  {
    ByteRoundTrip(y);
    var b: Byte := y as int;
    assert b as bv8 == y;
  }

  /** Setting bit `k` makes it set and leaves every other bit as it was. */
  lemma WithBitSets(b: Byte, k: nat, j: nat)
    requires k < 8 && j < 8
    ensures BitSet(WithBit(b, k), j) == (j == k || BitSet(b, j))
  {
    MaskedBits(b as bv8, k, j);
    BitOfByte((b as bv8) | ((1 as bv8) << k), j);
  }

  /** Clearing bit `k` makes it clear and leaves every other bit as it was. */
  lemma WithoutBitClears(b: Byte, k: nat, j: nat)
    requires k < 8 && j < 8
    ensures BitSet(WithoutBit(b, k), j) == (j != k && BitSet(b, j))
  {
    MaskedBits(b as bv8, k, j);
    BitOfByte((b as bv8) & !((1 as bv8) << k), j);
  }
}
