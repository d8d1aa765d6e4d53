/** The few Java primitive semantics the DNS client relies on: 32-bit `int`
    arithmetic, signed `byte`s, the narrowing cast `(byte)`, the mask
    `& 0xff` and the arithmetic shift `>>`. */
module JavaPrims {

  /** A Java `int`. */
  type Int32 = x: int | -0x8000_0000 <= x < 0x8000_0000

  /** A Java `byte`: eight bits read as a signed two's-complement number. */
  type JByte = x: int | -128 <= x < 128

  /** `int` arithmetic: the mathematical result reduced modulo 2^32 into the signed range. */
  function Wrap32(x: int): (r: Int32)
    ensures (r - x) % 0x1_0000_0000 == 0
    ensures -0x8000_0000 <= x < 0x8000_0000 ==> r == x
  {
    (x + 0x8000_0000) % 0x1_0000_0000 - 0x8000_0000
  }

  /** The cast `(byte) x`: keep the low eight bits and read them as signed. */
  function ToByte(x: int): (b: JByte)
    ensures (b - x) % 256 == 0
    ensures -128 <= x < 128 ==> b == x
  {
    (x + 128) % 256 - 128
  }

  /** `b & 0xff`: the eight bits of a byte read as an unsigned number. */
  function Unsigned(b: JByte): (u: int)
    ensures 0 <= u < 256
    ensures u == if b < 0 then b + 256 else b
  {
    b % 256
  }

  /** A cast to byte keeps exactly the low eight bits. */
  lemma UnsignedOfToByte(x: int)
    ensures Unsigned(ToByte(x)) == x % 256
  {
  }

  /** Two bytes with the same unsigned reading are the same byte. */
  lemma UnsignedInjective(a: JByte, b: JByte)
    ensures Unsigned(a) == Unsigned(b) <==> a == b
  {
  }

  function Pow2(n: nat): (r: nat)
    ensures r >= 1
  {
    if n == 0 then 1 else 2 * Pow2(n - 1)
  }

  /** Shifting right by n bits as n shifts by one bit, each a division by two
      rounded towards minus infinity (Dafny's `/` by a positive divisor rounds
      that way), so that negative numbers keep their sign. */
  function Halve(x: int, n: nat): int
  {
    if n == 0 then x else Halve(x, n - 1) / 2
  }

  /** `x >> p` on an `int`: the arithmetic, sign-extending shift; Java uses
      only the low five bits of the shift distance p. */
  function ShiftRight(x: int, p: int): int
  {
    Halve(x, p % 32)
  }
}
