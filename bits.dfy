/** The bit helpers `getWord`, `getBit` and `getRCode`, which DnsQuery and
    DnsResponse each declare in identical copies. */
module Bits {
  import opened JavaPrims

  /** `getWord`: the first two bytes read as a big-endian unsigned 16-bit word. */
  function GetWord(bytes: seq<JByte>): (w: int)
    requires |bytes| >= 2
    ensures 0 <= w < 0x1_0000
    ensures w / 256 == Unsigned(bytes[0]) && w % 256 == Unsigned(bytes[1])
  {
    // (b0 & 0xff) << 8 cannot overflow: the operand is below 256
    Unsigned(bytes[0]) * 256 + Unsigned(bytes[1])
  }

  /** Splitting a word into two bytes and reading it back gives the word. */
  lemma WordRoundTrip(w: int)
    requires 0 <= w < 0x1_0000
    ensures GetWord([ToByte(w / 256), ToByte(w % 256)]) == w
  {
    UnsignedOfToByte(w / 256);
    UnsignedOfToByte(w % 256);
  }

  /** Two words are equal exactly when their two bytes are. */
  lemma WordEqualIff(a: seq<JByte>, b: seq<JByte>)
    requires |a| >= 2 && |b| >= 2
    ensures GetWord(a) == GetWord(b) <==> a[0] == b[0] && a[1] == b[1]
  {
    UnsignedInjective(a[0], b[0]);
    UnsignedInjective(a[1], b[1]);
  }

  /** `getBit(b, p)`: `(b >> p) & 1` on the sign-extended byte. */
  function GetBit(b: JByte, p: int): (r: int)
    ensures r == 0 || r == 1
  {
    ShiftRight(b, p) % 2
  }

  /** Adding 256 to a number adds 2^(8-p) after p one-bit shifts. */
  lemma {:induction false} HalveOffset(x: int, p: nat)
    requires p <= 8
    ensures Halve(x + 256, p) == Halve(x, p) + Pow2(8 - p)
  {
    if p == 0 {
      assert Pow2(8) == 256;
    } else {
      HalveOffset(x, p - 1);
      assert Pow2(8 - (p - 1)) == 2 * Pow2(8 - p);
    }
  }

  /** For positions 0 to 7 the sign extension does not show: `getBit` is bit p
      of the unsigned byte, as if the shift were applied to `b & 0xff`. */
  lemma BitOfUnsigned(b: JByte, p: int)
    requires 0 <= p < 8
    ensures GetBit(b, p) == ShiftRight(Unsigned(b), p) % 2
  {
    if b < 0 {
      HalveOffset(b, p);
      assert Pow2(8 - p) == 2 * Pow2(7 - p);
    }
  }

  /** After n one-bit shifts a byte lies in [-2^(7-n), 2^(7-n)) and keeps its sign. */
  lemma {:induction false} HalveByte(b: JByte, n: nat)
    requires n <= 7
    ensures -(Pow2(7 - n) as int) <= Halve(b, n) < Pow2(7 - n)
    ensures Halve(b, n) < 0 <==> b < 0
  {
    if n == 0 {
      assert Pow2(7) == 128;
    } else {
      HalveByte(b, n - 1);
      assert Pow2(7 - (n - 1)) == 2 * Pow2(7 - n);
    }
  }

  /** Seven or more one-bit shifts leave only the sign: -1 or 0. */
  lemma {:induction false} HalvePastByte(b: JByte, n: nat)
    requires n >= 7
    ensures Halve(b, n) == if b < 0 then -1 else 0
  {
    if n == 7 {
      HalveByte(b, 7);
      assert Pow2(0) == 1;
    } else {
      HalvePastByte(b, n - 1);
    }
  }

  /** For shift distances 8 to 31 `getBit` reads the sign bit that the
      widening of the byte to an `int` copied upwards. */
  lemma BitBeyondByte(b: JByte, p: int)
    requires 8 <= p < 32
    ensures GetBit(b, p) == if b < 0 then 1 else 0
  {
    HalvePastByte(b, p);
  }

  /** The four low bits of a number, weighted 1, 2, 4 and 8, make up its low nibble. */
  lemma LowNibble(u: int)
    requires 0 <= u
    ensures ShiftRight(u, 0) % 2 + ShiftRight(u, 1) % 2 * 2 + ShiftRight(u, 2) % 2 * 4
            + ShiftRight(u, 3) % 2 * 8 == u % 16
  {
    var a := u / 2;
    var b := a / 2;
    var c := b / 2;
    assert ShiftRight(u, 0) == u;
    assert ShiftRight(u, 1) == a;
    assert ShiftRight(u, 2) == b;
    assert ShiftRight(u, 3) == c;
    var low := u % 2 + a % 2 * 2 + b % 2 * 4 + c % 2 * 8;
    assert u == 16 * (c / 2) + low;
    RemainderOf(u, c / 2, low);
  }

  lemma RemainderOf(u: int, q: int, r: int)
    requires u == 16 * q + r && 0 <= r < 16
    ensures u % 16 == r
  {
  }

  /** `getRCode(b)`: bits 0 to 3 of b weighted 1, 2, 4 and 8, i.e. `b & 0x0F`. */
  function GetRCode(b: JByte): (r: int)
    ensures r == Unsigned(b) % 16
    ensures 0 <= r < 16
  {
    BitOfUnsigned(b, 0);
    BitOfUnsigned(b, 1);
    BitOfUnsigned(b, 2);
    BitOfUnsigned(b, 3);
    LowNibble(Unsigned(b));
    GetBit(b, 0) + GetBit(b, 1) * 2 + GetBit(b, 2) * 4 + GetBit(b, 3) * 8
  }
}
