/** Fixed-width integers of the driver and the C conversions between them.
    Dafny integers are unbounded, so every narrowing the C code performs
    (an `int` stored into a `uint16_t`, an `int16_t` cursor that overflows,
    a 32-bit product) is written out here once and used everywhere else. */
module Bits {

  const TWO8: int := 0x100
  const TWO16: int := 0x1_0000
  const TWO24: int := 0x100_0000
  const TWO31: int := 0x8000_0000
  const TWO32: int := 0x1_0000_0000

  type Byte = x: int | 0 <= x < 0x100
  type U16 = x: int | 0 <= x < 0x1_0000
  type U32 = x: int | 0 <= x < 0x1_0000_0000
  type I16 = x: int | -0x8000 <= x < 0x8000

  /** Conversion of a C `int` to `uint16_t`: reduction modulo 2^16. */
  function ToU16(v: int): U16
  {
    v % TWO16
  }

  /** Conversion of a C `int` to `int16_t`, two's complement as the
      compiler of the target implements it. */
  function ToI16(v: int): (r: I16)
    ensures ToU16(r) == ToU16(v)
  {
    var m := v % TWO16;
    if m < 0x8000 then m else m - TWO16
  }

  /** A value that already fits `int16_t` is unchanged by the conversion. */
  lemma ToI16OfI16(v: I16)
    ensures ToI16(v) == v
  {
    if v < 0 {
      assert (v + TWO16) % TWO16 == v + TWO16;
      ModuloShift(v, 1);
    }
  }

  /** `v >> 8` of a `uint16_t`. */
  function HighByte(v: U16): Byte { v / TWO8 }

  /** A `uint16_t` stored into a `uint8_t`: its low byte. */
  function LowByte(v: U16): Byte { v % TWO8 }

  /** The 16-bit value a big-endian byte pair encodes. */
  function Word(hi: Byte, lo: Byte): U16 { hi * TWO8 + lo }

  /** Big-endian packing of two coordinates, as the window commands carry them. */
  function PackPair(a: U16, b: U16): (p: seq<Byte>)
    ensures |p| == 4
    ensures Word(p[0], p[1]) == a && Word(p[2], p[3]) == b
  {
    [HighByte(a), LowByte(a), HighByte(b), LowByte(b)]
  }

  /** The C product `w * h * 2` of two `uint16_t` values is computed in 32-bit
      `int`. Signed overflow is undefined in C; the model takes it to wrap, as
      two's-complement targets do, and the result is handed over as an
      unsigned byte count;
      halving it gives the number of 16-bit pixels that are sent. */
  function PixelCount(w: U16, h: U16): (n: nat)
    ensures n <= w * h
    ensures w * h < TWO31 ==> n == w * h
  {
    (w * h) % TWO31
  }

  /** Reducing modulo 2^16 ignores any earlier reduction of the same value. */
  lemma {:induction false} ToU16OfSum(a: int, b: int)
    ensures ToU16(ToU16(a) + b) == ToU16(a + b)
    ensures ToU16(ToI16(a) + b) == ToU16(a + b)
  {
    var q := a / TWO16;
    assert a == q * TWO16 + ToU16(a);
    assert a + b == q * TWO16 + (ToU16(a) + b);
    ModuloShift(ToU16(a) + b, q);
    var m := ToI16(a);
    assert m == ToU16(a) || m == ToU16(a) - TWO16;
    if m == ToU16(a) - TWO16 {
      ModuloShift(m + b, 1);
    }
  }

  lemma ModuloShift(v: int, q: int)
    ensures (v + q * TWO16) % TWO16 == v % TWO16
  {
    var r := v % TWO16;
    assert v == (v / TWO16) * TWO16 + r;
    assert v + q * TWO16 == (v / TWO16 + q) * TWO16 + r;
  }

  /** Euclidean division: `v + q*m` with `0 <= v < m` leaves remainder `v`. */
  lemma RemainderOfMultiplePlus(v: int, q: int, m: int)
    requires 0 <= v < m
    ensures (q * m + v) % m == v
  {
    var n := q * m + v;
    var r := n % m;
    var d := n / m;
    assert n == d * m + r;
    assert (d - q) * m == v - r;
    if d > q {
      MulMonotone(1, d - q, m);
    } else if d < q {
      MulMonotone(1, q - d, m);
    }
  }

  lemma MulMonotone(a: nat, b: nat, c: nat)
    requires a <= b
    ensures a * c <= b * c
  {
    assert b * c == a * c + (b - a) * c;
  }

  /** Two's-complement wrap of an `int16_t` cursor is the same as wrapping
      the exact sum once. */
  lemma {:induction false} ToI16OfSum(a: int, b: int)
    ensures ToI16(ToI16(a) + b) == ToI16(a + b)
  {
    ToU16OfSum(a, b);
    assert (ToI16(a) + b) % TWO16 == ToU16(ToI16(a) + b);
  }

  /** The difference of two coordinates that were each wrapped to 16 bits,
      wrapped again, is the true difference whenever that fits. */
  lemma {:induction false} WrappedDifference(a: int, d: nat)
    requires d < TWO16
    ensures ToU16(ToU16(a + d) - ToU16(a)) == d
  {
    ToU16OfSum(a, d);
    var q := (a + d) / TWO16;
    var p := a / TWO16;
    assert a + d == q * TWO16 + ToU16(a + d);
    assert a == p * TWO16 + ToU16(a);
    assert ToU16(a + d) - ToU16(a) == d + (p - q) * TWO16;
    ModuloShift(d, p - q);
  }

  // ---- bits of a byte ----------------------------------------------------

  /** `b` shifted right `j` times, one position per step as `line >>= 1` does. */
  function Shr(b: nat, j: nat): nat
  {
    if j == 0 then b else Shr(b, j - 1) / 2
  }

  /** Bit `j` of `b` (bit 0 is the least significant). */
  predicate Bit(b: nat, j: nat)
  {
    Shr(b, j) % 2 == 1
  }

  /** Number of set bits of `b`, counted from the least significant end. */
  function Popcount(b: nat): nat
  {
    if b == 0 then 0 else b % 2 + Popcount(b / 2)
  }

  /** Number of set bits among bits 0 .. n-1 of `b`. */
  function CountBits(b: nat, n: nat): nat
  {
    if n == 0 then 0 else CountBits(b, n - 1) + (if Bit(b, n - 1) then 1 else 0)
  }

  function Pow2(n: nat): nat
  {
    if n == 0 then 1 else 2 * Pow2(n - 1)
  }

  lemma {:induction false} ShrOfHalf(b: nat, j: nat)
    ensures Shr(b, j + 1) == Shr(b / 2, j)
  {
    if j > 0 {
      ShrOfHalf(b, j - 1);
    }
  }

  lemma {:induction false} CountBitsOfHalf(b: nat, n: nat)
    ensures CountBits(b, n + 1) == b % 2 + CountBits(b / 2, n)
  {
    if n > 0 {
      CountBitsOfHalf(b, n - 1);
      ShrOfHalf(b, n - 1);
    }
  }

  /** Counting bit by bit, as the glyph loop does, agrees with the population
      count whenever all set bits lie below position n. */
  lemma {:induction false} CountBitsIsPopcount(b: nat, n: nat)
    requires b < Pow2(n)
    ensures CountBits(b, n) == Popcount(b)
  {
    if n == 0 {
      assert b == 0;
    } else {
      CountBitsOfHalf(b, n - 1);
      CountBitsIsPopcount(b / 2, n - 1);
    }
  }

  lemma ByteBelowPow2(b: Byte)
    ensures b < Pow2(8)
  {
    assert Pow2(8) == 256;
  }
}
