/** Fixed-width integers of the C++ layer. Dafny integers are unbounded, so
    every truncating cast or wrapping addition of the source is written out
    with one of the functions below. */
module Bytes {

  type byte = x: int | 0 <= x < 0x100

  const U16_LIMIT: int := 0x1_0000
  const U32_LIMIT: int := 0x1_0000_0000

  /** A value held in a uint32_t field */
  type u32 = x: int | 0 <= x < 0x1_0000_0000

  /** static_cast<uint8_t>(x) */
  function U8(x: int): (r: byte)
    ensures 0 <= x < 0x100 ==> r == x
  {
    x % 0x100
  }

  /** Arithmetic in uint16_t (mfxU16) */
  function U16(x: int): (r: int)
    ensures 0 <= r < U16_LIMIT
    ensures 0 <= x < U16_LIMIT ==> r == x
  {
    x % U16_LIMIT
  }

  /** Arithmetic in uint32_t */
  function U32(x: int): (r: int)
    ensures 0 <= r < U32_LIMIT
    ensures 0 <= x < U32_LIMIT ==> r == x
  {
    x % U32_LIMIT
  }

  /** The remainder of C++'s `%` on int, which truncates toward zero: its sign
      follows the dividend. */
  function CRem(a: int, m: nat): (r: int)
    requires m > 0
    ensures a >= 0 ==> 0 <= r < m
    ensures a < 0 ==> -(m as int) < r <= 0
  {
    if a >= 0 then a % m else -((-a) % m)
  }

  /** Big-endian 16-bit value of two bytes */
  function BE16(hi: byte, lo: byte): (r: int)
    ensures 0 <= r < U16_LIMIT
  {
    hi as int * 0x100 + lo
  }

  /** The two bytes of a big-endian 16-bit field */
  function EncodeBE16(v: int): (r: seq<byte>)
    requires 0 <= v < U16_LIMIT
    ensures |r| == 2 && BE16(r[0], r[1]) == v
  {
    [v / 0x100, v % 0x100]
  }

  /** The four bytes of a big-endian 32-bit field */
  function EncodeBE32(v: int): (r: seq<byte>)
    requires 0 <= v < U32_LIMIT
    ensures |r| == 4 && DecodeBE32(r) == v
  {
    BE32Digits(v);
    [v / 0x100_0000, v / 0x1_0000 % 0x100, v / 0x100 % 0x100, v % 0x100]
  }

  /** The base-256 digits of a 32-bit value. */
  lemma BE32Digits(v: int)
    requires 0 <= v < U32_LIMIT
    ensures v / 0x100_0000 < 0x100
    ensures ((v / 0x100_0000 * 0x100 + v / 0x1_0000 % 0x100) * 0x100 + v / 0x100 % 0x100) * 0x100 + v % 0x100 == v
  {
    var q1 := v / 0x100;
    DivDiv(v, 0x100, 0x100);
    DivDiv(v, 0x1_0000, 0x100);
    var q2, q3 := q1 / 0x100, q1 / 0x100 / 0x100;
    assert q2 == v / 0x1_0000;
    assert q3 == v / 0x100_0000;
    assert q2 == q3 * 0x100 + q2 % 0x100;
    assert q1 == q2 * 0x100 + q1 % 0x100;
    assert v == q1 * 0x100 + v % 0x100;
  }

  function DecodeBE32(s: seq<byte>): (r: int)
    requires |s| == 4
    ensures 0 <= r < U32_LIMIT
  {
    ((s[0] as int * 0x100 + s[1]) * 0x100 + s[2]) * 0x100 + s[3]
  }

  function Pow2(n: nat): (r: nat)
    ensures r >= 1
  {
    if n == 0 then 1 else 2 * Pow2(n - 1)
  }

  lemma Pow2Small()
    ensures Pow2(0) == 1 && Pow2(1) == 2 && Pow2(2) == 4 && Pow2(3) == 8
    ensures Pow2(4) == 16 && Pow2(5) == 32 && Pow2(6) == 64 && Pow2(7) == 128
    ensures Pow2(8) == 0x100 && Pow2(16) == U16_LIMIT && Pow2(32) == U32_LIMIT
  {
    Pow2Add(8, 8);
    Pow2Add(16, 16);
  }

  lemma Pow2Of32()
    ensures Pow2(32) == U32_LIMIT
  {
    Pow2Small();
  }

  lemma Pow2Of8()
    ensures Pow2(0) == 1 && Pow2(8) == 0x100
  {
    Pow2Small();
  }

  /** A field of at most eight bits fits a byte. */
  lemma Pow2AtMostByte(n: nat)
    requires n <= 8
    ensures Pow2(n) <= 0x100
  {
    Pow2Small();
    Pow2Monotonic(n, 8);
  }

  lemma {:induction false} Pow2Add(a: nat, b: nat)
    ensures Pow2(a + b) == Pow2(a) * Pow2(b)
  {
    if a > 0 {
      Pow2Add(a - 1, b);
    }
  }

  lemma {:induction false} Pow2Monotonic(a: nat, b: nat)
    requires a <= b
    ensures Pow2(a) <= Pow2(b)
  {
    if a < b {
      Pow2Monotonic(a, b - 1);
    }
  }

  // Division facts the solver does not find on its own.

  lemma {:induction false} MulAtLeast(d: nat, k: nat)
    requires k >= 1
    ensures d * k >= d
  {
    if k > 1 {
      MulAtLeast(d, k - 1);
      assert d * k == d * (k - 1) + d;
    }
  }
  /** Multiplication by a natural number keeps the order. */
  lemma MulMono(a: nat, b: nat, c: nat)
    requires a <= b
    ensures a * c <= b * c
  {
  }

  /** Multiplication distributes over addition. */
  lemma Distribute(a: nat, b: nat, c: nat)
    ensures (a + b) * c == a * c + b * c
  {
  }

  /** Quotient and remainder are determined by a == d q + r, 0 <= r < d. */
  lemma DivModUnique(a: int, d: int, q: int, r: int)
    requires d > 0 && 0 <= r < d && a == d * q + r
    ensures a / d == q && a % d == r
  {
    var q0, r0 := a / d, a % d;
    if q > q0 {
      MulAtLeast(d, q - q0);
      assert false;
    } else if q < q0 {
      MulAtLeast(d, q0 - q);
      assert false;
    }
  }
  /** Shifting right by b then by c is shifting right by b c. */
  lemma DivDiv(a: nat, b: nat, c: nat)
    requires b > 0 && c > 0
    ensures a / b / c == a / (b * c)
  {
    var q, r := a / b, a % b;
    var q2, r2 := q / c, q % c;
    assert a == b * q + r;
    assert q == c * q2 + r2;
    assert b * q == b * c * q2 + b * r2;
    MulAtLeast(b, c - r2);
    assert b * c == b * r2 + b * (c - r2);
    DivModUnique(a, b * c, q2, b * r2 + r);
  }
  /** The low n bits of x are its low bit under the next n - 1 bits. */
  lemma ModSplit(x: nat, n: nat)
    requires n > 0
    ensures x % Pow2(n) == 2 * (x / 2 % Pow2(n - 1)) + x % 2
  {
    var Q, R := x / 2 / Pow2(n - 1), x / 2 % Pow2(n - 1);
    assert x / 2 == Pow2(n - 1) * Q + R;
    assert x == Pow2(n) * Q + (2 * R + x % 2);
    DivModUnique(x, Pow2(n), Q, 2 * R + x % 2);
  }

  /** The n bits of b above its m low bits: the top n - 1 of them, then one. */
  lemma ShiftMaskStep(b: nat, m: nat, n: nat)
    requires n > 0
    ensures b / Pow2(m) % Pow2(n) == 2 * (b / Pow2(m + 1) % Pow2(n - 1)) + b / Pow2(m) % 2
  {
    var p := Pow2(m);
    assert Pow2(m + 1) == p * 2;
    DivDiv(b, p, 2);
    ModSplit(b / p, n);
  }
}
