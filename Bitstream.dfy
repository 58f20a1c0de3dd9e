/** The bit cursor used by the H.264/H.265 parameter-set parsers: bit-at-a-time
    reads, fixed-width fields, unsigned and signed Exp-Golomb codes (section
    9.1 of ITU-T H.264) and removal of emulation-prevention bytes (section
    7.4.1 of ITU-T H.264).

    The reader's position is specified against `BitsOf(data)`, the data as a
    sequence of bits, most significant bit of each byte first; the
    Exp-Golomb decoders are specified by pure functions over that sequence,
    and those functions are shown to invert an Exp-Golomb encoder. */
module Bitstream {
  import opened Wrappers
  import opened Bytes

  type bit = x: int | 0 <= x < 2

  const READ_PAST_END := "read_bit: not enough data"
  const TOO_MANY_BITS := "read_bits: n > 32"
  const CODE_TOO_LONG := "read_ue: Exp-Golomb code too long"

  // ---------------------------------------------------------------------------
  // Bits of a byte string

  /** Bit k of b, counting from the least significant. */
  function LowBit(b: nat, k: nat): bit
  {
    if k == 0 then b % 2 else LowBit(b / 2, k - 1)
  }

  lemma {:induction false} LowBitIs(b: nat, k: nat)
    ensures LowBit(b, k) == b / Pow2(k) % 2
  {
    if k > 0 {
      LowBitIs(b / 2, k - 1);
      DivDiv(b, 2, Pow2(k - 1));
    }
  }

  /** Bit `p` of the data, most significant bit of each byte first. */
  function BitOf(data: seq<byte>, p: nat): bit
    requires p < 8 * |data|
    decreases p
  {
    if p < 8 then LowBit(data[0], 7 - p) else BitOf(data[1..], p - 8)
  }

  function BitsOf(data: seq<byte>): (r: seq<bit>)
    ensures |r| == 8 * |data|
  {
    seq(8 * |data|, p requires 0 <= p < 8 * |data| => BitOf(data, p))
  }

  lemma {:induction false} BitsOfByte(data: seq<byte>, k: nat, j: nat)
    requires k < |data| && j < 8
    ensures BitsOf(data)[8 * k + j] == LowBit(data[k], 7 - j)
  {
    if k > 0 {
      BitsOfByte(data[1..], k - 1, j);
      assert BitOf(data, 8 * k + j) == BitOf(data[1..], 8 * (k - 1) + j);
    }
  }

  /** Bit `p` is what the reader extracts with `(data[p / 8] >> (7 - p % 8)) & 1`. */
  lemma BitsOfAt(data: seq<byte>, p: nat)
    requires p < 8 * |data|
    ensures BitsOf(data)[p] == data[p / 8] / Pow2(7 - p % 8) % 2
  {
    BitsOfByte(data, p / 8, p % 8);
    LowBitIs(data[p / 8], 7 - p % 8);
  }

  /** Value of the `n` bits starting at `p`, most significant first. */
  function BitsValue(s: seq<bit>, p: nat, n: nat): nat
    requires p + n <= |s|
  {
    if n == 0 then 0 else 2 * BitsValue(s, p, n - 1) + s[p + n - 1]
  }

  /** An n-bit field never reaches 2^n, so a 32-bit read fits a uint32_t. */
  lemma {:induction false} BitsValueBound(s: seq<bit>, p: nat, n: nat)
    requires p + n <= |s|
    ensures BitsValue(s, p, n) < Pow2(n)
  {
    if n > 0 {
      BitsValueBound(s, p, n - 1);
    }
  }

  /** Splitting off the most significant bit of a field. */
  lemma {:induction false} BitsValueHead(s: seq<bit>, p: nat, n: nat)
    requires p + n + 1 <= |s|
    ensures BitsValue(s, p, n + 1) == s[p] * Pow2(n) + BitsValue(s, p + 1, n)
  {
    if n > 0 {
      BitsValueHead(s, p, n - 1);
    }
  }

  /** A field's value depends only on the bits it covers. */
  lemma {:induction false} BitsValueWindow(s: seq<bit>, p: nat, t: seq<bit>, q: nat, n: nat)
    requires p + n <= |s| && q + n <= |t|
    requires forall i :: p <= i < p + n ==> s[i] == t[q + (i - p)]
    ensures BitsValue(s, p, n) == BitsValue(t, q, n)
  {
    if n > 0 {
      BitsValueWindow(s, p, t, q, n - 1);
    }
  }

  /** A field of n bits starting j bits into byte k is that byte shifted
      right by 8 - j - n and masked to n bits. */
  lemma {:induction false} ByteField(data: seq<byte>, k: nat, j: nat, n: nat)
    requires k < |data| && j + n <= 8
    ensures BitsValue(BitsOf(data), 8 * k + j, n) == data[k] / Pow2(8 - j - n) % Pow2(n)
  {
    if n > 0 {
      var p, m, b := 8 * k + j, 8 - j - n, data[k];
      var s := BitsOf(data);
      ByteField(data, k, j, n - 1);
      assert (p + n - 1) / 8 == k && (p + n - 1) % 8 == j + n - 1;
      BitsOfAt(data, p + n - 1);
      assert s[p + n - 1] == b / Pow2(m) % 2;
      assert BitsValue(s, p, n - 1) == b / Pow2(m + 1) % Pow2(n - 1);
      ShiftMaskStep(b, m, n);
    }
  }

  /** Eight bits read at a byte boundary give back that byte. */
  lemma ByteValue(data: seq<byte>, k: nat)
    requires k < |data|
    ensures BitsValue(BitsOf(data), 8 * k, 8) == data[k]
  {
    ByteField(data, k, 0, 8);
    var b: int := data[k];
    Pow2Of8();
    DivModUnique(b, 1, b, 0);
    DivModUnique(b, 0x100, 0, b);
  }

  // ---------------------------------------------------------------------------
  // Exp-Golomb codes, as pure functions of the bit sequence

  /** Counts the zero bits before the first 1 from `p`, continuing from `lz`
      zeros already counted: read_ue gives up after 32 zeros, and a read at
      the end of the data fails. */
  function LeadingZeros(s: seq<bit>, p: nat, lz: nat): Result<nat>
    requires lz <= 31
    decreases 31 - lz
  {
    if p + lz >= |s| then Err(READ_PAST_END)
    else if s[p + lz] == 1 then Ok(lz)
    else if lz == 31 then Err(CODE_TOO_LONG)
    else LeadingZeros(s, p, lz + 1)
  }

  lemma {:induction false} LeadingZerosBound(s: seq<bit>, p: nat, lz: nat)
    requires lz <= 31 && LeadingZeros(s, p, lz).Ok?
    ensures lz <= LeadingZeros(s, p, lz).value <= 31
    ensures p + LeadingZeros(s, p, lz).value < |s| && s[p + LeadingZeros(s, p, lz).value] == 1
    ensures forall i :: p + lz <= i < p + LeadingZeros(s, p, lz).value ==> s[i] == 0
    decreases 31 - lz
  {
    if s[p + lz] != 1 {
      LeadingZerosBound(s, p, lz + 1);
    }
  }

  /** ue(v): the decoded value and the position after the code. */
  function Ue(s: seq<bit>, p: nat): Result<(nat, nat)>
  {
    var lz :- LeadingZeros(s, p, 0);
    if lz == 0 then Ok((0, p + 1))
    else
      var (suffix, q) :- BitsAt(s, p + lz + 1, lz);
      Ok((Pow2(lz) - 1 + suffix, q))
  }

  /** Two ue(v) in a row, such as a width and a height. */
  function UePairAt(s: seq<bit>, p: nat): Result<((nat, nat), nat)>
  {
    var (a, p1) :- Ue(s, p);
    var (b, p2) :- Ue(s, p1);
    Ok(((a, b), p2))
  }

  /** se(v) from the ue(v) value: odd values are positive, even ones negative. */
  function SeOfUe(v: nat): int
  {
    if v % 2 == 1 then (v + 1) / 2 else -(v / 2)
  }

  function Se(s: seq<bit>, p: nat): Result<(int, nat)>
  {
    var (v, q) :- Ue(s, p);
    Ok((SeOfUe(v), q))
  }

  /** The code a successful ue(v) read: lz zeros, a 1, and an lz-bit suffix. */
  lemma UeCode(s: seq<bit>, p: nat)
    requires Ue(s, p).Ok?
    ensures LeadingZeros(s, p, 0).Ok?
    ensures var lz := LeadingZeros(s, p, 0).value;
      lz <= 31 && p + 2 * lz + 1 <= |s| && s[p + lz] == 1 &&
      Ue(s, p).value == (Pow2(lz) - 1 + BitsValue(s, p + lz + 1, lz), p + 2 * lz + 1)
    ensures forall i :: p <= i < p + LeadingZeros(s, p, 0).value ==> s[i] == 0
  {
    LeadingZerosBound(s, p, 0);
    var lz := LeadingZeros(s, p, 0).value;
    if lz == 0 {
      assert BitsValue(s, p + 1, 0) == 0;
    }
  }

  /** 2^lz - 1 plus an lz-bit suffix lies below 2^(lz+1) - 1. */
  lemma UeValueRange(lz: nat, suffix: nat)
    requires lz <= 31 && suffix < Pow2(lz)
    ensures Pow2(lz) - 1 + suffix < Pow2(lz + 1) - 1 <= U32_LIMIT - 1
  {
    Pow2Monotonic(lz + 1, 32);
    Pow2Of32();
  }

  /** A successful ue(v) is 2^lz - 1 plus the lz-bit suffix that follows lz
      zeros and a 1; it consumes 2 lz + 1 bits and its value fits a uint32_t. */
  lemma UeShape(s: seq<bit>, p: nat)
    requires Ue(s, p).Ok?
    ensures LeadingZeros(s, p, 0).Ok?
    ensures var lz := LeadingZeros(s, p, 0).value;
      lz <= 31 && Ue(s, p).value.1 == p + 2 * lz + 1 && Ue(s, p).value.1 <= |s| &&
      s[p + lz] == 1 &&
      Ue(s, p).value.0 == Pow2(lz) - 1 + BitsValue(s, p + lz + 1, lz) &&
      Pow2(lz) - 1 <= Ue(s, p).value.0 < Pow2(lz + 1) - 1
    ensures forall i :: p <= i < p + LeadingZeros(s, p, 0).value ==> s[i] == 0
    ensures Ue(s, p).value.0 < U32_LIMIT - 1
  {
    UeCode(s, p);
    var lz := LeadingZeros(s, p, 0).value;
    BitsValueBound(s, p + lz + 1, lz);
    UeValueRange(lz, BitsValue(s, p + lz + 1, lz));
  }

  // An encoder for ue(v), the partner of Ue.

  function Log2(x: nat): nat
    requires x >= 1
  {
    if x == 1 then 0 else 1 + Log2(x / 2)
  }

  lemma {:induction false} Log2Bounds(x: nat)
    requires x >= 1
    ensures Pow2(Log2(x)) <= x < Pow2(Log2(x) + 1)
  {
    if x > 1 {
      Log2Bounds(x / 2);
    }
  }

  function Zeros(n: nat): (r: seq<bit>)
    ensures |r| == n && forall k :: 0 <= k < n ==> r[k] == 0
  {
    if n == 0 then [] else Zeros(n - 1) + [0]
  }

  /** The n low bits of x, most significant first. */
  function Binary(x: nat, n: nat): (r: seq<bit>)
    ensures |r| == n
  {
    if n == 0 then [] else Binary(x / 2, n - 1) + [x % 2]
  }

  lemma {:induction false} BinaryAt(x: nat, n: nat, j: nat)
    requires j < n
    ensures Binary(x, n)[j] == if j == n - 1 then x % 2 else Binary(x / 2, n - 1)[j]
  {
  }

  lemma {:induction false} BinaryValue(x: nat, n: nat, s: seq<bit>, p: nat)
    requires x < Pow2(n) && p + n <= |s| && s[p..p + n] == Binary(x, n)
    ensures BitsValue(s, p, n) == x
  {
    if n > 0 {
      var w, hi := s[p..p + n], Binary(x / 2, n - 1);
      assert w == hi + [x % 2];
      assert w[..n - 1] == hi;
      assert s[p..p + n - 1] == w[..n - 1];
      assert s[p + n - 1] == w[n - 1] == x % 2;
      BinaryValue(x / 2, n - 1, s, p);
    }
  }

  /** ue(v) code word: lz zeros followed by v + 1 written on lz + 1 bits. */
  function EncodeUe(v: nat): (r: seq<bit>)
  {
    Zeros(Log2(v + 1)) + Binary(v + 1, Log2(v + 1) + 1)
  }

  lemma {:induction false} LeadingZerosOfCode(s: seq<bit>, lz: nat, k: nat)
    requires k <= lz <= 31 && lz < |s| && s[lz] == 1
    requires forall j :: 0 <= j < lz ==> s[j] == 0
    ensures LeadingZeros(s, 0, k) == Ok(lz)
    decreases lz - k
  {
    if k < lz {
      LeadingZerosOfCode(s, lz, k + 1);
    }
  }

  lemma EncodeUeShape(v: nat)
    requires v < U32_LIMIT - 1
    ensures var lz := Log2(v + 1);
      lz <= 31 && |EncodeUe(v)| == 2 * lz + 1 && v + 1 < Pow2(lz + 1) && Pow2(lz) <= v + 1 &&
      EncodeUe(v)[..lz] == Zeros(lz) && EncodeUe(v)[lz..] == Binary(v + 1, lz + 1)
  {
    var lz := Log2(v + 1);
    Log2Bounds(v + 1);
    if lz >= 32 {
      Pow2Monotonic(32, lz);
      Pow2Of32();
    }
    var zeros, bin := Zeros(lz), Binary(v + 1, lz + 1);
    assert EncodeUe(v) == zeros + bin;
    assert (zeros + bin)[..lz] == zeros && (zeros + bin)[lz..] == bin;
  }

  /** Ue once the zeros are counted: the value and end of the code word. */
  lemma UeOfZeros(s: seq<bit>, p: nat, lz: nat)
    requires LeadingZeros(s, p, 0) == Ok(lz) && p + 2 * lz + 1 <= |s|
    ensures Ue(s, p) == Ok((Pow2(lz) - 1 + BitsValue(s, p + lz + 1, lz), p + 2 * lz + 1))
  {
    LeadingZerosBound(s, p, 0);
    if lz == 0 {
      assert BitsValue(s, p + 1, 0) == 0 && Pow2(0) == 1;
    }
  }

  /** The bit after the zeros of a code word is 1, and the rest is v + 1 - 2^lz. */
  lemma CodeSuffix(v: nat, s: seq<bit>, lz: nat)
    requires Pow2(lz) <= v + 1 < Pow2(lz + 1) && 2 * lz + 1 <= |s|
    requires s[lz..2 * lz + 1] == Binary(v + 1, lz + 1)
    ensures s[lz] == 1 && BitsValue(s, lz + 1, lz) == v + 1 - Pow2(lz)
  {
    BinaryValue(v + 1, lz + 1, s, lz);
    BitsValueHead(s, lz, lz);
    BitsValueBound(s, lz + 1, lz);
  }

  /** Decoding the code word of any uint32 value below 2^32 - 1 gives that
      value back and stops right after the code word, whatever follows. */
  lemma UeRoundTrip(v: nat, rest: seq<bit>)
    requires v < U32_LIMIT - 1
    ensures Ue(EncodeUe(v) + rest, 0) == Ok((v, |EncodeUe(v)|))
  {
    var lz := Log2(v + 1);
    var code := EncodeUe(v);
    var s := code + rest;
    EncodeUeShape(v);
    assert s[lz..2 * lz + 1] == code[lz..];
    CodeSuffix(v, s, lz);
    forall j | 0 <= j < lz
      ensures s[j] == 0
    {
      assert s[j] == code[..lz][j] == Zeros(lz)[j];
    }
    LeadingZerosOfCode(s, lz, 0);
    UeOfZeros(s, 0, lz);
  }

  /** The ue(v) value that carries the se(v) value k. */
  function UeOfSe(k: int): nat
  {
    if k > 0 then 2 * k - 1 else -2 * k
  }

  lemma SeUeInverse(k: int, v: nat)
    ensures SeOfUe(UeOfSe(k)) == k
    ensures UeOfSe(SeOfUe(v)) == v
  {
  }

  /** Decoding the code word of any int32 value (other than the minimum) gives it back. */
  lemma SeRoundTrip(k: int, rest: seq<bit>)
    requires -0x8000_0000 < k < 0x8000_0000
    ensures Se(EncodeUe(UeOfSe(k)) + rest, 0) == Ok((k, |EncodeUe(UeOfSe(k))|))
  {
    UeRoundTrip(UeOfSe(k), rest);
    SeUeInverse(k, 0);
  }

  // ---------------------------------------------------------------------------
  // Fixed-width reads as pure functions of a bit position: each gives the
  // value read and the position after it.

  function BitAt(s: seq<bit>, p: nat): Result<(bit, nat)>
  {
    if p < |s| then Ok((s[p], p + 1)) else Err(READ_PAST_END)
  }

  function BitsAt(s: seq<bit>, p: nat, n: nat): Result<(nat, nat)>
  {
    if n > 32 then Err(TOO_MANY_BITS)
    else if p + n <= |s| then Ok((BitsValue(s, p, n), p + n))
    else Err(READ_PAST_END)
  }

  function SkipAt(s: seq<bit>, p: nat, n: nat): Result<nat>
  {
    if p + n <= |s| then Ok(p + n) else Err(READ_PAST_END)
  }

  /** The value part of a read, dropping the position. */
  function ValueOf<T>(c: Result<(T, nat)>): Result<T>
  {
    match c
    case Ok((v, _)) => Ok(v)
    case Err(e) => Err(e)
  }

  // ---------------------------------------------------------------------------
  // The reader

  /** `bits` agrees with the bits of `data` from position i on. The reader
      keeps this form of the link, which the solver unfolds one position at a
      time, rather than the equation with `BitsOf`. */
  /** The reader's bits are those of its bytes. The link is looked up
      only where a bit of the data is named, so that it stays out of the way
      of every proof that only moves the position. */
  ghost predicate BitsMatch(data: seq<byte>, bits: seq<bit>)
  {
    |bits| == 8 * |data| && forall i {:trigger BitOf(data, i)} :: 0 <= i < |bits| ==> bits[i] == BitOf(data, i)
  }

  class BitstreamReader {
    const data: seq<byte>
    ghost const bits: seq<bit>
    var bytePos: nat
    var bitPos: nat

    ghost predicate Valid()
      reads this
    {
      BitsMatch(data, bits) &&
      bitPos < 8 && bytePos <= |data| && (bytePos == |data| ==> bitPos == 0)
    }

    /** Number of bits consumed so far. */
    function Pos(): nat
      reads this
    {
      8 * bytePos + bitPos
    }

    constructor (data: seq<byte>)
      ensures Valid() && this.data == data && bits == BitsOf(data) && Pos() == 0
    {
      assert BitsMatch(data, BitsOf(data));
      this.data := data;
      this.bits := BitsOf(data);
      bytePos := 0;
      bitPos := 0;
    }

    lemma PosInBits()
      requires Valid()
      ensures Pos() <= |bits| && (Pos() < |bits| <==> bytePos < |data|)
    {
    }

    /** read_bit: fails exactly when every byte has been consumed; otherwise
        the next bit, with the bit offset wrapping into the next byte at 8. */
    method ReadBit() returns (r: Result<bit>)
      requires Valid()
      modifies this
      ensures Valid()
      ensures r.Err? <==> old(bytePos) >= |data|
      ensures r == ValueOf(BitAt(bits, old(Pos())))
      ensures r.Ok? ==> Pos() == old(Pos()) + 1
      ensures r.Err? ==> Pos() == old(Pos())
    {
      PosInBits();
      if bytePos >= |data| {
        return Err(READ_PAST_END);
      }

      assert Pos() / 8 == bytePos && Pos() % 8 == bitPos;
      assert bits[Pos()] == BitOf(data, Pos());
      BitsOfAt(data, Pos());
      var b := data[bytePos] / Pow2(7 - bitPos) % 2;
      bitPos := bitPos + 1;
      if bitPos == 8 {
        bitPos := 0;
        bytePos := bytePos + 1;
      }
      r := Ok(b);
    }

    /** read_bits: n > 32 is refused; otherwise the n bits that follow as a
        big-endian number. */
    method ReadBits(n: nat) returns (r: Result<nat>)
      requires Valid()
      modifies this
      ensures Valid()
      ensures r == ValueOf(BitsAt(bits, old(Pos()), n))
      ensures r.Ok? ==> Pos() == old(Pos()) + n
      ensures r.Ok? && n <= 8 ==> r.value < 0x100
      ensures n > 32 ==> Pos() == old(Pos())
    {
      if n > 32 {
        return Err(TOO_MANY_BITS);
      }
      ghost var p0 := Pos();
      var result: nat := 0;
      var i := 0;
      while i < n
        invariant Valid() && i <= n && Pos() == p0 + i && p0 + i <= |bits|
        invariant result == BitsValue(bits, p0, i)
      {
        PosInBits();
        var b :- ReadBit();
        result := 2 * result + b;
        i := i + 1;
      }
      if n <= 8 {
        BitsValueBound(bits, p0, n);
        Pow2AtMostByte(n);
      }
      r := Ok(result);
    }

    method SkipBits(n: nat) returns (r: Result<()>)
      requires Valid()
      modifies this
      ensures Valid()
      ensures r.Ok? <==> SkipAt(bits, old(Pos()), n).Ok?
      ensures r.Err? ==> r.error == SkipAt(bits, old(Pos()), n).error
      ensures r.Ok? ==> Pos() == SkipAt(bits, old(Pos()), n).value
    {
      ghost var p0 := Pos();
      var i := 0;
      while i < n
        invariant Valid() && i <= n && Pos() == p0 + i && p0 + i <= |bits|
      {
        PosInBits();
        var _ :- ReadBit();
        i := i + 1;
      }
      r := Ok(());
    }

    /** The zero-counting loop of read_ue: reads up to and including the
        first 1 bit, giving up after 32 zeros. */
    method CountLeadingZeros() returns (r: Result<nat>)
      requires Valid()
      modifies this
      ensures Valid()
      ensures r == LeadingZeros(bits, old(Pos()), 0)
      ensures r.Ok? ==> Pos() == old(Pos()) + r.value + 1
    {
      ghost var p0 := Pos();
      var lz := 0;
      while true
        invariant Valid() && lz <= 31 && Pos() == p0 + lz
        invariant LeadingZeros(bits, p0, lz) == LeadingZeros(bits, p0, 0)
        decreases 31 - lz
      {
        PosInBits();
        var b :- ReadBit();
        if b != 0 {
          return Ok(lz);
        }
        if lz == 31 {
          return Err(CODE_TOO_LONG);
        }
        lz := lz + 1;
      }
    }

    /** read_ue: counts leading zeros, then reads as many suffix bits. */
    method ReadUe() returns (r: Result<nat>)
      requires Valid()
      modifies this
      ensures Valid()
      ensures r == ValueOf(Ue(bits, old(Pos())))
      ensures r.Ok? ==> Pos() == Ue(bits, old(Pos())).value.1
    {
      var lz :- CountLeadingZeros();
      if lz == 0 {
        return Ok(0);
      }
      var suffix :- ReadBits(lz);
      r := Ok(Pow2(lz) - 1 + suffix);
    }

    /** Two read_ue calls in a row. */
    method ReadUePair() returns (r: Result<(nat, nat)>)
      requires Valid()
      modifies this
      ensures Valid()
      ensures r == ValueOf(UePairAt(bits, old(Pos())))
      ensures r.Ok? ==> Pos() == UePairAt(bits, old(Pos())).value.1
    {
      var a :- ReadUe();
      var b :- ReadUe();
      r := Ok((a, b));
    }

    /** read_se: the ue value mapped to odd positive, even non-positive. */
    method ReadSe() returns (r: Result<int>)
      requires Valid()
      modifies this
      ensures Valid()
      ensures r == ValueOf(Se(bits, old(Pos())))
      ensures r.Ok? ==> Pos() == Se(bits, old(Pos())).value.1
    {
      var v :- ReadUe();
      if v % 2 == 1 {
        r := Ok((v + 1) / 2);
      } else {
        var half: int := v / 2;
        r := Ok(-half);
      }
    }

    function RemainingBits(): (n: nat)
      reads this
      requires Valid()
      ensures n == |bits| - Pos()
    {
      (|data| - bytePos) * 8 - bitPos
    }

    function HasMoreData(): (b: bool)
      reads this
      requires Valid()
      ensures b <==> Pos() < |bits|
    {
      RemainingBits() > 0
    }

    method AlignToByte()
      requires Valid()
      modifies this
      ensures Valid() && bitPos == 0
      ensures old(Pos()) <= Pos() < old(Pos()) + 8
      ensures old(bitPos) == 0 ==> Pos() == old(Pos())
    {
      if bitPos != 0 {
        bitPos := 0;
        bytePos := bytePos + 1;
      }
    }
  }

  // ---------------------------------------------------------------------------
  // Emulation prevention

  predicate EpbAt(d: seq<byte>, i: int)
  {
    0 <= i && i + 2 < |d| && d[i] == 0 && d[i + 1] == 0 && d[i + 2] == 3
  }

  /** The RBSP of a NAL payload: each 0x03 that follows a 00 00 pair, scanning
      left to right, is dropped. */
  function RemoveEpb(d: seq<byte>): seq<byte>
  {
    if d == [] then []
    else if EpbAt(d, 0) then [0, 0] + RemoveEpb(d[3..])
    else [d[0]] + RemoveEpb(d[1..])
  }

  /** One step of the scan from position i. */
  lemma RemoveEpbFrom(d: seq<byte>, i: nat)
    requires i < |d|
    ensures EpbAt(d, i) ==> RemoveEpb(d[i..]) == [0, 0] + RemoveEpb(d[i + 3..])
    ensures !EpbAt(d, i) ==> RemoveEpb(d[i..]) == [d[i]] + RemoveEpb(d[i + 1..])
  {
    var t := d[i..];
    assert EpbAt(d, i) <==> EpbAt(t, 0);
    if EpbAt(d, i) {
      assert t[3..] == d[i + 3..];
    } else {
      assert t[1..] == d[i + 1..];
    }
  }

  method RemoveEmulationPreventionBytes(data: seq<byte>) returns (result: seq<byte>)
    ensures result == RemoveEpb(data)
  {
    result := [];
    var i := 0;
    while i < |data|
      invariant i <= |data|
      invariant result + RemoveEpb(data[i..]) == RemoveEpb(data)
    {
      RemoveEpbFrom(data, i);
      if i + 2 < |data| && data[i] == 0 && data[i + 1] == 0 && data[i + 2] == 3 {
        assert result + RemoveEpb(data[i..]) == (result + [0, 0]) + RemoveEpb(data[i + 3..]);
        result := result + [data[i], data[i + 1]];
        i := i + 3;
      } else {
        assert result + RemoveEpb(data[i..]) == (result + [data[i]]) + RemoveEpb(data[i + 1..]);
        result := result + [data[i]];
        i := i + 1;
      }
    }
  }

  /** Removal never lengthens the data, and it leaves the data unchanged
      exactly when no 00 00 03 occurs in it. */
  lemma {:induction false} RemoveEpbLength(d: seq<byte>)
    ensures |RemoveEpb(d)| <= |d|
    ensures RemoveEpb(d) == d <==> forall i :: 0 <= i < |d| ==> !EpbAt(d, i)
  {
    if d == [] {
    } else if EpbAt(d, 0) {
      RemoveEpbLength(d[3..]);
    } else {
      var t := d[1..];
      RemoveEpbLength(t);
      assert d == [d[0]] + t;
      assert RemoveEpb(d) == [d[0]] + RemoveEpb(t);
      if RemoveEpb(d) == d {
        assert RemoveEpb(t) == t;
        forall i | 0 <= i < |d|
          ensures !EpbAt(d, i)
        {
          if i > 0 {
            assert !EpbAt(t, i - 1);
          }
        }
      }
      if forall i :: 0 <= i < |d| ==> !EpbAt(d, i) {
        forall i | 0 <= i < |t|
          ensures !EpbAt(t, i)
        {
          assert !EpbAt(d, i + 1);
        }
      }
    }
  }

  /** The first two bytes always survive removal. */
  lemma RemoveEpbPrefix(d: seq<byte>)
    requires |d| >= 2
    ensures |RemoveEpb(d)| >= 2 && RemoveEpb(d)[0] == d[0] && RemoveEpb(d)[1] == d[1]
  {
    if !EpbAt(d, 0) {
      assert !EpbAt(d[1..], 0) || |d| >= 4;
      RemoveEpbLength(d[1..]);
    }
  }
}
