/** WebCodecs codec strings: av01 (AV1 codec ISO media file format binding,
    section 5), avc1/avc3 (section 3.3 of RFC 6381), hvc1/hev1 (annex E of
    ISO/IEC 14496-15), vp09 (VP9 codec ISO media file format binding) and
    "vp8". Numeric fields are converted as std::stoi converts them (leading
    white space, a sign, a "0x" prefix in base 16, the longest run of digits,
    failure outside the range of int), then truncated to uint8_t or
    uint16_t. */
module CodecParser {
  import opened Wrappers
  import opened Bytes

  // ---------------------------------------------------------------------------
  // split_string: std::getline over a stringstream

  /** The tokens of `cur + s`, where `cur` is the part of a token read so
      far: every delimiter ends a token, and the text after the last
      delimiter is a token only when it is not empty. */
  function SplitFrom(s: string, d: char, cur: string): seq<string>
    decreases |s|
  {
    if s == [] then (if cur == [] then [] else [cur])
    else if s[0] == d then [cur] + SplitFrom(s[1..], d, [])
    else SplitFrom(s[1..], d, cur + [s[0]])
  }

  function Split(s: string, d: char): seq<string>
  {
    SplitFrom(s, d, [])
  }

  /** The tokens put back together with the delimiter between them. */
  function Join(ts: seq<string>, d: char): string
  {
    if |ts| == 0 then [] else if |ts| == 1 then ts[0] else ts[0] + [d] + Join(ts[1..], d)
  }

  /** The delimiter that ends the string, which produces no token. */
  function Trail(s: string, d: char): string
  {
    if |s| > 0 && s[|s| - 1] == d then [d] else []
  }

  /** split_string */
  method SplitString(s: string, d: char) returns (tokens: seq<string>)
    ensures tokens == Split(s, d)
  {
    tokens := [];
    var cur: string := [];
    var i := 0;
    while i < |s|
      invariant i <= |s|
      invariant tokens + SplitFrom(s[i..], d, cur) == Split(s, d)
    {
      assert s[i..][0] == s[i] && s[i..][1..] == s[i + 1..];
      if s[i] == d {
        assert tokens + ([cur] + SplitFrom(s[i + 1..], d, [])) == (tokens + [cur]) + SplitFrom(s[i + 1..], d, []);
        tokens := tokens + [cur];
        cur := [];
      } else {
        cur := cur + [s[i]];
      }
      i := i + 1;
    }
    if |cur| > 0 {
      tokens := tokens + [cur];
    } else {
      assert tokens + [] == tokens;
    }
  }

  lemma {:induction false} SplitFromEmpty(s: string, d: char, cur: string)
    ensures SplitFrom(s, d, cur) == [] <==> s == [] && cur == []
    decreases |s|
  {
    if s != [] && s[0] != d {
      SplitFromEmpty(s[1..], d, cur + [s[0]]);
    }
  }

  lemma {:induction false} SplitFromTokens(s: string, d: char, cur: string)
    requires d !in cur
    ensures forall k :: 0 <= k < |SplitFrom(s, d, cur)| ==> d !in SplitFrom(s, d, cur)[k]
    decreases |s|
  {
    if s == [] {
    } else if s[0] == d {
      SplitFromTokens(s[1..], d, []);
    } else {
      SplitFromTokens(s[1..], d, cur + [s[0]]);
    }
  }

  lemma {:induction false} SplitFromJoin(s: string, d: char, cur: string)
    ensures Join(SplitFrom(s, d, cur), d) + Trail(s, d) == cur + s
    decreases |s|
  {
    if s == [] {
      assert Trail(s, d) == [];
    } else if s[0] == d {
      SplitFromJoin(s[1..], d, []);
      SplitFromJoinDelimiter(s, d, cur);
    } else {
      var t := s[1..];
      SplitFromJoin(t, d, cur + [s[0]]);
      assert s == [s[0]] + t;
      if t != [] {
        assert Trail(s, d) == Trail(t, d);
      } else {
        assert Trail(s, d) == [] == Trail(t, d);
      }
    }
  }

  /** The step of SplitFromJoin at a delimiter. */
  lemma SplitFromJoinDelimiter(s: string, d: char, cur: string)
    requires s != [] && s[0] == d
    requires Join(SplitFrom(s[1..], d, []), d) + Trail(s[1..], d) == s[1..]
    ensures Join(SplitFrom(s, d, cur), d) + Trail(s, d) == cur + s
  {
    var t := s[1..];
    var rest := SplitFrom(t, d, []);
    SplitFromEmpty(t, d, []);
    assert SplitFrom(s, d, cur) == [cur] + rest;
    assert s == [d] + t;
    if t == [] {
      assert Trail(s, d) == [d];
      assert Join([cur], d) == cur;
    } else {
      assert Trail(s, d) == Trail(t, d);
      assert ([cur] + rest)[1..] == rest;
      assert Join([cur] + rest, d) == cur + [d] + Join(rest, d);
      assert cur + [d] + Join(rest, d) + Trail(t, d) == cur + [d] + (Join(rest, d) + Trail(t, d));
    }
  }

  /** The tokens rebuild the string (its final delimiter aside), none holds
      the delimiter, and only the empty string has no token. */
  lemma SplitRebuilds(s: string, d: char)
    ensures Join(Split(s, d), d) + Trail(s, d) == s
    ensures forall k :: 0 <= k < |Split(s, d)| ==> d !in Split(s, d)[k]
    ensures Split(s, d) == [] <==> s == []
  {
    SplitFromJoin(s, d, []);
    SplitFromTokens(s, d, []);
    SplitFromEmpty(s, d, []);
  }

  lemma {:induction false} SplitFromToken(t: string, rest: string, d: char, cur: string)
    requires d !in t
    ensures SplitFrom(t + rest, d, cur) == SplitFrom(rest, d, cur + t)
    decreases |t|
  {
    if t != [] {
      assert (t + rest)[0] == t[0] && (t + rest)[1..] == t[1..] + rest;
      SplitFromToken(t[1..], rest, d, cur + [t[0]]);
      assert cur + [t[0]] + t[1..] == cur + t;
    } else {
      assert t + rest == rest && cur + t == cur;
    }
  }

  /** Splitting undoes joining tokens that hold no delimiter, when the last
      one is not empty. */
  lemma {:induction false} SplitJoin(ts: seq<string>, d: char)
    requires |ts| > 0 && |ts[|ts| - 1]| > 0
    requires forall k :: 0 <= k < |ts| ==> d !in ts[k]
    ensures Split(Join(ts, d), d) == ts
  {
    if |ts| == 1 {
      SplitFromToken(ts[0], [], d, []);
      assert ts[0] + [] == ts[0] && [] + ts[0] == ts[0];
    } else {
      var rest := Join(ts[1..], d);
      SplitJoin(ts[1..], d);
      assert Join(ts, d) == ts[0] + ([d] + rest);
      SplitFromToken(ts[0], [d] + rest, d, []);
      assert ([d] + rest)[0] == d && ([d] + rest)[1..] == rest;
      assert [] + ts[0] == ts[0];
      assert ts == [ts[0]] + ts[1..];
    }
  }

  // ---------------------------------------------------------------------------
  // std::stoi

  const INT_MIN: int := -0x8000_0000
  const INT_MAX: int := 0x7FFF_FFFF
  const STOI_INVALID := "stoi"
  const STOI_RANGE := "stoi: out of range"

  /** isspace in the C locale */
  predicate IsSpace(c: char)
  {
    c == ' ' || 9 <= c as int <= 13
  }

  /** The value of a digit or letter, 36 for any other character. */
  function DigitOf(c: char): (v: nat)
    ensures v <= 36
  {
    if '0' <= c <= '9' then c as int - '0' as int
    else if 'a' <= c <= 'z' then c as int - 'a' as int + 10
    else if 'A' <= c <= 'Z' then c as int - 'A' as int + 10
    else 36
  }

  predicate IsDigitIn(c: char, base: nat)
  {
    DigitOf(c) < base
  }

  /** The first position from i that is not white space. */
  function SpaceEnd(s: string, i: nat): (j: nat)
    requires i <= |s|
    ensures i <= j <= |s| && (j < |s| ==> !IsSpace(s[j]))
    decreases |s| - i
  {
    if i < |s| && IsSpace(s[i]) then SpaceEnd(s, i + 1) else i
  }

  /** The length of the run of base-`base` digits at i. */
  function DigitRun(s: string, i: nat, base: nat): (n: nat)
    requires i <= |s|
    ensures i + n <= |s|
    ensures forall k :: i <= k < i + n ==> IsDigitIn(s[k], base)
    ensures i + n < |s| ==> !IsDigitIn(s[i + n], base)
    decreases |s| - i
  {
    if i < |s| && IsDigitIn(s[i], base) then 1 + DigitRun(s, i + 1, base) else 0
  }

  /** The value of a digit string, most significant digit first. */
  function NumberValue(t: string, base: nat): nat
  {
    if t == [] then 0 else NumberValue(t[..|t| - 1], base) * base + DigitOf(t[|t| - 1])
  }

  /** The position after the sign and, in base 16, after a "0x" or "0X" that
      a hexadecimal digit follows. */
  function DigitsStart(s: string, base: nat): (i: nat)
    ensures i <= |s|
  {
    var i0 := SpaceEnd(s, 0);
    var i1 := if i0 < |s| && (s[i0] == '-' || s[i0] == '+') then i0 + 1 else i0;
    if base == 16 && i1 + 2 < |s| && s[i1] == '0' && (s[i1 + 1] == 'x' || s[i1 + 1] == 'X') && IsDigitIn(s[i1 + 2], 16)
    then i1 + 2 else i1
  }

  /** std::stoi(s, nullptr, base): throws std::invalid_argument when no digit
      is read, std::out_of_range when the value does not fit an int; text
      after the digits is ignored. */
  function Stoi(s: string, base: nat): (r: Result<int>)
    requires base == 10 || base == 16
    ensures r.Ok? ==> INT_MIN <= r.value <= INT_MAX
    ensures DigitRun(s, DigitsStart(s, base), base) == 0 ==> r == Err(STOI_INVALID)
  {
    var i0 := SpaceEnd(s, 0);
    var negative := i0 < |s| && s[i0] == '-';
    var i := DigitsStart(s, base);
    var n := DigitRun(s, i, base);
    if n == 0 then Err(STOI_INVALID)
    else
      var m := NumberValue(s[i..i + n], base);
      var v: int := if negative then -(m as int) else m;
      if v < INT_MIN || v > INT_MAX then Err(STOI_RANGE) else Ok(v)
  }

  /** dec_to_uint8 */
  function DecToU8(dec: string): (r: Result<byte>)
    ensures r.Ok? <==> Stoi(dec, 10).Ok?
    ensures r.Ok? ==> r.value == Stoi(dec, 10).value % 0x100
  {
    var v :- Stoi(dec, 10);
    Ok(U8(v))
  }

  const INVALID_HEX_LENGTH := "Invalid hex string length: "

  /** hex_to_uint8: exactly two characters, read in base 16. */
  function HexToU8(hex: string): (r: Result<byte>)
    ensures |hex| != 2 ==> r == Err(INVALID_HEX_LENGTH + hex)
    ensures r.Ok? ==> |hex| == 2 && Stoi(hex, 16).Ok? && r.value == Stoi(hex, 16).value % 0x100
  {
    if |hex| != 2 then Err(INVALID_HEX_LENGTH + hex)
    else
      var v :- Stoi(hex, 16);
      Ok(U8(v))
  }

  // ---------------------------------------------------------------------------
  // Digit strings, the partners of Stoi

  function Pow(base: nat, n: nat): (r: nat)
    ensures base >= 1 ==> r >= 1
  {
    if n == 0 then 1 else base * Pow(base, n - 1)
  }

  /** The character of a digit, upper-case letters above 9. */
  function DigitChar(v: nat): char
    requires v < 16
  {
    if v < 10 then ('0' as int + v) as char else ('A' as int + v - 10) as char
  }

  lemma DigitCharValue(v: nat)
    requires v < 16
    ensures DigitOf(DigitChar(v)) == v
  {
  }

  /** n written with w digits in base `base`, zero-padded. */
  function Digits(n: nat, w: nat, base: nat): (r: string)
    requires 2 <= base <= 16
    ensures |r| == w
  {
    if w == 0 then [] else Digits(n / base, w - 1, base) + [DigitChar(n % base)]
  }

  /** The last digit splits off n: n = base q + r, and q has one digit
      fewer. */
  lemma DivSplit(n: nat, base: nat, p: nat)
    requires base >= 2 && n < base * p
    ensures 0 <= n / base < p && 0 <= n % base < base
    ensures n == n / base * base + n % base
  {
  }

  lemma NumberValueAppend(t: string, c: char, base: nat)
    ensures NumberValue(t + [c], base) == NumberValue(t, base) * base + DigitOf(c)
  {
    assert (t + [c])[..|t|] == t;
  }

  lemma {:induction false} DigitsValue(n: nat, w: nat, base: nat)
    requires 2 <= base <= 16 && n < Pow(base, w)
    ensures NumberValue(Digits(n, w, base), base) == n
    decreases w
  {
    if w > 0 {
      DigitsValueLast(n, w, base);
    }
  }

  /** The last digit of a digit string: n = base (n / base) + n % base. */
  lemma {:induction false} DigitsValueLast(n: nat, w: nat, base: nat)
    requires 2 <= base <= 16 && n < Pow(base, w) && w > 0
    ensures NumberValue(Digits(n, w, base), base) == n
    decreases w, 0
  {
    assert Pow(base, w) == base * Pow(base, w - 1);
    DivSplit(n, base, Pow(base, w - 1));
    var q, r := n / base, n % base;
    var t := Digits(q, w - 1, base);
    assert Digits(n, w, base) == t + [DigitChar(r)];
    DigitsValue(q, w - 1, base);
    DigitCharValue(r);
    NumberValueAppend(t, DigitChar(r), base);
  }

  lemma {:induction false} DigitsAreDigits(n: nat, w: nat, base: nat)
    requires 2 <= base <= 16
    ensures forall k :: 0 <= k < w ==> IsDigitIn(Digits(n, w, base)[k], base)
  {
    if w > 0 {
      DigitsAreDigits(n / base, w - 1, base);
      DigitCharValue(n % base);
    }
  }

  /** A digit string reads back as its value. */
  lemma StoiDigits(n: nat, w: nat, base: nat)
    requires base == 10 || base == 16
    requires w >= 1 && n < Pow(base, w) && n <= INT_MAX
    ensures Stoi(Digits(n, w, base), base) == Ok(n)
  {
    var s := Digits(n, w, base);
    DigitsValue(n, w, base);
    DigitsAreDigits(n, w, base);
    assert SpaceEnd(s, 0) == 0;
    assert DigitsStart(s, base) == 0;
    assert DigitRun(s, 0, base) == w;
    assert s[0..w] == s;
  }

  /** Two hexadecimal digits read back as the byte they encode. */
  lemma HexToU8Digits(b: byte)
    ensures HexToU8(Digits(b, 2, 16)) == Ok(b)
  {
    StoiDigits(b, 2, 16);
  }

  lemma DecToU8Digits(n: nat, w: nat)
    requires w >= 1 && n < Pow(10, w) && n < 0x100
    ensures DecToU8(Digits(n, w, 10)) == Ok(n)
  {
    StoiDigits(n, w, 10);
  }

  // ---------------------------------------------------------------------------
  // Parameters

  datatype Av1CodecParameters = Av1CodecParameters(
    profile: byte, level: byte, tier: char, bitDepth: byte,
    monochrome: Option<byte>, chromaSubsampling: Option<int>, colorPrimaries: Option<byte>,
    transferCharacteristics: Option<byte>, matrixCoefficients: Option<byte>, videoFullRangeFlag: Option<byte>)

  datatype AvcCodecParameters = AvcCodecParameters(
    prefix: string, profileIdc: byte, constraintSetFlags: byte, levelIdc: byte)

  datatype HevcCodecParameters = HevcCodecParameters(
    prefix: string, generalProfileSpace: string, generalProfileIdc: byte,
    generalProfileCompatibilityFlags: string, generalTierFlag: string, generalLevelIdc: byte,
    generalConstraintIndicatorFlags: string)

  datatype Vp9CodecParameters = Vp9CodecParameters(
    profile: byte, level: byte, bitDepth: byte,
    chromaSubsampling: Option<byte>, colorPrimaries: Option<byte>, transferCharacteristics: Option<byte>,
    matrixCoefficients: Option<byte>, videoFullRangeFlag: Option<byte>)

  datatype CodecParameters =
    | Av1Codec(av1: Av1CodecParameters)
    | AvcCodec(avc: AvcCodecParameters)
    | HevcCodec(hevc: HevcCodecParameters)
    | Vp8Codec
    | Vp9Codec(vp9: Vp9CodecParameters)

  /** The optional field k: absent when there are not enough parts, and a
      conversion failure otherwise propagates. */
  function OptionalU8(parts: seq<string>, k: nat): (r: Result<Option<byte>>)
    ensures |parts| <= k ==> r == Ok(None)
    ensures |parts| > k ==> (r.Ok? <==> Stoi(parts[k], 10).Ok?)
  {
    if |parts| > k then
      var v :- DecToU8(parts[k]);
      Ok(Some(v))
    else Ok(None)
  }

  /** The string starts with `prefix`, as `substr(0, |prefix|) == prefix`. */
  predicate HasPrefix(s: string, prefix: string)
  {
    |s| >= |prefix| && s[..|prefix|] == prefix
  }

  // ---------------------------------------------------------------------------
  // AV1: av01.P.LLT.DD[.M.CCC.cp.tc.mc.F]

  const INVALID_AV1 := "Invalid AV1 codec string: "
  const INVALID_AV1_FORMAT := "Invalid AV1 codec string format: "
  const INVALID_AV1_PROFILE := "Invalid AV1 profile: "
  const INVALID_AV1_LEVEL_TIER := "Invalid AV1 level/tier: "
  const INVALID_AV1_TIER := "Invalid AV1 tier: "
  const INVALID_AV1_BIT_DEPTH := "Invalid AV1 bit depth: "

  /** The optional fields after the bit depth. */
  function Av1OptionalFields(parts: seq<string>, profile: byte, level: byte, tier: char, bitDepth: byte)
    : (r: Result<Av1CodecParameters>)
    ensures r.Ok? ==> r.value.profile == profile && r.value.level == level && r.value.tier == tier &&
                      r.value.bitDepth == bitDepth
    ensures |parts| <= 4 ==> r == Ok(Av1CodecParameters(profile, level, tier, bitDepth, None, None, None, None, None, None))
  {
    var monochrome :- OptionalU8(parts, 4);
    var chroma :- if |parts| > 5 then (var v :- Stoi(parts[5], 10); Ok(Some(U16(v)))) else Ok(None);
    var primaries :- OptionalU8(parts, 6);
    var transfer :- OptionalU8(parts, 7);
    var matrix :- OptionalU8(parts, 8);
    var fullRange :- OptionalU8(parts, 9);
    Ok(Av1CodecParameters(profile, level, tier, bitDepth, monochrome, chroma, primaries, transfer, matrix, fullRange))
  }

  /** parse_av1_codec_string */
  function ParseAv1CodecString(s: string): (r: Result<Av1CodecParameters>)
    ensures !HasPrefix(s, "av01.") ==> r == Err(INVALID_AV1 + s)
    ensures HasPrefix(s, "av01.") && |Split(s, '.')| < 4 ==> r == Err(INVALID_AV1_FORMAT + s)
    ensures r.Ok? ==> r.value.profile <= 2 && (r.value.tier == 'M' || r.value.tier == 'H') &&
                      (r.value.bitDepth == 8 || r.value.bitDepth == 10 || r.value.bitDepth == 12)
  {
    if !HasPrefix(s, "av01.") then Err(INVALID_AV1 + s)
    else
      var parts := Split(s, '.');
      if |parts| < 4 then Err(INVALID_AV1_FORMAT + s)
      else
        var profile :- DecToU8(parts[1]);
        if profile > 2 then Err(INVALID_AV1_PROFILE + parts[1])
        else
          var levelTier := parts[2];
          if |levelTier| < 3 then Err(INVALID_AV1_LEVEL_TIER + levelTier)
          else
            var level :- DecToU8(levelTier[..2]);
            var tier := levelTier[2];
            if tier != 'M' && tier != 'H' then Err(INVALID_AV1_TIER + [tier])
            else
              var bitDepth :- DecToU8(parts[3]);
              if bitDepth != 8 && bitDepth != 10 && bitDepth != 12 then Err(INVALID_AV1_BIT_DEPTH + parts[3])
              else Av1OptionalFields(parts, profile, level, tier, bitDepth)
  }

  /** The short form of an AV1 codec string: one profile digit, two level
      digits, the tier, two bit-depth digits. */
  function Av1CodecString(profile: byte, level: byte, tier: char, bitDepth: byte): string
    requires profile < 10 && level < 100 && bitDepth < 100
  {
    Join(["av01", Digits(profile, 1, 10), Digits(level, 2, 10) + [tier], Digits(bitDepth, 2, 10)], '.')
  }

  /** A joined string starts with its first token and a delimiter. */
  lemma JoinHead(ts: seq<string>, d: char)
    requires |ts| >= 2
    ensures var s := Join(ts, d); |s| > |ts[0]| && s[..|ts[0]|] == ts[0] && s[|ts[0]|] == d
  {
    var rest := Join(ts[1..], d);
    assert Join(ts, d) == ts[0] + ([d] + rest);
  }

  lemma DigitsNoDot(n: nat, w: nat)
    requires n < Pow(10, w)
    ensures '.' !in Digits(n, w, 10)
  {
    DigitsAreDigits(n, w, 10);
    assert !IsDigitIn('.', 10);
  }

  /** The short AV1 form as parse_av1_codec_string reads it: the fields
      convert and pass their checks, and there are no optional fields. */
  lemma Av1ParseFields(s: string, profile: byte, level: byte, tier: char, bitDepth: byte)
    requires HasPrefix(s, "av01.") && |Split(s, '.')| == 4
    requires var parts := Split(s, '.');
      DecToU8(parts[1]) == Ok(profile) && |parts[2]| == 3 && DecToU8(parts[2][..2]) == Ok(level) &&
      parts[2][2] == tier && DecToU8(parts[3]) == Ok(bitDepth)
    requires profile <= 2 && (tier == 'M' || tier == 'H') && (bitDepth == 8 || bitDepth == 10 || bitDepth == 12)
    ensures ParseAv1CodecString(s) == Ok(Av1CodecParameters(profile, level, tier, bitDepth, None, None, None, None, None, None))
  {
  }

  lemma Av1CodecStringRoundTrip(profile: byte, level: byte, tier: char, bitDepth: byte)
    requires profile <= 2 && level < 100 && (tier == 'M' || tier == 'H')
    requires bitDepth == 8 || bitDepth == 10 || bitDepth == 12
    ensures ParseAv1CodecString(Av1CodecString(profile, level, tier, bitDepth)) ==
      Ok(Av1CodecParameters(profile, level, tier, bitDepth, None, None, None, None, None, None))
  {
    var p, l, b := Digits(profile, 1, 10), Digits(level, 2, 10), Digits(bitDepth, 2, 10);
    var lt := l + [tier];
    var parts := ["av01", p, lt, b];
    DigitsNoDot(profile, 1);
    DigitsNoDot(level, 2);
    DigitsNoDot(bitDepth, 2);
    assert '.' !in lt;
    SplitJoin(parts, '.');
    var s := Av1CodecString(profile, level, tier, bitDepth);
    JoinHead(parts, '.');
    assert s[..5] == s[..4] + [s[4]];
    DecToU8Digits(profile, 1);
    DecToU8Digits(level, 2);
    DecToU8Digits(bitDepth, 2);
    assert lt[..2] == l && lt[2] == tier;
    Av1ParseFields(s, profile, level, tier, bitDepth);
  }

  // ---------------------------------------------------------------------------
  // AVC: avc1.PPCCLL or avc3.PPCCLL

  const INVALID_AVC_LENGTH := "Invalid AVC codec string length: "
  const INVALID_AVC_PREFIX := "Invalid AVC codec string prefix: "
  const INVALID_AVC_FORMAT := "Invalid AVC codec string format: "
  const INVALID_AVC_PARAMS_LENGTH := "Invalid AVC codec parameters length: "

  /** parse_avc_codec_string: three two-digit hexadecimal bytes after the
      prefix and the dot; anything after them is ignored. */
  function ParseAvcCodecString(s: string): (r: Result<AvcCodecParameters>)
    ensures |s| < 11 ==> r == Err(INVALID_AVC_LENGTH + s)
    ensures |s| >= 11 && s[..4] != "avc1" && s[..4] != "avc3" ==> r == Err(INVALID_AVC_PREFIX + s[..4])
    ensures r.Ok? ==> |s| >= 11 && r.value.prefix == s[..4] && s[4] == '.'
    ensures r.Ok? ==> r.value.prefix == "avc1" || r.value.prefix == "avc3"
  {
    if |s| < 11 then Err(INVALID_AVC_LENGTH + s)
    else
      var prefix := s[..4];
      if prefix != "avc1" && prefix != "avc3" then Err(INVALID_AVC_PREFIX + prefix)
      else if s[4] != '.' then Err(INVALID_AVC_FORMAT + s)
      else
        var hex := s[5..11];
        if |hex| != 6 then Err(INVALID_AVC_PARAMS_LENGTH + hex)
        else
          var profile :- HexToU8(hex[0..2]);
          var constraints :- HexToU8(hex[2..4]);
          var level :- HexToU8(hex[4..6]);
          Ok(AvcCodecParameters(prefix, profile, constraints, level))
  }

  /** The codec string of an AVC stream, upper-case hexadecimal. */
  function AvcCodecString(p: AvcCodecParameters): string
  {
    p.prefix + "." + Digits(p.profileIdc, 2, 16) + Digits(p.constraintSetFlags, 2, 16) + Digits(p.levelIdc, 2, 16)
  }

  lemma AvcCodecStringRoundTrip(p: AvcCodecParameters)
    requires p.prefix == "avc1" || p.prefix == "avc3"
    ensures ParseAvcCodecString(AvcCodecString(p)) == Ok(p)
  {
    var a, b, c := Digits(p.profileIdc, 2, 16), Digits(p.constraintSetFlags, 2, 16), Digits(p.levelIdc, 2, 16);
    var s := AvcCodecString(p);
    assert s[..4] == p.prefix && s[4] == '.';
    assert s[5..11] == a + b + c;
    assert (a + b + c)[0..2] == a && (a + b + c)[2..4] == b && (a + b + c)[4..6] == c;
    HexToU8Digits(p.profileIdc);
    HexToU8Digits(p.constraintSetFlags);
    HexToU8Digits(p.levelIdc);
  }

  /** Only the first eleven characters are read. */
  lemma AvcCodecStringSuffix(s: string, t: string)
    requires |s| >= 11
    ensures ParseAvcCodecString(s + t).Ok? <==> ParseAvcCodecString(s).Ok?
    ensures ParseAvcCodecString(s).Ok? ==> ParseAvcCodecString(s + t) == ParseAvcCodecString(s)
  {
    assert (s + t)[..4] == s[..4] && (s + t)[5..11] == s[5..11] && (s + t)[4] == s[4];
  }

  // ---------------------------------------------------------------------------
  // HEVC: hvc1.X.X.X.X or hev1.X.X.X.X

  const INVALID_HEVC_LENGTH := "Invalid HEVC codec string length: "
  const INVALID_HEVC_PREFIX := "Invalid HEVC codec string prefix: "
  const INVALID_HEVC_FORMAT := "Invalid HEVC codec string format: "

  /** A value that fails to convert becomes 0. */
  function U8OrZero(s: string): (v: byte)
    ensures Stoi(s, 10).Ok? ==> v == Stoi(s, 10).value % 0x100
    ensures Stoi(s, 10).Err? ==> v == 0
  {
    match DecToU8(s)
    case Ok(v) => v
    case Err(_) => 0
  }

  /** general_level_idc from "L<n>"; 0 for any other form. */
  function HevcLevelIdc(tier: string): (v: byte)
    ensures !(|tier| > 1 && tier[0] == 'L') ==> v == 0
  {
    if |tier| > 1 && tier[0] == 'L' then U8OrZero(tier[1..]) else 0
  }

  /** parse_hevc_codec_string: only the prefix and the number of parts can
      make it fail; fields that do not convert become 0. */
  function ParseHevcCodecString(s: string): (r: Result<HevcCodecParameters>)
    ensures r.Ok? <==> |s| >= 5 && (s[..4] == "hvc1" || s[..4] == "hev1") && s[4] == '.' && |Split(s, '.')| >= 4
    ensures r.Ok? ==> r.value.prefix == s[..4] && r.value.generalProfileSpace == Split(s, '.')[1]
  {
    if |s| < 5 then Err(INVALID_HEVC_LENGTH + s)
    else
      var prefix := s[..4];
      if prefix != "hvc1" && prefix != "hev1" then Err(INVALID_HEVC_PREFIX + prefix)
      else if s[4] != '.' then Err(INVALID_HEVC_FORMAT + s)
      else
        var parts := Split(s, '.');
        if |parts| < 4 then Err(INVALID_HEVC_FORMAT + s)
        else
          Ok(HevcCodecParameters(prefix, parts[1], U8OrZero(parts[1]), parts[2], parts[3],
                                 HevcLevelIdc(parts[3]), if |parts| >= 5 then parts[4] else []))
  }

  /** In "hvc1.<profile>.<compatibility>.L<level>.<constraints>" the profile
      and the level are read as decimal numbers. */
  lemma HevcParseFields(s: string, profile: byte, level: byte)
    requires |s| >= 5 && (s[..4] == "hvc1" || s[..4] == "hev1") && s[4] == '.' && |Split(s, '.')| >= 5
    requires var parts := Split(s, '.');
      DecToU8(parts[1]) == Ok(profile) && |parts[3]| > 1 && parts[3][0] == 'L' && DecToU8(parts[3][1..]) == Ok(level)
    ensures var r := ParseHevcCodecString(s); var parts := Split(s, '.');
      r.Ok? && r.value.generalProfileIdc == profile && r.value.generalLevelIdc == level &&
      r.value.generalProfileCompatibilityFlags == parts[2] && r.value.generalConstraintIndicatorFlags == parts[4]
  {
  }

  lemma HevcCodecStringFields(prefix: string, profile: byte, compat: string, level: byte, constraints: string)
    requires prefix == "hvc1" || prefix == "hev1"
    requires |compat| > 0 && '.' !in compat && |constraints| > 0 && '.' !in constraints
    ensures var s := Join([prefix, Digits(profile, 3, 10), compat, "L" + Digits(level, 3, 10), constraints], '.');
      var r := ParseHevcCodecString(s);
      r.Ok? && r.value.generalProfileIdc == profile && r.value.generalLevelIdc == level &&
      r.value.generalProfileCompatibilityFlags == compat && r.value.generalConstraintIndicatorFlags == constraints
  {
    var p, l := Digits(profile, 3, 10), "L" + Digits(level, 3, 10);
    var parts := [prefix, p, compat, l, constraints];
    DigitsNoDot(profile, 3);
    DigitsNoDot(level, 3);
    assert '.' !in l;
    SplitJoin(parts, '.');
    JoinHead(parts, '.');
    var s := Join(parts, '.');
    DecToU8Digits(profile, 3);
    DecToU8Digits(level, 3);
    assert l[1..] == Digits(level, 3, 10);
    HevcParseFields(s, profile, level);
  }

  // ---------------------------------------------------------------------------
  // VP8 and VP9

  const INVALID_VP8 := "Invalid VP8 codec string: "
  const INVALID_VP9 := "Invalid VP9 codec string: "
  const INVALID_VP9_FORMAT := "Invalid VP9 codec string format: "
  const INVALID_VP9_PROFILE := "Invalid VP9 profile: "
  const INVALID_VP9_BIT_DEPTH := "Invalid VP9 bit depth: "

  /** parse_vp8_codec_string: the string "vp8" and nothing else. */
  function ParseVp8CodecString(s: string): (r: Result<()>)
    ensures r.Ok? <==> s == "vp8"
  {
    if s != "vp8" then Err(INVALID_VP8 + s) else Ok(())
  }

  /** The optional fields after the bit depth. */
  function Vp9OptionalFields(parts: seq<string>, profile: byte, level: byte, bitDepth: byte)
    : (r: Result<Vp9CodecParameters>)
    ensures r.Ok? ==> r.value.profile == profile && r.value.level == level && r.value.bitDepth == bitDepth
    ensures |parts| <= 4 ==> r == Ok(Vp9CodecParameters(profile, level, bitDepth, None, None, None, None, None))
  {
    var chroma :- OptionalU8(parts, 4);
    var primaries :- OptionalU8(parts, 5);
    var transfer :- OptionalU8(parts, 6);
    var matrix :- OptionalU8(parts, 7);
    var fullRange :- OptionalU8(parts, 8);
    Ok(Vp9CodecParameters(profile, level, bitDepth, chroma, primaries, transfer, matrix, fullRange))
  }

  /** parse_vp9_codec_string: vp09.PP.LL.DD[.CC.CP.TC.MC.FF] */
  function ParseVp9CodecString(s: string): (r: Result<Vp9CodecParameters>)
    ensures !HasPrefix(s, "vp09.") ==> r == Err(INVALID_VP9 + s)
    ensures HasPrefix(s, "vp09.") && |Split(s, '.')| < 4 ==> r == Err(INVALID_VP9_FORMAT + s)
    ensures r.Ok? ==> r.value.profile <= 3 && (r.value.bitDepth == 8 || r.value.bitDepth == 10 || r.value.bitDepth == 12)
  {
    if !HasPrefix(s, "vp09.") then Err(INVALID_VP9 + s)
    else
      var parts := Split(s, '.');
      if |parts| < 4 then Err(INVALID_VP9_FORMAT + s)
      else
        var profile :- DecToU8(parts[1]);
        if profile > 3 then Err(INVALID_VP9_PROFILE + parts[1])
        else
          var level :- DecToU8(parts[2]);
          var bitDepth :- DecToU8(parts[3]);
          if bitDepth != 8 && bitDepth != 10 && bitDepth != 12 then Err(INVALID_VP9_BIT_DEPTH + parts[3])
          else Vp9OptionalFields(parts, profile, level, bitDepth)
  }

  /** The short form of a VP9 codec string: two digits per field. */
  function Vp9CodecString(profile: byte, level: byte, bitDepth: byte): string
    requires profile < 100 && level < 100 && bitDepth < 100
  {
    Join(["vp09", Digits(profile, 2, 10), Digits(level, 2, 10), Digits(bitDepth, 2, 10)], '.')
  }

  lemma Vp9ParseFields(s: string, profile: byte, level: byte, bitDepth: byte)
    requires HasPrefix(s, "vp09.") && |Split(s, '.')| == 4
    requires var parts := Split(s, '.');
      DecToU8(parts[1]) == Ok(profile) && DecToU8(parts[2]) == Ok(level) && DecToU8(parts[3]) == Ok(bitDepth)
    requires profile <= 3 && (bitDepth == 8 || bitDepth == 10 || bitDepth == 12)
    ensures ParseVp9CodecString(s) == Ok(Vp9CodecParameters(profile, level, bitDepth, None, None, None, None, None))
  {
  }

  lemma Vp9CodecStringRoundTrip(profile: byte, level: byte, bitDepth: byte)
    requires profile <= 3 && level < 100 && (bitDepth == 8 || bitDepth == 10 || bitDepth == 12)
    ensures ParseVp9CodecString(Vp9CodecString(profile, level, bitDepth)) ==
      Ok(Vp9CodecParameters(profile, level, bitDepth, None, None, None, None, None))
  {
    var p, l, b := Digits(profile, 2, 10), Digits(level, 2, 10), Digits(bitDepth, 2, 10);
    var parts := ["vp09", p, l, b];
    DigitsNoDot(profile, 2);
    DigitsNoDot(level, 2);
    DigitsNoDot(bitDepth, 2);
    SplitJoin(parts, '.');
    JoinHead(parts, '.');
    var s := Vp9CodecString(profile, level, bitDepth);
    assert s[..5] == s[..4] + [s[4]];
    DecToU8Digits(profile, 2);
    DecToU8Digits(level, 2);
    DecToU8Digits(bitDepth, 2);
    Vp9ParseFields(s, profile, level, bitDepth);
  }

  // ---------------------------------------------------------------------------
  // parse_codec_string

  const INVALID_CODEC := "Invalid codec string: "
  const UNSUPPORTED_CODEC := "Unsupported codec string: "

  /** parse_codec_string: "vp8" as is; otherwise the first five characters
      choose the family parser. */
  function ParseCodecString(s: string): (r: Result<CodecParameters>)
    ensures s == "vp8" ==> r == Ok(Vp8Codec)
    ensures s != "vp8" && |s| < 5 ==> r == Err(INVALID_CODEC + s)
    ensures r.Ok? && r.value.Av1Codec? ==> s[..5] == "av01." && ParseAv1CodecString(s) == Ok(r.value.av1)
    ensures r.Ok? && r.value.AvcCodec? ==> ParseAvcCodecString(s) == Ok(r.value.avc)
    ensures r.Ok? && r.value.HevcCodec? ==> ParseHevcCodecString(s) == Ok(r.value.hevc)
    ensures r.Ok? && r.value.Vp9Codec? ==> s[..5] == "vp09." && ParseVp9CodecString(s) == Ok(r.value.vp9)
    ensures r.Ok? && r.value.Vp8Codec? ==> s == "vp8"
    ensures |s| >= 5 && s[..5] !in {"av01.", "avc1.", "avc3.", "hvc1.", "hev1.", "vp09."} ==> r == Err(UNSUPPORTED_CODEC + s)
  {
    if s == "vp8" then
      var _ :- ParseVp8CodecString(s);
      Ok(Vp8Codec)
    else if |s| < 5 then Err(INVALID_CODEC + s)
    else
      var prefix := s[..5];
      if prefix == "av01." then
        var p :- ParseAv1CodecString(s);
        Ok(Av1Codec(p))
      else if prefix == "avc1." || prefix == "avc3." then
        var p :- ParseAvcCodecString(s);
        Ok(AvcCodec(p))
      else if prefix == "hvc1." || prefix == "hev1." then
        var p :- ParseHevcCodecString(s);
        Ok(HevcCodec(p))
      else if prefix == "vp09." then
        var p :- ParseVp9CodecString(s);
        Ok(Vp9Codec(p))
      else Err(UNSUPPORTED_CODEC + s)
  }
}
