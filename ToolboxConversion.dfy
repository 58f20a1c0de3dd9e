/** The byte handling of the VideoToolbox decoder: the Annex B to
    length-prefixed conversion of create_sample_buffer, which also drops
    the parameter sets, the VP9 frame-header probe, and the scan for the AV1
    sequence header OBU. The VideoToolbox calls themselves are not part of
    this model. */
module ToolboxConversion {
  import opened Wrappers
  import opened Bytes
  import opened NalUtils
  import opened LengthPrefix

  // ---------------------------------------------------------------------------
  // create_sample_buffer: Annex B to length-prefixed

  /** A parameter set, by the first byte of the unit: SPS (7) and PPS (8)
      for H.264; VPS (32), SPS (33) and PPS (34) for H.265. */
  predicate IsParameterSet(isH264: bool, first: byte)
  {
    if isH264 then first % 32 == 7 || first % 32 == 8
    else 32 <= first / 2 % 64 <= 34
  }

  /** The units that are not parameter sets, in order. */
  function KeepSlices(ps: seq<seq<byte>>, isH264: bool): seq<seq<byte>>
  {
    if ps == [] then []
    else (if ps[0] != [] && IsParameterSet(isH264, ps[0][0]) then [] else [ps[0]]) + KeepSlices(ps[1..], isH264)
  }

  /** The units that are parameter sets. */
  function ParameterSets(ps: seq<seq<byte>>, isH264: bool): seq<seq<byte>>
  {
    if ps == [] then []
    else (if ps[0] != [] && IsParameterSet(isH264, ps[0][0]) then [ps[0]] else []) + ParameterSets(ps[1..], isH264)
  }

  /** Whether a unit is written: empty units and parameter sets are not. */
  predicate Kept(p: seq<byte>, isH264: bool)
  {
    !(p != [] && IsParameterSet(isH264, p[0]))
  }

  /** Filtering one more unit in front. */
  lemma KeepCons(p: seq<byte>, ps: seq<seq<byte>>, isH264: bool)
    ensures KeepSlices([p] + ps, isH264) == (if Kept(p, isH264) then [p] else []) + KeepSlices(ps, isH264)
    ensures ParameterSets([p] + ps, isH264) == (if Kept(p, isH264) then [] else [p]) + ParameterSets(ps, isH264)
  {
    assert ([p] + ps)[0] == p;
    assert ([p] + ps)[1..] == ps;
  }

  /** Of non-empty units, no kept one is a parameter set. */
  lemma {:induction false} KeptAreSlices(ps: seq<seq<byte>>, isH264: bool)
    requires forall k :: 0 <= k < |ps| ==> |ps[k]| > 0
    ensures forall q :: q in KeepSlices(ps, isH264) ==> |q| > 0 && !IsParameterSet(isH264, q[0])
  {
    if ps != [] {
      var p, tail := ps[0], ps[1..];
      assert ps == [p] + tail;
      KeptAreSlices(tail, isH264);
      KeepCons(p, tail, isH264);
    }
  }

  /** Every unit is either kept or dropped as a parameter set, and none is
      both. */
  lemma {:induction false} KeepSlicesPartitions(ps: seq<seq<byte>>, isH264: bool)
    ensures multiset(KeepSlices(ps, isH264)) + multiset(ParameterSets(ps, isH264)) == multiset(ps)
  {
    if ps != [] {
      var p, tail := ps[0], ps[1..];
      assert ps == [p] + tail;
      KeepSlicesPartitions(tail, isH264);
      KeepCons(p, tail, isH264);
      var kt, pt := KeepSlices(tail, isH264), ParameterSets(tail, isH264);
      if Kept(p, isH264) {
        assert multiset([p] + kt) == multiset{p} + multiset(kt);
      } else {
        assert multiset([p] + pt) == multiset{p} + multiset(pt);
      }
      assert multiset([p] + tail) == multiset{p} + multiset(tail);
    }
  }

  /** The units of a sample: the payloads of the Annex B data from `i` on
      without the parameter sets. */
  function SampleUnits(d: seq<byte>, isH264: bool, i: nat): seq<seq<byte>>
    requires i <= |d|
  {
    KeepSlices(PayloadsFrom(d, i), isH264)
  }

  /** Filtering a list that has a possibly empty unit in front. */
  lemma KeepFront(all: seq<seq<byte>>, p: seq<byte>, rest: seq<seq<byte>>, isH264: bool)
    requires all == (if p != [] then [p] else []) + rest
    ensures p != [] && !IsParameterSet(isH264, p[0]) ==> KeepSlices(all, isH264) == [p] + KeepSlices(rest, isH264)
    ensures !(p != [] && !IsParameterSet(isH264, p[0])) ==> KeepSlices(all, isH264) == KeepSlices(rest, isH264)
  {
    if p != [] {
      KeepCons(p, rest, isH264);
    } else {
      assert all == rest;
    }
  }

  /** One turn of the conversion loop at a start code: the unit up to the
      next start code is written unless it is empty or a parameter set. */
  lemma SampleStep(d: seq<byte>, isH264: bool, pos: nat, start: nat, end: nat)
    requires pos < |d| && StartCodeAt(d, pos)
    requires start == (if StartCode4At(d, pos) then pos + 4 else pos + 3)
    requires end == UnitEnd(d, start)
    ensures start <= end <= |d|
    ensures start < end && !IsParameterSet(isH264, d[start]) ==>
      SampleUnits(d, isH264, pos) == [d[start..end]] + SampleUnits(d, isH264, end)
    ensures !(start < end && !IsParameterSet(isH264, d[start])) ==>
      SampleUnits(d, isH264, pos) == SampleUnits(d, isH264, end)
  {
    UnitAtStartCode(d, pos, start, end);
    var p := d[start..end];
    assert start < end <==> p != [];
    assert start < end ==> p[0] == d[start];
    KeepFront(PayloadsFrom(d, pos), p, PayloadsFrom(d, end), isH264);
  }

  /** What the conversion loop has written after a turn at a start code,
      together with what remains to be written, is the whole sample. */
  lemma {:induction false} WrittenAtStartCode(d: seq<byte>, isH264: bool, pos: nat, start: nat, end: nat,
                           out: seq<byte>, out': seq<byte>, total: seq<byte>)
    requires pos < |d| && StartCodeAt(d, pos)
    requires start == (if StartCode4At(d, pos) then pos + 4 else pos + 3)
    requires end == UnitEnd(d, start)
    requires out + Encode(SampleUnits(d, isH264, pos)) == total
    requires out' == if start < end && !IsParameterSet(isH264, d[start]) then out + Frame(d[start..end]) else out
    ensures out' + Encode(SampleUnits(d, isH264, end)) == total
  {
    SampleStep(d, isH264, pos, start, end);
    var rest := SampleUnits(d, isH264, end);
    if start < end && !IsParameterSet(isH264, d[start]) {
      var f := Frame(d[start..end]);
      EncodeCons(d[start..end], rest);
      assert out + (f + Encode(rest)) == (out + f) + Encode(rest);
    }
  }

  /** create_sample_buffer up to the VideoToolbox calls: every unit that is
      not a parameter set, written length-prefixed; nothing when no unit
      remains. */
  method CreateSampleData(data: seq<byte>, isH264: bool) returns (r: Option<seq<byte>>)
    ensures SampleUnits(data, isH264, 0) == [] ==> r == None
    ensures SampleUnits(data, isH264, 0) != [] ==> r == Some(Encode(SampleUnits(data, isH264, 0)))
  {
    ghost var total := Encode(SampleUnits(data, isH264, 0));
    var out: seq<byte> := [];
    var pos := 0;
    while pos < |data|
      invariant pos <= |data|
      invariant out + Encode(SampleUnits(data, isH264, pos)) == total
      decreases |data| - pos
    {
      var startCode := 0;
      if StartCode4At(data, pos) {
        startCode := 4;
      } else if StartCode3At(data, pos) {
        startCode := 3;
      }
      if startCode > 0 {
        var start := pos + startCode;
        var end := FindUnitEnd(data, start);
        ghost var before := out;
        if start < end && !IsParameterSet(isH264, data[start]) {
          out := out + Frame(data[start..end]);
        }
        WrittenAtStartCode(data, isH264, pos, start, end, before, out, total);
        pos := end;
      } else {
        SkipByte(data, pos);
        pos := pos + 1;
      }
    }
    assert PayloadsFrom(data, pos) == [];
    assert Encode(SampleUnits(data, isH264, pos)) == [];
    assert out == total;
    EncodeEmpty(SampleUnits(data, isH264, 0));
    if out == [] {
      return None;
    }
    r := Some(out);
  }

  // ---------------------------------------------------------------------------
  // parse_vp9_frame_header

  /** What the probe reports: the profile and the bit depth. */
  datatype Vp9Header = Vp9Header(profile: nat, bitDepth: nat)

  /** The bit depth the probe derives: 8 below profile 2, otherwise 12 or
      10 by bit 2 of the first byte. */
  function Vp9BitDepth(profile: nat, first: byte): (depth: nat)
    ensures profile < 2 ==> depth == 8
    ensures profile >= 2 ==> depth == 10 || depth == 12
  {
    if profile >= 2 then (if first / 4 % 2 == 1 then 12 else 10) else 8
  }

  /** parse_vp9_frame_header as written: refuses fewer than three bytes or
      a frame marker other than 0b10, and reads the profile from bits 5 and
      4 of the first byte with bit 5 as the high bit. */
  function ParseVp9FrameHeaderAsWritten(d: seq<byte>): (r: Option<Vp9Header>)
    ensures r.Some? <==> |d| >= 3 && d[0] / 64 == 2
  {
    if |d| < 3 || d[0] / 64 != 2 then None
    else
      var p := d[0] / 16 % 4;
      var profile := if p == 3 then p + d[0] / 8 % 2 else p;
      Some(Vp9Header(profile, Vp9BitDepth(profile, d[0])))
  }

  /** The probe with the profile read as the VP9 bitstream specification
      lays it out (section 6.2 of the VP9 Bitstream and Decoding Process
      Specification): after the frame marker come profile_low_bit, then
      profile_high_bit, and for profile 3 a reserved bit that libvpx adds
      in. The bit depth keeps the rule of the source. */
  function ParseVp9FrameHeader(d: seq<byte>): (r: Option<Vp9Header>)
    ensures r.Some? <==> |d| >= 3 && d[0] / 64 == 2
    ensures r.Some? ==> r.value.profile <= 4 && (r.value.profile < 2 <==> d[0] / 16 % 2 == 0)
  {
    if |d| < 3 || d[0] / 64 != 2 then None
    else
      var p := d[0] / 32 % 2 + 2 * (d[0] / 16 % 2);
      var profile := if p == 3 then p + d[0] / 8 % 2 else p;
      Some(Vp9Header(profile, Vp9BitDepth(profile, d[0])))
  }

  /** The first byte of a VP9 frame of the given profile, with the frame
      marker 0b10, profile_low_bit, profile_high_bit and four more bits. */
  function Vp9FirstByte(profile: nat, rest: nat): byte
    requires profile < 4 && rest < 16
  {
    0x80 + profile % 2 * 32 + profile / 2 * 16 + rest
  }

  /** The corrected probe reads back the profile of every frame of
      profiles 0 to 2, and of profile 3 when the reserved bit is zero. */
  lemma Vp9ProfileRoundTrip(profile: nat, rest: nat, tail: seq<byte>)
    requires profile < 4 && rest < 16 && |tail| >= 2
    requires profile == 3 ==> rest < 8
    ensures ParseVp9FrameHeader([Vp9FirstByte(profile, rest)] + tail).Some?
    ensures ParseVp9FrameHeader([Vp9FirstByte(profile, rest)] + tail).value.profile == profile
  {
  }

  /** As written, a profile 1 frame (first byte 0xA0) is reported as
      profile 2 with a 10-bit depth, and a profile 2 frame (0x90) as
      profile 1. */
  lemma Vp9ProfileBitsSwapped()
    ensures ParseVp9FrameHeaderAsWritten([0xA0, 0, 0]) == Some(Vp9Header(2, 10))
    ensures ParseVp9FrameHeaderAsWritten([0x90, 0, 0]) == Some(Vp9Header(1, 8))
    ensures ParseVp9FrameHeader([0xA0, 0, 0]).value.profile == 1
    ensures ParseVp9FrameHeader([0x90, 0, 0]).value.profile == 2
  {
    assert Vp9FirstByte(1, 0) == 0xA0 && Vp9FirstByte(2, 0) == 0x90;
    Vp9ProfileRoundTrip(1, 0, [0, 0]);
    Vp9ProfileRoundTrip(2, 0, [0, 0]);
  }

  // ---------------------------------------------------------------------------
  // parse_av1_sequence_header_obu

  const U64_LIMIT: int := 0x1_0000_0000_0000_0000

  /** The fields the scan reports, and where the header's payload starts. */
  datatype Av1SequenceHeader = Av1SequenceHeader(profile: nat, level: nat, bitDepth: nat, payload: nat)

  /** The fields of an OBU header byte (section 5.3.2 of the AV1 Bitstream
      and Decoding Process Specification). */
  function ObuType(h: byte): nat { h / 8 % 16 }
  predicate HasExtension(h: byte) { h / 4 % 2 == 1 }
  predicate HasSizeField(h: byte) { h / 2 % 2 == 1 }

  /** The leb128 size as written: seven bits per byte, low group first, in
      a 64-bit size_t, with a bounds check before every byte. `weight` is
      2^shift. None when the data ends inside the number. */
  function Leb128AsWritten(d: seq<byte>, pos: nat, weight: nat, acc: nat): (r: Option<(nat, nat)>)
    ensures r.Some? ==> r.value.0 < U64_LIMIT && pos < r.value.1 <= |d|
    decreases |d| - pos
  {
    if pos >= |d| then None
    else
      var acc' := (acc + d[pos] % 128 * weight) % U64_LIMIT;
      if d[pos] >= 128 then Leb128AsWritten(d, pos + 1, weight * 128, acc') else Some((acc', pos + 1))
  }

  /** The leb128 size in unbounded arithmetic. */
  function Leb128(d: seq<byte>, pos: nat, weight: nat, acc: nat): (r: Option<(nat, nat)>)
    ensures r.Some? ==> pos < r.value.1 <= |d|
    decreases |d| - pos
  {
    if pos >= |d| then None
    else
      var acc' := acc + d[pos] % 128 * weight;
      if d[pos] >= 128 then Leb128(d, pos + 1, weight * 128, acc') else Some((acc', pos + 1))
  }

  /** The fields of a sequence header as the source reads them from its
      first byte: the level from the low five bits when the reduced still
      picture header flag is set, level 8 otherwise, and depth 10 for
      profile 2. */
  function SequenceHeaderAsWritten(first: byte, payload: nat): (h: Av1SequenceHeader)
  {
    var profile := first / 32;
    Av1SequenceHeader(profile, if first / 8 % 2 == 1 then first % 32 else 8, if profile == 2 then 10 else 8, payload)
  }

  /** The fields with seq_level_idx[0] read where section 5.5.1 of the AV1
      specification puts it: the five bits after seq_profile,
      still_picture and reduced_still_picture_header, which run from the
      first byte into the second. */
  function SequenceHeader(first: byte, second: byte, payload: nat): (h: Av1SequenceHeader)
  {
    var profile := first / 32;
    var level := if first / 8 % 2 == 1 then first % 8 * 4 + second / 64 else 8;
    Av1SequenceHeader(profile, level, if profile == 2 then 10 else 8, payload)
  }

  /** What one turn of the scan does. */
  datatype Av1Turn = Found(header: Av1SequenceHeader) | Fail | ReadPastEnd(index: nat) | Continue(pos: nat)

  /** One turn of the scan as written, with size_t arithmetic: skipping
      the extension byte may step past the end, `size - pos` then wraps,
      the bounds check `pos + obu_size > size` wraps too, and an OBU's
      size may carry `pos` backwards. */
  function Av1StepAsWritten(d: seq<byte>, pos: nat): Av1Turn
    requires pos < |d| < U64_LIMIT
  {
    var h := d[pos];
    var p := if HasExtension(h) then pos + 2 else pos + 1;
    var size: Option<(nat, nat)> :=
      if HasSizeField(h) then Leb128AsWritten(d, p, 1, 0) else Some(((|d| - p) % U64_LIMIT, p));
    if size.None? then Fail
    else
      var (obuSize, q) := size.value;
      if ObuType(h) == 1 then
        if (q + obuSize) % U64_LIMIT > |d| || obuSize < 3 then Fail
        else if q >= |d| then ReadPastEnd(q)
        else Found(SequenceHeaderAsWritten(d[q], q))
      else Continue((q + obuSize) % U64_LIMIT)
  }

  /** The outcome of the scan: a header, none, a read past the end of the
      data, or still scanning when the fuel ran out. */
  datatype Av1Outcome = Header(header: Av1SequenceHeader) | NoHeader | OutOfBounds(index: nat) | Unfinished

  /** The loop as written, run for at most `fuel` turns. */
  function Av1ScanAsWritten(d: seq<byte>, pos: nat, fuel: nat): Av1Outcome
    requires |d| < U64_LIMIT
    decreases fuel
  {
    if pos >= |d| then NoHeader
    else if fuel == 0 then Unfinished
    else match Av1StepAsWritten(d, pos)
      case Found(h) => Header(h)
      case Fail => NoHeader
      case ReadPastEnd(i) => OutOfBounds(i)
      case Continue(next) => Av1ScanAsWritten(d, next, fuel - 1)
  }

  /** parse_av1_sequence_header_obu as written, for at most `fuel` turns. */
  function ParseAv1SequenceHeaderAsWritten(d: seq<byte>, fuel: nat): Av1Outcome
    requires |d| < U64_LIMIT
  {
    if |d| < 2 then NoHeader else Av1ScanAsWritten(d, 0, fuel)
  }

  /** As written, the three bytes 12 00 0C read the byte at index 4: a
      temporal delimiter with an empty size field, then a sequence header
      byte with the extension flag and no size field, whose payload is
      taken to start past the end of the data. */
  lemma Av1ReadsPastEnd(fuel: nat)
    requires fuel >= 2
    ensures ParseAv1SequenceHeaderAsWritten([0x12, 0x00, 0x0C], fuel) == OutOfBounds(4)
  {
    var d: seq<byte> := [0x12, 0x00, 0x0C];
    assert Leb128AsWritten(d, 1, 1, 0) == Some((0, 2));
    assert Av1StepAsWritten(d, 0) == Continue(2);
    assert Av1StepAsWritten(d, 2) == ReadPastEnd(4);
    assert Av1ScanAsWritten(d, 2, fuel - 1) == OutOfBounds(4);
    assert Av1ScanAsWritten(d, 0, fuel) == OutOfBounds(4);
  }

  /** The eleven bytes of an OBU whose leb128 size is 2^64 - 11. */
  const WRAPPING_OBU: seq<byte> := [0x12, 0xF5, 0xFF, 0xFF, 0xFF, 0xFF, 0xFF, 0xFF, 0xFF, 0xFF, 0x01]

  /** A continuation byte of a size that still fits in 64 bits. */
  lemma {:induction false} LebContinues(d: seq<byte>, pos: nat, weight: nat, acc: nat, r: Option<(nat, nat)>)
    requires pos < |d| && d[pos] >= 128 && acc + d[pos] % 128 * weight < U64_LIMIT
    requires Leb128AsWritten(d, pos + 1, weight * 128, acc + d[pos] % 128 * weight) == r
    ensures Leb128AsWritten(d, pos, weight, acc) == r
  {
  }

  /** The last byte of a size that still fits in 64 bits. */
  lemma {:induction false} LebEnds(d: seq<byte>, pos: nat, weight: nat, acc: nat)
    requires pos < |d| && d[pos] < 128 && acc + d[pos] * weight < U64_LIMIT
    ensures Leb128AsWritten(d, pos, weight, acc) == Some((acc + d[pos] * weight, pos + 1))
  {
  }

  /** The size of the first OBU of WRAPPING_OBU is 2^64 - 11, which fits in
      a size_t. */
  lemma WrappingObuSize(d: seq<byte>)
    requires d == WRAPPING_OBU
    ensures Leb128AsWritten(d, 1, 1, 0) == Some((U64_LIMIT - 11, 11))
  {
    var r := Some((U64_LIMIT - 11, 11));
    LebEnds(d, 10, 0x8000_0000_0000_0000, 0x7FFF_FFFF_FFFF_FFF5);
    LebContinues(d, 9, 0x0100_0000_0000_0000, 0xFF_FFFF_FFFF_FFF5, r);
    LebContinues(d, 8, 0x2_0000_0000_0000, 0x1_FFFF_FFFF_FFF5, r);
    LebContinues(d, 7, 0x400_0000_0000, 0x3FF_FFFF_FFF5, r);
    LebContinues(d, 6, 0x8_0000_0000, 0x7_FFFF_FFF5, r);
    LebContinues(d, 5, 0x1000_0000, 0xFFF_FFF5, r);
    LebContinues(d, 4, 0x20_0000, 0x1F_FFF5, r);
    LebContinues(d, 3, 0x4000, 0x3FF5, r);
    LebContinues(d, 2, 0x80, 0x75, r);
    LebContinues(d, 1, 1, 0, r);
  }

  /** A turn over an OBU that is not a sequence header, whose size field
      ends `n` bytes short of 2^64, carries `pos` to 0. */
  lemma {:induction false} SizeWrapsToZero(d: seq<byte>, pos: nat, n: nat, q: nat)
    requires pos < |d| < U64_LIMIT
    requires !HasExtension(d[pos]) && HasSizeField(d[pos]) && ObuType(d[pos]) != 1
    requires Leb128AsWritten(d, pos + 1, 1, 0) == Some((n, q)) && q + n == U64_LIMIT
    ensures Av1StepAsWritten(d, pos) == Continue(0)
  {
  }

  /** The first byte of WRAPPING_OBU: a temporal delimiter with a size
      field and no extension. */
  lemma WrappingObuHeader(d: seq<byte>)
    requires d == WRAPPING_OBU
    ensures |d| == 11 && !HasExtension(d[0]) && HasSizeField(d[0]) && ObuType(d[0]) == 2
  {
    var h: byte := 0x12;
    assert !HasExtension(h) && HasSizeField(h) && ObuType(h) == 2;
    assert d[0] == h;
  }

  /** The first turn on WRAPPING_OBU ends where it started. */
  lemma WrappingObuReturnsToStart(d: seq<byte>)
    requires d == WRAPPING_OBU
    ensures Av1StepAsWritten(d, 0) == Continue(0)
  {
    WrappingObuHeader(d);
    WrappingObuSize(d);
    SizeWrapsToZero(d, 0, U64_LIMIT - 11, 11);
  }

  /** As written, the scan never ends on WRAPPING_OBU: the size of its first
      OBU carries `pos` from 11 back to 0, so every turn starts over. */
  lemma Av1ScanNeverEnds(fuel: nat)
    ensures ParseAv1SequenceHeaderAsWritten(WRAPPING_OBU, fuel) == Unfinished
  {
    WrappingObuReturnsToStart(WRAPPING_OBU);
    Av1LoopsInPlace(WRAPPING_OBU, 0, fuel);
  }

  /** A turn that ends where it started repeats for as long as the fuel
      lasts. */
  lemma {:induction false} Av1LoopsInPlace(d: seq<byte>, pos: nat, fuel: nat)
    requires pos < |d| < U64_LIMIT && Av1StepAsWritten(d, pos) == Continue(pos)
    ensures Av1ScanAsWritten(d, pos, fuel) == Unfinished
    decreases fuel
  {
    if fuel > 0 {
      Av1LoopsInPlace(d, pos, fuel - 1);
    }
  }

  /** One turn of the scan, corrected: an OBU whose header, size field or
      payload does not fit in the data ends the scan with no header, and
      the level is read as section 5.5.1 of the AV1 specification
      places it. */
  function Av1Step(d: seq<byte>, pos: nat): (s: Av1Turn)
    requires pos < |d|
    ensures s.Continue? ==> pos < s.pos <= |d|
    ensures s.Found? ==> pos < s.header.payload && s.header.payload + 3 <= |d| && ObuType(d[pos]) == 1
    ensures !s.ReadPastEnd?
  {
    var h := d[pos];
    var p := if HasExtension(h) then pos + 2 else pos + 1;
    if p > |d| then Fail
    else
      var size: Option<(nat, nat)> := if HasSizeField(h) then Leb128(d, p, 1, 0) else Some((|d| - p, p));
      if size.None? then Fail
      else
        var (obuSize, q) := size.value;
        if q + obuSize > |d| then Fail
        else if ObuType(h) == 1 then
          if obuSize < 3 then Fail else Found(SequenceHeader(d[q], d[q + 1], q))
        else Continue(q + obuSize)
  }

  /** The corrected scan from `pos`. */
  function Av1Scan(d: seq<byte>, pos: nat): (r: Option<Av1SequenceHeader>)
    requires pos <= |d|
    ensures r.Some? ==> pos < r.value.payload && r.value.payload + 3 <= |d|
    decreases |d| - pos
  {
    if pos == |d| then None
    else match Av1Step(d, pos)
      case Found(h) => Some(h)
      case Continue(next) => Av1Scan(d, next)
      case _ => None
  }

  /** parse_av1_sequence_header_obu, corrected: the loop of the source with
      every position checked against the size in unbounded arithmetic. It
      ends on every input, reads only inside the data, and reports a header
      whose payload of at least three bytes lies inside the data. */
  method ParseAv1SequenceHeader(d: seq<byte>) returns (r: Option<Av1SequenceHeader>)
    ensures |d| < 2 ==> r == None
    ensures |d| >= 2 ==> r == Av1Scan(d, 0)
    ensures r.Some? ==> r.value.payload + 3 <= |d|
  {
    if |d| < 2 {
      return None;
    }
    var pos := 0;
    while pos < |d|
      invariant pos <= |d| && Av1Scan(d, pos) == Av1Scan(d, 0)
      decreases |d| - pos
    {
      var step := Av1Step(d, pos);
      match step {
        case Found(h) => return Some(h);
        case Continue(next) => pos := next;
        case _ => return None;
      }
    }
    return None;
  }

  /** On both inputs that break the scan as written, the corrected scan
      finds no header. */
  lemma Av1CorrectedOnBreakingInputs()
    ensures Av1Scan([0x12, 0x00, 0x0C], 0) == None
    ensures Av1Scan(WRAPPING_OBU, 0) == None
  {
    var d: seq<byte> := [0x12, 0x00, 0x0C];
    assert Leb128(d, 1, 1, 0) == Some((0, 2));
    assert Av1Step(d, 0) == Continue(2);
    assert Av1Step(d, 2) == Fail;
    var w := WRAPPING_OBU;
    WrappingObuSizeUnbounded();
    assert Av1Step(w, 0) == Fail;
  }

  /** The first bytes of a reduced still-picture sequence header of the
      given profile and level (section 5.5.1 of the AV1 specification). */
  function ReducedSequenceHeader(profile: nat, level: nat): seq<byte>
    requires profile < 8 && level < 32
  {
    [profile * 32 + 16 + 8 + level / 4, level % 4 * 64, 0]
  }

  /** The corrected reading gives back the level of every reduced header;
      as written, level 0 (byte 0x18) is reported as level 24. */
  lemma Av1LevelRoundTrip(profile: nat, level: nat)
    requires profile < 8 && level < 32
    ensures var b := ReducedSequenceHeader(profile, level);
      SequenceHeader(b[0], b[1], 0).level == level && SequenceHeader(b[0], b[1], 0).profile == profile
    ensures SequenceHeaderAsWritten(ReducedSequenceHeader(0, 0)[0], 0).level == 24
  {
  }

  /** In unbounded arithmetic the size of WRAPPING_OBU is 2^64 - 11,
      far beyond the data. */
  lemma WrappingObuSizeUnbounded()
    ensures Leb128(WRAPPING_OBU, 1, 1, 0) == Some((U64_LIMIT - 11, 11))
  {
    var d := WRAPPING_OBU;
    assert Leb128(d, 10, 0x8000_0000_0000_0000, 0x7FFF_FFFF_FFFF_FFF5) == Some((U64_LIMIT - 11, 11));
    assert Leb128(d, 9, 0x0100_0000_0000_0000, 0xFF_FFFF_FFFF_FFF5) == Some((U64_LIMIT - 11, 11));
    assert Leb128(d, 8, 0x2_0000_0000_0000, 0x1_FFFF_FFFF_FFF5) == Some((U64_LIMIT - 11, 11));
    assert Leb128(d, 7, 0x400_0000_0000, 0x3FF_FFFF_FFF5) == Some((U64_LIMIT - 11, 11));
    assert Leb128(d, 6, 0x8_0000_0000, 0x7_FFFF_FFF5) == Some((U64_LIMIT - 11, 11));
    assert Leb128(d, 5, 0x1000_0000, 0xFFF_FFF5) == Some((U64_LIMIT - 11, 11));
    assert Leb128(d, 4, 0x20_0000, 0x1F_FFF5) == Some((U64_LIMIT - 11, 11));
    assert Leb128(d, 3, 0x4000, 0x3FF5) == Some((U64_LIMIT - 11, 11));
    assert Leb128(d, 2, 0x80, 0x75) == Some((U64_LIMIT - 11, 11));
  }
}
