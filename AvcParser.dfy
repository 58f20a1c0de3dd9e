/** H.264 parameter sets and the two containers they arrive in: an Annex B
    byte stream and an avcC decoder-configuration record (section 5.2.4.1.1
    of ISO/IEC 14496-15).

    The SPS and PPS parsers drive a `BitstreamReader`; each is proved equal to
    a pure function that walks the same syntax over the bit sequence
    (`AvcSpsOf`, `AvcPpsOf`), and the properties of the parse are lemmas about
    those functions. A parse failure inside a container is swallowed, as the
    source does with try/catch: the container keeps the last parameter set
    that parsed. */
module AvcParser {
  import opened Wrappers
  import opened Bytes
  import opened Bitstream
  import opened NalUtils

  const EMPTY_SPS := "SPS data is empty"
  const EMPTY_PPS := "PPS data is empty"
  const EMPTY_DATA := "data is empty"
  const AVCC_TOO_SHORT := "avcC data is too short"

  // nal_unit_type values (Table 7-1 of ITU-T H.264)
  const NAL_IDR_SLICE := 5
  const NAL_SPS := 7
  const NAL_PPS := 8

  // ---------------------------------------------------------------------------
  // NAL unit header

  datatype AvcNalUnitHeader = AvcNalUnitHeader(
    nalUnitType: byte, nalRefIdc: byte, isIdr: bool, isKeyFrame: bool)

  /** The one-byte NAL unit header: forbidden_zero_bit, nal_ref_idc (2 bits),
      nal_unit_type (5 bits). */
  function ParseAvcNalUnitHeader(firstByte: byte): (h: AvcNalUnitHeader)
    ensures h.nalUnitType < 32 && h.nalRefIdc < 4
    ensures h.isIdr <==> h.nalUnitType == NAL_IDR_SLICE
    ensures h.isKeyFrame <==> h.isIdr || h.nalUnitType == NAL_SPS
  {
    var t := firstByte % 32;
    AvcNalUnitHeader(t, firstByte / 32 % 4, t == NAL_IDR_SLICE, t == NAL_IDR_SLICE || t == NAL_SPS)
  }

  /** The header byte that carries the given fields. */
  function AvcNalHeaderByte(forbiddenZero: bit, refIdc: nat, nalType: nat): byte
    requires refIdc < 4 && nalType < 32
  {
    forbiddenZero * 128 + refIdc * 32 + nalType
  }

  /** Parsing a header byte gives back the fields it was built from ... */
  lemma AvcNalHeaderRoundTrip(forbiddenZero: bit, refIdc: nat, nalType: nat)
    requires refIdc < 4 && nalType < 32
    ensures ParseAvcNalUnitHeader(AvcNalHeaderByte(forbiddenZero, refIdc, nalType)).nalRefIdc == refIdc
    ensures ParseAvcNalUnitHeader(AvcNalHeaderByte(forbiddenZero, refIdc, nalType)).nalUnitType == nalType
  {
    var b := AvcNalHeaderByte(forbiddenZero, refIdc, nalType);
    assert b == (forbiddenZero * 4 + refIdc) * 32 + nalType;
    assert b / 32 == forbiddenZero * 4 + refIdc;
  }

  /** ... and the fields read from a byte, with its top bit, rebuild it. */
  lemma AvcNalHeaderFieldsRebuild(b: byte)
    ensures var h := ParseAvcNalUnitHeader(b);
      AvcNalHeaderByte(b / 128, h.nalRefIdc, h.nalUnitType) == b
  {
    assert b / 32 / 4 == b / 128;
  }

  // ---------------------------------------------------------------------------
  // Sequence parameter set

  /** A frame rate kept as the exact quotient time_scale / (2 num_units_in_tick)
      that the source computes in floating point. */
  datatype Rational = Rational(num: nat, den: nat)

  datatype AvcSpsInfo = AvcSpsInfo(
    profileIdc: byte, levelIdc: byte, constraintSetFlags: byte,
    width: nat, height: nat,
    bitDepthLuma: byte, bitDepthChroma: byte, chromaFormatIdc: byte,
    framerate: Option<Rational>, spsId: byte)

  /** profile_idc, the constraint flags byte, level_idc and
      seq_parameter_set_id as read. */
  datatype AvcSpsHead = AvcSpsHead(profileIdc: nat, constraintSetFlags: nat, levelIdc: nat, spsId: nat)

  /** The header byte is skipped; then three 8-bit fields and a ue(v). */
  function AvcSpsHeadAt(s: seq<bit>): Result<(AvcSpsHead, nat)>
  {
    var p0 :- SkipAt(s, 0, 8);
    var (profile, p1) :- BitsAt(s, p0, 8);
    var (constraint, p2) :- BitsAt(s, p1, 8);
    var (level, p3) :- BitsAt(s, p2, 8);
    var (spsId, p4) :- Ue(s, p3);
    Ok((AvcSpsHead(profile, constraint, level, spsId), p4))
  }

  /** The profiles for which the SPS carries chroma_format_idc, the bit depths
      and the scaling matrices. */
  predicate IsHighProfile(p: int)
  {
    p in {100, 110, 122, 244, 44, 83, 86, 118, 128, 138, 139, 134, 135}
  }

  /** The chroma fields, stored in uint8_t: the source truncates each ue(v). */
  datatype AvcChromaFields = AvcChromaFields(chromaFormatIdc: byte, bitDepthLuma: byte, bitDepthChroma: byte)

  /** The values the source keeps when the profile does not carry the fields. */
  const DEFAULT_CHROMA := AvcChromaFields(1, 8, 8)

  /** One scaling_list() from entry j, with the running lastScale/nextScale: a
      delta_scale is read only while nextScale is non-zero. The result is the
      position after the list. */
  function ScalingListAt(s: seq<bit>, p: nat, j: nat, size: nat, lastScale: int, nextScale: int): Result<nat>
    decreases size - j
  {
    if j >= size then Ok(p)
    else if nextScale != 0 then
      var (delta, q) :- Se(s, p);
      var next := CRem(lastScale + delta + 256, 256);
      ScalingListAt(s, q, j + 1, size, if next == 0 then lastScale else next, next)
    else
      ScalingListAt(s, p, j + 1, size, lastScale, nextScale)
  }

  /** One delta_scale of a list: the rest of the list is read after it,
      with nextScale = (lastScale + delta_scale + 256) % 256. */
  lemma ScalingDeltaStep(s: seq<bit>, p: nat, j: nat, size: nat, lastScale: int, nextScale: int, delta: int, q: nat)
    requires j < size && nextScale != 0 && Se(s, p) == Ok((delta, q))
    ensures var next := CRem(lastScale + delta + 256, 256);
      ScalingListAt(s, p, j, size, lastScale, nextScale) ==
        ScalingListAt(s, q, j + 1, size, if next == 0 then lastScale else next, next)
  {
  }

  /** List i of the matrix: seq_scaling_list_present_flag, then the list
      when present; lists 0-5 have 16 entries, the others 64. */
  function ScalingListEntryAt(s: seq<bit>, p: nat, i: nat): Result<nat>
  {
    var (present, q) :- BitAt(s, p);
    if present == 1 then ScalingListAt(s, q, 0, if i < 6 then 16 else 64, 8, 8) else Ok(q)
  }

  /** Lists i .. count - 1 of the matrix. */
  function ScalingListsAt(s: seq<bit>, p: nat, i: nat, count: nat): Result<nat>
    decreases count - i
  {
    if i >= count then Ok(p)
    else
      var q :- ScalingListEntryAt(s, p, i);
      ScalingListsAt(s, q, i + 1, count)
  }

  /** chroma_format_idc, truncated to uint8_t, and separate_colour_plane_flag
      for 4:4:4. */
  function AvcChromaFormatAt(s: seq<bit>, p: nat): Result<(byte, nat)>
  {
    var (chroma, p1) :- Ue(s, p);
    var c := U8(chroma);
    var p2 :- if c == 3 then SkipAt(s, p1, 1) else Ok(p1);
    Ok((c, p2))
  }

  /** chroma_format_idc (with separate_colour_plane_flag for 4:4:4) and the
      two bit depths, each ue(v) + 8. */
  function AvcBitDepthsAt(s: seq<bit>, p: nat): Result<(AvcChromaFields, nat)>
  {
    var (c, p2) :- AvcChromaFormatAt(s, p);
    var (depths, p3) :- UePairAt(s, p2);
    Ok((AvcChromaFields(c, U8(depths.0 + 8), U8(depths.1 + 8)), p3))
  }

  /** qpprime_y_zero_transform_bypass_flag and the scaling matrix: 8 lists, or
      12 for 4:4:4. */
  function AvcScalingMatrixAt(s: seq<bit>, p: nat, chroma: byte): Result<nat>
  {
    var p1 :- SkipAt(s, p, 1);
    var (matrix, p2) :- BitAt(s, p1);
    if matrix == 1 then ScalingListsAt(s, p2, 0, if chroma != 3 then 8 else 12) else Ok(p2)
  }

  /** The High-family block of the SPS. */
  function AvcChromaFieldsAt(s: seq<bit>, p: nat): Result<(AvcChromaFields, nat)>
  {
    var (cf, p1) :- AvcBitDepthsAt(s, p);
    var p2 :- AvcScalingMatrixAt(s, p1, cf.chromaFormatIdc);
    Ok((cf, p2))
  }

  /** k se(v) values skipped. */
  function SkipSesAt(s: seq<bit>, p: nat, k: nat): Result<nat>
    decreases k
  {
    if k == 0 then Ok(p)
    else
      var (_, q) :- Se(s, p);
      SkipSesAt(s, q, k - 1)
  }

  lemma SkipSesStep(s: seq<bit>, p: nat, k: nat, v: int, q: nat)
    requires k > 0 && Se(s, p) == Ok((v, q))
    ensures SkipSesAt(s, p, k) == SkipSesAt(s, q, k - 1)
  {
  }

  /** The fields of pic_order_cnt_type 1. */
  function AvcPocCycleAt(s: seq<bit>, p: nat): Result<nat>
  {
    var p1 :- SkipAt(s, p, 1);
    var (_, p2) :- Se(s, p1);
    var (_, p3) :- Se(s, p2);
    var (numRefFrames, p4) :- Ue(s, p3);
    SkipSesAt(s, p4, numRefFrames)
  }

  /** log2_max_frame_num_minus4 and the picture-order-count fields. */
  function AvcPocAt(s: seq<bit>, p: nat): Result<nat>
  {
    var (_, p1) :- Ue(s, p);
    var (pocType, p2) :- Ue(s, p1);
    if pocType == 0 then
      var (_, p3) :- Ue(s, p2);
      Ok(p3)
    else if pocType == 1 then AvcPocCycleAt(s, p2)
    else Ok(p2)
  }

  /** The syntax elements the picture size is computed from. */
  datatype AvcGeometry = AvcGeometry(
    widthInMbsMinus1: nat, heightInMapUnitsMinus1: nat, frameMbsOnly: bool,
    cropLeft: nat, cropRight: nat, cropTop: nat, cropBottom: nat)

  /** max_num_ref_frames .. direct_8x8_inference_flag: the picture size in
      macroblocks and frame_mbs_only_flag. */
  function AvcPicSizeAt(s: seq<bit>, p: nat): Result<((nat, nat, bool), nat)>
  {
    var (size, p1) :- AvcMbSizeAt(s, p);
    var (mbsOnly, p2) :- AvcFrameMbsAt(s, p1);
    Ok(((size.0, size.1, mbsOnly), p2))
  }

  /** max_num_ref_frames, gaps_in_frame_num_value_allowed_flag, then
      pic_width_in_mbs_minus1 and pic_height_in_map_units_minus1. */
  function AvcMbSizeAt(s: seq<bit>, p: nat): Result<((nat, nat), nat)>
  {
    var (_, p1) :- Ue(s, p);
    var p2 :- SkipAt(s, p1, 1);
    UePairAt(s, p2)
  }

  /** frame_mbs_only_flag, mb_adaptive_frame_field_flag when it is clear,
      and direct_8x8_inference_flag. */
  function AvcFrameMbsAt(s: seq<bit>, p: nat): Result<(bool, nat)>
  {
    var (mbsOnly, p1) :- BitAt(s, p);
    var p2 :- if mbsOnly == 0 then SkipAt(s, p1, 1) else Ok(p1);
    var p3 :- SkipAt(s, p2, 1);
    Ok((mbsOnly == 1, p3))
  }

  /** frame_cropping_flag and the four offsets, zero when the flag is clear. */
  function AvcCropAt(s: seq<bit>, p: nat): Result<((nat, nat, nat, nat), nat)>
  {
    var (cropping, p1) :- BitAt(s, p);
    if cropping == 1 then
      var (lr, p2) :- UePairAt(s, p1);
      var (tb, p3) :- UePairAt(s, p2);
      Ok(((lr.0, lr.1, tb.0, tb.1), p3))
    else
      Ok(((0, 0, 0, 0), p1))
  }

  function AvcGeometryAt(s: seq<bit>, p: nat): Result<(AvcGeometry, nat)>
  {
    var (size, p1) :- AvcPicSizeAt(s, p);
    var (crop, p2) :- AvcCropAt(s, p1);
    Ok((AvcGeometry(size.0, size.1, size.2, crop.0, crop.1, crop.2, crop.3), p2))
  }

  /** (SubWidthC, SubHeightC) as the source derives them from the stored
      (truncated) chroma_format_idc. */
  function AvcSubSampling(chroma: byte): (nat, nat)
  {
    if chroma == 0 then (1, 1)
    else ((if chroma == 3 then 1 else 2), (if chroma == 1 then 2 else 1))
  }

  /** For chroma_format_idc 1 (4:2:0), 2 (4:2:2) and 3 (4:4:4) the factors are
      those of Table 6-1 of ITU-T H.264, and monochrome has no subsampling. */
  lemma AvcSubSamplingTable()
    ensures AvcSubSampling(0) == (1, 1) && AvcSubSampling(1) == (2, 2)
    ensures AvcSubSampling(2) == (2, 1) && AvcSubSampling(3) == (1, 1)
    ensures forall c: byte :: AvcSubSampling(c).0 in {1, 2} && AvcSubSampling(c).1 in {1, 2}
  {
  }

  /** The uint32_t width: macroblock columns times 16, less the horizontal crop. */
  function AvcFrameWidth(g: AvcGeometry, chroma: byte): (w: nat)
    ensures w < U32_LIMIT
  {
    U32((g.widthInMbsMinus1 + 1) * 16 - (g.cropLeft + g.cropRight) * AvcSubSampling(chroma).0)
  }

  /** The uint32_t height: map-unit rows times 16 (doubled for field coding),
      less the vertical crop in units of SubHeightC (doubled for field coding). */
  function AvcFrameHeight(g: AvcGeometry, chroma: byte): (h: nat)
    ensures h < U32_LIMIT
  {
    var fieldFactor := if g.frameMbsOnly then 1 else 2;
    U32((g.heightInMapUnitsMinus1 + 1) * 16 * fieldFactor -
        (g.cropTop + g.cropBottom) * (AvcSubSampling(chroma).1 * fieldFactor))
  }

  /** When the crop fits inside the coded picture, width plus the cropped
      columns is the macroblock width and height plus the cropped rows the
      coded height, exactly (no uint32_t wrap-around). */
  lemma AvcFrameSizeExact(g: AvcGeometry, chroma: byte)
    requires (g.cropLeft + g.cropRight) * AvcSubSampling(chroma).0 <= (g.widthInMbsMinus1 + 1) * 16 < U32_LIMIT
    requires var f := if g.frameMbsOnly then 1 else 2;
      (g.cropTop + g.cropBottom) * AvcSubSampling(chroma).1 * f <= (g.heightInMapUnitsMinus1 + 1) * 16 * f < U32_LIMIT
    ensures AvcFrameWidth(g, chroma) + (g.cropLeft + g.cropRight) * AvcSubSampling(chroma).0
      == (g.widthInMbsMinus1 + 1) * 16
    ensures var f := if g.frameMbsOnly then 1 else 2;
      AvcFrameHeight(g, chroma) + (g.cropTop + g.cropBottom) * AvcSubSampling(chroma).1 * f
      == (g.heightInMapUnitsMinus1 + 1) * 16 * f
  {
    var f := if g.frameMbsOnly then 1 else 2;
    assert (g.cropTop + g.cropBottom) * (AvcSubSampling(chroma).1 * f)
      == (g.cropTop + g.cropBottom) * AvcSubSampling(chroma).1 * f;
  }

  /** Without cropping, a frame-coded picture is a whole number of 16x16
      macroblocks. */
  lemma AvcFrameSizeUncropped(g: AvcGeometry, chroma: byte)
    requires g.cropLeft == g.cropRight == g.cropTop == g.cropBottom == 0 && g.frameMbsOnly
    requires (g.widthInMbsMinus1 + 1) * 16 < U32_LIMIT && (g.heightInMapUnitsMinus1 + 1) * 16 < U32_LIMIT
    ensures AvcFrameWidth(g, chroma) % 16 == 0 && AvcFrameWidth(g, chroma) > 0
    ensures AvcFrameHeight(g, chroma) % 16 == 0 && AvcFrameHeight(g, chroma) > 0
  {
  }

  /** aspect_ratio_info: an 8-bit aspect_ratio_idc, and for Extended_SAR (255)
      a 32-bit sample aspect ratio. */
  function VuiAspectAt(s: seq<bit>, p: nat): Result<nat>
  {
    var (aspect, p1) :- BitAt(s, p);
    if aspect == 1 then
      var (idc, q) :- BitsAt(s, p1, 8);
      if idc == 255 then SkipAt(s, q, 32) else Ok(q)
    else Ok(p1)
  }

  /** overscan_info: the present flag and overscan_appropriate_flag. */
  function VuiOverscanAt(s: seq<bit>, p: nat): Result<nat>
  {
    var (overscan, p1) :- BitAt(s, p);
    if overscan == 1 then SkipAt(s, p1, 1) else Ok(p1)
  }

  /** video_signal_type, with its colour description. */
  function VuiSignalAt(s: seq<bit>, p: nat): Result<nat>
  {
    var (signal, p1) :- BitAt(s, p);
    if signal == 1 then
      var q1 :- SkipAt(s, p1, 4);
      var (colour, q2) :- BitAt(s, q1);
      if colour == 1 then SkipAt(s, q2, 24) else Ok(q2)
    else Ok(p1)
  }

  /** chroma_loc_info: two ue(v). */
  function VuiChromaLocAt(s: seq<bit>, p: nat): Result<nat>
  {
    var (chromaLoc, p1) :- BitAt(s, p);
    if chromaLoc == 1 then
      var (_, q1) :- Ue(s, p1);
      var (_, q2) :- Ue(s, q1);
      Ok(q2)
    else Ok(p1)
  }

  /** timing_info, read only while data remains: the frame rate when
      num_units_in_tick is non-zero. */
  function VuiTimingAt(s: seq<bit>, p: nat): (r: Result<Option<Rational>>)
    ensures r.Ok? && r.value.Some? ==>
      r.value.value.den > 0 && r.value.value.den % 2 == 0 &&
      r.value.value.num < U32_LIMIT && r.value.value.den < 2 * U32_LIMIT
  {
    if p >= |s| || s[p] == 0 then Ok(None)
    else
      var (units, p1) :- BitsAt(s, p + 1, 32);
      var (scale, _) :- BitsAt(s, p1, 32);
      BitsValueBound(s, p + 1, 32);
      BitsValueBound(s, p1, 32);
      Pow2Of32();
      Ok(if units > 0 then Some(Rational(scale, 2 * units)) else None)
  }

  /** vui_parameters(), as far as timing_info. */
  function AvcVuiAt(s: seq<bit>, p: nat): Result<Option<Rational>>
  {
    var (present, p1) :- BitAt(s, p);
    if present == 0 || p1 >= |s| then Ok(None)
    else
      var p2 :- VuiAspectAt(s, p1);
      var p3 :- VuiOverscanAt(s, p2);
      var p4 :- VuiSignalAt(s, p3);
      var p5 :- VuiChromaLocAt(s, p4);
      VuiTimingAt(s, p5)
  }

  /** The SPS fields after the chroma block, from position p. */
  function AvcSpsTailAt(s: seq<bit>, p: nat): Result<(AvcGeometry, Option<Rational>)>
  {
    var p1 :- AvcPocAt(s, p);
    var (g, p2) :- AvcGeometryAt(s, p1);
    var fr :- AvcVuiAt(s, p2);
    Ok((g, fr))
  }

  function AvcSpsInfoOf(head: AvcSpsHead, cf: AvcChromaFields, g: AvcGeometry, fr: Option<Rational>): AvcSpsInfo
  {
    AvcSpsInfo(U8(head.profileIdc), U8(head.levelIdc), U8(head.constraintSetFlags),
               AvcFrameWidth(g, cf.chromaFormatIdc), AvcFrameHeight(g, cf.chromaFormatIdc),
               cf.bitDepthLuma, cf.bitDepthChroma, cf.chromaFormatIdc, fr, U8(head.spsId))
  }

  /** parse_avc_sps as a function of the NAL unit bytes: the syntax of section
      7.3.2.1.1 of ITU-T H.264 read from the RBSP, as far as the VUI timing
      information. */
  function AvcSpsOf(data: seq<byte>): Result<AvcSpsInfo>
  {
    if data == [] then Err(EMPTY_SPS)
    else
      var s := BitsOf(RemoveEpb(data));
      var (head, p4) :- AvcSpsHeadAt(s);
      var (cf, p5) :- if IsHighProfile(head.profileIdc) then AvcChromaFieldsAt(s, p4) else Ok((DEFAULT_CHROMA, p4));
      var (g, fr) :- AvcSpsTailAt(s, p5);
      Ok(AvcSpsInfoOf(head, cf, g, fr))
  }

  /** The three fixed fields of the SPS head are RBSP bytes 1-3, and the SPS
      id is the ue(v) at bit 32. */
  lemma AvcSpsHeadBytes(rbsp: seq<byte>)
    requires AvcSpsHeadAt(BitsOf(rbsp)).Ok?
    ensures var head := AvcSpsHeadAt(BitsOf(rbsp)).value.0;
      |rbsp| >= 5 && head.profileIdc == rbsp[1] && head.constraintSetFlags == rbsp[2] &&
      head.levelIdc == rbsp[3]
    ensures Ue(BitsOf(rbsp), 32).Ok? && AvcSpsHeadAt(BitsOf(rbsp)).value.0.spsId == Ue(BitsOf(rbsp), 32).value.0
  {
    var s := BitsOf(rbsp);
    var head := AvcSpsHeadAt(s).value.0;
    assert SkipAt(s, 0, 8) == Ok(8);
    assert BitsAt(s, 8, 8) == Ok((BitsValue(s, 8, 8), 16));
    assert BitsAt(s, 16, 8) == Ok((BitsValue(s, 16, 8), 24));
    assert BitsAt(s, 24, 8) == Ok((BitsValue(s, 24, 8), 32));
    assert Ue(s, 32).Ok?;
    UeShape(s, 32);
    assert |rbsp| >= 5;
    ByteValue(rbsp, 1);
    ByteValue(rbsp, 2);
    ByteValue(rbsp, 3);
  }

  /** profile_idc, the constraint flags and level_idc of a parsed SPS are RBSP
      bytes 1-3 (profile_idc is also byte 1 of the NAL unit itself), and its
      id is the ue(v) at bit 32, truncated to uint8_t. */
  lemma AvcSpsHeaderBytes(data: seq<byte>)
    requires AvcSpsOf(data).Ok?
    ensures var rbsp := RemoveEpb(data); var sps := AvcSpsOf(data).value;
      |rbsp| >= 5 && sps.profileIdc == rbsp[1] && sps.constraintSetFlags == rbsp[2] &&
      sps.levelIdc == rbsp[3] && |data| >= 5 && sps.profileIdc == data[1]
    ensures var s := BitsOf(RemoveEpb(data));
      Ue(s, 32).Ok? && AvcSpsOf(data).value.spsId == U8(Ue(s, 32).value.0)
  {
    var rbsp := RemoveEpb(data);
    var sps := AvcSpsOf(data).value;
    assert AvcSpsHeadAt(BitsOf(rbsp)).Ok?;
    var head := AvcSpsHeadAt(BitsOf(rbsp)).value.0;
    assert sps.profileIdc == U8(head.profileIdc) && sps.levelIdc == U8(head.levelIdc) &&
      sps.constraintSetFlags == U8(head.constraintSetFlags) && sps.spsId == U8(head.spsId);
    AvcSpsHeadBytes(rbsp);
    RemoveEpbLength(data);
    SecondByteKept(data);
  }

  lemma SecondByteKept(data: seq<byte>)
    requires |data| >= 2
    ensures |RemoveEpb(data)| >= 2 && RemoveEpb(data)[1] == data[1]
  {
    RemoveEpbPrefix(data);
  }

  /** Outside the High family the chroma format and bit depths keep their
      defaults: 4:2:0, 8 bits. */
  lemma AvcSpsDefaults(data: seq<byte>)
    requires AvcSpsOf(data).Ok? && !IsHighProfile(AvcSpsOf(data).value.profileIdc)
    ensures AvcSpsOf(data).value.chromaFormatIdc == 1
    ensures AvcSpsOf(data).value.bitDepthLuma == 8 && AvcSpsOf(data).value.bitDepthChroma == 8
  {
    var s := BitsOf(RemoveEpb(data));
    assert AvcSpsHeadAt(s).Ok?;
    BitsValueBound(s, 8, 8);
    Pow2Small();
  }

  // ---------------------------------------------------------------------------
  // The SPS parser as the source runs it

  method ReadScalingList(reader: BitstreamReader, size: nat) returns (r: Result<()>)
    requires reader.Valid()
    modifies reader
    ensures reader.Valid()
    ensures r.Ok? <==> ScalingListAt(reader.bits, old(reader.Pos()), 0, size, 8, 8).Ok?
    ensures r.Err? ==> r.error == ScalingListAt(reader.bits, old(reader.Pos()), 0, size, 8, 8).error
    ensures r.Ok? ==> reader.Pos() == ScalingListAt(reader.bits, old(reader.Pos()), 0, size, 8, 8).value
  {
    ghost var spec := ScalingListAt(reader.bits, reader.Pos(), 0, size, 8, 8);
    var lastScale: int := 8;
    var nextScale: int := 8;
    var j := 0;
    while j < size
      invariant reader.Valid() && j <= size
      invariant ScalingListAt(reader.bits, reader.Pos(), j, size, lastScale, nextScale) == spec
    {
      if nextScale != 0 {
        ghost var p := reader.Pos();
        var delta :- reader.ReadSe();
        ScalingDeltaStep(reader.bits, p, j, size, lastScale, nextScale, delta, reader.Pos());
        nextScale := CRem(lastScale + delta + 256, 256);
      }
      lastScale := if nextScale == 0 then lastScale else nextScale;
      j := j + 1;
    }
    r := Ok(());
  }

  method ReadScalingListEntry(reader: BitstreamReader, i: nat) returns (r: Result<()>)
    requires reader.Valid()
    modifies reader
    ensures reader.Valid()
    ensures r.Ok? <==> ScalingListEntryAt(reader.bits, old(reader.Pos()), i).Ok?
    ensures r.Err? ==> r.error == ScalingListEntryAt(reader.bits, old(reader.Pos()), i).error
    ensures r.Ok? ==> reader.Pos() == ScalingListEntryAt(reader.bits, old(reader.Pos()), i).value
  {
    var present :- reader.ReadBit();
    if present == 1 {
      r := ReadScalingList(reader, if i < 6 then 16 else 64);
    } else {
      r := Ok(());
    }
  }

  method ReadScalingLists(reader: BitstreamReader, count: nat) returns (r: Result<()>)
    requires reader.Valid()
    modifies reader
    ensures reader.Valid()
    ensures r.Ok? <==> ScalingListsAt(reader.bits, old(reader.Pos()), 0, count).Ok?
    ensures r.Err? ==> r.error == ScalingListsAt(reader.bits, old(reader.Pos()), 0, count).error
    ensures r.Ok? ==> reader.Pos() == ScalingListsAt(reader.bits, old(reader.Pos()), 0, count).value
  {
    ghost var spec := ScalingListsAt(reader.bits, reader.Pos(), 0, count);
    var i := 0;
    while i < count
      invariant reader.Valid() && i <= count
      invariant ScalingListsAt(reader.bits, reader.Pos(), i, count) == spec
    {
      var _ :- ReadScalingListEntry(reader, i);
      i := i + 1;
    }
    r := Ok(());
  }

  method ReadAvcChromaFormat(reader: BitstreamReader) returns (r: Result<byte>)
    requires reader.Valid()
    modifies reader
    ensures reader.Valid()
    ensures r == ValueOf(AvcChromaFormatAt(reader.bits, old(reader.Pos())))
    ensures r.Ok? ==> reader.Pos() == AvcChromaFormatAt(reader.bits, old(reader.Pos())).value.1
  {
    var chroma :- reader.ReadUe();
    var c := U8(chroma);
    if c == 3 {
      var _ :- reader.SkipBits(1);
    }
    r := Ok(c);
  }

  method ReadAvcBitDepths(reader: BitstreamReader) returns (r: Result<AvcChromaFields>)
    requires reader.Valid()
    modifies reader
    ensures reader.Valid()
    ensures r == ValueOf(AvcBitDepthsAt(reader.bits, old(reader.Pos())))
    ensures r.Ok? ==> reader.Pos() == AvcBitDepthsAt(reader.bits, old(reader.Pos())).value.1
  {
    var c :- ReadAvcChromaFormat(reader);
    var depths :- reader.ReadUePair();
    r := Ok(AvcChromaFields(c, U8(depths.0 + 8), U8(depths.1 + 8)));
  }

  method SkipAvcScalingMatrix(reader: BitstreamReader, chroma: byte) returns (r: Result<()>)
    requires reader.Valid()
    modifies reader
    ensures reader.Valid()
    ensures r.Ok? <==> AvcScalingMatrixAt(reader.bits, old(reader.Pos()), chroma).Ok?
    ensures r.Err? ==> r.error == AvcScalingMatrixAt(reader.bits, old(reader.Pos()), chroma).error
    ensures r.Ok? ==> reader.Pos() == AvcScalingMatrixAt(reader.bits, old(reader.Pos()), chroma).value
  {
    var _ :- reader.SkipBits(1);
    var matrix :- reader.ReadBit();
    if matrix == 1 {
      var _ :- ReadScalingLists(reader, if chroma != 3 then 8 else 12);
    }
    r := Ok(());
  }

  method ReadAvcChromaFields(reader: BitstreamReader) returns (r: Result<AvcChromaFields>)
    requires reader.Valid()
    modifies reader
    ensures reader.Valid()
    ensures r == ValueOf(AvcChromaFieldsAt(reader.bits, old(reader.Pos())))
    ensures r.Ok? ==> reader.Pos() == AvcChromaFieldsAt(reader.bits, old(reader.Pos())).value.1
  {
    var cf :- ReadAvcBitDepths(reader);
    var _ :- SkipAvcScalingMatrix(reader, cf.chromaFormatIdc);
    r := Ok(cf);
  }

  method SkipSes(reader: BitstreamReader, k: nat) returns (r: Result<()>)
    requires reader.Valid()
    modifies reader
    ensures reader.Valid()
    ensures r.Ok? <==> SkipSesAt(reader.bits, old(reader.Pos()), k).Ok?
    ensures r.Err? ==> r.error == SkipSesAt(reader.bits, old(reader.Pos()), k).error
    ensures r.Ok? ==> reader.Pos() == SkipSesAt(reader.bits, old(reader.Pos()), k).value
  {
    ghost var spec := SkipSesAt(reader.bits, reader.Pos(), k);
    ghost var left := k;
    var i := 0;
    while i < k
      invariant reader.Valid() && i <= k && left == k - i
      invariant SkipSesAt(reader.bits, reader.Pos(), left) == spec
    {
      ghost var p := reader.Pos();
      var v :- reader.ReadSe();
      SkipSesStep(reader.bits, p, left, v, reader.Pos());
      i, left := i + 1, left - 1;
    }
    r := Ok(());
  }

  method SkipAvcPocCycle(reader: BitstreamReader) returns (r: Result<()>)
    requires reader.Valid()
    modifies reader
    ensures reader.Valid()
    ensures r.Ok? <==> AvcPocCycleAt(reader.bits, old(reader.Pos())).Ok?
    ensures r.Err? ==> r.error == AvcPocCycleAt(reader.bits, old(reader.Pos())).error
    ensures r.Ok? ==> reader.Pos() == AvcPocCycleAt(reader.bits, old(reader.Pos())).value
  {
    var _ :- reader.SkipBits(1);
    var _ :- reader.ReadSe();
    var _ :- reader.ReadSe();
    var numRefFrames :- reader.ReadUe();
    r := SkipSes(reader, numRefFrames);
  }

  method SkipAvcPoc(reader: BitstreamReader) returns (r: Result<()>)
    requires reader.Valid()
    modifies reader
    ensures reader.Valid()
    ensures r.Ok? <==> AvcPocAt(reader.bits, old(reader.Pos())).Ok?
    ensures r.Err? ==> r.error == AvcPocAt(reader.bits, old(reader.Pos())).error
    ensures r.Ok? ==> reader.Pos() == AvcPocAt(reader.bits, old(reader.Pos())).value
  {
    var _ :- reader.ReadUe();
    var pocType :- reader.ReadUe();
    if pocType == 0 {
      var _ :- reader.ReadUe();
    } else if pocType == 1 {
      var _ :- SkipAvcPocCycle(reader);
    }
    r := Ok(());
  }

  method ReadAvcPicSize(reader: BitstreamReader) returns (r: Result<(nat, nat, bool)>)
    requires reader.Valid()
    modifies reader
    ensures reader.Valid()
    ensures r == ValueOf(AvcPicSizeAt(reader.bits, old(reader.Pos())))
    ensures r.Ok? ==> reader.Pos() == AvcPicSizeAt(reader.bits, old(reader.Pos())).value.1
  {
    var size :- ReadAvcMbSize(reader);
    var mbsOnly :- ReadAvcFrameMbs(reader);
    r := Ok((size.0, size.1, mbsOnly));
  }

  method ReadAvcMbSize(reader: BitstreamReader) returns (r: Result<(nat, nat)>)
    requires reader.Valid()
    modifies reader
    ensures reader.Valid()
    ensures r == ValueOf(AvcMbSizeAt(reader.bits, old(reader.Pos())))
    ensures r.Ok? ==> reader.Pos() == AvcMbSizeAt(reader.bits, old(reader.Pos())).value.1
  {
    var _ :- reader.ReadUe();
    var _ :- reader.SkipBits(1);
    r := reader.ReadUePair();
  }

  method ReadAvcFrameMbs(reader: BitstreamReader) returns (r: Result<bool>)
    requires reader.Valid()
    modifies reader
    ensures reader.Valid()
    ensures r == ValueOf(AvcFrameMbsAt(reader.bits, old(reader.Pos())))
    ensures r.Ok? ==> reader.Pos() == AvcFrameMbsAt(reader.bits, old(reader.Pos())).value.1
  {
    var mbsOnly :- reader.ReadBit();
    if mbsOnly == 0 {
      var _ :- reader.SkipBits(1);
    }
    var _ :- reader.SkipBits(1);
    r := Ok(mbsOnly == 1);
  }

  method ReadAvcCrop(reader: BitstreamReader) returns (r: Result<(nat, nat, nat, nat)>)
    requires reader.Valid()
    modifies reader
    ensures reader.Valid()
    ensures r == ValueOf(AvcCropAt(reader.bits, old(reader.Pos())))
    ensures r.Ok? ==> reader.Pos() == AvcCropAt(reader.bits, old(reader.Pos())).value.1
  {
    var cropping :- reader.ReadBit();
    if cropping == 1 {
      var leftRight :- reader.ReadUePair();
      var topBottom :- reader.ReadUePair();
      r := Ok((leftRight.0, leftRight.1, topBottom.0, topBottom.1));
    } else {
      r := Ok((0, 0, 0, 0));
    }
  }

  method ReadAvcGeometry(reader: BitstreamReader) returns (r: Result<AvcGeometry>)
    requires reader.Valid()
    modifies reader
    ensures reader.Valid()
    ensures r == ValueOf(AvcGeometryAt(reader.bits, old(reader.Pos())))
    ensures r.Ok? ==> reader.Pos() == AvcGeometryAt(reader.bits, old(reader.Pos())).value.1
  {
    var size :- ReadAvcPicSize(reader);
    var crop :- ReadAvcCrop(reader);
    r := Ok(AvcGeometry(size.0, size.1, size.2, crop.0, crop.1, crop.2, crop.3));
  }

  method SkipVuiAspect(reader: BitstreamReader) returns (r: Result<()>)
    requires reader.Valid()
    modifies reader
    ensures reader.Valid()
    ensures r.Ok? <==> VuiAspectAt(reader.bits, old(reader.Pos())).Ok?
    ensures r.Err? ==> r.error == VuiAspectAt(reader.bits, old(reader.Pos())).error
    ensures r.Ok? ==> reader.Pos() == VuiAspectAt(reader.bits, old(reader.Pos())).value
  {
    var aspect :- reader.ReadBit();
    if aspect == 1 {
      var idc :- reader.ReadBits(8);
      if idc == 255 {
        var _ :- reader.SkipBits(32);
      }
    }
    r := Ok(());
  }

  method SkipVuiOverscan(reader: BitstreamReader) returns (r: Result<()>)
    requires reader.Valid()
    modifies reader
    ensures reader.Valid()
    ensures r.Ok? <==> VuiOverscanAt(reader.bits, old(reader.Pos())).Ok?
    ensures r.Err? ==> r.error == VuiOverscanAt(reader.bits, old(reader.Pos())).error
    ensures r.Ok? ==> reader.Pos() == VuiOverscanAt(reader.bits, old(reader.Pos())).value
  {
    var overscan :- reader.ReadBit();
    if overscan == 1 {
      var _ :- reader.SkipBits(1);
    }
    r := Ok(());
  }

  method SkipVuiSignal(reader: BitstreamReader) returns (r: Result<()>)
    requires reader.Valid()
    modifies reader
    ensures reader.Valid()
    ensures r.Ok? <==> VuiSignalAt(reader.bits, old(reader.Pos())).Ok?
    ensures r.Err? ==> r.error == VuiSignalAt(reader.bits, old(reader.Pos())).error
    ensures r.Ok? ==> reader.Pos() == VuiSignalAt(reader.bits, old(reader.Pos())).value
  {
    var signal :- reader.ReadBit();
    if signal == 1 {
      var _ :- reader.SkipBits(4);
      var colour :- reader.ReadBit();
      if colour == 1 {
        var _ :- reader.SkipBits(24);
      }
    }
    r := Ok(());
  }

  method SkipVuiChromaLoc(reader: BitstreamReader) returns (r: Result<()>)
    requires reader.Valid()
    modifies reader
    ensures reader.Valid()
    ensures r.Ok? <==> VuiChromaLocAt(reader.bits, old(reader.Pos())).Ok?
    ensures r.Err? ==> r.error == VuiChromaLocAt(reader.bits, old(reader.Pos())).error
    ensures r.Ok? ==> reader.Pos() == VuiChromaLocAt(reader.bits, old(reader.Pos())).value
  {
    var chromaLoc :- reader.ReadBit();
    if chromaLoc == 1 {
      var _ :- reader.ReadUe();
      var _ :- reader.ReadUe();
    }
    r := Ok(());
  }

  method ReadVuiTiming(reader: BitstreamReader) returns (r: Result<Option<Rational>>)
    requires reader.Valid()
    modifies reader
    ensures reader.Valid()
    ensures r == VuiTimingAt(reader.bits, old(reader.Pos()))
  {
    if !reader.HasMoreData() {
      return Ok(None);
    }
    var timing :- reader.ReadBit();
    if timing == 0 {
      return Ok(None);
    }
    var units :- reader.ReadBits(32);
    var scale :- reader.ReadBits(32);
    r := Ok(if units > 0 then Some(Rational(scale, 2 * units)) else None);
  }

  method ReadAvcVui(reader: BitstreamReader) returns (r: Result<Option<Rational>>)
    requires reader.Valid()
    modifies reader
    ensures reader.Valid()
    ensures r == AvcVuiAt(reader.bits, old(reader.Pos()))
  {
    var present :- reader.ReadBit();
    if present == 0 || !reader.HasMoreData() {
      return Ok(None);
    }
    var _ :- SkipVuiAspect(reader);
    var _ :- SkipVuiOverscan(reader);
    var _ :- SkipVuiSignal(reader);
    var _ :- SkipVuiChromaLoc(reader);
    r := ReadVuiTiming(reader);
  }

  method ReadAvcSpsTail(reader: BitstreamReader) returns (r: Result<(AvcGeometry, Option<Rational>)>)
    requires reader.Valid()
    modifies reader
    ensures reader.Valid()
    ensures r == AvcSpsTailAt(reader.bits, old(reader.Pos()))
  {
    var _ :- SkipAvcPoc(reader);
    var g :- ReadAvcGeometry(reader);
    var fr :- ReadAvcVui(reader);
    r := Ok((g, fr));
  }

  method ReadAvcSpsHead(reader: BitstreamReader) returns (r: Result<AvcSpsHead>)
    requires reader.Valid() && reader.Pos() == 0
    modifies reader
    ensures reader.Valid()
    ensures r == ValueOf(AvcSpsHeadAt(reader.bits))
    ensures r.Ok? ==> reader.Pos() == AvcSpsHeadAt(reader.bits).value.1
  {
    var _ :- reader.SkipBits(8);
    var profile :- reader.ReadBits(8);
    var constraint :- reader.ReadBits(8);
    var level :- reader.ReadBits(8);
    var spsId :- reader.ReadUe();
    r := Ok(AvcSpsHead(profile, constraint, level, spsId));
  }

  /** parse_avc_sps */
  method ParseAvcSps(data: seq<byte>) returns (r: Result<AvcSpsInfo>)
    ensures r == AvcSpsOf(data)
  {
    if |data| == 0 {
      return Err(EMPTY_SPS);
    }
    var rbsp := RemoveEmulationPreventionBytes(data);
    var reader := new BitstreamReader(rbsp);
    var head :- ReadAvcSpsHead(reader);
    var cf := DEFAULT_CHROMA;
    if IsHighProfile(head.profileIdc) {
      cf :- ReadAvcChromaFields(reader);
    }
    var tail :- ReadAvcSpsTail(reader);
    r := Ok(AvcSpsInfoOf(head, cf, tail.0, tail.1));
  }

  // ---------------------------------------------------------------------------
  // Picture parameter set

  datatype AvcPpsInfo = AvcPpsInfo(ppsId: byte, spsId: byte, entropyCodingModeFlag: bool)

  /** parse_avc_pps as a function: pic_parameter_set_id, seq_parameter_set_id
      and entropy_coding_mode_flag after the header byte. */
  function AvcPpsOf(data: seq<byte>): Result<AvcPpsInfo>
  {
    if data == [] then Err(EMPTY_PPS)
    else
      var s := BitsOf(RemoveEpb(data));
      var p0 :- SkipAt(s, 0, 8);
      var (ppsId, p1) :- Ue(s, p0);
      var (spsId, p2) :- Ue(s, p1);
      var (entropy, _) :- BitAt(s, p2);
      Ok(AvcPpsInfo(U8(ppsId), U8(spsId), entropy == 1))
  }

  method ParseAvcPps(data: seq<byte>) returns (r: Result<AvcPpsInfo>)
    ensures r == AvcPpsOf(data)
  {
    if |data| == 0 {
      return Err(EMPTY_PPS);
    }
    var rbsp := RemoveEmulationPreventionBytes(data);
    var reader := new BitstreamReader(rbsp);
    var _ :- reader.SkipBits(8);
    var ppsId :- reader.ReadUe();
    var spsId :- reader.ReadUe();
    var entropy :- reader.ReadBit();
    r := Ok(AvcPpsInfo(U8(ppsId), U8(spsId), entropy == 1));
  }

  /** The PPS ids are the two ue(v) codes after the header byte, truncated to
      uint8_t. */
  lemma AvcPpsIdsAreUe(data: seq<byte>)
    requires AvcPpsOf(data).Ok?
    ensures var s := BitsOf(RemoveEpb(data));
      Ue(s, 8).Ok? && AvcPpsOf(data).value.ppsId == U8(Ue(s, 8).value.0) &&
      Ue(s, Ue(s, 8).value.1).Ok? &&
      AvcPpsOf(data).value.spsId == U8(Ue(s, Ue(s, 8).value.1).value.0)
  {
  }

  // ---------------------------------------------------------------------------
  // Annex B stream

  datatype AvcAnnexBInfo = AvcAnnexBInfo(
    sps: Option<AvcSpsInfo>, pps: Option<AvcPpsInfo>, nalUnits: seq<AvcNalUnitHeader>)

  /** The parameter-set parsers a container parse uses. The container
      functions take them as a value, so that a statement about a container
      holds for any parsers; the parse itself uses `AVC_PARSERS`, the
      functions `ParseAvcSps` and `ParseAvcPps` are proved to compute. */
  datatype AvcParsers = AvcParsers(sps: seq<byte> -> Result<AvcSpsInfo>, pps: seq<byte> -> Result<AvcPpsInfo>)

  const AVC_PARSERS := AvcParsers(AvcSpsOf, AvcPpsOf)

  /** The effect of one unit on what the loop of parse_avc_annexb has
      gathered: a non-empty unit adds its header, and an SPS or PPS unit
      that parses replaces the one kept so far. */
  function AvcUnitStep(prev: AvcAnnexBInfo, d: seq<byte>, u: NalUnit, ps: AvcParsers): AvcAnnexBInfo
    requires u.offset + u.length <= |d|
  {
    if u.length == 0 then prev
    else
      var h := ParseAvcNalUnitHeader(d[u.offset]);
      var withHeader := prev.(nalUnits := prev.nalUnits + [h]);
      if h.nalUnitType == NAL_SPS then withHeader.(sps := KeepLast(prev.sps, ps.sps(Payload(d, u))))
      else if h.nalUnitType == NAL_PPS then withHeader.(pps := KeepLast(prev.pps, ps.pps(Payload(d, u))))
      else withHeader
  }

  /** The loop of parse_avc_annexb over the first |units| units. */
  function AvcAnnexbInfoOf(d: seq<byte>, units: seq<NalUnit>, ps: AvcParsers): AvcAnnexBInfo
    requires UnitsInBounds(d, units)
  {
    if units == [] then AvcAnnexBInfo(None, None, [])
    else AvcUnitStep(AvcAnnexbInfoOf(d, units[..|units| - 1], ps), d, units[|units| - 1], ps)
  }

  lemma AvcAnnexbInfoStep(d: seq<byte>, units: seq<NalUnit>, i: nat, ps: AvcParsers)
    requires i < |units| && UnitsInBounds(d, units)
    ensures UnitsInBounds(d, units[..i]) && UnitsInBounds(d, units[..i + 1])
    ensures AvcAnnexbInfoOf(d, units[..i + 1], ps) == AvcUnitStep(AvcAnnexbInfoOf(d, units[..i], ps), d, units[i], ps)
  {
    assert units[..i + 1][..i] == units[..i];
  }

  /** parse_avc_annexb as a function of the stream. */
  function AvcAnnexbOf(data: seq<byte>): Result<AvcAnnexBInfo>
  {
    if data == [] then Err(EMPTY_DATA)
    else
      AnnexbUnitsPlaced(data);
      Ok(AvcAnnexbInfoOf(data, AnnexbUnits(data), AVC_PARSERS))
  }

  /** One header per non-empty unit, in stream order, each parsed from the
      unit's first byte. */
  lemma {:induction false} AvcAnnexbHeaders(d: seq<byte>, units: seq<NalUnit>, ps: AvcParsers)
    requires UnitsInBounds(d, units)
    requires forall k :: 0 <= k < |units| ==> units[k].length > 0
    ensures |AvcAnnexbInfoOf(d, units, ps).nalUnits| == |units|
    ensures forall k :: 0 <= k < |units| ==>
      AvcAnnexbInfoOf(d, units, ps).nalUnits[k] == ParseAvcNalUnitHeader(d[units[k].offset])
  {
    if units != [] {
      var init := units[..|units| - 1];
      assert UnitsInBounds(d, init);
      AvcAnnexbHeaders(d, init, ps);
    }
  }

  /** A unit of the stream that is an SPS by its header and whose bytes
      parse. */
  predicate AvcSpsParses(d: seq<byte>, u: NalUnit, ps: AvcParsers)
  {
    0 < u.length && u.offset + u.length <= |d| &&
    ParseAvcNalUnitHeader(d[u.offset]).nalUnitType == NAL_SPS && ps.sps(Payload(d, u)).Ok?
  }

  /** One unit changes the SPS exactly when it is an SPS that parses. */
  lemma AvcSpsStep(prev: AvcAnnexBInfo, d: seq<byte>, u: NalUnit, ps: AvcParsers)
    requires u.offset + u.length <= |d|
    ensures AvcSpsParses(d, u, ps) ==> AvcUnitStep(prev, d, u, ps).sps == Some(ps.sps(Payload(d, u)).value)
    ensures !AvcSpsParses(d, u, ps) ==> AvcUnitStep(prev, d, u, ps).sps == prev.sps
  {
  }

  /** The reported SPS is that of the last SPS unit whose bytes parse: later
      SPS units that fail to parse leave it in place, and with no such unit
      there is none. */
  lemma {:induction false} AvcAnnexbSpsSource(d: seq<byte>, units: seq<NalUnit>, ps: AvcParsers)
    requires UnitsInBounds(d, units)
    ensures AvcAnnexbInfoOf(d, units, ps).sps.Some? ==>
      exists k :: 0 <= k < |units| && AvcSpsParses(d, units[k], ps) &&
        ps.sps(Payload(d, units[k])) == Ok(AvcAnnexbInfoOf(d, units, ps).sps.value) &&
        forall j :: k < j < |units| ==> !AvcSpsParses(d, units[j], ps)
  {
    if units != [] {
      var n := |units| - 1;
      var init, u := units[..n], units[n];
      assert UnitsInBounds(d, init);
      assert forall k :: 0 <= k < n ==> units[k] == init[k];
      AvcAnnexbSpsSource(d, init, ps);
      var prev := AvcAnnexbInfoOf(d, init, ps);
      var sps := AvcAnnexbInfoOf(d, units, ps).sps;
      AvcSpsStep(prev, d, u, ps);
      if !AvcSpsParses(d, u, ps) {
        if sps.Some? {
          var k :| 0 <= k < n && AvcSpsParses(d, init[k], ps) &&
            ps.sps(Payload(d, init[k])) == Ok(prev.sps.value) &&
            forall j :: k < j < n ==> !AvcSpsParses(d, init[j], ps);
          assert forall j :: k < j < |units| ==> !AvcSpsParses(d, units[j], ps);
        }
      }
    }
  }

  /** No SPS is reported exactly when no SPS unit of the stream parses. */
  lemma {:induction false} AvcAnnexbSpsNone(d: seq<byte>, units: seq<NalUnit>, ps: AvcParsers)
    requires UnitsInBounds(d, units)
    ensures AvcAnnexbInfoOf(d, units, ps).sps.None? <==>
      forall k :: 0 <= k < |units| ==> !AvcSpsParses(d, units[k], ps)
  {
    if units != [] {
      var n := |units| - 1;
      var init := units[..n];
      assert UnitsInBounds(d, init);
      assert forall k :: 0 <= k < n ==> units[k] == init[k];
      AvcAnnexbSpsNone(d, init, ps);
      AvcSpsStep(AvcAnnexbInfoOf(d, init, ps), d, units[n], ps);
    }
  }

  /** The stream is refused only when it is empty: malformed parameter sets are
      skipped, and every unit the scanner finds gets its header. */
  lemma AvcAnnexbTotal(data: seq<byte>)
    ensures AvcAnnexbOf(data).Err? <==> data == []
    ensures AvcAnnexbOf(data).Ok? ==>
      |AvcAnnexbOf(data).value.nalUnits| == |AnnexbUnits(data)| &&
      forall k :: 0 <= k < |AnnexbUnits(data)| ==>
        AnnexbUnits(data)[k].offset < |data| &&
        AvcAnnexbOf(data).value.nalUnits[k] == ParseAvcNalUnitHeader(data[AnnexbUnits(data)[k].offset])
  {
    if data != [] {
      AnnexbUnitsPlaced(data);
      AvcAnnexbHeaders(data, AnnexbUnits(data), AVC_PARSERS);
    }
  }

  /** One pass of the loop body of parse_avc_annexb. */
  method AddAvcUnit(info: AvcAnnexBInfo, data: seq<byte>, u: NalUnit, ps: AvcParsers) returns (next: AvcAnnexBInfo)
    requires u.offset + u.length <= |data|
    ensures next == AvcUnitStep(info, data, u, ps)
  {
    next := info;
    if u.length == 0 {
      return;
    }
    var h := ParseAvcNalUnitHeader(data[u.offset]);
    var headers := info.nalUnits + [h];
    if h.nalUnitType == NAL_SPS {
      next := AvcAnnexBInfo(KeepLast(info.sps, ps.sps(Payload(data, u))), info.pps, headers);
    } else if h.nalUnitType == NAL_PPS {
      next := AvcAnnexBInfo(info.sps, KeepLast(info.pps, ps.pps(Payload(data, u))), headers);
    } else {
      next := AvcAnnexBInfo(info.sps, info.pps, headers);
    }
  }

  /** The loop of parse_avc_annexb over the units the scanner finds. */
  method ReadAvcAnnexb(data: seq<byte>, ps: AvcParsers) returns (info: AvcAnnexBInfo)
    ensures UnitsInBounds(data, AnnexbUnits(data)) && info == AvcAnnexbInfoOf(data, AnnexbUnits(data), ps)
  {
    var units := FindAnnexbNalUnits(data);
    AnnexbUnitsPlaced(data);
    assert UnitsInBounds(data, units);
    info := AvcAnnexBInfo(None, None, []);
    var i := 0;
    while i < |units|
      invariant i <= |units| && UnitsInBounds(data, units[..i])
      invariant info == AvcAnnexbInfoOf(data, units[..i], ps)
    {
      AvcAnnexbInfoStep(data, units, i, ps);
      info := AddAvcUnit(info, data, units[i], ps);
      i := i + 1;
    }
    assert units[..|units|] == units;
  }

  /** parse_avc_annexb */
  method ParseAvcAnnexb(data: seq<byte>) returns (r: Result<AvcAnnexBInfo>)
    ensures r == AvcAnnexbOf(data)
  {
    if |data| == 0 {
      return Err(EMPTY_DATA);
    }
    var info := ReadAvcAnnexb(data, AVC_PARSERS);
    r := Ok(info);
  }

  // ---------------------------------------------------------------------------
  // avcC record

  /** The payloads of one avcC parameter-set list at `o`: up to `count`
      entries, each a 16-bit big-endian length and that many bytes. The list
      ends early at a length field or payload that overruns the data, or at a
      zero length. */
  function AvccPayloads(d: seq<byte>, o: nat, count: nat): (r: seq<seq<byte>>)
    requires o <= |d|
    ensures |r| <= count
    ensures forall k :: 0 <= k < |r| ==> 0 < |r[k]| < U16_LIMIT
    decreases count
  {
    if count == 0 || o + 2 > |d| then []
    else
      var len := BE16(d[o], d[o + 1]);
      if o + 2 + len > |d| || len == 0 then []
      else [d[o + 2 .. o + 2 + len]] + AvccPayloads(d, o + 2 + len, count - 1)
  }

  /** The offset where the list scan stops: its length field has already been
      consumed when the payload is the part that overruns. */
  function AvccListEnd(d: seq<byte>, o: nat, count: nat): (end: nat)
    requires o <= |d|
    ensures o <= end <= |d|
    decreases count
  {
    if count == 0 || o + 2 > |d| then o
    else
      var len := BE16(d[o], d[o + 1]);
      if o + 2 + len > |d| || len == 0 then o + 2
      else AvccListEnd(d, o + 2 + len, count - 1)
  }

  /** One complete entry of a list: its payload comes first, and the rest of
      the list is read after it. */
  lemma AvccEntry(d: seq<byte>, o: nat, count: nat, done: seq<seq<byte>>)
    requires o + 2 <= |d| && count > 0
    requires var len := BE16(d[o], d[o + 1]); 0 < len && o + 2 + len <= |d|
    ensures var len := BE16(d[o], d[o + 1]);
      done + AvccPayloads(d, o, count) ==
        (done + [d[o + 2 .. o + 2 + len]]) + AvccPayloads(d, o + 2 + len, count - 1) &&
      AvccListEnd(d, o, count) == AvccListEnd(d, o + 2 + len, count - 1)
  {
    var len := BE16(d[o], d[o + 1]);
    var rest := AvccPayloads(d, o + 2 + len, count - 1);
    assert done + ([d[o + 2 .. o + 2 + len]] + rest) == (done + [d[o + 2 .. o + 2 + len]]) + rest;
  }

  /** Where the list ends: the count is used up, the length field overruns
      the data, or the payload overruns it or is empty. */
  lemma AvccStop(d: seq<byte>, o: nat, count: nat, done: seq<seq<byte>>)
    requires o <= |d|
    requires count == 0 || o + 2 > |d| || (var len := BE16(d[o], d[o + 1]); len == 0 || o + 2 + len > |d|)
    ensures done + AvccPayloads(d, o, count) == done
    ensures AvccListEnd(d, o, count) == if count == 0 || o + 2 > |d| then o else o + 2
  {
    assert done + [] == done;
  }

  function AvcHeadersOf(ps: seq<seq<byte>>): (r: seq<AvcNalUnitHeader>)
    requires forall k :: 0 <= k < |ps| ==> |ps[k]| > 0
  {
    if ps == [] then []
    else AvcHeadersOf(ps[..|ps| - 1]) + [ParseAvcNalUnitHeader(ps[|ps| - 1][0])]
  }

  /** What a list of parameter sets leaves in the record: the result of the
      last payload that parses, or nothing. */
  function LastParsed<T>(ps: seq<seq<byte>>, parse: seq<byte> -> Result<T>): Option<T>
  {
    if ps == [] then None else KeepLast(LastParsed(ps[..|ps| - 1], parse), parse(ps[|ps| - 1]))
  }

  datatype AvcDescriptionInfo = AvcDescriptionInfo(
    sps: Option<AvcSpsInfo>, pps: Option<AvcPpsInfo>, nalUnits: seq<AvcNalUnitHeader>, lengthSize: nat)

  /** The SPS list of the record: lengths and payloads from byte 6, as many
      as the low 5 bits of byte 5 say. */
  function AvccSpsList(d: seq<byte>): seq<seq<byte>>
    requires |d| >= 7
  {
    AvccPayloads(d, 6, d[5] % 32)
  }

  /** The PPS list: a count byte where the SPS list ends, when one is left. */
  function AvccPpsList(d: seq<byte>): seq<seq<byte>>
    requires |d| >= 7
  {
    var o := AvccListEnd(d, 6, d[5] % 32);
    if o >= |d| then [] else AvccPayloads(d, o + 1, d[o])
  }

  /** The record with the given parsers: lengthSizeMinusOne in the low 2
      bits of byte 4, then the SPS list and the PPS list. */
  function AvcDescriptionWith(d: seq<byte>, ps: AvcParsers): (r: Result<AvcDescriptionInfo>)
    ensures r.Err? <==> |d| < 7
    ensures r.Ok? ==> 1 <= r.value.lengthSize <= 4 && r.value.lengthSize == d[4] % 4 + 1
  {
    if |d| < 7 then Err(AVCC_TOO_SHORT)
    else
      Ok(AvcDescriptionInfo(LastParsed(AvccSpsList(d), ps.sps), LastParsed(AvccPpsList(d), ps.pps),
                            AvcHeadersOf(AvccSpsList(d)) + AvcHeadersOf(AvccPpsList(d)), d[4] % 4 + 1))
  }

  /** parse_avc_description as a function of the record. */
  function AvcDescriptionOf(d: seq<byte>): Result<AvcDescriptionInfo>
  {
    AvcDescriptionWith(d, AVC_PARSERS)
  }

  lemma AvcHeadersAppend(ps: seq<seq<byte>>, p: seq<byte>)
    requires forall k :: 0 <= k < |ps| ==> |ps[k]| > 0
    requires |p| > 0
    ensures forall k :: 0 <= k < |ps + [p]| ==> |(ps + [p])[k]| > 0
    ensures AvcHeadersOf(ps + [p]) == AvcHeadersOf(ps) + [ParseAvcNalUnitHeader(p[0])]
  {
    assert (ps + [p])[..|ps|] == ps;
  }

  lemma LastParsedAppend<T>(ps: seq<seq<byte>>, p: seq<byte>, parse: seq<byte> -> Result<T>)
    ensures LastParsed(ps + [p], parse) == KeepLast(LastParsed(ps, parse), parse(p))
  {
    assert (ps + [p])[..|ps|] == ps;
  }

  /** One entry of the loop over a list: the entry's payload joins the ones
      already read, and what the list yields is unchanged. */
  lemma AvccListStep<T>(d: seq<byte>, offset: nat, count: nat, o: nat, n: nat, next: nat,
                        done: seq<seq<byte>>, payload: seq<byte>, parse: seq<byte> -> Result<T>)
    requires offset <= |d| && o + 2 <= |d| && n > 0
    requires next == o + 2 + BE16(d[o], d[o + 1]) && o + 2 < next <= |d| && payload == d[o + 2 .. next]
    requires done + AvccPayloads(d, o, n) == AvccPayloads(d, offset, count)
    requires AvccListEnd(d, o, n) == AvccListEnd(d, offset, count)
    requires forall k :: 0 <= k < |done| ==> |done[k]| > 0
    ensures (done + [payload]) + AvccPayloads(d, next, n - 1) == AvccPayloads(d, offset, count)
    ensures AvccListEnd(d, next, n - 1) == AvccListEnd(d, offset, count)
    ensures forall k :: 0 <= k < |done + [payload]| ==> |(done + [payload])[k]| > 0
    ensures AvcHeadersOf(done + [payload]) == AvcHeadersOf(done) + [ParseAvcNalUnitHeader(payload[0])]
    ensures LastParsed(done + [payload], parse) == KeepLast(LastParsed(done, parse), parse(payload))
  {
    AvccEntry(d, o, n, done);
    AvcHeadersAppend(done, payload);
    LastParsedAppend(done, payload, parse);
  }

  /** The loop that reads one parameter-set list of the record, shared by
      the SPS list and the PPS list; `parse` is parse_avc_sps or
      parse_avc_pps, given by the function the parser method is proved to
      compute. */
  method ReadParameterSetList<T>(data: seq<byte>, offset: nat, count: nat, parse: seq<byte> -> Result<T>)
    returns (headers: seq<AvcNalUnitHeader>, last: Option<T>, end: nat)
    requires offset <= |data|
    ensures headers == AvcHeadersOf(AvccPayloads(data, offset, count))
    ensures last == LastParsed(AvccPayloads(data, offset, count), parse)
    ensures end == AvccListEnd(data, offset, count)
  {
    headers, last := [], None;
    ghost var done: seq<seq<byte>> := [];
    ghost var left := count;
    var o: nat := offset;
    var i := 0;
    while i < count
      invariant i <= count && o <= |data| && left == count - i
      invariant done + AvccPayloads(data, o, left) == AvccPayloads(data, offset, count)
      invariant AvccListEnd(data, o, left) == AvccListEnd(data, offset, count)
      invariant forall k :: 0 <= k < |done| ==> |done[k]| > 0
      invariant headers == AvcHeadersOf(done) && last == LastParsed(done, parse)
    {
      if o + 2 > |data| {
        AvccStop(data, o, left, done);
        break;
      }
      var len := BE16(data[o], data[o + 1]);
      if o + 2 + len > |data| || len == 0 {
        AvccStop(data, o, left, done);
        o := o + 2;
        break;
      }
      var next := o + 2 + len;
      var payload := data[o + 2 .. next];
      AvccListStep(data, offset, count, o, left, next, done, payload, parse);
      headers := headers + [ParseAvcNalUnitHeader(payload[0])];
      last := KeepLast(last, parse(payload));
      done, left := done + [payload], left - 1;
      o := next;
      i := i + 1;
    }
    if i == count {
      AvccStop(data, o, 0, done);
    }
    end := o;
  }

  /** The body of parse_avc_description with the given parsers. */
  method ReadAvcDescription(data: seq<byte>, ps: AvcParsers) returns (r: Result<AvcDescriptionInfo>)
    ensures r == AvcDescriptionWith(data, ps)
  {
    if |data| < 7 {
      return Err(AVCC_TOO_SHORT);
    }
    var lengthSize := data[4] % 4 + 1;
    var spsHeaders, sps, o := ReadParameterSetList(data, 6, data[5] % 32, ps.sps);
    if o >= |data| {
      assert AvccPpsList(data) == [] && spsHeaders + AvcHeadersOf([]) == spsHeaders;
      return Ok(AvcDescriptionInfo(sps, None, spsHeaders, lengthSize));
    }
    var ppsHeaders, pps, _ := ReadParameterSetList(data, o + 1, data[o], ps.pps);
    r := Ok(AvcDescriptionInfo(sps, pps, spsHeaders + ppsHeaders, lengthSize));
  }

  /** parse_avc_description */
  method ParseAvcDescription(data: seq<byte>) returns (r: Result<AvcDescriptionInfo>)
    ensures r == AvcDescriptionOf(data)
  {
    r := ReadAvcDescription(data, AVC_PARSERS);
  }
}
