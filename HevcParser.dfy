/** H.265 parameter sets and the two containers they arrive in: an Annex B
    byte stream and an hvcC decoder-configuration record (section 8.3.3.1.2
    of ISO/IEC 14496-15).

    As for H.264, each parameter-set parser drives a `BitstreamReader` and is
    proved equal to a pure function over the RBSP bits (`HevcVpsOf`,
    `HevcSpsOf`, `HevcPpsOf`); a parse failure inside a container is
    swallowed and the container keeps the last parameter set that parsed. */
module HevcParser {
  import opened Wrappers
  import opened Bytes
  import opened Bitstream
  import opened NalUtils

  const EMPTY_VPS := "VPS data is empty"
  const EMPTY_SPS := "SPS data is empty"
  const EMPTY_PPS := "PPS data is empty"
  const EMPTY_DATA := "data is empty"
  const HVCC_TOO_SHORT := "hvcC data is too short"

  // nal_unit_type values (Table 7-1 of ITU-T H.265)
  const NAL_BLA_W_LP := 16
  const NAL_CRA := 21
  const NAL_VPS := 32
  const NAL_SPS := 33
  const NAL_PPS := 34

  // ---------------------------------------------------------------------------
  // NAL unit header

  datatype HevcNalUnitHeader = HevcNalUnitHeader(
    nalUnitType: byte, nuhLayerId: byte, nuhTemporalIdPlus1: byte, isIrap: bool, isKeyFrame: bool)

  /** The two-byte NAL unit header: forbidden_zero_bit, nal_unit_type (6 bits),
      nuh_layer_id (6 bits, split over the two bytes), nuh_temporal_id_plus1
      (3 bits). BLA, IDR and CRA pictures (types 16-21) are IRAP. */
  function ParseHevcNalUnitHeader(b0: byte, b1: byte): (h: HevcNalUnitHeader)
    ensures h.nalUnitType < 64 && h.nuhLayerId < 64 && h.nuhTemporalIdPlus1 < 8
    ensures h.isIrap <==> NAL_BLA_W_LP <= h.nalUnitType <= NAL_CRA
    ensures h.isKeyFrame <==> h.isIrap || h.nalUnitType == NAL_VPS || h.nalUnitType == NAL_SPS
  {
    var t := b0 / 2 % 64;
    var irap := NAL_BLA_W_LP <= t <= NAL_CRA;
    HevcNalUnitHeader(t, b0 % 2 * 32 + b1 / 8 % 32, b1 % 8, irap, irap || t == NAL_VPS || t == NAL_SPS)
  }

  /** The two header bytes that carry the given fields. */
  function HevcNalHeaderBytes(forbiddenZero: bit, nalType: nat, layerId: nat, tidPlus1: nat): (r: (byte, byte))
    requires nalType < 64 && layerId < 64 && tidPlus1 < 8
  {
    (forbiddenZero * 128 + nalType * 2 + layerId / 32, layerId % 32 * 8 + tidPlus1)
  }

  /** Parsing the header bytes gives back the fields they were built from ... */
  lemma HevcNalHeaderRoundTrip(forbiddenZero: bit, nalType: nat, layerId: nat, tidPlus1: nat)
    requires nalType < 64 && layerId < 64 && tidPlus1 < 8
    ensures var (b0, b1) := HevcNalHeaderBytes(forbiddenZero, nalType, layerId, tidPlus1);
      var h := ParseHevcNalUnitHeader(b0, b1);
      h.nalUnitType == nalType && h.nuhLayerId == layerId && h.nuhTemporalIdPlus1 == tidPlus1
  {
    var (b0, b1) := HevcNalHeaderBytes(forbiddenZero, nalType, layerId, tidPlus1);
    assert b0 == (forbiddenZero * 64 + nalType) * 2 + layerId / 32;
    assert b0 / 2 == forbiddenZero * 64 + nalType;
    assert b1 == (layerId % 32) * 8 + tidPlus1;
    assert b1 / 8 == layerId % 32;
  }

  /** ... and the fields read from two bytes, with the top bit, rebuild them. */
  lemma HevcNalHeaderFieldsRebuild(b0: byte, b1: byte)
    ensures var h := ParseHevcNalUnitHeader(b0, b1);
      HevcNalHeaderBytes(b0 / 128, h.nalUnitType, h.nuhLayerId, h.nuhTemporalIdPlus1) == (b0, b1)
  {
    var h := ParseHevcNalUnitHeader(b0, b1);
    assert b0 / 2 / 64 == b0 / 128;
    assert h.nuhLayerId / 32 == b0 % 2 && h.nuhLayerId % 32 == b1 / 8 % 32;
  }

  // ---------------------------------------------------------------------------
  // Video parameter set

  datatype HevcVpsInfo = HevcVpsInfo(vpsId: byte, maxLayersMinus1: byte, maxSubLayersMinus1: byte)

  /** The header is skipped; then vps_video_parameter_set_id (4 bits) and
      the layer fields. */
  function HevcVpsAt(s: seq<bit>): Result<HevcVpsInfo>
  {
    var p0 :- SkipAt(s, 0, 16);
    var (vpsId, p1) :- BitsAt(s, p0, 4);
    var (maxLayers, maxSubLayers) :- HevcVpsLayersAt(s, p1);
    BitsValueBound(s, p0, 4);
    Pow2AtMostByte(4);
    Ok(HevcVpsInfo(vpsId, maxLayers, maxSubLayers))
  }

  /** vps_base_layer_internal_flag and vps_base_layer_available_flag,
      skipped, then vps_max_layers_minus1 (6 bits) and
      vps_max_sub_layers_minus1 (3 bits). */
  function HevcVpsLayersAt(s: seq<bit>, p: nat): (r: Result<(byte, byte)>)
  {
    var p1 :- SkipAt(s, p, 2);
    var (maxLayers, p2) :- BitsAt(s, p1, 6);
    var (maxSubLayers, _) :- BitsAt(s, p2, 3);
    BitsValueBound(s, p1, 6);
    BitsValueBound(s, p2, 3);
    Pow2AtMostByte(6);
    Pow2AtMostByte(3);
    Ok((maxLayers, maxSubLayers))
  }

  /** parse_hevc_vps as a function of the NAL unit bytes. */
  function HevcVpsOf(data: seq<byte>): Result<HevcVpsInfo>
  {
    if data == [] then Err(EMPTY_VPS) else HevcVpsAt(BitsOf(RemoveEpb(data)))
  }

  /** The VPS fields occupy the first 31 bits after the header: it parses
      exactly when the RBSP has 4 bytes, and then vps_id is the high nibble
      of byte 2 and vps_max_sub_layers_minus1 bits 4-6 of byte 3. */
  lemma HevcVpsBytes(rbsp: seq<byte>)
    ensures HevcVpsAt(BitsOf(rbsp)).Ok? <==> |rbsp| >= 4
    ensures HevcVpsAt(BitsOf(rbsp)).Ok? ==>
      HevcVpsAt(BitsOf(rbsp)).value.vpsId == rbsp[2] / 16 &&
      HevcVpsAt(BitsOf(rbsp)).value.maxSubLayersMinus1 == rbsp[3] / 2 % 8
  {
    if |rbsp| >= 4 {
      Pow2Small();
      ByteField(rbsp, 2, 0, 4);
      ByteField(rbsp, 3, 4, 3);
    }
  }

  method ReadHevcVpsLayers(reader: BitstreamReader) returns (r: Result<(byte, byte)>)
    requires reader.Valid()
    modifies reader
    ensures reader.Valid()
    ensures r == HevcVpsLayersAt(reader.bits, old(reader.Pos()))
  {
    var _ :- reader.SkipBits(1);
    var _ :- reader.SkipBits(1);
    var maxLayers :- reader.ReadBits(6);
    var maxSubLayers :- reader.ReadBits(3);
    r := Ok((maxLayers, maxSubLayers));
  }

  method ReadHevcVps(reader: BitstreamReader) returns (r: Result<HevcVpsInfo>)
    requires reader.Valid() && reader.Pos() == 0
    modifies reader
    ensures reader.Valid()
    ensures r == HevcVpsAt(reader.bits)
  {
    var _ :- reader.SkipBits(16);
    var vpsId :- reader.ReadBits(4);
    var layers :- ReadHevcVpsLayers(reader);
    r := Ok(HevcVpsInfo(vpsId, layers.0, layers.1));
  }

  /** parse_hevc_vps */
  method ParseHevcVps(data: seq<byte>) returns (r: Result<HevcVpsInfo>)
    ensures r == HevcVpsOf(data)
  {
    if |data| == 0 {
      return Err(EMPTY_VPS);
    }
    var rbsp := RemoveEmulationPreventionBytes(data);
    var reader := new BitstreamReader(rbsp);
    r := ReadHevcVps(reader);
  }

  // ---------------------------------------------------------------------------
  // Sequence parameter set

  datatype HevcSpsInfo = HevcSpsInfo(
    generalProfileIdc: byte, generalLevelIdc: byte, generalTierFlag: byte,
    width: nat, height: nat,
    bitDepthLuma: byte, bitDepthChroma: byte, chromaFormatIdc: byte,
    spsId: byte, vpsId: byte)

  /** The header is skipped; then sps_video_parameter_set_id (4 bits),
      sps_max_sub_layers_minus1 (3 bits) and sps_temporal_id_nesting_flag. */
  function HevcSpsHeadAt(s: seq<bit>): Result<((nat, nat), nat)>
  {
    var p0 :- SkipAt(s, 0, 16);
    var (vpsId, p1) :- BitsAt(s, p0, 4);
    var (maxSubLayers, p2) :- BitsAt(s, p1, 3);
    var p3 :- SkipAt(s, p2, 1);
    Ok(((vpsId, maxSubLayers), p3))
  }

  /** general_tier_flag and general_profile_idc from the general profile
      fields: profile space (2 bits), tier, profile (5 bits), 32
      compatibility flags and 48 constraint flags. */
  function HevcProfileAt(s: seq<bit>, p: nat): Result<((nat, nat), nat)>
  {
    var p1 :- SkipAt(s, p, 2);
    var (tier, p2) :- BitAt(s, p1);
    var (profile, p3) :- BitsAt(s, p2, 5);
    var p4 :- SkipAt(s, p3, 32);
    var p5 :- SkipAt(s, p4, 48);
    Ok(((tier, profile), p5))
  }

  /** sub_layer_profile_present_flag and sub_layer_level_present_flag for
      sub-layers i .. n - 1. */
  function SubLayerFlagsAt(s: seq<bit>, p: nat, i: nat, n: nat): Result<nat>
    decreases n - i
  {
    if i >= n then Ok(p)
    else
      var p1 :- SkipAt(s, p, 1);
      var p2 :- SkipAt(s, p1, 1);
      SubLayerFlagsAt(s, p2, i + 1, n)
  }

  /** The two reserved bits for each of sub-layers i .. 7. */
  function SubLayerPaddingAt(s: seq<bit>, p: nat, i: nat): Result<nat>
    decreases 8 - i
  {
    if i >= 8 then Ok(p)
    else
      var p1 :- SkipAt(s, p, 2);
      SubLayerPaddingAt(s, p1, i + 1)
  }

  /** profile_tier_level() as far as the source reads it: tier, profile and
      level (tier and profile stay 0 without the profile fields); the
      sub-layer profiles and levels are not read. */
  datatype HevcPtl = HevcPtl(tierFlag: nat, profileIdc: nat, levelIdc: nat)

  function ProfileTierLevelAt(s: seq<bit>, p: nat, profilePresent: bool, maxSubLayersMinus1: nat)
    : Result<(HevcPtl, nat)>
  {
    var (tp, p1) :- if profilePresent then HevcProfileAt(s, p) else Ok(((0, 0), p));
    var (level, p2) :- BitsAt(s, p1, 8);
    var p3 :- SubLayerFlagsAt(s, p2, 0, maxSubLayersMinus1);
    var p4 :- if maxSubLayersMinus1 > 0 then SubLayerPaddingAt(s, p3, maxSubLayersMinus1) else Ok(p3);
    Ok((HevcPtl(tp.0, tp.1, level), p4))
  }

  /** sps_seq_parameter_set_id and chroma_format_idc, both truncated to
      uint8_t, and separate_colour_plane_flag for 4:4:4. */
  function HevcSpsIdsAt(s: seq<bit>, p: nat): Result<((byte, byte), nat)>
  {
    var (spsId, p1) :- Ue(s, p);
    var (chroma, p2) :- Ue(s, p1);
    var c := U8(chroma);
    var p3 :- if c == 3 then SkipAt(s, p2, 1) else Ok(p2);
    Ok(((U8(spsId), c), p3))
  }

  /** SubWidthC and SubHeightC of Table 6-1 of ITU-T H.265, as the source
      selects them. */
  function HevcSubWidthC(chroma: nat): nat
  {
    if chroma == 1 || chroma == 2 then 2 else 1
  }

  function HevcSubHeightC(chroma: nat): nat
  {
    if chroma == 1 then 2 else 1
  }

  /** A luma size minus the two conformance-window offsets in chroma units,
      in uint32_t arithmetic. */
  function HevcCroppedSize(size: nat, a: nat, b: nat, sub: nat): (r: nat)
    ensures r < U32_LIMIT
  {
    U32(size - (a + b) * sub)
  }

  lemma HevcSubSamplingTable()
    ensures HevcSubWidthC(1) == 2 && HevcSubHeightC(1) == 2
    ensures HevcSubWidthC(2) == 2 && HevcSubHeightC(2) == 1
    ensures HevcSubWidthC(0) == 1 && HevcSubHeightC(0) == 1
    ensures HevcSubWidthC(3) == 1 && HevcSubHeightC(3) == 1
  {
  }

  /** When the window fits inside the picture the cropped size is exact;
      without a window the size is unchanged. */
  lemma HevcCroppedSizeExact(size: nat, a: nat, b: nat, sub: nat)
    requires size < U32_LIMIT && (a + b) * sub <= size
    ensures HevcCroppedSize(size, a, b, sub) == size - (a + b) * sub
    ensures HevcCroppedSize(size, 0, 0, sub) == size
  {
  }

  /** pic_width/height_in_luma_samples and the conformance window, applied
      with the sub-sampling of the (truncated) chroma format. */
  function HevcPicSizeAt(s: seq<bit>, p: nat, chroma: byte): Result<((nat, nat), nat)>
  {
    var (size, p1) :- UePairAt(s, p);
    var (window, p2) :- BitAt(s, p1);
    if window == 0 then Ok((size, p2))
    else
      var (offsets, q) :- HevcConfWindowAt(s, p2);
      Ok((HevcCropped(size.0, size.1, chroma, offsets), q))
  }

  /** The four conformance-window offsets: left, right, top, bottom. */
  datatype ConfWindow = ConfWindow(left: nat, right: nat, top: nat, bottom: nat)

  function HevcConfWindowAt(s: seq<bit>, p: nat): Result<(ConfWindow, nat)>
  {
    var (leftRight, p1) :- UePairAt(s, p);
    var (topBottom, p2) :- UePairAt(s, p1);
    Ok((ConfWindow(leftRight.0, leftRight.1, topBottom.0, topBottom.1), p2))
  }

  /** The picture size once the window is cropped off. */
  function HevcCropped(width: nat, height: nat, chroma: byte, w: ConfWindow): (nat, nat)
  {
    (HevcCroppedSize(width, w.left, w.right, HevcSubWidthC(chroma)),
     HevcCroppedSize(height, w.top, w.bottom, HevcSubHeightC(chroma)))
  }

  /** bit_depth_luma_minus8 and bit_depth_chroma_minus8, each + 8 and stored
      in uint8_t. */
  function HevcBitDepthsAt(s: seq<bit>, p: nat): Result<((byte, byte), nat)>
  {
    var (depths, p1) :- UePairAt(s, p);
    Ok(((U8(depths.0 + 8), U8(depths.1 + 8)), p1))
  }

  /** The fields after profile_tier_level(). */
  function HevcSpsTailAt(s: seq<bit>, p: nat): Result<(((byte, byte), (nat, nat), (byte, byte)), nat)>
  {
    var (ids, p1) :- HevcSpsIdsAt(s, p);
    var (size, p2) :- HevcPicSizeAt(s, p1, ids.1);
    var (depths, p3) :- HevcBitDepthsAt(s, p2);
    Ok(((ids, size, depths), p3))
  }

  /** parse_hevc_sps as a function of the NAL unit bytes: the syntax of
      section 7.3.2.2 of ITU-T H.265 read from the RBSP as far as the bit
      depths. */
  function HevcSpsOf(data: seq<byte>): Result<HevcSpsInfo>
  {
    if data == [] then Err(EMPTY_SPS)
    else
      var s := BitsOf(RemoveEpb(data));
      var (head, p1) :- HevcSpsHeadAt(s);
      var (ptl, p2) :- ProfileTierLevelAt(s, p1, true, head.1);
      var (tail, _) :- HevcSpsTailAt(s, p2);
      Ok(HevcSpsInfo(U8(ptl.profileIdc), U8(ptl.levelIdc), U8(ptl.tierFlag),
                     tail.1.0, tail.1.1, tail.2.0, tail.2.1, tail.0.1, tail.0.0, U8(head.0)))
  }

  /** The SPS head ends at bit 24: sps_video_parameter_set_id is the high
      nibble of RBSP byte 2 and sps_max_sub_layers_minus1 its next three bits. */
  lemma HevcSpsHeadBytes(rbsp: seq<byte>)
    requires HevcSpsHeadAt(BitsOf(rbsp)).Ok?
    ensures |rbsp| >= 3
    ensures var head := HevcSpsHeadAt(BitsOf(rbsp)).value;
      head.1 == 24 && head.0.0 == rbsp[2] / 16 && head.0.1 == rbsp[2] / 2 % 8
  {
    Pow2Small();
    ByteField(rbsp, 2, 0, 4);
    ByteField(rbsp, 2, 4, 3);
    var b := rbsp[2];
    DivModUnique(b / 16, 16, 0, b / 16);
  }

  /** The general profile fields from bit 24 end at bit 112: general_tier_flag
      and general_profile_idc are bit 2 and the low five bits of byte 3. */
  lemma HevcProfileBytes(rbsp: seq<byte>)
    requires HevcProfileAt(BitsOf(rbsp), 24).Ok?
    ensures |rbsp| >= 14
    ensures HevcProfileAt(BitsOf(rbsp), 24).value == ((rbsp[3] / 32 % 2, rbsp[3] % 32), 112)
  {
    var s := BitsOf(rbsp);
    Pow2Small();
    ByteField(rbsp, 3, 2, 1);
    ByteField(rbsp, 3, 3, 5);
    assert s[26] == BitsValue(s, 26, 1) == rbsp[3] / 32 % 2;
    assert BitsValue(s, 27, 5) == rbsp[3] / 1 % 32 == rbsp[3] % 32;
  }

  /** The fixed-position fields of an SPS: the head, the general profile and
      general_level_idc, which is byte 14. */
  lemma HevcSpsFixedFields(rbsp: seq<byte>)
    requires HevcSpsHeadAt(BitsOf(rbsp)).Ok?
    requires ProfileTierLevelAt(BitsOf(rbsp), 24, true, HevcSpsHeadAt(BitsOf(rbsp)).value.0.1).Ok?
    ensures |rbsp| >= 15
    ensures var head := HevcSpsHeadAt(BitsOf(rbsp)).value;
      head.1 == 24 && head.0.0 == rbsp[2] / 16 && head.0.1 == rbsp[2] / 2 % 8
    ensures var ptl := ProfileTierLevelAt(BitsOf(rbsp), 24, true, HevcSpsHeadAt(BitsOf(rbsp)).value.0.1).value.0;
      ptl.tierFlag == rbsp[3] / 32 % 2 && ptl.profileIdc == rbsp[3] % 32 && ptl.levelIdc == rbsp[14]
  {
    HevcSpsHeadBytes(rbsp);
    HevcProfileBytes(rbsp);
    ByteValue(rbsp, 14);
  }

  /** The SPS fields that sit at fixed positions, stated on the NAL unit. */
  lemma HevcSpsHeaderBytes(data: seq<byte>)
    requires HevcSpsOf(data).Ok?
    ensures var rbsp := RemoveEpb(data); var sps := HevcSpsOf(data).value;
      |rbsp| >= 15 && sps.vpsId == rbsp[2] / 16 && sps.generalTierFlag == rbsp[3] / 32 % 2 &&
      sps.generalProfileIdc == rbsp[3] % 32 && sps.generalLevelIdc == rbsp[14]
  {
    var rbsp := RemoveEpb(data);
    var s := BitsOf(rbsp);
    var sps := HevcSpsOf(data).value;
    assert HevcSpsHeadAt(s).Ok?;
    var head := HevcSpsHeadAt(s).value;
    assert head.1 == 24;
    assert ProfileTierLevelAt(s, 24, true, head.0.1).Ok?;
    var ptl := ProfileTierLevelAt(s, 24, true, head.0.1).value.0;
    assert sps.vpsId == U8(head.0.0) && sps.generalTierFlag == U8(ptl.tierFlag) &&
      sps.generalProfileIdc == U8(ptl.profileIdc) && sps.generalLevelIdc == U8(ptl.levelIdc);
    HevcSpsFixedFields(rbsp);
  }

  // ---------------------------------------------------------------------------
  // The SPS parser as the source runs it

  method ReadHevcSpsHead(reader: BitstreamReader) returns (r: Result<(nat, nat)>)
    requires reader.Valid() && reader.Pos() == 0
    modifies reader
    ensures reader.Valid()
    ensures r == ValueOf(HevcSpsHeadAt(reader.bits))
    ensures r.Ok? ==> reader.Pos() == HevcSpsHeadAt(reader.bits).value.1
  {
    var _ :- reader.SkipBits(16);
    var vpsId :- reader.ReadBits(4);
    var maxSubLayers :- reader.ReadBits(3);
    var _ :- reader.SkipBits(1);
    r := Ok((vpsId, maxSubLayers));
  }

  method ReadHevcProfile(reader: BitstreamReader) returns (r: Result<(nat, nat)>)
    requires reader.Valid()
    modifies reader
    ensures reader.Valid()
    ensures r == ValueOf(HevcProfileAt(reader.bits, old(reader.Pos())))
    ensures r.Ok? ==> reader.Pos() == HevcProfileAt(reader.bits, old(reader.Pos())).value.1
  {
    var _ :- reader.SkipBits(2);
    var tier :- reader.ReadBit();
    var profile :- reader.ReadBits(5);
    var _ :- reader.SkipBits(32);
    var _ :- reader.SkipBits(48);
    r := Ok((tier as nat, profile));
  }

  method SkipSubLayerFlags(reader: BitstreamReader, n: nat) returns (r: Result<()>)
    requires reader.Valid()
    modifies reader
    ensures reader.Valid()
    ensures r.Ok? <==> SubLayerFlagsAt(reader.bits, old(reader.Pos()), 0, n).Ok?
    ensures r.Err? ==> r.error == SubLayerFlagsAt(reader.bits, old(reader.Pos()), 0, n).error
    ensures r.Ok? ==> reader.Pos() == SubLayerFlagsAt(reader.bits, old(reader.Pos()), 0, n).value
  {
    ghost var spec := SubLayerFlagsAt(reader.bits, reader.Pos(), 0, n);
    var i := 0;
    while i < n
      invariant reader.Valid() && i <= n
      invariant SubLayerFlagsAt(reader.bits, reader.Pos(), i, n) == spec
    {
      var _ :- reader.SkipBits(1);
      var _ :- reader.SkipBits(1);
      i := i + 1;
    }
    r := Ok(());
  }

  method SkipSubLayerPadding(reader: BitstreamReader, from: nat) returns (r: Result<()>)
    requires reader.Valid()
    modifies reader
    ensures reader.Valid()
    ensures r.Ok? <==> SubLayerPaddingAt(reader.bits, old(reader.Pos()), from).Ok?
    ensures r.Err? ==> r.error == SubLayerPaddingAt(reader.bits, old(reader.Pos()), from).error
    ensures r.Ok? ==> reader.Pos() == SubLayerPaddingAt(reader.bits, old(reader.Pos()), from).value
  {
    ghost var spec := SubLayerPaddingAt(reader.bits, reader.Pos(), from);
    var i := from;
    while i < 8
      invariant reader.Valid()
      invariant SubLayerPaddingAt(reader.bits, reader.Pos(), i) == spec
      decreases 8 - i as int
    {
      var _ :- reader.SkipBits(2);
      i := i + 1;
    }
    r := Ok(());
  }

  /** parse_hevc_profile_tier_level */
  method ReadProfileTierLevel(reader: BitstreamReader, profilePresent: bool, maxSubLayersMinus1: nat)
    returns (r: Result<HevcPtl>)
    requires reader.Valid()
    modifies reader
    ensures reader.Valid()
    ensures r == ValueOf(ProfileTierLevelAt(reader.bits, old(reader.Pos()), profilePresent, maxSubLayersMinus1))
    ensures r.Ok? ==>
      reader.Pos() == ProfileTierLevelAt(reader.bits, old(reader.Pos()), profilePresent, maxSubLayersMinus1).value.1
  {
    var tp := (0, 0);
    if profilePresent {
      tp :- ReadHevcProfile(reader);
    }
    var level :- reader.ReadBits(8);
    var _ :- SkipSubLayerFlags(reader, maxSubLayersMinus1);
    if maxSubLayersMinus1 > 0 {
      var _ :- SkipSubLayerPadding(reader, maxSubLayersMinus1);
    }
    r := Ok(HevcPtl(tp.0, tp.1, level));
  }

  method ReadHevcSpsIds(reader: BitstreamReader) returns (r: Result<(byte, byte)>)
    requires reader.Valid()
    modifies reader
    ensures reader.Valid()
    ensures r == ValueOf(HevcSpsIdsAt(reader.bits, old(reader.Pos())))
    ensures r.Ok? ==> reader.Pos() == HevcSpsIdsAt(reader.bits, old(reader.Pos())).value.1
  {
    var spsId :- reader.ReadUe();
    var chroma :- reader.ReadUe();
    var c := U8(chroma);
    if c == 3 {
      var _ :- reader.SkipBits(1);
    }
    r := Ok((U8(spsId), c));
  }

  method ReadHevcConfWindow(reader: BitstreamReader) returns (r: Result<ConfWindow>)
    requires reader.Valid()
    modifies reader
    ensures reader.Valid()
    ensures r == ValueOf(HevcConfWindowAt(reader.bits, old(reader.Pos())))
    ensures r.Ok? ==> reader.Pos() == HevcConfWindowAt(reader.bits, old(reader.Pos())).value.1
  {
    var leftRight :- reader.ReadUePair();
    var topBottom :- reader.ReadUePair();
    r := Ok(ConfWindow(leftRight.0, leftRight.1, topBottom.0, topBottom.1));
  }

  method ReadHevcPicSize(reader: BitstreamReader, chroma: byte) returns (r: Result<(nat, nat)>)
    requires reader.Valid()
    modifies reader
    ensures reader.Valid()
    ensures r == ValueOf(HevcPicSizeAt(reader.bits, old(reader.Pos()), chroma))
    ensures r.Ok? ==> reader.Pos() == HevcPicSizeAt(reader.bits, old(reader.Pos()), chroma).value.1
  {
    var size :- reader.ReadUePair();
    var window :- reader.ReadBit();
    if window == 1 {
      var offsets :- ReadHevcConfWindow(reader);
      r := Ok(HevcCropped(size.0, size.1, chroma, offsets));
    } else {
      r := Ok(size);
    }
  }

  method ReadHevcBitDepths(reader: BitstreamReader) returns (r: Result<(byte, byte)>)
    requires reader.Valid()
    modifies reader
    ensures reader.Valid()
    ensures r == ValueOf(HevcBitDepthsAt(reader.bits, old(reader.Pos())))
    ensures r.Ok? ==> reader.Pos() == HevcBitDepthsAt(reader.bits, old(reader.Pos())).value.1
  {
    var depths :- reader.ReadUePair();
    r := Ok((U8(depths.0 + 8), U8(depths.1 + 8)));
  }

  method ReadHevcSpsTail(reader: BitstreamReader) returns (r: Result<((byte, byte), (nat, nat), (byte, byte))>)
    requires reader.Valid()
    modifies reader
    ensures reader.Valid()
    ensures r == ValueOf(HevcSpsTailAt(reader.bits, old(reader.Pos())))
    ensures r.Ok? ==> reader.Pos() == HevcSpsTailAt(reader.bits, old(reader.Pos())).value.1
  {
    var ids :- ReadHevcSpsIds(reader);
    var size :- ReadHevcPicSize(reader, ids.1);
    var depths :- ReadHevcBitDepths(reader);
    r := Ok((ids, size, depths));
  }

  /** parse_hevc_sps */
  method ParseHevcSps(data: seq<byte>) returns (r: Result<HevcSpsInfo>)
    ensures r == HevcSpsOf(data)
  {
    if |data| == 0 {
      return Err(EMPTY_SPS);
    }
    var rbsp := RemoveEmulationPreventionBytes(data);
    var reader := new BitstreamReader(rbsp);
    var head :- ReadHevcSpsHead(reader);
    var ptl :- ReadProfileTierLevel(reader, true, head.1);
    var tail :- ReadHevcSpsTail(reader);
    r := Ok(HevcSpsInfo(U8(ptl.profileIdc), U8(ptl.levelIdc), U8(ptl.tierFlag),
                        tail.1.0, tail.1.1, tail.2.0, tail.2.1, tail.0.1, tail.0.0, U8(head.0)));
  }

  // ---------------------------------------------------------------------------
  // Picture parameter set

  datatype HevcPpsInfo = HevcPpsInfo(ppsId: byte, spsId: byte)

  /** parse_hevc_pps as a function of the NAL unit bytes: the two-byte header,
      then pps_pic_parameter_set_id and pps_seq_parameter_set_id, each ue(v)
      truncated to uint8_t. */
  function HevcPpsOf(data: seq<byte>): Result<HevcPpsInfo>
  {
    if data == [] then Err(EMPTY_PPS)
    else
      var s := BitsOf(RemoveEpb(data));
      var p0 :- SkipAt(s, 0, 16);
      var (ppsId, p1) :- Ue(s, p0);
      var (spsId, _) :- Ue(s, p1);
      Ok(HevcPpsInfo(U8(ppsId), U8(spsId)))
  }

  /** A PPS that parses has its two ids as the ue(v) codes from bit 16, and
      its RBSP holds at least the header and two one-bit codes. */
  lemma HevcPpsShape(data: seq<byte>)
    requires HevcPpsOf(data).Ok?
    ensures var s := BitsOf(RemoveEpb(data));
      |RemoveEpb(data)| >= 3 && Ue(s, 16).Ok? && Ue(s, Ue(s, 16).value.1).Ok? &&
      HevcPpsOf(data).value.ppsId == U8(Ue(s, 16).value.0) &&
      HevcPpsOf(data).value.spsId == U8(Ue(s, Ue(s, 16).value.1).value.0)
  {
    var s := BitsOf(RemoveEpb(data));
    assert Ue(s, 16).Ok?;
    UeShape(s, 16);
    var q := Ue(s, 16).value.1;
    UeShape(s, q);
  }

  method ParseHevcPps(data: seq<byte>) returns (r: Result<HevcPpsInfo>)
    ensures r == HevcPpsOf(data)
  {
    if |data| == 0 {
      return Err(EMPTY_PPS);
    }
    var rbsp := RemoveEmulationPreventionBytes(data);
    var reader := new BitstreamReader(rbsp);
    var _ :- reader.SkipBits(16);
    var ppsId :- reader.ReadUe();
    var spsId :- reader.ReadUe();
    r := Ok(HevcPpsInfo(U8(ppsId), U8(spsId)));
  }

  // ---------------------------------------------------------------------------
  // What a container yields

  datatype HevcParamSets = HevcParamSets(
    vps: Option<HevcVpsInfo>, sps: Option<HevcSpsInfo>, pps: Option<HevcPpsInfo>,
    nalUnits: seq<HevcNalUnitHeader>)

  const NO_PARAM_SETS := HevcParamSets(None, None, None, [])

  /** The parameter-set parsers a container parse uses. The container
      functions take them as a value, so that a statement about a container
      holds for any parsers; the parse itself uses `HEVC_PARSERS`, the
      functions `ParseHevcVps`, `ParseHevcSps` and `ParseHevcPps` are proved
      to compute. */
  datatype HevcParsers = HevcParsers(
    vps: seq<byte> -> Result<HevcVpsInfo>, sps: seq<byte> -> Result<HevcSpsInfo>,
    pps: seq<byte> -> Result<HevcPpsInfo>)

  const HEVC_PARSERS := HevcParsers(HevcVpsOf, HevcSpsOf, HevcPpsOf)

  /** A parameter set of type `nalType` replaces the one kept so far when it
      parses; other types change nothing. */
  function KeepParamSet(st: HevcParamSets, nalType: nat, payload: seq<byte>, ps: HevcParsers): (r: HevcParamSets)
    ensures r.nalUnits == st.nalUnits
    ensures nalType != NAL_VPS && nalType != NAL_SPS && nalType != NAL_PPS ==> r == st
  {
    if nalType == NAL_VPS then st.(vps := KeepLast(st.vps, ps.vps(payload)))
    else if nalType == NAL_SPS then st.(sps := KeepLast(st.sps, ps.sps(payload)))
    else if nalType == NAL_PPS then st.(pps := KeepLast(st.pps, ps.pps(payload)))
    else st
  }

  // ---------------------------------------------------------------------------
  // Annex B stream

  /** The effect of one unit: a unit of at least two bytes adds its header
      and, when it is a VPS, SPS or PPS by that header, the parameter set. */
  function HevcUnitStep(prev: HevcParamSets, d: seq<byte>, u: NalUnit, ps: HevcParsers): HevcParamSets
    requires u.offset + u.length <= |d|
  {
    if u.length < 2 then prev
    else
      var h := ParseHevcNalUnitHeader(d[u.offset], d[u.offset + 1]);
      KeepParamSet(prev.(nalUnits := prev.nalUnits + [h]), h.nalUnitType, Payload(d, u), ps)
  }

  /** The loop of parse_hevc_annexb over the first |units| units. */
  function HevcAnnexbInfoOf(d: seq<byte>, units: seq<NalUnit>, ps: HevcParsers): HevcParamSets
    requires UnitsInBounds(d, units)
  {
    if units == [] then NO_PARAM_SETS
    else HevcUnitStep(HevcAnnexbInfoOf(d, units[..|units| - 1], ps), d, units[|units| - 1], ps)
  }

  /** parse_hevc_annexb as a function of the stream. */
  function HevcAnnexbOf(data: seq<byte>): Result<HevcParamSets>
  {
    if data == [] then Err(EMPTY_DATA)
    else
      AnnexbUnitsPlaced(data);
      Ok(HevcAnnexbInfoOf(data, AnnexbUnits(data), HEVC_PARSERS))
  }

  /** The units of at least two bytes, the ones that carry a header. */
  function LongUnits(units: seq<NalUnit>): (r: seq<NalUnit>)
    ensures |r| <= |units|
    ensures forall k :: 0 <= k < |r| ==> r[k].length >= 2 && r[k] in units
  {
    if units == [] then []
    else LongUnits(units[..|units| - 1]) + (if units[|units| - 1].length >= 2 then [units[|units| - 1]] else [])
  }

  /** One header per unit of at least two bytes, in stream order, each parsed
      from the unit's first two bytes; shorter units are skipped. */
  lemma {:induction false} HevcAnnexbHeaders(d: seq<byte>, units: seq<NalUnit>, ps: HevcParsers)
    requires UnitsInBounds(d, units)
    ensures |HevcAnnexbInfoOf(d, units, ps).nalUnits| == |LongUnits(units)|
    ensures forall k :: 0 <= k < |LongUnits(units)| ==>
      LongUnits(units)[k].offset + 1 < |d| &&
      HevcAnnexbInfoOf(d, units, ps).nalUnits[k] ==
        ParseHevcNalUnitHeader(d[LongUnits(units)[k].offset], d[LongUnits(units)[k].offset + 1])
  {
    if units != [] {
      var init := units[..|units| - 1];
      assert UnitsInBounds(d, init);
      HevcAnnexbHeaders(d, init, ps);
      assert forall k :: 0 <= k < |LongUnits(init)| ==> LongUnits(init)[k] in units;
    }
  }

  /** A unit of the stream of at least two bytes that is an SPS by its
      header and whose bytes parse. */
  predicate HevcSpsParses(d: seq<byte>, u: NalUnit, ps: HevcParsers)
  {
    2 <= u.length && u.offset + u.length <= |d| &&
    ParseHevcNalUnitHeader(d[u.offset], d[u.offset + 1]).nalUnitType == NAL_SPS &&
    ps.sps(Payload(d, u)).Ok?
  }

  /** One unit changes the SPS exactly when it is an SPS that parses. */
  lemma HevcSpsStep(prev: HevcParamSets, d: seq<byte>, u: NalUnit, ps: HevcParsers)
    requires u.offset + u.length <= |d|
    ensures HevcSpsParses(d, u, ps) ==> HevcUnitStep(prev, d, u, ps).sps == Some(ps.sps(Payload(d, u)).value)
    ensures !HevcSpsParses(d, u, ps) ==> HevcUnitStep(prev, d, u, ps).sps == prev.sps
  {
  }

  /** The reported SPS is that of the last SPS unit whose bytes parse:
      later SPS units that fail to parse leave it in place. */
  lemma {:induction false} HevcAnnexbSpsSource(d: seq<byte>, units: seq<NalUnit>, ps: HevcParsers)
    requires UnitsInBounds(d, units)
    ensures HevcAnnexbInfoOf(d, units, ps).sps.Some? ==>
      exists k :: 0 <= k < |units| && HevcSpsParses(d, units[k], ps) &&
        ps.sps(Payload(d, units[k])) == Ok(HevcAnnexbInfoOf(d, units, ps).sps.value) &&
        forall j :: k < j < |units| ==> !HevcSpsParses(d, units[j], ps)
  {
    if units != [] {
      var n := |units| - 1;
      var init, u := units[..n], units[n];
      assert UnitsInBounds(d, init);
      assert forall k :: 0 <= k < n ==> units[k] == init[k];
      HevcAnnexbSpsSource(d, init, ps);
      var prev := HevcAnnexbInfoOf(d, init, ps);
      var sps := HevcAnnexbInfoOf(d, units, ps).sps;
      HevcSpsStep(prev, d, u, ps);
      if !HevcSpsParses(d, u, ps) {
        if sps.Some? {
          var k :| 0 <= k < n && HevcSpsParses(d, init[k], ps) &&
            ps.sps(Payload(d, init[k])) == Ok(prev.sps.value) &&
            forall j :: k < j < n ==> !HevcSpsParses(d, init[j], ps);
          assert forall j :: k < j < |units| ==> !HevcSpsParses(d, units[j], ps);
        }
      }
    }
  }

  /** No SPS is reported exactly when no SPS unit of the stream parses. */
  lemma {:induction false} HevcAnnexbSpsNone(d: seq<byte>, units: seq<NalUnit>, ps: HevcParsers)
    requires UnitsInBounds(d, units)
    ensures HevcAnnexbInfoOf(d, units, ps).sps.None? <==>
      forall k :: 0 <= k < |units| ==> !HevcSpsParses(d, units[k], ps)
  {
    if units != [] {
      var n := |units| - 1;
      var init := units[..n];
      assert UnitsInBounds(d, init);
      assert forall k :: 0 <= k < n ==> units[k] == init[k];
      HevcAnnexbSpsNone(d, init, ps);
      HevcSpsStep(HevcAnnexbInfoOf(d, init, ps), d, units[n], ps);
    }
  }

  /** The stream is refused only when it is empty; every unit of at least two
      bytes that the scanner finds gets its header. */
  lemma HevcAnnexbTotal(data: seq<byte>)
    ensures HevcAnnexbOf(data).Err? <==> data == []
    ensures HevcAnnexbOf(data).Ok? ==>
      |HevcAnnexbOf(data).value.nalUnits| == |LongUnits(AnnexbUnits(data))|
  {
    if data != [] {
      AnnexbUnitsPlaced(data);
      HevcAnnexbHeaders(data, AnnexbUnits(data), HEVC_PARSERS);
    }
  }

  lemma HevcAnnexbInfoStep(d: seq<byte>, units: seq<NalUnit>, i: nat, ps: HevcParsers)
    requires i < |units| && UnitsInBounds(d, units)
    ensures UnitsInBounds(d, units[..i]) && UnitsInBounds(d, units[..i + 1])
    ensures HevcAnnexbInfoOf(d, units[..i + 1], ps) == HevcUnitStep(HevcAnnexbInfoOf(d, units[..i], ps), d, units[i], ps)
  {
    assert units[..i + 1][..i] == units[..i];
  }

  /** One pass of the loop body of parse_hevc_annexb. */
  method AddHevcUnit(info: HevcParamSets, data: seq<byte>, u: NalUnit, ps: HevcParsers) returns (next: HevcParamSets)
    requires u.offset + u.length <= |data|
    ensures next == HevcUnitStep(info, data, u, ps)
  {
    next := info;
    if u.length >= 2 {
      var h := ParseHevcNalUnitHeader(data[u.offset], data[u.offset + 1]);
      var payload := Payload(data, u);
      var withHeader := info.(nalUnits := info.nalUnits + [h]);
      if h.nalUnitType == NAL_VPS {
        next := withHeader.(vps := KeepLast(info.vps, ps.vps(payload)));
      } else if h.nalUnitType == NAL_SPS {
        next := withHeader.(sps := KeepLast(info.sps, ps.sps(payload)));
      } else if h.nalUnitType == NAL_PPS {
        next := withHeader.(pps := KeepLast(info.pps, ps.pps(payload)));
      } else {
        next := withHeader;
      }
    }
  }

  /** The loop of parse_hevc_annexb over the units the scanner finds. */
  method ReadHevcAnnexb(data: seq<byte>, ps: HevcParsers) returns (info: HevcParamSets)
    ensures UnitsInBounds(data, AnnexbUnits(data)) && info == HevcAnnexbInfoOf(data, AnnexbUnits(data), ps)
  {
    var units := FindAnnexbNalUnits(data);
    AnnexbUnitsPlaced(data);
    assert UnitsInBounds(data, units);
    info := NO_PARAM_SETS;
    var i := 0;
    while i < |units|
      invariant i <= |units| && UnitsInBounds(data, units[..i])
      invariant info == HevcAnnexbInfoOf(data, units[..i], ps)
    {
      HevcAnnexbInfoStep(data, units, i, ps);
      info := AddHevcUnit(info, data, units[i], ps);
      i := i + 1;
    }
    assert units[..|units|] == units;
  }

  /** parse_hevc_annexb */
  method ParseHevcAnnexb(data: seq<byte>) returns (r: Result<HevcParamSets>)
    ensures r == HevcAnnexbOf(data)
  {
    if |data| == 0 {
      return Err(EMPTY_DATA);
    }
    var info := ReadHevcAnnexb(data, HEVC_PARSERS);
    r := Ok(info);
  }

  // ---------------------------------------------------------------------------
  // hvcC record

  /** One NAL unit of an array: a payload of at least two bytes adds its
      header, and is parsed by the type of its ARRAY. */
  function HvccNaluStep(st: HevcParamSets, arrayType: nat, payload: seq<byte>, ps: HevcParsers): HevcParamSets
  {
    if |payload| < 2 then st
    else
      var h := ParseHevcNalUnitHeader(payload[0], payload[1]);
      KeepParamSet(st.(nalUnits := st.nalUnits + [h]), arrayType, payload, ps)
  }

  /** The NAL-unit loop of one array from offset o with n entries left: it
      stops at a length field or payload that overruns the data (the length
      field is then already consumed); a zero length is an empty entry. The
      result is what has been gathered and the offset reached. */
  function HvccNalusFrom(d: seq<byte>, o: nat, n: nat, arrayType: nat, st: HevcParamSets, ps: HevcParsers)
    : (r: (HevcParamSets, nat))
    requires o <= |d|
    ensures o <= r.1 <= |d|
    decreases n
  {
    if n == 0 || o + 2 > |d| then (st, o)
    else
      var len := BE16(d[o], d[o + 1]);
      if o + 2 + len > |d| then (st, o + 2)
      else HvccNalusFrom(d, o + 2 + len, n - 1, arrayType, HvccNaluStep(st, arrayType, d[o + 2 .. o + 2 + len], ps), ps)
  }

  /** The array loop from offset o with n arrays left: each array is a type
      byte (NAL_unit_type in its low 6 bits) and a 16-bit count, then its
      NAL units; the loop stops when those three bytes do not fit. */
  function HvccArraysFrom(d: seq<byte>, o: nat, n: nat, st: HevcParamSets, ps: HevcParsers): HevcParamSets
    requires o <= |d|
    decreases n
  {
    if n == 0 || o + 3 > |d| then st
    else
      var (st', o') := HvccNalusFrom(d, o + 3, BE16(d[o + 1], d[o + 2]), d[o] % 64, st, ps);
      HvccArraysFrom(d, o', n - 1, st', ps)
  }

  /** Each NAL unit an array adds takes its 2-byte length field and at
      least 2 bytes of payload. */
  lemma {:induction false} HvccNalusGrowth(d: seq<byte>, o: nat, n: nat, arrayType: nat, st: HevcParamSets, ps: HevcParsers)
    requires o <= |d|
    ensures var r := HvccNalusFrom(d, o, n, arrayType, st, ps);
      |st.nalUnits| <= |r.0.nalUnits| && 4 * (|r.0.nalUnits| - |st.nalUnits|) <= r.1 - o
    decreases n
  {
    if n > 0 && o + 2 <= |d| {
      var len := BE16(d[o], d[o + 1]);
      if o + 2 + len <= |d| {
        var next := HvccNaluStep(st, arrayType, d[o + 2 .. o + 2 + len], ps);
        HvccNalusGrowth(d, o + 2 + len, n - 1, arrayType, next, ps);
      }
    }
  }

  lemma {:induction false} HvccArraysGrowth(d: seq<byte>, o: nat, n: nat, st: HevcParamSets, ps: HevcParsers)
    requires o <= |d|
    ensures var r := HvccArraysFrom(d, o, n, st, ps);
      |st.nalUnits| <= |r.nalUnits| && 4 * (|r.nalUnits| - |st.nalUnits|) <= |d| - o
    decreases n
  {
    if n > 0 && o + 3 <= |d| {
      var t := d[o] % 64;
      var (st', o') := HvccNalusFrom(d, o + 3, BE16(d[o + 1], d[o + 2]), t, st, ps);
      HvccNalusGrowth(d, o + 3, BE16(d[o + 1], d[o + 2]), t, st, ps);
      HvccArraysGrowth(d, o', n - 1, st', ps);
    }
  }

  datatype HevcDescriptionInfo = HevcDescriptionInfo(sets: HevcParamSets, lengthSize: nat)

  /** The record with the given parsers: lengthSizeMinusOne in the low 2
      bits of byte 21, numOfArrays in byte 22, arrays from byte 23. */
  function HevcDescriptionWith(d: seq<byte>, ps: HevcParsers): (r: Result<HevcDescriptionInfo>)
    ensures r.Err? <==> |d| < 23
    ensures r.Ok? ==> 1 <= r.value.lengthSize <= 4 && r.value.lengthSize == d[21] % 4 + 1
  {
    if |d| < 23 then Err(HVCC_TOO_SHORT)
    else Ok(HevcDescriptionInfo(HvccArraysFrom(d, 23, d[22], NO_PARAM_SETS, ps), d[21] % 4 + 1))
  }

  /** No more headers come out of the record than it has room for. */
  lemma HevcDescriptionBound(d: seq<byte>, ps: HevcParsers)
    requires |d| >= 23
    ensures 4 * |HevcDescriptionWith(d, ps).value.sets.nalUnits| <= |d| - 23
  {
    HvccArraysGrowth(d, 23, d[22], NO_PARAM_SETS, ps);
  }

  /** parse_hevc_description as a function of the record. */
  function HevcDescriptionOf(d: seq<byte>): Result<HevcDescriptionInfo>
  {
    HevcDescriptionWith(d, HEVC_PARSERS)
  }

  /** One complete entry of an array is its step followed by the rest. */
  lemma HvccNaluEntry(d: seq<byte>, o: nat, len: nat, n: nat, arrayType: nat, st: HevcParamSets,
                      next: HevcParamSets, ps: HevcParsers)
    requires o + 2 <= |d| && n > 0 && len == BE16(d[o], d[o + 1]) && o + 2 + len <= |d|
    requires next == HvccNaluStep(st, arrayType, d[o + 2 .. o + 2 + len], ps)
    ensures HvccNalusFrom(d, o, n, arrayType, st, ps) == HvccNalusFrom(d, o + 2 + len, n - 1, arrayType, next, ps)
  {
  }

  /** One pass of the inner loop body of parse_hevc_description. */
  method AddHvccNalu(st: HevcParamSets, arrayType: nat, payload: seq<byte>, ps: HevcParsers) returns (next: HevcParamSets)
    ensures next == HvccNaluStep(st, arrayType, payload, ps)
  {
    next := st;
    if |payload| >= 2 {
      var h := ParseHevcNalUnitHeader(payload[0], payload[1]);
      next := KeepParamSet(st.(nalUnits := st.nalUnits + [h]), arrayType, payload, ps);
    }
  }

  /** The inner loop of parse_hevc_description over one array's NAL units. */
  method ReadHvccNalus(data: seq<byte>, offset: nat, count: nat, arrayType: nat, st: HevcParamSets, ps: HevcParsers)
    returns (r: HevcParamSets, end: nat)
    requires offset <= |data|
    ensures (r, end) == HvccNalusFrom(data, offset, count, arrayType, st, ps)
  {
    ghost var goal := HvccNalusFrom(data, offset, count, arrayType, st, ps);
    r := st;
    var o: nat := offset;
    var j := 0;
    while j < count
      invariant j <= count && o <= |data|
      invariant HvccNalusFrom(data, o, count - j, arrayType, r, ps) == goal
    {
      if o + 2 > |data| {
        break;
      }
      var len := BE16(data[o], data[o + 1]);
      if o + 2 + len > |data| {
        o := o + 2;
        break;
      }
      var next := AddHvccNalu(r, arrayType, data[o + 2 .. o + 2 + len], ps);
      HvccNaluEntry(data, o, len, count - j, arrayType, r, next, ps);
      r := next;
      o := o + 2 + len;
      j := j + 1;
    }
    end := o;
  }

  /** The body of parse_hevc_description with the given parsers. */
  method ReadHevcDescription(data: seq<byte>, ps: HevcParsers) returns (r: Result<HevcDescriptionInfo>)
    ensures r == HevcDescriptionWith(data, ps)
  {
    if |data| < 23 {
      return Err(HVCC_TOO_SHORT);
    }
    var lengthSize := data[21] % 4 + 1;
    var numArrays := data[22];
    var st := NO_PARAM_SETS;
    var o: nat := 23;
    var i := 0;
    while i < numArrays
      invariant i <= numArrays && o <= |data|
      invariant HvccArraysFrom(data, o, numArrays - i, st, ps) == HvccArraysFrom(data, 23, numArrays, NO_PARAM_SETS, ps)
    {
      if o + 3 > |data| {
        break;
      }
      var arrayType := data[o] % 64;
      var count := BE16(data[o + 1], data[o + 2]);
      st, o := ReadHvccNalus(data, o + 3, count, arrayType, st, ps);
      i := i + 1;
    }
    r := Ok(HevcDescriptionInfo(st, lengthSize));
  }

  /** parse_hevc_description */
  method ParseHevcDescription(data: seq<byte>) returns (r: Result<HevcDescriptionInfo>)
    ensures r == HevcDescriptionOf(data)
  {
    r := ReadHevcDescription(data, HEVC_PARSERS);
  }
}
