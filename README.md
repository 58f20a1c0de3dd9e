# webcodecs-py byte and bit layer, modelled in Dafny

webcodecs-py is a Python binding of the WebCodecs API, built with nanobind
over C++ and wrapping codec libraries: dav1d, the Opus and FLAC libraries,
Intel VPL, Apple VideoToolbox and AudioToolbox. This project models the part
of it that is pure byte and bit work, together with the sequential state
logic around it. It proves what that code promises.

- **Bitstream**: the `BitstreamReader` bit cursor, with `read_bit`,
  `read_bits`, Exp-Golomb `read_ue` and `read_se` (section 9.1 of ITU-T
  H.264), `skip_bits` and `align_to_byte`. It also covers the removal of
  emulation-prevention bytes (section 7.4.1 of ITU-T H.264).
- **NalUtils**: `find_annexb_nal_units`, which splits an Annex B stream.
- **AvcParser** and **HevcParser**: the NAL unit headers, SPS, PPS and
  VPS parsers, the Annex B parsers, and the avcC and hvcC description
  parsers (ISO/IEC 14496-15). Each parser is defined as a function on
  bytes. The NAL unit headers and the avcC and hvcC records are proved
  against byte-level builders, as round trips. The SPS, PPS and VPS
  parsers have no builder: they are proved to take their leading fields
  from the bytes where the standards place them.
- **CodecParser**: the codec-string parser for the av01, avc1/avc3
  (section 3.3 of RFC 6381), hvc1/hev1, vp09 and vp8 families.
- **FrameGeometry**, **PlaneCopy** and **VideoFrame**: the pixel-format
  arithmetic, plane layout, `copy_to` rectangles and layouts, and the
  `VideoFrame` object. Its row copies work in place on an array.
- **AudioData**: shape checks, duration, copy options, allocation size and
  the `AudioData` object.
- **VplDescription** and **VplHelpers**: the avcC/hvcC builder of the Intel
  VPL encoder, the alignment helpers and the `SurfacePool`.
- **CodecCommon**, **VideoEncoding**, **VideoDecoding**, **AudioEncoding**
  and **OpusEncoding**: the unconfigured/configured/closed life cycle, the
  sequence numbering, the output reorder buffer that releases results
  strictly in sequence order, `is_config_supported`, and the Opus frame
  chunking and timestamps.
- **LengthPrefix** and **ToolboxConversion**: the Annex B to
  length-prefixed conversion of the VideoToolbox decoder, and its VP9
  frame-header and AV1 sequence-header probes.
- **ExampleHelpers**: `parse_avcc`, `parse_hvcc` and the AAC
  AudioSpecificConfig generator of `examples/device_to_mp4.py`, and the
  Annex B converter of `examples/blend2d_to_mp4.py`.

Each exception the source throws is an `Err` of a `Result`. Its message is
the source's own, and a Japanese message is rendered in English. The C++
fixed-width arithmetic appears explicitly, through `U8`, `U32` and a
64-bit modulus, wherever a wrap changes what the source accepts or
reports. Where such a wrap is a defect of the source, the wrap is modelled
by an as-written member under "Findings" and the rest of the model uses the
exact value. The other places where the model computes exactly, such as
the row offsets of a rectangle copy and the sample positions of an audio
channel, are listed under "Left out". Code that changes state step by step is
modelled as classes and methods, and each is proved against specification
functions.

The Python `parse_avcc` and the C++ `parse_avc_description` read the same
record in different ways, and the model keeps each as written:
- On a truncated length or payload, or a missing PPS count, Python raises
  ValueError, while C++ stops silently and returns what it has read.
- C++ also stops at a zero-length entry, which Python accepts.
- C++ parses each SPS and PPS it finds and keeps their NAL headers. Python
  returns the raw entries together with the profile, compatibility and
  level bytes of the record header.
- Python reads the chroma and bit-depth triplet after the PPS list. C++
  reads no triplet from the record. Python's list of profiles that carry
  the triplet is the C++ SPS parser's list (avc_parser.cpp:56-61) without
  profile 135. `ExampleHelpers.HasChromaTriplet` follows the Python list as
  written.

## Model

| member | source | states |
|---|---|---|
| Bitstream.BitstreamReader.constructor | src/bindings/bitstream_reader.h:12-16 | a new reader stands at bit 0 of the data, which it sees as the bit string BitsOf(data) |
| Bitstream.BitstreamReader.ReadBit | src/bindings/bitstream_reader.h:32-44 | fails exactly when the byte position has reached the end, without moving; otherwise returns the next bit (most significant first) and advances by exactly one bit, carrying into the next byte after bit 7 |
| Bitstream.BitstreamReader.ReadBits | src/bindings/bitstream_reader.h:19-29 | n > 32 fails without moving; otherwise the value of the next n bits, big-endian, and the position advances by n; a read of up to 8 bits is below 256 |
| Bitstream.BitsValueBound | src/bindings/bitstream_reader.h:19-29 | the value of n bits is below 2^n |
| Bitstream.BitstreamReader.SkipBits | src/bindings/bitstream_reader.h:78-82 | moves on by n bits, or fails with the read_bit error when fewer remain |
| Bitstream.BitstreamReader.CountLeadingZeros | src/bindings/bitstream_reader.h:49-55 | the number of 0 bits before the first 1, the 1 consumed; more than 31 zeros fail with the code-too-long error |
| Bitstream.LeadingZerosBound | src/bindings/bitstream_reader.h:49-55 | a successful count is at most 31, is followed by a 1 bit, and every counted bit is 0 |
| Bitstream.BitstreamReader.ReadUe | src/bindings/bitstream_reader.h:47-64 | returns the Exp-Golomb value of the code at the position (section 9.1 of ITU-T H.264) and moves past the code |
| Bitstream.UeShape | src/bindings/bitstream_reader.h:47-64 | a decoded code of lz leading zeros is 2^lz - 1 plus the lz-bit suffix, occupies 2*lz+1 bits and lies in [2^lz - 1, 2^(lz+1) - 1); lz = 0 gives 0 |
| Bitstream.UeCode | src/bindings/bitstream_reader.h:47-64 | a decoded code starts with exactly lz zero bits and a 1 |
| Bitstream.UeValueRange | src/bindings/bitstream_reader.h:57-63 | the decoded value with at most 31 leading zeros fits in 32 bits |
| Bitstream.EncodeUeShape | src/bindings/bitstream_reader.h:47-64 | the Exp-Golomb writer (section 9.1 of ITU-T H.264), the partner of read_ue: lz = floor(log2(v+1)) zeros then v+1 in lz+1 bits |
| Bitstream.UeRoundTrip | src/bindings/bitstream_reader.h:47-64 | read_ue reads back every value below 2^32 - 1 written by the Exp-Golomb writer, whatever follows it |
| Bitstream.BitstreamReader.ReadSe | src/bindings/bitstream_reader.h:67-75 | returns the signed mapping of read_ue's value: odd v gives (v+1)/2, even v gives -v/2 |
| Bitstream.SeUeInverse | src/bindings/bitstream_reader.h:67-75 | the signed mapping and its inverse undo each other in both directions |
| Bitstream.SeRoundTrip | src/bindings/bitstream_reader.h:67-75 | read_se reads back every 32-bit signed value written through the inverse mapping |
| Bitstream.BitstreamReader.RemainingBits | src/bindings/bitstream_reader.h:85-87 | the number of bits not yet read |
| Bitstream.BitstreamReader.HasMoreData | src/bindings/bitstream_reader.h:90 | true exactly when a bit remains |
| Bitstream.BitstreamReader.AlignToByte | src/bindings/bitstream_reader.h:99-104 | leaves the bit offset at 0, never moves back, moves less than 8 bits, and does not move when already aligned |
| Bitstream.RemoveEmulationPreventionBytes | src/bindings/bitstream_reader.h:115-135 | the loop's output equals RemoveEpb of the input: each 00 00 03 becomes 00 00, every other byte is copied |
| Bitstream.RemoveEpbLength | src/bindings/bitstream_reader.h:121-132 | the output is never longer than the input, and equals it exactly when no 00 00 03 occurs |
| Bitstream.RemoveEpbPrefix | src/bindings/bitstream_reader.h:121-132 | the first two bytes pass through unchanged (a 00 00 03 can only drop its third byte) |
| NalUtils.Payload | src/bindings/nal_utils.h:58-60 | the bytes a reported (offset, length) pair names: exactly length bytes, copied from the offset on |
| NalUtils.NextStartCode | src/bindings/nal_utils.h:26-41 | the first start code at or after i gives the position after it, 3 or 4 bytes on; none when no 00 00 01 follows |
| NalUtils.UnitEnd | src/bindings/nal_utils.h:47-56 | a unit ends at the first 3- or 4-byte start code after its start, or at the end of the data; no start code lies inside it |
| NalUtils.UnitsFromStep | src/bindings/nal_utils.h:20-63 | one turn of the scan: the unit found (when not empty) in front of the units from its end |
| NalUtils.UnitsFromPlaced | src/bindings/nal_utils.h:20-63 | every unit from i is non-empty, inside the data and right after a start code, and units are in strictly increasing, non-overlapping order |
| NalUtils.AnnexbUnitsPlaced | src/bindings/nal_utils.h:10-66 | every reported unit is non-empty, lies within the data and starts right after a start code, ends at the next start code or the end; units do not overlap and are in order; data under 4 bytes or without a start code gives no unit |
| NalUtils.NextStartCodeReaches | src/bindings/nal_utils.h:20-41 | the search from any point before a 00 00 01 stops at it or earlier, never past it |
| NalUtils.UnitsFromComplete | src/bindings/nal_utils.h:20-63 | the scan from any point before a start code reports the non-empty unit after it |
| NalUtils.AnnexbUnitsComplete | src/bindings/nal_utils.h:10-66 | no unit is missed: after every start code followed by at least one byte before the next start code, the unit up to that next start code or the end of the data is reported |
| NalUtils.FindStartCode | src/bindings/nal_utils.h:20-41 | the inner search loop finds a start code exactly when NextStartCode does, at the same place |
| NalUtils.FindUnitEnd | src/bindings/nal_utils.h:47-56 | the end loop stops where UnitEnd says |
| NalUtils.FindAnnexbNalUnits | src/bindings/nal_utils.h:10-66 | the method's list equals AnnexbUnits of the data |
| AvcParser.ParseAvcNalUnitHeader | src/bindings/avc_parser.cpp:15-25 | nal_unit_type is below 32 and nal_ref_idc below 4; is_idr holds iff the type is 5; is_key_frame holds iff IDR or the type is 7 (SPS) |
| AvcParser.AvcNalHeaderRoundTrip | src/bindings/avc_parser.cpp:15-25 | a header byte built from any ref_idc and type (section 7.3.1 of ITU-T H.264) is read back as that ref_idc and type |
| AvcParser.AvcNalHeaderFieldsRebuild | src/bindings/avc_parser.cpp:15-25 | the forbidden bit, ref_idc and type read from a byte rebuild that byte: the header parse loses nothing |
| AvcParser.AvcSubSamplingTable | src/bindings/avc_parser.cpp:162-167 | SubWidthC/SubHeightC are (1,1) for chroma 0, (2,2) for 4:2:0, (2,1) for 4:2:2, (1,1) for 4:4:4, always 1 or 2 |
| AvcParser.AvcFrameWidth | src/bindings/avc_parser.cpp:169-173 | the uint32 width: macroblock width times 16 minus the horizontal crop times the crop unit, reduced modulo 2^32 |
| AvcParser.AvcFrameHeight | src/bindings/avc_parser.cpp:169-176 | the uint32 height: map-unit height times 16 (doubled for field coding) minus the vertical crop times the crop unit, modulo 2^32 |
| AvcParser.AvcFrameSizeExact | src/bindings/avc_parser.cpp:162-176 | when the crop fits inside the coded size, width plus the horizontal crop times SubWidthC equals the macroblock width times 16, and likewise for the height with the frame-mbs factor |
| AvcParser.AvcFrameSizeUncropped | src/bindings/avc_parser.cpp:172-176 | without cropping and with frame coding, width and height are positive multiples of 16 |
| AvcParser.VuiTimingAt | src/bindings/avc_parser.cpp:210-218 | a frame rate is kept only when num_units_in_tick is positive, as time_scale over 2*num_units_in_tick |
| AvcParser.AvcSpsHeaderBytes | src/bindings/avc_parser.cpp:40-53 | a parsed SPS takes profile_idc, the constraint byte and level_idc from bytes 1-3 of the payload, and the SPS id from the ue(v) at bit 32, truncated to 8 bits |
| AvcParser.SecondByteKept | src/bindings/avc_parser.cpp:33-44 | emulation-prevention removal keeps the profile byte (byte 1) |
| AvcParser.AvcSpsDefaults | src/bindings/avc_parser.cpp:55-98 | for a profile outside the High-family list the SPS keeps chroma_format_idc 1 and bit depths 8 and 8 |
| AvcParser.ReadScalingList | src/bindings/avc_parser.cpp:84-94 | reads one scaling_list(): a delta_scale only while nextScale is non-zero, nextScale = (lastScale + delta + 256) % 256 with C's remainder |
| AvcParser.ReadScalingListEntry | src/bindings/avc_parser.cpp:83-95 | one seq_scaling_list_present_flag and, when set, a list of 16 entries for i < 6 and 64 otherwise |
| AvcParser.ReadScalingLists | src/bindings/avc_parser.cpp:80-97 | the 8 or 12 list entries in a row, as ScalingListsAt says |
| AvcParser.ReadAvcChromaFormat | src/bindings/avc_parser.cpp:62-67 | chroma_format_idc as ue(v), then separate_colour_plane_flag skipped when it is 3 |
| AvcParser.ReadAvcBitDepths | src/bindings/avc_parser.cpp:69-73 | the two bit depths are ue(v) + 8 |
| AvcParser.SkipAvcScalingMatrix | src/bindings/avc_parser.cpp:75-97 | skips the bypass flag, and the scaling lists (8, or 12 for chroma 3) when seq_scaling_matrix_present_flag is set |
| AvcParser.ReadAvcChromaFields | src/bindings/avc_parser.cpp:55-98 | chroma format, bit depths and scaling matrix of a High-family SPS, as AvcChromaFieldsAt says |
| AvcParser.SkipSes | src/bindings/avc_parser.cpp:118-120 | skips k se(v) values, failing as soon as one cannot be read |
| AvcParser.SkipAvcPocCycle | src/bindings/avc_parser.cpp:110-120 | the fields of pic_order_cnt_type 1 and its offset_for_ref_frame loop |
| AvcParser.SkipAvcPoc | src/bindings/avc_parser.cpp:100-121 | log2_max_frame_num and the picture order count fields of type 0 or 1; other types read nothing more |
| AvcParser.ReadAvcPicSize | src/bindings/avc_parser.cpp:123-144 | max_num_ref_frames to direct_8x8_inference_flag: the size in macroblocks and frame_mbs_only_flag |
| AvcParser.ReadAvcMbSize | src/bindings/avc_parser.cpp:129-133 | pic_width_in_mbs_minus1 and pic_height_in_map_units_minus1 as ue(v) |
| AvcParser.ReadAvcFrameMbs | src/bindings/avc_parser.cpp:135-144 | frame_mbs_only_flag, with mb_adaptive_frame_field_flag skipped when it is 0, then direct_8x8_inference_flag |
| AvcParser.ReadAvcCrop | src/bindings/avc_parser.cpp:146-159 | four ue(v) crop offsets when frame_cropping_flag is set, all 0 otherwise |
| AvcParser.ReadAvcGeometry | src/bindings/avc_parser.cpp:100-159 | everything from log2_max_frame_num to the crop offsets, as AvcGeometryAt says |
| AvcParser.SkipVuiAspect | src/bindings/avc_parser.cpp:181-189 | aspect_ratio_idc when present, and the 32-bit Extended_SAR when it is 255 |
| AvcParser.SkipVuiOverscan | src/bindings/avc_parser.cpp:191-194 | overscan_appropriate_flag when overscan_info_present_flag is set |
| AvcParser.SkipVuiSignal | src/bindings/avc_parser.cpp:196-202 | video_format and full range (4 bits) and the 24 colour bits when present |
| AvcParser.SkipVuiChromaLoc | src/bindings/avc_parser.cpp:204-208 | two ue(v) when chroma_loc_info_present_flag is set |
| AvcParser.ReadVuiTiming | src/bindings/avc_parser.cpp:210-218 | timing info only while data remains; two 32-bit fields; the frame rate as VuiTimingAt says |
| AvcParser.ReadAvcVui | src/bindings/avc_parser.cpp:178-219 | the VUI is read only when its flag is set and data remains, as AvcVuiAt says |
| AvcParser.ReadAvcSpsTail | src/bindings/avc_parser.cpp:100-219 | the geometry fields then the VUI |
| AvcParser.ReadAvcSpsHead | src/bindings/avc_parser.cpp:40-53 | skips the header byte and reads profile_idc, the constraint byte, level_idc and the SPS id |
| AvcParser.ParseAvcSps | src/bindings/avc_parser.cpp:28-222 | empty data fails; otherwise the reader's result on the payload with emulation prevention removed equals AvcSpsOf; a read past the end fails |
| AvcParser.ParseAvcPps | src/bindings/avc_parser.cpp:225-250 | empty data fails; otherwise pic_parameter_set_id, seq_parameter_set_id and entropy_coding_mode_flag after the header byte, as AvcPpsOf says |
| AvcParser.AvcPpsIdsAreUe | src/bindings/avc_parser.cpp:240-244 | a parsed PPS's two ids are the first two ue(v) after the header byte, truncated to 8 bits |
| AvcParser.AvcAnnexbHeaders | src/bindings/avc_parser.cpp:261-267 | one header per non-empty unit, in order, each parsed from the unit's first byte |
| AvcParser.AvcAnnexbSpsSource | src/bindings/avc_parser.cpp:266-289 | a reported SPS is the parse of the last unit of type 7 whose bytes parse; no later type-7 unit parses |
| AvcParser.AvcAnnexbSpsNone | src/bindings/avc_parser.cpp:266-289 | no SPS is reported exactly when no unit of type 7 parses |
| AvcParser.AvcSpsStep | src/bindings/avc_parser.cpp:269-278 | a unit replaces the SPS exactly when it is of type 7 and parses; otherwise the SPS stays |
| AvcParser.AvcAnnexbTotal | src/bindings/avc_parser.cpp:253-293 | Annex B parsing fails exactly on empty data and never because of a malformed SPS or PPS; its header list has one entry per unit find_annexb_nal_units reports |
| AvcParser.AddAvcUnit | src/bindings/avc_parser.cpp:266-289 | one unit: its header appended; an SPS or PPS that parses replaces the previous one, one that fails is ignored |
| AvcParser.ReadAvcAnnexb | src/bindings/avc_parser.cpp:258-292 | the loop over the reported units computes AvcAnnexbInfoOf of them |
| AvcParser.ParseAvcAnnexb | src/bindings/avc_parser.cpp:253-293 | equals AvcAnnexbOf: empty data fails, otherwise the fold over the units |
| AvcParser.AvccPayloads | src/bindings/avc_parser.cpp:313-337 | at most count payloads, each non-empty and shorter than 2^16; the loop stops at a cut-short length field, a zero length or a payload past the end |
| AvcParser.AvccListEnd | src/bindings/avc_parser.cpp:313-337 | the offset after the list never passes the end of the data |
| AvcParser.ReadParameterSetList | src/bindings/avc_parser.cpp:313-371 | one list loop: the headers of the payloads, the last payload that parses, and the offset where the loop stopped |
| AvcParser.AvcDescriptionWith | src/bindings/avc_parser.cpp:296-304 | fails exactly below 7 bytes; length_size is (byte 4 & 3) + 1, between 1 and 4 |
| AvcParser.ReadAvcDescription | src/bindings/avc_parser.cpp:296-374 | the SPS list from byte 6, then, when a byte remains, the PPS count and list; equals AvcDescriptionWith |
| AvcParser.ParseAvcDescription | src/bindings/avc_parser.cpp:296-374 | equals AvcDescriptionOf, the description parse with the SPS and PPS parsers above |
| HevcParser.ParseHevcNalUnitHeader | src/bindings/hevc_parser.cpp:15-34 | nal_unit_type and nuh_layer_id are below 64 and nuh_temporal_id_plus1 below 8; is_irap holds iff the type is 16..21 (BLA_W_LP..CRA); is_key_frame holds iff IRAP, VPS (32) or SPS (33) |
| HevcParser.HevcNalHeaderRoundTrip | src/bindings/hevc_parser.cpp:15-19 | a two-byte header built from any type, layer id and temporal id (section 7.3.1.2 of ITU-T H.265) is read back as those three fields |
| HevcParser.HevcNalHeaderFieldsRebuild | src/bindings/hevc_parser.cpp:15-19 | the forbidden bit and the three fields read from two bytes rebuild those bytes: the header parse loses nothing |
| HevcParser.HevcVpsBytes | src/bindings/hevc_parser.cpp:85-104 | the VPS fields parse iff the unescaped payload has at least 4 bytes; vps_id is the high nibble of byte 2 and max_sub_layers_minus1 bits 1-3 of byte 3 |
| HevcParser.ReadHevcVpsLayers | src/bindings/hevc_parser.cpp:93-102 | skips the two flags and reads max_layers_minus1 (6 bits) and max_sub_layers_minus1 (3 bits), as HevcVpsLayersAt says |
| HevcParser.ReadHevcVps | src/bindings/hevc_parser.cpp:85-104 | the reader loop over the unescaped payload computes HevcVpsAt of its bits |
| HevcParser.ParseHevcVps | src/bindings/hevc_parser.cpp:75-105 | equals HevcVpsOf: empty data fails with its own message, otherwise the VPS fields of the unescaped payload |
| HevcParser.HevcCroppedSize | src/bindings/hevc_parser.cpp:165-166 | the uint32 subtraction of the scaled conformance window always lies below 2^32 |
| HevcParser.HevcSubSamplingTable | src/bindings/hevc_parser.cpp:161-163 | SubWidthC is 2 for chroma 1 and 2, otherwise 1; SubHeightC is 2 only for chroma 1 |
| HevcParser.HevcCroppedSizeExact | src/bindings/hevc_parser.cpp:153-167 | when the window fits the coded size, the cropped size is the coded size minus the scaled offsets; with no window the size is unchanged |
| HevcParser.HevcSpsHeadBytes | src/bindings/hevc_parser.cpp:120-130 | the head ends at bit 24; vps_id is the high nibble of byte 2 and max_sub_layers_minus1 bits 1-3 of byte 2 |
| HevcParser.HevcProfileBytes | src/bindings/hevc_parser.cpp:41-51 | the general profile fields need 14 bytes; tier is bit 5 and profile_idc the low 5 bits of byte 3, and they end at bit 112 |
| HevcParser.HevcSpsFixedFields | src/bindings/hevc_parser.cpp:37-72 | with the profile present, level_idc is byte 14 of the payload, after the profile fields |
| HevcParser.HevcSpsHeaderBytes | src/bindings/hevc_parser.cpp:108-133 | a parsed SPS takes vps_id, tier, profile_idc and level_idc from fixed bytes 2, 3 and 14 of the unescaped payload |
| HevcParser.ReadHevcSpsHead | src/bindings/hevc_parser.cpp:120-130 | reads the head as HevcSpsHeadAt says and leaves the reader after it |
| HevcParser.ReadHevcProfile | src/bindings/hevc_parser.cpp:41-51 | reads the general profile fields as HevcProfileAt says |
| HevcParser.SkipSubLayerFlags | src/bindings/hevc_parser.cpp:57-62 | skips two flag bits per sub-layer, failing as soon as the bits run out |
| HevcParser.SkipSubLayerPadding | src/bindings/hevc_parser.cpp:64-68 | skips two bits for each index from max_sub_layers_minus1 up to 7 |
| HevcParser.ReadProfileTierLevel | src/bindings/hevc_parser.cpp:37-72 | profile_tier_level(): profile fields when present, level_idc, sub-layer flags and padding, as ProfileTierLevelAt says |
| HevcParser.ReadHevcSpsIds | src/bindings/hevc_parser.cpp:135-144 | sps_id and chroma_format_idc as ue(v), skipping separate_colour_plane_flag when chroma is 3 |
| HevcParser.ReadHevcConfWindow | src/bindings/hevc_parser.cpp:153-158 | the four conformance-window offsets when the flag is set, zeros otherwise |
| HevcParser.ReadHevcPicSize | src/bindings/hevc_parser.cpp:146-167 | width and height as ue(v), cropped by the window scaled by SubWidthC/SubHeightC in uint32 arithmetic |
| HevcParser.ReadHevcBitDepths | src/bindings/hevc_parser.cpp:169-173 | the two bit depths are ue(v) + 8 |
| HevcParser.ReadHevcSpsTail | src/bindings/hevc_parser.cpp:135-173 | ids, picture size and bit depths in order, as HevcSpsTailAt says |
| HevcParser.ParseHevcSps | src/bindings/hevc_parser.cpp:108-176 | equals HevcSpsOf: empty data fails, otherwise the SPS fields of the unescaped payload |
| HevcParser.HevcPpsShape | src/bindings/hevc_parser.cpp:185-200 | a parsed PPS has pps_id and sps_id as the two ue(v) values after bit 16, each truncated to 8 bits |
| HevcParser.ParseHevcPps | src/bindings/hevc_parser.cpp:179-201 | equals HevcPpsOf: empty data fails, otherwise the two ids |
| HevcParser.KeepParamSet | src/bindings/hevc_parser.cpp:220-251 | the header list is untouched, and a unit that is not a VPS, SPS or PPS changes nothing |
| HevcParser.LongUnits | src/bindings/hevc_parser.cpp:212-215 | keeps only reported units of length at least 2, in order |
| HevcParser.HevcAnnexbHeaders | src/bindings/hevc_parser.cpp:212-218 | one header per unit of length at least 2, in order, each parsed from the unit's first two bytes |
| HevcParser.HevcAnnexbSpsSource | src/bindings/hevc_parser.cpp:213-251 | a reported SPS is the parse of the last unit of at least two bytes and type 33 whose bytes parse; no later such unit parses |
| HevcParser.HevcAnnexbSpsNone | src/bindings/hevc_parser.cpp:213-251 | no SPS is reported exactly when no unit of at least two bytes and type 33 parses |
| HevcParser.HevcSpsStep | src/bindings/hevc_parser.cpp:213-251 | a unit replaces the SPS exactly when it has two bytes, is of type 33 and parses; otherwise the SPS stays |
| HevcParser.HevcAnnexbTotal | src/bindings/hevc_parser.cpp:204-255 | Annex B parsing fails exactly on empty data; its header list has one entry per reported unit of length at least 2 |
| HevcParser.AddHevcUnit | src/bindings/hevc_parser.cpp:213-251 | one unit: skipped below 2 bytes, otherwise its header appended and a parameter set that parses kept |
| HevcParser.ReadHevcAnnexb | src/bindings/hevc_parser.cpp:209-254 | the loop over the reported units computes HevcAnnexbInfoOf of them |
| HevcParser.ParseHevcAnnexb | src/bindings/hevc_parser.cpp:204-255 | equals HevcAnnexbOf |
| HevcParser.HvccNalusFrom | src/bindings/hevc_parser.cpp:290-329 | the entry loop never moves the offset backwards or past the end |
| HevcParser.HvccNalusGrowth | src/bindings/hevc_parser.cpp:290-329 | each header the entry loop adds consumes at least 4 bytes |
| HevcParser.HvccArraysGrowth | src/bindings/hevc_parser.cpp:275-330 | across all arrays, at most one header per 4 bytes of data after the array count |
| HevcParser.HevcDescriptionWith | src/bindings/hevc_parser.cpp:258-266 | fails exactly below 23 bytes; length_size is (byte 21 & 3) + 1, between 1 and 4 |
| HevcParser.HevcDescriptionBound | src/bindings/hevc_parser.cpp:270-330 | the header list of an hvcC record has at most (size - 23) / 4 entries |
| HevcParser.AddHvccNalu | src/bindings/hevc_parser.cpp:306-325 | one entry: below 2 bytes nothing, otherwise its header appended and, when the array type is a VPS, SPS or PPS that parses, that set kept |
| HevcParser.ReadHvccNalus | src/bindings/hevc_parser.cpp:290-329 | the inner loop computes HvccNalusFrom: stops at a cut-short length field or a payload past the end |
| HevcParser.ReadHevcDescription | src/bindings/hevc_parser.cpp:258-333 | the array loop, stopping when fewer than 3 bytes remain for an array header; equals HevcDescriptionWith |
| HevcParser.ParseHevcDescription | src/bindings/hevc_parser.cpp:258-333 | equals HevcDescriptionOf, the description parse with the parameter-set parsers above |
| CodecParser.SplitString | src/bindings/codec_parser.cpp:10-20 | the getline loop computes Split: the tokens between delimiters, with no token for a trailing delimiter |
| CodecParser.SplitRebuilds | src/bindings/codec_parser.cpp:10-20 | joining the tokens with the delimiter (plus the trailing delimiter, if any) gives back the string; no token holds the delimiter; no tokens iff the string is empty |
| CodecParser.SplitJoin | src/bindings/codec_parser.cpp:10-20 | splitting the join of delimiter-free tokens whose last one is non-empty gives back those tokens |
| CodecParser.Stoi | src/bindings/codec_parser.cpp:23-33 | a converted value lies in the int range; a string with no digit after the leading space and sign fails with the invalid-argument error |
| CodecParser.StoiDigits | src/bindings/codec_parser.cpp:23-33 | a digit string of any width (leading zeros allowed) converts to its number in base 10 and 16 |
| CodecParser.DecToU8 | src/bindings/codec_parser.cpp:31-33 | succeeds iff the decimal conversion does, and keeps its value modulo 256 (the uint8_t cast) |
| CodecParser.HexToU8 | src/bindings/codec_parser.cpp:23-28 | fails with the length message unless there are exactly two characters; a result is the base-16 value modulo 256 |
| CodecParser.HexToU8Digits | src/bindings/codec_parser.cpp:23-28 | two hex digits of any byte read back as that byte |
| CodecParser.DecToU8Digits | src/bindings/codec_parser.cpp:31-33 | decimal digits of any value below 256 read back as that value |
| CodecParser.OptionalU8 | src/bindings/codec_parser.cpp:80-96 | an optional field is absent when the parts run out, and otherwise present iff it converts |
| CodecParser.Av1OptionalFields | src/bindings/codec_parser.cpp:80-97 | the optional fields keep profile, level, tier and bit depth, and are all absent with four parts |
| CodecParser.ParseAv1CodecString | src/bindings/codec_parser.cpp:37-100 | fails without the "av01." prefix or with fewer than four parts; a result has profile at most 2, tier M or H and bit depth 8, 10 or 12 |
| CodecParser.Av1ParseFields | src/bindings/codec_parser.cpp:37-100 | a four-part string whose fields convert and are valid parses to exactly those fields |
| CodecParser.Av1CodecStringRoundTrip | src/bindings/codec_parser.cpp:37-100 | the string "av01.P.LLT.DD" built from any valid profile, level, tier and bit depth parses back to them |
| CodecParser.ParseAvcCodecString | src/bindings/codec_parser.cpp:102-141 | fails below 11 characters and on a prefix other than avc1/avc3; a result has that prefix followed by a dot |
| CodecParser.AvcCodecStringRoundTrip | src/bindings/codec_parser.cpp:102-141 | "avc1.PPCCLL" (or avc3) built from any three bytes parses back to them |
| CodecParser.AvcCodecStringSuffix | src/bindings/codec_parser.cpp:125-140 | characters after the six hex digits never change the result |
| CodecParser.U8OrZero | src/bindings/codec_parser.cpp:182-187 | a field that converts keeps its value modulo 256, one that fails becomes 0 |
| CodecParser.HevcLevelIdc | src/bindings/codec_parser.cpp:194-204 | the level is 0 unless the tier field has an 'L' and at least one more character |
| CodecParser.ParseHevcCodecString | src/bindings/codec_parser.cpp:143-211 | succeeds iff there are 5 characters, an hvc1/hev1 prefix, a dot at 4 and at least four parts; the profile space is part 1 verbatim |
| CodecParser.HevcParseFields | src/bindings/codec_parser.cpp:169-210 | profile_idc, level_idc, the compatibility and constraint fields are the converted parts 1 and 3 and the raw parts 2 and 4 |
| CodecParser.HevcCodecStringFields | src/bindings/codec_parser.cpp:143-211 | "hvc1.PPP.C.LLLL.K" built from any profile, compatibility, level and constraints parses back to them |
| CodecParser.ParseVp8CodecString | src/bindings/codec_parser.cpp:213-220 | succeeds iff the string is "vp8" |
| CodecParser.Vp9OptionalFields | src/bindings/codec_parser.cpp:255-271 | the optional fields keep profile, level and bit depth, and are all absent with four parts |
| CodecParser.ParseVp9CodecString | src/bindings/codec_parser.cpp:222-272 | fails without the "vp09." prefix or with fewer than four parts; a result has profile at most 3 and bit depth 8, 10 or 12 |
| CodecParser.Vp9ParseFields | src/bindings/codec_parser.cpp:222-272 | a four-part string whose fields convert and are valid parses to exactly those fields |
| CodecParser.Vp9CodecStringRoundTrip | src/bindings/codec_parser.cpp:222-272 | "vp09.PP.LL.DD" built from any valid profile, level and bit depth parses back to them |
| CodecParser.ParseCodecString | src/bindings/codec_parser.cpp:274-297 | "vp8" is VP8; shorter than 5 characters fails; each result comes from the family parser its five-character prefix selects; an unknown prefix fails as unsupported |
| FrameGeometry.StringToFormat | src/bindings/video_frame.cpp:1009-1028 | each of the eight names maps to its format and back; any other string fails with "Unknown pixel format: " and the string |
| FrameGeometry.FormatOf | src/bindings/video_frame.cpp:301-309 | a format given as a value is taken as is, one given as a string goes through the name table |
| FrameGeometry.FrameSizeU32Agrees | src/bindings/video_frame.cpp:380-398 | below 2^30 pixels the uint32 frame size equals the exact size (w h 3/2, 2, 3 or 4 bytes per pixel) |
| FrameGeometry.FrameSizeU32Wraps | src/bindings/video_frame.cpp:380-398 | a 65536 x 32768 I420 frame needs 0xC0000000 bytes but the uint32 product gives 0x40000000 |
| FrameGeometry.PlaneInfoTiles | src/bindings/video_frame.cpp:400-434 | with exact offsets, one offset and size per plane; the first plane starts at 0 and each next one where the previous ends, all inside the sum of the sizes |
| FrameGeometry.PlaneInfoU32Agrees | src/bindings/video_frame.cpp:400-434 | up to 0x33333333 pixels the plane table the binding computes in uint32 equals the exact one, for every format |
| FrameGeometry.I420PlaneOffsetWraps | src/bindings/video_frame.cpp:400-411 | for an I420 frame of 0x33333334 to 0x55555555 pixels the frame size does not wrap, but the uint32 V-plane offset does: the V plane then lies before the U plane, inside the luma plane, and differs from the exact offset |
| FrameGeometry.PlaneInfoFillsFrame | src/bindings/video_frame.cpp:380-434 | the planes never need more than the frame size, and fill it exactly iff the quarter/half divisions have no remainder |
| FrameGeometry.PlaneShapeInside | src/bindings/video_frame.cpp:436-466 | the rows x columns view plane(i) returns lies inside that plane's size |
| FrameGeometry.LayoutExtentIsMax | src/bindings/video_frame.cpp:131-145 | the size a custom layout needs is the largest plane end (offset + stride x rows, in size_t), 0 for no planes |
| FrameGeometry.ComputeLayoutExtent | src/bindings/video_frame.cpp:131-145 | the constructor's max loop over a custom layout computes LayoutExtent |
| FrameGeometry.LayoutExtentU32Covers | src/bindings/video_frame.cpp:353-372 | every plane end, taken in uint32 as allocation_size(options) takes it, lies within the 32-bit extent |
| FrameGeometry.LayoutExtentU32Agrees | src/bindings/video_frame.cpp:353-372 | when no plane end reaches 2^32 the 32-bit extent equals the exact extent |
| FrameGeometry.ComputeLayoutExtentU32 | src/bindings/video_frame.cpp:353-372 | the loop of allocation_size(options), each plane end computed in uint32, gives LayoutExtentU32 |
| FrameGeometry.ChromaFirstRow | src/bindings/video_frame.cpp:927-930 | the first chroma row a rectangle copy reads is y/2 for 4:2:0 planes and y for 4:2:2 and 4:4:4, whose chroma planes have full height |
| FrameGeometry.ChromaFirstRowI422Differs | src/bindings/video_frame.cpp:927-930 | for I422 and y = 2 the code as written starts at chroma row 1, where the rectangle's row 2 lies |
| FrameGeometry.RectLayouts | src/bindings/video_frame.cpp:814-822 | the caller's layout is used when it names enough planes (2 for NV12, 3 otherwise), else the packed default; either has enough planes |
| FrameGeometry.RectInsideWraps | src/bindings/video_frame.cpp:795-803 | with x = 0xFFFFFFFF and width 1 the uint32 sum wraps to 0 and passes the bounds check on a 2 x 2 frame |
| FrameGeometry.NarrowStrideOverruns | src/bindings/video_frame.cpp:895-919 | as written, an I444 2 x 2 copy into three stride-1 planes at offset 0 passes the size check at 2 bytes, while its second row ends at byte 3 |
| FrameGeometry.RectPlan | src/bindings/video_frame.cpp:839-955 | one row-copy per copied plane, each built from the rectangle, the plane offsets and the destination layout |
| FrameGeometry.SourcePlaneFits | src/bindings/video_frame.cpp:400-434 | the rows of each source plane times its stride fit the plane's size |
| FrameGeometry.RegionInPlane | src/bindings/video_frame.cpp:841-955 | for a rectangle inside the frame the region read from each plane lies inside that plane's rows and stride |
| FrameGeometry.RectReadInside | src/bindings/video_frame.cpp:910-955 | every row a rectangle copy reads lies inside the frame data |
| FrameGeometry.RectWriteInside | src/bindings/video_frame.cpp:896-955 | when the destination passes the size check and each stride covers its row width, every row written lies inside the destination |
| FrameGeometry.RectCopyInside | src/bindings/video_frame.cpp:896-955 | both the reads and the writes of each plane stay inside their buffers |
| FrameGeometry.RectPlanInside | src/bindings/video_frame.cpp:896-955 | the whole plan stays inside the frame data and the destination |
| FrameGeometry.DefaultRectLayoutsPacked | src/bindings/video_frame.cpp:882-894 | the default layout places the planes one after another without overlap, each stride as wide as its rows |
| FrameGeometry.DefaultPlanEntries | src/bindings/video_frame.cpp:882-894 | with the default layout each plane begins where the previous ends and rows are stored without gaps |
| FrameGeometry.DefaultRectCopySize | src/bindings/video_frame.cpp:882-903 | the size check for the default layout asks for exactly the packed size of the rectangle |
| FrameGeometry.DefaultRectBytesFit | src/bindings/video_frame.cpp:314-335 | the packed rectangle never needs more than calculate_size_for_rect of its width and height |
| FrameGeometry.RectCopyCell | src/bindings/video_frame.cpp:910-955 | after the copy, byte k of row r of plane i in the destination is the frame byte at that plane's rectangle row r, column k |
| PlaneCopy.RowStartIs | src/bindings/video_frame.cpp:846-848 | row r of a strided region starts at base + r x stride |
| PlaneCopy.WriteRowAt | src/bindings/video_frame.cpp:847 | one memcpy: the bytes at [at, at + n) are the copied bytes, everything else unchanged |
| PlaneCopy.WriteRowFront | src/bindings/video_frame.cpp:681 | a memcpy at offset 0 replaces the front and keeps the rest |
| PlaneCopy.Memcpy | src/bindings/video_frame.cpp:847 | the array afterwards is WriteRow of its old contents |
| PlaneCopy.RowsWrittenCell | src/bindings/video_frame.cpp:846-848 | after n row copies, byte k of each row r < n in the destination is byte k of source row r |
| PlaneCopy.RowsWrittenOutside | src/bindings/video_frame.cpp:846-848 | a row loop leaves every byte outside its destination region unchanged |
| PlaneCopy.CopyRows | src/bindings/video_frame.cpp:846-848 | the row loop of one plane computes RowsWritten |
| PlaneCopy.ApplyCopiesCell | src/bindings/video_frame.cpp:910-955 | with non-overlapping destination regions, every cell of every plane holds its source byte after all copies |
| PlaneCopy.ApplyCopiesOutside | src/bindings/video_frame.cpp:910-955 | bytes outside all destination regions are unchanged |
| PlaneCopy.CopyPlanes | src/bindings/video_frame.cpp:910-955 | the plane-by-plane copy computes ApplyCopies |
| VideoFrame.InitInfo | src/bindings/video_frame.cpp:34-128 | format, coded_width, coded_height and timestamp are required in that order, each missing one failing with its own message; a result keeps the given fields, duration defaults to 0, the visible rect to the coded frame, and the display size is swapped for rotations 90 and 270 |
| VideoFrame.CheckFrameAsWritten | src/bindings/video_frame.cpp:131-175 | an incomplete init fails with its InitInfo error; otherwise the constructor accepts exactly when the data size equals the layout extent (size_t) or, without a layout, the coded frame size computed in uint32, which wraps |
| VideoFrame.DataSizeAgrees | src/bindings/video_frame.cpp:131-166 | below 2^30 coded pixels the uint32 data size the binding demands is the exact one |
| VideoFrame.CheckFrame | src/bindings/video_frame.cpp:131-181 | the corrected constructor check: InitInfo errors first, then a data size different from the exact, unwrapped frame size fails with the size-mismatch error, and an accepted frame also has its planes, laid out by the visible size, inside the data |
| VideoFrame.CheckFrameRefinesAsWritten | src/bindings/video_frame.cpp:131-181 | below 2^30 coded pixels the corrected check accepts exactly what the binding's check accepts with the planes inside the data, and refuses with the binding's own error whatever the binding refuses |
| VideoFrame.PlaneOffsetWrapAccepted | src/bindings/video_frame.cpp:147-181 | a 32768 x 32768 I420 frame with a buffer of exactly 0x60000000 bytes passes both the binding's and the corrected check, while the binding's uint32 plane table puts the V plane at 0x10000000 and the exact one at 0x50000000 |
| VideoFrame.CodedSizeWrapAccepted | src/bindings/video_frame.cpp:147-175 | an I420 65536 x 32768 frame with a 0x40000000-byte buffer passes the binding's check, because its uint32 size wraps from 0xC0000000, while the corrected check refuses it |
| VideoFrame.VisibleRectOutsideData | src/bindings/video_frame.cpp:122-181 | an I420 frame of 2 x 2 coded pixels (6 bytes) with a 4 x 4 visible rect passes the code's checks, yet its planes need 24 bytes |
| VideoFrame.CheckFrameSize | src/bindings/video_frame.cpp:147-181 | a frame the corrected check accepts without a layout holds exactly the unwrapped coded frame size, and every plane lies inside it (the binding's own check can accept a wrapped size, see CodedSizeWrapAccepted) |
| VideoFrame.CloneOverflowsAsWritten | src/bindings/video_frame.cpp:601-621 | an I420 frame of 4 x 4 coded pixels showing 2 x 2 is accepted, and clone copies its 24 bytes into a buffer sized 6 |
| VideoFrame.ParseCopyOptions | src/bindings/video_frame.cpp:278-312 | only an unknown format name fails; rect and layout pass through and the format is resolved |
| VideoFrame.AllocationCoversLayout | src/bindings/video_frame.cpp:353-372 | the size reported for a layout, each plane end in uint32, covers every plane whose end fits in 32 bits, and is the exact extent when all of them do |
| VideoFrame.CopyCheckInside | src/bindings/video_frame.cpp:780-958 | a copy the checks let through reads only inside the frame's data and writes only inside the destination |
| VideoFrame.AllocationSizeSuffices | src/bindings/video_frame.cpp:337-378 | for a rectangle below 2^30 pixels, a destination of at least allocation_size(options) bytes passes every check of a same-format copy with the default layout |
| VideoFrame.DefaultCopyPixel | src/bindings/video_frame.cpp:882-955 | after a default-layout copy, byte k of row r of plane i in the destination is the matching frame byte inside the rect |
| VideoFrame.PackedLayoutsAtPlanes | src/bindings/video_frame.cpp:698-754 | the layouts copy_to(destination) reports start at the plane offsets of the frame |
| VideoFrame.VideoFrame.constructor | src/bindings/video_frame.cpp:176-181 | a frame holds the given bytes and description, open, with its plane table computed |
| VideoFrame.VideoFrame.Create | src/bindings/video_frame.cpp:34-181 | the dictionary constructor applies the corrected CheckFrame, not the binding's as-written check: it fails exactly when CheckFrame does, with its error, and otherwise gives a new open frame holding the data with the checked description |
| VideoFrame.VideoFrame.Close | src/bindings/video_frame.cpp:251-256 | the data is released and the frame marked closed; the description stays |
| VideoFrame.VideoFrame.SetDuration | src/bindings/video_frame.h:51 | only the duration changes |
| VideoFrame.VideoFrame.AllocationSize | src/bindings/video_frame.cpp:258-276 | the coded frame size computed in uint32, as AllocationSizeFor gives it, always below 2^32; below 2^30 coded pixels it is the data size of a frame without a layout |
| VideoFrame.VideoFrame.AllocationSizeWithOptions | src/bindings/video_frame.cpp:337-378 | fails on a closed frame or a bad format name, else reports AllocationSizeFor the options: the rect's or the coded frame size in uint32, or the layout's extent with each plane end in uint32 |
| VideoFrame.VideoFrame.Plane | src/bindings/video_frame.cpp:436-466 | fails on a closed frame or an index outside the planes; a view starts at the plane offset, has the plane's rows and columns and lies inside the data |
| VideoFrame.VideoFrame.Clone | src/bindings/video_frame.cpp:601-649 | fails on a closed frame; otherwise a new open frame with the same description and the same bytes |
| VideoFrame.VideoFrame.CopyTo | src/bindings/video_frame.cpp:653-754 | fails on a closed frame or a destination shorter than the sum of the plane sizes (leaving it untouched); otherwise the planes are copied one after another from the start and the rest of the destination is untouched |
| VideoFrame.VideoFrame.CopyToWithOptions | src/bindings/video_frame.cpp:757-958 | fails on a closed frame or bad options, else follows CopyCheck; a copy writes exactly ApplyCopies of the rectangle plan and any other outcome leaves the destination untouched |
| VideoFrame.SumSizes | src/bindings/video_frame.cpp:665-668 | the loop computes the sum of the plane sizes |
| AudioData.DurationBounds | src/bindings/audio_data.cpp:79-85 | duration is the floor of frames x 1000000 / sample_rate (the product fits 64 bits), and 0 when the rate is 0 |
| AudioData.CheckShape | src/bindings/audio_data.cpp:30-71 | a 1D array needs one channel and frames entries; a 2D array needs channels and frames on the axes the layout puts them; any other rank fails naming the rank |
| AudioData.CheckAudioAsWritten | src/bindings/audio_data.cpp:8-78 | format, sample_rate, number_of_frames, number_of_channels and timestamp are required in that order; accepted exactly when data is given and its shape matches, keeping the given fields |
| AudioData.CheckAudio | src/bindings/audio_data.cpp:73-77 | accepts what the code accepts when the array holds at least frames x channels x sample-size bytes, the amount the constructor copies |
| AudioData.ShortArrayAccepted | src/bindings/audio_data.cpp:73-77 | a 4-element uint8 array described as 4 mono F32 frames passes the shape check, yet 16 bytes are copied out of its 4 |
| AudioData.ParseCopyOptions | src/bindings/audio_data.cpp:329-390 | plane_index is required and must name a channel (planar) or be 0 (interleaved); frame_offset defaults to 0 and must be below the frame count; frame_count defaults to the rest, and offset + count may not pass the frame count |
| AudioData.FrameRangeWraps | src/bindings/audio_data.cpp:374 | with 10 frames, offset 1 and count 0xFFFFFFFF the uint32 sum wraps to 0 and passes the check the corrected parse refuses |
| AudioData.ParseAgrees | src/bindings/audio_data.cpp:354-380 | without wrap-around the code's check and the corrected one agree |
| AudioData.CopyCheck | src/bindings/audio_data.cpp:444-504 | a copy passes only with valid options and a destination of at least allocation_size; a same-format copy copies, S16/F32 converts, anything else fails |
| AudioData.CopyInsideData | src/bindings/audio_data.cpp:466-490 | a same-format copy reads allocation_size bytes, all inside the sample data |
| AudioData.SampleInside | src/bindings/audio_data.cpp:202-257 | every sample of every channel lies inside the data, planar or interleaved |
| AudioData.ChannelSampleAt | src/bindings/audio_data.cpp:202-257 | sample i of a channel's view is the sample at its planar or interleaved position |
| AudioData.GatherSamples | src/bindings/audio_data.cpp:245-253 | the interleaved gather loop computes Gather: sample i of the result is the channel's sample of frame i |
| AudioData.AudioData.constructor | src/bindings/audio_data.cpp:73-78 | an AudioData holds the given description and bytes, open |
| AudioData.AudioData.Create | src/bindings/audio_data.cpp:8-87 | the dictionary constructor applies the corrected CheckAudio, not the binding's as-written check: it fails exactly when CheckAudio does, with its error, and otherwise gives a new open AudioData holding the first number_of_frames frames of the array's bytes |
| AudioData.AudioData.CreateWithBuffer | src/bindings/audio_data.cpp:88-127 | a new open AudioData with the given channels, rate, frames, format and timestamp, the duration floor(frames x 10^6 / rate) (0 at rate 0), and frames x channels x sample-size zero bytes |
| AudioData.AudioData.Close | src/bindings/audio_data.cpp:129-134 | the data is released and the object marked closed; the description stays |
| AudioData.AudioData.ChannelData | src/bindings/audio_data.cpp:202-283 | fails on a closed object or a channel outside the channels, else returns that channel's samples |
| AudioData.AudioData.AllocationSize | src/bindings/audio_data.cpp:392-412 | fails when closed or on bad options, else frame_count samples of the target format, times the channels for an interleaved target |
| AudioData.AudioData.CopyTo | src/bindings/audio_data.cpp:444-504 | fails when closed, else follows CopyCheck; a failure leaves the destination untouched, a same-format copy writes the selected run at the front and keeps the rest |
| AudioData.AudioData.Clone | src/bindings/audio_data.cpp:414-424 | fails when closed; otherwise a new open AudioData with the same description and bytes |
| VplDescription.SkipStartCode | src/bindings/video_encoder_intel_vpl.cpp:704-727 | drops a leading 00 00 00 01 (4 bytes) or 00 00 01 (3 bytes), exactly when one is there, and keeps the buffer otherwise |
| VplDescription.TrimZeros | src/bindings/video_encoder_intel_vpl.cpp:729-735 | a prefix of the unit that does not end in a zero byte |
| VplDescription.TrimZerosDropsZeros | src/bindings/video_encoder_intel_vpl.cpp:729-735 | every byte the trim removes is zero |
| VplDescription.TrimmedLength | src/bindings/video_encoder_intel_vpl.cpp:730-735 | the countdown loop stops at the length of TrimZeros |
| VplDescription.AvcDescriptionFields | src/bindings/video_encoder_intel_vpl.cpp:701-763 | empty iff the trimmed SPS is shorter than 4 or the trimmed PPS empty; otherwise 11 + both lengths bytes: version 1, profile/compatibility/level from SPS bytes 1-3, FF E1, the SPS with its big-endian length, one PPS with its length |
| VplDescription.AvccRecordRoundTrip | src/bindings/video_encoder_intel_vpl.cpp:742-762 | the avcC record read back by parse_avc_description gives one SPS, one PPS, their headers and length size 4 |
| VplDescription.AvccSpsListOf | src/bindings/video_encoder_intel_vpl.cpp:748-757 | the SPS list of the record is exactly the SPS, ending right after it |
| VplDescription.AvccPpsListOf | src/bindings/video_encoder_intel_vpl.cpp:758-762 | the PPS list of the record is exactly the PPS |
| VplDescription.BuildAvcDescription | src/bindings/video_encoder_intel_vpl.cpp:701-763 | the byte-by-byte build computes AvcDescriptionBytes |
| VplDescription.ExtractLoopsAsWritten | src/bindings/video_encoder_intel_vpl.cpp:525-569 | on 00 00 01 65 00 00 the round at position 4 finds no unit and stays at 4, so the loop as written never ends |
| VplDescription.ExtractSplitsTailAsWritten | src/bindings/video_encoder_intel_vpl.cpp:548-558 | on 00 00 01 40 01 0C the end scan never looks at the last two bytes and cuts them off as a second unit |
| VplDescription.ExtractMatchesAnnexb | src/bindings/video_encoder_intel_vpl.cpp:525-569 | the corrected extraction returns the Annex B units find_annexb_nal_units reports, each with trailing zeros removed and empty ones dropped |
| VplDescription.ExtractShape | src/bindings/video_encoder_intel_vpl.cpp:561-566 | every extracted unit is non-empty, no longer than the buffer, and does not end in zero |
| VplDescription.ExtractBounded | src/bindings/video_encoder_intel_vpl.cpp:525-569 | no extracted unit is longer than its buffer |
| VplDescription.NextUnit | src/bindings/video_encoder_intel_vpl.cpp:530-563 | one round: whether a start code follows, where its unit begins and its trimmed length |
| VplDescription.ExtractNalus | src/bindings/video_encoder_intel_vpl.cpp:525-569 | the corrected loop computes ExtractFrom from position 0 and always ends |
| VplDescription.FirstOfType | src/bindings/video_encoder_intel_vpl.cpp:586-600 | the first unit of at least 2 bytes of the given type, and none exactly when no unit has it |
| VplDescription.Classify | src/bindings/video_encoder_intel_vpl.cpp:586-600 | the classification loop keeps the first VPS, SPS and PPS |
| VplDescription.HvccHeader | src/bindings/video_encoder_intel_vpl.cpp:607-667 | 23 bytes: version 1, the profile byte, level 0x5D at byte 12, 0x0F (length size 4) at byte 21, the array count last |
| VplDescription.HvccArray | src/bindings/video_encoder_intel_vpl.cpp:670-700 | one array of 5 + n bytes: type byte, one unit, big-endian length and the unit |
| VplDescription.HvccEntries | src/bindings/video_encoder_intel_vpl.cpp:660-700 | one to three arrays: the VPS when found, the SPS, the PPS when found |
| VplDescription.FoundUnitShort | src/bindings/video_encoder_intel_vpl.cpp:571-600 | a unit found in the two 256-byte buffers is at most 256 bytes, so its 16-bit length never truncates |
| VplDescription.HvccRecordRoundTrip | src/bindings/video_encoder_intel_vpl.cpp:607-700 | the hvcC record read back by parse_hevc_description gives the parameter sets and headers of its units, with length size 4 |
| VplDescription.HevcDescriptionReadBack | src/bindings/video_encoder_intel_vpl.cpp:516-700 | the HEVC description is empty iff no SPS is found; otherwise parse_hevc_description reads back the first VPS, SPS and PPS |
| VplDescription.HvccArraysRead | src/bindings/video_encoder_intel_vpl.cpp:670-700 | the array loop of the parser reads concatenated arrays entry by entry |
| VplDescription.BuildHevcDescription | src/bindings/video_encoder_intel_vpl.cpp:516-700 | the build computes HevcDescriptionBytes |
| VplDescription.BuildVplDescription | src/bindings/video_encoder_intel_vpl.cpp:509-764 | the HEVC or the AVC record, as is_hevc chooses |
| VplHelpers.Align16 | src/bindings/intel_vpl_helpers.h:25-28 | the 16-bit result is a multiple of 16, the smallest not below the value, or 0 when that overflows 16 bits |
| VplHelpers.Align32 | src/bindings/intel_vpl_helpers.h:30-33 | the 16-bit result is a multiple of 32, the smallest not below the value, or 0 when that overflows 16 bits |
| VplHelpers.Align16Idempotent | src/bindings/intel_vpl_helpers.h:25-28 | aligning twice is aligning once |
| VplHelpers.Align32Idempotent | src/bindings/intel_vpl_helpers.h:30-33 | aligning twice is aligning once |
| VplHelpers.VplCodecId | src/bindings/intel_vpl_helpers.h:35-47 | AVC exactly for avc1./avc3., HEVC exactly for hvc1./hev1., AV1 exactly for av01; any other string fails naming it |
| VplHelpers.VplCodecAgreesWithParser | src/bindings/intel_vpl_helpers.h:35-47 | on a codec string parse_codec_string accepts, the family chosen here is the parser's; VP8 and VP9 are refused |
| VplHelpers.SurfaceFillsSlice | src/bindings/intel_vpl_helpers.h:62-84 | surface i's Y plane starts at i x size, U at Y + pitch x aligned height, V one byte after U, and its NV12 data ends at (i+1) x size, inside the buffer |
| VplHelpers.IndexOfId | src/bindings/intel_vpl_helpers.h:96-104 | the first position holding the surface, or none when it is not in the pool |
| VplHelpers.ReleaseFindsOwnSurface | src/bindings/intel_vpl_helpers.h:96-104 | with distinct surfaces, releasing surface k finds position k |
| VplHelpers.SurfacePool.constructor | src/bindings/intel_vpl_helpers.h:58 | an empty pool |
| VplHelpers.SurfacePool.Clear | src/bindings/intel_vpl_helpers.h:106-116 | no surfaces and no free indices |
| VplHelpers.SurfacePool.Init | src/bindings/intel_vpl_helpers.h:62-84 | count new surfaces laid out as SurfaceAt, all free in order, and a buffer of count surface sizes |
| VplHelpers.SurfacePool.Acquire | src/bindings/intel_vpl_helpers.h:86-94 | none when no index is free, else the surface at the front of the free queue, which is dequeued |
| VplHelpers.SurfacePool.Release | src/bindings/intel_vpl_helpers.h:96-104 | the surface's position is queued as free; an unknown surface changes nothing |
| CodecCommon.Run | src/bindings/video_encoder.cpp:587-592 | the run handed on stops at the first missing sequence number |
| CodecCommon.RunEntries | src/bindings/video_encoder.cpp:587-592 | entry i of the run is the buffered entry for next + i |
| CodecCommon.Drop | src/bindings/video_encoder.cpp:589-590 | exactly the released numbers leave the buffer; the other entries stay unchanged |
| CodecCommon.FillingGapReleasesRun | src/bindings/video_encoder.cpp:584-592 | the entry that fills the awaited number releases itself and every buffered entry after it up to the next gap |
| CodecCommon.ReleaseKeepsOrder | src/bindings/video_encoder.cpp:575-592 | handling an output keeps the invariant: what was released is, in order, every arrived entry below the awaited number, and the buffer holds exactly the arrived entries not yet released |
| CodecCommon.LateEntryKeepsOrder | src/bindings/video_encoder.cpp:575-592 | an entry for a number already passed releases nothing and is never released |
| CodecCommon.ReorderBuffer.constructor | src/bindings/video_encoder.cpp:14-24 | an empty buffer awaiting number 0 |
| CodecCommon.ReorderBuffer.Clear | src/bindings/video_encoder.cpp:363-368 | the buffer is emptied and awaits number 0 again |
| CodecCommon.ReorderBuffer.HandleOutput | src/bindings/video_encoder.cpp:575-592 | stores the entry, releases the run from the awaited number, advances the awaited number by its length and drops the released entries |
| CodecCommon.ReleaseRun | src/bindings/video_encoder.cpp:588-592 | the while loop collects the run, drops it from the buffer and returns the next awaited number |
| VideoEncoding.ReadConfig | src/bindings/video_encoder.cpp:36-60 | codec, width and height are required in that order, each missing one failing with its own message; bitrate and framerate default to 400000 and 30 |
| VideoEncoding.InitBackend | src/bindings/video_encoder.cpp:106-128 | NVENC exactly when the NVIDIA build is asked for it, VideoToolbox exactly for AVC/HEVC on macOS with that engine, AOM for AV1 otherwise; AVC/HEVC without either fails |
| VideoEncoding.IsConfigSupported | src/bindings/video_encoder.cpp:409-450 | supported only for a codec string that parses; AV1 always; VP8 and VP9 never |
| VideoEncoding.ParsedFamilyPrefix | src/bindings/video_encoder.cpp:142-156 | the family the parser picks matches the prefix predicates is_av1_codec, is_avc_codec and is_hevc_codec |
| VideoEncoding.SupportedConfigInitialises | src/bindings/video_encoder.cpp:106-128 | a supported configuration initialises a backend, given the VideoToolbox engine for AVC/HEVC on macOS |
| VideoEncoding.InitialisedConfigSupported | src/bindings/video_encoder.cpp:409-450 | a parsed, non-VP8/VP9 configuration that initialises a backend is reported supported |
| VideoEncoding.QuantizerCheck | src/bindings/video_encoder.cpp:199-243 | with VideoToolbox the AVC and HEVC quantizers must be at most 51; otherwise the AV1 quantizer must be at most 63 |
| VideoEncoding.TakeNumberAsWritten | src/bindings/video_encoder.cpp:218-242 | a frame that passes takes the next number; an AV1 frame refused for its quantizer still consumes a number |
| VideoEncoding.TakeNumber | src/bindings/video_encoder.cpp:194-242 | a number is taken only by a frame that passes the check |
| VideoEncoding.NumbersAreDense | src/bindings/video_encoder.cpp:234-242 | the frames that pass get consecutive numbers from the start value, none skipped |
| VideoEncoding.RefusedFrameLeavesGap | src/bindings/video_encoder.cpp:234-242 | as written, after a refused AV1 frame the next frame gets n + 1, and its output waits forever for n |
| VideoEncoding.RefusedFrameLeavesNoGap | src/bindings/video_encoder.cpp:234-242 | with the number taken after the check, the next frame gets n and its output is released at once |
| VideoEncoding.VideoEncoder.constructor | src/bindings/video_encoder.cpp:14-24 | an unconfigured encoder with no backend, numbering from 0 and an empty output buffer |
| VideoEncoding.VideoEncoder.Configure | src/bindings/video_encoder.cpp:31-140 | a closed encoder refuses; a missing entry, a bad codec string or a backend that cannot start fail with their messages and leave the state; otherwise configured with the backend InitBackend chooses |
| VideoEncoding.VideoEncoder.EncodeAsWritten | src/bindings/video_encoder.cpp:187-259 | refused unless configured; otherwise numbered as TakeNumberAsWritten says |
| VideoEncoding.VideoEncoder.Encode | src/bindings/video_encoder.cpp:187-259 | refused unless configured; otherwise numbered as TakeNumber says |
| VideoEncoding.VideoEncoder.Flush | src/bindings/video_encoder.cpp:286-289 | flush does work only on a configured encoder |
| VideoEncoding.VideoEncoder.Close | src/bindings/video_encoder.cpp:381-407 | closing releases the backend once and leaves the encoder closed; closing again changes nothing |
| VideoEncoding.VideoEncoder.ResetAsWritten | src/bindings/video_encoder.cpp:350-379 | reset clears the buffer and the numbering and leaves the encoder unconfigured, even when it was closed |
| VideoEncoding.VideoEncoder.Reset | src/bindings/video_encoder.cpp:350-379 | a closed encoder refuses and keeps everything; otherwise the buffer and the numbering are cleared and the encoder is unconfigured without a backend |
| VideoDecoding.StringToCodec | src/bindings/video_decoder.cpp:5-18 | AV1 exactly for "av01.", H.264 exactly for "avc1."/"avc3.", H.265 exactly for "hvc1."/"hev1."; anything else fails naming the string |
| VideoDecoding.StringToCodecAgreesWithParser | src/bindings/video_decoder.cpp:5-18 | on a string parse_codec_string accepts, the decoder's codec is the parser's family, and VP8/VP9 are refused |
| VideoDecoding.InitDecoder | src/bindings/video_decoder.cpp:266-283 | dav1d exactly for AV1, VideoToolbox exactly for H.264/H.265 on macOS; an unknown codec fails with its message |
| VideoDecoding.IsConfigSupported | src/bindings/video_decoder.cpp:238-264 | supported only for a known codec, and always for AV1 |
| VideoDecoding.SupportedIffInitialises | src/bindings/video_decoder.cpp:238-283 | a codec is reported supported exactly when configure can start a backend for it |
| VideoDecoding.ReadConfig | src/bindings/video_decoder.cpp:52-75 | codec is required; coded size and description are kept as given |
| VideoDecoding.VideoDecoder.constructor | src/bindings/video_decoder.cpp:20-39 | an unconfigured decoder with no backend, numbering from 0 and an empty output buffer |
| VideoDecoding.VideoDecoder.Configure | src/bindings/video_decoder.cpp:46-103 | a closed decoder refuses; a missing codec, a bad codec string or an unsupported codec fail with their messages and leave the state; otherwise configured with the backend InitDecoder chooses |
| VideoDecoding.VideoDecoder.Decode | src/bindings/video_decoder.cpp:105-150 | refused unless configured; otherwise each chunk takes the next sequence number |
| VideoDecoding.VideoDecoder.Flush | src/bindings/video_decoder.cpp:152-155 | flush does work only on a configured decoder |
| VideoDecoding.VideoDecoder.Reset | src/bindings/video_decoder.cpp:187-222 | a closed decoder refuses and keeps everything; otherwise the output buffer and the numbering restart from 0 |
| VideoDecoding.VideoDecoder.Close | src/bindings/video_decoder.cpp:224-236 | the decoder is closed without a backend; configuration and numbering stay |
| AudioEncoding.ReadConfig | src/bindings/audio_encoder.cpp:55-118 | codec, sample_rate and number_of_channels are required, checked in that order with their messages; the rest is kept, and a missing bitrate becomes 128000 |
| AudioEncoding.InitEncoder | src/bindings/audio_encoder.cpp:120-130 | "opus" starts Opus exactly at its five rates with the stored bitrate, "flac" always starts FLAC, the four AAC strings start AAC exactly on macOS, anything else fails naming the codec |
| AudioEncoding.IsConfigSupported | src/bindings/audio_encoder.cpp:297-333 | Opus at its five rates with 1-2 channels, FLAC at 8-192 kHz with 1-8 channels, AAC only on macOS at 8-96 kHz with 1-2 channels, nothing else |
| AudioEncoding.SupportedConfigInitialises | src/bindings/audio_encoder.cpp:120-130 | every configuration reported supported is one configure starts a codec for |
| AudioEncoding.OpusInitialisesIffRateSupported | src/bindings/audio_encoder_opus.cpp:26-34 | for Opus, configure and is_config_supported apply the same sample-rate test |
| AudioEncoding.OpusBitrateDefaultsTo128k | src/bindings/audio_encoder.cpp:116-118 | an Opus encoder configured without a bitrate runs at 128000, never at Opus' own 64000 default |
| AudioEncoding.AudioEncoder.constructor | src/bindings/audio_encoder.cpp:23-41 | unconfigured, no codec, both counters at 0 and an empty output buffer |
| AudioEncoding.AudioEncoder.Configure | src/bindings/audio_encoder.cpp:48-138 | a closed encoder refuses; a missing field fails with its message and keeps the state; otherwise the config is stored and the encoder is configured exactly when InitEncoder succeeds, with that codec |
| AudioEncoding.AudioEncoder.Encode | src/bindings/audio_encoder.cpp:140-148 | refused unless configured; otherwise each input takes the next sequence number |
| AudioEncoding.AudioEncoder.HandleEncodedFrame | src/bindings/audio_encoder.cpp:173-189 | with an output callback each packet takes the next chunk number and is emitted through the reorder buffer; in lock step it is emitted at once; without a callback nothing changes |
| AudioEncoding.AudioEncoder.Flush | src/bindings/audio_encoder.cpp:204-231 | the codec is finished and restarted exactly when the stored configuration names FLAC or AAC and that codec is the live one; nothing is refused in any state |
| AudioEncoding.AudioEncoder.Close | src/bindings/audio_encoder.cpp:265-295 | closed with no codec; configuration and counters stay |
| AudioEncoding.AudioEncoder.ResetAsWritten | src/bindings/audio_encoder.cpp:234-262 | as written: even a closed encoder becomes unconfigured, with an empty output buffer, but the chunk counter is kept, so lock step survives only if no packet was ever produced |
| AudioEncoding.AudioEncoder.Reset | src/bindings/audio_encoder.cpp:234-262 | a closed encoder stays closed; otherwise unconfigured with every counter and the output buffer back at 0, in lock step |
| AudioEncoding.NextChunkReleased | src/bindings/audio_encoder.cpp:408-424 | the packet the buffer waits for is emitted at once and leaves nothing behind |
| AudioEncoding.ChunksStrandedAfterReset | src/bindings/audio_encoder.cpp:187-251 | once the output counter restarts at 0 while chunk numbers continue from k > 0, no packet is ever emitted |
| OpusEncoding.Int32String | src/bindings/audio_encoder_opus.cpp:26-33 | the sample rate printed as a signed 32-bit int: its decimal digits below 2^31, a minus sign and the complement above |
| OpusEncoding.DecimalReadsBack | src/bindings/audio_encoder_opus.cpp:33 | the decimal text of a number reads back to that number |
| OpusEncoding.ApplicationOf | src/bindings/audio_encoder_opus.cpp:36-45 | VoIP exactly for "voip", restricted low delay exactly for "lowdelay", audio otherwise |
| OpusEncoding.InitOpus | src/bindings/audio_encoder_opus.cpp:21-96 | accepted exactly at 8, 12, 16, 24 and 48 kHz, with the rate in the message otherwise; bitrate defaults to 64000 and complexity to 9 |
| OpusEncoding.FrameSize | src/bindings/audio_encoder_opus.cpp:111-122 | at every Opus rate a frame is exactly 20 ms (fifty frames a second); any other rate falls back to 960 |
| OpusEncoding.Silence | src/bindings/audio_encoder_opus.cpp:140-141 | the padding sample is zero on every channel |
| OpusEncoding.FrameAt | src/bindings/audio_encoder_opus.cpp:131-161 | frame k holds the input from its start, padded with silence to a full frame, stamped with its start time |
| OpusEncoding.FrameCountCovers | src/bindings/audio_encoder_opus.cpp:131-164 | every frame starts inside the input and the next one would not |
| OpusEncoding.PacketsTwentyMsApart | src/bindings/audio_encoder_opus.cpp:158-160 | at every Opus rate the k-th packet is stamped 20000 k microseconds after the input |
| OpusEncoding.PacketTimestampWraps | src/bindings/audio_encoder_opus.cpp:158-160 | as written, at 48 kHz the sixth packet (k = 5) is stamped 10521 us after the input instead of 100000 us, because the 32-bit product wraps |
| OpusEncoding.EncodeFrames | src/bindings/audio_encoder_opus.cpp:98-165 | the loop emits exactly FrameCount frames and frame k is FrameAt k |
| OpusEncoding.NextFrame | src/bindings/audio_encoder_opus.cpp:131-164 | each step of the loop either reaches the next frame start or ends the input at the last frame |
| OpusEncoding.BuiltFrame | src/bindings/audio_encoder_opus.cpp:132-146 | the frame the loop assembles, input slice plus zero padding, is FrameAt k |
| LengthPrefix.Frame | src/bindings/video_decoder_apple_video_toolbox.cpp:178-184 | a unit is written as four length bytes then its own bytes, and below 2^32 the length read back big-endian is the unit's length |
| LengthPrefix.DecodeEncode | src/bindings/video_decoder_apple_video_toolbox.cpp:178-184 | reading the length-prefixed stream back gives exactly the units written, in order, when each is shorter than 2^32 bytes |
| LengthPrefix.EncodedSize | src/bindings/video_decoder_apple_video_toolbox.cpp:178-184 | the stream is four bytes per unit plus the units |
| LengthPrefix.EncodeEmpty | src/bindings/video_decoder_apple_video_toolbox.cpp:193-195 | the stream is empty exactly when there is no unit to write |
| LengthPrefix.PayloadsAreUnits | src/bindings/nal_utils.h:10-66 | the payloads found scanning from i are the bytes of the units find_annexb_nal_units reports, in the same order |
| LengthPrefix.PayloadsNonEmpty | src/bindings/video_decoder_apple_video_toolbox.cpp:158-159 | every payload written is non-empty and no longer than the data |
| LengthPrefix.PayloadsFramable | src/bindings/video_decoder_apple_video_toolbox.cpp:179 | in data below 4 GiB every payload fits its 32-bit length |
| LengthPrefix.SkipByte | src/bindings/video_decoder_apple_video_toolbox.cpp:188-190 | a byte that starts no start code is skipped without changing what follows |
| LengthPrefix.UnitAtStartCode | src/bindings/video_decoder_apple_video_toolbox.cpp:135-187 | at a start code the scan yields the unit up to the next start code, when non-empty, then continues from its end |
| ToolboxConversion.KeptAreSlices | src/bindings/video_decoder_apple_video_toolbox.cpp:160-176 | every unit kept is non-empty and not a parameter set (SPS and PPS for H.264; VPS, SPS and PPS for H.265) |
| ToolboxConversion.KeepSlicesPartitions | src/bindings/video_decoder_apple_video_toolbox.cpp:160-176 | the units kept and the parameter sets skipped together are exactly the units of the data |
| ToolboxConversion.KeepFront | src/bindings/video_decoder_apple_video_toolbox.cpp:159-185 | a non-empty unit that is no parameter set is kept in front; any other is dropped |
| ToolboxConversion.SampleStep | src/bindings/video_decoder_apple_video_toolbox.cpp:143-187 | one start code of the loop adds the unit it finds exactly when it is non-empty and no parameter set |
| ToolboxConversion.WrittenAtStartCode | src/bindings/video_decoder_apple_video_toolbox.cpp:143-187 | the bytes written so far followed by the frames still to come stay the whole expected output |
| ToolboxConversion.CreateSampleData | src/bindings/video_decoder_apple_video_toolbox.cpp:118-195 | the sample is the length-prefixed stream of every non-parameter-set unit, and nothing when there is none |
| ToolboxConversion.Vp9BitDepth | src/bindings/video_decoder_apple_video_toolbox.cpp:355-360 | 8 bits below profile 2, otherwise 10 or 12 |
| ToolboxConversion.ParseVp9FrameHeaderAsWritten | src/bindings/video_decoder_apple_video_toolbox.cpp:332-368 | as written: a header is found exactly for at least three bytes with frame marker 2, with the two profile bits read high bit first |
| ToolboxConversion.ParseVp9FrameHeader | src/bindings/video_decoder_apple_video_toolbox.cpp:332-368 | a header is found exactly for at least three bytes with frame marker 2; the profile, read low bit first per section 6.2 of the VP9 Bitstream and Decoding Process Specification, is below 2 exactly when the high bit is clear |
| ToolboxConversion.Vp9ProfileRoundTrip | src/bindings/video_decoder_apple_video_toolbox.cpp:348-353 | the profile written into a frame header byte is the profile read back |
| ToolboxConversion.Vp9ProfileBitsSwapped | src/bindings/video_decoder_apple_video_toolbox.cpp:349 | as written, profiles 1 and 2 are exchanged: 0xA0 reads as profile 2 at 10 bits, 0x90 as profile 1 |
| ToolboxConversion.Leb128AsWritten | src/bindings/video_decoder_apple_video_toolbox.cpp:515-528 | the size read in 64-bit arithmetic stays below 2^64 and ends after its start, inside the data |
| ToolboxConversion.Leb128 | src/bindings/video_decoder_apple_video_toolbox.cpp:515-528 | the size read in unbounded arithmetic ends after its start, inside the data |
| ToolboxConversion.Av1ReadsPastEnd | src/bindings/video_decoder_apple_video_toolbox.cpp:511-536 | as written, on 12 00 0C the scan reads index 4 of three bytes |
| ToolboxConversion.LebContinues | src/bindings/video_decoder_apple_video_toolbox.cpp:521-528 | a continuation byte whose group still fits in 64 bits carries the read on |
| ToolboxConversion.LebEnds | src/bindings/video_decoder_apple_video_toolbox.cpp:521-528 | a final byte whose group fits ends the read with the sum |
| ToolboxConversion.WrappingObuSize | src/bindings/video_decoder_apple_video_toolbox.cpp:515-528 | as written, the size of the 11-byte wrapping OBU reads as 2^64 - 11 |
| ToolboxConversion.SizeWrapsToZero | src/bindings/video_decoder_apple_video_toolbox.cpp:570 | as written, an OBU whose end is 2^64 sends the scan back to position 0 |
| ToolboxConversion.WrappingObuHeader | src/bindings/video_decoder_apple_video_toolbox.cpp:504-507 | the wrapping OBU is a type-2 header with a size field and no extension |
| ToolboxConversion.WrappingObuReturnsToStart | src/bindings/video_decoder_apple_video_toolbox.cpp:499-571 | as written, one turn over the wrapping OBU ends where it began |
| ToolboxConversion.Av1LoopsInPlace | src/bindings/video_decoder_apple_video_toolbox.cpp:499-571 | a turn that returns to its own position keeps the scan going for any number of turns |
| ToolboxConversion.Av1ScanNeverEnds | src/bindings/video_decoder_apple_video_toolbox.cpp:485-574 | as written, the scan of the wrapping OBU never ends |
| ToolboxConversion.Av1Step | src/bindings/video_decoder_apple_video_toolbox.cpp:499-571 | corrected turn: it moves strictly forward inside the data, reports a header only for a type-1 OBU whose payload of at least three bytes lies inside, and never reads past the end |
| ToolboxConversion.Av1Scan | src/bindings/video_decoder_apple_video_toolbox.cpp:499-573 | a header found lies after the start and its first three payload bytes are inside the data |
| ToolboxConversion.ParseAv1SequenceHeader | src/bindings/video_decoder_apple_video_toolbox.cpp:485-574 | under two bytes gives nothing; otherwise the loop gives Av1Scan of the data, ending on every input, with the header's payload inside the data |
| ToolboxConversion.Av1CorrectedOnBreakingInputs | src/bindings/video_decoder_apple_video_toolbox.cpp:485-574 | on both inputs that break the scan as written, the corrected scan ends with no header |
| ToolboxConversion.Av1LevelRoundTrip | src/bindings/video_decoder_apple_video_toolbox.cpp:542-555 | reading seq_level_idx per section 5.5.1 of the AV1 specification gives back the profile and level written; as written, level 0 reads as 24 |
| ToolboxConversion.WrappingObuSizeUnbounded | src/bindings/video_decoder_apple_video_toolbox.cpp:515-528 | in unbounded arithmetic the wrapping OBU's size is 2^64 - 11, far beyond the data |
| ExampleHelpers.ConvertedAtStartCode | examples/blend2d_to_mp4.py:195-220 | at a start code the converter writes the unit's frame when the unit is non-empty, and what is written plus what is still to come stays the whole output |
| ExampleHelpers.WrittenFront | examples/blend2d_to_mp4.py:213-218 | writing the front unit's frame, when non-empty, keeps the output on track |
| ExampleHelpers.ConvertAnnexB | examples/blend2d_to_mp4.py:175-222 | for any chunk whose units each fit a 32-bit length, the converted chunk is the length-prefixed stream of the non-empty units between start codes |
| ExampleHelpers.ConvertedReadsBack | examples/blend2d_to_mp4.py:175-222 | the converted chunk reads back to its units, has their total size, and each unit is the non-empty payload find_annexb_nal_units reports at the same place |
| ExampleHelpers.ReadEntries | examples/device_to_mp4.py:55-79 | on success exactly count entries are read and the position stays inside the data; failures name a truncated length or truncated data |
| ExampleHelpers.ReadEntriesStep | examples/device_to_mp4.py:55-63 | one turn of the entry loop moves one entry from the data to the list |
| ExampleHelpers.ReadEntryList | examples/device_to_mp4.py:55-79 | the loop gives ReadEntries of the data |
| ExampleHelpers.ParseAvccOf | examples/device_to_mp4.py:39-103 | fails exactly when the record is under 7 bytes, an SPS entry is cut, the PPS count is missing or a PPS entry is cut; otherwise profile, compatibility and level are bytes 1-3, the SPS count is the low five bits of byte 5, and the chroma fields come together and only for the High profiles |
| ExampleHelpers.ParseAvcc | examples/device_to_mp4.py:39-103 | the method gives ParseAvccOf of the data |
| ExampleHelpers.ReadEntriesRoundTrip | examples/device_to_mp4.py:55-63 | entries written with 16-bit lengths read back to the same entries, ending after them |
| ExampleHelpers.AvccFieldsAt | examples/device_to_mp4.py:39-103 | a record with one SPS and one PPS parses to that SPS's profile, compatibility and level and to both units |
| ExampleHelpers.AvccRecordReadsBack | examples/device_to_mp4.py:39-103 | the avcC record the VPL encoder builds reads back, through parse_avcc, to its SPS and PPS and the SPS's profile fields |
| ExampleHelpers.NalusFrom | examples/device_to_mp4.py:127-136 | the unit loop stays inside the data and reads at most its count |
| ExampleHelpers.ArraysFrom | examples/device_to_mp4.py:119-136 | the loop records exactly one type per unit it reads |
| ExampleHelpers.ArraysFromTypes | examples/device_to_mp4.py:122-134 | every recorded type is a six-bit NAL unit type |
| ExampleHelpers.ParseHvccOf | examples/device_to_mp4.py:106-138 | fails exactly when the record is under 23 bytes; otherwise profile is the low five bits of byte 1, level is byte 12, and types and units pair up |
| ExampleHelpers.NalusStep | examples/device_to_mp4.py:127-136 | one turn of the unit loop moves one unit from the data to the list |
| ExampleHelpers.ArraysAccFrom | examples/device_to_mp4.py:119-136 | running the array loop with what was read so far carried along gives that, followed by what ArraysFrom reads |
| ExampleHelpers.ReadArrayNalus | examples/device_to_mp4.py:127-136 | the loop gives NalusFrom of the data |
| ExampleHelpers.ReadArrays | examples/device_to_mp4.py:119-136 | the outer loop gives ArraysFrom of the data: the units of every array, each tagged with its array's type |
| ExampleHelpers.ParseHvcc | examples/device_to_mp4.py:106-138 | the method gives ParseHvccOf of the data |
| ExampleHelpers.ArrayAt | examples/device_to_mp4.py:119-136 | an array with one unit reads back to its type byte and that unit |
| ExampleHelpers.ArraysRoundTrip | examples/device_to_mp4.py:119-136 | written one-unit arrays read back to their types and units, in order |
| ExampleHelpers.HvccFieldsAt | examples/device_to_mp4.py:106-138 | a record with the arrays after a 23-byte header parses to the profile, level 0x5D and the arrays' types and units |
| ExampleHelpers.HvccRecordReadsBack | examples/device_to_mp4.py:106-138 | the hvcC record the VPL encoder builds reads back, through parse_hvcc, to its profile, level and units |
| ExampleHelpers.SampleRateIndex | examples/device_to_mp4.py:185-201 | the index is always inside the rate table |
| ExampleHelpers.SampleRateIndexTable | examples/device_to_mp4.py:185-201 | a table rate maps to its own entry, every other rate to 44100 Hz's index 4 |
| ExampleHelpers.AacSpecificInfo | examples/device_to_mp4.py:183-208 | two bytes with object type 2 on top exactly for 0 to 31 channels; otherwise bytes() refuses the value |
| ExampleHelpers.AacSpecificInfoReadsBack | examples/device_to_mp4.py:183-208 | below 16 channels the object type, rate index and channel count read back from their fields |
| ExampleHelpers.AacManyChannelsOverwriteIndex | examples/device_to_mp4.py:206 | from 16 channels the channel count's top bit lands on the rate index's low bit: 44100 Hz with 16 channels gives 12 80 |

## Left out

- Threads, the worker queues, the GIL and the Python callbacks are not modelled. Each codec class is modelled as the sequence of its calls, and outputs reach the reorder buffer one at a time.
- The codec libraries are not part of this model: dav1d, Opus, FLAC, Intel VPL, VideoToolbox and AudioToolbox. A backend is a tag chosen by configure, and a library's own failure is not modelled.
- The audio decoders and the other encoder backends are outside the byte layer and are not modelled.
- nanobind's conversion of Python values into C++ values is not modelled. A configuration dict is a record of `Option` fields, and casts that fail are not modelled.
- Pixel-format conversion is not modelled: libyuv in `VideoFrame.copy_to`, and the float conversion of PCM samples in `AudioData.copy_to` and in the Opus path. The model records only that a conversion is chosen, and for which format.
- FrameGeometry.PlaneInfoOf: the plane table is exact. The binding computes it in uint32 (video_frame.cpp:400-434), which wraps for I420 frames of 0x33333334 to 0x55555555 pixels and I422 frames of 0x55555556 to 0x7FFFFFFF pixels; the as-written table is PlaneInfoU32 and the defect is a row under "Findings". PlaneInfoTiles, VideoFrame.PackedLayoutsAtPlanes, VideoFrame.DefaultCopyPixel and the table the VideoFrame.VideoFrame.constructor stores all use the exact table.
- VideoFrame.VideoFrame.Plane: the view starts at the exact plane offset. For the wrapping frames above, the source's plane(2) starts at the uint32 offset inside the luma plane (PlaneOffsetWrapAccepted); the model hands out the true V plane.
- VideoFrame.VideoFrame.CopyTo: each plane is copied from its exact offset. For the wrapping frames above, the source's memcpy reads the V plane from luma bytes at the uint32 offset; the model copies the true V plane.
- VideoFrame.VideoFrame.CopyToWithOptions: the rectangle plan reads from the exact plane offsets, where the source adds the uint32 plane offsets; the difference is the same wrap as for CopyTo. The row offsets are exact as well, in FrameGeometry.RectPlan and PlaneCopy.RowStart. The source computes `rect_y * src_stride`, `row * src_stride` and `row * dst_stride` as uint32 products (video_frame.cpp:844-847 and 916-953), so they wrap once a plane or destination region reaches 4 GiB.
- VideoFrame.VideoFrame.CopyToWithOptions: reports a conversion for every target format that differs from the frame's. The source throws "Unsupported conversion" (video_frame.cpp:592) for the pairs libyuv cannot convert, and that refusal is not modelled, since it belongs to the same libyuv dispatch.
- Floating point is modelled as exact rationals, for the VUI frame rate and the duration. The DOMRect doubles that `copy_to` truncates to `uint32_t` are taken as already truncated.
- Signed 32-bit overflow in the scaling-list arithmetic of the SPS parsers is undefined behaviour in C++. It is modelled with unbounded integers and C's truncating remainder.
- ToolboxConversion.Leb128AsWritten: a leb128 size longer than ten bytes shifts by 64 or more. That is undefined in C++; the model drops the bits above 2^64 instead.
- ToolboxConversion.SequenceHeader: the bit depth and the chroma fields keep the fixed values of the source, 10 bits for profile 2 and 8 otherwise. Only the level is read per section 5.5.1 of the AV1 specification.
- ToolboxConversion.Av1ScanAsWritten: the loop as written is run for at most `fuel` turns, because it need not end. Unfinished stands for a scan that would go on.
- ExampleHelpers.ConvertAnnexB: its requires excludes chunks that hold a NAL unit of 2^32 bytes or more. For such a unit Python's `to_bytes(4)` raises OverflowError, and that error is not modelled. A long chunk made of shorter units is covered.
- ExampleHelpers.AacSpecificInfo: from 16 to 31 channels the value is modelled as written, with the channel bit overwriting the rate index, as AacManyChannelsOverwriteIndex states. It is not corrected, because the AAC channel configuration is itself a 4-bit field.
- VideoFrame.AllocationSizeSuffices: holds only for rectangles below 2^30 pixels. Above that, `allocation_size` wraps in uint32 and can report less than the copy needs.
- AudioData.AudioData.ChannelData: the sample positions are computed exactly, in ChannelData and in AudioData.Gather. The source computes the planar offset `channel * number_of_frames_` (audio_data.cpp:219) and the interleaved index `i * number_of_channels_ + channel` (audio_data.cpp:251) as uint32 products. These wrap only once the data holds 2^32 samples or more.
- AudioData.AudioData.AllocationSize: the interleaved size `frame_count * channels` is computed exactly, while the source multiplies in uint32 (audio_data.cpp:410). The member validates its options with the corrected ParseCopyOptions. Under that check, frame_count stays within the frames, so a wrap would need at least 2^32 samples in the data. The source's own range check wraps (audio_data.cpp:374), so a 10-frame buffer already reaches the product's wrap. Take 2 interleaved S16 channels, frame_offset 9 and frame_count 0xFFFFFFF8: the product wraps to 0xFFFFFFF0, and copy_to then copies more bytes than its size check asked for. That input belongs to the "Findings" row for audio_data.cpp:374.
- VplHelpers.SurfaceSize: `width * height * 12 / 8` is computed in `int` in the source, which overflows (undefined behaviour) above 2^31. The model computes it exactly.
- VideoFrame.VideoFrame.Clone: `create_encoder_copy` is the same copy, so it is folded into Clone.
- OpusEncoding.EncodeFrames: the encoded packet bytes are left out, because they come from the Opus library. The model states which samples and timestamp each packet is made from.
- VideoEncoding.VideoEncoder.Flush and VideoDecoding.VideoDecoder.Flush: the wait for pending work and the backend's drain are not modelled. They state only when flush does any work.

## Findings

| source | as written | input that shows it | evidently intended | confidence | as-written member | corrected member |
|---|---|---|---|---|---|---|
| src/bindings/video_encoder_intel_vpl.cpp:525-569 | the end scan never looks at the last two bytes, and when a unit ends in a zero byte the trailing-zero strip leaves the position where it was, so `extract_nalus` loops forever | 00 00 01 65 00 00 | every NAL unit between start codes is extracted, each trimmed of its trailing zeros, and the loop ends | not executed | VplDescription.ExtractLoopsAsWritten, VplDescription.ExtractSplitsTailAsWritten | VplDescription.ExtractNalus, VplDescription.ExtractMatchesAnnexb |
| src/bindings/audio_data.cpp:374 | `frame_offset + frame_count` is computed in uint32 and wraps, so the range check passes | 10 frames, frame_offset 1, frame_count 0xFFFFFFFF | the range must lie inside the frames | not executed | AudioData.FrameRangeWraps, AudioData.ParseCopyOptionsAsWritten | AudioData.ParseCopyOptions, AudioData.ParseAgrees |
| src/bindings/audio_data.cpp:73-77 | only the array's shape is checked, not its element type, so the constructor copies 16 bytes out of a 4-byte uint8 array | F32, 4 mono frames, a 4-element uint8 array | the array holds at least frames x channels samples of the format's size | not executed | AudioData.ShortArrayAccepted, AudioData.CheckAudioAsWritten | AudioData.CheckAudio |
| src/bindings/video_encoder.cpp:234-242 | the sequence number is taken before the quantizer check, so a refused frame leaves a gap and the reorder buffer then holds every later output | AV1 with quantizer 64 | a refused frame takes no number | not executed | VideoEncoding.TakeNumberAsWritten, VideoEncoding.RefusedFrameLeavesGap | VideoEncoding.TakeNumber, VideoEncoding.RefusedFrameLeavesNoGap |
| src/bindings/video_encoder.cpp:350-379 | reset has no closed check, so it makes a closed encoder unconfigured again | reset after close | reset refuses a closed encoder, as the decoder does | not executed | VideoEncoding.VideoEncoder.ResetAsWritten | VideoEncoding.VideoEncoder.Reset |
| src/bindings/audio_encoder.cpp:187-251 | reset restarts the output counter but not the chunk counter, so every later packet waits in the buffer forever; reset also reopens a closed encoder | one packet emitted, then reset, configure and encode | both counters restart together | not executed | AudioEncoding.AudioEncoder.ResetAsWritten, AudioEncoding.ChunksStrandedAfterReset | AudioEncoding.AudioEncoder.Reset |
| src/bindings/audio_encoder_opus.cpp:158-160 | `samples_processed * 1000000` is computed in uint32 and wraps | 48 kHz input of at least 4801 samples: the sixth packet (k = 5) is stamped 10521 us after the input, not 100000 us | packet k is stamped 20000 k us after the input | not executed | OpusEncoding.PacketTimestampAsWritten, OpusEncoding.PacketTimestampWraps | OpusEncoding.PacketTimestamp, OpusEncoding.PacketsTwentyMsApart |
| src/bindings/video_decoder_apple_video_toolbox.cpp:511-536 | skipping the extension byte can step past the end; `size - pos` then wraps and the bounds check passes, so the scan reads past the data | 12 00 0C | an OBU that does not fit ends the scan with no header | not executed | ToolboxConversion.Av1StepAsWritten, ToolboxConversion.Av1ReadsPastEnd | ToolboxConversion.Av1Step, ToolboxConversion.ParseAv1SequenceHeader, ToolboxConversion.Av1CorrectedOnBreakingInputs |
| src/bindings/video_decoder_apple_video_toolbox.cpp:526-570 | a 64-bit leb128 size can carry `pos + obu_size` round to the start, and the scan never ends | 12 F5 FF FF FF FF FF FF FF FF 01 | the scan ends on every input | not executed | ToolboxConversion.Av1ScanNeverEnds | ToolboxConversion.ParseAv1SequenceHeader, ToolboxConversion.WrappingObuSizeUnbounded |
| src/bindings/video_decoder_apple_video_toolbox.cpp:349 | the profile is read with bit 5 as its high bit, which swaps profiles 1 and 2 (section 6.2 of the VP9 specification puts profile_low_bit first) | A0 00 00 | profile 1 at 8 bits | not executed | ToolboxConversion.ParseVp9FrameHeaderAsWritten, ToolboxConversion.Vp9ProfileBitsSwapped | ToolboxConversion.ParseVp9FrameHeader, ToolboxConversion.Vp9ProfileRoundTrip |
| src/bindings/video_decoder_apple_video_toolbox.cpp:551 | seq_level_idx is read from the low five bits of the first byte, which still hold the two flags | reduced header 18 00 00 | level 0, per section 5.5.1 of the AV1 specification | not executed | ToolboxConversion.SequenceHeaderAsWritten | ToolboxConversion.SequenceHeader, ToolboxConversion.Av1LevelRoundTrip |
| src/bindings/video_frame.cpp:122-181 | the data size is checked against the coded size, while the planes are laid out by the visible size | I420, 2 x 2 coded, 4 x 4 visible, 6 bytes | the planes lie inside the data | not executed | VideoFrame.CheckFrameAsWritten, VideoFrame.VisibleRectOutsideData | VideoFrame.CheckFrame |
| src/bindings/video_frame.cpp:601-621 | clone allocates the visible frame size but copies the whole data | I420, 4 x 4 coded, 2 x 2 visible: 24 bytes into 6 | the copy fits its buffer | not executed | VideoFrame.CloneOverflowsAsWritten | VideoFrame.VideoFrame.Clone |
| src/bindings/video_frame.cpp:795-803 | the rectangle's edges are summed in uint32 and checked against the coded size only | Rect(0xFFFFFFFF, 0, 1, 1) on a 2 x 2 frame | the rectangle lies inside the frame | not executed | FrameGeometry.RectInsideAsWritten, FrameGeometry.RectInsideWraps | FrameGeometry.RectInside, VideoFrame.CopyCheckInside |
| src/bindings/video_frame.cpp:895-919 | only the destination's size is checked, so a stride shorter than the row makes the last row run past the destination | I444, 2 x 2, three layouts at offset 0 with stride 1, 2-byte destination | every row fits the destination | not executed | FrameGeometry.RectCopySizeAsWritten, FrameGeometry.NarrowStrideOverruns | FrameGeometry.StridesCover, VideoFrame.CopyCheckInside |
| src/bindings/video_frame.cpp:927-930 | the first chroma row of a rectangle is halved for I422 too, although I422 chroma has full height | I422 at y = 2 | row 2 | not executed | FrameGeometry.ChromaFirstRowAsWritten, FrameGeometry.ChromaFirstRowI422Differs | FrameGeometry.ChromaFirstRow, FrameGeometry.RectCopyInside |
| src/bindings/video_frame.cpp:380-398 | the frame size is computed in uint32 and wraps for large frames | I420, 65536 x 32768: 0xC0000000 bytes become 0x40000000 | the byte count of the frame | not executed | FrameGeometry.FrameSizeU32Wraps | FrameGeometry.FrameSizeU32Agrees |
| src/bindings/video_frame.cpp:400-411 | the plane offsets are computed in uint32, and for I420 `width * height * 5` wraps while the frame size `width * height * 3` does not, so the frame is accepted with a V-plane offset inside the luma plane | I420, 32768 x 32768, a 0x60000000-byte buffer: the V plane starts at 0x10000000 | the V plane starts at 0x50000000, behind the U plane | not executed | FrameGeometry.I420PlaneOffsetWraps, VideoFrame.PlaneOffsetWrapAccepted | FrameGeometry.PlaneInfoTiles, FrameGeometry.PlaneInfoU32Agrees |
| src/bindings/video_frame.cpp:147-175 | without a layout, the data size check compares the data with the coded frame size computed in uint32, which wraps | I420, 65536 x 32768 coded, a 0x40000000-byte buffer | the exact frame size, 0xC0000000 bytes | not executed | VideoFrame.CheckFrameAsWritten, VideoFrame.CodedSizeWrapAccepted | VideoFrame.CheckFrame, VideoFrame.CheckFrameRefinesAsWritten |
