/** The sequential state logic of VideoDecoder: the codec of a codec
    string, configure, decode with its sequence numbering, flush, reset and
    close, and is_config_supported. The backends (dav1d, VideoToolbox) and
    the worker thread are not part of this model. */
module VideoDecoding {
  import opened Wrappers
  import opened CodecCommon
  import CP = CodecParser

  /** The decoder families string_to_codec can name. */
  datatype VideoCodec = Av1 | H264 | H265

  /** The dict handed to configure: the entries the state logic reads. */
  datatype ConfigInput = ConfigInput(
    codec: Option<string>, codedWidth: Option<nat>, codedHeight: Option<nat>, description: Option<seq<int>>)

  /** VideoDecoderConfig once stored. */
  datatype DecoderConfig = DecoderConfig(
    codec: string, codedWidth: Option<nat>, codedHeight: Option<nat>, description: Option<seq<int>>)

  /** The library a decoder drives once configured. */
  datatype Backend = NoBackend | Dav1d | VideoToolbox

  const DECODER_CLOSED := "Decoder is closed"
  const DECODER_NOT_CONFIGURED := "Decoder is not configured"
  const CODEC_REQUIRED := "codec is required"
  const INVALID_CODEC_STRING := "Invalid codec string: "
  const UNKNOWN_CODEC := "Unknown codec: "
  const H26X_UNSUPPORTED := "H.264/H.265 not supported on this platform"

  /** string_to_codec: AV1 for "av01.", H.264 for "avc1." or "avc3.",
      H.265 for "hvc1." or "hev1.", and an error naming anything else. */
  function StringToCodec(codec: string): (r: Result<VideoCodec>)
    ensures r == Ok(Av1) <==> CP.HasPrefix(codec, "av01.")
    ensures r == Ok(H264) <==> CP.HasPrefix(codec, "avc1.") || CP.HasPrefix(codec, "avc3.")
    ensures r == Ok(H265) <==> CP.HasPrefix(codec, "hvc1.") || CP.HasPrefix(codec, "hev1.")
    ensures r.Err? ==> r.error == UNKNOWN_CODEC + codec
  {
    if |codec| >= 5 && codec[..5] == "av01." then Ok(Av1)
    else if |codec| >= 5 && (codec[..5] == "avc1." || codec[..5] == "avc3.") then Ok(H264)
    else if |codec| >= 5 && (codec[..5] == "hvc1." || codec[..5] == "hev1.") then Ok(H265)
    else Err(UNKNOWN_CODEC + codec)
  }

  /** Every codec string the codec-string parser accepts as AV1, H.264 or
      H.265 names the same family here; VP8 and VP9 strings, which the
      parser accepts, are unknown to the decoder. */
  lemma StringToCodecAgreesWithParser(codec: string)
    requires CP.ParseCodecString(codec).Ok?
    ensures var p := CP.ParseCodecString(codec).value;
      (p.Av1Codec? <==> StringToCodec(codec) == Ok(Av1)) &&
      (p.AvcCodec? <==> StringToCodec(codec) == Ok(H264)) &&
      (p.HevcCodec? <==> StringToCodec(codec) == Ok(H265)) &&
      (p.Vp8Codec? || p.Vp9Codec? <==> StringToCodec(codec).Err?)
  {
  }

  /** init_decoder: dav1d for AV1, VideoToolbox for H.264/H.265 on macOS
      and an error elsewhere, and the string_to_codec error for the rest. */
  function InitDecoder(platform: Platform, codec: string): (r: Result<Backend>)
    ensures r == Ok(Dav1d) <==> StringToCodec(codec) == Ok(Av1)
    ensures r == Ok(VideoToolbox) <==> StringToCodec(codec).Ok? && StringToCodec(codec) != Ok(Av1) &&
                                       platform == ApplePlatform
    ensures r.Ok? ==> r.value != NoBackend
    ensures StringToCodec(codec).Err? ==> r == Err(StringToCodec(codec).error)
  {
    var c :- StringToCodec(codec);
    match c
    case Av1 => Ok(Dav1d)
    case _ => if platform == ApplePlatform then Ok(VideoToolbox) else Err(H26X_UNSUPPORTED)
  }

  /** is_config_supported: AV1 everywhere, H.264 and H.265 on macOS only,
      and nothing string_to_codec does not know. */
  function IsConfigSupported(platform: Platform, codec: string): (r: bool)
    ensures r ==> StringToCodec(codec).Ok?
    ensures StringToCodec(codec) == Ok(Av1) ==> r
  {
    match StringToCodec(codec)
    case Err(_) => false
    case Ok(Av1) => true
    case Ok(_) => platform == ApplePlatform
  }

  /** is_config_supported tells exactly which codec strings configure
      accepts once the string parses: the decoder initialises if and only
      if the configuration is reported supported. */
  lemma SupportedIffInitialises(platform: Platform, codec: string)
    ensures InitDecoder(platform, codec).Ok? <==> IsConfigSupported(platform, codec)
  {
  }

  /** The stored configuration of a dict holding a codec. */
  function ReadConfig(input: ConfigInput): (r: Result<DecoderConfig>)
    ensures r.Ok? <==> input.codec.Some?
    ensures r.Err? ==> r.error == CODEC_REQUIRED
    ensures r.Ok? ==> r.value.codec == input.codec.value && r.value.codedWidth == input.codedWidth &&
                      r.value.codedHeight == input.codedHeight && r.value.description == input.description
  {
    if input.codec.None? then Err(CODEC_REQUIRED)
    else Ok(DecoderConfig(input.codec.value, input.codedWidth, input.codedHeight, input.description))
  }

  class VideoDecoder<Frame> {
    const platform: Platform
    const output: ReorderBuffer<Frame>
    var state: CodecState
    var config: DecoderConfig
    var backend: Backend
    var nextSequence: nat

    /** The output buffer keeps its order, and a closed decoder holds no
        backend. */
    ghost predicate Valid()
      reads this, output
    {
      output.Valid() && (state == Closed ==> backend == NoBackend)
    }

    constructor(platform: Platform)
      ensures Valid() && this.platform == platform && fresh(output)
      ensures state == Unconfigured && backend == NoBackend && nextSequence == 0
      ensures output.pending == map[] && output.next == 0
    {
      this.platform := platform;
      output := new ReorderBuffer();
      state := Unconfigured;
      config := DecoderConfig("", None, None, None);
      backend := NoBackend;
      nextSequence := 0;
    }

    /** configure: refused when closed or without a codec; otherwise the
        current backend is released and the configuration stored before
        the codec string is parsed and the new backend initialised, so a
        failing reconfiguration leaves a decoder with no backend in its old
        state. On success the decoder is CONFIGURED. */
    method Configure(input: ConfigInput) returns (r: Result<()>)
      requires Valid()
      modifies this
      ensures Valid() && nextSequence == old(nextSequence)
      ensures old(state) == Closed ==> r == Err(DECODER_CLOSED) && state == Closed && backend == old(backend)
      ensures old(state) != Closed && input.codec.None? ==>
                r == Err(CODEC_REQUIRED) && state == old(state) && backend == old(backend) && config == old(config)
      ensures old(state) != Closed && input.codec.Some? ==> config == ReadConfig(input).value
      ensures old(state) != Closed && input.codec.Some? && CP.ParseCodecString(config.codec).Err? ==>
                r == Err(INVALID_CODEC_STRING + CP.ParseCodecString(config.codec).error) &&
                state == old(state) && backend == NoBackend
      ensures old(state) != Closed && input.codec.Some? && CP.ParseCodecString(config.codec).Ok? ==>
                (r.Ok? <==> IsConfigSupported(platform, config.codec)) &&
                (r.Err? ==> r.error == InitDecoder(platform, config.codec).error && state == old(state) &&
                            backend == NoBackend) &&
                (r.Ok? ==> state == Configured && backend == InitDecoder(platform, config.codec).value)
    {
      if state == Closed {
        return Err(DECODER_CLOSED);
      }
      var read := ReadConfig(input);
      if read.Err? {
        return Err(read.error);
      }
      backend := NoBackend;
      config := read.value;
      var parsed := CP.ParseCodecString(config.codec);
      if parsed.Err? {
        return Err(INVALID_CODEC_STRING + parsed.error);
      }
      var init := InitDecoder(platform, config.codec);
      SupportedIffInitialises(platform, config.codec);
      if init.Err? {
        return Err(init.error);
      }
      backend := init.value;
      state := Configured;
      r := Ok(());
    }

    /** decode: refused unless CONFIGURED; otherwise the chunk gets the next
        sequence number. */
    method Decode() returns (r: Result<nat>)
      requires Valid()
      modifies this
      ensures Valid() && state == old(state) && backend == old(backend) && config == old(config)
      ensures old(state) != Configured ==> r == Err(DECODER_NOT_CONFIGURED) && nextSequence == old(nextSequence)
      ensures old(state) == Configured ==> r == Ok(old(nextSequence)) && nextSequence == old(nextSequence) + 1
    {
      if state != Configured {
        return Err(DECODER_NOT_CONFIGURED);
      }
      r := Ok(nextSequence);
      nextSequence := nextSequence + 1;
    }

    /** flush: does its work only when CONFIGURED; the work itself drains
        the backend and is not modelled. */
    method Flush() returns (ran: bool)
      ensures ran <==> state == Configured
    {
      if state != Configured {
        return false;
      }
      ran := true;
    }

    /** reset: refused on a closed decoder; otherwise clears the output
        buffer and both sequence counters and keeps the state, so a
        configured decoder stays configured. */
    method Reset() returns (r: Result<()>)
      requires Valid()
      modifies this, output
      ensures Valid() && state == old(state) && backend == old(backend) && config == old(config)
      ensures old(state) == Closed ==> r == Err(DECODER_CLOSED) && nextSequence == old(nextSequence) &&
                                       output.pending == old(output.pending) && output.next == old(output.next)
      ensures old(state) != Closed ==> r == Ok(()) && nextSequence == 0 &&
                                       output.pending == map[] && output.next == 0
    {
      if state == Closed {
        return Err(DECODER_CLOSED);
      }
      output.Clear();
      nextSequence := 0;
      r := Ok(());
    }

    /** close: releases the backend and ends CLOSED; closing again does
        nothing. */
    method Close()
      requires Valid()
      modifies this
      ensures Valid() && state == Closed && backend == NoBackend
      ensures config == old(config) && nextSequence == old(nextSequence)
    {
      if state == Closed {
        return;
      }
      backend := NoBackend;
      state := Closed;
    }
  }
}
