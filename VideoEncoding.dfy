/** The sequential state logic of VideoEncoder: configure with its required
    fields, defaults and backend choice, encode with its quantizer limits and
    sequence numbering, flush, reset and close, and is_config_supported. The
    backends themselves (libaom, VideoToolbox, NVENC) and the worker thread
    are not part of this model; their outputs arrive through the reorder
    buffer of CodecCommon. */
module VideoEncoding {
  import opened Wrappers
  import opened Bytes
  import opened CodecCommon
  import CP = CodecParser

  /** HardwareAccelerationEngine. */
  datatype Engine = EngineNone | AppleVideoToolbox | NvidiaVideoCodec | IntelVpl | AmdAmf

  /** The dict handed to configure: the entries the state logic reads. */
  datatype ConfigInput = ConfigInput(
    codec: Option<string>, width: Option<nat>, height: Option<nat>,
    bitrate: Option<nat>, framerate: Option<real>, engine: Engine)

  /** VideoEncoderConfig once stored, defaults applied. */
  datatype EncoderConfig = EncoderConfig(
    codec: string, width: nat, height: nat, bitrate: nat, framerate: real, engine: Engine)

  /** The library an encoder drives once configured. */
  datatype Backend = NoBackend | Aom | VideoToolbox | Nvenc

  /** The per-frame options: the key-frame flag and the per-codec quantizers. */
  datatype EncodeOptions = EncodeOptions(
    keyframe: bool, avcQuantizer: Option<nat>, hevcQuantizer: Option<nat>, av1Quantizer: Option<nat>)

  /** An encoded chunk as handed to the output callback. */
  datatype EncodedChunk = EncodedChunk(payload: seq<byte>, key: bool, timestamp: int)

  const DEFAULT_BITRATE: nat := 400000
  const DEFAULT_FRAMERATE: real := 30.0
  const MAX_AVC_HEVC_QUANTIZER: nat := 51
  const MAX_AV1_QUANTIZER: nat := 63

  const ENCODER_CLOSED := "VideoEncoder is closed"
  const ENCODER_NOT_CONFIGURED := "VideoEncoder is not configured"
  const CODEC_REQUIRED := "codec is required"
  const WIDTH_REQUIRED := "width is required"
  const HEIGHT_REQUIRED := "height is required"
  const INVALID_CODEC_STRING := "Invalid codec string: "
  const REQUIRES_VIDEO_TOOLBOX := "AVC/HEVC requires hardware_acceleration_engine=\"apple_video_toolbox\" on macOS"
  const AVC_HEVC_UNSUPPORTED := "AVC/HEVC not supported on this platform"
  const AVC_QUANTIZER_RANGE := "AVC quantizer must be in range 0-51"
  const HEVC_QUANTIZER_RANGE := "HEVC quantizer must be in range 0-51"
  const AV1_QUANTIZER_RANGE := "quantizer must be in range 0-63"

  // ---------------------------------------------------------------------------
  // Configuration

  /** The required entries and the defaults of configure: codec, width and
      height must be present, in that order; bitrate and framerate default
      to 400000 and 30. */
  function ReadConfig(input: ConfigInput): (r: Result<EncoderConfig>)
    ensures r.Ok? <==> input.codec.Some? && input.width.Some? && input.height.Some?
    ensures input.codec.None? ==> r == Err(CODEC_REQUIRED)
    ensures input.codec.Some? && input.width.None? ==> r == Err(WIDTH_REQUIRED)
    ensures input.codec.Some? && input.width.Some? && input.height.None? ==> r == Err(HEIGHT_REQUIRED)
    ensures r.Ok? ==> r.value.codec == input.codec.value && r.value.width == input.width.value &&
                      r.value.height == input.height.value && r.value.engine == input.engine
    ensures r.Ok? ==> r.value.bitrate == input.bitrate.UnwrapOr(DEFAULT_BITRATE) &&
                      r.value.framerate == input.framerate.UnwrapOr(DEFAULT_FRAMERATE)
  {
    if input.codec.None? then Err(CODEC_REQUIRED)
    else if input.width.None? then Err(WIDTH_REQUIRED)
    else if input.height.None? then Err(HEIGHT_REQUIRED)
    else
      Ok(EncoderConfig(input.codec.value, input.width.value, input.height.value,
                       input.bitrate.UnwrapOr(DEFAULT_BITRATE), input.framerate.UnwrapOr(DEFAULT_FRAMERATE),
                       input.engine))
  }

  /** is_av1_codec, is_avc_codec, is_hevc_codec: the codec-string prefix. */
  predicate IsAv1Codec(codec: string) { CP.HasPrefix(codec, "av01.") }
  predicate IsAvcCodec(codec: string) { CP.HasPrefix(codec, "avc1.") || CP.HasPrefix(codec, "avc3.") }
  predicate IsHevcCodec(codec: string) { CP.HasPrefix(codec, "hvc1.") || CP.HasPrefix(codec, "hev1.") }

  /** uses_videotoolbox: AVC or HEVC on macOS with the VideoToolbox engine. */
  predicate UsesVideoToolbox(platform: Platform, config: EncoderConfig)
  {
    platform == ApplePlatform && (IsAvcCodec(config.codec) || IsHevcCodec(config.codec)) &&
    config.engine == AppleVideoToolbox
  }

  /** uses_nvidia_video_codec: AVC, HEVC or AV1 with the NVIDIA engine in a
      build with the NVIDIA SDK. */
  predicate UsesNvidia(platform: Platform, config: EncoderConfig)
  {
    platform == NvidiaPlatform && config.engine == NvidiaVideoCodec &&
    (IsAvcCodec(config.codec) || IsHevcCodec(config.codec) || IsAv1Codec(config.codec))
  }

  /** The backend configure initialises, or why it cannot: NVENC when the
      NVIDIA engine applies, libaom for AV1, VideoToolbox for AVC/HEVC on
      macOS with that engine selected, and no backend for VP8/VP9. */
  function InitBackend(platform: Platform, config: EncoderConfig): (r: Result<Backend>)
    ensures r == Ok(Nvenc) <==> UsesNvidia(platform, config)
    ensures r == Ok(VideoToolbox) <==> UsesVideoToolbox(platform, config)
    ensures r == Ok(Aom) <==> IsAv1Codec(config.codec) && !UsesNvidia(platform, config)
    ensures r.Err? <==> (IsAvcCodec(config.codec) || IsHevcCodec(config.codec)) &&
                        !UsesNvidia(platform, config) && !UsesVideoToolbox(platform, config)
  {
    var avcOrHevc := IsAvcCodec(config.codec) || IsHevcCodec(config.codec);
    if UsesNvidia(platform, config) then Ok(Nvenc)
    else if IsAv1Codec(config.codec) then
      assert !avcOrHevc by { assert config.codec[..5][1] == 'v'; }
      Ok(Aom)
    else if avcOrHevc then
      if platform == ApplePlatform then
        if config.engine == AppleVideoToolbox then Ok(VideoToolbox) else Err(REQUIRES_VIDEO_TOOLBOX)
      else Err(AVC_HEVC_UNSUPPORTED)
    else Ok(NoBackend)
  }

  /** is_config_supported: false when the codec string does not parse; AV1
      everywhere; AVC and HEVC on macOS, or with the NVIDIA engine in an
      NVIDIA build; VP8 and VP9 never. */
  function IsConfigSupported(platform: Platform, config: EncoderConfig): (r: bool)
    ensures r ==> CP.ParseCodecString(config.codec).Ok?
    ensures CP.ParseCodecString(config.codec).Ok? && CP.ParseCodecString(config.codec).value.Av1Codec? ==> r
    ensures (CP.ParseCodecString(config.codec).Ok? &&
             (CP.ParseCodecString(config.codec).value.Vp8Codec? || CP.ParseCodecString(config.codec).value.Vp9Codec?)) ==> !r
  {
    match CP.ParseCodecString(config.codec)
    case Err(_) => false
    case Ok(p) =>
      if platform == NvidiaPlatform && config.engine == NvidiaVideoCodec &&
         (p.Av1Codec? || p.AvcCodec? || p.HevcCodec?) then true
      else if p.Av1Codec? then true
      else if p.AvcCodec? || p.HevcCodec? then
        if platform == ApplePlatform then true
        else if platform == NvidiaPlatform then config.engine == NvidiaVideoCodec
        else false
      else false
  }

  /** A parsed codec string names the family its prefix names. */
  lemma ParsedFamilyPrefix(codec: string)
    requires CP.ParseCodecString(codec).Ok?
    ensures var p := CP.ParseCodecString(codec).value;
      (p.Av1Codec? <==> IsAv1Codec(codec)) && (p.AvcCodec? <==> IsAvcCodec(codec)) &&
      (p.HevcCodec? <==> IsHevcCodec(codec))
  {
    if |codec| >= 5 {
      assert codec[..4] == codec[..5][..4];
    }
  }

  /** A supported configuration configures: is_config_supported never
      promises a codec that configure then refuses, except AVC/HEVC on macOS
      without the VideoToolbox engine selected, which is_config_supported
      accepts and configure rejects. */
  lemma SupportedConfigInitialises(platform: Platform, config: EncoderConfig)
    requires IsConfigSupported(platform, config)
    requires platform == ApplePlatform && (IsAvcCodec(config.codec) || IsHevcCodec(config.codec))
             ==> config.engine == AppleVideoToolbox
    ensures InitBackend(platform, config).Ok?
  {
    ParsedFamilyPrefix(config.codec);
  }

  /** Conversely, a codec string that parses and initialises a backend is
      reported supported, unless it is VP8 or VP9, which configure accepts
      without a backend and is_config_supported reports unsupported. */
  lemma InitialisedConfigSupported(platform: Platform, config: EncoderConfig)
    requires CP.ParseCodecString(config.codec).Ok? && InitBackend(platform, config).Ok?
    requires !CP.ParseCodecString(config.codec).value.Vp8Codec? && !CP.ParseCodecString(config.codec).value.Vp9Codec?
    ensures IsConfigSupported(platform, config)
  {
    ParsedFamilyPrefix(config.codec);
  }

  // ---------------------------------------------------------------------------
  // Sequence numbers

  /** The quantizer checks of encode: on the VideoToolbox path an AVC, then
      an HEVC quantizer above 51 is refused; on the worker path an AV1
      quantizer above 63. */
  function QuantizerCheck(videoToolbox: bool, options: EncodeOptions): (r: Result<()>)
    ensures r.Ok? <==> if videoToolbox
                       then (options.avcQuantizer.None? || options.avcQuantizer.value <= MAX_AVC_HEVC_QUANTIZER) &&
                            (options.hevcQuantizer.None? || options.hevcQuantizer.value <= MAX_AVC_HEVC_QUANTIZER)
                       else options.av1Quantizer.None? || options.av1Quantizer.value <= MAX_AV1_QUANTIZER
  {
    if videoToolbox then
      if options.avcQuantizer.Some? && options.avcQuantizer.value > MAX_AVC_HEVC_QUANTIZER then Err(AVC_QUANTIZER_RANGE)
      else if options.hevcQuantizer.Some? && options.hevcQuantizer.value > MAX_AVC_HEVC_QUANTIZER then Err(HEVC_QUANTIZER_RANGE)
      else Ok(())
    else if options.av1Quantizer.Some? && options.av1Quantizer.value > MAX_AV1_QUANTIZER then Err(AV1_QUANTIZER_RANGE)
    else Ok(())
  }

  /** The sequence number a configured encoder gives a frame, as written:
      the worker path takes `next` before it checks the AV1 quantizer, so a
      refused frame still uses up its number. Returns the outcome and the
      next number afterwards. */
  function TakeNumberAsWritten(next: nat, videoToolbox: bool, options: EncodeOptions): (r: (Result<nat>, nat))
    ensures r.0.Ok? <==> QuantizerCheck(videoToolbox, options).Ok?
    ensures r.0.Ok? ==> r.0.value == next && r.1 == next + 1
    ensures r.0.Err? && videoToolbox ==> r.1 == next
    ensures r.0.Err? && !videoToolbox ==> r.1 == next + 1
  {
    if videoToolbox then
      match QuantizerCheck(true, options)
      case Err(e) => (Err(e), next)
      case Ok(_) => (Ok(next), next + 1)
    else
      var taken := next + 1;
      match QuantizerCheck(false, options)
      case Err(e) => (Err(e), taken)
      case Ok(_) => (Ok(next), taken)
  }

  /** The sequence number a configured encoder gives a frame, with the
      quantizer checked before the number is taken on both paths: a frame
      is numbered exactly when it is accepted. */
  function TakeNumber(next: nat, videoToolbox: bool, options: EncodeOptions): (r: (Result<nat>, nat))
    ensures r.0.Ok? <==> QuantizerCheck(videoToolbox, options).Ok?
    ensures r.0.Ok? ==> r.0.value == next && r.1 == next + 1
    ensures r.0.Err? ==> r.1 == next
  {
    match QuantizerCheck(videoToolbox, options)
    case Err(e) => (Err(e), next)
    case Ok(_) => (Ok(next), next + 1)
  }

  /** The numbers TakeNumber hands out over a run of encode calls are
      0, 1, 2, ... with no gap: after any sequence of calls starting from
      `next`, the next number due is `next` plus the number of accepted
      frames. */
  function Numbered(next: nat, videoToolbox: bool, calls: seq<EncodeOptions>): (r: (seq<nat>, nat))
    decreases |calls|
  {
    if calls == [] then ([], next)
    else
      var (outcome, next') := TakeNumber(next, videoToolbox, calls[0]);
      var (rest, last) := Numbered(next', videoToolbox, calls[1..]);
      if outcome.Ok? then ([outcome.value] + rest, last) else (rest, last)
  }

  lemma {:induction false} NumbersAreDense(next: nat, videoToolbox: bool, calls: seq<EncodeOptions>)
    ensures var (numbers, last) := Numbered(next, videoToolbox, calls);
      last == next + |numbers| && forall i :: 0 <= i < |numbers| ==> numbers[i] == next + i
    decreases |calls|
  {
    if calls != [] {
      var (outcome, next') := TakeNumber(next, videoToolbox, calls[0]);
      NumbersAreDense(next', videoToolbox, calls[1..]);
    }
  }

  /** As written, one worker-path frame with an AV1 quantizer of 64 uses
      up its number n, the following frame is numbered n + 1, and its output
      is held by the reorder buffer, which waits for n, for good. */
  lemma RefusedFrameLeavesGap<T>(n: nat, output: T)
    ensures var bad := EncodeOptions(false, None, None, Some(64));
      var good := EncodeOptions(false, None, None, None);
      var (r1, n1) := TakeNumberAsWritten(n, false, bad);
      var (r2, n2) := TakeNumberAsWritten(n1, false, good);
      r1 == Err(AV1_QUANTIZER_RANGE) && r2 == Ok(n + 1) && Run(map[n + 1 := output], n) == []
  {
  }

  /** With the check first, the refused frame leaves no gap: the following
      frame takes n and its output is handed on at once. */
  lemma RefusedFrameLeavesNoGap<T>(n: nat, output: T)
    ensures var bad := EncodeOptions(false, None, None, Some(64));
      var good := EncodeOptions(false, None, None, None);
      var (r1, n1) := TakeNumber(n, false, bad);
      var (r2, n2) := TakeNumber(n1, false, good);
      r1 == Err(AV1_QUANTIZER_RANGE) && r2 == Ok(n) && Run(map[n := output], n) == [output]
  {
    FillingGapReleasesRun(map[], n, output);
  }

  // ---------------------------------------------------------------------------
  // The encoder

  class VideoEncoder {
    const platform: Platform
    const output: ReorderBuffer<EncodedChunk>
    var state: CodecState
    var config: EncoderConfig
    var backend: Backend
    var nextSequence: nat

    /** The output buffer keeps its order, and only a CONFIGURED encoder
        holds a backend. */
    ghost predicate Valid()
      reads this, output
    {
      output.Valid() && (state != Configured ==> backend == NoBackend)
    }

    constructor(platform: Platform)
      ensures Valid() && this.platform == platform && fresh(output)
      ensures state == Unconfigured && backend == NoBackend && nextSequence == 0
      ensures output.pending == map[] && output.next == 0
    {
      this.platform := platform;
      output := new ReorderBuffer();
      state := Unconfigured;
      config := EncoderConfig("", 0, 0, DEFAULT_BITRATE, DEFAULT_FRAMERATE, EngineNone);
      backend := NoBackend;
      nextSequence := 0;
    }

    /** configure: refused when closed or when a required entry is missing;
        otherwise the configuration is stored (even when what follows
        fails), the codec string must parse and the backend must
        initialise, and the encoder is then CONFIGURED. */
    method Configure(input: ConfigInput) returns (r: Result<()>)
      requires Valid()
      modifies this
      ensures Valid()
      ensures nextSequence == old(nextSequence)
      ensures old(state) == Closed ==> r == Err(ENCODER_CLOSED) && state == Closed && config == old(config)
      ensures old(state) != Closed && ReadConfig(input).Err? ==>
                r == Err(ReadConfig(input).error) && state == old(state) && config == old(config)
      ensures old(state) != Closed && ReadConfig(input).Ok? ==> config == ReadConfig(input).value
      ensures old(state) != Closed && ReadConfig(input).Ok? && CP.ParseCodecString(config.codec).Err? ==>
                r == Err(INVALID_CODEC_STRING + CP.ParseCodecString(config.codec).error) && state == old(state)
      ensures old(state) != Closed && ReadConfig(input).Ok? && CP.ParseCodecString(config.codec).Ok? ==>
                (r.Ok? <==> InitBackend(platform, config).Ok?) &&
                (r.Err? ==> r.error == InitBackend(platform, config).error && state == old(state)) &&
                (r.Ok? ==> state == Configured && backend == InitBackend(platform, config).value)
      ensures r.Ok? ==> state == Configured
    {
      if state == Closed {
        return Err(ENCODER_CLOSED);
      }
      var read := ReadConfig(input);
      if read.Err? {
        return Err(read.error);
      }
      config := read.value;
      var parsed := CP.ParseCodecString(config.codec);
      if parsed.Err? {
        return Err(INVALID_CODEC_STRING + parsed.error);
      }
      var init := InitBackend(platform, config);
      if init.Err? {
        return Err(init.error);
      }
      backend := init.value;
      state := Configured;
      r := Ok(());
    }

    /** encode, as written: refused unless CONFIGURED; otherwise the frame
        gets the next sequence number, taken before the AV1 quantizer
        check on the worker path. */
    method EncodeAsWritten(options: EncodeOptions) returns (r: Result<nat>)
      requires Valid()
      modifies this
      ensures Valid()
      ensures state == old(state) && config == old(config) && backend == old(backend)
      ensures old(state) != Configured ==> r == Err(ENCODER_NOT_CONFIGURED) && nextSequence == old(nextSequence)
      ensures old(state) == Configured ==>
                (r, nextSequence) == TakeNumberAsWritten(old(nextSequence), UsesVideoToolbox(platform, config), options)
    {
      if state != Configured {
        return Err(ENCODER_NOT_CONFIGURED);
      }
      if UsesVideoToolbox(platform, config) {
        var check := QuantizerCheck(true, options);
        if check.Err? {
          return Err(check.error);
        }
        r := Ok(nextSequence);
        nextSequence := nextSequence + 1;
      } else {
        var sequence := nextSequence;
        nextSequence := nextSequence + 1;
        var check := QuantizerCheck(false, options);
        if check.Err? {
          return Err(check.error);
        }
        r := Ok(sequence);
      }
    }

    /** encode: refused unless CONFIGURED; a frame that passes the
        quantizer checks gets the next sequence number, and a refused frame
        takes none. */
    method Encode(options: EncodeOptions) returns (r: Result<nat>)
      requires Valid()
      modifies this
      ensures Valid()
      ensures state == old(state) && config == old(config) && backend == old(backend)
      ensures old(state) != Configured ==> r == Err(ENCODER_NOT_CONFIGURED) && nextSequence == old(nextSequence)
      ensures old(state) == Configured ==>
                (r, nextSequence) == TakeNumber(old(nextSequence), UsesVideoToolbox(platform, config), options)
    {
      if state != Configured {
        return Err(ENCODER_NOT_CONFIGURED);
      }
      var check := QuantizerCheck(UsesVideoToolbox(platform, config), options);
      if check.Err? {
        return Err(check.error);
      }
      r := Ok(nextSequence);
      nextSequence := nextSequence + 1;
    }

    /** flush: does its work only when CONFIGURED; the work itself drains
        the backend and is not modelled, so nothing here changes. */
    method Flush() returns (ran: bool)
      ensures ran <==> state == Configured
    {
      if state != Configured {
        return false;
      }
      ran := true;
    }

    /** close: releases the backend and ends CLOSED; closing again does
        nothing. */
    method Close()
      requires Valid()
      modifies this
      ensures Valid() && state == Closed
      ensures old(state) == Closed ==> backend == old(backend)
      ensures old(state) != Closed ==> backend == NoBackend
      ensures config == old(config) && nextSequence == old(nextSequence)
    {
      if state == Closed {
        return;
      }
      backend := NoBackend;
      state := Closed;
    }

    /** reset, as written: clears the output buffer and both sequence
        counters, closes, and then sets UNCONFIGURED whatever the state was,
        so a closed encoder comes back to life. */
    method ResetAsWritten()
      requires Valid()
      modifies this, output
      ensures Valid() && state == Unconfigured && backend == NoBackend && nextSequence == 0
      ensures output.pending == map[] && output.next == 0
      ensures old(state) == Closed ==> state != Closed
    {
      output.Clear();
      nextSequence := 0;
      Close();
      state := Unconfigured;
    }

    /** reset: refused on a closed encoder, as for the decoder; otherwise
        clears the output buffer and both sequence counters, releases the
        backend and leaves the encoder UNCONFIGURED. */
    method Reset() returns (r: Result<()>)
      requires Valid()
      modifies this, output
      ensures Valid()
      ensures old(state) == Closed ==> r == Err(ENCODER_CLOSED) && state == Closed &&
                                       nextSequence == old(nextSequence) && backend == old(backend) &&
                                       output.pending == old(output.pending) && output.next == old(output.next)
      ensures old(state) != Closed ==> r == Ok(()) && state == Unconfigured && backend == NoBackend &&
                                       nextSequence == 0 && output.pending == map[] && output.next == 0
    {
      if state == Closed {
        return Err(ENCODER_CLOSED);
      }
      output.Clear();
      nextSequence := 0;
      backend := NoBackend;
      state := Unconfigured;
      r := Ok(());
    }
  }
}
