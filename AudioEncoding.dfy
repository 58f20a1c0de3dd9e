/** The sequential state logic of AudioEncoder: configure with its codec
    dispatch, encode with its task numbering, the numbering of the chunks
    the codecs produce and their reordering, flush, reset and close, and
    is_config_supported. The FLAC and AAC libraries, the worker thread and
    the callbacks are not part of this model. */
module AudioEncoding {
  import opened Wrappers
  import opened Bytes
  import opened CodecCommon
  import Opus = OpusEncoding

  /** The entries of the dict handed to configure the model reads. */
  datatype ConfigInput = ConfigInput(
    codec: Option<string>, sampleRate: Option<u32>, channels: Option<u32>, bitrate: Option<nat>,
    opus: Option<Opus.OpusConfig>)

  /** AudioEncoderConfig once stored. */
  datatype EncoderConfig = EncoderConfig(
    codec: string, sampleRate: u32, channels: u32, bitrate: nat, opus: Option<Opus.OpusConfig>)

  /** The codec library a configured encoder drives. */
  datatype Backend = NoBackend | OpusBackend(settings: Opus.OpusSettings) | FlacBackend | AacBackend

  /** An EncodedAudioChunk: every chunk is a key chunk. */
  datatype AudioChunk = AudioChunk(payload: seq<byte>, timestamp: int)

  const ENCODER_CLOSED := "AudioEncoder is closed"
  const ENCODER_NOT_CONFIGURED := "AudioEncoder is not configured"
  const CODEC_REQUIRED := "codec is required"
  const SAMPLE_RATE_REQUIRED := "sample_rate is required"
  const CHANNELS_REQUIRED := "number_of_channels is required"
  const UNSUPPORTED_CODEC := "Unsupported codec: "
  const DEFAULT_BITRATE := 128000

  /** The AAC-LC codec strings: "mp4a.40.2", "mp4a.40.02", "mp4a.67" and
      "aac". */
  predicate IsAacCodec(codec: string)
  {
    codec == "mp4a.40.2" || codec == "mp4a.40.02" || codec == "mp4a.67" || codec == "aac"
  }

  /** The configuration configure stores: refused without a codec, a
      sample rate or a channel count, in that order; 128 kbit/s when no
      bitrate is given. */
  function ReadConfig(input: ConfigInput): (r: Result<EncoderConfig>)
    ensures r.Ok? <==> input.codec.Some? && input.sampleRate.Some? && input.channels.Some?
    ensures input.codec.None? ==> r == Err(CODEC_REQUIRED)
    ensures input.codec.Some? && input.sampleRate.None? ==> r == Err(SAMPLE_RATE_REQUIRED)
    ensures input.codec.Some? && input.sampleRate.Some? && input.channels.None? ==> r == Err(CHANNELS_REQUIRED)
    ensures r.Ok? ==> r.value.codec == input.codec.value && r.value.sampleRate == input.sampleRate.value &&
                      r.value.channels == input.channels.value && r.value.opus == input.opus
    ensures r.Ok? && input.bitrate.Some? ==> r.value.bitrate == input.bitrate.value
    ensures r.Ok? && input.bitrate.None? ==> r.value.bitrate == DEFAULT_BITRATE
  {
    if input.codec.None? then Err(CODEC_REQUIRED)
    else if input.sampleRate.None? then Err(SAMPLE_RATE_REQUIRED)
    else if input.channels.None? then Err(CHANNELS_REQUIRED)
    else Ok(EncoderConfig(input.codec.value, input.sampleRate.value, input.channels.value,
                          input.bitrate.UnwrapOr(DEFAULT_BITRATE), input.opus))
  }

  /** The codec dispatch of configure: Opus (with its rate check), FLAC,
      AAC on macOS only, and a refusal naming any other codec. */
  function InitEncoder(platform: Platform, config: EncoderConfig): (r: Result<Backend>)
    ensures config.codec == "opus" ==>
              (r.Ok? <==> Opus.IsOpusRate(config.sampleRate)) &&
              (r.Ok? ==> r.value.OpusBackend? && r.value.settings.bitrate == config.bitrate)
    ensures config.codec == "flac" ==> r == Ok(FlacBackend)
    ensures IsAacCodec(config.codec) ==> (r.Ok? <==> platform == ApplePlatform) && (r.Ok? ==> r == Ok(AacBackend))
    ensures config.codec != "opus" && config.codec != "flac" && (!IsAacCodec(config.codec) || platform != ApplePlatform) ==>
              r == Err(UNSUPPORTED_CODEC + config.codec)
    ensures r.Ok? ==> r.value != NoBackend
  {
    if config.codec == "opus" then
      var settings :- Opus.InitOpus(config.sampleRate, config.channels, Some(config.bitrate), config.opus);
      Ok(OpusBackend(settings))
    else if config.codec == "flac" then Ok(FlacBackend)
    else if platform == ApplePlatform && IsAacCodec(config.codec) then Ok(AacBackend)
    else Err(UNSUPPORTED_CODEC + config.codec)
  }

  /** is_config_supported: Opus at its five rates with one or two channels,
      FLAC from 8 to 192 kHz with one to eight channels, AAC on macOS from 8
      to 96 kHz with one or two channels, and nothing else. */
  function IsConfigSupported(platform: Platform, codec: string, rate: nat, channels: nat): (r: bool)
    ensures r ==> 1 <= channels <= 8 && 8000 <= rate <= 192000
    ensures codec == "opus" ==> (r <==> Opus.IsOpusRate(rate) && 1 <= channels <= 2)
    ensures codec == "flac" ==> (r <==> 8000 <= rate <= 192000 && 1 <= channels <= 8)
    ensures IsAacCodec(codec) ==> (r <==> platform == ApplePlatform && 8000 <= rate <= 96000 && 1 <= channels <= 2)
    ensures codec != "opus" && codec != "flac" && !IsAacCodec(codec) ==> !r
  {
    if codec == "opus" then Opus.IsOpusRate(rate) && 1 <= channels <= 2
    else if codec == "flac" then 8000 <= rate <= 192000 && 1 <= channels <= 8
    else if IsAacCodec(codec) then platform == ApplePlatform && 8000 <= rate <= 96000 && 1 <= channels <= 2
    else false
  }

  /** A configuration reported supported is one configure accepts. */
  lemma SupportedConfigInitialises(platform: Platform, config: EncoderConfig)
    requires IsConfigSupported(platform, config.codec, config.sampleRate, config.channels)
    ensures InitEncoder(platform, config).Ok?
  {
  }

  /** For Opus the sample-rate check of configure and of
      is_config_supported agree: configure accepts a channel count the
      library may still refuse, and nothing else beyond the supported
      configurations. */
  lemma OpusInitialisesIffRateSupported(platform: Platform, config: EncoderConfig)
    requires config.codec == "opus"
    ensures InitEncoder(platform, config).Ok? <==> IsConfigSupported(platform, "opus", config.sampleRate, 1)
  {
  }

  /** configure stores a bitrate in every configuration, so the Opus
      default of 64 kbit/s is never used: an Opus encoder configured
      without a bitrate runs at 128 kbit/s. */
  lemma OpusBitrateDefaultsTo128k(platform: Platform, input: ConfigInput)
    requires ReadConfig(input).Ok? && input.bitrate.None? && input.codec == Some("opus")
    requires InitEncoder(platform, ReadConfig(input).value).Ok?
    ensures InitEncoder(platform, ReadConfig(input).value).value.settings.bitrate == DEFAULT_BITRATE
  {
  }

  class AudioEncoder {
    const platform: Platform
    const output: ReorderBuffer<AudioChunk>
    var state: CodecState
    var config: EncoderConfig
    var backend: Backend
    var nextSequence: nat
    var nextChunk: nat

    /** The output buffer keeps its order, and only a configured encoder
        holds a codec. */
    ghost predicate Valid()
      reads this, output
    {
      output.Valid() && (state != Configured ==> backend == NoBackend)
    }

    /** The chunk numbering and the output buffer agree: the next chunk
        gets the number the buffer waits for, and nothing is held back. */
    ghost predicate InStep()
      reads this, output
    {
      output.pending == map[] && output.next == nextChunk
    }

    constructor(platform: Platform)
      ensures Valid() && InStep() && this.platform == platform && fresh(output)
      ensures state == Unconfigured && backend == NoBackend && nextSequence == 0 && nextChunk == 0
    {
      this.platform := platform;
      output := new ReorderBuffer();
      state := Unconfigured;
      config := EncoderConfig("", 0, 0, DEFAULT_BITRATE, None);
      backend := NoBackend;
      nextSequence := 0;
      nextChunk := 0;
    }

    /** configure: refused when closed or with a required entry missing;
        otherwise the configuration is stored and the codec initialised,
        and the encoder is CONFIGURED once that succeeds. A refused codec
        leaves the stored configuration replaced and the state as it was. */
    method Configure(input: ConfigInput) returns (r: Result<()>)
      requires Valid()
      modifies this
      ensures Valid() && nextSequence == old(nextSequence) && nextChunk == old(nextChunk)
      ensures old(state) == Closed ==> r == Err(ENCODER_CLOSED) && state == Closed
      ensures old(state) != Closed && ReadConfig(input).Err? ==>
                r == Err(ReadConfig(input).error) && state == old(state) && config == old(config)
      ensures old(state) != Closed && ReadConfig(input).Ok? ==>
                config == ReadConfig(input).value &&
                (r.Ok? <==> InitEncoder(platform, config).Ok?) &&
                (r.Err? ==> r.error == InitEncoder(platform, config).error && state == old(state) &&
                            backend == old(backend)) &&
                (r.Ok? ==> state == Configured && backend == InitEncoder(platform, config).value)
    {
      if state == Closed {
        return Err(ENCODER_CLOSED);
      }
      var read := ReadConfig(input);
      if read.Err? {
        return Err(read.error);
      }
      config := read.value;
      var init := InitEncoder(platform, config);
      if init.Err? {
        return Err(init.error);
      }
      backend := init.value;
      state := Configured;
      r := Ok(());
    }

    /** encode: refused unless CONFIGURED; otherwise the encode task gets the next
        task number. */
    method Encode() returns (r: Result<nat>)
      requires Valid()
      modifies this
      ensures Valid() && state == old(state) && backend == old(backend) && nextChunk == old(nextChunk)
      ensures old(state) != Configured ==> r == Err(ENCODER_NOT_CONFIGURED) && nextSequence == old(nextSequence)
      ensures old(state) == Configured ==> r == Ok(old(nextSequence)) && nextSequence == old(nextSequence) + 1
    {
      if state != Configured {
        return Err(ENCODER_NOT_CONFIGURED);
      }
      r := Ok(nextSequence);
      nextSequence := nextSequence + 1;
    }

    /** handle_encoded_frame: with an output callback, the packet becomes a
        chunk under the next chunk number and goes through the reorder
        buffer; without one it is dropped and numbers nothing. While the
        numbering and the buffer agree, the chunk is handed on at once. */
    method HandleEncodedFrame(hasOutput: bool, chunk: AudioChunk) returns (emitted: seq<AudioChunk>)
      requires Valid()
      modifies this, output
      ensures Valid() && state == old(state) && backend == old(backend) && nextSequence == old(nextSequence)
      ensures !hasOutput ==> emitted == [] && nextChunk == old(nextChunk) &&
                             output.pending == old(output.pending) && output.next == old(output.next)
      ensures hasOutput ==> nextChunk == old(nextChunk) + 1 &&
                            emitted == Run(old(output.pending)[old(nextChunk) := chunk], old(output.next))
      ensures old(InStep()) ==> InStep() && (hasOutput ==> emitted == [chunk])
    {
      if !hasOutput {
        return [];
      }
      var sequence := nextChunk;
      nextChunk := nextChunk + 1;
      if output.pending == map[] && output.next == sequence {
        NextChunkReleased(sequence, chunk);
      }
      emitted := output.HandleOutput(sequence, chunk);
    }

    /** flush: refuses nothing, in any state; a FLAC or AAC codec is
        drained and started again when the stored configuration names it
        and that codec is live, an Opus codec needs nothing. After a
        configure whose codec was refused the two can disagree, and then
        nothing is drained. */
    method Flush() returns (restarted: bool)
      ensures restarted <==> (config.codec == "flac" && backend == FlacBackend) ||
                             (IsAacCodec(config.codec) && backend == AacBackend)
    {
      var flac := config.codec == "flac" && backend == FlacBackend;
      var aac := IsAacCodec(config.codec) && backend == AacBackend;
      restarted := flac || aac;
    }

    /** close: releases the codec and ends CLOSED; closing again does
        nothing. */
    method Close()
      requires Valid()
      modifies this
      ensures Valid() && state == Closed && backend == NoBackend
      ensures config == old(config) && nextSequence == old(nextSequence) && nextChunk == old(nextChunk)
    {
      if state == Closed {
        return;
      }
      backend := NoBackend;
      state := Closed;
    }

    /** reset as written: empties the output buffer and restarts the encode task
        numbering but not the chunk numbering, closes, and ends
        UNCONFIGURED, also when the encoder was closed. The numbering and
        the buffer agree afterwards only if no chunk was ever numbered. */
    method ResetAsWritten()
      requires Valid()
      modifies this, output
      ensures Valid() && state == Unconfigured && backend == NoBackend
      ensures nextSequence == 0 && nextChunk == old(nextChunk)
      ensures output.pending == map[] && output.next == 0
      ensures InStep() <==> old(nextChunk) == 0
    {
      output.Clear();
      nextSequence := 0;
      Close();
      state := Unconfigured;
    }

    /** reset: refused on a closed encoder; otherwise empties the output
        buffer, restarts both numberings, releases the codec and ends
        UNCONFIGURED, so the numbering and the buffer agree again. */
    method Reset() returns (r: Result<()>)
      requires Valid()
      modifies this, output
      ensures Valid()
      ensures old(state) == Closed ==> r == Err(ENCODER_CLOSED) && state == Closed &&
                                       nextChunk == old(nextChunk) && output.next == old(output.next) &&
                                       output.pending == old(output.pending)
      ensures old(state) != Closed ==> r == Ok(()) && InStep() && state == Unconfigured &&
                                       backend == NoBackend && nextSequence == 0 && nextChunk == 0
    {
      if state == Closed {
        return Err(ENCODER_CLOSED);
      }
      output.Clear();
      nextSequence := 0;
      nextChunk := 0;
      backend := NoBackend;
      state := Unconfigured;
      r := Ok(());
    }
  }

  /** The buffer waiting for exactly the number the next chunk gets hands
      that chunk on at once and is left empty. */
  lemma NextChunkReleased(n: nat, chunk: AudioChunk)
    ensures Run(map[n := chunk], n) == [chunk]
    ensures Drop(map[n := chunk], n, n + 1) == map[]
  {
    FillingGapReleasesRun(map[], n, chunk);
  }

  /** After the reset as written, with k chunks numbered before it, the
      buffer waits for chunk 0 while the next chunks are numbered k, k + 1,
      ...: however many of them arrive, none is ever handed on. */
  lemma ChunksStrandedAfterReset(k: nat, arrivals: map<nat, AudioChunk>)
    requires k > 0 && forall n :: n in arrivals ==> n >= k
    ensures Run(arrivals, 0) == []
  {
  }
}
