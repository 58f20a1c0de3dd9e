/** The Opus side of AudioEncoder: the sample-rate check and settings of
    init_opus_encoder, and how encode_frame_opus cuts one AudioData into
    20 ms frames, pads the last one with silence and stamps each packet.
    The Opus library itself is not part of this model: a frame handed to
    it is modelled, the packet it returns is not. */
module OpusEncoding {
  import opened Wrappers
  import opened Bytes
  import CP = CodecParser

  // ---------------------------------------------------------------------------
  // Decimal rendering, as std::to_string of an int

  /** The number of decimal digits of n. */
  function DecimalWidth(n: nat): (w: nat)
    ensures w >= 1 && n < CP.Pow(10, w)
    ensures n >= 10 ==> CP.Pow(10, w - 1) <= n
    decreases n
  {
    if n < 10 then 1 else 1 + DecimalWidth(n / 10)
  }

  /** n in decimal without leading zeros. */
  function Decimal(n: nat): (r: string)
  {
    CP.Digits(n, DecimalWidth(n), 10)
  }

  /** The decimal rendering reads back as the number it renders. */
  lemma DecimalReadsBack(n: nat)
    requires n <= CP.INT_MAX
    ensures CP.Stoi(Decimal(n), 10) == Ok(n)
  {
    CP.StoiDigits(n, DecimalWidth(n), 10);
  }

  /** std::to_string of a uint32 read as a 32-bit int: values from 2^31 up
      are negative. */
  function Int32String(v: nat): (r: string)
    requires v < U32_LIMIT
    ensures v < 0x8000_0000 ==> r == Decimal(v)
    ensures v >= 0x8000_0000 ==> r == "-" + Decimal(U32_LIMIT - v)
  {
    if v < 0x8000_0000 then Decimal(v) else "-" + Decimal(U32_LIMIT - v)
  }

  // ---------------------------------------------------------------------------
  // init_opus_encoder

  /** Opus runs at 8, 12, 16, 24 and 48 kHz only. */
  predicate IsOpusRate(rate: nat)
  {
    rate == 8000 || rate == 12000 || rate == 16000 || rate == 24000 || rate == 48000
  }

  const OPUS_RATE_ERROR :=
    "NotSupportedError: Opus encoder only supports sample rates of 8000, 12000, 16000, 24000, or 48000 Hz. Got "
  const DEFAULT_OPUS_BITRATE := 64000
  const DEFAULT_OPUS_COMPLEXITY := 9

  datatype Application = AudioApplication | VoipApplication | LowDelayApplication

  /** The "opus" entries of the configuration the model reads. */
  datatype OpusConfig = OpusConfig(application: string, complexity: Option<nat>)

  /** What init_opus_encoder hands to the library. */
  datatype OpusSettings = OpusSettings(rate: nat, channels: nat, application: Application, bitrate: nat, complexity: nat)

  /** The application mode: "voip" and "lowdelay" select theirs, anything
      else (and no "opus" entry) the audio mode. */
  function ApplicationOf(opus: Option<OpusConfig>): (a: Application)
    ensures a == VoipApplication <==> opus.Some? && opus.value.application == "voip"
    ensures a == LowDelayApplication <==> opus.Some? && opus.value.application == "lowdelay"
  {
    if opus.Some? && opus.value.application == "voip" then VoipApplication
    else if opus.Some? && opus.value.application == "lowdelay" then LowDelayApplication
    else AudioApplication
  }

  /** init_opus_encoder: a rate Opus does not run at is refused with a
      message naming it; otherwise the settings, with 64 kbit/s when no
      bitrate is configured and complexity 9 unless the "opus" entry names
      one. Failure of the library itself is not modelled. */
  function InitOpus(rate: nat, channels: nat, bitrate: Option<nat>, opus: Option<OpusConfig>): (r: Result<OpusSettings>)
    requires rate < U32_LIMIT
    ensures r.Ok? <==> IsOpusRate(rate)
    ensures r.Err? ==> r.error == OPUS_RATE_ERROR + Int32String(rate) + " Hz"
    ensures r.Ok? ==> r.value.rate == rate && r.value.channels == channels &&
                      r.value.application == ApplicationOf(opus)
    ensures r.Ok? ==> r.value.bitrate == (if bitrate.Some? then bitrate.value else DEFAULT_OPUS_BITRATE)
    ensures r.Ok? ==> r.value.complexity ==
                      (if opus.Some? && opus.value.complexity.Some? then opus.value.complexity.value
                       else DEFAULT_OPUS_COMPLEXITY)
  {
    if !IsOpusRate(rate) then Err(OPUS_RATE_ERROR + Int32String(rate) + " Hz")
    else
      var complexity := if opus.Some? then opus.value.complexity.UnwrapOr(DEFAULT_OPUS_COMPLEXITY)
                        else DEFAULT_OPUS_COMPLEXITY;
      Ok(OpusSettings(rate, channels, ApplicationOf(opus), bitrate.UnwrapOr(DEFAULT_OPUS_BITRATE), complexity))
  }

  // ---------------------------------------------------------------------------
  // encode_frame_opus

  /** Samples per channel in one 20 ms frame; 960 for any rate not listed. */
  function FrameSize(rate: nat): (fs: nat)
    ensures fs > 0
    ensures IsOpusRate(rate) ==> fs * 50 == rate
    ensures !IsOpusRate(rate) ==> fs == 960
  {
    if rate == 24000 then 480
    else if rate == 16000 then 320
    else if rate == 12000 then 240
    else if rate == 8000 then 160
    else 960
  }

  /** One sampling instant: one sample per channel, interleaved. */
  type Instant = seq<real>

  /** The silence the last frame is padded with. */
  function Silence(channels: nat): (z: Instant)
    ensures |z| == channels && forall c :: 0 <= c < channels ==> z[c] == 0.0
  {
    seq(channels, _ => 0.0)
  }

  /** A frame handed to opus_encode_float and the timestamp its packet
      gets. */
  datatype OpusFrame = OpusFrame(pcm: seq<Instant>, timestamp: int)

  function Min(a: nat, b: nat): nat
  {
    if a <= b then a else b
  }

  /** The timestamp of the packet starting `processed` instants into an
      AudioData stamped `timestamp`, in microseconds, rounded down. */
  function PacketTimestamp(timestamp: int, processed: nat, rate: nat): int
    requires rate > 0
  {
    timestamp + processed * 1000000 / rate
  }

  /** The timestamp as written: `samples_processed * 1000000` is computed
      in 32 bits and wraps before the division. */
  function PacketTimestampAsWritten(timestamp: int, processed: nat, rate: nat): int
    requires rate > 0
  {
    timestamp + (processed * 1000000) % U32_LIMIT / rate
  }

  /** The number of frames an AudioData of n instants is cut into. */
  function FrameCount(n: nat, fs: nat): nat
    requires fs > 0
  {
    (n + fs - 1) / fs
  }

  /** k * fs, the instant the k-th frame starts at. */
  function FrameStart(k: nat, fs: nat): nat
  {
    k * fs
  }

  /** The k-th frame: the fs instants from k * fs on, the ones past the end
      of the input replaced by silence, stamped by its start. */
  function FrameAt(pcm: seq<Instant>, channels: nat, rate: nat, timestamp: int, k: nat): (f: OpusFrame)
    requires rate > 0 && FrameStart(k, FrameSize(rate)) < |pcm|
    ensures var fs, start := FrameSize(rate), FrameStart(k, FrameSize(rate));
      |f.pcm| == fs &&
      (forall j :: 0 <= j < fs && start + j < |pcm| ==> f.pcm[j] == pcm[start + j]) &&
      (forall j :: 0 <= j < fs && start + j >= |pcm| ==> f.pcm[j] == Silence(channels)) &&
      f.timestamp == PacketTimestamp(timestamp, start, rate)
  {
    var fs, start := FrameSize(rate), FrameStart(k, FrameSize(rate));
    var n := Min(fs, |pcm| - start);
    OpusFrame(pcm[start..start + n] + seq(fs - n, _ => Silence(channels)), PacketTimestamp(timestamp, start, rate))
  }

  /** The frame count is the least number of frames holding every instant:
      every frame starts inside the input, and the input ends inside the
      last one. */
  lemma FrameCountCovers(n: nat, fs: nat)
    requires fs > 0
    ensures forall k :: 0 <= k < FrameCount(n, fs) ==> FrameStart(k, fs) < n
    ensures FrameStart(FrameCount(n, fs), fs) >= n
  {
    var c := FrameCount(n, fs);
    var q, r := (n + fs - 1) / fs, (n + fs - 1) % fs;
    assert n + fs - 1 == q * fs + r;
    forall k | 0 <= k < c
      ensures FrameStart(k, fs) < n
    {
      MulMono(k + 1, c, fs);
      assert (k + 1) * fs == k * fs + fs;
    }
    assert FrameStart(c, fs) == q * fs;
  }

  /** Consecutive frames of an Opus rate are stamped 20 ms apart: the k-th
      packet is stamped 20000 k microseconds after the AudioData. */
  lemma PacketsTwentyMsApart(timestamp: int, rate: nat, k: nat)
    requires IsOpusRate(rate)
    ensures PacketTimestamp(timestamp, FrameStart(k, FrameSize(rate)), rate) == timestamp + 20000 * k
  {
    var fs := FrameSize(rate);
    assert k * fs * 1000000 == (20000 * k) * rate by {
      assert rate == fs * 50;
    }
    DivModUnique(k * fs * 1000000, rate, 20000 * k, 0);
  }

  /** As written, the sixth packet of a 48 kHz AudioData (4800 instants in)
      is stamped 10521 microseconds after it, before the fifth (80000): the
      32-bit product 4800000000 wraps to 505032704. */
  lemma PacketTimestampWraps(timestamp: int)
    ensures PacketTimestampAsWritten(timestamp, FrameStart(4, 960), 48000) == timestamp + 80000
    ensures PacketTimestampAsWritten(timestamp, FrameStart(5, 960), 48000) == timestamp + 10521
    ensures PacketTimestamp(timestamp, FrameStart(5, 960), 48000) == timestamp + 100000
  {
  }

  /** encode_frame_opus without the library call: the frames of one
      AudioData of |pcm| instants, each `channels` samples wide, in order. */
  method EncodeFrames(pcm: seq<Instant>, channels: nat, rate: nat, timestamp: int) returns (frames: seq<OpusFrame>)
    requires rate > 0 && |pcm| < U32_LIMIT
    ensures |frames| == FrameCount(|pcm|, FrameSize(rate))
    ensures forall k :: 0 <= k < |frames| ==>
              FrameStart(k, FrameSize(rate)) < |pcm| && frames[k] == FrameAt(pcm, channels, rate, timestamp, k)
  {
    var fs := FrameSize(rate);
    FrameCountCovers(|pcm|, fs);
    var processed := 0;
    frames := [];
    while processed < |pcm|
      invariant processed <= |pcm|
      invariant processed < |pcm| ==> processed == FrameStart(|frames|, fs)
      invariant processed == |pcm| ==> |frames| == FrameCount(|pcm|, fs)
      invariant |frames| <= FrameCount(|pcm|, fs)
      invariant forall k :: 0 <= k < |frames| ==>
                  FrameStart(k, fs) < |pcm| && frames[k] == FrameAt(pcm, channels, rate, timestamp, k)
      decreases |pcm| - processed
    {
      var n := Min(fs, |pcm| - processed);
      var frame := pcm[processed..processed + n];
      if n < fs {
        frame := frame + seq(fs - n, _ => Silence(channels));
      }
      assert frame == pcm[processed..processed + n] + seq(fs - n, _ => Silence(channels));
      BuiltFrame(pcm, channels, rate, timestamp, |frames|, n);
      NextFrame(|pcm|, fs, |frames|, processed, n);
      frames := frames + [OpusFrame(frame, PacketTimestamp(timestamp, processed, rate))];
      processed := processed + n;
    }
  }

  /** One turn of the loop: after the frame starting at `processed`,
      either the next one starts fs later or the input is used up with
      every frame made. */
  lemma NextFrame(total: nat, fs: nat, k: nat, processed: nat, n: nat)
    requires fs > 0 && processed == FrameStart(k, fs) < total && n == Min(fs, total - processed)
    ensures k + 1 <= FrameCount(total, fs)
    ensures processed + n < total ==> processed + n == FrameStart(k + 1, fs)
    ensures processed + n == total ==> k + 1 == FrameCount(total, fs)
  {
    FrameCountCovers(total, fs);
    var c := FrameCount(total, fs);
    assert FrameStart(k + 1, fs) == processed + fs;
    if k + 1 > c {
      MulMono(c, k, fs);
    }
  }

  /** The frame the loop builds at the k-th turn is the k-th frame. */
  lemma BuiltFrame(pcm: seq<Instant>, channels: nat, rate: nat, timestamp: int, k: nat, n: nat)
    requires rate > 0 && FrameStart(k, FrameSize(rate)) < |pcm|
    requires n == Min(FrameSize(rate), |pcm| - FrameStart(k, FrameSize(rate)))
    ensures var start := FrameStart(k, FrameSize(rate));
      OpusFrame(pcm[start..start + n] + seq(FrameSize(rate) - n, _ => Silence(channels)),
                PacketTimestamp(timestamp, start, rate)) == FrameAt(pcm, channels, rate, timestamp, k)
  {
  }
}
