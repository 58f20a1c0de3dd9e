/** Raw audio samples of the binding (src/bindings/audio_data.cpp): the
    checks of its constructor, the sample layout (planar or interleaved),
    and the operations that read the samples (get_channel_data,
    allocation_size, copy_to, clone) or release them (close). */
module AudioData {
  import opened Wrappers
  import opened Bytes
  import opened PlaneCopy

  datatype SampleFormat = U8 | S16 | S32 | F32 | U8Planar | S16Planar | S32Planar | F32Planar

  /** Bytes of one sample. */
  function SampleSize(f: SampleFormat): nat
  {
    match f
    case U8 | U8Planar => 1
    case S16 | S16Planar => 2
    case S32 | S32Planar | F32 | F32Planar => 4
  }

  /** Planar formats keep each channel's samples together; the others
      interleave the channels frame by frame. */
  predicate IsPlanar(f: SampleFormat)
  {
    f == U8Planar || f == S16Planar || f == S32Planar || f == F32Planar
  }

  /** Bytes of one frame: one sample of every channel. */
  function FrameBytes(f: SampleFormat, channels: nat): nat
  {
    channels * SampleSize(f)
  }

  /** Frames of the given rate in microseconds, rounded down; 0 when the
      rate is 0. */
  function Duration(frames: u32, rate: u32): nat
  {
    if rate > 0 then frames * 1000000 / rate else 0
  }

  /** The duration is the whole number of microseconds the frames last,
      and it fits the binding's uint64_t. */
  lemma DurationBounds(frames: u32, rate: u32)
    ensures rate > 0 ==> Duration(frames, rate) * rate <= frames * 1000000 < (Duration(frames, rate) + 1) * rate
    ensures rate == 0 ==> Duration(frames, rate) == 0
    ensures Duration(frames, rate) <= frames * 1000000 < 0x1_0000_0000_0000_0000
  {
    if rate > 0 {
      var n := frames * 1000000;
      var q := n / rate;
      assert n == q * rate + n % rate;
      MulMono(1, rate, q);
      assert q * 1 <= q * rate;
    }
  }

  /** Decimal digits of n, as std::to_string writes them. */
  function Decimal(n: nat): string
  {
    if n < 10 then [('0' as int + n) as char] else Decimal(n / 10) + [('0' as int + n % 10) as char]
  }

  const AUDIO_CLOSED: string := "AudioData is closed"
  const INVALID_CHANNEL: string := "Invalid channel index"
  const PLANE_INDEX_REQUIRED: string := "plane_index is required"
  const UNSUPPORTED_CONVERSION: string := "Unsupported format conversion"
  /** The check the model adds to the constructor (see CheckAudio). */
  const DATA_TOO_SHORT: string := "data holds fewer bytes than number_of_frames frames"

  /** A NumPy array: its shape and the bytes of its buffer. */
  datatype SampleArray = SampleArray(shape: seq<nat>, bytes: seq<byte>)

  /** The keys of the init dictionary, each present or absent. */
  datatype AudioInit = AudioInit(format: Option<SampleFormat>, sampleRate: Option<u32>, numberOfFrames: Option<u32>,
                                 numberOfChannels: Option<u32>, timestamp: Option<int>, data: Option<SampleArray>)

  datatype AudioInfo = AudioInfo(format: SampleFormat, sampleRate: u32, numberOfFrames: u32, numberOfChannels: u32,
                                 timestamp: int, duration: nat)

  /** Bytes of all the frames. */
  function TotalBytes(info: AudioInfo): nat
  {
    info.numberOfFrames * FrameBytes(info.format, info.numberOfChannels)
  }

  /** Which axis of a two-dimensional array counts channels. */
  function ChannelAxis(f: SampleFormat): nat
  {
    if IsPlanar(f) then 0 else 1
  }

  /** The array holds number_of_frames samples of each channel: a mono
      vector, or a matrix whose channel axis comes first for planar
      formats and second otherwise (each extent read as uint32_t). */
  predicate ShapeMatches(f: SampleFormat, frames: u32, channels: u32, shape: seq<nat>)
  {
    (|shape| == 1 && channels == 1 && U32(shape[0]) == frames) ||
    (|shape| == 2 && U32(shape[ChannelAxis(f)]) == channels && U32(shape[1 - ChannelAxis(f)]) == frames)
  }

  /** The constructor's shape checks, in order. */
  function CheckShape(f: SampleFormat, frames: u32, channels: u32, shape: seq<nat>): (r: Result<bool>)
    ensures r.Ok? <==> ShapeMatches(f, frames, channels, shape)
    ensures r.Ok? ==> r.value
    ensures |shape| != 1 && |shape| != 2 ==>
              r == Err("AudioData only supports 1D (mono) or 2D arrays. Got " + Decimal(|shape|) + "D array")
  {
    if |shape| == 1 then
      if channels != 1 then Err("1D array requires number_of_channels=1, got " + Decimal(channels))
      else if U32(shape[0]) != frames then
        Err("1D array shape[0]=" + Decimal(shape[0]) + " does not match number_of_frames=" + Decimal(frames))
      else Ok(true)
    else if |shape| == 2 then
      var shapeChannels := if IsPlanar(f) then U32(shape[0]) else U32(shape[1]);
      var shapeFrames := if IsPlanar(f) then U32(shape[1]) else U32(shape[0]);
      if shapeChannels != channels then
        Err("Array channels=" + Decimal(shapeChannels) + " does not match number_of_channels=" + Decimal(channels))
      else if shapeFrames != frames then
        Err("Array frames=" + Decimal(shapeFrames) + " does not match number_of_frames=" + Decimal(frames))
      else Ok(true)
    else Err("AudioData only supports 1D (mono) or 2D arrays. Got " + Decimal(|shape|) + "D array")
  }

  /** The constructor's checks as the binding makes them: the six required
      keys in order, then the shape. */
  function CheckAudioAsWritten(init: AudioInit): (r: Result<AudioInfo>)
    ensures init.format.None? ==> r == Err("format is required")
    ensures init.format.Some? && init.sampleRate.None? ==> r == Err("sample_rate is required")
    ensures init.format.Some? && init.sampleRate.Some? && init.numberOfFrames.None? ==> r == Err("number_of_frames is required")
    ensures init.format.Some? && init.sampleRate.Some? && init.numberOfFrames.Some? && init.numberOfChannels.None? ==>
              r == Err("number_of_channels is required")
    ensures (init.format.Some? && init.sampleRate.Some? && init.numberOfFrames.Some? && init.numberOfChannels.Some? &&
             init.timestamp.None?) ==> r == Err("timestamp is required")
    ensures r.Ok? <==> init.format.Some? && init.sampleRate.Some? && init.numberOfFrames.Some? &&
                       init.numberOfChannels.Some? && init.timestamp.Some? && init.data.Some? &&
                       ShapeMatches(init.format.value, init.numberOfFrames.value, init.numberOfChannels.value,
                                    init.data.value.shape)
    ensures r.Ok? ==> r.value == AudioInfo(init.format.value, init.sampleRate.value, init.numberOfFrames.value,
                                           init.numberOfChannels.value, init.timestamp.value,
                                           Duration(init.numberOfFrames.value, init.sampleRate.value))
  {
    if init.format.None? then Err("format is required")
    else if init.sampleRate.None? then Err("sample_rate is required")
    else if init.numberOfFrames.None? then Err("number_of_frames is required")
    else if init.numberOfChannels.None? then Err("number_of_channels is required")
    else if init.timestamp.None? then Err("timestamp is required")
    else if init.data.None? then Err("data is required")
    else
      var f, frames, channels := init.format.value, init.numberOfFrames.value, init.numberOfChannels.value;
      var _ :- CheckShape(f, frames, channels, init.data.value.shape);
      Ok(AudioInfo(f, init.sampleRate.value, frames, channels, init.timestamp.value, Duration(frames, init.sampleRate.value)))
  }

  /** The constructor's checks with the one the binding lacks: the array's
      buffer must hold the bytes the constructor copies out of it. */
  function CheckAudio(init: AudioInit): (r: Result<AudioInfo>)
    ensures r.Ok? <==> CheckAudioAsWritten(init).Ok? && TotalBytes(CheckAudioAsWritten(init).value) <= |init.data.value.bytes|
    ensures r.Ok? ==> r.value == CheckAudioAsWritten(init).value
    ensures CheckAudioAsWritten(init).Err? ==> r == CheckAudioAsWritten(init)
  {
    var info :- CheckAudioAsWritten(init);
    if |init.data.value.bytes| < TotalBytes(info) then Err(DATA_TOO_SHORT) else Ok(info)
  }

  /** Only the number of array elements is checked, not their type: an F32
      mono frame of four frames given as a uint8 array (4 bytes) passes,
      and the constructor copies 16 bytes out of it. */
  lemma ShortArrayAccepted()
    ensures var init := AudioInit(Some(F32), Some(48000), Some(4), Some(1), Some(0), Some(SampleArray([4], [0, 0, 0, 0])));
      CheckAudioAsWritten(init).Ok? && TotalBytes(CheckAudioAsWritten(init).value) == 16 &&
      CheckAudio(init) == Err(DATA_TOO_SHORT)
  {
  }

  /** Options of allocation_size and copy_to, each present or absent. */
  datatype CopyOptions = CopyOptions(planeIndex: Option<u32>, frameOffset: Option<u32>, frameCount: Option<u32>,
                                     format: Option<SampleFormat>)

  /** What parse_copy_to_options hands on: the format only when given. */
  datatype CopyParams = CopyParams(planeIndex: u32, frameOffset: u32, frameCount: u32, format: Option<SampleFormat>)

  /** The plane index names a channel of planar samples, and is 0 for
      interleaved ones. */
  predicate PlaneIndexValid(info: AudioInfo, p: u32)
  {
    if IsPlanar(info.format) then p < info.numberOfChannels else p == 0
  }

  function PlaneIndexError(info: AudioInfo, p: u32): string
  {
    if IsPlanar(info.format) then "plane_index out of range: " + Decimal(p) + " >= " + Decimal(info.numberOfChannels)
    else "plane_index must be 0 for interleaved format, got " + Decimal(p)
  }

  /** parse_copy_to_options with the range check as the binding writes
      it: frame_offset + frame_count in uint32_t. */
  function ParseCopyOptionsAsWritten(info: AudioInfo, o: CopyOptions): (r: Result<CopyParams>)
  {
    if o.planeIndex.None? then Err(PLANE_INDEX_REQUIRED)
    else if !PlaneIndexValid(info, o.planeIndex.value) then Err(PlaneIndexError(info, o.planeIndex.value))
    else
      var offset := o.frameOffset.UnwrapOr(0);
      if offset >= info.numberOfFrames then
        Err("frame_offset out of range: " + Decimal(offset) + " >= " + Decimal(info.numberOfFrames))
      else
        var count := o.frameCount.UnwrapOr(info.numberOfFrames - offset);
        if U32(offset + count) > info.numberOfFrames then
          Err("frame_offset + frame_count exceeds number_of_frames: " + Decimal(offset) + " + " + Decimal(count) +
              " > " + Decimal(info.numberOfFrames))
        else Ok(CopyParams(o.planeIndex.value, offset, count, o.format))
  }

  /** parse_copy_to_options: plane index required and valid, the frames
      from frame_offset on (all the rest by default) inside the data. */
  function ParseCopyOptions(info: AudioInfo, o: CopyOptions): (r: Result<CopyParams>)
    ensures o.planeIndex.None? ==> r == Err(PLANE_INDEX_REQUIRED)
    ensures o.planeIndex.Some? && !PlaneIndexValid(info, o.planeIndex.value) ==> r == Err(PlaneIndexError(info, o.planeIndex.value))
    ensures r.Ok? <==> o.planeIndex.Some? && PlaneIndexValid(info, o.planeIndex.value) &&
                       o.frameOffset.UnwrapOr(0) < info.numberOfFrames &&
                       (o.frameCount.Some? ==> o.frameOffset.UnwrapOr(0) + o.frameCount.value <= info.numberOfFrames)
    ensures r.Ok? ==> r.value.planeIndex == o.planeIndex.value && r.value.frameOffset == o.frameOffset.UnwrapOr(0) &&
                      r.value.frameOffset + r.value.frameCount <= info.numberOfFrames &&
                      r.value.frameCount == o.frameCount.UnwrapOr(info.numberOfFrames - r.value.frameOffset) &&
                      r.value.format == o.format
  {
    if o.planeIndex.None? then Err(PLANE_INDEX_REQUIRED)
    else if !PlaneIndexValid(info, o.planeIndex.value) then Err(PlaneIndexError(info, o.planeIndex.value))
    else
      var offset := o.frameOffset.UnwrapOr(0);
      if offset >= info.numberOfFrames then
        Err("frame_offset out of range: " + Decimal(offset) + " >= " + Decimal(info.numberOfFrames))
      else
        var count := o.frameCount.UnwrapOr(info.numberOfFrames - offset);
        if offset + count > info.numberOfFrames then
          Err("frame_offset + frame_count exceeds number_of_frames: " + Decimal(offset) + " + " + Decimal(count) +
              " > " + Decimal(info.numberOfFrames))
        else Ok(CopyParams(o.planeIndex.value, offset, count, o.format))
  }

  /** The two parsings differ only where the sum wraps: frame 1 and
      0xFFFFFFFF frames of a 10-frame buffer pass the binding's check. */
  lemma FrameRangeWraps()
    ensures var info := AudioInfo(U8, 48000, 10, 1, 0, 208);
      var o := CopyOptions(Some(0), Some(1), Some(0xFFFF_FFFF), None);
      ParseCopyOptionsAsWritten(info, o).Ok? && ParseCopyOptions(info, o).Err? &&
      ParseCopyOptionsAsWritten(info, o).value.frameOffset + ParseCopyOptionsAsWritten(info, o).value.frameCount > 10
  {
    assert U32(1 + 0xFFFF_FFFF) == 0;
  }

  /** Without wrap-around both parsings agree. */
  lemma ParseAgrees(info: AudioInfo, o: CopyOptions)
    requires o.frameOffset.UnwrapOr(0) + o.frameCount.UnwrapOr(0) < U32_LIMIT
    ensures ParseCopyOptionsAsWritten(info, o) == ParseCopyOptions(info, o)
  {
  }

  /** The format samples are copied into: the requested one, else the
      frame's own. */
  function TargetFormat(info: AudioInfo, p: CopyParams): SampleFormat
  {
    p.format.UnwrapOr(info.format)
  }

  /** allocation_size(options): frame_count samples of one channel for a
      planar target, of every channel otherwise. */
  function AllocationSizeFor(info: AudioInfo, p: CopyParams): nat
  {
    var target := TargetFormat(info, p);
    if IsPlanar(target) then p.frameCount * SampleSize(target)
    else p.frameCount * info.numberOfChannels * SampleSize(target)
  }

  /** Where the copied bytes start in the data and how many there are:
      the plane's run of samples from frame_offset for planar samples,
      the interleaved frames from frame_offset otherwise. */
  function CopyStart(info: AudioInfo, p: CopyParams): nat
  {
    var ss := SampleSize(info.format);
    if IsPlanar(info.format) then p.planeIndex * (info.numberOfFrames * ss) + p.frameOffset * ss
    else p.frameOffset * FrameBytes(info.format, info.numberOfChannels)
  }

  function CopyLength(info: AudioInfo, p: CopyParams): nat
  {
    if IsPlanar(info.format) then p.frameCount * SampleSize(info.format)
    else p.frameCount * FrameBytes(info.format, info.numberOfChannels)
  }

  /** The outcome of copy_to: the samples were copied as they are, or
      converted between S16 and F32. */
  datatype AudioCopy = Copied | Converted(target: SampleFormat)

  /** A conversion copy_to performs: S16 to F32 and F32 to S16. */
  predicate Convertible(from: SampleFormat, to: SampleFormat)
  {
    (from == S16 && to == F32) || (from == F32 && to == S16)
  }

  /** The checks of copy_to, in order. */
  function CopyCheck(info: AudioInfo, o: CopyOptions, destLen: nat): (r: Result<AudioCopy>)
    ensures ParseCopyOptions(info, o).Err? ==> r == Err(ParseCopyOptions(info, o).error)
    ensures r.Ok? ==> ParseCopyOptions(info, o).Ok? && AllocationSizeFor(info, ParseCopyOptions(info, o).value) <= destLen
    ensures r.Ok? ==> (r.value.Copied? <==> TargetFormat(info, ParseCopyOptions(info, o).value) == info.format)
    ensures r.Ok? && r.value.Converted? ==> Convertible(info.format, r.value.target)
  {
    var p :- ParseCopyOptions(info, o);
    var required := AllocationSizeFor(info, p);
    var target := TargetFormat(info, p);
    if destLen < required then Err("destination buffer is too small: " + Decimal(destLen) + " < " + Decimal(required))
    else if target == info.format then Ok(Copied)
    else if Convertible(info.format, target) then Ok(Converted(target))
    else Err(UNSUPPORTED_CONVERSION)
  }

  /** A copy without conversion writes exactly allocation_size bytes, all
      read from inside the data. */
  lemma CopyInsideData(info: AudioInfo, o: CopyOptions, destLen: nat)
    requires CopyCheck(info, o, destLen) == Ok(Copied)
    ensures var p := ParseCopyOptions(info, o).value;
      CopyLength(info, p) == AllocationSizeFor(info, p) <= destLen &&
      CopyStart(info, p) + CopyLength(info, p) <= TotalBytes(info)
  {
    var p := ParseCopyOptions(info, o).value;
    var ss, frames, channels := SampleSize(info.format), info.numberOfFrames, info.numberOfChannels;
    if IsPlanar(info.format) {
      PlanarRunInside(p.planeIndex, channels, frames, p.frameOffset, p.frameCount, ss);
    } else {
      FramesInside(frames, p.frameOffset, p.frameCount, channels * ss);
      assert p.frameCount * channels * ss == p.frameCount * (channels * ss);
    }
  }

  /** Run of `count` samples from `offset` in plane p of `channels` planes
      of `frames` samples lies inside the planes. */
  lemma PlanarRunInside(p: nat, channels: nat, frames: nat, offset: nat, count: nat, ss: nat)
    requires p < channels && offset + count <= frames
    ensures p * (frames * ss) + offset * ss + count * ss <= frames * (channels * ss)
  {
    calc {
      p * (frames * ss) + offset * ss + count * ss;
    ==  { Distribute(offset, count, ss); }
      p * (frames * ss) + (offset + count) * ss;
    <=  { MulMono(offset + count, frames, ss); }
      p * (frames * ss) + frames * ss;
    ==  (p + 1) * (frames * ss);
    <=  { MulMono(p + 1, channels, frames * ss); }
      channels * (frames * ss);
    ==  { Associate(channels, frames, ss); }
      frames * (channels * ss);
    }
  }

  /** Frames offset..offset+count of `frames` frames of fs bytes lie
      inside them. */
  lemma FramesInside(frames: nat, offset: nat, count: nat, fs: nat)
    requires offset + count <= frames
    ensures offset * fs + count * fs <= frames * fs
  {
    Distribute(offset, count, fs);
    MulMono(offset + count, frames, fs);
  }

  lemma Associate(a: nat, b: nat, c: nat)
    ensures a * (b * c) == b * (a * c)
  {
  }

  /** Where sample i of a channel starts in planar samples: in the
      channel's plane of `frames` samples. */
  function PlanarStart(ss: nat, frames: nat, channel: nat, i: nat): nat
  {
    (channel * frames + i) * ss
  }

  /** Where sample i of a channel starts in interleaved samples: in frame
      i, after the samples of the channels before it. */
  function InterleavedStart(ss: nat, channels: nat, channel: nat, i: nat): nat
  {
    (i * channels + channel) * ss
  }

  /** Where sample i of a channel starts, for the frame's layout. */
  function SampleStart(info: AudioInfo, channel: nat, i: nat): nat
  {
    if IsPlanar(info.format) then PlanarStart(SampleSize(info.format), info.numberOfFrames, channel, i)
    else InterleavedStart(SampleSize(info.format), info.numberOfChannels, channel, i)
  }

  lemma PlanarSampleInside(ss: nat, frames: nat, channels: nat, channel: nat, i: nat)
    requires channel < channels && i < frames
    ensures PlanarStart(ss, frames, channel, i) == channel * (frames * ss) + i * ss
    ensures i * ss + ss <= frames * ss
    ensures PlanarStart(ss, frames, channel, i) + ss <= frames * (channels * ss)
  {
    Distribute(channel * frames, i, ss);
    MulMono(i + 1, frames, ss);
    PlanarRunInside(channel, channels, frames, i, 1, ss);
  }

  lemma InterleavedSampleInside(ss: nat, n: nat, channels: nat, channel: nat, i: nat)
    requires channel < channels && i < n
    ensures InterleavedStart(ss, channels, channel, i) + ss <= n * (channels * ss)
  {
    calc {
      (i * channels + channel) * ss + ss;
    ==  (i * channels + channel + 1) * ss;
    <=  { MulMono(i * channels + channel + 1, (i + 1) * channels, ss); }
      ((i + 1) * channels) * ss;
    <=  { MulMono(i + 1, n, channels); MulMono((i + 1) * channels, n * channels, ss); }
      (n * channels) * ss;
    ==  n * (channels * ss);
    }
  }

  /** Every sample of every channel lies inside the data. */
  lemma SampleInside(info: AudioInfo, channel: nat, i: nat)
    requires channel < info.numberOfChannels && i < info.numberOfFrames
    ensures SampleStart(info, channel, i) + SampleSize(info.format) <= TotalBytes(info)
  {
    var ss, frames, channels := SampleSize(info.format), info.numberOfFrames, info.numberOfChannels;
    if IsPlanar(info.format) {
      PlanarSampleInside(ss, frames, channels, channel, i);
    } else {
      InterleavedSampleInside(ss, frames, channels, channel, i);
    }
  }

  /** The bytes of one channel's first n samples gathered from interleaved
      frames of `channels` samples of ss bytes each. */
  function Gather(data: seq<byte>, ss: nat, channels: nat, channel: nat, n: nat): (r: seq<byte>)
    requires channel < channels && n * (channels * ss) <= |data|
    ensures |r| == n * ss
  {
    if n == 0 then []
    else
      InterleavedSampleInside(ss, n, channels, channel, n - 1);
      MulMono(n - 1, n, channels * ss);
      var s := InterleavedStart(ss, channels, channel, n - 1);
      Gather(data, ss, channels, channel, n - 1) + data[s..s + ss]
  }

  /** The bytes of one channel's plane of `frames` samples of ss bytes. */
  function PlanarRun(data: seq<byte>, ss: nat, frames: nat, channels: nat, channel: nat): (r: seq<byte>)
    requires channel < channels && frames * (channels * ss) <= |data|
    ensures |r| == frames * ss
  {
    PlanarRunInside(channel, channels, frames, 0, frames, ss);
    var start := channel * (frames * ss);
    data[start..start + frames * ss]
  }

  /** get_channel_data: the samples of one channel, viewed in place when
      planar and gathered frame by frame when interleaved. */
  function ChannelSamples(data: seq<byte>, info: AudioInfo, channel: nat): (r: seq<byte>)
    requires |data| == TotalBytes(info) && channel < info.numberOfChannels
    ensures |r| == info.numberOfFrames * SampleSize(info.format)
  {
    var ss := SampleSize(info.format);
    if IsPlanar(info.format) then PlanarRun(data, ss, info.numberOfFrames, info.numberOfChannels, channel)
    else Gather(data, ss, info.numberOfChannels, channel, info.numberOfFrames)
  }

  /** Sample i of the gathered bytes is sample i of that channel in the
      interleaved frames. */
  lemma {:induction false} GatherAt(data: seq<byte>, ss: nat, channels: nat, channel: nat, n: nat, i: nat)
    requires channel < channels && n * (channels * ss) <= |data| && i < n
    ensures i * ss + ss <= n * ss && InterleavedStart(ss, channels, channel, i) + ss <= |data|
    ensures Gather(data, ss, channels, channel, n)[i * ss..i * ss + ss] ==
            data[InterleavedStart(ss, channels, channel, i)..InterleavedStart(ss, channels, channel, i) + ss]
  {
    InterleavedSampleInside(ss, n, channels, channel, i);
    MulMono(i + 1, n, ss);
    MulMono(n - 1, n, channels * ss);
    var front := Gather(data, ss, channels, channel, n - 1);
    if i < n - 1 {
      GatherAt(data, ss, channels, channel, n - 1, i);
      assert Gather(data, ss, channels, channel, n)[i * ss..i * ss + ss] == front[i * ss..i * ss + ss];
    } else {
      assert |front| == i * ss;
    }
  }

  /** Sample i of a plane is sample i of that channel in the planar data. */
  lemma PlanarRunAt(data: seq<byte>, ss: nat, frames: nat, channels: nat, channel: nat, i: nat)
    requires channel < channels && frames * (channels * ss) <= |data| && i < frames
    ensures i * ss + ss <= frames * ss && PlanarStart(ss, frames, channel, i) + ss <= |data|
    ensures PlanarRun(data, ss, frames, channels, channel)[i * ss..i * ss + ss] ==
            data[PlanarStart(ss, frames, channel, i)..PlanarStart(ss, frames, channel, i) + ss]
  {
    PlanarRunInside(channel, channels, frames, 0, frames, ss);
    PlanarSampleInside(ss, frames, channels, channel, i);
    var start := channel * (frames * ss);
    RunSample(data, PlanarRun(data, ss, frames, channels, channel), start, frames * ss, i * ss, ss,
              PlanarStart(ss, frames, channel, i));
  }

  /** Sample i of a channel's samples is where SampleStart puts it in the
      data, for both layouts. */
  lemma ChannelSampleAt(data: seq<byte>, info: AudioInfo, channel: nat, i: nat)
    requires |data| == TotalBytes(info) && channel < info.numberOfChannels && i < info.numberOfFrames
    ensures var ss := SampleSize(info.format);
      i * ss + ss <= |ChannelSamples(data, info, channel)| && SampleStart(info, channel, i) + ss <= |data| &&
      ChannelSamples(data, info, channel)[i * ss..i * ss + ss] ==
        data[SampleStart(info, channel, i)..SampleStart(info, channel, i) + ss]
  {
    var ss := SampleSize(info.format);
    if IsPlanar(info.format) {
      PlanarRunAt(data, ss, info.numberOfFrames, info.numberOfChannels, channel, i);
    } else {
      GatherAt(data, ss, info.numberOfChannels, channel, info.numberOfFrames, i);
    }
  }

  /** Bytes off..off+n of a run cut from the data at `start` are the data's
      bytes from start + off. */
  lemma RunSample(data: seq<byte>, run: seq<byte>, start: nat, len: nat, off: nat, n: nat, pos: nat)
    requires start + len <= |data| && run == data[start..start + len] && off + n <= len && pos == start + off
    ensures run[off..off + n] == data[pos..pos + n]
  {
    var lhs, rhs := run[off..off + n], data[pos..pos + n];
    forall k | 0 <= k < n
      ensures lhs[k] == rhs[k]
    {
    }
  }

  /** The interleaved branch of get_channel_data: one sample per frame,
      appended in frame order. */
  method GatherSamples(data: seq<byte>, ss: nat, channels: nat, channel: nat, frames: nat) returns (samples: seq<byte>)
    requires channel < channels && frames * (channels * ss) <= |data|
    ensures samples == Gather(data, ss, channels, channel, frames)
  {
    samples := [];
    var i: nat := 0;
    while i < frames
      invariant i <= frames
      invariant samples == Gather(data, ss, channels, channel, i)
    {
      InterleavedSampleInside(ss, frames, channels, channel, i);
      MulMono(i + 1, frames, channels * ss);
      var start := (i * channels + channel) * ss;
      samples := samples + data[start..start + ss];
      i := i + 1;
    }
  }

  /** The bytes of a fresh buffer: zero-filled, as std::vector::resize
      leaves them. */
  function Zeros(n: nat): (r: seq<byte>)
    ensures |r| == n && forall i :: 0 <= i < n ==> r[i] == 0
  {
    seq(n, _ => 0)
  }

  class AudioData {
    var info: AudioInfo
    var closed: bool
    var data: seq<byte>

    /** An open buffer holds every frame; a closed one holds nothing. */
    ghost predicate Valid()
      reads this
    {
      (closed ==> data == []) && (!closed ==> |data| == TotalBytes(info))
    }

    constructor (info: AudioInfo, data: seq<byte>)
      requires |data| == TotalBytes(info)
      ensures Valid() && !closed && this.info == info && this.data == data
    {
      this.info := info;
      this.closed := false;
      this.data := data;
    }

    /** The dictionary constructor: its checks, then a copy of the first
        number_of_frames frames of the array's bytes. */
    static method Create(init: AudioInit) returns (r: Result<AudioData>)
      ensures r.Ok? <==> CheckAudio(init).Ok?
      ensures r.Err? ==> CheckAudio(init) == Err(r.error)
      ensures r.Ok? ==> fresh(r.value) && r.value.Valid() && !r.value.closed && r.value.info == CheckAudio(init).value &&
                        r.value.data == init.data.value.bytes[..TotalBytes(r.value.info)]
    {
      var info :- CheckAudio(init);
      var total := info.numberOfFrames * FrameBytes(info.format, info.numberOfChannels);
      var audio := new AudioData(info, init.data.value.bytes[..total]);
      return Ok(audio);
    }

    /** create_with_buffer: a zero-filled buffer for the given frames, its
        duration computed as the constructor does. */
    static method CreateWithBuffer(channels: u32, rate: u32, frames: u32, format: SampleFormat, timestamp: int)
      returns (a: AudioData)
      ensures fresh(a) && a.Valid() && !a.closed
      ensures a.info == AudioInfo(format, rate, frames, channels, timestamp, Duration(frames, rate))
      ensures a.data == Zeros(TotalBytes(a.info))
    {
      var info := AudioInfo(format, rate, frames, channels, timestamp, Duration(frames, rate));
      a := new AudioData(info, Zeros(TotalBytes(info)));
    }

    /** close: release the samples; closing again changes nothing. */
    method Close()
      requires Valid()
      modifies this
      ensures Valid() && closed && data == [] && info == old(info)
    {
      if !closed {
        data := [];
        closed := true;
      }
    }

    /** get_channel_data(channel). */
    method ChannelData(channel: u32) returns (r: Result<seq<byte>>)
      requires Valid()
      ensures closed ==> r == Err(AUDIO_CLOSED)
      ensures !closed && channel >= info.numberOfChannels ==> r == Err(INVALID_CHANNEL)
      ensures r.Ok? <==> !closed && channel < info.numberOfChannels
      ensures r.Ok? ==> r.value == ChannelSamples(data, info, channel)
    {
      if closed {
        return Err(AUDIO_CLOSED);
      }
      if channel >= info.numberOfChannels {
        return Err(INVALID_CHANNEL);
      }
      var ss, frames, channels := SampleSize(info.format), info.numberOfFrames, info.numberOfChannels;
      if IsPlanar(info.format) {
        PlanarRunInside(channel, channels, frames, 0, frames, ss);
        var offset := channel * (frames * ss);
        return Ok(data[offset..offset + frames * ss]);
      }
      var samples := GatherSamples(data, ss, channels, channel, frames);
      return Ok(samples);
    }

    /** allocation_size(options). */
    method AllocationSize(options: CopyOptions) returns (r: Result<nat>)
      requires Valid()
      ensures closed ==> r == Err(AUDIO_CLOSED)
      ensures !closed && ParseCopyOptions(info, options).Err? ==> r == Err(ParseCopyOptions(info, options).error)
      ensures !closed && ParseCopyOptions(info, options).Ok? ==> r == Ok(AllocationSizeFor(info, ParseCopyOptions(info, options).value))
    {
      if closed {
        return Err(AUDIO_CLOSED);
      }
      var p :- ParseCopyOptions(info, options);
      var target := TargetFormat(info, p);
      if IsPlanar(target) {
        return Ok(p.frameCount * SampleSize(target));
      }
      return Ok(p.frameCount * info.numberOfChannels * SampleSize(target));
    }

    /** copy_to(destination, options): after the checks, the selected
        samples go to the front of the destination as they are, or
        converted; the rest of the destination is untouched. */
    method CopyTo(dest: array<byte>, options: CopyOptions) returns (r: Result<AudioCopy>)
      requires Valid()
      modifies dest
      ensures closed ==> r == Err(AUDIO_CLOSED)
      ensures !closed ==> r == CopyCheck(info, options, dest.Length)
      ensures r.Err? ==> dest[..] == old(dest[..])
      ensures r == Ok(Copied) ==>
        var p := ParseCopyOptions(info, options).value;
        var start, len := CopyStart(info, p), CopyLength(info, p);
        start + len <= |data| && len <= dest.Length &&
        dest[..] == data[start..start + len] + old(dest[..])[len..]
    {
      if closed {
        return Err(AUDIO_CLOSED);
      }
      var p :- ParseCopyOptions(info, options);
      var required := AllocationSizeFor(info, p);
      if dest.Length < required {
        return Err("destination buffer is too small: " + Decimal(dest.Length) + " < " + Decimal(required));
      }
      var target := TargetFormat(info, p);
      if target == info.format {
        CopyInsideData(info, options, dest.Length);
        var start, len := CopyStart(info, p), CopyLength(info, p);
        ghost var d0 := dest[..];
        Memcpy(dest, 0, data[start..start + len]);
        WriteRowFront(d0, data[start..start + len]);
        return Ok(Copied);
      }
      if Convertible(info.format, target) {
        return Ok(Converted(target));
      }
      return Err(UNSUPPORTED_CONVERSION);
    }

    /** clone: an independent buffer with the same description, duration
        included, and the same samples. */
    method Clone() returns (r: Result<AudioData>)
      requires Valid()
      ensures closed ==> r == Err(AUDIO_CLOSED)
      ensures !closed ==> r.Ok? && fresh(r.value) && r.value.Valid() && !r.value.closed &&
                          r.value.info == info && r.value.data == data
    {
      if closed {
        return Err(AUDIO_CLOSED);
      }
      var copy := new AudioData(info, data);
      return Ok(copy);
    }
  }
}
