/** The helpers the Intel VPL backends share: rounding a frame dimension
    up to the hardware alignment, the codec of a codec string, and the pool
    of NV12 surfaces handed to the encoder and decoder. */
module VplHelpers {
  import opened Wrappers
  import opened Bytes
  import CP = CodecParser

  // ---------------------------------------------------------------------------
  // Alignment

  /** align16 on a 16-bit dimension: `(v + 15) & ~15` clears the low four
      bits of v + 15, and the result is stored back into 16 bits. It is the
      least multiple of 16 not below v, and 0 once that no longer fits. */
  function Align16(v: nat): (r: nat)
    requires v < U16_LIMIT
    ensures r < U16_LIMIT && r % 16 == 0
    ensures v <= U16_LIMIT - 16 ==> v <= r < v + 16
    ensures v > U16_LIMIT - 16 ==> r == 0
  {
    (v + 15) / 16 * 16 % U16_LIMIT
  }

  /** align32 on a 16-bit dimension, the same with 32. */
  function Align32(v: nat): (r: nat)
    requires v < U16_LIMIT
    ensures r < U16_LIMIT && r % 32 == 0
    ensures v <= U16_LIMIT - 32 ==> v <= r < v + 32
    ensures v > U16_LIMIT - 32 ==> r == 0
  {
    (v + 31) / 32 * 32 % U16_LIMIT
  }

  /** Two multiples of 16 less than 16 apart are equal. */
  lemma SameMultiple16(a: nat, b: nat)
    requires a % 16 == 0 && b % 16 == 0 && a <= b < a + 16
    ensures a == b
  {
    var qa, qb := a / 16, b / 16;
    assert a == 16 * qa && b == 16 * qb;
  }

  lemma SameMultiple32(a: nat, b: nat)
    requires a % 32 == 0 && b % 32 == 0 && a <= b < a + 32
    ensures a == b
  {
    var qa, qb := a / 32, b / 32;
    assert a == 32 * qa && b == 32 * qb;
  }

  /** Aligning an aligned dimension changes nothing. */
  lemma Align16Idempotent(v: nat)
    requires v < U16_LIMIT
    ensures Align16(Align16(v)) == Align16(v)
  {
    var r := Align16(v);
    SameMultiple16(r, Align16(r));
  }

  lemma Align32Idempotent(v: nat)
    requires v < U16_LIMIT
    ensures Align32(Align32(v)) == Align32(v)
  {
    var r := Align32(v);
    SameMultiple32(r, Align32(r));
  }

  // ---------------------------------------------------------------------------
  // Codec of a codec string

  datatype VplCodec = VplAvc | VplHevc | VplAv1

  const UNSUPPORTED_VPL_CODEC := "Unsupported codec for Intel VPL: "

  /** get_codec_id: the family from the prefix of the codec string. */
  function VplCodecId(codec: string): (r: Result<VplCodec>)
    ensures r == Ok(VplAvc) <==> CP.HasPrefix(codec, "avc1.") || CP.HasPrefix(codec, "avc3.")
    ensures r == Ok(VplHevc) <==> CP.HasPrefix(codec, "hvc1.") || CP.HasPrefix(codec, "hev1.")
    ensures r == Ok(VplAv1) <==> CP.HasPrefix(codec, "av01")
    ensures r.Err? ==> r.error == UNSUPPORTED_VPL_CODEC + codec
  {
    if |codec| >= 5 && (codec[..5] == "avc1." || codec[..5] == "avc3.") then
      assert codec[..4][2] == codec[..5][2] == 'c';
      Ok(VplAvc)
    else if |codec| >= 5 && (codec[..5] == "hvc1." || codec[..5] == "hev1.") then
      assert codec[..4][0] == codec[..5][0] == 'h';
      Ok(VplHevc)
    else if |codec| >= 4 && codec[..4] == "av01" then Ok(VplAv1)
    else Err(UNSUPPORTED_VPL_CODEC + codec)
  }

  /** Every codec string the codec-string parser accepts as H.264, H.265 or
      AV1 selects the same codec here; VP8 and VP9 strings are refused. */
  lemma VplCodecAgreesWithParser(codec: string)
    requires CP.ParseCodecString(codec).Ok?
    ensures var p := CP.ParseCodecString(codec).value;
      (p.AvcCodec? ==> VplCodecId(codec) == Ok(VplAvc)) &&
      (p.HevcCodec? ==> VplCodecId(codec) == Ok(VplHevc)) &&
      (p.Av1Codec? ==> VplCodecId(codec) == Ok(VplAv1)) &&
      (p.Vp8Codec? || p.Vp9Codec? ==> VplCodecId(codec).Err?)
  {
    var p := CP.ParseCodecString(codec).value;
    if p.Av1Codec? {
      assert codec[..4] == codec[..5][..4];
    }
    if p.Vp9Codec? {
      assert codec[..4] == codec[..5][..4];
    }
  }

  // ---------------------------------------------------------------------------
  // Surface layout

  /** One NV12 surface: its handle, where its luma plane (y) and its
      interleaved chroma plane (u, with v one byte on) start in the shared
      buffer, and its pitch. */
  datatype Surface = Surface(id: nat, y: nat, u: nat, v: nat, pitch: nat)

  /** Bytes of one surface: 12 bits per pixel of the aligned frame. */
  function SurfaceSize(width: nat, height: nat): nat
    requires width < U16_LIMIT && height < U16_LIMIT
  {
    Align32(width) * Align32(height) * 12 / 8
  }

  /** The i-th surface of a pool for a width × height frame. */
  function SurfaceAt(id: nat, i: nat, width: nat, height: nat): Surface
    requires width < U16_LIMIT && height < U16_LIMIT
  {
    var w, h := Align32(width), Align32(height);
    var size := SurfaceSize(width, height);
    Surface(id, i * size, i * size + w * h, i * size + w * h + 1, w)
  }

  lemma MulStep(i: nat, size: nat, count: nat)
    requires i < count
    ensures i * size + size <= count * size
  {
    assert (i + 1) * size == i * size + size;
    MulMono(i + 1, count, size);
  }

  /** The i-th surface of a pool of `count` fills its own slice of the
      buffer exactly: the luma plane (pitch × aligned height bytes) starts
      the slice, the chroma plane (half as many) follows it and ends the
      slice, and the slice lies inside a buffer of count surfaces. */
  lemma SurfaceFillsSlice(id: nat, i: nat, count: nat, width: nat, height: nat)
    requires width < U16_LIMIT && height < U16_LIMIT && i < count
    ensures var s, size := SurfaceAt(id, i, width, height), SurfaceSize(width, height);
      var h := Align32(height);
      s.y == i * size && s.u == s.y + s.pitch * h && s.v == s.u + 1 &&
      s.u + s.pitch * h / 2 == (i + 1) * size && (i + 1) * size <= count * size
  {
    var w, h := Align32(width), Align32(height);
    var size := SurfaceSize(width, height);
    var m := w * h;
    AlignedAreaEven(w, h);
    TwelveBitsSplit(m);
    assert size == m + m / 2;
    MulStep(i, size, count);
    NextSlice(i, size);
  }

  /** An area with a 32-aligned side is even. */
  lemma AlignedAreaEven(w: nat, h: nat)
    requires w % 32 == 0
    ensures (w * h) % 2 == 0
  {
    var q := w / 32;
    assert w * h == 2 * (16 * q * h);
  }

  /** 12 bits per pixel of an even area: the area, then half of it. */
  lemma TwelveBitsSplit(m: nat)
    requires m % 2 == 0
    ensures m * 12 / 8 == m + m / 2
  {
    var k := m / 2;
    assert m == 2 * k;
    assert m * 12 == 8 * (3 * k);
  }

  lemma NextSlice(i: nat, size: nat)
    ensures (i + 1) * size == i * size + size
  {
  }

  // ---------------------------------------------------------------------------
  // Surface pool

  /** The position of the first surface with the given handle. */
  function IndexOfId(ss: seq<Surface>, id: nat, from: nat): (r: Option<nat>)
    requires from <= |ss|
    ensures r.Some? ==> from <= r.value < |ss| && ss[r.value].id == id &&
                        forall j :: from <= j < r.value ==> ss[j].id != id
    ensures r.None? ==> forall j :: from <= j < |ss| ==> ss[j].id != id
    decreases |ss| - from
  {
    if from == |ss| then None
    else if ss[from].id == id then Some(from)
    else IndexOfId(ss, id, from + 1)
  }

  /** 0, 1, ..., n - 1. */
  function Upto(n: nat): (r: seq<nat>)
    ensures |r| == n && forall k :: 0 <= k < n ==> r[k] == k
  {
    if n == 0 then [] else Upto(n - 1) + [n - 1]
  }

  /** The pool: the surfaces it owns and a queue of the positions of the
      free ones. Handles are never reused: `created` counts the surfaces
      made so far and the next one made gets it as its handle. */
  class SurfacePool {
    var surfaces: seq<Surface>
    var free: seq<nat>
    var created: nat

    /** Every queued position names a surface of the pool, and the handles
        are distinct and below `created`. */
    ghost predicate Valid()
      reads this
    {
      (forall k :: 0 <= k < |free| ==> free[k] < |surfaces|) &&
      (forall k :: 0 <= k < |surfaces| ==> surfaces[k].id < created) &&
      (forall j, k :: 0 <= j < k < |surfaces| ==> surfaces[j].id < surfaces[k].id)
    }

    constructor()
      ensures Valid() && surfaces == [] && free == []
    {
      surfaces, free, created := [], [], 0;
    }

    /** clear: the pool owns no surface and has none free. */
    method Clear()
      modifies this
      ensures Valid() && surfaces == [] && free == [] && created == old(created)
    {
      surfaces := [];
      free := [];
    }

    /** init: drop the old surfaces and make `count` new ones, all free, in
        a shared buffer of count surfaces whose size is returned. */
    method Init(count: nat, width: nat, height: nat) returns (bufferSize: nat)
      requires count < U16_LIMIT && width < U16_LIMIT && height < U16_LIMIT
      modifies this
      ensures Valid() && |surfaces| == count && free == Upto(count)
      ensures forall i :: 0 <= i < count ==> surfaces[i] == SurfaceAt(old(created) + i, i, width, height)
      ensures created == old(created) + count
      ensures bufferSize == count * SurfaceSize(width, height)
    {
      Clear();
      var size := SurfaceSize(width, height);
      bufferSize := count * size;
      ghost var first := created;
      for i := 0 to count
        invariant created == first + i && |surfaces| == i && free == Upto(i)
        invariant forall k :: 0 <= k < i ==> surfaces[k] == SurfaceAt(first + k, k, width, height)
      {
        surfaces := surfaces + [SurfaceAt(created, i, width, height)];
        free := free + [i];
        created := created + 1;
      }
    }

    /** acquire: the surface at the head of the free queue, which leaves
        the queue; nothing when no surface is free. */
    method Acquire() returns (s: Option<Surface>)
      requires Valid()
      modifies this
      ensures Valid() && surfaces == old(surfaces) && created == old(created)
      ensures old(free) == [] ==> s == None && free == []
      ensures old(free) != [] ==> s == Some(surfaces[old(free)[0]]) && free == old(free)[1..]
    {
      if free == [] {
        return None;
      }
      var index := free[0];
      free := free[1..];
      s := Some(surfaces[index]);
    }

    /** release: the position of the surface with that handle goes back on
        the free queue; a handle the pool does not own changes nothing. */
    method Release(s: Surface)
      requires Valid()
      modifies this
      ensures Valid() && surfaces == old(surfaces) && created == old(created)
      ensures IndexOfId(surfaces, s.id, 0).None? ==> free == old(free)
      ensures IndexOfId(surfaces, s.id, 0).Some? ==> free == old(free) + [IndexOfId(surfaces, s.id, 0).value]
    {
      var i := 0;
      while i < |surfaces|
        invariant i <= |surfaces| && IndexOfId(surfaces, s.id, 0) == IndexOfId(surfaces, s.id, i)
      {
        if surfaces[i].id == s.id {
          free := free + [i];
          return;
        }
        i := i + 1;
      }
    }
  }

  /** Surfaces of one pool have distinct handles, so a surface handed out
      by acquire is found again by release at its own position. */
  lemma ReleaseFindsOwnSurface(ss: seq<Surface>, k: nat)
    requires k < |ss|
    requires forall i, j :: 0 <= i < j < |ss| ==> ss[i].id < ss[j].id
    ensures IndexOfId(ss, ss[k].id, 0) == Some(k)
  {
  }
}
