/** Pixel formats and the arithmetic of the raw video frame
    (src/bindings/video_frame.cpp): how many bytes a frame of each format
    holds, where its planes start, how big a custom plane layout is, and
    which rows a copy of a sub-rectangle reads and writes. */
module FrameGeometry {
  import opened Wrappers
  import opened Bytes
  import opened PlaneCopy

  datatype PixelFormat = I420 | I422 | I444 | NV12 | RGBA | BGRA | RGB | BGR

  /** The name under which each format is exposed to Python. */
  function FormatName(f: PixelFormat): string
  {
    match f
    case I420 => "I420"
    case I422 => "I422"
    case I444 => "I444"
    case NV12 => "NV12"
    case RGBA => "RGBA"
    case BGRA => "BGRA"
    case RGB => "RGB"
    case BGR => "BGR"
  }

  /** string_to_format: the format with that exact name, or an error that
      repeats the name. */
  function StringToFormat(s: string): (r: Result<PixelFormat>)
    ensures forall f :: FormatName(f) == s ==> r == Ok(f)
    ensures r.Ok? ==> FormatName(r.value) == s
    ensures r.Err? ==> r.error == "Unknown pixel format: " + s
  {
    if s == "I420" then Ok(I420)
    else if s == "I422" then Ok(I422)
    else if s == "I444" then Ok(I444)
    else if s == "NV12" then Ok(NV12)
    else if s == "RGBA" then Ok(RGBA)
    else if s == "BGRA" then Ok(BGRA)
    else if s == "RGB" then Ok(RGB)
    else if s == "BGR" then Ok(BGR)
    else Err("Unknown pixel format: " + s)
  }

  /** A format given either by name or as the enum value. */
  datatype FormatValue = ByName(name: string) | ByValue(format: PixelFormat)

  function FormatOf(v: FormatValue): (r: Result<PixelFormat>)
    ensures v.ByValue? ==> r == Ok(v.format)
    ensures v.ByName? ==> r == StringToFormat(v.name)
  {
    match v
    case ByName(s) => StringToFormat(s)
    case ByValue(f) => Ok(f)
  }

  predicate IsPlanar(f: PixelFormat)
  {
    f == I420 || f == I422 || f == I444 || f == NV12
  }

  function PlaneCount(f: PixelFormat): nat
  {
    match f
    case I420 | I422 | I444 => 3
    case NV12 => 2
    case _ => 1
  }

  /** Bytes in a w x h frame: 12 bits a pixel for I420 and NV12, 16 for
      I422, 24 for I444, RGB and BGR, 32 for RGBA and BGRA.  Exact; see
      FrameSizeU32 for the 32-bit arithmetic the binding uses. */
  function FrameSize(f: PixelFormat, w: nat, h: nat): nat
  {
    var a := w * h;
    match f
    case I420 | NV12 => a * 3 / 2
    case I422 => a * 2
    case I444 | RGB | BGR => a * 3
    case RGBA | BGRA => a * 4
  }

  /** The same sizes as the binding computes them: every product in
      uint32_t, so that large frames wrap. */
  function FrameSizeU32(f: PixelFormat, w: u32, h: u32): (r: u32)
  {
    var a := U32(w * h);
    match f
    case I420 | NV12 => U32(a * 3) / 2
    case I422 => U32(a * 2)
    case I444 | RGB | BGR => U32(a * 3)
    case RGBA | BGRA => U32(a * 4)
  }

  /** Below 2^30 pixels nothing wraps and the two agree. */
  lemma FrameSizeU32Agrees(f: PixelFormat, w: u32, h: u32)
    requires w * h < 0x4000_0000
    ensures FrameSizeU32(f, w, h) == FrameSize(f, w, h)
  {
  }

  /** A 65536 x 32768 I420 frame has 3 * 2^30 bytes, but the 32-bit sum
      makes it 2^30. */
  lemma FrameSizeU32Wraps()
    ensures FrameSize(I420, 65536, 32768) == 0xC000_0000
    ensures FrameSizeU32(I420, 65536, 32768) == 0x4000_0000
  {
  }

  /** Sum of a list of sizes, added up front to back. */
  function Total(s: seq<nat>): nat
  {
    if s == [] then 0 else Total(s[..|s| - 1]) + s[|s| - 1]
  }

  lemma Total3(a: nat, b: nat, c: nat)
    ensures Total([a]) == a && Total([a, b]) == a + b && Total([a, b, c]) == a + b + c
  {
    assert [a, b, c][..2] == [a, b];
    assert [a, b][..1] == [a];
    assert [a][..0] == [];
  }

  datatype PlaneInfo = PlaneInfo(offsets: seq<nat>, sizes: seq<nat>)

  /** calculate_plane_info: plane offsets and sizes of a w x h frame. */
  function PlaneInfoOf(f: PixelFormat, w: nat, h: nat): PlaneInfo
  {
    var a := w * h;
    match f
    case I420 => PlaneInfo([0, a, a * 5 / 4], [a, a / 4, a / 4])
    case I422 => PlaneInfo([0, a, a * 3 / 2], [a, a / 2, a / 2])
    case I444 => PlaneInfo([0, a, a * 2], [a, a, a])
    case NV12 => PlaneInfo([0, a], [a, a / 2])
    case RGB | BGR => PlaneInfo([0], [a * 3])
    case RGBA | BGRA => PlaneInfo([0], [a * 4])
  }

  /** calculate_plane_info as the binding computes it: width_ and height_
      are uint32_t, so every product wraps before it is stored. */
  function PlaneInfoU32(f: PixelFormat, w: u32, h: u32): PlaneInfo
  {
    var a := U32(w * h);
    match f
    case I420 => PlaneInfo([0, a, U32(a * 5) / 4], [a, a / 4, a / 4])
    case I422 => PlaneInfo([0, a, U32(a * 3) / 2], [a, a / 2, a / 2])
    case I444 => PlaneInfo([0, a, U32(a * 2)], [a, a, a])
    case NV12 => PlaneInfo([0, a], [a, a / 2])
    case RGB | BGR => PlaneInfo([0], [U32(a * 3)])
    case RGBA | BGRA => PlaneInfo([0], [U32(a * 4)])
  }

  /** Up to 0x33333333 pixels no product wraps, whatever the format, and
      the binding's plane table is the exact one. */
  lemma PlaneInfoU32Agrees(f: PixelFormat, w: u32, h: u32)
    requires w * h <= 0x3333_3333
    ensures PlaneInfoU32(f, w, h) == PlaneInfoOf(f, w, h)
  {
    var a := w * h;
    assert U32(a) == a;
    assert a * 5 < U32_LIMIT && a * 4 < U32_LIMIT && a * 3 < U32_LIMIT && a * 2 < U32_LIMIT;
  }

  /** For an I420 frame of 0x33333334 to 0x55555555 pixels the frame size
      does not wrap, so the binding accepts a buffer of the exact size, but
      the third plane's offset does: the V plane the binding hands out
      starts before the U plane, inside the luma plane, while the exact
      offset lies behind both. */
  lemma I420PlaneOffsetWraps(w: u32, h: u32)
    requires 0x3333_3334 <= w * h <= 0x5555_5555
    ensures FrameSizeU32(I420, w, h) == FrameSize(I420, w, h)
    ensures var p := PlaneInfoU32(I420, w, h);
      p.offsets[2] + p.sizes[2] <= p.offsets[1] && p.offsets[2] != PlaneInfoOf(I420, w, h).offsets[2]
  {
    var a := w * h;
    assert U32(a * 5) == a * 5 - 0x1_0000_0000;
  }

  /** When the planes fill the frame exactly: an I420 chroma plane rounds
      a quarter of the pixels down and an I422 one a half. */
  predicate FillsFrame(f: PixelFormat, pixels: nat)
  {
    (f == I420 ==> pixels % 4 < 2) && (f == I422 ==> pixels % 2 == 0)
  }

  /** The planes tile the front of the frame: one per plane of the format,
      the first at 0, each starting where the previous one ends. */
  lemma PlaneInfoTiles(f: PixelFormat, w: nat, h: nat)
    ensures var p := PlaneInfoOf(f, w, h);
      |p.offsets| == |p.sizes| == PlaneCount(f) && p.offsets[0] == 0 &&
      (forall i :: 0 < i < |p.offsets| ==> p.offsets[i] == p.offsets[i - 1] + p.sizes[i - 1]) &&
      (forall i :: 0 <= i < |p.offsets| ==> p.offsets[i] + p.sizes[i] <= Total(p.sizes))
  {
    var a := w * h;
    match f
    case I420 => Total3(a, a / 4, a / 4);
    case I422 => Total3(a, a / 2, a / 2);
    case I444 => Total3(a, a, a);
    case NV12 => Total3(a, a / 2, 0);
    case RGB => Total3(a * 3, 0, 0);
    case BGR => Total3(a * 3, 0, 0);
    case RGBA => Total3(a * 4, 0, 0);
    case BGRA => Total3(a * 4, 0, 0);
  }

  /** Together the planes are no larger than the frame, and exactly its
      size when the subsampling divides evenly. */
  lemma PlaneInfoFillsFrame(f: PixelFormat, w: nat, h: nat)
    ensures Total(PlaneInfoOf(f, w, h).sizes) <= FrameSize(f, w, h)
    ensures Total(PlaneInfoOf(f, w, h).sizes) == FrameSize(f, w, h) <==> FillsFrame(f, w * h)
  {
    var a := w * h;
    match f
    case I420 => Total3(a, a / 4, a / 4);
    case I422 => Total3(a, a / 2, a / 2);
    case I444 => Total3(a, a, a);
    case NV12 => Total3(a, a / 2, 0);
    case RGB => Total3(a * 3, 0, 0);
    case BGR => Total3(a * 3, 0, 0);
    case RGBA => Total3(a * 4, 0, 0);
    case BGRA => Total3(a * 4, 0, 0);
  }

  /** plane(i): rows and columns of the view of plane i. */
  function PlaneShape(f: PixelFormat, w: nat, h: nat, i: nat): (nat, nat)
  {
    if i > 0 && f == I420 then (h / 2, w / 2)
    else if i > 0 && f == NV12 then (h / 2, w / 2 * 2)
    else if i > 0 && f == I422 then (h, w / 2)
    else (h, w)
  }

  /** Halving one side halves the area at least. */
  lemma HalfSide(x: nat, y: nat)
    ensures (x / 2) * y <= (x * y) / 2
  {
    MulMono(x / 2 * 2, x, y);
    assert (x / 2 * 2) * y == 2 * ((x / 2) * y);
  }

  lemma HalfSecond(x: nat, y: nat)
    ensures x * (y / 2) <= (x * y) / 2
  {
    HalfSide(y, x);
    assert x * (y / 2) == (y / 2) * x && y * x == x * y;
  }

  /** Halving both sides quarters the area at least. */
  lemma HalfBoth(x: nat, y: nat)
    ensures (x / 2) * (y / 2) <= (x * y) / 4
  {
    HalfSide(x, y / 2);
    HalfSide(y, x);
    assert x * (y / 2) == (y / 2) * x && y * x == x * y;
  }

  /** The area bounds the planes of a w x h frame rely on. */
  lemma AreaBounds(w: nat, h: nat)
    ensures h * w == w * h
    ensures (h / 2) * (w / 2) <= (w * h) / 4
    ensures (h / 2) * w <= (w * h) / 2
    ensures h * (w / 2) <= (w * h) / 2
    ensures (h / 2) * (w / 2 * 2) <= (w * h) / 2
  {
    HalfBoth(w, h);
    assert (h / 2) * (w / 2) == (w / 2) * (h / 2);
    HalfSide(h, w);
    assert h * w == w * h;
    HalfSide(w, h);
    assert h * (w / 2) == (w / 2) * h;
    MulMono(w / 2 * 2, w, h / 2);
    assert (h / 2) * (w / 2 * 2) == (w / 2 * 2) * (h / 2);
    assert (h / 2) * w == w * (h / 2);
  }

  /** Every plane view fits in its plane. */
  lemma PlaneShapeInside(f: PixelFormat, w: nat, h: nat, i: nat)
    requires i < PlaneCount(f)
    ensures PlaneShape(f, w, h, i).0 * PlaneShape(f, w, h, i).1 <= PlaneInfoOf(f, w, h).sizes[i]
  {
    AreaBounds(w, h);
  }

  /** A plane of a destination layout: where it starts and how far apart
      its rows are (both uint32_t in the binding). */
  datatype PlaneLayout = PlaneLayout(offset: u32, stride: u32)

  /** A rectangle of pixels (the binding truncates the doubles of a DOMRect
      to uint32_t). */
  datatype Rect = Rect(x: u32, y: u32, width: u32, height: u32)

  /** The first byte after plane p when it holds `rows` rows. */
  function PlaneEnd(p: PlaneLayout, rows: nat): nat
  {
    p.offset + p.stride * rows
  }

  /** Rows of plane i when the first plane has `first` rows and the others
      `others`. */
  function LayoutRows(i: nat, first: nat, others: nat): nat
  {
    if i == 0 then first else others
  }

  /** The buffer size a layout needs: the furthest end of any of its
      planes. */
  function LayoutExtent(ls: seq<PlaneLayout>, first: nat, others: nat): nat
  {
    if ls == [] then 0
    else
      var i := |ls| - 1;
      Max(LayoutExtent(ls[..i], first, others), PlaneEnd(ls[i], LayoutRows(i, first, others)))
  }

  function Max(a: nat, b: nat): nat
  {
    if a < b then b else a
  }

  /** The extent covers every plane and is the end of one of them (or 0
      for no planes). */
  lemma {:induction false} LayoutExtentIsMax(ls: seq<PlaneLayout>, first: nat, others: nat)
    ensures forall i :: 0 <= i < |ls| ==> PlaneEnd(ls[i], LayoutRows(i, first, others)) <= LayoutExtent(ls, first, others)
    ensures ls == [] ==> LayoutExtent(ls, first, others) == 0
    ensures ls != [] ==> exists i :: 0 <= i < |ls| && LayoutExtent(ls, first, others) == PlaneEnd(ls[i], LayoutRows(i, first, others))
  {
    if ls != [] {
      var n := |ls| - 1;
      LayoutExtentIsMax(ls[..n], first, others);
      assert forall i :: 0 <= i < n ==> ls[..n][i] == ls[i];
      if n > 0 && LayoutExtent(ls[..n], first, others) >= PlaneEnd(ls[n], LayoutRows(n, first, others)) {
        var i :| 0 <= i < n && LayoutExtent(ls[..n], first, others) == PlaneEnd(ls[..n][i], LayoutRows(i, first, others));
        assert LayoutExtent(ls, first, others) == PlaneEnd(ls[i], LayoutRows(i, first, others));
      }
    }
  }

  /** The loop the binding runs over a layout to find its size. */
  method ComputeLayoutExtent(ls: seq<PlaneLayout>, first: nat, others: nat) returns (size: nat)
    ensures size == LayoutExtent(ls, first, others)
  {
    size := 0;
    var i := 0;
    while i < |ls|
      invariant i <= |ls|
      invariant size == LayoutExtent(ls[..i], first, others)
    {
      var rows := if i == 0 then first else others;
      var end := ls[i].offset + ls[i].stride * rows;
      assert ls[..i + 1][..i] == ls[..i];
      if end > size {
        size := end;
      }
      i := i + 1;
    }
    assert ls[..i] == ls;
  }

  // ---- copying a rectangle of a planar frame ----

  /** Columns of a chroma plane of a w-pixel-wide rectangle. */
  function ChromaCols(f: PixelFormat, w: nat): nat
  {
    if f == I420 || f == I422 then w / 2 else w
  }

  /** Rows of a chroma plane of an h-pixel-high rectangle. */
  function ChromaRows(f: PixelFormat, h: nat): nat
  {
    if f == I420 || f == NV12 then h / 2 else h
  }

  /** The first chroma row a copy starting at pixel row y reads: halved
      only where the chroma planes have half as many rows. */
  function ChromaFirstRow(f: PixelFormat, y: nat): (r: nat)
    ensures f == I420 || f == NV12 ==> r == y / 2
    ensures f == I422 || f == I444 ==> r == y
  {
    if f == I420 || f == NV12 then y / 2 else y
  }

  /** The chroma row as the binding picks it for I4xx: halved for
      everything but I444, I422 included. */
  function ChromaFirstRowAsWritten(f: PixelFormat, y: nat): nat
  {
    if f == I444 then y else y / 2
  }

  /** For I422, whose chroma planes have one row per pixel row, a copy
      from row 2 reads chroma row 1. */
  lemma ChromaFirstRowI422Differs()
    ensures ChromaFirstRowAsWritten(I422, 2) == 1
    ensures ChromaFirstRow(I422, 2) == 2
    ensures ChromaRows(I422, 4) == 4
  {
  }

  /** The part of plane i of a w-wide frame that a copy of `rect` reads:
      first row and column, rows, columns and the plane's row stride. */
  datatype SourceRegion = SourceRegion(row: nat, col: nat, rows: nat, cols: nat, stride: nat)

  function SourceRegionOf(f: PixelFormat, w: nat, rect: Rect, i: nat): SourceRegion
  {
    if i == 0 then SourceRegion(rect.y, rect.x, rect.height, rect.width, w)
    else if f == NV12 then SourceRegion(ChromaFirstRow(f, rect.y), rect.x, ChromaRows(f, rect.height), rect.width, w)
    else if f == I444 then SourceRegion(rect.y, rect.x, rect.height, rect.width, w)
    else SourceRegion(ChromaFirstRow(f, rect.y), rect.x / 2, ChromaRows(f, rect.height), ChromaCols(f, rect.width), w / 2)
  }

  /** Number of planes a rectangle copy writes. */
  function CopiedPlanes(f: PixelFormat): nat
  {
    if f == NV12 then 2 else 3
  }

  /** The layout copy_to reports when none is given: the planes packed
      one after another, each row as wide as the rectangle's plane. */
  function DefaultRectLayouts(f: PixelFormat, rect: Rect): seq<PlaneLayout>
  {
    var ySize := rect.width * rect.height;
    var uvCols := ChromaCols(f, rect.width);
    var uvSize := uvCols * ChromaRows(f, rect.height);
    if f == NV12 then [PlaneLayout(0, rect.width), PlaneLayout(U32(ySize), rect.width)]
    else [PlaneLayout(0, rect.width), PlaneLayout(U32(ySize), uvCols), PlaneLayout(U32(ySize + uvSize), uvCols)]
  }

  /** The destination layout of a rectangle copy: the caller's when it
      names enough planes, else the default one. */
  function RectLayouts(f: PixelFormat, rect: Rect, given: Option<seq<PlaneLayout>>): (ls: seq<PlaneLayout>)
    ensures |ls| >= CopiedPlanes(f)
  {
    if given.Some? && |given.value| >= CopiedPlanes(f) then given.value
    else DefaultRectLayouts(f, rect)
  }

  /** The layout planes whose size the binding checks: the first two for
      NV12, all of them otherwise. */
  function CheckedLayouts(f: PixelFormat, ls: seq<PlaneLayout>): seq<PlaneLayout>
    requires |ls| >= CopiedPlanes(f)
  {
    if f == NV12 then ls[..2] else ls
  }

  /** The destination size a rectangle copy needs. */
  function RectCopySize(f: PixelFormat, rect: Rect, ls: seq<PlaneLayout>): nat
    requires |ls| >= CopiedPlanes(f)
  {
    LayoutExtent(CheckedLayouts(f, ls), rect.height, ChromaRows(f, rect.height))
  }

  /** The same size as the binding computes it: each plane end in
      uint32_t. */
  function RectCopySizeAsWritten(f: PixelFormat, rect: Rect, ls: seq<PlaneLayout>): nat
    requires |ls| >= CopiedPlanes(f)
  {
    LayoutExtentU32(CheckedLayouts(f, ls), rect.height, ChromaRows(f, rect.height))
  }

  function LayoutExtentU32(ls: seq<PlaneLayout>, first: nat, others: nat): nat
  {
    if ls == [] then 0
    else
      var i := |ls| - 1;
      Max(LayoutExtentU32(ls[..i], first, others), U32(PlaneEnd(ls[i], LayoutRows(i, first, others))))
  }

  /** The 32-bit extent covers every plane end as uint32_t sees it. */
  lemma {:induction false} LayoutExtentU32Covers(ls: seq<PlaneLayout>, first: nat, others: nat)
    ensures forall i :: 0 <= i < |ls| ==> U32(PlaneEnd(ls[i], LayoutRows(i, first, others))) <= LayoutExtentU32(ls, first, others)
  {
    if ls != [] {
      var n := |ls| - 1;
      LayoutExtentU32Covers(ls[..n], first, others);
      assert forall i :: 0 <= i < n ==> ls[..n][i] == ls[i];
    }
  }

  /** When no plane end reaches 2^32 the 32-bit extent is the extent. */
  lemma {:induction false} LayoutExtentU32Agrees(ls: seq<PlaneLayout>, first: nat, others: nat)
    requires forall i :: 0 <= i < |ls| ==> PlaneEnd(ls[i], LayoutRows(i, first, others)) < U32_LIMIT
    ensures LayoutExtentU32(ls, first, others) == LayoutExtent(ls, first, others)
  {
    if ls != [] {
      var n := |ls| - 1;
      assert forall i :: 0 <= i < n ==> ls[..n][i] == ls[i];
      LayoutExtentU32Agrees(ls[..n], first, others);
    }
  }

  /** The loop of allocation_size(options) over a layout: each plane end
      in uint32_t, the largest kept. */
  method ComputeLayoutExtentU32(ls: seq<PlaneLayout>, first: nat, others: nat) returns (size: nat)
    ensures size == LayoutExtentU32(ls, first, others)
  {
    size := 0;
    var i := 0;
    while i < |ls|
      invariant i <= |ls|
      invariant size == LayoutExtentU32(ls[..i], first, others)
    {
      var rows := if i == 0 then first else others;
      var end := U32(ls[i].offset + ls[i].stride * rows);
      assert ls[..i + 1][..i] == ls[..i];
      if end > size {
        size := end;
      }
      i := i + 1;
    }
    assert ls[..i] == ls;
  }

  /** Every copied plane's rows are at least as long as its rows of the
      rectangle, so that rows do not overlap. */
  predicate StridesCover(f: PixelFormat, rect: Rect, ls: seq<PlaneLayout>)
    requires |ls| >= CopiedPlanes(f)
  {
    forall i :: 0 <= i < CopiedPlanes(f) ==>
      ls[i].stride >= (if i == 0 then rect.width else ChromaCols(f, rect.width))
  }

  /** The rectangle lies inside the frame, coded and visible size alike,
      with no 32-bit wrap. */
  predicate RectInside(rect: Rect, codedWidth: nat, codedHeight: nat, w: nat, h: nat)
  {
    rect.x + rect.width <= codedWidth && rect.y + rect.height <= codedHeight &&
    rect.x + rect.width <= w && rect.y + rect.height <= h
  }

  /** The binding's test: right and bottom edges in uint32_t, against the
      coded size only. */
  predicate RectInsideAsWritten(rect: Rect, codedWidth: nat, codedHeight: nat)
  {
    U32(rect.x + rect.width) <= codedWidth && U32(rect.y + rect.height) <= codedHeight
  }

  /** A rectangle at x = 2^32 - 1 passes the binding's test on a 2 x 2
      frame because x + width wraps to 0. */
  lemma RectInsideWraps()
    ensures RectInsideAsWritten(Rect(0xFFFF_FFFF, 0, 1, 1), 2, 2)
    ensures !RectInside(Rect(0xFFFF_FFFF, 0, 1, 1), 2, 2, 2, 2)
  {
  }

  /** The row copy for plane i of a rectangle copy from a frame of width
      w whose planes start at `offsets` into the layout `ls`. */
  function RectCopyOf(f: PixelFormat, w: nat, offsets: seq<nat>, rect: Rect, ls: seq<PlaneLayout>, i: nat): RowCopy
    requires i < |offsets| && i < |ls|
  {
    var s := SourceRegionOf(f, w, rect, i);
    RowCopy(offsets[i] + s.row * s.stride + s.col, s.stride, ls[i].offset, ls[i].stride, s.rows, s.cols)
  }

  /** The row copies of a rectangle copy, one per copied plane. */
  function RectPlan(f: PixelFormat, w: nat, offsets: seq<nat>, rect: Rect, ls: seq<PlaneLayout>): (plan: seq<RowCopy>)
    requires |offsets| >= CopiedPlanes(f) && |ls| >= CopiedPlanes(f)
    ensures |plan| == CopiedPlanes(f)
    ensures forall i :: 0 <= i < |plan| ==> plan[i] == RectCopyOf(f, w, offsets, rect, ls, i)
  {
    seq(CopiedPlanes(f), i requires 0 <= i < CopiedPlanes(f) => RectCopyOf(f, w, offsets, rect, ls, i))
  }

  /** Rows of plane i of a w x h frame. */
  function SourcePlaneRows(f: PixelFormat, h: nat, i: nat): nat
  {
    if i == 0 then h else ChromaRows(f, h)
  }

  /** Rows times stride of each copied plane stays inside that plane. */
  lemma SourcePlaneFits(f: PixelFormat, w: nat, h: nat, rect: Rect, i: nat)
    requires IsPlanar(f) && i < CopiedPlanes(f)
    ensures SourcePlaneRows(f, h, i) * SourceRegionOf(f, w, rect, i).stride <= PlaneInfoOf(f, w, h).sizes[i]
  {
    AreaBounds(w, h);
  }

  /** A block of `rows` rows and `cols` columns starting at (row, col) of a
      plane with R rows of `stride` bytes at `base` ends inside the data. */
  lemma BlockInside(base: nat, row: nat, col: nat, rows: nat, cols: nat, stride: nat, planeRows: nat, size: nat, len: nat)
    requires 0 < rows && row + rows <= planeRows && col + cols <= stride
    requires planeRows * stride <= size && base + size <= len
    ensures RowStart(base + row * stride + col, stride, rows - 1) + cols <= len
  {
    RowStartIs(base + row * stride + col, stride, rows - 1);
    MulMono(row + rows, planeRows, stride);
    assert (row + rows) * stride == row * stride + (rows - 1) * stride + stride;
  }

  /** A plane of `rows` rows ending at or before `len` leaves room for
      every row when its stride covers the row. */
  lemma LayoutPlaneInside(p: PlaneLayout, rows: nat, cols: nat, len: nat)
    requires 0 < rows && cols <= p.stride && PlaneEnd(p, rows) <= len
    ensures RowStart(p.offset, p.stride, rows - 1) + cols <= len
  {
    RowStartIs(p.offset, p.stride, rows - 1);
    assert p.stride * rows == (rows - 1) * p.stride + p.stride;
  }

  /** Each row copy of a checked rectangle copy stays inside the frame's
      data and inside the destination. */
  lemma RectCopyInside(f: PixelFormat, w: nat, h: nat, rect: Rect, ls: seq<PlaneLayout>, dataLen: nat, destLen: nat, i: nat)
    requires IsPlanar(f) && i < CopiedPlanes(f) && |ls| >= CopiedPlanes(f)
    requires rect.x + rect.width <= w && rect.y + rect.height <= h
    requires Total(PlaneInfoOf(f, w, h).sizes) <= dataLen
    requires RectCopySize(f, rect, ls) <= destLen && StridesCover(f, rect, ls)
    ensures CopyInside(RectCopyOf(f, w, PlaneInfoOf(f, w, h).offsets, rect, ls, i), dataLen, destLen)
  {
    PlaneInfoTiles(f, w, h);
    if SourceRegionOf(f, w, rect, i).rows > 0 {
      RectReadInside(f, w, h, rect, ls, dataLen, i);
      RectWriteInside(f, w, PlaneInfoOf(f, w, h).offsets, rect, ls, destLen, i);
    }
  }

  /** Without the stride test the size check alone lets a copy write
      past the destination: an I444 2 x 2 rectangle into three planes of
      stride 1 at offset 0 needs 2 bytes by the binding's measure, yet the
      second row of the first plane ends at byte 3. */
  lemma NarrowStrideOverruns()
    ensures var ls := [PlaneLayout(0, 1), PlaneLayout(0, 1), PlaneLayout(0, 1)];
      var rect := Rect(0, 0, 2, 2);
      RectCopySizeAsWritten(I444, rect, ls) == 2 && !StridesCover(I444, rect, ls) &&
      !CopyInside(RectCopyOf(I444, 2, PlaneInfoOf(I444, 2, 2).offsets, rect, ls, 0), 12, 2)
  {
    var ls := [PlaneLayout(0, 1), PlaneLayout(0, 1), PlaneLayout(0, 1)];
    var rect := Rect(0, 0, 2, 2);
    assert CheckedLayouts(I444, ls) == ls;
    assert ChromaRows(I444, 2) == 2 && U32(2) == 2;
    assert ls[..0] == [] && ls[..1][..0] == [];
    assert LayoutExtentU32(ls[..1], 2, 2) == 2;
    assert ls[..2][..1] == ls[..1];
    assert LayoutExtentU32(ls[..2], 2, 2) == 2;
    assert ls[..3] == ls;
    assert LayoutExtentU32(ls, 2, 2) == 2;
    assert !StridesCover(I444, rect, ls);
    var c := RectCopyOf(I444, 2, PlaneInfoOf(I444, 2, 2).offsets, rect, ls, 0);
    assert c.dstOffset == 0 && c.dstStride == 1 && c.rows == 2 && c.cols == 2;
    RowStartIs(0, 1, 1);
  }

  /** The rows a rectangle copy reads from a plane lie inside that plane. */
  lemma RegionInPlane(f: PixelFormat, w: nat, h: nat, rect: Rect, i: nat)
    requires IsPlanar(f) && i < CopiedPlanes(f)
    requires rect.x + rect.width <= w && rect.y + rect.height <= h
    ensures var s := SourceRegionOf(f, w, rect, i);
      s.row + s.rows <= SourcePlaneRows(f, h, i) && s.col + s.cols <= s.stride
  {
  }

  lemma RectReadInside(f: PixelFormat, w: nat, h: nat, rect: Rect, ls: seq<PlaneLayout>, dataLen: nat, i: nat)
    requires IsPlanar(f) && i < CopiedPlanes(f) && |ls| >= CopiedPlanes(f)
    requires rect.x + rect.width <= w && rect.y + rect.height <= h
    requires Total(PlaneInfoOf(f, w, h).sizes) <= dataLen
    requires SourceRegionOf(f, w, rect, i).rows > 0
    ensures var c := RectCopyOf(f, w, PlaneInfoOf(f, w, h).offsets, rect, ls, i);
      RowStart(c.srcOffset, c.srcStride, c.rows - 1) + c.cols <= dataLen
  {
    var p := PlaneInfoOf(f, w, h);
    var s := SourceRegionOf(f, w, rect, i);
    PlaneWithinTotal(f, w, h, i);
    SourcePlaneFits(f, w, h, rect, i);
    RegionInPlane(f, w, h, rect, i);
    BlockInside(p.offsets[i], s.row, s.col, s.rows, s.cols, s.stride, SourcePlaneRows(f, h, i), p.sizes[i], dataLen);
  }

  lemma PlaneWithinTotal(f: PixelFormat, w: nat, h: nat, i: nat)
    requires i < PlaneCount(f)
    ensures i < |PlaneInfoOf(f, w, h).offsets| && i < |PlaneInfoOf(f, w, h).sizes|
    ensures PlaneInfoOf(f, w, h).offsets[i] + PlaneInfoOf(f, w, h).sizes[i] <= Total(PlaneInfoOf(f, w, h).sizes)
  {
    PlaneInfoTiles(f, w, h);
  }

  lemma RectWriteInside(f: PixelFormat, w: nat, offsets: seq<nat>, rect: Rect, ls: seq<PlaneLayout>, destLen: nat, i: nat)
    requires i < CopiedPlanes(f) && |ls| >= CopiedPlanes(f) && |offsets| >= CopiedPlanes(f)
    requires RectCopySize(f, rect, ls) <= destLen && StridesCover(f, rect, ls)
    requires SourceRegionOf(f, w, rect, i).rows > 0
    ensures var c := RectCopyOf(f, w, offsets, rect, ls, i);
      RowStart(c.dstOffset, c.dstStride, c.rows - 1) + c.cols <= destLen
  {
    var s := SourceRegionOf(f, w, rect, i);
    var checked := CheckedLayouts(f, ls);
    assert checked[i] == ls[i];
    LayoutExtentIsMax(checked, rect.height, ChromaRows(f, rect.height));
    assert s.rows == LayoutRows(i, rect.height, ChromaRows(f, rect.height));
    LayoutPlaneInside(ls[i], s.rows, s.cols, destLen);
  }

  /** The whole plan of a checked rectangle copy stays inside both
      buffers. */
  lemma RectPlanInside(f: PixelFormat, w: nat, h: nat, rect: Rect, ls: seq<PlaneLayout>, dataLen: nat, destLen: nat)
    requires IsPlanar(f) && |ls| >= CopiedPlanes(f)
    requires rect.x + rect.width <= w && rect.y + rect.height <= h
    requires Total(PlaneInfoOf(f, w, h).sizes) <= dataLen
    requires RectCopySize(f, rect, ls) <= destLen && StridesCover(f, rect, ls)
    ensures PlanInside(RectPlan(f, w, PlaneInfoOf(f, w, h).offsets, rect, ls), dataLen, destLen)
  {
    forall i | 0 <= i < CopiedPlanes(f)
      ensures CopyInside(RectCopyOf(f, w, PlaneInfoOf(f, w, h).offsets, rect, ls, i), dataLen, destLen)
    {
      RectCopyInside(f, w, h, rect, ls, dataLen, destLen, i);
    }
  }

  /** Bytes of the default layout of a rectangle copy: the luma plane and
      the chroma planes one after another. */
  function DefaultRectBytes(f: PixelFormat, rect: Rect): nat
  {
    var uvSize := ChromaCols(f, rect.width) * ChromaRows(f, rect.height);
    rect.width * rect.height + (if f == NV12 then uvSize else 2 * uvSize)
  }

  /** The default layout packs its planes: each starts where the previous
      one ends and its rows are exactly as wide as the rectangle's, as
      long as the packed bytes fit in 32 bits. */
  lemma DefaultRectLayoutsPacked(f: PixelFormat, w: nat, offsets: seq<nat>, rect: Rect)
    requires IsPlanar(f) && |offsets| >= CopiedPlanes(f)
    requires DefaultRectBytes(f, rect) < U32_LIMIT
    ensures Ordered(RectPlan(f, w, offsets, rect, DefaultRectLayouts(f, rect)))
    ensures StridesCover(f, rect, DefaultRectLayouts(f, rect))
  {
    DefaultPlanEntries(f, w, offsets, rect);
  }

  lemma DefaultPlanEntries(f: PixelFormat, w: nat, offsets: seq<nat>, rect: Rect)
    requires IsPlanar(f) && |offsets| >= CopiedPlanes(f)
    requires DefaultRectBytes(f, rect) < U32_LIMIT
    ensures var plan := RectPlan(f, w, offsets, rect, DefaultRectLayouts(f, rect));
      RegionEnd(plan[0]) == plan[1].dstOffset && plan[1].dstOffset <= RegionEnd(plan[1]) &&
      (f != NV12 ==> RegionEnd(plan[1]) == plan[2].dstOffset) &&
      forall i :: 0 <= i < |plan| ==> plan[i].cols == plan[i].dstStride
  {
    var ls := DefaultRectLayouts(f, rect);
    var plan := RectPlan(f, w, offsets, rect, ls);
    var ySize := rect.width * rect.height;
    var uvCols, uvRows := ChromaCols(f, rect.width), ChromaRows(f, rect.height);
    DefaultBytesSplit(f, rect);
    RowStartIs(0, rect.width, rect.height);
    RowStartIs(ySize, uvCols, uvRows);
    assert RegionEnd(plan[0]) == plan[1].dstOffset;
    assert RegionEnd(plan[1]) == ySize + uvRows * uvCols;
  }

  lemma DefaultBytesSplit(f: PixelFormat, rect: Rect)
    requires DefaultRectBytes(f, rect) < U32_LIMIT
    ensures var ySize, uvSize := rect.width * rect.height, ChromaRows(f, rect.height) * ChromaCols(f, rect.width);
      rect.height * rect.width == ySize &&
      ySize + uvSize < U32_LIMIT && (f != NV12 ==> ySize + uvSize + uvSize == DefaultRectBytes(f, rect))
  {
    var uvCols, uvRows := ChromaCols(f, rect.width), ChromaRows(f, rect.height);
    assert uvRows * uvCols == uvCols * uvRows;
  }

  /** The size check of a copy into the default layout asks for exactly
      the packed bytes. */
  lemma DefaultRectCopySize(f: PixelFormat, rect: Rect)
    requires IsPlanar(f) && DefaultRectBytes(f, rect) < U32_LIMIT
    ensures RectCopySize(f, rect, DefaultRectLayouts(f, rect)) == DefaultRectBytes(f, rect)
  {
    var ls := DefaultRectLayouts(f, rect);
    var uvRows := ChromaRows(f, rect.height);
    var ySize, uvSize := rect.width * rect.height, ChromaCols(f, rect.width) * uvRows;
    DefaultEnds(f, rect);
    PackedCheckedExtent(f, ls, rect.height, uvRows, ySize, uvSize);
  }

  /** The checked planes of a packed layout end where its last plane does. */
  lemma PackedCheckedExtent(f: PixelFormat, ls: seq<PlaneLayout>, first: nat, others: nat, a: nat, b: nat)
    requires |ls| == CopiedPlanes(f)
    requires PlaneEnd(ls[0], first) == a && PlaneEnd(ls[1], others) == a + b
    requires f != NV12 ==> PlaneEnd(ls[2], others) == a + b + b
    ensures LayoutExtent(CheckedLayouts(f, ls), first, others) == if f == NV12 then a + b else a + b + b
  {
    if f == NV12 {
      assert CheckedLayouts(f, ls) == [ls[0], ls[1]];
      PackedExtent(ls[0], ls[1], ls[1], first, others, a, b);
    } else {
      assert CheckedLayouts(f, ls) == [ls[0], ls[1], ls[2]];
      PackedExtent(ls[0], ls[1], ls[2], first, others, a, b);
    }
  }

  /** Three planes packed one after another end where the last one does. */
  lemma PackedExtent(l0: PlaneLayout, l1: PlaneLayout, l2: PlaneLayout, first: nat, others: nat, a: nat, b: nat)
    requires PlaneEnd(l0, first) == a && PlaneEnd(l1, others) == a + b
    ensures LayoutExtent([l0, l1], first, others) == a + b
    ensures PlaneEnd(l2, others) == a + b + b ==> LayoutExtent([l0, l1, l2], first, others) == a + b + b
  {
    LayoutExtentOfFew(l0, l1, l2, first, others);
  }

  /** Where each plane of the default layout ends. */
  lemma DefaultEnds(f: PixelFormat, rect: Rect)
    requires IsPlanar(f) && DefaultRectBytes(f, rect) < U32_LIMIT
    ensures var ls, uvRows := DefaultRectLayouts(f, rect), ChromaRows(f, rect.height);
      var ySize, uvSize := rect.width * rect.height, ChromaCols(f, rect.width) * uvRows;
      PlaneEnd(ls[0], rect.height) == ySize && PlaneEnd(ls[1], uvRows) == ySize + uvSize &&
      (f != NV12 ==> PlaneEnd(ls[2], uvRows) == ySize + uvSize + uvSize) &&
      DefaultRectBytes(f, rect) == (if f == NV12 then ySize + uvSize else ySize + uvSize + uvSize)
  {
    var w, h := rect.width, rect.height;
    var c, r := ChromaCols(f, w), ChromaRows(f, h);
    assert c <= w;
    PackedEnds(w, h, c, r, f != NV12);
  }

  /** The ends of three planes packed one after another, the first w x h
      bytes, the others c x r bytes. */
  lemma PackedEnds(w: u32, h: nat, c: u32, r: nat, three: bool)
    requires w * h + c * r + (if three then c * r else 0) < U32_LIMIT
    ensures PlaneEnd(PlaneLayout(0, w), h) == w * h
    ensures PlaneEnd(PlaneLayout(U32(w * h), c), r) == w * h + c * r
    ensures three ==> PlaneEnd(PlaneLayout(U32(w * h + c * r), c), r) == w * h + c * r + c * r
  {
    MulMono(0, w, h);
    MulMono(0, c, r);
  }

  lemma LayoutExtentOfFew(l0: PlaneLayout, l1: PlaneLayout, l2: PlaneLayout, first: nat, others: nat)
    ensures LayoutExtent([l0, l1], first, others) == Max(PlaneEnd(l0, first), PlaneEnd(l1, others))
    ensures LayoutExtent([l0, l1, l2], first, others) == Max(Max(PlaneEnd(l0, first), PlaneEnd(l1, others)), PlaneEnd(l2, others))
  {
    var e0, e1, e2 := PlaneEnd(l0, first), PlaneEnd(l1, others), PlaneEnd(l2, others);
    assert [l0][..0] == [];
    assert LayoutExtent([l0], first, others) == Max(0, e0);
    assert [l0, l1][..1] == [l0];
    assert LayoutExtent([l0, l1], first, others) == Max(LayoutExtent([l0], first, others), e1);
    assert [l0, l1, l2][..2] == [l0, l1];
    assert LayoutExtent([l0, l1, l2], first, others) == Max(LayoutExtent([l0, l1], first, others), e2);
  }

  /** The packed bytes never exceed the frame size of the rectangle, which
      is what allocation_size reports for it. */
  lemma DefaultRectBytesFit(f: PixelFormat, rect: Rect)
    requires IsPlanar(f)
    ensures DefaultRectBytes(f, rect) <= FrameSize(f, rect.width, rect.height)
  {
    var w, h := rect.width, rect.height;
    if f == I420 {
      HalfBoth(w, h);
    } else if f == I422 {
      HalfSide(w, h);
    } else if f == NV12 {
      HalfSecond(w, h);
    }
  }

  /** Where row r, column k of copied plane i lands in the destination. */
  function DestIndex(p: PlaneLayout, r: nat, k: nat): nat
  {
    p.offset + r * p.stride + k
  }

  /** Where the frame keeps row (first row + r), column (first column + k)
      of copied plane i. */
  function SourceIndex(f: PixelFormat, w: nat, offsets: seq<nat>, rect: Rect, i: nat, r: nat, k: nat): nat
    requires i < |offsets|
  {
    var s := SourceRegionOf(f, w, rect, i);
    MulMono(0, s.row + r, s.stride);
    offsets[i] + (s.row + r) * s.stride + s.col + k
  }

  /** What a rectangle copy leaves in the destination, in the frame's own
      terms: row r, column k of copied plane i holds the frame's byte at
      row (first row + r), column (first column + k) of that plane. */
  lemma RectCopyCell(d: seq<byte>, data: seq<byte>, f: PixelFormat, w: nat, offsets: seq<nat>, rect: Rect,
                     ls: seq<PlaneLayout>, i: nat, r: nat, k: nat)
    requires |offsets| >= CopiedPlanes(f) && |ls| >= CopiedPlanes(f)
    requires PlanInside(RectPlan(f, w, offsets, rect, ls), |data|, |d|) && Ordered(RectPlan(f, w, offsets, rect, ls))
    requires i < CopiedPlanes(f) && r < SourceRegionOf(f, w, rect, i).rows && k < SourceRegionOf(f, w, rect, i).cols
    ensures DestIndex(ls[i], r, k) < |d| && SourceIndex(f, w, offsets, rect, i, r, k) < |data|
    ensures ApplyCopies(d, data, RectPlan(f, w, offsets, rect, ls))[DestIndex(ls[i], r, k)] ==
            data[SourceIndex(f, w, offsets, rect, i, r, k)]
  {
    DestIndexIs(f, w, offsets, rect, ls, i, r, k);
    SourceIndexIs(f, w, offsets, rect, ls, i, r, k);
    ApplyCopiesCell(d, data, RectPlan(f, w, offsets, rect, ls), i, r, k);
  }

  lemma DestIndexIs(f: PixelFormat, w: nat, offsets: seq<nat>, rect: Rect, ls: seq<PlaneLayout>, i: nat, r: nat, k: nat)
    requires i < |offsets| && i < |ls|
    ensures var c := RectCopyOf(f, w, offsets, rect, ls, i);
      DestIndex(ls[i], r, k) == RowStart(c.dstOffset, c.dstStride, r) + k
  {
    RowStartIs(ls[i].offset, ls[i].stride, r);
  }

  lemma SourceIndexIs(f: PixelFormat, w: nat, offsets: seq<nat>, rect: Rect, ls: seq<PlaneLayout>, i: nat, r: nat, k: nat)
    requires i < |offsets| && i < |ls|
    ensures var c := RectCopyOf(f, w, offsets, rect, ls, i);
      SourceIndex(f, w, offsets, rect, i, r, k) == RowStart(c.srcOffset, c.srcStride, r) + k
  {
    var s := SourceRegionOf(f, w, rect, i);
    var base := offsets[i] + s.row * s.stride + s.col;
    assert RectCopyOf(f, w, offsets, rect, ls, i).srcOffset == base;
    RowStartIs(base, s.stride, r);
    Distribute(s.row, r, s.stride);
    assert SourceIndex(f, w, offsets, rect, i, r, k) == offsets[i] + (s.row + r) * s.stride + s.col + k;
  }
}
