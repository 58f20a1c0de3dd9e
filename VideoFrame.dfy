/** The raw video frame of the binding (src/bindings/video_frame.cpp): the
    checks of its constructor, the buffer it owns, and the operations that
    read it (plane views, allocation_size, copy_to, clone) or release it
    (close).  The frame's pixel data is a byte sequence the frame replaces
    as a whole; a destination buffer is an array the copies write in
    place. */
module VideoFrame {
  import opened Wrappers
  import opened Bytes
  import opened PlaneCopy
  import opened FrameGeometry

  const FORMAT_REQUIRED: string := "format is required"
  const CODED_WIDTH_REQUIRED: string := "coded_width is required"
  const CODED_HEIGHT_REQUIRED: string := "coded_height is required"
  const TIMESTAMP_REQUIRED: string := "timestamp is required"
  const DATA_SIZE_MISMATCH: string := "Data size mismatch with format and dimensions"
  /** The check the model adds to the constructor (see PlanesInside). */
  const PLANES_OUTSIDE_DATA: string := "visible_rect exceeds the frame data"
  const FRAME_CLOSED: string := "VideoFrame is closed"
  const INVALID_PLANE_INDEX: string := "Invalid plane index"
  const DESTINATION_TOO_SMALL: string := "destination buffer is too small"
  const COPY_FORMAT_UNSUPPORTED: string :=
    "copy_to without format conversion supports only I420/I422/I444/NV12 source formats"
  const RECT_OUTSIDE: string := "rect exceeds frame boundaries"
  /** The check the model adds to copy_to (see StridesCover). */
  const STRIDE_TOO_SMALL: string := "layout stride is smaller than the plane width"

  datatype ColorSpace = ColorSpace(primaries: Option<string>, transfer: Option<string>,
                                   matrix: Option<string>, fullRange: Option<bool>)

  /** The keys of the init dictionary, each present or absent. */
  datatype FrameInit = FrameInit(
    format: Option<FormatValue>, codedWidth: Option<u32>, codedHeight: Option<u32>, timestamp: Option<int>,
    duration: Option<nat>, layout: Option<seq<PlaneLayout>>, visibleRect: Option<Rect>,
    colorSpace: Option<ColorSpace>, rotation: Option<u32>, flip: Option<bool>,
    metadata: Option<map<string, string>>, displayWidth: Option<u32>, displayHeight: Option<u32>)

  /** Everything the frame records about itself besides its bytes. */
  datatype FrameInfo = FrameInfo(
    format: PixelFormat, width: u32, height: u32, timestamp: int, duration: nat,
    codedWidth: u32, codedHeight: u32, visibleRect: Rect, displayWidth: u32, displayHeight: u32,
    colorSpace: Option<ColorSpace>, layout: Option<seq<PlaneLayout>>, rotation: u32, flip: bool,
    metadata: Option<map<string, string>>)

  /** The constructor's reading of the init dictionary: the four required
      keys in order, then the defaults, the display size swapped for a
      quarter turn, and the visible rectangle (the whole coded frame
      unless given) fixing width and height. */
  function InitInfo(init: FrameInit): (r: Result<FrameInfo>)
    ensures init.format.None? ==> r == Err(FORMAT_REQUIRED)
    ensures init.format.Some? && init.codedWidth.None? ==> r == Err(CODED_WIDTH_REQUIRED)
    ensures init.format.Some? && init.codedWidth.Some? && init.codedHeight.None? ==> r == Err(CODED_HEIGHT_REQUIRED)
    ensures init.format.Some? && init.codedWidth.Some? && init.codedHeight.Some? && init.timestamp.None? ==>
              r == Err(TIMESTAMP_REQUIRED)
    ensures r.Ok? <==> init.format.Some? && init.codedWidth.Some? && init.codedHeight.Some? &&
                       init.timestamp.Some? && FormatOf(init.format.value).Ok?
    ensures r.Ok? ==>
      var v := r.value;
      var dw, dh := init.displayWidth.UnwrapOr(v.codedWidth), init.displayHeight.UnwrapOr(v.codedHeight);
      v.format == FormatOf(init.format.value).value &&
      v.codedWidth == init.codedWidth.value && v.codedHeight == init.codedHeight.value &&
      v.timestamp == init.timestamp.value && v.duration == init.duration.UnwrapOr(0) &&
      v.rotation == init.rotation.UnwrapOr(0) && v.flip == init.flip.UnwrapOr(false) &&
      (v.rotation == 90 || v.rotation == 270 ==> v.displayWidth == dh && v.displayHeight == dw) &&
      (v.rotation != 90 && v.rotation != 270 ==> v.displayWidth == dw && v.displayHeight == dh) &&
      v.visibleRect == init.visibleRect.UnwrapOr(Rect(0, 0, v.codedWidth, v.codedHeight)) &&
      v.width == v.visibleRect.width && v.height == v.visibleRect.height &&
      v.layout == init.layout && v.colorSpace == init.colorSpace && v.metadata == init.metadata
  {
    if init.format.None? then Err(FORMAT_REQUIRED)
    else if init.codedWidth.None? then Err(CODED_WIDTH_REQUIRED)
    else if init.codedHeight.None? then Err(CODED_HEIGHT_REQUIRED)
    else if init.timestamp.None? then Err(TIMESTAMP_REQUIRED)
    else
      var format :- FormatOf(init.format.value);
      var cw, ch := init.codedWidth.value, init.codedHeight.value;
      var rotation := init.rotation.UnwrapOr(0);
      var dw, dh := init.displayWidth.UnwrapOr(cw), init.displayHeight.UnwrapOr(ch);
      var quarter := rotation == 90 || rotation == 270;
      var rect := init.visibleRect.UnwrapOr(Rect(0, 0, cw, ch));
      Ok(FrameInfo(format, rect.width, rect.height, init.timestamp.value, init.duration.UnwrapOr(0), cw, ch, rect,
                   if quarter then dh else dw, if quarter then dw else dh,
                   init.colorSpace, init.layout, rotation, init.flip.UnwrapOr(false), init.metadata))
  }

  /** Rows the constructor assumes for a plane of a custom layout: the
      coded height, halved for the chroma planes of a three-plane I420
      layout. */
  function InitLayoutRows(info: FrameInfo): nat
  {
    if info.format == I420 && info.layout.Some? && |info.layout.value| == 3 then info.codedHeight / 2
    else info.codedHeight
  }

  /** The data size the constructor means to demand: the extent of a
      custom layout when one is given, else the frame size of the coded
      dimensions. */
  function DataSize(info: FrameInfo): nat
  {
    if info.layout.Some? && info.layout.value != [] then
      LayoutExtent(info.layout.value, info.codedHeight, InitLayoutRows(info))
    else FrameSize(info.format, info.codedWidth, info.codedHeight)
  }

  /** The data size as the binding computes it: a layout's extent in
      size_t, where nothing wraps, but the coded frame size from the
      uint32_t coded width and height, in uint32_t. */
  function DataSizeAsWritten(info: FrameInfo): nat
  {
    if info.layout.Some? && info.layout.value != [] then
      LayoutExtent(info.layout.value, info.codedHeight, InitLayoutRows(info))
    else FrameSizeU32(info.format, info.codedWidth, info.codedHeight)
  }

  /** Below 2^30 coded pixels the two sizes agree. */
  lemma DataSizeAgrees(info: FrameInfo)
    requires info.codedWidth * info.codedHeight < 0x4000_0000
    ensures DataSizeAsWritten(info) == DataSize(info)
  {
    FrameSizeU32Agrees(info.format, info.codedWidth, info.codedHeight);
  }

  /** The planes calculate_plane_info places, from width and height,
      all lie inside `dataLen` bytes. */
  predicate PlanesInside(info: FrameInfo, dataLen: nat)
  {
    Total(PlaneInfoOf(info.format, info.width, info.height).sizes) <= dataLen
  }

  /** The constructor's checks as the binding makes them. */
  function CheckFrameAsWritten(dataLen: nat, init: FrameInit): (r: Result<FrameInfo>)
    ensures InitInfo(init).Err? ==> r == Err(InitInfo(init).error)
    ensures r.Ok? <==> InitInfo(init).Ok? && dataLen == DataSizeAsWritten(InitInfo(init).value)
    ensures r.Ok? ==> r.value == InitInfo(init).value
  {
    var info :- InitInfo(init);
    if dataLen != DataSizeAsWritten(info) then Err(DATA_SIZE_MISMATCH) else Ok(info)
  }

  /** The constructor's checks as they are meant: the data holds exactly
      the frame size, computed without wrap-around, and the planes, laid
      out by the visible size, lie inside it (the check the binding
      lacks). */
  function CheckFrame(dataLen: nat, init: FrameInit): (r: Result<FrameInfo>)
    ensures InitInfo(init).Err? ==> r == Err(InitInfo(init).error)
    ensures InitInfo(init).Ok? && dataLen != DataSize(InitInfo(init).value) ==> r == Err(DATA_SIZE_MISMATCH)
    ensures r.Ok? <==> InitInfo(init).Ok? && dataLen == DataSize(InitInfo(init).value) &&
                       PlanesInside(InitInfo(init).value, dataLen)
    ensures r.Ok? ==> r.value == InitInfo(init).value
  {
    var info :- InitInfo(init);
    if dataLen != DataSize(info) then Err(DATA_SIZE_MISMATCH)
    else if !PlanesInside(info, dataLen) then Err(PLANES_OUTSIDE_DATA)
    else Ok(info)
  }

  /** Below 2^30 coded pixels the corrected check accepts exactly what the
      binding's check accepts with the planes inside the data, and refuses
      with the binding's error whatever the binding refuses. */
  lemma CheckFrameRefinesAsWritten(dataLen: nat, init: FrameInit)
    requires InitInfo(init).Ok? && InitInfo(init).value.codedWidth * InitInfo(init).value.codedHeight < 0x4000_0000
    ensures CheckFrame(dataLen, init).Ok? <==>
            CheckFrameAsWritten(dataLen, init).Ok? && PlanesInside(InitInfo(init).value, dataLen)
    ensures CheckFrameAsWritten(dataLen, init).Err? ==> CheckFrame(dataLen, init) == CheckFrameAsWritten(dataLen, init)
  {
    DataSizeAgrees(InitInfo(init).value);
  }

  /** A 65536 x 32768 I420 frame needs 0xC000_0000 bytes, but the binding
      computes 0x4000_0000 in uint32_t and accepts a buffer of that size;
      the corrected check refuses it. */
  lemma CodedSizeWrapAccepted()
    ensures var init := FrameInit(Some(ByValue(I420)), Some(65536), Some(32768), Some(0), None, None, None,
                                  None, None, None, None, None, None);
      CheckFrameAsWritten(0x4000_0000, init).Ok? && CheckFrame(0x4000_0000, init) == Err(DATA_SIZE_MISMATCH)
  {
    FrameSizeU32Wraps();
  }

  /** A 32768 x 32768 I420 frame with a buffer of its exact size passes
      both checks, yet the binding's plane table (PlaneInfoU32) puts the V
      plane at 0x10000000, inside the luma plane, where the exact table has
      0x50000000: plane(2) and both copy_to paths read luma bytes for V. */
  lemma PlaneOffsetWrapAccepted()
    ensures var init := FrameInit(Some(ByValue(I420)), Some(32768), Some(32768), Some(0), None, None, None,
                                  None, None, None, None, None, None);
      CheckFrameAsWritten(0x6000_0000, init).Ok? && CheckFrame(0x6000_0000, init).Ok? &&
      PlaneInfoU32(I420, 32768, 32768).offsets[2] == 0x1000_0000 &&
      PlaneInfoOf(I420, 32768, 32768).offsets[2] == 0x5000_0000
  {
    var init := FrameInit(Some(ByValue(I420)), Some(32768), Some(32768), Some(0), None, None, None,
                          None, None, None, None, None, None);
    I420PlaneOffsetWraps(32768, 32768);
    PlaneInfoFillsFrame(I420, 32768, 32768);
    var info := InitInfo(init).value;
    assert info.format == I420 && info.layout.None?;
    assert info.width == info.codedWidth == 32768 && info.height == info.codedHeight == 32768;
  }

  /** An I420 frame with 2 x 2 coded pixels (6 bytes) and a 4 x 4 visible
      rectangle passes the binding's checks, yet its planes, laid out for
      4 x 4 pixels, need 24 bytes. */
  lemma VisibleRectOutsideData()
    ensures var init := FrameInit(Some(ByValue(I420)), Some(2), Some(2), Some(0), None, None, Some(Rect(0, 0, 4, 4)),
                                  None, None, None, None, None, None);
      CheckFrameAsWritten(6, init).Ok? && !PlanesInside(CheckFrameAsWritten(6, init).value, 6) &&
      CheckFrame(6, init) == Err(PLANES_OUTSIDE_DATA)
  {
    var init := FrameInit(Some(ByValue(I420)), Some(2), Some(2), Some(0), None, None, Some(Rect(0, 0, 4, 4)),
                          None, None, None, None, None, None);
    var info := InitInfo(init).value;
    Total3(16, 4, 4);
    assert PlaneInfoOf(I420, 4, 4).sizes == [16, 4, 4];
  }

  /** Without a custom layout the data holds exactly one coded frame. */
  lemma CheckFrameSize(dataLen: nat, init: FrameInit)
    requires CheckFrame(dataLen, init).Ok?
    requires init.layout.None? || init.layout.value == []
    ensures var info := CheckFrame(dataLen, init).value;
      dataLen == FrameSize(info.format, info.codedWidth, info.codedHeight) &&
      forall i :: 0 <= i < PlaneCount(info.format) ==>
        PlaneInfoOf(info.format, info.width, info.height).offsets[i] +
        PlaneInfoOf(info.format, info.width, info.height).sizes[i] <= dataLen
  {
    var info := CheckFrame(dataLen, init).value;
    PlaneInfoTiles(info.format, info.width, info.height);
  }

  /** The planes of a frame clone allocates: laid out by the visible size
      and sized by it too, while the binding then copies every byte of the
      original, whose size follows the coded size. */
  function CloneBufferAsWritten(info: FrameInfo): nat
  {
    FrameSizeU32(info.format, info.width, info.height)
  }

  /** An I420 frame with 4 x 4 coded pixels (24 bytes) showing a 2 x 2
      rectangle is accepted, and clone copies its 24 bytes into a 6-byte
      buffer. */
  lemma CloneOverflowsAsWritten()
    ensures var init := FrameInit(Some(ByValue(I420)), Some(4), Some(4), Some(0), None, None, Some(Rect(0, 0, 2, 2)),
                                  None, None, None, None, None, None);
      CheckFrame(24, init).Ok? && CloneBufferAsWritten(CheckFrame(24, init).value) == 6
  {
    Total3(4, 1, 1);
    assert PlaneInfoOf(I420, 2, 2).sizes == [4, 1, 1];
  }

  /** Options of allocation_size and copy_to, each present or absent. */
  datatype CopyOptions = CopyOptions(rect: Option<Rect>, layout: Option<seq<PlaneLayout>>, format: Option<FormatValue>)

  datatype ParsedOptions = ParsedOptions(rect: Option<Rect>, layout: Option<seq<PlaneLayout>>, format: Option<PixelFormat>)

  /** parse_copy_to_options: only a format name can fail. */
  function ParseCopyOptions(o: CopyOptions): (r: Result<ParsedOptions>)
    ensures r.Ok? <==> (o.format.Some? ==> FormatOf(o.format.value).Ok?)
    ensures r.Err? ==> r == Err(FormatOf(o.format.value).error)
    ensures r.Ok? ==> r.value.rect == o.rect && r.value.layout == o.layout &&
                      (o.format.None? ==> r.value.format.None?) &&
                      (o.format.Some? ==> r.value.format == Some(FormatOf(o.format.value).value))
  {
    if o.format.None? then Ok(ParsedOptions(o.rect, o.layout, None))
    else
      var f :- FormatOf(o.format.value);
      Ok(ParsedOptions(o.rect, o.layout, Some(f)))
  }

  /** What allocation_size(options) reports: the frame size of the rect,
      else the extent of the layout, else the frame size of the coded
      frame, all in the requested format and all in uint32_t, as the
      binding computes them. */
  function AllocationSizeFor(info: FrameInfo, o: ParsedOptions): nat
  {
    var target := o.format.UnwrapOr(info.format);
    if o.rect.Some? then FrameSizeU32(target, o.rect.value.width, o.rect.value.height)
    else if o.layout.Some? && o.layout.value != [] then
      LayoutExtentU32(o.layout.value, info.codedHeight,
                      if target == I420 || target == NV12 then info.codedHeight / 2 else info.codedHeight)
    else FrameSizeU32(target, info.codedWidth, info.codedHeight)
  }

  /** A layout's allocation size covers every one of its planes whose end
      fits in 32 bits, and is the layout's extent when all of them do. */
  lemma AllocationCoversLayout(info: FrameInfo, o: ParsedOptions)
    requires o.rect.None? && o.layout.Some? && o.layout.value != []
    ensures var target := o.format.UnwrapOr(info.format);
      var others := if target == I420 || target == NV12 then info.codedHeight / 2 else info.codedHeight;
      forall i :: 0 <= i < |o.layout.value| && PlaneEnd(o.layout.value[i], LayoutRows(i, info.codedHeight, others)) < U32_LIMIT ==>
        PlaneEnd(o.layout.value[i], LayoutRows(i, info.codedHeight, others)) <= AllocationSizeFor(info, o)
    ensures var target := o.format.UnwrapOr(info.format);
      var others := if target == I420 || target == NV12 then info.codedHeight / 2 else info.codedHeight;
      (forall i :: 0 <= i < |o.layout.value| ==> PlaneEnd(o.layout.value[i], LayoutRows(i, info.codedHeight, others)) < U32_LIMIT) ==>
        AllocationSizeFor(info, o) == LayoutExtent(o.layout.value, info.codedHeight, others)
  {
    var target := o.format.UnwrapOr(info.format);
    var others := if target == I420 || target == NV12 then info.codedHeight / 2 else info.codedHeight;
    LayoutExtentU32Covers(o.layout.value, info.codedHeight, others);
    if forall i :: 0 <= i < |o.layout.value| ==> PlaneEnd(o.layout.value[i], LayoutRows(i, info.codedHeight, others)) < U32_LIMIT {
      LayoutExtentU32Agrees(o.layout.value, info.codedHeight, others);
    }
  }

  /** The outcome of copy_to(destination, options): the destination layout
      of a copy, or the format a conversion was handed. */
  datatype CopyOutcome = Copied(layouts: seq<PlaneLayout>) | Converted(target: PixelFormat)

  /** The rectangle a copy covers: the option's, else the coded frame. */
  function CopyRect(info: FrameInfo, o: ParsedOptions): Rect
  {
    o.rect.UnwrapOr(Rect(0, 0, info.codedWidth, info.codedHeight))
  }

  /** The checks of copy_to(destination, options), in order, with the two
      the binding lacks: the rectangle must lie inside the planes with no
      32-bit wrap, and every destination row must be as long as the row
      it receives. */
  function CopyCheck(info: FrameInfo, o: ParsedOptions, destLen: nat): (r: Result<CopyOutcome>)
  {
    var f := info.format;
    var target := o.format.UnwrapOr(f);
    var rect := CopyRect(info, o);
    if target != f then Ok(Converted(target))
    else if !IsPlanar(f) then Err(COPY_FORMAT_UNSUPPORTED)
    else if !RectInside(rect, info.codedWidth, info.codedHeight, info.width, info.height) then Err(RECT_OUTSIDE)
    else
      var ls := RectLayouts(f, rect, o.layout);
      if destLen < RectCopySize(f, rect, ls) then Err(DESTINATION_TOO_SMALL)
      else if !StridesCover(f, rect, ls) then Err(STRIDE_TOO_SMALL)
      else Ok(Copied(ls))
  }

  /** A copy the checks let through reads only the frame's data and writes
      only the destination. */
  lemma CopyCheckInside(info: FrameInfo, o: ParsedOptions, dataLen: nat, destLen: nat)
    requires PlanesInside(info, dataLen)
    requires CopyCheck(info, o, destLen).Ok? && CopyCheck(info, o, destLen).value.Copied?
    ensures IsPlanar(info.format) && |CopyCheck(info, o, destLen).value.layouts| >= CopiedPlanes(info.format)
    ensures PlanInside(RectPlan(info.format, info.width, PlaneInfoOf(info.format, info.width, info.height).offsets,
                                CopyRect(info, o), CopyCheck(info, o, destLen).value.layouts), dataLen, destLen)
  {
    PlaneInfoTiles(info.format, info.width, info.height);
    RectPlanInside(info.format, info.width, info.height, CopyRect(info, o), CopyCheck(info, o, destLen).value.layouts,
                   dataLen, destLen);
  }

  /** A destination of allocation_size(options) bytes is always large
      enough for copy_to(options) into the default layout. */
  lemma AllocationSizeSuffices(info: FrameInfo, o: ParsedOptions, destLen: nat)
    requires IsPlanar(info.format) && o.format.UnwrapOr(info.format) == info.format && o.layout.None?
    requires RectInside(CopyRect(info, o), info.codedWidth, info.codedHeight, info.width, info.height)
    requires DefaultRectBytes(info.format, CopyRect(info, o)) < U32_LIMIT
    requires CopyRect(info, o).width * CopyRect(info, o).height < 0x4000_0000
    requires destLen >= AllocationSizeFor(info, o)
    ensures CopyCheck(info, o, destLen) == Ok(Copied(DefaultRectLayouts(info.format, CopyRect(info, o))))
  {
    var f, rect := info.format, CopyRect(info, o);
    FrameSizeU32Agrees(f, rect.width, rect.height);
    DefaultRectCopySize(f, rect);
    DefaultRectBytesFit(f, rect);
    DefaultRectLayoutsPacked(f, info.width, PlaneInfoOf(f, info.width, info.height).offsets, rect);
    assert AllocationSizeFor(info, o) == FrameSize(f, rect.width, rect.height);
  }

  /** What a copy into the default layout leaves in the destination: row r,
      column k of copied plane i holds the frame's pixel at row (rect row
      + r), column (rect column + k) of that plane. */
  lemma DefaultCopyPixel(d: seq<byte>, data: seq<byte>, info: FrameInfo, o: ParsedOptions, i: nat, r: nat, k: nat)
    requires PlanesInside(info, |data|) && o.layout.None?
    requires CopyCheck(info, o, |d|).Ok? && CopyCheck(info, o, |d|).value.Copied?
    requires DefaultRectBytes(info.format, CopyRect(info, o)) < U32_LIMIT
    requires i < CopiedPlanes(info.format)
    requires r < SourceRegionOf(info.format, info.width, CopyRect(info, o), i).rows
    requires k < SourceRegionOf(info.format, info.width, CopyRect(info, o), i).cols
    ensures var f, rect, offsets := info.format, CopyRect(info, o), PlaneInfoOf(info.format, info.width, info.height).offsets;
      var ls := DefaultRectLayouts(f, rect);
      CopyCheck(info, o, |d|).value.layouts == ls &&
      |offsets| >= CopiedPlanes(f) && DestIndex(ls[i], r, k) < |d| && SourceIndex(f, info.width, offsets, rect, i, r, k) < |data| &&
      PlanInside(RectPlan(f, info.width, offsets, rect, ls), |data|, |d|) &&
      ApplyCopies(d, data, RectPlan(f, info.width, offsets, rect, ls))[DestIndex(ls[i], r, k)] ==
        data[SourceIndex(f, info.width, offsets, rect, i, r, k)]
  {
    var f, rect, offsets := info.format, CopyRect(info, o), PlaneInfoOf(info.format, info.width, info.height).offsets;
    var ls := DefaultRectLayouts(f, rect);
    CopyCheckInside(info, o, |data|, |d|);
    DefaultRectLayoutsPacked(f, info.width, offsets, rect);
    RectCopyCell(d, data, f, info.width, offsets, rect, ls, i, r, k);
  }

  /** The layouts copy_to(destination) reports: the planes packed from 0,
      each row as wide as the plane's (4 or 3 bytes a pixel when packed). */
  function PackedLayouts(f: PixelFormat, w: nat, sizes: seq<nat>): seq<PlaneLayout>
    requires |sizes| == PlaneCount(f)
  {
    match f
    case RGBA | BGRA => [PlaneLayout(0, U32(w * 4))]
    case RGB | BGR => [PlaneLayout(0, U32(w * 3))]
    case NV12 => [PlaneLayout(0, U32(w)), PlaneLayout(U32(sizes[0]), U32(w))]
    case _ =>
      var uvStride := ChromaCols(f, w);
      [PlaneLayout(0, U32(w)), PlaneLayout(U32(sizes[0]), U32(uvStride)), PlaneLayout(U32(sizes[0] + sizes[1]), U32(uvStride))]
  }

  /** The reported layouts name one plane per plane of the frame, at the
      frame's own plane offsets as long as they fit in 32 bits. */
  lemma PackedLayoutsAtPlanes(f: PixelFormat, w: nat, h: nat)
    requires Total(PlaneInfoOf(f, w, h).sizes) < U32_LIMIT
    ensures var p := PlaneInfoOf(f, w, h);
      |p.sizes| == PlaneCount(f) &&
      |PackedLayouts(f, w, p.sizes)| == PlaneCount(f) &&
      forall i :: 0 <= i < PlaneCount(f) ==> PackedLayouts(f, w, p.sizes)[i].offset == p.offsets[i]
  {
    PlaneInfoTiles(f, w, h);
  }

  /** A view of one plane: where it starts in the frame's data and its
      shape. */
  datatype PlaneView = PlaneView(offset: nat, rows: nat, cols: nat)

  class VideoFrame {
    var info: FrameInfo
    var closed: bool
    var data: seq<byte>
    var planeOffsets: seq<nat>
    var planeSizes: seq<nat>

    /** The planes are those of the visible size; an open frame holds the
        bytes its constructor demanded and its planes lie inside them; a
        closed one holds nothing. */
    ghost predicate Valid()
      reads this
    {
      planeOffsets == PlaneInfoOf(info.format, info.width, info.height).offsets &&
      planeSizes == PlaneInfoOf(info.format, info.width, info.height).sizes &&
      (closed ==> data == []) &&
      (!closed ==> |data| == DataSize(info) && PlanesInside(info, |data|))
    }

    constructor (data: seq<byte>, info: FrameInfo)
      requires |data| == DataSize(info) && PlanesInside(info, |data|)
      ensures Valid() && !closed && this.info == info && this.data == data
    {
      this.info := info;
      this.closed := false;
      this.data := data;
      var p := PlaneInfoOf(info.format, info.width, info.height);
      this.planeOffsets := p.offsets;
      this.planeSizes := p.sizes;
    }

    /** The dictionary constructor: its checks, then a frame owning a copy
        of the data. */
    static method Create(data: seq<byte>, init: FrameInit) returns (r: Result<VideoFrame>)
      ensures r.Ok? <==> CheckFrame(|data|, init).Ok?
      ensures r.Err? ==> CheckFrame(|data|, init) == Err(r.error)
      ensures r.Ok? ==> fresh(r.value) && r.value.Valid() && !r.value.closed &&
                        r.value.info == CheckFrame(|data|, init).value && r.value.data == data
    {
      var info :- InitInfo(init);
      var size: nat;
      if info.layout.Some? && info.layout.value != [] {
        size := ComputeLayoutExtent(info.layout.value, info.codedHeight, InitLayoutRows(info));
      } else {
        size := FrameSize(info.format, info.codedWidth, info.codedHeight);
      }
      if |data| != size {
        return Err(DATA_SIZE_MISMATCH);
      }
      var total := SumSizes(PlaneInfoOf(info.format, info.width, info.height).sizes);
      if total > |data| {
        return Err(PLANES_OUTSIDE_DATA);
      }
      var frame := new VideoFrame(data, info);
      return Ok(frame);
    }

    /** close: release the data; closing again changes nothing. */
    method Close()
      requires Valid()
      modifies this
      ensures Valid() && closed && data == []
      ensures info == old(info) && planeOffsets == old(planeOffsets) && planeSizes == old(planeSizes)
    {
      if !closed {
        data := [];
        closed := true;
      }
    }

    method SetDuration(duration: nat)
      requires Valid()
      modifies this
      ensures Valid() && info == old(info).(duration := duration)
      ensures closed == old(closed) && data == old(data)
    {
      info := info.(duration := duration);
    }

    /** allocation_size(): the frame size of the coded frame in uint32_t
        (asked even of a closed frame); below 2^30 coded pixels it is the
        data size of a frame built without a custom layout. */
    method AllocationSize() returns (size: nat)
      requires Valid()
      ensures size == AllocationSizeFor(info, ParsedOptions(None, None, None))
      ensures size < U32_LIMIT
      ensures !closed && (info.layout.None? || info.layout.value == []) && info.codedWidth * info.codedHeight < 0x4000_0000 ==>
                size == |data|
    {
      size := FrameSizeU32(info.format, info.codedWidth, info.codedHeight);
      if info.codedWidth * info.codedHeight < 0x4000_0000 {
        FrameSizeU32Agrees(info.format, info.codedWidth, info.codedHeight);
      }
    }

    /** allocation_size(options). */
    method AllocationSizeWithOptions(options: CopyOptions) returns (r: Result<nat>)
      requires Valid()
      ensures closed ==> r == Err(FRAME_CLOSED)
      ensures !closed && ParseCopyOptions(options).Err? ==> r == Err(ParseCopyOptions(options).error)
      ensures !closed && ParseCopyOptions(options).Ok? ==> r == Ok(AllocationSizeFor(info, ParseCopyOptions(options).value))
    {
      if closed {
        return Err(FRAME_CLOSED);
      }
      var o :- ParseCopyOptions(options);
      var target := o.format.UnwrapOr(info.format);
      if o.rect.Some? {
        return Ok(FrameSizeU32(target, o.rect.value.width, o.rect.value.height));
      }
      if o.layout.Some? && o.layout.value != [] {
        var others := if target == I420 || target == NV12 then info.codedHeight / 2 else info.codedHeight;
        var size := ComputeLayoutExtentU32(o.layout.value, info.codedHeight, others);
        return Ok(size);
      }
      return Ok(FrameSizeU32(target, info.codedWidth, info.codedHeight));
    }

    /** plane(i): a view of plane i, which lies inside the frame's data. */
    method Plane(i: int) returns (r: Result<PlaneView>)
      requires Valid()
      ensures closed ==> r == Err(FRAME_CLOSED)
      ensures !closed && (i < 0 || i >= PlaneCount(info.format)) ==> r == Err(INVALID_PLANE_INDEX)
      ensures r.Ok? <==> !closed && 0 <= i < PlaneCount(info.format)
      ensures r.Ok? ==> r.value.offset == planeOffsets[i] &&
                        (r.value.rows, r.value.cols) == PlaneShape(info.format, info.width, info.height, i) &&
                        r.value.offset + r.value.rows * r.value.cols <= |data|
    {
      if closed {
        return Err(FRAME_CLOSED);
      }
      PlaneInfoTiles(info.format, info.width, info.height);
      if i < 0 || i >= |planeOffsets| {
        return Err(INVALID_PLANE_INDEX);
      }
      var shape := PlaneShape(info.format, info.width, info.height, i);
      PlaneShapeInside(info.format, info.width, info.height, i);
      PlaneWithinTotal(info.format, info.width, info.height, i);
      return Ok(PlaneView(planeOffsets[i], shape.0, shape.1));
    }

    /** clone: an independent frame with the same description and the same
        bytes. */
    method Clone() returns (r: Result<VideoFrame>)
      requires Valid()
      ensures closed ==> r == Err(FRAME_CLOSED)
      ensures !closed ==> r.Ok? && fresh(r.value) && r.value.Valid() && !r.value.closed &&
                          r.value.info == info && r.value.data == data
    {
      if closed {
        return Err(FRAME_CLOSED);
      }
      var copy := new VideoFrame(data, info);
      return Ok(copy);
    }

    /** copy_to(destination): every plane, one after another from the
        start of the destination, which must hold them all; the rest of
        the destination is untouched. */
    method CopyTo(dest: array<byte>) returns (r: Result<seq<PlaneLayout>>)
      requires Valid()
      modifies dest
      ensures closed ==> r == Err(FRAME_CLOSED)
      ensures !closed ==> (r.Err? <==> dest.Length < Total(planeSizes))
      ensures !closed && r.Err? ==> r.error == DESTINATION_TOO_SMALL
      ensures r.Err? ==> dest[..] == old(dest[..])
      ensures r.Ok? ==> Total(planeSizes) <= |data| && Total(planeSizes) <= dest.Length &&
                        dest[..] == data[..Total(planeSizes)] + old(dest[..])[Total(planeSizes)..]
      ensures r.Ok? ==> r.value == PackedLayouts(info.format, info.width, planeSizes)
    {
      if closed {
        return Err(FRAME_CLOSED);
      }
      var required := SumSizes(planeSizes);
      if dest.Length < required {
        return Err(DESTINATION_TOO_SMALL);
      }
      PlaneInfoTiles(info.format, info.width, info.height);
      CopyPacked(dest, data, planeSizes, required);
      return Ok(PackedLayouts(info.format, info.width, planeSizes));
    }

    /** copy_to(destination, options): a conversion is handed on; else the
        rectangle's rows of every plane are copied into the layout the
        checks accepted, and nothing else of the destination changes. */
    method CopyToWithOptions(dest: array<byte>, options: CopyOptions) returns (r: Result<CopyOutcome>)
      requires Valid()
      modifies dest
      ensures closed ==> r == Err(FRAME_CLOSED)
      ensures !closed && ParseCopyOptions(options).Err? ==> r == Err(ParseCopyOptions(options).error)
      ensures !closed && ParseCopyOptions(options).Ok? ==> r == CopyCheck(info, ParseCopyOptions(options).value, dest.Length)
      ensures r.Ok? && r.value.Copied? ==>
        IsPlanar(info.format) && |r.value.layouts| >= CopiedPlanes(info.format) &&
        PlanInside(RectPlan(info.format, info.width, planeOffsets, CopyRect(info, ParseCopyOptions(options).value), r.value.layouts),
                   |data|, dest.Length) &&
        dest[..] == ApplyCopies(old(dest[..]), data,
                                RectPlan(info.format, info.width, planeOffsets, CopyRect(info, ParseCopyOptions(options).value), r.value.layouts))
      ensures !(r.Ok? && r.value.Copied?) ==> dest[..] == old(dest[..])
    {
      if closed {
        return Err(FRAME_CLOSED);
      }
      var o :- ParseCopyOptions(options);
      var f := info.format;
      var target := o.format.UnwrapOr(f);
      var rect := CopyRect(info, o);
      if target != f {
        return Ok(Converted(target));
      }
      if !IsPlanar(f) {
        return Err(COPY_FORMAT_UNSUPPORTED);
      }
      if !RectInside(rect, info.codedWidth, info.codedHeight, info.width, info.height) {
        return Err(RECT_OUTSIDE);
      }
      var ls := RectLayouts(f, rect, o.layout);
      var required := ComputeLayoutExtent(CheckedLayouts(f, ls), rect.height, ChromaRows(f, rect.height));
      if dest.Length < required {
        return Err(DESTINATION_TOO_SMALL);
      }
      if !StridesCover(f, rect, ls) {
        return Err(STRIDE_TOO_SMALL);
      }
      CopyCheckInside(info, o, |data|, dest.Length);
      CopyPlanes(dest, data, RectPlan(f, info.width, planeOffsets, rect, ls));
      return Ok(Copied(ls));
    }
  }

  /** The plane copies of copy_to(destination): each of the (up to three)
      planes, one memcpy each, right after the previous one, until all
      `total` bytes of the planes are copied. */
  method CopyPacked(dest: array<byte>, data: seq<byte>, sizes: seq<nat>, total: nat)
    requires 1 <= |sizes| <= 3 && total == Total(sizes) && total <= |data| && total <= dest.Length
    modifies dest
    ensures dest[..] == data[..total] + old(dest[..])[total..]
  {
    ghost var d0 := dest[..];
    TotalOfFew(sizes);
    NothingCopied(data, d0);
    if |sizes| == 1 {
      CopyNextPlane(dest, data, d0, 0, total);
    } else if |sizes| == 2 {
      CopyNextPlane(dest, data, d0, 0, sizes[0]);
      CopyNextPlane(dest, data, d0, sizes[0], total);
    } else {
      CopyNextPlane(dest, data, d0, 0, sizes[0]);
      CopyNextPlane(dest, data, d0, sizes[0], sizes[0] + sizes[1]);
      CopyNextPlane(dest, data, d0, sizes[0] + sizes[1], total);
    }
  }

  lemma NothingCopied(data: seq<byte>, d: seq<byte>)
    ensures data[..0] + d[0..] == d
  {
  }

  lemma TotalOfFew(sizes: seq<nat>)
    requires 1 <= |sizes| <= 3
    ensures |sizes| == 1 ==> Total(sizes) == sizes[0]
    ensures |sizes| == 2 ==> Total(sizes) == sizes[0] + sizes[1]
    ensures |sizes| == 3 ==> Total(sizes) == sizes[0] + sizes[1] + sizes[2]
  {
    if |sizes| == 1 {
      Total3(sizes[0], 0, 0);
      assert sizes == [sizes[0]];
    } else if |sizes| == 2 {
      Total3(sizes[0], sizes[1], 0);
      assert sizes == [sizes[0], sizes[1]];
    } else {
      Total3(sizes[0], sizes[1], sizes[2]);
      assert sizes == [sizes[0], sizes[1], sizes[2]];
    }
  }

  /** One memcpy of copy_to(destination): bytes `from` to `to` of the data,
      the next plane, go right after the `from` bytes already copied. */
  method CopyNextPlane(dest: array<byte>, data: seq<byte>, ghost d0: seq<byte>, from: nat, to: nat)
    requires from <= to <= |data| && to <= |d0| == dest.Length
    requires dest[..] == data[..from] + d0[from..]
    modifies dest
    ensures dest[..] == data[..to] + d0[to..]
  {
    ghost var before := dest[..];
    Memcpy(dest, from, data[from..to]);
    WriteRowPrefix(d0, data, before, from, to - from);
  }

  /** The sum the binding forms over the plane sizes. */
  method SumSizes(sizes: seq<nat>) returns (total: nat)
    ensures total == Total(sizes)
  {
    total := 0;
    var i := 0;
    while i < |sizes|
      invariant i <= |sizes|
      invariant total == Total(sizes[..i])
    {
      assert sizes[..i + 1][..i] == sizes[..i];
      total := total + sizes[i];
      i := i + 1;
    }
    assert sizes[..i] == sizes;
  }
}
