/** Row-by-row copies from a frame's bytes into a destination buffer: the
    memcpy loops of VideoFrame::copy_to, and what they leave behind in the
    destination. */
module PlaneCopy {
  import opened Bytes

  /** `rows` rows of `cols` bytes each. Source rows start `srcStride` bytes
      apart from `srcOffset`; destination rows start `dstStride` bytes apart
      from `dstOffset`. */
  datatype RowCopy = RowCopy(srcOffset: nat, srcStride: nat, dstOffset: nat, dstStride: nat, rows: nat, cols: nat)

  /** Where row r begins: base + r stride, built up row by row so that the
      proofs below never multiply. */
  function RowStart(base: nat, stride: nat, r: nat): (p: nat)
    ensures base <= p
  {
    if r == 0 then base else RowStart(base, stride, r - 1) + stride
  }

  /** A later row begins at least one stride after an earlier one. */
  lemma {:induction false} RowStartAfter(base: nat, stride: nat, r1: nat, r2: nat)
    requires r1 < r2
    ensures RowStart(base, stride, r1) + stride <= RowStart(base, stride, r2)
    decreases r2
  {
    if r1 + 1 < r2 {
      RowStartAfter(base, stride, r1, r2 - 1);
    }
  }

  /** RowStart is the product it stands for. */
  lemma {:induction false} RowStartIs(base: nat, stride: nat, r: nat)
    ensures RowStart(base, stride, r) == base + r * stride
  {
    if r > 0 {
      RowStartIs(base, stride, r - 1);
    }
  }

  /** Every row read lies inside a source of srcLen bytes, and every row
      written lies inside a destination of dstLen bytes. This is what each
      memcpy needs. */
  predicate CopyInside(c: RowCopy, srcLen: nat, dstLen: nat)
  {
    c.rows == 0 ||
    (RowStart(c.srcOffset, c.srcStride, c.rows - 1) + c.cols <= srcLen &&
     RowStart(c.dstOffset, c.dstStride, c.rows - 1) + c.cols <= dstLen)
  }

  /** The end of the destination region of a copy whose rows do not overlap. */
  function RegionEnd(c: RowCopy): nat
  {
    RowStart(c.dstOffset, c.dstStride, c.rows)
  }

  /** Row `row` of a copy that stays inside lies inside on both sides. */
  lemma RowInside(c: RowCopy, row: nat, srcLen: nat, dstLen: nat)
    requires CopyInside(c, srcLen, dstLen) && row < c.rows
    ensures RowStart(c.srcOffset, c.srcStride, row) + c.cols <= srcLen
    ensures RowStart(c.dstOffset, c.dstStride, row) + c.cols <= dstLen
  {
    if row < c.rows - 1 {
      RowStartAfter(c.srcOffset, c.srcStride, row, c.rows - 1);
      RowStartAfter(c.dstOffset, c.dstStride, row, c.rows - 1);
    }
  }

  /** Byte k of row r of a copy whose rows do not overlap lies inside its
      region. */
  lemma CellInRegion(c: RowCopy, r: nat, k: nat)
    requires r < c.rows && k < c.cols <= c.dstStride
    ensures c.dstOffset <= RowStart(c.dstOffset, c.dstStride, r) + k < RegionEnd(c)
  {
    RowStartAfter(c.dstOffset, c.dstStride, r, c.rows);
  }

  /** d with the |bytes| bytes from `at` replaced by `bytes`: one memcpy. */
  function WriteRow(d: seq<byte>, at: nat, bytes: seq<byte>): (r: seq<byte>)
    requires at + |bytes| <= |d|
    ensures |r| == |d|
    decreases |bytes|
  {
    if bytes == [] then d else WriteRow(d[at := bytes[0]], at + 1, bytes[1..])
  }

  /** The bytes inside the written row are the new ones; every other byte
      is as it was. */
  lemma {:induction false} WriteRowAt(d: seq<byte>, at: nat, bytes: seq<byte>, j: nat)
    requires at + |bytes| <= |d| && j < |d|
    ensures at <= j < at + |bytes| ==> WriteRow(d, at, bytes)[j] == bytes[j - at]
    ensures (j < at || j >= at + |bytes|) ==> WriteRow(d, at, bytes)[j] == d[j]
    decreases |bytes|
  {
    if bytes != [] {
      WriteRowAt(d[at := bytes[0]], at + 1, bytes[1..], j);
    }
  }

  /** Writing the next n bytes of src after a copied prefix of t bytes
      extends the copied prefix to t + n bytes. */
  lemma WriteRowPrefix(d: seq<byte>, src: seq<byte>, before: seq<byte>, t: nat, n: nat)
    requires t + n <= |src| && t + n <= |d| && before == src[..t] + d[t..]
    ensures WriteRow(before, t, src[t..t + n]) == src[..t + n] + d[t + n..]
  {
    var lhs, rhs := WriteRow(before, t, src[t..t + n]), src[..t + n] + d[t + n..];
    forall j | 0 <= j < |d|
      ensures lhs[j] == rhs[j]
    {
      WriteRowAt(before, t, src[t..t + n], j);
    }
  }

  /** Writing at the start replaces the front of the buffer. */
  lemma WriteRowFront(d: seq<byte>, bytes: seq<byte>)
    requires |bytes| <= |d|
    ensures WriteRow(d, 0, bytes) == bytes + d[|bytes|..]
  {
    var w := WriteRow(d, 0, bytes);
    forall j | 0 <= j < |d|
      ensures w[j] == (bytes + d[|bytes|..])[j]
    {
      WriteRowAt(d, 0, bytes, j);
    }
  }

  /** The destination after the first n rows of c are copied, in order. */
  function RowsWritten(d: seq<byte>, src: seq<byte>, c: RowCopy, n: nat): (r: seq<byte>)
    requires n <= c.rows && CopyInside(c, |src|, |d|)
    ensures |r| == |d|
  {
    if n == 0 then d
    else
      RowInside(c, n - 1, |src|, |d|);
      var from := RowStart(c.srcOffset, c.srcStride, n - 1);
      WriteRow(RowsWritten(d, src, c, n - 1), RowStart(c.dstOffset, c.dstStride, n - 1), src[from .. from + c.cols])
  }

  /** Copying row n - 1 after the first n - 1 rows. */
  lemma RowsWrittenLast(d: seq<byte>, src: seq<byte>, c: RowCopy, n: nat, at: nat, from: nat)
    requires 0 < n <= c.rows && CopyInside(c, |src|, |d|)
    requires at == RowStart(c.dstOffset, c.dstStride, n - 1) && from == RowStart(c.srcOffset, c.srcStride, n - 1)
    ensures at + c.cols <= |d| && from + c.cols <= |src|
    ensures RowsWritten(d, src, c, n) == WriteRow(RowsWritten(d, src, c, n - 1), at, src[from .. from + c.cols])
  {
    RowInside(c, n - 1, |src|, |d|);
  }

  /** Byte k of the row copied last. */
  lemma LastRowCell(d: seq<byte>, src: seq<byte>, c: RowCopy, n: nat, k: nat)
    requires 0 < n <= c.rows && CopyInside(c, |src|, |d|) && k < c.cols
    ensures RowStart(c.dstOffset, c.dstStride, n - 1) + k < |d| && RowStart(c.srcOffset, c.srcStride, n - 1) + k < |src|
    ensures RowsWritten(d, src, c, n)[RowStart(c.dstOffset, c.dstStride, n - 1) + k] ==
            src[RowStart(c.srcOffset, c.srcStride, n - 1) + k]
  {
    var at, from := RowStart(c.dstOffset, c.dstStride, n - 1), RowStart(c.srcOffset, c.srcStride, n - 1);
    RowsWrittenLast(d, src, c, n, at, from);
    var bytes := src[from .. from + c.cols];
    WriteRowAt(RowsWritten(d, src, c, n - 1), at, bytes, at + k);
    assert bytes[k] == src[from + k];
  }

  /** When rows do not overlap, byte k of row r of the destination is byte k
      of row r of the source. */
  lemma {:induction false} RowsWrittenCell(d: seq<byte>, src: seq<byte>, c: RowCopy, n: nat, r: nat, k: nat)
    requires n <= c.rows && CopyInside(c, |src|, |d|)
    requires c.cols <= c.dstStride && r < n && k < c.cols
    ensures RowStart(c.dstOffset, c.dstStride, r) + k < |d| && RowStart(c.srcOffset, c.srcStride, r) + k < |src|
    ensures RowsWritten(d, src, c, n)[RowStart(c.dstOffset, c.dstStride, r) + k] ==
            src[RowStart(c.srcOffset, c.srcStride, r) + k]
    decreases n, 1
  {
    if r == n - 1 {
      LastRowCell(d, src, c, n, k);
    } else {
      EarlierRowKept(d, src, c, n, r, k);
    }
  }

  /** Copying row n - 1 leaves byte k of an earlier row r alone. */
  lemma EarlierRowKept(d: seq<byte>, src: seq<byte>, c: RowCopy, n: nat, r: nat, k: nat)
    requires n <= c.rows && CopyInside(c, |src|, |d|)
    requires c.cols <= c.dstStride && r < n - 1 && k < c.cols
    ensures RowStart(c.dstOffset, c.dstStride, r) + k < |d| && RowStart(c.srcOffset, c.srcStride, r) + k < |src|
    ensures RowsWritten(d, src, c, n)[RowStart(c.dstOffset, c.dstStride, r) + k] ==
            src[RowStart(c.srcOffset, c.srcStride, r) + k]
    decreases n, 0
  {
    RowsWrittenCell(d, src, c, n - 1, r, k);
    RowStartAfter(c.dstOffset, c.dstStride, r, n - 1);
    RowsWrittenBefore(d, src, c, n, RowStart(c.dstOffset, c.dstStride, r) + k);
  }

  /** Copying row n - 1 leaves every byte before it alone. */
  lemma RowsWrittenBefore(d: seq<byte>, src: seq<byte>, c: RowCopy, n: nat, j: nat)
    requires 0 < n <= c.rows && CopyInside(c, |src|, |d|)
    requires j < RowStart(c.dstOffset, c.dstStride, n - 1)
    ensures j < |d| ==> RowsWritten(d, src, c, n)[j] == RowsWritten(d, src, c, n - 1)[j]
  {
    var at, from := RowStart(c.dstOffset, c.dstStride, n - 1), RowStart(c.srcOffset, c.srcStride, n - 1);
    RowsWrittenLast(d, src, c, n, at, from);
    if j < |d| {
      WriteRowAt(RowsWritten(d, src, c, n - 1), at, src[from .. from + c.cols], j);
    }
  }

  /** Copying the first n rows changes nothing outside the first n strides
      from dstOffset. */
  lemma {:induction false} RowsWrittenOutside(d: seq<byte>, src: seq<byte>, c: RowCopy, n: nat, j: nat)
    requires n <= c.rows && CopyInside(c, |src|, |d|)
    requires c.cols <= c.dstStride && j < |d|
    requires j < c.dstOffset || j >= RowStart(c.dstOffset, c.dstStride, n)
    ensures RowsWritten(d, src, c, n)[j] == d[j]
  {
    if n > 0 {
      var at, from := RowStart(c.dstOffset, c.dstStride, n - 1), RowStart(c.srcOffset, c.srcStride, n - 1);
      var prev := RowsWritten(d, src, c, n - 1);
      RowsWrittenLast(d, src, c, n, at, from);
      assert j < at || j >= at + c.cols;
      WriteRowAt(prev, at, src[from .. from + c.cols], j);
      RowsWrittenOutside(d, src, c, n - 1, j);
      assert prev[j] == d[j];
    }
  }

  /** memcpy(dst + at, bytes, |bytes|) */
  method Memcpy(dst: array<byte>, at: nat, bytes: seq<byte>)
    requires at + |bytes| <= dst.Length
    modifies dst
    ensures dst[..] == WriteRow(old(dst[..]), at, bytes)
  {
    ghost var before := dst[..];
    forall k | 0 <= k < |bytes| {
      dst[at + k] := bytes[k];
    }
    forall j | 0 <= j < dst.Length
      ensures dst[..][j] == WriteRow(before, at, bytes)[j]
    {
      WriteRowAt(before, at, bytes, j);
      if at <= j < at + |bytes| {
        assert dst[at + (j - at)] == bytes[j - at];
      }
    }
  }

  /** The row loop of copy_to: one memcpy per row. */
  method CopyRows(dst: array<byte>, src: seq<byte>, c: RowCopy)
    requires CopyInside(c, |src|, dst.Length)
    modifies dst
    ensures dst[..] == RowsWritten(old(dst[..]), src, c, c.rows)
  {
    ghost var d0 := dst[..];
    var row, at, from := 0, c.dstOffset, c.srcOffset;
    while row < c.rows
      invariant row <= c.rows
      invariant at == RowStart(c.dstOffset, c.dstStride, row)
      invariant from == RowStart(c.srcOffset, c.srcStride, row)
      invariant dst[..] == RowsWritten(d0, src, c, row)
    {
      RowsWrittenLast(d0, src, c, row + 1, at, from);
      Memcpy(dst, at, src[from .. from + c.cols]);
      row, at, from := row + 1, at + c.dstStride, from + c.srcStride;
    }
  }

  // ---------------------------------------------------------------------------
  // Several copies, one after another

  predicate PlanInside(plan: seq<RowCopy>, srcLen: nat, dstLen: nat)
  {
    forall i :: 0 <= i < |plan| ==> CopyInside(plan[i], srcLen, dstLen)
  }

  /** The rows of every copy do not overlap, and the region of each copy
      ends before the next one begins. */
  predicate Ordered(plan: seq<RowCopy>)
  {
    (forall i :: 0 <= i < |plan| ==> plan[i].cols <= plan[i].dstStride) &&
    (forall i, j :: 0 <= i < j < |plan| ==> RegionEnd(plan[i]) <= plan[j].dstOffset)
  }

  /** The destination after every copy of the plan, in order. */
  function ApplyCopies(d: seq<byte>, src: seq<byte>, plan: seq<RowCopy>): (r: seq<byte>)
    requires PlanInside(plan, |src|, |d|)
    ensures |r| == |d|
  {
    if plan == [] then d
    else
      var last := plan[|plan| - 1];
      RowsWritten(ApplyCopies(d, src, plan[..|plan| - 1]), src, last, last.rows)
  }

  /** In an ordered plan, byte k of row r of copy i comes from byte k of row
      r of its source: no later copy overwrites it. */
  lemma {:induction false} ApplyCopiesCell(d: seq<byte>, src: seq<byte>, plan: seq<RowCopy>, i: nat, r: nat, k: nat)
    requires PlanInside(plan, |src|, |d|) && Ordered(plan)
    requires i < |plan| && r < plan[i].rows && k < plan[i].cols
    ensures RowStart(plan[i].dstOffset, plan[i].dstStride, r) + k < |d|
    ensures RowStart(plan[i].srcOffset, plan[i].srcStride, r) + k < |src|
    ensures ApplyCopies(d, src, plan)[RowStart(plan[i].dstOffset, plan[i].dstStride, r) + k] ==
            src[RowStart(plan[i].srcOffset, plan[i].srcStride, r) + k]
  {
    var c, last, prefix := plan[i], plan[|plan| - 1], plan[..|plan| - 1];
    var prev := ApplyCopies(d, src, prefix);
    RowInside(c, r, |src|, |d|);
    if i == |plan| - 1 {
      RowsWrittenCell(prev, src, c, c.rows, r, k);
    } else {
      ApplyCopiesCell(d, src, prefix, i, r, k);
      CellInRegion(c, r, k);
      RowsWrittenOutside(prev, src, last, last.rows, RowStart(c.dstOffset, c.dstStride, r) + k);
    }
  }

  /** In an ordered plan, a byte outside every region is left as it was. */
  lemma {:induction false} ApplyCopiesOutside(d: seq<byte>, src: seq<byte>, plan: seq<RowCopy>, j: nat)
    requires PlanInside(plan, |src|, |d|) && Ordered(plan) && j < |d|
    requires forall i :: 0 <= i < |plan| ==> j < plan[i].dstOffset || j >= RegionEnd(plan[i])
    ensures ApplyCopies(d, src, plan)[j] == d[j]
  {
    if plan != [] {
      var last := plan[|plan| - 1];
      ApplyCopiesOutside(d, src, plan[..|plan| - 1], j);
      RowsWrittenOutside(ApplyCopies(d, src, plan[..|plan| - 1]), src, last, last.rows, j);
    }
  }

  /** Each copy of the plan in turn. */
  method CopyPlanes(dst: array<byte>, src: seq<byte>, plan: seq<RowCopy>)
    requires PlanInside(plan, |src|, dst.Length)
    modifies dst
    ensures dst[..] == ApplyCopies(old(dst[..]), src, plan)
  {
    ghost var d0 := dst[..];
    var i := 0;
    while i < |plan|
      invariant i <= |plan|
      invariant dst[..] == ApplyCopies(d0, src, plan[..i])
    {
      assert plan[..i + 1][..i] == plan[..i];
      CopyRows(dst, src, plan[i]);
      i := i + 1;
    }
    assert plan[..|plan|] == plan;
  }
}
