/** Splitting an Annex B byte stream (Annex B of ITU-T H.264 / H.265) into NAL
    units: each unit is the run of bytes between a 00 00 01 or 00 00 00 01
    start code and the next start code or the end of the data. */
module NalUtils {
  import opened Wrappers
  import opened Bytes

  /** A NAL unit located in the stream, without its start code. */
  datatype NalUnit = NalUnit(offset: nat, length: nat)

  predicate StartCode3At(d: seq<byte>, j: int)
  {
    0 <= j && j + 2 < |d| && d[j] == 0 && d[j + 1] == 0 && d[j + 2] == 1
  }

  predicate StartCode4At(d: seq<byte>, j: int)
  {
    0 <= j && j + 3 < |d| && d[j] == 0 && d[j + 1] == 0 && d[j + 2] == 0 && d[j + 3] == 1
  }

  /** A 3-byte or a 4-byte start code begins at j. */
  predicate StartCodeAt(d: seq<byte>, j: int)
  {
    StartCode3At(d, j) || StartCode4At(d, j)
  }

  /** The properties every unit of the result has, whatever else is found. */
  ghost predicate WellPlaced(d: seq<byte>, u: NalUnit)
  {
    0 < u.length && u.offset + u.length <= |d| &&
    // the unit follows a start code: both forms end in 00 00 01
    StartCode3At(d, u.offset - 3) &&
    // it ends at the end of the data or at the next start code ...
    (u.offset + u.length == |d| || StartCodeAt(d, u.offset + u.length)) &&
    // ... and no start code begins inside it
    forall j :: u.offset <= j < u.offset + u.length ==> !StartCodeAt(d, j)
  }

  /** Every unit lies inside the data. */
  predicate UnitsInBounds(d: seq<byte>, units: seq<NalUnit>)
  {
    forall k :: 0 <= k < |units| ==> units[k].offset + units[k].length <= |d|
  }

  /** The bytes of a unit. */
  function Payload(d: seq<byte>, u: NalUnit): (r: seq<byte>)
    requires u.offset + u.length <= |d|
    ensures |r| == u.length && forall j :: 0 <= j < |r| ==> r[j] == d[u.offset + j]
  {
    d[u.offset .. u.offset + u.length]
  }

  // ---------------------------------------------------------------------------
  // The scan as pure functions

  /** The first byte after the first start code at or after `i`, if any. */
  function NextStartCode(d: seq<byte>, i: nat): (r: Option<nat>)
    ensures r.Some? ==> i + 3 <= r.value <= |d| && StartCode3At(d, r.value - 3)
    ensures r.None? ==> forall j :: i <= j < |d| ==> !StartCode3At(d, j)
    decreases |d| - i
  {
    if i + 2 >= |d| then None
    else if StartCode3At(d, i) then Some(i + 3)
    else if StartCode4At(d, i) then Some(i + 4)
    else NextStartCode(d, i + 1)
  }

  /** The first start code at or after `start`, or the end of the data. */
  function UnitEnd(d: seq<byte>, start: nat): (end: nat)
    requires start <= |d|
    ensures start <= end <= |d|
    ensures end == |d| || StartCodeAt(d, end)
    ensures forall j :: start <= j < end ==> !StartCodeAt(d, j)
    decreases |d| - start
  {
    if start + 2 >= |d| then |d|
    else if StartCodeAt(d, start) then start
    else UnitEnd(d, start + 1)
  }

  /** The units found by scanning from `i`. */
  function UnitsFrom(d: seq<byte>, i: nat): seq<NalUnit>
    requires i <= |d|
    decreases |d| - i
  {
    if i == |d| then []
    else match NextStartCode(d, i)
      case None => []
      case Some(start) =>
        var end := UnitEnd(d, start);
        (if start < end then [NalUnit(start, end - start)] else []) + UnitsFrom(d, end)
  }

  /** find_annexb_nal_units as a function of the data. */
  function AnnexbUnits(d: seq<byte>): seq<NalUnit>
  {
    if |d| < 4 then [] else UnitsFrom(d, 0)
  }

  /** One round of the scan from `i`: the unit after the next start code,
      when it is not empty, then the scan from where it ends. */
  lemma UnitsFromStep(d: seq<byte>, i: nat, start: nat, end: nat, before: seq<NalUnit>)
    requires i < |d| && NextStartCode(d, i) == Some(start) && end == UnitEnd(d, start)
    ensures UnitsFrom(d, i) == (if start < end then [NalUnit(start, end - start)] else []) + UnitsFrom(d, end)
    ensures before + UnitsFrom(d, i) ==
      (before + (if start < end then [NalUnit(start, end - start)] else [])) + UnitsFrom(d, end)
  {
    var rest := UnitsFrom(d, end);
    if start < end {
      var u := [NalUnit(start, end - start)];
      UnitsFromFound(d, i, start, end);
      assert before + (u + rest) == (before + u) + rest;
    } else {
      UnitsFromEmpty(d, i, start, end);
      assert before + [] == before;
      assert [] + rest == rest;
    }
  }

  lemma UnitsFromFound(d: seq<byte>, i: nat, start: nat, end: nat)
    requires i < |d| && NextStartCode(d, i) == Some(start) && end == UnitEnd(d, start) && start < end
    ensures UnitsFrom(d, i) == [NalUnit(start, end - start)] + UnitsFrom(d, end)
  {
  }

  lemma UnitsFromEmpty(d: seq<byte>, i: nat, start: nat, end: nat)
    requires i < |d| && NextStartCode(d, i) == Some(start) && end == UnitEnd(d, start) && start == end
    ensures UnitsFrom(d, i) == UnitsFrom(d, end)
  {
    assert UnitsFrom(d, i) == [] + UnitsFrom(d, end);
  }

  /** Every unit found from `i` is well placed, starts after `i` and ends where
      the next one may start; units are found in increasing order. */
  lemma {:induction false} UnitsFromPlaced(d: seq<byte>, i: nat)
    requires i <= |d|
    ensures forall k :: 0 <= k < |UnitsFrom(d, i)| ==>
      WellPlaced(d, UnitsFrom(d, i)[k]) && i < UnitsFrom(d, i)[k].offset
    ensures forall k :: 0 < k < |UnitsFrom(d, i)| ==>
      UnitsFrom(d, i)[k - 1].offset + UnitsFrom(d, i)[k - 1].length < UnitsFrom(d, i)[k].offset
    decreases |d| - i
  {
    if i < |d| && NextStartCode(d, i).Some? {
      var start := NextStartCode(d, i).value;
      var end := UnitEnd(d, start);
      UnitsFromPlaced(d, end);
      var rest := UnitsFrom(d, end);
      assert forall k :: 0 <= k < |rest| ==> end < rest[k].offset;
    }
  }

  /** The stream properties of the whole result: units are well placed and in
      strictly increasing, non-overlapping order, and data without any start
      code (or shorter than 4 bytes) yields no unit. */
  lemma AnnexbUnitsPlaced(d: seq<byte>)
    ensures forall k :: 0 <= k < |AnnexbUnits(d)| ==> WellPlaced(d, AnnexbUnits(d)[k])
    ensures forall k :: 0 < k < |AnnexbUnits(d)| ==>
      AnnexbUnits(d)[k - 1].offset + AnnexbUnits(d)[k - 1].length < AnnexbUnits(d)[k].offset
    ensures |d| < 4 ==> AnnexbUnits(d) == []
    ensures (forall j :: 0 <= j < |d| ==> !StartCode3At(d, j)) ==> AnnexbUnits(d) == []
  {
    if |d| >= 4 {
      UnitsFromPlaced(d, 0);
      if AnnexbUnits(d) != [] {
        assert StartCode3At(d, AnnexbUnits(d)[0].offset - 3);
      }
    }
  }

  /** The scan from before a 3-byte start code stops at it, or earlier than
      it, but never past it. */
  lemma {:induction false} NextStartCodeReaches(d: seq<byte>, i: nat, k: nat)
    requires i <= k && StartCode3At(d, k)
    ensures NextStartCode(d, i).Some?
    ensures NextStartCode(d, i).value == k + 3 || NextStartCode(d, i).value <= k
    decreases |d| - i
  {
    if StartCode3At(d, i) {
    } else if StartCode4At(d, i) {
    } else {
      NextStartCodeReaches(d, i + 1, k);
    }
  }

  /** The scan from any point before a start code finds the unit after it,
      when that unit is not empty. */
  lemma {:induction false} UnitsFromComplete(d: seq<byte>, i: nat, k: nat)
    requires i <= k && StartCode3At(d, k) && k + 3 < UnitEnd(d, k + 3)
    ensures NalUnit(k + 3, UnitEnd(d, k + 3) - (k + 3)) in UnitsFrom(d, i)
    decreases |d| - i
  {
    NextStartCodeReaches(d, i, k);
    var start := NextStartCode(d, i).value;
    var end := UnitEnd(d, start);
    UnitsFromStep(d, i, start, end, []);
    if start != k + 3 {
      assert StartCodeAt(d, k);
      UnitsFromComplete(d, end, k);
    }
  }

  /** No unit is missed: after every start code (both forms end in 00 00 01)
      that is followed by at least one byte before the next start code, the
      bytes up to that next start code or the end of the data are reported. */
  lemma AnnexbUnitsComplete(d: seq<byte>, k: nat)
    requires StartCode3At(d, k) && k + 3 < UnitEnd(d, k + 3)
    ensures NalUnit(k + 3, UnitEnd(d, k + 3) - (k + 3)) in AnnexbUnits(d)
  {
    UnitsFromComplete(d, 0, k);
  }

  // ---------------------------------------------------------------------------
  // The scan as the source runs it

  /** The scan for the next start code from `from`: on success `start` is the
      first byte after it. */
  method FindStartCode(data: seq<byte>, from: nat) returns (found: bool, start: nat)
    requires from <= |data|
    ensures found == NextStartCode(data, from).Some?
    ensures found ==> start == NextStartCode(data, from).value
  {
    var i := from;
    while i + 2 < |data|
      invariant from <= i <= |data|
      invariant NextStartCode(data, i) == NextStartCode(data, from)
      decreases |data| - i
    {
      if data[i] == 0 && data[i + 1] == 0 {
        if data[i + 2] == 1 {
          return true, i + 3;
        } else if i + 3 < |data| && data[i + 2] == 0 && data[i + 3] == 1 {
          return true, i + 4;
        }
      }
      i := i + 1;
    }
    return false, 0;
  }

  /** The end of the unit that begins at `start`: the next start code or the
      end of the data. */
  method FindUnitEnd(data: seq<byte>, start: nat) returns (end: nat)
    requires start <= |data|
    ensures end == UnitEnd(data, start)
  {
    var j := start;
    while j + 2 < |data|
      invariant start <= j <= |data|
      invariant UnitEnd(data, j) == UnitEnd(data, start)
      decreases |data| - j
    {
      if data[j] == 0 && data[j + 1] == 0 &&
         (data[j + 2] == 1 || (j + 3 < |data| && data[j + 2] == 0 && data[j + 3] == 1)) {
        return j;
      }
      j := j + 1;
    }
    return |data|;
  }

  method FindAnnexbNalUnits(data: seq<byte>) returns (units: seq<NalUnit>)
    ensures units == AnnexbUnits(data)
  {
    units := [];
    if |data| < 4 {
      return;
    }
    var i := 0;
    while i < |data|
      invariant i <= |data|
      invariant units + UnitsFrom(data, i) == AnnexbUnits(data)
      decreases |data| - i
    {
      var found, start := FindStartCode(data, i);
      if !found {
        break;
      }
      var end := FindUnitEnd(data, start);
      var found1 := if start < end then [NalUnit(start, end - start)] else [];
      UnitsFromStep(data, i, start, end, units);
      units := units + found1;
      i := end;
    }
  }
}
