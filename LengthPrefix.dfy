/** Length-prefixed NAL units, the sample format of MP4 and of VideoToolbox
    (ISO/IEC 14496-15, section 5.3.2 for AVC): every unit is written as a
    4-byte big-endian length followed by exactly that many bytes. This
    module holds the format, its reader, and the payloads an Annex B scan
    finds, which the two converters of the project write in this format. */
module LengthPrefix {
  import opened Wrappers
  import opened Bytes
  import opened NalUtils

  // ---------------------------------------------------------------------------
  // The format

  /** One unit: its length in four big-endian bytes, then its bytes. The
      length is stored in 32 bits, so only a unit shorter than 2^32 bytes
      has its own length in front. */
  function Frame(p: seq<byte>): (r: seq<byte>)
    ensures |r| == 4 + |p| && r[4..] == p
    ensures |p| < U32_LIMIT ==> DecodeBE32(r[..4]) == |p|
  {
    EncodeBE32(U32(|p|)) + p
  }

  /** Every unit is short enough for a 32-bit length. */
  predicate Framable(ps: seq<seq<byte>>)
  {
    forall k :: 0 <= k < |ps| ==> |ps[k]| < U32_LIMIT
  }

  /** The units one after another. */
  function Encode(ps: seq<seq<byte>>): seq<byte>
  {
    if ps == [] then [] else Frame(ps[0]) + Encode(ps[1..])
  }

  /** The bytes the units take: four per unit plus the units themselves. */
  function TotalSize(ps: seq<seq<byte>>): nat
  {
    if ps == [] then 0 else 4 + |ps[0]| + TotalSize(ps[1..])
  }

  /** Reading the format back: the units in order, or nothing when a length
      field is cut short or announces more bytes than remain. */
  function Decode(b: seq<byte>): Option<seq<seq<byte>>>
    decreases |b|
  {
    if b == [] then Some([])
    else if |b| < 4 then None
    else
      var n := DecodeBE32(b[..4]);
      if 4 + n > |b| then None
      else
        var rest :- Decode(b[4 + n..]);
        Some([b[4..4 + n]] + rest)
  }

  /** Writing one more unit in front. */
  lemma EncodeCons(p: seq<byte>, ps: seq<seq<byte>>)
    ensures Encode([p] + ps) == Frame(p) + Encode(ps)
  {
    assert ([p] + ps)[1..] == ps;
  }

  /** The reader gives back exactly the units that were written. */
  lemma {:induction false} DecodeEncode(ps: seq<seq<byte>>)
    requires Framable(ps)
    ensures Decode(Encode(ps)) == Some(ps)
  {
    if ps != [] {
      var p, b := ps[0], Encode(ps);
      var f := Frame(p);
      assert b == f + Encode(ps[1..]);
      assert b[..4] == f[..4];
      assert b[4..4 + |p|] == p;
      assert b[4 + |p|..] == Encode(ps[1..]);
      DecodeEncode(ps[1..]);
      assert [p] + ps[1..] == ps;
    }
  }

  /** The written form is four bytes per unit longer than the units. */
  lemma {:induction false} EncodedSize(ps: seq<seq<byte>>)
    ensures |Encode(ps)| == TotalSize(ps)
  {
    if ps != [] {
      EncodedSize(ps[1..]);
    }
  }

  /** Nothing is written only when there is no unit. */
  lemma EncodeEmpty(ps: seq<seq<byte>>)
    ensures Encode(ps) == [] <==> ps == []
  {
    if ps != [] {
      assert |Frame(ps[0])| >= 4;
    }
  }

  // ---------------------------------------------------------------------------
  // The payloads of an Annex B scan

  /** The bytes of the non-empty units found scanning from `i`, following
      the scan of find_annexb_nal_units step for step. */
  function PayloadsFrom(d: seq<byte>, i: nat): seq<seq<byte>>
    requires i <= |d|
    decreases |d| - i
  {
    if i == |d| then []
    else match NextStartCode(d, i)
      case None => []
      case Some(start) =>
        var end := UnitEnd(d, start);
        (if start < end then [d[start..end]] else []) + PayloadsFrom(d, end)
  }

  /** The payloads are the bytes of the units find_annexb_nal_units
      reports, in the same order. */
  lemma {:induction false} PayloadsAreUnits(d: seq<byte>, i: nat)
    requires i <= |d|
    ensures |PayloadsFrom(d, i)| == |UnitsFrom(d, i)|
    ensures forall k :: 0 <= k < |PayloadsFrom(d, i)| ==>
      UnitsFrom(d, i)[k].offset + UnitsFrom(d, i)[k].length <= |d| &&
      PayloadsFrom(d, i)[k] == Payload(d, UnitsFrom(d, i)[k])
    decreases |d| - i
  {
    if i < |d| && NextStartCode(d, i).Some? {
      var start := NextStartCode(d, i).value;
      PayloadsAreUnits(d, UnitEnd(d, start));
    }
  }

  /** Every payload is non-empty and no longer than the data. */
  lemma {:induction false} PayloadsNonEmpty(d: seq<byte>, i: nat)
    requires i <= |d|
    ensures forall k :: 0 <= k < |PayloadsFrom(d, i)| ==> 0 < |PayloadsFrom(d, i)[k]| <= |d|
    decreases |d| - i
  {
    if i < |d| && NextStartCode(d, i).Some? {
      var start := NextStartCode(d, i).value;
      PayloadsNonEmpty(d, UnitEnd(d, start));
    }
  }

  /** Data shorter than 2^32 bytes has payloads every length field holds. */
  lemma PayloadsFramable(d: seq<byte>, i: nat)
    requires i <= |d| < U32_LIMIT
    ensures Framable(PayloadsFrom(d, i))
  {
    PayloadsNonEmpty(d, i);
  }

  /** A byte that does not begin a start code is skipped. */
  lemma SkipByte(d: seq<byte>, pos: nat)
    requires pos < |d| && !StartCodeAt(d, pos)
    ensures PayloadsFrom(d, pos) == PayloadsFrom(d, pos + 1)
  {
  }

  /** A start code at `pos` yields the unit up to the next start code, when
      it is not empty, then the payloads from there. */
  lemma UnitAtStartCode(d: seq<byte>, pos: nat, start: nat, end: nat)
    requires pos < |d| && StartCodeAt(d, pos)
    requires start == (if StartCode4At(d, pos) then pos + 4 else pos + 3)
    requires end == UnitEnd(d, start)
    ensures start <= end <= |d|
    ensures PayloadsFrom(d, pos) == (if start < end then [d[start..end]] else []) + PayloadsFrom(d, end)
  {
  }
}
