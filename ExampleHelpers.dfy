/** The byte helpers of the example scripts: the Annex B to length-prefixed
    converter of the MP4 writer in blend2d_to_mp4.py, and the avcC and hvcC
    readers and the AAC AudioSpecificConfig writer of device_to_mp4.py.
    Where Python raises ValueError the model returns Err with the same
    message. */
module ExampleHelpers {
  import opened Wrappers
  import opened Bytes
  import opened NalUtils
  import opened LengthPrefix
  import V = VplDescription

  // ---------------------------------------------------------------------------
  // MP4Writer._convert_annex_b_to_length_prefixed

  /** What the converter has written after a turn at a start code, together
      with what remains to be written, is the whole output. */
  lemma {:induction false} ConvertedAtStartCode(d: seq<byte>, pos: nat, start: nat, end: nat,
                                                out: seq<byte>, out': seq<byte>, total: seq<byte>)
    requires pos < |d| && StartCodeAt(d, pos)
    requires start == (if StartCode4At(d, pos) then pos + 4 else pos + 3)
    requires end == UnitEnd(d, start)
    requires out + Encode(PayloadsFrom(d, pos)) == total
    requires out' == if start < end then out + Frame(d[start..end]) else out
    ensures out' + Encode(PayloadsFrom(d, end)) == total
  {
    UnitAtStartCode(d, pos, start, end);
    WrittenFront(PayloadsFrom(d, pos), d[start..end], PayloadsFrom(d, end), out, total);
  }

  /** Writing the first unit, when it is not empty, moves it from what
      remains to what is written. */
  lemma WrittenFront(all: seq<seq<byte>>, p: seq<byte>, rest: seq<seq<byte>>, out: seq<byte>, total: seq<byte>)
    requires all == (if p != [] then [p] else []) + rest
    requires out + Encode(all) == total
    ensures (if p != [] then out + Frame(p) else out) + Encode(rest) == total
  {
    if p != [] {
      EncodeCons(p, rest);
      assert out + (Frame(p) + Encode(rest)) == (out + Frame(p)) + Encode(rest);
    } else {
      assert all == rest;
    }
  }

  /** Taking the first unit, when it is not empty, off a list of units
      that all fit a 32-bit length leaves units that fit too. */
  lemma FramableFront(p: seq<byte>, rest: seq<seq<byte>>)
    requires Framable((if p != [] then [p] else []) + rest)
    ensures p != [] ==> |p| < U32_LIMIT
    ensures Framable(rest)
  {
    var all := (if p != [] then [p] else []) + rest;
    var skip := if p != [] then 1 else 0;
    if p != [] {
      assert all[0] == p;
    }
    forall k | 0 <= k < |rest|
      ensures |rest[k]| < U32_LIMIT
    {
      assert rest[k] == all[k + skip];
    }
  }

  /** The converter: every non-empty unit after a start code, behind its
      length in four big-endian bytes; bytes before the first start code
      are dropped. Python raises OverflowError for a unit of 2^32 bytes or
      more, so every unit is taken to be shorter than that. */
  method ConvertAnnexB(chunk: seq<byte>) returns (result: seq<byte>)
    requires Framable(PayloadsFrom(chunk, 0))
    ensures result == Encode(PayloadsFrom(chunk, 0))
  {
    ghost var total := Encode(PayloadsFrom(chunk, 0));
    result := [];
    var pos := 0;
    while pos < |chunk|
      invariant pos <= |chunk|
      invariant result + Encode(PayloadsFrom(chunk, pos)) == total
      invariant Framable(PayloadsFrom(chunk, pos))
      decreases |chunk| - pos
    {
      var startCodeLen := 0;
      if StartCode4At(chunk, pos) {
        startCodeLen := 4;
      } else if StartCode3At(chunk, pos) {
        startCodeLen := 3;
      }
      if startCodeLen == 0 {
        SkipByte(chunk, pos);
        pos := pos + 1;
        continue;
      }
      var naluStart := pos + startCodeLen;
      var nextPos := naluStart;
      while nextPos < |chunk|
        invariant naluStart <= nextPos <= |chunk|
        invariant UnitEnd(chunk, nextPos) == UnitEnd(chunk, naluStart)
        decreases |chunk| - nextPos
      {
        if StartCode4At(chunk, nextPos) || StartCode3At(chunk, nextPos) {
          break;
        }
        nextPos := nextPos + 1;
      }
      assert nextPos == UnitEnd(chunk, naluStart);
      var nalu := chunk[naluStart..nextPos];
      UnitAtStartCode(chunk, pos, naluStart, nextPos);
      FramableFront(nalu, PayloadsFrom(chunk, nextPos));
      ghost var before := result;
      if |nalu| > 0 {
        result := result + EncodeBE32(|nalu|) + nalu;
        assert result == before + Frame(nalu);
      }
      ConvertedAtStartCode(chunk, pos, naluStart, nextPos, before, result, total);
      pos := nextPos;
    }
    assert PayloadsFrom(chunk, pos) == [];
    assert Encode(PayloadsFrom(chunk, pos)) == [];
  }

  /** The converted chunk reads back, unit by unit, as the bytes of the
      units find_annexb_nal_units reports, and takes four bytes more per
      unit than the units themselves. */
  lemma ConvertedReadsBack(chunk: seq<byte>)
    requires Framable(PayloadsFrom(chunk, 0))
    ensures var ps := PayloadsFrom(chunk, 0);
      Decode(Encode(ps)) == Some(ps) && |Encode(ps)| == TotalSize(ps)
    ensures var ps := PayloadsFrom(chunk, 0);
      |ps| == |UnitsFrom(chunk, 0)| &&
      forall k :: 0 <= k < |ps| ==>
        |ps[k]| > 0 && UnitsFrom(chunk, 0)[k].offset + UnitsFrom(chunk, 0)[k].length <= |chunk| &&
        ps[k] == Payload(chunk, UnitsFrom(chunk, 0)[k])
  {
    PayloadsNonEmpty(chunk, 0);
    PayloadsAreUnits(chunk, 0);
    DecodeEncode(PayloadsFrom(chunk, 0));
    EncodedSize(PayloadsFrom(chunk, 0));
  }

  // ---------------------------------------------------------------------------
  // parse_avcc

  const AVCC_TOO_SHORT := "avcC data is too short"
  const AVCC_NO_PPS_COUNT := "avcC data is truncated (num PPS)"

  function TruncatedLength(kind: string): string
  {
    "avcC data is truncated (" + kind + " length)"
  }

  function TruncatedData(kind: string): string
  {
    "avcC data is truncated (" + kind + " data)"
  }

  /** The profiles for which parse_avcc reads the chroma format and bit
      depth triplet. */
  predicate HasChromaTriplet(profile: byte)
  {
    profile in {100, 110, 122, 244, 44, 83, 86, 118, 128, 138, 139, 134}
  }

  /** What parse_avcc returns. */
  datatype AvccFields = AvccFields(
    profile: byte, compatibility: byte, level: byte,
    spsList: seq<seq<byte>>, ppsList: seq<seq<byte>>,
    chromaFormat: Option<byte>, bitDepthLumaMinus8: Option<byte>, bitDepthChromaMinus8: Option<byte>)

  /** Every entry's length fits a 16-bit length field. */
  predicate Fits16(ps: seq<seq<byte>>)
  {
    ps == [] || (|ps[0]| < U16_LIMIT && Fits16(ps[1..]))
  }

  /** Entries as the record holds them: each one's 16-bit big-endian
      length, then its bytes. */
  function Entries16(ps: seq<seq<byte>>): seq<byte>
    requires Fits16(ps)
  {
    if ps == [] then [] else EncodeBE16(|ps[0]|) + ps[0] + Entries16(ps[1..])
  }

  /** Reading `count` entries from `pos`: the entries and where they end,
      or the error for a length field or an entry cut short. */
  function ReadEntries(d: seq<byte>, pos: nat, count: nat, kind: string): (r: Result<(seq<seq<byte>>, nat)>)
    requires pos <= |d|
    ensures r.Ok? ==> |r.value.0| == count && pos <= r.value.1 <= |d|
    ensures r.Err? ==> r.error == TruncatedLength(kind) || r.error == TruncatedData(kind)
    decreases count
  {
    if count == 0 then Ok(([], pos))
    else if pos + 2 > |d| then Err(TruncatedLength(kind))
    else
      var len := BE16(d[pos], d[pos + 1]);
      if pos + 2 + len > |d| then Err(TruncatedData(kind))
      else
        var rest :- ReadEntries(d, pos + 2 + len, count - 1, kind);
        Ok(([d[pos + 2..pos + 2 + len]] + rest.0, rest.1))
  }

  /** The entries `done` read so far in front of what is read next. */
  function Prepend(done: seq<seq<byte>>, r: Result<(seq<seq<byte>>, nat)>): Result<(seq<seq<byte>>, nat)>
  {
    match r
    case Err(e) => Err(e)
    case Ok(v) => Ok((done + v.0, v.1))
  }

  /** Reading one entry more. */
  lemma {:induction false} ReadEntriesStep(d: seq<byte>, pos: nat, count: nat, kind: string, done: seq<seq<byte>>)
    requires pos + 2 <= |d| && count > 0
    requires pos + 2 + BE16(d[pos], d[pos + 1]) <= |d|
    ensures var len := BE16(d[pos], d[pos + 1]);
      Prepend(done, ReadEntries(d, pos, count, kind)) ==
      Prepend(done + [d[pos + 2..pos + 2 + len]], ReadEntries(d, pos + 2 + len, count - 1, kind))
  {
    var len := BE16(d[pos], d[pos + 1]);
    var e := d[pos + 2..pos + 2 + len];
    var rest := ReadEntries(d, pos + 2 + len, count - 1, kind);
    if rest.Ok? {
      assert done + ([e] + rest.value.0) == (done + [e]) + rest.value.0;
    }
  }

  /** One entry list of parse_avcc: the `for _ in range(num)` loop. */
  method ReadEntryList(d: seq<byte>, pos: nat, count: nat, kind: string) returns (r: Result<(seq<seq<byte>>, nat)>)
    requires pos <= |d|
    ensures r == ReadEntries(d, pos, count, kind)
  {
    var list: seq<seq<byte>> := [];
    var p := pos;
    var i := 0;
    ghost var all := ReadEntries(d, pos, count, kind);
    if all.Ok? {
      assert [] + all.value.0 == all.value.0;
    }
    while i < count
      invariant i <= count && pos <= p <= |d|
      invariant ReadEntries(d, pos, count, kind) == Prepend(list, ReadEntries(d, p, count - i, kind))
      decreases count - i
    {
      if p + 2 > |d| {
        return Err(TruncatedLength(kind));
      }
      var len := BE16(d[p], d[p + 1]);
      if p + 2 + len > |d| {
        return Err(TruncatedData(kind));
      }
      ReadEntriesStep(d, p, count - i, kind, list);
      list := list + [d[p + 2..p + 2 + len]];
      p := p + 2 + len;
      i := i + 1;
    }
    assert list + [] == list;
    r := Ok((list, p));
  }

  /** parse_avcc: fewer than 7 bytes are refused; profile, compatibility
      and level are bytes 1-3; the SPS list has as many entries as the low
      5 bits of byte 5 say, the PPS count byte follows it, then the PPS
      list; a truncated list or a missing count byte is refused; the
      triplet is read for the profiles of HasChromaTriplet when 4 bytes
      remain. */
  function ParseAvccOf(d: seq<byte>): (r: Result<AvccFields>)
    ensures r.Err? <==> (
      |d| < 7 || ReadEntries(d, 6, d[5] % 32, "SPS").Err? ||
      ReadEntries(d, 6, d[5] % 32, "SPS").value.1 >= |d| ||
      (var p := ReadEntries(d, 6, d[5] % 32, "SPS").value.1; ReadEntries(d, p + 1, d[p], "PPS").Err?))
    ensures r.Ok? ==> r.value.profile == d[1] && r.value.compatibility == d[2] && r.value.level == d[3] &&
                      |r.value.spsList| == d[5] % 32
    ensures r.Ok? ==> (r.value.chromaFormat.Some? ==> HasChromaTriplet(d[1]) && r.value.chromaFormat.value < 4) &&
                      (r.value.chromaFormat.Some? <==> r.value.bitDepthLumaMinus8.Some?) &&
                      (r.value.chromaFormat.Some? <==> r.value.bitDepthChromaMinus8.Some?)
  {
    if |d| < 7 then Err(AVCC_TOO_SHORT)
    else
      var s :- ReadEntries(d, 6, d[5] % 32, "SPS");
      var p := s.1;
      if p >= |d| then Err(AVCC_NO_PPS_COUNT)
      else
        var t :- ReadEntries(d, p + 1, d[p], "PPS");
        var q := t.1;
        if HasChromaTriplet(d[1]) && q + 4 <= |d| then
          Ok(AvccFields(d[1], d[2], d[3], s.0, t.0, Some(d[q] % 4), Some(d[q + 1] % 8), Some(d[q + 2] % 8)))
        else
          Ok(AvccFields(d[1], d[2], d[3], s.0, t.0, None, None, None))
  }

  /** parse_avcc, its two loops in ReadEntryList. */
  method ParseAvcc(d: seq<byte>) returns (r: Result<AvccFields>)
    ensures r == ParseAvccOf(d)
  {
    if |d| < 7 {
      return Err(AVCC_TOO_SHORT);
    }
    var profile, compatibility, level := d[1], d[2], d[3];
    var s := ReadEntryList(d, 6, d[5] % 32, "SPS");
    if s.Err? {
      return Err(s.error);
    }
    var pos := s.value.1;
    if pos >= |d| {
      return Err(AVCC_NO_PPS_COUNT);
    }
    var t := ReadEntryList(d, pos + 1, d[pos], "PPS");
    if t.Err? {
      return Err(t.error);
    }
    pos := t.value.1;
    var chroma, luma, chromaDepth := None, None, None;
    if HasChromaTriplet(profile) && pos + 4 <= |d| {
      chroma := Some(d[pos] % 4);
      luma := Some(d[pos + 1] % 8);
      chromaDepth := Some(d[pos + 2] % 8);
    }
    r := Ok(AvccFields(profile, compatibility, level, s.value.0, t.value.0, chroma, luma, chromaDepth));
  }

  /** A window of `d` holding `x + y` holds `x`, then `y`. */
  lemma WindowSplit(d: seq<byte>, o: nat, x: seq<byte>, y: seq<byte>)
    requires o + |x| + |y| <= |d| && d[o..o + |x| + |y|] == x + y
    ensures d[o..o + |x|] == x && d[o + |x|..o + |x| + |y|] == y
  {
    var w := d[o..o + |x| + |y|];
    assert d[o..o + |x|] == w[..|x|];
    assert d[o + |x|..o + |x| + |y|] == w[|x|..];
  }

  /** The bytes after a prefix. */
  lemma AfterPrefix(x: seq<byte>, y: seq<byte>)
    ensures (x + y)[|x|..|x| + |y|] == y && (x + y)[..|x|] == x
  {
  }

  /** Entries written with their 16-bit lengths are read back from
      wherever they sit in the data. */
  lemma {:induction false} ReadEntriesRoundTrip(d: seq<byte>, o: nat, ps: seq<seq<byte>>, kind: string)
    requires Fits16(ps)
    requires o + |Entries16(ps)| <= |d| && d[o..o + |Entries16(ps)|] == Entries16(ps)
    ensures ReadEntries(d, o, |ps|, kind) == Ok((ps, o + |Entries16(ps)|))
    decreases |ps|
  {
    if ps != [] {
      var p := ps[0];
      EntriesHead(d, o, ps);
      ReadEntriesRoundTrip(d, o + 2 + |p|, ps[1..], kind);
      ReadEntriesCons(d, o, |ps|, kind, p, ps[1..], o + |Entries16(ps)|);
      assert [p] + ps[1..] == ps;
    }
  }

  /** A window holding written entries holds the first entry's length and
      bytes, then the other entries. */
  lemma EntriesHead(d: seq<byte>, o: nat, ps: seq<seq<byte>>)
    requires ps != [] && Fits16(ps)
    requires o + |Entries16(ps)| <= |d| && d[o..o + |Entries16(ps)|] == Entries16(ps)
    ensures Fits16(ps[1..])
    ensures |Entries16(ps)| == 2 + |ps[0]| + |Entries16(ps[1..])|
    ensures BE16(d[o], d[o + 1]) == |ps[0]|
    ensures d[o + 2..o + 2 + |ps[0]|] == ps[0]
    ensures d[o + 2 + |ps[0]|..o + 2 + |ps[0]| + |Entries16(ps[1..])|] == Entries16(ps[1..])
  {
    Entries16Cons(ps);
    var len := EncodeBE16(|ps[0]|);
    WindowEntry(d, o, Entries16(ps), len, ps[0], Entries16(ps[1..]));
    assert BE16(len[0], len[1]) == |ps[0]|;
  }

  /** A window holding a two-byte length, an entry and what follows holds
      each of them in turn. */
  lemma WindowEntry(d: seq<byte>, o: nat, whole: seq<byte>, len: seq<byte>, p: seq<byte>, rest: seq<byte>)
    requires whole == len + (p + rest) && |len| == 2
    requires o + |whole| <= |d| && d[o..o + |whole|] == whole
    ensures |whole| == 2 + |p| + |rest|
    ensures d[o] == len[0] && d[o + 1] == len[1]
    ensures d[o + 2..o + 2 + |p|] == p && d[o + 2 + |p|..o + 2 + |p| + |rest|] == rest
  {
    WindowSplit(d, o, len, p + rest);
    WindowSplit(d, o + 2, p, rest);
    assert d[o] == d[o..o + 2][0] && d[o + 1] == d[o..o + 2][1];
  }

  /** One step of the entry encoding. */
  lemma Entries16Cons(ps: seq<seq<byte>>)
    requires ps != [] && Fits16(ps)
    ensures Fits16(ps[1..]) && |EncodeBE16(|ps[0]|)| == 2
    ensures Entries16(ps) == EncodeBE16(|ps[0]|) + (ps[0] + Entries16(ps[1..]))
    ensures BE16(EncodeBE16(|ps[0]|)[0], EncodeBE16(|ps[0]|)[1]) == |ps[0]|
  {
  }

  /** An entry that fits is read, then the rest. */
  lemma ReadEntriesCons(d: seq<byte>, o: nat, count: nat, kind: string, p: seq<byte>, tail: seq<seq<byte>>, e: nat)
    requires count > 0 && o + 2 + |p| <= |d| && BE16(d[o], d[o + 1]) == |p| && d[o + 2..o + 2 + |p|] == p
    requires ReadEntries(d, o + 2 + |p|, count - 1, kind) == Ok((tail, e))
    ensures ReadEntries(d, o, count, kind) == Ok(([p] + tail, e))
  {
  }

  /** Data with one SPS entry from byte 6 and one PPS entry after the PPS
      count 1, reaching to the end, reads back as those two entries. */
  lemma AvccFieldsAt(d: seq<byte>, sps: seq<byte>, pps: seq<byte>)
    requires 4 <= |sps| < U16_LIMIT && 1 <= |pps| < U16_LIMIT
    requires |d| == 9 + |sps| + |Entries16([pps])| && d[5] % 32 == 1 && d[8 + |sps|] == 1
    requires d[1] == sps[1] && d[2] == sps[2] && d[3] == sps[3]
    requires d[6..8 + |sps|] == Entries16([sps])
    requires d[9 + |sps|..|d|] == Entries16([pps])
    ensures ParseAvccOf(d) == Ok(AvccFields(sps[1], sps[2], sps[3], [sps], [pps], None, None, None))
  {
    assert [sps][1..] == [] && [pps][1..] == [];
    assert |Entries16([sps])| == 2 + |sps| + |Entries16([])|;
    ReadEntriesRoundTrip(d, 6, [sps], "SPS");
    ReadEntriesRoundTrip(d, 9 + |sps|, [pps], "PPS");
  }

  /** parse_avcc reads back the avcC record the Intel VPL backend builds:
      bytes 1-3 of the SPS, the one SPS, the one PPS, and no triplet, since
      nothing follows the PPS. */
  lemma AvccRecordReadsBack(sps: seq<byte>, pps: seq<byte>)
    requires 4 <= |sps| < U16_LIMIT && 1 <= |pps| < U16_LIMIT
    ensures ParseAvccOf(V.AvccRecord(sps, pps)) == Ok(AvccFields(sps[1], sps[2], sps[3], [sps], [pps], None, None, None))
  {
    var d := V.AvccRecord(sps, pps);
    var head: seq<byte> := [1, sps[1], sps[2], sps[3], 0xFF, 0xE1];
    var e1, e2 := Entries16([sps]), Entries16([pps]);
    assert [sps][1..] == [] && [pps][1..] == [];
    assert e1 == EncodeBE16(|sps|) + sps + Entries16([]);
    assert e2 == EncodeBE16(|pps|) + pps + Entries16([]);
    assert d == (head + e1) + ([1] + e2);
    AfterPrefix(head + e1, [1] + e2);
    AfterPrefix(head, e1);
    AfterPrefix([1], e2);
    AvccFieldsAt(d, sps, pps);
  }

  // ---------------------------------------------------------------------------
  // parse_hvcc

  const HVCC_TOO_SHORT := "hvcC data is too short"

  /** What parse_hvcc returns: the profile, the level, and the type and
      bytes of every unit, in two lists of equal length. */
  datatype HvccFields = HvccFields(profile: byte, level: byte, naluTypes: seq<nat>, naluData: seq<seq<byte>>)

  /** The unit loop of one array from `o` with `n` units left: it stops when
      a length field or a unit overruns the data, the length field then
      already consumed. The units read and where the loop stopped. */
  function NalusFrom(d: seq<byte>, o: nat, n: nat): (r: (seq<seq<byte>>, nat))
    requires o <= |d|
    ensures o <= r.1 <= |d| && |r.0| <= n
    decreases n
  {
    if n == 0 || o + 2 > |d| then ([], o)
    else
      var len := BE16(d[o], d[o + 1]);
      if o + 2 + len > |d| then ([], o + 2)
      else
        var rest := NalusFrom(d, o + 2 + len, n - 1);
        ([d[o + 2..o + 2 + len]] + rest.0, rest.1)
  }

  /** `n` copies of a unit type. */
  function Repeat(t: nat, n: nat): (r: seq<nat>)
    ensures |r| == n
  {
    seq(n, _ => t)
  }

  /** The array loop from `o` with `n` arrays left: each array is a type
      byte (the unit type in its low 6 bits) and a 16-bit unit count, then
      its units; the loop stops when those three bytes do not fit. */
  function ArraysFrom(d: seq<byte>, o: nat, n: nat): (r: (seq<nat>, seq<seq<byte>>))
    requires o <= |d|
    ensures |r.0| == |r.1|
    decreases n
  {
    if n == 0 || o + 3 > |d| then ([], [])
    else
      var t := d[o] % 64;
      var units := NalusFrom(d, o + 3, BE16(d[o + 1], d[o + 2]));
      var rest := ArraysFrom(d, units.1, n - 1);
      (Repeat(t, |units.0|) + rest.0, units.0 + rest.1)
  }

  /** Every type the array loop records is a six-bit NAL unit type. */
  lemma {:induction false} ArraysFromTypes(d: seq<byte>, o: nat, n: nat)
    requires o <= |d|
    ensures forall k :: 0 <= k < |ArraysFrom(d, o, n).0| ==> ArraysFrom(d, o, n).0[k] < 64
    decreases n
  {
    if n > 0 && o + 3 <= |d| {
      var units := NalusFrom(d, o + 3, BE16(d[o + 1], d[o + 2]));
      ArraysFromTypes(d, units.1, n - 1);
    }
  }

  /** parse_hvcc: fewer than 23 bytes are refused; the profile is the low
      5 bits of byte 1, the level byte 12, numOfArrays byte 22, and the
      arrays start at byte 23. */
  function ParseHvccOf(d: seq<byte>): (r: Result<HvccFields>)
    ensures r.Err? <==> |d| < 23
    ensures r.Ok? ==> r.value.profile == d[1] % 32 && r.value.level == d[12] &&
                      |r.value.naluTypes| == |r.value.naluData|
  {
    if |d| < 23 then Err(HVCC_TOO_SHORT)
    else
      var arrays := ArraysFrom(d, 23, d[22]);
      Ok(HvccFields(d[1] % 32, d[12], arrays.0, arrays.1))
  }

  /** A unit read by the inner loop. */
  lemma {:induction false} NalusStep(d: seq<byte>, o: nat, n: nat, read: seq<seq<byte>>, whole: (seq<seq<byte>>, nat))
    requires o + 2 <= |d| && n > 0 && o + 2 + BE16(d[o], d[o + 1]) <= |d|
    requires read + NalusFrom(d, o, n).0 == whole.0 && NalusFrom(d, o, n).1 == whole.1
    ensures var len := BE16(d[o], d[o + 1]);
      (read + [d[o + 2..o + 2 + len]]) + NalusFrom(d, o + 2 + len, n - 1).0 == whole.0 &&
      NalusFrom(d, o + 2 + len, n - 1).1 == whole.1
  {
    var len := BE16(d[o], d[o + 1]);
    var rest := NalusFrom(d, o + 2 + len, n - 1);
    assert read + ([d[o + 2..o + 2 + len]] + rest.0) == (read + [d[o + 2..o + 2 + len]]) + rest.0;
  }

  /** The inner loop of parse_hvcc over the units of one array. */
  method ReadArrayNalus(d: seq<byte>, from: nat, numNalus: nat) returns (nalus: seq<seq<byte>>, pos: nat)
    requires from <= |d|
    ensures (nalus, pos) == NalusFrom(d, from, numNalus)
  {
    nalus, pos := [], from;
    var j: nat := 0;
    while j < numNalus
      invariant j <= numNalus && from <= pos <= |d|
      invariant nalus + NalusFrom(d, pos, numNalus - j).0 == NalusFrom(d, from, numNalus).0
      invariant NalusFrom(d, pos, numNalus - j).1 == NalusFrom(d, from, numNalus).1
      decreases numNalus - j
    {
      if pos + 2 > |d| {
        assert nalus + [] == nalus;
        return;
      }
      var naluLength := BE16(d[pos], d[pos + 1]);
      if pos + 2 + naluLength > |d| {
        assert nalus + [] == nalus;
        pos := pos + 2;
        return;
      }
      NalusStep(d, pos, numNalus - j, nalus, NalusFrom(d, from, numNalus));
      nalus := nalus + [d[pos + 2..pos + 2 + naluLength]];
      pos := pos + 2 + naluLength;
      j := j + 1;
    }
    assert nalus + [] == nalus;
  }

  /** parse_hvcc, the arrays read by ReadArrays. */
  method ParseHvcc(d: seq<byte>) returns (r: Result<HvccFields>)
    ensures r == ParseHvccOf(d)
  {
    if |d| < 23 {
      return Err(HVCC_TOO_SHORT);
    }
    var naluTypes, naluData := ReadArrays(d, 23, d[22]);
    r := Ok(HvccFields(d[1] % 32, d[12], naluTypes, naluData));
  }

  /** The outer loop of parse_hvcc over `numArrays` arrays from `from`,
      the units of each one read by ReadArrayNalus. */
  method ReadArrays(d: seq<byte>, from: nat, numArrays: nat) returns (naluTypes: seq<nat>, naluData: seq<seq<byte>>)
    requires from <= |d|
    ensures (naluTypes, naluData) == ArraysFrom(d, from, numArrays)
  {
    var pos: nat := from;
    naluTypes, naluData := [], [];
    ghost var whole := ArraysAcc(d, from, numArrays, [], []);
    var i: nat := 0;
    while i < numArrays
      invariant i <= numArrays && pos <= |d|
      invariant ArraysAcc(d, pos, numArrays - i, naluTypes, naluData) == whole
      decreases numArrays - i
    {
      if pos + 3 > |d| {
        break;
      }
      var nalUnitType := d[pos] % 64;
      var numNalus := BE16(d[pos + 1], d[pos + 2]);
      var nalus, end := ReadArrayNalus(d, pos + 3, numNalus);
      naluTypes := naluTypes + Repeat(nalUnitType, |nalus|);
      naluData := naluData + nalus;
      pos := end;
      i := i + 1;
    }
    ArraysAccFrom(d, from, numArrays, [], []);
    assert [] + ArraysFrom(d, from, numArrays).0 == ArraysFrom(d, from, numArrays).0;
    assert [] + ArraysFrom(d, from, numArrays).1 == ArraysFrom(d, from, numArrays).1;
  }

  /** The array loop as the method runs it, what has been read so far
      carried along. */
  function ArraysAcc(d: seq<byte>, o: nat, n: nat, types: seq<nat>, data: seq<seq<byte>>): (seq<nat>, seq<seq<byte>>)
    requires o <= |d|
    decreases n
  {
    if n == 0 || o + 3 > |d| then (types, data)
    else
      var units := NalusFrom(d, o + 3, BE16(d[o + 1], d[o + 2]));
      ArraysAcc(d, units.1, n - 1, types + Repeat(d[o] % 64, |units.0|), data + units.0)
  }

  /** Carrying the arrays read so far along is putting them in front. */
  lemma {:induction false} ArraysAccFrom(d: seq<byte>, o: nat, n: nat, types: seq<nat>, data: seq<seq<byte>>)
    requires o <= |d|
    ensures ArraysAcc(d, o, n, types, data) == (types + ArraysFrom(d, o, n).0, data + ArraysFrom(d, o, n).1)
    decreases n
  {
    if n == 0 || o + 3 > |d| {
      assert types + [] == types && data + [] == data;
    } else {
      var units := NalusFrom(d, o + 3, BE16(d[o + 1], d[o + 2]));
      var rep := Repeat(d[o] % 64, |units.0|);
      var rest := ArraysFrom(d, units.1, n - 1);
      ArraysAccFrom(d, units.1, n - 1, types + rep, data + units.0);
      assert (types + rep) + rest.0 == types + (rep + rest.0);
      assert (data + units.0) + rest.1 == data + (units.0 + rest.1);
    }
  }

  /** The type and bytes of each array of a record. */
  function TypesOf(es: seq<V.HvccEntry>): (r: seq<nat>)
    ensures |r| == |es|
  {
    if es == [] then [] else [es[0].typeByte % 64] + TypesOf(es[1..])
  }

  function NalsOf(es: seq<V.HvccEntry>): (r: seq<seq<byte>>)
    ensures |r| == |es|
  {
    if es == [] then [] else [es[0].nal] + NalsOf(es[1..])
  }

  /** An array of one unit, as the Intel VPL backend writes it, is read
      back as its type and that unit. */
  lemma ArrayAt(d: seq<byte>, o: nat, e: V.HvccEntry)
    requires |e.nal| < U16_LIMIT
    requires o + |V.HvccArray(e)| <= |d| && d[o..o + |V.HvccArray(e)|] == V.HvccArray(e)
    ensures d[o] == e.typeByte && BE16(d[o + 1], d[o + 2]) == 1
    ensures NalusFrom(d, o + 3, 1) == ([e.nal], o + |V.HvccArray(e)|)
  {
    var len := EncodeBE16(|e.nal|);
    var head: seq<byte> := [e.typeByte, 0, 1];
    assert V.HvccArray(e) == head + (len + e.nal);
    WindowSplit(d, o, head, len + e.nal);
    WindowSplit(d, o + 3, len, e.nal);
    assert d[o + 3] == len[0] && d[o + 4] == len[1];
    assert d[o] == head[0] && d[o + 1] == 0 && d[o + 2] == 1;
    assert BE16(d[o + 3], d[o + 4]) == |e.nal|;
    assert d[o + 5..o + 5 + |e.nal|] == e.nal;
    assert NalusFrom(d, o + 5 + |e.nal|, 0) == ([], o + 5 + |e.nal|);
    assert [e.nal] + [] == [e.nal];
    assert NalusFrom(d, o + 3, 1) == ([e.nal] + [], o + 5 + |e.nal|);
  }

  /** Arrays of one unit each are read back type by type and unit by
      unit from wherever they sit in the data. */
  lemma {:induction false} ArraysRoundTrip(d: seq<byte>, o: nat, es: seq<V.HvccEntry>)
    requires V.ArraysAt(d, o, es)
    ensures o <= |d| && ArraysFrom(d, o, |es|) == (TypesOf(es), NalsOf(es))
    decreases |es|
  {
    if es != [] {
      var e, tail := es[0], es[1..];
      var o2 := o + 5 + |e.nal|;
      ArraysAtHead(d, o, es);
      ArrayAt(d, o, e);
      ArraysRoundTrip(d, o2, tail);
      ArraysFromCons(d, o, |es|, e.typeByte % 64, e.nal, o2);
      EntriesOfCons(es);
    }
  }

  /** The first array of a layout sits at its offset, the others after it. */
  lemma ArraysAtHead(d: seq<byte>, o: nat, es: seq<V.HvccEntry>)
    requires V.ArraysAt(d, o, es) && es != []
    ensures |es[0].nal| < U16_LIMIT && o + |V.HvccArray(es[0])| <= |d|
    ensures d[o..o + |V.HvccArray(es[0])|] == V.HvccArray(es[0])
    ensures V.ArraysAt(d, o + 5 + |es[0].nal|, es[1..])
  {
  }

  /** Types and units of a list of arrays, one array at a time. */
  lemma EntriesOfCons(es: seq<V.HvccEntry>)
    requires es != []
    ensures |es[1..]| == |es| - 1
    ensures TypesOf(es) == [es[0].typeByte % 64] + TypesOf(es[1..])
    ensures NalsOf(es) == [es[0].nal] + NalsOf(es[1..])
  {
  }

  /** An array of one unit that fits is read, then the other arrays. */
  lemma ArraysFromCons(d: seq<byte>, o: nat, n: nat, t: nat, nal: seq<byte>, o2: nat)
    requires o + 3 <= |d| && n > 0 && d[o] % 64 == t && BE16(d[o + 1], d[o + 2]) == 1
    requires NalusFrom(d, o + 3, 1) == ([nal], o2)
    ensures o2 <= |d| &&
      ArraysFrom(d, o, n) == ([t] + ArraysFrom(d, o2, n - 1).0, [nal] + ArraysFrom(d, o2, n - 1).1)
  {
    assert Repeat(t, 1) == [t];
  }

  /** Data with the profile, level and array count where the record keeps
      them, and the arrays from byte 23, reads back as those arrays. */
  lemma HvccFieldsAt(d: seq<byte>, profile: byte, es: seq<V.HvccEntry>)
    requires V.Encodable(es) && |es| < 256
    requires |d| == 23 + |V.HvccArrays(es)| && d[23..23 + |V.HvccArrays(es)|] == V.HvccArrays(es)
    requires d[1] == profile && d[12] == 0x5D && d[22] == |es|
    ensures ParseHvccOf(d) == Ok(HvccFields(profile % 32, 0x5D, TypesOf(es), NalsOf(es)))
  {
    V.WindowArraysAt(d, 23, es);
    ArraysRoundTrip(d, 23, es);
  }

  /** parse_hvcc reads back an hvcC record built by the Intel VPL backend:
      the low 5 bits of its profile byte, level 0x5D, and each array's type
      and unit. */
  lemma HvccRecordReadsBack(profile: byte, es: seq<V.HvccEntry>)
    requires V.Encodable(es) && |es| < 256
    ensures ParseHvccOf(V.HvccHeader(profile, |es|) + V.HvccArrays(es)) ==
            Ok(HvccFields(profile % 32, 0x5D, TypesOf(es), NalsOf(es)))
  {
    var h, arrays := V.HvccHeader(profile, |es|), V.HvccArrays(es);
    AfterPrefix(h, arrays);
    HvccFieldsAt(h + arrays, profile, es);
  }

  // ---------------------------------------------------------------------------
  // generate_aac_decoder_specific_info

  /** The sampling frequencies of the AAC index table (ISO/IEC 14496-3,
      section 1.6.3.4), by index. */
  const AAC_RATES: seq<int> := [96000, 88200, 64000, 48000, 44100, 32000, 24000, 22050, 16000, 12000, 11025, 8000, 7350]

  /** The index of a rate in the table, 4 (44100 Hz) for any other rate. */
  function SampleRateIndex(rate: int): (i: nat)
    ensures i < |AAC_RATES|
  {
    if rate == 96000 then 0 else if rate == 88200 then 1 else if rate == 64000 then 2
    else if rate == 48000 then 3 else if rate == 44100 then 4 else if rate == 32000 then 5
    else if rate == 24000 then 6 else if rate == 22050 then 7 else if rate == 16000 then 8
    else if rate == 12000 then 9 else if rate == 11025 then 10 else if rate == 8000 then 11
    else if rate == 7350 then 12 else 4
  }

  /** The index names the rate it was chosen for, and every other rate
      maps to the 44100 Hz entry. */
  lemma SampleRateIndexTable(rate: int)
    ensures rate in AAC_RATES ==> AAC_RATES[SampleRateIndex(rate)] == rate
    ensures rate !in AAC_RATES ==> SampleRateIndex(rate) == 4
    ensures forall k :: 0 <= k < |AAC_RATES| ==> SampleRateIndex(AAC_RATES[k]) == k
  {
  }

  const BYTES_RANGE := "bytes must be in range(0, 256)"

  /** generate_aac_decoder_specific_info: object type 2 in the top 5 bits,
      the 4-bit rate index across both bytes, the channel count shifted
      left by 3. The second byte is the OR of the index's low bit at bit 7
      and channels * 8: for 16 to 31 channels the two overlap at bit 7, and
      from 32 channels, or below 0, the value does not fit a byte and
      bytes() raises ValueError. */
  function AacSpecificInfo(rate: int, channels: int): (r: Result<seq<byte>>)
    ensures r.Ok? <==> 0 <= channels < 32
    ensures r.Err? ==> r.error == BYTES_RANGE
    ensures r.Ok? ==> |r.value| == 2 && r.value[0] / 8 == 2
  {
    if channels < 0 || channels >= 32 then Err(BYTES_RANGE)
    else
      var index := SampleRateIndex(rate);
      var shifted := channels * 8;
      var second := if shifted >= 128 then shifted else index % 2 * 128 + shifted;
      Ok([2 * 8 + index / 2, second])
  }

  /** For up to 15 channels the two bytes decode (section 1.6.2.1 of
      ISO/IEC 14496-3) to object type 2, the rate index and the channel
      configuration. */
  lemma AacSpecificInfoReadsBack(rate: int, channels: int)
    requires 0 <= channels < 16
    ensures var b := AacSpecificInfo(rate, channels).value;
      b[0] / 8 == 2 && b[0] % 8 * 2 + b[1] / 128 == SampleRateIndex(rate) &&
      b[1] / 8 % 16 == channels && b[1] % 8 == 0
  {
  }

  /** From 16 channels bit 7 is set whatever the rate, so the index read
      back is odd: 44100 Hz with 16 channels reads back as index 5
      (32000 Hz) with channel configuration 0. */
  lemma AacManyChannelsOverwriteIndex(rate: int, channels: int)
    requires 16 <= channels < 32
    ensures var b := AacSpecificInfo(rate, channels).value;
      b[1] / 128 == 1 && b[1] / 8 % 16 == channels - 16
    ensures AacSpecificInfo(44100, 16) == Ok([0x12, 0x80])
  {
  }
}
