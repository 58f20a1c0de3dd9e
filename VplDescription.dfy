/** The decoder-configuration record the Intel VPL encoder backend builds
    from the parameter-set buffers its encoder hands back: an avcC record
    (section 5.2.4.1.1 of ISO/IEC 14496-15) for H.264, an hvcC record
    (section 8.3.3.1.2 of ISO/IEC 14496-15) for H.265.

    The record is the `description` of the first encoded key chunk, so the
    point of the model is that the record parsers of `AvcParser` and
    `HevcParser` read back what was written. */
module VplDescription {
  import opened Wrappers
  import opened Bytes
  import opened NalUtils
  import A = AvcParser
  import H = HevcParser

  /** The sizes of the buffers the encoder writes its SPS and PPS into. */
  const MAX_SPS_SIZE := 256
  const MAX_PPS_SIZE := 256

  // ---------------------------------------------------------------------------
  // Trimming a parameter set

  /** The unit with a leading 00 00 00 01 or 00 00 01 start code removed:
      a suffix of the buffer, shorter by 4, 3 or 0 bytes, and shorter
      exactly when a start code begins the buffer. */
  function SkipStartCode(s: seq<byte>): (r: seq<byte>)
    ensures |r| <= |s| && r == s[|s| - |r|..]
    ensures |s| - |r| == 4 <==> StartCode4At(s, 0)
    ensures |s| - |r| == 3 <==> StartCode3At(s, 0)
    ensures |s| == |r| <==> !StartCodeAt(s, 0)
  {
    if |s| >= 4 && s[0] == 0 && s[1] == 0 && s[2] == 0 && s[3] == 1 then s[4..]
    else if |s| >= 3 && s[0] == 0 && s[1] == 0 && s[2] == 1 then s[3..]
    else s
  }

  /** The unit without its trailing zero bytes: the longest prefix that
      does not end in 0, everything after it being 0. */
  function TrimZeros(s: seq<byte>): (r: seq<byte>)
    ensures |r| <= |s| && r == s[..|r|]
    ensures r == [] || r[|r| - 1] != 0
  {
    if s != [] && s[|s| - 1] == 0 then TrimZeros(s[..|s| - 1]) else s
  }

  /** What trimming removes is zeros only. */
  lemma {:induction false} TrimZerosDropsZeros(s: seq<byte>, j: nat)
    requires |TrimZeros(s)| <= j < |s|
    ensures s[j] == 0
    decreases |s|
  {
    if s != [] && s[|s| - 1] == 0 && j < |s| - 1 {
      TrimZerosDropsZeros(s[..|s| - 1], j);
    }
  }

  /** The loop that drops trailing zero bytes by shrinking the length. */
  method TrimmedLength(s: seq<byte>) returns (n: nat)
    ensures n <= |s| && s[..n] == TrimZeros(s)
  {
    n := |s|;
    assert s[..n] == s;
    while n > 0 && s[n - 1] == 0
      invariant n <= |s| && TrimZeros(s[..n]) == TrimZeros(s)
    {
      assert s[..n][..n - 1] == s[..n - 1];
      n := n - 1;
    }
  }

  // ---------------------------------------------------------------------------
  // avcC

  /** The avcC record for one SPS and one PPS: configurationVersion 1,
      profile, compatibility and level copied from SPS bytes 1-3, 0xFF
      (lengthSizeMinusOne = 3), 0xE1 (one SPS), the SPS behind its 16-bit
      big-endian length, then one PPS behind its 16-bit length. */
  function AvccRecord(sps: seq<byte>, pps: seq<byte>): (r: seq<byte>)
    requires 4 <= |sps| < U16_LIMIT && 1 <= |pps| < U16_LIMIT
    ensures |r| == 11 + |sps| + |pps|
  {
    [1, sps[1], sps[2], sps[3], 0xFF, 0xE1] + EncodeBE16(|sps|) + sps + [1] + EncodeBE16(|pps|) + pps
  }

  /** build_vpl_description for H.264: both buffers lose their start code
      and trailing zeros; an SPS shorter than 4 bytes or an empty PPS gives
      an empty description. */
  function AvcDescriptionBytes(sps: seq<byte>, pps: seq<byte>): seq<byte>
    requires |sps| <= MAX_SPS_SIZE && |pps| <= MAX_PPS_SIZE
  {
    var s, p := TrimZeros(SkipStartCode(sps)), TrimZeros(SkipStartCode(pps));
    if |s| < 4 || |p| < 1 then [] else AvccRecord(s, p)
  }

  /** What the H.264 description holds: nothing when the trimmed SPS is
      under 4 bytes or the trimmed PPS is empty, and otherwise the fixed
      fields, the SPS bytes 1-3 and both trimmed units with their lengths. */
  lemma AvcDescriptionFields(sps: seq<byte>, pps: seq<byte>)
    requires |sps| <= MAX_SPS_SIZE && |pps| <= MAX_PPS_SIZE
    ensures var s, p := TrimZeros(SkipStartCode(sps)), TrimZeros(SkipStartCode(pps));
      var d := AvcDescriptionBytes(sps, pps);
      (d == [] <==> |s| < 4 || |p| < 1) &&
      (d != [] ==>
        |d| == 11 + |s| + |p| && d[0] == 1 && d[1..4] == s[1..4] && d[4] == 0xFF && d[5] == 0xE1 &&
        BE16(d[6], d[7]) == |s| && d[8..8 + |s|] == s && d[8 + |s|] == 1 &&
        BE16(d[9 + |s|], d[10 + |s|]) == |p| && d[11 + |s|..] == p)
  {
    var s, p := TrimZeros(SkipStartCode(sps)), TrimZeros(SkipStartCode(pps));
    if 4 <= |s| && 1 <= |p| {
      var d := AvccRecord(s, p);
      var head := [1, s[1], s[2], s[3], 0xFF, 0xE1] + EncodeBE16(|s|);
      assert d == head + s + ([1] + EncodeBE16(|p|) + p);
      assert d[8..8 + |s|] == s;
      assert d[11 + |s|..] == p;
    }
  }

  /** The SPS list of the record is the one SPS, and it ends where the
      PPS count byte is. */
  lemma AvccSpsListOf(sps: seq<byte>, pps: seq<byte>)
    requires 4 <= |sps| < U16_LIMIT && 1 <= |pps| < U16_LIMIT
    ensures A.AvccSpsList(AvccRecord(sps, pps)) == [sps]
    ensures A.AvccListEnd(AvccRecord(sps, pps), 6, AvccRecord(sps, pps)[5] % 32) == 8 + |sps|
  {
    var d := AvccRecord(sps, pps);
    var n := |sps|;
    assert d[5] % 32 == 1;
    assert BE16(d[6], d[7]) == n;
    assert d[8..8 + n] == sps;
    A.AvccEntry(d, 6, 1, []);
    A.AvccStop(d, 8 + n, 0, [sps]);
    assert [] + [sps] == [sps];
  }

  /** The PPS list of the record is the one PPS. */
  lemma AvccPpsListOf(sps: seq<byte>, pps: seq<byte>)
    requires 4 <= |sps| < U16_LIMIT && 1 <= |pps| < U16_LIMIT
    ensures A.AvccPpsList(AvccRecord(sps, pps)) == [pps]
  {
    var d := AvccRecord(sps, pps);
    AvccSpsListOf(sps, pps);
    AvccPpsBytes(sps, pps);
    OneEntry(d, 9 + |sps|, pps);
  }

  /** Where the record keeps its PPS: the count 1 right after the SPS, then
      the PPS behind its length. */
  lemma AvccPpsBytes(sps: seq<byte>, pps: seq<byte>)
    requires 4 <= |sps| < U16_LIMIT && 1 <= |pps| < U16_LIMIT
    ensures var d, n := AvccRecord(sps, pps), |sps|;
      d[8 + n] == 1 && BE16(d[9 + n], d[10 + n]) == |pps| && d[11 + n..11 + n + |pps|] == pps
  {
    var front := [1, sps[1], sps[2], sps[3], 0xFF, 0xE1] + EncodeBE16(|sps|) + sps;
    var tail := [1] + EncodeBE16(|pps|) + pps;
    assert AvccRecord(sps, pps) == front + tail;
    assert |front| == 8 + |sps|;
  }

  /** A list of one entry: its length, then its bytes. */
  lemma OneEntry(d: seq<byte>, o: nat, p: seq<byte>)
    requires 0 < |p| && o + 2 + |p| <= |d|
    requires BE16(d[o], d[o + 1]) == |p| && d[o + 2..o + 2 + |p|] == p
    ensures A.AvccPayloads(d, o, 1) == [p]
  {
    var rest := A.AvccPayloads(d, o + 2 + |p|, 0);
    assert rest == [];
    assert A.AvccPayloads(d, o, 1) == [d[o + 2..o + 2 + |p|]] + rest;
  }

  /** A list of one parameter set leaves what its parser makes of it, and
      its header. */
  lemma SingleList<T>(p: seq<byte>, parse: seq<byte> -> Result<T>)
    requires |p| > 0
    ensures A.LastParsed([p], parse) == KeepLast(None, parse(p))
    ensures A.AvcHeadersOf([p]) == [A.ParseAvcNalUnitHeader(p[0])]
  {
    assert [p][..0] == [];
  }

  /** parse_avc_description reads back an avcC record built here: length
      size 4, the one SPS and the one PPS as its lists, their headers in
      that order. */
  lemma AvccRecordRoundTrip(sps: seq<byte>, pps: seq<byte>, ps: A.AvcParsers)
    requires 4 <= |sps| < U16_LIMIT && 1 <= |pps| < U16_LIMIT
    ensures A.AvcDescriptionWith(AvccRecord(sps, pps), ps) ==
      Ok(A.AvcDescriptionInfo(KeepLast(None, ps.sps(sps)), KeepLast(None, ps.pps(pps)),
                              [A.ParseAvcNalUnitHeader(sps[0]), A.ParseAvcNalUnitHeader(pps[0])], 4))
  {
    var d := AvccRecord(sps, pps);
    assert d[4] % 4 + 1 == 4;
    AvccSpsListOf(sps, pps);
    AvccPpsListOf(sps, pps);
    SingleList(sps, ps.sps);
    SingleList(pps, ps.pps);
    var h1, h2 := A.ParseAvcNalUnitHeader(sps[0]), A.ParseAvcNalUnitHeader(pps[0]);
    assert [h1] + [h2] == [h1, h2];
    assert A.AvcDescriptionWith(d, ps) ==
      Ok(A.AvcDescriptionInfo(KeepLast(None, ps.sps(sps)), KeepLast(None, ps.pps(pps)), [h1] + [h2], 4));
  }

  /** The H.264 branch of build_vpl_description. */
  method BuildAvcDescription(sps: seq<byte>, pps: seq<byte>) returns (desc: seq<byte>)
    requires |sps| <= MAX_SPS_SIZE && |pps| <= MAX_PPS_SIZE
    ensures desc == AvcDescriptionBytes(sps, pps)
  {
    desc := [];
    var spsNalu, ppsNalu := SkipStartCode(sps), SkipStartCode(pps);
    var spsSize := TrimmedLength(spsNalu);
    var ppsSize := TrimmedLength(ppsNalu);
    if spsSize < 4 || ppsSize < 1 {
      return;
    }
    var s, p := spsNalu[..spsSize], ppsNalu[..ppsSize];
    desc := desc + [1, s[1], s[2], s[3], 0xFF, 0xE1];
    desc := desc + [spsSize / 0x100, spsSize % 0x100] + s;
    ghost var front := desc;
    desc := desc + [1, ppsSize / 0x100, ppsSize % 0x100] + p;
    AvccRecordSplit(s, p, front, desc);
  }

  /** The record is its SPS half followed by its PPS half. */
  lemma AvccRecordSplit(s: seq<byte>, p: seq<byte>, front: seq<byte>, whole: seq<byte>)
    requires 4 <= |s| < U16_LIMIT && 1 <= |p| < U16_LIMIT
    requires front == [] + [1, s[1], s[2], s[3], 0xFF, 0xE1] + [|s| / 0x100, |s| % 0x100] + s
    requires whole == front + [1, |p| / 0x100, |p| % 0x100] + p
    ensures whole == AvccRecord(s, p)
  {
    var head := [1, s[1], s[2], s[3], 0xFF, 0xE1];
    assert front == head + EncodeBE16(|s|) + s;
    assert [1, |p| / 0x100, |p| % 0x100] == [1] + EncodeBE16(|p|);
  }

  // ---------------------------------------------------------------------------
  // Splitting the HEVC buffers

  /** extract_nalus as the source writes it, one round of its loop from
      `pos`: the scan for a start code gives up at |d| - 2 without saying
      so, the scan for the end of the unit never looks at the last two
      bytes, and an end equal to the start is read as "to the end of the
      data". The round yields a unit (offset and length) when one is left
      after trimming, and the position the next round starts from. */
  datatype ExtractRound = Round(unit: Option<NalUnit>, next: nat) | Stop

  function ScanStartAsWritten(d: seq<byte>, s: nat): (r: nat)
    ensures s <= r
    decreases |d| - s
  {
    if s + 3 > |d| then s
    else if StartCode3At(d, s) then s + 3
    else if StartCode4At(d, s) then s + 4
    else ScanStartAsWritten(d, s + 1)
  }

  function ScanEndAsWritten(d: seq<byte>, e: nat): (r: nat)
    ensures e <= r
    decreases |d| - e
  {
    if e + 3 > |d| then e
    else if StartCodeAt(d, e) then e
    else ScanEndAsWritten(d, e + 1)
  }

  function ExtractRoundAsWritten(d: seq<byte>, pos: nat): ExtractRound
    requires pos < |d|
  {
    var start := ScanStartAsWritten(d, pos);
    if start >= |d| then Stop
    else
      var e := ScanEndAsWritten(d, start);
      var end := if e == start then |d| else if e > |d| then |d| else e;
      var n := |TrimZeros(d[start..end])|;
      Round(if n > 0 then Some(NalUnit(start, n)) else None, start + n)
  }

  /** The loop `while (pos < size)` makes no progress on 00 00 01 65 00 00:
      the first round ends the unit two bytes early, and every round from
      position 4 finds no start code, trims the two zero bytes away and
      starts again from 4. */
  lemma ExtractLoopsAsWritten()
    ensures var d: seq<byte> := [0, 0, 1, 0x65, 0, 0];
      ExtractRoundAsWritten(d, 0) == Round(Some(NalUnit(3, 1)), 4) &&
      ExtractRoundAsWritten(d, 4) == Round(None, 4)
  {
    var d: seq<byte> := [0, 0, 1, 0x65, 0, 0];
    assert StartCode3At(d, 0);
    assert ScanStartAsWritten(d, 0) == 3;
    assert !StartCodeAt(d, 3);
    assert ScanEndAsWritten(d, 3) == 4;
    assert d[3..4] == [0x65];
    assert TrimZeros([0x65]) == [0x65];
    assert ScanStartAsWritten(d, 4) == 4;
    assert ScanEndAsWritten(d, 4) == 4;
    assert d[4..6] == [0, 0];
    assert TrimZeros([0, 0]) == TrimZeros([0]) == TrimZeros([]) == [];
  }

  /** The last two bytes of a unit at the end of the buffer become a
      separate unit: 00 00 01 40 01 0C yields 40 and then 01 0C. */
  lemma ExtractSplitsTailAsWritten()
    ensures var d: seq<byte> := [0, 0, 1, 0x40, 0x01, 0x0C];
      ExtractRoundAsWritten(d, 0) == Round(Some(NalUnit(3, 1)), 4) &&
      ExtractRoundAsWritten(d, 4) == Round(Some(NalUnit(4, 2)), 6)
  {
    var d: seq<byte> := [0, 0, 1, 0x40, 0x01, 0x0C];
    assert StartCode3At(d, 0);
    assert ScanStartAsWritten(d, 0) == 3;
    assert !StartCodeAt(d, 3);
    assert ScanEndAsWritten(d, 3) == 4;
    assert d[3..4] == [0x40];
    assert TrimZeros([0x40]) == [0x40];
    assert ScanStartAsWritten(d, 4) == 4;
    assert ScanEndAsWritten(d, 4) == 4;
    assert d[4..6] == [0x01, 0x0C];
    assert TrimZeros([0x01, 0x0C]) == [0x01, 0x0C];
  }

  /** extract_nalus with the two scans corrected: no start code left ends
      the loop, and a unit runs to the next start code or to the end of the
      data. Each unit is trimmed of trailing zeros; empty ones are dropped.
      The scan goes on from the end of the unit (the loop itself goes on
      from the end of the trimmed unit, which finds the same start code,
      see `ExtractStep`). */
  function ExtractFrom(d: seq<byte>, pos: nat): (r: seq<seq<byte>>)
    requires pos <= |d|
    decreases |d| - pos
  {
    if pos == |d| || NextStartCode(d, pos).None? then []
    else
      var start := NextStartCode(d, pos).value;
      var nal := UnitAt(d, start);
      var rest := ExtractFrom(d, UnitEnd(d, start));
      if |nal| == 0 then rest else [nal] + rest
  }

  /** The unit after a start code, trimmed of its trailing zeros. */
  function UnitAt(d: seq<byte>, start: nat): (r: seq<byte>)
    requires start <= |d|
    ensures start + |r| <= UnitEnd(d, start)
  {
    TrimZeros(d[start..UnitEnd(d, start)])
  }

  /** The trimmed, non-empty payloads of units found in the data. */
  function TrimmedPayloads(d: seq<byte>, units: seq<NalUnit>): seq<seq<byte>>
    requires UnitsInBounds(d, units)
  {
    if units == [] then []
    else
      var nal := TrimZeros(Payload(d, units[0]));
      var rest := TrimmedPayloads(d, units[1..]);
      if |nal| == 0 then rest else [nal] + rest
  }

  /** The scan for a start code passes over a stretch that has none. */
  lemma {:induction false} NextStartCodeSkip(d: seq<byte>, i: nat, j: nat)
    requires i <= j <= |d|
    requires forall k :: i <= k < j ==> !StartCodeAt(d, k)
    ensures NextStartCode(d, i) == NextStartCode(d, j)
    decreases j - i
  {
    if i < j {
      assert !StartCodeAt(d, i);
      NextStartCodeSkip(d, i + 1, j);
    }
  }

  /** Starting the scan anywhere inside a unit finds the same units as
      starting at its end. */
  lemma ExtractSkip(d: seq<byte>, start: nat, j: nat)
    requires start <= |d| && start <= j <= UnitEnd(d, start)
    ensures ExtractFrom(d, j) == ExtractFrom(d, UnitEnd(d, start))
  {
    var end := UnitEnd(d, start);
    NextStartCodeSkip(d, j, end);
    if j < end && end == |d| {
      assert NextStartCode(d, j).None?;
    }
  }

  /** The units find_annexb_nal_units finds from `pos`, when the next
      start code is followed by a non-empty unit. */
  lemma UnitsFromUnit(d: seq<byte>, pos: nat, start: nat)
    requires pos < |d| && NextStartCode(d, pos) == Some(start) && start < UnitEnd(d, start)
    ensures UnitsFrom(d, pos) == [NalUnit(start, UnitEnd(d, start) - start)] + UnitsFrom(d, UnitEnd(d, start))
  {
    UnitsFromStep(d, pos, start, UnitEnd(d, start), []);
  }

  /** ... and when it is followed straight away by another start code or
      the end of the data. */
  lemma UnitsFromNoUnit(d: seq<byte>, pos: nat, start: nat)
    requires pos < |d| && NextStartCode(d, pos) == Some(start) && start == UnitEnd(d, start)
    ensures UnitsFrom(d, pos) == UnitsFrom(d, UnitEnd(d, start))
  {
    UnitsFromStep(d, pos, start, UnitEnd(d, start), []);
  }

  lemma TrimmedPayloadsFirst(d: seq<byte>, u: NalUnit, rest: seq<NalUnit>)
    requires u.offset + u.length <= |d| && UnitsInBounds(d, rest)
    ensures UnitsInBounds(d, [u] + rest)
    ensures |TrimZeros(Payload(d, u))| == 0 ==> TrimmedPayloads(d, [u] + rest) == TrimmedPayloads(d, rest)
    ensures |TrimZeros(Payload(d, u))| > 0 ==>
      TrimmedPayloads(d, [u] + rest) == [TrimZeros(Payload(d, u))] + TrimmedPayloads(d, rest)
  {
    assert ([u] + rest)[1..] == rest;
  }

  lemma UnitsFromInBounds(d: seq<byte>, i: nat)
    requires i <= |d|
    ensures UnitsInBounds(d, UnitsFrom(d, i))
  {
    UnitsFromPlaced(d, i);
  }

  /** The corrected extraction finds exactly the units find_annexb_nal_units
      finds, each trimmed of trailing zeros, the empty ones left out. */
  lemma {:induction false} ExtractMatchesAnnexb(d: seq<byte>, pos: nat)
    requires pos <= |d|
    ensures UnitsInBounds(d, UnitsFrom(d, pos))
    ensures ExtractFrom(d, pos) == TrimmedPayloads(d, UnitsFrom(d, pos))
    decreases |d| - pos
  {
    UnitsFromInBounds(d, pos);
    if pos < |d| && NextStartCode(d, pos).Some? {
      var start := NextStartCode(d, pos).value;
      var end := UnitEnd(d, start);
      ExtractMatchesAnnexb(d, end);
      if start < end {
        UnitsFromUnit(d, pos, start);
        var u := NalUnit(start, end - start);
        TrimmedPayloadsFirst(d, u, UnitsFrom(d, end));
        assert Payload(d, u) == d[start..end];
        if |UnitAt(d, start)| == 0 {
          ExtractEmptyUnit(d, pos, start);
        } else {
          ExtractUnit(d, pos, start);
        }
      } else {
        UnitsFromNoUnit(d, pos, start);
        assert d[start..end] == [];
        ExtractEmptyUnit(d, pos, start);
      }
    }
  }

  lemma PrefixOfSlice(d: seq<byte>, a: nat, b: nat, n: nat)
    requires a + n <= b <= |d|
    ensures d[a..b][..n] == d[a..a + n]
  {
    var lhs, rhs := d[a..b][..n], d[a..a + n];
    forall k | 0 <= k < n
      ensures lhs[k] == rhs[k]
    {
    }
  }

  /** The trimmed unit is the bytes that follow the start code. */
  lemma UnitAtSlice(d: seq<byte>, start: nat)
    requires start <= |d|
    ensures UnitAt(d, start) == d[start..start + |UnitAt(d, start)|]
  {
    PrefixOfSlice(d, start, UnitEnd(d, start), |UnitAt(d, start)|);
  }

  /** A round whose unit trims away to nothing goes on after the unit. */
  lemma ExtractEmptyUnit(d: seq<byte>, pos: nat, start: nat)
    requires pos < |d| && NextStartCode(d, pos) == Some(start) && |UnitAt(d, start)| == 0
    ensures ExtractFrom(d, pos) == ExtractFrom(d, UnitEnd(d, start))
  {
  }

  /** A round with a unit left after trimming yields it first. */
  lemma ExtractUnit(d: seq<byte>, pos: nat, start: nat)
    requires pos < |d| && NextStartCode(d, pos) == Some(start) && |UnitAt(d, start)| > 0
    ensures ExtractFrom(d, pos) == [UnitAt(d, start)] + ExtractFrom(d, UnitEnd(d, start))
  {
  }

  /** One round of the corrected loop keeps "found so far, then what the
      scan finds from here" equal to the whole result: a unit left after
      trimming moves from the second part to the first, and going on from
      the end of the trimmed unit finds what going on from the end of the
      unit finds. */
  lemma ExtractStep(d: seq<byte>, pos: nat, start: nat, n: nat, found: seq<seq<byte>>, total: seq<seq<byte>>,
                    found': seq<seq<byte>>, pos': nat)
    requires pos < |d| && NextStartCode(d, pos) == Some(start)
    requires n == |UnitAt(d, start)| && 0 < n && found + ExtractFrom(d, pos) == total
    requires pos' == start + n && pos' <= |d| && found' == found + [d[start..pos']]
    ensures found' + ExtractFrom(d, pos') == total
  {
    var rest := ExtractFrom(d, UnitEnd(d, start));
    ExtractSkip(d, start, pos');
    assert ExtractFrom(d, pos') == rest;
    ExtractUnit(d, pos, start);
    UnitAtSlice(d, start);
    assert UnitAt(d, start) == d[start..pos'];
    MoveFirst(found, d[start..pos'], rest, ExtractFrom(d, pos), total);
  }

  lemma MoveFirst<T>(found: seq<T>, x: T, rest: seq<T>, whole: seq<T>, total: seq<T>)
    requires whole == [x] + rest && found + whole == total
    ensures (found + [x]) + rest == total
  {
  }

  /** A round whose unit trims away to nothing adds nothing. */
  lemma ExtractStepEmpty(d: seq<byte>, pos: nat, start: nat, found: seq<seq<byte>>, total: seq<seq<byte>>)
    requires pos < |d| && NextStartCode(d, pos) == Some(start)
    requires |UnitAt(d, start)| == 0 && found + ExtractFrom(d, pos) == total
    ensures found + ExtractFrom(d, start) == total
  {
    ExtractSkip(d, start, start);
    ExtractEmptyUnit(d, pos, start);
  }

  /** Every unit the corrected extraction yields is non-empty, no longer
      than the data and does not end in a zero byte. */
  lemma {:induction false} ExtractShape(d: seq<byte>, pos: nat, k: nat)
    requires pos <= |d| && k < |ExtractFrom(d, pos)|
    ensures 0 < |ExtractFrom(d, pos)[k]| <= |d|
    ensures ExtractFrom(d, pos)[k][|ExtractFrom(d, pos)[k]| - 1] != 0
    decreases |d| - pos
  {
    assert pos < |d| && NextStartCode(d, pos).Some?;
    var start := NextStartCode(d, pos).value;
    var end := UnitEnd(d, start);
    if |UnitAt(d, start)| == 0 {
      ExtractEmptyUnit(d, pos, start);
      ExtractShape(d, end, k);
    } else {
      ExtractUnit(d, pos, start);
      if k > 0 {
        ExtractShape(d, end, k - 1);
      }
    }
  }

  /** No unit extracted from a buffer is longer than the buffer. */
  lemma ExtractBounded(d: seq<byte>)
    ensures forall k :: 0 <= k < |ExtractFrom(d, 0)| ==> |ExtractFrom(d, 0)[k]| <= |d|
  {
    forall k | 0 <= k < |ExtractFrom(d, 0)|
      ensures |ExtractFrom(d, 0)[k]| <= |d|
    {
      ExtractShape(d, 0, k);
    }
  }

  /** One round of extract_nalus with its scans corrected: the next start
      code, if any, and the length of the unit after it once trimmed. */
  method NextUnit(data: seq<byte>, pos: nat) returns (found: bool, start: nat, n: nat)
    requires pos <= |data|
    ensures found <==> NextStartCode(data, pos).Some?
    ensures found ==> start == NextStartCode(data, pos).value && n == |UnitAt(data, start)|
  {
    found, start := FindStartCode(data, pos);
    n := 0;
    if found {
      var end := FindUnitEnd(data, start);
      n := TrimmedLength(data[start..end]);
    }
  }

  /** extract_nalus with its scans corrected, as a loop over the buffer. */
  method ExtractNalus(data: seq<byte>) returns (nalus: seq<seq<byte>>)
    ensures nalus == ExtractFrom(data, 0)
  {
    ghost var total := ExtractFrom(data, 0);
    nalus := [];
    var pos := 0;
    while pos < |data|
      invariant pos <= |data|
      invariant nalus + ExtractFrom(data, pos) == total
      decreases |data| - pos
    {
      var found, start, n := NextUnit(data, pos);
      if !found {
        break;
      }
      if n > 0 {
        ghost var before, from := nalus, pos;
        nalus, pos := nalus + [data[start..start + n]], start + n;
        ExtractStep(data, from, start, n, before, total, nalus, pos);
      } else {
        ExtractStepEmpty(data, pos, start, nalus, total);
        pos := start;
      }
    }
    assert ExtractFrom(data, pos) == [];
    assert nalus + [] == nalus;
  }

  // ---------------------------------------------------------------------------
  // hvcC

  /** A unit of at least two bytes whose header says type t. */
  predicate OfType(nal: seq<byte>, t: nat)
  {
    |nal| >= 2 && H.ParseHevcNalUnitHeader(nal[0], nal[1]).nalUnitType == t
  }

  /** The first unit of type t in the list, if any. */
  function FirstOfType(ns: seq<seq<byte>>, t: nat): (r: Option<seq<byte>>)
    ensures r.None? <==> forall k :: 0 <= k < |ns| ==> !OfType(ns[k], t)
    ensures r.Some? ==> exists k :: 0 <= k < |ns| && ns[k] == r.value && OfType(ns[k], t) &&
                                    forall j :: 0 <= j < k ==> !OfType(ns[j], t)
  {
    if ns == [] then None
    else
      var first := FirstOfType(ns[..|ns| - 1], t);
      if first.Some? then first
      else if OfType(ns[|ns| - 1], t) then Some(ns[|ns| - 1])
      else None
  }

  /** The loop that keeps the first VPS, SPS and PPS of at least 2 bytes. */
  method Classify(ns: seq<seq<byte>>) returns (vps: Option<seq<byte>>, sps: Option<seq<byte>>, pps: Option<seq<byte>>)
    ensures vps == FirstOfType(ns, H.NAL_VPS) && sps == FirstOfType(ns, H.NAL_SPS) && pps == FirstOfType(ns, H.NAL_PPS)
  {
    vps, sps, pps := None, None, None;
    for i := 0 to |ns|
      invariant vps == FirstOfType(ns[..i], H.NAL_VPS)
      invariant sps == FirstOfType(ns[..i], H.NAL_SPS)
      invariant pps == FirstOfType(ns[..i], H.NAL_PPS)
    {
      assert ns[..i + 1][..i] == ns[..i];
      var nal := ns[i];
      if |nal| < 2 {
        continue;
      }
      var nalType := nal[0] / 2 % 64;
      if nalType == H.NAL_VPS && vps.None? {
        vps := Some(nal);
      } else if nalType == H.NAL_SPS && sps.None? {
        sps := Some(nal);
      } else if nalType == H.NAL_PPS && pps.None? {
        pps := Some(nal);
      }
    }
    assert ns[..|ns|] == ns;
  }

  /** One parameter-set array of an hvcC record. */
  datatype HvccEntry = HvccEntry(typeByte: byte, nal: seq<byte>)

  predicate Encodable(es: seq<HvccEntry>)
  {
    forall k :: 0 <= k < |es| ==> |es[k].nal| < U16_LIMIT
  }

  /** An array: its type byte (array_completeness set, NAL type in the low
      6 bits), numNalus = 1, the 16-bit big-endian length, the unit. */
  function HvccArray(e: HvccEntry): (r: seq<byte>)
    requires |e.nal| < U16_LIMIT
    ensures |r| == 5 + |e.nal|
  {
    [e.typeByte, 0, 1] + EncodeBE16(|e.nal|) + e.nal
  }

  function HvccArrays(es: seq<HvccEntry>): seq<byte>
    requires Encodable(es)
  {
    if es == [] then [] else HvccArray(es[0]) + HvccArrays(es[1..])
  }

  /** The 23 fixed bytes of the record: configurationVersion 1, the
      profile byte, fixed compatibility, constraint and level (0x5D)
      fields, reserved bits, lengthSizeMinusOne = 3 in 0x0F, numOfArrays. */
  function HvccHeader(profile: byte, numArrays: byte): (r: seq<byte>)
    ensures |r| == 23 && r[0] == 1 && r[1] == profile && r[12] == 0x5D && r[21] == 0x0F && r[22] == numArrays
  {
    [1, profile, 0x60, 0x00, 0x00, 0x00, 0x90, 0x00, 0x00, 0x00, 0x00, 0x00, 0x5D,
     0xF0, 0x00, 0xFC, 0xFD, 0xF8, 0xF8, 0x00, 0x00, 0x0F, numArrays]
  }

  /** The arrays in record order: the VPS when there is one, the SPS, the
      PPS when there is one. */
  function HvccEntries(vps: Option<seq<byte>>, sps: seq<byte>, pps: Option<seq<byte>>): (r: seq<HvccEntry>)
    ensures 1 <= |r| <= 3
  {
    OptionalEntry(0xA0, vps) + [HvccEntry(0xA1, sps)] + OptionalEntry(0xA2, pps)
  }

  /** An array for a parameter set that may be missing. */
  function OptionalEntry(typeByte: byte, nal: Option<seq<byte>>): (r: seq<HvccEntry>)
    ensures |r| == if nal.Some? then 1 else 0
  {
    if nal.Some? then [HvccEntry(typeByte, nal.value)] else []
  }

  /** The profile byte: the low 5 bits of the SPS's second byte, 1 for a
      two-byte SPS. */
  function HvccProfileByte(sps: seq<byte>): byte
    requires |sps| >= 2
  {
    if |sps| > 2 then sps[1] % 32 else 1
  }

  /** The first unit of a type among those of the two buffers is no
      longer than a buffer. */
  lemma FoundUnitShort(spsBuf: seq<byte>, ppsBuf: seq<byte>, t: nat)
    requires |spsBuf| <= MAX_SPS_SIZE && |ppsBuf| <= MAX_PPS_SIZE
    ensures var f := FirstOfType(ExtractFrom(spsBuf, 0) + ExtractFrom(ppsBuf, 0), t);
      f.Some? ==> |f.value| <= MAX_SPS_SIZE
  {
    ExtractBounded(spsBuf);
    ExtractBounded(ppsBuf);
    var a, b := ExtractFrom(spsBuf, 0), ExtractFrom(ppsBuf, 0);
    var ns := a + b;
    forall k | 0 <= k < |ns|
      ensures |ns[k]| <= MAX_SPS_SIZE
    {
      if k < |a| {
        assert ns[k] == a[k];
      } else {
        assert ns[k] == b[k - |a|];
      }
    }
  }

  /** build_vpl_description for H.265: the units of both buffers, the first
      VPS, SPS and PPS among them, and no description without an SPS. */
  function HevcDescriptionBytes(spsBuf: seq<byte>, ppsBuf: seq<byte>): seq<byte>
    requires |spsBuf| <= MAX_SPS_SIZE && |ppsBuf| <= MAX_PPS_SIZE
  {
    var ns := ExtractFrom(spsBuf, 0) + ExtractFrom(ppsBuf, 0);
    var vps, sps, pps := FirstOfType(ns, H.NAL_VPS), FirstOfType(ns, H.NAL_SPS), FirstOfType(ns, H.NAL_PPS);
    if sps.None? then []
    else
      FoundUnitShort(spsBuf, ppsBuf, H.NAL_VPS);
      FoundUnitShort(spsBuf, ppsBuf, H.NAL_SPS);
      FoundUnitShort(spsBuf, ppsBuf, H.NAL_PPS);
      var es := HvccEntries(vps, sps.value, pps);
      HvccHeader(HvccProfileByte(sps.value), |es|) + HvccArrays(es)
  }

  /** The parse state after reading the arrays of `es` one by one. */
  function ArraySteps(st: H.HevcParamSets, es: seq<HvccEntry>, ps: H.HevcParsers): H.HevcParamSets
    decreases |es|
  {
    if es == [] then st else ArraySteps(H.HvccNaluStep(st, es[0].typeByte % 64, es[0].nal, ps), es[1..], ps)
  }

  /** The hvcC array loop of parse_hevc_description reads each written
      array back as one unit of that array's type. */
  lemma HvccArraysRead(pre: seq<byte>, es: seq<HvccEntry>, st: H.HevcParamSets, ps: H.HevcParsers)
    requires Encodable(es)
    ensures H.HvccArraysFrom(pre + HvccArrays(es), |pre|, |es|, st, ps) == ArraySteps(st, es, ps)
  {
    var d := pre + HvccArrays(es);
    assert d[|pre|..|pre| + |HvccArrays(es)|] == HvccArrays(es);
    WindowArraysAt(d, |pre|, es);
    HvccArraysAt(d, |pre|, es, st, ps);
  }

  /** The arrays of `es` lie one after the other from offset o. */
  predicate ArraysAt(d: seq<byte>, o: nat, es: seq<HvccEntry>)
    decreases |es|
  {
    if es == [] then o <= |d|
    else
      |es[0].nal| < U16_LIMIT && o + 5 + |es[0].nal| <= |d| &&
      d[o..o + 5 + |es[0].nal|] == HvccArray(es[0]) && ArraysAt(d, o + 5 + |es[0].nal|, es[1..])
  }

  /** A window holding the written arrays holds them one after the other. */
  lemma {:induction false} WindowArraysAt(d: seq<byte>, o: nat, es: seq<HvccEntry>)
    requires Encodable(es)
    requires o + |HvccArrays(es)| <= |d| && d[o..o + |HvccArrays(es)|] == HvccArrays(es)
    ensures ArraysAt(d, o, es)
    decreases |es|
  {
    if es != [] {
      ArraysHead(d, o, es);
      WindowArraysAt(d, o + 5 + |es[0].nal|, es[1..]);
    }
  }

  /** Arrays lying one after the other are read back one by one. */
  lemma {:induction false} HvccArraysAt(d: seq<byte>, o: nat, es: seq<HvccEntry>, st: H.HevcParamSets, ps: H.HevcParsers)
    requires ArraysAt(d, o, es)
    ensures o <= |d| && H.HvccArraysFrom(d, o, |es|, st, ps) == ArraySteps(st, es, ps)
    decreases |es|
  {
    if es != [] {
      var e := es[0];
      var o2 := o + 5 + |e.nal|;
      ArrayBytesAt(d, o, e, st, ps);
      var next := H.HvccNaluStep(st, e.typeByte % 64, e.nal, ps);
      ArraysFromStep(d, o, |es|, st, ps, e.typeByte % 64, next, o2);
      HvccArraysAt(d, o2, es[1..], next, ps);
      assert |es[1..]| == |es| - 1;
      ArrayStepsCons(st, es, ps, next);
    }
  }

  /** Reading a run of arrays is reading the first, then the others. */
  lemma ArrayStepsCons(st: H.HevcParamSets, es: seq<HvccEntry>, ps: H.HevcParsers, next: H.HevcParamSets)
    requires es != [] && next == H.HvccNaluStep(st, es[0].typeByte % 64, es[0].nal, ps)
    ensures ArraySteps(st, es, ps) == ArraySteps(next, es[1..], ps)
  {
  }

  /** A window holding a run of arrays holds the first array and, after
      it, the others. */
  lemma ArraysHead(d: seq<byte>, o: nat, es: seq<HvccEntry>)
    requires Encodable(es) && es != []
    requires o + |HvccArrays(es)| <= |d| && d[o..o + |HvccArrays(es)|] == HvccArrays(es)
    ensures |es[0].nal| < U16_LIMIT && Encodable(es[1..])
    ensures o + |HvccArray(es[0])| <= |d| && d[o..o + |HvccArray(es[0])|] == HvccArray(es[0])
    ensures var o2 := o + 5 + |es[0].nal|;
      o2 + |HvccArrays(es[1..])| <= |d| && d[o2..o2 + |HvccArrays(es[1..])|] == HvccArrays(es[1..])
  {
    assert |es[0].nal| < U16_LIMIT;
    assert Encodable(es[1..]);
    var a, rest := HvccArray(es[0]), HvccArrays(es[1..]);
    assert HvccArrays(es) == a + rest;
    BytesSplit(d, o, a, rest);
  }

  /** One array of one unit moves the array loop past it. */
  lemma ArraysFromStep(d: seq<byte>, o: nat, n: nat, st: H.HevcParamSets, ps: H.HevcParsers, t: nat, next: H.HevcParamSets, o2: nat)
    requires o + 3 <= |d| && n > 0 && d[o] % 64 == t && BE16(d[o + 1], d[o + 2]) == 1
    requires H.HvccNalusFrom(d, o + 3, 1, t, st, ps) == (next, o2)
    ensures o2 <= |d| && H.HvccArraysFrom(d, o, n, st, ps) == H.HvccArraysFrom(d, o2, n - 1, next, ps)
  {
  }

  /** A window holding two runs of bytes holds each at its place. */
  lemma BytesSplit(d: seq<byte>, o: nat, x: seq<byte>, y: seq<byte>)
    requires o + |x| + |y| <= |d| && d[o..o + |x| + |y|] == x + y
    ensures d[o..o + |x|] == x && d[o + |x|..o + |x| + |y|] == y
  {
    assert d[o..o + |x|] == d[o..o + |x| + |y|][..|x|];
    assert d[o + |x|..o + |x| + |y|] == d[o..o + |x| + |y|][|x|..];
  }

  /** One written array read back: its type byte, a count of 1, and its
      unit as the one unit of the array. */
  lemma ArrayBytesAt(d: seq<byte>, o: nat, e: HvccEntry, st: H.HevcParamSets, ps: H.HevcParsers)
    requires |e.nal| < U16_LIMIT
    requires o + |HvccArray(e)| <= |d| && d[o..o + |HvccArray(e)|] == HvccArray(e)
    ensures d[o] == e.typeByte && BE16(d[o + 1], d[o + 2]) == 1
    ensures H.HvccNalusFrom(d, o + 3, 1, e.typeByte % 64, st, ps) ==
      (H.HvccNaluStep(st, e.typeByte % 64, e.nal, ps), o + |HvccArray(e)|)
  {
    var a := HvccArray(e);
    var n := |e.nal|;
    assert d[o] == a[0] && d[o + 1] == a[1] && d[o + 2] == a[2] && d[o + 3] == a[3] && d[o + 4] == a[4];
    assert BE16(d[o + 3], d[o + 4]) == n;
    assert d[o + 5..o + 5 + n] == a[5..] == e.nal;
  }

  /** The parse state when the arrays hold the given VPS, SPS and PPS:
      each parameter set is the one its parser makes of the unit, and the
      headers come in record order. */
  function ExpectedSets(vps: Option<seq<byte>>, sps: seq<byte>, pps: Option<seq<byte>>, ps: H.HevcParsers): H.HevcParamSets
    requires |sps| >= 2 && (vps.Some? ==> |vps.value| >= 2) && (pps.Some? ==> |pps.value| >= 2)
  {
    H.HevcParamSets(
      if vps.Some? then KeepLast(None, ps.vps(vps.value)) else None,
      KeepLast(None, ps.sps(sps)),
      if pps.Some? then KeepLast(None, ps.pps(pps.value)) else None,
      (if vps.Some? then [H.ParseHevcNalUnitHeader(vps.value[0], vps.value[1])] else []) +
      [H.ParseHevcNalUnitHeader(sps[0], sps[1])] +
      (if pps.Some? then [H.ParseHevcNalUnitHeader(pps.value[0], pps.value[1])] else []))
  }

  lemma EntriesSteps(vps: Option<seq<byte>>, sps: seq<byte>, pps: Option<seq<byte>>, ps: H.HevcParsers)
    requires |sps| >= 2 && (vps.Some? ==> |vps.value| >= 2) && (pps.Some? ==> |pps.value| >= 2)
    ensures ArraySteps(H.NO_PARAM_SETS, HvccEntries(vps, sps, pps), ps) == ExpectedSets(vps, sps, pps, ps)
  {
    var es := HvccEntries(vps, sps, pps);
    var st0 := H.NO_PARAM_SETS;
    var st1 := if vps.Some? then H.HvccNaluStep(st0, 32, vps.value, ps) else st0;
    var st2 := H.HvccNaluStep(st1, 33, sps, ps);
    var st3 := if pps.Some? then H.HvccNaluStep(st2, 34, pps.value, ps) else st2;
    var rest := [HvccEntry(0xA1, sps)] + (if pps.Some? then [HvccEntry(0xA2, pps.value)] else []);
    var tail := if pps.Some? then [HvccEntry(0xA2, pps.value)] else [];
    assert ArraySteps(st2, tail, ps) == st3;
    assert rest[1..] == tail;
    assert ArraySteps(st1, rest, ps) == st3;
    if vps.Some? {
      assert es[1..] == rest;
    } else {
      assert es == rest;
    }
  }

  /** parse_hevc_description reads back an hvcC record built here: length
      size 4, and the VPS, SPS and PPS it was built from. */
  lemma HvccRecordRoundTrip(vps: Option<seq<byte>>, sps: seq<byte>, pps: Option<seq<byte>>, ps: H.HevcParsers)
    requires 2 <= |sps| < U16_LIMIT
    requires vps.Some? ==> 2 <= |vps.value| < U16_LIMIT
    requires pps.Some? ==> 2 <= |pps.value| < U16_LIMIT
    ensures var es := HvccEntries(vps, sps, pps);
      H.HevcDescriptionWith(HvccHeader(HvccProfileByte(sps), |es|) + HvccArrays(es), ps) ==
      Ok(H.HevcDescriptionInfo(ExpectedSets(vps, sps, pps, ps), 4))
  {
    var es := HvccEntries(vps, sps, pps);
    assert Encodable(es);
    var head := HvccHeader(HvccProfileByte(sps), |es|);
    var d := head + HvccArrays(es);
    assert d[21] % 4 + 1 == 4 && d[22] == |es|;
    HvccArraysRead(head, es, H.NO_PARAM_SETS, ps);
    EntriesSteps(vps, sps, pps, ps);
  }

  /** What the H.265 description holds: nothing without an SPS among the
      units of the two buffers; otherwise a record that parse_hevc_description
      reads back with length size 4 and the first VPS, SPS and PPS found. */
  lemma HevcDescriptionReadBack(spsBuf: seq<byte>, ppsBuf: seq<byte>, ps: H.HevcParsers)
    requires |spsBuf| <= MAX_SPS_SIZE && |ppsBuf| <= MAX_PPS_SIZE
    ensures var ns := ExtractFrom(spsBuf, 0) + ExtractFrom(ppsBuf, 0);
      var vps, sps, pps := FirstOfType(ns, H.NAL_VPS), FirstOfType(ns, H.NAL_SPS), FirstOfType(ns, H.NAL_PPS);
      var d := HevcDescriptionBytes(spsBuf, ppsBuf);
      (d == [] <==> sps.None?) &&
      (sps.Some? ==> H.HevcDescriptionWith(d, ps) == Ok(H.HevcDescriptionInfo(ExpectedSets(vps, sps.value, pps, ps), 4)))
  {
    var ns := ExtractFrom(spsBuf, 0) + ExtractFrom(ppsBuf, 0);
    var vps, sps, pps := FirstOfType(ns, H.NAL_VPS), FirstOfType(ns, H.NAL_SPS), FirstOfType(ns, H.NAL_PPS);
    if sps.Some? {
      FoundUnitShort(spsBuf, ppsBuf, H.NAL_VPS);
      FoundUnitShort(spsBuf, ppsBuf, H.NAL_SPS);
      FoundUnitShort(spsBuf, ppsBuf, H.NAL_PPS);
      HvccRecordRoundTrip(vps, sps.value, pps, ps);
    }
  }

  /** Appending one more array to the arrays written so far. */
  lemma {:induction false} HvccArraysAppend(es: seq<HvccEntry>, e: HvccEntry)
    requires Encodable(es) && |e.nal| < U16_LIMIT
    ensures Encodable(es + [e]) && HvccArrays(es + [e]) == HvccArrays(es) + HvccArray(e)
    decreases |es|
  {
    if es == [] {
      assert [] + [e] == [e] && [e][1..] == [];
    } else {
      assert (es + [e])[1..] == es[1..] + [e];
      HvccArraysAppend(es[1..], e);
    }
  }

  /** One array appended to the record under construction. */
  lemma HvccAppendStep(head: seq<byte>, es: seq<HvccEntry>, e: HvccEntry)
    requires Encodable(es) && |e.nal| < U16_LIMIT
    ensures Encodable(es + [e]) && (head + HvccArrays(es)) + HvccArray(e) == head + HvccArrays(es + [e])
  {
    HvccArraysAppend(es, e);
  }

  /** The H.265 branch of build_vpl_description. */
  method BuildHevcDescription(spsBuf: seq<byte>, ppsBuf: seq<byte>) returns (desc: seq<byte>)
    requires |spsBuf| <= MAX_SPS_SIZE && |ppsBuf| <= MAX_PPS_SIZE
    ensures desc == HevcDescriptionBytes(spsBuf, ppsBuf)
  {
    desc := [];
    var fromSps := ExtractNalus(spsBuf);
    var fromPps := ExtractNalus(ppsBuf);
    var nalus := fromSps + fromPps;
    if nalus == [] {
      return;
    }
    var vps, sps, pps := Classify(nalus);
    if sps.None? || |sps.value| < 2 {
      return;
    }
    FoundUnitShort(spsBuf, ppsBuf, H.NAL_VPS);
    FoundUnitShort(spsBuf, ppsBuf, H.NAL_SPS);
    FoundUnitShort(spsBuf, ppsBuf, H.NAL_PPS);
    var s := sps.value;
    var profile: byte := 1;
    if |s| > 2 {
      profile := s[1] % 32;
    }
    var numArrays := 1;
    if vps.Some? {
      numArrays := numArrays + 1;
    }
    if pps.Some? {
      numArrays := numArrays + 1;
    }
    assert numArrays == |HvccEntries(vps, s, pps)|;
    var head := HvccHeader(profile, numArrays);
    desc := head;
    ghost var es: seq<HvccEntry> := [];
    assert desc == head + HvccArrays(es);
    if vps.Some? {
      var e := HvccEntry(0xA0, vps.value);
      HvccAppendStep(head, es, e);
      desc, es := desc + HvccArray(e), es + [e];
    }
    assert es == OptionalEntry(0xA0, vps);
    var e := HvccEntry(0xA1, s);
    HvccAppendStep(head, es, e);
    desc, es := desc + HvccArray(e), es + [e];
    if pps.Some? {
      ghost var before := es;
      e := HvccEntry(0xA2, pps.value);
      HvccAppendStep(head, es, e);
      desc, es := desc + HvccArray(e), es + [e];
      assert es == before + OptionalEntry(0xA2, pps);
    } else {
      assert es == es + OptionalEntry(0xA2, pps);
    }
    assert es == HvccEntries(vps, s, pps);
  }

  /** build_vpl_description: the H.265 record or the H.264 record. */
  method BuildVplDescription(sps: seq<byte>, pps: seq<byte>, isHevc: bool) returns (desc: seq<byte>)
    requires |sps| <= MAX_SPS_SIZE && |pps| <= MAX_PPS_SIZE
    ensures desc == if isHevc then HevcDescriptionBytes(sps, pps) else AvcDescriptionBytes(sps, pps)
  {
    if isHevc {
      desc := BuildHevcDescription(sps, pps);
    } else {
      desc := BuildAvcDescription(sps, pps);
    }
  }
}
