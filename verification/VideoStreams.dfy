/** Raw byte sequence payloads built from fields, and the H.264 and HEVC
    elementary streams made of them. */
module VideoStreams {
  import opened MachineInts
  import opened Options
  import opened WordPairs
  import opened Bits
  import opened NalUnits
  import Products

  // ---------------------------------------------------------------------
  // Payloads.
  // ---------------------------------------------------------------------

  /** The payload of a list of fields: their bits, the stop bit, zero bits. */
  function Rbsp(fields: seq<Field>): seq<Byte>
    requires AllWritable(fields)
  {
    Pack(Padded(FieldsBits(fields) + [true]))
  }

  method BuildRbsp(fields: seq<Field>) returns (r: Option<seq<Byte>>)
    ensures r == if AllWritable(fields) then Some(Rbsp(fields)) else None
  {
    var w := new BitWriter();
    var ok := w.WriteAll(fields);
    if !ok {
      return None;
    }
    assert [] + FieldsBits(fields) == FieldsBits(fields);
    w.RbspTrailingBits();
    assert Padded(w.bits) == w.bits;
    var bytes := w.ToBytes();
    return Some(bytes);
  }

  lemma {:induction false} PackLast(bits: seq<Bit>)
    requires |bits| % 8 == 0 && bits != []
    ensures Pack(bits) != [] && Pack(bits)[|Pack(bits)| - 1] == PackByte(bits[|bits| - 8..])
    decreases |bits|
  {
    if |bits| == 8 {
      assert bits[..8] == bits && bits[|bits| - 8..] == bits;
      assert Pack(bits) == [PackByte(bits)] + Pack(bits[8..]) && Pack(bits[8..]) == [];
    } else {
      PackLast(bits[8..]);
      assert bits[8..][|bits| - 16..] == bits[|bits| - 8..];
    }
  }

  lemma {:induction false} SetBitMeansNonzero(bits: seq<Bit>, i: nat)
    requires i < |bits| && bits[i]
    ensures BitsValue(bits) > 0
  {
    if i < |bits| - 1 {
      SetBitMeansNonzero(bits[..|bits| - 1], i);
    }
  }

  lemma LastByteNonzero(bits: seq<Bit>, i: nat)
    requires |bits| % 8 == 0 && |bits| - 8 <= i < |bits| && bits[i]
    ensures Pack(bits) != [] && EndsNonzero(Pack(bits))
  {
    PackLast(bits);
    hide Pack;
    SetBitMeansNonzero(bits[|bits| - 8..], i - (|bits| - 8));
  }

  /** The stop bit keeps the last byte from being zero. */
  lemma RbspEndsNonzero(fields: seq<Field>)
    requires AllWritable(fields)
    ensures Rbsp(fields) != [] && EndsNonzero(Rbsp(fields))
  {
    hide FieldsBits, Pack, EndsNonzero;
    LastByteNonzero(Padded(FieldsBits(fields) + [true]), |FieldsBits(fields)|);
  }

  lemma RbspHoldsFields(fields: seq<Field>)
    requires AllWritable(fields)
    ensures At(Unpack(Rbsp(fields)), 0, FieldsBits(fields))
  {
    var content := FieldsBits(fields);
    var bits := Padded(content + [true]);
    UnpackPack(bits);
    hide Pack, Unpack, FieldsBits;
    assert bits[..|content|] == content;
  }

  /** The payload's fields read back as written. */
  lemma RbspReadsBack(fields: seq<Field>)
    requires AllWritable(fields) && AllVisible(fields)
    ensures ReadFields(ShapesOf(fields), Unpack(Rbsp(fields)), 0) == Some((ValuesOf(fields), |FieldsBits(fields)|))
  {
    hide *;
    RbspHoldsFields(fields);
    FieldsReadBack(Unpack(Rbsp(fields)), 0, fields);
  }

  // ---------------------------------------------------------------------
  // Units and streams.
  // ---------------------------------------------------------------------

  datatype Unit = Unit(header: seq<Byte>, fields: seq<Field>)

  predicate GoodUnit(u: Unit) {
    GoodHeader(u.header) && AllWritable(u.fields) && AllVisible(u.fields)
  }

  predicate GoodUnits(units: seq<Unit>) {
    forall i :: 0 <= i < |units| ==> GoodUnit(units[i])
  }

  function UnitNal(u: Unit): seq<Byte>
    requires GoodUnit(u)
  {
    NalBytes(u.header, Rbsp(u.fields))
  }

  function UnitNals(units: seq<Unit>): (r: seq<seq<Byte>>)
    requires GoodUnits(units)
    ensures |r| == |units|
  {
    seq(|units|, i requires 0 <= i < |units| => UnitNal(units[i]))
  }

  /** What a decoder makes of one NAL unit with a known header length. */
  function DecodedPayload(nal: seq<Byte>, headerLen: nat): seq<Byte>
    requires headerLen <= |nal|
  {
    Unescape(nal[headerLen..], 0)
  }

  /** The NAL unit decodes to the header, the payload and the field values of
      the unit it was made from. */
  ghost predicate DecodesTo(nal: seq<Byte>, u: Unit)
    requires GoodUnit(u)
  {
    var h := |u.header|;
    && h <= |nal| && nal[..h] == u.header
    && DecodedPayload(nal, h) == Rbsp(u.fields)
    && ReadFields(ShapesOf(u.fields), Unpack(DecodedPayload(nal, h)), 0) == Some((ValuesOf(u.fields), |FieldsBits(u.fields)|))
  }

  lemma UnitDecodes(u: Unit)
    requires GoodUnit(u)
    ensures DecodesTo(UnitNal(u), u) && Clean(UnitNal(u))
  {
    var payload := Rbsp(u.fields);
    RbspEndsNonzero(u.fields);
    RbspReadsBack(u.fields);
    NalIsClean(u.header, payload);
    UnescapeEscaped(payload, 0);
    hide Rbsp, Escaped, Unescape, ReadFields, AllWritable, AllVisible;
    assert UnitNal(u)[|u.header|..] == Escaped(payload, 0);
  }

  /** A generated stream splits at its start codes into exactly the units'
      NALs, none of which contains a start code, and each decodes to the header
      and field values it was made from. */
  lemma StreamReadsBack(units: seq<Unit>)
    requires GoodUnits(units)
    ensures Split(AnnexB(UnitNals(units))) == UnitNals(units)
    ensures forall i :: 0 <= i < |units| ==>
      DecodesTo(UnitNals(units)[i], units[i]) && NoStartCode(UnitNals(units)[i])
  {
    var nals := UnitNals(units);
    hide GoodUnit, UnitNal, DecodesTo, Split, AnnexB;
    forall i | 0 <= i < |units| ensures DecodesTo(nals[i], units[i]) && Clean(nals[i]) {
      assert GoodUnit(units[i]);
      UnitDecodes(units[i]);
    }
    assert forall nal :: nal in nals ==> Clean(nal);
    SplitRecovers(nals);
  }

  /** Appends one unit's NAL to a stream. */
  method AppendUnit(out: seq<Byte>, u: Unit, ghost units: seq<Unit>) returns (longer: seq<Byte>)
    requires GoodUnit(u) && GoodUnits(units) && out == AnnexB(UnitNals(units))
    ensures GoodUnits(units + [u]) && longer == AnnexB(UnitNals(units + [u]))
  {
    hide *;
    UnitMeans(u);
    var rbsp := BuildRbsp(u.fields);
    var nal := AnnexBNal(u.header, rbsp.value);
    longer := out + nal;
    UnitsSnoc(units, u);
    AnnexBSnoc(UnitNals(units), UnitNal(u));
  }

  lemma UnitMeans(u: Unit)
    requires GoodUnit(u)
    ensures AllWritable(u.fields) && UnitNal(u) == NalBytes(u.header, Rbsp(u.fields))
  {}

  lemma UnitsSnoc(units: seq<Unit>, u: Unit)
    requires GoodUnit(u) && GoodUnits(units)
    ensures GoodUnits(units + [u]) && UnitNals(units + [u]) == UnitNals(units) + [UnitNal(u)]
  {
    hide GoodUnit, UnitNal;
  }

  /** Parts that can be written and seen, put together. */
  lemma GoodParts(a: seq<Field>, b: seq<Field>)
    requires AllWritable(a) && AllVisible(a) && AllWritable(b) && AllVisible(b)
    ensures AllWritable(a + b) && AllVisible(a + b)
  {
    hide Writable, Visible;
  }

  /** How often a position i with i % idrInterval == 0 comes up, for either sign
      of the interval; no position is tested when the interval is zero. */
  function PeriodOf(idrInterval: int): (n: int)
    ensures n > 0
  {
    if idrInterval == 0 then 1 else Abs(idrInterval)
  }

  lemma SameMultiples(i: int, idrInterval: int)
    requires idrInterval != 0
    ensures i % idrInterval == 0 <==> i % PeriodOf(idrInterval) == 0
  {
    if idrInterval < 0 {
      Products.DivModUnique(i, -idrInterval, -(i / idrInterval), i % idrInterval);
    }
  }

  lemma SmallPowers()
    ensures Pow2(1) == 2 && Pow2(2) == 4 && Pow2(3) == 8 && Pow2(4) == 16 && Pow2(5) == 32 && Pow2(6) == 64
    ensures Pow2(8) == 256 && Pow2(16) == 0x1_0000
  {
    assert Pow2(4) == 16 && Pow2(8) == 256;
    Pow2Add(8, 8);
  }
}

/** The H.264 stream builder. */
module H264Streams {
  import opened MachineInts
  import opened Products
  import opened Options
  import opened WordPairs
  import opened Bits
  import opened NalUnits
  import opened VideoStreams

  const NAL_SLICE := 1
  const NAL_IDR_SLICE := 5
  const NAL_SPS := 7
  const NAL_PPS := 8
  const SLICE_TYPE_P := 0
  const SLICE_TYPE_I := 2

  function NalHeader(nalRefIdc: int, nalUnitType: int): (h: seq<Byte>)
    requires 0 <= nalRefIdc < 4 && 0 < nalUnitType < 32
    ensures GoodHeader(h)
  {
    [nalRefIdc * 32 + nalUnitType]
  }

  function SpsFields(spsId: int, maxNumRefFrames: int): seq<Field> {
    [U(8, 66), U(1, 0), U(1, 0), U(1, 0), U(1, 0), U(1, 0), U(1, 0), U(2, 0), U(8, 30),
     Ue(spsId), Ue(0), Ue(2), Ue(maxNumRefFrames), U(1, 0), Ue(3), Ue(3), U(1, 1), U(1, 1), U(1, 0), U(1, 0)]
  }

  function PpsFields(ppsId: int, spsId: int, numRefIdxL0DefaultActiveMinus1: int): seq<Field> {
    [Ue(ppsId), Ue(spsId), U(1, 0), U(1, 0), Ue(0), Ue(numRefIdxL0DefaultActiveMinus1), Ue(0), U(1, 0), U(2, 0),
     Se(0), Se(0), Se(0), U(1, 0), U(1, 0), U(1, 0)]
  }

  function SliceFields(sliceType: int, frameNum: int, isIdr: bool, idrPicId: int): seq<Field> {
    [Ue(0), Ue(sliceType), Ue(0), U(4, frameNum)] + (if isIdr then [Ue(idrPicId)] else [])
  }

  lemma SpsIsGood(maxNumRefFrames: int)
    ensures GoodUnit(Unit(NalHeader(3, NAL_SPS), SpsFields(0, maxNumRefFrames))) <==> maxNumRefFrames >= 0
    ensures AllWritable(SpsFields(0, maxNumRefFrames)) <==> maxNumRefFrames >= 0
  {
    SmallPowers();
    var head: seq<Field> := [U(8, 66), U(1, 0), U(1, 0), U(1, 0), U(1, 0), U(1, 0), U(1, 0), U(2, 0), U(8, 30), Ue(0), Ue(0), Ue(2)];
    var refs: seq<Field> := [Ue(maxNumRefFrames)];
    var tail: seq<Field> := [U(1, 0), Ue(3), Ue(3), U(1, 1), U(1, 1), U(1, 0), U(1, 0)];
    assert SpsFields(0, maxNumRefFrames) == head + refs + tail;
    hide Pow2, SpsFields;
    assert AllWritable(head) && AllVisible(head) && AllWritable(tail) && AllVisible(tail);
    assert refs[0] in head + refs + tail;
    hide Visible;
    if maxNumRefFrames >= 0 {
      assert AllWritable(refs);
      assert AllVisible(refs) by { VisibleUe(maxNumRefFrames); }
      GoodParts(head, refs);
      GoodParts(head + refs, tail);
    } else {
      assert !Writable(refs[0]);
    }
  }

  lemma VisibleUe(value: int)
    ensures AllVisible([Ue(value)])
  {}

  lemma PpsIsGood(numRefIdx: int)
    ensures GoodUnit(Unit(NalHeader(3, NAL_PPS), PpsFields(0, 0, numRefIdx))) <==> numRefIdx >= 0
    ensures AllWritable(PpsFields(0, 0, numRefIdx)) <==> numRefIdx >= 0
  {
    if numRefIdx >= 0 {
      SmallPowers();
      hide Pow2;
    } else {
      assert PpsFields(0, 0, numRefIdx)[5] in PpsFields(0, 0, numRefIdx);
      assert !Writable(Ue(numRefIdx));
    }
  }

  lemma SliceIsGood(header: seq<Byte>, sliceType: nat, frameNum: int, isIdr: bool, idrPicId: nat)
    requires GoodHeader(header) && 0 <= frameNum < 16
    ensures GoodUnit(Unit(header, SliceFields(sliceType, frameNum, isIdr, idrPicId)))
  {
    SmallPowers();
    hide Pow2;
  }

  // ---------------------------------------------------------------------
  // The access units in closed form.
  // ---------------------------------------------------------------------

  datatype Gop = Gop(idrInterval: int, leadingIdrOnly: bool)

  predicate IsKeyframePosition(g: Gop, i: nat)
    requires g.idrInterval > 0
  {
    i % g.idrInterval == 0
  }

  predicate IsIdr(g: Gop, i: nat)
    requires g.idrInterval > 0
  {
    IsKeyframePosition(g, i) && (i == 0 || !g.leadingIdrOnly)
  }

  /** The last IDR position before i. */
  function LastIdr(g: Gop, i: nat): int
    requires g.idrInterval > 0 && i > 0
  {
    if g.leadingIdrOnly then 0 else ((i - 1) / g.idrInterval) * g.idrInterval
  }

  /** How many pictures, modulo 16, follow the last IDR picture before i. */
  function FrameNum(g: Gop, i: nat): (n: int)
    requires g.idrInterval > 0
    ensures 0 <= n < 16
  {
    if i == 0 then 0 else (i - 1 - LastIdr(g, i)) % 16
  }

  /** How many IDR pictures precede i. */
  function IdrCount(g: Gop, i: nat): (n: nat)
    requires g.idrInterval > 0
  {
    if i == 0 then 0 else if g.leadingIdrOnly then 1 else (i - 1) / g.idrInterval + 1
  }

  function AccessUnit(g: Gop, i: nat): Unit
    requires g.idrInterval > 0
  {
    var frameNum := FrameNum(g, i);
    if IsIdr(g, i) then Unit(NalHeader(3, NAL_IDR_SLICE), SliceFields(SLICE_TYPE_I, frameNum, true, IdrCount(g, i)))
    else if IsKeyframePosition(g, i) then Unit(NalHeader(3, NAL_SLICE), SliceFields(SLICE_TYPE_I, frameNum, false, 0))
    else Unit(NalHeader(2, NAL_SLICE), SliceFields(SLICE_TYPE_P, frameNum, false, 0))
  }

  function Parameters(maxNumRefFrames: int, numRefIdx: int): seq<Unit> {
    [Unit(NalHeader(3, NAL_SPS), SpsFields(0, maxNumRefFrames)), Unit(NalHeader(3, NAL_PPS), PpsFields(0, 0, numRefIdx))]
  }

  function Units(maxNumRefFrames: int, numRefIdx: int, g: Gop, total: nat): (u: seq<Unit>)
    requires g.idrInterval > 0
  {
    Parameters(maxNumRefFrames, numRefIdx) + seq(total, i requires 0 <= i < total => AccessUnit(g, i))
  }

  lemma AccessUnitIsGood(g: Gop, i: nat)
    requires g.idrInterval > 0
    ensures GoodUnit(AccessUnit(g, i))
  {
    hide GoodUnit, SliceFields, FrameNum;
    SliceIsGood(NalHeader(3, NAL_IDR_SLICE), SLICE_TYPE_I, FrameNum(g, i), true, IdrCount(g, i));
    SliceIsGood(NalHeader(3, NAL_SLICE), SLICE_TYPE_I, FrameNum(g, i), false, 0);
    SliceIsGood(NalHeader(2, NAL_SLICE), SLICE_TYPE_P, FrameNum(g, i), false, 0);
  }

  lemma UnitsAreGood(maxNumRefFrames: int, numRefIdx: int, g: Gop, total: nat)
    requires g.idrInterval > 0 && maxNumRefFrames >= 0 && numRefIdx >= 0
    ensures GoodUnits(Units(maxNumRefFrames, numRefIdx, g, total))
  {
    SpsIsGood(maxNumRefFrames);
    PpsIsGood(numRefIdx);
    hide GoodUnit, SpsFields, PpsFields, AccessUnit;
    forall i: nat | i < total ensures GoodUnit(AccessUnit(g, i)) {
      AccessUnitIsGood(g, i);
    }
  }

  /** The running counters follow the closed forms. */
  lemma CountersStep(g: Gop, i: nat)
    requires g.idrInterval > 0
    ensures FrameNum(g, i + 1) == if IsIdr(g, i) then 0 else (FrameNum(g, i) + 1) % 16
    ensures IdrCount(g, i + 1) == IdrCount(g, i) + if IsIdr(g, i) then 1 else 0
  {
    if i > 0 {
      PreviousQuotient(i, g.idrInterval);
      LastIdrStep(g, i);
      NextModulo(i - 1 - LastIdr(g, i));
    } else {
      DivModUnique(0, g.idrInterval, 0, 0);
    }
    hide LastIdr;
  }

  lemma LastIdrStep(g: Gop, i: nat)
    requires g.idrInterval > 0 && i > 0
    ensures LastIdr(g, i + 1) == if IsIdr(g, i) then i else LastIdr(g, i)
    ensures LastIdr(g, i) <= i - 1
  {
    PreviousQuotient(i, g.idrInterval);
  }

  lemma PreviousQuotient(i: int, n: int)
    requires i > 0 && n > 0
    ensures (i - 1) / n == if i % n == 0 then i / n - 1 else i / n
    ensures i % n == 0 ==> (i / n) * n == i
  {
    var q, r := i / n, i % n;
    assert i == n * q + r;
    if r == 0 {
      Distribute(n, q - 1, 1);
      DivModUnique(i - 1, n, q - 1, n - 1);
    } else {
      DivModUnique(i - 1, n, q, r - 1);
    }
  }

  // ---------------------------------------------------------------------
  // What clause 7.4.3 of ITU-T H.264 asks of an IDR picture: frame_num 0.
  // ---------------------------------------------------------------------

  /** A later IDR picture is written with the frame number the running counter
      has reached. */
  lemma LaterIdrFrameNum(g: Gop, i: nat)
    requires g.idrInterval > 0 && i > 0 && IsIdr(g, i)
    ensures FrameNum(g, i) == (g.idrInterval - 1) % 16 && g.idrInterval <= i
  {
    MultipleBefore(i, g.idrInterval);
    assert LastIdr(g, i) == i - g.idrInterval;
    hide LastIdr;
  }

  lemma MultipleBefore(i: int, n: int)
    requires i > 0 && n > 0 && i % n == 0
    ensures ((i - 1) / n) * n == i - n && n <= i
  {
    var q := i / n;
    assert i == n * q;
    if q <= 0 {
      Monotone(n, q, 0);
    }
    Monotone(n, 1, q);
    Distribute(n, q, -1);
    DivModUnique(i - 1, n, q - 1, n - 1);
  }

  /** All IDR pictures of a stream carry frame number 0 exactly when there is no
      later one or the interval is one more than a multiple of 16. */
  lemma IdrFrameNumIsZeroIff(g: Gop, total: nat)
    requires g.idrInterval > 0
    ensures (forall i: nat | i < total && IsIdr(g, i) :: FrameNum(g, i) == 0)
       <==> g.leadingIdrOnly || total <= g.idrInterval || (g.idrInterval - 1) % 16 == 0
  {
    forall i: nat | i > 0 && IsIdr(g, i) ensures FrameNum(g, i) == (g.idrInterval - 1) % 16 && g.idrInterval <= i {
      LaterIdrFrameNum(g, i);
    }
    DivModUnique(g.idrInterval, g.idrInterval, 1, 0);
    assert !g.leadingIdrOnly ==> IsIdr(g, g.idrInterval);
    hide LastIdr;
  }

  /** With an IDR picture every twelve, the second one is written with frame
      number 11. */
  lemma SecondIdrFrameNum()
    ensures IsIdr(Gop(12, false), 12) && FrameNum(Gop(12, false), 12) == 11
  {}

  lemma NextModulo(x: int)
    requires x >= 0
    ensures (x + 1) % 16 == (x % 16 + 1) % 16
  {}

  method BuildStream(totalAccessUnits: int, idrInterval: int, maxNumRefFrames: int, numRefIdx: int, leadingIdrOnly: bool)
    returns (r: Option<seq<Byte>>)
    ensures r == None <==> maxNumRefFrames < 0 || numRefIdx < 0 || (idrInterval == 0 && totalAccessUnits > 0)
    ensures r.Some? ==>
      var total := if totalAccessUnits < 0 then 0 else totalAccessUnits;
      var units := Units(maxNumRefFrames, numRefIdx, Gop(PeriodOf(idrInterval), leadingIdrOnly), total);
      GoodUnits(units) && r == Some(AnnexB(UnitNals(units)))
  {
    SpsIsGood(maxNumRefFrames);
    PpsIsGood(numRefIdx);
    hide GoodUnits, GoodUnit, AllWritable, SpsFields, PpsFields, Rbsp, AnnexB, UnitNals, AccessUnit, FrameNum, IdrCount, SliceFields;
    var spsRbsp := BuildRbsp(SpsFields(0, maxNumRefFrames));
    if spsRbsp.None? {
      return None;
    }
    var ppsRbsp := BuildRbsp(PpsFields(0, 0, numRefIdx));
    if ppsRbsp.None? {
      return None;
    }
    ghost var g := Gop(PeriodOf(idrInterval), leadingIdrOnly);
    NoUnits();
    var out := AppendUnit([], Unit(NalHeader(3, NAL_SPS), SpsFields(0, maxNumRefFrames)), []);
    ghost var units := [Unit(NalHeader(3, NAL_SPS), SpsFields(0, maxNumRefFrames))];
    assert [] + units == units;
    out := AppendUnit(out, Unit(NalHeader(3, NAL_PPS), PpsFields(0, 0, numRefIdx)), units);
    NoAccessUnits(maxNumRefFrames, numRefIdx, g);
    var frameNum, idrPicId := 0, 0;
    StartCounters(g);
    var total := if totalAccessUnits < 0 then 0 else totalAccessUnits;
    for i := 0 to total
      invariant GoodUnits(Units(maxNumRefFrames, numRefIdx, g, i))
      invariant out == AnnexB(UnitNals(Units(maxNumRefFrames, numRefIdx, g, i)))
      invariant frameNum == FrameNum(g, i) && idrPicId == IdrCount(g, i)
      invariant i > 0 ==> idrInterval != 0
    {
      if idrInterval == 0 {
        return None;
      }
      SameMultiples(i, idrInterval);
      AccessUnitIsGood(g, i);
      CountersStep(g, i);
      OneMoreUnit(maxNumRefFrames, numRefIdx, g, i);
      AccessUnitIs(g, i);
      var isKeyframePosition := i % idrInterval == 0;
      var unit: Unit;
      if isKeyframePosition && (i == 0 || !leadingIdrOnly) {
        unit := Unit(NalHeader(3, NAL_IDR_SLICE), SliceFields(SLICE_TYPE_I, frameNum, true, idrPicId));
        idrPicId := idrPicId + 1;
        frameNum := 0;
      } else if isKeyframePosition {
        unit := Unit(NalHeader(3, NAL_SLICE), SliceFields(SLICE_TYPE_I, frameNum, false, 0));
        frameNum := (frameNum + 1) % 16;
      } else {
        unit := Unit(NalHeader(2, NAL_SLICE), SliceFields(SLICE_TYPE_P, frameNum, false, 0));
        frameNum := (frameNum + 1) % 16;
      }
      out := AppendUnit(out, unit, Units(maxNumRefFrames, numRefIdx, g, i));
    }
    return Some(out);
  }

  lemma NoUnits()
    ensures GoodUnits([]) && AnnexB(UnitNals([])) == []
  {}

  lemma StartCounters(g: Gop)
    requires g.idrInterval > 0
    ensures FrameNum(g, 0) == 0 && IdrCount(g, 0) == 0
  {}

  lemma NoAccessUnits(maxNumRefFrames: int, numRefIdx: int, g: Gop)
    requires g.idrInterval > 0
    ensures Units(maxNumRefFrames, numRefIdx, g, 0) == Parameters(maxNumRefFrames, numRefIdx)
    ensures Parameters(maxNumRefFrames, numRefIdx)
         == [Unit(NalHeader(3, NAL_SPS), SpsFields(0, maxNumRefFrames))] + [Unit(NalHeader(3, NAL_PPS), PpsFields(0, 0, numRefIdx))]
  {}

  lemma OneMoreUnit(maxNumRefFrames: int, numRefIdx: int, g: Gop, i: nat)
    requires g.idrInterval > 0
    ensures Units(maxNumRefFrames, numRefIdx, g, i + 1) == Units(maxNumRefFrames, numRefIdx, g, i) + [AccessUnit(g, i)]
  {}

  lemma AccessUnitIs(g: Gop, i: nat)
    requires g.idrInterval > 0
    ensures AccessUnit(g, i)
         == if i % g.idrInterval == 0 && (i == 0 || !g.leadingIdrOnly) then
              Unit(NalHeader(3, NAL_IDR_SLICE), SliceFields(SLICE_TYPE_I, FrameNum(g, i), true, IdrCount(g, i)))
            else if i % g.idrInterval == 0 then Unit(NalHeader(3, NAL_SLICE), SliceFields(SLICE_TYPE_I, FrameNum(g, i), false, 0))
            else Unit(NalHeader(2, NAL_SLICE), SliceFields(SLICE_TYPE_P, FrameNum(g, i), false, 0))
  {}

  /** The generated stream reads back: it splits into the parameter sets and one
      NAL per access unit, and every field returns the value written. */
  lemma StreamIsReadBack(maxNumRefFrames: int, numRefIdx: int, g: Gop, total: nat)
    requires g.idrInterval > 0 && maxNumRefFrames >= 0 && numRefIdx >= 0
    ensures var units := Units(maxNumRefFrames, numRefIdx, g, total);
      && GoodUnits(units)
      && Split(AnnexB(UnitNals(units))) == UnitNals(units)
      && forall i :: 0 <= i < |units| ==> DecodesTo(UnitNals(units)[i], units[i]) && NoStartCode(UnitNals(units)[i])
  {
    UnitsAreGood(maxNumRefFrames, numRefIdx, g, total);
    StreamReadsBack(Units(maxNumRefFrames, numRefIdx, g, total));
  }
}

/** The HEVC stream builder. */
module HevcStreams {
  import opened MachineInts
  import opened Products
  import opened Options
  import opened WordPairs
  import opened Bits
  import opened NalUnits
  import opened VideoStreams

  const NAL_TRAIL_R := 1
  const NAL_IDR_W_RADL := 19
  const NAL_CRA_NUT := 21
  const NAL_VPS := 32
  const NAL_SPS := 33
  const NAL_PPS := 34
  const SLICE_P := 1
  const SLICE_I := 2

  /** The two header bytes, for layer 0 and temporal id 1. */
  function NalHeader(nalUnitType: int): (h: seq<Byte>)
    requires 0 <= nalUnitType < 64
    ensures GoodHeader(h)
  {
    [nalUnitType * 2, 1]
  }

  function CompatibilityFlags(): seq<Field> {
    [U(1, 0), U(1, 1)] + seq(30, _ => U(1, 0))
  }

  function ProfileTierLevel(): seq<Field> {
    [U(2, 0), U(1, 0), U(5, 1)] + CompatibilityFlags()
    + [U(1, 1), U(1, 0), U(1, 1), U(1, 1), U(43, 0), U(1, 0), U(8, 60)]
  }

  function VpsFields(vpsId: int): seq<Field> {
    [U(4, vpsId), U(1, 1), U(1, 1), U(6, 0), U(3, 0), U(1, 1), U(16, 0xFFFF)] + ProfileTierLevel()
    + [U(1, 0), Ue(0), Ue(0), Ue(0), U(6, 0), Ue(0), U(1, 0), U(1, 0)]
  }

  function SpsFields(vpsId: int, spsId: int): seq<Field> {
    [U(4, vpsId), U(3, 0), U(1, 1)] + ProfileTierLevel()
    + [Ue(spsId), Ue(1), Ue(64), Ue(64), U(1, 0), Ue(0), Ue(0), Ue(0), U(1, 0), Ue(0), Ue(0), Ue(0),
       Ue(0), Ue(3), Ue(0), Ue(3), Ue(0), Ue(0), U(1, 0), U(1, 0), U(1, 0), U(1, 0), Ue(0),
       U(1, 0), U(1, 0), U(1, 0), U(1, 0), U(1, 0)]
  }

  function PpsFields(ppsId: int, spsId: int): seq<Field> {
    [Ue(ppsId), Ue(spsId), U(1, 0), U(1, 0), U(3, 0), U(1, 0), U(1, 0), Ue(0), Ue(0), Se(0), U(1, 0), U(1, 0), U(1, 0),
     Se(0), Se(0), U(1, 0), U(1, 0), U(1, 0), U(1, 0), U(1, 0), U(1, 0), U(1, 0), U(1, 0), U(1, 0), U(1, 0),
     Ue(0), U(1, 0), U(1, 0)]
  }

  /** Random access pictures carry one more flag; IDR pictures carry no picture
      order count. */
  function SliceFields(nalType: int, sliceType: int, pocLsb: int): seq<Field> {
    [U(1, 1)] + (if 16 <= nalType <= 23 then [U(1, 0)] else []) + [Ue(0), Ue(sliceType)]
    + (if nalType == NAL_IDR_W_RADL || nalType == 20 then [] else [U(4, pocLsb)])
  }

  lemma ProfileIsGood()
    ensures AllWritable(ProfileTierLevel()) && AllVisible(ProfileTierLevel())
  {
    SmallPowers();
    hide Pow2;
    assert AllWritable(CompatibilityFlags()) && AllVisible(CompatibilityFlags());
    var head: seq<Field> := [U(2, 0), U(1, 0), U(5, 1)];
    hide CompatibilityFlags;
    GoodParts(head, CompatibilityFlags());
    GoodParts(head + CompatibilityFlags(), [U(1, 1), U(1, 0), U(1, 1), U(1, 1), U(43, 0), U(1, 0), U(8, 60)]);
  }

  lemma ParametersAreGood()
    ensures GoodUnit(Unit(NalHeader(NAL_VPS), VpsFields(0)))
    ensures GoodUnit(Unit(NalHeader(NAL_SPS), SpsFields(0, 0)))
    ensures GoodUnit(Unit(NalHeader(NAL_PPS), PpsFields(0, 0)))
  {
    VpsIsGood();
    SpsIsGood();
    PpsIsGood();
    hide VpsFields, SpsFields, PpsFields, AllWritable, AllVisible;
  }

  lemma VpsIsGood()
    ensures AllWritable(VpsFields(0)) && AllVisible(VpsFields(0))
  {
    SmallPowers();
    ProfileIsGood();
    hide Pow2, ProfileTierLevel;
    var head: seq<Field> := [U(4, 0), U(1, 1), U(1, 1), U(6, 0), U(3, 0), U(1, 1), U(16, 0xFFFF)];
    GoodParts(head, ProfileTierLevel());
    GoodParts(head + ProfileTierLevel(), [U(1, 0), Ue(0), Ue(0), Ue(0), U(6, 0), Ue(0), U(1, 0), U(1, 0)]);
  }

  lemma SpsIsGood()
    ensures AllWritable(SpsFields(0, 0)) && AllVisible(SpsFields(0, 0))
  {
    SmallPowers();
    ProfileIsGood();
    hide Pow2, ProfileTierLevel;
    var head: seq<Field> := [U(4, 0), U(3, 0), U(1, 1)];
    GoodParts(head, ProfileTierLevel());
    GoodParts(head + ProfileTierLevel(),
      [Ue(0), Ue(1), Ue(64), Ue(64), U(1, 0), Ue(0), Ue(0), Ue(0), U(1, 0), Ue(0), Ue(0), Ue(0),
       Ue(0), Ue(3), Ue(0), Ue(3), Ue(0), Ue(0), U(1, 0), U(1, 0), U(1, 0), U(1, 0), Ue(0),
       U(1, 0), U(1, 0), U(1, 0), U(1, 0), U(1, 0)]);
  }

  lemma PpsIsGood()
    ensures AllWritable(PpsFields(0, 0)) && AllVisible(PpsFields(0, 0))
  {
    SmallPowers();
    hide Pow2;
  }

  lemma SliceIsGood(nalType: int, sliceType: nat, pocLsb: int)
    requires 0 <= nalType < 64 && 0 <= pocLsb < 16
    ensures GoodUnit(Unit(NalHeader(nalType), SliceFields(nalType, sliceType, pocLsb)))
  {
    SmallPowers();
    hide Pow2;
  }

  // ---------------------------------------------------------------------
  // The access units in closed form.
  // ---------------------------------------------------------------------

  datatype Gop = Gop(idrInterval: int, craMode: bool)

  /** The picture order count written at i: with CRA pictures, i itself; with
      IDR pictures, how many pictures came since the one that follows the last
      IDR picture before i. Both modulo 16. */
  function Poc(g: Gop, i: nat): (p: int)
    requires g.idrInterval > 0
    ensures 0 <= p < 16
  {
    if g.craMode then i % 16 else if i == 0 then 0 else ((i - 1) % g.idrInterval) % 16
  }

  function AccessUnit(g: Gop, i: nat): Unit
    requires g.idrInterval > 0
  {
    if i % g.idrInterval == 0 then
      if g.craMode then Unit(NalHeader(NAL_CRA_NUT), SliceFields(NAL_CRA_NUT, SLICE_I, Poc(g, i)))
      else Unit(NalHeader(NAL_IDR_W_RADL), SliceFields(NAL_IDR_W_RADL, SLICE_I, 0))
    else Unit(NalHeader(NAL_TRAIL_R), SliceFields(NAL_TRAIL_R, SLICE_P, Poc(g, i)))
  }

  function Parameters(emitVps: bool): seq<Unit> {
    (if emitVps then [Unit(NalHeader(NAL_VPS), VpsFields(0))] else [])
    + [Unit(NalHeader(NAL_SPS), SpsFields(0, 0))] + [Unit(NalHeader(NAL_PPS), PpsFields(0, 0))]
  }

  function Units(emitVps: bool, g: Gop, total: nat): (u: seq<Unit>)
    requires g.idrInterval > 0
  {
    Parameters(emitVps) + seq(total, i requires 0 <= i < total => AccessUnit(g, i))
  }

  lemma AccessUnitIsGood(g: Gop, i: nat)
    requires g.idrInterval > 0
    ensures GoodUnit(AccessUnit(g, i))
  {
    hide GoodUnit, SliceFields, Poc;
    SliceIsGood(NAL_CRA_NUT, SLICE_I, Poc(g, i));
    SliceIsGood(NAL_IDR_W_RADL, SLICE_I, 0);
    SliceIsGood(NAL_TRAIL_R, SLICE_P, Poc(g, i));
  }

  lemma UnitsAreGood(emitVps: bool, g: Gop, total: nat)
    requires g.idrInterval > 0
    ensures GoodUnits(Units(emitVps, g, total))
  {
    ParametersAreGood();
    hide GoodUnit, VpsFields, SpsFields, PpsFields, AccessUnit;
    forall i: nat | i < total ensures GoodUnit(AccessUnit(g, i)) {
      AccessUnitIsGood(g, i);
    }
  }

  /** The running picture order count follows the closed form. */
  lemma PocStep(g: Gop, i: nat)
    requires g.idrInterval > 0
    ensures Poc(g, i + 1) == if !g.craMode && i % g.idrInterval == 0 then 0 else (Poc(g, i) + 1) % 16
  {
    hide *;
    if g.craMode {
      CraPoc(g, i);
    } else if i == 0 {
      StartPoc(g);
    } else {
      PreviousRemainder(i, g.idrInterval);
      PocFromRemainders(g, i, i % g.idrInterval, (i - 1) % g.idrInterval);
    }
  }

  lemma CraPoc(g: Gop, i: nat)
    requires g.idrInterval > 0 && g.craMode
    ensures Poc(g, i + 1) == (Poc(g, i) + 1) % 16
  {
    NextModulo(i);
  }

  lemma PocFromRemainders(g: Gop, i: nat, r: nat, s: nat)
    requires g.idrInterval > 0 && !g.craMode && i > 0 && r == i % g.idrInterval && s == (i - 1) % g.idrInterval
    requires r != 0 ==> r == s + 1
    ensures Poc(g, i + 1) == if r == 0 then 0 else (Poc(g, i) + 1) % 16
  {
    assert Poc(g, i) == s % 16 && Poc(g, i + 1) == r % 16;
    NextModulo(s);
  }

  lemma NextModulo(x: nat)
    ensures (x + 1) % 16 == (x % 16 + 1) % 16
  {}

  lemma PreviousRemainder(i: int, n: int)
    requires i > 0 && n > 0
    ensures i % n != 0 ==> (i - 1) % n == i % n - 1
    ensures 0 <= (i - 1) % n
  {
    if i % n != 0 {
      DivModUnique(i - 1, n, i / n, i % n - 1);
    }
  }

  // ---------------------------------------------------------------------
  // The written counts against the distance from the picture that starts the
  // sequence (clause 8.3.1 of ITU-T H.265, for pictures in output order).
  // ---------------------------------------------------------------------

  /** The picture that starts i's sequence: the last IDR picture, or the first
      picture when there are only CRA pictures. */
  function SequenceStart(g: Gop, i: nat): int
    requires g.idrInterval > 0
  {
    if g.craMode then 0 else (i / g.idrInterval) * g.idrInterval
  }

  predicate CarriesPoc(g: Gop, i: nat)
    requires g.idrInterval > 0
  {
    g.craMode || i % g.idrInterval != 0
  }

  /** Between IDR pictures the written count is one behind. */
  lemma WrittenCount(g: Gop, i: nat)
    requires g.idrInterval > 0 && CarriesPoc(g, i)
    ensures Poc(g, i) == (i - SequenceStart(g, i) - if g.craMode then 0 else 1) % 16
  {
    if !g.craMode {
      var n := g.idrInterval;
      DivModUnique(0, n, 0, 0);
      PreviousRemainder(i, n);
      OffsetInSequence(g, i);
      assert Poc(g, i) == ((i - 1) % n) % 16;
      hide Poc, SequenceStart;
    }
  }

  lemma OffsetInSequence(g: Gop, i: nat)
    requires g.idrInterval > 0 && !g.craMode
    ensures i - SequenceStart(g, i) == i % g.idrInterval
  {}

  /** Every count a stream writes is the distance from its sequence's first
      picture exactly when there are only CRA pictures, or only IDR pictures. */
  lemma CountsAreDistancesIff(g: Gop, total: nat)
    requires g.idrInterval > 0
    ensures (forall i: nat | i < total && CarriesPoc(g, i) :: Poc(g, i) == (i - SequenceStart(g, i)) % 16)
       <==> g.craMode || total <= 1 || g.idrInterval == 1
  {
    forall i: nat | CarriesPoc(g, i)
      ensures Poc(g, i) == (i - SequenceStart(g, i) - if g.craMode then 0 else 1) % 16
    {
      WrittenCount(g, i);
    }
    if g.idrInterval == 1 {
      forall i: nat ensures i % g.idrInterval == 0 {
        DivModUnique(i, g.idrInterval, i, 0);
      }
    } else {
      DivModUnique(1, g.idrInterval, 0, 1);
      assert g.craMode || (CarriesPoc(g, 1) && SequenceStart(g, 1) == 0 && Poc(g, 1) == 0);
    }
    hide SequenceStart, Poc;
  }

  /** With an IDR picture every four, the first picture after one is written with
      the count 0 of the IDR picture itself. */
  lemma CountAfterIdr()
    ensures var g := Gop(4, false); CarriesPoc(g, 5) && Poc(g, 5) == 0 && (5 - SequenceStart(g, 5)) % 16 == 1
  {
    var n := Gop(4, false).idrInterval;
    assert 5 / n == 1 && 5 % n == 1 && (5 - 1) % n == 0;
  }

  method BuildStream(totalAccessUnits: int, idrInterval: int, craMode: bool, emitVps: bool) returns (r: Option<seq<Byte>>)
    ensures r == None <==> idrInterval == 0 && totalAccessUnits > 0
    ensures r.Some? ==>
      var total := if totalAccessUnits < 0 then 0 else totalAccessUnits;
      var units := Units(emitVps, Gop(PeriodOf(idrInterval), craMode), total);
      GoodUnits(units) && r == Some(AnnexB(UnitNals(units)))
  {
    ParametersAreGood();
    hide GoodUnits, GoodUnit, VpsFields, SpsFields, PpsFields, AnnexB, UnitNals, AccessUnit, Poc, SliceFields;
    ghost var g := Gop(PeriodOf(idrInterval), craMode);
    NoUnits();
    var out: seq<Byte> := [];
    ghost var units: seq<Unit> := [];
    if emitVps {
      out := AppendUnit(out, Unit(NalHeader(NAL_VPS), VpsFields(0)), units);
      units := units + [Unit(NalHeader(NAL_VPS), VpsFields(0))];
    }
    out := AppendUnit(out, Unit(NalHeader(NAL_SPS), SpsFields(0, 0)), units);
    units := units + [Unit(NalHeader(NAL_SPS), SpsFields(0, 0))];
    out := AppendUnit(out, Unit(NalHeader(NAL_PPS), PpsFields(0, 0)), units);
    units := units + [Unit(NalHeader(NAL_PPS), PpsFields(0, 0))];
    NoAccessUnits(emitVps, g);
    assert units == Parameters(emitVps);
    var poc := 0;
    StartPoc(g);
    var total := if totalAccessUnits < 0 then 0 else totalAccessUnits;
    for i := 0 to total
      invariant GoodUnits(Units(emitVps, g, i))
      invariant out == AnnexB(UnitNals(Units(emitVps, g, i)))
      invariant poc == Poc(g, i)
      invariant i > 0 ==> idrInterval != 0
    {
      if idrInterval == 0 {
        return None;
      }
      SameMultiples(i, idrInterval);
      AccessUnitIsGood(g, i);
      PocStep(g, i);
      OneMoreUnit(emitVps, g, i);
      AccessUnitIs(g, i);
      var unit: Unit;
      if i % idrInterval == 0 {
        if craMode {
          unit := Unit(NalHeader(NAL_CRA_NUT), SliceFields(NAL_CRA_NUT, SLICE_I, poc));
        } else {
          unit := Unit(NalHeader(NAL_IDR_W_RADL), SliceFields(NAL_IDR_W_RADL, SLICE_I, 0));
          poc := -1;
        }
      } else {
        unit := Unit(NalHeader(NAL_TRAIL_R), SliceFields(NAL_TRAIL_R, SLICE_P, poc));
      }
      poc := (poc + 1) % 16;
      out := AppendUnit(out, unit, Units(emitVps, g, i));
    }
    return Some(out);
  }

  lemma NoUnits()
    ensures GoodUnits([]) && AnnexB(UnitNals([])) == []
  {}

  lemma StartPoc(g: Gop)
    requires g.idrInterval > 0
    ensures Poc(g, 0) == 0 && 0 % g.idrInterval == 0 && (!g.craMode ==> Poc(g, 1) == 0)
  {
    DivModUnique(0, g.idrInterval, 0, 0);
  }

  lemma NoAccessUnits(emitVps: bool, g: Gop)
    requires g.idrInterval > 0
    ensures Units(emitVps, g, 0) == Parameters(emitVps)
  {}

  lemma OneMoreUnit(emitVps: bool, g: Gop, i: nat)
    requires g.idrInterval > 0
    ensures Units(emitVps, g, i + 1) == Units(emitVps, g, i) + [AccessUnit(g, i)]
  {}

  lemma AccessUnitIs(g: Gop, i: nat)
    requires g.idrInterval > 0
    ensures AccessUnit(g, i)
         == if i % g.idrInterval == 0 then
              if g.craMode then Unit(NalHeader(NAL_CRA_NUT), SliceFields(NAL_CRA_NUT, SLICE_I, Poc(g, i)))
              else Unit(NalHeader(NAL_IDR_W_RADL), SliceFields(NAL_IDR_W_RADL, SLICE_I, 0))
            else Unit(NalHeader(NAL_TRAIL_R), SliceFields(NAL_TRAIL_R, SLICE_P, Poc(g, i)))
  {}

  /** The generated stream reads back. */
  lemma StreamIsReadBack(emitVps: bool, g: Gop, total: nat)
    requires g.idrInterval > 0
    ensures var units := Units(emitVps, g, total);
      && GoodUnits(units)
      && Split(AnnexB(UnitNals(units))) == UnitNals(units)
      && forall i :: 0 <= i < |units| ==> DecodesTo(UnitNals(units)[i], units[i]) && NoStartCode(UnitNals(units)[i])
  {
    UnitsAreGood(emitVps, g, total);
    StreamReadsBack(Units(emitVps, g, total));
  }
}
