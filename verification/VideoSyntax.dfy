/** What a decoder reads off the NAL units of the H.264 streams: the syntax of
    clause 7.3 of ITU-T H.264, as far as such streams use it. */
module H264Syntax {
  import opened MachineInts
  import opened Options
  import opened Bits
  import opened NalUnits
  import opened VideoStreams
  import opened H264Streams

  // ---------------------------------------------------------------------
  // The decoder.
  // ---------------------------------------------------------------------

  datatype Decoded =
    | SequenceParameters(
        refIdc: int, profileIdc: int, constraintFlags: seq<int>, levelIdc: int, spsId: int, log2MaxFrameNum: int,
        picOrderCntType: int, maxNumRefFrames: int, gapsAllowed: int, widthInMbs: int, heightInMapUnits: int,
        frameMbsOnly: int, direct8x8: int, cropping: int, vui: int)
    | PictureParameters(
        refIdc: int, ppsId: int, spsId: int, entropyCodingMode: int, picOrderPresent: int, sliceGroups: int,
        refIdxL0Default: int, refIdxL1Default: int, weightedPred: int, weightedBipred: int, initQp: int, initQs: int,
        chromaQpOffset: int, deblockingControl: int, constrainedIntra: int, redundantPicCnt: int)
    | Slice(refIdc: int, idr: bool, firstMb: int, sliceType: int, ppsId: int, frameNum: int, idrPicId: int)
    | Unreadable

  /** seq_parameter_set_data (clause 7.3.2.1.1) for a profile without chroma
      format and a picture order count type without syntax. */
  const SPS_SYNTAX: seq<Shape> :=
    [FixedWidth(8), FixedWidth(1), FixedWidth(1), FixedWidth(1), FixedWidth(1), FixedWidth(1), FixedWidth(1), FixedWidth(2),
     FixedWidth(8), Unsigned, Unsigned, Unsigned, Unsigned, FixedWidth(1), Unsigned, Unsigned, FixedWidth(1), FixedWidth(1),
     FixedWidth(1), FixedWidth(1)]

  /** pic_parameter_set_rbsp (clause 7.3.2.2) with one slice group. */
  const PPS_SYNTAX: seq<Shape> :=
    [Unsigned, Unsigned, FixedWidth(1), FixedWidth(1), Unsigned, Unsigned, Unsigned, FixedWidth(1), FixedWidth(2),
     Signed, Signed, Signed, FixedWidth(1), FixedWidth(1), FixedWidth(1)]

  /** The start of slice_header (clause 7.3.3) for frames, with frame numbers of
      four bits; an IDR picture's has one element more. */
  const SLICE_SYNTAX: seq<Shape> := [Unsigned, Unsigned, Unsigned, FixedWidth(4)]

  function Values(shapes: seq<Shape>, nal: seq<Byte>): (v: seq<int>)
    requires nal != []
  {
    var r := ReadFields(shapes, Unpack(DecodedPayload(nal, 1)), 0);
    if r.Some? then r.value.0 else []
  }

  /** One NAL unit without its start code. The frame number width and the
      absence of further syntax are those the sequence parameters state. */
  function DecodeNal(nal: seq<Byte>): Decoded {
    if nal == [] then Unreadable
    else
      var refIdc, nalType := (nal[0] as int) / 32, (nal[0] as int) % 32;
      if nalType == 7 then SpsOf(refIdc, Values(SPS_SYNTAX, nal))
      else if nalType == 8 then PpsOf(refIdc, Values(PPS_SYNTAX, nal))
      else if nalType == 1 then SliceOf(refIdc, false, Values(SLICE_SYNTAX, nal))
      else if nalType == 5 then SliceOf(refIdc, true, Values(SLICE_SYNTAX + [Unsigned], nal))
      else Unreadable
  }

  function SpsOf(refIdc: int, v: seq<int>): Decoded {
    if |v| != 20 || v[0] != 66 || v[11] != 2 || v[16] != 1 then Unreadable
    else SequenceParameters(refIdc, v[0], [v[1], v[2], v[3], v[4], v[5], v[6], v[7]], v[8], v[9], v[10] + 4, v[11], v[12], v[13], v[14] + 1, v[15] + 1,
                            v[16], v[17], v[18], v[19])
  }

  function PpsOf(refIdc: int, v: seq<int>): Decoded {
    if |v| != 15 || v[4] != 0 then Unreadable
    else PictureParameters(refIdc, v[0], v[1], v[2], v[3], v[4] + 1, v[5] + 1, v[6] + 1, v[7], v[8], v[9] + 26, v[10] + 26,
                           v[11], v[12], v[13], v[14])
  }

  function SliceOf(refIdc: int, idr: bool, v: seq<int>): Decoded {
    if |v| != (if idr then 5 else 4) then Unreadable
    else Slice(refIdc, idr, v[0], v[1], v[2], v[3], if idr then v[4] else 0)
  }

  // ---------------------------------------------------------------------
  // What it reads.
  // ---------------------------------------------------------------------

  lemma ByType(nal: seq<Byte>)
    requires nal != []
    ensures var refIdc, nalType := (nal[0] as int) / 32, (nal[0] as int) % 32;
      && (nalType == 7 ==> DecodeNal(nal) == SpsOf(refIdc, Values(SPS_SYNTAX, nal)))
      && (nalType == 8 ==> DecodeNal(nal) == PpsOf(refIdc, Values(PPS_SYNTAX, nal)))
      && (nalType == 1 ==> DecodeNal(nal) == SliceOf(refIdc, false, Values(SLICE_SYNTAX, nal)))
      && (nalType == 5 ==> DecodeNal(nal) == SliceOf(refIdc, true, Values(SLICE_SYNTAX + [Unsigned], nal)))
  {
    hide Values, SpsOf, PpsOf, SliceOf;
  }

  /** A NAL unit made of fields with the decoder's syntax. */
  lemma ValuesAreRead(u: Unit, shapes: seq<Shape>)
    requires GoodUnit(u) && |u.header| == 1 && ShapesOf(u.fields) == shapes
    ensures UnitNal(u) != [] && UnitNal(u)[0] == u.header[0]
    ensures Values(shapes, UnitNal(u)) == ValuesOf(u.fields)
  {
    UnitDecodes(u);
    assert UnitNal(u)[..1][0] == UnitNal(u)[0];
    hide UnitNal, GoodUnit, ReadFields, ShapesOf, ValuesOf;
  }

  lemma SpsValues(m: int)
    ensures ShapesOf(SpsFields(0, m)) == SPS_SYNTAX
    ensures SpsOf(3, ValuesOf(SpsFields(0, m)))
         == SequenceParameters(3, 66, [0, 0, 0, 0, 0, 0, 0], 30, 0, 4, 2, m, 0, 4, 4, 1, 1, 0, 0)
  {}

  /** A Baseline sequence of 64x64 frames at level 3.0 with four-bit frame
      numbers and no picture order count syntax. */
  lemma SpsIsDecoded(maxNumRefFrames: int)
    requires maxNumRefFrames >= 0
    ensures GoodUnit(Unit(NalHeader(3, NAL_SPS), SpsFields(0, maxNumRefFrames)))
    ensures DecodeNal(UnitNal(Unit(NalHeader(3, NAL_SPS), SpsFields(0, maxNumRefFrames))))
         == SequenceParameters(3, 66, [0, 0, 0, 0, 0, 0, 0], 30, 0, 4, 2, maxNumRefFrames, 0, 4, 4, 1, 1, 0, 0)
  {
    var u := Unit(NalHeader(3, NAL_SPS), SpsFields(0, maxNumRefFrames));
    assert u.header == [103];
    hide *;
    SpsIsGood(maxNumRefFrames);
    SpsValues(maxNumRefFrames);
    ValuesAreRead(u, SPS_SYNTAX);
    ByType(UnitNal(u));
  }

  lemma PpsValues(n: int)
    ensures ShapesOf(PpsFields(0, 0, n)) == PPS_SYNTAX
    ensures PpsOf(3, ValuesOf(PpsFields(0, 0, n))) == PictureParameters(3, 0, 0, 0, 0, 1, n + 1, 1, 0, 0, 26, 26, 0, 0, 0, 0)
  {}

  /** CAVLC, one slice group, the default number of references. */
  lemma PpsIsDecoded(numRefIdx: int)
    requires numRefIdx >= 0
    ensures GoodUnit(Unit(NalHeader(3, NAL_PPS), PpsFields(0, 0, numRefIdx)))
    ensures DecodeNal(UnitNal(Unit(NalHeader(3, NAL_PPS), PpsFields(0, 0, numRefIdx))))
         == PictureParameters(3, 0, 0, 0, 0, 1, numRefIdx + 1, 1, 0, 0, 26, 26, 0, 0, 0, 0)
  {
    var u := Unit(NalHeader(3, NAL_PPS), PpsFields(0, 0, numRefIdx));
    assert u.header == [104];
    hide *;
    PpsIsGood(numRefIdx);
    PpsValues(numRefIdx);
    ValuesAreRead(u, PPS_SYNTAX);
    ByType(UnitNal(u));
  }

  lemma SliceValues(sliceType: int, frameNum: int, idrPicId: int, refIdc: int)
    ensures ShapesOf(SliceFields(sliceType, frameNum, false, idrPicId)) == SLICE_SYNTAX
    ensures ShapesOf(SliceFields(sliceType, frameNum, true, idrPicId)) == SLICE_SYNTAX + [Unsigned]
    ensures SliceOf(refIdc, false, ValuesOf(SliceFields(sliceType, frameNum, false, idrPicId)))
         == Slice(refIdc, false, 0, sliceType, 0, frameNum, 0)
    ensures SliceOf(refIdc, true, ValuesOf(SliceFields(sliceType, frameNum, true, idrPicId)))
         == Slice(refIdc, true, 0, sliceType, 0, frameNum, idrPicId)
  {}

  /** The picture of access unit i: an I picture at each multiple of the
      interval, which is an IDR picture there unless only the first one may be;
      a P picture with a lower reference priority elsewhere. */
  function PictureAt(g: Gop, i: nat): Decoded
    requires g.idrInterval > 0
  {
    var key := i % g.idrInterval == 0;
    var idr := key && (i == 0 || !g.leadingIdrOnly);
    Slice(if key then 3 else 2, idr, 0, if key then 2 else 0, 0, FrameNum(g, i), if idr then IdrCount(g, i) else 0)
  }

  lemma AccessUnitIsDecoded(g: Gop, i: nat)
    requires g.idrInterval > 0
    ensures GoodUnit(AccessUnit(g, i)) && DecodeNal(UnitNal(AccessUnit(g, i))) == PictureAt(g, i)
  {
    var u, n := AccessUnit(g, i), FrameNum(g, i);
    var key, idr := i % g.idrInterval == 0, i % g.idrInterval == 0 && (i == 0 || !g.leadingIdrOnly);
    var sliceType, count := (if key then 2 else 0), if idr then IdrCount(g, i) else 0;
    assert u.fields == SliceFields(sliceType, n, idr, count) && u.header == [if idr then 101 else if key then 97 else 65] by {
      hide SliceFields, FrameNum, IdrCount;
    }
    assert PictureAt(g, i) == Slice(if key then 3 else 2, idr, 0, sliceType, 0, n, count);
    hide *;
    AccessUnitIsGood(g, i);
    SliceValues(sliceType, n, count, if key then 3 else 2);
    ValuesAreRead(u, if idr then SLICE_SYNTAX + [Unsigned] else SLICE_SYNTAX);
    ByType(UnitNal(u));
  }

  /** The whole stream: its NAL units are the parameter sets and one picture per
      access unit, in order. */
  lemma StreamIsDecoded(maxNumRefFrames: int, numRefIdx: int, g: Gop, total: nat)
    requires g.idrInterval > 0 && maxNumRefFrames >= 0 && numRefIdx >= 0
    ensures GoodUnits(Units(maxNumRefFrames, numRefIdx, g, total))
    ensures var nals := Split(AnnexB(UnitNals(Units(maxNumRefFrames, numRefIdx, g, total))));
      && |nals| == total + 2
      && DecodeNal(nals[0]) == SequenceParameters(3, 66, [0, 0, 0, 0, 0, 0, 0], 30, 0, 4, 2, maxNumRefFrames, 0, 4, 4, 1, 1, 0, 0)
      && DecodeNal(nals[1]) == PictureParameters(3, 0, 0, 0, 0, 1, numRefIdx + 1, 1, 0, 0, 26, 26, 0, 0, 0, 0)
      && forall i: nat :: i < total ==> DecodeNal(nals[i + 2]) == PictureAt(g, i)
  {
    hide *;
    StreamIsReadBack(maxNumRefFrames, numRefIdx, g, total);
    SpsIsDecoded(maxNumRefFrames);
    PpsIsDecoded(numRefIdx);
    UnitOrder(maxNumRefFrames, numRefIdx, g, total);
    forall i: nat | i < total ensures DecodeNal(UnitNals(Units(maxNumRefFrames, numRefIdx, g, total))[i + 2]) == PictureAt(g, i) {
      AccessUnitIsDecoded(g, i);
    }
  }

  lemma UnitOrder(maxNumRefFrames: int, numRefIdx: int, g: Gop, total: nat)
    requires g.idrInterval > 0 && GoodUnits(Units(maxNumRefFrames, numRefIdx, g, total))
    ensures var units := Units(maxNumRefFrames, numRefIdx, g, total);
      var nals := UnitNals(units);
      && |nals| == total + 2
      && GoodUnit(units[0]) && units[0] == Unit(NalHeader(3, NAL_SPS), SpsFields(0, maxNumRefFrames)) && nals[0] == UnitNal(units[0])
      && GoodUnit(units[1]) && units[1] == Unit(NalHeader(3, NAL_PPS), PpsFields(0, 0, numRefIdx)) && nals[1] == UnitNal(units[1])
      && forall i: nat :: i < total ==>
        GoodUnit(AccessUnit(g, i)) && nals[i + 2] == UnitNal(AccessUnit(g, i))
  {
    hide GoodUnit, UnitNal, AccessUnit, SpsFields, PpsFields, NalHeader;
    var units := Units(maxNumRefFrames, numRefIdx, g, total);
    forall i: nat | i < total ensures units[i + 2] == AccessUnit(g, i) {}
  }

}

/** The same for the HEVC streams: the syntax of clause 7.3 of ITU-T H.265. */
module HevcSyntax {
  import opened MachineInts
  import opened Options
  import opened Bits
  import opened NalUnits
  import opened VideoStreams
  import opened HevcStreams

  // ---------------------------------------------------------------------
  // The decoder.
  // ---------------------------------------------------------------------

  datatype Profile = Profile(space: int, tier: int, idc: int, compatibility: seq<int>, progressive: int, interlaced: int,
                             nonPacked: int, frameOnly: int, levelIdc: int)

  datatype Decoded =
    | VideoParameters(vpsId: int, maxLayers: int, maxSubLayers: int, profile: Profile, maxDecPicBuffering: int,
                      layerSets: int, timingInfo: int)
    | SequenceParameters(vpsId: int, maxSubLayers: int, profile: Profile, spsId: int, chromaFormat: int, width: int,
                         height: int, cropping: int, bitDepthLuma: int, bitDepthChroma: int, log2MaxPocLsb: int,
                         maxDecPicBuffering: int, log2MinCodingBlock: int, log2CodingTree: int, log2MinTransform: int,
                         log2MaxTransform: int, tools: seq<int>)
    | PictureParameters(ppsId: int, spsId: int, extraSliceBits: int, refIdxL0Default: int, refIdxL1Default: int,
                        initQp: int, qpOffsets: seq<int>, tools: seq<int>, log2MergeLevel: int)
    | Slice(nalType: int, first: int, ppsId: int, sliceType: int, pocLsb: Option<int>)
    | Unreadable

  /** profile_tier_level (clause 7.3.3) without sub-layers. */
  function ProfileSyntax(): (s: seq<Shape>)
    ensures |s| == 42
  {
    [FixedWidth(2), FixedWidth(1), FixedWidth(5)] + seq(32, _ => FixedWidth(1))
    + [FixedWidth(1), FixedWidth(1), FixedWidth(1), FixedWidth(1), FixedWidth(43), FixedWidth(1), FixedWidth(8)]
  }

  /** video_parameter_set_rbsp (clause 7.3.2.1). */
  function VpsSyntax(): (s: seq<Shape>)
    ensures |s| == 57
  {
    [FixedWidth(4), FixedWidth(1), FixedWidth(1), FixedWidth(6), FixedWidth(3), FixedWidth(1), FixedWidth(16)]
    + ProfileSyntax()
    + [FixedWidth(1), Unsigned, Unsigned, Unsigned, FixedWidth(6), Unsigned, FixedWidth(1), FixedWidth(1)]
  }

  /** seq_parameter_set_rbsp (clause 7.3.2.2), as far as it has no optional part. */
  function SpsSyntax(): (s: seq<Shape>)
    ensures |s| == 73
  {
    [FixedWidth(4), FixedWidth(3), FixedWidth(1)] + ProfileSyntax() + SPS_TAIL_SYNTAX
  }

  const SPS_TAIL_SYNTAX: seq<Shape> :=
    [Unsigned, Unsigned, Unsigned, Unsigned, FixedWidth(1), Unsigned, Unsigned, Unsigned, FixedWidth(1), Unsigned, Unsigned,
     Unsigned, Unsigned, Unsigned, Unsigned, Unsigned, Unsigned, Unsigned, FixedWidth(1), FixedWidth(1), FixedWidth(1),
     FixedWidth(1), Unsigned, FixedWidth(1), FixedWidth(1), FixedWidth(1), FixedWidth(1), FixedWidth(1)]

  /** pic_parameter_set_rbsp (clause 7.3.2.3), as far as it has no optional part. */
  const PPS_SYNTAX: seq<Shape> :=
    [Unsigned, Unsigned, FixedWidth(1), FixedWidth(1), FixedWidth(3), FixedWidth(1), FixedWidth(1), Unsigned, Unsigned, Signed,
     FixedWidth(1), FixedWidth(1), FixedWidth(1), Signed, Signed, FixedWidth(1), FixedWidth(1), FixedWidth(1), FixedWidth(1),
     FixedWidth(1), FixedWidth(1), FixedWidth(1), FixedWidth(1), FixedWidth(1), FixedWidth(1), Unsigned, FixedWidth(1),
     FixedWidth(1)]

  predicate IsIrap(nalType: int) {
    16 <= nalType <= 23
  }

  predicate IsIdrType(nalType: int) {
    nalType == 19 || nalType == 20
  }

  /** The start of slice_segment_header (clause 7.3.6.1) of a picture's first
      slice, with picture order counts of four bits. */
  function SliceSyntax(nalType: int): seq<Shape> {
    [FixedWidth(1)] + (if IsIrap(nalType) then [FixedWidth(1)] else []) + [Unsigned, Unsigned]
    + (if IsIdrType(nalType) then [] else [FixedWidth(4)])
  }

  function Values(shapes: seq<Shape>, nal: seq<Byte>): (v: seq<int>)
    requires |nal| >= 2
  {
    var r := ReadFields(shapes, Unpack(DecodedPayload(nal, 2)), 0);
    if r.Some? then r.value.0 else []
  }

  /** One NAL unit of layer 0 and temporal sub-layer 0. */
  function DecodeNal(nal: seq<Byte>): Decoded {
    if |nal| < 2 || (nal[0] as int) % 2 != 0 || nal[0] >= 128 || nal[1] != 1 then Unreadable
    else
      var nalType := (nal[0] as int) / 2;
      if nalType == 32 then VpsOf(Values(VpsSyntax(), nal))
      else if nalType == 33 then SpsOf(Values(SpsSyntax(), nal))
      else if nalType == 34 then PpsOf(Values(PPS_SYNTAX, nal))
      else if nalType < 32 then SliceOf(nalType, Values(SliceSyntax(nalType), nal))
      else Unreadable
  }

  function ProfileAt(v: seq<int>, k: nat): Profile
    requires k + 42 <= |v|
  {
    Profile(v[k], v[k + 1], v[k + 2], v[k + 3..k + 35], v[k + 35], v[k + 36], v[k + 37], v[k + 38], v[k + 41])
  }

  function VpsOf(v: seq<int>): Decoded {
    if |v| != 57 || v[56] != 0 then Unreadable
    else VideoParameters(v[0], v[3] + 1, v[4] + 1, ProfileAt(v, 7), v[50] + 1, v[54] + 1, v[55])
  }

  function SpsOf(v: seq<int>): Decoded {
    if |v| != 73 || v[49] != 0 || v[67] != 0 || v[71] != 0 || v[72] != 0 then Unreadable
    else SequenceParameters(v[0], v[1] + 1, ProfileAt(v, 3), v[45], v[46], v[47], v[48], v[49], v[50] + 8, v[51] + 8, v[52] + 4,
                            v[54] + 1, v[57] + 3, v[57] + 3 + v[58], v[59] + 2, v[59] + 2 + v[60],
                            [v[63], v[64], v[65], v[66], v[68], v[69], v[70]])
  }

  function PpsOf(v: seq<int>): Decoded {
    if |v| != 28 || v[27] != 0 then Unreadable
    else PictureParameters(v[0], v[1], v[4], v[7] + 1, v[8] + 1, v[9] + 26, [v[13], v[14]],
                           [v[2], v[3], v[5], v[6], v[10], v[11], v[12], v[15], v[16], v[17], v[18], v[19], v[20], v[21], v[22],
                            v[23], v[24], v[26]],
                           v[25] + 2)
  }

  function SliceOf(nalType: int, v: seq<int>): Decoded {
    var k := if IsIrap(nalType) then 1 else 0;
    if |v| != k + 3 + (if IsIdrType(nalType) then 0 else 1) then Unreadable
    else Slice(nalType, v[0], v[k + 1], v[k + 2], if IsIdrType(nalType) then None else Some(v[k + 3]))
  }

  // ---------------------------------------------------------------------
  // What it reads.
  // ---------------------------------------------------------------------

  lemma ByType(nal: seq<Byte>, nalType: nat)
    requires |nal| >= 2 && nalType < 64 && nal[0] == nalType * 2 && nal[1] == 1
    ensures nalType == 32 ==> DecodeNal(nal) == VpsOf(Values(VpsSyntax(), nal))
    ensures nalType == 33 ==> DecodeNal(nal) == SpsOf(Values(SpsSyntax(), nal))
    ensures nalType == 34 ==> DecodeNal(nal) == PpsOf(Values(PPS_SYNTAX, nal))
    ensures nalType < 32 ==> DecodeNal(nal) == SliceOf(nalType, Values(SliceSyntax(nalType), nal))
  {
    hide Values, VpsOf, SpsOf, PpsOf, SliceOf, VpsSyntax, SpsSyntax, SliceSyntax;
  }

  lemma ValuesAreRead(u: Unit, shapes: seq<Shape>, nalType: nat)
    requires GoodUnit(u) && nalType < 64 && u.header == NalHeader(nalType) && ShapesOf(u.fields) == shapes
    ensures |UnitNal(u)| >= 2 && UnitNal(u)[0] == nalType * 2 && UnitNal(u)[1] == 1
    ensures Values(shapes, UnitNal(u)) == ValuesOf(u.fields)
  {
    UnitDecodes(u);
    assert UnitNal(u)[..2][0] == UnitNal(u)[0] && UnitNal(u)[..2][1] == UnitNal(u)[1];
    hide UnitNal, GoodUnit, ReadFields, ShapesOf, ValuesOf;
  }

  /** Main profile, main tier, level 2.0, compatible with profile 1 only,
      progressive and frame-only without packing. */
  function MainProfile(): Profile {
    Profile(0, 0, 1, [0, 1] + seq(30, _ => 0), 1, 0, 1, 1, 60)
  }

  lemma ShapesConcat(a: seq<Field>, b: seq<Field>)
    ensures ShapesOf(a + b) == ShapesOf(a) + ShapesOf(b) && ValuesOf(a + b) == ValuesOf(a) + ValuesOf(b)
  {
    hide ShapeOf;
  }

  lemma ProfileValues()
    ensures |ProfileTierLevel()| == 42 && ShapesOf(ProfileTierLevel()) == ProfileSyntax()
    ensures ProfileAt(ValuesOf(ProfileTierLevel()), 0) == MainProfile()
  {
    var v := ValuesOf(ProfileTierLevel());
    assert v[3..35] == [0, 1] + seq(30, _ => 0);
  }

  /** The profile somewhere inside other values. */
  lemma ProfileInside(a: seq<int>, p: seq<int>, b: seq<int>)
    requires |p| == 42
    ensures |a + p + b| >= |a| + 42 && ProfileAt(a + p + b, |a|) == ProfileAt(p, 0)
  {
    var v := a + p + b;
    assert v[|a| + 3..|a| + 35] == p[3..35];
  }

  lemma VpsValues()
    ensures ShapesOf(VpsFields(0)) == VpsSyntax()
    ensures VpsOf(ValuesOf(VpsFields(0))) == VideoParameters(0, 1, 1, MainProfile(), 1, 1, 0)
  {
    var a: seq<Field> := [U(4, 0), U(1, 1), U(1, 1), U(6, 0), U(3, 0), U(1, 1), U(16, 0xFFFF)];
    var b: seq<Field> := [U(1, 0), Ue(0), Ue(0), Ue(0), U(6, 0), Ue(0), U(1, 0), U(1, 0)];
    assert VpsFields(0) == a + ProfileTierLevel() + b;
    ProfileValues();
    ShapesConcat(a + ProfileTierLevel(), b);
    ShapesConcat(a, ProfileTierLevel());
    ProfileInside(ValuesOf(a), ValuesOf(ProfileTierLevel()), ValuesOf(b));
    hide ProfileTierLevel, ProfileSyntax, ProfileAt, MainProfile, VpsFields;
  }

  const SPS_TAIL: seq<Field> :=
    [Ue(0), Ue(1), Ue(64), Ue(64), U(1, 0), Ue(0), Ue(0), Ue(0), U(1, 0), Ue(0), Ue(0), Ue(0),
     Ue(0), Ue(3), Ue(0), Ue(3), Ue(0), Ue(0), U(1, 0), U(1, 0), U(1, 0), U(1, 0), Ue(0),
     U(1, 0), U(1, 0), U(1, 0), U(1, 0), U(1, 0)]

  const SPS_HEAD: seq<Field> := [U(4, 0), U(3, 0), U(1, 1)]

  lemma SpsParts()
    ensures SpsFields(0, 0) == SPS_HEAD + ProfileTierLevel() + SPS_TAIL
  {
    hide ProfileTierLevel;
  }

  lemma SpsIsConcat()
    ensures ShapesOf(SpsFields(0, 0)) == ShapesOf(SPS_HEAD) + ShapesOf(ProfileTierLevel()) + ShapesOf(SPS_TAIL)
    ensures ValuesOf(SpsFields(0, 0)) == ValuesOf(SPS_HEAD) + ValuesOf(ProfileTierLevel()) + ValuesOf(SPS_TAIL)
  {
    hide *;
    SpsParts();
    ShapesConcat(SPS_HEAD + ProfileTierLevel(), SPS_TAIL);
    ShapesConcat(SPS_HEAD, ProfileTierLevel());
  }

  lemma SpsSyntaxIs()
    ensures ShapesOf(SPS_HEAD) == [FixedWidth(4), FixedWidth(3), FixedWidth(1)] && ValuesOf(SPS_HEAD) == [0, 0, 1]
    ensures SpsSyntax() == [FixedWidth(4), FixedWidth(3), FixedWidth(1)] + ProfileSyntax() + SPS_TAIL_SYNTAX
  {
    hide ProfileSyntax, SPS_TAIL_SYNTAX;
  }

  lemma SpsTailValues()
    ensures ValuesOf(SPS_TAIL)
         == [0, 1, 64, 64, 0, 0, 0, 0, 0, 0, 0, 0, 0, 3, 0, 3, 0, 0, 0, 0, 0, 0, 0, 0, 0, 0, 0, 0]
  {}

  lemma SpsTailShapes()
    ensures ShapesOf(SPS_TAIL) == SPS_TAIL_SYNTAX
  {}

  lemma SpsOfParts(p: seq<int>, b: seq<int>)
    requires |p| == 42 && b == [0, 1, 64, 64, 0, 0, 0, 0, 0, 0, 0, 0, 0, 3, 0, 3, 0, 0, 0, 0, 0, 0, 0, 0, 0, 0, 0, 0]
    ensures SpsOf([0, 0, 1] + p + b)
         == SequenceParameters(0, 1, ProfileAt(p, 0), 0, 1, 64, 64, 0, 8, 8, 4, 1, 3, 6, 2, 5, [0, 0, 0, 0, 0, 0, 0])
  {
    ProfileInside([0, 0, 1], p, b);
    hide ProfileAt;
  }

  /** A sequence of 64x64 pictures, 4:2:0 with eight bits, one 64x64 coding
      tree block each, four-bit picture order counts, no optional tools. */
  lemma SpsValues()
    ensures ShapesOf(SpsFields(0, 0)) == SpsSyntax()
    ensures SpsOf(ValuesOf(SpsFields(0, 0)))
         == SequenceParameters(0, 1, MainProfile(), 0, 1, 64, 64, 0, 8, 8, 4, 1, 3, 6, 2, 5, [0, 0, 0, 0, 0, 0, 0])
  {
    hide *;
    SpsIsConcat();
    SpsSyntaxIs();
    SpsTailValues();
    SpsTailShapes();
    ProfileValues();
    ProfileLength();
    SpsOfParts(ValuesOf(ProfileTierLevel()), ValuesOf(SPS_TAIL));
  }

  lemma ProfileLength()
    ensures |ValuesOf(ProfileTierLevel())| == 42
  {}

  lemma PpsValues()
    ensures ShapesOf(PpsFields(0, 0)) == PPS_SYNTAX
    ensures PpsOf(ValuesOf(PpsFields(0, 0))) == PictureParameters(0, 0, 0, 1, 1, 26, [0, 0], seq(18, _ => 0), 2)
  {}

  lemma VpsIsDecoded()
    ensures GoodUnit(Unit(NalHeader(NAL_VPS), VpsFields(0)))
    ensures DecodeNal(UnitNal(Unit(NalHeader(NAL_VPS), VpsFields(0)))) == VideoParameters(0, 1, 1, MainProfile(), 1, 1, 0)
  {
    var u := Unit(NalHeader(NAL_VPS), VpsFields(0));
    assert u.header == NalHeader(32);
    hide *;
    ParametersAreGood();
    VpsValues();
    ValuesAreRead(u, VpsSyntax(), 32);
    ByType(UnitNal(u), 32);
  }

  lemma SpsIsDecoded()
    ensures GoodUnit(Unit(NalHeader(NAL_SPS), SpsFields(0, 0)))
    ensures DecodeNal(UnitNal(Unit(NalHeader(NAL_SPS), SpsFields(0, 0))))
         == SequenceParameters(0, 1, MainProfile(), 0, 1, 64, 64, 0, 8, 8, 4, 1, 3, 6, 2, 5, [0, 0, 0, 0, 0, 0, 0])
  {
    var u := Unit(NalHeader(NAL_SPS), SpsFields(0, 0));
    assert u.header == NalHeader(33);
    hide *;
    ParametersAreGood();
    SpsValues();
    ValuesAreRead(u, SpsSyntax(), 33);
    ByType(UnitNal(u), 33);
  }

  lemma PpsIsDecoded()
    ensures GoodUnit(Unit(NalHeader(NAL_PPS), PpsFields(0, 0)))
    ensures DecodeNal(UnitNal(Unit(NalHeader(NAL_PPS), PpsFields(0, 0))))
         == PictureParameters(0, 0, 0, 1, 1, 26, [0, 0], seq(18, _ => 0), 2)
  {
    var u := Unit(NalHeader(NAL_PPS), PpsFields(0, 0));
    assert u.header == NalHeader(34);
    hide *;
    ParametersAreGood();
    PpsValues();
    ValuesAreRead(u, PPS_SYNTAX, 34);
    ByType(UnitNal(u), 34);
  }

  lemma SliceValues(nalType: int, sliceType: int, pocLsb: int)
    ensures ShapesOf(SliceFields(nalType, sliceType, pocLsb)) == SliceSyntax(nalType)
    ensures SliceOf(nalType, ValuesOf(SliceFields(nalType, sliceType, pocLsb)))
         == Slice(nalType, 1, 0, sliceType, if IsIdrType(nalType) then None else Some(pocLsb))
  {}

  /** The picture of access unit i: at each multiple of the interval an I
      picture, CRA with its count or IDR without one; a trailing P picture with
      its count elsewhere. */
  function PictureAt(g: Gop, i: nat): Decoded
    requires g.idrInterval > 0
  {
    if i % g.idrInterval != 0 then Slice(1, 1, 0, 1, Some(Poc(g, i)))
    else if g.craMode then Slice(21, 1, 0, 2, Some(Poc(g, i)))
    else Slice(19, 1, 0, 2, None)
  }

  lemma AccessUnitIsDecoded(g: Gop, i: nat)
    requires g.idrInterval > 0
    ensures GoodUnit(AccessUnit(g, i)) && DecodeNal(UnitNal(AccessUnit(g, i))) == PictureAt(g, i)
  {
    var u, key := AccessUnit(g, i), i % g.idrInterval == 0;
    var nalType := if !key then 1 else if g.craMode then 21 else 19;
    var sliceType, poc := (if key then 2 else 1), if nalType == 19 then 0 else Poc(g, i);
    assert u == Unit(NalHeader(nalType), SliceFields(nalType, sliceType, poc)) by {
      hide SliceFields, NalHeader, Poc;
    }
    assert PictureAt(g, i) == Slice(nalType, 1, 0, sliceType, if IsIdrType(nalType) then None else Some(poc));
    hide *;
    AccessUnitIsGood(g, i);
    SliceValues(nalType, sliceType, poc);
    ValuesAreRead(u, SliceSyntax(nalType), nalType);
    ByType(UnitNal(u), nalType);
  }

  /** The whole stream: its NAL units are the parameter sets, the video one when
      asked for, and one picture per access unit, in order. */
  lemma StreamIsDecoded(emitVps: bool, g: Gop, total: nat)
    requires g.idrInterval > 0
    ensures GoodUnits(Units(emitVps, g, total))
    ensures var nals := Split(AnnexB(UnitNals(Units(emitVps, g, total))));
      var k := if emitVps then 1 else 0;
      && |nals| == k + 2 + total
      && (emitVps ==> DecodeNal(nals[0]) == VideoParameters(0, 1, 1, MainProfile(), 1, 1, 0))
      && DecodeNal(nals[k])
         == SequenceParameters(0, 1, MainProfile(), 0, 1, 64, 64, 0, 8, 8, 4, 1, 3, 6, 2, 5, [0, 0, 0, 0, 0, 0, 0])
      && DecodeNal(nals[k + 1]) == PictureParameters(0, 0, 0, 1, 1, 26, [0, 0], seq(18, _ => 0), 2)
      && forall i: nat :: i < total ==> DecodeNal(nals[i + k + 2]) == PictureAt(g, i)
  {
    hide *;
    StreamIsReadBack(emitVps, g, total);
    VpsIsDecoded();
    SpsIsDecoded();
    PpsIsDecoded();
    UnitOrder(emitVps, g, total);
    var k := if emitVps then 1 else 0;
    forall i: nat | i < total ensures DecodeNal(UnitNals(Units(emitVps, g, total))[i + k + 2]) == PictureAt(g, i) {
      AccessUnitIsDecoded(g, i);
    }
  }

  lemma UnitOrder(emitVps: bool, g: Gop, total: nat)
    requires g.idrInterval > 0 && GoodUnits(Units(emitVps, g, total))
    ensures var units := Units(emitVps, g, total);
      var nals, k := UnitNals(units), if emitVps then 1 else 0;
      && |nals| == |units| == k + 2 + total
      && (emitVps ==> GoodUnit(units[0]) && units[0] == Unit(NalHeader(NAL_VPS), VpsFields(0)) && nals[0] == UnitNal(units[0]))
      && GoodUnit(units[k]) && units[k] == Unit(NalHeader(NAL_SPS), SpsFields(0, 0)) && nals[k] == UnitNal(units[k])
      && GoodUnit(units[k + 1]) && units[k + 1] == Unit(NalHeader(NAL_PPS), PpsFields(0, 0)) && nals[k + 1] == UnitNal(units[k + 1])
      && forall i: nat :: i < total ==> GoodUnit(AccessUnit(g, i)) && nals[i + k + 2] == UnitNal(AccessUnit(g, i))
  {
    hide GoodUnit, UnitNal, AccessUnit, VpsFields, SpsFields, PpsFields, NalHeader;
    var units, k := Units(emitVps, g, total), if emitVps then 1 else 0;
    forall i: nat | i < total ensures units[i + k + 2] == AccessUnit(g, i) {}
  }
}
