/** Configurations laid out by the syntax of section 1.6.2.1 of ISO/IEC 14496-3,
    escapes included, and what the parser makes of them. */
module AscSyntax {
  import opened MachineInts
  import opened Options
  import opened WordPairs
  import opened Bits
  import opened AudioConfig

  /** An object type below 31 is its own code; one from 32 on is escaped. */
  datatype TypeCode = PlainType(objectType: nat) | EscapedType(low: nat)

  /** A rate of the table by its index, or any rate spelled out. */
  datatype RateCode = TableIndex(index: nat) | SpelledOut(hz: nat)

  predicate ValidType(t: TypeCode) {
    match t
    case PlainType(n) => n < 31
    case EscapedType(low) => low < 64
  }

  predicate ValidRate(r: RateCode) {
    match r
    case TableIndex(i) => i < 15
    case SpelledOut(hz) => hz < 0x100_0000
  }

  lemma Widths()
    ensures Pow2(1) == 2 && Pow2(4) == 16 && Pow2(5) == 32 && Pow2(6) == 64 && Pow2(24) == 0x100_0000
  {
    assert Pow2(8) == 256;
    Pow2Add(8, 8);
    Pow2Add(16, 8);
  }

  ghost function TypeBits(t: TypeCode): seq<Bit>
    requires ValidType(t)
  {
    Widths();
    match t
    case PlainType(n) => UBits(5, n)
    case EscapedType(low) => UBits(5, 31) + UBits(6, low)
  }

  ghost function RateBits(r: RateCode): seq<Bit>
    requires ValidRate(r)
  {
    Widths();
    match r
    case TableIndex(i) => UBits(4, i)
    case SpelledOut(hz) => UBits(4, 15) + UBits(24, hz)
  }

  function TypeOf(t: TypeCode): int {
    match t
    case PlainType(n) => n
    case EscapedType(low) => 32 + low
  }

  /** The rates of the table; indices 13 and 14 are reserved and give none. */
  function HzOf(r: RateCode): int {
    match r
    case SpelledOut(hz) => hz
    case TableIndex(i) =>
      match i
      case 0 => 96000
      case 1 => 88200
      case 2 => 64000
      case 3 => 48000
      case 4 => 44100
      case 5 => 32000
      case 6 => 24000
      case 7 => 22050
      case 8 => 16000
      case 9 => 12000
      case 10 => 11025
      case 11 => 8000
      case 12 => 7350
      case _ => 0
  }

  function IndexOf(r: RateCode): int {
    match r
    case TableIndex(i) => i
    case SpelledOut(_) => 15
  }

  lemma TypeIsRead(bits: seq<Bit>, pos: nat, t: TypeCode)
    requires ValidType(t) && At(bits, pos, TypeBits(t))
    ensures ObjectTypeAt(bits, Cursor(pos, false)) == (TypeOf(t), Cursor(pos + |TypeBits(t)|, false))
  {
    Widths();
    hide Take, Pow2, UBits, At;
    if t.PlainType? {
      TakeField(bits, pos, 5, t.objectType);
    } else {
      AtSplit(bits, pos, UBits(5, 31), UBits(6, t.low));
      TakeField(bits, pos, 5, 31);
      TakeField(bits, pos + 5, 6, t.low);
    }
  }

  lemma RateIsRead(bits: seq<Bit>, pos: nat, r: RateCode)
    requires ValidRate(r) && At(bits, pos, RateBits(r))
    ensures FrequencyAt(bits, Cursor(pos, false)) == (HzOf(r), IndexOf(r), Cursor(pos + |RateBits(r)|, false))
  {
    Widths();
    hide Take, Pow2, UBits, At;
    if r.TableIndex? {
      TakeField(bits, pos, 4, r.index);
    } else {
      AtSplit(bits, pos, UBits(4, 15), UBits(24, r.hz));
      TakeField(bits, pos, 4, 15);
      TakeField(bits, pos + 4, 24, r.hz);
    }
  }

  /** The head every configuration starts with. */
  ghost function Head(t: TypeCode, r: RateCode, channels: nat): seq<Bit>
    requires ValidType(t) && ValidRate(r) && channels < 16
  {
    Widths();
    TypeBits(t) + RateBits(r) + UBits(4, channels)
  }

  lemma HeadIsRead(bits: seq<Bit>, t: TypeCode, r: RateCode, channels: nat)
    requires ValidType(t) && ValidRate(r) && channels < 16 && At(bits, 0, Head(t, r, channels))
    ensures var first := ObjectTypeAt(bits, Cursor(0, false));
      var rate := FrequencyAt(bits, first.1);
      && first.0 == TypeOf(t) && rate.0 == HzOf(r) && rate.1 == IndexOf(r)
      && Take(bits, rate.2, 4) == (channels, Cursor(|Head(t, r, channels)|, false))
    ensures bits != []
  {
    Widths();
    hide Take, Pow2, UBits, At, TypeBits, RateBits, ObjectTypeAt, FrequencyAt;
    var a, b := |TypeBits(t)|, |RateBits(r)|;
    AtSplit(bits, 0, TypeBits(t) + RateBits(r), UBits(4, channels));
    AtSplit(bits, 0, TypeBits(t), RateBits(r));
    TypeIsRead(bits, 0, t);
    RateIsRead(bits, a, r);
    TakeField(bits, a + b, 4, channels);
    NotEmpty(bits, a + b, UBits(4, channels));
  }

  lemma NotEmpty(bits: seq<Bit>, pos: nat, sub: seq<Bit>)
    requires At(bits, pos, sub) && sub != []
    ensures bits != []
  {}

  /** Explicit signalling: the SBR object type, the core rate and channels, the
      extension rate and the inner type, then anything. The index reported is
      the extension's. */
  lemma ExplicitSbrIsParsed(bits: seq<Bit>, r: RateCode, channels: nat, ext: RateCode, inner: TypeCode)
    requires ValidRate(r) && channels < 16 && ValidRate(ext) && ValidType(inner)
    requires At(bits, 0, Head(PlainType(5), r, channels) + RateBits(ext) + TypeBits(inner))
    ensures Parsed(bits) == Some(AudioSpecificConfig(5, IndexOf(ext), HzOf(r), channels, true, HzOf(ext)))
  {
    hide Take, At, TypeBits, RateBits, ObjectTypeAt, FrequencyAt, Head, HzOf, IndexOf, Scan;
    var head := Head(PlainType(5), r, channels);
    AtSplit(bits, 0, head + RateBits(ext), TypeBits(inner));
    AtSplit(bits, 0, head, RateBits(ext));
    HeadIsRead(bits, PlainType(5), r, channels);
    RateIsRead(bits, |head|, ext);
    TypeIsRead(bits, |head| + |RateBits(ext)|, inner);
  }

  /** Any other object type: its code, the rate and the channels; the rest is
      scanned for an extension. */
  lemma OtherTypeIsParsed(bits: seq<Bit>, t: TypeCode, r: RateCode, channels: nat)
    requires ValidType(t) && TypeOf(t) != 5 && ValidRate(r) && channels < 16 && At(bits, 0, Head(t, r, channels))
    ensures var ext := Scan(bits, |Head(t, r, channels)|);
      Parsed(bits) == Some(AudioSpecificConfig(TypeOf(t), IndexOf(r), HzOf(r), channels, ext.0, ext.1))
  {
    hide Take, At, TypeBits, RateBits, ObjectTypeAt, FrequencyAt, Head, HzOf, IndexOf, Scan;
    HeadIsRead(bits, t, r, channels);
  }

  /** The sync marker 0x2b7, bit by bit. */
  const MARKER: seq<Bit> := [false, true, false, true, false, true, true, false, true, true, true]

  lemma MarkerIs(bits: seq<Bit>, k: nat)
    ensures MarkerAt(bits, k) <==> k + 15 < |bits| && bits[k..k + 11] == MARKER
  {
    if k + 15 < |bits| {
      ElevenBits(bits[k..k + 11]);
    }
    hide BitsValue;
  }

  lemma MarkerValue()
    ensures BitsValue(MARKER) == 0x2b7
  {
    PrefixValue(MARKER, 0);
    PrefixValue(MARKER, 1);
    PrefixValue(MARKER, 2);
    PrefixValue(MARKER, 3);
    PrefixValue(MARKER, 4);
    PrefixValue(MARKER, 5);
    PrefixValue(MARKER, 6);
    PrefixValue(MARKER, 7);
    PrefixValue(MARKER, 8);
    PrefixValue(MARKER, 9);
    PrefixValue(MARKER, 10);
    assert MARKER[..0] == [] && MARKER[..11] == MARKER && BitsValue([]) == 0;
    hide BitsValue;
  }

  lemma ElevenBits(b: seq<Bit>)
    requires |b| == 11
    ensures BitsValue(b) == 0x2b7 <==> b == MARKER
  {
    MarkerValue();
    UBitsOfValue(b);
    UBitsOfValue(MARKER);
    hide BitsValue, UBits;
  }

  lemma PrefixValue(b: seq<Bit>, k: nat)
    requires k < |b|
    ensures BitsValue(b[..k + 1]) == 2 * BitsValue(b[..k]) + BitValue(b[k])
  {
    assert b[..k + 1][..k] == b[..k];
  }

  lemma MarkedIsParsed(bits: seq<Bit>, k: nat, extType: TypeCode, present: bool, ext: RateCode)
    requires ValidType(extType) && ValidRate(ext)
    requires At(bits, k, MARKER + TypeBits(extType) + [present] + RateBits(ext))
    ensures Scan(bits, k) == if TypeOf(extType) == 5 && present then (true, HzOf(ext)) else (false, 0)
  {
    hide *;
    var a, b := TypeBits(extType), RateBits(ext);
    CodeLengths(extType, ext);
    AtSplit(bits, k, MARKER + a + [present], b);
    AtSplit(bits, k, MARKER + a, [present]);
    AtSplit(bits, k, MARKER, a);
    AtMeans(bits, k, MARKER);
    AtMeans(bits, k + 11 + |a|, [present]);
    AtMeans(bits, k + 12 + |a|, b);
    MarkerIs(bits, k);
    assert forall i: nat | k <= i < k :: !MarkerAt(bits, i);
    FirstMarkerDecides(bits, k, k);
    TakeWithin(bits, k, 11);
    TypeIsRead(bits, k + 11, extType);
    TakeWithin(bits, k + 11 + |a|, 1);
    OneBitValue(present);
    RateIsRead(bits, k + 12 + |a|, ext);
    ExtensionFrom(bits, k);
  }

  lemma AtMeans(bits: seq<Bit>, pos: nat, s: seq<Bit>)
    requires At(bits, pos, s)
    ensures pos + |s| <= |bits| && bits[pos..pos + |s|] == s
  {}

  lemma ExtensionFrom(bits: seq<Bit>, k: nat)
    requires Take(bits, Cursor(k, false), 11).1 == Cursor(k + 11, false)
    ensures var o := ObjectTypeAt(bits, Cursor(k + 11, false));
      var present := Take(bits, o.1, 1);
      var rate := FrequencyAt(bits, present.1);
      ExtensionAt(bits, Cursor(k, false))
      == if o.0 == 5 && o.1.pos < |bits| && present.0 != 0 && !rate.2.overflowed then (true, rate.0) else (false, 0)
  {
    hide Take, ObjectTypeAt, FrequencyAt;
  }

  lemma OneBitValue(x: Bit)
    ensures BitsValue([x]) == if x then 1 else 0
  {
    assert [x][..0] == [] && BitsValue([]) == 0;
  }

  lemma CodeLengths(t: TypeCode, r: RateCode)
    requires ValidType(t) && ValidRate(r)
    ensures |TypeBits(t)| >= 5 && |RateBits(r)| >= 4 && |MARKER| == 11
  {
    Widths();
  }
}
