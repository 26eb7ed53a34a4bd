/** The AudioSpecificConfig of section 1.6.2.1 of ISO/IEC 14496-3: the bit
    writer's side and the parser's side. */
module AudioConfig {
  import opened MachineInts
  import opened Options
  import opened WordPairs
  import opened Bits

  const AOT_SBR := 5
  const SYNC_EXTENSION := 0x2b7

  /** Rates of the indices 0 to 12; 13 and 14 are reserved. */
  function TableRate(index: int): int {
    var table := [96000, 88200, 64000, 48000, 44100, 32000, 24000, 22050, 16000, 12000, 11025, 8000, 7350];
    if 0 <= index < |table| then table[index] else 0
  }

  // ---------------------------------------------------------------------
  // The writer.
  // ---------------------------------------------------------------------

  datatype AscInput = AscInput(objectType: int, samplingIndex: int, chanConfig: int,
                               extSamplingIndex: Option<int>, innerObjectType: Option<int>, padToBits: Option<int>)

  /** The fields before padding, unless the arguments contradict each other. */
  function AscFields(a: AscInput): Option<seq<Field>> {
    var base := [U(5, a.objectType), U(4, a.samplingIndex), U(4, a.chanConfig)];
    if a.objectType == AOT_SBR then
      if a.extSamplingIndex.None? || a.innerObjectType.None? then None
      else Some(base + [U(4, a.extSamplingIndex.value), U(5, a.innerObjectType.value)])
    else if a.extSamplingIndex.Some? || a.innerObjectType.Some? then None
    else Some(base)
  }

  /** How many padding bits are asked for: fewer than 15, or a refusal. */
  function PaddingBits(padTo: Option<int>, written: nat): (n: Option<nat>)
    ensures n.Some? ==> n.value < 15
  {
    if padTo.None? then Some(0)
    else if padTo.value < written || padTo.value - written >= 15 then None
    else Some(padTo.value - written)
  }

  /** The configuration's bits, or the writer's refusal. */
  function AscBits(a: AscInput): (r: Option<seq<Bit>>) {
    var fields := AscFields(a);
    if fields.None? || !AllWritable(fields.value) then None
    else
      var bits := FieldsBits(fields.value);
      var n := PaddingBits(a.padToBits, |bits|);
      if n.None? then None else Some(bits + Zeros(n.value))
  }

  method BuildAsc(a: AscInput) returns (r: Option<seq<Byte>>)
    ensures r == if AscBits(a).None? then None else Some(Pack(Padded(AscBits(a).value)))
  {
    var w := new BitWriter();
    BaseThenExtension(a);
    hide FieldsBits, Writable;
    var ok := w.WriteAll([U(5, a.objectType), U(4, a.samplingIndex), U(4, a.chanConfig)]);
    if !ok {
      return None;
    }
    if a.objectType == AOT_SBR {
      if a.extSamplingIndex.None? || a.innerObjectType.None? {
        return None;
      }
      ok := w.WriteAll([U(4, a.extSamplingIndex.value), U(5, a.innerObjectType.value)]);
      if !ok {
        return None;
      }
    } else if a.extSamplingIndex.Some? || a.innerObjectType.Some? {
      return None;
    }
    assert w.bits == FieldsBits(AscFields(a).value);
    if a.padToBits.Some? {
      var pad := a.padToBits.value;
      if pad < |w.bits| {
        return None;
      }
      if pad - |w.bits| >= 15 {
        return None;
      }
      ZeroFieldBits(pad - |w.bits|);
      var _ := w.U(pad - |w.bits|, 0);
    } else {
      assert w.bits + Zeros(0) == w.bits;
    }
    var bytes := w.ToBytes();
    return Some(bytes);
  }

  lemma ZeroFieldBits(n: nat)
    ensures Writable(U(n, 0)) && FieldBits(U(n, 0)) == Zeros(n)
  {
    ZeroField(n);
  }

  /** Writing the base fields and then the extension fields writes all. */
  lemma BaseThenExtension(a: AscInput)
    ensures var base := [U(5, a.objectType), U(4, a.samplingIndex), U(4, a.chanConfig)];
      && (AscFields(a).Some? && AllWritable(AscFields(a).value) ==> AllWritable(base))
      && (AllWritable(base) ==> [] + FieldsBits(base) == FieldsBits(base))
      && (a.extSamplingIndex.Some? && a.innerObjectType.Some? ==>
            var ext := [U(4, a.extSamplingIndex.value), U(5, a.innerObjectType.value)];
            && (AllWritable(base + ext) <==> AllWritable(base) && AllWritable(ext))
            && (AllWritable(base + ext) ==> FieldsBits(base + ext) == FieldsBits(base) + FieldsBits(ext)))
  {
    hide Writable, FieldBits;
    var base := [U(5, a.objectType), U(4, a.samplingIndex), U(4, a.chanConfig)];
    if a.extSamplingIndex.Some? && a.innerObjectType.Some? {
      var x, y := U(4, a.extSamplingIndex.value), U(5, a.innerObjectType.value);
      assert base + [x, y] == base + [x] + [y] && [x, y] == [x] + [y];
      assert x in base + [x, y] && y in base + [x, y] && x in [x, y] && y in [x, y];
      assert forall f :: f in base + [x, y] <==> f in base || f == x || f == y;
      if AllWritable(base + [x, y]) {
        FieldsBitsSnoc(base, x);
        FieldsBitsSnoc(base + [x], y);
        FieldsBitsSnoc([x], y);
        FieldsBitsSnoc([], x);
        assert FieldsBits([]) == [] && [] + [x] == [x];
        var b, p, q := FieldsBits(base), FieldBits(x), FieldBits(y);
        assert b + p + q == b + (p + q) && [] + p == p;
      }
    }
  }

  // ---------------------------------------------------------------------
  // The parser.
  // ---------------------------------------------------------------------

  datatype Cursor = Cursor(pos: nat, overflowed: bool)

  /** One bit; past the end it reads as zero and the cursor stays overflowed. */
  function TakeBit(bits: seq<Bit>, c: Cursor): (Bit, Cursor) {
    if c.overflowed || c.pos >= |bits| then (false, c.(overflowed := true)) else (bits[c.pos], c.(pos := c.pos + 1))
  }

  /** An n-bit number. */
  function Take(bits: seq<Bit>, c: Cursor, n: nat): (nat, Cursor) {
    if n == 0 then (0, c)
    else
      var front := Take(bits, c, n - 1);
      var last := TakeBit(bits, front.1);
      (2 * front.0 + BitValue(last.0), last.1)
  }

  /** The number at pos without consuming it; past the end bits read as zero. */
  function Peeked(bits: seq<Bit>, pos: nat, n: nat): nat {
    if n == 0 then 0
    else 2 * Peeked(bits, pos, n - 1) + (if pos + n - 1 < |bits| then BitValue(bits[pos + n - 1]) else 0)
  }

  class AscBitReader {
    const data: seq<Byte>
    var bitPos: nat
    var overflowed: bool

    ghost function Now(): Cursor
      reads this
    {
      Cursor(bitPos, overflowed)
    }

    constructor (data: seq<Byte>)
      ensures this.data == data && Now() == Cursor(0, false)
    {
      this.data, bitPos, overflowed := data, 0, false;
    }

    function BitAt(pos: nat): (b: Bit)
      requires pos < 8 * |data|
      ensures b == Unpack(data)[pos]
    {
      UnpackAt(data, pos);
      UBits(8, data[pos / 8])[pos % 8]
    }

    method ReadBit() returns (bit: Bit)
      modifies this
      ensures (bit, Now()) == TakeBit(Unpack(data), old(Now()))
    {
      if overflowed || bitPos / 8 >= |data| {
        overflowed := true;
        return false;
      }
      bit := BitAt(bitPos);
      bitPos := bitPos + 1;
    }

    method U(n: nat) returns (value: nat)
      modifies this
      ensures (value, Now()) == Take(Unpack(data), old(Now()), n)
    {
      value := 0;
      for i := 0 to n
        invariant (value, Now()) == Take(Unpack(data), old(Now()), i)
      {
        var bit := ReadBit();
        value := value * 2 + BitValue(bit);
      }
    }

    method Peek(n: nat) returns (value: nat)
      ensures value == Peeked(Unpack(data), bitPos, n)
    {
      value := 0;
      var pos := bitPos;
      for i := 0 to n
        invariant pos == bitPos + i && value == Peeked(Unpack(data), bitPos, i)
      {
        var bit := false;
        if pos / 8 < |data| {
          bit := BitAt(pos);
        }
        value := value * 2 + BitValue(bit);
        pos := pos + 1;
      }
    }

    function BitsLeft(): (n: nat)
      reads this
      ensures n == if bitPos >= |Unpack(data)| then 0 else |Unpack(data)| - bitPos
    {
      if bitPos >= |data| * 8 then 0 else |data| * 8 - bitPos
    }

    method ReadObjectType() returns (objectType: int)
      modifies this
      ensures (objectType, Now()) == ObjectTypeAt(Unpack(data), old(Now()))
    {
      objectType := U(5);
      if objectType == 31 {
        var low := U(6);
        objectType := 32 + low;
      }
    }

    method ReadSamplingFrequency() returns (hz: int, index: int)
      modifies this
      ensures (hz, index, Now()) == FrequencyAt(Unpack(data), old(Now()))
    {
      index := U(4);
      if index == 15 {
        hz := U(24);
      } else {
        hz := TableRate(index);
      }
    }
  }

  lemma {:induction false} UnpackAt(bytes: seq<Byte>, pos: nat)
    requires pos < 8 * |bytes|
    ensures Pow2(8) == 256 && Unpack(bytes)[pos] == UBits(8, bytes[pos / 8])[pos % 8]
  {
    assert Pow2(8) == 256;
    if pos >= 8 {
      UnpackAt(bytes[1..], pos - 8);
    }
  }

  function ObjectTypeAt(bits: seq<Bit>, c: Cursor): (int, Cursor) {
    var first := Take(bits, c, 5);
    if first.0 == 31 then
      var escape := Take(bits, first.1, 6);
      (32 + escape.0, escape.1)
    else first
  }

  function FrequencyAt(bits: seq<Bit>, c: Cursor): (int, int, Cursor) {
    var first := Take(bits, c, 4);
    if first.0 == 15 then
      var escape := Take(bits, first.1, 24);
      (escape.0, 15, escape.1)
    else (TableRate(first.0), first.0, first.1)
  }

  datatype AudioSpecificConfig = AudioSpecificConfig(
    objectType: int, samplingFrequencyIndex: int, samplingFrequencyHz: int, channelConfiguration: int,
    hasExplicitSbr: bool, extensionSamplingFrequencyHz: int)

  /** The extension announced by a sync marker at the cursor: whether spectral
      band replication is signalled, and its rate. */
  function ExtensionAt(bits: seq<Bit>, c: Cursor): (bool, int) {
    var marker := Take(bits, c, 11);
    var ext := ObjectTypeAt(bits, marker.1);
    if ext.0 == AOT_SBR && ext.1.pos < |bits| then
      var present := Take(bits, ext.1, 1);
      if present.0 != 0 then
        var rate := FrequencyAt(bits, present.1);
        if !rate.2.overflowed then (true, rate.0) else (false, 0)
      else (false, 0)
    else (false, 0)
  }

  /** The scan for a sync marker, one bit at a time, while more than 15 bits
      are left. */
  function Scan(bits: seq<Bit>, pos: nat): (bool, int)
    decreases |bits| - pos
  {
    if pos + 15 >= |bits| then (false, 0)
    else if Peeked(bits, pos, 11) == SYNC_EXTENSION then ExtensionAt(bits, Cursor(pos, false))
    else Scan(bits, pos + 1)
  }

  function Parsed(bits: seq<Bit>): Option<AudioSpecificConfig> {
    if bits == [] then None
    else
      var objectType := ObjectTypeAt(bits, Cursor(0, false));
      var rate := FrequencyAt(bits, objectType.1);
      var chan := Take(bits, rate.2, 4);
      if chan.1.overflowed then None
      else if objectType.0 == AOT_SBR then
        var ext := FrequencyAt(bits, chan.1);
        var inner := ObjectTypeAt(bits, ext.2);
        if inner.1.overflowed then None
        else Some(AudioSpecificConfig(objectType.0, ext.1, rate.0, chan.0, true, ext.0))
      else
        var ext := Scan(bits, chan.1.pos);
        Some(AudioSpecificConfig(objectType.0, rate.1, rate.0, chan.0, ext.0, ext.1))
  }

  method ParseAudioSpecificConfig(extradata: seq<Byte>) returns (r: Option<AudioSpecificConfig>)
    ensures r == Parsed(Unpack(extradata))
  {
    if extradata == [] {
      return None;
    }
    hide Unpack, Take, TableRate, ObjectTypeAt, FrequencyAt;
    ghost var bits := Unpack(extradata);
    var reader := new AscBitReader(extradata);
    var objectType := reader.ReadObjectType();
    var hz, index := reader.ReadSamplingFrequency();
    var chan := reader.U(4);
    if reader.overflowed {
      return None;
    }
    var hasExplicitSbr, extensionHz := false, 0;
    if objectType == AOT_SBR {
      extensionHz, index := reader.ReadSamplingFrequency();
      var _ := reader.ReadObjectType();
      if reader.overflowed {
        return None;
      }
      hasExplicitSbr := true;
    } else {
      hasExplicitSbr, extensionHz := ScanForExtension(reader);
    }
    return Some(AudioSpecificConfig(objectType, index, hz, chan, hasExplicitSbr, extensionHz));
  }

  method ScanForExtension(reader: AscBitReader) returns (found: bool, hz: int)
    requires !reader.overflowed
    modifies reader
    ensures (found, hz) == Scan(Unpack(reader.data), old(reader.bitPos))
  {
    hide Unpack, Take, TableRate, ObjectTypeAt, FrequencyAt, Peeked;
    found, hz := false, 0;
    while reader.BitsLeft() > 15
      invariant !found && hz == 0 && !reader.overflowed
      invariant Scan(Unpack(reader.data), old(reader.bitPos)) == Scan(Unpack(reader.data), reader.bitPos)
      decreases reader.BitsLeft()
    {
      var next := reader.Peek(11);
      if next == SYNC_EXTENSION {
        var _ := reader.U(11);
        var extObjectType := reader.ReadObjectType();
        if extObjectType == AOT_SBR && reader.BitsLeft() >= 1 {
          var present := reader.U(1);
          if present != 0 {
            var extHz, _ := reader.ReadSamplingFrequency();
            if !reader.overflowed {
              found, hz := true, extHz;
            }
          }
        }
        return;
      }
      OneBit(Unpack(reader.data), reader.Now());
      var _ := reader.U(1);
    }
  }

  lemma OneBit(bits: seq<Bit>, c: Cursor)
    requires !c.overflowed && c.pos < |bits|
    ensures Take(bits, c, 1).1 == c.(pos := c.pos + 1)
  {
    assert Take(bits, c, 0) == (0, c);
  }

  // ---------------------------------------------------------------------
  // The round trip.
  // ---------------------------------------------------------------------

  /** Within the bits a read is the number that stands there. */
  lemma {:induction false} TakeWithin(bits: seq<Bit>, pos: nat, n: nat)
    requires pos + n <= |bits|
    ensures Take(bits, Cursor(pos, false), n) == (BitsValue(bits[pos..pos + n]), Cursor(pos + n, false))
  {
    if n > 0 {
      TakeWithin(bits, pos, n - 1);
      assert bits[pos..pos + n][..n - 1] == bits[pos..pos + n - 1];
    }
  }

  /** Past the end a read overflows, and overflow is never undone. */
  lemma {:induction false} TakeBeyond(bits: seq<Bit>, c: Cursor, n: nat)
    requires c.overflowed || c.pos + n > |bits|
    ensures n > 0 || c.overflowed ==> Take(bits, c, n).1.overflowed
  {
    if n > 0 {
      if c.overflowed || c.pos + n - 1 > |bits| {
        TakeBeyond(bits, c, n - 1);
      } else {
        TakeWithin(bits, c.pos, n - 1);
      }
    }
  }

  /** A field of the written bits is read back at its place. */
  lemma TakeField(bits: seq<Bit>, pos: nat, n: nat, value: nat)
    requires value < Pow2(n) && At(bits, pos, UBits(n, value))
    ensures Take(bits, Cursor(pos, false), n) == (value, Cursor(pos + n, false))
  {
    TakeWithin(bits, pos, n);
    UBitsReadBack(n, value);
  }

  lemma {:induction false} ZerosPeek(bits: seq<Bit>, pos: nat, n: nat)
    requires forall i :: pos <= i < |bits| ==> !bits[i]
    ensures Peeked(bits, pos, n) == 0
  {
    if n > 0 {
      ZerosPeek(bits, pos, n - 1);
    }
  }

  /** Zero padding is never taken for a sync marker, however long it is. */
  lemma {:induction false} ZerosHideNoExtension(bits: seq<Bit>, pos: nat)
    requires forall i :: pos <= i < |bits| ==> !bits[i]
    ensures Scan(bits, pos) == (false, 0)
    decreases |bits| - pos
  {
    if pos + 15 < |bits| {
      ZerosPeek(bits, pos, 11);
      ZerosHideNoExtension(bits, pos + 1);
    }
  }

  /** The eleven bits of the sync marker stand at k, with more than 15 bits left
      there. */
  predicate MarkerAt(bits: seq<Bit>, k: nat) {
    k + 15 < |bits| && BitsValue(bits[k..k + 11]) == SYNC_EXTENSION
  }

  lemma {:induction false} PeekedIsValue(bits: seq<Bit>, k: nat, n: nat)
    requires k + n <= |bits|
    ensures Peeked(bits, k, n) == BitsValue(bits[k..k + n])
  {
    if n > 0 {
      PeekedIsValue(bits, k, n - 1);
      assert bits[k..k + n][..n - 1] == bits[k..k + n - 1];
    }
  }

  /** Whatever the bits before it, the first marker decides the scan. */
  lemma {:induction false} FirstMarkerDecides(bits: seq<Bit>, pos: nat, k: nat)
    requires pos <= k && MarkerAt(bits, k) && forall i: nat | pos <= i < k :: !MarkerAt(bits, i)
    ensures Scan(bits, pos) == ExtensionAt(bits, Cursor(k, false))
    decreases k - pos
  {
    OneScan(bits, pos);
    hide Scan, ExtensionAt, BitsValue;
    if pos < k {
      FirstMarkerDecides(bits, pos + 1, k);
    }
  }

  /** Without a marker nothing is found. */
  lemma {:induction false} NoMarkerNothingFound(bits: seq<Bit>, pos: nat)
    requires forall i: nat | pos <= i :: !MarkerAt(bits, i)
    ensures Scan(bits, pos) == (false, 0)
    decreases |bits| - pos
  {
    OneScan(bits, pos);
    hide Scan, ExtensionAt, BitsValue;
    if pos + 15 < |bits| {
      NoMarkerNothingFound(bits, pos + 1);
    }
  }

  lemma OneScan(bits: seq<Bit>, pos: nat)
    ensures Scan(bits, pos)
         == if pos + 15 >= |bits| then (false, 0)
            else if MarkerAt(bits, pos) then ExtensionAt(bits, Cursor(pos, false)) else Scan(bits, pos + 1)
  {
    if pos + 15 < |bits| {
      PeekedIsValue(bits, pos, 11);
    }
    hide ExtensionAt, BitsValue, Peeked;
  }

  /** A marker followed by the SBR object type, a set flag and a plain rate
      index signals SBR with that rate. */
  lemma MarkedExtensionIsFound(bits: seq<Bit>, pos: nat, k: nat, index: nat)
    requires pos <= k && MarkerAt(bits, k) && forall i: nat | pos <= i < k :: !MarkerAt(bits, i)
    requires k + 21 <= |bits| && index < 15 && Pow2(5) == 32 && Pow2(4) == 16 && Pow2(1) == 2
    requires At(bits, k + 11, UBits(5, AOT_SBR)) && At(bits, k + 16, UBits(1, 1)) && At(bits, k + 17, UBits(4, index))
    ensures Scan(bits, pos) == (true, TableRate(index))
  {
    FirstMarkerDecides(bits, pos, k);
    hide Scan, MarkerAt, BitsValue, TableRate, Pow2, UBits, At;
    TakeField(bits, k + 11, 5, AOT_SBR);
    TakeField(bits, k + 16, 1, 1);
    TakeField(bits, k + 17, 4, index);
    TakeWithin(bits, k, 11);
  }

  /** The bits the parser sees: the fields, then zeros up to a whole byte. */
  ghost predicate Laid(a: AscInput, bits: seq<Bit>) {
    && AscBits(a).Some?
    && var fields := FieldsBits(AscFields(a).value);
    && At(bits, 0, fields) && (forall i :: |fields| <= i < |bits| ==> !bits[i])
    && |bits| % 8 == 0 && |AscBits(a).value| <= |bits| < |AscBits(a).value| + 8
    && |fields| <= |AscBits(a).value| < |fields| + 15
  }

  lemma BuiltIsLaid(a: AscInput)
    requires AscBits(a).Some?
    ensures Laid(a, Unpack(Pack(Padded(AscBits(a).value))))
  {
    UnpackPack(Padded(AscBits(a).value));
    hide FieldsBits, Pack, Unpack, AscFields, Writable;
  }

  /** The fields written, and the ranges they were accepted in. */
  lemma FieldsOf(a: AscInput)
    requires AscFields(a).Some? && AllWritable(AscFields(a).value)
    ensures 0 <= a.objectType < 32 && 0 <= a.samplingIndex < 16 && 0 <= a.chanConfig < 16
    ensures a.objectType != AOT_SBR ==>
      AscFields(a).value == [U(5, a.objectType), U(4, a.samplingIndex), U(4, a.chanConfig)]
    ensures a.objectType == AOT_SBR ==>
      && a.extSamplingIndex.Some? && a.innerObjectType.Some?
      && 0 <= a.extSamplingIndex.value < 16 && 0 <= a.innerObjectType.value < 32
      && AscFields(a).value == [U(5, a.objectType), U(4, a.samplingIndex), U(4, a.chanConfig),
          U(4, a.extSamplingIndex.value), U(5, a.innerObjectType.value)]
  {
    SmallPowers();
    var fields := AscFields(a).value;
    hide Pow2;
    assert Writable(fields[0]) && Writable(fields[1]) && Writable(fields[2]);
    if a.objectType == AOT_SBR {
      assert Writable(fields[3]) && Writable(fields[4]);
    }
  }

  /** Where the fields stand. */
  lemma FieldPlaces(a: AscInput, bits: seq<Bit>)
    requires Laid(a, bits)
    ensures 0 <= a.objectType < 32 && 0 <= a.samplingIndex < 16 && 0 <= a.chanConfig < 16
    ensures Pow2(5) == 32 && Pow2(4) == 16
    ensures At(bits, 0, UBits(5, a.objectType)) && At(bits, 5, UBits(4, a.samplingIndex)) && At(bits, 9, UBits(4, a.chanConfig))
    ensures a.objectType != AOT_SBR ==> |FieldsBits(AscFields(a).value)| == 13
    ensures a.objectType == AOT_SBR ==>
      && a.extSamplingIndex.Some? && a.innerObjectType.Some?
      && 0 <= a.extSamplingIndex.value < 16 && 0 <= a.innerObjectType.value < 32
      && At(bits, 13, UBits(4, a.extSamplingIndex.value)) && At(bits, 17, UBits(5, a.innerObjectType.value))
      && |FieldsBits(AscFields(a).value)| == 22
  {
    SmallPowers();
    FieldsOf(a);
    assert FieldsBits([]) == [];
    var fields := AscFields(a).value;
    assert AllWritable(fields) && At(bits, 0, FieldsBits(fields));
    hide FieldsBits, At, AscFields, AscBits, Writable, AllWritable, Laid, Pow2, UBits;
    var tail := fields[3..];
    var f, g, h := U(5, a.objectType), U(4, a.samplingIndex), U(4, a.chanConfig);
    assert fields == [f] + ([g] + ([h] + tail));
    NextField(bits, 0, f, [g] + ([h] + tail));
    NextField(bits, 5, g, [h] + tail);
    NextField(bits, 9, h, tail);
    if a.objectType == AOT_SBR {
      var k, l := U(4, a.extSamplingIndex.value), U(5, a.innerObjectType.value);
      assert tail == [k] + ([l] + []);
      NextField(bits, 13, k, [l] + []);
      NextField(bits, 17, l, []);
    } else {
      assert tail == [];
    }
  }

  lemma NextField(bits: seq<Bit>, pos: nat, f: Field, rest: seq<Field>)
    requires AllWritable([f] + rest) && At(bits, pos, FieldsBits([f] + rest))
    ensures AllWritable(rest) && Writable(f)
    ensures At(bits, pos, FieldBits(f)) && At(bits, pos + |FieldBits(f)|, FieldsBits(rest))
    ensures |FieldsBits([f] + rest)| == |FieldBits(f)| + |FieldsBits(rest)|
  {
    hide Writable, FieldBits, At;
    var fields := [f] + rest;
    assert fields[0] == f && fields[1..] == rest;
    assert FieldsBits(fields) == FieldBits(f) + FieldsBits(rest);
    hide FieldsBits;
    AtSplit(bits, pos, FieldBits(f), FieldsBits(rest));
  }

  lemma SmallPowers()
    ensures Pow2(4) == 16 && Pow2(5) == 32
  {}

  /** What the parser should return for a written configuration. */
  predicate Recovers(a: AscInput, c: AudioSpecificConfig) {
    && c.objectType == a.objectType && c.samplingFrequencyHz == TableRate(a.samplingIndex)
    && c.channelConfiguration == a.chanConfig && c.hasExplicitSbr == (a.objectType == AOT_SBR)
    && c.extensionSamplingFrequencyHz
       == if a.objectType == AOT_SBR && a.extSamplingIndex.Some? then TableRate(a.extSamplingIndex.value) else 0
  }

  /** The guard: no escape code is written as a plain value, unless the inner
      object type is one and enough padding follows to stand for its escape. */
  predicate Parseable(a: AscInput) {
    && a.objectType != 31 && a.samplingIndex != 15
    && (a.objectType == AOT_SBR && a.extSamplingIndex.Some? && a.innerObjectType.Some? ==>
          && a.extSamplingIndex.value != 15
          && (a.innerObjectType.value == 31 ==> a.padToBits.Some? && a.padToBits.value > 24))
  }

  /** A written configuration is recovered exactly under that guard. */
  lemma RoundTripIff(a: AscInput)
    requires AscBits(a).Some?
    ensures var parsed := Parsed(Unpack(Pack(Padded(AscBits(a).value))));
      parsed.Some? && Recovers(a, parsed.value) <==> Parseable(a)
  {
    var bits := Unpack(Pack(Padded(AscBits(a).value)));
    BuiltIsLaid(a);
    hide AscBits, AscFields, Padded, Pack, Unpack;
    if a.objectType == AOT_SBR {
      ExplicitRoundTrip(a, bits);
    } else {
      PlainRoundTrip(a, bits);
    }
  }

  /** An escape code as object type, as core rate or as inner object type is
      accepted by the writer and not recovered by the parser. */
  lemma EscapesAreNotRecovered()
    ensures NotRecovered(AscInput(31, 4, 2, None, None, None))
    ensures NotRecovered(AscInput(2, 15, 2, None, None, None))
    ensures NotRecovered(AscInput(AOT_SBR, 7, 2, Some(4), Some(31), None))
  {
    IsNotRecovered(AscInput(31, 4, 2, None, None, None));
    IsNotRecovered(AscInput(2, 15, 2, None, None, None));
    IsNotRecovered(AscInput(AOT_SBR, 7, 2, Some(4), Some(31), None));
  }

  /** Enough padding can stand for the escape of an inner type. */
  lemma PaddedInnerEscapeIsRecovered()
    ensures var a := AscInput(AOT_SBR, 7, 2, Some(4), Some(31), Some(32));
      && AscBits(a).Some?
      && var parsed := Parsed(Unpack(Pack(Padded(AscBits(a).value))));
      parsed.Some? && Recovers(a, parsed.value)
  {
    var a := AscInput(AOT_SBR, 7, 2, Some(4), Some(31), Some(32));
    IsAccepted(a);
    hide AscBits, Parsed, Recovers;
    RoundTripIff(a);
  }

  /** The writer accepts the arguments and the parser does not recover them. */
  ghost predicate NotRecovered(a: AscInput) {
    && AscBits(a).Some?
    && var parsed := Parsed(Unpack(Pack(Padded(AscBits(a).value))));
    !(parsed.Some? && Recovers(a, parsed.value))
  }

  lemma IsNotRecovered(a: AscInput)
    requires AcceptedFields(a) && a.padToBits.None? && !Parseable(a)
    ensures NotRecovered(a)
  {
    IsAccepted(a);
    hide AscBits, Parsed, Recovers;
    RoundTripIff(a);
  }

  /** Fields in range; the extension fields exactly with explicit SBR. */
  predicate AcceptedFields(a: AscInput) {
    && 0 <= a.objectType < 32 && 0 <= a.samplingIndex < 16 && 0 <= a.chanConfig < 16
    && if a.objectType == AOT_SBR then
         a.extSamplingIndex.Some? && a.innerObjectType.Some? && 0 <= a.extSamplingIndex.value < 16 && 0 <= a.innerObjectType.value < 32
       else a.extSamplingIndex.None? && a.innerObjectType.None?
  }

  lemma FieldsLength(a: AscInput)
    requires AcceptedFields(a)
    ensures AscFields(a).Some? && AllWritable(AscFields(a).value)
    ensures |FieldsBits(AscFields(a).value)| == if a.objectType == AOT_SBR then 22 else 13
  {
    SmallPowers();
    assert FieldsBits([]) == [] && AllWritable([]);
    var f, g, h := U(5, a.objectType), U(4, a.samplingIndex), U(4, a.chanConfig);
    assert Writable(f) && Writable(g) && Writable(h);
    var tail: seq<Field> := [];
    if a.objectType == AOT_SBR {
      var k, l := U(4, a.extSamplingIndex.value), U(5, a.innerObjectType.value);
      assert Writable(k) && Writable(l);
      BitsOfCons(l, []);
      BitsOfCons(k, [l]);
      assert [k] + ([l] + []) == [k, l] && [l] + [] == [l];
      tail := [k, l];
    }
    assert AscFields(a).value == [f] + ([g] + ([h] + tail));
    hide FieldsBits, Writable, Pow2, AscFields, UBits;
    BitsOfCons(h, tail);
    BitsOfCons(g, [h] + tail);
    BitsOfCons(f, [g] + ([h] + tail));
  }

  lemma BitsOfCons(f: Field, rest: seq<Field>)
    requires Writable(f) && AllWritable(rest)
    ensures AllWritable([f] + rest) && |FieldsBits([f] + rest)| == |FieldBits(f)| + |FieldsBits(rest)|
  {
    assert ([f] + rest)[0] == f && ([f] + rest)[1..] == rest;
    hide FieldBits, Writable;
  }

  lemma IsAccepted(a: AscInput)
    requires AcceptedFields(a)
    requires var n := if a.objectType == AOT_SBR then 22 else 13; a.padToBits.Some? ==> n <= a.padToBits.value < n + 15
    ensures AscBits(a).Some?
  {
    SmallPowers();
    FieldsLength(a);
    hide Pow2;
  }

  lemma PlainRoundTrip(a: AscInput, bits: seq<Bit>)
    requires Laid(a, bits) && a.objectType != AOT_SBR
    ensures Parsed(bits).Some? && Recovers(a, Parsed(bits).value) <==> Parseable(a)
  {
    FieldPlaces(a, bits);
    assert 16 <= |bits| <= 32;
    TakeField(bits, 0, 5, a.objectType);
    hide Take, Laid, UBits, At, Pow2;
    if a.objectType != 31 {
      TakeField(bits, 5, 4, a.samplingIndex);
      if a.samplingIndex != 15 {
        TakeField(bits, 9, 4, a.chanConfig);
        assert Parsed(bits).Some? by {
          ZerosAfterFields(a, bits);
          ZerosHideNoExtension(bits, 13);
        }
        ZerosAfterFields(a, bits);
        ZerosHideNoExtension(bits, 13);
      } else {
        EscapedRateOverflows(bits, Cursor(9, false));
      }
    }
  }

  lemma ZerosAfterFields(a: AscInput, bits: seq<Bit>)
    requires Laid(a, bits)
    ensures a.objectType != AOT_SBR ==> forall i :: 13 <= i < |bits| ==> !bits[i]
    ensures |bits| % 8 == 0 && |bits| >= (if a.objectType == AOT_SBR then 22 else 13)
    ensures |bits| < (if a.objectType == AOT_SBR then 22 else 13) + 15 + 8
  {
    FieldPlaces(a, bits);
  }

  /** The 24-bit rate and the channel field run past the end. */
  lemma EscapedRateOverflows(bits: seq<Bit>, c: Cursor)
    requires c == Cursor(9, false) && |bits| < 37
    ensures Take(bits, Take(bits, c, 24).1, 4).1.overflowed
  {
    if 33 <= |bits| {
      TakeWithin(bits, 9, 24);
      TakeBeyond(bits, Cursor(33, false), 4);
    } else {
      TakeBeyond(bits, c, 24);
      TakeBeyond(bits, Take(bits, c, 24).1, 4);
    }
  }

  lemma OverflowStays(bits: seq<Bit>, c: Cursor)
    requires c.overflowed
    ensures FrequencyAt(bits, c).2.overflowed && ObjectTypeAt(bits, c).1.overflowed
  {
    TakeBeyond(bits, c, 4);
    TakeBeyond(bits, Take(bits, c, 4).1, 24);
    TakeBeyond(bits, c, 5);
    TakeBeyond(bits, Take(bits, c, 5).1, 6);
  }

  lemma ExplicitRoundTrip(a: AscInput, bits: seq<Bit>)
    requires Laid(a, bits) && a.objectType == AOT_SBR
    ensures Parsed(bits).Some? && Recovers(a, Parsed(bits).value) <==> Parseable(a)
  {
    hide *;
    FieldPlaces(a, bits);
    PaddedLength(a, bits);
    TakeField(bits, 0, 5, a.objectType);
    TakeField(bits, 5, 4, a.samplingIndex);
    if a.samplingIndex == 15 {
      EscapedRateThenExtension(bits);
      EscapedRateFails(bits);
      NotParseable(a);
    } else {
      TakeField(bits, 9, 4, a.chanConfig);
      TakeField(bits, 13, 4, a.extSamplingIndex.value);
      if a.extSamplingIndex.value == 15 {
        TakeBeyond(bits, Cursor(17, false), 24);
        OverflowStays(bits, Take(bits, Cursor(17, false), 24).1);
        EscapedExtensionFails(bits, a.samplingIndex, a.chanConfig);
        NotParseable(a);
      } else {
        TakeField(bits, 17, 5, a.innerObjectType.value);
        InnerEscape(bits);
        ExplicitParses(a, bits);
      }
    }
  }

  lemma NotParseable(a: AscInput)
    requires a.objectType == AOT_SBR && a.extSamplingIndex.Some? && a.innerObjectType.Some?
    requires a.samplingIndex == 15 || a.extSamplingIndex.value == 15
    ensures !Parseable(a)
  {}

  lemma EscapedRateFails(bits: seq<Bit>)
    requires bits != [] && Take(bits, Cursor(0, false), 5) == (AOT_SBR, Cursor(5, false))
    requires Take(bits, Cursor(5, false), 4) == (15, Cursor(9, false))
    requires var chan := Take(bits, Take(bits, Cursor(9, false), 24).1, 4).1;
      chan.overflowed || ObjectTypeAt(bits, FrequencyAt(bits, chan).2).1.overflowed
    ensures Parsed(bits) == None
  {
    hide Take;
  }

  lemma EscapedExtensionFails(bits: seq<Bit>, index: nat, chan: nat)
    requires bits != [] && Take(bits, Cursor(0, false), 5) == (AOT_SBR, Cursor(5, false))
    requires Take(bits, Cursor(5, false), 4) == (index, Cursor(9, false)) && index != 15
    requires Take(bits, Cursor(9, false), 4) == (chan, Cursor(13, false))
    requires Take(bits, Cursor(13, false), 4) == (15, Cursor(17, false))
    requires ObjectTypeAt(bits, Take(bits, Cursor(17, false), 24).1).1.overflowed
    ensures Parsed(bits) == None
  {
    hide Take, TableRate;
    assert FrequencyAt(bits, Cursor(13, false)).2 == Take(bits, Cursor(17, false), 24).1;
  }

  lemma ExplicitParses(a: AscInput, bits: seq<Bit>)
    requires bits != [] && a.objectType == AOT_SBR && a.extSamplingIndex.Some? && a.innerObjectType.Some?
    requires a.samplingIndex != 15 && a.extSamplingIndex.value != 15
    requires Take(bits, Cursor(0, false), 5) == (AOT_SBR, Cursor(5, false))
    requires Take(bits, Cursor(5, false), 4) == (a.samplingIndex, Cursor(9, false))
    requires Take(bits, Cursor(9, false), 4) == (a.chanConfig, Cursor(13, false))
    requires Take(bits, Cursor(13, false), 4) == (a.extSamplingIndex.value, Cursor(17, false))
    requires Take(bits, Cursor(17, false), 5) == (a.innerObjectType.value, Cursor(22, false))
    requires Take(bits, Cursor(22, false), 6).1.overflowed <==> !(a.padToBits.Some? && a.padToBits.value > 24)
    ensures Parsed(bits).Some? && Recovers(a, Parsed(bits).value) <==> Parseable(a)
  {
    hide Take, TableRate;
  }

  /** How long the written configuration is in bytes. */
  lemma PaddedLength(a: AscInput, bits: seq<Bit>)
    requires Laid(a, bits) && a.objectType == AOT_SBR
    ensures |bits| in {24, 32, 40} && 22 <= |bits| <= 40 && bits != [] && (|bits| < 28 <==> |bits| == 24)
    ensures |bits| == 24 <==> !(a.padToBits.Some? && a.padToBits.value > 24)
  {
    FieldPlaces(a, bits);
    assert |AscBits(a).value| == if a.padToBits.Some? then a.padToBits.value else 22;
  }

  lemma EscapedRateThenExtension(bits: seq<Bit>)
    requires |bits| <= 40
    ensures var chan := Take(bits, Take(bits, Cursor(9, false), 24).1, 4).1;
      chan.overflowed || ObjectTypeAt(bits, FrequencyAt(bits, chan).2).1.overflowed
  {
    if |bits| < 37 {
      EscapedRateOverflows(bits, Cursor(9, false));
    } else {
      TakeWithin(bits, 9, 24);
      TakeWithin(bits, 33, 4);
      TakeBeyond(bits, Cursor(37, false), 4);
      TakeBeyond(bits, Take(bits, Cursor(37, false), 4).1, 24);
      OverflowStays(bits, FrequencyAt(bits, Cursor(37, false)).2);
    }
  }

  /** An inner escape reads six more bits. */
  lemma InnerEscape(bits: seq<Bit>)
    requires |bits| >= 22
    ensures Take(bits, Cursor(22, false), 6).1.overflowed <==> |bits| < 28
  {
    if |bits| < 28 {
      TakeBeyond(bits, Cursor(22, false), 6);
    } else {
      TakeWithin(bits, 22, 6);
    }
  }
}
