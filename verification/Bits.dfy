/** Bit strings: fixed-width and Exp-Golomb fields, their packing into bytes,
    and the writer that appends them. */
module Bits {
  import opened MachineInts
  import opened Options
  import opened Products
  import opened WordPairs

  /** True stands for a one bit. */
  type Bit = bool

  function BitValue(b: Bit): nat {
    if b then 1 else 0
  }

  function Zeros(n: nat): (z: seq<Bit>)
    ensures |z| == n && forall i :: 0 <= i < n ==> !z[i]
  {
    seq(n, _ => false)
  }

  // ---------------------------------------------------------------------
  // Fixed-width fields.
  // ---------------------------------------------------------------------

  /** The n-bit numeral of value, most significant bit first. */
  function UBits(n: nat, value: nat): (b: seq<Bit>)
    requires value < Pow2(n)
    ensures |b| == n
  {
    if n == 0 then [] else UBits(n - 1, value / 2) + [value % 2 == 1]
  }

  function BitsValue(b: seq<Bit>): (v: nat) {
    if b == [] then 0 else 2 * BitsValue(b[..|b| - 1]) + BitValue(b[|b| - 1])
  }

  lemma {:induction false} BitsValueBound(b: seq<Bit>)
    ensures BitsValue(b) < Pow2(|b|)
  {
    if b != [] {
      BitsValueBound(b[..|b| - 1]);
    }
  }

  lemma {:induction false} UBitsReadBack(n: nat, value: nat)
    requires value < Pow2(n)
    ensures BitsValue(UBits(n, value)) == value
  {
    if n > 0 {
      UBitsReadBack(n - 1, value / 2);
      assert UBits(n, value)[..n - 1] == UBits(n - 1, value / 2);
    }
  }

  lemma {:induction false} UBitsOfValue(b: seq<Bit>)
    ensures BitsValue(b) < Pow2(|b|) && UBits(|b|, BitsValue(b)) == b
  {
    BitsValueBound(b);
    if b == [] {
      assert UBits(0, 0) == b;
    } else {
      var front, last := b[..|b| - 1], b[|b| - 1];
      UBitsOfValue(front);
      UBitsSnoc(|front|, BitsValue(front), last);
      assert b == front + [last];
      assert BitsValue(b) == 2 * BitsValue(front) + BitValue(last);
      hide UBits, BitsValue, BitValue, Pow2;
      assert |b| == |front| + 1;
    }
  }

  lemma UBitsSnoc(n: nat, value: nat, last: Bit)
    requires value < Pow2(n)
    ensures 2 * value + BitValue(last) < Pow2(n + 1)
    ensures UBits(n + 1, 2 * value + BitValue(last)) == UBits(n, value) + [last]
  {
    var v := 2 * value + BitValue(last);
    assert v / 2 == value && v % 2 == BitValue(last);
  }

  /** The leading bit of a numeral with a set top bit. */
  lemma {:induction false} TopBit(n: nat, value: nat)
    requires n > 0 && Pow2(n - 1) <= value < Pow2(n)
    ensures UBits(n, value) == [true] + UBits(n - 1, value - Pow2(n - 1))
  {
    if n == 1 {
      assert UBits(1, value) == [true];
    } else {
      TopBit(n - 1, value / 2);
      var low := value - Pow2(n - 1);
      assert low / 2 == value / 2 - Pow2(n - 2) && low % 2 == value % 2;
      assert UBits(n - 1, low) == UBits(n - 2, low / 2) + [low % 2 == 1];
    }
  }

  // ---------------------------------------------------------------------
  // Exp-Golomb fields, clause 9.1 of ITU-T H.264.
  // ---------------------------------------------------------------------

  function BitLength(x: nat): (n: nat)
    ensures x > 0 ==> n > 0 && Pow2(n - 1) <= x < Pow2(n)
    ensures x == 0 ==> n == 0
  {
    if x == 0 then 0 else 1 + BitLength(x / 2)
  }

  function UeBits(value: nat): seq<Bit> {
    Zeros(BitLength(value + 1) - 1) + UBits(BitLength(value + 1), value + 1)
  }

  function SeCode(value: int): nat {
    if value <= 0 then -2 * value else 2 * value - 1
  }

  /** The signed value of a code number. */
  function SeValue(code: nat): int {
    if code % 2 == 1 then (code + 1) / 2 else -(code / 2)
  }

  lemma SeCodeReadsBack(value: int)
    ensures SeValue(SeCode(value)) == value
    ensures value > 0 ==> SeCode(value) + 1 == SeCode(-value) == 2 * value
  {}

  datatype Read = Read(value: int, next: nat)

  function ReadU(bits: seq<Bit>, pos: nat, n: nat): Option<Read> {
    if pos + n > |bits| then None else Some(Read(BitsValue(bits[pos..pos + n]), pos + n))
  }

  /** How many zero bits start at pos. */
  function CountZeros(bits: seq<Bit>, pos: nat): (n: nat)
    ensures pos <= |bits| ==> pos + n <= |bits|
    decreases |bits| - pos
  {
    if pos >= |bits| || bits[pos] then 0 else 1 + CountZeros(bits, pos + 1)
  }

  function ReadUe(bits: seq<Bit>, pos: nat): Option<Read> {
    var k := CountZeros(bits, pos);
    if pos + 2 * k + 1 > |bits| then None
    else Some(Read(Pow2(k) - 1 + BitsValue(bits[pos + k + 1..pos + 2 * k + 1]), pos + 2 * k + 1))
  }

  // ---------------------------------------------------------------------
  // Lists of fields.
  // ---------------------------------------------------------------------

  datatype Field = U(width: nat, value: int) | Ue(value: int) | Se(value: int)

  datatype Shape = FixedWidth(width: nat) | Unsigned | Signed

  function ShapeOf(f: Field): Shape {
    match f
    case U(n, _) => FixedWidth(n)
    case Ue(_) => Unsigned
    case Se(_) => Signed
  }

  /** The writer accepts the field: a value that fits its width, or any value
      in a field of no width, which writes nothing. */
  predicate Writable(f: Field) {
    match f
    case U(n, v) => n == 0 || 0 <= v < Pow2(n)
    case Ue(v) => v >= 0
    case Se(_) => true
  }

  function FieldBits(f: Field): seq<Bit>
    requires Writable(f)
  {
    match f
    case U(n, v) => if n == 0 then [] else UBits(n, v)
    case Ue(v) => UeBits(v)
    case Se(v) => UeBits(SeCode(v))
  }

  predicate AllWritable(fields: seq<Field>) {
    forall f :: f in fields ==> Writable(f)
  }

  function FieldsBits(fields: seq<Field>): seq<Bit>
    requires AllWritable(fields)
  {
    if fields == [] then [] else FieldBits(fields[0]) + FieldsBits(fields[1..])
  }

  lemma {:induction false} FieldsBitsSnoc(fields: seq<Field>, f: Field)
    requires AllWritable(fields) && Writable(f)
    ensures AllWritable(fields + [f]) && FieldsBits(fields + [f]) == FieldsBits(fields) + FieldBits(f)
  {
    hide Writable, FieldBits;
    if fields == [] {
      assert fields + [f] == [f];
      assert FieldsBits([f]) == FieldBits(f) + FieldsBits([]);
    } else {
      FieldsBitsSnoc(fields[1..], f);
      assert (fields + [f])[1..] == fields[1..] + [f] && (fields + [f])[0] == fields[0];
      assert FieldsBits(fields + [f]) == FieldBits(fields[0]) + (FieldsBits(fields[1..]) + FieldBits(f));
    }
  }

  function ReadField(s: Shape, bits: seq<Bit>, pos: nat): Option<Read> {
    match s
    case FixedWidth(n) => ReadU(bits, pos, n)
    case Unsigned => ReadUe(bits, pos)
    case Signed =>
      var r := ReadUe(bits, pos);
      if r.None? || r.value.value < 0 then None else Some(Read(SeValue(r.value.value), r.value.next))
  }

  /** The values of the fields and where they end. */
  function ReadFields(shapes: seq<Shape>, bits: seq<Bit>, pos: nat): Option<(seq<int>, nat)> {
    if shapes == [] then Some(([], pos))
    else
      var r := ReadField(shapes[0], bits, pos);
      if r.None? then None
      else
        var rest := ReadFields(shapes[1..], bits, r.value.next);
        if rest.None? then None else Some(([r.value.value] + rest.value.0, rest.value.1))
  }

  function ShapesOf(fields: seq<Field>): seq<Shape> {
    seq(|fields|, i requires 0 <= i < |fields| => ShapeOf(fields[i]))
  }

  function ValuesOf(fields: seq<Field>): seq<int> {
    seq(|fields|, i requires 0 <= i < |fields| => fields[i].value)
  }

  /** No field that writes nothing. */
  predicate Visible(f: Field) {
    f.U? ==> f.width > 0
  }

  lemma CountZerosThenOne(bits: seq<Bit>, pos: nat, n: nat)
    requires pos + n < |bits| && bits[pos + n] && forall i :: pos <= i < pos + n ==> !bits[i]
    ensures CountZeros(bits, pos) == n
    decreases n
  {
    if n > 0 {
      CountZerosThenOne(bits, pos + 1, n - 1);
    }
  }

  /** The string s stands at position pos. */
  predicate At(bits: seq<Bit>, pos: nat, s: seq<Bit>) {
    pos + |s| <= |bits| && bits[pos..pos + |s|] == s
  }

  lemma AtSplit(bits: seq<Bit>, pos: nat, a: seq<Bit>, b: seq<Bit>)
    requires At(bits, pos, a + b)
    ensures At(bits, pos, a) && At(bits, pos + |a|, b)
  {
    var s := bits[pos..pos + |a| + |b|];
    assert s[..|a|] == a && s[|a|..] == b;
    assert bits[pos..pos + |a|] == s[..|a|] && bits[pos + |a|..pos + |a| + |b|] == s[|a|..];
  }

  lemma AtElement(bits: seq<Bit>, pos: nat, s: seq<Bit>, k: nat)
    requires At(bits, pos, s) && k < |s|
    ensures bits[pos + k] == s[k]
  {
    assert bits[pos..pos + |s|][k] == bits[pos + k];
  }

  lemma UeReadsBack(bits: seq<Bit>, pos: nat, value: nat)
    requires At(bits, pos, UeBits(value))
    ensures ReadUe(bits, pos) == Some(Read(value, pos + |UeBits(value)|))
  {
    hide *;
    var n, low := UeParts(value);
    var zeros := Zeros(n - 1);
    AtSplit(bits, pos, zeros, [true] + low);
    AtSplit(bits, pos + n - 1, [true], low);
    AtElement(bits, pos + n - 1, [true], 0);
    forall i | pos <= i < pos + n - 1 ensures !bits[i] {
      AtElement(bits, pos, zeros, i - pos);
    }
    CountZerosThenOne(bits, pos, n - 1);
    UeAt(bits, pos, n - 1, low, value);
  }

  /** n - 1 zeros, a one, and the n - 1 low bits of value + 1. */
  lemma UeParts(value: nat) returns (n: nat, low: seq<Bit>)
    ensures n > 0 && |low| == n - 1 && UeBits(value) == Zeros(n - 1) + ([true] + low)
    ensures |UeBits(value)| == 2 * n - 1 && Pow2(n - 1) - 1 + BitsValue(low) == value
  {
    n := BitLength(value + 1);
    TopBit(n, value + 1);
    low := UBits(n - 1, value + 1 - Pow2(n - 1));
    UBitsReadBack(n - 1, value + 1 - Pow2(n - 1));
  }

  lemma UeAt(bits: seq<Bit>, pos: nat, k: nat, low: seq<Bit>, value: nat)
    requires CountZeros(bits, pos) == k && |low| == k && At(bits, pos + k + 1, low) && Pow2(k) - 1 + BitsValue(low) == value
    ensures ReadUe(bits, pos) == Some(Read(value, pos + 2 * k + 1))
  {
    hide CountZeros, BitsValue, Pow2;
  }

  lemma FieldReadsBack(bits: seq<Bit>, pos: nat, f: Field)
    requires Writable(f) && Visible(f) && At(bits, pos, FieldBits(f))
    ensures ReadField(ShapeOf(f), bits, pos) == Some(Read(f.value, pos + |FieldBits(f)|))
  {
    hide UeBits, UBits, ReadUe, BitsValue, SeCode, SeValue;
    match f {
      case U(n, v) => UBitsReadBack(n, v);
      case Ue(v) => UeReadsBack(bits, pos, v);
      case Se(v) =>
        UeReadsBack(bits, pos, SeCode(v));
        SeCodeReadsBack(v);
    }
  }

  /** Reading back the fields returns the values written, whatever precedes and
      follows them. */
  lemma {:induction false} FieldsReadBack(bits: seq<Bit>, pos: nat, fields: seq<Field>)
    requires AllWritable(fields) && AllVisible(fields) && At(bits, pos, FieldsBits(fields))
    ensures ReadFields(ShapesOf(fields), bits, pos) == Some((ValuesOf(fields), pos + |FieldsBits(fields)|))
    decreases |fields|
  {
    hide *;
    if fields == [] {
      NothingRead(bits, pos, fields);
    } else {
      FieldsHead(fields);
      var f, rest := fields[0], fields[1..];
      AtSplit(bits, pos, FieldBits(f), FieldsBits(rest));
      FieldReadsBack(bits, pos, f);
      FieldsReadBack(bits, pos + |FieldBits(f)|, rest);
      FirstThenRest(bits, pos, fields);
    }
  }

  lemma NothingRead(bits: seq<Bit>, pos: nat, fields: seq<Field>)
    requires fields == []
    ensures ReadFields(ShapesOf(fields), bits, pos) == Some((ValuesOf(fields), pos + |FieldsBits(fields)|))
  {
    assert ShapesOf(fields) == [] && ValuesOf(fields) == [];
  }

  lemma FirstThenRest(bits: seq<Bit>, pos: nat, fields: seq<Field>)
    requires AllWritable(fields) && fields != [] && Writable(fields[0]) && AllWritable(fields[1..])
    requires var f, rest := fields[0], fields[1..];
      var next := pos + |FieldBits(f)|;
      && FieldsBits(fields) == FieldBits(f) + FieldsBits(rest)
      && ReadField(ShapeOf(f), bits, pos) == Some(Read(f.value, next))
      && ReadFields(ShapesOf(rest), bits, next) == Some((ValuesOf(rest), next + |FieldsBits(rest)|))
    ensures ReadFields(ShapesOf(fields), bits, pos) == Some((ValuesOf(fields), pos + |FieldsBits(fields)|))
  {
    hide FieldBits, FieldsBits, Writable, ReadField;
    assert ShapesOf(fields)[0] == ShapeOf(fields[0]) && ShapesOf(fields)[1..] == ShapesOf(fields[1..]);
    assert ValuesOf(fields) == [fields[0].value] + ValuesOf(fields[1..]);
  }

  predicate AllVisible(fields: seq<Field>) {
    forall f :: f in fields ==> Visible(f)
  }

  lemma FieldsHead(fields: seq<Field>)
    requires AllWritable(fields) && AllVisible(fields) && fields != []
    ensures var f, rest := fields[0], fields[1..];
      && Writable(f) && Visible(f) && AllWritable(rest) && AllVisible(rest)
      && FieldsBits(fields) == FieldBits(f) + FieldsBits(rest)
  {}

  // ---------------------------------------------------------------------
  // Bytes.
  // ---------------------------------------------------------------------

  /** The bytes of a bit string of whole bytes. */
  function Pack(bits: seq<Bit>): (r: seq<Byte>)
    requires |bits| % 8 == 0
    ensures |r| == |bits| / 8
  {
    if bits == [] then [] else [PackByte(bits[..8])] + Pack(bits[8..])
  }

  function PackByte(bits: seq<Bit>): Byte
    requires |bits| == 8
  {
    BitsValueBound(bits);
    assert Pow2(8) == 256;
    BitsValue(bits)
  }

  function Unpack(bytes: seq<Byte>): (r: seq<Bit>)
    ensures |r| == 8 * |bytes|
  {
    if bytes == [] then [] else (assert Pow2(8) == 256; UBits(8, bytes[0])) + Unpack(bytes[1..])
  }

  lemma {:induction false} UnpackPack(bits: seq<Bit>)
    requires |bits| % 8 == 0
    ensures Unpack(Pack(bits)) == bits
    decreases |bits|
  {
    if bits != [] {
      UnpackPack(bits[8..]);
      UBitsOfValue(bits[..8]);
      assert Pack(bits)[1..] == Pack(bits[8..]);
      assert bits == bits[..8] + bits[8..];
    }
  }

  ghost function Joined(a: seq<Byte>, b: seq<Byte>): seq<Byte> {
    a + b
  }

  lemma StartPacking(bits: seq<Bit>)
    requires |bits| % 8 == 0
    ensures Pack(bits) == Joined([], Pack(bits[0..]))
  {
    assert bits[0..] == bits;
  }

  lemma NothingToPack(bits: seq<Bit>, out: seq<Byte>)
    requires |bits| % 8 == 0
    ensures Joined(out, Pack(bits[8 * (|bits| / 8)..])) == out
  {}

  lemma PackStep(bits: seq<Bit>, q: nat, out: seq<Byte>)
    requires |bits| % 8 == 0 && q < |bits| / 8
    ensures 8 * q + 8 <= |bits| && |bits[8 * q..]| % 8 == 0 && |bits[8 * (q + 1)..]| % 8 == 0
    ensures Joined(out, Pack(bits[8 * q..])) == Joined(out + [PackByte(bits[8 * q..8 * q + 8])], Pack(bits[8 * (q + 1)..]))
  {
    var i := 8 * q;
    assert bits[i..][..8] == bits[i..i + 8] && bits[i..][8..] == bits[i + 8..];
    assert Pack(bits[i..]) == [PackByte(bits[i..i + 8])] + Pack(bits[i + 8..]);
    hide Pack, PackByte;
  }

  /** Zero bits up to the next whole byte. */
  function Padded(bits: seq<Bit>): (r: seq<Bit>)
    ensures |r| % 8 == 0 && |bits| <= |r| < |bits| + 8
  {
    if |bits| % 8 == 0 then bits else bits + Zeros(8 - |bits| % 8)
  }

  // ---------------------------------------------------------------------
  // The writer.
  // ---------------------------------------------------------------------

  lemma QuotientStep(value: nat, i: nat)
    ensures (value / Pow2(i)) / 2 == value / Pow2(i + 1)
  {
    HalvedQuotient(value, Pow2(i));
  }

  lemma HalvedQuotient(value: nat, p: nat)
    requires p > 0
    ensures (value / p) / 2 == value / (2 * p)
  {
    var q, r := value / p, value % p;
    var half := q / 2;
    assert value == p * q + r;
    Associate(2, p, half);
    if q == 2 * half {
      DivModUnique(value, 2 * p, half, r);
    } else {
      Distribute(p, 2 * half, 1);
      DivModUnique(value, 2 * p, half, p + r);
    }
  }

  lemma {:induction false} QuotientBound(value: nat, i: nat, n: nat)
    requires i <= n && value < Pow2(n)
    ensures 0 <= value / Pow2(i) < Pow2(n - i)
    decreases i
  {
    if i > 0 {
      QuotientBound(value, i - 1, n);
      QuotientStep(value, i - 1);
    }
  }

  /** The n - i most significant of the n bits of value. */
  ghost function HighBits(n: nat, value: nat, i: nat): seq<Bit>
    requires i <= n && value < Pow2(n)
  {
    QuotientBound(value, i, n);
    UBits(n - i, value / Pow2(i))
  }

  lemma FirstBits(n: nat, value: nat)
    requires value < Pow2(n)
    ensures HighBits(n, value, n) == [] && HighBits(n, value, 0) == UBits(n, value)
  {
    QuotientBound(value, n, n);
    assert Pow2(0) == 1;
  }

  lemma NextBit(n: nat, value: nat, i: nat)
    requires i < n && value < Pow2(n)
    ensures HighBits(n, value, i) == HighBits(n, value, i + 1) + [(value / Pow2(i)) % 2 == 1]
  {
    QuotientStep(value, i);
    QuotientBound(value, i, n);
    hide Pow2;
  }

  class BitWriter {
    var bits: seq<Bit>

    constructor ()
      ensures bits == []
    {
      bits := [];
    }

    /** A fixed-width field; refuses a value that does not fit. */
    method U(n: nat, value: int) returns (ok: bool)
      modifies this
      ensures ok == Writable(Field.U(n, value))
      ensures bits == if ok then old(bits) + FieldBits(Field.U(n, value)) else old(bits)
    {
      if n == 0 {
        return true;
      }
      if value < 0 || value >= Pow2(n) {
        return false;
      }
      ghost var v: nat := value;
      FirstBits(n, v);
      assert Pow2(0) == 1;
      hide Pow2, UBits;
      for i := n downto 0
        invariant bits == old(bits) + HighBits(n, v, i)
      {
        NextBit(n, v, i);
        bits := bits + [(value / Pow2(i)) % 2 == 1];
      }
      return true;
    }

    /** An unsigned Exp-Golomb field; refuses a negative value. */
    method Ue(value: int) returns (ok: bool)
      modifies this
      ensures ok == Writable(Field.Ue(value))
      ensures bits == if ok then old(bits) + FieldBits(Field.Ue(value)) else old(bits)
    {
      if value < 0 {
        return false;
      }
      var nbits := BitLength(value + 1);
      assert Pow2(0) == 1;
      ZeroField(nbits - 1);
      var _ := U(nbits - 1, 0);
      var _ := U(nbits, value + 1);
      return true;
    }

    method Se(value: int)
      modifies this
      ensures bits == old(bits) + FieldBits(Field.Se(value))
    {
      var _ := Ue(if value <= 0 then -2 * value else 2 * value - 1);
    }

    method Write(f: Field) returns (ok: bool)
      modifies this
      ensures ok == Writable(f)
      ensures bits == if ok then old(bits) + FieldBits(f) else old(bits)
    {
      match f {
        case U(n, v) => ok := U(n, v);
        case Ue(v) => ok := Ue(v);
        case Se(v) => Se(v); ok := true;
      }
    }

    /** All fields in order, stopping at the first refusal. */
    method WriteAll(fields: seq<Field>) returns (ok: bool)
      modifies this
      ensures ok == AllWritable(fields)
      ensures ok ==> bits == old(bits) + FieldsBits(fields)
    {
      hide FieldBits, FieldsBits, Writable;
      assert FieldsBits([]) == [] by {
        NoFields();
      }
      for i := 0 to |fields|
        invariant AllWritable(fields[..i])
        invariant bits == old(bits) + FieldsBits(fields[..i])
      {
        var f := fields[i];
        assert fields[..i + 1] == fields[..i] + [f] && f in fields;
        ok := Write(f);
        if !ok {
          return;
        }
        FieldsBitsSnoc(fields[..i], f);
      }
      assert fields[..|fields|] == fields;
      return true;
    }

    /** The stop bit and zero bits up to the next byte. */
    method RbspTrailingBits()
      modifies this
      ensures bits == Padded(old(bits) + [true])
    {
      OneBitFields();
      hide FieldBits, Writable;
      var _ := U(1, 1);
      ghost var stopped := bits;
      hide Padded;
      while |bits| % 8 != 0
        invariant PartlyPadded(stopped, bits)
        decreases |Padded(stopped)| - |bits|
      {
        PaddedFurther(stopped, bits);
        hide PartlyPadded;
        var _ := U(1, 0);
      }
      PaddedFurther(stopped, bits);
    }

    /** The bits as bytes, padded with zeros. */
    method ToBytes() returns (out: seq<Byte>)
      ensures out == Pack(Padded(bits))
    {
      var padded := Padded(bits);
      out := [];
      StartPacking(padded);
      hide *;
      for q := 0 to |padded| / 8
        invariant 8 * q <= |padded| && Pack(padded) == Joined(out, Pack(padded[8 * q..]))
      {
        PackStep(padded, q, out);
        var byte := ChunkByte(padded[8 * q..8 * q + 8]);
        out := out + [byte];
      }
      NothingToPack(padded, out);
    }
  }

  lemma NoFields()
    ensures FieldsBits([]) == []
  {}

  ghost predicate PartlyPadded(start: seq<Bit>, bits: seq<Bit>) {
    |start| <= |bits| <= |Padded(start)| && bits == start + Zeros(|bits| - |start|)
  }

  lemma PaddedFurther(start: seq<Bit>, bits: seq<Bit>)
    requires PartlyPadded(start, bits)
    ensures if |bits| % 8 == 0 then bits == Padded(start)
      else PartlyPadded(start, bits + [false]) && |bits| < |Padded(start)|
  {
    assert Zeros(|bits| + 1 - |start|) == Zeros(|bits| - |start|) + [false];
  }

  lemma OneBitFields()
    ensures Writable(U(1, 0)) && FieldBits(U(1, 0)) == [false]
    ensures Writable(U(1, 1)) && FieldBits(U(1, 1)) == [true]
  {
    assert Pow2(1) == 2 && UBits(0, 0) == [];
    assert UBits(1, 1) == UBits(0, 0) + [true] && UBits(1, 0) == UBits(0, 0) + [false];
  }

  /** The byte of eight bits, shifted in one at a time. */
  method ChunkByte(chunk: seq<Bit>) returns (byte: Byte)
    requires |chunk| == 8
    ensures byte == PackByte(chunk)
  {
    var value: int := 0;
    for k := 0 to 8
      invariant value == BitsValue(chunk[..k])
    {
      assert chunk[..k + 1][..k] == chunk[..k];
      value := value * 2 + BitValue(chunk[k]);
    }
    assert chunk[..8] == chunk;
    BitsValueBound(chunk);
    assert Pow2(8) == 256;
    return value;
  }

  lemma {:induction false} ZeroField(n: nat)
    ensures Pow2(n) > 0 && UBits(n, 0) == Zeros(n)
  {
    if n > 0 {
      ZeroField(n - 1);
      assert Zeros(n) == Zeros(n - 1) + [false];
    }
  }
}
