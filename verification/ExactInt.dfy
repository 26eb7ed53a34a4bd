/** The 256-bit sign-magnitude integer of the tolerance comparator: eight
    little-endian 32-bit limbs. */
module ExactInts {
  import opened Options
  import opened MachineInts
  import opened Products
  import opened Limbs
  import opened Decimals

  const LIMB_COUNT: nat := 8

  datatype Magnitude256 = ExactInt(mag: seq<UInt32>, negative: bool)

  /** Eight limbs, and zero is never negative. */
  type ExactInt = x: Magnitude256 | |x.mag| == LIMB_COUNT && (x.negative ==> LimbsValue(x.mag) != 0)
    witness ExactInt([0, 0, 0, 0, 0, 0, 0, 0], false)

  function IntOf(x: ExactInt): int {
    if x.negative then 0 - LimbsValue(x.mag) else LimbsValue(x.mag)
  }

  /** Whether the magnitude of v needs no more than 256 bits. */
  ghost predicate Fits256(v: int) {
    Abs(v) < Power(LIMB_COUNT)
  }

  method FromInt64(v: Int64) returns (r: ExactInt)
    ensures IntOf(r) == v
  {
    var magnitude: UInt64 := if v < 0
      then ((0xFFFF_FFFF_FFFF_FFFF - (v + 0x1_0000_0000_0000_0000)) + 1) % 0x1_0000_0000_0000_0000
      else v;
    var low, high := magnitude % 0x1_0000_0000, magnitude / 0x1_0000_0000;
    var mag := [low, high, 0, 0, 0, 0, 0, 0];
    assert LimbsValue(mag) == magnitude by {
      assert mag[2..] == [0, 0, 0, 0, 0, 0];
      ZeroLimbs(mag[2..]);
      assert mag[1..][1..] == mag[2..];
    }
    return ExactInt(mag, v < 0);
  }

  method IsZero(x: ExactInt) returns (r: bool)
    ensures r <==> IntOf(x) == 0
  {
    r := AllZero(x.mag);
  }

  method AllZero(mag: seq<UInt32>) returns (r: bool)
    ensures r <==> LimbsValue(mag) == 0
  {
    for i := 0 to |mag|
      invariant forall k :: 0 <= k < i ==> mag[k] == 0
    {
      if mag[i] != 0 {
        NonZeroLimbs(mag, i);
        return false;
      }
    }
    ZeroLimbs(mag);
    return true;
  }

  function Absolute(x: ExactInt): (r: ExactInt)
    ensures IntOf(r) == Abs(IntOf(x))
  {
    x.(negative := false)
  }

  /** Schoolbook product.  Refused exactly when the true product needs more
      than 256 bits. */
  method TryMul(a: ExactInt, b: ExactInt) returns (r: Option<ExactInt>)
    ensures r.Some? <==> Fits256(IntOf(a) * IntOf(b))
    ensures r.Some? ==> IntOf(r.value) == IntOf(a) * IntOf(b)
  {
    var product := MulMagnitudes(a.mag, b.mag);
    var low, high := product[..LIMB_COUNT], product[LIMB_COUNT..];
    HighLimbsDecide(product);
    SignedProduct(LimbsValue(a.mag), LimbsValue(b.mag), a.negative, b.negative);
    assert IntOf(a) * IntOf(b) == if a.negative != b.negative then 0 - LimbsValue(product) else LimbsValue(product);
    assert Fits256(IntOf(a) * IntOf(b)) <==> LimbsValue(high) == 0;
    hide IntOf, Fits256, LimbsValue;
    var highIsZero := HighLimbsAreZero(product);
    if !highIsZero {
      return None;
    }
    var zero := AllZero(low);
    IntOfParts(low, a.negative != b.negative && !zero);
    return Some(ExactInt(low, a.negative != b.negative && !zero));
  }

  /** The check of the upper eight limbs. */
  method HighLimbsAreZero(product: seq<UInt32>) returns (r: bool)
    requires |product| == 2 * LIMB_COUNT
    ensures r <==> LimbsValue(product[LIMB_COUNT..]) == 0
  {
    ghost var high := product[LIMB_COUNT..];
    for k := LIMB_COUNT to 2 * LIMB_COUNT
      invariant forall j :: 0 <= j < k - LIMB_COUNT ==> high[j] == 0
    {
      if product[k] != 0 {
        NonZeroLimbs(high, k - LIMB_COUNT);
        return false;
      }
    }
    ZeroLimbs(high);
    return true;
  }

  lemma IntOfParts(mag: seq<UInt32>, negative: bool)
    requires |mag| == LIMB_COUNT && (negative ==> LimbsValue(mag) != 0)
    ensures IntOf(ExactInt(mag, negative)) == if negative then 0 - LimbsValue(mag) else LimbsValue(mag)
  {}

  lemma NonZeroLimbs(s: seq<UInt32>, k: nat)
    requires k < |s| && s[k] != 0
    ensures LimbsValue(s) != 0
  {
    NonZeroLimb(s, k);
    Monotone(s[k], 1, Power(k));
  }

  /** A sixteen-limb product fits eight limbs when the upper eight are zero. */
  lemma HighLimbsDecide(product: seq<UInt32>)
    requires |product| == 2 * LIMB_COUNT
    ensures LimbsValue(product) < Power(LIMB_COUNT) <==> LimbsValue(product[LIMB_COUNT..]) == 0
    ensures LimbsValue(product[LIMB_COUNT..]) == 0 ==> LimbsValue(product[..LIMB_COUNT]) == LimbsValue(product)
  {
    hide LimbsValue, Power;
    SplitLimbs(product, LIMB_COUNT);
    LimbsBelowPower(product[..LIMB_COUNT]);
    if LimbsValue(product[LIMB_COUNT..]) != 0 {
      Monotone(Power(LIMB_COUNT), 1, LimbsValue(product[LIMB_COUNT..]));
    }
  }

  lemma SignedProduct(a: int, b: int, na: bool, nb: bool)
    requires a >= 0 && b >= 0
    ensures var x, y := (if na then -a else a), (if nb then -b else b);
      x * y == (if na != nb then -(a * b) else a * b) && Abs(x * y) == a * b
  {
    Monotone(a, 0, b);
  }

  /** The row-by-row product of two eight-limb magnitudes. */
  method MulMagnitudes(a: seq<UInt32>, b: seq<UInt32>) returns (product: seq<UInt32>)
    requires |a| == LIMB_COUNT && |b| == LIMB_COUNT
    ensures |product| == 2 * LIMB_COUNT
    ensures LimbsValue(product) == LimbsValue(a) * LimbsValue(b)
  {
    var buffer := new UInt32[2 * LIMB_COUNT](_ => 0);
    ZeroLimbs(buffer[..]);
    for i := 0 to LIMB_COUNT
      invariant LimbsValue(buffer[..]) == LimbsValue(a[..i]) * LimbsValue(b)
      invariant forall k :: i + LIMB_COUNT <= k < 2 * LIMB_COUNT ==> buffer[k] == 0
    {
      AppendLimb(a, i);
      RowAdds(LimbsValue(a[..i]), a[i], LimbsValue(b), Power(i));
      if a[i] == 0 {
        continue;
      }
      hide LimbsValue, Power;
      AddRow(buffer, i, a[i], b);
    }
    assert a[..LIMB_COUNT] == a;
    product := buffer[..];
  }

  /** Adds limb * b, shifted up by i limbs, to the product so far. */
  method AddRow(buffer: array<UInt32>, i: nat, limb: UInt32, b: seq<UInt32>)
    requires i < LIMB_COUNT && |b| == LIMB_COUNT && buffer.Length == 2 * LIMB_COUNT
    requires buffer[i + LIMB_COUNT] == 0
    modifies buffer
    ensures LimbsValue(buffer[..]) == LimbsValue(old(buffer[..])) + (limb * LimbsValue(b)) * Power(i)
    ensures forall k :: i + LIMB_COUNT < k < 2 * LIMB_COUNT ==> buffer[k] == old(buffer[k])
  {
    ghost var before := buffer[..];
    var carry: UInt32 := 0;
    RowStart(before, limb, b, i);
    for j := 0 to LIMB_COUNT
      invariant RowInvariant(buffer[..], before, limb, b, i, j, carry)
      invariant forall k :: i + j <= k < 2 * LIMB_COUNT ==> buffer[k] == before[k]
    {
      RowStep(buffer[..], before, limb, b, i, j, carry);
      hide *;
      ghost var previous := buffer[..];
      var t := limb * b[j] + buffer[i + j] + carry;
      buffer[i + j] := t % 0x1_0000_0000;
      carry := t / 0x1_0000_0000;
      assert buffer[..] == previous[i + j := t % 0x1_0000_0000];
    }
    ghost var row := buffer[..];
    SetLimb(row, i + LIMB_COUNT, carry);
    buffer[i + LIMB_COUNT] := carry;
    assert buffer[..] == row[i + LIMB_COUNT := carry];
    assert b[..LIMB_COUNT] == b;
  }

  ghost predicate RowInvariant(current: seq<UInt32>, before: seq<UInt32>, limb: UInt32, b: seq<UInt32>, i: nat, j: nat,
                               carry: UInt32)
    requires j <= |b|
  {
    LimbsValue(current) + carry * Power(i + j) == LimbsValue(before) + (limb * LimbsValue(b[..j])) * Power(i)
  }

  lemma RowStart(before: seq<UInt32>, limb: UInt32, b: seq<UInt32>, i: nat)
    ensures RowInvariant(before, before, limb, b, i, 0, 0)
  {
    assert LimbsValue(b[..0]) == 0;
  }

  lemma RowStep(current: seq<UInt32>, before: seq<UInt32>, limb: UInt32, b: seq<UInt32>, i: nat, j: nat, carry: UInt32)
    requires j < |b| && i + j < |current|
    requires RowInvariant(current, before, limb, b, i, j, carry)
    ensures var t := limb * b[j] + current[i + j] + carry;
      0 <= t < 0x1_0000_0000_0000_0000 && 0 <= t / 0x1_0000_0000 < 0x1_0000_0000 &&
      RowInvariant(current[i + j := t % 0x1_0000_0000], before, limb, b, i, j + 1, t / 0x1_0000_0000)
  {
    ProductStepBound(limb, b[j], current[i + j], carry);
    var t := limb * b[j] + current[i + j] + carry;
    AppendLimb(b, j);
    SetLimb(current, i + j, t % 0x1_0000_0000);
    PowerAdd(i, j);
    assert Power(i + (j + 1)) == 0x1_0000_0000 * Power(i + j);
    hide Power, LimbsValue;
    MulStep(limb, b[j], current[i + j], carry, t, Power(i), Power(j),
            LimbsValue(b[..j]), LimbsValue(before), LimbsValue(current));
  }

  lemma RowAdds(prefix: int, ai: int, b: int, p: int)
    ensures (prefix + ai * p) * b == prefix * b + (ai * b) * p
  {
    Distribute(b, prefix, ai * p);
    Associate(ai, p, b);
    Associate(ai, b, p);
  }

  lemma ProductStepBound(x: UInt32, y: UInt32, z: UInt32, carry: UInt32)
    ensures 0 <= x * y + z + carry < 0x1_0000_0000_0000_0000
    ensures 0 <= (x * y + z + carry) / 0x1_0000_0000 < 0x1_0000_0000
  {
    Monotone(x, y, 0xFFFF_FFFF);
    Monotone(0xFFFF_FFFF, x, 0xFFFF_FFFF);
    Monotone(x, 0, y);
  }

  /** One inner step: the low half of t replaces the limb, the high half is
      the carry one limb up. */
  lemma MulStep(ai: int, bj: int, limb: int, carry: int, t: int, pi: int, pj: int, bprefix: int, before: int, current: int)
    requires t == ai * bj + limb + carry
    requires current + carry * (pi * pj) == before + (ai * bprefix) * pi
    ensures current + (t % 0x1_0000_0000 - limb) * (pi * pj) + (t / 0x1_0000_0000) * (0x1_0000_0000 * (pi * pj))
         == before + (ai * (bprefix + bj * pj)) * pi
  {
    var p := pi * pj;
    CarryOut(t, limb, p);
    assert (t - limb) * p == (ai * bj) * p + carry * p by {
      Distribute(p, ai * bj, carry);
    }
    NextColumn(ai, bj, bprefix, pi, pj);
  }

  lemma CarryOut(t: int, limb: int, p: int)
    ensures (t % 0x1_0000_0000 - limb) * p + (t / 0x1_0000_0000) * (0x1_0000_0000 * p) == (t - limb) * p
  {
    var low, high := t % 0x1_0000_0000, t / 0x1_0000_0000;
    Associate(high, 0x1_0000_0000, p);
    Distribute(p, low - limb, high * 0x1_0000_0000);
  }

  lemma NextColumn(ai: int, bj: int, bprefix: int, pi: int, pj: int)
    ensures (ai * (bprefix + bj * pj)) * pi == (ai * bprefix) * pi + (ai * bj) * (pi * pj)
  {
    Distribute(ai, bprefix, bj * pj);
    Distribute(pi, ai * bprefix, ai * (bj * pj));
    Associate(ai, bj, pj);
    Associate(ai * bj, pj, pi);
  }

  /** -1, 0 or 1 as the first magnitude is below, equal to or above the other. */
  method CompareMagnitudes(a: ExactInt, b: ExactInt) returns (r: int)
    ensures r == Sign(LimbsValue(a.mag) - LimbsValue(b.mag))
  {
    var k := LIMB_COUNT - 1;
    while k >= 0
      invariant -1 <= k < LIMB_COUNT
      invariant a.mag[k + 1..] == b.mag[k + 1..]
    {
      if a.mag[k] != b.mag[k] {
        if a.mag[k] < b.mag[k] {
          TopLimbDecides(a.mag, b.mag, k);
          return -1;
        }
        TopLimbDecides(b.mag, a.mag, k);
        return 1;
      }
      k := k - 1;
    }
    assert a.mag[0..] == a.mag && b.mag[0..] == b.mag;
    return 0;
  }

  /** The sum of the magnitudes modulo 2^256 and the carry out of the top. */
  method AddMagnitudes(a: seq<UInt32>, b: seq<UInt32>) returns (sum: seq<UInt32>, ok: bool)
    requires |a| == LIMB_COUNT && |b| == LIMB_COUNT
    ensures |sum| == LIMB_COUNT
    ensures ok <==> LimbsValue(a) + LimbsValue(b) < Power(LIMB_COUNT)
    ensures ok ==> LimbsValue(sum) == LimbsValue(a) + LimbsValue(b)
  {
    sum := [];
    var carry := 0;
    for k := 0 to LIMB_COUNT
      invariant |sum| == k && 0 <= carry <= 1
      invariant LimbsValue(sum) + carry * Power(k) == LimbsValue(a[..k]) + LimbsValue(b[..k])
    {
      var t := a[k] + b[k] + carry;
      AppendLimb(a, k);
      AppendLimb(b, k);
      Snoc(sum, t % 0x1_0000_0000);
      AddStep(a[k], b[k], carry, t, Power(k));
      sum := sum + [t % 0x1_0000_0000];
      carry := t / 0x1_0000_0000;
    }
    assert a[..LIMB_COUNT] == a && b[..LIMB_COUNT] == b;
    LimbsBelowPower(sum);
    ok := carry == 0;
  }

  lemma AddStep(x: int, y: int, carry: int, t: int, p: int)
    requires t == x + y + carry
    ensures (t % 0x1_0000_0000) * p + (t / 0x1_0000_0000) * (0x1_0000_0000 * p) == x * p + y * p + carry * p
  {
    Associate(t / 0x1_0000_0000, 0x1_0000_0000, p);
    Distribute(p, t % 0x1_0000_0000, (t / 0x1_0000_0000) * 0x1_0000_0000);
    Distribute(p, x, y);
    Distribute(p, x + y, carry);
  }

  method SubtractMagnitudes(a: seq<UInt32>, b: seq<UInt32>) returns (difference: seq<UInt32>)
    requires |a| == LIMB_COUNT && |b| == LIMB_COUNT
    requires LimbsValue(a) >= LimbsValue(b)
    ensures |difference| == LIMB_COUNT
    ensures LimbsValue(difference) == LimbsValue(a) - LimbsValue(b)
  {
    difference := [];
    var borrow := 0;
    assert LimbsValue(a[..0]) == LimbsValue(b[..0]) == 0;
    for k := 0 to LIMB_COUNT
      invariant |difference| == k && 0 <= borrow <= 1
      invariant DifferenceInvariant(difference, a, b, k, borrow)
    {
      DifferenceStep(difference, a, b, k, borrow);
      hide *;
      var minuend: int := a[k];
      var subtrahend: int := b[k];
      subtrahend := subtrahend + borrow;
      if minuend >= subtrahend {
        difference := difference + [minuend - subtrahend];
        borrow := 0;
      } else {
        difference := difference + [minuend + 0x1_0000_0000 - subtrahend];
        borrow := 1;
      }
    }
    assert a[..LIMB_COUNT] == a && b[..LIMB_COUNT] == b;
    LimbsBelowPower(difference);
  }

  ghost predicate DifferenceInvariant(difference: seq<UInt32>, a: seq<UInt32>, b: seq<UInt32>, k: nat, borrow: int)
    requires k <= |a| && k <= |b|
  {
    LimbsValue(difference) - borrow * Power(k) == LimbsValue(a[..k]) - LimbsValue(b[..k])
  }

  lemma DifferenceStep(difference: seq<UInt32>, a: seq<UInt32>, b: seq<UInt32>, k: nat, borrow: int)
    requires k < |a| && k < |b| && |difference| == k && 0 <= borrow <= 1
    requires DifferenceInvariant(difference, a, b, k, borrow)
    ensures a[k] >= b[k] + borrow ==>
      DifferenceInvariant(difference + [a[k] - (b[k] + borrow)], a, b, k + 1, 0)
    ensures a[k] < b[k] + borrow ==>
      DifferenceInvariant(difference + [a[k] + 0x1_0000_0000 - (b[k] + borrow)], a, b, k + 1, 1)
  {
    AppendLimb(a, k);
    AppendLimb(b, k);
    assert Power(k + 1) == 0x1_0000_0000 * Power(k);
    hide Power, LimbsValue;
    SubtractStep(a[k], b[k], borrow, Power(k));
    if a[k] >= b[k] + borrow {
      Snoc(difference, a[k] - (b[k] + borrow));
    } else {
      Snoc(difference, a[k] + 0x1_0000_0000 - (b[k] + borrow));
    }
  }

  lemma SubtractStep(x: int, y: int, borrow: int, p: int)
    ensures (x - (y + borrow)) * p == x * p - y * p - borrow * p
    ensures (x + 0x1_0000_0000 - (y + borrow)) * p - 0x1_0000_0000 * p == x * p - y * p - borrow * p
  {
    Distribute(p, y, borrow);
    DistributeMinus(p, x, y + borrow);
    Distribute(p, x - (y + borrow), 0x1_0000_0000);
  }

  method TryAdd(a: ExactInt, b: ExactInt) returns (r: Option<ExactInt>)
    ensures r.Some? <==> Fits256(IntOf(a) + IntOf(b))
    ensures r.Some? ==> IntOf(r.value) == IntOf(a) + IntOf(b)
  {
    hide LimbsValue, Power;
    var mag, negative;
    LimbsBelowPower(a.mag);
    LimbsBelowPower(b.mag);
    if a.negative == b.negative {
      var ok;
      mag, ok := AddMagnitudes(a.mag, b.mag);
      if !ok {
        return None;
      }
      negative := a.negative;
    } else {
      var order := CompareMagnitudes(a, b);
      if order >= 0 {
        mag := SubtractMagnitudes(a.mag, b.mag);
        negative := a.negative;
      } else {
        mag := SubtractMagnitudes(b.mag, a.mag);
        negative := b.negative;
      }
    }
    var zero := AllZero(mag);
    if zero {
      negative := false;
    }
    return Some(ExactInt(mag, negative));
  }

  method TrySub(a: ExactInt, b: ExactInt) returns (r: Option<ExactInt>)
    ensures r.Some? <==> Fits256(IntOf(a) - IntOf(b))
    ensures r.Some? ==> IntOf(r.value) == IntOf(a) - IntOf(b)
  {
    var zero := AllZero(b.mag);
    r := TryAdd(a, b.(negative := !b.negative && !zero));
  }

  method Compare(a: ExactInt, b: ExactInt) returns (r: int)
    ensures r == Sign(IntOf(a) - IntOf(b))
  {
    if a.negative != b.negative {
      return if a.negative then -1 else 1;
    }
    var order := CompareMagnitudes(a, b);
    return if a.negative then -order else order;
  }

  /** work /= 10 in place, from the top limb down. */
  method DivideByTen(work: seq<UInt32>) returns (quotient: seq<UInt32>, remainder: nat, remaining: bool)
    ensures |quotient| == |work|
    ensures LimbsValue(quotient) == LimbsValue(work) / 10 && remainder == LimbsValue(work) % 10
    ensures remaining <==> LimbsValue(quotient) != 0
  {
    quotient, remainder, remaining := work, 0, false;
    var k := |work| - 1;
    while k >= 0
      invariant -1 <= k < |work| == |quotient| && remainder < 10
      invariant quotient[..k + 1] == work[..k + 1]
      invariant LimbsValue(work[k + 1..]) == 10 * LimbsValue(quotient[k + 1..]) + remainder
      invariant remaining <==> LimbsValue(quotient[k + 1..]) != 0
    {
      var current := remainder * 0x1_0000_0000 + work[k];
      assert work[k..][1..] == work[k + 1..];
      ghost var above := quotient[k + 1..];
      quotient := quotient[k := current / 10];
      assert quotient[k + 1..] == above;
      assert quotient[k..][1..] == quotient[k + 1..];
      remainder := current % 10;
      if quotient[k] != 0 {
        remaining := true;
      }
      k := k - 1;
    }
    assert work[0..] == work && quotient[0..] == quotient;
  }

  method ToDecimal(x: ExactInt) returns (rendered: string)
    ensures rendered == Numeral(IntOf(x))
  {
    var isZero := AllZero(x.mag);
    if isZero {
      return "0";
    }
    var work, digits, remaining := x.mag, [], true;
    ghost var total: int := LimbsValue(x.mag);
    assert IntOf(x) == if x.negative then 0 - total else total;
    hide LimbsValue, Power, IntOf;
    while remaining
      invariant |work| == LIMB_COUNT
      invariant remaining <==> LimbsValue(work) != 0
      invariant Digits(LimbsValue(x.mag)) == (if remaining then Digits(LimbsValue(work)) else []) + digits
      decreases LimbsValue(work)
    {
      DigitsStep(LimbsValue(work), digits);
      hide Digits;
      var remainder;
      work, remainder, remaining := DivideByTen(work);
      digits := [DigitChar(remainder)] + digits;
    }
    rendered := (if x.negative then "-" else "") + digits;
  }
}

/** Little-endian limb sequences in base 2^32. */
module Limbs {
  import opened MachineInts
  import opened Products

  function Power(k: nat): (p: nat)
    ensures p >= 1
  {
    if k == 0 then 1 else 0x1_0000_0000 * Power(k - 1)
  }

  function LimbsValue(s: seq<UInt32>): (v: nat) {
    if s == [] then 0 else s[0] + 0x1_0000_0000 * LimbsValue(s[1..])
  }

  lemma {:induction false} PowerAdd(i: nat, j: nat)
    ensures Power(i + j) == Power(i) * Power(j)
  {
    if i > 0 {
      PowerAdd(i - 1, j);
      Associate(0x1_0000_0000, Power(i - 1), Power(j));
    }
  }

  lemma {:induction false} ZeroLimbs(s: seq<UInt32>)
    requires forall k :: 0 <= k < |s| ==> s[k] == 0
    ensures LimbsValue(s) == 0
  {
    if s != [] {
      ZeroLimbs(s[1..]);
    }
  }

  lemma {:induction false} LimbsBelowPower(s: seq<UInt32>)
    ensures LimbsValue(s) < Power(|s|)
  {
    if s != [] {
      LimbsBelowPower(s[1..]);
    }
  }

  /** A limb contributes at least itself times its weight. */
  lemma {:induction false} NonZeroLimb(s: seq<UInt32>, k: nat)
    requires k < |s|
    ensures LimbsValue(s) >= s[k] * Power(k)
  {
    if k > 0 {
      NonZeroLimb(s[1..], k - 1);
      Associate(0x1_0000_0000, s[k], Power(k - 1));
    }
  }

  lemma {:induction false} SplitLimbs(s: seq<UInt32>, k: nat)
    requires k <= |s|
    ensures LimbsValue(s) == LimbsValue(s[..k]) + Power(k) * LimbsValue(s[k..])
  {
    if k == 0 {
      assert s[0..] == s;
    } else {
      SplitLimbs(s[1..], k - 1);
      assert s[1..][..k - 1] == s[..k][1..];
      assert s[1..][k - 1..] == s[k..];
      Associate(0x1_0000_0000, Power(k - 1), LimbsValue(s[k..]));
    }
  }

  lemma {:induction false} Snoc(s: seq<UInt32>, x: UInt32)
    ensures LimbsValue(s + [x]) == LimbsValue(s) + x * Power(|s|)
  {
    if s == [] {
      assert (s + [x])[1..] == [];
    } else {
      Snoc(s[1..], x);
      assert (s + [x])[1..] == s[1..] + [x];
      Associate(0x1_0000_0000, x, Power(|s| - 1));
    }
  }

  lemma AppendLimb(s: seq<UInt32>, k: nat)
    requires k < |s|
    ensures LimbsValue(s[..k + 1]) == LimbsValue(s[..k]) + s[k] * Power(k)
  {
    assert s[..k + 1] == s[..k] + [s[k]];
    Snoc(s[..k], s[k]);
  }

  lemma {:induction false} SetLimb(s: seq<UInt32>, k: nat, x: UInt32)
    requires k < |s|
    ensures LimbsValue(s[k := x]) == LimbsValue(s) + (x - s[k]) * Power(k)
  {
    if k == 0 {
      assert s[0 := x][1..] == s[1..];
    } else {
      SetLimb(s[1..], k - 1, x);
      assert s[k := x][1..] == s[1..][k - 1 := x];
      Associate(0x1_0000_0000, x - s[k], Power(k - 1));
    }
  }

  /** The highest limb in which two numbers differ orders them. */
  lemma TopLimbDecides(a: seq<UInt32>, b: seq<UInt32>, k: nat)
    requires |a| == |b| && k < |a| && a[k + 1..] == b[k + 1..] && a[k] < b[k]
    ensures LimbsValue(a) < LimbsValue(b)
  {
    hide Power, LimbsValue;
    SplitLimbs(a, k + 1);
    SplitLimbs(b, k + 1);
    AppendLimb(a, k);
    AppendLimb(b, k);
    LimbsBelowPower(a[..k]);
    OneMoreDecides(LimbsValue(a[..k]), a[k], b[k], Power(k));
  }

  lemma OneMoreDecides(low: int, x: int, y: int, p: int)
    requires 0 <= low < p && x < y
    ensures low + x * p < y * p
  {
    Monotone(p, x + 1, y);
    Distribute(p, x, 1);
  }
}

/** Decimal numerals. */
module Decimals {
  function DigitChar(d: nat): (c: char)
    requires d < 10
  {
    '0' + d as char
  }

  predicate IsDigit(c: char) {
    '0' <= c <= '9'
  }

  function DigitValue(c: char): (d: nat)
    requires IsDigit(c)
    ensures d < 10 && DigitChar(d) == c
  {
    c as int - '0' as int
  }

  /** The decimal digits of n, most significant first. */
  function Digits(n: nat): string {
    (if n < 10 then [] else Digits(n / 10)) + [DigitChar(n % 10)]
  }

  lemma DigitsStep(n: nat, tail: string)
    ensures Digits(n) + tail == (if n / 10 == 0 then [] else Digits(n / 10)) + ([DigitChar(n % 10)] + tail)
  {}

  predicate AllDigits(s: string) {
    forall k :: 0 <= k < |s| ==> IsDigit(s[k])
  }

  /** The number a digit string reads as. */
  function ReadDigits(s: string): nat
    requires AllDigits(s)
  {
    if s == [] then 0 else 10 * ReadDigits(s[..|s| - 1]) + DigitValue(s[|s| - 1])
  }

  function Numeral(v: int): string {
    if v < 0 then "-" + Digits(-v) else Digits(v)
  }

  /** A decimal integer without leading zeros, a plus sign or minus zero. */
  predicate IsNumeral(s: string) {
    if s != [] && s[0] == '-' then IsMagnitude(s[1..]) && s[1] != '0' else IsMagnitude(s)
  }

  predicate IsMagnitude(s: string) {
    s != [] && AllDigits(s) && (s[0] == '0' ==> |s| == 1)
  }

  function ReadNumeral(s: string): int
    requires IsNumeral(s)
  {
    if s[0] == '-' then 0 - ReadDigits(s[1..]) else ReadDigits(s)
  }

  lemma {:induction false} DigitsReadBack(n: nat)
    ensures IsMagnitude(Digits(n)) && ReadDigits(Digits(n)) == n
    ensures Digits(n)[0] == '0' <==> n == 0
  {
    if n >= 10 {
      DigitsReadBack(n / 10);
      assert Digits(n)[..|Digits(n)| - 1] == Digits(n / 10);
    }
  }

  lemma {:induction false} DigitsAreUnique(s: string)
    requires IsMagnitude(s)
    ensures Digits(ReadDigits(s)) == s
    ensures s[0] != '0' ==> ReadDigits(s) > 0
  {
    MagnitudeParts(s);
    var front, last := s[..|s| - 1], s[|s| - 1];
    hide *;
    DigitsSnoc(ReadDigits(front), DigitValue(last));
    if front != [] {
      DigitsAreUnique(front);
    }
  }

  /** A magnitude without its last digit, and what it reads as. */
  lemma MagnitudeParts(s: string)
    requires IsMagnitude(s)
    ensures |s| > 0 && AllDigits(s)
    ensures var front, last := s[..|s| - 1], s[|s| - 1];
      && s == front + [last] && IsDigit(last) && AllDigits(front)
      && ReadDigits(s) == 10 * ReadDigits(front) + DigitValue(last)
      && (front == [] ==> ReadDigits(front) == 0 && s == [last] && (s[0] != '0' ==> DigitValue(last) > 0))
      && (front != [] ==> IsMagnitude(front) && front[0] == s[0] && s[0] != '0')
  {}

  lemma DigitsSnoc(n: nat, d: nat)
    requires d < 10
    ensures Digits(10 * n + d) == (if n == 0 then [] else Digits(n)) + [DigitChar(d)]
  {
    assert (10 * n + d) / 10 == n && (10 * n + d) % 10 == d;
  }

  /** Numerals and integers correspond one to one. */
  lemma NumeralsAreUnique(v: int, s: string)
    ensures IsNumeral(Numeral(v)) && ReadNumeral(Numeral(v)) == v
    ensures IsNumeral(s) && ReadNumeral(s) == v ==> s == Numeral(v)
  {
    hide Digits, ReadDigits, IsDigit;
    DigitsReadBack(if v < 0 then -v else v);
    if v < 0 {
      assert Numeral(v)[1..] == Digits(-v);
    }
    assert v >= 0 ==> Numeral(v)[0] != '-' by {
      MagnitudeHasNoSign(Digits(if v < 0 then -v else v));
    }
    if IsNumeral(s) {
      if s[0] == '-' {
        DigitsAreUnique(s[1..]);
        assert s == "-" + s[1..];
      } else {
        DigitsAreUnique(s);
      }
    }
  }

  lemma MagnitudeHasNoSign(s: string)
    requires IsMagnitude(s)
    ensures s[0] != '-'
  {
    assert IsDigit(s[0]);
  }
}
