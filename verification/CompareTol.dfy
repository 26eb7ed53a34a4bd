/** The tolerance comparator: exact cross-multiplied comparison of two
    measurements against a parsed threshold, with the evidence-driven
    overrides around it. */
module CompareTolerance {
  import opened Options
  import opened MachineInts
  import opened ExactInts
  import opened Tolerances
  import Products
  import Limbs

  datatype Severity = SevIgnore | SevInfo | SevWarn | SevFail
  datatype Status = Pass | Info | Warn | Fail | Error

  datatype Value = RationalValue(num: Int64, den: Int64) | IntegerValue(i: Int64) | OtherValue

  datatype CeilingState = Under | Above | OtherState

  /** The evidence keys the comparator reads; None when a key is absent or not
      of the expected kind. */
  datatype Evidence = Evidence(
    adjustedOffset: Option<Int64>,     // with comparison_basis "adjusted"
    adjustedMagnitude: Option<Int64>,  // with span_basis "adjusted"
    endDelta: Option<Int64>,
    ceiling: Option<CeilingState>)

  datatype Measurement = Measurement(value: Value, estimated: bool, evidence: Evidence)

  datatype Magnitude = Magnitude(num: Int64, den: Int64)

  datatype Outcome = Verdict(status: Status) | BadTolerance(error: UsageError) | UnsupportedValue

  const ESTIMATED_FACTOR: Int64 := 3
  const DRIFT_EPSILON_MS: Int64 := 2
  const DRIFT_ADJUSTED_DEN: Int64 := 1_000_000_000
  const CEILING_DEADBAND_NUM: Int64 := 10
  const CEILING_DEADBAND_DEN: Int64 := 1000

  function Escalate(severity: Severity): Status {
    match severity
    case SevFail => Fail
    case SevWarn => Warn
    case SevInfo => Info
    case SevIgnore => Info
  }

  function ExtractMagnitude(v: Value): Option<Magnitude> {
    match v
    case RationalValue(num, den) => Some(Magnitude(num, den))
    case IntegerValue(i) => Some(Magnitude(i, 1))
    case OtherValue => None
  }

  /** The numerator, and possibly the denominator, one side would rather be
      compared by. */
  function AdjustedPreference(e: Evidence): Option<(Int64, Option<Int64>)> {
    if e.adjustedOffset.Some? then Some((e.adjustedOffset.value, None))
    else if e.adjustedMagnitude.Some? then Some((e.adjustedMagnitude.value, Some(DRIFT_ADJUSTED_DEN)))
    else None
  }

  function Adjust(m: Magnitude, p: (Int64, Option<Int64>)): Magnitude {
    Magnitude(p.0, if p.1.Some? then p.1.value else m.den)
  }

  /** The magnitudes compared: the adjusted ones when both sides prefer so. */
  function ComparedMagnitudes(baseline: Measurement, candidate: Measurement): Option<(Magnitude, Magnitude)> {
    var b, c := ExtractMagnitude(baseline.value), ExtractMagnitude(candidate.value);
    if b == None || c == None then None
    else
      var pb, pc := AdjustedPreference(baseline.evidence), AdjustedPreference(candidate.evidence);
      if pb.Some? && pc.Some? then Some((Adjust(b.value, pb.value), Adjust(c.value, pc.value)))
      else Some((b.value, c.value))
  }

  /** What every construction of a measurement ensures. */
  predicate HasPositiveDenominator(m: Measurement) {
    m.value.RationalValue? ==> m.value.den > 0
  }

  // ---------------------------------------------------------------------
  // The verdict, over exact rationals.
  // ---------------------------------------------------------------------

  function Rational(m: Magnitude): real
    requires m.den > 0
  {
    m.num as real / m.den as real
  }

  function AbsReal(x: real): real {
    if x < 0.0 then -x else x
  }

  /** The largest accepted difference for a threshold num/den: absolute, or
      that many percent of the baseline; three times as much when a side is an
      estimate. */
  function Allowance(num: int, t: Tolerance, widened: bool, b: Magnitude): real
    requires t.den > 0 && b.den > 0
  {
    var threshold := num as real / t.den as real * (if widened then 3.0 else 1.0);
    if t.isRelative then threshold / 100.0 * AbsReal(Rational(b)) else threshold
  }

  function ThresholdStatus(t: Tolerance, widened: bool, severity: Severity, b: Magnitude, c: Magnitude): Status
    requires t.den > 0 && b.den > 0 && c.den > 0
  {
    var difference := AbsReal(Rational(c) - Rational(b));
    if t.warnNum.Some? then
      if difference <= Allowance(t.warnNum.value, t, widened, b) then Pass
      else if difference <= Allowance(t.num, t, widened, b) then Warn
      else Fail
    else if difference <= Allowance(t.num, t, widened, b) then Pass
    else Escalate(severity)
  }

  function EndDeltaChange(baseline: Evidence, candidate: Evidence): Option<int> {
    if baseline.endDelta.Some? && candidate.endDelta.Some?
    then Some(candidate.endDelta.value - baseline.endDelta.value)
    else None
  }

  /** Whether the candidate rose across its ceiling by at least the deadband. */
  predicate MaterialCrossing(baseline: Evidence, candidate: Evidence, b: Magnitude, c: Magnitude)
    requires b.den > 0 && c.den > 0
  {
    && baseline.ceiling == Some(Under) && candidate.ceiling == Some(Above)
    && Rational(c) - Rational(b) >= 0.01
  }

  /** The whole verdict for two magnitudes. */
  function VerdictOf(t: Tolerance, severity: Severity, baseline: Measurement, candidate: Measurement,
                     b: Magnitude, c: Magnitude): Status
    requires t.den > 0 && b.den > 0 && c.den > 0
  {
    var change := EndDeltaChange(baseline.evidence, candidate.evidence);
    if change.Some? && !(-INT64_MAX <= change.value <= INT64_MAX) then Error
    else if MaterialCrossing(baseline.evidence, candidate.evidence, b, c) then Fail
    else if change.Some? && Abs(change.value) < DRIFT_EPSILON_MS then Pass
    else ThresholdStatus(t, baseline.estimated || candidate.estimated, severity, b, c)
  }

  // ---------------------------------------------------------------------
  // From cross-products to rationals.
  // ---------------------------------------------------------------------

  lemma RealProduct(x: int, y: int)
    ensures (x * y) as real == x as real * y as real
  {}

  lemma QuotientOrder(a: real, b: real, c: real, d: real)
    requires b > 0.0 && d > 0.0
    ensures a / b <= c / d <==> a * d <= c * b
  {
    var p, q := a / b, c / d;
    assert a * d == p * (b * d);
    assert c * b == q * (b * d);
    if p > q {
      assert p * (b * d) > q * (b * d);
    }
  }

  /** dn/dd is the candidate's magnitude less the baseline's. */
  predicate IsDelta(b: Magnitude, c: Magnitude, dn: int, dd: int) {
    dn == c.num * b.den - b.num * c.den && dd == b.den * c.den
  }

  /** A threshold numerator, tripled for an estimate. */
  function Widened(num: int, widened: bool): int {
    if widened then ESTIMATED_FACTOR * num else num
  }

  /** The difference of two fractions over the product of the denominators. */
  lemma DifferenceOfFractions(b: Magnitude, c: Magnitude, dn: int, dd: int)
    requires b.den > 0 && c.den > 0
    requires IsDelta(b, c, dn, dd)
    ensures dd > 0
    ensures Rational(c) - Rational(b) == dn as real / dd as real
  {
    Products.Monotone(b.den, 1, c.den);
    RealProduct(c.num, b.den);
    RealProduct(b.num, c.den);
    RealProduct(b.den, c.den);
    var x, y := Rational(c), Rational(b);
    assert c.num as real == x * c.den as real && b.num as real == y * b.den as real;
    assert dn as real == (x - y) * (b.den as real * c.den as real);
  }

  lemma AbsQuotient(n: int, d: int)
    requires d > 0
    ensures AbsReal(n as real / d as real) == Abs(n) as real / d as real
  {
    if n < 0 {
      assert n as real / d as real <= 0.0;
    } else {
      assert n as real / d as real >= 0.0;
    }
  }

  /** Absolute form: |dn| * tden <= num * dd. */
  lemma AbsoluteComparison(b: Magnitude, c: Magnitude, dn: int, dd: int, num: int, widened: bool, t: Tolerance)
    requires b.den > 0 && c.den > 0 && t.den > 0 && !t.isRelative && IsDelta(b, c, dn, dd)
    ensures AbsReal(Rational(c) - Rational(b)) <= Allowance(num, t, widened, b)
       <==> Abs(dn) * t.den <= Widened(num, widened) * dd
  {
    var n := Widened(num, widened);
    ScaledThreshold(num, widened, t.den);
    DifferenceOfFractions(b, c, dn, dd);
    AbsQuotient(dn, dd);
    hide IsDelta, AbsReal, Rational, Abs, Widened;
    QuotientOrder(Abs(dn) as real, dd as real, n as real, t.den as real);
    RealProduct(Abs(dn), t.den);
    RealProduct(n, dd);
  }

  lemma RelativeAllowance(b: Magnitude, num: int, widened: bool, t: Tolerance)
    requires b.den > 0 && t.den > 0 && t.isRelative
    ensures Allowance(num, t, widened, b) == RealAllowance(Widened(num, widened), t.den, Abs(b.num), b.den)
  {
    AbsQuotient(b.num, b.den);
    ScaledThreshold(num, widened, t.den);
  }

  lemma ScaledThreshold(num: int, widened: bool, den: int)
    requires den > 0
    ensures Widened(num, widened) as real / den as real == num as real / den as real * (if widened then 3.0 else 1.0)
  {
    var x, y := num as real / den as real, Widened(num, widened) as real / den as real;
    assert x * den as real == num as real && y * den as real == Widened(num, widened) as real;
    if widened {
      assert (x * 3.0) * den as real == y * den as real;
    }
  }

  /** Relative form: |dn| * tden * 100 <= num * |bnum| * cden. */
  lemma RelativeComparison(b: Magnitude, c: Magnitude, dn: int, dd: int, num: int, widened: bool, t: Tolerance)
    requires b.den > 0 && c.den > 0 && t.den > 0 && t.isRelative && IsDelta(b, c, dn, dd)
    ensures AbsReal(Rational(c) - Rational(b)) <= Allowance(num, t, widened, b)
       <==> ScaledDelta(Abs(dn), t.den) <= ScaledAllowance(Widened(num, widened), Abs(b.num), c.den)
  {
    hide *;
    AbsDifference(b, c, dn, dd);
    RelativeAllowance(b, num, widened, t);
    RelativeForm(Abs(dn), t.den, b.den, Widened(num, widened), Abs(b.num), c.den);
  }

  /** The two sides of the relative comparison, as integers and as reals. */
  function ScaledDelta(dn: int, td: int): int {
    (dn * td) * 100
  }

  function ScaledAllowance(n: int, bn: int, cd: int): int {
    (n * bn) * cd
  }

  function RealDelta(dn: int, bd: int, cd: int): real {
    if bd as real * cd as real == 0.0 then 0.0 else dn as real / (bd as real * cd as real)
  }

  function RealAllowance(n: int, td: int, bn: int, bd: int): real
    requires td > 0 && bd > 0
  {
    (n as real / td as real / 100.0) * (bn as real / bd as real)
  }

  lemma AbsDifference(b: Magnitude, c: Magnitude, dn: int, dd: int)
    requires b.den > 0 && c.den > 0
    requires IsDelta(b, c, dn, dd)
    ensures b.den as real * c.den as real != 0.0
    ensures AbsReal(Rational(c) - Rational(b)) == RealDelta(Abs(dn), b.den, c.den)
  {
    DifferenceOfFractions(b, c, dn, dd);
    AbsQuotient(dn, dd);
    RealProduct(b.den, c.den);
  }

  lemma RelativeForm(dn: int, td: int, bd: int, n: int, bn: int, cd: int)
    requires td > 0 && bd > 0 && cd > 0
    ensures RealDelta(dn, bd, cd) <= RealAllowance(n, td, bn, bd) <==> ScaledDelta(dn, td) <= ScaledAllowance(n, bn, cd)
  {
    IntegerForm(dn, td, n, bn, cd);
    RelativeComparisonOfReals(dn as real, td as real, bd as real, n as real, bn as real, cd as real);
  }

  lemma IntegerForm(dn: int, td: int, n: int, bn: int, cd: int)
    ensures (dn * td) * 100 <= (n * bn) * cd
       <==> (dn as real * td as real) * 100.0 <= (n as real * bn as real) * cd as real
  {
    RealProduct(dn, td);
    RealProduct(dn * td, 100);
    RealProduct(n, bn);
    RealProduct(n * bn, cd);
  }

  lemma RelativeComparisonOfReals(dr: real, td: real, bd: real, f: real, bn: real, cd: real)
    requires td > 0.0 && bd > 0.0 && cd > 0.0
    ensures bd * cd > 0.0
    ensures dr / (bd * cd) <= (f / td / 100.0) * (bn / bd) <==> (dr * td) * 100.0 <= (f * bn) * cd
  {
    PositiveProduct(bd, cd);
    PositiveProduct(td, bd);
    AllowanceAsQuotient(f, td, bn, bd);
    QuotientOrder(dr, bd * cd, f * bn, 100.0 * (td * bd));
    CancelBaselineDen(dr, td, bd, f, bn, cd);
  }

  lemma PositiveProduct(x: real, y: real)
    requires x > 0.0 && y > 0.0
    ensures x * y > 0.0
  {}

  lemma AllowanceAsQuotient(f: real, td: real, bn: real, bd: real)
    requires td > 0.0 && bd > 0.0
    ensures td * bd > 0.0
    ensures (f / td / 100.0) * (bn / bd) == (f * bn) / (100.0 * (td * bd))
  {
    var x, y := f / td, bn / bd;
    assert f == x * td && bn == y * bd;
    assert f * bn == (x * y) * (td * bd);
    assert f * bn == ((x / 100.0) * y) * (100.0 * (td * bd));
  }

  lemma CancelBaselineDen(dr: real, td: real, bd: real, f: real, bn: real, cd: real)
    requires bd > 0.0
    ensures dr * (100.0 * (td * bd)) <= (f * bn) * (bd * cd) <==> (dr * td) * 100.0 <= (f * bn) * cd
  {
    var x, y := (dr * td) * 100.0, (f * bn) * cd;
    assert dr * (100.0 * (td * bd)) == x * bd;
    assert (f * bn) * (bd * cd) == y * bd;
    if x > y {
      assert x * bd > y * bd;
    }
  }

  lemma DeadbandComparison(b: Magnitude, c: Magnitude, dn: int, dd: int)
    requires b.den > 0 && c.den > 0
    requires IsDelta(b, c, dn, dd)
    ensures Rational(c) - Rational(b) >= 0.01 <==> dn * CEILING_DEADBAND_DEN >= CEILING_DEADBAND_NUM * dd
  {
    DifferenceOfFractions(b, c, dn, dd);
    var q := dn as real / dd as real;
    assert dn as real == q * dd as real;
    if q >= 0.01 {
      assert q * dd as real >= 0.01 * dd as real;
    } else {
      assert q * dd as real < 0.01 * dd as real;
    }
  }

  // ---------------------------------------------------------------------
  // Every product stays within 256 bits.
  // ---------------------------------------------------------------------

  lemma ProductBound(x: int, y: int, lx: int, ly: int)
    requires Abs(x) <= lx && Abs(y) <= ly
    ensures Abs(x * y) <= lx * ly
  {
    Products.Monotone(Abs(x), Abs(y), ly);
    Products.Monotone(ly, Abs(x), lx);
    assert x * y == Abs(x) * Abs(y) || x * y == 0 - Abs(x) * Abs(y);
  }

  lemma Limit256()
    ensures Limbs.Power(8) == 0x1_0000_0000_0000_0000_0000_0000_0000_0000_0000_0000_0000_0000_0000_0000_0000_0000
  {
    assert Limbs.Power(4) == 0x1_0000_0000_0000_0000_0000_0000_0000_0000;
    Limbs.PowerAdd(4, 4);
  }

  /** What the cross-multiplied comparison of one threshold needs to fit. */
  lemma ProductsFit(bn: Int64, bd: Int64, cn: Int64, cd: Int64, td: Int64, n: int)
    requires Abs(n) <= 0x1_8000_0000_0000_0000
    ensures var dn := cn * bd - bn * cd;
      && Fits256(bd * cd) && Fits256(cn * bd) && Fits256(bn * cd) && Fits256(dn)
      && Fits256(dn * CEILING_DEADBAND_DEN) && Fits256(CEILING_DEADBAND_NUM * (bd * cd))
      && Fits256(Abs(dn) * td) && Fits256((Abs(dn) * td) * 100)
      && Fits256(n * Abs(bn)) && Fits256((n * Abs(bn)) * cd) && Fits256(n * (bd * cd))
  {
    Limit256();
    var m := 0x8000_0000_0000_0000;
    ProductBound(bd, cd, m, m);
    ProductBound(cn, bd, m, m);
    ProductBound(bn, cd, m, m);
    var dn := cn * bd - bn * cd;
    ProductBound(dn, CEILING_DEADBAND_DEN, 2 * (m * m), 1000);
    ProductBound(CEILING_DEADBAND_NUM, bd * cd, 10, m * m);
    ProductBound(Abs(dn), td, 2 * (m * m), m);
    ProductBound(Abs(dn) * td, 100, 2 * (m * m) * m, 100);
    ProductBound(n, Abs(bn), 0x1_8000_0000_0000_0000, m);
    ProductBound(n * Abs(bn), cd, 0x1_8000_0000_0000_0000 * m, m);
    ProductBound(n, bd * cd, 0x1_8000_0000_0000_0000, m * m);
  }

  // ---------------------------------------------------------------------
  // The comparator.
  // ---------------------------------------------------------------------

  /** Whether the difference dn/dd is within threshold num, by the exact
      products; None when a product leaves the 256-bit range. */
  method WithinThreshold(t: Tolerance, num: ExactInt, absDelta: ExactInt, deltaDen: ExactInt, absBaseline: ExactInt,
                         candidateDen: ExactInt) returns (r: Option<bool>)
    requires Fits256(IntOf(absDelta) * t.den) && Fits256((IntOf(absDelta) * t.den) * 100)
    requires Fits256(IntOf(num) * IntOf(absBaseline))
    requires Fits256((IntOf(num) * IntOf(absBaseline)) * IntOf(candidateDen))
    requires Fits256(IntOf(num) * IntOf(deltaDen))
    ensures r == Some(
      if t.isRelative
      then (IntOf(absDelta) * t.den) * 100 <= (IntOf(num) * IntOf(absBaseline)) * IntOf(candidateDen)
      else IntOf(absDelta) * t.den <= IntOf(num) * IntOf(deltaDen))
  {
    hide *;
    var den := FromInt64(t.den);
    var lhs := TryMul(absDelta, den);
    if lhs == None {
      return None;
    }
    var rhs;
    if t.isRelative {
      var hundred := FromInt64(100);
      lhs := TryMul(lhs.value, hundred);
      if lhs == None {
        return None;
      }
      rhs := TryMul(num, absBaseline);
      if rhs == None {
        return None;
      }
      rhs := TryMul(rhs.value, candidateDen);
    } else {
      rhs := TryMul(num, deltaDen);
    }
    if rhs == None {
      return None;
    }
    var order := Compare(lhs.value, rhs.value);
    SignOrder(IntOf(lhs.value), IntOf(rhs.value));
    return Some(order <= 0);
  }

  lemma SignOrder(x: int, y: int)
    ensures Sign(x - y) <= 0 <==> x <= y
    ensures Sign(x - y) >= 0 <==> x >= y
  {}

  /** The zones the difference falls in, and whether a ceiling crossing is
      material; None when a product leaves the 256-bit range. */
  method Zones(t: Tolerance, widened: bool, crossed: bool, b: Magnitude, c: Magnitude)
      returns (r: Option<(bool, bool, bool)>)
    requires UsableTolerance(t) && b.den > 0 && c.den > 0
    ensures r.Some?
    ensures var (withinFail, withinWarn, material) := r.value;
      var difference := AbsReal(Rational(c) - Rational(b));
      && (withinFail <==> difference <= Allowance(t.num, t, widened, b))
      && (withinWarn <==> t.warnNum.Some? && difference <= Allowance(t.warnNum.value, t, widened, b))
      && (material <==> crossed && Rational(c) - Rational(b) >= 0.01)
  {
    ghost var dn, dd := c.num * b.den - b.num * c.den, b.den * c.den;
    ghost var warn: int := if t.warnNum.Some? then t.warnNum.value else 0;
    ZoneFacts(t, widened, b, c, t.num);
    ZoneFacts(t, widened, b, c, warn);
    hide *;

    var bn := FromInt64(b.num);
    var bd := FromInt64(b.den);
    var cn := FromInt64(c.num);
    var cd := FromInt64(c.den);
    var deltaDen := TryMul(bd, cd);
    if deltaDen == None {
      return None;
    }
    var lhs := TryMul(cn, bd);
    var rhs := TryMul(bn, cd);
    if lhs == None || rhs == None {
      return None;
    }
    var delta := TrySub(lhs.value, rhs.value);
    if delta == None {
      return None;
    }
    var absDelta := Absolute(delta.value);
    var material := false;
    if crossed {
      var ceilingDen := FromInt64(CEILING_DEADBAND_DEN);
      var ceilingNum := FromInt64(CEILING_DEADBAND_NUM);
      var crossingLhs := TryMul(delta.value, ceilingDen);
      var crossingRhs := TryMul(ceilingNum, deltaDen.value);
      if crossingLhs == None || crossingRhs == None {
        return None;
      }
      var order := Compare(crossingLhs.value, crossingRhs.value);
      SignOrder(IntOf(crossingLhs.value), IntOf(crossingRhs.value));
      material := order >= 0;
    }

    var effective := Widen(t.num, widened);
    if effective == None {
      return None;
    }
    var absBaseline := Absolute(bn);
    var withinFail := WithinThreshold(t, effective.value, absDelta, deltaDen.value, absBaseline, cd);
    if withinFail == None {
      return None;
    }
    var withinWarn: Option<bool> := Some(false);
    if t.warnNum.Some? {
      var effectiveWarn := Widen(t.warnNum.value, widened);
      if effectiveWarn == None {
        return None;
      }
      withinWarn := WithinThreshold(t, effectiveWarn.value, absDelta, deltaDen.value, absBaseline, cd);
      if withinWarn == None {
        return None;
      }
    }
    return Some((withinFail.value, withinWarn.value, material));
  }

  method Widen(num: Int64, widened: bool) returns (r: Option<ExactInt>)
    requires num >= 0
    ensures r.Some? && IntOf(r.value) == Widened(num, widened)
  {
    var effective := FromInt64(num);
    if !widened {
      return Some(effective);
    }
    Limit256();
    var three := FromInt64(ESTIMATED_FACTOR);
    r := TryMul(effective, three);
  }

  /** All a threshold comparison relies on: the ranges of the products and what
      the comparisons mean. */
  lemma ZoneFacts(t: Tolerance, widened: bool, b: Magnitude, c: Magnitude, num: Int64)
    requires UsableTolerance(t) && b.den > 0 && c.den > 0 && num >= 0
    ensures var dn, dd, n := c.num * b.den - b.num * c.den, b.den * c.den, Widened(num, widened);
      && Fits256(dd) && Fits256(c.num * b.den) && Fits256(b.num * c.den) && Fits256(dn)
      && Fits256(dn * CEILING_DEADBAND_DEN) && Fits256(CEILING_DEADBAND_NUM * dd)
      && Fits256(Abs(dn) * t.den) && Fits256((Abs(dn) * t.den) * 100)
      && Fits256(n * Abs(b.num)) && Fits256((n * Abs(b.num)) * c.den) && Fits256(n * dd)
      && (Rational(c) - Rational(b) >= 0.01 <==> dn * CEILING_DEADBAND_DEN >= CEILING_DEADBAND_NUM * dd)
      && (AbsReal(Rational(c) - Rational(b)) <= Allowance(num, t, widened, b) <==>
          if t.isRelative then (Abs(dn) * t.den) * 100 <= (n * Abs(b.num)) * c.den else Abs(dn) * t.den <= n * dd)
  {
    var dn, dd := c.num * b.den - b.num * c.den, b.den * c.den;
    assert IsDelta(b, c, dn, dd);
    assert Abs(Widened(num, widened)) <= 0x1_8000_0000_0000_0000;
    ProductsFit(b.num, b.den, c.num, c.den, t.den, Widened(num, widened));
    DeadbandComparison(b, c, dn, dd);
    hide Allowance, AbsReal, Rational, Fits256, Abs, IsDelta, Widened;
    if t.isRelative {
      RelativeComparison(b, c, dn, dd, num, widened, t);
    } else {
      AbsoluteComparison(b, c, dn, dd, num, widened, t);
    }
  }

  /** Whether the accumulated end delta changed by at least the epsilon; true
      without evidence on both sides, None when the change overflows. */
  method EndDeltaClears(baseline: Evidence, candidate: Evidence) returns (r: Option<bool>)
    ensures r == match EndDeltaChange(baseline, candidate)
      case None => Some(true)
      case Some(change) =>
        if -INT64_MAX <= change <= INT64_MAX then Some(Abs(change) >= DRIFT_EPSILON_MS) else None
  {
    if baseline.endDelta == None || candidate.endDelta == None {
      return Some(true);
    }
    var change := CheckedSub(candidate.endDelta.value, baseline.endDelta.value);
    if change == None {
      return None;
    }
    var magnitude := change;
    if change.value < 0 {
      magnitude := CheckedNegate(change.value);
      if magnitude == None {
        return None;
      }
    }
    return Some(magnitude.value >= DRIFT_EPSILON_MS);
  }

  /** compare_tol: total for every pair of measurements with positive
      denominators, and decided by exact rationals. */
  method CompareTol(toleranceText: string, unit: Unit, severity: Severity, baseline: Measurement, candidate: Measurement)
      returns (r: Outcome)
    requires HasPositiveDenominator(baseline) && HasPositiveDenominator(candidate)
    ensures ToleranceOf(toleranceText, unit).Ok? ==> UsableTolerance(ToleranceOf(toleranceText, unit).value)
    ensures r == SpecifiedOutcome(ToleranceOf(toleranceText, unit), severity, baseline, candidate)
  {
    var tolerance := ParseTolerance(toleranceText, unit);
    if tolerance.Err? {
      return BadTolerance(tolerance.error);
    }
    var t := tolerance.value;
    var b, c := ExtractMagnitude(baseline.value), ExtractMagnitude(candidate.value);
    if b == None || c == None {
      return UnsupportedValue;
    }
    var pb, pc := AdjustedPreference(baseline.evidence), AdjustedPreference(candidate.evidence);
    if pb.Some? && pc.Some? {
      b, c := Some(Adjust(b.value, pb.value)), Some(Adjust(c.value, pc.value));
    }
    assert ComparedMagnitudes(baseline, candidate) == Some((b.value, c.value));
    hide ToleranceOf, ComparedMagnitudes;
    var status := MagnitudeStatus(t, severity, baseline, candidate, b.value, c.value);
    return Verdict(status);
  }

  /** The verdict on the magnitudes, with both overrides applied after it. */
  method MagnitudeStatus(t: Tolerance, severity: Severity, baseline: Measurement, candidate: Measurement,
                         b: Magnitude, c: Magnitude) returns (status: Status)
    requires UsableTolerance(t) && b.den > 0 && c.den > 0
    ensures status == VerdictOf(t, severity, baseline, candidate, b, c)
  {
    hide Allowance, AbsReal, Rational;
    var clearsEpsilon := EndDeltaClears(baseline.evidence, candidate.evidence);
    if clearsEpsilon == None {
      return Error;
    }
    var crossed := baseline.evidence.ceiling == Some(Under) && candidate.evidence.ceiling == Some(Above);
    var zones := Zones(t, baseline.estimated || candidate.estimated, crossed, b, c);
    if zones == None {
      return Error;
    }
    var (withinFail, withinWarn, material) := zones.value;
    if t.warnNum.Some? {
      status := if withinWarn then Pass else if withinFail then Warn else Fail;
    } else {
      status := if withinFail then Pass else Escalate(severity);
    }
    if !clearsEpsilon.value && status != Pass {
      status := Pass;
    }
    if crossed && material {
      status := Fail;
    }
  }

  function SpecifiedOutcome(tolerance: Result<Tolerance>, severity: Severity, baseline: Measurement,
                            candidate: Measurement): Outcome
    requires tolerance.Ok? ==> UsableTolerance(tolerance.value)
    requires HasPositiveDenominator(baseline) && HasPositiveDenominator(candidate)
  {
    if tolerance.Err? then BadTolerance(tolerance.error)
    else
      var m := ComparedMagnitudes(baseline, candidate);
      if m == None then UnsupportedValue
      else Verdict(VerdictOf(tolerance.value, severity, baseline, candidate, m.value.0, m.value.1))
  }

  // ---------------------------------------------------------------------
  // The verdict on the fields of the two measurements, in integers.
  // ---------------------------------------------------------------------

  /** v is the number n/d. */
  predicate Represents(v: Value, n: Int64, d: Int64) {
    d > 0 && (v == RationalValue(n, d) || (v == IntegerValue(n) && d == 1))
  }

  /** |cn/cd - bn/bd| is at most num/t.den, or that many percent of |bn/bd|,
      three times as much with an estimate; without dividing. */
  predicate Accepts(t: Tolerance, num: int, estimated: bool, bn: int, bd: int, cn: int, cd: int) {
    var k := if estimated then 3 * num else num;
    var delta := Abs(cn * bd - bn * cd);
    if t.isRelative then (delta * t.den) * 100 <= (k * Abs(bn)) * cd else delta * t.den <= k * (bd * cd)
  }

  /** The verdict when bn/bd is compared with cn/cd. */
  function IntegerStatus(t: Tolerance, severity: Severity, baseline: Measurement, candidate: Measurement,
                         bn: int, bd: int, cn: int, cd: int): Status
  {
    var before, after := baseline.evidence, candidate.evidence;
    var gated := before.endDelta.Some? && after.endDelta.Some?;
    var drift := if gated then Abs(after.endDelta.value - before.endDelta.value) else 2;
    var estimated := baseline.estimated || candidate.estimated;
    if drift > INT64_MAX then Error
    else if before.ceiling == Some(Under) && after.ceiling == Some(Above) && 100 * (cn * bd - bn * cd) >= bd * cd then Fail
    else if drift < 2 then Pass
    else if t.warnNum.Some? && Accepts(t, t.warnNum.value, estimated, bn, bd, cn, cd) then Pass
    else if Accepts(t, t.num, estimated, bn, bd, cn, cd) then if t.warnNum.Some? then Warn else Pass
    else if t.warnNum.Some? || severity == SevFail then Fail
    else if severity == SevWarn then Warn
    else Info
  }

  /** The integer verdict is the one over rationals. */
  lemma VerdictInIntegers(t: Tolerance, severity: Severity, baseline: Measurement, candidate: Measurement,
                          b: Magnitude, c: Magnitude)
    requires UsableTolerance(t) && b.den > 0 && c.den > 0
    ensures VerdictOf(t, severity, baseline, candidate, b, c)
         == IntegerStatus(t, severity, baseline, candidate, b.num, b.den, c.num, c.den)
  {
    var estimated := baseline.estimated || candidate.estimated;
    AcceptsIs(t, t.num, estimated, b, c);
    if t.warnNum.Some? {
      AcceptsIs(t, t.warnNum.value, estimated, b, c);
    }
    CrossingIs(b, c);
    hide Accepts, Allowance, AbsReal, Rational;
  }

  lemma AcceptsIs(t: Tolerance, num: Int64, estimated: bool, b: Magnitude, c: Magnitude)
    requires UsableTolerance(t) && b.den > 0 && c.den > 0 && num >= 0
    ensures Accepts(t, num, estimated, b.num, b.den, c.num, c.den)
       <==> AbsReal(Rational(c) - Rational(b)) <= Allowance(num, t, estimated, b)
  {
    ZoneFacts(t, estimated, b, c, num);
    hide Allowance, AbsReal, Rational, Fits256;
  }

  lemma CrossingIs(b: Magnitude, c: Magnitude)
    requires b.den > 0 && c.den > 0
    ensures Rational(c) - Rational(b) >= 0.01 <==> 100 * (c.num * b.den - b.num * c.den) >= b.den * c.den
  {
    DeadbandComparison(b, c, c.num * b.den - b.num * c.den, b.den * c.den);
    hide Rational;
  }

  /** No evidence that overrides the tolerance: no end delta on one of the
      sides, and no rise across a ceiling. */
  predicate NoOverride(baseline: Evidence, candidate: Evidence) {
    && (baseline.endDelta == None || candidate.endDelta == None)
    && !(baseline.ceiling == Some(Under) && candidate.ceiling == Some(Above))
  }

  predicate SingleAbsolute(t: Tolerance) {
    !t.isRelative && t.warnNum == None
  }

  /** With an adjusted offset on both sides those are compared, over the
      denominators of the raw values: in whole units the verdict is a pass
      exactly when they differ by at most the threshold. */
  lemma AdjustedOffsetsDecide(t: Tolerance, severity: Severity, baseline: Measurement, candidate: Measurement,
                              bn: Int64, bd: Int64, cn: Int64, cd: Int64, x: Int64, y: Int64)
    requires UsableTolerance(t) && Represents(baseline.value, bn, bd) && Represents(candidate.value, cn, cd)
    requires baseline.evidence.adjustedOffset == Some(x) && candidate.evidence.adjustedOffset == Some(y)
    ensures SpecifiedOutcome(Ok(t), severity, baseline, candidate)
         == Verdict(IntegerStatus(t, severity, baseline, candidate, x, bd, y, cd))
    ensures bd == cd == 1 && SingleAbsolute(t) && NoOverride(baseline.evidence, candidate.evidence) ==>
      (SpecifiedOutcome(Ok(t), severity, baseline, candidate) == Verdict(Pass)
       <==> Abs(y - x) * t.den <= (if baseline.estimated || candidate.estimated then 3 * t.num else t.num))
  {
    VerdictInIntegers(t, severity, baseline, candidate, Magnitude(x, bd), Magnitude(y, cd));
    if bd == cd == 1 && !t.isRelative {
      OneDenominator(t, t.num, baseline.estimated || candidate.estimated, x, y, 1);
    }
    hide VerdictOf, Accepts;
  }

  lemma OneDenominator(t: Tolerance, num: int, estimated: bool, x: int, y: int, n: int)
    requires n > 0 && !t.isRelative
    ensures Accepts(t, num, estimated, x, n, y, n) <==> Abs(y - x) * t.den <= (if estimated then 3 * num else num) * n
  {
    var k, d := if estimated then 3 * num else num, Abs(y - x);
    Products.Distribute(n, y, 0 - x);
    assert y * n - x * n == (y - x) * n && Abs((y - x) * n) == d * n;
    Products.Associate(d, n, t.den);
    Products.Associate(d, t.den, n);
    Products.Associate(k, n, n);
    assert d * n * t.den == d * t.den * n && k * (n * n) == k * n * n;
    CommonFactor(d * t.den, k * n, n);
  }

  lemma CommonFactor(a: int, b: int, n: int)
    requires n > 0
    ensures a * n <= b * n <==> a <= b
  {
    Products.Distribute(n, a, 0 - b);
    if a < b {
      Products.Monotone(n, a, b);
    } else {
      Products.Monotone(n, b, a);
    }
  }

  /** With an adjusted magnitude and no adjusted offset on either side those
      are compared, in billionths. */
  lemma AdjustedMagnitudesDecide(t: Tolerance, severity: Severity, baseline: Measurement, candidate: Measurement,
                                 bn: Int64, bd: Int64, cn: Int64, cd: Int64, x: Int64, y: Int64)
    requires UsableTolerance(t) && Represents(baseline.value, bn, bd) && Represents(candidate.value, cn, cd)
    requires baseline.evidence.adjustedOffset == None && candidate.evidence.adjustedOffset == None
    requires baseline.evidence.adjustedMagnitude == Some(x) && candidate.evidence.adjustedMagnitude == Some(y)
    ensures SpecifiedOutcome(Ok(t), severity, baseline, candidate)
         == Verdict(IntegerStatus(t, severity, baseline, candidate, x, 1_000_000_000, y, 1_000_000_000))
    ensures SingleAbsolute(t) && NoOverride(baseline.evidence, candidate.evidence) ==>
      (SpecifiedOutcome(Ok(t), severity, baseline, candidate) == Verdict(Pass)
       <==> Abs(y - x) * t.den <= (if baseline.estimated || candidate.estimated then 3 * t.num else t.num) * 1_000_000_000)
  {
    var n := 1_000_000_000;
    VerdictInIntegers(t, severity, baseline, candidate, Magnitude(x, n), Magnitude(y, n));
    if !t.isRelative {
      OneDenominator(t, t.num, baseline.estimated || candidate.estimated, x, y, n);
    }
    hide VerdictOf, Accepts;
  }

  /** An adjusted offset on one side meets an adjusted magnitude on the other. */
  lemma MixedAdjustmentsDecide(t: Tolerance, severity: Severity, baseline: Measurement, candidate: Measurement,
                               bn: Int64, bd: Int64, cn: Int64, cd: Int64, x: Int64, y: Int64)
    requires UsableTolerance(t) && Represents(baseline.value, bn, bd) && Represents(candidate.value, cn, cd)
    ensures (&& baseline.evidence.adjustedOffset == Some(x)
             && candidate.evidence.adjustedOffset == None && candidate.evidence.adjustedMagnitude == Some(y))
        ==> SpecifiedOutcome(Ok(t), severity, baseline, candidate)
            == Verdict(IntegerStatus(t, severity, baseline, candidate, x, bd, y, 1_000_000_000))
    ensures (&& baseline.evidence.adjustedOffset == None && baseline.evidence.adjustedMagnitude == Some(x)
             && candidate.evidence.adjustedOffset == Some(y))
        ==> SpecifiedOutcome(Ok(t), severity, baseline, candidate)
            == Verdict(IntegerStatus(t, severity, baseline, candidate, x, 1_000_000_000, y, cd))
  {
    var n := 1_000_000_000;
    VerdictInIntegers(t, severity, baseline, candidate, Magnitude(x, bd), Magnitude(y, n));
    VerdictInIntegers(t, severity, baseline, candidate, Magnitude(x, n), Magnitude(y, cd));
    hide VerdictOf, IntegerStatus;
  }

  /** Neither kind of adjusted evidence. */
  predicate Unadjusted(e: Evidence) {
    e.adjustedOffset == None && e.adjustedMagnitude == None
  }

  /** When one side has no adjusted evidence, the raw values of both decide. */
  lemma RawValuesDecide(t: Tolerance, severity: Severity, baseline: Measurement, candidate: Measurement,
                        bn: Int64, bd: Int64, cn: Int64, cd: Int64)
    requires UsableTolerance(t) && Represents(baseline.value, bn, bd) && Represents(candidate.value, cn, cd)
    requires Unadjusted(baseline.evidence) || Unadjusted(candidate.evidence)
    ensures SpecifiedOutcome(Ok(t), severity, baseline, candidate)
         == Verdict(IntegerStatus(t, severity, baseline, candidate, bn, bd, cn, cd))
  {
    VerdictInIntegers(t, severity, baseline, candidate, Magnitude(bn, bd), Magnitude(cn, cd));
    hide VerdictOf, IntegerStatus;
  }

  // ---------------------------------------------------------------------
  // Consequences.
  // ---------------------------------------------------------------------

  function Rank(s: Status): int {
    match s
    case Pass => 0
    case Info => 1
    case Warn => 2
    case Fail => 3
    case Error => 4
  }

  /** A measurement compared with itself passes, whatever its evidence. */
  lemma SelfComparisonPasses(t: Tolerance, severity: Severity, m: Measurement)
    requires HasPositiveDenominator(m) && UsableTolerance(t) && ExtractMagnitude(m.value).Some?
    ensures SpecifiedOutcome(Ok(t), severity, m, m) == Verdict(Pass)
  {
    var (b, c) := ComparedMagnitudes(m, m).value;
    AllowanceNonNegative(t.num, t, m.estimated, b);
    if t.warnNum.Some? {
      AllowanceNonNegative(t.warnNum.value, t, m.estimated, b);
    }
  }

  lemma AllowanceNonNegative(num: int, t: Tolerance, widened: bool, b: Magnitude)
    requires num >= 0 && t.den > 0 && b.den > 0
    ensures Allowance(num, t, widened, b) >= 0.0
  {
    var x := num as real / t.den as real;
    QuotientOrder(0.0, 1.0, num as real, t.den as real);
    var y := AbsReal(Rational(b));
    assert x / 100.0 * y >= 0.0 && (x * 3.0) / 100.0 * y >= 0.0;
  }

  /** t' is at least as permissive as t. */
  predicate NoStricter(t: Tolerance, t': Tolerance)
    requires t.den > 0 && t'.den > 0
  {
    && t.isRelative == t'.isRelative && t.warnNum.Some? == t'.warnNum.Some?
    && t.num as real / t.den as real <= t'.num as real / t'.den as real
    && (t.warnNum.Some? ==>
        t.warnNum.value as real / t.den as real <= t'.warnNum.value as real / t'.den as real)
  }

  /** A larger threshold never worsens a verdict. */
  lemma LargerThresholdNeverWorsens(t: Tolerance, t': Tolerance, severity: Severity, baseline: Measurement,
                                    candidate: Measurement, b: Magnitude, c: Magnitude)
    requires t.den > 0 && t'.den > 0 && b.den > 0 && c.den > 0 && NoStricter(t, t')
    ensures Rank(VerdictOf(t', severity, baseline, candidate, b, c))
         <= Rank(VerdictOf(t, severity, baseline, candidate, b, c))
  {
    var widened := baseline.estimated || candidate.estimated;
    AllowanceMonotone(t.num, t, t'.num, t', widened, b);
    if t.warnNum.Some? {
      AllowanceMonotone(t.warnNum.value, t, t'.warnNum.value, t', widened, b);
    }
  }

  lemma AllowanceMonotone(num: int, t: Tolerance, num': int, t': Tolerance, widened: bool, b: Magnitude)
    requires t.den > 0 && t'.den > 0 && b.den > 0 && t.isRelative == t'.isRelative
    requires num as real / t.den as real <= num' as real / t'.den as real
    ensures Allowance(num, t, widened, b) <= Allowance(num', t', widened, b)
  {
    var x, y, k := num as real / t.den as real, num' as real / t'.den as real, AbsReal(Rational(b));
    assert x / 100.0 * k <= y / 100.0 * k;
    assert (x * 3.0) / 100.0 * k <= (y * 3.0) / 100.0 * k;
  }
}
