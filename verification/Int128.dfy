/** The 128-bit accumulator, in both of its implementations: one on two 64-bit
    words, one on a native 128-bit integer. */
module Int128 {
  import opened Options
  import opened MachineInts
  import opened Products
  import opened WordPairs
  import opened Gcds

  const INT128_MIN: int := -0x8000_0000_0000_0000_0000_0000_0000_0000

  predicate FitsInt128(v: int) {
    -0x8000_0000_0000_0000_0000_0000_0000_0000 <= v < 0x8000_0000_0000_0000_0000_0000_0000_0000
  }

  /** The signed 128-bit number congruent to v. */
  function Wrap(v: int): (w: int)
    ensures FitsInt128(w)
    ensures FitsInt128(v) ==> w == v
  {
    (v + 0x8000_0000_0000_0000_0000_0000_0000_0000) % 0x1_0000_0000_0000_0000_0000_0000_0000_0000
    - 0x8000_0000_0000_0000_0000_0000_0000_0000
  }

  lemma WrapIsCongruence(v: int, w: int)
    ensures Wrap(Wrap(v) + w) == Wrap(v + w)
  {
    var m := 0x1_0000_0000_0000_0000_0000_0000_0000_0000;
    var h := 0x8000_0000_0000_0000_0000_0000_0000_0000;
    var q := (v + h) / m;
    assert Wrap(v) == v - m * q;
    var s := v - m * q + w + h;
    DivModUnique(v + w + h, m, s / m + q, s % m);
  }

  // ---------------------------------------------------------------------
  // What a run of accumulations amounts to.
  // ---------------------------------------------------------------------

  datatype Step = AddValue(v: Int64) | AddProduct(a: Int64, b: Int64)

  function Amount(s: Step): int {
    match s
    case AddValue(v) => v
    case AddProduct(a, b) => a * b
  }

  function TrueSum(steps: seq<Step>): int {
    if steps == [] then 0 else TrueSum(steps[..|steps| - 1]) + Amount(steps[|steps| - 1])
  }

  /** The accumulated value: every step wraps like the machine does. */
  function Accumulated(steps: seq<Step>): int {
    if steps == [] then 0 else Wrap(Accumulated(steps[..|steps| - 1]) + Amount(steps[|steps| - 1]))
  }

  /** Whatever the intermediate sums did, a true sum that fits is the value
      accumulated. */
  lemma {:induction false} AccumulatedIsTrueSum(steps: seq<Step>)
    ensures Accumulated(steps) == Wrap(TrueSum(steps))
    ensures FitsInt128(TrueSum(steps)) ==> Accumulated(steps) == TrueSum(steps)
  {
    if steps != [] {
      var before, last := steps[..|steps| - 1], steps[|steps| - 1];
      AccumulatedIsTrueSum(before);
      WrapIsCongruence(TrueSum(before), Amount(last));
    }
  }

  // ---------------------------------------------------------------------
  // Square roots.
  // ---------------------------------------------------------------------

  /** r is the floor of the square root of n. */
  predicate IsFloorRoot(n: int, r: int) {
    0 <= r && r * r <= n < (r + 1) * (r + 1)
  }

  lemma FloorRootUnique(n: int, r: int, s: int)
    requires IsFloorRoot(n, r) && IsFloorRoot(n, s)
    ensures r == s
  {
    if r < s {
      SquareMonotone(r + 1, s);
    } else if s < r {
      SquareMonotone(s + 1, r);
    }
  }

  lemma SquareMonotone(x: int, y: int)
    requires 0 <= x <= y
    ensures x * x <= y * y
  {
    Monotone(x, x, y);
    Monotone(y, x, y);
  }

  /** The contract of the root: refused exactly for a negative value or for a
      root above the signed 64-bit range. */
  predicate IsRootResult(value: int, result: Option<Int64>) {
    match result
    case Some(r) => IsFloorRoot(value, r)
    case None => value < 0 || value >= 0x4000_0000_0000_0000_0000_0000_0000_0000
  }

  /** State of the restoring root with the weight q of the last bit decided:
      big is the partial root, root is q * big, rest is what its square leaves
      of n. */
  ghost predicate RootInvariant(n: int, rest: int, root: int, bit: int, q: int, big: int) {
    && q >= 1 && big >= 0
    && root == q * big
    && rest == n - big * big
    && 0 <= rest
    && n < (big + q) * (big + q)
    && bit == (q * q) / 4
  }

  lemma RootStep(n: int, rest: int, root: int, bit: int, h: int, big: int)
    requires h >= 1
    requires RootInvariant(n, rest, root, bit, 2 * h, big)
    ensures bit == h * h
    ensures rest >= root + bit ==>
      RootInvariant(n, rest - (root + bit), root / 2 + bit, bit / 4, h, big + h)
    ensures rest < root + bit ==> RootInvariant(n, rest, root / 2, bit / 4, h, big)
    ensures root / 2 + bit == h * (big + h)
  {
    assert (2 * h) * (2 * h) == 4 * (h * h);
    assert bit == h * h;
    assert root / 2 == h * big by { Associate(2, h, big); }
    Distribute(h, big, h);
    assert (big + h) * (big + h) == big * big + 2 * (h * big) + h * h;
    assert (big + 2 * h) * (big + 2 * h) == ((big + h) + h) * ((big + h) + h);
  }

  lemma RootResultFits(n: int, r: int)
    requires IsFloorRoot(n, r)
    ensures r > INT64_MAX <==> n >= 0x4000_0000_0000_0000_0000_0000_0000_0000
  {
    if r > INT64_MAX {
      SquareMonotone(0x8000_0000_0000_0000, r);
    } else {
      SquareMonotone(r + 1, 0x8000_0000_0000_0000);
    }
  }

  // ---------------------------------------------------------------------
  // Long division.
  // ---------------------------------------------------------------------

  /** State of the division of n by d with the top bits of n consumed down to
      weight w: c and rest divide the prefix n / w. */
  ghost predicate DivisionInvariant(n: int, d: int, w: int, c: int, quotient: int, rest: int) {
    && w > 0 && c >= 0
    && quotient == c * w
    && n / w == d * c + rest
    && 0 <= rest < d
  }

  lemma NextPrefix(n: nat, w: int)
    requires w > 0
    ensures n / w == 2 * (n / (2 * w)) + (n / w) % 2
  {
    QuotientOfQuotient(n, w, 2);
  }

  lemma DivisionStep(n: nat, d: int, w: int, c: int, quotient: int, rest: int)
    requires w > 0 && d > 0
    requires DivisionInvariant(n, d, 2 * w, c, quotient, rest)
    ensures 2 * rest <= n
    ensures var next := 2 * rest + (n / w) % 2;
      if next >= d then DivisionInvariant(n, d, w, 2 * c + 1, quotient + w, next - d)
      else DivisionInvariant(n, d, w, 2 * c, quotient, next)
  {
    NextPrefix(n, w);
    var prefix := n / (2 * w);
    assert n == (2 * w) * prefix + n % (2 * w);
    Monotone(d, 0, c);
    Monotone(prefix, 2, 2 * w);
    Associate(2, d, c);
    Distribute(d, 2 * c, 1);
    Associate(2, c, w);
    Distribute(w, 2 * c, 1);
  }

  /** Unsigned 128-bit long division, one dividend bit at a time.  No bit is
      lost by the shift, for any divisor: the remainder before it is at most
      the part of the dividend already consumed, which is below 2^127. */
  method UDivMod(dividend: Pair, divisor: Pair) returns (quotient: Pair, remainder: Pair)
    requires Value(divisor) != 0
    ensures Value(quotient) == Value(dividend) / Value(divisor)
    ensures Value(remainder) == Value(dividend) % Value(divisor)
  {
    quotient, remainder := Pair(0, 0), Pair(0, 0);
    var i := 127;
    ghost var n, d := Value(dividend), Value(divisor);
    ghost var c := 0;
    Pow2Words();
    while i >= 0
      invariant -1 <= i <= 127
      invariant DivisionInvariant(n, d, Pow2(i + 1), c, Value(quotient), Value(remainder))
    {
      DivisionStep(n, d, Pow2(i), c, Value(quotient), Value(remainder));
      remainder := ShiftInBit(remainder, BitAt(dividend, i));
      if AtLeast(remainder, divisor) {
        remainder := Sub(remainder, divisor);
        quotient := SetBit(quotient, i, c);
        c := 2 * c + 1;
      } else {
        c := 2 * c;
      }
      i := i - 1;
    }
    DivModUnique(n, d, Value(quotient), Value(remainder));
  }

  // ---------------------------------------------------------------------
  // The accumulator on two words.
  // ---------------------------------------------------------------------

  function SignedValue(hi: Int64, lo: UInt64): int {
    hi * 0x1_0000_0000_0000_0000 + lo
  }

  /** The words of a signed value, read as an unsigned pair. */
  function AsPair(hi: Int64, lo: UInt64): (p: Pair)
    ensures Value(p) == SignedValue(hi, lo) % 0x1_0000_0000_0000_0000_0000_0000_0000_0000
    ensures Value(p) == if hi < 0 then SignedValue(hi, lo) + 0x1_0000_0000_0000_0000_0000_0000_0000_0000
                        else SignedValue(hi, lo)
  {
    Pair(if hi < 0 then hi + 0x1_0000_0000_0000_0000 else hi, lo)
  }

  /** hi + high + carry in a 64-bit register. */
  function AddHighWords(hi: Int64, high: Int64, carry: int): Int64 {
    AsSigned((hi + high + carry) % 0x1_0000_0000_0000_0000)
  }

  lemma WordSumIsWrap(hi: Int64, lo: UInt64, high: Int64, low: UInt64)
    ensures var (sum, carry) := AddCarry(0, lo, low);
      SignedValue(AddHighWords(hi, high, carry), sum) == Wrap(SignedValue(hi, lo) + SignedValue(high, low))
  {
    var (sum, carry) := AddCarry(0, lo, low);
    var t := hi + high + carry;
    var w := 0x1_0000_0000_0000_0000;
    var m := 0x1_0000_0000_0000_0000_0000_0000_0000_0000;
    var h := 0x8000_0000_0000_0000_0000_0000_0000_0000;
    var s := AddHighWords(hi, high, carry);
    var k := (t - s) / w;
    assert t == w * k + s;
    DivModUnique(SignedValue(hi, lo) + SignedValue(high, low) + h, m, k, SignedValue(s, sum) + h);
  }

  class Int128Words {
    var hi: Int64
    var lo: UInt64

    constructor ()
      ensures Total() == 0
    {
      hi, lo := 0, 0;
    }

    ghost function Total(): (v: int)
      reads this
      ensures FitsInt128(v)
    {
      SignedValue(hi, lo)
    }

    method AddProduct(a: Int64, b: Int64)
      modifies this
      ensures Total() == Wrap(old(Total()) + a * b)
    {
      ProductFits(a, b);
      var high, low := (a * b) / 0x1_0000_0000_0000_0000, (a * b) % 0x1_0000_0000_0000_0000;
      WordSumIsWrap(hi, lo, high, low);
      var (sum, carry) := AddCarry(0, lo, low);
      hi, lo := AddHighWords(hi, high, carry), sum;
    }

    method Add(v: Int64)
      modifies this
      ensures Total() == Wrap(old(Total()) + v)
    {
      var low := if v < 0 then v + 0x1_0000_0000_0000_0000 else v;
      var high := if v < 0 then -1 else 0;
      WordSumIsWrap(hi, lo, high, low);
      var (sum, carry) := AddCarry(0, lo, low);
      hi, lo := AddHighWords(hi, high, carry), sum;
    }

    method TryNarrow() returns (r: Option<Int64>)
      ensures r == if FitsInt64(Total()) then Some(Total()) else None
    {
      var low := AsSigned(lo);
      if hi != (if low < 0 then -1 else 0) {
        return None;
      }
      return Some(low);
    }

    method TryISqrt() returns (r: Option<Int64>)
      ensures IsRootResult(Total(), r)
    {
      if hi < 0 {
        return None;
      }
      var root := RootOfPair(Pair(hi, lo));
      RootResultFits(Total(), Value(root));
      if root.hi != 0 || root.lo > INT64_MAX {
        return None;
      }
      return Some(root.lo);
    }

    /** Reduces this / denominator to lowest terms.  With the numerator at the
        minimum and a negative denominator the sign comes out wrong; in every
        other case, -2^127 as denominator included, the result is exact. */
    method TryReduceRatio(denominator: Int128Words) returns (r: Option<(Int64, Int64)>)
      ensures r == ReducedRatio(Total(), EffectiveDenominator(Total(), denominator.Total()))
    {
      if denominator.hi == 0 && denominator.lo == 0 {
        return None;
      }
      var n, d := AsPair(hi, lo), AsPair(denominator.hi, denominator.lo);
      SignsOfWords(hi, lo, denominator.hi, denominator.lo);
      ghost var total, signedDen := Total(), EffectiveDenominator(Total(), denominator.Total());
      assert total == SignedValue(hi, lo) && denominator.Total() == SignedValue(denominator.hi, denominator.lo);
      hide *;
      var absNum, den, numNegative := FoldSigns(n, d);
      var gcd := GcdOfPairs(absNum, den);
      var qn, _ := UDivMod(absNum, gcd);
      var qd, _ := UDivMod(den, gcd);
      ReducedFromParts(total, signedDen, Value(qn), Value(qd));
      r := PackRatio(qn, qd, numNegative);
    }
  }

  /** A sequence of accumulations: the words wrap as they may, and hold the true
      sum whenever it fits. */
  method Accumulate(steps: seq<Step>) returns (acc: Int128Words)
    ensures fresh(acc) && acc.Total() == Wrap(TrueSum(steps))
    ensures FitsInt128(TrueSum(steps)) ==> acc.Total() == TrueSum(steps)
  {
    acc := new Int128Words();
    hide Wrap, SignedValue;
    for i := 0 to |steps|
      invariant fresh(acc) && acc.Total() == Accumulated(steps[..i])
    {
      assert steps[..i + 1][..i] == steps[..i];
      match steps[i] {
        case AddValue(v) => acc.Add(v);
        case AddProduct(a, b) => acc.AddProduct(a, b);
      }
    }
    assert steps[..|steps|] == steps;
    AccumulatedIsTrueSum(steps);
  }

  /** The range tests on the two reduced magnitudes, and the sign. */
  method PackRatio(qn: Pair, qd: Pair, numNegative: bool) returns (r: Option<(Int64, Int64)>)
    ensures r == RangedRatio(Value(qn), Value(qd), numNegative)
  {
    if qn.hi != 0 || qn.lo > INT64_MAX {
      return None;
    }
    if qd.hi != 0 || qd.lo == 0 || qd.lo > INT64_MAX {
      return None;
    }
    var reduced: int := qn.lo;
    if numNegative {
      reduced := -reduced;
    }
    return Some((reduced, qd.lo));
  }

  function RangedRatio(n: nat, d: nat, negative: bool): Option<(Int64, Int64)> {
    if n > INT64_MAX || d == 0 || d > INT64_MAX then None
    else if negative then Some((0 - n, d)) else Some((n, d))
  }

  /** RootInvariant on word pairs, before the step with weight 2^(63 - i). */
  ghost predicate PairRootInvariant(p: Pair, n: Pair, root: Pair, bit: Pair, i: nat, big: int) {
    && i <= 64 && (i == 0 ==> big == 0)
    && RootInvariant(Value(p), Value(n), Value(root), Value(bit), Pow2(64 - i), big)
  }

  lemma PairRootStep(p: Pair, n: Pair, root: Pair, bit: Pair, i: nat, big: int)
    requires Value(p) < 0x8000_0000_0000_0000_0000_0000_0000_0000
    requires i < 64 && PairRootInvariant(p, n, root, bit, i, big)
    ensures var candidate, half, next := WordPairs.Add(root, bit), ShiftRightPair(root, 1), ShiftRightPair(bit, 2);
      if AtLeast(n, candidate) then
        PairRootInvariant(p, Sub(n, candidate), WordPairs.Add(half, bit), next, i + 1, big + Pow2(63 - i))
      else PairRootInvariant(p, n, half, next, i + 1, big)
  {
    hide RootInvariant, Value, Pow2, WordPairs.Add, Sub, ShiftRightPair, AtLeast;
    NextRoot(Value(p), Value(n), Value(root), Value(bit), i, big);
    AddWithoutCarryOut(root, bit);
    AddWithoutCarryOut(ShiftRightPair(root, 1), bit);
  }

  /** The restoring square root: 64 steps from weight 2^63 down to 1. */
  method RootOfPair(p: Pair) returns (root: Pair)
    requires Value(p) < 0x8000_0000_0000_0000_0000_0000_0000_0000
    ensures IsFloorRoot(Value(p), Value(root))
  {
    hide *;
    var n, bit := p, Pair(0x4000_0000_0000_0000, 0);
    root := Pair(0, 0);
    ghost var big := 0;
    RootStart(p);
    for i := 0 to 64
      invariant PairRootInvariant(p, n, root, bit, i, big)
    {
      PairRootStep(p, n, root, bit, i, big);
      var candidate := WordPairs.Add(root, bit);
      if AtLeast(n, candidate) {
        n := Sub(n, candidate);
        root := WordPairs.Add(ShiftRightPair(root, 1), bit);
        big := big + Pow2(63 - i);
      } else {
        root := ShiftRightPair(root, 1);
      }
      bit := ShiftRightPair(bit, 2);
    }
    RootEnd(p, n, root, bit, big);
  }

  lemma RootEnd(p: Pair, n: Pair, root: Pair, bit: Pair, big: int)
    requires PairRootInvariant(p, n, root, bit, 64, big)
    ensures IsFloorRoot(Value(p), Value(root))
  {
    assert Pow2(0) == 1;
    hide RootInvariant, IsFloorRoot, Value;
    RootFinished(Value(p), Value(n), Value(root), Value(bit), big);
  }

  lemma RootFinished(n: int, rest: int, root: int, bit: int, big: int)
    requires RootInvariant(n, rest, root, bit, 1, big)
    ensures IsFloorRoot(n, root)
  {}

  /** The denominator the word arithmetic divides by: its sign is lost when the
      numerator is the minimum. */
  function EffectiveDenominator(num: int, den: int): int {
    if num == INT128_MIN && den < 0 then -den else den
  }

  const TWO_TO_65 := 0x2_0000_0000_0000_0000

  /** The word arithmetic returns the reduced ratio unless the numerator is the
      minimum and the denominator a negative multiple of 2^65: then, and only
      then, there is a ratio to return and its sign is lost. */
  lemma SignIsLostIff(num: int, den: int)
    requires FitsInt128(num) && FitsInt128(den)
    ensures ReducedRatio(num, EffectiveDenominator(num, den)) == ReducedRatio(num, den)
       <==> !(num == INT128_MIN && den < 0 && den % TWO_TO_65 == 0)
  {
    if num == INT128_MIN && den < 0 {
      RatiosOfMinimum(-den);
    }
  }

  /** The minimum over d and over -d: opposite ratios, or none. */
  lemma RatiosOfMinimum(d: int)
    requires 0 < d <= -INT128_MIN
    ensures ReducedRatio(INT128_MIN, d) == ReducedRatio(INT128_MIN, -d) <==> (-d) % TWO_TO_65 != 0
  {
    var m := -INT128_MIN;
    assert Abs(INT128_MIN) == m && Abs(d) == d && Abs(-d) == d;
    SameRemainder(d);
    LargeCommonFactor(d);
    ExactQuotients(m, d);
    hide Gcd, Abs;
    assert m / Gcd(m, d) != 0;
  }

  lemma SameRemainder(den: int)
    ensures den % TWO_TO_65 == 0 <==> (-den) % TWO_TO_65 == 0
  {}

  /** The minimum over itself is one; the word arithmetic returns minus one. */
  lemma SignIsLostAtMinimum()
    ensures ReducedRatio(INT128_MIN, INT128_MIN) == Some((1, 1))
    ensures ReducedRatio(INT128_MIN, EffectiveDenominator(INT128_MIN, INT128_MIN)) == Some((-1, 1))
  {
    var m := -INT128_MIN;
    assert Gcd(m, m) == Gcd(m, 0) == m;
  }

  /** Which denominators leave 2^127, divided by the common factor, in range. */
  lemma LargeCommonFactor(d: nat)
    requires 0 < d <= -INT128_MIN
    ensures var g := Gcd(-INT128_MIN, d);
      g > 0 && (-INT128_MIN / g <= INT64_MAX <==> d % TWO_TO_65 == 0) && (d % TWO_TO_65 == 0 ==> d / g <= INT64_MAX)
  {
    var m := -INT128_MIN;
    ExactQuotients(m, d);
    var g := Gcd(m, d);
    var q, r := m / g, d / g;
    if d % TWO_TO_65 == 0 {
      DividesIntro(TWO_TO_65, d, d / TWO_TO_65);
      DividesIntro(TWO_TO_65, m, 0x4000_0000_0000_0000);
      CommonDivisorDivides(m, d, TWO_TO_65);
      var t := Cofactor(TWO_TO_65, g);
      hide Gcd;
      FactorBound(t, q, m);
      FactorBound(t, r, d);
    }
    if q <= INT64_MAX {
      Pow2Words();
      var j := PowerOfTwoFactor(g, q, 127);
      if j <= 64 {
        Pow2Add(j, 64 - j);
        Monotone(Pow2(j), 1, Pow2(64 - j));
        Monotone(q, g, 0x1_0000_0000_0000_0000);
      } else {
        Pow2Add(65, j - 65);
        assert Pow2(65) == TWO_TO_65;
        Associate(TWO_TO_65, Pow2(j - 65), r);
        DivModUnique(d, TWO_TO_65, Pow2(j - 65) * r, 0);
      }
    }
  }

  lemma FactorBound(t: int, q: int, n: int)
    requires 0 < n <= -INT128_MIN && n == (TWO_TO_65 * t) * q && q >= 0 && TWO_TO_65 * t > 0
    ensures q <= 0x4000_0000_0000_0000
  {
    Monotone(q, TWO_TO_65, TWO_TO_65 * t);
  }

  /** A divisor of a power of two is a power of two. */
  lemma {:induction false} PowerOfTwoFactor(g: nat, k: nat, n: nat) returns (j: nat)
    requires g * k == Pow2(n)
    ensures j <= n && g == Pow2(j)
    decreases n
  {
    if n == 0 {
      UnitFactor(g, k);
      j := 0;
    } else if g % 2 == 0 {
      Associate(2, g / 2, k);
      j := PowerOfTwoFactor(g / 2, k, n - 1);
      j := j + 1;
    } else {
      OddTimesOdd(g, k);
      Associate(2, g, k / 2);
      assert g * k == 2 * (g * (k / 2)) by {
        assert k == 2 * (k / 2);
      }
      j := PowerOfTwoFactor(g, k / 2, n - 1);
    }
  }

  lemma UnitFactor(g: nat, k: nat)
    requires g * k == 1
    ensures g == 1
  {
    if g > 1 {
      Monotone(k, 2, g);
    }
  }

  lemma OddTimesOdd(g: nat, k: nat)
    requires g % 2 == 1 && (g * k) % 2 == 0
    ensures k % 2 == 0
  {
    var a := g / 2;
    assert g == 2 * a + 1;
    Distribute(k, 2 * a, 1);
    Associate(2, a, k);
    assert g * k == 2 * (a * k) + k;
  }

  lemma SignsOfWords(hi: Int64, lo: UInt64, dhi: Int64, dlo: UInt64)
    requires dhi != 0 || dlo != 0
    ensures var n, d := Value(AsPair(hi, lo)), Value(AsPair(dhi, dlo));
      var num, den := SignedValue(hi, lo), EffectiveDenominator(SignedValue(hi, lo), SignedValue(dhi, dlo));
      && den != 0 && Magnitude(d) == Abs(den) > 0 && Magnitude(n) == Abs(num)
      && RatioIsNegative(n, d) == (num != 0 && (num < 0) != (den < 0))
  {}

  /** The magnitudes of numerator and denominator and the sign of the ratio,
      from two's-complement words. */
  method FoldSigns(n: Pair, d: Pair) returns (absNum: Pair, den: Pair, numNegative: bool)
    ensures Value(den) == Magnitude(Value(d)) && Value(absNum) == Magnitude(Value(n))
    ensures numNegative == RatioIsNegative(Value(n), Value(d))
  {
    var num := n;
    den := d;
    if d.hi >= 0x8000_0000_0000_0000 {
      num, den := Negate(num), Negate(den);
    }
    numNegative := num.hi >= 0x8000_0000_0000_0000;
    absNum := if numNegative then Negate(num) else num;
  }

  predicate IsNegative(v: nat) {
    v >= 0x8000_0000_0000_0000_0000_0000_0000_0000
  }

  /** Whether the words call the ratio negative: negating the minimum leaves it
      as it is. */
  predicate RatioIsNegative(n: nat, d: nat) {
    n != 0 && IsNegative(n) != (IsNegative(d) && n != 0x8000_0000_0000_0000_0000_0000_0000_0000)
  }

  /** The magnitude of the signed number whose words read v as unsigned. */
  function Magnitude(v: nat): int {
    if IsNegative(v) then 0x1_0000_0000_0000_0000_0000_0000_0000_0000 - v else v
  }

  /** Euclid's algorithm on word pairs; a zero first operand never enters it. */
  method GcdOfPairs(absNum: Pair, den: Pair) returns (gcd: Pair)
    requires Value(den) > 0
    ensures Value(gcd) == Gcd(Value(absNum), Value(den))
  {
    if absNum == Pair(0, 0) {
      GcdOfZero(Value(den));
      return den;
    }
    var a, b := absNum, den;
    while b != Pair(0, 0)
      invariant Gcd(Value(a), Value(b)) == Gcd(Value(absNum), Value(den))
      decreases Value(b)
    {
      var _, remainder := UDivMod(a, b);
      a, b := b, remainder;
    }
    gcd := a;
  }

  lemma ReducedFromParts(num: int, den: int, n: nat, d: nat)
    requires den != 0
    requires var g := Gcd(Abs(num), Abs(den)); g > 0 && n == Abs(num) / g && d == Abs(den) / g
    ensures ReducedRatio(num, den) == RangedRatio(n, d, num != 0 && (num < 0) != (den < 0))
  {
    ExactQuotients(Abs(num), Abs(den));
  }

  lemma ProductFits(a: Int64, b: Int64)
    ensures -0x4000_0000_0000_0000_0000_0000_0000_0000 <= a * b <= 0x4000_0000_0000_0000_0000_0000_0000_0000
    ensures FitsInt64((a * b) / 0x1_0000_0000_0000_0000)
  {
    var x: int, y: int := Abs(a), Abs(b);
    Monotone(x, y, 0x8000_0000_0000_0000);
    Monotone(0x8000_0000_0000_0000, x, 0x8000_0000_0000_0000);
    Monotone(x, 0, y);
    assert a == x || a == 0 - x;
    assert b == y || b == 0 - y;
  }

  lemma GcdOfZero(b: nat)
    requires b > 0
    ensures Gcd(0, b) == b
  {
    assert 0 % b == 0 by { DivModUnique(0, b, 0, 0); }
    assert Gcd(0, b) == Gcd(b, 0);
  }

  lemma RootStart(p: Pair)
    requires Value(p) < 0x8000_0000_0000_0000_0000_0000_0000_0000
    ensures PairRootInvariant(p, p, Pair(0, 0), Pair(0x4000_0000_0000_0000, 0), 0, 0)
  {
    assert Value(Pair(0, 0)) == 0;
    assert Value(Pair(0x4000_0000_0000_0000, 0)) == 0x4000_0000_0000_0000_0000_0000_0000_0000;
    hide Pow2, RootInvariant, Value;
    Pow2Words();
    RootUnstarted(Value(p));
  }

  lemma RootUnstarted(n: int)
    requires 0 <= n < 0x8000_0000_0000_0000_0000_0000_0000_0000
    ensures RootInvariant(n, n, 0, 0x4000_0000_0000_0000_0000_0000_0000_0000, 0x1_0000_0000_0000_0000, 0)
  {}

  /** One step of the restoring root, whose sums fit in 128 bits. */
  lemma NextRoot(n: int, rest: int, root: int, bit: int, i: nat, big: int)
    requires i < 64 && (i == 0 ==> big == 0)
    requires 0 <= n < 0x8000_0000_0000_0000_0000_0000_0000_0000
    requires RootInvariant(n, rest, root, bit, Pow2(64 - i), big)
    ensures 0 <= root && root + bit < 0x1_0000_0000_0000_0000_0000_0000_0000_0000
    ensures root / 2 + bit < 0x1_0000_0000_0000_0000_0000_0000_0000_0000
    ensures if rest >= root + bit then
        RootInvariant(n, rest - (root + bit), root / 2 + bit, bit / 4, Pow2(63 - i), big + Pow2(63 - i))
      else RootInvariant(n, rest, root / 2, bit / 4, Pow2(63 - i), big)
  {
    assert Pow2(64 - i) == 2 * Pow2(63 - i);
    Monotone(Pow2(64 - i), 0, big);
    assert 0 <= root;
    hide Pow2, RootInvariant;
    RootStep(n, rest, root, bit, Pow2(63 - i), big);
    RootWordsFit(n, rest, root, bit, i, big);
  }

  lemma RootWordsFit(n: int, rest: int, root: int, bit: int, i: nat, big: int)
    requires i < 64 && (i == 0 ==> big == 0)
    requires 0 <= n < 0x8000_0000_0000_0000_0000_0000_0000_0000
    requires RootInvariant(n, rest, root, bit, Pow2(64 - i), big)
    ensures 0 <= root + bit < 0x1_0000_0000_0000_0000_0000_0000_0000_0000
    ensures 0 <= root / 2 + bit < 0x1_0000_0000_0000_0000_0000_0000_0000_0000
  {
    hide Pow2;
    if i == 0 {
      Pow2Words();
    } else {
      RootWordsFitLater(n, rest, root, bit, i, big);
    }
  }

  lemma RootWordsFitLater(n: int, rest: int, root: int, bit: int, i: nat, big: int)
    requires 0 < i < 64
    requires 0 <= n < 0x8000_0000_0000_0000_0000_0000_0000_0000
    requires RootInvariant(n, rest, root, bit, Pow2(64 - i), big)
    ensures 0 <= root < 0x8000_0000_0000_0000_0000_0000_0000_0000
    ensures 0 <= bit < 0x4000_0000_0000_0000_0000_0000_0000_0000
  {
    hide Pow2;
    Pow2Half(i);
    var q := Pow2(64 - i);
    if big >= 0x1_0000_0000_0000_0000 {
      SquareMonotone(0x1_0000_0000_0000_0000, big);
    }
    Monotone(big, q, 0x8000_0000_0000_0000);
    Monotone(q, 0, big);
    SquareMonotone(q, 0x8000_0000_0000_0000);
  }

  lemma Pow2Half(i: nat)
    requires 0 < i < 64
    ensures 1 <= Pow2(64 - i) <= 0x8000_0000_0000_0000
  {
    Pow2Words();
    Pow2Add(i - 1, 64 - i);
    Monotone(Pow2(64 - i), 1, Pow2(i - 1));
  }

  // ---------------------------------------------------------------------
  // The accumulator on a native 128-bit integer.
  // ---------------------------------------------------------------------

  type SInt128 = x: int | FitsInt128(x)
  type UInt128 = x: int | 0 <= x < 0x1_0000_0000_0000_0000_0000_0000_0000_0000

  class Int128Native {
    var value: SInt128

    constructor ()
      ensures value == 0
    {
      value := 0;
    }

    method AddProduct(a: Int64, b: Int64)
      requires FitsInt128(value + a * b)
      modifies this
      ensures value == old(value) + a * b
    {
      value := value + a * b;
    }

    method Add(v: Int64)
      requires FitsInt128(value + v)
      modifies this
      ensures value == old(value) + v
    {
      value := value + v;
    }

    method TryNarrow() returns (r: Option<Int64>)
      ensures r == if FitsInt64(value) then Some(value) else None
    {
      if value > INT64_MAX || value < INT64_MIN {
        return None;
      }
      return Some(value);
    }

    method TryISqrt() returns (r: Option<Int64>)
      ensures IsRootResult(value, r)
    {
      hide IsFloorRoot, RootInvariant, NativeRootInvariant, Pow2;
      if value < 0 {
        return None;
      }
      var n: UInt128, root: UInt128 := value, 0;
      var bit: UInt128 := 0x4000_0000_0000_0000_0000_0000_0000_0000;
      ghost var i, big := 0, 0;
      NativeRootStart(value);
      while bit != 0
        invariant NativeRootInvariant(value, n, root, bit, i, big)
        decreases 64 - i
      {
        NativeRootStep(value, n, root, bit, i, big);
        var candidate: UInt128 := root + bit;
        if n >= candidate {
          n := n - candidate;
          root := root / 2 + bit;
          big := big + Pow2(63 - i);
        } else {
          root := root / 2;
        }
        bit := bit / 4;
        i := i + 1;
      }
      NativeRootEnd(value, n, root, bit, i, big);
      if root > INT64_MAX {
        return None;
      }
      return Some(root);
    }

    method TryReduceRatio(denominator: Int128Native) returns (r: Option<(Int64, Int64)>)
      requires denominator.value == 0 || (value != INT128_MIN && denominator.value != INT128_MIN)
      ensures r == ReducedRatio(value, denominator.value)
    {
      if denominator.value == 0 {
        return None;
      }
      var num: SInt128, den: SInt128 := value, denominator.value;
      if den < 0 {
        den, num := -den, -num;
      }
      var numNegative := num < 0;
      var absNum: SInt128 := if numNegative then -num else num;
      var a: SInt128, b: SInt128 := absNum, den;
      while b != 0
        invariant a >= 0 && b >= 0
        invariant Gcd(a, b) == Gcd(absNum, den)
        decreases b
      {
        a, b := b, a % b;
      }
      ExactQuotients(absNum, den);
      assert absNum == Abs(value) && den == Abs(denominator.value);
      assert numNegative <==> value != 0 && (value < 0) != (denominator.value < 0);
      ReducedFromParts(value, denominator.value, absNum / a, den / a);
      QuotientIsSmaller(absNum, a);
      QuotientIsSmaller(den, a);
      var reducedNum: SInt128, reducedDen: SInt128 := absNum / a, den / a;
      hide *;
      if reducedNum > INT64_MAX {
        return None;
      }
      if reducedDen <= 0 || reducedDen > INT64_MAX {
        return None;
      }
      var reduced: Int64 := reducedNum;
      if numNegative {
        reduced := -reduced;
      }
      return Some((reduced, reducedDen));
    }
  }

  ghost predicate NativeRootInvariant(total: int, n: int, root: int, bit: int, i: nat, big: int) {
    && i <= 64 && (i == 0 ==> big == 0)
    && RootInvariant(total, n, root, bit, Pow2(64 - i), big)
  }

  lemma NativeRootStart(total: int)
    requires 0 <= total < 0x8000_0000_0000_0000_0000_0000_0000_0000
    ensures NativeRootInvariant(total, total, 0, 0x4000_0000_0000_0000_0000_0000_0000_0000, 0, 0)
  {
    hide Pow2, RootInvariant;
    Pow2Words();
    RootUnstarted(total);
  }

  lemma NativeRootStep(total: int, n: int, root: int, bit: int, i: nat, big: int)
    requires 0 <= total < 0x8000_0000_0000_0000_0000_0000_0000_0000
    requires bit > 0 && NativeRootInvariant(total, n, root, bit, i, big)
    ensures i < 64 && 0 <= root && root + bit < 0x1_0000_0000_0000_0000_0000_0000_0000_0000
    ensures if n >= root + bit then
        NativeRootInvariant(total, n - (root + bit), root / 2 + bit, bit / 4, i + 1, big + Pow2(63 - i))
      else NativeRootInvariant(total, n, root / 2, bit / 4, i + 1, big)
  {
    assert Pow2(0) == 1;
    assert i < 64;
    hide RootInvariant, Pow2;
    NextRoot(total, n, root, bit, i, big);
  }

  lemma NativeRootEnd(total: int, n: int, root: int, bit: int, i: nat, big: int)
    requires bit == 0 && NativeRootInvariant(total, n, root, bit, i, big)
    ensures IsFloorRoot(total, root)
    ensures root > INT64_MAX <==> total >= 0x4000_0000_0000_0000_0000_0000_0000_0000
  {
    if i < 64 {
      SquareMonotone(2, Pow2(64 - i));
    }
    assert Pow2(0) == 1;
    RootFinished(total, n, root, bit, big);
    RootResultFits(total, root);
  }

  lemma QuotientIsSmaller(n: int, d: int)
    requires n >= 0 && d > 0
    ensures 0 <= n / d <= n
  {
    if n / d > n {
      Monotone(n / d, 1, d);
    }
  }

  // ---------------------------------------------------------------------
  // The two implementations agree.
  // ---------------------------------------------------------------------

  /** The contract of the root determines its result, so both arms, which meet
      it, return the same. */
  lemma RootResultUnique(value: int, x: Option<Int64>, y: Option<Int64>)
    requires IsRootResult(value, x) && IsRootResult(value, y)
    ensures x == y
  {
    if x.Some? && y.Some? {
      FloorRootUnique(value, x.value, y.value);
    } else if x.Some? {
      RootResultFits(value, x.value);
      Monotone(x.value, 0, x.value);
    } else if y.Some? {
      RootResultFits(value, y.value);
      Monotone(y.value, 0, y.value);
    }
  }

  method ISqrtInt64(n: Int64) returns (r: Option<Int64>)
    ensures IsRootResult(n, r)
    ensures r.Some? <==> n >= 0
  {
    var accum := new Int128Native();
    accum.Add(n);
    r := accum.TryISqrt();
  }
}
