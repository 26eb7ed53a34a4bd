/** Greatest common divisors and the reduction of a fraction to lowest terms. */
module Gcds {
  import opened Options
  import opened MachineInts
  import opened Products

  function Gcd(a: nat, b: nat): (g: nat)
    ensures a > 0 || b > 0 ==> g > 0
    decreases b
  {
    if b == 0 then a else Gcd(b, a % b)
  }

  ghost predicate IsMultiple(n: int, d: int, k: int) {
    n == d * k
  }

  ghost predicate Divides(d: int, n: int) {
    exists k :: IsMultiple(n, d, k)
  }

  lemma Cofactor(d: int, n: int) returns (k: int)
    requires Divides(d, n)
    ensures n == d * k
  {
    k :| IsMultiple(n, d, k);
  }

  lemma DividesIntro(d: int, n: int, k: int)
    requires n == d * k
    ensures Divides(d, n)
  {
    assert IsMultiple(n, d, k);
  }

  lemma DividesCombination(d: int, a: int, b: int, x: int, y: int)
    requires Divides(d, a) && Divides(d, b)
    ensures Divides(d, a * x + b * y)
  {
    var k := Cofactor(d, a);
    var m := Cofactor(d, b);
    Associate(d, k, x);
    Associate(d, m, y);
    Distribute(d, k * x, m * y);
    DividesIntro(d, a * x + b * y, k * x + m * y);
  }

  lemma {:induction false} GcdDividesBoth(a: nat, b: nat)
    ensures Divides(Gcd(a, b), a) && Divides(Gcd(a, b), b)
    decreases b
  {
    if b == 0 {
      DividesIntro(a, a, 1);
      DividesIntro(a, b, 0);
    } else {
      GcdDividesBoth(b, a % b);
      DividesCombination(Gcd(a, b), b, a % b, a / b, 1);
      assert a == b * (a / b) + (a % b) * 1;
    }
  }

  /** Bezout coefficients. */
  lemma {:induction false} Bezout(a: nat, b: nat) returns (x: int, y: int)
    ensures a * x + b * y == Gcd(a, b)
    decreases b
  {
    if b == 0 {
      x, y := 1, 0;
    } else {
      var u, v := Bezout(b, a % b);
      var q := a / b;
      x, y := v, u - q * v;
      assert a * v == (b * q) * v + (a % b) * v by {
        Distribute(v, b * q, a % b);
      }
      DistributeMinus(b, u, q * v);
      Associate(b, q, v);
    }
  }

  /** A common divisor divides the gcd. */
  lemma CommonDivisorDivides(a: nat, b: nat, d: int)
    requires Divides(d, a) && Divides(d, b)
    ensures Divides(d, Gcd(a, b))
  {
    var x, y := Bezout(a, b);
    DividesCombination(d, a, b, x, y);
  }

  /** The gcd is the greatest common divisor, in the sense of divisibility. */
  lemma GcdIsGreatest(a: nat, b: nat)
    ensures Divides(Gcd(a, b), a) && Divides(Gcd(a, b), b)
    ensures forall d :: Divides(d, a) && Divides(d, b) ==> Divides(d, Gcd(a, b))
  {
    GcdDividesBoth(a, b);
    forall d | Divides(d, a) && Divides(d, b) ensures Divides(d, Gcd(a, b)) {
      CommonDivisorDivides(a, b, d);
    }
  }

  /** Dividing two naturals by their gcd: both quotients are exact. */
  lemma ExactQuotients(a: nat, b: nat)
    requires b > 0
    ensures var g := Gcd(a, b);
      g > 0 && a == g * (a / g) && b == g * (b / g) && a / g >= 0 && b / g > 0
  {
    GcdDividesBoth(a, b);
    var g := Gcd(a, b);
    var k := Cofactor(g, a);
    var m := Cofactor(g, b);
    DivModUnique(a, g, k, 0);
    DivModUnique(b, g, m, 0);
    if m <= 0 {
      Monotone(g, m, 0);
    }
    if k < 0 {
      Monotone(g, k, -1);
    }
  }

  /** Coefficients showing that the two reduced parts are coprime. */
  lemma ReducedBezout(a: nat, b: nat) returns (x: int, y: int)
    requires b > 0
    ensures var g := Gcd(a, b); g > 0 && (a / g) * x + (b / g) * y == 1
  {
    ExactQuotients(a, b);
    var g := Gcd(a, b);
    var n, d := a / g, b / g;
    x, y := Bezout(a, b);
    Associate(g, n, x);
    Associate(g, d, y);
    Distribute(g, n * x, d * y);
    Cancel(g, n * x + d * y, 1);
  }

  /** Every fraction equal to a/b is a multiple of the reduced one. */
  lemma EqualFractionIsMultiple(a: nat, b: nat, p: int, q: int) returns (k: int)
    requires b > 0 && q > 0 && p * b == a * q
    ensures var g := Gcd(a, b); g > 0 && k > 0 && p == (a / g) * k && q == (b / g) * k
  {
    ExactQuotients(a, b);
    var g := Gcd(a, b);
    var n, d := a / g, b / g;
    var x, y := ReducedBezout(a, b);
    assert p * d == n * q by {
      Associate(p, g, d);
      Associate(g, n, q);
      Cancel(g, p * d, n * q);
    }
    k := p * x + q * y;
    assert q == d * k by {
      Distribute(q, n * x, d * y);
      Associate(q, n, x);
      Associate(q, d, y);
      Associate(d, p, x);
      Distribute(d, p * x, q * y);
    }
    if k <= 0 {
      Monotone(d, k, 0);
    }
    assert p == n * k by {
      Associate(n, d, k);
      Cancel(d, p, n * k);
    }
  }

  lemma ReducedIsCoprime(a: nat, b: nat)
    requires b > 0
    ensures var g := Gcd(a, b); g > 0 && a / g >= 0 && b / g > 0 && Gcd(a / g, b / g) == 1
  {
    ExactQuotients(a, b);
    var g := Gcd(a, b);
    var n, d := a / g, b / g;
    var x, y := ReducedBezout(a, b);
    var h := Gcd(n, d);
    GcdDividesBoth(n, d);
    DividesCombination(h, n, d, x, y);
    var t := Cofactor(h, 1);
    if t <= 0 {
      Monotone(h, t, 0);
    } else if h > 1 {
      Monotone(h, 1, t);
    }
  }

  /** The fraction num/den in lowest terms with a positive denominator, when
      both parts fit a signed 64-bit integer other than its minimum. */
  function ReducedRatio(num: int, den: int): Option<(Int64, Int64)> {
    if den == 0 then None
    else
      var g := Gcd(Abs(num), Abs(den));
      var n, d := Abs(num) / g, Abs(den) / g;
      if n > INT64_MAX || d > INT64_MAX then None
      else
        ExactQuotients(Abs(num), Abs(den));
        Some((ApplySign(n, num, den), d))
  }

  /** n with the sign of num/den. */
  function ApplySign(n: int, num: int, den: int): int {
    if (num < 0) != (den < 0) then -n else n
  }

  /** p/q is a pair of signed 64-bit integers (minimum excluded, denominator
      positive) equal to num/den. */
  ghost predicate Represents(p: int, q: int, num: int, den: int) {
    0 < q <= INT64_MAX && -INT64_MAX <= p <= INT64_MAX && p * den == num * q
  }

  ghost predicate IsMultiplePair(p: int, q: int, p': int, q': int, k: int) {
    k > 0 && p' == p * k && q' == q * k
  }

  /** The reduction succeeds exactly when some such pair exists, and then
      returns the one that every equal fraction is a multiple of. */
  lemma ReducedRatioIsLeastFraction(num: int, den: int)
    requires den != 0
    ensures ReducedRatio(num, den).Some? <==> exists p, q :: Represents(p, q, num, den)
    ensures ReducedRatio(num, den).Some? ==>
      var (p, q) := ReducedRatio(num, den).value;
      Represents(p, q, num, den) && Gcd(Abs(p), q) == 1 &&
      forall p', q' :: q' > 0 && p' * den == num * q' ==> exists k :: IsMultiplePair(p, q, p', q', k)
  {
    var a, b := Abs(num), Abs(den);
    ExactQuotients(a, b);
    var g := Gcd(a, b);
    var n, d := a / g, b / g;
    var p := ApplySign(n, num, den);
    forall p', q' | q' > 0 && p' * den == num * q'
      ensures exists k :: IsMultiplePair(p, d, p', q', k)
    {
      var k := SignedMultiple(p', q', num, den);
      assert IsMultiplePair(p, d, p', q', k);
    }
    if n <= INT64_MAX && d <= INT64_MAX {
      Associate(n, g, d);
      SignedCross(n, d, num, den);
      assert Represents(p, d, num, den);
      ReducedIsCoprime(a, b);
    } else if p', q' :| Represents(p', q', num, den) {
      var k := SignedMultiple(p', q', num, den);
      Monotone(n, 1, k);
      Monotone(d, 1, k);
    }
  }

  lemma SignedCross(n: int, d: int, num: int, den: int)
    requires n * Abs(den) == Abs(num) * d
    ensures ApplySign(n, num, den) * den == num * d
  {
    assert num >= 0 || Abs(num) * d == -(num * d);
    assert den >= 0 || n * Abs(den) == -(n * den);
    assert (-n) * den == -(n * den);
  }

  lemma SignedMultiple(p: int, q: int, num: int, den: int) returns (k: int)
    requires den != 0 && q > 0 && p * den == num * q
    ensures k > 0
    ensures var g := Gcd(Abs(num), Abs(den));
      g > 0 && q == (Abs(den) / g) * k && p == ApplySign(Abs(num) / g, num, den) * k
      && ApplySign(p, num, den) == (Abs(num) / g) * k
  {
    var s := ApplySign(p, num, den);
    assert s * Abs(den) == Abs(num) * q by {
      assert num >= 0 || Abs(num) * q == -(num * q);
      assert den >= 0 || Abs(den) * p == -(p * den);
      assert Abs(den) * (-p) == -(Abs(den) * p);
    }
    k := EqualFractionIsMultiple(Abs(num), Abs(den), s, q);
    var n := Abs(num) / Gcd(Abs(num), Abs(den));
    assert (-n) * k == -(n * k);
  }
}
