/** Pairs of 64-bit words read as unsigned 128-bit numbers, with the word
    operations (carry, borrow, shift, or) they are composed from. */
module WordPairs {
  import opened MachineInts
  import opened Products

  datatype Pair = Pair(hi: UInt64, lo: UInt64)

  function Value(p: Pair): (v: nat)
    ensures v < 0x1_0000_0000_0000_0000_0000_0000_0000_0000
  {
    p.hi * 0x1_0000_0000_0000_0000 + p.lo
  }

  function Pow2(n: nat): (p: nat)
    ensures p > 0
  {
    if n == 0 then 1 else 2 * Pow2(n - 1)
  }

  lemma {:induction false} Pow2Add(m: nat, n: nat)
    ensures Pow2(m + n) == Pow2(m) * Pow2(n)
  {
    if m > 0 {
      Pow2Add(m - 1, n);
      Associate(2, Pow2(m - 1), Pow2(n));
    }
  }

  lemma Pow2Words()
    ensures Pow2(63) == 0x8000_0000_0000_0000
    ensures Pow2(64) == 0x1_0000_0000_0000_0000
    ensures Pow2(127) == 0x8000_0000_0000_0000_0000_0000_0000_0000
    ensures Pow2(128) == 0x1_0000_0000_0000_0000_0000_0000_0000_0000
  {
    assert Pow2(4) == 16;
    assert Pow2(64) == 2 * Pow2(63) && Pow2(128) == 2 * Pow2(127);
    hide Pow2;
    Squared(4, 16, 0x100);
    Squared(8, 0x100, 0x1_0000);
    Squared(16, 0x1_0000, 0x1_0000_0000);
    Squared(32, 0x1_0000_0000, 0x1_0000_0000_0000_0000);
    Squared(64, 0x1_0000_0000_0000_0000, 0x1_0000_0000_0000_0000_0000_0000_0000_0000);
  }

  lemma Squared(n: nat, v: nat, square: nat)
    requires Pow2(n) == v && square == v * v
    ensures Pow2(2 * n) == square
  {
    Pow2Add(n, n);
  }

  /** Bitwise or of two naturals. */
  function BitOr(a: nat, b: nat): nat
    decreases a + b
  {
    if a == 0 && b == 0 then 0
    else 2 * BitOr(a / 2, b / 2) + (if a % 2 == 1 || b % 2 == 1 then 1 else 0)
  }

  /** When one operand lies entirely below the other's lowest set bit, or is
      addition. */
  lemma {:induction false} OrOfDisjoint(c: nat, b: nat, k: nat)
    requires b < Pow2(k)
    ensures BitOr(c * Pow2(k), b) == c * Pow2(k) + b
    decreases k
  {
    if k == 0 {
      OrWithZero(c);
    } else {
      Associate(2, c, Pow2(k - 1));
      OrOfDisjoint(c, b / 2, k - 1);
    }
  }

  lemma {:induction false} OrWithZero(a: nat)
    ensures BitOr(a, 0) == a
  {
    if a > 0 {
      OrWithZero(a / 2);
    }
  }

  function AddCarry(carry: int, a: UInt64, b: UInt64): (r: (UInt64, int))
    requires carry == 0 || carry == 1
    ensures r.1 == 0 || r.1 == 1
    ensures a + b + carry == r.0 + r.1 * 0x1_0000_0000_0000_0000
  {
    var s := a + b + carry;
    (s % 0x1_0000_0000_0000_0000, s / 0x1_0000_0000_0000_0000)
  }

  function SubBorrow(borrow: int, a: UInt64, b: UInt64): (r: (UInt64, int))
    requires borrow == 0 || borrow == 1
    ensures r.1 == 0 || r.1 == 1
    ensures a - b - borrow == r.0 - r.1 * 0x1_0000_0000_0000_0000
  {
    var d := a - b - borrow;
    (d % 0x1_0000_0000_0000_0000, if d < 0 then 1 else 0)
  }

  function Add(a: Pair, b: Pair): (s: Pair)
    ensures Value(s) == (Value(a) + Value(b)) % 0x1_0000_0000_0000_0000_0000_0000_0000_0000
  {
    var (lo, carry) := AddCarry(0, a.lo, b.lo);
    var (hi, out) := AddCarry(carry, a.hi, b.hi);
    DivModUnique(Value(a) + Value(b), 0x1_0000_0000_0000_0000_0000_0000_0000_0000, out, Value(Pair(hi, lo)));
    Pair(hi, lo)
  }

  lemma AddWithoutCarryOut(a: Pair, b: Pair)
    requires Value(a) + Value(b) < 0x1_0000_0000_0000_0000_0000_0000_0000_0000
    ensures Value(Add(a, b)) == Value(a) + Value(b)
  {}

  function Sub(a: Pair, b: Pair): (d: Pair)
    requires Value(b) <= Value(a)
    ensures Value(d) == Value(a) - Value(b)
  {
    var (lo, borrow) := SubBorrow(0, a.lo, b.lo);
    var (hi, _) := SubBorrow(borrow, a.hi, b.hi);
    Pair(hi, lo)
  }

  predicate AtLeast(a: Pair, b: Pair)
    ensures AtLeast(a, b) <==> Value(a) >= Value(b)
  {
    if a.hi != b.hi then a.hi > b.hi else a.lo >= b.lo
  }

  function ShiftLeft(x: UInt64, n: nat): UInt64 {
    (x * Pow2(n)) % 0x1_0000_0000_0000_0000
  }

  function ShiftRight(x: UInt64, n: nat): (r: UInt64)
    ensures r == x / Pow2(n)
  {
    ShiftRightBound(x, n);
    x / Pow2(n)
  }

  lemma ShiftRightBound(x: nat, n: nat)
    ensures 0 <= x / Pow2(n) <= x
  {
    var q := x / Pow2(n);
    assert x == Pow2(n) * q + x % Pow2(n);
    if q < 0 {
      Monotone(Pow2(n), q, -1);
    } else {
      assert Pow2(n) * q >= q by { Monotone(q, 1, Pow2(n)); }
    }
  }

  /** x * c modulo d * c keeps the low part of x. */
  lemma ScaledRemainder(x: nat, d: int, c: int)
    requires d > 0 && c > 0
    ensures d * c > 0 && (x * c) % (d * c) == (x % d) * c
    ensures x * c == (d * c) * (x / d) + (x % d) * c
    ensures 0 <= (x % d) * c <= d * c - c
  {
    var q, m := x / d, x % d;
    assert x == d * q + m;
    Distribute(c, d * q, m);
    Associate(d, q, c);
    Associate(d, c, q);
    Monotone(c, m, d - 1);
    Monotone(c, 0, m);
    Monotone(c, 1, d);
    DistributeMinus(c, d, 1);
    DivModUnique(x * c, d * c, q, m * c);
  }

  lemma ShiftLeftKeepsLowBits(x: UInt64, k: nat)
    requires k <= 64
    ensures ShiftLeft(x, 64 - k) == (x % Pow2(k)) * Pow2(64 - k)
    ensures x * Pow2(64 - k) == 0x1_0000_0000_0000_0000 * (x / Pow2(k)) + (x % Pow2(k)) * Pow2(64 - k)
    ensures 0 <= (x % Pow2(k)) * Pow2(64 - k) <= 0x1_0000_0000_0000_0000 - Pow2(64 - k)
  {
    WordIsProduct(k);
    ScaledRemainder(x, Pow2(k), Pow2(64 - k));
  }

  lemma WordIsProduct(k: nat)
    requires k <= 64
    ensures Pow2(k) * Pow2(64 - k) == 0x1_0000_0000_0000_0000
  {
    Pow2Words();
    Pow2Add(k, 64 - k);
  }

  /** value >> k for k = 1 or 2: the low word takes in the bits that leave
      the high one. */
  function ShiftRightPair(p: Pair, k: nat): (r: Pair)
    requires k == 1 || k == 2
    ensures Value(r) == Value(p) / (if k == 1 then 2 else 4)
  {
    LowWordAfterShift(p, k);
    assert Pow2(1) == 2 && Pow2(2) == 4;
    Pair(ShiftRight(p.hi, k), BitOr(ShiftLeft(p.hi, 64 - k), ShiftRight(p.lo, k)))
  }

  lemma LowWordAfterShift(p: Pair, k: nat)
    requires k <= 64
    ensures 0 <= BitOr(ShiftLeft(p.hi, 64 - k), ShiftRight(p.lo, k)) < 0x1_0000_0000_0000_0000
    ensures ShiftRight(p.hi, k) * 0x1_0000_0000_0000_0000
            + BitOr(ShiftLeft(p.hi, 64 - k), ShiftRight(p.lo, k)) == Value(p) / Pow2(k)
  {
    hide Pow2, BitOr;
    WordIsProduct(k);
    ShiftLeftKeepsLowBits(p.hi, k);
    QuotientOfScaledSum(p.hi, p.lo, Pow2(k), Pow2(64 - k), 0x1_0000_0000_0000_0000);
    OrOfDisjoint(p.hi % Pow2(k), p.lo / Pow2(k), 64 - k);
  }

  lemma QuotientOfScaledSum(hi: nat, lo: nat, d: int, c: int, w: int)
    requires d > 0 && c > 0 && d * c == w && lo < w
    ensures (hi * w + lo) / d == hi * c + lo / d
    ensures 0 <= lo / d < c
  {
    Associate(d, hi, c);
    QuotientOfSum(hi * c, lo, d);
    if lo / d >= c {
      Monotone(d, c, lo / d);
    }
  }

  /** (value << 1) with the bit shifted in at the bottom; the top bit must be
      clear, or it is lost. */
  function ShiftInBit(p: Pair, bit: int): (r: Pair)
    requires bit == 0 || bit == 1
    requires Value(p) < 0x8000_0000_0000_0000_0000_0000_0000_0000
    ensures Value(r) == 2 * Value(p) + bit
  {
    HighWordAfterShiftIn(p);
    LowWordAfterShiftIn(p.lo, bit);
    Pair(BitOr(ShiftLeft(p.hi, 1), ShiftRight(p.lo, 63)), BitOr(ShiftLeft(p.lo, 1), bit))
  }

  lemma HighWordAfterShiftIn(p: Pair)
    requires Value(p) < 0x8000_0000_0000_0000_0000_0000_0000_0000
    ensures p.hi < 0x8000_0000_0000_0000
    ensures ShiftRight(p.lo, 63) == p.lo / 0x8000_0000_0000_0000
    ensures BitOr(ShiftLeft(p.hi, 1), ShiftRight(p.lo, 63)) == 2 * p.hi + p.lo / 0x8000_0000_0000_0000
  {
    Pow2Words();
    assert Pow2(1) == 2;
    assert ShiftLeft(p.hi, 1) == p.hi * 2;
    OrOfDisjoint(p.hi, p.lo / 0x8000_0000_0000_0000, 1);
  }

  lemma LowWordAfterShiftIn(lo: UInt64, bit: int)
    requires bit == 0 || bit == 1
    ensures BitOr(ShiftLeft(lo, 1), bit) == 2 * (lo % 0x8000_0000_0000_0000) + bit
  {
    assert Pow2(1) == 2;
    Pow2Words();
    ShiftLeftKeepsLowBits(lo, 63);
    OrOfDisjoint(lo % 0x8000_0000_0000_0000, bit, 1);
  }

  /** Two's-complement negation: ~x + 1. */
  function Negate(p: Pair): (r: Pair)
    ensures Value(r) == (0x1_0000_0000_0000_0000_0000_0000_0000_0000 - Value(p))
                        % 0x1_0000_0000_0000_0000_0000_0000_0000_0000
  {
    Add(Pair(0xFFFF_FFFF_FFFF_FFFF - p.hi, 0xFFFF_FFFF_FFFF_FFFF - p.lo), Pair(0, 1))
  }

  /** Bit i of the pair. */
  function BitAt(p: Pair, i: nat): (b: int)
    requires i < 128
    ensures b == 0 || b == 1
    ensures b == (Value(p) / Pow2(i)) % 2
  {
    BitAtIsBitOfValue(p, i);
    if i >= 64 then ShiftRight(p.hi, i - 64) % 2 else ShiftRight(p.lo, i) % 2
  }

  lemma BitAtIsBitOfValue(p: Pair, i: nat)
    requires i < 128
    ensures (if i >= 64 then ShiftRight(p.hi, i - 64) % 2 else ShiftRight(p.lo, i) % 2)
            == (Value(p) / Pow2(i)) % 2
  {
    if i >= 64 {
      HighBitOfValue(p, i);
    } else {
      LowBitOfValue(p, i);
    }
  }

  lemma HighBitOfValue(p: Pair, i: nat)
    requires 64 <= i < 128
    ensures p.hi / Pow2(i - 64) == Value(p) / Pow2(i)
  {
    Pow2Words();
    Pow2Add(i - 64, 64);
    QuotientOfQuotient(Value(p), 0x1_0000_0000_0000_0000, Pow2(i - 64));
    DivModUnique(Value(p), 0x1_0000_0000_0000_0000, p.hi, p.lo);
  }

  lemma LowBitOfValue(p: Pair, i: nat)
    requires i < 64
    ensures (p.lo / Pow2(i)) % 2 == (Value(p) / Pow2(i)) % 2
  {
    Pow2Words();
    var c := Pow2(63 - i);
    Pow2Add(64 - i, i);
    Associate(p.hi, 2 * c, Pow2(i));
    QuotientOfSum(p.hi * (2 * c), p.lo, Pow2(i));
    Associate(p.hi, 2, c);
    EvenOffset(p.hi * c, p.lo / Pow2(i));
  }

  lemma EvenOffset(c: int, b: int)
    ensures (2 * c + b) % 2 == b % 2
  {}

  /** The pair with bit i set by an or into one of its words.  All bits up to
      i must be clear: the value is c * 2^(i + 1). */
  function SetBit(p: Pair, i: nat, ghost c: nat): (r: Pair)
    requires i < 128
    requires Value(p) == c * Pow2(i + 1)
    ensures Value(r) == Value(p) + Pow2(i)
  {
    if i >= 64 then
      SetHighBit(p, i, c);
      Pair(BitOr(p.hi, Pow2(i - 64)), p.lo)
    else
      SetLowBit(p, i, c);
      Pair(p.hi, BitOr(p.lo, Pow2(i)))
  }

  /** A multiple of d below the multiple c * d leaves room for another d. */
  lemma RoomForOneMore(m: nat, d: int, c: int)
    requires d > 0 && m * d < d * c
    ensures m * d + d <= d * c
  {
    if m >= c {
      Monotone(d, c, m);
    }
    Monotone(d, m + 1, c);
    Distribute(d, m, 1);
  }

  /** Setting bit k of a word that is m * 2^(k + 1). */
  lemma SetBitOfWord(x: UInt64, k: nat, m: nat)
    requires k < 64 && x == m * Pow2(k + 1)
    ensures BitOr(x, Pow2(k)) == x + Pow2(k) < 0x1_0000_0000_0000_0000
  {
    WordIsProduct(k + 1);
    RoomForOneMore(m, Pow2(k + 1), Pow2(63 - k));
    OrOfDisjoint(m, Pow2(k), k + 1);
  }

  lemma SetHighBit(p: Pair, i: nat, c: nat)
    requires 64 <= i < 128
    requires Value(p) == c * Pow2(i + 1)
    ensures BitOr(p.hi, Pow2(i - 64)) == p.hi + Pow2(i - 64) < 0x1_0000_0000_0000_0000
    ensures Pow2(i - 64) * 0x1_0000_0000_0000_0000 == Pow2(i)
  {
    Pow2Words();
    Pow2Add(i - 64, 64);
    Pow2Add(i - 63, 64);
    Associate(c, Pow2(i - 63), 0x1_0000_0000_0000_0000);
    DivModUnique(Value(p), 0x1_0000_0000_0000_0000, p.hi, p.lo);
    DivModUnique(Value(p), 0x1_0000_0000_0000_0000, c * Pow2(i - 63), 0);
    SetBitOfWord(p.hi, i - 64, c);
  }

  lemma SetLowBit(p: Pair, i: nat, c: nat)
    requires i < 64
    requires Value(p) == c * Pow2(i + 1)
    ensures BitOr(p.lo, Pow2(i)) == p.lo + Pow2(i) < 0x1_0000_0000_0000_0000
  {
    WordIsProduct(i + 1);
    ScaledRemainder(c, Pow2(63 - i), Pow2(i + 1));
    Associate(Pow2(63 - i), Pow2(i + 1), 1);
    DivModUnique(Value(p), 0x1_0000_0000_0000_0000, p.hi, p.lo);
    SetBitOfWord(p.lo, i, c % Pow2(63 - i));
  }

  lemma QuotientOfSum(c: int, b: int, d: int)
    requires d > 0
    ensures (c * d + b) / d == c + b / d
  {
    Distribute(d, c, b / d);
    DivModUnique(c * d + b, d, c + b / d, b % d);
  }

  lemma QuotientOfQuotient(n: int, x: int, y: int)
    requires x > 0 && y > 0
    ensures x * y > 0 && n / (y * x) == (n / x) / y
  {
    var q, r := n / x, n % x;
    var s, t := q / y, q % y;
    Monotone(x, 1, y);
    assert n == (y * x) * s + (x * t + r) by {
      Distribute(x, y * s, t);
      Associate(y, x, s);
    }
    Monotone(x, t, y - 1);
    DistributeMinus(x, y, 1);
    assert 0 <= x * t by { Monotone(x, 0, t); }
    DivModUnique(n, y * x, s, x * t + r);
  }
}
