/** Fixed-width integers of the target machine and the overflow-checked
    operations that the time arithmetic is built from. */
module MachineInts {
  import opened Options

  const INT64_MIN: int := -0x8000_0000_0000_0000
  const INT64_MAX: int := 0x7FFF_FFFF_FFFF_FFFF

  type Int64 = x: int | -0x8000_0000_0000_0000 <= x <= 0x7FFF_FFFF_FFFF_FFFF
  type UInt64 = x: int | 0 <= x < 0x1_0000_0000_0000_0000
  type UInt32 = x: int | 0 <= x < 0x1_0000_0000
  type Byte = x: int | 0 <= x < 0x100

  predicate FitsInt64(x: int) {
    -0x8000_0000_0000_0000 <= x <= 0x7FFF_FFFF_FFFF_FFFF
  }

  function Sign(x: int): int {
    if x < 0 then -1 else if x > 0 then 1 else 0
  }

  /** The two's-complement reading of a 64-bit word. */
  function AsSigned(x: UInt64): Int64 {
    if x < 0x8000_0000_0000_0000 then x else x - 0x1_0000_0000_0000_0000
  }

  /** The product is formed as a signed high word and an unsigned low word; it
      fits exactly when the high word is the sign extension of the low one. */
  function CheckedMul(a: Int64, b: Int64): (r: Option<Int64>)
    ensures r == if FitsInt64(a * b) then Some(a * b) else None
  {
    var product := a * b;
    var high := product / 0x1_0000_0000_0000_0000;
    var low := AsSigned(product % 0x1_0000_0000_0000_0000);
    if high != (if low < 0 then -1 else 0) then None else Some(low)
  }

  function CheckedSub(a: Int64, b: Int64): (r: Option<Int64>)
    ensures r == if FitsInt64(a - b) then Some(a - b) else None
  {
    if b > 0 && a < INT64_MIN + b then None
    else if b < 0 && a > INT64_MAX + b then None
    else Some(a - b)
  }

  function CheckedAdd(a: Int64, b: Int64): (r: Option<Int64>)
    ensures r == if FitsInt64(a + b) then Some(a + b) else None
  {
    if b > 0 && a > INT64_MAX - b then None
    else if b < 0 && a < INT64_MIN - b then None
    else Some(a + b)
  }

  function CheckedNegate(a: Int64): (r: Option<Int64>)
    ensures r == if FitsInt64(0 - a) then Some(0 - a) else None
  {
    if a == INT64_MIN then None else Some(-a)
  }

  function Abs(x: int): (r: nat)
    ensures r == x || r == -x
  {
    if x < 0 then -x else x
  }
}

module Options {
  datatype Option<+T> = None | Some(value: T)
}

/** Facts about products that the solver does not find reliably by itself. */
module Products {
  lemma Monotone(g: int, x: int, y: int)
    requires g >= 0 && x <= y
    ensures g * x <= g * y
  {}

  lemma Distribute(g: int, x: int, y: int)
    ensures g * (x + y) == g * x + g * y
  {}

  lemma DistributeMinus(g: int, x: int, y: int)
    ensures g * (x - y) == g * x - g * y
  {}

  lemma Associate(x: int, y: int, z: int)
    ensures (x * y) * z == x * (y * z) == y * (x * z)
  {}

  lemma Cancel(g: int, x: int, y: int)
    requires g > 0 && g * x == g * y
    ensures x == y
  {
    if x < y {
      Monotone(g, x + 1, y);
    } else if x > y {
      Monotone(g, y + 1, x);
    }
  }

  /** A quotient and a remainder below the divisor are determined. */
  lemma DivModUnique(n: int, d: int, q: int, r: int)
    requires d > 0 && 0 <= r < d && n == d * q + r
    ensures n / d == q && n % d == r
  {
    var q', r' := n / d, n % d;
    assert n == d * q' + r';
    if q < q' {
      Monotone(d, q + 1, q');
    } else if q > q' {
      Monotone(d, q' + 1, q);
    }
  }
}
