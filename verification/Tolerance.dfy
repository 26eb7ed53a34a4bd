/** The tolerance grammar: an exact decimal magnitude with a unit suffix, or
    two of them ("warn,fail").  Text is a sequence of UTF-8 bytes, one char
    each. */
module Tolerances {
  import opened Options
  import opened MachineInts
  import opened Decimals
  import Products

  datatype Unit = UnitNone | Ms | MsPerMin | Frames | Percent | Db | Lu | Samples | Ticks | Count

  datatype Tolerance = Tolerance(unit: Unit, num: Int64, den: Int64, isRelative: bool, warnNum: Option<Int64>)

  datatype UsageError =
    | EmptyValue | SignWithoutMagnitude | NonAscii | NegativeValue | SeveralCommas
    | TooLarge | PointWithoutDigits | NoDigits | UnitMismatch | WarnSuffixMismatch | WarnAboveFail

  datatype Result<+T> = Ok(value: T) | Err(error: UsageError)

  datatype ParsedMagnitude = ParsedMagnitude(num: Int64, den: Int64, trailing: string)

  function UnitSuffix(unit: Unit): string {
    match unit
    case UnitNone => "none"
    case Ms => "ms"
    case MsPerMin => "ms/min"
    case Frames => "frames"
    case Percent => "%"
    case Db => "dB"
    case Lu => "LU"
    case Samples => "samples"
    case Ticks => "tick"
    case Count => "bytes"
  }

  predicate IsAsciiWhitespace(c: char) {
    c == ' ' || c == '\t' || c == '\r' || c == '\n'
  }

  function PowerOfTen(k: nat): (p: nat)
    ensures p >= 1
  {
    if k == 0 then 1 else 10 * PowerOfTen(k - 1)
  }

  // ---------------------------------------------------------------------
  // One magnitude.
  // ---------------------------------------------------------------------

  /** The longest prefix of decimal digits. */
  function LeadingDigits(s: string): (d: string)
    ensures |d| <= |s| && s[..|d|] == d && AllDigits(d)
    ensures |d| < |s| ==> !IsDigit(s[|d|])
  {
    if s == [] || !IsDigit(s[0]) then [] else [s[0]] + LeadingDigits(s[1..])
  }

  lemma {:induction false} LeadingDigitsOf(d: string, rest: string)
    requires AllDigits(d) && (rest == [] || !IsDigit(rest[0]))
    ensures LeadingDigits(d + rest) == d
  {
    if d == [] {
      assert d + rest == rest;
    } else {
      LeadingDigitsOf(d[1..], rest);
      assert (d + rest)[1..] == d[1..] + rest;
    }
  }

  lemma {:induction false} ReadDigitsAppend(a: string, b: string)
    requires AllDigits(a) && AllDigits(b)
    ensures ReadDigits(a + b) == ReadDigits(a) * PowerOfTen(|b|) + ReadDigits(b)
    ensures ReadDigits(b) < PowerOfTen(|b|)
  {
    if b == [] {
      assert a + b == a;
    } else {
      var front, last := b[..|b| - 1], b[|b| - 1];
      ReadDigitsAppend(a, front);
      assert (a + b)[..|a + b| - 1] == a + front && (a + b)[|a + b| - 1] == last;
      ShiftDigit(ReadDigits(a), PowerOfTen(|front|), ReadDigits(front), DigitValue(last));
    }
  }

  lemma ShiftDigit(a: int, p: int, f: int, d: int)
    ensures 10 * (a * p + f) + d == a * (10 * p) + (10 * f + d)
  {
    Products.Associate(10, a, p);
  }

  /** The digits before the point, the digits after it, whether there is a
      point, and the text that follows. */
  datatype Shape = Shape(whole: string, point: bool, fraction: string, trailing: string)

  function ShapeOf(component: string): (s: Shape)
    ensures AllDigits(s.whole) && AllDigits(s.fraction)
    ensures !s.point ==> s.fraction == ""
  {
    var whole := LeadingDigits(component);
    var i := |whole|;
    if i < |component| && component[i] == '.' then
      var fraction := LeadingDigits(component[i + 1..]);
      Shape(whole, true, fraction, component[i + 1 + |fraction|..])
    else Shape(whole, false, "", component[i..])
  }

  function MagnitudeOf(component: string): Result<ParsedMagnitude> {
    var s := ShapeOf(component);
    FromShape(ReadDigits(s.whole), |s.whole|, s.point, ReadDigits(s.fraction), |s.fraction|, s.trailing)
  }

  /** The magnitude with the given digit values and digit counts. */
  function FromShape(whole: nat, wholeDigits: nat, point: bool, fraction: nat, fractionDigits: nat, trailing: string)
      : Result<ParsedMagnitude> {
    var den := PowerOfTen(fractionDigits);
    if whole > INT64_MAX then Err(TooLarge)
    else if point && fractionDigits == 0 then Err(PointWithoutDigits)
    else if wholeDigits == 0 && fractionDigits == 0 then Err(NoDigits)
    else if whole * den + fraction > INT64_MAX || den > INT64_MAX then Err(TooLarge)
    else Ok(ParsedMagnitude(whole * den + fraction, den, trailing))
  }

  method AccumulateDigits(component: string, start: nat) returns (end: nat, value: Option<Int64>)
    requires start <= |component|
    ensures start <= end <= |component|
    ensures var digits := LeadingDigits(component[start..]);
      (value.Some? ==> value.value == ReadDigits(digits) && end == start + |digits|) &&
      (value == None <==> ReadDigits(digits) > INT64_MAX)
  {
    assert INT64_MAX == 0x7FFF_FFFF_FFFF_FFFF;
    hide *;
    var v: Int64 := 0;
    end := start;
    NothingScanned(component, start);
    while end < |component| && IsDigit(component[end])
      invariant start <= end <= |component| && v >= 0
      invariant Scanned(component, start, end - start, v)
    {
      ScanStep(component, start, end - start, v);
      var next := AppendDigit(v, DigitValue(component[end]));
      if next == None {
        return end, None;
      }
      v := next.value;
      end := end + 1;
    }
    ScanStep(component, start, end - start, v);
    value := Some(v);
  }

  /** One more decimal digit, checked. */
  method AppendDigit(v: Int64, digit: nat) returns (next: Option<Int64>)
    requires v >= 0 && digit < 10
    ensures next == if 10 * v + digit <= INT64_MAX then Some(10 * v + digit) else None
  {
    var scaled := CheckedMul(v, 10);
    if scaled == None {
      return None;
    }
    next := CheckedAdd(scaled.value, digit);
  }

  /** What the first k digits read as. */
  function PrefixValue(digits: string, k: nat): nat
    requires AllDigits(digits) && k <= |digits|
  {
    ReadDigits(digits[..k])
  }

  lemma WholePrefix(digits: string)
    requires AllDigits(digits)
    ensures PrefixValue(digits, 0) == 0 && PrefixValue(digits, |digits|) == ReadDigits(digits)
  {
    NothingReadsZero();
    assert digits[..|digits|] == digits;
    hide ReadDigits;
  }

  /** v is what the k characters from start, all of them digits, read as. */
  predicate Scanned(component: string, start: nat, k: nat, v: int) {
    && start + k <= |component|
    && var digits := LeadingDigits(component[start..]);
    k <= |digits| && v == PrefixValue(digits, k)
  }

  lemma NothingScanned(component: string, start: nat)
    requires start <= |component|
    ensures Scanned(component, start, 0, 0)
  {
    WholePrefix(LeadingDigits(component[start..]));
    hide LeadingDigits, PrefixValue;
  }

  /** At k digits from start the scan meets one more digit, or has met all. */
  lemma ScanStep(component: string, start: nat, k: nat, v: nat)
    requires Scanned(component, start, k, v)
    ensures start + k <= |component|
    ensures var digits := LeadingDigits(component[start..]);
      if start + k < |component| && IsDigit(component[start + k]) then
        var next := 10 * v + DigitValue(component[start + k]);
        Scanned(component, start, k + 1, next) && next <= ReadDigits(digits)
      else k == |digits| && v == ReadDigits(digits)
  {
    var digits := LeadingDigits(component[start..]);
    DigitAt(component, start, k);
    WholePrefix(digits);
    if k < |digits| {
      NextDigit(digits, k);
      PrefixReadsLess(digits, k + 1);
    }
    hide LeadingDigits, ReadDigits, DigitValue;
  }

  /** The scan from start meets the leading digits one by one, then none. */
  lemma DigitAt(component: string, start: nat, k: nat)
    requires start + k <= |component|
    ensures var digits := LeadingDigits(component[start..]);
      && (k < |digits| ==> start + k < |component| && IsDigit(component[start + k]) && digits[k] == component[start + k])
      && (k == |digits| && start + k < |component| ==> !IsDigit(component[start + k]))
  {
    hide LeadingDigits;
    var rest := component[start..];
    var digits := LeadingDigits(rest);
    assert k < |rest| ==> rest[k] == component[start + k];
    assert k < |digits| ==> digits[k] == rest[..|digits|][k];
  }

  lemma NextDigit(s: string, k: nat)
    requires AllDigits(s) && k < |s|
    ensures ReadDigits(s[..k + 1]) == 10 * ReadDigits(s[..k]) + DigitValue(s[k])
  {
    assert s[..k + 1][..k] == s[..k];
  }

  lemma PrefixReadsLess(s: string, k: nat)
    requires AllDigits(s) && k <= |s|
    ensures ReadDigits(s[..k]) <= ReadDigits(s)
  {
    assert s == s[..k] + s[k..];
    ReadDigitsAppend(s[..k], s[k..]);
    Products.Monotone(ReadDigits(s[..k]), 1, PowerOfTen(|s| - k));
  }

  method ParseMagnitude(component: string) returns (r: Result<ParsedMagnitude>)
    ensures r == MagnitudeOf(component)
  {
    ShapeByPosition(component);
    hide ShapeOf, LeadingDigits, ReadDigits, PowerOfTen;
    var i, whole := AccumulateDigits(component, 0);
    if whole == None {
      return Err(TooLarge);
    }
    var wholeDigits := i;
    if i < |component| && component[i] == '.' {
      var start := i + 1;
      var fraction;
      i, fraction := AccumulateDigits(component, start);
      if fraction == None {
        NothingReadsZero();
        FractionTooLarge(whole.value, component);
        return Err(TooLarge);
      }
      if i == start {
        return Err(PointWithoutDigits);
      }
      r := ScaleMagnitude(whole.value, fraction.value, i - start, component[i..]);
    } else {
      NothingReadsZero();
      if wholeDigits == 0 {
        return Err(NoDigits);
      }
      r := ScaleMagnitude(whole.value, 0, 0, component[i..]);
    }
  }

  /** Where the parts of the shape lie in the text. */
  lemma ShapeByPosition(component: string)
    ensures component[0..] == component
    ensures var i, s := |LeadingDigits(component)|, ShapeOf(component);
      && s.whole == LeadingDigits(component)
      && s.point == (i < |component| && component[i] == '.')
      && s.fraction == (if s.point then LeadingDigits(component[i + 1..]) else "")
      && s.trailing == component[if s.point then i + 1 + |s.fraction| else i..]
  {
    assert component[0..] == component;
  }

  lemma NothingReadsZero()
    ensures ReadDigits("") == 0
  {}

  lemma FractionTooLarge(whole: nat, component: string)
    requires ReadDigits(ShapeOf(component).fraction) > INT64_MAX
    ensures whole * PowerOfTen(|ShapeOf(component).fraction|) >= 0
  {
    Products.Monotone(whole, 0, PowerOfTen(|ShapeOf(component).fraction|));
  }

  /** The last part of the magnitude: the power of ten and the numerator. */
  method ScaleMagnitude(whole: Int64, fraction: Int64, fractionDigits: nat, trailing: string)
      returns (r: Result<ParsedMagnitude>)
    requires whole >= 0 && fraction >= 0
    ensures var den := PowerOfTen(fractionDigits);
      r == if whole * den + fraction > INT64_MAX || den > INT64_MAX then Err(TooLarge)
           else Ok(ParsedMagnitude(whole * den + fraction, den, trailing))
  {
    var den: Int64 := 1;
    for k := 0 to fractionDigits
      invariant den == PowerOfTen(k)
    {
      var scaled := CheckedMul(den, 10);
      if scaled == None {
        PowerOfTenMonotone(k + 1, fractionDigits);
        return Err(TooLarge);
      }
      den := scaled.value;
    }
    Products.Monotone(den, 0, whole);
    var product := CheckedMul(whole, den);
    var num := if product == None then None else CheckedAdd(product.value, fraction);
    if num == None {
      return Err(TooLarge);
    }
    return Ok(ParsedMagnitude(num.value, den, trailing));
  }

  lemma {:induction false} PowerOfTenMonotone(j: nat, k: nat)
    requires j <= k
    ensures PowerOfTen(j) <= PowerOfTen(k)
  {
    if j < k {
      PowerOfTenMonotone(j, k - 1);
    }
  }

  // ---------------------------------------------------------------------
  // The whole value.
  // ---------------------------------------------------------------------

  method TrimAsciiWhitespace(s: string) returns (t: string)
    ensures t == Trimmed(s)
  {
    var begin := 0;
    while begin < |s| && IsAsciiWhitespace(s[begin])
      invariant begin <= |s|
      invariant Trimmed(s[begin..]) == Trimmed(s)
    {
      assert s[begin..][1..] == s[begin + 1..];
      begin := begin + 1;
    }
    var end := |s|;
    assert s[begin..end] == s[begin..];
    while end > begin && IsAsciiWhitespace(s[end - 1])
      invariant begin <= end <= |s|
      invariant begin < |s| ==> !IsAsciiWhitespace(s[begin])
      invariant Trimmed(s[begin..end]) == Trimmed(s)
    {
      TrimmedEnd(s, begin, end);
      end := end - 1;
    }
    t := s[begin..end];
  }

  lemma TrimmedEnd(s: string, begin: nat, end: nat)
    requires begin < end <= |s| && !IsAsciiWhitespace(s[begin]) && IsAsciiWhitespace(s[end - 1])
    ensures Trimmed(s[begin..end]) == Trimmed(s[begin..end - 1])
  {
    var t := s[begin..end];
    assert t[0] == s[begin] && t[|t| - 1] == s[end - 1];
    assert t[..|t| - 1] == s[begin..end - 1];
  }

  function Trimmed(s: string): string {
    if s != [] && IsAsciiWhitespace(s[0]) then Trimmed(s[1..])
    else if s != [] && IsAsciiWhitespace(s[|s| - 1]) then Trimmed(s[..|s| - 1])
    else s
  }

  /** One of the four blanks of ASCII. */
  predicate IsBlank(c: char) {
    c == ' ' || c == '\U{0009}' || c == '\U{000A}' || c == '\U{000D}'
  }

  predicate AllBlank(s: string) {
    forall i :: 0 <= i < |s| ==> IsBlank(s[i])
  }

  /** Exactly the blanks around a text go. */
  lemma {:induction false} BlanksAreTrimmed(left: string, s: string, right: string)
    requires AllBlank(left) && AllBlank(right)
    requires s != "" ==> !IsBlank(s[0]) && !IsBlank(s[|s| - 1])
    ensures Trimmed(left + s + right) == s
    decreases |left| + |right|
  {
    var text := left + s + right;
    if left != "" {
      BlanksAreTrimmed(left[1..], s, right);
      assert text[0] == left[0] && text[1..] == left[1..] + s + right;
    } else if right != "" {
      if s == "" {
        BlanksAreTrimmed(left, s, right[1..]);
        assert text[0] == right[0] && text[1..] == left + s + right[1..];
      } else {
        BlanksAreTrimmed(left, s, right[..|right| - 1]);
        assert text[0] == s[0] && text[|text| - 1] == right[|right| - 1];
        assert text[..|text| - 1] == left + s + right[..|right| - 1];
      }
    } else {
      assert text == s;
    }
  }

  const PLUS_MINUS: string := ['\U{C2}', '\U{B1}']

  function WithoutSign(text: string): string {
    if PLUS_MINUS <= text then text[2..]
    else if "+-" <= text then text[2..]
    else text
  }

  predicate SuffixMatches(suffix: string, unit: Unit) {
    if unit == Count then suffix == "" || suffix == "bytes" else suffix == UnitSuffix(unit)
  }

  /** A finished tolerance from its one or two magnitudes. */
  function Assemble(unit: Unit, warn: Option<ParsedMagnitude>, fail: ParsedMagnitude): Result<Tolerance>
    requires fail.den > 0 && (warn.Some? ==> warn.value.den > 0)
  {
    if warn == None then Ok(Tolerance(unit, fail.num, fail.den, unit == Percent, None))
    else
      var w := warn.value;
      var common := if fail.den >= w.den then fail.den else w.den;
      var f', w' := fail.num * (common / fail.den), w.num * (common / w.den);
      if !FitsInt64(f') || !FitsInt64(w') then Err(TooLarge)
      else if w' > f' then Err(WarnAboveFail)
      else Ok(Tolerance(unit, f', common, unit == Percent, Some(w')))
  }

  lemma MagnitudeIsPowerOfTen(component: string)
    requires MagnitudeOf(component).Ok?
    ensures var m := MagnitudeOf(component).value;
      m.num >= 0 && m.den == PowerOfTen(|ShapeOf(component).fraction|)
  {
    hide ShapeOf, LeadingDigits, PowerOfTen, ReadDigits;
  }

  /** The two components of a text with at most one comma. */
  function Components(text: string): Result<(Option<string>, string)> {
    var first := IndexOf(text, ',');
    if first == |text| then Ok((None, text))
    else if IndexOf(text[first + 1..], ',') < |text| - (first + 1) then Err(SeveralCommas)
    else Ok((Some(text[..first]), text[first + 1..]))
  }

  function IndexOf(s: string, c: char): (i: nat)
    ensures i <= |s| && c !in s[..i] && (i < |s| ==> s[i] == c)
  {
    if s == [] || s[0] == c then 0 else 1 + IndexOf(s[1..], c)
  }

  /** The stages after the text has been split at its comma. */
  function FromComponents(warnText: Option<string>, failText: string, unit: Unit): Result<Tolerance> {
    var warn := if warnText == None then Ok(None) else
      (match MagnitudeOf(warnText.value) case Ok(m) => Ok(Some(m)) case Err(e) => Err(e));
    if warn.Err? then Err(warn.error)
    else
      var fail := MagnitudeOf(failText);
      if fail.Err? then Err(fail.error)
      else if !SuffixMatches(fail.value.trailing, unit) then Err(UnitMismatch)
      else if warn.value.Some? && warn.value.value.trailing != "" && warn.value.value.trailing != fail.value.trailing
      then Err(WarnSuffixMismatch)
      else Assemble(unit, warn.value, fail.value)
  }

  predicate IsAscii(text: string) {
    forall k :: 0 <= k < |text| ==> text[k] as int < 0x80
  }

  function ToleranceOf(raw: string, unit: Unit): Result<Tolerance> {
    var trimmed := Trimmed(raw);
    var text := WithoutSign(trimmed);
    if trimmed == "" then Err(EmptyValue)
    else if text == "" then Err(SignWithoutMagnitude)
    else if !IsAscii(text) then Err(NonAscii)
    else if text[0] == '-' then Err(NegativeValue)
    else
      var components := Components(text);
      if components.Err? then Err(components.error)
      else FromComponents(components.value.0, components.value.1, unit)
  }

  predicate UsableTolerance(t: Tolerance) {
    t.den > 0 && t.num >= 0 && (t.warnNum.Some? ==> 0 <= t.warnNum.value <= t.num)
  }

  method ParseTolerance(raw: string, unit: Unit) returns (r: Result<Tolerance>)
    ensures r == ToleranceOf(raw, unit)
    ensures r.Ok? ==> UsableTolerance(r.value) && r.value.isRelative == (unit == Percent)
  {
    var text := TrimAsciiWhitespace(raw);
    if text == "" {
      return Err(EmptyValue);
    }
    text := WithoutSign(text);
    if text == "" {
      return Err(SignWithoutMagnitude);
    }
    for k := 0 to |text|
      invariant forall j :: 0 <= j < k ==> text[j] as int < 0x80
    {
      if text[k] as int >= 0x80 {
        return Err(NonAscii);
      }
    }
    if text[0] == '-' {
      return Err(NegativeValue);
    }
    var components := Components(text);
    if components.Err? {
      return Err(components.error);
    }
    r := ParseComponents(components.value.0, components.value.1, unit);
  }

  method ParseComponents(warnText: Option<string>, failText: string, unit: Unit) returns (r: Result<Tolerance>)
    ensures r == FromComponents(warnText, failText, unit)
    ensures r.Ok? ==> UsableTolerance(r.value) && r.value.isRelative == (unit == Percent)
  {
    var warn: Option<ParsedMagnitude> := None;
    if warnText.Some? {
      var parsed := ParseMagnitude(warnText.value);
      if parsed.Err? {
        return Err(parsed.error);
      }
      MagnitudeIsPowerOfTen(warnText.value);
      warn := Some(parsed.value);
    }
    var fail := ParseMagnitude(failText);
    if fail.Err? {
      return Err(fail.error);
    }
    MagnitudeIsPowerOfTen(failText);
    var suffix := fail.value.trailing;
    if !SuffixMatches(suffix, unit) {
      return Err(UnitMismatch);
    }
    if warn.Some? && warn.value.trailing != "" && warn.value.trailing != suffix {
      return Err(WarnSuffixMismatch);
    }
    hide MagnitudeOf;
    r := AssembleChecked(unit, warn, fail.value);
  }

  /** The common-denominator rescale, every product checked. */
  method AssembleChecked(unit: Unit, warn: Option<ParsedMagnitude>, fail: ParsedMagnitude) returns (r: Result<Tolerance>)
    requires fail.den > 0 && fail.num >= 0 && (warn.Some? ==> warn.value.den > 0 && warn.value.num >= 0)
    ensures r == Assemble(unit, warn, fail)
    ensures r.Ok? ==> UsableTolerance(r.value) && r.value.isRelative == (unit == Percent)
  {
    if warn == None {
      return Ok(Tolerance(unit, fail.num, fail.den, unit == Percent, None));
    }
    var w := warn.value;
    var common := if fail.den >= w.den then fail.den else w.den;
    QuotientInRange(common, fail.den);
    QuotientInRange(common, w.den);
    var failScaled, warnScaled := CheckedMul(fail.num, common / fail.den), CheckedMul(w.num, common / w.den);
    if failScaled == None || warnScaled == None {
      return Err(TooLarge);
    }
    if warnScaled.value > failScaled.value {
      return Err(WarnAboveFail);
    }
    Products.Monotone(common / w.den, 0, w.num);
    return Ok(Tolerance(unit, failScaled.value, common, unit == Percent, Some(warnScaled.value)));
  }

  lemma QuotientInRange(n: int, d: int)
    requires 0 < d <= n
    ensures 1 <= n / d <= n
  {
    var q := n / d;
    if q > n {
      Products.Monotone(q, 1, d);
    }
    if q < 1 {
      Products.Monotone(d, q, 0);
    }
  }

  // ---------------------------------------------------------------------
  // What a written tolerance means.
  // ---------------------------------------------------------------------

  /** A decimal as written: whole digits, and fraction digits after a point
      unless there are none. */
  predicate IsDecimal(whole: string, fraction: string) {
    AllDigits(whole) && AllDigits(fraction) && (whole != "" || fraction != "")
  }

  function Written(whole: string, fraction: string): string {
    whole + (if fraction == "" then "" else "." + fraction)
  }

  /** Its exact value. */
  function DecimalValue(whole: string, fraction: string): real
    requires AllDigits(whole) && AllDigits(fraction)
  {
    ReadDigits(whole) as real + ReadDigits(fraction) as real / PowerOfTen(|fraction|) as real
  }

  predicate NotInMagnitude(rest: string) {
    rest == "" || (!IsDigit(rest[0]) && rest[0] != '.')
  }

  lemma ShapeOfWritten(whole: string, fraction: string, rest: string)
    requires IsDecimal(whole, fraction) && NotInMagnitude(rest)
    ensures ShapeOf(Written(whole, fraction) + rest) == Shape(whole, fraction != "", fraction, rest)
  {
    if fraction == "" {
      assert Written(whole, fraction) + rest == whole + rest;
      LeadingDigitsOf(whole, rest);
    } else {
      ShapeWithFraction(whole, fraction, rest);
    }
  }

  lemma ShapeWithFraction(whole: string, fraction: string, rest: string)
    requires IsDecimal(whole, fraction) && fraction != "" && NotInMagnitude(rest)
    ensures ShapeOf(Written(whole, fraction) + rest) == Shape(whole, true, fraction, rest)
  {
    var after := ['.'] + (fraction + rest);
    assert Written(whole, fraction) + rest == whole + after;
    LeadingDigitsOf(whole, after);
    LeadingDigitsOf(fraction, rest);
    hide *;
    ShapeFromParts(whole, fraction, rest);
  }

  lemma ShapeFromParts(whole: string, fraction: string, rest: string)
    requires LeadingDigits(whole + (['.'] + (fraction + rest))) == whole && LeadingDigits(fraction + rest) == fraction
    ensures ShapeOf(whole + (['.'] + (fraction + rest))) == Shape(whole, true, fraction, rest)
  {
    hide LeadingDigits;
    var text := whole + (['.'] + (fraction + rest));
    assert text[|whole|] == '.';
    assert text[|whole| + 1..] == fraction + rest;
    assert text[|whole| + 1 + |fraction|..] == rest;
  }

  /** A magnitude is refused only when it cannot be held exactly, and what is
      held is exactly the decimal that was written. */
  lemma WrittenMagnitudeIsExact(whole: string, fraction: string, rest: string)
    requires IsDecimal(whole, fraction) && NotInMagnitude(rest)
    ensures var r := MagnitudeOf(Written(whole, fraction) + rest);
      var n, d := ReadDigits(whole + fraction), PowerOfTen(|fraction|);
      && (r.Ok? <==> n <= INT64_MAX && d <= INT64_MAX)
      && (r.Err? ==> r.error == TooLarge)
      && (r.Ok? ==> r.value == ParsedMagnitude(n, d, rest))
      && (r.Ok? ==> r.value.num as real / r.value.den as real == DecimalValue(whole, fraction))
  {
    ShapeOfWritten(whole, fraction, rest);
    WrittenNumber(whole, fraction);
    hide ReadDigits, PowerOfTen, ShapeOf, Written, NotInMagnitude, DecimalValue, AllDigits;
  }

  /** Digits with the point left out, over the power of ten it stands for. */
  lemma WrittenNumber(whole: string, fraction: string)
    requires IsDecimal(whole, fraction)
    ensures var n, d := ReadDigits(whole + fraction), PowerOfTen(|fraction|);
      && n == ReadDigits(whole) * d + ReadDigits(fraction) && ReadDigits(whole) <= n && 0 <= ReadDigits(fraction) <= n
      && n as real / d as real == DecimalValue(whole, fraction)
  {
    ReadDigitsAppend(whole, fraction);
    hide ReadDigits, PowerOfTen;
    Products.Monotone(ReadDigits(whole), 1, PowerOfTen(|fraction|));
    FractionOfSum(ReadDigits(whole), ReadDigits(fraction), PowerOfTen(|fraction|));
  }

  lemma FractionOfSum(w: int, f: int, d: int)
    requires d > 0
    ensures (w * d + f) as real / d as real == w as real + f as real / d as real
  {
    assert (w * d) as real == w as real * d as real;
  }

  /** Rescaling onto the larger power of ten changes neither threshold. */
  lemma ScaledValues(j: nat, k: nat, warn: ParsedMagnitude, fail: ParsedMagnitude)
    requires warn.den == PowerOfTen(j) && fail.den == PowerOfTen(k)
    ensures var common := if fail.den >= warn.den then fail.den else warn.den;
      && (fail.num * (common / fail.den)) as real / common as real == fail.num as real / fail.den as real
      && (warn.num * (common / warn.den)) as real / common as real == warn.num as real / warn.den as real
  {
    if j <= k {
      PowerOfTenDivides(j, k);
      PowerOfTenMonotone(j, k);
      QuotientInRange(fail.den, warn.den);
      Rescaled(warn.num, warn.den, fail.den / warn.den);
    } else {
      PowerOfTenDivides(k, j);
      PowerOfTenMonotone(k, j);
      QuotientInRange(warn.den, fail.den);
      Rescaled(fail.num, fail.den, warn.den / fail.den);
    }
    PowerOfTenDivides(j, j);
    PowerOfTenDivides(k, k);
  }

  lemma {:induction false} PowerOfTenDivides(j: nat, k: nat)
    requires j <= k
    ensures PowerOfTen(k) == PowerOfTen(j) * (PowerOfTen(k) / PowerOfTen(j))
    ensures PowerOfTen(j) / PowerOfTen(j) == 1
  {
    var p := PowerOfTen(k - j);
    PowerOfTenAdd(j, k - j);
    Products.DivModUnique(PowerOfTen(k), PowerOfTen(j), p, 0);
    Products.DivModUnique(PowerOfTen(j), PowerOfTen(j), 1, 0);
  }

  lemma {:induction false} PowerOfTenAdd(j: nat, k: nat)
    ensures PowerOfTen(j + k) == PowerOfTen(j) * PowerOfTen(k)
  {
    if j > 0 {
      PowerOfTenAdd(j - 1, k);
      Products.Associate(10, PowerOfTen(j - 1), PowerOfTen(k));
    }
  }

  lemma Rescaled(num: int, den: int, factor: int)
    requires den > 0 && factor > 0
    ensures den * factor > 0
    ensures (num * factor) as real / (den * factor) as real == num as real / den as real
  {
    Products.Monotone(den, 1, factor);
    assert (num * factor) as real == num as real * factor as real;
    assert (den * factor) as real == den as real * factor as real;
    var q := num as real / den as real;
    assert num as real == q * den as real;
    assert (num as real * factor as real) == q * (den as real * factor as real);
  }

  lemma {:induction false} IndexOfAbsent(s: string, c: char)
    requires c !in s
    ensures IndexOf(s, c) == |s|
  {
    if s != [] {
      IndexOfAbsent(s[1..], c);
    }
  }

  lemma {:induction false} IndexOfFirst(a: string, c: char, b: string)
    requires c !in a
    ensures IndexOf(a + [c] + b, c) == |a|
  {
    if a != [] {
      IndexOfFirst(a[1..], c, b);
      assert (a + [c] + b)[1..] == a[1..] + [c] + b;
    }
  }

  predicate IsMagnitudeChar(c: char) {
    IsDigit(c) || c == '.' || c == ',' || c == 'm' || c == 's' || c == '/' || c == 'i' || c == 'n' || c == 'f' || c == 'r'
    || c == 'a' || c == 'e' || c == '%' || c == 'd' || c == 'B' || c == 'L' || c == 'U' || c == 'p' || c == 'l'
    || c == 't' || c == 'c' || c == 'k' || c == 'b' || c == 'y' || c == 'o'
  }

  predicate MagnitudeChars(s: string) {
    forall k :: 0 <= k < |s| ==> IsMagnitudeChar(s[k])
  }

  lemma SuffixChars(unit: Unit)
    ensures MagnitudeChars(UnitSuffix(unit)) && ',' !in UnitSuffix(unit) && NotInMagnitude(UnitSuffix(unit))
    ensures SuffixMatches(UnitSuffix(unit), unit)
  {}

  /** A text of magnitude characters passes every test ahead of the split, with
      or without a leading sign. */
  lemma PlainTextReachesComponents(sign: string, text: string, unit: Unit)
    requires sign == "" || sign == "+-" || sign == PLUS_MINUS
    requires text != "" && MagnitudeChars(text)
    ensures ToleranceOf(sign + text, unit) ==
      var c := Components(text);
      if c.Err? then Err(c.error) else FromComponents(c.value.0, c.value.1, unit)
  {
    var raw := sign + text;
    TrimmedPlain(sign, text);
    AsciiPlain(text);
    WithoutSignPlain(sign, text);
    hide Trimmed, WithoutSign, IsAscii, MagnitudeChars, Components, FromComponents;
  }

  lemma TrimmedPlain(sign: string, text: string)
    requires sign == "" || sign == "+-" || sign == PLUS_MINUS
    requires text != "" && MagnitudeChars(text)
    ensures sign + text != "" && Trimmed(sign + text) == sign + text
  {
    var raw := sign + text;
    assert IsMagnitudeChar(text[0]) && IsMagnitudeChar(text[|text| - 1]);
    assert raw[|raw| - 1] == text[|text| - 1];
    assert raw[0] == if sign == "" then text[0] else sign[0];
  }

  lemma WithoutSignPlain(sign: string, text: string)
    requires sign == "" || sign == "+-" || sign == PLUS_MINUS
    requires text != "" && IsMagnitudeChar(text[0])
    ensures WithoutSign(sign + text) == text
  {
    var raw := sign + text;
    if sign == "" {
      assert raw == text;
    } else {
      assert raw[..2] == sign && raw[2..] == text;
      assert sign == PLUS_MINUS ==> raw[0] == PLUS_MINUS[0];
    }
  }

  lemma AsciiPlain(text: string)
    requires MagnitudeChars(text) && text != ""
    ensures IsAscii(text) && text[0] != '-' && IsMagnitudeChar(text[0])
  {
    forall k | 0 <= k < |text| ensures text[k] as int < 0x80 {
      assert IsMagnitudeChar(text[k]);
    }
  }

  /** A single written threshold is accepted exactly when it can be held, and
      then holds the value that was written. */
  lemma WrittenThresholdParses(sign: string, whole: string, fraction: string, unit: Unit)
    requires sign == "" || sign == "+-" || sign == PLUS_MINUS
    requires IsDecimal(whole, fraction)
    ensures var r := ToleranceOf(sign + (Written(whole, fraction) + UnitSuffix(unit)), unit);
      && (r.Ok? <==> ReadDigits(whole + fraction) <= INT64_MAX && PowerOfTen(|fraction|) <= INT64_MAX)
      && (r.Err? ==> r.error == TooLarge)
      && (r.Ok? ==> r.value.den > 0 && r.value.warnNum == None && r.value.isRelative == (unit == Percent))
      && (r.Ok? ==> r.value.num as real / r.value.den as real == DecimalValue(whole, fraction))
  {
    var suffix := UnitSuffix(unit);
    var text := Written(whole, fraction) + suffix;
    SuffixChars(unit);
    WrittenChars(whole, fraction);
    PlainTextReachesComponents(sign, text, unit);
    IndexOfAbsent(text, ',');
    WrittenMagnitudeIsExact(whole, fraction, suffix);
  }

  /** The threshold of exactly that number, or a refusal of its size. */
  ghost predicate IsThreshold(r: Result<Tolerance>, whole: string, fraction: string, relative: bool)
    requires IsDecimal(whole, fraction)
  {
    if ReadDigits(whole + fraction) <= INT64_MAX && PowerOfTen(|fraction|) <= INT64_MAX then
      && r.Ok? && r.value.den > 0 && r.value.warnNum == None && r.value.isRelative == relative
      && r.value.num as real / r.value.den as real == DecimalValue(whole, fraction)
    else r == Err(TooLarge)
  }

  /** How a threshold in the unit ends: a count may do without. */
  predicate IsUnitText(unit: Unit, text: string) {
    match unit
    case UnitNone => text == "none"
    case Ms => text == "ms"
    case MsPerMin => text == "ms/min"
    case Frames => text == "frames"
    case Percent => text == "%"
    case Db => text == "dB"
    case Lu => text == "LU"
    case Samples => text == "samples"
    case Ticks => text == "tick"
    case Count => text == "bytes" || text == ""
  }

  /** A decimal and its unit, with or without a sign, is that threshold. */
  lemma ThresholdByUnit(sign: string, whole: string, fraction: string, unit: Unit, suffix: string)
    requires sign == "" || sign == "+-" || sign == ['\U{C2}', '\U{B1}']
    requires IsDecimal(whole, fraction) && IsUnitText(unit, suffix)
    ensures IsThreshold(ToleranceOf(sign + (Written(whole, fraction) + suffix), unit), whole, fraction, unit == Percent)
  {
    if suffix == "" {
      assert Written(whole, fraction) + suffix == Written(whole, fraction);
      BareCountParses(sign, whole, fraction);
    } else {
      assert suffix == UnitSuffix(unit);
      WrittenThresholdParses(sign, whole, fraction, unit);
    }
    hide ToleranceOf, Written, UnitSuffix, ReadDigits, DecimalValue, PowerOfTen;
  }

  /** A count needs no suffix. */
  lemma BareCountParses(sign: string, whole: string, fraction: string)
    requires sign == "" || sign == "+-" || sign == PLUS_MINUS
    requires IsDecimal(whole, fraction)
    ensures IsThreshold(ToleranceOf(sign + Written(whole, fraction), Count), whole, fraction, false)
  {
    var text := Written(whole, fraction);
    WrittenChars(whole, fraction);
    PlainTextReachesComponents(sign, text, Count);
    IndexOfAbsent(text, ',');
    WrittenMagnitudeIsExact(whole, fraction, "");
    assert text + "" == text;
  }

  lemma WrittenChars(whole: string, fraction: string)
    requires IsDecimal(whole, fraction)
    ensures MagnitudeChars(Written(whole, fraction)) && ',' !in Written(whole, fraction) && Written(whole, fraction) != ""
  {}

  /** Two written thresholds are refused only for size or for a warn value
      above the fail value; otherwise both hold what was written. */
  lemma WrittenThresholdPairParses(sign: string, warn: (string, string), fail: (string, string), unit: Unit)
    requires sign == "" || sign == "+-" || sign == PLUS_MINUS
    requires IsDecimal(warn.0, warn.1) && IsDecimal(fail.0, fail.1)
    ensures var text := Written(warn.0, warn.1) + [','] + (Written(fail.0, fail.1) + UnitSuffix(unit));
      var r := ToleranceOf(sign + text, unit);
      var w, f := DecimalValue(warn.0, warn.1), DecimalValue(fail.0, fail.1);
      && (r.Err? ==> r.error == TooLarge || (r.error == WarnAboveFail && w > f))
      && (r.Ok? ==> r.value.den > 0 && r.value.num as real / r.value.den as real == f)
      && (r.Ok? ==> r.value.warnNum.Some? && r.value.warnNum.value as real / r.value.den as real == w && w <= f)
  {
    var suffix := UnitSuffix(unit);
    var warnText, failText := Written(warn.0, warn.1), Written(fail.0, fail.1) + suffix;
    assert NotInMagnitude("") && warnText + "" == warnText;
    SuffixChars(unit);
    WrittenChars(warn.0, warn.1);
    WrittenChars(fail.0, fail.1);
    hide *;
    PairChars(warnText, failText);
    PlainTextReachesComponents(sign, warnText + [','] + failText, unit);
    PairComponents(warnText, failText);
    WrittenMagnitudeIsExact(warn.0, warn.1, "");
    WrittenMagnitudeIsExact(fail.0, fail.1, suffix);
    FromPair(warnText, failText, unit, |warn.1|, |fail.1|, DecimalValue(warn.0, warn.1), DecimalValue(fail.0, fail.1));
  }

  lemma PairChars(warnText: string, failText: string)
    requires MagnitudeChars(warnText) && MagnitudeChars(failText)
    ensures MagnitudeChars(warnText + [','] + failText)
  {}

  lemma FromPair(warnText: string, failText: string, unit: Unit, j: nat, k: nat, w: real, f: real)
    requires var m := MagnitudeOf(warnText); if m.Err? then m.error == TooLarge
      else m.value.den == PowerOfTen(j) && m.value.trailing == "" && m.value.num as real / m.value.den as real == w
    requires var m := MagnitudeOf(failText); if m.Err? then m.error == TooLarge
      else m.value.den == PowerOfTen(k) && m.value.trailing == UnitSuffix(unit) && m.value.num as real / m.value.den as real == f
    ensures var r := FromComponents(Some(warnText), failText, unit);
      && (r.Err? ==> r.error == TooLarge || (r.error == WarnAboveFail && w > f))
      && (r.Ok? ==> r.value.den > 0 && r.value.num as real / r.value.den as real == f)
      && (r.Ok? ==> r.value.warnNum.Some? && r.value.warnNum.value as real / r.value.den as real == w && w <= f)
  {
    SuffixChars(unit);
    var warn, fail := MagnitudeOf(warnText), MagnitudeOf(failText);
    hide MagnitudeOf, SuffixMatches, UnitSuffix, Assemble, PowerOfTen;
    if warn.Ok? && fail.Ok? {
      AssembledPair(unit, j, k, warn.value, fail.value);
    }
  }

  lemma PairComponents(warnText: string, failText: string)
    requires ',' !in warnText && ',' !in failText
    ensures Components(warnText + [','] + failText) == Ok((Some(warnText), failText))
  {
    var text := warnText + [','] + failText;
    IndexOfFirst(warnText, ',', failText);
    IndexOfAbsent(failText, ',');
    hide IndexOf;
    assert text[..|warnText|] == warnText && text[|warnText| + 1..] == failText;
  }

  // ---------------------------------------------------------------------
  // What is accepted was written that way.
  // ---------------------------------------------------------------------

  /** A decimal with a suffix that fits the unit. */
  ghost predicate IsWrittenThreshold(text: string, unit: Unit) {
    exists whole, fraction, suffix :: IsWritten(text, whole, fraction, suffix) && IsUnitText(unit, suffix)
  }

  predicate IsWritten(text: string, whole: string, fraction: string, suffix: string) {
    IsDecimal(whole, fraction) && text == Written(whole, fraction) + suffix
  }

  /** Two decimals with a comma between them; the first one's suffix is left out
      or the same. */
  ghost predicate IsWrittenPair(text: string, unit: Unit) {
    exists warnText, failText :: text == warnText + [','] + failText && AreWrittenPair(warnText, failText, unit)
  }

  ghost predicate AreWrittenPair(warnText: string, failText: string, unit: Unit) {
    exists w0, w1, f0, f1, warnSuffix, suffix ::
      && IsWritten(warnText, w0, w1, warnSuffix) && IsWritten(failText, f0, f1, suffix)
      && IsUnitText(unit, suffix) && (warnSuffix == "" || warnSuffix == suffix)
  }

  /** Whatever is accepted is, apart from blanks around it and a leading sign, a
      written threshold or a written pair of thresholds. */
  lemma AcceptedWasWritten(raw: string, unit: Unit)
    requires ToleranceOf(raw, unit).Ok?
    ensures var text := WithoutSign(Trimmed(raw));
      && (Trimmed(raw) == text || Trimmed(raw) == "+-" + text || Trimmed(raw) == PLUS_MINUS + text)
      && (IsWrittenThreshold(text, unit) || IsWrittenPair(text, unit))
  {
    hide *;
    var text := WithoutSign(Trimmed(raw));
    AcceptedComponents(raw, unit);
    SignIsStripped(Trimmed(raw));
    CommaSplits(text);
    var c := Components(text).value;
    SuffixFits(c.0, c.1, unit);
    WarnSuffixFits(c.0, c.1, unit);
    MagnitudeWasWritten(c.1);
    if c.0.None? {
      WrittenThresholdIs(c.1, unit);
    } else {
      MagnitudeWasWritten(c.0.value);
      WrittenPairIs(c.0.value, c.1, unit);
    }
  }

  lemma AcceptedComponents(raw: string, unit: Unit)
    requires ToleranceOf(raw, unit).Ok?
    ensures var c := Components(WithoutSign(Trimmed(raw)));
      c.Ok? && FromComponents(c.value.0, c.value.1, unit).Ok?
  {
    hide Components, Trimmed, WithoutSign, FromComponents, IsAscii;
  }

  lemma WarnSuffixFits(warnText: Option<string>, failText: string, unit: Unit)
    requires FromComponents(warnText, failText, unit).Ok?
    ensures warnText.Some? ==>
      && MagnitudeOf(warnText.value).Ok? && MagnitudeOf(failText).Ok?
      && var suffix := MagnitudeOf(warnText.value).value.trailing;
      suffix == "" || suffix == MagnitudeOf(failText).value.trailing
  {
    hide MagnitudeOf, Assemble, SuffixMatches;
  }

  lemma SignIsStripped(trimmed: string)
    ensures var text := WithoutSign(trimmed);
      trimmed == text || trimmed == "+-" + text || trimmed == PLUS_MINUS + text
  {
    if PLUS_MINUS <= trimmed {
      assert trimmed == trimmed[..2] + trimmed[2..];
    } else if "+-" <= trimmed {
      assert trimmed == trimmed[..2] + trimmed[2..];
    }
  }

  lemma CommaSplits(text: string)
    requires Components(text).Ok?
    ensures var c := Components(text).value;
      if c.0.None? then c.1 == text else text == c.0.value + [','] + c.1
  {
    hide IndexOf;
    var first := IndexOf(text, ',');
    if first < |text| {
      assert text == text[..first] + [text[first]] + text[first + 1..];
    }
  }

  /** A component with a magnitude is a decimal and what follows it. */
  lemma MagnitudeWasWritten(component: string)
    ensures var r, s := MagnitudeOf(component), ShapeOf(component);
      r.Ok? ==> IsWritten(component, s.whole, s.fraction, r.value.trailing)
  {
    var s := ShapeOf(component);
    ShapeIsText(component);
    hide ShapeOf, ReadDigits, PowerOfTen;
    assert s.fraction == "" ==> s.whole + "" == s.whole;
  }

  lemma ShapeIsText(component: string)
    ensures var s := ShapeOf(component);
      component == s.whole + (if s.point then "." + s.fraction else "") + s.trailing
  {
    hide LeadingDigits;
    var whole := LeadingDigits(component);
    var i := |whole|;
    assert component == whole + component[i..];
    if i < |component| && component[i] == '.' {
      var rest := component[i + 1..];
      assert component[i..] == "." + rest;
      assert rest == LeadingDigits(rest) + rest[|LeadingDigits(rest)|..];
    }
  }

  /** What the accepted components end in. */
  lemma SuffixFits(warnText: Option<string>, failText: string, unit: Unit)
    requires FromComponents(warnText, failText, unit).Ok?
    ensures MagnitudeOf(failText).Ok? && IsUnitText(unit, MagnitudeOf(failText).value.trailing)
  {
    hide MagnitudeOf, Assemble, SuffixMatches, IsUnitText;
    SuffixIsUnitText(MagnitudeOf(failText).value.trailing, unit);
  }

  lemma SuffixIsUnitText(suffix: string, unit: Unit)
    ensures SuffixMatches(suffix, unit) <==> IsUnitText(unit, suffix)
  {}

  lemma WrittenThresholdIs(text: string, unit: Unit)
    requires MagnitudeOf(text).Ok? && IsUnitText(unit, MagnitudeOf(text).value.trailing)
    requires var s := ShapeOf(text); IsWritten(text, s.whole, s.fraction, MagnitudeOf(text).value.trailing)
    ensures IsWrittenThreshold(text, unit)
  {
    hide MagnitudeOf, ShapeOf, IsUnitText, IsWritten;
  }

  lemma WrittenPairIs(warnText: string, failText: string, unit: Unit)
    requires MagnitudeOf(warnText).Ok? && MagnitudeOf(failText).Ok?
    requires var s := ShapeOf(warnText); IsWritten(warnText, s.whole, s.fraction, MagnitudeOf(warnText).value.trailing)
    requires var s := ShapeOf(failText); IsWritten(failText, s.whole, s.fraction, MagnitudeOf(failText).value.trailing)
    requires var warnSuffix, suffix := MagnitudeOf(warnText).value.trailing, MagnitudeOf(failText).value.trailing;
      IsUnitText(unit, suffix) && (warnSuffix == "" || warnSuffix == suffix)
    ensures IsWrittenPair(warnText + [','] + failText, unit)
  {
    hide MagnitudeOf, ShapeOf, IsUnitText, IsWritten;
    assert AreWrittenPair(warnText, failText, unit);
  }

  lemma AssembledPair(unit: Unit, j: nat, k: nat, warn: ParsedMagnitude, fail: ParsedMagnitude)
    requires warn.den == PowerOfTen(j) && fail.den == PowerOfTen(k)
    ensures var r := Assemble(unit, Some(warn), fail);
      var w, f := warn.num as real / warn.den as real, fail.num as real / fail.den as real;
      && (r.Err? ==> r.error == TooLarge || (r.error == WarnAboveFail && w > f))
      && (r.Ok? ==> r.value.den > 0 && r.value.num as real / r.value.den as real == f)
      && (r.Ok? ==> r.value.warnNum.Some? && r.value.warnNum.value as real / r.value.den as real == w && w <= f)
  {
    var common := if fail.den >= warn.den then fail.den else warn.den;
    var f', w' := fail.num * (common / fail.den), warn.num * (common / warn.den);
    ScaledValues(j, k, warn, fail);
    SameDenominatorOrder(w', f', common);
  }

  lemma SameDenominatorOrder(a: int, b: int, d: int)
    requires d > 0
    ensures a <= b <==> a as real / d as real <= b as real / d as real
  {
    var x, y := a as real / d as real, b as real / d as real;
    assert x * d as real == a as real && y * d as real == b as real;
  }
}
