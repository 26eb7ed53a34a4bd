/** The cadence of a packet array: mode interval, span, and the grid-conformance
    test that classifies a stream as constant or variable frame rate. */
module Cadences {
  import opened Options
  import opened MachineInts
  import opened SortedSequences
  import opened Rounding
  import Products

  const MAX_PACKETS_PER_STREAM: int := 5_000_000
  const CADENCE_EPSILON_TICKS: int := 0
  const CFR_PROPORTION_NUM: Int64 := 995
  const CFR_PROPORTION_DEN: Int64 := 1000
  const GRID_TOLERANCE_TICKS: Int64 := 1

  datatype PacketRecord = PacketRecord(pts: Int64, dts: Int64)
  datatype Axis = Pts | Dts
  datatype Status = Okay | NoTimingData | InsufficientData
  datatype Class = Cfr | Vfr
  datatype Timebase = Timebase(num: Int64, den: Int64)

  datatype Cadence = Cadence(
    status: Status, axis: Axis, klass: Class, modeInterval: Int64, tb: Timebase,
    matchingIntervals: Int64, totalIntervals: Int64,
    span: Int64, intervalCount: Int64, idealNum: Int64, idealDen: Int64,
    conforming: Int64, considered: Int64)

  function TimestampOn(record: PacketRecord, axis: Axis): Int64 {
    if axis == Pts then record.pts else record.dts
  }

  /** The timestamps on an axis that are not the missing-value sentinel, in
      read order. */
  function Usable(packets: seq<PacketRecord>, axis: Axis): (u: seq<Int64>)
    ensures |u| <= |packets|
  {
    if packets == [] then []
    else
      var last := packets[|packets| - 1];
      Usable(packets[..|packets| - 1], axis)
      + (if TimestampOn(last, axis) != INT64_MIN then [TimestampOn(last, axis)] else [])
  }

  /** Presentation timestamps when at least two exist, else decoding ones. */
  function AxisOf(packets: seq<PacketRecord>): Axis {
    if |Usable(packets, Pts)| >= 2 then Pts else Dts
  }

  // ---------------------------------------------------------------------
  // What the result means.
  // ---------------------------------------------------------------------

  /** Consecutive differences. */
  function Intervals(t: seq<int>): (r: seq<int>)
    ensures |r| == if |t| > 0 then |t| - 1 else 0
    ensures forall i :: 0 <= i < |r| ==> r[i] == t[i + 1] - t[i]
  {
    if |t| <= 1 then [] else seq(|t| - 1, i requires 0 <= i < |t| - 1 => t[i + 1] - t[i])
  }

  /** m is the most frequent element of s, the smallest of those in a tie. */
  ghost predicate IsMode(s: seq<int>, m: int) {
    && m in s
    && forall x :: x in s ==> Count(s, x) < Count(s, m) || (Count(s, x) == Count(s, m) && m <= x)
  }

  /** Last timestamp minus first. */
  function Span(t: seq<int>): int
    requires t != []
  {
    t[|t| - 1] - t[0]
  }

  /** Timestamp n lies within the tolerance of its place on the ideal grid. */
  predicate OnGrid(t: seq<int>, n: nat)
    requires |t| >= 2 && n < |t| && t[0] <= t[|t| - 1]
  {
    Products.Monotone(n, 0, Span(t));
    Abs(RoundHalfEven(n * Span(t), |t| - 1) - (t[n] - t[0])) <= GRID_TOLERANCE_TICKS
  }

  /** How many of the first k timestamps conform. */
  function ConformingCount(t: seq<int>, k: nat): (c: nat)
    requires |t| >= 2 && k <= |t| && t[0] <= t[|t| - 1]
    ensures c <= k
  {
    if k == 0 then 0 else ConformingCount(t, k - 1) + (if OnGrid(t, k - 1) then 1 else 0)
  }

  /** Everything the arithmetic forms fits 64 bits exactly when the widest
      grid bound does. */
  predicate GridArithmeticFits(t: seq<int>)
    requires |t| >= 2
  {
    (|t| - 1) * (2 * Span(t) + 3) <= INT64_MAX
  }

  predicate Measurable(packets: seq<PacketRecord>, tb: Timebase) {
    |packets| <= MAX_PACKETS_PER_STREAM && tb.num > 0 && tb.den > 0
  }

  predicate NoTimestampAtAll(packets: seq<PacketRecord>) {
    Usable(packets, Pts) == [] && Usable(packets, Dts) == []
  }

  /** The contract of the derivation, in terms of the sorted timestamps. */
  ghost predicate IsCadenceOf(packets: seq<PacketRecord>, tb: Timebase, c: Cadence) {
    var t := Sorted(Usable(packets, AxisOf(packets)));
    SortedIsSorted(Usable(packets, AxisOf(packets)));
    && (c.status == NoTimingData <==> Measurable(packets, tb) && NoTimestampAtAll(packets))
    && (c.status == Okay <==> Measurable(packets, tb) && |t| >= 2 && GridArithmeticFits(t))
    && (c.status == Okay ==> MeasuresTimestamps(t, AxisOf(packets), tb, c))
  }

  ghost predicate MeasuresTimestamps(t: seq<int>, axis: Axis, tb: Timebase, c: Cadence)
    requires |t| >= 2 && t[0] <= t[|t| - 1]
  {
    && c.axis == axis && c.tb == tb
    && IsMode(Intervals(t), c.modeInterval)
    && c.matchingIntervals == Count(Intervals(t), c.modeInterval)
    && c.totalIntervals == c.intervalCount == c.idealDen == |t| - 1
    && c.span == c.idealNum == Span(t)
    && c.considered == |t|
    && c.conforming == ConformingCount(t, |t|)
    && (c.klass == Cfr <==> 1000 * c.conforming >= 995 * c.considered)
  }

  // ---------------------------------------------------------------------
  // The grid test.
  // ---------------------------------------------------------------------

  /** Whether the products of the grid test fit. */
  predicate GridTestFits(numerator: int, denominator: int, delta: int, tolerance: int) {
    && FitsInt64(2 * numerator) && FitsInt64(delta - tolerance) && FitsInt64(delta + tolerance)
    && FitsInt64((delta - tolerance) * 2) && FitsInt64((delta - tolerance) * 2 - 1)
    && FitsInt64(denominator * ((delta - tolerance) * 2 - 1))
    && FitsInt64((delta + tolerance) * 2) && FitsInt64((delta + tolerance) * 2 + 1)
    && FitsInt64(denominator * ((delta + tolerance) * 2 + 1))
  }

  /** Is delta within tolerance of round-half-even(numerator / denominator)?
      Decided by cross-multiplication, without dividing; None on overflow. */
  method ConformsToGrid(numerator: Int64, denominator: Int64, delta: Int64, tolerance: Int64) returns (r: Option<bool>)
    requires numerator >= 0 && denominator > 0
    ensures r == if GridTestFits(numerator, denominator, delta, tolerance)
      then Some(Abs(RoundHalfEven(numerator, denominator) - delta) <= tolerance) else None
  {
    var twoNumerator := CheckedAdd(numerator, numerator);
    if twoNumerator == None {
      return None;
    }
    var lowK := CheckedSub(delta, tolerance);
    if lowK == None {
      return None;
    }
    var lowBound := CheckedMul(lowK.value, 2);
    if lowBound == None {
      return None;
    }
    lowBound := CheckedSub(lowBound.value, 1);
    if lowBound == None {
      return None;
    }
    lowBound := CheckedMul(denominator, lowBound.value);
    if lowBound == None {
      return None;
    }
    var lowOk := twoNumerator.value > lowBound.value || (twoNumerator.value == lowBound.value && lowK.value % 2 == 0);

    var highK := CheckedAdd(delta, tolerance);
    if highK == None {
      return None;
    }
    var highBound := CheckedMul(highK.value, 2);
    if highBound == None {
      return None;
    }
    highBound := CheckedAdd(highBound.value, 1);
    if highBound == None {
      return None;
    }
    highBound := CheckedMul(denominator, highBound.value);
    if highBound == None {
      return None;
    }
    var highOk := twoNumerator.value < highBound.value || (twoNumerator.value == highBound.value && highK.value % 2 == 0);
    RoundAtLeast(numerator, denominator, lowK.value);
    RoundAtMost(numerator, denominator, highK.value);
    return Some(lowOk && highOk);
  }

  // ---------------------------------------------------------------------
  // The derivation.
  // ---------------------------------------------------------------------

  method CountUsable(packets: seq<PacketRecord>, axis: Axis, cap: nat) returns (count: nat)
    requires cap > 0
    ensures count == if |Usable(packets, axis)| < cap then |Usable(packets, axis)| else cap
  {
    count := 0;
    for i := 0 to |packets|
      invariant count == |Usable(packets[..i], axis)| < cap
    {
      assert packets[..i + 1][..i] == packets[..i];
      if TimestampOn(packets[i], axis) != INT64_MIN {
        count := count + 1;
        if count >= cap {
          UsablePrefix(packets, axis, i + 1);
          break;
        }
      }
    }
    assert packets[..|packets|] == packets;
  }

  lemma {:induction false} UsablePrefix(packets: seq<PacketRecord>, axis: Axis, k: nat)
    requires k <= |packets|
    ensures |Usable(packets[..k], axis)| <= |Usable(packets, axis)|
    decreases |packets|
  {
    if k < |packets| {
      UsablePrefix(packets[..|packets| - 1], axis, k);
      assert packets[..|packets| - 1][..k] == packets[..k];
    } else {
      assert packets[..k] == packets;
    }
  }

  /** The timestamps an index view refers to. */
  function At(packets: seq<PacketRecord>, axis: Axis, view: seq<nat>): (t: seq<Int64>)
    requires forall i :: 0 <= i < |view| ==> view[i] < |packets|
    ensures |t| == |view|
    ensures forall i :: 0 <= i < |view| ==> t[i] == TimestampOn(packets[view[i]], axis)
  {
    seq(|view|, i requires 0 <= i < |view| => TimestampOn(packets[view[i]], axis))
  }

  /** The indices of the usable timestamps, sorted by timestamp; the packets
      themselves stay in read order. */
  method SortedView(packets: seq<PacketRecord>, axis: Axis) returns (view: seq<nat>)
    ensures forall i :: 0 <= i < |view| ==> view[i] < |packets|
    ensures At(packets, axis, view) == Sorted(Usable(packets, axis))
  {
    view := [];
    for i := 0 to |packets|
      invariant forall j :: 0 <= j < |view| ==> view[j] < |packets|
      invariant At(packets, axis, view) == Usable(packets[..i], axis)
    {
      assert packets[..i + 1][..i] == packets[..i];
      if TimestampOn(packets[i], axis) != INT64_MIN {
        ghost var before := view;
        view := view + [i];
        assert At(packets, axis, view) == At(packets, axis, before) + [TimestampOn(packets[i], axis)];
      }
    }
    assert packets[..|packets|] == packets;
    view := SortByTimestamp(packets, axis, view);
  }

  /** x after every element not later than it. */
  method InsertByTimestamp(packets: seq<PacketRecord>, axis: Axis, sorted: seq<nat>, x: nat) returns (r: seq<nat>)
    requires x < |packets| && forall i :: 0 <= i < |sorted| ==> sorted[i] < |packets|
    ensures forall i :: 0 <= i < |r| ==> r[i] < |packets|
    ensures At(packets, axis, r) == Insert(At(packets, axis, sorted), TimestampOn(packets[x], axis))
  {
    var k := |sorted|;
    while k > 0 && TimestampOn(packets[sorted[k - 1]], axis) > TimestampOn(packets[x], axis)
      invariant 0 <= k <= |sorted|
      invariant forall j :: k <= j < |sorted| ==> At(packets, axis, sorted)[j] > TimestampOn(packets[x], axis)
    {
      k := k - 1;
    }
    AtInserted(packets, axis, sorted, k, x);
    InsertAt(At(packets, axis, sorted), TimestampOn(packets[x], axis), k);
    r := sorted[..k] + [x] + sorted[k..];
  }

  /** Sorting an index view by timestamp (the library sort). */
  method SortByTimestamp(packets: seq<PacketRecord>, axis: Axis, view: seq<nat>) returns (sorted: seq<nat>)
    requires forall i :: 0 <= i < |view| ==> view[i] < |packets|
    ensures forall i :: 0 <= i < |sorted| ==> sorted[i] < |packets|
    ensures At(packets, axis, sorted) == Sorted(At(packets, axis, view))
  {
    sorted := [];
    ghost var t := At(packets, axis, view);
    for i := 0 to |view|
      invariant forall j :: 0 <= j < |sorted| ==> sorted[j] < |packets|
      invariant At(packets, axis, sorted) == Sorted(t[..i])
    {
      SortedNext(t, i);
      hide Sorted, At, Insert;
      sorted := InsertByTimestamp(packets, axis, sorted, view[i]);
    }
    assert t[..|view|] == t;
  }

  lemma AtInserted(packets: seq<PacketRecord>, axis: Axis, view: seq<nat>, k: nat, x: nat)
    requires forall i :: 0 <= i < |view| ==> view[i] < |packets|
    requires k <= |view| && x < |packets|
    ensures forall i :: 0 <= i <= |view| ==> (view[..k] + [x] + view[k..])[i] < |packets|
    ensures At(packets, axis, view[..k] + [x] + view[k..])
         == At(packets, axis, view)[..k] + [TimestampOn(packets[x], axis)] + At(packets, axis, view)[k..]
  {}

  method CheckedIntervals(t: seq<Int64>) returns (r: Option<seq<Int64>>)
    requires |t| >= 2 && Ascending(t)
    ensures r.Some? ==> r.value == Intervals(t)
    ensures r == None ==> Span(t) > INT64_MAX
  {
    hide Intervals;
    var intervals := [];
    for i := 1 to |t|
      invariant intervals == Intervals(t)[..i - 1]
    {
      NextInterval(t, i);
      hide Ascending;
      var interval := CheckedSub(t[i], t[i - 1]);
      if interval == None {
        return None;
      }
      intervals := intervals + [interval.value];
    }
    assert Intervals(t)[..|t| - 1] == Intervals(t);
    return Some(intervals);
  }

  lemma NextInterval(t: seq<int>, i: nat)
    requires Ascending(t) && 0 < i < |t|
    ensures Intervals(t)[..i] == Intervals(t)[..i - 1] + [t[i] - t[i - 1]]
    ensures 0 <= t[i] - t[i - 1] <= Span(t)
  {
    hide Intervals;
    assert t[0] <= t[i - 1] <= t[i] <= t[|t| - 1];
  }

  /** A tally in ascending key order, with one more for x. */
  function Bump(tally: seq<(Int64, nat)>, x: Int64): seq<(Int64, nat)> {
    if tally == [] then [(x, 1)]
    else if tally[0].0 == x then [(x, tally[0].1 + 1)] + tally[1..]
    else if tally[0].0 > x then [(x, 1)] + tally
    else [tally[0]] + Bump(tally[1..], x)
  }

  function Tallied(tally: seq<(Int64, nat)>, x: int): nat {
    if tally == [] then 0 else if tally[0].0 == x then tally[0].1 else Tallied(tally[1..], x)
  }

  predicate KeysAscend(tally: seq<(Int64, nat)>) {
    forall i, j :: 0 <= i < j < |tally| ==> tally[i].0 < tally[j].0
  }

  /** The tally counts the elements of s, and has no other keys. */
  ghost predicate IsTallyOf(tally: seq<(Int64, nat)>, s: seq<int>) {
    && KeysAscend(tally)
    && (forall x :: Tallied(tally, x) == Count(s, x))
    && (forall i :: 0 <= i < |tally| ==> tally[i].1 > 0)
  }

  lemma {:induction false} BumpCounts(tally: seq<(Int64, nat)>, x: Int64)
    requires KeysAscend(tally)
    requires forall i :: 0 <= i < |tally| ==> tally[i].1 > 0
    ensures var t := Bump(tally, x);
      && KeysAscend(t)
      && (forall y :: Tallied(t, y) == Tallied(tally, y) + (if y == x then 1 else 0))
      && (forall i :: 0 <= i < |t| ==> t[i].1 > 0)
  {
    BumpAscends(tally, x);
    forall y
      ensures Tallied(Bump(tally, x), y) == Tallied(tally, y) + (if y == x then 1 else 0)
    {
      BumpTallies(tally, x, y);
    }
  }

  lemma {:induction false} BumpAscends(tally: seq<(Int64, nat)>, x: Int64)
    requires KeysAscend(tally)
    requires forall i :: 0 <= i < |tally| ==> tally[i].1 > 0
    ensures var t := Bump(tally, x);
      && KeysAscend(t)
      && (forall i :: 0 <= i < |t| ==> t[i].1 > 0)
      && t != [] && (t[0].0 == x || (tally != [] && t[0].0 == tally[0].0))
  {
    if tally != [] && tally[0].0 < x {
      BumpAscends(tally[1..], x);
      var rest := Bump(tally[1..], x);
      assert Bump(tally, x) == [tally[0]] + rest;
      forall j | 0 <= j < |rest|
        ensures tally[0].0 < rest[j].0
      {
        assert tally[0].0 < rest[0].0;
      }
    }
  }

  lemma {:induction false} BumpTallies(tally: seq<(Int64, nat)>, x: Int64, y: int)
    requires KeysAscend(tally)
    ensures Tallied(Bump(tally, x), y) == Tallied(tally, y) + (if y == x then 1 else 0)
  {
    if tally == [] {
      assert Bump(tally, x)[1..] == [];
    } else if tally[0].0 < x {
      BumpTallies(tally[1..], x, y);
      assert Bump(tally, x)[1..] == Bump(tally[1..], x);
    } else if tally[0].0 == x {
      assert Bump(tally, x)[1..] == tally[1..];
    } else {
      TalliedBelow(tally, x);
      assert Bump(tally, x)[1..] == tally;
    }
  }

  lemma {:induction false} TalliedBelow(tally: seq<(Int64, nat)>, x: int)
    requires KeysAscend(tally) && (tally != [] ==> x < tally[0].0)
    ensures Tallied(tally, x) == 0
  {
    if tally != [] {
      TalliedBelow(tally[1..], x);
    }
  }

  lemma {:induction false} TalliedAt(tally: seq<(Int64, nat)>, i: nat)
    requires KeysAscend(tally) && i < |tally|
    ensures Tallied(tally, tally[i].0) == tally[i].1
  {
    if i > 0 {
      TalliedAt(tally[1..], i - 1);
    }
  }

  lemma {:induction false} KeyOf(tally: seq<(Int64, nat)>, x: int) returns (i: nat)
    requires Tallied(tally, x) > 0
    ensures i < |tally| && tally[i].0 == x
  {
    if tally[0].0 == x {
      i := 0;
    } else {
      i := KeyOf(tally[1..], x);
      i := i + 1;
    }
  }

  /** The most frequent interval: tally, then the first strict maximum in key
      order. */
  method SelectMode(intervals: seq<Int64>) returns (mode: Int64)
    requires intervals != []
    ensures IsMode(intervals, mode)
  {
    var tally: seq<(Int64, nat)> := [];
    for i := 0 to |intervals|
      invariant IsTallyOf(tally, intervals[..i])
    {
      BumpCounts(tally, intervals[i]);
      assert intervals[..i + 1] == intervals[..i] + [intervals[i]];
      tally := Bump(tally, intervals[i]);
    }
    assert intervals[..|intervals|] == intervals;
    mode := 0;
    var modeCount := -1;
    ghost var at := 0;
    hide IsTallyOf;
    for i := 0 to |tally|
      invariant i > 0 ==> at < i && tally[at] == (mode, modeCount)
      invariant i == 0 ==> modeCount == -1
      invariant forall j :: 0 <= j < i ==> tally[j].1 <= modeCount && (tally[j].1 == modeCount ==> at <= j)
    {
      if tally[i].1 > modeCount {
        mode, modeCount, at := tally[i].0, tally[i].1, i;
      }
    }
    FirstMaximumIsMode(tally, intervals, at);
  }

  lemma FirstMaximumIsMode(tally: seq<(Int64, nat)>, s: seq<int>, at: nat)
    requires IsTallyOf(tally, s) && s != []
    requires tally != [] ==> at < |tally|
    requires forall j :: 0 <= j < |tally| ==> tally[j].1 <= tally[at].1 && (tally[j].1 == tally[at].1 ==> at <= j)
    ensures at < |tally| && IsMode(s, tally[at].0)
  {
    assert s[0] in Bag(s) && Count(s, s[0]) > 0;
    var first := KeyOf(tally, s[0]);
    var m: int := tally[at].0;
    TalliedAt(tally, at);
    assert Count(s, m) == tally[at].1 > 0;
    assert m in Bag(s);
    forall x: int | x in s ensures Count(s, x) < Count(s, m) || (Count(s, x) == Count(s, m) && m <= x) {
      assert x in Bag(s);
      var i := KeyOf(tally, x);
      TalliedAt(tally, i);
      assert Count(s, x) == tally[i].1;
      assert at < i ==> m < tally[i].0;
    }
  }

  /** How many intervals equal the mode, within the (zero) epsilon. */
  method CountMatching(intervals: seq<Int64>, mode: Int64) returns (r: Option<Int64>)
    requires |intervals| <= INT64_MAX && 0 <= mode
    requires forall k :: 0 <= k < |intervals| ==> 0 <= intervals[k]
    ensures r == Some(Count(intervals, mode))
  {
    var matching := 0;
    for i := 0 to |intervals|
      invariant matching == Count(intervals[..i], mode) <= i
    {
      assert intervals[..i + 1] == intervals[..i] + [intervals[i]];
      var delta := CheckedSub(intervals[i], mode);
      if delta == None {
        return None;
      }
      if delta.value < 0 {
        delta := CheckedNegate(delta.value);
        if delta == None {
          return None;
        }
      }
      if delta.value <= CADENCE_EPSILON_TICKS {
        matching := matching + 1;
      }
    }
    assert intervals[..|intervals|] == intervals;
    return Some(matching);
  }

  // ---------------------------------------------------------------------
  // When the grid arithmetic fits.
  // ---------------------------------------------------------------------

  /** When the widest bound fits, so does every test; the last test forms the
      widest bound. */
  lemma GridTestsFit(count: int, span: int, n: int, delta: int)
    requires 0 < count <= MAX_PACKETS_PER_STREAM && 0 <= n <= count && 0 <= delta <= span
    ensures 0 <= n * span
    ensures count * (2 * span + 3) <= INT64_MAX ==>
      FitsInt64(n * span) && GridTestFits(n * span, count, delta, GRID_TOLERANCE_TICKS)
    ensures GridTestFits(n * span, count, span, GRID_TOLERANCE_TICKS) ==> count * (2 * span + 3) <= INT64_MAX
  {
    Products.Monotone(n, 0, span);
    Products.Monotone(span, n, count);
    Products.Distribute(count, 2 * span, 3);
    Products.Associate(2, count, span);
    Products.Monotone(count, (delta - 1) * 2 - 1, (span + 1) * 2 + 1);
    Products.Monotone(count, -3, (delta - 1) * 2 - 1);
    Products.Monotone(count, (delta + 1) * 2 + 1, (span + 1) * 2 + 1);
    Products.Monotone(count, 0, (delta + 1) * 2 + 1);
    Products.Monotone(span, 1, count);
  }

  lemma SpanFits(t: seq<int>)
    requires |t| >= 2 && t[0] <= t[|t| - 1] && GridArithmeticFits(t)
    ensures FitsInt64(Span(t))
  {
    Products.Monotone(2 * Span(t) + 3, 1, |t| - 1);
  }

  method CountConforming(t: seq<Int64>, span: Int64) returns (r: Option<Int64>)
    requires 2 <= |t| <= MAX_PACKETS_PER_STREAM && Ascending(t) && span == Span(t)
    ensures r == if GridArithmeticFits(t) then Some(ConformingCount(t, |t|)) else None
  {
    var conforming := 0;
    var count := |t| - 1;
    assert t[0] <= t[|t| - 1];
    for n := 0 to |t|
      invariant conforming == ConformingCount(t, n)
      invariant n == |t| ==> GridArithmeticFits(t)
    {
      OneGridTest(t, n);
      hide Ascending, OnGrid, GridTestFits, GridArithmeticFits;
      var delta := CheckedSub(t[n], t[0]);
      if delta == None {
        return None;
      }
      var numerator := CheckedMul(n, span);
      if numerator == None {
        return None;
      }
      var onGrid := ConformsToGrid(numerator.value, count, delta.value, GRID_TOLERANCE_TICKS);
      if onGrid == None {
        return None;
      }
      if onGrid.value {
        conforming := conforming + 1;
      }
    }
    return Some(conforming);
  }

  /** What the arithmetic of test n says about the whole grid: within range when
      the widest test is, and the last test is the widest. */
  lemma OneGridTest(t: seq<int>, n: nat)
    requires 2 <= |t| <= MAX_PACKETS_PER_STREAM && Ascending(t) && n < |t| && FitsInt64(Span(t))
    ensures t[0] <= t[|t| - 1] && 0 <= t[n] - t[0] <= Span(t) && 0 <= n * Span(t)
    ensures GridArithmeticFits(t) ==>
      FitsInt64(n * Span(t)) && GridTestFits(n * Span(t), |t| - 1, t[n] - t[0], GRID_TOLERANCE_TICKS)
    ensures n == |t| - 1 && GridTestFits(n * Span(t), |t| - 1, t[n] - t[0], GRID_TOLERANCE_TICKS) ==> GridArithmeticFits(t)
    ensures OnGrid(t, n) <==> Abs(RoundHalfEven(n * Span(t), |t| - 1) - (t[n] - t[0])) <= GRID_TOLERANCE_TICKS
    ensures ConformingCount(t, n + 1) == ConformingCount(t, n) + if OnGrid(t, n) then 1 else 0
  {
    assert t[0] <= t[n] <= t[|t| - 1];
    hide Ascending, GridTestFits, RoundHalfEven;
    GridTestsFit(|t| - 1, Span(t), n, t[n] - t[0]);
  }

  /** derive_cadence. */
  method DeriveCadence(packets: seq<PacketRecord>, tb: Timebase) returns (c: Cadence)
    ensures IsCadenceOf(packets, tb, c)
  {
    c := Cadence(InsufficientData, Pts, Vfr, 0, tb, 0, 0, 0, 0, 0, 0, 0, 0);
    if |packets| > MAX_PACKETS_PER_STREAM {
      return;
    }
    if tb.num <= 0 || tb.den <= 0 {
      return;
    }
    var ptsUsable := CountUsable(packets, Pts, 2);
    var axis, usableOnAxis := Pts, ptsUsable;
    if ptsUsable < 2 {
      var dtsUsable := CountUsable(packets, Dts, 2);
      axis, usableOnAxis := Dts, dtsUsable;
      if dtsUsable == 0 && ptsUsable == 0 {
        c := c.(status := NoTimingData);
        return;
      }
    }
    c := c.(axis := axis);
    if usableOnAxis < 2 {
      return;
    }
    var view := SortedView(packets, axis);
    var t := At(packets, axis, view);
    SortedIsSorted(Usable(packets, axis));
    c := MeasureSorted(t, c);
  }

  /** The part after the sort. */
  method MeasureSorted(t: seq<Int64>, before: Cadence) returns (c: Cadence)
    requires 2 <= |t| <= MAX_PACKETS_PER_STREAM && Ascending(t) && before.status == InsufficientData
    ensures c.status != NoTimingData
    ensures c.status == Okay <==> GridArithmeticFits(t)
    ensures c.status == Okay ==> MeasuresTimestamps(t, before.axis, before.tb, c)
  {
    c := before;
    assert GridArithmeticFits(t) ==> FitsInt64(Span(t)) by {
      if GridArithmeticFits(t) {
        SpanFits(t);
      }
    }
    hide GridArithmeticFits, IsMode, ConformingCount, Ascending;
    var intervals := CheckedIntervals(t);
    if intervals == None {
      return;
    }
    IntervalsNonNegative(t);
    hide Intervals;
    var mode := SelectMode(intervals.value);
    ModeIsInterval(intervals.value, mode);
    var matching := CountMatching(intervals.value, mode);
    if matching == None {
      return;
    }
    var total := |intervals.value|;
    c := c.(modeInterval := mode, matchingIntervals := matching.value, totalIntervals := total);
    var span := CheckedSub(t[|t| - 1], t[0]);
    if span == None {
      return;
    }
    c := c.(span := span.value, intervalCount := total, idealNum := span.value, idealDen := total);
    var conforming := CountConforming(t, span.value);
    if conforming == None {
      return;
    }
    var lhs := CheckedMul(conforming.value, CFR_PROPORTION_DEN);
    var rhs := CheckedMul(|t|, CFR_PROPORTION_NUM);
    if lhs == None || rhs == None {
      return;
    }
    c := c.(status := Okay, conforming := conforming.value, considered := |t|,
            klass := if lhs.value >= rhs.value then Cfr else Vfr);
  }

  lemma IntervalsNonNegative(t: seq<int>)
    requires Ascending(t)
    ensures forall k :: 0 <= k < |Intervals(t)| ==> 0 <= Intervals(t)[k]
  {}

  lemma ModeIsInterval(s: seq<int>, mode: int)
    requires IsMode(s, mode) && forall k :: 0 <= k < |s| ==> 0 <= s[k]
    ensures 0 <= mode
  {}

  // ---------------------------------------------------------------------
  // Consequences of the contract.
  // ---------------------------------------------------------------------

  lemma {:induction false} UsableElements(packets: seq<PacketRecord>, axis: Axis, x: int)
    ensures Bag(Usable(packets, axis))[x]
         == if x == INT64_MIN then 0 else Occurrences(packets, axis, x)
  {
    if packets != [] {
      UsableElements(packets[..|packets| - 1], axis, x);
    }
  }

  function Occurrences(packets: seq<PacketRecord>, axis: Axis, x: int): nat {
    if packets == [] then 0
    else Occurrences(packets[..|packets| - 1], axis, x)
         + (if TimestampOn(packets[|packets| - 1], axis) == x then 1 else 0)
  }

  lemma {:induction false} OccurrencesIgnoreOrder(p: seq<PacketRecord>, q: seq<PacketRecord>, axis: Axis, x: int)
    requires multiset(p) == multiset(q)
    ensures Occurrences(p, axis, x) == Occurrences(q, axis, x)
    decreases |p|
  {
    SameLength(p, q);
    if |p| > 0 {
      var last := p[|p| - 1];
      assert last in multiset(p);
      assert last in multiset(q);
      var k :| 0 <= k < |q| && q[k] == last;
      var front, rest := p[..|p| - 1], q[..k] + q[k + 1..];
      WithoutElement(p, |p| - 1);
      WithoutElement(q, k);
      assert p[..|p| - 1] + p[|p|..] == front;
      OccurrencesIgnoreOrder(front, rest, axis, x);
      RemoveOccurrence(q, axis, x, k);
    }
  }

  lemma {:induction false} RemoveOccurrence(q: seq<PacketRecord>, axis: Axis, x: int, k: nat)
    requires k < |q|
    ensures Occurrences(q, axis, x)
         == Occurrences(q[..k] + q[k + 1..], axis, x) + (if TimestampOn(q[k], axis) == x then 1 else 0)
    decreases |q|
  {
    var front, rest := q[..|q| - 1], q[..k] + q[k + 1..];
    if k == |q| - 1 {
      assert rest == front;
    } else {
      RemoveOccurrence(front, axis, x, k);
      assert rest[..|rest| - 1] == front[..k] + front[k + 1..];
      assert rest[|rest| - 1] == q[|q| - 1];
    }
  }

  lemma UsableIgnoresOrder(p: seq<PacketRecord>, q: seq<PacketRecord>, axis: Axis)
    requires multiset(p) == multiset(q)
    ensures Bag(Usable(p, axis)) == Bag(Usable(q, axis))
    ensures |Usable(p, axis)| == |Usable(q, axis)|
    ensures Sorted(Usable(p, axis)) == Sorted(Usable(q, axis))
  {
    var u, v := Usable(p, axis), Usable(q, axis);
    forall x: int ensures Bag(u)[x] == Bag(v)[x] {
      UsableElements(p, axis, x);
      UsableElements(q, axis, x);
      OccurrencesIgnoreOrder(p, q, axis, x);
    }
    assert Bag(u) == Bag(v);
    SameLength<int>(u, v);
    SortedIsSorted(u);
    SortedIsSorted(v);
    AscendingIsUnique(Sorted(u), Sorted(v));
  }

  /** The contract leaves no freedom, and read order does not matter: the same
      packets in any order give the same status and the same measurement. */
  lemma ReadOrderIsIrrelevant(p: seq<PacketRecord>, q: seq<PacketRecord>, tb: Timebase, c: Cadence, d: Cadence)
    requires multiset(p) == multiset(q)
    requires IsCadenceOf(p, tb, c) && IsCadenceOf(q, tb, d)
    ensures c.status == d.status
    ensures c.status == Okay ==> c == d
  {
    SameLength(p, q);
    UsableIgnoresOrder(p, q, Pts);
    UsableIgnoresOrder(p, q, Dts);
    var t := Sorted(Usable(p, AxisOf(p)));
    SortedIsSorted(Usable(p, AxisOf(p)));
    assert AxisOf(p) == AxisOf(q) && Measurable(p, tb) == Measurable(q, tb);
    assert NoTimestampAtAll(p) == NoTimestampAtAll(q);
    hide Usable, Sorted, MeasuresTimestamps, GridArithmeticFits, AxisOf, Measurable, NoTimestampAtAll;
    if c.status == Okay {
      MeasurementIsUnique(t, AxisOf(p), tb, c, d);
    }
  }

  lemma MeasurementIsUnique(t: seq<int>, axis: Axis, tb: Timebase, c: Cadence, d: Cadence)
    requires |t| >= 2 && t[0] <= t[|t| - 1] && c.status == d.status
    requires MeasuresTimestamps(t, axis, tb, c) && MeasuresTimestamps(t, axis, tb, d)
    ensures c == d
  {
    ModeIsUnique(Intervals(t), c.modeInterval, d.modeInterval);
  }

  lemma ModeIsUnique(s: seq<int>, m: int, m': int)
    requires IsMode(s, m) && IsMode(s, m')
    ensures m == m'
  {}

  /** The first and the last timestamp always conform. */
  lemma EndsConform(t: seq<int>)
    requires |t| >= 2 && t[0] <= t[|t| - 1]
    ensures OnGrid(t, 0) && OnGrid(t, |t| - 1)
  {
    RoundWithinOne(0, |t| - 1, 0);
    Products.Monotone(|t| - 1, 0, Span(t));
    RoundWithinOne((|t| - 1) * Span(t), |t| - 1, Span(t));
  }

  // ---------------------------------------------------------------------
  // The measurement on the fields of the records.
  // ---------------------------------------------------------------------

  /** The numbers of the records whose pts is given. */
  ghost function WithPts(packets: seq<PacketRecord>): set<nat> {
    set k: nat | k < |packets| && packets[k].pts != INT64_MIN
  }

  ghost function WithDts(packets: seq<PacketRecord>): set<nat> {
    set k: nat | k < |packets| && packets[k].dts != INT64_MIN
  }

  ghost function OnAxis(packets: seq<PacketRecord>, axis: Axis): set<nat> {
    set k: nat | k < |packets| && TimestampOn(packets[k], axis) != INT64_MIN
  }

  lemma {:induction false} UsableCounts(packets: seq<PacketRecord>, axis: Axis)
    ensures |Usable(packets, axis)| == |OnAxis(packets, axis)|
  {
    if packets != [] {
      var n := |packets| - 1;
      UsableCounts(packets[..n], axis);
      assert OnAxis(packets, axis)
          == OnAxis(packets[..n], axis) + (if TimestampOn(packets[n], axis) != INT64_MIN then {n} else {});
    }
  }

  lemma AxisByFields(packets: seq<PacketRecord>)
    ensures |Usable(packets, Pts)| == |WithPts(packets)| && |Usable(packets, Dts)| == |WithDts(packets)|
    ensures AxisOf(packets) == if |WithPts(packets)| >= 2 then Pts else Dts
  {
    UsableCounts(packets, Pts);
    UsableCounts(packets, Dts);
    assert OnAxis(packets, Pts) == WithPts(packets) && OnAxis(packets, Dts) == WithDts(packets);
  }

  predicate Carried(packets: seq<PacketRecord>, axis: Axis, x: int) {
    exists k :: 0 <= k < |packets| && TimestampOn(packets[k], axis) == x
  }

  lemma CarriedSnoc(packets: seq<PacketRecord>, axis: Axis, x: int)
    requires packets != []
    ensures Carried(packets, axis, x)
       <==> Carried(packets[..|packets| - 1], axis, x) || TimestampOn(packets[|packets| - 1], axis) == x
  {
    var n := |packets| - 1;
    hide TimestampOn;
    if Carried(packets[..n], axis, x) {
      var k :| 0 <= k < n && TimestampOn(packets[..n][k], axis) == x;
      assert packets[k] == packets[..n][k];
    }
    if Carried(packets, axis, x) && TimestampOn(packets[n], axis) != x {
      var k :| 0 <= k <= n && TimestampOn(packets[k], axis) == x;
      assert packets[..n][k] == packets[k];
    }
  }

  lemma {:induction false} UsableIsFound(packets: seq<PacketRecord>, axis: Axis, x: int)
    ensures x in Usable(packets, axis) <==> x != INT64_MIN && Carried(packets, axis, x)
  {
    hide Carried, TimestampOn;
    if packets != [] {
      UsableIsFound(packets[..|packets| - 1], axis, x);
      CarriedSnoc(packets, axis, x);
    } else {
      NothingCarried(axis, x);
    }
  }

  lemma NothingCarried(axis: Axis, x: int)
    ensures !Carried([], axis, x)
  {}

  lemma SpanOnAxis(packets: seq<PacketRecord>, axis: Axis) returns (first: nat, last: nat)
    requires |Usable(packets, axis)| >= 2
    ensures first in OnAxis(packets, axis) && last in OnAxis(packets, axis)
    ensures Span(Sorted(Usable(packets, axis))) == TimestampOn(packets[last], axis) - TimestampOn(packets[first], axis)
    ensures forall k :: k in OnAxis(packets, axis) ==>
      TimestampOn(packets[first], axis) <= TimestampOn(packets[k], axis) <= TimestampOn(packets[last], axis)
  {
    var u := Usable(packets, axis);
    var t := Sorted(u);
    SortedIsSorted(u);
    hide Sorted, Usable;
    SameElements(t, u);
    UsableIsFound(packets, axis, t[0]);
    UsableIsFound(packets, axis, t[|t| - 1]);
    first :| 0 <= first < |packets| && TimestampOn(packets[first], axis) == t[0];
    last :| 0 <= last < |packets| && TimestampOn(packets[last], axis) == t[|t| - 1];
    forall k | k in OnAxis(packets, axis)
      ensures t[0] <= TimestampOn(packets[k], axis) <= t[|t| - 1]
    {
      UsableIsFound(packets, axis, TimestampOn(packets[k], axis));
      assert TimestampOn(packets[k], axis) in t;
    }
  }

  lemma SameElements(a: seq<int>, b: seq<int>)
    requires multiset(a) == multiset(b)
    ensures forall x :: x in a <==> x in b
  {
    forall x ensures x in a <==> x in b {
      assert x in a <==> x in multiset(a);
      assert x in b <==> x in multiset(b);
    }
  }

  /** The measurement is one of the pts fields when two records have one: the
      span is the difference of the extreme ones, and all are considered. */
  lemma PtsAreMeasured(packets: seq<PacketRecord>, tb: Timebase, c: Cadence) returns (first: nat, last: nat)
    requires IsCadenceOf(packets, tb, c) && c.status == Okay && |WithPts(packets)| >= 2
    ensures c.axis == Pts && c.considered == |WithPts(packets)|
    ensures first in WithPts(packets) && last in WithPts(packets)
    ensures c.span == packets[last].pts - packets[first].pts
    ensures forall k :: k in WithPts(packets) ==> packets[first].pts <= packets[k].pts <= packets[last].pts
  {
    AxisByFields(packets);
    first, last := SpanOnAxis(packets, Pts);
    assert OnAxis(packets, Pts) == WithPts(packets);
  }

  /** With fewer than two pts it is one of the dts fields. */
  lemma DtsAreMeasured(packets: seq<PacketRecord>, tb: Timebase, c: Cadence) returns (first: nat, last: nat)
    requires IsCadenceOf(packets, tb, c) && c.status == Okay && |WithPts(packets)| < 2
    ensures c.axis == Dts && c.considered == |WithDts(packets)| >= 2
    ensures first in WithDts(packets) && last in WithDts(packets)
    ensures c.span == packets[last].dts - packets[first].dts
    ensures forall k :: k in WithDts(packets) ==> packets[first].dts <= packets[k].dts <= packets[last].dts
  {
    AxisByFields(packets);
    first, last := SpanOnAxis(packets, Dts);
    assert OnAxis(packets, Dts) == WithDts(packets);
  }

  /** Which status the derivation reports, on the fields: no timing data when no
      record carries any timestamp, and a measurement only with two on an axis. */
  lemma StatusByFields(packets: seq<PacketRecord>, tb: Timebase, c: Cadence)
    requires IsCadenceOf(packets, tb, c)
    ensures c.status == NoTimingData
       <==> |packets| <= 5_000_000 && tb.num > 0 && tb.den > 0 && WithPts(packets) == WithDts(packets) == {}
    ensures c.status == Okay ==>
      |packets| <= 5_000_000 && tb.num > 0 && tb.den > 0 && (|WithPts(packets)| >= 2 || |WithDts(packets)| >= 2)
  {
    AxisByFields(packets);
    assert |WithPts(packets)| == 0 <==> WithPts(packets) == {};
    assert |WithDts(packets)| == 0 <==> WithDts(packets) == {};
  }

  lemma {:induction false} SameTimestampsSameUsable(p: seq<PacketRecord>, q: seq<PacketRecord>, axis: Axis)
    requires |p| == |q| && forall k :: 0 <= k < |p| ==> TimestampOn(p[k], axis) == TimestampOn(q[k], axis)
    ensures Usable(p, axis) == Usable(q, axis)
  {
    if p != [] {
      SameTimestampsSameUsable(p[..|p| - 1], q[..|q| - 1], axis);
    }
  }

  /** The dts fields change nothing when two records have a pts: whatever they
      are, the status is the same and so is the measurement. */
  lemma DtsAreIrrelevant(p: seq<PacketRecord>, q: seq<PacketRecord>, tb: Timebase, c: Cadence, d: Cadence)
    requires |p| == |q| && |WithPts(p)| >= 2
    requires forall k :: 0 <= k < |p| ==> p[k].pts == q[k].pts
    requires IsCadenceOf(p, tb, c) && IsCadenceOf(q, tb, d)
    ensures c.status == d.status
    ensures c.status == Okay ==> c == d
  {
    AxisByFields(p);
    assert WithPts(p) == WithPts(q);
    AxisByFields(q);
    assert forall k :: 0 <= k < |p| ==> TimestampOn(p[k], Pts) == TimestampOn(q[k], Pts);
    SameTimestampsSameUsable(p, q, Pts);
    SameUsableSameCadence(p, q, Pts, tb, c, d);
  }

  /** The pts fields change nothing but the count of those given when fewer
      than two records have one. */
  lemma PtsAreIrrelevant(p: seq<PacketRecord>, q: seq<PacketRecord>, tb: Timebase, c: Cadence, d: Cadence)
    requires |p| == |q| && |WithPts(p)| < 2 && |WithPts(q)| < 2
    requires forall k :: 0 <= k < |p| ==> p[k].dts == q[k].dts
    requires IsCadenceOf(p, tb, c) && IsCadenceOf(q, tb, d)
    ensures c.status == Okay <==> d.status == Okay
    ensures c.status == Okay ==> c == d
  {
    AxisByFields(p);
    AxisByFields(q);
    assert forall k :: 0 <= k < |p| ==> TimestampOn(p[k], Dts) == TimestampOn(q[k], Dts);
    SameTimestampsSameUsable(p, q, Dts);
    SameUsableSameCadence(p, q, Dts, tb, c, d);
  }

  lemma SameUsableSameCadence(p: seq<PacketRecord>, q: seq<PacketRecord>, axis: Axis, tb: Timebase, c: Cadence, d: Cadence)
    requires |p| == |q| && AxisOf(p) == AxisOf(q) == axis && Usable(p, axis) == Usable(q, axis)
    requires IsCadenceOf(p, tb, c) && IsCadenceOf(q, tb, d)
    ensures c.status == Okay <==> d.status == Okay
    ensures c.status == Okay ==> c == d
  {
    hide *;
    CadenceMeans(p, tb, c);
    CadenceMeans(q, tb, d);
    SameSizeSameMeasurable(p, q, tb);
    if c.status == Okay {
      MeasurementIsUnique(Sorted(Usable(p, axis)), axis, tb, c, d);
    }
  }

  lemma CadenceMeans(p: seq<PacketRecord>, tb: Timebase, c: Cadence)
    requires IsCadenceOf(p, tb, c)
    ensures var t := Sorted(Usable(p, AxisOf(p)));
      && (|t| >= 2 ==> t[0] <= t[|t| - 1])
      && (c.status == Okay <==> Measurable(p, tb) && |t| >= 2 && GridArithmeticFits(t))
      && (c.status == Okay ==> MeasuresTimestamps(t, AxisOf(p), tb, c))
  {
    SortedIsSorted(Usable(p, AxisOf(p)));
    hide Usable, Sorted, MeasuresTimestamps, GridArithmeticFits, AxisOf, Measurable, NoTimestampAtAll;
  }

  lemma SameSizeSameMeasurable(p: seq<PacketRecord>, q: seq<PacketRecord>, tb: Timebase)
    requires |p| == |q|
    ensures Measurable(p, tb) <==> Measurable(q, tb)
  {}

  // ---------------------------------------------------------------------
  // Constant-rate timelines.
  // ---------------------------------------------------------------------

  /** A quantiser to whole ticks: monotone, with all errors in one interval of
      width one. */
  ghost predicate IsQuantiser(q: real -> int, lo: real) {
    && (forall x: real, y: real :: x <= y ==> q(x) <= q(y))
    && (forall x: real :: lo <= q(x) as real - x <= lo + 1.0)
  }

  lemma FloorCeilingNearestQuantise()
    ensures IsQuantiser((x: real) => x.Floor, -1.0)
    ensures IsQuantiser((x: real) => -((-x).Floor), 0.0)
    ensures IsQuantiser((x: real) => (x + 0.5).Floor, -0.5)
  {}

  /** Timestamp n of a timeline that starts at a and advances by p. */
  function Tick(q: real -> int, a: real, p: real, n: nat): int {
    q(a + n as real * p)
  }

  function Timeline(q: real -> int, a: real, p: real, count: nat): (t: seq<int>)
    ensures |t| == count
    ensures forall n :: 0 <= n < count ==> t[n] == Tick(q, a, p, n)
  {
    seq(count, n requires 0 <= n < count => Tick(q, a, p, n))
  }

  lemma TickAscends(q: real -> int, lo: real, a: real, p: real, i: nat, j: nat)
    requires IsQuantiser(q, lo) && p >= 0.0 && i <= j
    ensures Tick(q, a, p, i) <= Tick(q, a, p, j)
  {
    RealMonotone(p, i as real, j as real);
  }

  lemma RealMonotone(k: real, x: real, y: real)
    requires k >= 0.0 && x <= y
    ensures k * x <= k * y
  {}

  lemma TimelineAscends(q: real -> int, lo: real, a: real, p: real, count: nat)
    requires IsQuantiser(q, lo) && p >= 0.0
    ensures Ascending(Timeline(q, a, p, count))
  {
    var t := Timeline(q, a, p, count);
    forall i, j | 0 <= i < j < count ensures t[i] <= t[j] {
      hide Tick, IsQuantiser;
      TickAscends(q, lo, a, p, i, j);
    }
  }

  /** Scaled by the interval count, the deviation of timestamp n from the ideal
      grid is a combination of three quantisation errors, hence at most one
      tick. */
  lemma DeviationAtMostOne(q: real -> int, lo: real, a: real, p: real, count: nat, n: nat)
    requires IsQuantiser(q, lo) && count >= 2 && n < count
    ensures var t := Timeline(q, a, p, count);
      -(count - 1) <= (count - 1) * (t[n] - t[0]) - n * Span(t) <= count - 1
  {
    var t := Timeline(q, a, p, count);
    var last := count - 1;
    var e0 := TickError(q, lo, a, p, 0);
    var en := TickError(q, lo, a, p, n);
    var el := TickError(q, lo, a, p, last);
    hide IsQuantiser, Timeline;
    Deviation(t[0], t[n], t[last], a, p, n, last, e0, en, el, lo);
  }

  lemma TickError(q: real -> int, lo: real, a: real, p: real, n: nat) returns (e: real)
    requires IsQuantiser(q, lo)
    ensures Tick(q, a, p, n) as real == a + n as real * p + e && lo <= e <= lo + 1.0
  {
    e := Tick(q, a, p, n) as real - (a + n as real * p);
  }

  lemma Deviation(t0: int, tn: int, tl: int, a: real, p: real, n: int, last: int, e0: real, en: real, el: real, lo: real)
    requires 0 <= n <= last
    requires t0 as real == a + 0.0 * p + e0 && tn as real == a + n as real * p + en
    requires tl as real == a + last as real * p + el
    requires lo <= e0 <= lo + 1.0 && lo <= en <= lo + 1.0 && lo <= el <= lo + 1.0
    ensures -last <= last * (tn - t0) - n * (tl - t0) <= last
  {
    var nr, lr := n as real, last as real;
    var d := lr * en - (lr - nr) * e0 - nr * el;
    assert lr * (nr * p + en - e0) - nr * (lr * p + el - e0) == d;
    assert (last * (tn - t0)) as real == lr * (tn - t0) as real;
    assert (n * (tl - t0)) as real == nr * (tl - t0) as real;
    assert (last * (tn - t0) - n * (tl - t0)) as real == d;
    CombinationAtMostOne(nr, lr, e0, en, el, lo);
  }

  lemma PartOf(k: real, f: real) returns (part: real)
    requires k >= 0.0 && 0.0 <= f <= 1.0
    ensures part == k * f && 0.0 <= part && part <= k
  {
    part := k * f;
    assert k * (1.0 - f) >= 0.0;
    assert k * (1.0 - f) == k - part;
    RealMonotone(k, 0.0, f);
  }

  lemma CombinationAtMostOne(nr: real, lr: real, e0: real, en: real, el: real, lo: real)
    requires 0.0 <= nr <= lr
    requires lo <= e0 <= lo + 1.0 && lo <= en <= lo + 1.0 && lo <= el <= lo + 1.0
    ensures -lr <= lr * en - (lr - nr) * e0 - nr * el <= lr
  {
    var k := lr - nr;
    var x := PartOf(lr, en - lo);
    var y := PartOf(k, e0 - lo);
    var z := PartOf(nr, el - lo);
    assert 0.0 - lr <= x - y - z <= lr;
    assert x - y - z == lr * en - k * e0 - nr * el;
  }

  lemma {:induction false} AllConform(t: seq<int>, k: nat)
    requires |t| >= 2 && k <= |t| && t[0] <= t[|t| - 1]
    requires forall n :: 0 <= n < k ==> OnGrid(t, n)
    ensures ConformingCount(t, k) == k
  {
    if k > 0 {
      AllConform(t, k - 1);
    }
  }

  /** Any constant-rate timeline, quantised to ticks and read in any order, is
      classified as constant frame rate with every timestamp conforming,
      whenever the derivation yields a measurement at all. */
  lemma ConstantRateIsCfr(packets: seq<PacketRecord>, tb: Timebase, c: Cadence,
                          q: real -> int, lo: real, a: real, p: real, count: nat)
    requires IsQuantiser(q, lo) && p >= 0.0
    requires Bag(Usable(packets, AxisOf(packets))) == Bag(Timeline(q, a, p, count))
    requires IsCadenceOf(packets, tb, c) && c.status == Okay
    ensures c.klass == Cfr && c.conforming == c.considered == count
  {
    var u, t := Usable(packets, AxisOf(packets)), Timeline(q, a, p, count);
    hide Usable, AxisOf, GridArithmeticFits, IsMode, Intervals, Timeline, IsQuantiser, Ascending, OnGrid, Measurable, NoTimestampAtAll;
    SortedIsSorted(u);
    TimelineAscends(q, lo, a, p, count);
    AscendingIsUnique(Sorted(u), t);
    EndsInOrder(t);
    ConstantRateOnGrid(q, lo, a, p, count);
    AllConform(t, count);
  }

  lemma EndsInOrder(t: seq<int>)
    requires Ascending(t)
    ensures t != [] ==> t[0] <= t[|t| - 1]
  {}

  lemma ConstantRateOnGrid(q: real -> int, lo: real, a: real, p: real, count: nat)
    requires IsQuantiser(q, lo) && p >= 0.0 && count >= 2
    ensures var t := Timeline(q, a, p, count);
      t[0] <= t[count - 1] && forall n :: 0 <= n < count ==> OnGrid(t, n)
  {
    var t := Timeline(q, a, p, count);
    TimelineAscends(q, lo, a, p, count);
    assert t[0] <= t[count - 1];
    hide Timeline, IsQuantiser, Ascending;
    forall n | 0 <= n < count ensures OnGrid(t, n) {
      DeviationAtMostOne(q, lo, a, p, count, n);
      Products.Monotone(n, 0, Span(t));
      RoundWithinOne(n * Span(t), count - 1, t[n] - t[0]);
    }
  }

  /** The measurement exists exactly for at most five million packets, a
      positive timebase, and a span that keeps the widest grid bound in range. */
  lemma ConstantRateIsMeasured(packets: seq<PacketRecord>, tb: Timebase, c: Cadence,
                               q: real -> int, lo: real, a: real, p: real, count: nat)
    requires IsQuantiser(q, lo) && p >= 0.0 && count >= 2
    requires Bag(Usable(packets, AxisOf(packets))) == Bag(Timeline(q, a, p, count))
    requires IsCadenceOf(packets, tb, c)
    ensures c.status == Okay <==> Measurable(packets, tb) && GridArithmeticFits(Timeline(q, a, p, count))
  {
    var u := Usable(packets, AxisOf(packets));
    hide Usable, AxisOf, MeasuresTimestamps, NoTimestampAtAll, Sorted, GridArithmeticFits, Timeline, Measurable;
    SortedIsSorted(u);
    TimelineAscends(q, lo, a, p, count);
    hide IsQuantiser, Ascending;
    AscendingIsUnique(Sorted(u), Timeline(q, a, p, count));
  }
}

/** Integer sequences in ascending order. */
module SortedSequences {
  predicate Ascending(s: seq<int>) {
    forall i, j :: 0 <= i < j < |s| ==> s[i] <= s[j]
  }

  /** The elements of s with their multiplicities. */
  function Bag(s: seq<int>): multiset<int> {
    multiset(s)
  }

  function Count(s: seq<int>, x: int): nat {
    Bag(s)[x]
  }

  /** x placed after every element not above it. */
  function Insert(s: seq<int>, x: int): (r: seq<int>)
    ensures |r| == |s| + 1
  {
    if s != [] && s[|s| - 1] > x then Insert(s[..|s| - 1], x) + [s[|s| - 1]] else s + [x]
  }

  function Sorted(s: seq<int>): (r: seq<int>)
    ensures |r| == |s|
  {
    if s == [] then [] else Insert(Sorted(s[..|s| - 1]), s[|s| - 1])
  }

  lemma SortedNext(s: seq<int>, k: nat)
    requires k < |s|
    ensures Sorted(s[..k + 1]) == Insert(Sorted(s[..k]), s[k])
  {
    assert s[..k + 1][..k] == s[..k];
  }

  lemma {:induction false} InsertAt(s: seq<int>, x: int, k: nat)
    requires k <= |s| && (k > 0 ==> s[k - 1] <= x)
    requires forall j :: k <= j < |s| ==> s[j] > x
    ensures Insert(s, x) == s[..k] + [x] + s[k..]
  {
    if k < |s| {
      var front := s[..|s| - 1];
      InsertAt(front, x, k);
      assert front[..k] == s[..k] && front[k..] + [s[|s| - 1]] == s[k..];
    } else {
      assert s[..k] == s && s[k..] == [];
    }
  }

  lemma {:induction false} InsertKeepsElements(s: seq<int>, x: int)
    ensures multiset(Insert(s, x)) == multiset(s) + multiset{x}
  {
    if s != [] && s[|s| - 1] > x {
      InsertKeepsElements(s[..|s| - 1], x);
      assert s == s[..|s| - 1] + [s[|s| - 1]];
    }
  }

  lemma {:induction false} InsertKeepsBound(s: seq<int>, x: int, bound: int)
    requires x <= bound && forall i :: 0 <= i < |s| ==> s[i] <= bound
    ensures forall i :: 0 <= i < |Insert(s, x)| ==> Insert(s, x)[i] <= bound
  {
    if s != [] && s[|s| - 1] > x {
      InsertKeepsBound(s[..|s| - 1], x, bound);
    }
  }

  lemma {:induction false} InsertKeepsOrder(s: seq<int>, x: int)
    requires Ascending(s)
    ensures Ascending(Insert(s, x))
  {
    if s != [] && s[|s| - 1] > x {
      InsertKeepsOrder(s[..|s| - 1], x);
      InsertKeepsBound(s[..|s| - 1], x, s[|s| - 1]);
    }
  }

  lemma {:induction false} SortedIsSorted(s: seq<int>)
    ensures Ascending(Sorted(s)) && multiset(Sorted(s)) == multiset(s)
  {
    if s != [] {
      SortedIsSorted(s[..|s| - 1]);
      InsertKeepsOrder(Sorted(s[..|s| - 1]), s[|s| - 1]);
      InsertKeepsElements(Sorted(s[..|s| - 1]), s[|s| - 1]);
      assert s == s[..|s| - 1] + [s[|s| - 1]];
    }
  }

  lemma SameLength<T>(a: seq<T>, b: seq<T>)
    requires multiset(a) == multiset(b)
    ensures |a| == |b|
  {
    assert |a| == |multiset(a)| == |multiset(b)| == |b|;
  }

  lemma WithoutElement<T>(s: seq<T>, k: nat)
    requires k < |s|
    ensures multiset(s[..k] + s[k + 1..]) == multiset(s) - multiset{s[k]}
  {
    assert s == s[..k] + [s[k]] + s[k + 1..];
  }

  lemma LastIsGreatest(s: seq<int>, x: int)
    requires Ascending(s) && x in multiset(s)
    ensures s != [] && x <= s[|s| - 1]
  {
    var i :| 0 <= i < |s| && s[i] == x;
  }

  lemma WithoutLast(s: seq<int>)
    requires Ascending(s) && s != []
    ensures Ascending(s[..|s| - 1]) && multiset(s[..|s| - 1]) == multiset(s) - multiset{s[|s| - 1]}
    ensures s == s[..|s| - 1] + [s[|s| - 1]]
  {
    assert s == s[..|s| - 1] + [s[|s| - 1]];
  }

  lemma SameLast(a: seq<int>, b: seq<int>)
    requires Ascending(a) && Ascending(b) && multiset(a) == multiset(b) && a != [] && b != []
    ensures a[|a| - 1] == b[|b| - 1]
  {
    assert a[|a| - 1] in multiset(a) && b[|b| - 1] in multiset(b);
    LastIsGreatest(b, a[|a| - 1]);
    LastIsGreatest(a, b[|b| - 1]);
  }

  /** An ascending sequence is determined by its elements. */
  lemma {:induction false} AscendingIsUnique(a: seq<int>, b: seq<int>)
    requires Ascending(a) && Ascending(b) && multiset(a) == multiset(b)
    ensures a == b
    decreases |a|
  {
    hide Ascending;
    SameLength(a, b);
    if |a| > 0 {
      SameLast(a, b);
      WithoutLast(a);
      WithoutLast(b);
      AscendingIsUnique(a[..|a| - 1], b[..|b| - 1]);
    }
  }
}

/** Division rounded half to even. */
module Rounding {
  import opened Products

  function RoundHalfEven(num: nat, den: int): (r: int)
    requires den > 0
  {
    var q, rest := num / den, num % den;
    if 2 * rest < den || (2 * rest == den && q % 2 == 0) then q else q + 1
  }

  /** The rounded value is at least k exactly when the value is above k - 1/2,
      or meets it with k even. */
  lemma RoundAtLeast(num: nat, den: int, k: int)
    requires den > 0
    ensures RoundHalfEven(num, den) >= k <==>
      2 * num > den * (k * 2 - 1) || (2 * num == den * (k * 2 - 1) && k % 2 == 0)
  {
    var q, rest := num / den, num % den;
    var d := k - q;
    assert num == den * q + rest;
    assert den * (k * 2 - 1) == 2 * (den * q) + den * (2 * d - 1) by {
      Distribute(den, 2 * q, 2 * d - 1);
      Associate(2, q, den);
    }
    if d <= 0 {
      Monotone(den, 2 * d - 1, -1);
    } else if d == 1 {
      assert den * (2 * d - 1) == den;
    } else {
      Monotone(den, 3, 2 * d - 1);
    }
  }

  lemma RoundAtMost(num: nat, den: int, k: int)
    requires den > 0
    ensures RoundHalfEven(num, den) <= k <==>
      2 * num < den * (k * 2 + 1) || (2 * num == den * (k * 2 + 1) && k % 2 == 0)
  {
    RoundAtLeast(num, den, k + 1);
    assert (k + 1) * 2 - 1 == k * 2 + 1;
  }

  /** Being within one of the rounded quotient is a comparison of products; at
      the two ends the even neighbour decides. */
  lemma WithinOneIff(num: nat, den: int, k: int)
    requires den > 0
    ensures -1 <= RoundHalfEven(num, den) - k <= 1 <==>
      && (den * (2 * k - 3) < 2 * num || (den * (2 * k - 3) == 2 * num && k % 2 == 1))
      && (2 * num < den * (2 * k + 3) || (2 * num == den * (2 * k + 3) && k % 2 == 1))
  {
    RoundAtLeast(num, den, k - 1);
    RoundAtMost(num, den, k + 1);
    assert (k - 1) * 2 - 1 == 2 * k - 3 && (k + 1) * 2 + 1 == 2 * k + 3;
    hide RoundHalfEven;
  }

  /** A value within one of an integer rounds to within one of it. */
  lemma RoundWithinOne(num: nat, den: int, k: int)
    requires den > 0 && -den <= den * k - num <= den
    ensures -1 <= RoundHalfEven(num, den) - k <= 1
  {
    RoundAtLeast(num, den, k - 1);
    RoundAtMost(num, den, k + 1);
    Distribute(den, (k - 1) * 2, -1);
    Distribute(den, (k + 1) * 2, 1);
    Distribute(den, 2 * k, 2);
    DistributeMinus(den, 2 * k, 2);
    Associate(2, den, k);
    Associate(2, k, den);
  }
}
