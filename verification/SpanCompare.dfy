/** Points in time as ticks of a timebase, and their overflow-checked order. */
module TickOrders {
  import opened MachineInts
  import opened Options
  import Products

  datatype TimeBase = TimeBase(num: Int64, den: Int64)

  /** A rational value as its ticks; its own denominator plays no part. */
  datatype Time = Time(num: Int64, tb: TimeBase)

  /** The seconds a point in time stands for. */
  ghost function Seconds(t: Time): real
    requires t.tb.den > 0
  {
    var ticks: int := t.num * t.tb.num;
    (ticks as real) / (t.tb.den as real)
  }

  /** One side of the cross-multiplication, when every product fits. */
  function Scaled(t: Time, den: Int64): (r: Option<Int64>)
    ensures r.Some? <==> FitsInt64(t.num * t.tb.num) && FitsInt64(t.num * t.tb.num * den)
    ensures r.Some? ==> r.value == t.num * t.tb.num * den
  {
    var first := CheckedMul(t.num, t.tb.num);
    if first.None? then None else CheckedMul(first.value, den)
  }

  function CompareTicksChecked(a: Time, b: Time): (r: Option<int>)
    ensures r.Some? <==> Scaled(a, b.tb.den).Some? && Scaled(b, a.tb.den).Some?
    ensures r.Some? ==> r.value == Sign(a.num * a.tb.num * b.tb.den - b.num * b.tb.num * a.tb.den)
  {
    var lhs, rhs := Scaled(a, b.tb.den), Scaled(b, a.tb.den);
    if lhs.None? || rhs.None? then None
    else if lhs.value < rhs.value then Some(-1)
    else if lhs.value > rhs.value then Some(1)
    else Some(0)
  }

  /** A comparison that does not overflow orders the seconds. */
  lemma ComparisonOrdersSeconds(a: Time, b: Time)
    requires a.tb.den > 0 && b.tb.den > 0 && CompareTicksChecked(a, b).Some?
    ensures CompareTicksChecked(a, b).value < 0 <==> Seconds(a) < Seconds(b)
    ensures CompareTicksChecked(a, b).value == 0 <==> Seconds(a) == Seconds(b)
  {
    var p: int, q: int := a.num * a.tb.num, b.num * b.tb.num;
    hide CompareTicksChecked;
    RealQuotientOrder(p, a.tb.den, q, b.tb.den);
  }

  lemma RealQuotientOrder(p: int, d: int, q: int, e: int)
    requires d > 0 && e > 0
    ensures p * e < q * d <==> (p as real) / (d as real) < (q as real) / (e as real)
    ensures p * e == q * d <==> (p as real) / (d as real) == (q as real) / (e as real)
  {
    var x, y := (p as real) / (d as real), (q as real) / (e as real);
    var D, E := d as real, e as real;
    assert x * D == p as real && y * E == q as real;
    assert (p * e) as real == (p as real) * E == x * D * E == x * (D * E);
    assert (q * d) as real == (q as real) * D == y * E * D == y * (D * E);
    var s := D * E;
    assert s > 0.0;
    RealScale(x, y, s);
  }

  lemma RealScale(x: real, y: real, s: real)
    requires s > 0.0
    ensures x < y <==> x * s < y * s
    ensures x == y <==> x * s == y * s
  {
    if x < y {
      assert (y - x) * s > 0.0;
    } else if x > y {
      assert (x - y) * s > 0.0;
    }
  }

  /** Comparable over its own timebase. */
  predicate Representable(t: Time) {
    t.tb.num > 0 && t.tb.den > 0 && Scaled(t, t.tb.den).Some?
  }

  /** Over one positive timebase the order is the order of the ticks. */
  lemma SameTimebaseOrder(a: Time, b: Time)
    requires a.tb == b.tb && Representable(a) && Representable(b)
    ensures CompareTicksChecked(a, b) == Some(Sign(a.num - b.num))
  {
    var n: int, d: int := a.tb.num, a.tb.den;
    var s := n * d;
    Products.Associate(a.num, n, d);
    Products.Associate(b.num, n, d);
    Products.Monotone(n, 1, d);
    if a.num < b.num {
      Products.Monotone(s, a.num + 1, b.num);
      Products.Distribute(s, a.num, 1);
    } else {
      Products.Monotone(s, b.num, a.num);
      if a.num > b.num {
        Products.Monotone(s, b.num + 1, a.num);
        Products.Distribute(s, b.num, 1);
      }
    }
  }
}

/** Integer intervals: coverage, gaps of one, and the canonical form. */
module IntervalAlgebra {
  datatype Interval = Interval(start: int, end: int)

  predicate Covers(xs: seq<Interval>, k: int) {
    exists i :: 0 <= i < |xs| && xs[i].start <= k < xs[i].end
  }

  /** Covered, or a gap of a single tick between covered ticks. */
  predicate Fills(xs: seq<Interval>, k: int) {
    Covers(xs, k) || (Covers(xs, k - 1) && Covers(xs, k + 1))
  }

  predicate AllNonempty(xs: seq<Interval>) {
    forall i :: 0 <= i < |xs| ==> xs[i].start < xs[i].end
  }

  predicate SortedByStart(xs: seq<Interval>) {
    forall i, j :: 0 <= i < j < |xs| ==> xs[i].start <= xs[j].start
  }

  /** Nonempty, in order, more than one tick apart. */
  predicate Canonical(xs: seq<Interval>) {
    AllNonempty(xs) && forall i, j :: 0 <= i < j < |xs| ==> xs[i].end + 1 < xs[j].start
  }

  /** The same ticks. */
  ghost predicate SameCoverage(a: seq<Interval>, b: seq<Interval>) {
    forall k :: Covers(a, k) <==> Covers(b, k)
  }

  /** A canonical list is determined by what it covers. */
  lemma {:induction false} CanonicalIsUnique(a: seq<Interval>, b: seq<Interval>)
    requires Canonical(a) && Canonical(b) && SameCoverage(a, b)
    ensures a == b
  {
    NonemptyCovers(a);
    NonemptyCovers(b);
    if a != [] {
      FirstAgree(a, b);
      TailCoverage(a);
      TailCoverage(b);
      CanonicalIsUnique(a[1..], b[1..]);
      assert a == [a[0]] + a[1..] && b == [b[0]] + b[1..];
    }
  }

  lemma NonemptyCovers(a: seq<Interval>)
    requires Canonical(a)
    ensures a != [] <==> exists k :: Covers(a, k)
  {
    assert a != [] ==> Covers(a, a[0].start);
  }

  lemma FirstAgree(a: seq<Interval>, b: seq<Interval>)
    requires Canonical(a) && Canonical(b) && SameCoverage(a, b) && a != [] && b != []
    ensures a[0] == b[0]
  {
    FirstCovered(a);
    FirstCovered(b);
    hide Covers, Canonical;
    assert Covers(b, a[0].start) && Covers(a, b[0].start);
    assert a[0].start == b[0].start;
    assert !Covers(b, a[0].end) && !Covers(a, b[0].end);
  }

  /** The first interval covers exactly the first run. */
  lemma FirstCovered(a: seq<Interval>)
    requires Canonical(a) && a != []
    ensures forall k :: k < a[0].start ==> !Covers(a, k)
    ensures forall k :: a[0].start <= k < a[0].end ==> Covers(a, k)
    ensures !Covers(a, a[0].end) && a[0].start < a[0].end
  {
    assert forall i :: 1 <= i < |a| ==> a[0].end + 1 < a[i].start;
  }

  lemma TailCoverage(a: seq<Interval>)
    requires Canonical(a) && a != []
    ensures Canonical(a[1..])
    ensures forall k :: Covers(a[1..], k) <==> Covers(a, k) && k >= a[0].end
  {
    forall k ensures Covers(a[1..], k) <==> Covers(a, k) && k >= a[0].end {
      if Covers(a[1..], k) {
        var i :| 0 <= i < |a| - 1 && a[1..][i].start <= k < a[1..][i].end;
        assert a[i + 1].start <= k < a[i + 1].end && a[0].end + 1 < a[i + 1].start;
      }
      if Covers(a, k) && k >= a[0].end {
        var i :| 0 <= i < |a| && a[i].start <= k < a[i].end;
        assert a[1..][i - 1].start <= k < a[1..][i - 1].end;
      }
    }
  }

  /** A canonical list has no gap of one tick to fill. */
  lemma CanonicalIsFilled(a: seq<Interval>)
    requires Canonical(a)
    ensures forall k :: Fills(a, k) <==> Covers(a, k)
  {
    forall k | Covers(a, k - 1) && Covers(a, k + 1) ensures Covers(a, k) {
      var i :| 0 <= i < |a| && a[i].start <= k - 1 < a[i].end;
      var j :| 0 <= j < |a| && a[j].start <= k + 1 < a[j].end;
      assert i == j;
    }
  }

  /** Reordering a list does not change what it covers. */
  lemma ReorderedCoverage(a: seq<Interval>, b: seq<Interval>)
    requires multiset(a) == multiset(b)
    ensures forall k :: Covers(a, k) <==> Covers(b, k)
    ensures forall k :: Fills(a, k) <==> Fills(b, k)
  {
    ReorderedOneWay(a, b);
    ReorderedOneWay(b, a);
  }

  lemma ReorderedOneWay(a: seq<Interval>, b: seq<Interval>)
    requires multiset(a) == multiset(b)
    ensures forall k :: Covers(a, k) ==> Covers(b, k)
  {
    forall k | Covers(a, k) ensures Covers(b, k) {
      var i :| 0 <= i < |a| && a[i].start <= k < a[i].end;
      assert a[i] in multiset(a);
      assert a[i] in b;
    }
  }

  // ---------------------------------------------------------------------
  // Merging a sorted list.
  // ---------------------------------------------------------------------

  /** One more interval: absorbed by the last one when it starts at most one
      tick after it, appended otherwise. */
  function Absorb(merged: seq<Interval>, x: Interval): seq<Interval> {
    if merged == [] then [x]
    else
      var last := merged[|merged| - 1];
      if x.start <= last.end + 1 then
        if last.end < x.end then merged[|merged| - 1 := last.(end := x.end)] else merged
      else merged + [x]
  }

  function MergeSorted(xs: seq<Interval>): seq<Interval> {
    if xs == [] then [] else Absorb(MergeSorted(xs[..|xs| - 1]), xs[|xs| - 1])
  }

  /** The merged form of the intervals seen so far. */
  ghost predicate Merges(xs: seq<Interval>, m: seq<Interval>) {
    && Canonical(m) && (forall k :: Covers(m, k) <==> Fills(xs, k))
    && (m == [] <==> xs == [])
    && (m != [] ==>
          var last := m[|m| - 1];
          && (exists i :: 0 <= i < |xs| && xs[i].start == last.start)
          && (exists i :: 0 <= i < |xs| && xs[i].end == last.end)
          && (forall i :: 0 <= i < |xs| ==> xs[i].end <= last.end))
  }

  lemma CoversSnoc(xs: seq<Interval>, x: Interval)
    ensures forall k :: Covers(xs + [x], k) <==> Covers(xs, k) || x.start <= k < x.end
  {
    forall k ensures Covers(xs + [x], k) <==> Covers(xs, k) || x.start <= k < x.end {
      if Covers(xs, k) {
        var i :| 0 <= i < |xs| && xs[i].start <= k < xs[i].end;
        assert (xs + [x])[i] == xs[i];
      }
      assert (xs + [x])[|xs|] == x;
    }
  }

  /** Merging a sorted list of nonempty intervals gives the canonical list that
      covers its ticks and its single-tick gaps. */
  lemma {:induction false} MergeSortedIsCanonical(xs: seq<Interval>)
    requires AllNonempty(xs) && SortedByStart(xs)
    ensures Merges(xs, MergeSorted(xs))
  {
    if xs != [] {
      var front, x := xs[..|xs| - 1], xs[|xs| - 1];
      MergeSortedIsCanonical(front);
      assert xs == front + [x];
      assert forall i :: 0 <= i < |front| ==> front[i].start <= x.start;
      hide MergeSorted, Merges;
      AbsorbMerges(front, MergeSorted(front), x);
      MergeSortedLast(xs);
    }
  }

  lemma MergeSortedLast(xs: seq<Interval>)
    requires xs != []
    ensures MergeSorted(xs) == Absorb(MergeSorted(xs[..|xs| - 1]), xs[|xs| - 1])
  {}

  lemma AbsorbMerges(xs: seq<Interval>, m: seq<Interval>, x: Interval)
    requires Merges(xs, m) && x.start < x.end && forall i :: 0 <= i < |xs| ==> xs[i].start <= x.start && xs[i].start < xs[i].end
    ensures Merges(xs + [x], Absorb(m, x))
  {
    CoversSnoc(xs, x);
    var ys := xs + [x];
    assert ys[|xs|] == x && forall i :: 0 <= i < |xs| ==> ys[i] == xs[i];
    if m == [] {
      assert forall k :: !Covers(xs, k);
      assert forall k :: Covers([x], k) <==> x.start <= k < x.end by {
        assert [x][0] == x;
      }
    } else {
      LastBounds(xs, m, x);
      var last := m[|m| - 1];
      if x.start <= last.end + 1 {
        if last.end < x.end {
          Extends(xs, m, x);
        } else {
          Contained(xs, m, x);
        }
      } else {
        Appended(xs, m, x);
      }
    }
  }

  /** Where the last interval stands relative to what was seen and to the next
      interval. */
  lemma LastBounds(xs: seq<Interval>, m: seq<Interval>, x: Interval)
    requires Merges(xs, m) && m != [] && forall i :: 0 <= i < |xs| ==> xs[i].start <= x.start && xs[i].start < xs[i].end
    ensures var last := m[|m| - 1];
      && last.start <= x.start && last.start < last.end
      && Covers(xs, last.start) && Covers(xs, last.end - 1) && (forall k :: k >= last.end ==> !Covers(xs, k))
      && (forall k :: last.start <= k < last.end ==> Fills(xs, k))
  {
    var last := m[|m| - 1];
    var i :| 0 <= i < |xs| && xs[i].end == last.end;
    assert xs[i].start <= last.end - 1 < xs[i].end;
    var j :| 0 <= j < |xs| && xs[j].start == last.start;
    assert xs[j].start <= last.start < xs[j].end;
    forall k | last.start <= k < last.end ensures Fills(xs, k) {
      assert Covers(m, k);
    }
  }

  lemma CoversReplaced(m: seq<Interval>, y: Interval)
    requires m != [] && y.start == m[|m| - 1].start && y.end >= m[|m| - 1].end
    ensures var r := m[|m| - 1 := y];
      forall k :: Covers(r, k) <==> Covers(m, k) || (m[|m| - 1].end <= k < y.end && y.start <= k)
  {
    var n := |m| - 1;
    var r := m[n := y];
    assert m == m[..n] + [m[n]] && r == m[..n] + [y];
    CoversSnoc(m[..n], m[n]);
    CoversSnoc(m[..n], y);
  }

  lemma Extends(xs: seq<Interval>, m: seq<Interval>, x: Interval)
    requires Merges(xs, m) && m != [] && x.start < x.end && forall i :: 0 <= i < |xs| ==> xs[i].start <= x.start && xs[i].start < xs[i].end
    requires x.start <= m[|m| - 1].end + 1 && m[|m| - 1].end < x.end
    ensures Merges(xs + [x], Absorb(m, x))
  {
    var n := |m| - 1;
    var last := m[n];
    var r := m[n := last.(end := x.end)];
    var ys := xs + [x];
    CoversSnoc(xs, x);
    LastBounds(xs, m, x);
    CoversReplaced(m, last.(end := x.end));
    assert ys[|xs|] == x && forall i :: 0 <= i < |xs| ==> ys[i] == xs[i];
    assert Canonical(r);
    hide Covers;
    forall k ensures Covers(r, k) <==> Fills(ys, k) {
      assert Covers(m, k) <==> Fills(xs, k);
      assert Covers(m, last.end - 1) && Covers(xs, last.end - 1);
    }
  }

  lemma Contained(xs: seq<Interval>, m: seq<Interval>, x: Interval)
    requires Merges(xs, m) && m != [] && x.start < x.end && forall i :: 0 <= i < |xs| ==> xs[i].start <= x.start && xs[i].start < xs[i].end
    requires m[|m| - 1].end >= x.end
    ensures Merges(xs + [x], Absorb(m, x))
  {
    var ys := xs + [x];
    CoversSnoc(xs, x);
    LastBounds(xs, m, x);
    assert ys[|xs|] == x && forall i :: 0 <= i < |xs| ==> ys[i] == xs[i];
  }

  lemma Appended(xs: seq<Interval>, m: seq<Interval>, x: Interval)
    requires Merges(xs, m) && m != [] && x.start < x.end && forall i :: 0 <= i < |xs| ==> xs[i].start <= x.start && xs[i].start < xs[i].end
    requires x.start > m[|m| - 1].end + 1
    ensures Merges(xs + [x], Absorb(m, x))
  {
    var ys := xs + [x];
    CoversSnoc(xs, x);
    CoversSnoc(m, x);
    LastBounds(xs, m, x);
    assert ys[|xs|] == x && forall i :: 0 <= i < |xs| ==> ys[i] == xs[i];
  }

  // ---------------------------------------------------------------------
  // Intervals of no length: the ticks from start to end, both included.
  // ---------------------------------------------------------------------

  predicate AllOrdered(xs: seq<Interval>) {
    forall i :: 0 <= i < |xs| ==> xs[i].start <= xs[i].end
  }

  predicate Apart(m: seq<Interval>) {
    forall i, j :: 0 <= i < j < |m| ==> m[i].end + 1 < m[j].start
  }

  predicate Holds(xs: seq<Interval>, k: int) {
    exists i :: 0 <= i < |xs| && xs[i].start <= k <= xs[i].end
  }

  lemma ReorderedHolds(a: seq<Interval>, b: seq<Interval>)
    requires multiset(a) == multiset(b)
    ensures forall k :: Holds(a, k) ==> Holds(b, k)
  {
    forall k | Holds(a, k) ensures Holds(b, k) {
      var i :| 0 <= i < |a| && a[i].start <= k <= a[i].end;
      assert a[i] in multiset(a);
      assert a[i] in b;
    }
  }

  /** Merging a sorted list gives the maximal runs of the ticks it holds. */
  lemma {:induction false} MergedRuns(xs: seq<Interval>)
    requires AllOrdered(xs) && SortedByStart(xs)
    ensures AllOrdered(MergeSorted(xs)) && Apart(MergeSorted(xs))
    ensures forall k :: Holds(MergeSorted(xs), k) <==> Holds(xs, k)
    ensures MergeSorted(xs) != [] ==> exists i :: 0 <= i < |xs| && xs[i].start == MergeSorted(xs)[|MergeSorted(xs)| - 1].start
  {
    if xs != [] {
      var front, x := xs[..|xs| - 1], xs[|xs| - 1];
      MergedRuns(front);
      var m := MergeSorted(front);
      assert xs == front + [x] && MergeSorted(xs) == Absorb(m, x);
      assert m != [] ==> m[|m| - 1].start <= x.start;
      HoldsSnoc(front, x);
      hide MergeSorted, Holds;
      AbsorbRuns(m, x);
    }
  }

  lemma HoldsSnoc(xs: seq<Interval>, x: Interval)
    ensures forall k :: Holds(xs + [x], k) <==> Holds(xs, k) || x.start <= k <= x.end
  {
    forall k ensures Holds(xs + [x], k) <==> Holds(xs, k) || x.start <= k <= x.end {
      if Holds(xs, k) {
        var i :| 0 <= i < |xs| && xs[i].start <= k <= xs[i].end;
        assert (xs + [x])[i] == xs[i];
      }
      assert (xs + [x])[|xs|] == x;
    }
  }

  lemma AbsorbRuns(m: seq<Interval>, x: Interval)
    requires AllOrdered(m) && Apart(m) && x.start <= x.end && (m != [] ==> m[|m| - 1].start <= x.start)
    ensures var r := Absorb(m, x);
      && AllOrdered(r) && Apart(r) && (forall k :: Holds(r, k) <==> Holds(m, k) || x.start <= k <= x.end)
      && r != [] && (r[|r| - 1].start == x.start || (m != [] && r[|r| - 1].start == m[|m| - 1].start))
  {
    HoldsSnoc(m, x);
    if m != [] {
      var front, last := m[..|m| - 1], m[|m| - 1];
      assert m == front + [last];
      HoldsSnoc(front, last);
      HoldsSnoc(front, last.(end := x.end));
      assert m[|m| - 1 := last.(end := x.end)] == front + [last.(end := x.end)];
      hide Holds;
    } else {
      assert m + [x] == [x];
    }
  }

  /** What stands on both sides of a run is not held. */
  lemma RunEnds(m: seq<Interval>, i: nat)
    requires AllOrdered(m) && Apart(m) && i < |m|
    ensures forall k :: m[i].start <= k <= m[i].end ==> Holds(m, k)
    ensures !Holds(m, m[i].start - 1) && !Holds(m, m[i].end + 1)
  {}

  lemma LoneTickIsPoint(m: seq<Interval>, p: int)
    requires AllOrdered(m) && Holds(m, p) && !Holds(m, p - 1) && !Holds(m, p + 1)
    ensures exists i :: 0 <= i < |m| && m[i] == Interval(p, p)
  {
    var i :| 0 <= i < |m| && m[i].start <= p <= m[i].end;
    assert m[i] == Interval(p, p);
  }

  /** Runs that are apart are determined by the ticks they hold. */
  lemma {:induction false} RunsAreUnique(a: seq<Interval>, b: seq<Interval>)
    requires AllOrdered(a) && Apart(a) && AllOrdered(b) && Apart(b)
    requires forall k :: Holds(a, k) <==> Holds(b, k)
    ensures a == b
  {
    NonemptyHolds(a);
    NonemptyHolds(b);
    if a != [] {
      FirstRunsAgree(a, b);
      TailHolds(a);
      TailHolds(b);
      RunsAreUnique(a[1..], b[1..]);
      assert a == [a[0]] + a[1..] && b == [b[0]] + b[1..];
    }
  }

  lemma NonemptyHolds(a: seq<Interval>)
    requires AllOrdered(a)
    ensures a != [] <==> exists k :: Holds(a, k)
  {
    assert a != [] ==> Holds(a, a[0].start);
  }

  lemma FirstRunsAgree(a: seq<Interval>, b: seq<Interval>)
    requires AllOrdered(a) && Apart(a) && AllOrdered(b) && Apart(b) && a != [] && b != []
    requires forall k :: Holds(a, k) <==> Holds(b, k)
    ensures a[0] == b[0]
  {
    RunEnds(a, 0);
    RunEnds(b, 0);
    FirstHeld(a);
    FirstHeld(b);
    hide Holds;
    assert Holds(b, a[0].start) && Holds(a, b[0].start) by {
      assert Holds(a, a[0].start) && Holds(b, b[0].start);
    }
    assert a[0].start == b[0].start;
    assert !Holds(b, a[0].end + 1) && !Holds(a, b[0].end + 1);
  }

  lemma FirstHeld(a: seq<Interval>)
    requires AllOrdered(a) && Apart(a) && a != []
    ensures forall k :: k < a[0].start ==> !Holds(a, k)
  {}

  lemma TailHolds(a: seq<Interval>)
    requires AllOrdered(a) && Apart(a) && a != []
    ensures AllOrdered(a[1..]) && Apart(a[1..])
    ensures forall k :: Holds(a[1..], k) <==> Holds(a, k) && k > a[0].end
  {
    forall k ensures Holds(a[1..], k) <==> Holds(a, k) && k > a[0].end {
      if Holds(a[1..], k) {
        var i :| 0 <= i < |a| - 1 && a[1..][i].start <= k <= a[1..][i].end;
        assert a[i + 1].start <= k <= a[i + 1].end && a[0].end + 1 < a[i + 1].start;
      }
      if Holds(a, k) && k > a[0].end {
        var i :| 0 <= i < |a| && a[i].start <= k <= a[i].end;
        assert a[1..][i - 1].start <= k <= a[1..][i - 1].end;
      }
    }
  }
}

/** The span comparator: merging, overlap and the verdict. */
module SpanComparison {
  import opened MachineInts
  import opened Options
  import opened TickOrders
  import opened IntervalAlgebra
  import SortedSequences
  import CompareTolerance

  type Severity = CompareTolerance.Severity
  type Status = CompareTolerance.Status

  datatype Span = Span(start: Time, end: Time)

  function IntervalsOf(spans: seq<Span>): (r: seq<Interval>)
    ensures |r| == |spans|
  {
    seq(|spans|, i requires 0 <= i < |spans| => Interval(spans[i].start.num, spans[i].end.num))
  }

  predicate SpanOn(s: Span, tb: TimeBase) {
    s.start.tb == tb && s.end.tb == tb && Representable(s.start) && Representable(s.end) && s.end.num < INT64_MAX
  }

  /** One positive timebase, and no arithmetic that overflows. */
  predicate Uniform(spans: seq<Span>, tb: TimeBase) {
    forall s :: s in spans ==> SpanOn(s, tb)
  }

  // ---------------------------------------------------------------------
  // Comparisons that remember an overflow.
  // ---------------------------------------------------------------------

  function TicksLess(a: Time, b: Time): (bool, bool) {
    var c := CompareTicksChecked(a, b);
    if c.None? then (false, true) else (c.value < 0, false)
  }

  function TicksLessEqual(a: Time, b: Time): (bool, bool) {
    var c := CompareTicksChecked(a, b);
    if c.None? then (false, true) else (c.value <= 0, false)
  }

  lemma UniformLess(a: Time, b: Time)
    requires a.tb == b.tb && Representable(a) && Representable(b)
    ensures TicksLess(a, b) == (a.num < b.num, false)
  {
    SameTimebaseOrder(a, b);
  }

  /** Sorts by start; the flag is raised when a comparison overflows. */
  method SortByStart(spans: seq<Span>, overflowed: bool, ghost tb: TimeBase) returns (sorted: seq<Span>, flag: bool)
    ensures SameIntervals(sorted, spans) && (overflowed ==> flag)
    ensures Uniform(spans, tb) ==> flag == overflowed && Uniform(sorted, tb) && SortedByStart(IntervalsOf(sorted))
  {
    assert SameIntervals([], []) by {
      assert IntervalsOf([]) == IntervalsOf([]);
    }
    hide SpanOn, Representable, TicksLess, SameIntervals;
    sorted, flag := [], overflowed;
    for i := 0 to |spans|
      invariant SameIntervals(sorted, spans[..i]) && (overflowed ==> flag)
      invariant Uniform(spans, tb) ==> flag == overflowed && Uniform(sorted, tb) && SortedByStart(IntervalsOf(sorted))
    {
      assert spans[..i + 1] == spans[..i] + [spans[i]] && spans[i] in spans;
      SameAndOne(sorted, spans[..i], spans[i]);
      sorted, flag := InsertByStart(sorted, spans[i], flag, tb);
    }
    assert spans[..|spans|] == spans;
  }

  method InsertByStart(sorted: seq<Span>, s: Span, overflowed: bool, ghost tb: TimeBase) returns (r: seq<Span>, flag: bool)
    ensures forall other :: SameIntervals(sorted + [s], other) ==> SameIntervals(r, other)
    ensures overflowed ==> flag
    ensures Uniform(sorted, tb) && SpanOn(s, tb) && SortedByStart(IntervalsOf(sorted)) ==>
      flag == overflowed && Uniform(r, tb) && SortedByStart(IntervalsOf(r))
  {
    flag := overflowed;
    var k := |sorted|;
    while k > 0
      invariant 0 <= k <= |sorted| && (overflowed ==> flag)
      invariant Uniform(sorted, tb) && SpanOn(s, tb) ==> flag == overflowed
      invariant Uniform(sorted, tb) && SpanOn(s, tb) ==> forall j :: k <= j < |sorted| ==> s.start.num < sorted[j].start.num
    {
      var less := TicksLess(s.start, sorted[k - 1].start);
      if Uniform(sorted, tb) && SpanOn(s, tb) {
        assert sorted[k - 1] in sorted;
        UniformLess(s.start, sorted[k - 1].start);
      }
      flag := flag || less.1;
      if !less.0 {
        break;
      }
      k := k - 1;
    }
    r := sorted[..k] + [s] + sorted[k..];
    InsertedKeeps(sorted, s, k);
    if Uniform(sorted, tb) && SpanOn(s, tb) && SortedByStart(IntervalsOf(sorted)) {
      InsertedIsSorted(sorted, s, k, tb);
    }
  }

  /** The same intervals, as often as each other. */
  ghost predicate SameIntervals(a: seq<Span>, b: seq<Span>) {
    multiset(IntervalsOf(a)) == multiset(IntervalsOf(b))
  }

  lemma SameAndOne(a: seq<Span>, b: seq<Span>, s: Span)
    requires SameIntervals(a, b)
    ensures SameIntervals(a + [s], b + [s])
  {
    IntervalsSplit(a, [s]);
    IntervalsSplit(b, [s]);
  }

  lemma IntervalsSplit(a: seq<Span>, b: seq<Span>)
    ensures IntervalsOf(a + b) == IntervalsOf(a) + IntervalsOf(b)
  {}

  lemma InsertedKeeps(sorted: seq<Span>, s: Span, k: nat)
    requires k <= |sorted|
    ensures SameIntervals(sorted[..k] + [s] + sorted[k..], sorted + [s])
    ensures forall other :: SameIntervals(sorted + [s], other) ==> SameIntervals(sorted[..k] + [s] + sorted[k..], other)
  {
    var front, back := sorted[..k], sorted[k..];
    assert sorted == front + back;
    IntervalsSplit(front + [s], back);
    IntervalsSplit(front, [s]);
    IntervalsSplit(front, back);
    IntervalsSplit(sorted, [s]);
    hide IntervalsOf;
  }

  lemma InsertedIsSorted(sorted: seq<Span>, s: Span, k: nat, tb: TimeBase)
    requires k <= |sorted| && Uniform(sorted, tb) && SpanOn(s, tb) && SortedByStart(IntervalsOf(sorted))
    requires forall j :: k <= j < |sorted| ==> s.start.num < sorted[j].start.num
    requires k > 0 ==> sorted[k - 1].start.num <= s.start.num
    ensures var r := sorted[..k] + [s] + sorted[k..]; Uniform(r, tb) && SortedByStart(IntervalsOf(r))
  {
    hide SpanOn;
    var front, back, x := sorted[..k], sorted[k..], Interval(s.start.num, s.end.num);
    var xs := IntervalsOf(sorted);
    assert forall i :: 0 <= i < |sorted| ==> xs[i].start == sorted[i].start.num;
    assert Uniform(front + [s] + back, tb);
    assert IntervalsOf(front + [s] + back) == xs[..k] + [x] + xs[k..];
    hide IntervalsOf, Uniform;
    SortedInsert(xs, x, k);
  }

  lemma SortedInsert(xs: seq<Interval>, x: Interval, k: nat)
    requires k <= |xs| && SortedByStart(xs)
    requires (k < |xs| ==> x.start <= xs[k].start) && (k > 0 ==> xs[k - 1].start <= x.start)
    ensures SortedByStart(xs[..k] + [x] + xs[k..])
  {
    var r := xs[..k] + [x] + xs[k..];
    assert forall i :: 0 <= i < k ==> r[i] == xs[i] && xs[i].start <= x.start;
    assert forall i :: k < i < |r| ==> r[i] == xs[i - 1] && x.start <= xs[i - 1].start;
  }

  /** Merges spans at most one tick apart, whatever their order. */
  method MergeSpans(spans: seq<Span>, overflowed: bool, ghost tb: TimeBase)
    returns (merged: seq<Span>, flag: bool, ghost sorted: seq<Span>)
    ensures overflowed ==> flag
    ensures SameIntervals(sorted, spans)
    ensures Uniform(spans, tb) ==>
      && flag == overflowed && Uniform(merged, tb) && SortedByStart(IntervalsOf(sorted))
      && IntervalsOf(merged) == MergeSorted(IntervalsOf(sorted))
  {
    var inOrder: seq<Span>;
    inOrder, flag := SortByStart(spans, overflowed, tb);
    sorted := inOrder;
    merged := [];
    hide SpanOn, Representable, TicksLess, SameIntervals;
    for i := 0 to |inOrder|
      invariant overflowed ==> flag
      invariant Uniform(spans, tb) ==>
        flag == overflowed && Uniform(merged, tb) && IntervalsOf(merged) == MergeSorted(IntervalsOf(inOrder[..i]))
    {
      MergePrefix(inOrder, i);
      assert inOrder[i] in inOrder;
      merged, flag := MergeOne(merged, inOrder[i], flag, tb);
    }
    assert inOrder[..|inOrder|] == inOrder;
  }

  lemma MergePrefix(spans: seq<Span>, i: nat)
    requires i < |spans|
    ensures MergeSorted(IntervalsOf(spans[..i + 1]))
         == Absorb(MergeSorted(IntervalsOf(spans[..i])), Interval(spans[i].start.num, spans[i].end.num))
  {
    var xs := IntervalsOf(spans[..i + 1]);
    assert xs[..|xs| - 1] == IntervalsOf(spans[..i]) && xs[|xs| - 1] == Interval(spans[i].start.num, spans[i].end.num);
    hide Absorb;
  }

  /** One more span in start order. */
  method MergeOne(merged: seq<Span>, span: Span, overflowed: bool, ghost tb: TimeBase) returns (r: seq<Span>, flag: bool)
    ensures overflowed ==> flag
    ensures Uniform(merged, tb) && SpanOn(span, tb) ==>
      && flag == overflowed && Uniform(r, tb)
      && IntervalsOf(r) == Absorb(IntervalsOf(merged), Interval(span.start.num, span.end.num))
  {
    ghost var uniform := Uniform(merged, tb) && SpanOn(span, tb);
    flag := overflowed;
    r := merged;
    if merged != [] {
      var n := |merged| - 1;
      var last := merged[n];
      assert last in merged;
      var adjacentOrOverlapping := false;
      if last.end.tb == span.start.tb {
        var threshold := CheckedAdd(last.end.num, 1);
        if threshold.None? {
          flag := true;
        } else {
          adjacentOrOverlapping := span.start.num <= threshold.value;
        }
      } else {
        var atMost := TicksLessEqual(span.start, last.end);
        flag := flag || atMost.1;
        adjacentOrOverlapping := atMost.0;
      }
      assert uniform ==> flag == overflowed && adjacentOrOverlapping == (span.start.num <= last.end.num + 1);
      if adjacentOrOverlapping {
        if uniform {
          UniformLess(last.end, span.end);
        }
        hide *;
        var shorter := TicksLess(last.end, span.end);
        flag := flag || shorter.1;
        if shorter.0 {
          r := merged[n := last.(end := span.end)];
        }
        if uniform {
          AbsorbedSpan(merged, span, r, tb);
        }
        return;
      }
    }
    hide *;
    r := merged + [span];
    AppendedSpan(merged, span, tb);
  }

  lemma AbsorbedSpan(merged: seq<Span>, span: Span, r: seq<Span>, tb: TimeBase)
    requires merged != []
    requires r == if merged[|merged| - 1].end.num < span.end.num then merged[|merged| - 1 := merged[|merged| - 1].(end := span.end)] else merged
    ensures Uniform(merged, tb) && SpanOn(span, tb) && span.start.num <= merged[|merged| - 1].end.num + 1 ==>
      Uniform(r, tb) && IntervalsOf(r) == Absorb(IntervalsOf(merged), Interval(span.start.num, span.end.num))
  {
    var n := |merged| - 1;
    assert merged[n] in merged;
    assert forall s :: s in r ==> s in merged || s == merged[n].(end := span.end);
    assert IntervalsOf(merged)[n] == Interval(merged[n].start.num, merged[n].end.num);
    assert merged[n].end.num < span.end.num ==>
      IntervalsOf(r) == IntervalsOf(merged)[n := Interval(merged[n].start.num, span.end.num)];
  }

  lemma AppendedSpan(merged: seq<Span>, span: Span, tb: TimeBase)
    requires merged == [] || span.start.num > merged[|merged| - 1].end.num + 1 || !(Uniform(merged, tb) && SpanOn(span, tb))
    ensures Uniform(merged, tb) && SpanOn(span, tb) ==>
      Uniform(merged + [span], tb)
      && IntervalsOf(merged + [span]) == Absorb(IntervalsOf(merged), Interval(span.start.num, span.end.num))
  {
    assert IntervalsOf(merged + [span]) == IntervalsOf(merged) + [Interval(span.start.num, span.end.num)];
  }

  // ---------------------------------------------------------------------
  // The verdict.
  // ---------------------------------------------------------------------

  predicate Overlap(a: Interval, b: Interval) {
    a.start < b.end && b.start < a.end
  }

  predicate OverlapsAny(x: Interval, others: seq<Interval>) {
    exists i :: 0 <= i < |others| && Overlap(x, others[i])
  }

  /** How many intervals overlap none of the others. */
  function Unmatched(xs: seq<Interval>, others: seq<Interval>): (n: nat)
    ensures n <= |xs|
  {
    if xs == [] then 0
    else Unmatched(xs[..|xs| - 1], others) + if OverlapsAny(xs[|xs| - 1], others) then 0 else 1
  }

  datatype Finding = Finding(status: Status, introduced: nat, removed: nat)

  /** The verdict on two merged lists: introduced intervals gate, removed ones
      are informative. */
  function Verdict(severity: Severity, baseline: seq<Interval>, candidate: seq<Interval>): Finding {
    var introduced, removed := Unmatched(candidate, baseline), Unmatched(baseline, candidate);
    Finding(if introduced == 0 && removed == 0 then CompareTolerance.Pass
            else if introduced > 0 then CompareTolerance.Escalate(severity)
            else CompareTolerance.Info,
            introduced, removed)
  }

  /** m is the merged form of the intervals in some start order. */
  ghost predicate IsMergeOf(m: seq<Interval>, xs: seq<Interval>) {
    exists ys :: multiset(ys) == multiset(xs) && SortedByStart(ys) && m == MergeSorted(ys)
  }

  method Overlaps(a: Span, b: Span, overflowed: bool, ghost tb: TimeBase) returns (r: bool, flag: bool)
    ensures overflowed ==> flag
    ensures SpanOn(a, tb) && SpanOn(b, tb) ==>
      flag == overflowed && r == Overlap(Interval(a.start.num, a.end.num), Interval(b.start.num, b.end.num))
  {
    if SpanOn(a, tb) && SpanOn(b, tb) {
      UniformLess(a.start, b.end);
      UniformLess(b.start, a.end);
    }
    hide TicksLess, Representable;
    flag := overflowed;
    var first := TicksLess(a.start, b.end);
    flag := flag || first.1;
    if !first.0 {
      return false, flag;
    }
    var second := TicksLess(b.start, a.end);
    flag := flag || second.1;
    r := second.0;
  }

  method SpanOverlapsAny(s: Span, others: seq<Span>, overflowed: bool, ghost tb: TimeBase) returns (r: bool, flag: bool)
    ensures overflowed ==> flag
    ensures SpanOn(s, tb) && Uniform(others, tb) ==>
      flag == overflowed && r == OverlapsAny(Interval(s.start.num, s.end.num), IntervalsOf(others))
  {
    hide SpanOn, Overlap;
    flag := overflowed;
    ghost var x := Interval(s.start.num, s.end.num);
    for i := 0 to |others|
      invariant overflowed ==> flag
      invariant SpanOn(s, tb) && Uniform(others, tb) ==>
        flag == overflowed && forall j :: 0 <= j < i ==> !Overlap(x, IntervalsOf(others)[j])
    {
      assert others[i] in others;
      r, flag := Overlaps(s, others[i], flag, tb);
      assert SpanOn(s, tb) && Uniform(others, tb) ==> r == Overlap(x, IntervalsOf(others)[i]);
      if r {
        return;
      }
    }
    r := false;
  }

  /** The spans of the list that overlap none of the others, counted. */
  method CountUnmatched(spans: seq<Span>, others: seq<Span>, overflowed: bool, ghost tb: TimeBase) returns (n: nat, flag: bool)
    ensures overflowed ==> flag
    ensures Uniform(spans, tb) && Uniform(others, tb) ==>
      flag == overflowed && n == Unmatched(IntervalsOf(spans), IntervalsOf(others))
  {
    hide SpanOn, OverlapsAny;
    n, flag := 0, overflowed;
    for i := 0 to |spans|
      invariant overflowed ==> flag
      invariant Uniform(spans, tb) && Uniform(others, tb) ==>
        flag == overflowed && n == Unmatched(IntervalsOf(spans[..i]), IntervalsOf(others))
    {
      assert spans[i] in spans;
      ghost var xs := IntervalsOf(spans[..i + 1]);
      assert xs[..i] == IntervalsOf(spans[..i]) && xs[i] == Interval(spans[i].start.num, spans[i].end.num);
      var matched: bool;
      matched, flag := SpanOverlapsAny(spans[i], others, flag, tb);
      if !matched {
        n := n + 1;
      }
    }
    assert spans[..|spans|] == spans;
  }

  /** Compares two span lists. Whatever the input, a comparison that overflowed
      gives an error and no verdict. */
  method CompareSpan(severity: Severity, baseline: seq<Span>, candidate: seq<Span>, ghost tb: TimeBase)
    returns (finding: Finding, overflowed: bool, ghost b: seq<Interval>, ghost c: seq<Interval>)
    ensures overflowed ==> finding.status == CompareTolerance.Error
    ensures Uniform(baseline, tb) && Uniform(candidate, tb) ==>
      && !overflowed && finding == Verdict(severity, b, c)
      && IsMergeOf(b, IntervalsOf(baseline)) && IsMergeOf(c, IntervalsOf(candidate))
    ensures Uniform(baseline, tb) && AllOrdered(IntervalsOf(baseline)) && multiset(candidate) == multiset(baseline) ==>
      (finding.status == CompareTolerance.Pass <==> NoLonePoint(IntervalsOf(baseline)))
  {
    if multiset(candidate) == multiset(baseline) {
      ReorderedUniform(baseline, candidate, tb);
    }
    hide SpanOn, Unmatched, MergeSorted;
    overflowed := false;
    var baselineMerged, candidateMerged: seq<Span>;
    ghost var sortedB: seq<Span>;
    ghost var sortedC: seq<Span>;
    baselineMerged, overflowed, sortedB := MergeSpans(baseline, overflowed, tb);
    candidateMerged, overflowed, sortedC := MergeSpans(candidate, overflowed, tb);
    b, c := IntervalsOf(baselineMerged), IntervalsOf(candidateMerged);
    if Uniform(baseline, tb) && Uniform(candidate, tb) {
      MergeIsOfIntervals(b, baseline, sortedB);
      MergeIsOfIntervals(c, candidate, sortedC);
    }
    hide IsMergeOf;
    var introduced, removed: nat;
    introduced, overflowed := CountUnmatched(candidateMerged, baselineMerged, overflowed, tb);
    removed, overflowed := CountUnmatched(baselineMerged, candidateMerged, overflowed, tb);
    if overflowed {
      return Finding(CompareTolerance.Error, introduced, removed), overflowed, b, c;
    }
    var status := CompareTolerance.Info;
    if introduced == 0 && removed == 0 {
      status := CompareTolerance.Pass;
    } else if introduced > 0 {
      status := CompareTolerance.Escalate(severity);
    }
    finding := Finding(status, introduced, removed);
    if Uniform(baseline, tb) && AllOrdered(IntervalsOf(baseline)) && multiset(candidate) == multiset(baseline) {
      ReorderedComparisonPassesIff(severity, IntervalsOf(baseline), IntervalsOf(candidate), b, c);
    }
  }

  /** Reordering spans reorders their intervals. */
  lemma ReorderedUniform(a: seq<Span>, b: seq<Span>, tb: TimeBase)
    requires multiset(a) == multiset(b)
    ensures Uniform(a, tb) ==> Uniform(b, tb)
    ensures multiset(IntervalsOf(a)) == multiset(IntervalsOf(b))
  {
    hide SpanOn;
    forall s | s in b ensures s in a {
      assert s in multiset(b);
    }
    ReorderedIntervals(a, b);
  }

  lemma {:induction false} ReorderedIntervals(a: seq<Span>, b: seq<Span>)
    requires multiset(a) == multiset(b)
    ensures multiset(IntervalsOf(a)) == multiset(IntervalsOf(b))
    decreases |a|
  {
    assert |a| == |multiset(a)| && |multiset(b)| == |b|;
    if a != [] {
      var n, last := |a| - 1, a[|a| - 1];
      assert last in multiset(a);
      var k :| 0 <= k < |b| && b[k] == last;
      SortedSequences.WithoutElement(a, n);
      SortedSequences.WithoutElement(b, k);
      hide IntervalsOf;
      ReorderedIntervals(a[..n] + a[n + 1..], b[..k] + b[k + 1..]);
      IntervalsWithout(a, n);
      IntervalsWithout(b, k);
    }
  }

  lemma IntervalsWithout(b: seq<Span>, k: nat)
    requires k < |b|
    ensures multiset(IntervalsOf(b)) ==
      multiset(IntervalsOf(b[..k] + b[k + 1..])) + multiset{Interval(b[k].start.num, b[k].end.num)}
  {
    var xs := IntervalsOf(b);
    assert IntervalsOf(b[..k] + b[k + 1..]) == xs[..k] + xs[k + 1..];
    SortedSequences.WithoutElement(xs, k);
  }

  lemma MergeIsOfIntervals(m: seq<Interval>, spans: seq<Span>, sorted: seq<Span>)
    requires multiset(IntervalsOf(sorted)) == multiset(IntervalsOf(spans))
    requires SortedByStart(IntervalsOf(sorted)) && m == MergeSorted(IntervalsOf(sorted))
    ensures IsMergeOf(m, IntervalsOf(spans))
  {
    hide MergeSorted;
  }

  // ---------------------------------------------------------------------
  // What the verdict means for nonempty spans.
  // ---------------------------------------------------------------------

  /** The merged form is canonical and covers the input's ticks and its
      single-tick gaps. */
  lemma MergeCovers(m: seq<Interval>, xs: seq<Interval>)
    requires AllNonempty(xs) && IsMergeOf(m, xs)
    ensures Canonical(m) && forall k :: Covers(m, k) <==> Fills(xs, k)
  {
    var ys: seq<Interval> :| multiset(ys) == multiset(xs) && SortedByStart(ys) && m == MergeSorted(ys);
    ReorderedNonempty(xs, ys);
    MergeSortedIsCanonical(ys);
    ReorderedCoverage(ys, xs);
    hide Covers, MergeSorted, Canonical;
  }

  lemma ReorderedNonempty(xs: seq<Interval>, ys: seq<Interval>)
    requires AllNonempty(xs) && multiset(xs) == multiset(ys)
    ensures AllNonempty(ys)
  {
    forall i | 0 <= i < |ys| ensures ys[i].start < ys[i].end {
      assert ys[i] in multiset(ys);
      assert ys[i] in xs;
    }
  }

  /** One result for every input order. */
  lemma MergeIsOrderIndependent(m: seq<Interval>, n: seq<Interval>, xs: seq<Interval>, ys: seq<Interval>)
    requires AllNonempty(xs) && multiset(xs) == multiset(ys) && IsMergeOf(m, xs) && IsMergeOf(n, ys)
    ensures m == n
  {
    ReorderedNonempty(xs, ys);
    MergeCovers(m, xs);
    MergeCovers(n, ys);
    ReorderedCoverage(xs, ys);
    hide Covers, Canonical, IsMergeOf;
    CanonicalIsUnique(m, n);
  }

  /** Merging what is merged changes nothing. */
  lemma MergeIsIdempotent(m: seq<Interval>, n: seq<Interval>, xs: seq<Interval>)
    requires AllNonempty(xs) && IsMergeOf(m, xs) && IsMergeOf(n, m)
    ensures n == m
  {
    MergeCovers(m, xs);
    MergeCovers(n, m);
    CanonicalIsFilled(m);
    hide Covers, IsMergeOf;
    CanonicalIsUnique(n, m);
  }

  /** Nonempty intervals overlap exactly when they share a tick. */
  lemma OverlapSharesTick(x: Interval, ys: seq<Interval>)
    requires x.start < x.end && AllNonempty(ys)
    ensures OverlapsAny(x, ys) <==> exists k :: x.start <= k < x.end && Covers(ys, k)
  {
    if OverlapsAny(x, ys) {
      var i :| 0 <= i < |ys| && Overlap(x, ys[i]);
      var k := if x.start > ys[i].start then x.start else ys[i].start;
      assert x.start <= k < x.end && Covers(ys, k);
    }
  }

  lemma {:induction false} NothingUnmatched(xs: seq<Interval>, others: seq<Interval>)
    ensures Unmatched(xs, others) == 0 <==> forall i :: 0 <= i < |xs| ==> OverlapsAny(xs[i], others)
  {
    if xs != [] {
      NothingUnmatched(xs[..|xs| - 1], others);
      hide OverlapsAny;
      assert forall i :: 0 <= i < |xs| - 1 ==> xs[..|xs| - 1][i] == xs[i];
    }
  }

  /** No tick of x is covered by xs or a single-tick gap of xs. */
  ghost predicate ApartFrom(x: Interval, xs: seq<Interval>) {
    forall k :: x.start <= k < x.end ==> !Fills(xs, k)
  }

  ghost predicate HasRunApartFrom(m: seq<Interval>, xs: seq<Interval>) {
    exists i :: 0 <= i < |m| && ApartFrom(m[i], xs)
  }

  lemma UnmatchedByCoverage(m: seq<Interval>, other: seq<Interval>, xs: seq<Interval>)
    requires AllNonempty(m) && AllNonempty(other) && forall k :: Covers(other, k) <==> Fills(xs, k)
    ensures Unmatched(m, other) > 0 <==> HasRunApartFrom(m, xs)
  {
    NothingUnmatched(m, other);
    forall i | 0 <= i < |m| ensures OverlapsAny(m[i], other) <==> !ApartFrom(m[i], xs) {
      hide Covers, Fills;
      OverlapSharesTick(m[i], other);
    }
    hide OverlapsAny, ApartFrom, Covers, Fills, Unmatched;
  }

  /** The numbers of the runs of m that share no tick with the filled xs. */
  ghost function RunsApart(m: seq<Interval>, xs: seq<Interval>): set<nat> {
    set i: nat | i < |m| && ApartFrom(m[i], xs)
  }

  ghost function UnmatchedOf(m: seq<Interval>, others: seq<Interval>): set<nat> {
    set i: nat | i < |m| && !OverlapsAny(m[i], others)
  }

  lemma {:induction false} UnmatchedCounts(m: seq<Interval>, others: seq<Interval>)
    ensures Unmatched(m, others) == |UnmatchedOf(m, others)|
  {
    if m != [] {
      var n := |m| - 1;
      UnmatchedCounts(m[..n], others);
      hide OverlapsAny;
      assert UnmatchedOf(m, others) == UnmatchedOf(m[..n], others) + if OverlapsAny(m[n], others) then {} else {n};
    }
  }

  lemma UnmatchedAreApart(m: seq<Interval>, other: seq<Interval>, xs: seq<Interval>)
    requires AllNonempty(m) && AllNonempty(other) && forall k :: Covers(other, k) <==> Fills(xs, k)
    ensures Unmatched(m, other) == |RunsApart(m, xs)|
    ensures |RunsApart(m, xs)| > 0 <==> HasRunApartFrom(m, xs)
  {
    UnmatchedCounts(m, other);
    UnmatchedByCoverage(m, other, xs);
    forall i | 0 <= i < |m| ensures OverlapsAny(m[i], other) <==> !ApartFrom(m[i], xs) {
      hide Covers, Fills;
      OverlapSharesTick(m[i], other);
    }
    hide OverlapsAny, ApartFrom, Covers, Fills, Unmatched;
    assert UnmatchedOf(m, other) == RunsApart(m, xs);
  }

  /** For nonempty spans over one timebase the introduced ones are the merged
      candidate runs that share no tick with the filled baseline, the removed ones
      the other way round. An introduced run gives the severity's verdict, a
      removed one informs, and without either the comparison passes. */
  lemma VerdictByCoverage(severity: Severity, baseline: seq<Interval>, candidate: seq<Interval>, b: seq<Interval>, c: seq<Interval>)
    requires AllNonempty(baseline) && AllNonempty(candidate) && IsMergeOf(b, baseline) && IsMergeOf(c, candidate)
    ensures Verdict(severity, b, c).introduced == |RunsApart(c, baseline)|
    ensures Verdict(severity, b, c).removed == |RunsApart(b, candidate)|
    ensures Verdict(severity, b, c).status
         == if HasRunApartFrom(c, baseline) then
              if severity == CompareTolerance.SevFail then CompareTolerance.Fail
              else if severity == CompareTolerance.SevWarn then CompareTolerance.Warn
              else CompareTolerance.Info
            else if HasRunApartFrom(b, candidate) then CompareTolerance.Info else CompareTolerance.Pass
  {
    MergeCovers(b, baseline);
    MergeCovers(c, candidate);
    hide IsMergeOf, Covers, Fills, HasRunApartFrom, Unmatched, RunsApart;
    UnmatchedAreApart(c, b, baseline);
    UnmatchedAreApart(b, c, candidate);
  }

  /** A list of nonempty spans compared with any reordering of itself passes. */
  lemma ReorderedListPasses(severity: Severity, xs: seq<Interval>, ys: seq<Interval>, b: seq<Interval>, c: seq<Interval>)
    requires AllNonempty(xs) && multiset(xs) == multiset(ys) && IsMergeOf(b, xs) && IsMergeOf(c, ys)
    ensures Verdict(severity, b, c) == Finding(CompareTolerance.Pass, 0, 0)
  {
    MergeIsOrderIndependent(b, c, xs, ys);
    MergeCovers(b, xs);
    hide IsMergeOf, Covers;
    SelfOverlap(b);
    NothingUnmatched(b, b);
  }

  lemma SelfOverlap(b: seq<Interval>)
    requires AllNonempty(b)
    ensures forall i :: 0 <= i < |b| ==> OverlapsAny(b[i], b)
  {
    forall i | 0 <= i < |b| ensures OverlapsAny(b[i], b) {
      assert Overlap(b[i], b[i]);
    }
  }

  // ---------------------------------------------------------------------
  // Spans of no length: what holds for every list of spans that do not end
  // before they start.
  // ---------------------------------------------------------------------

  lemma ReorderedOrdered(xs: seq<Interval>, ys: seq<Interval>)
    requires AllOrdered(xs) && multiset(xs) == multiset(ys)
    ensures AllOrdered(ys) && forall k :: Holds(xs, k) <==> Holds(ys, k)
  {
    ReorderedHolds(xs, ys);
    ReorderedHolds(ys, xs);
    forall i | 0 <= i < |ys| ensures ys[i].start <= ys[i].end {
      assert ys[i] in multiset(ys);
      assert ys[i] in xs;
    }
  }

  /** The merged form: the maximal runs of the ticks from the starts to the
      ends, both included. */
  lemma MergeHolds(m: seq<Interval>, xs: seq<Interval>)
    requires AllOrdered(xs) && IsMergeOf(m, xs)
    ensures AllOrdered(m) && Apart(m) && forall k :: Holds(m, k) <==> Holds(xs, k)
  {
    var ys: seq<Interval> :| multiset(ys) == multiset(xs) && SortedByStart(ys) && m == MergeSorted(ys);
    ReorderedOrdered(xs, ys);
    hide Holds, MergeSorted;
    MergedRuns(ys);
  }

  /** One result for every input order, spans of no length included. */
  lemma OrderedMergeIsOrderIndependent(m: seq<Interval>, n: seq<Interval>, xs: seq<Interval>, ys: seq<Interval>)
    requires AllOrdered(xs) && multiset(xs) == multiset(ys) && IsMergeOf(m, xs) && IsMergeOf(n, ys)
    ensures m == n
  {
    ReorderedOrdered(xs, ys);
    MergeHolds(m, xs);
    MergeHolds(n, ys);
    hide *;
    RunsAreUnique(m, n);
  }

  /** Some other span of the list overlaps x or comes within a tick of it. */
  predicate HasNeighbour(x: Interval, xs: seq<Interval>) {
    exists y :: y in xs && y != x && y.start <= x.end + 1 && x.start <= y.end + 1
  }

  /** Every span of no length has a neighbour. */
  predicate NoLonePoint(xs: seq<Interval>) {
    forall x :: x in xs && x.start == x.end ==> HasNeighbour(x, xs)
  }

  /** A span of no length is a run of its own exactly when it has no
      neighbour. */
  lemma LonePointIsRun(xs: seq<Interval>, p: int)
    requires AllOrdered(xs)
    ensures Holds(xs, p) && !Holds(xs, p - 1) && !Holds(xs, p + 1)
       <==> Interval(p, p) in xs && !HasNeighbour(Interval(p, p), xs)
  {
    var x := Interval(p, p);
    if Holds(xs, p) && !Holds(xs, p - 1) && !Holds(xs, p + 1) {
      var i :| 0 <= i < |xs| && xs[i].start <= p <= xs[i].end;
      assert xs[i] == x;
    }
    if x in xs && !HasNeighbour(x, xs) {
      var i :| 0 <= i < |xs| && xs[i] == x;
      assert xs[i].start <= p <= xs[i].end;
      forall k | p - 1 <= k <= p + 1 && Holds(xs, k) ensures k == p {
        var j :| 0 <= j < |xs| && xs[j].start <= k <= xs[j].end;
        assert xs[j] in xs;
      }
    }
  }

  /** No merged span is left without length exactly when every span of no
      length has a neighbour. */
  lemma MergedNonemptyIff(xs: seq<Interval>, m: seq<Interval>)
    requires AllOrdered(xs) && AllOrdered(m) && Apart(m) && forall k :: Holds(m, k) <==> Holds(xs, k)
    ensures AllNonempty(m) <==> NoLonePoint(xs)
  {
    if !AllNonempty(m) {
      var i :| 0 <= i < |m| && m[i].start >= m[i].end;
      RunEnds(m, i);
      hide Holds;
      LonePointIsRun(xs, m[i].start);
    }
    if !NoLonePoint(xs) {
      var x :| x in xs && x.start == x.end && !HasNeighbour(x, xs);
      assert x == Interval(x.start, x.start);
      hide HasNeighbour, NoLonePoint;
      LonePointIsRun(xs, x.start);
      LoneTickIsPoint(m, x.start);
    }
  }

  /** Compared with any reordering of itself, a list of spans that do not end
      before they start passes exactly when every span of no length overlaps
      another span or comes within a tick of one. */
  lemma ReorderedComparisonPassesIff(severity: Severity, xs: seq<Interval>, ys: seq<Interval>, b: seq<Interval>, c: seq<Interval>)
    requires AllOrdered(xs) && multiset(xs) == multiset(ys) && IsMergeOf(b, xs) && IsMergeOf(c, ys)
    ensures Verdict(severity, b, c).status == CompareTolerance.Pass <==> NoLonePoint(xs)
  {
    OrderedMergeIsOrderIndependent(b, c, xs, ys);
    MergeHolds(b, xs);
    hide IsMergeOf, Unmatched, OverlapsAny, Holds, HasNeighbour;
    MergedNonemptyIff(xs, b);
    NothingUnmatched(b, b);
    ApartOverlapsItself(b);
  }

  /** A list compared with itself. */
  lemma SelfComparisonPassesIff(severity: Severity, xs: seq<Interval>, m: seq<Interval>)
    requires AllOrdered(xs) && IsMergeOf(m, xs)
    ensures Verdict(severity, m, m).status == CompareTolerance.Pass
       <==> forall x :: x in xs && x.start == x.end ==>
              exists y :: y in xs && y != x && y.start <= x.end + 1 && x.start <= y.end + 1
  {
    ReorderedComparisonPassesIff(severity, xs, xs, m, m);
    hide IsMergeOf, Verdict;
  }

  lemma ApartOverlapsItself(m: seq<Interval>)
    requires Apart(m) && AllOrdered(m)
    ensures forall i :: 0 <= i < |m| ==> (OverlapsAny(m[i], m) <==> m[i].start < m[i].end)
  {
    forall i | 0 <= i < |m| ensures OverlapsAny(m[i], m) <==> m[i].start < m[i].end {
      if OverlapsAny(m[i], m) {
        var j :| 0 <= j < |m| && Overlap(m[i], m[j]);
        assert i == j;
      }
      if m[i].start < m[i].end {
        assert Overlap(m[i], m[i]);
      }
    }
  }

  /** A single span of no length does not overlap itself: compared with itself
      it fails. */
  lemma ZeroLengthSpanFails(m: seq<Interval>)
    requires IsMergeOf(m, [Interval(5, 5)])
    ensures Verdict(CompareTolerance.SevFail, m, m) == Finding(CompareTolerance.Fail, 1, 1)
  {
    var ys: seq<Interval> :| multiset(ys) == multiset([Interval(5, 5)]) && SortedByStart(ys) && m == MergeSorted(ys);
    assert |ys| == 1 by {
      assert |multiset(ys)| == |multiset([Interval(5, 5)])| == 1;
    }
    assert ys[0] in multiset(ys);
    assert ys == [Interval(5, 5)];
    assert ys[..0] == [] && MergeSorted([]) == [];
    assert m == [Interval(5, 5)];
    assert !OverlapsAny(m[0], m);
    assert m[..0] == [] && Unmatched([], m) == 0;
  }
}
