/** A span of samples, half-open. */
module SampleSpans {
  datatype SampleSpan = SampleSpan(start: int, end: int)

  /** Joins each span to the one before it when they touch: the samples covered
      stay the same, no two consecutive results touch, and spans that are apart
      already are left alone. */
  method MergeTouching(spans: seq<SampleSpan>) returns (merged: seq<SampleSpan>)
    ensures forall i :: 0 <= i < |merged| - 1 ==> merged[i].end != merged[i + 1].start
    ensures (forall d :: d in spans ==> d.start <= d.end) ==> forall k :: Covers(merged, k) <==> Covers(spans, k)
    ensures Apart(spans) ==> merged == spans
  {
    merged := [];
    for i := 0 to |spans|
      invariant forall j :: 0 <= j < |merged| - 1 ==> merged[j].end != merged[j + 1].start
      invariant merged != [] <==> i > 0
      invariant merged != [] ==> merged[|merged| - 1].end == spans[i - 1].end
      invariant (forall d :: d in spans ==> d.start <= d.end) ==>
        && (forall d :: d in merged ==> d.start <= d.end)
        && forall k :: Covers(merged, k) <==> Covers(spans[..i], k)
      invariant Apart(spans) ==> merged == spans[..i]
    {
      ghost var before := merged;
      CoversSnoc(spans[..i], spans[i]);
      assert spans[..i + 1] == spans[..i] + [spans[i]];
      var last := |merged| - 1;
      if merged != [] && merged[last].end == spans[i].start {
        merged := merged[last := merged[last].(end := spans[i].end)];
        assert before == before[..last] + [before[last]] && merged == before[..last] + [merged[last]];
        CoversSnoc(before[..last], before[last]);
        CoversSnoc(before[..last], merged[last]);
        assert spans[i] in spans;
      } else {
        CoversSnoc(merged, spans[i]);
        merged := merged + [spans[i]];
      }
    }
    assert spans[..|spans|] == spans;
  }

  /** Sample k lies in some span. */
  predicate Covers(spans: seq<SampleSpan>, k: int) {
    exists d :: d in spans && d.start <= k < d.end
  }

  lemma CoversSnoc(spans: seq<SampleSpan>, d: SampleSpan)
    ensures forall k :: Covers(spans + [d], k) <==> Covers(spans, k) || d.start <= k < d.end
  {
    forall k ensures Covers(spans + [d], k) <==> Covers(spans, k) || d.start <= k < d.end {
      assert forall e :: e in spans + [d] <==> e in spans || e == d;
    }
  }

  /** Consecutive spans leave a gap. */
  predicate Apart(spans: seq<SampleSpan>) {
    forall i, j :: 0 <= i < j < |spans| ==> spans[i].end < spans[j].start
  }

  predicate AllNonempty(spans: seq<SampleSpan>) {
    forall d :: d in spans ==> d.start < d.end
  }

  /** Nonempty spans that are apart are determined by which spans they are. */
  lemma {:induction false} ApartIsUnique(a: seq<SampleSpan>, b: seq<SampleSpan>)
    requires Apart(a) && Apart(b) && AllNonempty(a) && AllNonempty(b)
    requires forall d :: d in a <==> d in b
    ensures a == b
  {
    if a == [] {
      assert forall d :: d !in b;
    } else {
      assert a[0] in a && a[0] in b && b[0] in b;
      FirstIsLeast(a, b[0]);
      FirstIsLeast(b, a[0]);
      assert a[0] == b[0];
      TailMembers(a);
      TailMembers(b);
      ApartIsUnique(a[1..], b[1..]);
      assert a == [a[0]] + a[1..] && b == [b[0]] + b[1..];
    }
  }

  lemma FirstIsLeast(a: seq<SampleSpan>, d: SampleSpan)
    requires Apart(a) && AllNonempty(a) && d in a
    ensures d == a[0] || a[0].start < d.start
  {
    assert a[0] in a;
  }

  lemma TailMembers(a: seq<SampleSpan>)
    requires Apart(a) && AllNonempty(a) && a != []
    ensures Apart(a[1..]) && AllNonempty(a[1..])
    ensures forall d :: d in a[1..] <==> d in a && d != a[0]
  {
    assert a == [a[0]] + a[1..] && a[0] in a;
    assert forall i :: 0 <= i < |a| - 1 ==> a[1..][i] == a[i + 1] && a[0].end < a[i + 1].start;
  }
}

/** Leading and trailing silence: the hysteresis detector, sample by sample, and
    the offline definition it agrees with. */
module EdgeSilence {
  import opened SampleSpans

  // ---------------------------------------------------------------------
  // Offline definition over the whole peak sequence xs, with threshold t and
  // hysteresis h.
  // ---------------------------------------------------------------------

  /** h consecutive samples below the threshold, from s on. */
  predicate QuietRun(xs: seq<int>, t: int, h: int, s: int) {
    0 <= s && s + h <= |xs| && forall i :: s <= i < s + h ==> xs[i] < t
  }

  /** h consecutive samples at or above the threshold, from s on. */
  predicate LoudRun(xs: seq<int>, t: int, h: int, s: int) {
    0 <= s && s + h <= |xs| && forall i :: s <= i < s + h ==> xs[i] >= t
  }

  /** A quiet run that no loud run follows. */
  ghost predicate Unbroken(xs: seq<int>, t: int, h: int, s: int) {
    QuietRun(xs, t, h, s) && forall k :: LoudRun(xs, t, h, k) ==> k < s
  }

  ghost predicate StartsSilence(xs: seq<int>, t: int, h: int, s: int) {
    Unbroken(xs, t, h, s) && forall k :: Unbroken(xs, t, h, k) ==> s <= k
  }

  /** The leading span runs from the start to the first loud run, if the stream
      opens with a quiet run and a loud run follows. */
  ghost predicate IsLeading(xs: seq<int>, t: int, h: int, spans: seq<SampleSpan>) {
    if QuietRun(xs, t, h, 0) && exists e :: LoudRun(xs, t, h, e) then
      && |spans| == 1 && spans[0].start == 0
      && LoudRun(xs, t, h, spans[0].end) && (forall k :: LoudRun(xs, t, h, k) ==> spans[0].end <= k)
    else spans == []
  }

  /** The trailing span runs from the first quiet run that no loud run follows
      to the end of the stream. */
  ghost predicate IsTrailing(xs: seq<int>, t: int, h: int, spans: seq<SampleSpan>) {
    if exists s :: Unbroken(xs, t, h, s) then
      |spans| == 1 && spans[0].end == |xs| && StartsSilence(xs, t, h, spans[0].start)
    else spans == []
  }

  /** The edge report: at most the leading and the trailing span. */
  ghost predicate IsEdgeReport(xs: seq<int>, t: int, h: int, spans: seq<SampleSpan>) {
    exists leading, trailing ::
      IsLeading(xs, t, h, leading) && IsTrailing(xs, t, h, trailing) && spans == leading + trailing
  }

  // ---------------------------------------------------------------------
  // The detector.
  // ---------------------------------------------------------------------

  datatype EdgeState = EdgeState(inRun: bool, runStart: int, belowStreak: int, candidateStart: int, aboveStreak: int,
                                 spans: seq<SampleSpan>)

  const INITIAL := EdgeState(false, 0, 0, 0, 0, [])

  /** One sample, at index i. */
  function Step(e: EdgeState, t: int, h: int, i: int, x: int): EdgeState {
    if !e.inRun then
      if x < t then
        var start := if e.belowStreak == 0 then i else e.candidateStart;
        var streak := e.belowStreak + 1;
        if streak >= h then e.(inRun := true, runStart := start, belowStreak := streak, candidateStart := start, aboveStreak := 0)
        else e.(belowStreak := streak, candidateStart := start)
      else e.(belowStreak := 0)
    else if x < t then e.(aboveStreak := 0)
    else
      var streak := e.aboveStreak + 1;
      if streak >= h then
        e.(inRun := false, belowStreak := 0, aboveStreak := streak,
           spans := e.spans + (if e.runStart == 0 then [SampleSpan(e.runStart, i - streak + 1)] else []))
      else e.(aboveStreak := streak)
  }

  /** The detector's fields after the samples xs. */
  ghost predicate Tracks(xs: seq<int>, t: int, h: int, e: EdgeState) {
    && h >= 1
    && IsLeading(xs, t, h, e.spans)
    && (if e.inRun then
          StartsSilence(xs, t, h, e.runStart) && TrailingLoud(xs, t, h, e.aboveStreak)
        else
          (forall s :: !Unbroken(xs, t, h, s)) && TrailingQuiet(xs, t, h, e))
  }

  /** The current loud streak, shorter than the hysteresis. */
  ghost predicate TrailingLoud(xs: seq<int>, t: int, h: int, a: int) {
    && 0 <= a < h && a < |xs|
    && (forall i :: |xs| - a <= i < |xs| ==> xs[i] >= t)
    && xs[|xs| - a - 1] < t
  }

  /** The current quiet streak, shorter than the hysteresis. */
  ghost predicate TrailingQuiet(xs: seq<int>, t: int, h: int, e: EdgeState) {
    var b := e.belowStreak;
    && 0 <= b < h && b <= |xs|
    && (forall i :: |xs| - b <= i < |xs| ==> xs[i] < t)
    && (b < |xs| ==> xs[|xs| - b - 1] >= t)
    && (b > 0 ==> e.candidateStart == |xs| - b)
  }

  lemma InitiallyTracks(t: int, h: int)
    requires h >= 1
    ensures Tracks([], t, h, INITIAL)
  {}

  /** A new sample leaves every run that does not end in it as it was. */
  lemma NewSample(xs: seq<int>, x: int, t: int, h: int)
    requires h >= 1
    ensures forall s :: s != |xs| + 1 - h ==>
      QuietRun(xs + [x], t, h, s) == QuietRun(xs, t, h, s) && LoudRun(xs + [x], t, h, s) == LoudRun(xs, t, h, s)
    ensures QuietRun(xs + [x], t, h, |xs| + 1 - h) ==> x < t
    ensures LoudRun(xs + [x], t, h, |xs| + 1 - h) ==> x >= t
    ensures !QuietRun(xs, t, h, |xs| + 1 - h) && !LoudRun(xs, t, h, |xs| + 1 - h)
  {
    var ys := xs + [x];
    assert ys[|xs|] == x;
    forall s | s != |xs| + 1 - h
      ensures QuietRun(ys, t, h, s) == QuietRun(xs, t, h, s) && LoudRun(ys, t, h, s) == LoudRun(xs, t, h, s)
    {
      assert forall i :: 0 <= i < |xs| ==> ys[i] == xs[i];
    }
  }

  /** No run in the last h positions when the streak of its kind is shorter. */
  lemma NoQuietRunAtEnd(xs: seq<int>, t: int, h: int, b: int)
    requires 0 <= b < h && b <= |xs| && (b < |xs| ==> xs[|xs| - b - 1] >= t)
    ensures !QuietRun(xs, t, h, |xs| - h)
  {
    var s := |xs| - h;
    assert 0 <= s ==> s <= |xs| - b - 1 < s + h;
  }

  lemma NoLoudRunAtEnd(xs: seq<int>, t: int, h: int, a: int)
    requires 0 <= a < h && a < |xs| && xs[|xs| - a - 1] < t
    ensures !LoudRun(xs, t, h, |xs| - h)
  {
    var s := |xs| - h;
    assert 0 <= s ==> s <= |xs| - a - 1 < s + h;
  }

  lemma RunBounds(xs: seq<int>, t: int, h: int)
    requires h >= 1
    ensures forall s :: QuietRun(xs, t, h, s) ==> 0 <= s <= |xs| - h && !LoudRun(xs, t, h, s)
    ensures forall s :: LoudRun(xs, t, h, s) ==> 0 <= s <= |xs| - h
  {
    forall s | QuietRun(xs, t, h, s) ensures !LoudRun(xs, t, h, s) {
      assert xs[s] < t;
    }
  }

  /** A sample that does not complete the first loud run after a leading quiet
      run leaves the leading span as it is. */
  lemma LeadingUnchanged(xs: seq<int>, x: int, t: int, h: int, spans: seq<SampleSpan>)
    requires h >= 1 && IsLeading(xs, t, h, spans)
    requires LoudRun(xs + [x], t, h, |xs| + 1 - h) ==> !QuietRun(xs, t, h, 0) || exists e :: LoudRun(xs, t, h, e)
    ensures IsLeading(xs + [x], t, h, spans)
  {
    NewSample(xs, x, t, h);
    RunBounds(xs, t, h);
    RunBounds(xs + [x], t, h);
    hide QuietRun, LoudRun;
    var ys := xs + [x];
    if e :| LoudRun(xs, t, h, e) {
      assert LoudRun(ys, t, h, e);
    }
  }

  /** The quiet streak reaches the hysteresis: silence starts h samples back. */
  lemma SilenceOpens(xs: seq<int>, x: int, t: int, h: int)
    requires h >= 1 && x < t
    requires forall s :: !Unbroken(xs, t, h, s)
    requires QuietRun(xs + [x], t, h, |xs| + 1 - h)
    ensures StartsSilence(xs + [x], t, h, |xs| + 1 - h)
  {
    NewSample(xs, x, t, h);
    RunBounds(xs + [x], t, h);
    hide QuietRun, LoudRun;
    var ys, s := xs + [x], |xs| + 1 - h;
    assert Unbroken(ys, t, h, s);
    forall k | k < s ensures !Unbroken(ys, t, h, k) {
      assert !Unbroken(xs, t, h, k);
      if QuietRun(xs, t, h, k) {
        var l :| LoudRun(xs, t, h, l) && k <= l;
        assert LoudRun(ys, t, h, l);
      }
    }
  }

  /** Without a new quiet run, nothing opens. */
  lemma SilenceStaysClosed(xs: seq<int>, x: int, t: int, h: int)
    requires h >= 1
    requires forall s :: !Unbroken(xs, t, h, s)
    requires !QuietRun(xs + [x], t, h, |xs| + 1 - h)
    ensures forall s :: !Unbroken(xs + [x], t, h, s)
  {
    NewSample(xs, x, t, h);
    hide QuietRun, LoudRun;
    var ys := xs + [x];
    forall s ensures !Unbroken(ys, t, h, s) {
      assert !Unbroken(xs, t, h, s);
      if QuietRun(xs, t, h, s) {
        var l :| LoudRun(xs, t, h, l) && s <= l;
        assert LoudRun(ys, t, h, l);
      }
    }
  }

  /** Without a new loud run, silence stays open where it started. */
  lemma SilenceStaysOpen(xs: seq<int>, x: int, t: int, h: int, start: int)
    requires h >= 1 && StartsSilence(xs, t, h, start)
    requires !LoudRun(xs + [x], t, h, |xs| + 1 - h)
    ensures StartsSilence(xs + [x], t, h, start)
  {
    NewSample(xs, x, t, h);
    RunBounds(xs, t, h);
    hide QuietRun, LoudRun;
    var ys := xs + [x];
    assert Unbroken(ys, t, h, start);
    forall k | k < start ensures !Unbroken(ys, t, h, k) {
      assert !Unbroken(xs, t, h, k);
      if QuietRun(xs, t, h, k) {
        var l :| LoudRun(xs, t, h, l) && k <= l;
        assert LoudRun(ys, t, h, l);
      }
    }
  }

  /** A new loud run closes whatever was open. */
  lemma SilenceCloses(xs: seq<int>, x: int, t: int, h: int)
    requires h >= 1 && LoudRun(xs + [x], t, h, |xs| + 1 - h)
    ensures forall s :: !Unbroken(xs + [x], t, h, s)
  {
    RunBounds(xs + [x], t, h);
    hide QuietRun, LoudRun;
  }

  /** The leading span is emitted by the run that closes silence from sample 0. */
  lemma LeadingEmitted(xs: seq<int>, x: int, t: int, h: int, start: int, spans: seq<SampleSpan>)
    requires h >= 1 && IsLeading(xs, t, h, spans) && StartsSilence(xs, t, h, start)
    requires LoudRun(xs + [x], t, h, |xs| + 1 - h)
    ensures IsLeading(xs + [x], t, h, spans + (if start == 0 then [SampleSpan(0, |xs| + 1 - h)] else []))
  {
    NewSample(xs, x, t, h);
    RunBounds(xs, t, h);
    RunBounds(xs + [x], t, h);
    if start == 0 {
      hide QuietRun, LoudRun;
      assert forall e :: LoudRun(xs, t, h, e) ==> e < 0;
      assert spans == [];
    } else {
      if QuietRun(xs, t, h, 0) {
        assert !Unbroken(xs, t, h, 0);
        var l :| LoudRun(xs, t, h, l) && 0 <= l;
      }
      hide QuietRun, LoudRun;
      LeadingUnchanged(xs, x, t, h, spans);
      assert spans + [] == spans;
    }
  }

  /** One step of the detector keeps it in agreement with the definition. */
  lemma StepTracks(xs: seq<int>, x: int, t: int, h: int, e: EdgeState)
    requires Tracks(xs, t, h, e)
    ensures Tracks(xs + [x], t, h, Step(e, t, h, |xs|, x))
  {
    hide Step, Tracks;
    if e.inRun {
      StepTracksOpen(xs, x, t, h, e);
    } else {
      StepTracksClosed(xs, x, t, h, e);
    }
  }

  lemma StepTracksClosed(xs: seq<int>, x: int, t: int, h: int, e: EdgeState)
    requires Tracks(xs, t, h, e) && !e.inRun
    ensures Tracks(xs + [x], t, h, Step(e, t, h, |xs|, x))
  {
    var ys := xs + [x];
    assert ys[|xs|] == x && forall i :: 0 <= i < |xs| ==> ys[i] == xs[i];
    hide Unbroken, StartsSilence, IsLeading;
    if x < t {
      LeadingUnchanged(xs, x, t, h, e.spans);
      if e.belowStreak + 1 >= h {
        assert QuietRun(ys, t, h, |xs| + 1 - h);
        SilenceOpens(xs, x, t, h);
      } else {
        NoQuietRunAtEnd(ys, t, h, e.belowStreak + 1);
        SilenceStaysClosed(xs, x, t, h);
      }
    } else {
      var first := IsLeadingDecided(xs, t, h, e.spans);
      LeadingUnchanged(xs, x, t, h, e.spans);
      SilenceStaysClosed(xs, x, t, h);
    }
  }

  lemma StepTracksOpen(xs: seq<int>, x: int, t: int, h: int, e: EdgeState)
    requires Tracks(xs, t, h, e) && e.inRun
    ensures Tracks(xs + [x], t, h, Step(e, t, h, |xs|, x))
  {
    var ys := xs + [x];
    assert ys[|xs|] == x && forall i :: 0 <= i < |xs| ==> ys[i] == xs[i];
    hide Unbroken, StartsSilence, IsLeading;
    if x < t {
      LeadingUnchanged(xs, x, t, h, e.spans);
      SilenceStaysOpen(xs, x, t, h, e.runStart);
    } else if e.aboveStreak + 1 >= h {
      assert LoudRun(ys, t, h, |xs| + 1 - h);
      LeadingEmitted(xs, x, t, h, e.runStart, e.spans);
      SilenceCloses(xs, x, t, h);
    } else {
      NoLoudRunAtEnd(ys, t, h, e.aboveStreak + 1);
      LeadingUnchanged(xs, x, t, h, e.spans);
      SilenceStaysOpen(xs, x, t, h, e.runStart);
    }
  }

  /** When nothing is open, a stream that opened quiet has met a loud run. */
  lemma IsLeadingDecided(xs: seq<int>, t: int, h: int, spans: seq<SampleSpan>) returns (e: int)
    requires h >= 1 && forall s :: !Unbroken(xs, t, h, s)
    ensures QuietRun(xs, t, h, 0) ==> LoudRun(xs, t, h, e)
  {
    e := 0;
    if QuietRun(xs, t, h, 0) {
      assert !Unbroken(xs, t, h, 0);
      e :| LoudRun(xs, t, h, e) && 0 <= e;
    }
  }

  /** What finalisation reports: the emitted span, and the open run if any. */
  function Reported(e: EdgeState, total: int): seq<SampleSpan> {
    e.spans + (if e.inRun then [SampleSpan(e.runStart, total)] else [])
  }

  /** The report is the offline one, and its spans do not touch. */
  lemma ReportIsEdgeReport(xs: seq<int>, t: int, h: int, e: EdgeState)
    requires Tracks(xs, t, h, e)
    ensures IsEdgeReport(xs, t, h, Reported(e, |xs|))
    ensures Apart(Reported(e, |xs|)) && |Reported(e, |xs|)| <= 2
  {
    var trailing := if e.inRun then [SampleSpan(e.runStart, |xs|)] else [];
    assert IsTrailing(xs, t, h, trailing) by {
      if e.inRun {
        assert Unbroken(xs, t, h, e.runStart);
      }
    }
    assert Reported(e, |xs|) == e.spans + trailing;
  }

  /** The report is determined by the samples. */
  lemma EdgeReportIsUnique(xs: seq<int>, t: int, h: int, a: seq<SampleSpan>, b: seq<SampleSpan>)
    requires IsEdgeReport(xs, t, h, a) && IsEdgeReport(xs, t, h, b)
    ensures a == b
  {
    var la, ta :| IsLeading(xs, t, h, la) && IsTrailing(xs, t, h, ta) && a == la + ta;
    var lb, tb :| IsLeading(xs, t, h, lb) && IsTrailing(xs, t, h, tb) && b == lb + tb;
    hide IsLeading, IsTrailing;
    LeadingIsUnique(xs, t, h, la, lb);
    TrailingIsUnique(xs, t, h, ta, tb);
  }

  lemma LeadingIsUnique(xs: seq<int>, t: int, h: int, a: seq<SampleSpan>, b: seq<SampleSpan>)
    requires IsLeading(xs, t, h, a) && IsLeading(xs, t, h, b)
    ensures a == b
  {
    hide QuietRun, LoudRun;
    assert a != [] ==> a[0].end == b[0].end;
  }

  lemma TrailingIsUnique(xs: seq<int>, t: int, h: int, a: seq<SampleSpan>, b: seq<SampleSpan>)
    requires IsTrailing(xs, t, h, a) && IsTrailing(xs, t, h, b)
    ensures a == b
  {
    hide Unbroken;
    assert a != [] ==> a[0].start == b[0].start;
  }
}

/** Dropouts: the sliding-window energy detector, sample by sample, and the
    offline definition it agrees with. */
module Dropouts {
  import opened SampleSpans
  import Products

  // ---------------------------------------------------------------------
  // Offline definition over the whole peak sequence xs, with window length w,
  // squared threshold t and minimum span m.
  // ---------------------------------------------------------------------

  datatype Params = Params(window: int, thresholdSq: int, minSpan: int)

  function Energy(xs: seq<int>): int {
    if xs == [] then 0 else Energy(xs[..|xs| - 1]) + xs[|xs| - 1] * xs[|xs| - 1]
  }

  /** How many windows fit. */
  function Positions(xs: seq<int>, p: Params): int {
    |xs| - p.window + 1
  }

  /** The window starting at s has a mean square below the threshold. */
  predicate QuietAt(xs: seq<int>, p: Params, s: int) {
    0 <= s < Positions(xs, p) && 0 <= p.window && Energy(xs[s..s + p.window]) < p.thresholdSq * p.window
  }

  /** All window positions in [s, e) are quiet. */
  predicate AllQuiet(xs: seq<int>, p: Params, s: int, e: int) {
    forall k :: s <= k < e ==> QuietAt(xs, p, k)
  }

  /** An interior maximal run of quiet positions that is long enough. */
  predicate IsDropout(xs: seq<int>, p: Params, s: int, e: int) {
    && 0 < s < e < Positions(xs, p)
    && AllQuiet(xs, p, s, e)
    && !QuietAt(xs, p, s - 1) && !QuietAt(xs, p, e)
    && e - s >= p.minSpan
  }

  /** The dropout report: exactly the dropouts, in order and apart. */
  ghost predicate IsDropoutReport(xs: seq<int>, p: Params, spans: seq<SampleSpan>) {
    && Apart(spans)
    && (forall d :: d in spans ==> IsDropout(xs, p, d.start, d.end))
    && (forall s, e :: IsDropout(xs, p, s, e) ==> SampleSpan(s, e) in spans)
  }

  /** The report is determined by the samples. */
  lemma DropoutReportIsUnique(xs: seq<int>, p: Params, a: seq<SampleSpan>, b: seq<SampleSpan>)
    requires IsDropoutReport(xs, p, a) && IsDropoutReport(xs, p, b)
    ensures a == b
  {
    hide QuietAt, AllQuiet;
    forall d ensures d in a <==> d in b {
      assert d == SampleSpan(d.start, d.end);
    }
    assert AllNonempty(a) && AllNonempty(b);
    ApartIsUnique(a, b);
  }

  // ---------------------------------------------------------------------
  // The detector.
  // ---------------------------------------------------------------------

  datatype DropoutState = DropoutState(sumSq: int, window: seq<int>, inRun: bool, runStart: int, spans: seq<SampleSpan>)

  const INITIAL := DropoutState(0, [], false, 0, [])

  function Square(x: int): int {
    x * x
  }

  function Squares(xs: seq<int>): (r: seq<int>)
    ensures |r| == |xs| && forall i :: 0 <= i < |xs| ==> r[i] == Square(xs[i])
  {
    seq(|xs|, i requires 0 <= i < |xs| => Square(xs[i]))
  }

  /** The window after one more sample: the oldest square leaves when it is
      full. */
  function Slide(d: DropoutState, p: Params, x: int): DropoutState {
    var grown := d.(window := d.window + [x * x], sumSq := d.sumSq + x * x);
    if |grown.window| > p.window then grown.(window := grown.window[1..], sumSq := grown.sumSq - grown.window[0])
    else grown
  }

  /** The run bookkeeping at sample i, once the window is full. */
  function Judge(d: DropoutState, p: Params, i: int): DropoutState {
    if |d.window| != p.window then d
    else if d.sumSq < p.thresholdSq * p.window then
      if d.inRun then d else d.(inRun := true, runStart := i - p.window + 1)
    else if d.inRun then
      var end := i - p.window + 1;
      d.(inRun := false, spans := d.spans +
         (if d.runStart != 0 && end - d.runStart >= p.minSpan then [SampleSpan(d.runStart, end)] else []))
    else d
  }

  function Step(d: DropoutState, p: Params, i: int, x: int): DropoutState {
    Judge(Slide(d, p, x), p, i)
  }

  /** The samples the window covers. */
  function LastWindow(xs: seq<int>, w: int): seq<int>
    requires w >= 0
  {
    if |xs| <= w then xs else xs[|xs| - w..]
  }

  ghost predicate WindowTracks(xs: seq<int>, p: Params, d: DropoutState) {
    && p.window >= 1
    && d.window == Squares(LastWindow(xs, p.window))
    && d.sumSq == Energy(LastWindow(xs, p.window))
  }

  /** The open run, over the positions seen so far. */
  ghost predicate RunTracks(xs: seq<int>, p: Params, d: DropoutState) {
    var m := Positions(xs, p);
    && d.inRun == QuietAt(xs, p, m - 1)
    && (d.inRun ==> 0 <= d.runStart < m && AllQuiet(xs, p, d.runStart, m) && !QuietAt(xs, p, d.runStart - 1))
  }

  ghost predicate Tracks(xs: seq<int>, p: Params, d: DropoutState) {
    WindowTracks(xs, p, d) && RunTracks(xs, p, d) && IsDropoutReport(xs, p, d.spans)
  }

  lemma InitiallyTracks(p: Params)
    requires p.window >= 1
    ensures Tracks([], p, INITIAL)
  {
    assert Squares([]) == [];
  }

  lemma {:induction false} EnergyDropFirst(xs: seq<int>)
    requires xs != []
    ensures Energy(xs[1..]) == Energy(xs) - xs[0] * xs[0]
  {
    var front := xs[..|xs| - 1];
    if front == [] {
      assert xs[1..] == [] && Energy(front) == 0;
    } else {
      EnergyDropFirst(front);
      assert xs[1..][..|xs| - 2] == front[1..];
    }
  }

  lemma EnergySnoc(xs: seq<int>, x: int)
    ensures Energy(xs + [x]) == Energy(xs) + x * x
  {
    assert (xs + [x])[..|xs|] == xs;
  }

  /** The running sum stays the sum of the last w squares. */
  lemma SlideTracks(xs: seq<int>, x: int, p: Params, d: DropoutState)
    requires WindowTracks(xs, p, d)
    ensures WindowTracks(xs + [x], p, Slide(d, p, x))
  {
    var w := p.window;
    var last := LastWindow(xs, w);
    var grown := last + [x];
    EnergySnoc(last, x);
    assert d.window + [x * x] == Squares(grown);
    if |xs| < w {
      assert LastWindow(xs + [x], w) == grown;
    } else {
      assert LastWindow(xs + [x], w) == grown[1..];
      EnergyDropFirst(grown);
      assert Squares(grown)[1..] == Squares(grown[1..]);
    }
  }

  /** Positions already seen keep their verdict. */
  lemma OldPositions(xs: seq<int>, x: int, p: Params)
    requires p.window >= 1
    ensures forall s :: s < Positions(xs, p) ==> QuietAt(xs + [x], p, s) == QuietAt(xs, p, s)
    ensures forall s :: s > Positions(xs, p) ==> !QuietAt(xs + [x], p, s)
  {
    forall s | 0 <= s < Positions(xs, p) ensures QuietAt(xs + [x], p, s) == QuietAt(xs, p, s) {
      assert (xs + [x])[s..s + p.window] == xs[s..s + p.window];
    }
  }

  /** The run bookkeeping follows the verdict on the newest position. */
  lemma JudgeTracks(xs: seq<int>, x: int, p: Params, d: DropoutState)
    requires WindowTracks(xs + [x], p, d) && RunTracks(xs, p, d) && IsDropoutReport(xs, p, d.spans)
    ensures Tracks(xs + [x], p, Judge(d, p, |xs|))
  {
    OldPositions(xs, x, p);
    NewestVerdict(xs, x, p, d);
    RunFollows(xs, x, p, d, Judge(d, p, |xs|));
    hide QuietAt, WindowTracks, IsDropoutReport, AllQuiet;
    assert d.inRun ==> QuietAt(xs, p, Positions(xs, p) - 1);
    assert !d.inRun ==> !QuietAt(xs, p, Positions(xs, p) - 1);
    hide RunTracks, Positions;
    if Positions(xs, p) >= 0 && !QuietAt(xs + [x], p, Positions(xs, p)) && d.inRun {
      RunCloses(xs, x, p, d);
    } else {
      assert d.spans + [] == d.spans;
      NothingCloses(xs, x, p, d.spans);
    }
  }

  lemma RunFollows(xs: seq<int>, x: int, p: Params, d: DropoutState, d': DropoutState)
    requires p.window >= 1 && RunTracks(xs, p, d)
    requires d'.inRun == QuietAt(xs + [x], p, Positions(xs, p))
    requires d'.inRun ==> d'.runStart == if d.inRun then d.runStart else Positions(xs, p)
    ensures RunTracks(xs + [x], p, d')
  {
    OldPositions(xs, x, p);
    assert !QuietAt(xs, p, -1) && !QuietAt(xs + [x], p, -1);
    hide QuietAt;
  }

  /** The detector's test is the verdict on the newest window. */
  lemma NewestVerdict(xs: seq<int>, x: int, p: Params, d: DropoutState)
    requires WindowTracks(xs + [x], p, d)
    ensures |d.window| == p.window <==> Positions(xs, p) >= 0
    ensures Positions(xs, p) >= 0 ==>
      (QuietAt(xs + [x], p, Positions(xs, p)) <==> d.sumSq < p.thresholdSq * p.window)
    ensures Positions(xs, p) < 0 ==> !QuietAt(xs + [x], p, Positions(xs, p))
    ensures WindowTracks(xs + [x], p, Judge(d, p, |xs|))
  {
    var ys, m := xs + [x], Positions(xs, p);
    assert |d.window| == |LastWindow(ys, p.window)|;
    if m >= 0 {
      assert LastWindow(ys, p.window) == ys[m..m + p.window];
    }
  }

  /** A dropout of the longer sequence is one of the shorter, or ends at the new
      position. */
  lemma DropoutsGrow(xs: seq<int>, x: int, p: Params, s: int, e: int)
    requires p.window >= 1
    ensures e != Positions(xs, p) ==> IsDropout(xs + [x], p, s, e) == IsDropout(xs, p, s, e)
    ensures !IsDropout(xs, p, s, Positions(xs, p))
  {
    OldPositions(xs, x, p);
    hide QuietAt;
    var ys := xs + [x];
    if 0 < s && e < Positions(xs, p) {
      assert AllQuiet(ys, p, s, e) == AllQuiet(xs, p, s, e);
    }
  }

  lemma NothingCloses(xs: seq<int>, x: int, p: Params, spans: seq<SampleSpan>)
    requires p.window >= 1 && IsDropoutReport(xs, p, spans)
    requires QuietAt(xs + [x], p, Positions(xs, p)) || !QuietAt(xs, p, Positions(xs, p) - 1) || Positions(xs, p) < 0
    ensures IsDropoutReport(xs + [x], p, spans)
  {
    var ys, m := xs + [x], Positions(xs, p);
    OldPositions(xs, x, p);
    forall s, e | IsDropout(ys, p, s, e) ensures SampleSpan(s, e) in spans {
      assert QuietAt(ys, p, e - 1);
      DropoutsGrow(xs, x, p, s, e);
    }
    forall d | d in spans ensures IsDropout(ys, p, d.start, d.end) {
      DropoutsGrow(xs, x, p, d.start, d.end);
    }
  }

  lemma RunCloses(xs: seq<int>, x: int, p: Params, d: DropoutState)
    requires p.window >= 1 && RunTracks(xs, p, d) && d.inRun && IsDropoutReport(xs, p, d.spans)
    requires Positions(xs, p) >= 0 && !QuietAt(xs + [x], p, Positions(xs, p))
    ensures var m := Positions(xs, p);
      var added := if d.runStart != 0 && m - d.runStart >= p.minSpan then [SampleSpan(d.runStart, m)] else [];
      IsDropoutReport(xs + [x], p, d.spans + added)
  {
    var ys, m := xs + [x], Positions(xs, p);
    var added := if d.runStart != 0 && m - d.runStart >= p.minSpan then [SampleSpan(d.runStart, m)] else [];
    OldPositions(xs, x, p);
    hide QuietAt;
    forall s, e | IsDropout(ys, p, s, e) ensures SampleSpan(s, e) in d.spans + added {
      DropoutsGrow(xs, x, p, s, e);
      if e == m {
        RunStartIsUnique(ys, p, s, d.runStart, m);
      }
    }
    forall c | c in d.spans + added ensures IsDropout(ys, p, c.start, c.end) {
      DropoutsGrow(xs, x, p, c.start, c.end);
    }
    EndsBeforeRun(xs, p, d);
  }

  lemma RunStartIsUnique(xs: seq<int>, p: Params, a: int, b: int, e: int)
    requires a < e && b < e
    requires AllQuiet(xs, p, a, e) && AllQuiet(xs, p, b, e) && !QuietAt(xs, p, a - 1) && !QuietAt(xs, p, b - 1)
    ensures a == b
  {
    hide QuietAt;
    assert a < b ==> QuietAt(xs, p, b - 1);
    assert b < a ==> QuietAt(xs, p, a - 1);
  }

  /** Emitted spans end before the open run starts. */
  lemma EndsBeforeRun(xs: seq<int>, p: Params, d: DropoutState)
    requires RunTracks(xs, p, d) && d.inRun && IsDropoutReport(xs, p, d.spans)
    ensures forall c :: c in d.spans ==> c.end < d.runStart
  {
    forall c | c in d.spans ensures c.end < d.runStart {
      assert !QuietAt(xs, p, c.end) && c.end < Positions(xs, p);
      if c.end == d.runStart - 1 {
      }
    }
  }

  lemma StepTracks(xs: seq<int>, x: int, p: Params, d: DropoutState)
    requires Tracks(xs, p, d)
    ensures Tracks(xs + [x], p, Step(d, p, |xs|, x))
  {
    SlideTracks(xs, x, p, d);
    var slid := Slide(d, p, x);
    assert slid.inRun == d.inRun && slid.runStart == d.runStart && slid.spans == d.spans;
    hide Judge;
    JudgeTracks(xs, x, p, slid);
  }

  /** With peaks of at most 2^15 and a window of at most 2^28 samples the
      running sum needs no overflow check. */
  lemma {:induction false} EnergyIsBounded(xs: seq<int>)
    requires forall i :: 0 <= i < |xs| ==> 0 <= xs[i] <= 0x8000
    ensures 0 <= Energy(xs) <= |xs| * 0x4000_0000
  {
    if xs != [] {
      EnergyIsBounded(xs[..|xs| - 1]);
      var x := xs[|xs| - 1];
      Products.Monotone(x, 0, x);
      Products.Monotone(x, x, 0x8000);
    }
  }
}
