/** What a run of decoder events amounts to: the frames that count, the PCM
    stream they form, and the sequences measured on it. */
module DecodedStream {
  import opened MachineInts
  import opened Options
  import opened Pcm
  import opened Blocks
  import Products

  datatype StopReason = ChannelsChanged | SampleFormatChanged | SampleRateChanged | ChannelLayoutChanged
                      | ConsecutiveErrorLimit | NonFiniteOrOutOfRange

  /** What the decoder hands over: a frame, or the error limit being hit. */
  datatype Event = Decoded(frame: Frame) | GaveUp

  function EffectiveRate(f: Frame, declared: int): int {
    if f.rate > 0 then f.rate else declared
  }

  /** The first difference from the first frame's shape, in a fixed order. */
  function Mismatch(first: Frame, f: Frame, declared: int): Option<StopReason> {
    if f.channels != first.channels then Some(ChannelsChanged)
    else if f.format != first.format then Some(SampleFormatChanged)
    else if EffectiveRate(f, declared) != EffectiveRate(first, declared) then Some(SampleRateChanged)
    else if f.layout != first.layout then Some(ChannelLayoutChanged)
    else None
  }

  /** The frames that count so far, and why no more will. */
  datatype Accepted = Accepted(frames: seq<Frame>, stop: Option<StopReason>)

  function Admit(a: Accepted, e: Event, declared: int): Accepted {
    if a.stop.Some? then a
    else match e
      case GaveUp => a.(stop := Some(ConsecutiveErrorLimit))
      case Decoded(f) =>
        if !HasSamples(f) then a
        else if a.frames == [] then a.(frames := [f])
        else
          var m := Mismatch(a.frames[0], f, declared);
          if m.Some? then a.(stop := m) else a.(frames := a.frames + [f])
  }

  function Accept(events: seq<Event>, declared: int): Accepted {
    if events == [] then Accepted([], None) else Admit(Accept(events[..|events| - 1], declared), events[|events| - 1], declared)
  }

  lemma AcceptSnoc(events: seq<Event>, e: Event, declared: int)
    ensures Accept(events + [e], declared) == Admit(Accept(events, declared), e, declared)
  {
    assert (events + [e])[..|events|] == events;
  }

  /** The decoded frames that carry samples. */
  function Sampled(events: seq<Event>): (r: seq<Frame>)
    ensures forall f :: f in r ==> HasSamples(f)
  {
    if events == [] then []
    else
      var e := events[|events| - 1];
      Sampled(events[..|events| - 1]) + (if e.Decoded? && HasSamples(e.frame) then [e.frame] else [])
  }

  /** The shape a frame is held to: channels, format, the rate it declares or
      the stream's, and layout. */
  predicate MatchesFirst(first: Frame, f: Frame, declared: int) {
    && f.channels == first.channels && f.format == first.format
    && (if f.rate > 0 then f.rate else declared) == (if first.rate > 0 then first.rate else declared)
    && f.layout == first.layout
  }

  /** r names the first of the four in which f differs from the first frame. */
  predicate FirstDifference(first: Frame, f: Frame, declared: int, r: StopReason) {
    match r
    case ChannelsChanged => f.channels != first.channels
    case SampleFormatChanged => f.channels == first.channels && f.format != first.format
    case SampleRateChanged =>
      && f.channels == first.channels && f.format == first.format
      && (if f.rate > 0 then f.rate else declared) != (if first.rate > 0 then first.rate else declared)
    case ChannelLayoutChanged => !MatchesFirst(first, f, declared) && MatchesFirst(first, f.(layout := first.layout), declared)
    case _ => false
  }

  /** All frames share the first one's shape. */
  predicate Uniform(frames: seq<Frame>, declared: int) {
    forall f :: f in frames ==> MatchesFirst(frames[0], f, declared)
  }

  /** The event that stops the stream after frames, and why. */
  predicate Stops(frames: seq<Frame>, e: Event, declared: int, r: StopReason) {
    match e
    case GaveUp => r == ConsecutiveErrorLimit
    case Decoded(f) => HasSamples(f) && frames != [] && FirstDifference(frames[0], f, declared, r)
  }

  /** The k events before the stop contribute all their frames, the event at k
      is the first to stop the stream, and no later event contributes. */
  ghost predicate StopsAt(events: seq<Event>, declared: int, a: Accepted, k: nat) {
    && k <= |events|
    && a.frames == Sampled(events[..k]) && Uniform(a.frames, declared)
    && (forall i :: 0 <= i < k ==> events[i].Decoded?)
    && match a.stop
       case None => k == |events|
       case Some(r) => k < |events| && Stops(a.frames, events[k], declared, r)
  }

  lemma MismatchIsFirstDifference(first: Frame, f: Frame, declared: int)
    ensures Mismatch(first, f, declared) == None <==> MatchesFirst(first, f, declared)
    ensures forall r :: Mismatch(first, f, declared) == Some(r) <==> FirstDifference(first, f, declared, r)
  {}

  /** Exactly the frames before the first shape mismatch, or before the decoder
      gave up, contribute. */
  lemma {:induction false} AcceptedIsLongestMatchingPrefix(events: seq<Event>, declared: int) returns (k: nat)
    ensures StopsAt(events, declared, Accept(events, declared), k)
  {
    if events == [] {
      k := 0;
      return;
    }
    var before, e := events[..|events| - 1], events[|events| - 1];
    k := AcceptedIsLongestMatchingPrefix(before, declared);
    assert Accept(events, declared) == Admit(Accept(before, declared), e, declared);
    assert events == before + [e];
    hide *;
    k := OneMoreEvent(before, e, declared, Accept(before, declared), k);
  }

  lemma OneMoreEvent(before: seq<Event>, e: Event, declared: int, a: Accepted, k: nat) returns (k': nat)
    requires StopsAt(before, declared, a, k)
    ensures StopsAt(before + [e], declared, Admit(a, e, declared), k')
  {
    var events := before + [e];
    assert before[..k] == events[..k];
    k' := k;
    if a.stop.None? {
      assert before[..|before|] == before && events[..|events| - 1] == before;
      if e.Decoded? && a.frames != [] {
        MismatchIsFirstDifference(a.frames[0], e.frame, declared);
      }
      if Admit(a, e, declared).stop.None? {
        k' := |events|;
        assert events[..|events|] == events;
        assert Sampled(events) == Sampled(before) + if HasSamples(e.frame) then [e.frame] else [];
      }
    }
    hide Mismatch, MatchesFirst, FirstDifference, HasSamples, Sampled;
  }

  /** The frames before the first one that differs from the first frame are the
      ones that count, and the first field in which it differs is the reason. */
  predicate StopsAtFirstDifference(s: seq<Frame>, declared: int, a: Accepted, k: nat) {
    && k <= |s| && a.frames == s[..k] && Uniform(s[..k], declared)
    && match a.stop
       case None => k == |s|
       case Some(r) => 0 < k < |s| && FirstDifference(s[0], s[k], declared, r)
  }

  /** While the decoder never gives up, acceptance stops exactly at the first
      frame with samples that differs in shape from the first such frame. */
  lemma {:induction false} AcceptanceStopsAtFirstDifference(events: seq<Event>, declared: int) returns (k: nat)
    requires forall e :: e in events ==> e.Decoded?
    ensures StopsAtFirstDifference(Sampled(events), declared, Accept(events, declared), k)
  {
    if events == [] {
      k := 0;
      return;
    }
    var before, e := events[..|events| - 1], events[|events| - 1];
    k := AcceptanceStopsAtFirstDifference(before, declared);
    assert e in events;
    var s, a := Sampled(before), Accept(before, declared);
    assert Accept(events, declared) == Admit(a, e, declared);
    assert Sampled(events) == s + if HasSamples(e.frame) then [e.frame] else [];
    hide *;
    if HasSamples(e.frame) {
      k := SampledFrameAdmitted(s, a, e.frame, declared, k);
    } else {
      EmptyFrameSkipped(s, a, e.frame, declared);
    }
  }

  lemma EmptyFrameSkipped(s: seq<Frame>, a: Accepted, f: Frame, declared: int)
    requires !HasSamples(f)
    ensures Admit(a, Decoded(f), declared) == a && s + [] == s
  {}

  lemma SampledFrameAdmitted(s: seq<Frame>, a: Accepted, f: Frame, declared: int, k: nat) returns (k': nat)
    requires HasSamples(f) && StopsAtFirstDifference(s, declared, a, k)
    ensures StopsAtFirstDifference(s + [f], declared, Admit(a, Decoded(f), declared), k')
  {
    var t := s + [f];
    assert t[..k] == s[..k];
    k' := k;
    if a.stop.None? {
      assert s[..k] == s;
      if s != [] {
        MismatchIsFirstDifference(s[0], f, declared);
      }
      if s == [] || MatchesFirst(s[0], f, declared) {
        k' := |t|;
        assert t[..|t|] == t;
      }
    }
    hide Mismatch, MatchesFirst, FirstDifference;
  }

  // ---------------------------------------------------------------------
  // The PCM stream of the accepted frames.
  // ---------------------------------------------------------------------

  predicate Good(frames: seq<Frame>) {
    forall f :: f in frames ==> HasSamples(f) && Backed(f)
  }

  predicate AllBacked(events: seq<Event>) {
    forall e :: e in events && e.Decoded? ==> Backed(e.frame)
  }

  lemma {:induction false} AcceptedAreGood(events: seq<Event>, declared: int)
    requires AllBacked(events)
    ensures Good(Accept(events, declared).frames) && Uniform(Accept(events, declared).frames, declared)
  {
    if events != [] {
      AcceptedAreGood(events[..|events| - 1], declared);
      assert events[|events| - 1] in events;
    }
  }

  function TotalSamples(frames: seq<Frame>): int {
    if frames == [] then 0 else TotalSamples(frames[..|frames| - 1]) + frames[|frames| - 1].samples
  }

  /** The packed bytes of all frames, one after the other. */
  function Stream(frames: seq<Frame>): seq<Byte>
    requires Good(frames)
  {
    if frames == [] then [] else Stream(frames[..|frames| - 1]) + PcmOf(frames[|frames| - 1])
  }

  lemma StreamSnoc(frames: seq<Frame>, f: Frame)
    requires Good(frames) && HasSamples(f) && Backed(f)
    ensures Good(frames + [f])
    ensures Stream(frames + [f]) == Stream(frames) + PcmOf(f)
    ensures TotalSamples(frames + [f]) == TotalSamples(frames) + f.samples
  {
    assert (frames + [f])[..|frames|] == frames;
  }

  /** Every frame has size bytes per tuple of channel samples. */
  predicate TuplesOf(frames: seq<Frame>, size: int) {
    forall f :: f in frames ==> SampleSize(f) == size
  }

  /** The stream holds one tuple of channel samples per counted sample. */
  lemma {:induction false} StreamLength(frames: seq<Frame>, size: int)
    requires Good(frames) && TuplesOf(frames, size)
    ensures |Stream(frames)| == TotalSamples(frames) * size && TotalSamples(frames) >= 0
  {
    if frames != [] {
      var front, last := frames[..|frames| - 1], frames[|frames| - 1];
      assert last in frames && frames == front + [last];
      hide HasSamples, Backed, SampleSize, Stream, TotalSamples;
      assert forall f :: f in front ==> f in frames;
      StreamLength(front, size);
      StreamLengthStep(front, last, size);
    }
  }

  lemma StreamLengthStep(front: seq<Frame>, last: Frame, size: int)
    requires Good(front) && HasSamples(last) && Backed(last) && SampleSize(last) == size
    requires |Stream(front)| == TotalSamples(front) * size && TotalSamples(front) >= 0
    ensures Good(front + [last])
    ensures |Stream(front + [last])| == TotalSamples(front + [last]) * size && TotalSamples(front + [last]) >= 0
  {
    StreamSnoc(front, last);
    FrameLength(last, size);
    hide *;
    Products.Distribute(size, TotalSamples(front), last.samples);
  }

  lemma FrameLength(f: Frame, size: int)
    requires HasSamples(f) && Backed(f) && SampleSize(f) == size
    ensures |PcmOf(f)| == f.samples * size && f.samples > 0
  {}

  /** The duration of a block in samples: a tenth of a second, at least one. */
  function BlockSamples(rate: int): (n: int)
    ensures n >= 1
    ensures if rate < 10 then n == 1 else 10 * n <= rate < 10 * (n + 1)
  {
    if rate > 0 && rate / 10 > 1 then rate / 10 else 1
  }

  function BlockStride(first: Frame, declared: int): (n: int)
    requires HasSamples(first)
    ensures n > 0
  {
    PositiveLength(first);
    StrideIsProduct(first, declared);
    BlockSamples(EffectiveRate(first, declared)) * first.channels * BytesPerSample(first.format)
  }

  lemma StrideIsProduct(first: Frame, declared: int)
    requires HasSamples(first)
    ensures BlockSamples(EffectiveRate(first, declared)) * first.channels * BytesPerSample(first.format)
         == BlockSamples(EffectiveRate(first, declared)) * SampleSize(first) > 0
  {
    var n := BlockSamples(EffectiveRate(first, declared));
    PositiveLength(first);
    Products.Associate(n, first.channels, BytesPerSample(first.format));
    Products.Monotone(SampleSize(first), 1, n);
  }

  /** There are ceil(total / block samples) blocks. */
  lemma BlocksPerSamples(frames: seq<Frame>, declared: int)
    requires Good(frames) && Uniform(frames, declared) && frames != []
    ensures var n := BlockSamples(EffectiveRate(frames[0], declared));
      |AllBlocks(Stream(frames), BlockStride(frames[0], declared))| == (TotalSamples(frames) + n - 1) / n
  {
    var first := frames[0];
    var n, size := BlockSamples(EffectiveRate(first, declared)), SampleSize(first);
    StrideIsProduct(first, declared);
    assert BlockStride(first, declared) == n * size;
    assert TuplesOf(frames, size);
    PositiveLength(first);
    hide *;
    StreamLength(frames, size);
    AllBlocksPartition(Stream(frames), BlockStride(first, declared));
    ScaledCeiling(TotalSamples(frames), n, size);
  }

  lemma ScaledCeiling(t: int, n: int, size: int)
    requires t >= 0 && n >= 1 && size >= 1
    ensures n * size > 0 && (t * size + n * size - 1) / (n * size) == (t + n - 1) / n
  {
    Products.Monotone(size, 1, n);
    var q, r := (t + n - 1) / n, (t + n - 1) % n;
    var d := n * size;
    assert t + n - 1 == n * q + r;
    assert t * size + d - 1 == d * q + (r * size + size - 1) by {
      Products.Distribute(size, t, n);
      Products.Distribute(size, n * q, r + 1);
      Products.Distribute(size, r, 1);
      Products.Associate(q, n, size);
      assert (n * q) * size == d * q;
    }
    Products.Distribute(size, r, 1);
    Products.Monotone(size, r + 1, n);
    Products.Monotone(size, 0, r);
    Products.DivModUnique(t * size + d - 1, d, q, r * size + size - 1);
  }

  // ---------------------------------------------------------------------
  // Levels: the peak of each sample tuple, and the values that cannot be
  // measured. The two readings of a value's bytes are parameters.
  // ---------------------------------------------------------------------

  type Amplitude = (PackedFormat, seq<Byte>) -> int
  type Unreadable = (PackedFormat, seq<Byte>) -> bool

  /** The largest magnitude among the first c channels of a sample tuple. */
  function PeakUpTo(amplitude: Amplitude, fmt: PackedFormat, tuple: seq<Byte>, c: nat): (p: nat)
    requires |tuple| >= c * BytesPerSample(fmt)
  {
    if c == 0 then 0
    else
      var bps := BytesPerSample(fmt);
      ChannelSlice(bps, c - 1);
      var before := PeakUpTo(amplitude, fmt, tuple, c - 1);
      var x := Abs(amplitude(fmt, tuple[(c - 1) * bps..(c - 1) * bps + bps]));
      if x > before then x else before
  }

  /** The peak is at least every channel's magnitude, and one of them. */
  lemma {:induction false} PeakIsLargest(amplitude: Amplitude, fmt: PackedFormat, tuple: seq<Byte>, c: nat)
      returns (at: nat)
    requires c > 0 && |tuple| >= c * BytesPerSample(fmt)
    ensures at < c && PeakUpTo(amplitude, fmt, tuple, c) == ChannelMagnitude(amplitude, fmt, tuple, at)
    ensures forall k: nat :: k < c ==> ChannelMagnitude(amplitude, fmt, tuple, k) <= PeakUpTo(amplitude, fmt, tuple, c)
  {
    ChannelSlice(BytesPerSample(fmt), c - 1);
    at := c - 1;
    if c > 1 {
      var before := PeakIsLargest(amplitude, fmt, tuple, c - 1);
      if ChannelMagnitude(amplitude, fmt, tuple, c - 1) <= PeakUpTo(amplitude, fmt, tuple, c - 1) {
        at := before;
      }
    }
  }

  /** The magnitude of channel k's bytes in a sample tuple. */
  function ChannelMagnitude(amplitude: Amplitude, fmt: PackedFormat, tuple: seq<Byte>, k: nat): nat {
    var n := BytesPerSample(fmt);
    if 0 <= k * n && k * n + n <= |tuple| then Abs(amplitude(fmt, tuple[k * n..k * n + n])) else 0
  }

  lemma ChannelSlice(bps: nat, c: nat)
    ensures 0 <= c * bps && (c + 1) * bps == c * bps + bps
  {
    Products.Distribute(bps, c, 1);
    Products.Monotone(bps, 0, c);
  }

  /** One peak per sample tuple of the stream. */
  function Peaks(amplitude: Amplitude, fmt: PackedFormat, channels: int, s: seq<Byte>): (p: seq<int>)
    requires channels > 0 && BytesPerSample(fmt) > 0
  {
    Products.Monotone(channels, 1, BytesPerSample(fmt));
    PeaksOf(amplitude, fmt, channels, FullBlocks(s, channels * BytesPerSample(fmt)))
  }

  function PeaksOf(amplitude: Amplitude, fmt: PackedFormat, channels: nat, tuples: seq<seq<Byte>>): (p: seq<int>)
    ensures |p| == |tuples|
  {
    seq(|tuples|, i requires 0 <= i < |tuples| =>
      if |tuples[i]| >= channels * BytesPerSample(fmt) then PeakUpTo(amplitude, fmt, tuples[i], channels) else 0)
  }

  /** A later frame appends its own peaks. */
  lemma PeaksAppend(amplitude: Amplitude, fmt: PackedFormat, channels: int, s: seq<Byte>, t: seq<Byte>, n: int)
    requires channels > 0 && BytesPerSample(fmt) > 0
    requires |s| == n * (channels * BytesPerSample(fmt)) && n >= 0
    ensures Peaks(amplitude, fmt, channels, s + t) == Peaks(amplitude, fmt, channels, s) + Peaks(amplitude, fmt, channels, t)
  {
    var size := channels * BytesPerSample(fmt);
    Products.Monotone(channels, 1, BytesPerSample(fmt));
    FeedingContinues(s, t, size);
    FullBlocksCover(s, size);
    Products.DivModUnique(|s|, size, n, 0);
    assert Rest(s, size) + t == t;
  }

  predicate IsFloating(fmt: PackedFormat) {
    fmt == Flt || fmt == Dbl
  }

  /** Some value of the stream cannot be measured. */
  predicate HasUnreadable(unreadable: Unreadable, fmt: PackedFormat, s: seq<Byte>) {
    IsFloating(fmt) && exists v :: v in FullBlocks(s, BytesPerSample(fmt)) && unreadable(fmt, v)
  }

  lemma UnreadableAppends(unreadable: Unreadable, fmt: PackedFormat, s: seq<Byte>, t: seq<Byte>, n: int)
    requires BytesPerSample(fmt) > 0 && n >= 0 && |s| == n * BytesPerSample(fmt)
    ensures HasUnreadable(unreadable, fmt, s + t) <==> HasUnreadable(unreadable, fmt, s) || HasUnreadable(unreadable, fmt, t)
  {
    var bps := BytesPerSample(fmt);
    FeedingContinues(s, t, bps);
    FullBlocksCover(s, bps);
    Products.DivModUnique(|s|, bps, n, 0);
    assert Rest(s, bps) + t == t;
  }

  /** The first frames, when there are any, have one shape. */
  predicate FirstsAgree(a: seq<Frame>, b: seq<Frame>, declared: int) {
    a != [] && b != [] ==> MatchesFirst(a[0], b[0], declared)
  }

  /** The same PCM in other frames is the same number of samples. */
  lemma SameStreamSameLength(a: seq<Frame>, b: seq<Frame>, declared: int)
    requires Good(a) && Good(b) && Uniform(a, declared) && Uniform(b, declared)
    requires FirstsAgree(a, b, declared) && Stream(a) == Stream(b)
    ensures TotalSamples(a) == TotalSamples(b) && (a == [] <==> b == [])
  {
    if a == [] || b == [] {
      EmptyStream(a);
      EmptyStream(b);
    } else {
      SharedTupleSize(a, b, declared);
    }
  }

  lemma EmptyStream(a: seq<Frame>)
    requires Good(a)
    ensures Stream(a) == [] <==> a == []
  {
    if a != [] {
      PositiveLength(a[|a| - 1]);
    }
  }

  lemma SharedTupleSize(a: seq<Frame>, b: seq<Frame>, declared: int)
    requires Good(a) && Good(b) && Uniform(a, declared) && Uniform(b, declared) && a != [] && b != []
    requires MatchesFirst(a[0], b[0], declared) && Stream(a) == Stream(b)
    ensures TotalSamples(a) == TotalSamples(b)
  {
    var size := SampleSize(a[0]);
    PositiveLength(a[0]);
    assert TuplesOf(a, size) && TuplesOf(b, size) by {
      hide HasSamples, Backed, EffectiveRate;
    }
    hide *;
    StreamLength(a, size);
    StreamLength(b, size);
    if TotalSamples(a) != TotalSamples(b) {
      Products.Cancel(size, TotalSamples(a), TotalSamples(b));
    }
  }
}
