/** The decode sink: one object that receives decoded frames one at a time,
    cuts their PCM into digested blocks and watches for silence. */
module AudioDecode {
  import opened MachineInts
  import opened Options
  import opened Pcm
  import opened Blocks
  import opened DecodedStream
  import opened SampleSpans
  import EdgeSilence
  import Dropouts
  import Products
  import opened DecodeErrors

  type Digest = seq<Byte> -> seq<Byte>

  function Digests(digest: Digest, blocks: seq<seq<Byte>>): (r: seq<seq<Byte>>)
    ensures |r| == |blocks| && forall i :: 0 <= i < |r| ==> r[i] == digest(blocks[i])
  {
    seq(|blocks|, i requires 0 <= i < |blocks| => digest(blocks[i]))
  }

  function AtLeastOne(n: int): int {
    if n < 1 then 1 else n
  }

  /** The formats the level meters read. */
  predicate IsMetered(f: PackedFormat) {
    f == S16 || f == S32 || IsFloating(f)
  }

  function Hysteresis(rate: int): int {
    AtLeastOne(rate * 5 / 1000)
  }

  function DropoutParams(rate: int, threshold: int): Dropouts.Params {
    Dropouts.Params(AtLeastOne(rate * 100 / 1000), threshold * threshold, AtLeastOne(rate * 150 / 1000))
  }

  /** The lengths the silence detectors work with are the whole samples in 5,
      100 and 150 milliseconds, and at least one. */
  lemma DetectorLengths(rate: int, threshold: int)
    requires rate > 0
    ensures var h, p := Hysteresis(rate), DropoutParams(rate, threshold);
      && (if rate < 200 then h == 1 else 200 * h <= rate < 200 * (h + 1))
      && (if rate < 10 then p.window == 1 else 10 * p.window <= rate < 10 * (p.window + 1))
      && (if 3 * rate < 20 then p.minSpan == 1 else 20 * p.minSpan <= 3 * rate < 20 * (p.minSpan + 1))
      && p.thresholdSq == threshold * threshold
  {}

  /** The peaks of all frames so far. */
  ghost function PeaksSoFar(amplitude: Amplitude, frames: seq<Frame>): seq<int>
    requires Good(frames)
  {
    if frames == [] then [] else
      assert frames[0] in frames;
      Peaks(amplitude, frames[0].format, frames[0].channels, Stream(frames))
  }

  /** Why level measurement stopped: a value that cannot be measured in what was
      accepted, or the end of acceptance itself. */
  ghost function LevelStop(unreadable: Unreadable, frames: seq<Frame>, stop: Option<StopReason>): Option<StopReason>
    requires Good(frames)
  {
    if frames != [] && HasUnreadable(unreadable, frames[0].format, Stream(frames)) then Some(NonFiniteOrOutOfRange) else stop
  }

  lemma {:induction false} FullBlockAt(s: seq<Byte>, stride: int, i: nat)
    requires stride > 0 && i < |FullBlocks(s, stride)|
    ensures 0 <= i * stride <= i * stride + stride <= |s|
    ensures FullBlocks(s, stride)[i] == s[i * stride..i * stride + stride]
    decreases i
  {
    if i > 0 {
      var rest := s[stride..];
      assert FullBlocks(s, stride)[i] == FullBlocks(rest, stride)[i - 1];
      FullBlockAt(rest, stride, i - 1);
      var at := (i - 1) * stride;
      assert i * stride == at + stride by {
        Products.Distribute(stride, i - 1, 1);
      }
      hide FullBlocks;
      assert rest[at..at + stride] == s[at + stride..at + stride + stride];
    }
  }

  class AudioDecodeState {
    const digest: Digest
    const amplitude: Amplitude
    const unreadable: Unreadable
    const edgeThreshold: int
    const dropoutThreshold: int
    const declaredRate: int
    const hashEnabled: bool
    const bound: ConsecutiveDecodeErrorBound

    // Set by the first frame.
    var configuredFormat: Option<PackedFormat>
    var sampleRate: int
    var channels: int
    var layout: string
    var blockSamples: int
    var blockStride: int
    var silenceSupported: bool
    var edgeHysteresis: int
    var dropoutWindow: int
    var dropoutThresholdSq: int
    var dropoutMinSpan: int

    var totalSamples: int
    var pendingBlock: seq<Byte>
    var blockDigests: seq<seq<Byte>>
    var truncation: Option<StopReason>
    var levelStop: Option<StopReason>
    var decodeErrorCount: nat

    // The silence detectors.
    var anySampleConsumed: bool
    var nextSampleIndex: int
    var edgeInRun: bool
    var edgeRunStart: int
    var edgeBelowStreak: int
    var edgeCandidateStart: int
    var edgeAboveStreak: int
    var edgeSpans: seq<SampleSpan>
    var dropoutSumSq: int
    var dropoutSquares: seq<int>
    var dropoutInRun: bool
    var dropoutRunStart: int
    var dropoutSpans: seq<SampleSpan>

    /** Everything the decoder has handed over. */
    ghost var events: seq<Event>

    ghost function EdgeNow(): EdgeSilence.EdgeState
      reads `edgeInRun, `edgeRunStart, `edgeBelowStreak, `edgeCandidateStart, `edgeAboveStreak, `edgeSpans
    {
      EdgeSilence.EdgeState(edgeInRun, edgeRunStart, edgeBelowStreak, edgeCandidateStart, edgeAboveStreak, edgeSpans)
    }

    ghost function DropoutNow(): Dropouts.DropoutState
      reads `dropoutSumSq, `dropoutSquares, `dropoutInRun, `dropoutRunStart, `dropoutSpans
    {
      Dropouts.DropoutState(dropoutSumSq, dropoutSquares, dropoutInRun, dropoutRunStart, dropoutSpans)
    }

    ghost function ParamsNow(): Dropouts.Params
      reads `dropoutWindow, `dropoutThresholdSq, `dropoutMinSpan
    {
      Dropouts.Params(dropoutWindow, dropoutThresholdSq, dropoutMinSpan)
    }

    /** The configuration is the first frame's. */
    ghost predicate ConfiguredFor(first: Frame)
      requires HasSamples(first)
      reads `configuredFormat, `channels, `layout, `sampleRate, `blockSamples, `blockStride, `silenceSupported,
            `edgeHysteresis, `dropoutWindow, `dropoutThresholdSq, `dropoutMinSpan
    {
      && configuredFormat == Some(first.format) && channels == first.channels && layout == first.layout
      && sampleRate == EffectiveRate(first, declaredRate)
      && blockSamples == BlockSamples(sampleRate) && blockStride == BlockStride(first, declaredRate)
      && silenceSupported == (IsMetered(first.format) && sampleRate > 0)
      && (silenceSupported ==>
            edgeHysteresis == Hysteresis(sampleRate) && ParamsNow() == DropoutParams(sampleRate, dropoutThreshold))
    }

    ghost predicate ConfiguredByFirst(frames: seq<Frame>)
      requires Good(frames) && frames != []
      reads `configuredFormat, `channels, `layout, `sampleRate, `blockSamples, `blockStride, `silenceSupported,
            `edgeHysteresis, `dropoutWindow, `dropoutThresholdSq, `dropoutMinSpan
    {
      assert frames[0] in frames;
      ConfiguredFor(frames[0])
    }

    /** The hash chain has consumed the bytes s. */
    ghost predicate HashHolds(s: seq<Byte>)
      reads `pendingBlock, `blockDigests, `blockStride
    {
      if hashEnabled && blockStride > 0 then
        pendingBlock == Rest(s, blockStride) && blockDigests == Digests(digest, FullBlocks(s, blockStride))
      else pendingBlock == [] && blockDigests == []
    }

    ghost predicate EdgeHolds(xs: seq<int>)
      reads `edgeHysteresis, `edgeInRun, `edgeRunStart, `edgeBelowStreak, `edgeCandidateStart, `edgeAboveStreak, `edgeSpans
    {
      EdgeSilence.Tracks(xs, edgeThreshold, edgeHysteresis, EdgeNow())
    }

    ghost predicate DropoutHolds(xs: seq<int>)
      reads `dropoutWindow, `dropoutThresholdSq, `dropoutMinSpan, `dropoutSumSq, `dropoutSquares, `dropoutInRun, `dropoutRunStart, `dropoutSpans
    {
      Dropouts.Tracks(xs, ParamsNow(), DropoutNow())
    }

    /** The detectors have consumed the peaks xs. */
    ghost predicate DetectorsHold(xs: seq<int>)
      reads `nextSampleIndex, `edgeHysteresis, `edgeInRun, `edgeRunStart, `edgeBelowStreak, `edgeCandidateStart, `edgeAboveStreak, `edgeSpans,
            `dropoutWindow, `dropoutThresholdSq, `dropoutMinSpan, `dropoutSumSq, `dropoutSquares, `dropoutInRun, `dropoutRunStart, `dropoutSpans
    {
      nextSampleIndex == |xs| && EdgeHolds(xs) && DropoutHolds(xs)
    }

    ghost predicate Untouched()
      reads `configuredFormat, `pendingBlock, `blockDigests, `anySampleConsumed, `nextSampleIndex, `silenceSupported,
            `edgeInRun, `edgeRunStart, `edgeBelowStreak, `edgeCandidateStart, `edgeAboveStreak, `edgeSpans,
            `dropoutSumSq, `dropoutSquares, `dropoutInRun, `dropoutRunStart, `dropoutSpans
    {
      && configuredFormat == None && pendingBlock == [] && blockDigests == []
      && !anySampleConsumed && nextSampleIndex == 0 && !silenceSupported
      && EdgeNow() == EdgeSilence.INITIAL && DropoutNow() == Dropouts.INITIAL
    }

    /** The sinks have consumed exactly the frames. */
    ghost predicate Consumed(frames: seq<Frame>)
      requires Good(frames)
      reads `configuredFormat, `sampleRate, `channels, `layout, `blockSamples, `blockStride, `silenceSupported, `edgeHysteresis,
            `dropoutWindow, `dropoutThresholdSq, `dropoutMinSpan, `totalSamples, `pendingBlock, `blockDigests,
            `levelStop, `anySampleConsumed, `nextSampleIndex,
            `edgeInRun, `edgeRunStart, `edgeBelowStreak, `edgeCandidateStart, `edgeAboveStreak, `edgeSpans,
            `dropoutSumSq, `dropoutSquares, `dropoutInRun, `dropoutRunStart, `dropoutSpans
    {
      && totalSamples == TotalSamples(frames)
      && if frames == [] then Untouched()
         else ConfiguredByFirst(frames) && HashHolds(Stream(frames)) && LevelsHold(frames)
    }

    /** The level meters, unless they have been stopped, have consumed exactly
        the frames. */
    ghost predicate LevelsHold(frames: seq<Frame>)
      requires Good(frames)
      reads `levelStop, `anySampleConsumed, `silenceSupported, `nextSampleIndex, `edgeHysteresis,
            `edgeInRun, `edgeRunStart, `edgeBelowStreak, `edgeCandidateStart, `edgeAboveStreak, `edgeSpans,
            `dropoutWindow, `dropoutThresholdSq, `dropoutMinSpan, `dropoutSumSq, `dropoutSquares, `dropoutInRun, `dropoutRunStart, `dropoutSpans
    {
      levelStop == None ==>
        && anySampleConsumed == (silenceSupported && frames != [])
        && (silenceSupported ==> DetectorsHold(PeaksSoFar(amplitude, frames)))
    }

    ghost function Accepts(): (a: Accepted)
      requires AllBacked(events)
      reads `events
      ensures Good(a.frames) && Uniform(a.frames, declaredRate)
    {
      AcceptedAreGood(events, declaredRate);
      Accept(events, declaredRate)
    }

    /** The sinks are where the accepted frames and the stop put them. */
    ghost predicate Holds(a: Accepted)
      requires Good(a.frames)
      reads `configuredFormat, `sampleRate, `channels, `layout, `blockSamples, `blockStride, `silenceSupported, `edgeHysteresis,
            `dropoutWindow, `dropoutThresholdSq, `dropoutMinSpan, `totalSamples, `pendingBlock, `blockDigests,
            `truncation, `levelStop, `anySampleConsumed, `nextSampleIndex,
            `edgeInRun, `edgeRunStart, `edgeBelowStreak, `edgeCandidateStart, `edgeAboveStreak, `edgeSpans,
            `dropoutSumSq, `dropoutSquares, `dropoutInRun, `dropoutRunStart, `dropoutSpans
    {
      && truncation == a.stop
      && levelStop == LevelStop(unreadable, a.frames, a.stop)
      && Consumed(a.frames)
    }

    /** Every field is determined by what the decoder handed over. */
    ghost predicate Valid()
      reads `events, `configuredFormat, `sampleRate, `channels, `layout, `blockSamples, `blockStride, `silenceSupported, `edgeHysteresis,
            `dropoutWindow, `dropoutThresholdSq, `dropoutMinSpan, `totalSamples, `pendingBlock, `blockDigests,
            `truncation, `levelStop, `anySampleConsumed, `nextSampleIndex,
            `edgeInRun, `edgeRunStart, `edgeBelowStreak, `edgeCandidateStart, `edgeAboveStreak, `edgeSpans,
            `dropoutSumSq, `dropoutSquares, `dropoutInRun, `dropoutRunStart, `dropoutSpans
    {
      AllBacked(events) && Holds(Accepts())
    }

    /** The error limit is 64 in a row, and hitting it stops the stream. */
    ghost predicate BoundHolds()
      reads bound, `truncation
    {
      bound.limit == 64 && bound.Valid() && (bound.exhausted ==> truncation.Some?)
    }

    constructor (digest: Digest, amplitude: Amplitude, unreadable: Unreadable, edgeThreshold: int, dropoutThreshold: int,
                 declaredRate: int, hashEnabled: bool)
      ensures Valid() && events == [] && decodeErrorCount == 0
      ensures BoundHolds() && fresh(bound) && bound.history == []
    {
      this.digest, this.amplitude, this.unreadable := digest, amplitude, unreadable;
      this.edgeThreshold, this.dropoutThreshold := edgeThreshold, dropoutThreshold;
      this.declaredRate, this.hashEnabled := declaredRate, hashEnabled;
      bound := new ConsecutiveDecodeErrorBound(64);
      decodeErrorCount := 0;
      configuredFormat, sampleRate, channels, layout, blockSamples, blockStride := None, 0, 0, "", 0, 0;
      silenceSupported, edgeHysteresis, dropoutWindow, dropoutThresholdSq, dropoutMinSpan := false, 0, 0, 0, 0;
      totalSamples, pendingBlock, blockDigests, truncation, levelStop := 0, [], [], None, None;
      anySampleConsumed, nextSampleIndex := false, 0;
      edgeInRun, edgeRunStart, edgeBelowStreak, edgeCandidateStart, edgeAboveStreak, edgeSpans := false, 0, 0, 0, 0, [];
      dropoutSumSq, dropoutSquares, dropoutInRun, dropoutRunStart, dropoutSpans := 0, [], false, 0, [];
      events := [];
    }

    method LatchDecodeTruncation(reason: StopReason)
      modifies `truncation, `levelStop
      ensures truncation == if old(truncation).None? then Some(reason) else old(truncation)
      ensures levelStop == if old(levelStop).None? then Some(reason) else old(levelStop)
    {
      if truncation.None? {
        truncation := Some(reason);
      }
      if levelStop.None? {
        levelStop := Some(reason);
      }
    }

    method LatchLevelStop(reason: StopReason)
      modifies `levelStop
      ensures levelStop == if old(levelStop).None? then Some(reason) else old(levelStop)
    {
      if levelStop.None? {
        levelStop := Some(reason);
      }
    }

    method Configure(frame: Frame)
      requires HasSamples(frame)
      modifies `configuredFormat, `sampleRate, `channels, `layout, `blockSamples, `blockStride,
               `silenceSupported, `edgeHysteresis, `dropoutWindow, `dropoutThresholdSq, `dropoutMinSpan
      ensures ConfiguredFor(frame)
    {
      configuredFormat := Some(frame.format);
      channels := frame.channels;
      sampleRate := if frame.rate > 0 then frame.rate else declaredRate;
      blockSamples := AtLeastOne(if sampleRate > 0 then sampleRate / 10 else 1);
      blockStride := blockSamples * channels * BytesPerSample(frame.format);
      layout := frame.layout;
      silenceSupported := IsMetered(frame.format) && sampleRate > 0;
      if silenceSupported {
        edgeHysteresis := AtLeastOne(sampleRate * 5 / 1000);
        dropoutWindow := AtLeastOne(sampleRate * 100 / 1000);
        dropoutMinSpan := AtLeastOne(sampleRate * 150 / 1000);
        dropoutThresholdSq := dropoutThreshold * dropoutThreshold;
      }
    }

    /** Digests every full block at the front of the pending bytes. */
    method DigestFullBlocks()
      modifies `pendingBlock, `blockDigests
      ensures blockStride <= 0 ==> pendingBlock == old(pendingBlock) && blockDigests == old(blockDigests)
      ensures blockStride > 0 ==>
        && pendingBlock == Rest(old(pendingBlock), blockStride)
        && blockDigests == old(blockDigests) + Digests(digest, FullBlocks(old(pendingBlock), blockStride))
    {
      if blockStride <= 0 {
        return;
      }
      ghost var s, done := pendingBlock, [];
      NoDigests(digest, blockDigests, FullBlocks(s, blockStride));
      hide FullBlocks, Rest, Digests;
      while |pendingBlock| >= blockStride
        invariant FullBlocks(s, blockStride) == done + FullBlocks(pendingBlock, blockStride)
        invariant Rest(s, blockStride) == Rest(pendingBlock, blockStride)
        invariant blockDigests == old(blockDigests) + Digests(digest, done)
        decreases |pendingBlock|
      {
        NextBlock(pendingBlock, blockStride, done);
        var block := pendingBlock[..blockStride];
        DigestsSnoc(digest, old(blockDigests), done, block);
        blockDigests := blockDigests + [digest(block)];
        pendingBlock := pendingBlock[blockStride..];
        done := done + [block];
      }
      NoMoreBlocks(pendingBlock, blockStride, done);
    }

    /** The hash feed: appends the frame's bytes and digests what is full. */
    method FeedHash(pcm: seq<Byte>, ghost before: seq<Byte>)
      requires blockStride > 0 && HashHolds(before)
      modifies `pendingBlock, `blockDigests
      ensures HashHolds(before + pcm)
    {
      if hashEnabled {
        FeedingContinues(before, pcm, blockStride);
        DigestsAppend(digest, FullBlocks(before, blockStride), FullBlocks(pendingBlock + pcm, blockStride));
        pendingBlock := pendingBlock + pcm;
        DigestFullBlocks();
      }
    }

    /** Looks for a value that cannot be measured and stops the level meters at
        the first one. */
    method ScanLevels(scratch: seq<Byte>, format: PackedFormat, count: nat)
      requires BytesPerSample(format) > 0 && |scratch| == count * BytesPerSample(format)
      requires IsFloating(format) && levelStop.None?
      modifies `levelStop
      ensures levelStop == if HasUnreadable(unreadable, format, scratch) then Some(NonFiniteOrOutOfRange) else None
    {
      var bps := BytesPerSample(format);
      ghost var values := FullBlocks(scratch, bps);
      FullBlocksCover(scratch, bps);
      Products.DivModUnique(|scratch|, bps, count, 0);
      for i := 0 to count
        invariant levelStop.None? && forall k :: 0 <= k < i ==> !unreadable(format, values[k])
      {
        FullBlockAt(scratch, bps, i);
        if unreadable(format, scratch[i * bps..i * bps + bps]) {
          LatchLevelStop(NonFiniteOrOutOfRange);
          assert values[i] in values;
          return;
        }
      }
    }

    /** One sample of the hysteresis detector. */
    method ObserveEdge(i: int, peak: int, ghost xs: seq<int>)
      requires EdgeHolds(xs) && i == |xs|
      modifies `edgeInRun, `edgeRunStart, `edgeBelowStreak, `edgeCandidateStart, `edgeAboveStreak, `edgeSpans
      ensures EdgeNow() == EdgeSilence.Step(old(EdgeNow()), edgeThreshold, edgeHysteresis, i, peak)
      ensures EdgeHolds(xs + [peak])
    {
      EdgeSilence.StepTracks(xs, peak, edgeThreshold, edgeHysteresis, EdgeNow());
      hide EdgeSilence.Tracks;
      var belowEdge := peak < edgeThreshold;
      if !edgeInRun {
        if belowEdge {
          if edgeBelowStreak == 0 {
            edgeCandidateStart := i;
          }
          edgeBelowStreak := edgeBelowStreak + 1;
          if edgeBelowStreak >= edgeHysteresis {
            edgeInRun := true;
            edgeRunStart := edgeCandidateStart;
            edgeAboveStreak := 0;
          }
        } else {
          edgeBelowStreak := 0;
        }
      } else if belowEdge {
        edgeAboveStreak := 0;
      } else {
        edgeAboveStreak := edgeAboveStreak + 1;
        if edgeAboveStreak >= edgeHysteresis {
          var runEnd := i - edgeAboveStreak + 1;
          if edgeRunStart == 0 {
            edgeSpans := edgeSpans + [SampleSpan(edgeRunStart, runEnd)];
          }
          edgeInRun := false;
          edgeBelowStreak := 0;
        }
      }
    }

    /** One sample of the sliding-window detector: the window moves on, then
        its mean square is judged. */
    method ObserveDropout(i: int, peak: int, ghost xs: seq<int>)
      requires DropoutHolds(xs) && i == |xs|
      modifies `dropoutSumSq, `dropoutSquares, `dropoutInRun, `dropoutRunStart, `dropoutSpans
      ensures DropoutNow() == Dropouts.Step(old(DropoutNow()), ParamsNow(), i, peak)
      ensures DropoutHolds(xs + [peak])
    {
      Dropouts.StepTracks(xs, peak, ParamsNow(), DropoutNow());
      hide Dropouts.Tracks, Dropouts.Slide, Dropouts.Judge;
      SlideWindow(peak);
      JudgeWindow(i);
    }

    /** The newest square enters the window, and the oldest leaves a full one. */
    method SlideWindow(peak: int)
      modifies `dropoutSumSq, `dropoutSquares
      ensures DropoutNow() == Dropouts.Slide(old(DropoutNow()), ParamsNow(), peak)
    {
      var sq := peak * peak;
      dropoutSquares := dropoutSquares + [sq];
      dropoutSumSq := dropoutSumSq + sq;
      if |dropoutSquares| > dropoutWindow {
        dropoutSumSq := dropoutSumSq - dropoutSquares[0];
        dropoutSquares := dropoutSquares[1..];
      }
    }

    /** A full window's mean square opens, continues or closes a run. */
    method JudgeWindow(i: int)
      modifies `dropoutInRun, `dropoutRunStart, `dropoutSpans
      ensures DropoutNow() == Dropouts.Judge(old(DropoutNow()), ParamsNow(), i)
    {
      if |dropoutSquares| == dropoutWindow {
        var belowDropout := dropoutSumSq < dropoutThresholdSq * dropoutWindow;
        if belowDropout {
          if !dropoutInRun {
            dropoutInRun := true;
            dropoutRunStart := i - dropoutWindow + 1;
          }
        } else if dropoutInRun {
          var runEnd := i - dropoutWindow + 1;
          if dropoutRunStart != 0 && runEnd - dropoutRunStart >= dropoutMinSpan {
            dropoutSpans := dropoutSpans + [SampleSpan(dropoutRunStart, runEnd)];
          }
          dropoutInRun := false;
        }
      }
    }

    /** One sample of both detectors. */
    method ObserveSilenceSample(peak: int, ghost xs: seq<int>)
      requires DetectorsHold(xs)
      modifies `nextSampleIndex,
               `edgeInRun, `edgeRunStart, `edgeBelowStreak, `edgeCandidateStart, `edgeAboveStreak, `edgeSpans,
               `dropoutSumSq, `dropoutSquares, `dropoutInRun, `dropoutRunStart, `dropoutSpans
      ensures DetectorsHold(xs + [peak])
    {
      hide EdgeHolds, DropoutHolds, EdgeSilence.Step, Dropouts.Step;
      ObserveEdge(nextSampleIndex, peak, xs);
      ObserveDropout(nextSampleIndex, peak, xs);
      nextSampleIndex := nextSampleIndex + 1;
    }

    /** The peak over the channels of one sample tuple. */
    method TuplePeak(scratch: seq<Byte>, s: nat, format: PackedFormat, tupleChannels: nat) returns (peak: int)
      requires BytesPerSample(format) > 0 && tupleChannels > 0
      requires s < |FullBlocks(scratch, SizeOf(tupleChannels, format))|
      ensures |FullBlocks(scratch, SizeOf(tupleChannels, format))[s]| == SizeOf(tupleChannels, format)
      ensures peak == PeakUpTo(amplitude, format, FullBlocks(scratch, SizeOf(tupleChannels, format))[s], tupleChannels)
    {
      var bps, size := BytesPerSample(format), SizeOf(tupleChannels, format);
      ghost var tuple := FullBlocks(scratch, size)[s];
      FullBlockAt(scratch, size, s);
      NoPeak(amplitude, format, tuple);
      assert size == tupleChannels * bps;
      hide *;
      peak := 0;
      for c := 0 to tupleChannels
        invariant |tuple| >= c * bps && peak == PeakUpTo(amplitude, format, tuple, c)
      {
        ChannelValue(scratch, tuple, s, tupleChannels, c, bps);
        PeakStep(amplitude, format, tuple, c);
        var at := (s * tupleChannels + c) * bps;
        var value := amplitude(format, scratch[at..at + bps]);
        var magnitude := if value < 0 then -value else value;
        if magnitude > peak {
          peak := magnitude;
        }
      }
    }

    /** The level feed: every sample tuple of the frame goes to the detectors. */
    method FeedDetectors(scratch: seq<Byte>, format: PackedFormat, tupleChannels: nat, count: nat, ghost before: seq<int>)
      requires BytesPerSample(format) > 0 && tupleChannels > 0 && |scratch| == count * SizeOf(tupleChannels, format)
      requires DetectorsHold(before)
      modifies `anySampleConsumed, `nextSampleIndex,
               `edgeInRun, `edgeRunStart, `edgeBelowStreak, `edgeCandidateStart, `edgeAboveStreak, `edgeSpans,
               `dropoutSumSq, `dropoutSquares, `dropoutInRun, `dropoutRunStart, `dropoutSpans
      ensures anySampleConsumed
      ensures DetectorsHold(before + Peaks(amplitude, format, tupleChannels, scratch))
    {
      hide *;
      ghost var peaks := Peaks(amplitude, format, tupleChannels, scratch);
      TupleCount(amplitude, format, tupleChannels, scratch, count);
      Extended(before, peaks);
      anySampleConsumed := true;
      for s := 0 to count
        invariant anySampleConsumed && DetectorsHold(Extend(before, peaks, s))
      {
        var peak := TuplePeak(scratch, s, format, tupleChannels);
        PeakAt(amplitude, format, tupleChannels, scratch, s);
        ObserveSilenceSample(peak, Extend(before, peaks, s));
        ExtendStep(before, peaks, s);
      }
    }

    /** One decoded frame. */
    method ConsumeFrame(frame: Frame)
      requires Valid() && Backed(frame)
      modifies this
      ensures Valid() && events == old(events) + [Decoded(frame)] && decodeErrorCount == old(decodeErrorCount)
      ensures old(truncation).Some? ==> truncation.Some?
    {
      assert truncation == Accepts().stop;
      hide Holds, Backed, Accept;
      ghost var a := Accepts();
      AcceptSnoc(events, Decoded(frame), declaredRate);
      events := events + [Decoded(frame)];
      if BytesPerSample(frame.format) <= 0 || frame.channels <= 0 || frame.samples <= 0 {
        return;
      }
      ConsumeSampled(frame, a);
    }

    /** The first difference from the configured shape, if any. */
    method ShapeMismatch(frame: Frame, ghost frames: seq<Frame>) returns (mismatch: Option<StopReason>)
      requires Good(frames) && frames != [] && ConfiguredByFirst(frames)
      ensures mismatch == Mismatch(frames[0], frame, declaredRate)
      ensures mismatch == None <==> MatchesFirst(frames[0], frame, declaredRate)
      ensures mismatch.Some? ==> FirstDifference(frames[0], frame, declaredRate, mismatch.value)
    {
      hide ConfiguredByFirst;
      ConfiguredMeans(frames);
      if frame.channels != channels {
        mismatch := Some(ChannelsChanged);
      } else if Some(frame.format) != configuredFormat {
        mismatch := Some(SampleFormatChanged);
      } else if (if frame.rate > 0 then frame.rate else declaredRate) != sampleRate {
        mismatch := Some(SampleRateChanged);
      } else if frame.layout != layout {
        mismatch := Some(ChannelLayoutChanged);
      } else {
        mismatch := None;
      }
    }

    /** A frame that carries samples. */
    method ConsumeSampled(frame: Frame, ghost a: Accepted)
      requires HasSamples(frame) && Backed(frame) && Good(a.frames) && Uniform(a.frames, declaredRate) && Holds(a)
      modifies this
      ensures events == old(events) && decodeErrorCount == old(decodeErrorCount)
      ensures old(truncation).Some? ==> truncation.Some?
      ensures AllGood(a, frame) && Holds(Admit(a, Decoded(frame), declaredRate))
    {
      hide *;
      HoldsMeans(a);
      AdmitCases(a, frame);
      if truncation.Some? {
        return;
      }
      EnsureConfigured(frame, a.frames);
      FirstOfCases(a.frames, frame);
      ghost var first := FirstOf(a.frames, frame);
      var mismatch := ShapeMismatch(frame, first);
      ConfiguredMeans(first);
      if mismatch.Some? {
        StopForMismatch(mismatch.value, a.frames);
        return;
      }
      SameFirst(first, a.frames + [frame]);
      FeedSinks(frame, a.frames);
      MakeHolds(Accepted(a.frames + [frame], None));
    }

    /** A frame of another shape ends acceptance and leaves the sinks alone. */
    method StopForMismatch(reason: StopReason, ghost frames: seq<Frame>)
      requires Good(frames) && frames != [] && truncation == None && levelStop == LevelStop(unreadable, frames, None)
      requires totalSamples == TotalSamples(frames) && HashHolds(Stream(frames)) && ConfiguredByFirst(frames)
      modifies `truncation, `levelStop
      ensures truncation == Some(reason) && Holds(Accepted(frames, Some(reason)))
    {
      hide *;
      ghost var before := levelStop;
      LatchDecodeTruncation(reason);
      StopKeeps(frames, before, reason);
      MakeHolds(Accepted(frames, Some(reason)));
    }

    lemma HoldsMeans(a: Accepted)
      requires Good(a.frames) && Holds(a)
      ensures truncation == a.stop && levelStop == LevelStop(unreadable, a.frames, a.stop) && Consumed(a.frames)
    {}

    lemma MakeHolds(a: Accepted)
      requires Good(a.frames) && truncation == a.stop && levelStop == LevelStop(unreadable, a.frames, a.stop) && Consumed(a.frames)
      ensures Holds(a)
    {}

    /** What admitting a frame with samples comes to. */
    lemma AdmitCases(a: Accepted, frame: Frame)
      requires HasSamples(frame) && Backed(frame) && Good(a.frames) && Uniform(a.frames, declaredRate)
      ensures AllGood(a, frame) && Good(a.frames + [frame])
      ensures var next := Admit(a, Decoded(frame), declaredRate);
        if a.stop.Some? then next == a
        else
          var m := Mismatch((a.frames + [frame])[0], frame, declaredRate);
          && (m.Some? ==> a.frames != [] && next == Accepted(a.frames, m))
          && (m.None? ==> next == Accepted(a.frames + [frame], None) && Uniform(a.frames + [frame], declaredRate))
          && (m.None? ==> frame.channels == (a.frames + [frame])[0].channels && frame.format == (a.frames + [frame])[0].format)
    {
      hide Backed, HasSamples;
      if a.frames == [] {
        assert [] + [frame] == [frame];
      }
    }

    /** The first frame configures the sinks; they have then consumed what they
        had. */
    method EnsureConfigured(frame: Frame, ghost frames: seq<Frame>)
      requires HasSamples(frame) && Backed(frame) && Good(frames) && Consumed(frames)
      modifies `configuredFormat, `sampleRate, `channels, `layout, `blockSamples, `blockStride,
               `silenceSupported, `edgeHysteresis, `dropoutWindow, `dropoutThresholdSq, `dropoutMinSpan
      ensures ConfiguredByFirst(FirstOf(frames, frame))
      ensures totalSamples == TotalSamples(frames) && HashHolds(Stream(frames)) && LevelsHold(frames)
    {
      hide *;
      ConsumedMeans(frames);
      FirstOfCases(frames, frame);
      if frames != [] {
        ConfiguredMeans(frames);
      } else {
        UntouchedMeans();
      }
      if configuredFormat.None? {
        Configure(frame);
        SinksStart(frame);
        ConfiguredByOne(frame);
      }
    }

    lemma UntouchedMeans()
      requires Untouched()
      ensures configuredFormat == None && pendingBlock == [] && blockDigests == [] && !anySampleConsumed && nextSampleIndex == 0
      ensures EdgeNow() == EdgeSilence.INITIAL && DropoutNow() == Dropouts.INITIAL
    {}

    lemma ConfiguredByOne(frame: Frame)
      requires HasSamples(frame) && Backed(frame) && ConfiguredFor(frame)
      ensures Good([frame]) && ConfiguredByFirst([frame])
    {}

    lemma ConsumedMeans(frames: seq<Frame>)
      requires Good(frames) && Consumed(frames)
      ensures totalSamples == TotalSamples(frames)
      ensures if frames == [] then Untouched()
              else ConfiguredByFirst(frames) && HashHolds(Stream(frames)) && LevelsHold(frames)
    {}

    lemma ConfiguredMeans(frames: seq<Frame>)
      requires Good(frames) && frames != [] && ConfiguredByFirst(frames)
      ensures var first := frames[0];
        && configuredFormat == Some(first.format) && channels == first.channels && layout == first.layout
        && sampleRate == EffectiveRate(first, declaredRate) && blockStride > 0
    {}

    lemma SameFirst(a: seq<Frame>, b: seq<Frame>)
      requires Good(a) && Good(b) && a != [] && b != [] && a[0] == b[0] && ConfiguredByFirst(a)
      ensures ConfiguredByFirst(b)
    {}

    /** Stopping leaves what was consumed in place. */
    lemma StopKeeps(frames: seq<Frame>, before: Option<StopReason>, reason: StopReason)
      requires Good(frames) && frames != [] && before == LevelStop(unreadable, frames, None)
      requires levelStop == if before.None? then Some(reason) else before
      requires totalSamples == TotalSamples(frames) && HashHolds(Stream(frames)) && ConfiguredByFirst(frames)
      ensures levelStop == LevelStop(unreadable, frames, Some(reason)) && Consumed(frames)
    {}

    lemma StopKeepsAny(frames: seq<Frame>, before: Option<StopReason>, reason: StopReason)
      requires Good(frames) && before == LevelStop(unreadable, frames, None)
      requires levelStop == if before.None? then Some(reason) else before
      requires totalSamples == TotalSamples(frames)
      requires if frames == [] then Untouched() else HashHolds(Stream(frames)) && ConfiguredByFirst(frames)
      ensures levelStop == LevelStop(unreadable, frames, Some(reason)) && Consumed(frames)
    {
      if frames != [] {
        StopKeeps(frames, before, reason);
      }
    }

    lemma LevelStopIsSet(frames: seq<Frame>, stop: Option<StopReason>)
      requires Good(frames) && stop.Some?
      ensures LevelStop(unreadable, frames, stop).Some?
    {}

    /** Freshly configured sinks have consumed nothing. */
    lemma SinksStart(frame: Frame)
      requires HasSamples(frame) && ConfiguredFor(frame)
      requires pendingBlock == [] && blockDigests == [] && !anySampleConsumed && nextSampleIndex == 0
      requires EdgeNow() == EdgeSilence.INITIAL && DropoutNow() == Dropouts.INITIAL
      ensures HashHolds(Stream([])) && LevelsHold([])
    {
      assert Digests(digest, []) == [];
      if silenceSupported {
        EdgeSilence.InitiallyTracks(edgeThreshold, edgeHysteresis);
        Dropouts.InitiallyTracks(ParamsNow());
      }
    }

    /** A frame of the configured shape reaches every sink. */
    method FeedSinks(frame: Frame, ghost frames: seq<Frame>)
      requires Good(frames) && HasSamples(frame) && Backed(frame) && Uniform(frames + [frame], declaredRate)
      requires Good(frames + [frame]) && ConfiguredByFirst(frames + [frame]) && channels == frame.channels && configuredFormat == Some(frame.format)
      requires totalSamples == TotalSamples(frames) && HashHolds(Stream(frames)) && LevelsHold(frames)
      requires levelStop == LevelStop(unreadable, frames, None)
      modifies `totalSamples, `pendingBlock, `blockDigests, `levelStop, `anySampleConsumed, `nextSampleIndex,
               `edgeInRun, `edgeRunStart, `edgeBelowStreak, `edgeCandidateStart, `edgeAboveStreak, `edgeSpans,
               `dropoutSumSq, `dropoutSquares, `dropoutInRun, `dropoutRunStart, `dropoutSpans
      ensures Good(frames + [frame]) && Consumed(frames + [frame])
      ensures levelStop == LevelStop(unreadable, frames + [frame], None)
    {
      hide *;
      ConfiguredMeans(frames + [frame]);
      var scratch := CountAndHash(frame, frames);
      FeedLevels(frame, scratch, frames);
      MakeConsumed(frames, frame);
    }

    /** The sample count and the hash chain take the frame. */
    method CountAndHash(frame: Frame, ghost frames: seq<Frame>) returns (scratch: seq<Byte>)
      requires Good(frames) && HasSamples(frame) && Backed(frame) && blockStride > 0
      requires totalSamples == TotalSamples(frames) && HashHolds(Stream(frames))
      modifies `totalSamples, `pendingBlock, `blockDigests
      ensures Good(frames + [frame]) && totalSamples == TotalSamples(frames + [frame])
      ensures scratch == PcmOf(frame) && HashHolds(Stream(frames + [frame]))
    {
      hide *;
      StreamSnoc(frames, frame);
      totalSamples := totalSamples + frame.samples;
      scratch := Interleave(frame);
      FeedHash(scratch, Stream(frames));
    }

    lemma MakeConsumed(frames: seq<Frame>, frame: Frame)
      requires Good(frames + [frame]) && totalSamples == TotalSamples(frames + [frame])
      requires ConfiguredByFirst(frames + [frame])
      requires HashHolds(Stream(frames + [frame])) && LevelsHold(frames + [frame])
      ensures Consumed(frames + [frame])
    {}

    /** The level meters: stopped by a value that cannot be measured, fed with
        the whole frame otherwise. */
    method FeedLevels(frame: Frame, scratch: seq<Byte>, ghost frames: seq<Frame>)
      requires Good(frames) && HasSamples(frame) && Backed(frame) && Uniform(frames + [frame], declaredRate)
      requires scratch == PcmOf(frame) && LevelsHold(frames)
      requires levelStop == LevelStop(unreadable, frames, None)
      modifies `levelStop, `anySampleConsumed, `nextSampleIndex,
               `edgeInRun, `edgeRunStart, `edgeBelowStreak, `edgeCandidateStart, `edgeAboveStreak, `edgeSpans,
               `dropoutSumSq, `dropoutSquares, `dropoutInRun, `dropoutRunStart, `dropoutSpans
      ensures Good(frames + [frame]) && LevelsHold(frames + [frame])
      ensures levelStop == LevelStop(unreadable, frames + [frame], None)
    {
      hide *;
      SinksAppend(amplitude, unreadable, frames, frame, declaredRate);
      OnlyFloatingIsUnreadable(unreadable, frame);
      LevelStopWithoutStop(unreadable, frames);
      LevelsMean(frames);
      if levelStop.None? && (frame.format == Flt || frame.format == Dbl) {
        ScanLevels(scratch, frame.format, frame.samples * frame.channels);
      }
      if levelStop.None? && silenceSupported {
        FeedDetectors(scratch, frame.format, frame.channels, frame.samples, PeaksSoFar(amplitude, frames));
      }
      MakeLevels(frames + [frame]);
    }

    lemma LevelsMean(frames: seq<Frame>)
      requires Good(frames) && LevelsHold(frames)
      ensures levelStop == None && silenceSupported ==> DetectorsHold(PeaksSoFar(amplitude, frames))
      ensures levelStop == None && !silenceSupported ==> !anySampleConsumed
    {}

    lemma MakeLevels(frames: seq<Frame>)
      requires Good(frames) && frames != []
      requires levelStop == None ==> anySampleConsumed == silenceSupported
      requires levelStop == None && silenceSupported ==> DetectorsHold(PeaksSoFar(amplitude, frames))
      ensures LevelsHold(frames)
    {}

    /** The decoder exceeded the error bound. */
    method GiveUp()
      requires Valid()
      modifies this
      ensures Valid() && events == old(events) + [GaveUp] && truncation.Some? && decodeErrorCount == old(decodeErrorCount)
    {
      hide *;
      ValidMeans();
      ghost var a := Accept(events, declaredRate);
      AcceptSnoc(events, GaveUp, declaredRate);
      GiveUpIsBacked(events);
      events := events + [GaveUp];
      ConsumedMeans(a.frames);
      ghost var before := levelStop;
      LatchDecodeTruncation(ConsecutiveErrorLimit);
      if a.stop.None? {
        StopKeepsAny(a.frames, before, ConsecutiveErrorLimit);
      } else {
        LevelStopIsSet(a.frames, a.stop);
      }
      GaveUpHolds(a);
    }

    lemma ValidMeans()
      requires Valid()
      ensures AllBacked(events)
      ensures var a := Accept(events, declaredRate);
        Good(a.frames) && Consumed(a.frames) && truncation == a.stop && levelStop == LevelStop(unreadable, a.frames, a.stop)
    {
      assert Accepts() == Accept(events, declaredRate);
    }

    lemma GaveUpHolds(a: Accepted)
      requires AllBacked(events) && Good(a.frames) && Accept(events, declaredRate) == Admit(a, GaveUp, declaredRate)
      requires Consumed(a.frames) && truncation == Some(if a.stop.Some? then a.stop.value else ConsecutiveErrorLimit)
      requires levelStop == LevelStop(unreadable, a.frames, truncation)
      ensures Valid()
    {}

    lemma BoundMeans()
      requires BoundHolds()
      ensures bound.Valid() && bound.limit == 64 && (bound.exhausted ==> truncation.Some?)
    {}

    lemma MakeBound()
      requires bound.Valid() && bound.limit == 64 && (bound.exhausted ==> truncation.Some?)
      ensures BoundHolds()
    {}

    /** One packet: what sending it and receiving its frames led to. Nothing is
        fed after a stop. */
    method FeedPacket(outcome: PacketOutcome)
      requires Valid() && BoundHolds() && OutcomeBacked(outcome)
      modifies this, bound
      ensures Valid() && BoundHolds()
      ensures old(truncation).Some? ==>
        events == old(events) && bound.history == old(bound.history) && decodeErrorCount == old(decodeErrorCount)
      ensures old(truncation).None? && outcome.NoMemory? ==>
        events == old(events) && bound.history == old(bound.history) && decodeErrorCount == old(decodeErrorCount) + 1
      ensures old(truncation).None? && outcome.Received? ==>
        && bound.history == old(bound.history) + Calls(outcome)
        && events == old(events) + Frames(outcome) + (if outcome.failed && bound.exhausted then [GaveUp] else [])
        && decodeErrorCount == old(decodeErrorCount) + if outcome.failed then 1 else 0
    {
      hide *;
      BoundMeans();
      if bound.exhausted || truncation.Some? {
        return;
      }
      if outcome.NoMemory? {
        decodeErrorCount := decodeErrorCount + 1;
        return;
      }
      OutcomePrefixes(outcome);
      for i := 0 to |outcome.frames|
        invariant Valid() && BoundHolds() && !bound.exhausted
        invariant decodeErrorCount == old(decodeErrorCount)
        invariant events == old(events) + FramesUpTo(outcome, i)
        invariant bound.history == old(bound.history) + Successes(i)
      {
        OutcomeStep(outcome, i);
        BoundMeans();
        bound.RecordSuccess();
        ConsumeFrame(outcome.frames[i]);
        MakeBound();
      }
      if outcome.failed {
        decodeErrorCount := decodeErrorCount + 1;
        BoundMeans();
        var stop := bound.RecordError();
        if stop {
          GiveUp();
        }
        MakeBound();
      }
    }

    /** The stream's result is determined by the accepted frames: their PCM cut
        into blocks, and the silence definitions applied to its peaks. */
    ghost predicate IsReport(a: Accepted, r: StreamAudioDecode)
      requires Good(a.frames)
    {
      && r.totalSamples == TotalSamples(a.frames)
      && r.truncation == a.stop
      && r.levelStop == LevelStop(unreadable, a.frames, a.stop)
      && r.undecodable == (r.totalSamples == 0 && r.decodeErrorCount > 0)
      && r.blockDigests == ExpectedDigests(a.frames)
      && r.chainDigest == (if r.blockDigests == [] then None else Some(digest(Concat(r.blockDigests))))
      && r.silenceMeasured == (r.levelStop == None && Metered(a.frames))
      && if r.silenceMeasured then SilenceReported(a.frames, r.edgeSpans, r.dropoutSpans) else r.edgeSpans == [] && r.dropoutSpans == []
    }

    ghost function ExpectedDigests(frames: seq<Frame>): seq<seq<Byte>>
      requires Good(frames)
    {
      if !hashEnabled || frames == [] then [] else
        assert frames[0] in frames;
        Digests(digest, AllBlocks(Stream(frames), BlockStride(frames[0], declaredRate)))
    }

    ghost predicate Metered(frames: seq<Frame>) {
      && frames != []
      && (match frames[0].format case S16 => true case S32 => true case Flt => true case Dbl => true case _ => false)
      && (if frames[0].rate > 0 then frames[0].rate else declaredRate) > 0
    }

    ghost predicate SilenceReported(frames: seq<Frame>, edges: seq<SampleSpan>, dropouts: seq<SampleSpan>)
      requires Good(frames) && frames != []
    {
      var rate, peaks := EffectiveRate(frames[0], declaredRate), PeaksSoFar(amplitude, frames);
      && EdgeSilence.IsEdgeReport(peaks, edgeThreshold, Hysteresis(rate), edges)
      && Dropouts.IsDropoutReport(peaks, DropoutParams(rate, dropoutThreshold), dropouts)
    }

    /** What is reported depends on the concatenated PCM only: two streams whose
        accepted frames have one first shape, the same bytes and the same stop
        are reported alike, however they were split into frames and whether
        those were planar or packed. */
    lemma OnlyTheStreamMatters(a: Accepted, b: Accepted, r: StreamAudioDecode, q: StreamAudioDecode)
      requires Good(a.frames) && Uniform(a.frames, declaredRate) && IsReport(a, r)
      requires Good(b.frames) && Uniform(b.frames, declaredRate) && IsReport(b, q)
      requires FirstsAgree(a.frames, b.frames, declaredRate) && Stream(a.frames) == Stream(b.frames) && a.stop == b.stop
      ensures r.totalSamples == q.totalSamples && r.blockDigests == q.blockDigests && r.chainDigest == q.chainDigest
      ensures r.truncation == q.truncation && r.levelStop == q.levelStop && r.silenceMeasured == q.silenceMeasured
      ensures r.edgeSpans == q.edgeSpans && r.dropoutSpans == q.dropoutSpans
    {
      SameStreamSameLength(a.frames, b.frames, declaredRate);
      hide Stream, TotalSamples, HasSamples, Backed, EdgeSilence.IsEdgeReport, Dropouts.IsDropoutReport;
      SameExpectations(a.frames, b.frames);
      if r.silenceMeasured {
        SameSilence(a.frames, b.frames, r.edgeSpans, r.dropoutSpans, q.edgeSpans, q.dropoutSpans);
      }
    }

    lemma SameExpectations(a: seq<Frame>, b: seq<Frame>)
      requires Good(a) && Good(b) && FirstsAgree(a, b, declaredRate) && Stream(a) == Stream(b) && (a == [] <==> b == [])
      ensures ExpectedDigests(a) == ExpectedDigests(b) && (Metered(a) <==> Metered(b))
      ensures PeaksSoFar(amplitude, a) == PeaksSoFar(amplitude, b)
      ensures forall stop :: LevelStop(unreadable, a, stop) == LevelStop(unreadable, b, stop)
      ensures a != [] ==> EffectiveRate(a[0], declaredRate) == EffectiveRate(b[0], declaredRate)
    {
      hide Stream, HasUnreadable, Peaks, AllBlocks;
    }

    lemma SameSilence(a: seq<Frame>, b: seq<Frame>, edges: seq<SampleSpan>, dropouts: seq<SampleSpan>,
                      edges': seq<SampleSpan>, dropouts': seq<SampleSpan>)
      requires Good(a) && Good(b) && a != [] && b != []
      requires PeaksSoFar(amplitude, a) == PeaksSoFar(amplitude, b)
      requires EffectiveRate(a[0], declaredRate) == EffectiveRate(b[0], declaredRate)
      requires SilenceReported(a, edges, dropouts) && SilenceReported(b, edges', dropouts')
      ensures edges == edges' && dropouts == dropouts'
    {
      hide PeaksSoFar, EdgeSilence.IsEdgeReport, Dropouts.IsDropoutReport;
      var rate, peaks := EffectiveRate(a[0], declaredRate), PeaksSoFar(amplitude, a);
      EdgeSilence.EdgeReportIsUnique(peaks, edgeThreshold, Hysteresis(rate), edges, edges');
      Dropouts.DropoutReportIsUnique(peaks, DropoutParams(rate, dropoutThreshold), dropouts, dropouts');
    }

    /** The end of the stream: the frames the decoder still held, the trailing
        partial block, and the read-out. */
    method Finalize(drained: seq<Frame>) returns (r: StreamAudioDecode)
      requires Valid() && forall f :: f in drained ==> Backed(f)
      modifies this
      ensures AllBacked(events) && events == old(events) + Frames(Received(drained, false))
      ensures IsReport(Accepts(), r) && r.decodeErrorCount == old(decodeErrorCount)
    {
      hide *;
      Drain(drained);
      ValidMeans();
      AcceptsIsAccept();
      ghost var a := Accepts();
      CloseChain(a.frames);
      ChainIsExpected(a.frames);
      var chain := ChainDigest();
      var edges, dropouts, measured := ReadSilence(a.frames);
      r := StreamAudioDecode(totalSamples, blockDigests, chain, decodeErrorCount, truncation, levelStop,
                             totalSamples == 0 && decodeErrorCount > 0, measured, edges, dropouts);
      ReportHolds(a, r);
    }

    lemma ReportHolds(a: Accepted, r: StreamAudioDecode)
      requires Good(a.frames)
      requires r.totalSamples == TotalSamples(a.frames) && r.truncation == a.stop
      requires r.levelStop == LevelStop(unreadable, a.frames, a.stop)
      requires r.undecodable == (r.totalSamples == 0 && r.decodeErrorCount > 0)
      requires r.blockDigests == ExpectedDigests(a.frames)
      requires r.chainDigest == (if r.blockDigests == [] then None else Some(digest(Concat(r.blockDigests))))
      requires r.silenceMeasured == (r.levelStop == None && Metered(a.frames))
      requires if r.silenceMeasured then a.frames != [] && SilenceReported(a.frames, r.edgeSpans, r.dropoutSpans)
               else r.edgeSpans == [] && r.dropoutSpans == []
      ensures IsReport(a, r)
    {}

    lemma AcceptsIsAccept()
      requires AllBacked(events)
      ensures Accepts() == Accept(events, declaredRate)
    {}

    method Drain(drained: seq<Frame>)
      requires Valid() && forall f :: f in drained ==> Backed(f)
      modifies this
      ensures Valid() && events == old(events) + Frames(Received(drained, false)) && decodeErrorCount == old(decodeErrorCount)
    {
      ghost var outcome := Received(drained, false);
      assert OutcomeBacked(outcome);
      hide *;
      OutcomePrefixes(outcome);
      for i := 0 to |drained|
        invariant Valid() && events == old(events) + FramesUpTo(outcome, i) && decodeErrorCount == old(decodeErrorCount)
      {
        OutcomeStep(outcome, i);
        ConsumeFrame(drained[i]);
      }
    }

    /** The trailing partial block is digested too, neither padded nor dropped. */
    method CloseChain(ghost frames: seq<Frame>)
      requires Good(frames) && Consumed(frames)
      modifies `pendingBlock, `blockDigests
      ensures pendingBlock == [] && Chained(frames)
      ensures totalSamples == TotalSamples(frames) && SilenceHolds(frames)
    {
      hide Stream, TotalSamples, BlockStride, LevelsHold, Backed, ConfiguredFor;
      if frames != [] {
        ConfiguredMeans(frames);
      }
      if pendingBlock != [] {
        assert Digests(digest, FullBlocks(Stream(frames), blockStride) + [pendingBlock])
            == Digests(digest, FullBlocks(Stream(frames), blockStride)) + [digest(pendingBlock)];
        blockDigests := blockDigests + [digest(pendingBlock)];
        pendingBlock := [];
      } else if frames != [] && hashEnabled {
        assert FullBlocks(Stream(frames), blockStride) + [] == FullBlocks(Stream(frames), blockStride);
      }
    }

    /** The digests are those of all blocks. */
    ghost predicate Chained(frames: seq<Frame>)
      requires Good(frames)
      reads `blockDigests, `blockStride
    {
      if hashEnabled && frames != [] && blockStride > 0 then blockDigests == Digests(digest, AllBlocks(Stream(frames), blockStride))
      else blockDigests == []
    }

    /** What the read-out needs of the level meters. */
    ghost predicate SilenceHolds(frames: seq<Frame>)
      requires Good(frames)
      reads this
    {
      if frames == [] then !anySampleConsumed else ConfiguredByFirst(frames) && LevelsHold(frames)
    }

    lemma ChainIsExpected(frames: seq<Frame>)
      requires Good(frames) && Chained(frames) && SilenceHolds(frames)
      ensures blockDigests == ExpectedDigests(frames)
    {}

    method ChainDigest() returns (chain: Option<seq<Byte>>)
      ensures chain == if blockDigests == [] then None else Some(digest(Concat(blockDigests)))
    {
      if blockDigests == [] {
        return None;
      }
      var concat: seq<Byte> := [];
      for i := 0 to |blockDigests|
        invariant concat == Concat(blockDigests[..i])
      {
        ConcatSnoc(blockDigests[..i], blockDigests[i]);
        assert blockDigests[..i + 1] == blockDigests[..i] + [blockDigests[i]];
        concat := concat + blockDigests[i];
      }
      assert blockDigests[..|blockDigests|] == blockDigests;
      return Some(digest(concat));
    }

    /** The read-out of the silence detectors: an edge run still open is closed
        at the end of the stream, an open dropout run is discarded. */
    method ReadSilence(ghost frames: seq<Frame>) returns (edges: seq<SampleSpan>, dropouts: seq<SampleSpan>, measured: bool)
      requires Good(frames) && Uniform(frames, declaredRate) && totalSamples == TotalSamples(frames) && SilenceHolds(frames)
      modifies `edgeSpans
      ensures measured == (levelStop == None && Metered(frames))
      ensures if measured then frames != [] && SilenceReported(frames, edges, dropouts) else edges == [] && dropouts == []
    {
      edges, dropouts, measured := [], [], false;
      hide Stream, Backed, TotalSamples, PeaksSoFar, EdgeSilence.Tracks, EdgeSilence.IsEdgeReport, BlockStride;
      if levelStop.None? && anySampleConsumed {
        measured := true;
        ghost var peaks := PeaksSoFar(amplitude, frames);
        OnePeakPerSample(amplitude, frames, declaredRate);
        EdgeSilence.ReportIsEdgeReport(peaks, edgeThreshold, edgeHysteresis, EdgeNow());
        ghost var report := EdgeSilence.Reported(EdgeNow(), |peaks|);
        if edgeInRun {
          edgeSpans := edgeSpans + [SampleSpan(edgeRunStart, totalSamples)];
        }
        assert edgeSpans == report;
        edges := MergeTouching(edgeSpans);
        dropouts := MergeTouching(dropoutSpans);
      }
    }
  }

  /** What is reported for a stream. */
  datatype StreamAudioDecode = StreamAudioDecode(
    totalSamples: int, blockDigests: seq<seq<Byte>>, chainDigest: Option<seq<Byte>>, decodeErrorCount: nat,
    truncation: Option<StopReason>, levelStop: Option<StopReason>, undecodable: bool,
    silenceMeasured: bool, edgeSpans: seq<SampleSpan>, dropoutSpans: seq<SampleSpan>)

  lemma OnePeakPerSample(amplitude: Amplitude, frames: seq<Frame>, declared: int)
    requires Good(frames) && Uniform(frames, declared)
    ensures |PeaksSoFar(amplitude, frames)| == TotalSamples(frames)
  {
    if frames != [] {
      assert frames[0] in frames;
      var size := SizeOf(frames[0].channels, frames[0].format);
      assert TuplesOf(frames, size) by {
        hide HasSamples, Backed, EffectiveRate;
      }
      hide Stream, TotalSamples;
      StreamLength(frames, size);
      TupleCount(amplitude, frames[0].format, frames[0].channels, Stream(frames), TotalSamples(frames));
    }
  }

  /** What became of a packet: the frames received for it and whether sending it
      or receiving the next frame then failed, or no memory to try. */
  datatype PacketOutcome = Received(frames: seq<Frame>, failed: bool) | NoMemory

  predicate OutcomeBacked(outcome: PacketOutcome) {
    outcome.Received? ==> forall f :: f in outcome.frames ==> Backed(f)
  }

  function Frames(outcome: PacketOutcome): (r: seq<Event>)
    requires outcome.Received?
    ensures |r| == |outcome.frames|
  {
    seq(|outcome.frames|, i requires 0 <= i < |outcome.frames| => Decoded(outcome.frames[i]))
  }

  function Successes(n: nat): seq<bool> {
    seq(n, _ => false)
  }

  ghost function FramesUpTo(outcome: PacketOutcome, n: nat): seq<Event>
    requires outcome.Received? && n <= |outcome.frames|
  {
    Frames(outcome)[..n]
  }

  lemma OutcomeStep(outcome: PacketOutcome, i: nat)
    requires outcome.Received? && i < |outcome.frames| && OutcomeBacked(outcome)
    ensures Backed(outcome.frames[i])
    ensures FramesUpTo(outcome, i + 1) == FramesUpTo(outcome, i) + [Decoded(outcome.frames[i])]
    ensures Successes(i + 1) == Successes(i) + [false]
  {}

  lemma OutcomePrefixes(outcome: PacketOutcome)
    requires outcome.Received?
    ensures FramesUpTo(outcome, 0) == [] && Successes(0) == [] && FramesUpTo(outcome, |outcome.frames|) == Frames(outcome)
    ensures Calls(outcome) == Successes(|outcome.frames|) + (if outcome.failed then [true] else [])
  {}

  function Calls(outcome: PacketOutcome): seq<bool>
    requires outcome.Received?
  {
    Successes(|outcome.frames|) + (if outcome.failed then [true] else [])
  }

  lemma GiveUpIsBacked(events: seq<Event>)
    requires AllBacked(events)
    ensures AllBacked(events + [GaveUp])
  {}

  /** The frames, or the new one when there are none yet. */
  ghost function FirstOf(frames: seq<Frame>, frame: Frame): (r: seq<Frame>)
    requires Good(frames) && HasSamples(frame) && Backed(frame)
    ensures r != [] && Good(r) && r[0] == (frames + [frame])[0]
  {
    if frames == [] then [frame] else frames
  }

  lemma FirstOfCases(frames: seq<Frame>, frame: Frame)
    requires Good(frames) && HasSamples(frame) && Backed(frame)
    ensures FirstOf(frames, frame) == if frames == [] then [frame] else frames
    ensures Good([frame]) && Good([])
  {}

  ghost predicate AllGood(a: Accepted, f: Frame) {
    Good(a.frames + [f])
  }

  lemma OnlyFloatingIsUnreadable(unreadable: Unreadable, f: Frame)
    requires HasSamples(f) && Backed(f)
    ensures BytesPerSample(f.format) > 0 && f.channels > 0 && f.samples > 0
    ensures IsFloating(f.format) <==> f.format == Flt || f.format == Dbl
    ensures !IsFloating(f.format) ==> !HasUnreadable(unreadable, f.format, PcmOf(f))
  {}

  lemma LevelStopWithoutStop(unreadable: Unreadable, frames: seq<Frame>)
    requires Good(frames)
    ensures LevelStop(unreadable, frames, None) in {None, Some(NonFiniteOrOutOfRange)}
  {}

  /** What one more frame of the same shape adds to the streams. */
  lemma SinksAppend(amplitude: Amplitude, unreadable: Unreadable, frames: seq<Frame>, f: Frame, declared: int)
    requires Good(frames) && HasSamples(f) && Backed(f) && Uniform(frames + [f], declared)
    ensures Good(frames + [f])
    ensures PeaksSoFar(amplitude, frames + [f]) == PeaksSoFar(amplitude, frames) + Peaks(amplitude, f.format, f.channels, PcmOf(f))
    ensures LevelStop(unreadable, frames + [f], None)
         == if LevelStop(unreadable, frames, None).Some? || HasUnreadable(unreadable, f.format, PcmOf(f))
            then Some(NonFiniteOrOutOfRange) else None
    ensures |PcmOf(f)| == f.samples * SizeOf(f.channels, f.format) == (f.samples * f.channels) * BytesPerSample(f.format)
    ensures f.samples * f.channels >= 0
  {
    StreamSnoc(frames, f);
    var bps, size := BytesPerSample(f.format), SizeOf(f.channels, f.format);
    var total := TotalSamples(frames);
    Products.Associate(f.samples, f.channels, bps);
    Products.Monotone(f.samples, 0, f.channels);
    if frames == [] {
      assert Stream([]) == [];
      PeaksAppend(amplitude, f.format, f.channels, [], PcmOf(f), 0);
      assert [] + PcmOf(f) == PcmOf(f);
    } else {
      assert frames[0] in frames + [f] && f in frames + [f];
      assert TuplesOf(frames, size) by {
        assert forall g :: g in frames ==> g in frames + [f];
        hide HasSamples, Backed, EffectiveRate;
      }
      hide Stream, TotalSamples, PcmOf, Peaks, HasUnreadable;
      StreamLength(frames, size);
      PeaksAppend(amplitude, f.format, f.channels, Stream(frames), PcmOf(f), total);
      Products.Associate(total, f.channels, bps);
      Products.Monotone(f.channels, 0, total);
      UnreadableAppends(unreadable, f.format, Stream(frames), PcmOf(f), total * f.channels);
    }
  }

  /** Bytes of one tuple of channel samples. */
  function SizeOf(channels: int, format: PackedFormat): (n: int)
    requires channels > 0 && BytesPerSample(format) > 0
    ensures n > 0
  {
    Products.Monotone(channels, 1, BytesPerSample(format));
    channels * BytesPerSample(format)
  }

  lemma TupleCount(amplitude: Amplitude, format: PackedFormat, channels: int, s: seq<Byte>, count: nat)
    requires channels > 0 && BytesPerSample(format) > 0 && |s| == count * SizeOf(channels, format)
    ensures |Peaks(amplitude, format, channels, s)| == count && |FullBlocks(s, SizeOf(channels, format))| == count
  {
    FullBlocksCover(s, SizeOf(channels, format));
    Products.DivModUnique(|s|, SizeOf(channels, format), count, 0);
  }

  ghost function Extend(before: seq<int>, peaks: seq<int>, n: nat): seq<int>
    requires n <= |peaks|
  {
    before + peaks[..n]
  }

  lemma ExtendStep(before: seq<int>, peaks: seq<int>, n: nat)
    requires n < |peaks|
    ensures Extend(before, peaks, n + 1) == Extend(before, peaks, n) + [peaks[n]]
  {}

  lemma Extended(before: seq<int>, peaks: seq<int>)
    ensures Extend(before, peaks, 0) == before && Extend(before, peaks, |peaks|) == before + peaks
  {}

  lemma NoPeak(amplitude: Amplitude, format: PackedFormat, tuple: seq<Byte>)
    ensures 0 * BytesPerSample(format) == 0 && PeakUpTo(amplitude, format, tuple, 0) == 0
  {}

  /** Channel c of tuple s, in the scratch bytes and in the tuple. */
  lemma ChannelValue(scratch: seq<Byte>, tuple: seq<Byte>, s: nat, channels: nat, c: nat, bps: nat)
    requires c < channels && 0 <= s * (channels * bps) <= s * (channels * bps) + channels * bps <= |scratch|
    requires tuple == scratch[s * (channels * bps)..s * (channels * bps) + channels * bps]
    ensures var at := (s * channels + c) * bps;
      && 0 <= at && at + bps <= |scratch| && 0 <= c * bps && c * bps + bps == (c + 1) * bps <= |tuple|
      && scratch[at..at + bps] == tuple[c * bps..c * bps + bps]
  {
    TupleOffset(s, channels, c, bps);
    ChannelSlice(bps, c);
    SliceOfSlice(scratch, s * (channels * bps), channels * bps, c * bps, bps);
  }

  lemma PeakStep(amplitude: Amplitude, format: PackedFormat, tuple: seq<Byte>, c: nat)
    requires |tuple| >= (c + 1) * BytesPerSample(format)
    ensures var bps := BytesPerSample(format);
      && 0 <= c * bps <= c * bps + bps <= |tuple|
      && PeakUpTo(amplitude, format, tuple, c + 1)
         == var x := Abs(amplitude(format, tuple[c * bps..c * bps + bps]));
            if x > PeakUpTo(amplitude, format, tuple, c) then x else PeakUpTo(amplitude, format, tuple, c)
  {
    ChannelSlice(BytesPerSample(format), c);
  }

  lemma PeakAt(amplitude: Amplitude, format: PackedFormat, channels: int, s: seq<Byte>, i: nat)
    requires channels > 0 && BytesPerSample(format) > 0 && i < |FullBlocks(s, SizeOf(channels, format))|
    ensures |FullBlocks(s, SizeOf(channels, format))[i]| == SizeOf(channels, format)
    ensures |Peaks(amplitude, format, channels, s)| == |FullBlocks(s, SizeOf(channels, format))|
    ensures Peaks(amplitude, format, channels, s)[i] == PeakUpTo(amplitude, format, FullBlocks(s, SizeOf(channels, format))[i], channels)
  {
    FullBlocksCover(s, SizeOf(channels, format));
  }

  lemma SliceOfSlice(s: seq<Byte>, from: nat, length: nat, at: nat, count: nat)
    requires from + length <= |s| && at + count <= length
    ensures s[from..from + length][at..at + count] == s[from + at..from + at + count]
  {
    var part := s[from..from + length];
    var a, b := part[at..at + count], s[from + at..from + at + count];
    assert |a| == |b| && forall k :: 0 <= k < count ==> a[k] == part[at + k] == s[from + (at + k)] == b[k];
  }

  lemma TupleOffset(s: nat, channels: nat, c: nat, bps: nat)
    requires c < channels
    ensures (s * channels + c) * bps == s * (channels * bps) + c * bps >= 0
    ensures 0 <= c * bps && c * bps + bps <= channels * bps && 0 <= s * (channels * bps)
  {
    Products.Monotone(bps, c + 1, channels);
    Products.Monotone(bps, 0, c);
    Products.Distribute(bps, c, 1);
    Products.Monotone(channels * bps, 0, s);
    Products.Distribute(bps, s * channels, c);
    Products.Associate(s, channels, bps);
    Products.Monotone(channels, 0, s);
    Products.Monotone(bps, 0, s * channels + c);
  }

  lemma NoDigests(digest: Digest, before: seq<seq<Byte>>, blocks: seq<seq<Byte>>)
    ensures before == before + Digests(digest, []) && blocks == [] + blocks
  {}

  lemma DigestsSnoc(digest: Digest, before: seq<seq<Byte>>, done: seq<seq<Byte>>, block: seq<Byte>)
    ensures before + Digests(digest, done + [block]) == before + Digests(digest, done) + [digest(block)]
  {}

  lemma NextBlock(s: seq<Byte>, stride: int, done: seq<seq<Byte>>)
    requires 0 < stride <= |s|
    ensures done + FullBlocks(s, stride) == done + [s[..stride]] + FullBlocks(s[stride..], stride)
    ensures Rest(s, stride) == Rest(s[stride..], stride)
  {}

  lemma NoMoreBlocks(s: seq<Byte>, stride: int, done: seq<seq<Byte>>)
    requires stride > 0 && |s| < stride
    ensures done + FullBlocks(s, stride) == done && Rest(s, stride) == s
  {}

  lemma DigestsAppend(digest: Digest, a: seq<seq<Byte>>, b: seq<seq<Byte>>)
    ensures Digests(digest, a + b) == Digests(digest, a) + Digests(digest, b)
  {}
}
