# Exact arithmetic and streaming measurement, verified

The system compares media files. It extracts measurements as exact rationals,
spans and digests, and decides with integer arithmetic whether two files agree
within declared tolerances. This project models, in Dafny 4.11, the parts of it
whose correctness is a theorem rather than a matter of configuration, and
proves what they promise.

- **Wide integers** (`MachineInts`, `Words`, `Gcd`, `Int128`, `ExactInt`): the
  128-bit accumulator in its two-word and its native arm, and the eight-limb
  exact integer with its decimal printer.
- **Users of that arithmetic** (`Tolerance`, `CompareTol`, `Cadence`,
  `SpanCompare`): decimal tolerances, the tolerance comparator, frame-rate
  cadence, and the span comparator.
- **Streaming sinks** (`Pcm`, `AudioDecode`, `Silence`, `DecodeErrors`,
  `AudioDecodeState`, `PacketSweep`): the audio decode sink with its block hash
  chain and its two silence detectors, and the packet sweep under a byte budget.
- **Parsers and printers** (`BigEndian`, `IsoBoxes`, `BmffScan`, `BoxSplice`,
  `BmffFiles`, `Bits`, `Nal`, `VideoStreams`, `VideoSyntax`, `AudioConfig`,
  `AscSyntax`, `JsonLayout`, `JsonReader`, `JsonIndent`): ISO base media boxes
  read, walked, spliced and patched; H.264 and HEVC streams; the
  AudioSpecificConfig; the canonical JSON layout. `BmffFiles`, `VideoSyntax`,
  `AscSyntax` and `JsonReader` are the other side of each format, written from
  its standard: what is written by the one is read by the other.
- **Runs of steps** (`WorkerPool`): the worker pool in every interleaving.

A decoded frame is its shape and its bytes. Digests, the reading of a sample's
bytes as an amplitude, access unit parsers and the effect of a job are
parameters. An exception or an error code is a value. Code that changes objects
step by step is modelled by classes and loops, each proved against a
specification function or a defining property; the lemmas are about those.

Where the code does not do what its comments say, the code is followed:

- The remark in `udivmod` that no bit is lost for divisors up to 2^127 is too
  careful: before every shift the remainder is at most the dividend's prefix,
  which is below 2^127, so `UDivMod` holds for every nonzero divisor.
- `try_reduce_ratio` on words loses a sign when the numerator is -2^127 and the
  denominator a negative multiple of 2^65, and only then
  (`Int128.SignIsLostIff`, `Int128.SignIsLostAtMinimum`).
- The grid test of a constant-rate timeline does not overflow exactly when
  N*(2*span+3) stays within 64 bits (`Cadences.ConstantRateIsMeasured`).
- `patch_pasp` succeeds without effect on a sample entry whose content is
  shorter than 78 bytes, behind an open-ended last child, and on an existing box
  with the 16-byte header; `BoxSplice.PatchReadsBackIff` is the exact condition,
  and there is a file for each of the three cases.
- `build_asc` accepts the escape values 31 and 15 but writes no escape after
  them; `AudioConfig.RoundTripIff` is the exact condition.
- A span of no length does not overlap itself, so a list passes against a
  reordering of itself exactly when no such span stands alone
  (`SpanComparison.ReorderedComparisonPassesIff`).
- A document without any scalar still has one line (`JsonLayout.DocumentLines`).
- The H.264 builder writes the running frame number into later IDR slices, and
  the HEVC builder restarts the picture order count one picture after an IDR
  picture. `H264Streams.IdrFrameNumIsZeroIff` and
  `HevcStreams.CountsAreDistancesIff` say for which parameters the streams still
  have the numbers they should.

## Model

| member | source | states |
|---|---|---|
| `MachineInts.CheckedMul` | src/core/rational.h:66-81 | The product when it fits in 64 signed bits, and a refusal exactly when it does not. |
| `MachineInts.CheckedSub` | src/core/rational.h:519-528 | The difference when it fits in 64 signed bits, and a refusal exactly when it does not. |
| `MachineInts.CheckedAdd` | src/core/rational.h:536-545 | The sum when it fits in 64 signed bits, and a refusal exactly when it does not. |
| `MachineInts.CheckedNegate` | src/core/rational.h:553-559 | The negation, refused for the smallest integer only. |
| `WordPairs.AddWithoutCarryOut` | src/core/rational.h:117-133 | Two-word addition with carry is addition of the values when the sum fits. |
| `WordPairs.ShiftRightPair` | src/core/rational.h:183-225 | The cross-word right shift of two words is division of the value by a power of two. |
| `WordPairs.BitAtIsBitOfValue` | src/core/rational.h:352-384 | Reading a bit out of the right word reads that bit of the 128-bit value. |
| `WordPairs.SetBitOfWord` | src/core/rational.h:352-384 | Setting a clear bit by OR adds that power of two. |
| `Int128.AccumulatedIsTrueSum` | src/core/rational.h:117-133 | Wrapping after every step or once at the end is the same, so a true sum that fits is the value accumulated. |
| `Int128.Accumulate` | src/core/rational.h:117-133 | The words hold the true sum after any sequence of add and add_product whose sum fits in 128 signed bits. |
| `Int128.UDivMod` | src/core/rational.h:352-384 | The bit-by-bit long division returns true quotient and remainder for every nonzero divisor. |
| `Int128.Int128Words.AddProduct` | src/core/rational.h:117-122 | The two words take on the wrapped sum of their value and the product. |
| `Int128.Int128Words.Add` | src/core/rational.h:127-132 | The two words take on the wrapped sum of their value and the addend. |
| `Int128.Int128Words.TryNarrow` | src/core/rational.h:139-147 | Succeeds exactly when the 128-bit value fits in 64 bits, and returns it. |
| `Int128.Int128Words.TryISqrt` | src/core/rational.h:175-225 | Returns r with r*r <= S < (r+1)*(r+1), and fails exactly when S is negative or r exceeds 2^63-1. |
| `Int128.Int128Words.TryReduceRatio` | src/core/rational.h:257-332 | The two-word reduction is the reduced fraction of its operands, with the sign the words lose for a numerator of -2^127 over a negative denominator. |
| `Int128.SignIsLostIff` | src/core/rational.h:257-332 | That sign makes a difference exactly when the negative denominator is a multiple of 2^65. |
| `Int128.SignIsLostAtMinimum` | src/core/rational.h:257-332 | At -2^127 over itself the two-word arm returns minus one. |
| `Int128.Int128Native.AddProduct` | src/core/rational.h:390-392 | The native accumulator adds the product, for sums within 128 bits. |
| `Int128.Int128Native.TryNarrow` | src/core/rational.h:396-402 | Succeeds exactly when the value fits in 64 bits. |
| `Int128.Int128Native.TryISqrt` | src/core/rational.h:409-434 | The native square root meets the same floor-root specification as the two-word one. |
| `Int128.Int128Native.TryReduceRatio` | src/core/rational.h:442-490 | The native reduction meets the same specification as the two-word one, for operands other than -2^127. |
| `Int128.RootResultUnique` | src/core/rational.h:175-434 | The floor-root specification has one result, so the two arms agree. |
| `Int128.ISqrtInt64` | src/core/rational.h:505-509 | The 64-bit square root is the floor root, refused for negatives only. |
| `Gcds.GcdIsGreatest` | src/core/rational.h:284-304 | Euclid's loop ends in a common divisor that every common divisor divides. |
| `Gcds.ReducedIsCoprime` | src/core/rational.h:306-312 | Dividing both magnitudes by it leaves a coprime pair. |
| `Gcds.ReducedRatioIsLeastFraction` | src/core/rational.h:257-332 | A ratio is returned exactly when some pair of 64-bit integers with positive denominator represents the fraction; it is the one in lowest terms with the least denominator. |
| `ExactInts.FromInt64` | src/core/exact_int.h:52-62 | The limbs hold the integer, zero without a sign. |
| `ExactInts.IsZero` | src/core/exact_int.h:64-71 | Whether the integer is zero. |
| `ExactInts.TryMul` | src/core/exact_int.h:83-112 | The exact product, refused exactly when its magnitude needs more than 256 bits; zero is never negative. |
| `ExactInts.TryAdd` | src/core/exact_int.h:122-141 | The exact sum, refused exactly when its magnitude needs more than 256 bits. |
| `ExactInts.TrySub` | src/core/exact_int.h:115-120 | The exact difference, refused exactly when its magnitude needs more than 256 bits. |
| `ExactInts.Compare` | src/core/exact_int.h:144-154 | The order of the integers. |
| `ExactInts.MulMagnitudes` | src/core/exact_int.h:83-99 | Sixteen product limbs hold the product of two eight-limb magnitudes. |
| `ExactInts.AddMagnitudes` | src/core/exact_int.h:196-205 | The limb sum with its carry out is the sum of the magnitudes. |
| `ExactInts.SubtractMagnitudes` | src/core/exact_int.h:207-220 | The borrow subtraction is the difference when the minuend is not smaller. |
| `ExactInts.CompareMagnitudes` | src/core/exact_int.h:186-194 | The first differing limb from the top decides the order of the magnitudes. |
| `ExactInts.DivideByTen` | src/core/exact_int.h:165-172 | One pass over the limbs gives quotient and remainder by ten. |
| `ExactInts.ToDecimal` | src/core/exact_int.h:156-182 | The decimal numeral of the integer. |
| `Decimals.DigitsReadBack` | src/core/exact_int.h:156-182 | The digits of a magnitude read back to it. |
| `Decimals.NumeralsAreUnique` | src/core/exact_int.h:156-182 | A numeral without leading zeros is determined by the integer it reads back to. |
| `Tolerances.AccumulateDigits` | src/core/tolerance.cpp:136-167 | The digit loop reads digits and one decimal point exactly, or reports the overflow or the malformed text. |
| `Tolerances.ParseMagnitude` | src/core/tolerance.cpp:126-180 | A decimal magnitude is an exact fraction over a power of ten, or an error. |
| `Tolerances.ScaleMagnitude` | src/core/tolerance.cpp:210-229 | Rescaling to the common denominator keeps the value or refuses an overflow. |
| `Tolerances.TrimAsciiWhitespace` | src/core/tolerance.cpp:50-62 | Exactly the leading and trailing ASCII whitespace goes. |
| `Tolerances.ParseTolerance` | src/core/tolerance.cpp:78-237 | The parsed tolerance as a function of the text; what is accepted has a positive denominator and non-negative, ordered thresholds. |
| `Tolerances.WrittenMagnitudeIsExact` | src/core/tolerance.cpp:126-180 | Every decimal text parses to exactly the number it writes. |
| `Tolerances.WrittenThresholdParses` | src/core/tolerance.cpp:78-237 | A written threshold with its unit parses to exactly that number. |
| `Tolerances.ThresholdByUnit` | src/core/tolerance.cpp:78-237 | A decimal followed by the unit's text is that threshold, for each of the units; a count may do without text. |
| `Tolerances.BlanksAreTrimmed` | src/core/tolerance.cpp:48-62 | Exactly the spaces, tabs, carriage returns and line feeds around a text go. |
| `Tolerances.WrittenThresholdPairParses` | src/core/tolerance.cpp:78-237 | A warn and a fail threshold with different decimals parse to exactly those numbers over one denominator. |
| `Tolerances.AcceptedWasWritten` | src/core/tolerance.cpp:78-237 | Whatever is accepted is, apart from surrounding blanks and a leading sign, a decimal with a fitting suffix, or two of them around a comma. |
| `CompareTolerance.ProductsFit` | src/compare/tol.cpp:391-496 | Every exact product and difference the comparator forms of 64-bit operands fits in 256 bits. |
| `CompareTolerance.CompareTol` | src/compare/tol.cpp:78-544 | Total for every 64-bit input: the parse error, the unsupported value, or the verdict of the decimal threshold over the reals with end-delta gate and ceiling escalation; no overflow error is reachable. The five lemmas below state that verdict in integers on the measurement fields. |
| `CompareTolerance.VerdictInIntegers` | src/compare/tol.cpp:202-543 | The verdict over the reals is the one of an integer definition: thresholds cross-multiplied, tripled for an estimate, the gate at a change of 2, the escalation at a rise of 10/1000, and the severity's status otherwise. |
| `CompareTolerance.AdjustedOffsetsDecide` | src/compare/tol.cpp:154-179 | With an adjusted offset x and y on both sides, x and y are compared over the raw denominators: in whole units and without overrides the outcome is a pass exactly when the absolute y - x is within the threshold. |
| `CompareTolerance.AdjustedMagnitudesDecide` | src/compare/tol.cpp:154-179 | With an adjusted magnitude and no adjusted offset on either side, those are compared over 10^9, in the same way. |
| `CompareTolerance.MixedAdjustmentsDecide` | src/compare/tol.cpp:154-179 | An adjusted offset on one side is compared with an adjusted magnitude on the other, each with its own denominator. |
| `CompareTolerance.RawValuesDecide` | src/compare/tol.cpp:154-179 | When one side has no adjusted evidence, the raw values of both decide. |
| `CompareTolerance.Zones` | src/compare/tol.cpp:452-543 | The fail and warn comparisons by cross-multiplication are the comparisons of the real magnitudes. |
| `CompareTolerance.WithinThreshold` | src/compare/tol.cpp:452-496 | The absolute delta against a threshold, in units or in percent of the absolute baseline, decided exactly. |
| `CompareTolerance.Widen` | src/compare/tol.cpp:436-450 | An estimated side triples the thresholds exactly. |
| `CompareTolerance.EndDeltaClears` | src/compare/tol.cpp:244-276 | Whether the change of the end delta reaches the drift epsilon, without overflow for any operands. |
| `CompareTolerance.SelfComparisonPasses` | src/compare/tol.cpp:78-544 | A measurement compared with itself passes. |
| `CompareTolerance.LargerThresholdNeverWorsens` | src/compare/tol.cpp:452-543 | Raising the thresholds never worsens the verdict. |
| `Cadences.ConformsToGrid` | src/probe/cadence.cpp:66-111 | Without dividing, and when no product overflows, decides whether the offset lies within the tolerance of the quotient rounded half to even. |
| `Cadences.CountUsable` | src/probe/cadence.cpp:26-37 | The number of packets with a timestamp on the axis, up to the cap. |
| `Cadences.SelectMode` | src/probe/cadence.cpp:203-215 | The first most frequent interval in ascending order. |
| `Cadences.CountConforming` | src/probe/cadence.cpp:273-300 | The number of n whose timestamp lies within one tick of its grid point. |
| `Cadences.DeriveCadence` | src/probe/cadence.cpp:115-323 | The whole classification as its offline definition over the sorted timestamps, or the exact reason there is none; the lemmas below tie it to the record fields. |
| `Cadences.ReadOrderIsIrrelevant` | src/probe/cadence.cpp:164-179 | Reordering the packets changes nothing in the result. |
| `Cadences.PtsAreMeasured` | src/probe/cadence.cpp:140-258 | With at least two pts fields other than the sentinel, a measurement is one of the pts: all of them are considered, and the span is the difference of two of them with all others in between. |
| `Cadences.DtsAreMeasured` | src/probe/cadence.cpp:140-258 | With fewer, a measurement is one of the dts, in the same way. |
| `Cadences.DtsAreIrrelevant` | src/probe/cadence.cpp:18-20 | With at least two pts, replacing any dts changes neither the status nor the measurement. |
| `Cadences.PtsAreIrrelevant` | src/probe/cadence.cpp:18-20 | With fewer than two pts, replacing them by others, again fewer than two, changes no measurement. |
| `Cadences.StatusByFields` | src/probe/cadence.cpp:140-157 | No timing data exactly when a stream of at most 5,000,000 records with a positive timebase carries no timestamp at all; a measurement needs such a stream with two on one of the fields. |
| `Cadences.EndsConform` | src/probe/cadence.cpp:273-300 | The first and the last timestamp always conform. |
| `Cadences.FloorCeilingNearestQuantise` | src/probe/cadence.cpp:273-300 | Rounding down, up and to the nearest integer are monotone with errors in an interval of width one. |
| `Cadences.ConstantRateIsCfr` | src/probe/cadence.cpp:252-320 | Every constant-rate timeline so quantised is constant frame rate with all timestamps conforming, whatever the timebase. |
| `Cadences.ConstantRateIsMeasured` | src/probe/cadence.cpp:115-323 | The classification of such a timeline succeeds exactly when N*(2*span+3) stays within 64 bits, which is what the grid test forms at most. |
| `Rounding.WithinOneIff` | src/probe/cadence.cpp:66-111 | Being within one of the quotient rounded half to even is a comparison of products, with the even neighbour deciding at the ends. |
| `SampleSpans.MergeTouching` | src/probe/audio_decode.cpp:308-318 | Joins touching neighbours without changing the covered samples, leaves no touching neighbours, and leaves spans that are apart alone. |
| `EdgeSilence.StepTracks` | src/probe/audio_decode.cpp:976-1015 | One sample keeps the hysteresis detector in agreement with the offline definition of leading and trailing silence. |
| `EdgeSilence.ReportIsEdgeReport` | src/probe/audio_decode.cpp:1321-1340 | What finalisation reports is the offline edge report, at most two spans, apart. |
| `EdgeSilence.EdgeReportIsUnique` | src/probe/audio_decode.cpp:976-1015 | The offline edge report is determined by the samples. |
| `Dropouts.SlideTracks` | src/probe/audio_decode.cpp:1031-1038 | The running sum is always the sum of the last window of squares. |
| `Dropouts.StepTracks` | src/probe/audio_decode.cpp:1031-1064 | One sample keeps the span list exactly the interior maximal quiet runs that are long enough. |
| `Dropouts.DropoutReportIsUnique` | src/probe/audio_decode.cpp:1017-1064 | The offline dropout report is determined by the samples. |
| `Dropouts.EnergyIsBounded` | src/probe/audio_decode.cpp:1017-1038 | With Q15 peaks the running sum stays below the window length times 2^30. |
| `Pcm.Interleave` | src/probe/audio_decode.cpp:868-890 | The interleave loops give the packed bytes of the frame. |
| `Pcm.PcmIsSamples` | src/probe/audio_decode.cpp:868-890 | Two frames of one shape, whatever their layout in memory, stand for the same packed bytes exactly when every sample of every channel has the same bytes. |
| `Pcm.PcmHoldsSamples` | src/probe/audio_decode.cpp:862-890 | A frame's packed bytes are as many bits as its samples have over all channels. |
| `Blocks.FeedingContinues` | src/probe/audio_decode.cpp:1067-1075 | Cutting a stream in two feeds gives the same blocks and the same remainder. |
| `Blocks.AllBlocksPartition` | src/probe/audio_decode.cpp:1067-1075 | Blocks concatenate to the stream, all but the last have the full stride, none is empty, and there are as many as the quotient rounded up. |
| `DecodedStream.AcceptedIsLongestMatchingPrefix` | src/probe/audio_decode.cpp:837-862 | Exactly the frames before the first shape mismatch, or before the decoder gave up, contribute: all have the first one's channels, format, rate and layout, and the stop names the first of the four in which the frame differs. |
| `DecodedStream.AcceptanceStopsAtFirstDifference` | src/probe/audio_decode.cpp:837-862 | While the decoder never gives up, acceptance stops exactly at the first frame with samples that differs from the first such frame in channels, format, effective rate or layout, for the first of the four in which it does. |
| `DecodedStream.PeakIsLargest` | src/probe/audio_decode.cpp:951-970 | The peak of a sample tuple is the largest channel magnitude. |
| `AudioDecode.DetectorLengths` | src/probe/audio_decode.cpp:816-823 | The detectors' lengths are the whole samples in 5, 100 and 150 milliseconds, at least one. |
| `DecodedStream.StreamLength` | src/probe/audio_decode.cpp:862-890 | The stream holds one tuple of channel samples per counted sample. |
| `DecodedStream.BlocksPerSamples` | src/probe/audio_decode.cpp:778 | There are total/block_samples blocks, rounded up, of a tenth of a second each. |
| `DecodedStream.SameStreamSameLength` | src/probe/audio_decode.cpp:862-890 | The same concatenated PCM in other frames of one shape is the same number of samples. |
| `AudioDecode.AudioDecodeState.OnlyTheStreamMatters` | src/probe/audio_decode.cpp:742-1342 | Two streams whose accepted frames share the first shape, the concatenated PCM and the stop are reported alike: sample count, block digests, chain digest, stops and both silence reports, however they were split into frames and laid out in memory. |
| `AudioDecode.AudioDecodeState.constructor` | src/probe/audio_decode.h:553-778 | A new sink has consumed nothing. |
| `AudioDecode.AudioDecodeState.ConsumeFrame` | src/probe/audio_decode.cpp:742-971 | One frame: every field stays the function of all frames so far that Valid states, and the frames that count stay those before the first difference in a shape field. |
| `AudioDecode.AudioDecodeState.ShapeMismatch` | src/probe/audio_decode.cpp:837-860 | None exactly when channels, format, effective rate and layout are the first frame's; otherwise the first of the four, in this order, that differs. |
| `AudioDecode.AudioDecodeState.LatchDecodeTruncation` | src/probe/audio_decode.cpp:1155-1162 | The first reason is kept for both latches. |
| `AudioDecode.AudioDecodeState.LatchLevelStop` | src/probe/audio_decode.cpp:1169-1173 | The first reason is kept for the level latch, the other one is untouched. |
| `AudioDecode.AudioDecodeState.DigestFullBlocks` | src/probe/audio_decode.cpp:1067-1075 | Digests exactly the full blocks of the pending bytes and keeps the rest. |
| `AudioDecode.AudioDecodeState.ScanLevels` | src/probe/audio_decode.cpp:914-930 | The level latch is set exactly when some float value cannot be measured. |
| `AudioDecode.AudioDecodeState.ObserveSilenceSample` | src/probe/audio_decode.cpp:973-1065 | Both detectors keep agreeing with their offline definitions. |
| `AudioDecode.AudioDecodeState.FeedDetectors` | src/probe/audio_decode.cpp:951-970 | The detectors consume one peak per sample tuple of the frame. |
| `AudioDecode.AudioDecodeState.FeedPacket` | src/probe/audio_decode.cpp:1077-1153 | Frames and errors of a packet in order; nothing after a stop; the stream gives up exactly when the error bound is hit; a failed allocation counts as an error outside the bound. |
| `AudioDecode.AudioDecodeState.Finalize` | src/probe/audio_decode.cpp:1177-1342 | The result is determined by the accepted frames: all blocks of their PCM digested, the chain digest of the digests, and the offline silence reports of their peaks. |
| `DecodeErrors.ConsecutiveDecodeErrorBound.RecordError` | src/probe/audio_decode.h:528-534 | The bound is exhausted exactly when some run of errors was longer than the limit. |
| `DecodeErrors.ConsecutiveDecodeErrorBound.RecordSuccess` | src/probe/audio_decode.h:542 | A success restarts the run and never clears the bound. |
| `DecodeErrors.LongestRunGrows` | src/probe/audio_decode.h:518-543 | A history has a run of n errors exactly when its prefix has one or its trailing run is that long. |
| `BoxSplice.FindChildBox` | tools/gen_video_fixtures.py:576-587 | The scan loop finds the first child of a type, or fails on the first malformed header before it. |
| `BoxSplice.ChildIsFirst` | tools/gen_video_fixtures.py:576-587 | In a well-formed region the found box is the first of its type, and none is found exactly when there is none. |
| `BoxSplice.LocateSampleEntry` | tools/gen_video_fixtures.py:601-623 | The path from the movie box down to the sample entry. |
| `BoxSplice.GrowBoxSize` | tools/gen_video_fixtures.py:626-642 | Rewrites the box's own size field in place; refuses rather than wrapping; an open-ended box has none to write. |
| `BoxSplice.GrowAllIsGrowth` | tools/gen_video_fixtures.py:626-669 | Growing the path's boxes one after the other grows each of them and changes no byte outside their size fields. |
| `BoxSplice.SpliceChildBox` | tools/gen_video_fixtures.py:652-669 | The spliced file, or the refusal. |
| `BoxSplice.SpliceKeepsTree` | tools/gen_video_fixtures.py:652-669 | Re-parsing finds every box of the path at its old start grown by the new box; the new bytes stand where the entry ended; nothing else changed but the path's size fields. |
| `BoxSplice.SpliceAddsChild` | tools/gen_video_fixtures.py:652-669 | The entry's children are the old ones and the new box last, unless the last one is open-ended: then that one swallows it. |
| `BoxSplice.SpliceSucceedsIff` | tools/gen_video_fixtures.py:626-669 | A splice is refused exactly when the entry is not found or a size field would overflow. |
| `BoxSplice.MadeBoxParses` | tools/gen_video_fixtures.py:645-649 | A made box parses to its type, its payload and its whole length. |
| `BoxSplice.PatchPasp` | tools/gen_video_fixtures.py:697-721 | The patched file, or the refusal. |
| `BoxSplice.PatchSucceedsIff` | tools/gen_video_fixtures.py:697-721 | A patch succeeds exactly for two 32-bit values on a file whose entry is found, with a first pasp box of sixteen bytes, or with none and room in the size fields for one. |
| `BoxSplice.PatchReadsBackIff` | tools/gen_video_fixtures.py:697-721 | After a patch that succeeds, the pasp box found again has eight content bytes that are the horizontal and the vertical spacing, big-endian, exactly when an existing box has the short header, or a new one lands where the entry's children are looked for and no open-ended child precedes it. |
| `BoxSplice.PatchInPlaceKeepsRest` | tools/gen_video_fixtures.py:697-721 | A patch in place changes the eight content bytes only. |
| `BoxSplice.ShortEntryIsNotReadBack` | tools/gen_video_fixtures.py:697-721 | A concrete file whose short sample entry is patched without effect. |
| `BoxSplice.LongHeaderIsNotReadBack` | tools/gen_video_fixtures.py:697-721 | A concrete file whose aspect-ratio box has the long header: the patch writes past the box. |
| `BoxSplice.OpenChildSwallows` | tools/gen_video_fixtures.py:652-669 | In a file whose sample entry ends with an open-ended box, that box swallows what is spliced in. |
| `BoxSplice.OpenChildIsNotReadBack` | tools/gen_video_fixtures.py:697-721 | Such a file, whose patch is not read back. |
| `IsoBoxes.ChildrenTile` | tools/gen_video_fixtures.py:558-587 | Boxes that parse one after the other tile their range, at most one per eight bytes. |
| `BigEndian.MostSignificantFirst` | src/probe/bmff_scan.cpp:164-181 | The 16, 32 and 64-bit readings are the base-256 numerals of the bytes, most significant first. |
| `Bits.BitWriter.U` | tools/gen_video_fixtures.py:183-189 | Appends the numeral of the value, or refuses a value that does not fit. |
| `Bits.BitWriter.Ue` | tools/gen_video_fixtures.py:191-197 | Appends the Exp-Golomb code, or refuses a negative value. |
| `Bits.BitWriter.Se` | tools/gen_video_fixtures.py:199-201 | Appends the code of the signed value. |
| `Bits.BitWriter.RbspTrailingBits` | tools/gen_video_fixtures.py:203-206 | The stop bit and zeros to the next byte. |
| `Bits.BitWriter.ToBytes` | tools/gen_video_fixtures.py:208-218 | The bits, padded with zeros, packed most significant first. |
| `Bits.UeReadsBack` | tools/gen_video_fixtures.py:191-197 | Clause 9.1 decoding of an Exp-Golomb code returns the value and its length, whatever surrounds it. |
| `Bits.SeCodeReadsBack` | tools/gen_video_fixtures.py:199-201 | The signed mapping is undone, and a positive value comes right before its negation. |
| `Bits.FieldsReadBack` | tools/gen_video_fixtures.py:173-218 | Reading the shapes of written fields returns the values written and where they end. |
| `Bits.UnpackPack` | tools/gen_video_fixtures.py:208-218 | Unpacking the packed bytes gives the bits. |
| `NalUnits.EmulationPrevention` | tools/gen_video_fixtures.py:221-235 | The loop inserts the emulation prevention bytes. |
| `NalUnits.UnescapeEscaped` | tools/gen_video_fixtures.py:221-235 | The decoder's removal undoes the insertion for every payload. |
| `NalUnits.NalIsClean` | tools/gen_video_fixtures.py:221-249 | No NAL unit with a short header that ends in a nonzero byte contains a start code, and it does not end in zero. |
| `NalUnits.SplitRecovers` | tools/gen_video_fixtures.py:238-239 | Splitting a byte stream at its start codes recovers exactly the NAL units. |
| `VideoStreams.BuildRbsp` | tools/gen_video_fixtures.py:270-293 | The payload of a field list, or a refusal when a value does not fit. |
| `VideoStreams.RbspReadsBack` | tools/gen_video_fixtures.py:203-218 | A payload's fields read back as written. |
| `VideoStreams.StreamReadsBack` | tools/gen_video_fixtures.py:223-249 | A stream splits into its units' NALs, none contains a start code, and each decodes to its header and field values. |
| `H264Streams.BuildStream` | tools/gen_video_fixtures.py:329-363 | The stream of the parameter sets and the access units in closed form, for either sign of the interval; refused exactly for negative parameters or an interval of zero that is tested. |
| `H264Streams.CountersStep` | tools/gen_video_fixtures.py:329-363 | The running frame number and IDR id are the pictures since the last IDR picture modulo 16 and the IDR pictures so far. |
| `H264Streams.IdrFrameNumIsZeroIff` | tools/gen_video_fixtures.py:329-363 | All IDR pictures carry frame number 0, as clause 7.4.3 of ITU-T H.264 asks, exactly when there is no later one or the interval is one more than a multiple of 16. |
| `H264Streams.SecondIdrFrameNum` | tools/gen_video_fixtures.py:329-363 | With an IDR picture every twelve, the second one carries frame number 11. |
| `H264Streams.StreamIsReadBack` | tools/gen_video_fixtures.py:329-363 | The generated H.264 stream reads back. |
| `H264Syntax.SpsIsDecoded` | tools/gen_video_fixtures.py:270-293 | A decoder of clause 7.3.2.1.1 of ITU-T H.264 reads the sequence parameters: Baseline, level 3.0, 64x64 frames, four-bit frame numbers, no picture order count syntax, the references asked for. |
| `H264Syntax.PpsIsDecoded` | tools/gen_video_fixtures.py:296-314 | A decoder of clause 7.3.2.2 reads the picture parameters: CAVLC, one slice group, the default references asked for. |
| `H264Syntax.AccessUnitIsDecoded` | tools/gen_video_fixtures.py:317-363 | A decoder of clause 7.3.3 reads each access unit as one slice: I at every multiple of the interval, IDR there unless only the first may be, P elsewhere, with the running frame number and IDR id. |
| `H264Syntax.StreamIsDecoded` | tools/gen_video_fixtures.py:329-363 | The whole stream decodes to exactly those parameters and one such picture per access unit, in order. |
| `HevcStreams.BuildStream` | tools/gen_video_fixtures.py:516-550 | The stream of the parameter sets and the access units in closed form, for either sign of the interval; refused exactly for an interval of zero that is tested. |
| `HevcStreams.PocStep` | tools/gen_video_fixtures.py:516-550 | The running picture order count follows its closed form. |
| `HevcStreams.CountsAreDistancesIff` | tools/gen_video_fixtures.py:516-550 | Every written count is the distance from the picture that starts its sequence exactly when there are only CRA pictures or only IDR pictures. |
| `HevcStreams.CountAfterIdr` | tools/gen_video_fixtures.py:516-550 | With an IDR picture every four, the picture after one carries its count 0 again. |
| `HevcStreams.StreamIsReadBack` | tools/gen_video_fixtures.py:516-550 | The generated HEVC stream reads back. |
| `HevcSyntax.VpsIsDecoded` | tools/gen_video_fixtures.py:386-427 | A decoder of clause 7.3.2.1 of ITU-T H.265 reads the video parameters: one layer, Main profile, level 2.0. |
| `HevcSyntax.SpsIsDecoded` | tools/gen_video_fixtures.py:430-465 | A decoder of clause 7.3.2.2 reads the sequence parameters: 64x64, 4:2:0, eight bits, one coding tree block, four-bit picture order counts, no optional tools. |
| `HevcSyntax.PpsIsDecoded` | tools/gen_video_fixtures.py:468-499 | A decoder of clause 7.3.2.3 reads the picture parameters: everything optional off. |
| `HevcSyntax.AccessUnitIsDecoded` | tools/gen_video_fixtures.py:502-550 | A decoder of clause 7.3.6.1 reads each access unit as one slice: CRA with its count or IDR without one at every multiple of the interval, a trailing P picture with its count elsewhere. |
| `HevcSyntax.StreamIsDecoded` | tools/gen_video_fixtures.py:516-550 | The whole stream decodes to exactly those parameters and one such picture per access unit, in order. |
| `AudioConfig.BuildAsc` | tools/gen_he_aac.py:274-317 | The configuration's bytes, or a refusal. |
| `AudioConfig.ParseAudioSpecificConfig` | src/probe/audio_config.cpp:122-200 | The parsed configuration as a function of the bits. |
| `AudioConfig.ScanForExtension` | src/probe/audio_config.cpp:171-188 | The sync-extension scan, one bit at a time. |
| `AudioConfig.ZerosHideNoExtension` | src/probe/audio_config.cpp:171-188 | Zero padding is never taken for a sync marker, however long. |
| `AudioConfig.FirstMarkerDecides` | src/probe/audio_config.cpp:171-188 | Whatever bits come before it, the first sync marker with enough bits behind it decides the scan. |
| `AudioConfig.NoMarkerNothingFound` | src/probe/audio_config.cpp:171-188 | Without a marker nothing is found. |
| `AudioConfig.MarkedExtensionIsFound` | src/probe/audio_config.cpp:171-188 | A marker followed by the SBR object type, a set flag and a table index signals SBR with that rate. |
| `AscSyntax.ExplicitSbrIsParsed` | src/probe/audio_config.cpp:98-170 | A configuration laid out with the SBR object type, rates by index or spelled out and an inner type plain or escaped, parses to the core rate, the extension rate and the extension's index, whatever follows. |
| `AscSyntax.OtherTypeIsParsed` | src/probe/audio_config.cpp:98-200 | One with any other object type, plain or escaped, parses to that type, its rate and channels, with what the scan finds behind them. |
| `AscSyntax.MarkedIsParsed` | src/probe/audio_config.cpp:171-188 | The marker's eleven bits, an object type, a flag and a rate signal SBR with that rate exactly when the type is SBR and the flag is set. |
| `AscSyntax.MarkerIs` | src/probe/audio_config.cpp:171-173 | The marker is the eleven bits 01010110111 with more than 15 bits left. |
| `AudioConfig.RoundTripIff` | src/probe/audio_config.cpp:122-200 | For every configuration the writer accepts, the parser recovers object type, core rate, channels, SBR flag and extension rate exactly when no escape code was written as a plain value, or only as an inner type with enough padding behind it. |
| `AudioConfig.EscapesAreNotRecovered` | src/probe/audio_config.cpp:122-200 | Three configurations the writer accepts and the parser does not recover: an escape as object type, as core rate, as inner object type. |
| `AudioConfig.PaddedInnerEscapeIsRecovered` | src/probe/audio_config.cpp:122-200 | Padding can stand for the escape of an inner type. |
| `BmffScan.BoundedReader.Read` | src/probe/bmff_scan.cpp:128-146 | Returns the next bytes, exactly when they lie in the file. |
| `BmffScan.BoundedReader.Seek` | src/probe/bmff_scan.cpp:110-118 | Moves exactly to offsets within the file. |
| `BmffScan.ReadHeader` | src/probe/bmff_scan.cpp:225-319 | The header of section 4.2 of ISO/IEC 14496-12, or none when it is truncated, too small or too long. |
| `BmffScan.ReadVersionedField` | src/probe/bmff_scan.cpp:329-375 | The 32-bit field after the version-dependent prefix, or none when the box is too short; BmffFiles.FieldReadsBack says of which content it is the number. |
| `BmffScan.ParseFtyp` | src/probe/bmff_scan.cpp:381-411 | Major brand, version and all whole compatible brands. |
| `BmffScan.ParseElst` | src/probe/bmff_scan.cpp:421-474 | All declared entries, exactly when they fit in the box. |
| `BmffScan.WalkBoxes` | src/probe/bmff_scan.cpp:225-319 | The walk loop visits the boxes of its range as the walk function says. |
| `BmffScan.VisitTopLevel` | src/probe/bmff_scan.cpp:546-585 | What is recorded of a top-level box. |
| `BmffScan.MovieBoxRecords` | src/probe/bmff_scan.cpp:528-542 | Inside an accepted movie box the last movie header gives the timescale and each track box adds one track, in order. |
| `BmffScan.TrackBoxRecords` | src/probe/bmff_scan.cpp:476-526 | Inside an accepted track box the number comes from the last track header, the timescale from the last media header of its media boxes, and the edits are the entries of all edit lists in order. |
| `BmffScan.RunBmffScan` | src/probe/bmff_scan.cpp:546-585 | The scan of a whole file; a complete one records exactly what the box tree holds, and a written file is recorded as written by the lemmas on written files. |
| `BmffScan.WalkSucceedsIff` | src/probe/bmff_scan.cpp:225-319 | A walk goes through exactly when its range splits into consecutive well-formed boxes, each accepted. |
| `BmffScan.CompleteScanRecords` | src/probe/bmff_scan.cpp:546-585 | A complete scan records every tracked top-level box in order with its extent, counts the fragments and notes a segment index. |
| `BmffScan.CompleteScanIsRecorded` | src/probe/bmff_scan.cpp:381-585 | Every field of a complete scan is the one read off the box tree: extents, file types, the last movie timescale, and one track per track box of each movie box. |
| `BmffScan.WalkReadsItsRange` | src/probe/bmff_scan.cpp:225-319 | The outcome depends on the bytes of the walked range only. |
| `BmffScan.StopsInside` | src/probe/bmff_scan.cpp:225-319 | A walk that stops reports an offset inside its range. |
| `BmffFiles.FieldReadsBack` | src/probe/bmff_scan.cpp:329-375 | Content that is a version, three flag bytes, two times of 32 bits or, in version 1, 64 bits, a 32-bit number and anything behind it is read as that number. |
| `BmffFiles.LastHeadersAreRecorded` | src/probe/bmff_scan.cpp:476-585 | In a complete scan such a header as the last of its kind gives the movie timescale, the track number and the media timescale. |
| `BmffFiles.FileTypeReadsBack` | src/probe/bmff_scan.cpp:381-411 | A written file type is read as its brands and version; up to three stray bytes are no brand. |
| `BmffFiles.EditListReadsBack` | src/probe/bmff_scan.cpp:421-474 | A written edit list is read as its entries, with their signs, in both widths. |
| `BmffFiles.WrittenFileIsScanned` | src/probe/bmff_scan.cpp:225-585 | A file written box by box - file types, movies with tracks and edit lists, media data, fragments, indices, free space, in any number and order - is scanned to its end and recorded as written. |
| `TickOrders.CompareTicksChecked` | src/core/rational.h:644-659 | The sign of the cross difference, or no answer exactly when a product overflows. |
| `TickOrders.ComparisonOrdersSeconds` | src/core/rational.h:644-659 | An answered comparison orders the rational times. |
| `TickOrders.SameTimebaseOrder` | src/compare/span.cpp:42-58 | Over one positive timebase the order is that of the ticks. |
| `IntervalAlgebra.CanonicalIsUnique` | src/compare/span.cpp:73-106 | A canonical interval list is determined by the ticks it covers. |
| `IntervalAlgebra.MergeSortedIsCanonical` | src/compare/span.cpp:73-106 | Merging in start order gives the canonical list of the covered ticks and the single-tick gaps. |
| `IntervalAlgebra.MergedRuns` | src/compare/span.cpp:73-106 | With spans of no length allowed, merging gives the maximal runs of the ticks from the starts to the ends. |
| `IntervalAlgebra.RunsAreUnique` | src/compare/span.cpp:73-106 | Runs that are apart are determined by their ticks. |
| `SpanComparison.MergeSpans` | src/compare/span.cpp:73-106 | Sorting and merging in place of the last span, over one timebase without overflow. |
| `SpanComparison.CompareSpan` | src/compare/span.cpp:127-187 | The verdict on the two merged lists, and for a reordered list when it passes; an overflowed comparison gives an error and nothing else. |
| `SpanComparison.MergeIsOrderIndependent` | src/compare/span.cpp:73-106 | One merged list for every input order. |
| `SpanComparison.MergeIsIdempotent` | src/compare/span.cpp:73-106 | Merging a merged list changes nothing. |
| `SpanComparison.VerdictByCoverage` | src/compare/span.cpp:108-187 | The verdict by ticks: introduced are as many as the merged candidate runs that share no tick with the filled baseline, removed as many as the converse; the first gives the severity's status, only the second informs. |
| `SpanComparison.ReorderedListPasses` | src/compare/span.cpp:127-187 | A list of nonempty spans compared with any reordering of itself passes. |
| `SpanComparison.OrderedMergeIsOrderIndependent` | src/compare/span.cpp:73-106 | One merged list for every input order, spans of no length included. |
| `SpanComparison.ReorderedComparisonPassesIff` | src/compare/span.cpp:108-187 | A list compared with any reordering of itself passes exactly when every span of no length overlaps another span of the list or comes within a tick of one. |
| `SpanComparison.SelfComparisonPassesIff` | src/compare/span.cpp:108-187 | A list compared with itself passes under exactly that condition on its spans. |
| `SpanComparison.ZeroLengthSpanFails` | src/compare/span.cpp:108-110 | A concrete span of no length that fails against itself. |
| `WorkerPools.StepKeepsInvariant` | src/cli/worker_pool.cpp:26-69 | Every step of every thread keeps the pool invariant. |
| `WorkerPools.NoIndexTwice` | src/cli/worker_pool.cpp:52-60 | In no interleaving is an index handed out or run twice. |
| `WorkerPools.ReturnsWhenAllDone` | src/cli/worker_pool.cpp:26-69 | When the call returns, every index was run exactly once, the slots are those of the sequential loop, and exactly the exceptions of the jobs that throw were contained. |
| `WorkerPools.StepsDecrease` | src/cli/worker_pool.cpp:52-69 | Every step brings the end nearer. |
| `WorkerPools.SomeStepIsEnabled` | src/cli/worker_pool.cpp:52-69 | No interleaving gets stuck before the call returns. |
| `WorkerPools.RunsAreBounded` | src/cli/worker_pool.cpp:52-69 | No run is longer than a fixed bound, and one that cannot go on has returned. |
| `WorkerPools.RunSequentially` | src/cli/worker_pool.cpp:38-47 | The single-threaded branch leaves the same slots and goes on after an exception. |
| `PacketSweep.TakePacket` | src/probe/packet_scan.cpp:145-326 | One packet: stored or refused, with its access unit, keeping the prefix and the accounting. |
| `PacketSweep.TakeUnit` | src/probe/packet_scan.cpp:276-300 | The access unit is charged to the same budget. |
| `PacketSweep.SkipsReadBack` | src/probe/packet_scan.cpp:219-262 | Side data written as two little-endian numbers is read back as start and end skip; shorter data has no end skip, or none at all. |
| `PacketSweep.RunPacketScan` | src/probe/packet_scan.cpp:145-326 | Accounted bytes equal what is stored and never exceed the budget; each stream's packets and access units are a prefix of what came for it; a stream is partial exactly when a packet of it was refused. |
| `PacketSweep.CapIsLargest` | src/probe/packet_scan.cpp:43-48 | The derived cap is the largest share that all threads can have of the budget; one thread has all of it. |
| `PacketSweep.SweepsStayWithinBudget` | src/probe/packet_scan.cpp:43-48 | As many sweeps as threads under the derived cap stay within the whole budget. |
| `JsonLayout.CountScalars` | src/core/serializer.cpp:117-133 | The number of scalar leaves. |
| `JsonLayout.WriteNode` | src/core/serializer.cpp:148-192 | Appends the node's text in the canonical layout. |
| `JsonLayout.WriteNodeCompact` | src/core/serializer.cpp:201-229 | Appends the node's text in the compact form. |
| `JsonLayout.SerializeDocument` | src/core/serializer.cpp:233-238 | The document's text: the tree's tokens, on as many lines as scalar leaves. |
| `JsonLayout.SerializeValueCompact` | src/core/serializer.cpp:240-244 | The compact text: the tree's tokens with nothing between them. |
| `JsonLayout.DocumentLines` | src/core/serializer.cpp:117-238 | A document has exactly as many lines as scalar leaves, and one line when it has none. |
| `JsonLayout.DocumentIsCompactUpToLayout` | src/core/serializer.cpp:148-244 | A lexer finds the same token sequence in the document and in the compact form, that of the tree, and the compact form has nothing between its tokens. |
| `JsonReader.LiteralReadsBack` | src/core/serializer.cpp:68 | A quoted string reads back to the string by the escapes of section 7 of RFC 8259. |
| `JsonReader.ScalarReadsBack` | src/core/serializer.cpp:74-111 | Every scalar's text reads back to it: null, the two booleans, integers, floats as floats, strings. |
| `JsonReader.TextsReadBack` | src/core/serializer.cpp:74-244 | A reader of RFC 8259 reads the document and the compact text as the tree: the same keys and values in order, each number as the integer or float it is. |
| `JsonIndent.DocumentIsIndented` | src/core/serializer.cpp:148-192 | Every line break in a document is followed by exactly one blank per bracket open there. |

## Left out

- libav, libebur128 and the loudness read-out, floating-point sample scanning and thresholds: foreign code; thresholds and amplitudes are integer parameters.
- File handles, short physical reads, temporary files, command-line parsing, colours and message wording: input and output only.
- The move operations of the audio decode sink and the fields they do not copy.
- Digest algorithm, nlohmann/json parsing, UTF-8 validation and float formatting: digests are an arbitrary function, number texts are given, strings are escaped character by character.
- Policy layering, glob matching, registry lookups, presence, set, histogram and hash comparators, fingerprint pairing, SBR resolution after a probe decode: lookups and single decisions.
- `std::sort` is an insertion sort with the same comparison; which pairs an unspecified sort compares, and so whether an overflow between two spans of mixed timebases is noticed while sorting, is not modelled.
- `compare_ticks` with its sign fallback, the rendered delta and the evidence strings of a tolerance finding: they decide no verdict.
- Object and array branches of the JSON writers are one branch with a flag, and their children one list; key order is the list order.
- The bit readers and writers keep bits as booleans; byte buffers are sequences.
- The field lists of the H.264 and HEVC parameter sets are written by one loop instead of one call per field.
- The scan's 64-bit stop offset and the sweep's read counter are unbounded; a file is shorter than 2^63 bytes by requirement.
- CompareTolerance.CompareTol: the denominators of both measurements are assumed positive, as every producer and the snapshot reader guarantee.
- WorkerPools.ReturnsWhenAllDone: a job count plus worker count above 2^64, where the shared counter would wrap, is excluded.
- Int128.Int128Native.TryReduceRatio: operands of -2^127 are excluded, because negating them is undefined in the source.
- Int128.Int128Native.AddProduct: sums outside 128 signed bits are excluded, because signed overflow is undefined in the source.
- SpanComparison.ReorderedComparisonPassesIff: spans that end before they start are excluded; no producer makes one.
- JsonReader.TextsReadBack: number texts are taken as the number formatters write them: a digit or a minus sign first, no fraction or exponent in an integer.
- BmffFiles.WrittenFileIsScanned: the written files are below 4 GiB, with short box headers and a fixed order of the boxes in a track; any other file is covered by BmffScan.CompleteScanIsRecorded.
- H264Syntax.StreamIsDecoded, HevcSyntax.StreamIsDecoded: the decoders read the syntax such streams use; branches for other profiles are refused.
- SpanComparison.CompareSpan: for lists over several timebases or with overflowing ticks only the error verdict of a noticed overflow is stated.
