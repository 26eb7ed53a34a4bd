/** Decoded frames and the packed PCM they stand for. */
module Pcm {
  import opened MachineInts
  import opened Products

  datatype PackedFormat = U8 | S16 | S32 | S64 | Flt | Dbl | NoFormat

  function BytesPerSample(f: PackedFormat): (n: nat)
    ensures n <= 8
  {
    match f
    case U8 => 1
    case S16 => 2
    case S32 => 4
    case S64 => 8
    case Flt => 4
    case Dbl => 8
    case NoFormat => 0
  }

  /** A decoder frame: its sample format as the packed equivalent and whether
      the channels lie in separate planes, its shape, and its buffers. */
  datatype Frame = Frame(format: PackedFormat, planar: bool, channels: int, samples: int, rate: int, layout: string,
                         planes: seq<seq<Byte>>)

  predicate HasSamples(f: Frame) {
    BytesPerSample(f.format) > 0 && f.channels > 0 && f.samples > 0
  }

  /** Bytes of one sample across all channels. */
  function SampleSize(f: Frame): int {
    f.channels * BytesPerSample(f.format)
  }

  function PcmLength(f: Frame): int {
    f.samples * SampleSize(f)
  }

  /** The decoder's buffers hold what the shape promises. */
  predicate Backed(f: Frame) {
    HasSamples(f) ==>
      if f.planar then
        |f.planes| >= f.channels && forall c :: 0 <= c < f.channels ==> |f.planes[c]| >= f.samples * BytesPerSample(f.format)
      else |f.planes| >= 1 && |f.planes[0]| >= PcmLength(f)
  }

  /** Byte k of the packed stream: sample-major, then channel, then byte. */
  function PcmByte(f: Frame, k: nat): Byte
    requires HasSamples(f) && Backed(f) && k < PcmLength(f)
  {
    if f.planar then
      var bps := BytesPerSample(f.format);
      var unit, b := k / bps, k % bps;
      PlanarIndex(f, k);
      f.planes[unit % f.channels][(unit / f.channels) * bps + b]
    else f.planes[0][k]
  }

  lemma PlanarIndex(f: Frame, k: nat)
    requires HasSamples(f) && k < PcmLength(f)
    ensures var bps := BytesPerSample(f.format);
      var unit, b := k / bps, k % bps;
      0 <= unit % f.channels < f.channels && 0 <= (unit / f.channels) * bps + b < f.samples * bps
  {
    var bps, ch := BytesPerSample(f.format), f.channels;
    var unit := k / bps;
    var s := unit / ch;
    Associate(f.samples, ch, bps);
    QuotientBelow(k, bps, f.samples * ch);
    QuotientBelow(unit, ch, f.samples);
    Monotone(bps, s + 1, f.samples);
    Distribute(bps, s, 1);
    Monotone(bps, 0, s);
  }

  lemma QuotientBelow(n: int, d: int, q: int)
    requires 0 <= n < q * d && d > 0
    ensures 0 <= n / d < q
  {
    if n / d >= q {
      Monotone(d, q, n / d);
    }
  }

  /** The frame's samples as packed bytes. */
  function PcmOf(f: Frame): (s: seq<Byte>)
    requires HasSamples(f) && Backed(f)
    ensures |s| == PcmLength(f)
  {
    PositiveLength(f);
    seq(PcmLength(f), k requires 0 <= k < PcmLength(f) => PcmByte(f, k))
  }

  lemma PositiveLength(f: Frame)
    requires HasSamples(f)
    ensures SampleSize(f) > 0 && PcmLength(f) > 0
  {
    Monotone(f.channels, 1, BytesPerSample(f.format));
    Monotone(f.samples, 1, SampleSize(f));
  }

  /** The bits of one sample. */
  function SampleBits(f: PackedFormat): nat {
    match f
    case U8 => 8
    case S16 => 16
    case S32 => 32
    case S64 => 64
    case Flt => 32
    case Dbl => 64
    case NoFormat => 0
  }

  /** A frame's packed bytes are as many as its samples take. */
  lemma PcmHoldsSamples(f: Frame)
    requires HasSamples(f) && Backed(f)
    ensures SampleBits(f.format) > 0 && 8 * |PcmOf(f)| == f.samples * (f.channels * SampleBits(f.format))
  {
    assert SampleBits(f.format) == 8 * BytesPerSample(f.format);
    Associate(8, f.channels, BytesPerSample(f.format));
    Associate(8, f.samples, f.channels * BytesPerSample(f.format));
  }

  /** Byte b of sample s of channel c, where the frame's layout puts it. */
  function SampleByte(f: Frame, s: nat, c: nat, b: nat): Byte
    requires HasSamples(f) && Backed(f)
    requires s < f.samples && c < f.channels && b < BytesPerSample(f.format)
  {
    PackedOffset(f, s, c, b);
    var bps := BytesPerSample(f.format);
    if f.planar then f.planes[c][s * bps + b] else f.planes[0][(s * f.channels + c) * bps + b]
  }

  lemma PackedOffset(f: Frame, s: nat, c: nat, b: nat)
    requires HasSamples(f) && s < f.samples && c < f.channels && b < BytesPerSample(f.format)
    ensures var bps, unit := BytesPerSample(f.format), s * f.channels + c;
      && unit / f.channels == s && unit % f.channels == c && 0 <= s * bps + b < f.samples * bps
      && 0 <= unit * bps + b < PcmLength(f) && (unit * bps + b) / bps == unit && (unit * bps + b) % bps == b
  {
    var bps, ch := BytesPerSample(f.format), f.channels;
    var unit := s * ch + c;
    assert PcmLength(f) == f.samples * (ch * bps);
    hide *;
    DivModUnique(unit, ch, s, c);
    DivModUnique(unit * bps + b, bps, unit, b);
    BelowProduct(s, f.samples, ch, c);
    BelowProduct(unit, f.samples * ch, bps, b);
    BelowProduct(s, f.samples, bps, b);
    Associate(f.samples, ch, bps);
  }

  lemma BelowProduct(q: nat, n: nat, d: nat, r: nat)
    requires q < n && r < d
    ensures 0 <= q * d + r < n * d
  {
    Monotone(d, q + 1, n);
    Distribute(d, q, 1);
    Monotone(d, 0, q);
  }

  predicate SameShape(f: Frame, g: Frame) {
    f.format == g.format && f.channels == g.channels && f.samples == g.samples
  }

  /** Every sample of every channel has the same bytes. */
  predicate SamplesAgree(f: Frame, g: Frame)
    requires HasSamples(f) && Backed(f) && HasSamples(g) && Backed(g) && SameShape(f, g)
  {
    forall s, c, b :: 0 <= s < f.samples && 0 <= c < f.channels && 0 <= b < BytesPerSample(f.format) ==>
      SampleByte(f, s, c, b) == SampleByte(g, s, c, b)
  }

  /** Where a sample's byte stands in the packed stream, whatever the layout. */
  lemma SampleStands(f: Frame, s: nat, c: nat, b: nat)
    requires HasSamples(f) && Backed(f)
    requires s < f.samples && c < f.channels && b < BytesPerSample(f.format)
    ensures var k := (s * f.channels + c) * BytesPerSample(f.format) + b;
      0 <= k < PcmLength(f) && PcmOf(f)[k] == SampleByte(f, s, c, b)
  {
    PackedOffset(f, s, c, b);
    hide PcmLength, SampleSize, BytesPerSample;
  }

  /** Every byte of the packed stream belongs to a sample of a channel. */
  lemma ByteOfSample(f: Frame, k: nat) returns (s: nat, c: nat, b: nat)
    requires HasSamples(f) && k < PcmLength(f)
    ensures s < f.samples && c < f.channels && b < BytesPerSample(f.format)
    ensures k == (s * f.channels + c) * BytesPerSample(f.format) + b
  {
    var bps, ch := BytesPerSample(f.format), f.channels;
    var unit := k / bps;
    s, c, b := unit / ch, unit % ch, k % bps;
    Associate(f.samples, ch, bps);
    QuotientBelow(k, bps, f.samples * ch);
    QuotientBelow(unit, ch, f.samples);
  }

  /** Two frames of one shape, planar or packed, stand for the same packed bytes
      exactly when every sample of every channel agrees. */
  lemma PcmIsSamples(f: Frame, g: Frame)
    requires HasSamples(f) && Backed(f) && HasSamples(g) && Backed(g) && SameShape(f, g)
    ensures PcmOf(f) == PcmOf(g) <==> SamplesAgree(f, g)
  {
    hide HasSamples, Backed, BytesPerSample, PcmOf, SampleByte;
    if PcmOf(f) == PcmOf(g) {
      forall s, c, b | 0 <= s < f.samples && 0 <= c < f.channels && 0 <= b < BytesPerSample(f.format)
        ensures SampleByte(f, s, c, b) == SampleByte(g, s, c, b)
      {
        SampleStands(f, s, c, b);
        SampleStands(g, s, c, b);
      }
    }
    if SamplesAgree(f, g) {
      forall k | 0 <= k < PcmLength(f) ensures PcmOf(f)[k] == PcmOf(g)[k] {
        var s, c, b := ByteOfSample(f, k);
        SampleStands(f, s, c, b);
        SampleStands(g, s, c, b);
      }
    }
  }

  /** Interleaves once per frame into a scratch buffer; packed frames are
      copied as they are. */
  method Interleave(f: Frame) returns (pcm: seq<Byte>)
    requires HasSamples(f) && Backed(f)
    ensures pcm == PcmOf(f)
  {
    hide Filled, PcmByte;
    PositiveLength(f);
    var bps, ch := BytesPerSample(f.format), f.channels;
    var frameBytes := f.samples * ch * bps;
    Associate(f.samples, ch, bps);
    if !f.planar {
      PackedPcm(f);
      return f.planes[0][..frameBytes];
    }
    var scratch := new Byte[frameBytes];
    FilledStart(f, scratch[..]);
    for s := 0 to f.samples
      invariant Filled(f, scratch[..], s, 0)
    {
      for c := 0 to ch
        invariant Filled(f, scratch[..], s, c)
      {
        SampleOffset(f, s, c);
        ghost var before := scratch[..];
        CopySample(scratch, (s * ch + c) * bps, f.planes[c], s * bps, bps);
        FilledSample(f, before, scratch[..], s, c);
      }
      FilledRow(f, scratch[..], s);
    }
    FilledAll(f, scratch[..]);
    pcm := scratch[..];
  }

  /** The scratch buffer holds every sample before sample s of channel c. */
  ghost predicate Filled(f: Frame, scratch: seq<Byte>, s: nat, c: nat)
    requires HasSamples(f) && Backed(f)
  {
    && |scratch| == PcmLength(f)
    && forall k :: 0 <= k < (s * f.channels + c) * BytesPerSample(f.format) && k < PcmLength(f) ==> scratch[k] == PcmByte(f, k)
  }

  /** after is before with the sample of plane c copied to its place. */
  ghost predicate SampleCopied(f: Frame, before: seq<Byte>, after: seq<Byte>, s: nat, c: nat)
    requires HasSamples(f) && Backed(f) && f.planar && s < f.samples && c < f.channels
  {
    SampleOffset(f, s, c);
    var bps := BytesPerSample(f.format);
    var offset := (s * f.channels + c) * bps;
    && |after| == |before|
    && forall k :: 0 <= k < |after| ==>
      after[k] == if offset <= k < offset + bps then f.planes[c][s * bps + (k - offset)] else before[k]
  }

  lemma PackedPcm(f: Frame)
    requires HasSamples(f) && Backed(f) && !f.planar
    ensures PcmOf(f) == f.planes[0][..PcmLength(f)]
  {}

  lemma FilledStart(f: Frame, scratch: seq<Byte>)
    requires HasSamples(f) && Backed(f) && |scratch| == PcmLength(f)
    ensures Filled(f, scratch, 0, 0)
  {
    hide PcmByte;
    assert (0 * f.channels + 0) * BytesPerSample(f.format) == 0;
  }

  lemma FilledSample(f: Frame, before: seq<Byte>, after: seq<Byte>, s: nat, c: nat)
    requires HasSamples(f) && Backed(f) && f.planar && s < f.samples && c < f.channels
    requires Filled(f, before, s, c) && SampleCopied(f, before, after, s, c)
    ensures Filled(f, after, s, c + 1)
  {
    hide PcmByte;
    SampleOffset(f, s, c);
    var bps := BytesPerSample(f.format);
    var offset := (s * f.channels + c) * bps;
    forall k | 0 <= k < offset + bps && k < PcmLength(f) ensures after[k] == PcmByte(f, k) {
      if k >= offset {
        PcmByteOfSample(f, s, c, k - offset);
      }
    }
  }

  lemma FilledRow(f: Frame, scratch: seq<Byte>, s: nat)
    requires HasSamples(f) && Backed(f) && Filled(f, scratch, s, f.channels)
    ensures Filled(f, scratch, s + 1, 0)
  {
    hide PcmByte;
    Distribute(f.channels, s, 1);
  }

  lemma FilledAll(f: Frame, scratch: seq<Byte>)
    requires HasSamples(f) && Backed(f) && Filled(f, scratch, f.samples, 0)
    ensures scratch == PcmOf(f)
  {
    hide PcmByte;
    Associate(f.samples, f.channels, BytesPerSample(f.format));
  }

  method CopySample(dst: array<Byte>, offset: nat, src: seq<Byte>, from: nat, count: nat)
    requires offset + count <= dst.Length && from + count <= |src|
    modifies dst
    ensures forall k :: 0 <= k < dst.Length ==>
      dst[k] == if offset <= k < offset + count then src[from + (k - offset)] else old(dst[k])
  {
    forall b | 0 <= b < count {
      dst[offset + b] := src[from + b];
    }
  }

  /** The bytes of sample s of channel c in the packed stream and in its plane. */
  lemma SampleOffset(f: Frame, s: nat, c: nat)
    requires HasSamples(f) && Backed(f) && f.planar && s < f.samples && c < f.channels
    ensures var bps := BytesPerSample(f.format);
      && 0 <= s * f.channels + c && 0 <= (s * f.channels + c) * bps
      && (s * f.channels + (c + 1)) * bps == (s * f.channels + c) * bps + bps <= f.samples * f.channels * bps
      && 0 <= s * bps && s * bps + bps <= |f.planes[c]|
      && f.samples * f.channels * bps == PcmLength(f)
  {
    var bps, ch := BytesPerSample(f.format), f.channels;
    var unit := s * ch + c;
    Monotone(ch, 0, s);
    Monotone(ch, s + 1, f.samples);
    Distribute(ch, s, 1);
    Monotone(bps, 0, unit);
    Monotone(bps, unit + 1, f.samples * ch);
    Distribute(bps, unit, 1);
    Monotone(bps, 0, s);
    Monotone(bps, s + 1, f.samples);
    Distribute(bps, s, 1);
    Associate(f.samples, ch, bps);
  }

  lemma PcmByteOfSample(f: Frame, s: nat, c: nat, b: nat)
    requires HasSamples(f) && Backed(f) && f.planar && s < f.samples && c < f.channels && b < BytesPerSample(f.format)
    ensures var bps := BytesPerSample(f.format);
      && s * f.channels + c >= 0 && 0 <= (s * f.channels + c) * bps + b < PcmLength(f)
      && 0 <= s * bps + b < |f.planes[c]|
      && PcmByte(f, (s * f.channels + c) * bps + b) == f.planes[c][s * bps + b]
  {
    var bps, ch := BytesPerSample(f.format), f.channels;
    SampleOffset(f, s, c);
    var unit := s * ch + c;
    DivModUnique(unit * bps + b, bps, unit, b);
    DivModUnique(unit, ch, s, c);
  }
}

/** Cutting a byte stream into blocks of a fixed stride. */
module Blocks {
  import opened MachineInts
  import Products

  /** The full blocks of s, in order. */
  function FullBlocks(s: seq<Byte>, stride: int): (b: seq<seq<Byte>>)
    requires stride > 0
    decreases |s|
  {
    if |s| < stride then [] else [s[..stride]] + FullBlocks(s[stride..], stride)
  }

  /** What is left after the full blocks. */
  function Rest(s: seq<Byte>, stride: int): (r: seq<Byte>)
    requires stride > 0
    ensures |r| < stride
    decreases |s|
  {
    if |s| < stride then s else Rest(s[stride..], stride)
  }

  /** All blocks: the full ones, and the trailing partial one if any. */
  function AllBlocks(s: seq<Byte>, stride: int): seq<seq<Byte>>
    requires stride > 0
  {
    FullBlocks(s, stride) + (if Rest(s, stride) == [] then [] else [Rest(s, stride)])
  }

  function Concat(blocks: seq<seq<Byte>>): seq<Byte> {
    if blocks == [] then [] else blocks[0] + Concat(blocks[1..])
  }

  lemma {:induction false} ConcatSnoc(blocks: seq<seq<Byte>>, last: seq<Byte>)
    ensures Concat(blocks + [last]) == Concat(blocks) + last
  {
    if blocks == [] {
      assert Concat([last]) == last + Concat([]);
    } else {
      ConcatSnoc(blocks[1..], last);
      assert (blocks + [last])[1..] == blocks[1..] + [last];
    }
  }

  /** Feeding t after s cuts the same blocks as feeding t after what s left. */
  lemma {:induction false} FeedingContinues(s: seq<Byte>, t: seq<Byte>, stride: int)
    requires stride > 0
    ensures FullBlocks(s + t, stride) == FullBlocks(s, stride) + FullBlocks(Rest(s, stride) + t, stride)
    ensures Rest(s + t, stride) == Rest(Rest(s, stride) + t, stride)
    decreases |s|
  {
    if |s| >= stride {
      FeedingContinues(s[stride..], t, stride);
      assert (s + t)[..stride] == s[..stride] && (s + t)[stride..] == s[stride..] + t;
    }
  }

  lemma {:induction false} FullBlocksCover(s: seq<Byte>, stride: int)
    requires stride > 0
    ensures Concat(FullBlocks(s, stride)) + Rest(s, stride) == s
    ensures forall i :: 0 <= i < |FullBlocks(s, stride)| ==> |FullBlocks(s, stride)[i]| == stride
    ensures |FullBlocks(s, stride)| == |s| / stride && |Rest(s, stride)| == |s| % stride
    decreases |s|
  {
    if |s| >= stride {
      FullBlocksCover(s[stride..], stride);
      assert FullBlocks(s, stride)[1..] == FullBlocks(s[stride..], stride);
      assert s == s[..stride] + s[stride..];
      var q, r := (|s| - stride) / stride, (|s| - stride) % stride;
      assert |s| == stride * (q + 1) + r by {
        Products.Distribute(stride, q, 1);
      }
      Products.DivModUnique(|s|, stride, q + 1, r);
    } else {
      Products.DivModUnique(|s|, stride, 0, |s|);
    }
  }

  /** The blocks concatenate to the whole stream, all but the last have the full
      stride, none is empty, and there are ceil(length / stride) of them. */
  lemma AllBlocksPartition(s: seq<Byte>, stride: int)
    requires stride > 0
    ensures var b := AllBlocks(s, stride);
      && Concat(b) == s
      && (forall i :: 0 <= i < |b| - 1 ==> |b[i]| == stride)
      && (b != [] ==> 0 < |b[|b| - 1]| <= stride)
      && |b| == (|s| + stride - 1) / stride
  {
    var full, rest := FullBlocks(s, stride), Rest(s, stride);
    FullBlocksCover(s, stride);
    BlockCount(|s|, stride);
    ConcatSnoc(full, rest);
    hide FullBlocks, Rest, Concat;
    if rest == [] {
      assert full + [] == full && Concat(full) + rest == Concat(full);
    }
  }

  lemma BlockCount(n: nat, stride: int)
    requires stride > 0
    ensures (n + stride - 1) / stride == n / stride + (if n % stride == 0 then 0 else 1)
  {
    var q, r := n / stride, n % stride;
    if r == 0 {
      Products.DivModUnique(n + stride - 1, stride, q, stride - 1);
    } else {
      Products.Distribute(stride, q, 1);
      Products.DivModUnique(n + stride - 1, stride, q + 1, r - 1);
    }
  }
}
