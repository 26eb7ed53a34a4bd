/** Walking and growing a tree of ISO base media boxes. */
module BoxSplice {
  import opened MachineInts
  import opened Options
  import opened BigEndian
  import opened IsoBoxes

  /** The first box of the given type among those that tile [pos, end). */
  function ChildIn(data: seq<Byte>, pos: nat, end: nat, boxType: seq<Byte>): (r: Outcome<Option<Box>>)
    requires end <= |data|
    ensures r.Fine? && r.value.Some? ==>
      var b := r.value.value; pos <= b.start && b.ContentEnd() <= end && 8 <= b.headerLen <= b.size
    decreases end - pos
  {
    if pos >= end then Fine(None)
    else
      var h := ParseBoxHeader(data, pos, end);
      if h.FixtureError? then FixtureError
      else if h.value.boxType == boxType then Fine(Some(Box(pos, h.value.size, h.value.headerLen)))
      else ChildIn(data, pos + h.value.size, end, boxType)
  }

  method FindChildBox(data: seq<Byte>, regionStart: nat, regionEnd: nat, boxType: seq<Byte>) returns (r: Outcome<Option<Box>>)
    requires regionEnd <= |data|
    ensures r == ChildIn(data, regionStart, regionEnd, boxType)
  {
    var pos := regionStart;
    while pos < regionEnd
      invariant ChildIn(data, regionStart, regionEnd, boxType) == ChildIn(data, pos, regionEnd, boxType)
      decreases regionEnd - pos
    {
      var h := ParseBoxHeader(data, pos, regionEnd);
      if h.FixtureError? {
        return FixtureError;
      }
      if h.value.boxType == boxType {
        return Fine(Some(Box(pos, h.value.size, h.value.headerLen)));
      }
      pos := pos + h.value.size;
    }
    return Fine(None);
  }

  /** A box's type field. */
  function TypeOf(data: seq<Byte>, b: Box): seq<Byte>
    requires b.start + 8 <= |data|
  {
    data[b.start + 4..b.start + 8]
  }

  /** The found box is the first one of its type. */
  lemma {:induction false} ChildIsFirst(data: seq<Byte>, pos: nat, end: nat, boxType: seq<Byte>)
    requires end <= |data| && Children(data, pos, end).Fine?
    ensures ChildIn(data, pos, end, boxType).Fine?
    ensures IsFirst(data, Children(data, pos, end).value, boxType, ChildIn(data, pos, end, boxType).value)
    decreases end - pos
  {
    if pos < end {
      ChildrenHead(data, pos, end);
      var h := ParseBoxHeader(data, pos, end).value;
      var b := Box(pos, h.size, h.headerLen);
      ChildIsFirst(data, pos + h.size, end, boxType);
      ChildInHead(data, pos, end, boxType);
      var rest := Children(data, pos + h.size, end).value;
      hide ParseBoxHeader, ChildIn, Children;
      FirstOfCons(data, b, rest, boxType, ChildIn(data, pos + h.size, end, boxType).value);
    }
  }

  /** b is the first of the boxes with the given type. */
  predicate IsFirst(data: seq<Byte>, boxes: seq<Box>, boxType: seq<Byte>, found: Option<Box>) {
    && (forall b :: b in boxes ==> b.start + 8 <= |data|)
    && match found
       case None => (forall b :: b in boxes ==> TypeOf(data, b) != boxType)
       case Some(b) => (exists i :: 0 <= i < |boxes| && boxes[i] == b && TypeOf(data, b) == boxType
                                    && (forall j :: 0 <= j < i ==> TypeOf(data, boxes[j]) != boxType))
  }

  lemma ChildInHead(data: seq<Byte>, pos: nat, end: nat, boxType: seq<Byte>)
    requires pos < end <= |data| && ParseBoxHeader(data, pos, end).Fine?
    ensures var h := ParseBoxHeader(data, pos, end).value;
      var b := Box(pos, h.size, h.headerLen);
      && b.start + 8 <= |data| && TypeOf(data, b) == h.boxType
      && ChildIn(data, pos, end, boxType)
         == if h.boxType == boxType then Fine(Some(b)) else ChildIn(data, pos + h.size, end, boxType)
  {}

  lemma FirstOfCons(data: seq<Byte>, b: Box, rest: seq<Box>, boxType: seq<Byte>, found: Option<Box>)
    requires b.start + 8 <= |data| && IsFirst(data, rest, boxType, found)
    ensures IsFirst(data, [b] + rest, boxType, if TypeOf(data, b) == boxType then Some(b) else found)
  {
    var boxes := [b] + rest;
    assert boxes[0] == b;
    if TypeOf(data, b) != boxType && found.Some? {
      var i :| 0 <= i < |rest| && rest[i] == found.value && forall j :: 0 <= j < i ==> TypeOf(data, rest[j]) != boxType;
      assert boxes[i + 1] == found.value;
    }
  }

  // ---------------------------------------------------------------------
  // The path from the movie box down to a sample entry.
  // ---------------------------------------------------------------------

  const STSD_PREFIX_SIZE := 8
  const VIDEO_SAMPLE_ENTRY_FIXED_HEADER_SIZE := 78

  function Ascii(s: string): (b: seq<Byte>)
    requires forall i :: 0 <= i < |s| ==> s[i] < 128 as char
    ensures |b| == |s|
  {
    seq(|s|, i requires 0 <= i < |s| => AsciiByte(s[i]))
  }

  function AsciiByte(c: char): Byte
    requires c < 128 as char
  {
    c as int
  }

  /** One step down: the child's type, and the bytes of the parent's content to
      skip before its children start. */
  datatype Step = Step(boxType: seq<Byte>, skip: nat)

  function Descent(sampleEntryType: seq<Byte>): seq<Step> {
    [Step(Ascii("moov"), 0), Step(Ascii("trak"), 0), Step(Ascii("mdia"), 0), Step(Ascii("minf"), 0),
     Step(Ascii("stbl"), 0), Step(Ascii("stsd"), 0), Step(sampleEntryType, STSD_PREFIX_SIZE)]
  }

  /** The boxes met when descending from the region whose content is
      [start, end), outermost first. */
  function Path(data: seq<Byte>, start: nat, end: nat, steps: seq<Step>): (p: Outcome<seq<Box>>)
    requires end <= |data|
    ensures p.Fine? ==> |p.value| == |steps|
    decreases |steps|
  {
    if steps == [] then Fine([])
    else
      var found := ChildIn(data, start + steps[0].skip, end, steps[0].boxType);
      if found.FixtureError? || found.value.None? then FixtureError
      else
        var b := found.value.value;
        var rest := Path(data, b.ContentStart(), b.ContentEnd(), steps[1..]);
        if rest.FixtureError? then FixtureError else Fine([b] + rest.value)
  }

  method RequireChildBox(data: seq<Byte>, regionStart: nat, regionEnd: nat, boxType: seq<Byte>) returns (r: Outcome<Box>)
    requires regionEnd <= |data|
    ensures var found := ChildIn(data, regionStart, regionEnd, boxType);
      r == if found.Fine? && found.value.Some? then Fine(found.value.value) else FixtureError
  {
    var found := FindChildBox(data, regionStart, regionEnd, boxType);
    if found.FixtureError? || found.value.None? {
      return FixtureError;
    }
    return Fine(found.value.value);
  }

  method LocateSampleEntry(data: seq<Byte>, sampleEntryType: seq<Byte>) returns (path: Outcome<seq<Box>>)
    ensures path == Path(data, 0, |data|, Descent(sampleEntryType))
  {
    var steps := Descent(sampleEntryType);
    var start: nat, end: nat := 0, |data|;
    var boxes: seq<Box> := [];
    assert steps[0..] == steps;
    PrependNone(Path(data, start, end, steps));
    hide *;
    for i := 0 to |steps|
      invariant end <= |data|
      invariant Path(data, 0, |data|, steps) == PathFrom(data, start, end, steps, i, boxes)
    {
      PathSteps(data, start, end, steps, i, boxes);
      var found := RequireChildBox(data, start + steps[i].skip, end, steps[i].boxType);
      if found.FixtureError? {
        return FixtureError;
      }
      boxes := boxes + [found.value];
      start, end := found.value.ContentStart(), found.value.ContentEnd();
    }
    PathEnds(data, start, end, steps, boxes);
    return Fine(boxes);
  }

  /** The path when boxes were found on the way to step i. */
  function PathFrom(data: seq<Byte>, start: nat, end: nat, steps: seq<Step>, i: nat, boxes: seq<Box>): Outcome<seq<Box>>
    requires end <= |data| && i <= |steps|
  {
    Prepend(boxes, Path(data, start, end, steps[i..]))
  }

  lemma PathSteps(data: seq<Byte>, start: nat, end: nat, steps: seq<Step>, i: nat, boxes: seq<Box>)
    requires end <= |data| && i < |steps|
    ensures var found := ChildIn(data, start + steps[i].skip, end, steps[i].boxType);
      var here := PathFrom(data, start, end, steps, i, boxes);
      if found.FixtureError? || found.value.None? then here == FixtureError
      else
        var b := found.value.value;
        b.ContentEnd() <= |data| && here == PathFrom(data, b.ContentStart(), b.ContentEnd(), steps, i + 1, boxes + [b])
  {
    assert steps[i..][1..] == steps[i + 1..];
    var found := ChildIn(data, start + steps[i].skip, end, steps[i].boxType);
    if found.Fine? && found.value.Some? {
      var b := found.value.value;
      PrependOne(boxes, b, Path(data, b.ContentStart(), b.ContentEnd(), steps[i + 1..]));
    }
  }

  lemma PathEnds(data: seq<Byte>, start: nat, end: nat, steps: seq<Step>, boxes: seq<Box>)
    requires end <= |data|
    ensures PathFrom(data, start, end, steps, |steps|, boxes) == Fine(boxes)
  {
    assert steps[|steps|..] == [] && boxes + [] == boxes;
  }

  lemma PrependNone(rest: Outcome<seq<Box>>)
    ensures Prepend([], rest) == rest
  {
    if rest.Fine? {
      assert [] + rest.value == rest.value;
    }
  }

  function Prepend(boxes: seq<Box>, rest: Outcome<seq<Box>>): Outcome<seq<Box>> {
    if rest.FixtureError? then FixtureError else Fine(boxes + rest.value)
  }

  lemma PrependOne(boxes: seq<Box>, b: Box, rest: Outcome<seq<Box>>)
    ensures Prepend(boxes, if rest.FixtureError? then FixtureError else Fine([b] + rest.value)) == Prepend(boxes + [b], rest)
  {
    if rest.Fine? {
      assert boxes + ([b] + rest.value) == boxes + [b] + rest.value;
    }
  }

  // ---------------------------------------------------------------------
  // Growing a size field.
  // ---------------------------------------------------------------------

  /** The bytes of a box's own size field, and the value it gets. */
  datatype SizeField = SizeField(at: nat, bytes: seq<Byte>)

  /** The size field of a box that grows by delta: none to write when the box is
      open-ended, a refusal when the value does not fit. */
  function GrownField(data: seq<Byte>, start: nat, delta: nat): (r: Outcome<SizeField>)
    requires start + 8 <= |data| && (U32At(data, start) == 1 ==> start + 16 <= |data|)
    ensures r.Fine? ==> start <= r.value.at && r.value.at + |r.value.bytes| <= |data|
    ensures r.Fine? ==> r.value.at + |r.value.bytes| <= start + (if U32At(data, start) == 1 then 16 else 8)
  {
    var declared := U32At(data, start);
    if declared == 1 then
      var large := U64At(data, start + 8) + delta;
      if large >= 0x1_0000_0000_0000_0000 then FixtureError else Fine(SizeField(start + 8, U64Bytes(large)))
    else if declared == 0 then Fine(SizeField(start, []))
    else if declared + delta >= 0x1_0000_0000 then FixtureError
    else Fine(SizeField(start, U32Bytes(declared + delta)))
  }

  /** data with bytes written from at on. */
  function Overwrite(data: seq<Byte>, at: nat, bytes: seq<Byte>): (r: seq<Byte>)
    requires at + |bytes| <= |data|
    ensures |r| == |data|
    ensures forall k :: 0 <= k < |data| ==> r[k] == if at <= k < at + |bytes| then bytes[k - at] else data[k]
  {
    data[..at] + bytes + data[at + |bytes|..]
  }

  predicate HasSizeField(data: seq<Byte>, start: nat) {
    start + 8 <= |data| && (U32At(data, start) == 1 ==> start + 16 <= |data|)
  }

  function Grow(data: seq<Byte>, start: nat, delta: nat): (r: Outcome<seq<Byte>>)
    requires HasSizeField(data, start)
    ensures r.Fine? ==> |r.value| == |data|
  {
    var f := GrownField(data, start, delta);
    if f.FixtureError? then FixtureError else Fine(Overwrite(data, f.value.at, f.value.bytes))
  }

  /** Adds delta to the box's own size field, in place; refuses rather than
      wrapping. */
  method GrowBoxSize(data: array<Byte>, boxStart: nat, delta: nat) returns (ok: bool)
    requires HasSizeField(data[..], boxStart)
    modifies data
    ensures ok == Grow(old(data[..]), boxStart, delta).Fine?
    ensures data[..] == if ok then Grow(old(data[..]), boxStart, delta).value else old(data[..])
  {
    ghost var before := data[..];
    var size := U32At(data[..], boxStart);
    if size == 1 {
      var large := U64At(data[..], boxStart + 8) + delta;
      if large >= 0x1_0000_0000_0000_0000 {
        return false;
      }
      StoreBytes(data, boxStart + 8, U64Bytes(large));
    } else if size == 0 {
      assert Overwrite(before, boxStart, []) == before;
      return true;
    } else {
      var newSize := size + delta;
      if newSize >= 0x1_0000_0000 {
        return false;
      }
      StoreBytes(data, boxStart, U32Bytes(newSize));
    }
    return true;
  }

  method StoreBytes(data: array<Byte>, at: nat, bytes: seq<Byte>)
    requires at + |bytes| <= data.Length
    modifies data
    ensures data[..] == Overwrite(old(data[..]), at, bytes)
  {
    forall k | 0 <= k < |bytes| {
      data[at + k] := bytes[k];
    }
  }

  // ---------------------------------------------------------------------
  // Splicing a child into the sample entry.
  // ---------------------------------------------------------------------

  function Insert(data: seq<Byte>, at: nat, bytes: seq<Byte>): (r: seq<Byte>)
    requires at <= |data|
    ensures |r| == |data| + |bytes|
  {
    data[..at] + bytes + data[at..]
  }

  /** The box at each start has a header of the stated length. */
  predicate HasHeader(data: seq<Byte>, b: Box) {
    HasSizeField(data, b.start) && b.headerLen == (if U32At(data, b.start) == 1 then 16 else 8)
  }

  /** Headers in order, none overlapping the next. */
  predicate Nested(data: seq<Byte>, path: seq<Box>) {
    && (forall i :: 0 <= i < |path| ==> HasHeader(data, path[i]))
    && (forall i, j :: 0 <= i < j < |path| ==> path[i].ContentStart() <= path[j].start)
  }

  /** The size fields of all boxes on the path, grown one after the other. */
  function GrowAll(data: seq<Byte>, path: seq<Box>, delta: nat): (r: Outcome<seq<Byte>>)
    requires Nested(data, path)
    ensures r.Fine? ==> |r.value| == |data|
    decreases |path|
  {
    if path == [] then Fine(data)
    else
      var grown := Grow(data, path[0].start, delta);
      if grown.FixtureError? then FixtureError
      else
        GrowKeepsRest(data, path, delta);
        GrowAll(grown.value, path[1..], delta)
  }

  /** Bytes outside a box's header are not touched when it grows. */
  lemma GrowKeepsBytes(data: seq<Byte>, b: Box, delta: nat)
    requires HasHeader(data, b) && Grow(data, b.start, delta).Fine?
    ensures var out := Grow(data, b.start, delta).value;
      forall k :: 0 <= k < |data| && !(b.start <= k < b.ContentStart()) ==> out[k] == data[k]
  {}

  lemma HeaderElsewhere(data: seq<Byte>, out: seq<Byte>, b: Box)
    requires HasHeader(data, b) && |out| == |data| && forall k :: b.start <= k < b.ContentStart() ==> out[k] == data[k]
    ensures HasHeader(out, b)
  {
    SameBytesRead(data, out, b.start);
  }

  lemma GrowKeepsRest(data: seq<Byte>, path: seq<Box>, delta: nat)
    requires Nested(data, path) && path != [] && Grow(data, path[0].start, delta).Fine?
    ensures Nested(Grow(data, path[0].start, delta).value, path[1..])
  {
    var out := Grow(data, path[0].start, delta).value;
    GrowKeepsBytes(data, path[0], delta);
    forall i | 1 <= i < |path| ensures HasHeader(out, path[i]) {
      assert path[0].ContentStart() <= path[i].start;
      HeaderElsewhere(data, out, path[i]);
    }
  }

  /** out has the header of data at start, with its size grown by delta. */
  predicate HeaderGrew(data: seq<Byte>, out: seq<Byte>, start: nat, delta: nat) {
    && HasSizeField(data, start) && HasSizeField(out, start)
    && out[start + 4..start + 8] == data[start + 4..start + 8]
    && var declared := U32At(data, start);
       if declared == 1 then U32At(out, start) == 1 && U64At(out, start + 8) == U64At(data, start + 8) + delta
       else if declared == 0 then U32At(out, start) == 0
       else U32At(out, start) == declared + delta
  }

  /** Byte k belongs to the size field of a box on the path. */
  predicate InSizeField(data: seq<Byte>, path: seq<Box>, k: int) {
    exists i :: 0 <= i < |path| && OwnField(data, path[i], k)
  }

  predicate OwnField(data: seq<Byte>, b: Box, k: int) {
    && HasSizeField(data, b.start)
    && var declared := U32At(data, b.start);
       if declared == 1 then b.start + 8 <= k < b.start + 16
       else declared != 0 && b.start <= k < b.start + 4
  }

  lemma GrowIsGrowth(data: seq<Byte>, b: Box, delta: nat)
    requires HasHeader(data, b) && Grow(data, b.start, delta).Fine? && |data| >= b.ContentStart()
    ensures var out := Grow(data, b.start, delta).value;
      HeaderGrew(data, out, b.start, delta) && forall k :: 0 <= k < |data| && !OwnField(data, b, k) ==> out[k] == data[k]
  {
    var out := Grow(data, b.start, delta).value;
    var declared := U32At(data, b.start);
    var f := GrownField(data, b.start, delta).value;
    assert out[f.at..f.at + |f.bytes|] == f.bytes;
    if declared == 1 {
      SameBytesRead(data, out, b.start);
      U64ReadsBack(out, b.start + 8, U64At(data, b.start + 8) + delta);
    } else if declared == 0 {
      SameBytesRead(data, out, b.start);
    } else {
      U32ReadsBack(out, b.start, declared + delta);
    }
  }

  /** Every header on the path grows, and no byte outside their size fields
      changes. */
  lemma {:induction false} GrowAllIsGrowth(data: seq<Byte>, path: seq<Box>, delta: nat)
    requires Nested(data, path) && GrowAll(data, path, delta).Fine?
    requires forall i :: 0 <= i < |path| ==> path[i].ContentStart() <= |data|
    ensures var out := GrowAll(data, path, delta).value;
      && (forall i :: 0 <= i < |path| ==> HeaderGrew(data, out, path[i].start, delta))
      && (forall k :: 0 <= k < |data| && !InSizeField(data, path, k) ==> out[k] == data[k])
    decreases |path|
  {
    if path != [] {
      hide *;
      GrowAllHead(data, path, delta);
      var one := Grow(data, path[0].start, delta).value;
      GrowIsGrowth(data, path[0], delta);
      GrowKeepsBytes(data, path[0], delta);
      GrowAllIsGrowth(one, path[1..], delta);
      LaterFields(data, one, path);
      GrowthAdds(data, one, GrowAll(data, path, delta).value, path, delta);
    }
  }

  lemma GrowAllHead(data: seq<Byte>, path: seq<Box>, delta: nat)
    requires Nested(data, path) && path != [] && GrowAll(data, path, delta).Fine?
    ensures HasHeader(data, path[0]) && Grow(data, path[0].start, delta).Fine?
    ensures var one := Grow(data, path[0].start, delta).value;
      |one| == |data| && Nested(one, path[1..]) && GrowAll(data, path, delta) == GrowAll(one, path[1..], delta)
  {
    GrowKeepsRest(data, path, delta);
  }

  /** Growing the first header and then the rest grows them all. */
  lemma GrowthAdds(data: seq<Byte>, one: seq<Byte>, out: seq<Byte>, path: seq<Box>, delta: nat)
    requires path != [] && Nested(data, path) && |data| == |one| == |out| && path[0].ContentStart() <= |data|
    requires HeaderGrew(data, one, path[0].start, delta)
    requires forall k :: 0 <= k < |data| && !OwnField(data, path[0], k) ==> one[k] == data[k]
    requires forall k :: 0 <= k < |data| && !(path[0].start <= k < path[0].ContentStart()) ==> one[k] == data[k]
    requires forall i :: 0 <= i < |path| - 1 ==> HeaderGrew(one, out, path[1..][i].start, delta)
    requires forall k :: 0 <= k < |data| && !InSizeField(one, path[1..], k) ==> out[k] == one[k]
    requires forall k :: InSizeField(one, path[1..], k) ==> k >= path[0].ContentStart() && InSizeField(data, path, k)
    ensures forall i :: 0 <= i < |path| ==> HeaderGrew(data, out, path[i].start, delta)
    ensures forall k :: 0 <= k < |data| && !InSizeField(data, path, k) ==> out[k] == data[k]
  {
    NestedMeans(data, path);
    forall k | 0 <= k < |data| && !InSizeField(data, path, k) ensures out[k] == data[k] {
      assert OwnField(data, path[0], k) ==> InSizeField(data, path, k);
    }
    hide *;
    HeaderInside(data, path[0]);
    GrownHeaderStays(data, one, out, path[0], delta);
    forall i | 1 <= i < |path| ensures HeaderGrew(data, out, path[i].start, delta) {
      assert path[i] == path[1..][i - 1];
      HeaderInside(data, path[i]);
      HeaderUnmoved(data, one, out, path[i], delta);
    }
  }

  /** The later boxes' size fields are where they were, after the first header. */
  lemma LaterFields(data: seq<Byte>, one: seq<Byte>, path: seq<Box>)
    requires Nested(data, path) && path != [] && |one| == |data|
    requires forall k :: 0 <= k < |data| && !(path[0].start <= k < path[0].ContentStart()) ==> one[k] == data[k]
    ensures forall k :: InSizeField(one, path[1..], k) ==> k >= path[0].ContentStart() && InSizeField(data, path, k)
  {
    forall k | InSizeField(one, path[1..], k) ensures k >= path[0].ContentStart() && InSizeField(data, path, k) {
      var i :| 0 <= i < |path| - 1 && OwnField(one, path[1..][i], k);
      SameBytesRead(data, one, path[i + 1].start);
      assert OwnField(data, path[i + 1], k);
    }
  }

  lemma GrownHeaderStays(data: seq<Byte>, one: seq<Byte>, out: seq<Byte>, b: Box, delta: nat)
    requires HasHeader(data, b) && HeaderGrew(data, one, b.start, delta) && |out| == |one| == |data|
    requires forall k :: b.start <= k < b.ContentStart() ==> out[k] == one[k]
    ensures HeaderGrew(data, out, b.start, delta)
  {
    SameBytesRead(one, out, b.start);
    assert out[b.start + 4..b.start + 8] == one[b.start + 4..b.start + 8];
    if U32At(data, b.start) == 1 {
      SameBytesRead(one, out, b.start + 8);
      SameBytesRead(one, out, b.start + 12);
    }
  }

  lemma HeaderUnmoved(data: seq<Byte>, one: seq<Byte>, out: seq<Byte>, b: Box, delta: nat)
    requires HasHeader(data, b) && HeaderGrew(one, out, b.start, delta) && |one| == |data|
    requires forall k :: b.start <= k < b.ContentStart() ==> one[k] == data[k]
    ensures HeaderGrew(data, out, b.start, delta)
  {
    SameBytesRead(one, data, b.start);
    assert data[b.start + 4..b.start + 8] == one[b.start + 4..b.start + 8];
    if U32At(data, b.start) == 1 {
      SameBytesRead(one, data, b.start + 8);
      SameBytesRead(one, data, b.start + 12);
    }
  }

  // ---------------------------------------------------------------------
  // Re-parsing after the splice.
  // ---------------------------------------------------------------------

  /** A grown header parses to the grown size in a region grown as much. */
  lemma GrownHeaderParses(data: seq<Byte>, out: seq<Byte>, start: nat, end: nat, delta: nat)
    requires end <= |data| && end + delta <= |out|
    requires ParseBoxHeader(data, start, end).Fine? && HeaderGrew(data, out, start, delta)
    ensures var h := ParseBoxHeader(data, start, end).value;
      ParseBoxHeader(out, start, end + delta) == Fine(h.(size := h.size + delta))
  {}

  /** An untouched header of a box that ends before the region does parses the
      same in a longer region. */
  lemma UntouchedHeaderParses(data: seq<Byte>, out: seq<Byte>, start: nat, end: nat, delta: nat)
    requires end <= |data| && end + delta <= |out|
    requires ParseBoxHeader(data, start, end).Fine?
    requires var h := ParseBoxHeader(data, start, end).value;
      start + h.size < end && forall k :: start <= k < start + h.size ==> out[k] == data[k]
    ensures ParseBoxHeader(out, start, end + delta) == ParseBoxHeader(data, start, end)
  {
    SameBytesRead(data, out, start);
    assert out[start + 4..start + 8] == data[start + 4..start + 8];
    if U32At(data, start) == 1 {
      SameBytesRead(data, out, start + 8);
      SameBytesRead(data, out, start + 12);
    }
  }

  /** The child that grew is found where it was. */
  lemma {:induction false} GrownChildIsFound(data: seq<Byte>, out: seq<Byte>, pos: nat, end: nat, boxType: seq<Byte>, delta: nat)
    requires end <= |data| && end + delta <= |out|
    requires ChildIn(data, pos, end, boxType).Fine? && ChildIn(data, pos, end, boxType).value.Some?
    requires var b := ChildIn(data, pos, end, boxType).value.value;
      HeaderGrew(data, out, b.start, delta) && forall k :: pos <= k < b.start ==> out[k] == data[k]
    ensures var b := ChildIn(data, pos, end, boxType).value.value;
      ChildIn(out, pos, end + delta, boxType) == Fine(Some(b.(size := b.size + delta)))
    decreases end - pos
  {
    hide ParseBoxHeader, HeaderGrew;
    var h := ParseBoxHeader(data, pos, end).value;
    var b := ChildIn(data, pos, end, boxType).value.value;
    if h.boxType == boxType {
      GrownHeaderParses(data, out, pos, end, delta);
    } else {
      UntouchedHeaderParses(data, out, pos, end, delta);
      GrownChildIsFound(data, out, pos + h.size, end, boxType, delta);
    }
  }

  function GrownBoxes(path: seq<Box>, delta: nat): (r: seq<Box>)
    ensures |r| == |path|
  {
    seq(|path|, i requires 0 <= i < |path| => path[i].(size := path[i].size + delta))
  }

  /** The boxes of a path are nested in the region and in one another. */
  lemma {:induction false} PathIsNested(data: seq<Byte>, start: nat, end: nat, steps: seq<Step>)
    requires end <= |data| && Path(data, start, end, steps).Fine?
    ensures var p := Path(data, start, end, steps).value;
      && Nested(data, p)
      && (forall i :: 0 <= i < |p| ==> start <= p[i].start && p[i].ContentStart() <= p[i].ContentEnd() <= end)
      && (forall i, j :: 0 <= i < j < |p| ==> p[j].ContentEnd() <= p[i].ContentEnd())
    decreases |steps|
  {
    if steps != [] {
      var p := Path(data, start, end, steps).value;
      var b := p[0];
      FoundHasHeader(data, start + steps[0].skip, end, steps[0].boxType);
      PathIsNested(data, b.ContentStart(), b.ContentEnd(), steps[1..]);
      assert p[1..] == Path(data, b.ContentStart(), b.ContentEnd(), steps[1..]).value;
      forall i | 1 <= i < |p| ensures p[i] == p[1..][i - 1] {}
    }
  }

  lemma {:induction false} FoundHasHeader(data: seq<Byte>, pos: nat, end: nat, boxType: seq<Byte>)
    requires end <= |data| && ChildIn(data, pos, end, boxType).Fine? && ChildIn(data, pos, end, boxType).value.Some?
    ensures HasHeader(data, ChildIn(data, pos, end, boxType).value.value)
    decreases end - pos
  {
    var h := ParseBoxHeader(data, pos, end).value;
    if h.boxType != boxType {
      FoundHasHeader(data, pos + h.size, end, boxType);
    }
  }

  /** out is data with delta bytes inserted at, the headers of the path grown,
      and nothing else before the insertion changed. */
  predicate GrownAlong(data: seq<Byte>, out: seq<Byte>, path: seq<Box>, from: nat, at: nat, delta: nat) {
    && |out| == |data| + delta && at <= |data|
    && (forall i :: 0 <= i < |path| ==> HeaderGrew(data, out, path[i].start, delta))
    && (forall k :: from <= k < at && (forall i :: 0 <= i < |path| ==> !(path[i].start <= k < path[i].ContentStart()))
          ==> out[k] == data[k])
  }

  /** Re-parsing finds every box of the path at its old start, grown. */
  lemma {:induction false} GrownPathIsFound(data: seq<Byte>, out: seq<Byte>, start: nat, end: nat, steps: seq<Step>, at: nat, delta: nat)
    requires end <= |data| && Path(data, start, end, steps).Fine? && steps != []
    requires var p := Path(data, start, end, steps).value;
      p[|p| - 1].ContentEnd() == at && GrownAlong(data, out, p, start, at, delta)
    ensures Path(out, start, end + delta, steps) == Fine(GrownBoxes(Path(data, start, end, steps).value, delta))
    decreases |steps|
  {
    hide *;
    PathHead(data, start, end, steps);
    var p := Path(data, start, end, steps).value;
    var b := p[0];
    FirstGrown(data, out, start, end, steps, at, delta);
    TailGrownAlong(data, out, p, start, at, delta);
    if |steps| > 1 {
      GrownPathIsFound(data, out, b.ContentStart(), b.ContentEnd(), steps[1..], at, delta);
    } else {
      EmptyPath(out, b.ContentStart(), b.ContentEnd() + delta, steps[1..], p[1..], delta);
    }
    PathBuild(out, start, end + delta, steps, p, delta);
  }

  /** A path unfolds into its first box and the path inside it. */
  lemma PathHead(data: seq<Byte>, start: nat, end: nat, steps: seq<Step>)
    requires end <= |data| && Path(data, start, end, steps).Fine? && steps != []
    ensures var p := Path(data, start, end, steps).value;
      && p != [] && |p| == |steps|
      && start <= p[0].start && p[0].ContentStart() <= p[0].ContentEnd() <= end
      && ChildIn(data, start + steps[0].skip, end, steps[0].boxType) == Fine(Some(p[0]))
      && Path(data, p[0].ContentStart(), p[0].ContentEnd(), steps[1..]) == Fine(p[1..])
      && (|p| > 1 ==> p[1..][|p| - 2] == p[|p| - 1])
  {}

  lemma FirstGrown(data: seq<Byte>, out: seq<Byte>, start: nat, end: nat, steps: seq<Step>, at: nat, delta: nat)
    requires end <= |data| && Path(data, start, end, steps).Fine? && steps != []
    requires var p := Path(data, start, end, steps).value;
      p[|p| - 1].ContentEnd() == at && GrownAlong(data, out, p, start, at, delta)
    ensures end + delta <= |out|
    ensures var b := Path(data, start, end, steps).value[0];
      b.start <= at && ChildIn(out, start + steps[0].skip, end + delta, steps[0].boxType) == Fine(Some(b.(size := b.size + delta)))
  {
    hide *;
    PathIsNested(data, start, end, steps);
    PathHead(data, start, end, steps);
    BeforeFirst(data, out, Path(data, start, end, steps).value, start, at, delta);
    GrownChildIsFound(data, out, start + steps[0].skip, end, steps[0].boxType, delta);
  }

  /** What precedes the first box of the path is unchanged. */
  lemma BeforeFirst(data: seq<Byte>, out: seq<Byte>, p: seq<Box>, from: nat, at: nat, delta: nat)
    requires p != [] && GrownAlong(data, out, p, from, at, delta) && Nested(data, p)
    requires p[|p| - 1].ContentEnd() == at && p[|p| - 1].ContentStart() <= at
    ensures p[0].start <= at && |out| == |data| + delta
    ensures HeaderGrew(data, out, p[0].start, delta)
    ensures forall k :: from <= k < p[0].start ==> out[k] == data[k]
  {
    hide HeaderGrew, HasHeader;
    assert forall i :: 1 <= i < |p| ==> p[0].start <= p[0].ContentStart() <= p[i].start;
  }

  lemma EmptyPath(out: seq<Byte>, start: nat, end: nat, steps: seq<Step>, path: seq<Box>, delta: nat)
    requires end <= |out| && steps == [] && |path| == 0
    ensures Path(out, start, end, steps) == Fine(GrownBoxes(path, delta))
  {}

  lemma PathBuild(out: seq<Byte>, start: nat, end: nat, steps: seq<Step>, p: seq<Box>, delta: nat)
    requires end <= |out| && steps != [] && p != [] && p[0].ContentEnd() + delta <= |out|
    requires ChildIn(out, start + steps[0].skip, end, steps[0].boxType) == Fine(Some(p[0].(size := p[0].size + delta)))
    requires Path(out, p[0].ContentStart(), p[0].ContentEnd() + delta, steps[1..]) == Fine(GrownBoxes(p[1..], delta))
    ensures Path(out, start, end, steps) == Fine(GrownBoxes(p, delta))
  {
    hide ChildIn;
    assert GrownBoxes(p, delta) == [p[0].(size := p[0].size + delta)] + GrownBoxes(p[1..], delta);
  }

  lemma TailGrownAlong(data: seq<Byte>, out: seq<Byte>, path: seq<Box>, from: nat, at: nat, delta: nat)
    requires path != [] && from <= path[0].start && GrownAlong(data, out, path, from, at, delta)
    ensures GrownAlong(data, out, path[1..], path[0].ContentStart(), at, delta)
  {
    hide HeaderGrew;
    var rest := path[1..];
    forall k | path[0].ContentStart() <= k < at && (forall i :: 0 <= i < |rest| ==> !(rest[i].start <= k < rest[i].ContentStart()))
      ensures out[k] == data[k]
    {
      forall i | 0 <= i < |path| ensures !(path[i].start <= k < path[i].ContentStart()) {
        if i > 0 {
          assert path[i] == rest[i - 1];
        }
      }
    }
  }

  // ---------------------------------------------------------------------
  // The splice.
  // ---------------------------------------------------------------------

  function EntryPath(data: seq<Byte>, sampleEntryType: seq<Byte>): (p: Outcome<seq<Box>>)
    ensures p.Fine? ==> |p.value| == 7 && p.value[6].ContentStart() <= p.value[6].ContentEnd() <= |data|
  {
    if Path(data, 0, |data|, Descent(sampleEntryType)).Fine? then
      PathIsNested(data, 0, |data|, Descent(sampleEntryType));
      Path(data, 0, |data|, Descent(sampleEntryType))
    else FixtureError
  }

  /** The sample entry itself. */
  function Entry(path: seq<Box>): Box
    requires path != []
  {
    path[|path| - 1]
  }

  /** The boxes' headers lie before the insertion point. */
  lemma InsertionKeepsHeaders(data: seq<Byte>, sampleEntryType: seq<Byte>, newBox: seq<Byte>)
    requires EntryPath(data, sampleEntryType).Fine?
    ensures var p := EntryPath(data, sampleEntryType).value;
      && Entry(p).ContentEnd() <= |data| && Nested(data, p)
      && Nested(Insert(data, Entry(p).ContentEnd(), newBox), p)
      && forall i :: 0 <= i < |p| ==> p[i].ContentStart() <= Entry(p).ContentEnd()
  {
    PathIsNested(data, 0, |data|, Descent(sampleEntryType));
    var p := EntryPath(data, sampleEntryType).value;
    hide Path, Descent;
    var at := Entry(p).ContentEnd();
    var inserted := Insert(data, at, newBox);
    forall i | 0 <= i < |p| ensures p[i].ContentStart() <= at && HasHeader(inserted, p[i]) {
      assert i < |p| - 1 ==> p[i].ContentStart() <= p[|p| - 1].start;
      assert forall k :: p[i].start <= k < p[i].ContentStart() ==> inserted[k] == data[k];
      SameBytesRead(data, inserted, p[i].start);
    }
  }

  function Spliced(data: seq<Byte>, sampleEntryType: seq<Byte>, newBox: seq<Byte>): (r: Outcome<seq<Byte>>)
  {
    var path := EntryPath(data, sampleEntryType);
    if path.FixtureError? then FixtureError
    else
      InsertionKeepsHeaders(data, sampleEntryType, newBox);
      GrowAll(Insert(data, Entry(path.value).ContentEnd(), newBox), path.value, |newBox|)
  }

  /** Inserts a box as the last child of the sample entry and grows every
      enclosing box. */
  method SpliceChildBox(data: seq<Byte>, sampleEntryType: seq<Byte>, newBox: seq<Byte>) returns (r: Outcome<seq<Byte>>)
    ensures r == Spliced(data, sampleEntryType, newBox)
  {
    var located := LocateSampleEntry(data, sampleEntryType);
    if located.FixtureError? {
      return FixtureError;
    }
    var path := located.value;
    var at := Entry(path).ContentEnd();
    InsertionKeepsHeaders(data, sampleEntryType, newBox);
    var bytes := data[..at] + newBox + data[at..];
    var out := new Byte[|bytes|](i requires 0 <= i < |bytes| => bytes[i]);
    assert out[..] == Insert(data, at, newBox);
    assert path[0..] == path;
    hide *;
    for i := 0 to |path|
      invariant at <= |data| && Nested(Insert(data, at, newBox), path) && Nested(out[..], path[i..])
      invariant GrowAll(Insert(data, at, newBox), path, |newBox|) == GrowAll(out[..], path[i..], |newBox|)
    {
      GrowAllStep(out[..], path, i, |newBox|);
      var ok := GrowBoxSize(out, path[i].start, |newBox|);
      if !ok {
        SplicedMeans(data, sampleEntryType, newBox);
        return FixtureError;
      }
    }
    SplicedMeans(data, sampleEntryType, newBox);
    NothingLeftToGrow(out[..], path[|path|..], |newBox|);
    return Fine(out[..]);
  }

  lemma NothingLeftToGrow(data: seq<Byte>, path: seq<Box>, delta: nat)
    requires path == [] && Nested(data, path)
    ensures GrowAll(data, path, delta) == Fine(data)
  {}

  lemma GrowAllStep(data: seq<Byte>, path: seq<Box>, i: nat, delta: nat)
    requires i < |path| && Nested(data, path[i..])
    ensures HasSizeField(data, path[i].start)
    ensures var grown := Grow(data, path[i].start, delta);
      if grown.FixtureError? then GrowAll(data, path[i..], delta) == FixtureError
      else Nested(grown.value, path[i + 1..])
           && GrowAll(data, path[i..], delta) == GrowAll(grown.value, path[i + 1..], delta)
  {
    assert path[i..][0] == path[i] && path[i..][1..] == path[i + 1..];
    if Grow(data, path[i].start, delta).Fine? {
      GrowKeepsRest(data, path[i..], delta);
    }
  }

  /** A splice keeps the tree: every box of the path is found at its old start,
      grown by the new box; the new box's bytes are where the entry ended; and
      no byte outside the insertion and the path's size fields changed. */
  lemma SpliceKeepsTree(data: seq<Byte>, sampleEntryType: seq<Byte>, newBox: seq<Byte>)
    requires Spliced(data, sampleEntryType, newBox).Fine?
    ensures var out := Spliced(data, sampleEntryType, newBox).value;
      var p := EntryPath(data, sampleEntryType).value;
      var at := Entry(p).ContentEnd();
      && at <= |data| && |out| == |data| + |newBox|
      && EntryPath(out, sampleEntryType) == Fine(GrownBoxes(p, |newBox|))
      && out[at..at + |newBox|] == newBox
      && out[at + |newBox|..] == data[at..]
      && forall k :: 0 <= k < at && !InSizeField(data, p, k) ==> out[k] == data[k]
  {
    hide *;
    SplicedMeans(data, sampleEntryType, newBox);
    InsertionKeepsHeaders(data, sampleEntryType, newBox);
    var p := EntryPath(data, sampleEntryType).value;
    var at := Entry(p).ContentEnd();
    var inserted := Insert(data, at, newBox);
    var out := Spliced(data, sampleEntryType, newBox).value;
    GrowAllIsGrowth(inserted, p, |newBox|);
    SplicedBytes(data, newBox, out, p);
    EntryPathIsPath(data, sampleEntryType);
    EntryPathIsPath(out, sampleEntryType);
    GrownPathIsFound(data, out, 0, |data|, Descent(sampleEntryType), at, |newBox|);
  }

  lemma SplicedMeans(data: seq<Byte>, sampleEntryType: seq<Byte>, newBox: seq<Byte>)
    ensures EntryPath(data, sampleEntryType).FixtureError? ==> Spliced(data, sampleEntryType, newBox).FixtureError?
    ensures EntryPath(data, sampleEntryType).Fine? ==>
      var p := EntryPath(data, sampleEntryType).value;
      && p != [] && Entry(p).ContentEnd() <= |data| && Nested(Insert(data, Entry(p).ContentEnd(), newBox), p)
      && Spliced(data, sampleEntryType, newBox) == GrowAll(Insert(data, Entry(p).ContentEnd(), newBox), p, |newBox|)
  {
    if EntryPath(data, sampleEntryType).Fine? {
      InsertionKeepsHeaders(data, sampleEntryType, newBox);
    }
  }

  lemma EntryPathIsPath(data: seq<Byte>, sampleEntryType: seq<Byte>)
    ensures EntryPath(data, sampleEntryType) == Path(data, 0, |data|, Descent(sampleEntryType)) && Descent(sampleEntryType) != []
    ensures EntryPath(data, sampleEntryType).Fine? ==>
      var p := EntryPath(data, sampleEntryType).value; p != [] && Entry(p) == p[|p| - 1]
  {}

  /** From growth relative to the inserted string to growth relative to data. */
  lemma SplicedBytes(data: seq<Byte>, newBox: seq<Byte>, out: seq<Byte>, p: seq<Box>)
    requires p != [] && Entry(p).ContentEnd() <= |data| && Nested(data, p)
    requires forall i :: 0 <= i < |p| ==> p[i].ContentStart() <= Entry(p).ContentEnd()
    requires var inserted := Insert(data, Entry(p).ContentEnd(), newBox);
      && |out| == |inserted|
      && (forall i :: 0 <= i < |p| ==> HeaderGrew(inserted, out, p[i].start, |newBox|))
      && (forall k :: 0 <= k < |inserted| && !InSizeField(inserted, p, k) ==> out[k] == inserted[k])
    ensures var at := Entry(p).ContentEnd();
      && GrownAlong(data, out, p, 0, at, |newBox|)
      && out[at..at + |newBox|] == newBox && out[at + |newBox|..] == data[at..]
      && forall k :: 0 <= k < at && !InSizeField(data, p, k) ==> out[k] == data[k]
  {
    hide HeaderGrew, OwnField, HasHeader, Insert;
    var at := Entry(p).ContentEnd();
    var inserted := Insert(data, at, newBox);
    InsertedParts(data, at, newBox);
    forall i | 0 <= i < |p|
      ensures HeaderGrew(data, out, p[i].start, |newBox|)
      ensures forall k :: OwnField(inserted, p[i], k) <==> OwnField(data, p[i], k)
      ensures forall k :: OwnField(data, p[i], k) ==> p[i].start <= k < p[i].ContentStart() <= at
    {
      InsertedHeader(data, inserted, out, p[i], |newBox|);
    }
    FieldsBefore(data, inserted, p, at);
    assert out[at..at + |newBox|] == inserted[at..at + |newBox|] && out[at + |newBox|..] == inserted[at + |newBox|..];
  }

  lemma FieldsBefore(data: seq<Byte>, inserted: seq<Byte>, p: seq<Box>, at: nat)
    requires forall i, k :: 0 <= i < |p| ==> (OwnField(inserted, p[i], k) <==> OwnField(data, p[i], k))
    requires forall i, k :: 0 <= i < |p| && OwnField(data, p[i], k) ==> p[i].start <= k < p[i].ContentStart() <= at
    ensures forall k :: InSizeField(inserted, p, k) <==> InSizeField(data, p, k)
    ensures forall k :: InSizeField(data, p, k) ==> k < at && exists i :: 0 <= i < |p| && p[i].start <= k < p[i].ContentStart()
  {
    hide OwnField;
  }

  lemma InsertedParts(data: seq<Byte>, at: nat, bytes: seq<Byte>)
    requires at <= |data|
    ensures var r := Insert(data, at, bytes);
      && |r| == |data| + |bytes| && r[at..at + |bytes|] == bytes && r[at + |bytes|..] == data[at..]
      && forall k :: 0 <= k < at ==> r[k] == data[k]
  {}

  lemma InsertedHeader(data: seq<Byte>, inserted: seq<Byte>, out: seq<Byte>, b: Box, delta: nat)
    requires HasHeader(data, b) && b.ContentStart() <= |data| <= |inserted| && HeaderGrew(inserted, out, b.start, delta)
    requires forall k :: b.start <= k < b.ContentStart() ==> inserted[k] == data[k]
    ensures HasHeader(inserted, b) && HeaderGrew(data, out, b.start, delta)
    ensures forall k :: OwnField(inserted, b, k) <==> OwnField(data, b, k)
    ensures forall k :: OwnField(data, b, k) ==> b.start <= k < b.ContentStart()
  {
    SameBytesRead(data, inserted, b.start);
    assert data[b.start + 4..b.start + 8] == inserted[b.start + 4..b.start + 8];
    if U32At(data, b.start) == 1 {
      SameBytesRead(data, inserted, b.start + 8);
      SameBytesRead(data, inserted, b.start + 12);
    }
  }

  /** The value a size field would need. */
  predicate FieldFits(data: seq<Byte>, b: Box, delta: nat)
    requires HasSizeField(data, b.start)
  {
    var declared := U32At(data, b.start);
    if declared == 1 then U64At(data, b.start + 8) + delta < 0x1_0000_0000_0000_0000
    else declared == 0 || declared + delta < 0x1_0000_0000
  }

  /** A splice is refused exactly when the entry is not found or a size field
      would overflow. */
  lemma SpliceSucceedsIff(data: seq<Byte>, sampleEntryType: seq<Byte>, newBox: seq<Byte>)
    ensures EntryPath(data, sampleEntryType).FixtureError? ==> Spliced(data, sampleEntryType, newBox).FixtureError?
    ensures EntryPath(data, sampleEntryType).Fine? ==>
      var p := EntryPath(data, sampleEntryType).value;
      && Nested(data, p)
      && (Spliced(data, sampleEntryType, newBox).Fine? <==> forall i :: 0 <= i < |p| ==> FieldFits(data, p[i], |newBox|))
  {
    hide *;
    SplicedMeans(data, sampleEntryType, newBox);
    if EntryPath(data, sampleEntryType).Fine? {
      InsertionKeepsHeaders(data, sampleEntryType, newBox);
      var p := EntryPath(data, sampleEntryType).value;
      var at := Entry(p).ContentEnd();
      var inserted := Insert(data, at, newBox);
      GrowAllFits(inserted, p, |newBox|);
      InsertedParts(data, at, newBox);
      NestedMeans(data, p);
      NestedMeans(inserted, p);
      forall i | 0 <= i < |p| ensures FieldFits(inserted, p[i], |newBox|) == FieldFits(data, p[i], |newBox|) {
        FieldFitsSame(data, inserted, p[i], |newBox|);
      }
    }
  }

  lemma NestedMeans(data: seq<Byte>, p: seq<Box>)
    requires Nested(data, p)
    ensures forall i :: 0 <= i < |p| ==> HasHeader(data, p[i]) && HasSizeField(data, p[i].start)
    ensures forall i, j :: 0 <= i < j < |p| ==> p[i].ContentStart() <= p[j].start
  {}

  lemma FieldFitsSame(data: seq<Byte>, other: seq<Byte>, b: Box, delta: nat)
    requires HasHeader(data, b) && b.ContentStart() <= |other| && b.ContentStart() <= |data|
    requires forall k :: b.start <= k < b.ContentStart() ==> other[k] == data[k]
    ensures HasHeader(other, b) && FieldFits(other, b, delta) == FieldFits(data, b, delta)
  {
    SameBytesRead(data, other, b.start);
    if U32At(data, b.start) == 1 {
      SameBytesRead(data, other, b.start + 8);
      SameBytesRead(data, other, b.start + 12);
    }
  }

  lemma {:induction false} GrowAllFits(data: seq<Byte>, path: seq<Box>, delta: nat)
    requires Nested(data, path)
    ensures GrowAll(data, path, delta).Fine? <==> forall i :: 0 <= i < |path| ==> FieldFits(data, path[i], delta)
    decreases |path|
  {
    if path != [] {
      FirstFits(data, path, delta);
      if Grow(data, path[0].start, delta).Fine? {
        var one := Grow(data, path[0].start, delta).value;
        GrowKeepsRest(data, path, delta);
        GrowAllFits(one, path[1..], delta);
        RestFits(data, one, path, delta);
      }
    }
  }

  lemma FirstFits(data: seq<Byte>, path: seq<Box>, delta: nat)
    requires path != [] && Nested(data, path)
    ensures FieldFits(data, path[0], delta) <==> Grow(data, path[0].start, delta).Fine?
  {}

  lemma RestFits(data: seq<Byte>, one: seq<Byte>, path: seq<Box>, delta: nat)
    requires path != [] && Nested(data, path) && Nested(one, path[1..])
    requires Grow(data, path[0].start, delta) == Fine(one)
    ensures (forall i :: 0 <= i < |path| - 1 ==> FieldFits(one, path[1..][i], delta))
       <==> (forall i :: 1 <= i < |path| ==> FieldFits(data, path[i], delta))
  {
    hide FieldFits, Grow, HasHeader;
    NestedMeans(data, path);
    GrowKeepsBytes(data, path[0], delta);
    forall i | 1 <= i < |path|
      ensures path[1..][i - 1] == path[i] && HasSizeField(one, path[i].start)
      ensures FieldFits(one, path[i], delta) == FieldFits(data, path[i], delta)
    {
      HeaderInside(data, path[i]);
      FieldFitsSame(data, one, path[i], delta);
      HeaderInside(one, path[i]);
    }
    assert forall i :: 0 <= i < |path| - 1 ==> path[1..][i] == path[i + 1];
  }

  lemma HeaderInside(data: seq<Byte>, b: Box)
    requires HasHeader(data, b)
    ensures HasSizeField(data, b.start) && b.ContentStart() <= |data|
  {}

  // ---------------------------------------------------------------------
  // The children after a splice.
  // ---------------------------------------------------------------------

  /** A box whose size field says that it runs to the end of its region. */
  predicate OpenEnded(data: seq<Byte>, b: Box) {
    b.start + 4 <= |data| && U32At(data, b.start) == 0
  }

  predicate LastIsOpenEnded(data: seq<Byte>, boxes: seq<Box>) {
    boxes != [] && OpenEnded(data, boxes[|boxes| - 1])
  }

  /** The new bytes are one box. */
  predicate IsBox(bytes: seq<Byte>) {
    var h := ParseBoxHeader(bytes, 0, |bytes|);
    h.Fine? && h.value.size == |bytes|
  }

  /** What the children become when newBox is inserted at their end: the same
      ones and the new one; but an open-ended last child swallows it. */
  function ChildrenAfter(data: seq<Byte>, boxes: seq<Box>, end: nat, newBox: seq<Byte>): seq<Box>
    requires IsBox(newBox)
  {
    if LastIsOpenEnded(data, boxes) then
      var last := |boxes| - 1;
      boxes[last := boxes[last].(size := boxes[last].size + |newBox|)]
    else boxes + [Box(end, |newBox|, ParseBoxHeader(newBox, 0, |newBox|).value.headerLen)]
  }

  lemma {:induction false} ChildrenGrow(data: seq<Byte>, out: seq<Byte>, pos: nat, end: nat, newBox: seq<Byte>)
    requires pos <= end <= |data| && |out| == |data| + |newBox| && IsBox(newBox)
    requires Children(data, pos, end).Fine?
    requires forall k :: pos <= k < end ==> out[k] == data[k]
    requires out[end..end + |newBox|] == newBox
    ensures Children(out, pos, end + |newBox|) == Fine(ChildrenAfter(data, Children(data, pos, end).value, end, newBox))
    decreases end - pos
  {
    hide *;
    if pos == end {
      NewBoxParses(out, end, newBox);
      AfterNone(data, end, newBox);
      NoChildren(data, end);
    } else {
      ChildrenHead(data, pos, end);
      var h := ParseBoxHeader(data, pos, end).value;
      var b := Box(pos, h.size, h.headerLen);
      ChildHeaderInSplice(data, out, pos, end, |newBox|);
      OpenEndedFills(data, pos, end);
      if pos + h.size == end && OpenEnded(data, b) {
        OneChild(data, pos, end);
        OneChild(out, pos, end + |newBox|);
        AfterOpen(data, b, end, newBox);
      } else {
        var rest := Children(data, pos + h.size, end).value;
        ChildrenGrow(data, out, pos + h.size, end, newBox);
        NoChildren(data, end);
        AfterPrepend(data, b, rest, end, newBox);
        ChildrenCons(out, pos, end + |newBox|, h, ChildrenAfter(data, rest, end, newBox));
      }
    }
  }

  lemma AfterNone(data: seq<Byte>, end: nat, newBox: seq<Byte>)
    requires IsBox(newBox)
    ensures ChildrenAfter(data, [], end, newBox) == [Box(end, |newBox|, ParseBoxHeader(newBox, 0, |newBox|).value.headerLen)]
  {}

  lemma AfterOpen(data: seq<Byte>, b: Box, end: nat, newBox: seq<Byte>)
    requires IsBox(newBox) && OpenEnded(data, b)
    ensures ChildrenAfter(data, [b], end, newBox) == [b.(size := b.size + |newBox|)]
  {}

  lemma NewBoxParses(out: seq<Byte>, end: nat, newBox: seq<Byte>)
    requires IsBox(newBox) && end + |newBox| <= |out| && out[end..end + |newBox|] == newBox
    ensures Children(out, end, end + |newBox|) == Fine([Box(end, |newBox|, ParseBoxHeader(newBox, 0, |newBox|).value.headerLen)])
  {
    var n := |newBox|;
    assert n >= 8;
    SliceHeaderParses(out, end, n);
    hide *;
    OneChild(out, end, end + n);
  }

  /** A header parses the same in a slice. */
  lemma SliceHeaderParses(data: seq<Byte>, from: nat, n: nat)
    requires from + n <= |data|
    ensures ParseBoxHeader(data, from, from + n) == ParseBoxHeader(data[from..from + n], 0, n)
  {
    if n >= 8 {
      U32OfSlice(data, from, n, 0);
      TypeOfSlice(data, from, n);
      if n >= 16 {
        U32OfSlice(data, from, n, 8);
        U32OfSlice(data, from, n, 12);
        hide U32At;
        assert U64At(data, from + 8) == U64At(data[from..from + n], 8);
      }
      hide U32At, U64At;
    }
  }

  /** An untouched child's header in the longer region. */
  lemma ChildHeaderInSplice(data: seq<Byte>, out: seq<Byte>, pos: nat, end: nat, delta: nat)
    requires end <= |data| && |out| == |data| + delta && ParseBoxHeader(data, pos, end).Fine?
    requires forall k :: pos <= k < end ==> out[k] == data[k]
    ensures var h := ParseBoxHeader(data, pos, end).value;
      ParseBoxHeader(out, pos, end + delta)
      == Fine(if U32At(data, pos) == 0 then h.(size := h.size + delta) else h)
  {
    SameBytesRead(data, out, pos);
    assert out[pos + 4..pos + 8] == data[pos + 4..pos + 8];
    if U32At(data, pos) == 1 {
      SameBytesRead(data, out, pos + 8);
      SameBytesRead(data, out, pos + 12);
    }
  }

  lemma OpenEndedFills(data: seq<Byte>, pos: nat, end: nat)
    requires pos < end <= |data| && ParseBoxHeader(data, pos, end).Fine?
    ensures var h := ParseBoxHeader(data, pos, end).value;
      && (OpenEnded(data, Box(pos, h.size, h.headerLen)) <==> U32At(data, pos) == 0)
      && (U32At(data, pos) == 0 ==> pos + h.size == end)
  {}

  lemma AfterPrepend(data: seq<Byte>, b: Box, rest: seq<Box>, end: nat, newBox: seq<Byte>)
    requires IsBox(newBox) && (rest == [] ==> !OpenEnded(data, b))
    ensures ChildrenAfter(data, [b] + rest, end, newBox) == [b] + ChildrenAfter(data, rest, end, newBox)
  {
    hide OpenEnded;
    if rest != [] {
      assert ([b] + rest)[|rest|] == rest[|rest| - 1];
    }
  }

  /** After a splice the entry's children, from any offset into its content on,
      are the old ones with the new box last, unless the last one runs to the
      end of the entry: that one then swallows the new box. */
  lemma SpliceAddsChild(data: seq<Byte>, sampleEntryType: seq<Byte>, newBox: seq<Byte>, skip: nat)
    requires Spliced(data, sampleEntryType, newBox).Fine? && IsBox(newBox)
    requires var e := Entry(EntryPath(data, sampleEntryType).value);
      e.ContentStart() + skip <= e.ContentEnd() && Children(data, e.ContentStart() + skip, e.ContentEnd()).Fine?
    ensures var out := Spliced(data, sampleEntryType, newBox).value;
      var e := Entry(EntryPath(data, sampleEntryType).value);
      var boxes := Children(data, e.ContentStart() + skip, e.ContentEnd()).value;
      && e.ContentEnd() + |newBox| <= |out|
      && Children(out, e.ContentStart() + skip, e.ContentEnd() + |newBox|) == Fine(ChildrenAfter(data, boxes, e.ContentEnd(), newBox))
  {
    hide *;
    SplicedMeans(data, sampleEntryType, newBox);
    SpliceKeepsTree(data, sampleEntryType, newBox);
    EntryContentKept(data, sampleEntryType, newBox);
    var e := Entry(EntryPath(data, sampleEntryType).value);
    ChildrenGrow(data, Spliced(data, sampleEntryType, newBox).value, e.ContentStart() + skip, e.ContentEnd(), newBox);
  }

  /** The entry's content is kept byte for byte. */
  lemma EntryContentKept(data: seq<Byte>, sampleEntryType: seq<Byte>, newBox: seq<Byte>)
    requires Spliced(data, sampleEntryType, newBox).Fine?
    ensures var out := Spliced(data, sampleEntryType, newBox).value;
      var e := Entry(EntryPath(data, sampleEntryType).value);
      && e.ContentEnd() <= |data| && |out| == |data| + |newBox|
      && forall k :: e.ContentStart() <= k < e.ContentEnd() ==> out[k] == data[k]
  {
    hide *;
    SplicedMeans(data, sampleEntryType, newBox);
    SpliceKeepsTree(data, sampleEntryType, newBox);
    InsertionKeepsHeaders(data, sampleEntryType, newBox);
    EntryPathIsPath(data, sampleEntryType);
    FieldsOutsideEntry(data, EntryPath(data, sampleEntryType).value);
  }

  lemma FieldsOutsideEntry(data: seq<Byte>, p: seq<Box>)
    requires p != [] && Nested(data, p)
    ensures forall k :: InSizeField(data, p, k) ==> k < p[|p| - 1].ContentStart()
  {
    forall k | InSizeField(data, p, k) ensures k < p[|p| - 1].ContentStart() {
      var i :| 0 <= i < |p| && OwnField(data, p[i], k);
      assert k < p[i].ContentStart();
      if i < |p| - 1 {
        assert p[i].ContentStart() <= p[|p| - 1].start;
      }
    }
  }

  // ---------------------------------------------------------------------
  // Patching the pixel aspect ratio.
  // ---------------------------------------------------------------------

  function MakeBox(boxType: seq<Byte>, payload: seq<Byte>): (r: Outcome<seq<Byte>>)
    requires |boxType| == 4
    ensures r.Fine? <==> 8 + |payload| < 0x1_0000_0000
    ensures r.Fine? ==> |r.value| == 8 + |payload|
  {
    if 8 + |payload| >= 0x1_0000_0000 then FixtureError else Fine(U32Bytes(8 + |payload|) + boxType + payload)
  }

  /** A made box parses to its type and fills its bytes. */
  lemma MadeBoxParses(boxType: seq<Byte>, payload: seq<Byte>)
    requires |boxType| == 4 && MakeBox(boxType, payload).Fine?
    ensures var bytes := MakeBox(boxType, payload).value;
      && ParseBoxHeader(bytes, 0, |bytes|) == Fine(Header(|bytes|, boxType, 8))
      && bytes[8..] == payload
  {
    var bytes := MakeBox(boxType, payload).value;
    assert bytes[0..4] == U32Bytes(|bytes|) && bytes[4..8] == boxType;
    U32ReadsBack(bytes, 0, |bytes|);
  }

  /** Slice assignment: writing past the end lengthens the bytes. */
  function AssignSlice(data: seq<Byte>, at: nat, bytes: seq<Byte>): (r: seq<Byte>)
    requires at <= |data|
    ensures |r| >= |data| && |r| >= at + |bytes| && forall k :: 0 <= k < at ==> r[k] == data[k]
    ensures r[at..at + |bytes|] == bytes
    ensures at + |bytes| <= |data| ==> |r| == |data| && forall k :: at + |bytes| <= k < |data| ==> r[k] == data[k]
  {
    data[..at] + bytes + (if at + |bytes| <= |data| then data[at + |bytes|..] else [])
  }

  const PASP := Ascii("pasp")

  function IsU32(v: int): bool {
    0 <= v < 0x1_0000_0000
  }

  function PaspPayload(h: int, v: int): (b: seq<Byte>)
    requires IsU32(h) && IsU32(v)
    ensures |b| == 8
  {
    U32Bytes(h) + U32Bytes(v)
  }

  /** The aspect-ratio box of a sample entry: its first pasp child. */
  function PaspOf(data: seq<Byte>, entry: Box): (r: Outcome<Option<Box>>)
    requires entry.ContentEnd() <= |data|
  {
    ChildIn(data, entry.ContentStart() + VIDEO_SAMPLE_ENTRY_FIXED_HEADER_SIZE, entry.ContentEnd(), PASP)
  }

  function Patched(data: seq<Byte>, sampleEntryType: seq<Byte>, h: int, v: int): Outcome<seq<Byte>> {
    var path := EntryPath(data, sampleEntryType);
    if path.FixtureError? then FixtureError
    else
      var existing := PaspOf(data, Entry(path.value));
      if existing.FixtureError? || !IsU32(h) || !IsU32(v) then FixtureError
      else if existing.value.Some? then
        var b := existing.value.value;
        if b.size - 8 != 8 then FixtureError else Fine(AssignSlice(data, b.ContentStart(), PaspPayload(h, v)))
      else Spliced(data, sampleEntryType, MakeBox(PASP, PaspPayload(h, v)).value)
  }

  method PatchPasp(data: seq<Byte>, sampleEntryType: seq<Byte>, hspacing: int, vspacing: int) returns (r: Outcome<seq<Byte>>)
    ensures r == Patched(data, sampleEntryType, hspacing, vspacing)
  {
    hide Path, EntryPath, ChildIn, Spliced, Descent, MakeBox, PaspPayload, AssignSlice, Entry;
    EntryPathIsPath(data, sampleEntryType);
    var path := LocateSampleEntry(data, sampleEntryType);
    if path.FixtureError? {
      return FixtureError;
    }
    EntryIsInside(data, sampleEntryType);
    var entry := Entry(path.value);
    var existing := FindChildBox(data, entry.ContentStart() + VIDEO_SAMPLE_ENTRY_FIXED_HEADER_SIZE, entry.ContentEnd(), PASP);
    if existing.FixtureError? || !IsU32(hspacing) || !IsU32(vspacing) {
      return FixtureError;
    }
    var payload := PaspPayload(hspacing, vspacing);
    if existing.value.Some? {
      var b := existing.value.value;
      if b.size - 8 != |payload| {
        return FixtureError;
      }
      return Fine(AssignSlice(data, b.ContentStart(), payload));
    }
    r := SpliceChildBox(data, sampleEntryType, MakeBox(PASP, payload).value);
  }

  /** A patch succeeds exactly for two values of 32 bits on a file whose entry is
      found, with a first pasp child of sixteen bytes, or with none and room in
      the size fields for one more box of sixteen bytes. */
  lemma PatchSucceedsIff(data: seq<Byte>, sampleEntryType: seq<Byte>, h: int, v: int)
    ensures EntryPath(data, sampleEntryType).FixtureError? ==> Patched(data, sampleEntryType, h, v).FixtureError?
    ensures EntryPath(data, sampleEntryType).Fine? ==>
      var p := EntryPath(data, sampleEntryType).value;
      var existing := PaspOf(data, Entry(p));
      && Nested(data, p)
      && (Patched(data, sampleEntryType, h, v).Fine? <==>
            && 0 <= h < 0x1_0000_0000 && 0 <= v < 0x1_0000_0000 && existing.Fine?
            && (existing.value.Some? ==> existing.value.value.size == 16)
            && (existing.value.None? ==> forall i :: 0 <= i < |p| ==> FieldFits(data, p[i], 16)))
  {
    if IsU32(h) && IsU32(v) {
      SpliceSucceedsIff(data, sampleEntryType, MakeBox(PASP, PaspPayload(h, v)).value);
    } else {
      SpliceSucceedsIff(data, sampleEntryType, []);
    }
    hide EntryPath, Spliced, PaspOf, FieldFits, Nested, Entry;
  }

  lemma EntryIsInside(data: seq<Byte>, sampleEntryType: seq<Byte>)
    requires EntryPath(data, sampleEntryType).Fine?
    ensures EntryPath(data, sampleEntryType).value != [] && Entry(EntryPath(data, sampleEntryType).value).ContentEnd() <= |data|
  {}

  /** Re-reading the file finds an aspect-ratio box of eight content bytes with
      exactly these two values. */
  predicate ReadsBack(out: seq<Byte>, sampleEntryType: seq<Byte>, h: int, v: int) {
    var path := EntryPath(out, sampleEntryType);
    && path.Fine?
    && var found := PaspOf(out, Entry(path.value));
    && found.Fine? && found.value.Some?
    && HasRatio(out, found.value.value, h, v)
  }

  /** The content of a pasp box (section 12.1.4 of ISO/IEC 14496-12): the
      horizontal spacing, then the vertical one. */
  predicate HasRatio(out: seq<Byte>, b: Box, h: int, v: int) {
    && b.ContentEnd() <= |out| && b.ContentStart() + 8 == b.ContentEnd()
    && U32At(out, b.ContentStart()) == h && U32At(out, b.ContentStart() + 4) == v
  }

  /** The guard under which the patch does what it promises: an existing box
      has the short header; a new box starts where the entry's children are
      looked for, after a last child that does not run to the entry's end. */
  predicate Patchable(data: seq<Byte>, entry: Box)
    requires entry.ContentEnd() <= |data|
  {
    var from := entry.ContentStart() + VIDEO_SAMPLE_ENTRY_FIXED_HEADER_SIZE;
    var existing := PaspOf(data, entry);
    && existing.Fine?
    && match existing.value
       case Some(b) => b.headerLen == 8
       case None =>
         && from <= entry.ContentEnd()
         && var children := Children(data, from, entry.ContentEnd());
            children.Fine? && !LastIsOpenEnded(data, children.value)
  }

  /** A patch that succeeds is read back exactly under that guard. */
  lemma PatchReadsBackIff(data: seq<Byte>, sampleEntryType: seq<Byte>, h: int, v: int)
    requires Patched(data, sampleEntryType, h, v).Fine?
    ensures IsU32(h) && IsU32(v) && EntryPath(data, sampleEntryType).Fine?
    ensures ReadsBack(Patched(data, sampleEntryType, h, v).value, sampleEntryType, h, v)
       <==> Patchable(data, Entry(EntryPath(data, sampleEntryType).value))
  {
    var entry := Entry(EntryPath(data, sampleEntryType).value);
    hide EntryPath, ChildIn, Children, Spliced;
    if PaspOf(data, entry).value.Some? {
      InPlaceReadsBackIff(data, sampleEntryType, h, v);
    } else {
      AppendedReadsBackIff(data, sampleEntryType, h, v);
    }
  }

  // --- An existing box ---

  lemma {:induction false} ChildStable(data: seq<Byte>, out: seq<Byte>, pos: nat, end: nat, end': nat, boxType: seq<Byte>)
    requires end <= |data| && end <= end' <= |out|
    requires ChildIn(data, pos, end, boxType).Fine? && ChildIn(data, pos, end, boxType).value.Some?
    requires var b := ChildIn(data, pos, end, boxType).value.value;
      forall k :: pos <= k < b.ContentStart() ==> out[k] == data[k]
    ensures ChildIn(out, pos, end', boxType).Fine? && ChildIn(out, pos, end', boxType).value.Some?
    ensures var b, c := ChildIn(data, pos, end, boxType).value.value, ChildIn(out, pos, end', boxType).value.value;
      c.start == b.start && c.headerLen == b.headerLen && c.size == if OpenEnded(data, b) then b.size + (end' - end) else b.size
    decreases end - pos
  {
    hide ParseBoxHeader, U32At;
    var h := ParseBoxHeader(data, pos, end).value;
    HeaderStable(data, out, pos, end, end');
    if h.boxType != boxType {
      assert pos + h.size < end;
      ChildStable(data, out, pos + h.size, end, end', boxType);
    }
  }

  lemma HeaderStable(data: seq<Byte>, out: seq<Byte>, pos: nat, end: nat, end': nat)
    requires end <= |data| && end <= end' <= |out| && ParseBoxHeader(data, pos, end).Fine?
    requires forall k :: pos <= k < pos + ParseBoxHeader(data, pos, end).value.headerLen ==> out[k] == data[k]
    ensures var h := ParseBoxHeader(data, pos, end).value;
      && ParseBoxHeader(out, pos, end') == Fine(if U32At(data, pos) == 0 then h.(size := h.size + (end' - end)) else h)
      && (U32At(data, pos) == 0 ==> pos + h.size == end)
  {
    SameBytesRead(data, out, pos);
    assert out[pos + 4..pos + 8] == data[pos + 4..pos + 8];
    if U32At(data, pos) == 1 {
      SameBytesRead(data, out, pos + 8);
      SameBytesRead(data, out, pos + 12);
    }
  }

  /** The path's boxes do not move when only bytes after its last header change. */
  lemma {:induction false} PathStable(data: seq<Byte>, out: seq<Byte>, start: nat, end: nat, end': nat, steps: seq<Step>)
    requires end <= |data| && end <= end' <= |out|
    requires Path(data, start, end, steps).Fine? && steps != []
    requires var p := Path(data, start, end, steps).value;
      Entry(p).ContentStart() <= |data| <= |out| && forall k :: start <= k < Entry(p).ContentStart() ==> out[k] == data[k]
    ensures Path(out, start, end', steps).Fine?
    ensures var p, q := Path(data, start, end, steps).value, Path(out, start, end', steps).value;
      && Entry(q).start == Entry(p).start && Entry(q).headerLen == Entry(p).headerLen
      && Entry(q).size >= Entry(p).size && (end == end' ==> q == p)
    decreases |steps|
  {
    hide Path, ChildIn, Nested, Entry, ParseBoxHeader, OpenEnded;
    PathIsNested(data, start, end, steps);
    PathHead(data, start, end, steps);
    var p := Path(data, start, end, steps).value;
    LastStartsAfter(data, p);
    ChildStable(data, out, start + steps[0].skip, end, end', steps[0].boxType);
    var b, c := p[0], ChildIn(out, start + steps[0].skip, end', steps[0].boxType).value.value;
    FoundFits(out, start + steps[0].skip, end', steps[0].boxType);
    if |steps| > 1 {
      EntryOfTail(p);
      PathStable(data, out, b.ContentStart(), b.ContentEnd(), c.ContentEnd(), steps[1..]);
      PathCons(out, start, end', steps, c);
      EntryOfTail(Path(out, start, end', steps).value);
    } else {
      SinglePath(out, start, end', steps, c);
      EntryOfOne(p);
      EntryOfOne([c]);
    }
  }

  lemma LastStartsAfter(data: seq<Byte>, p: seq<Box>)
    requires p != [] && Nested(data, p)
    ensures p[0].ContentStart() <= Entry(p).ContentStart()
  {}

  lemma EntryOfTail(p: seq<Box>)
    requires |p| > 1
    ensures Entry(p) == Entry(p[1..]) && p == [p[0]] + p[1..]
  {}

  lemma EntryOfOne(p: seq<Box>)
    requires |p| == 1
    ensures Entry(p) == p[0] && p == [p[0]]
  {}

  lemma FoundFits(data: seq<Byte>, pos: nat, end: nat, boxType: seq<Byte>)
    requires end <= |data| && ChildIn(data, pos, end, boxType).Fine? && ChildIn(data, pos, end, boxType).value.Some?
    ensures var b := ChildIn(data, pos, end, boxType).value.value;
      pos <= b.start && b.ContentStart() <= b.ContentEnd() <= end
  {}

  lemma PathCons(data: seq<Byte>, start: nat, end: nat, steps: seq<Step>, b: Box)
    requires end <= |data| && steps != [] && ChildIn(data, start + steps[0].skip, end, steps[0].boxType) == Fine(Some(b))
    requires b.ContentEnd() <= |data| && Path(data, b.ContentStart(), b.ContentEnd(), steps[1..]).Fine?
    ensures Path(data, start, end, steps) == Fine([b] + Path(data, b.ContentStart(), b.ContentEnd(), steps[1..]).value)
  {}

  lemma SinglePath(data: seq<Byte>, start: nat, end: nat, steps: seq<Step>, b: Box)
    requires end <= |data| && |steps| == 1 && ChildIn(data, start + steps[0].skip, end, steps[0].boxType) == Fine(Some(b))
    ensures Path(data, start, end, steps) == Fine([b])
  {
    assert Path(data, b.ContentStart(), b.ContentEnd(), steps[1..]) == Fine([]);
    assert [b] + [] == [b];
  }

  lemma InPlaceReadsBackIff(data: seq<Byte>, sampleEntryType: seq<Byte>, h: int, v: int)
    requires IsU32(h) && IsU32(v) && EntryPath(data, sampleEntryType).Fine?
    requires PaspOf(data, Entry(EntryPath(data, sampleEntryType).value)).Fine?
    requires PaspOf(data, Entry(EntryPath(data, sampleEntryType).value)).value.Some?
    requires PaspOf(data, Entry(EntryPath(data, sampleEntryType).value)).value.value.size == 16
    ensures var b := PaspOf(data, Entry(EntryPath(data, sampleEntryType).value)).value.value;
      && b.ContentStart() <= |data|
      && (ReadsBack(AssignSlice(data, b.ContentStart(), PaspPayload(h, v)), sampleEntryType, h, v) <==> b.headerLen == 8)
  {
    hide EntryPath, ChildIn, Path, AssignSlice, Descent, ReadsBack, PaspPayload;
    var entry := Entry(EntryPath(data, sampleEntryType).value);
    var from := entry.ContentStart() + VIDEO_SAMPLE_ENTRY_FIXED_HEADER_SIZE;
    FoundFits(data, from, entry.ContentEnd(), PASP);
    FoundHasHeader(data, from, entry.ContentEnd(), PASP);
    var b := PaspOf(data, entry).value.value;
    var out := AssignSlice(data, b.ContentStart(), PaspPayload(h, v));
    EntryStable(data, out, sampleEntryType);
    var entry' := Entry(EntryPath(out, sampleEntryType).value);
    ChildStable(data, out, from, entry.ContentEnd(), entry'.ContentEnd(), PASP);
    var c := PaspOf(out, entry').value.value;
    FoundFits(out, from, entry'.ContentEnd(), PASP);
    ReadingIs(out, sampleEntryType, h, v, c);
    ShortHeaderWhenOpen(data, b);
  }

  lemma ShortHeaderWhenOpen(data: seq<Byte>, b: Box)
    requires HasHeader(data, b)
    ensures b.headerLen in {8, 16} && (b.headerLen == 16 ==> !OpenEnded(data, b))
  {}

  lemma ReadingIs(out: seq<Byte>, sampleEntryType: seq<Byte>, h: int, v: int, b: Box)
    requires IsU32(h) && IsU32(v) && EntryPath(out, sampleEntryType).Fine?
    requires PaspOf(out, Entry(EntryPath(out, sampleEntryType).value)) == Fine(Some(b))
    requires b.ContentEnd() <= |out| && b.headerLen <= b.size
    ensures ReadsBack(out, sampleEntryType, h, v) <==> out[b.ContentStart()..b.ContentEnd()] == PaspPayload(h, v)
  {
    RatioIsPayload(out, b, h, v);
    hide EntryPath, PaspOf, HasRatio, PaspPayload;
  }

  /** The payload holds the two values, and nothing else does. */
  lemma RatioIsPayload(out: seq<Byte>, b: Box, h: int, v: int)
    requires IsU32(h) && IsU32(v) && b.ContentEnd() <= |out| && b.headerLen <= b.size
    ensures HasRatio(out, b, h, v) <==> out[b.ContentStart()..b.ContentEnd()] == PaspPayload(h, v)
  {
    var c, e := b.ContentStart(), b.ContentEnd();
    if e == c + 8 {
      assert out[c..c + 4] == out[c..e][..4] && out[c + 4..c + 8] == out[c..e][4..];
      if out[c..e] == PaspPayload(h, v) {
        assert out[c..e][..4] == U32Bytes(h) && out[c..e][4..] == U32Bytes(v);
        U32ReadsBack(out, c, h);
        U32ReadsBack(out, c + 4, v);
      }
      if HasRatio(out, b, h, v) {
        U32WritesBack(out, c);
        U32WritesBack(out, c + 4);
        assert out[c..e] == out[c..c + 4] + out[c + 4..c + 8];
      }
    }
  }

  /** The entry does not move when only bytes after its header change. */
  lemma EntryStable(data: seq<Byte>, out: seq<Byte>, sampleEntryType: seq<Byte>)
    requires EntryPath(data, sampleEntryType).Fine? && |out| >= |data|
    requires var e := Entry(EntryPath(data, sampleEntryType).value);
      e.ContentStart() <= |data| && forall k :: 0 <= k < e.ContentStart() ==> out[k] == data[k]
    ensures EntryPath(out, sampleEntryType).Fine?
    ensures var e, e' := Entry(EntryPath(data, sampleEntryType).value), Entry(EntryPath(out, sampleEntryType).value);
      e'.start == e.start && e'.headerLen == e.headerLen && e'.size >= e.size && (|out| == |data| ==> e' == e)
  {
    hide *;
    EntryPathIsPath(data, sampleEntryType);
    EntryPathIsPath(out, sampleEntryType);
    PathStable(data, out, 0, |data|, |out|, Descent(sampleEntryType));
  }

  // --- An appended box ---

  lemma {:induction false} AbsentThenAppended(data: seq<Byte>, out: seq<Byte>, pos: nat, end: nat, newBox: seq<Byte>, boxType: seq<Byte>)
    requires pos <= end <= |data| && |out| == |data| + |newBox| && IsBox(newBox)
    requires ParseBoxHeader(newBox, 0, |newBox|).value.boxType == boxType
    requires ChildIn(data, pos, end, boxType) == Fine(None)
    requires forall k :: pos <= k < end ==> out[k] == data[k]
    requires out[end..end + |newBox|] == newBox
    ensures Children(data, pos, end).Fine?
    ensures ChildIn(out, pos, end + |newBox|, boxType)
         == Fine(if LastIsOpenEnded(data, Children(data, pos, end).value) then None
                 else Some(Box(end, |newBox|, ParseBoxHeader(newBox, 0, |newBox|).value.headerLen)))
    decreases end - pos
  {
    hide *;
    if pos == end {
      SliceHeaderParses(out, end, |newBox|);
      NoChildren(data, end);
      AtNewBox(data, out, end, newBox, boxType);
    } else {
      AbsentHead(data, pos, end, boxType);
      var h := ParseBoxHeader(data, pos, end).value;
      var b := Box(pos, h.size, h.headerLen);
      ChildHeaderInSplice(data, out, pos, end, |newBox|);
      OpenEndedFills(data, pos, end);
      if pos + h.size == end && OpenEnded(data, b) {
        OneChild(data, pos, end);
        LastOfOne(data, b);
        NothingFound(out, end + |newBox|, boxType);
        SkipChild(out, pos, end + |newBox|, boxType);
      } else {
        AbsentThenAppended(data, out, pos + h.size, end, newBox, boxType);
        NoChildren(data, end);
        ChildrenCons(data, pos, end, h, Children(data, pos + h.size, end).value);
        LastOfCons(data, b, Children(data, pos + h.size, end).value);
        SkipChild(out, pos, end + |newBox|, boxType);
      }
    }
  }

  lemma AtNewBox(data: seq<Byte>, out: seq<Byte>, end: nat, newBox: seq<Byte>, boxType: seq<Byte>)
    requires IsBox(newBox) && end + |newBox| <= |out| && ParseBoxHeader(newBox, 0, |newBox|).value.boxType == boxType
    requires ParseBoxHeader(out, end, end + |newBox|) == ParseBoxHeader(newBox, 0, |newBox|)
    ensures !LastIsOpenEnded(data, [])
    ensures ChildIn(out, end, end + |newBox|, boxType) == Fine(Some(Box(end, |newBox|, ParseBoxHeader(newBox, 0, |newBox|).value.headerLen)))
  {}

  lemma AbsentHead(data: seq<Byte>, pos: nat, end: nat, boxType: seq<Byte>)
    requires pos < end <= |data| && ChildIn(data, pos, end, boxType) == Fine(None)
    ensures ParseBoxHeader(data, pos, end).Fine?
    ensures var h := ParseBoxHeader(data, pos, end).value;
      h.boxType != boxType && ChildIn(data, pos + h.size, end, boxType) == Fine(None) && pos + h.size <= end
  {}

  lemma SkipChild(data: seq<Byte>, pos: nat, end: nat, boxType: seq<Byte>)
    requires pos < end <= |data| && ParseBoxHeader(data, pos, end).Fine? && ParseBoxHeader(data, pos, end).value.boxType != boxType
    ensures ChildIn(data, pos, end, boxType) == ChildIn(data, pos + ParseBoxHeader(data, pos, end).value.size, end, boxType)
  {}

  lemma LastOfOne(data: seq<Byte>, b: Box)
    ensures LastIsOpenEnded(data, [b]) == OpenEnded(data, b)
  {}

  lemma NothingFound(data: seq<Byte>, end: nat, boxType: seq<Byte>)
    requires end <= |data|
    ensures ChildIn(data, end, end, boxType) == Fine(None)
  {}

  lemma LastOfCons(data: seq<Byte>, b: Box, rest: seq<Box>)
    requires rest == [] ==> !OpenEnded(data, b)
    ensures LastIsOpenEnded(data, [b] + rest) == LastIsOpenEnded(data, rest)
  {}

  lemma AppendedReadsBackIff(data: seq<Byte>, sampleEntryType: seq<Byte>, h: int, v: int)
    requires IsU32(h) && IsU32(v) && EntryPath(data, sampleEntryType).Fine?
    requires PaspOf(data, Entry(EntryPath(data, sampleEntryType).value)) == Fine(None)
    requires Spliced(data, sampleEntryType, MakeBox(PASP, PaspPayload(h, v)).value).Fine?
    ensures ReadsBack(Spliced(data, sampleEntryType, MakeBox(PASP, PaspPayload(h, v)).value).value, sampleEntryType, h, v)
       <==> Patchable(data, Entry(EntryPath(data, sampleEntryType).value))
  {
    hide EntryPath, ChildIn, Path, Spliced, Descent, Children, MakeBox, PaspPayload, ReadsBack, Patchable, LastIsOpenEnded;
    var payload := PaspPayload(h, v);
    var newBox := MakeBox(PASP, payload).value;
    var out := Spliced(data, sampleEntryType, newBox).value;
    var entry := Entry(EntryPath(data, sampleEntryType).value);
    var from := entry.ContentStart() + VIDEO_SAMPLE_ENTRY_FIXED_HEADER_SIZE;
    MadeBoxParses(PASP, payload);
    GrownEntry(data, sampleEntryType, newBox);
    var entry' := entry.(size := entry.size + 16);
    var at := entry.ContentEnd();
    PatchableIs(data, entry);
    if from <= at {
      EntryContentKept(data, sampleEntryType, newBox);
      AbsentThenAppended(data, out, from, at, newBox, PASP);
      if LastIsOpenEnded(data, Children(data, from, at).value) {
        NotRead(out, sampleEntryType, h, v);
      } else {
        assert out[at + 8..at + 16] == out[at..at + 16][8..];
        ReadingIs(out, sampleEntryType, h, v, Box(at, 16, 8));
      }
    } else if PaspOf(out, entry').Fine? && PaspOf(out, entry').value.Some? {
      FoundFits(out, from, entry'.ContentEnd(), PASP);
      FoundHasHeader(out, from, entry'.ContentEnd(), PASP);
      var c := PaspOf(out, entry').value.value;
      ReadingIs(out, sampleEntryType, h, v, c);
      assert c.size < 16;
    } else {
      NotRead(out, sampleEntryType, h, v);
    }
  }

  lemma PatchableIs(data: seq<Byte>, entry: Box)
    requires entry.ContentEnd() <= |data| && PaspOf(data, entry) == Fine(None)
    ensures var from := entry.ContentStart() + VIDEO_SAMPLE_ENTRY_FIXED_HEADER_SIZE;
      Patchable(data, entry) <==>
        from <= entry.ContentEnd() && Children(data, from, entry.ContentEnd()).Fine?
        && !LastIsOpenEnded(data, Children(data, from, entry.ContentEnd()).value)
  {}

  lemma NotRead(out: seq<Byte>, sampleEntryType: seq<Byte>, h: int, v: int)
    requires IsU32(h) && IsU32(v) && EntryPath(out, sampleEntryType).Fine?
    requires var found := PaspOf(out, Entry(EntryPath(out, sampleEntryType).value)); found.FixtureError? || found.value.None?
    ensures !ReadsBack(out, sampleEntryType, h, v)
  {}

  lemma GrownEntry(data: seq<Byte>, sampleEntryType: seq<Byte>, newBox: seq<Byte>)
    requires Spliced(data, sampleEntryType, newBox).Fine?
    ensures var out := Spliced(data, sampleEntryType, newBox).value;
      && EntryPath(data, sampleEntryType).Fine? && EntryPath(out, sampleEntryType).Fine?
      && var e := Entry(EntryPath(data, sampleEntryType).value);
      && Entry(EntryPath(out, sampleEntryType).value) == e.(size := e.size + |newBox|)
      && e.ContentEnd() <= |data| && |out| == |data| + |newBox|
      && out[e.ContentEnd()..e.ContentEnd() + |newBox|] == newBox
  {
    SplicedMeans(data, sampleEntryType, newBox);
    SpliceKeepsTree(data, sampleEntryType, newBox);
    EntryPathIsPath(data, sampleEntryType);
    hide EntryPath, Spliced, Path;
  }

  /** A patch in place changes nothing but the eight bytes of the box. */
  lemma PatchInPlaceKeepsRest(data: seq<Byte>, sampleEntryType: seq<Byte>, h: int, v: int)
    requires Patched(data, sampleEntryType, h, v).Fine?
    requires var p := EntryPath(data, sampleEntryType);
      p.Fine? && PaspOf(data, Entry(p.value)).Fine? && PaspOf(data, Entry(p.value)).value.Some?
      && PaspOf(data, Entry(p.value)).value.value.headerLen == 8
    ensures var out := Patched(data, sampleEntryType, h, v).value;
      var b := PaspOf(data, Entry(EntryPath(data, sampleEntryType).value)).value.value;
      && |out| == |data| && b.ContentStart() + 8 == b.ContentEnd() <= |data|
      && forall k :: 0 <= k < |data| && !(b.ContentStart() <= k < b.ContentEnd()) ==> out[k] == data[k]
  {
    var entry := Entry(EntryPath(data, sampleEntryType).value);
    FoundFits(data, entry.ContentStart() + VIDEO_SAMPLE_ENTRY_FIXED_HEADER_SIZE, entry.ContentEnd(), PASP);
  }

  // ---------------------------------------------------------------------
  // Two files on which a patch succeeds without being read back.
  // ---------------------------------------------------------------------

  /** A box around a short payload. */
  function Wrap(boxType: seq<Byte>, payload: seq<Byte>): (r: seq<Byte>)
    requires |boxType| == 4 && |payload| < 0x1000
    ensures |r| == 8 + |payload|
  {
    MakeBox(boxType, payload).value
  }

  const AVC1 := Ascii("avc1")

  /** The codes of the boxes around a sample entry, outermost first. */
  function LevelCode(i: nat): (c: seq<Byte>)
    requires i < 6
    ensures |c| == 4
  {
    match i
    case 0 => [0x6D, 0x6F, 0x6F, 0x76] // moov
    case 1 => [0x74, 0x72, 0x61, 0x6B] // trak
    case 2 => [0x6D, 0x64, 0x69, 0x61] // mdia
    case 3 => [0x6D, 0x69, 0x6E, 0x66] // minf
    case 4 => [0x73, 0x74, 0x62, 0x6C] // stbl
    case 5 => [0x73, 0x74, 0x73, 0x64] // stsd
  }

  lemma LevelCodesAreSteps(i: nat)
    requires i < 6
    ensures Descent(AVC1)[i].boxType == LevelCode(i) && Descent(AVC1)[i].skip == 0
  {
    var c := Descent(AVC1)[i].boxType;
    assert c == [c[0], c[1], c[2], c[3]];
  }

  /** The bytes from level i of the descent on, around a sample entry's content. */
  function Level(i: nat, content: seq<Byte>): (r: seq<Byte>)
    requires i <= 6 && |content| < 0x800
    ensures |r| == (if i == 6 then 8 else 64 - 8 * i) + |content|
    decreases 6 - i
  {
    if i == 6 then Wrap(AVC1, content)
    else if i == 5 then Wrap(LevelCode(5), [0, 0, 0, 0, 0, 0, 0, 1] + Wrap(AVC1, content))
    else Wrap(LevelCode(i), Level(i + 1, content))
  }

  /** A file that holds nothing but one sample entry with the given content. */
  function Movie(content: seq<Byte>): (r: seq<Byte>)
    requires |content| < 0x800
    ensures |r| == 64 + |content|
  {
    Level(0, content)
  }

  /** A region that is one made box: the box is found, and its content follows. */
  lemma WrappedIsFound(data: seq<Byte>, pos: nat, boxType: seq<Byte>, payload: seq<Byte>)
    requires |boxType| == 4 && |payload| < 0x1000 && pos <= |data| && data[pos..] == Wrap(boxType, payload)
    ensures |data| == pos + 8 + |payload|
    ensures ChildIn(data, pos, |data|, boxType) == Fine(Some(Box(pos, 8 + |payload|, 8)))
    ensures data[pos + 8..] == payload
  {
    MadeBoxParses(boxType, payload);
    assert |data[pos..]| == |data| - pos;
    assert data[pos..|data|] == data[pos..];
    SliceHeaderParses(data, pos, |data| - pos);
    assert data[pos..][8..] == data[pos + 8..];
  }

  lemma MovieHasEntry(content: seq<Byte>)
    requires |content| < 0x800
    ensures EntryPath(Movie(content), AVC1).Fine?
    ensures Entry(EntryPath(Movie(content), AVC1).value) == Box(56, 8 + |content|, 8)
    ensures Movie(content)[64..] == content
  {
    assert Movie(content)[0..] == Movie(content);
    LevelHasEntry(Movie(content), content, 0);
    EntryPathIsPath(Movie(content), AVC1);
    assert Descent(AVC1)[0..] == Descent(AVC1);
  }

  lemma {:induction false} LevelHasEntry(data: seq<Byte>, content: seq<Byte>, i: nat)
    requires |content| < 0x800 && i <= 5 && 8 * i <= |data| && data[8 * i..] == Level(i, content)
    ensures |data| == 64 + |content| && data[64..] == content
    ensures var p := Path(data, 8 * i, |data|, Descent(AVC1)[i..]);
      p.Fine? && Entry(p.value) == Box(56, 8 + |content|, 8)
    decreases 5 - i
  {
    hide *;
    var steps := Descent(AVC1);
    LevelCodesAreSteps(i);
    LevelParts(i, content);
    if i == 5 {
      DescriptionHasEntry(data, content);
    } else {
      WrappedIsFound(data, 8 * i, LevelCode(i), Level(i + 1, content));
      LevelHasEntry(data, content, i + 1);
    }
    PathUp(data, 8 * i, steps, i);
  }

  lemma LevelParts(i: nat, content: seq<Byte>)
    requires i <= 5 && |content| < 0x800
    ensures |Descent(AVC1)| == 7 && |Level(i, content)| == 64 - 8 * i + |content|
    ensures i < 5 ==> |Level(i + 1, content)| < 0x1000 && Level(i, content) == Wrap(LevelCode(i), Level(i + 1, content))
    ensures i == 5 ==> Level(i, content) == Wrap(LevelCode(5), [0, 0, 0, 0, 0, 0, 0, 1] + Wrap(AVC1, content))
  {}

  lemma DescriptionHasEntry(data: seq<Byte>, content: seq<Byte>)
    requires |content| < 0x800 && 40 <= |data| && data[40..] == Wrap(LevelCode(5), [0, 0, 0, 0, 0, 0, 0, 1] + Wrap(AVC1, content))
    ensures |data| == 64 + |content| && data[64..] == content
    ensures ChildIn(data, 40, |data|, LevelCode(5)) == Fine(Some(Box(40, |data| - 40, 8)))
    ensures var p := Path(data, 48, |data|, Descent(AVC1)[6..]);
      p.Fine? && Entry(p.value) == Box(56, 8 + |content|, 8)
  {
    hide ChildIn, Path, Wrap, LevelCode;
    var stsd := [0, 0, 0, 0, 0, 0, 0, 1] + Wrap(AVC1, content);
    WrappedIsFound(data, 40, LevelCode(5), stsd);
    assert data[56..] == data[48..][8..] == stsd[8..] == Wrap(AVC1, content);
    WrappedIsFound(data, 56, AVC1, content);
    SinglePath(data, 48, |data|, Descent(AVC1)[6..], Box(56, 8 + |content|, 8));
  }

  /** One level up: the path from step i on, when the one from i + 1 on is
      known. */
  lemma PathUp(data: seq<Byte>, start: nat, steps: seq<Step>, i: nat)
    requires i + 1 < |steps| && start + 8 <= |data| && steps[i].skip == 0
    requires ChildIn(data, start, |data|, steps[i].boxType) == Fine(Some(Box(start, |data| - start, 8)))
    requires Path(data, start + 8, |data|, steps[i + 1..]).Fine?
    ensures var p := Path(data, start, |data|, steps[i..]);
      p.Fine? && Entry(p.value) == Entry(Path(data, start + 8, |data|, steps[i + 1..]).value)
  {
    hide ChildIn;
    assert steps[i..][0] == steps[i] && steps[i..][1..] == steps[i + 1..];
    PathCons(data, start, |data|, steps[i..], Box(start, |data| - start, 8));
  }

  lemma ShortEntryIsNotReadBack(h: int, v: int)
    requires IsU32(h) && IsU32(v)
    ensures var data := Movie([]);
      && Patched(data, AVC1, h, v).Fine?
      && !ReadsBack(Patched(data, AVC1, h, v).value, AVC1, h, v)
  {
    var data := Movie([]);
    hide Movie, EntryPath, Spliced, MakeBox, PaspPayload, ReadsBack;
    MovieHasEntry([]);
    var entry := Entry(EntryPath(data, AVC1).value);
    assert PaspOf(data, entry) == Fine(None);
    SmallFileSplices(data, AVC1, MakeBox(PASP, PaspPayload(h, v)).value);
    PatchReadsBackIff(data, AVC1, h, v);
  }

  /** In a small file no size field can overflow. */
  lemma SmallFileSplices(data: seq<Byte>, sampleEntryType: seq<Byte>, newBox: seq<Byte>)
    requires EntryPath(data, sampleEntryType).Fine? && |data| + |newBox| < 0x1_0000_0000
    ensures Spliced(data, sampleEntryType, newBox).Fine?
  {
    SpliceSucceedsIff(data, sampleEntryType, newBox);
    EntryPathIsPath(data, sampleEntryType);
    hide EntryPath, Spliced, Path, Descent;
    DeclaredSizesFit(data, 0, |data|, Descent(sampleEntryType), |newBox|);
  }

  lemma {:induction false} DeclaredSizesFit(data: seq<Byte>, start: nat, end: nat, steps: seq<Step>, delta: nat)
    requires end <= |data| && |data| + delta < 0x1_0000_0000 && Path(data, start, end, steps).Fine?
    ensures AllFit(data, Path(data, start, end, steps).value, delta)
    decreases |steps|
  {
    NoneToFit(data, start, end, steps, delta);
    hide *;
    if steps != [] {
      PathHead(data, start, end, steps);
      var p := Path(data, start, end, steps).value;
      FoundDeclares(data, start + steps[0].skip, end, steps[0].boxType);
      DeclaredSizesFit(data, p[0].ContentStart(), p[0].ContentEnd(), steps[1..], delta);
      DeclaredFits(data, p[0], delta);
      AllFitCons(data, p, delta);
    }
  }

  lemma NoneToFit(data: seq<Byte>, start: nat, end: nat, steps: seq<Step>, delta: nat)
    requires end <= |data| && Path(data, start, end, steps).Fine?
    ensures steps == [] ==> AllFit(data, Path(data, start, end, steps).value, delta)
  {
    hide HasSizeField, FieldFits, ChildIn;
  }

  predicate AllFit(data: seq<Byte>, p: seq<Box>, delta: nat) {
    forall i :: 0 <= i < |p| ==> HasSizeField(data, p[i].start) && FieldFits(data, p[i], delta)
  }

  lemma AllFitCons(data: seq<Byte>, p: seq<Box>, delta: nat)
    requires p != [] && HasSizeField(data, p[0].start) && FieldFits(data, p[0], delta) && AllFit(data, p[1..], delta)
    ensures AllFit(data, p, delta)
  {
    hide HasSizeField, FieldFits;
    assert forall i :: 1 <= i < |p| ==> p[i] == p[1..][i - 1];
  }

  lemma DeclaredFits(data: seq<Byte>, b: Box, delta: nat)
    requires HasHeader(data, b) && b.size + delta < 0x1_0000_0000
    requires U32At(data, b.start) == 0 || b.size == if U32At(data, b.start) == 1 then U64At(data, b.start + 8) else U32At(data, b.start)
    ensures FieldFits(data, b, delta)
  {}

  lemma {:induction false} FoundDeclares(data: seq<Byte>, pos: nat, end: nat, boxType: seq<Byte>)
    requires end <= |data| && ChildIn(data, pos, end, boxType).Fine? && ChildIn(data, pos, end, boxType).value.Some?
    ensures var b := ChildIn(data, pos, end, boxType).value.value;
      && HasHeader(data, b) && b.ContentEnd() <= |data|
      && (U32At(data, b.start) == 0 || b.size == if U32At(data, b.start) == 1 then U64At(data, b.start + 8) else U32At(data, b.start))
    decreases end - pos
  {
    var h := ParseBoxHeader(data, pos, end).value;
    if h.boxType != boxType {
      FoundDeclares(data, pos + h.size, end, boxType);
    }
  }

  /** An aspect-ratio box with the long header declares sixteen bytes and has no
      content: its values are written after it. */
  function LongPasp(): (r: seq<Byte>)
    ensures |r| == 16
  {
    U32Bytes(1) + [0x70, 0x61, 0x73, 0x70] + U64Bytes(16)
  }

  lemma LongHeaderIsNotReadBack(h: int, v: int)
    requires IsU32(h) && IsU32(v)
    ensures var data := Movie(seq(78, _ => 0) + LongPasp());
      && Patched(data, AVC1, h, v).Fine?
      && !ReadsBack(Patched(data, AVC1, h, v).value, AVC1, h, v)
  {
    var content: seq<Byte> := seq(78, _ => 0) + LongPasp();
    var data := Movie(content);
    hide Movie, EntryPath, Spliced, ReadsBack, Patchable;
    MovieHasEntry(content);
    assert |data| == 158;
    assert data[142..158] == data[64..][78..] == LongPasp();
    LongPaspParses(data, 142);
    assert PaspOf(data, Box(56, 102, 8)) == Fine(Some(Box(142, 16, 16)));
    PatchReadsBackIff(data, AVC1, h, v);
    assert !Patchable(data, Box(56, 102, 8)) by {
      LongIsNotPatchable(data, Box(56, 102, 8), Box(142, 16, 16));
    }
  }

  lemma LongIsNotPatchable(data: seq<Byte>, entry: Box, b: Box)
    requires entry.ContentEnd() <= |data| && PaspOf(data, entry) == Fine(Some(b)) && b.headerLen == 16
    ensures !Patchable(data, entry)
  {}

  /** A box of some other type that runs to the end of whatever holds it. */
  function OpenChild(): (r: seq<Byte>)
    ensures |r| == 8
  {
    U32Bytes(0) + Ascii("free")
  }

  function OpenEntryContent(): (r: seq<Byte>)
    ensures |r| == 86
  {
    seq(78, _ => 0) + OpenChild()
  }

  lemma OpenChildHeader(data: seq<Byte>, pos: nat)
    requires pos + 8 <= |data| && data[pos..pos + 8] == OpenChild()
    ensures ParseBoxHeader(data, pos, pos + 8) == Fine(Header(8, Ascii("free"), 8)) && OpenEnded(data, Box(pos, 8, 8))
  {
    var s := OpenChild();
    assert s[0..4] == U32Bytes(0) && s[4..8] == Ascii("free");
    assert data[pos..pos + 4] == data[pos..pos + 8][0..4] && data[pos + 4..pos + 8] == data[pos..pos + 8][4..8];
    hide OpenChild, U32At;
    U32ReadsBack(data, pos, 0);
  }

  lemma OpenChildParses(data: seq<Byte>, pos: nat)
    requires pos + 8 <= |data| && data[pos..pos + 8] == OpenChild()
    ensures OpenEnded(data, Box(pos, 8, 8))
    ensures Children(data, pos, pos + 8) == Fine([Box(pos, 8, 8)]) && ChildIn(data, pos, pos + 8, PASP) == Fine(None)
  {
    OpenChildHeader(data, pos);
    assert PASP[0] != Ascii("free")[0];
    hide OpenChild, OpenEnded, Ascii, ParseBoxHeader;
    OneChild(data, pos, pos + 8);
    assert ChildIn(data, pos + 8, pos + 8, PASP) == Fine(None);
  }

  /** An open-ended last child swallows a box spliced in behind it. */
  lemma OpenChildSwallows(data: seq<Byte>, newBox: seq<Byte>)
    requires EndsWithOpenChild(data) && IsBox(newBox) && |newBox| < 0x1000
    ensures Children(data, 142, 150) == Fine([Box(142, 8, 8)])
    ensures Spliced(data, AVC1, newBox).Fine? && 150 + |newBox| <= |Spliced(data, AVC1, newBox).value|
    ensures Children(Spliced(data, AVC1, newBox).value, 142, 150 + |newBox|) == Fine([Box(142, 8 + |newBox|, 8)])
  {
    OpenChildParses(data, 142);
    hide EntryPath, Spliced, OpenChild, OpenEnded, Children, ChildIn, IsBox, ChildrenAfter;
    SmallFileSplices(data, AVC1, newBox);
    SpliceAddsChild(data, AVC1, newBox, 78);
    OnlyChildGrows(data, newBox);
  }

  /** A small file whose sample entry ends with the open-ended box. */
  ghost predicate EndsWithOpenChild(data: seq<Byte>) {
    && |data| == 150 && data[142..150] == OpenChild()
    && EntryPath(data, AVC1).Fine? && Entry(EntryPath(data, AVC1).value) == Box(56, 94, 8)
  }

  lemma OpenMovie()
    ensures EndsWithOpenChild(Movie(OpenEntryContent()))
  {
    MovieHasEntry(OpenEntryContent());
    ContentEndsOpen();
    hide Movie, EntryPath, OpenChild, OpenEntryContent;
    TailOfTail(Movie(OpenEntryContent()), OpenEntryContent());
  }

  lemma ContentEndsOpen()
    ensures OpenEntryContent()[78..] == OpenChild()
  {
    hide OpenChild;
  }

  lemma TailOfTail(data: seq<Byte>, content: seq<Byte>)
    requires |data| == 150 && |content| == 86 && data[64..] == content
    ensures data[142..150] == content[78..]
  {}

  lemma OnlyChildGrows(data: seq<Byte>, newBox: seq<Byte>)
    requires IsBox(newBox) && OpenEnded(data, Box(142, 8, 8))
    ensures ChildrenAfter(data, [Box(142, 8, 8)], 150, newBox) == [Box(142, 8 + |newBox|, 8)]
  {
    hide IsBox, OpenEnded;
  }

  /** So a patch that splices its box in there is not read back; such a file
      exists. */
  lemma OpenChildIsNotReadBack(h: int, v: int)
    requires IsU32(h) && IsU32(v)
    ensures var data := Movie(OpenEntryContent());
      && EndsWithOpenChild(data) && Patched(data, AVC1, h, v).Fine?
      && !ReadsBack(Patched(data, AVC1, h, v).value, AVC1, h, v)
  {
    OpenMovie();
    hide Movie, OpenEntryContent, EndsWithOpenChild, Patched, ReadsBack;
    OpenChildLosesPatch(Movie(OpenEntryContent()), h, v);
  }

  lemma OpenChildLosesPatch(data: seq<Byte>, h: int, v: int)
    requires EndsWithOpenChild(data) && IsU32(h) && IsU32(v)
    ensures Patched(data, AVC1, h, v).Fine? && !ReadsBack(Patched(data, AVC1, h, v).value, AVC1, h, v)
  {
    OpenChildParses(data, 142);
    hide EntryPath, Spliced, MakeBox, PaspPayload, ReadsBack, Children, ChildIn, OpenEnded, OpenChild;
    SmallFileSplices(data, AVC1, MakeBox(PASP, PaspPayload(h, v)).value);
    PatchReadsBackIff(data, AVC1, h, v);
  }

  lemma PaspCode()
    ensures PASP == [0x70, 0x61, 0x73, 0x70]
  {
    assert PASP == [PASP[0], PASP[1], PASP[2], PASP[3]];
  }

  lemma LongPaspParses(data: seq<Byte>, pos: nat)
    requires pos + 16 <= |data| && data[pos..pos + 16] == LongPasp()
    ensures ParseBoxHeader(data, pos, pos + 16) == Fine(Header(16, PASP, 16))
  {
    PaspCode();
    SliceHeaderParses(data, pos, 16);
    hide PASP;
    var s := LongPasp();
    assert s[0..4] == U32Bytes(1) && s[4..8] == PASP && s[8..16] == U64Bytes(16);
    hide LongPasp, U32At, U64At, U32Bytes, U64Bytes;
    U32ReadsBack(s, 0, 1);
    U64ReadsBack(s, 8, 16);
  }

}
