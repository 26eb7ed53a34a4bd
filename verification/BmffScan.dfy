/** The bounded scan of an ISO base media file: which boxes it visits, what it
    reads from them, and where it stops. */
module BmffScan {
  import opened MachineInts
  import opened Options
  import opened BigEndian
  import opened IsoBoxes

  // ---------------------------------------------------------------------
  // What the scan records.
  // ---------------------------------------------------------------------

  datatype EditListEntry = EditListEntry(segmentDuration: int, mediaTime: int, mediaRateInteger: int, mediaRateFraction: int)

  datatype Track = Track(trackId: int, mediaTimescale: int, edits: seq<EditListEntry>)

  const NEW_TRACK := Track(0, 0, [])

  datatype BoxRecord = BoxRecord(boxType: string, offset: int, size: int)

  datatype ScanResult = ScanResult(
    topLevel: seq<BoxRecord>, majorBrand: seq<Byte>, minorVersion: int, compatibleBrands: seq<seq<Byte>>,
    movieTimescale: int, tracks: seq<Track>, moofCount: int, hasSidx: bool)

  const EMPTY_RESULT := ScanResult([], [], 0, [], 0, [], 0, false)

  /** The result so far, and the track being filled. */
  datatype State = State(result: ScanResult, track: Track)

  /** How a walk or a visit ended: whether it went through, where it stopped
      otherwise, and what it recorded. */
  datatype Outgoing = Outgoing(ok: bool, stop: nat, state: State)

  /** The containers the scan descends into. */
  datatype Level = FileLevel | MoovLevel | TrakLevel | MdiaLevel | EdtsLevel

  function IsType(t: seq<Byte>, name: string): bool
    requires |name| == 4 && forall i :: 0 <= i < 4 ==> name[i] < 128 as char
  {
    |t| == 4 && forall i :: 0 <= i < 4 ==> t[i] == name[i] as int
  }

  /** The name of a tracked top-level box type. */
  function TrackedName(t: seq<Byte>): Option<string> {
    if IsType(t, "ftyp") then Some("ftyp") else if IsType(t, "moov") then Some("moov")
    else if IsType(t, "mdat") then Some("mdat") else if IsType(t, "moof") then Some("moof")
    else if IsType(t, "sidx") then Some("sidx") else if IsType(t, "free") then Some("free") else None
  }

  // ---------------------------------------------------------------------
  // Leaf boxes, as functions of the bytes of their content [c, e).
  // ---------------------------------------------------------------------

  function Signed(v: int, width: int): int
    requires width > 0
  {
    if v < width / 2 then v else v - width
  }

  /** The 32-bit field after a version-dependent prefix. */
  function VersionedField(data: seq<Byte>, c: nat, e: nat): (r: Option<int>)
    requires c <= e <= |data|
  {
    if e - c < 4 then None
    else
      var skip := if data[c] == 1 then 16 else 8;
      if e - c < 4 + skip + 4 then None else Some(U32At(data, c + 4 + skip))
  }

  /** The n four-byte brands from at on. */
  function Brands(data: seq<Byte>, at: nat, n: nat): (r: seq<seq<Byte>>)
    requires at + 4 * n <= |data|
    ensures |r| == n
  {
    seq(n, i requires 0 <= i < n => data[at + 4 * i..at + 4 * i + 4])
  }

  function Ftyp(data: seq<Byte>, c: nat, e: nat, r: ScanResult): Option<ScanResult>
    requires c <= e <= |data|
  {
    if e - c < 8 then None
    else Some(r.(majorBrand := data[c..c + 4], minorVersion := U32At(data, c + 4),
                 compatibleBrands := r.compatibleBrands + Brands(data, c + 8, (e - c - 8) / 4)))
  }

  function EntrySize(version: Byte): int {
    if version == 1 then 20 else 12
  }

  function EntryAt(data: seq<Byte>, at: nat, version: Byte): EditListEntry
    requires at + EntrySize(version) <= |data|
  {
    if version == 1 then
      EditListEntry(Signed(U64At(data, at), 0x1_0000_0000_0000_0000), Signed(U64At(data, at + 8), 0x1_0000_0000_0000_0000),
                    Signed(U16At(data, at + 16), 0x1_0000), Signed(U16At(data, at + 18), 0x1_0000))
    else
      EditListEntry(Signed(U32At(data, at), 0x1_0000_0000), Signed(U32At(data, at + 4), 0x1_0000_0000),
                    Signed(U16At(data, at + 8), 0x1_0000), Signed(U16At(data, at + 10), 0x1_0000))
  }

  /** The n entries from at on. */
  function Entries(data: seq<Byte>, at: nat, version: Byte, n: nat): (r: seq<EditListEntry>)
    requires at + n * EntrySize(version) <= |data|
    ensures |r| == n
  {
    seq(n, i requires 0 <= i < n => (EntryFits(at, version, i, n); EntryAt(data, at + i * EntrySize(version), version)))
  }

  lemma EntryFits(at: nat, version: Byte, i: nat, n: nat)
    requires i < n
    ensures 0 <= i * EntrySize(version) && at + i * EntrySize(version) + EntrySize(version) <= at + n * EntrySize(version)
  {}

  /** An edit list is read only when its declared entries fit in the box. */
  function Elst(data: seq<Byte>, c: nat, e: nat, t: Track): Option<Track>
    requires c <= e <= |data|
  {
    if e - c < 8 then None
    else
      var version, count := data[c], U32At(data, c + 4);
      if count * EntrySize(version) > e - c - 8 then None
      else Some(t.(edits := t.edits + Entries(data, c + 8, version, count)))
  }

  // ---------------------------------------------------------------------
  // The walk, as a function of the bytes.
  // ---------------------------------------------------------------------

  /** What the scan does with one box of the given level: [c, e) is its
      content, start its header. */
  function Visit(level: Level, data: seq<Byte>, t: seq<Byte>, b: Box, s: State): (r: Outgoing)
    requires b.headerLen >= 8 && b.headerLen <= b.size && b.ContentEnd() <= |data|
    decreases b.size, 0
  {
    var c, e := b.ContentStart(), b.ContentEnd();
    match level
    case FileLevel =>
      var name := TrackedName(t);
      var s1 := if name.Some? then s.(result := s.result.(topLevel := s.result.topLevel + [BoxRecord(name.value, b.start, b.size)]))
                else s;
      if IsType(t, "ftyp") then
        var f := Ftyp(data, c, e, s1.result);
        if f.None? then Outgoing(false, c, s1) else Outgoing(true, 0, s1.(result := f.value))
      else if IsType(t, "moov") then Walk(MoovLevel, data, c, e, s1)
      else if IsType(t, "moof") then Outgoing(true, 0, s1.(result := s1.result.(moofCount := s1.result.moofCount + 1)))
      else if IsType(t, "sidx") then Outgoing(true, 0, s1.(result := s1.result.(hasSidx := true)))
      else Outgoing(true, 0, s1)
    case MoovLevel =>
      if IsType(t, "mvhd") then
        var v := VersionedField(data, c, e);
        if v.None? then Outgoing(false, c, s) else Outgoing(true, 0, s.(result := s.result.(movieTimescale := v.value)))
      else if IsType(t, "trak") then
        var w := Walk(TrakLevel, data, c, e, s.(track := NEW_TRACK));
        if !w.ok then w else w.(state := w.state.(result := w.state.result.(tracks := w.state.result.tracks + [w.state.track])))
      else Outgoing(true, 0, s)
    case TrakLevel =>
      if IsType(t, "tkhd") then
        var v := VersionedField(data, c, e);
        if v.None? then Outgoing(false, c, s) else Outgoing(true, 0, s.(track := s.track.(trackId := v.value)))
      else if IsType(t, "mdia") then Walk(MdiaLevel, data, c, e, s)
      else if IsType(t, "edts") then Walk(EdtsLevel, data, c, e, s)
      else Outgoing(true, 0, s)
    case MdiaLevel =>
      if IsType(t, "mdhd") then
        var v := VersionedField(data, c, e);
        if v.None? then Outgoing(false, c, s) else Outgoing(true, 0, s.(track := s.track.(mediaTimescale := v.value)))
      else Outgoing(true, 0, s)
    case EdtsLevel =>
      if IsType(t, "elst") then
        var l := Elst(data, c, e, s.track);
        if l.None? then Outgoing(false, c, s) else Outgoing(true, 0, s.(track := l.value))
      else Outgoing(true, 0, s)
  }

  /** The boxes of [pos, end) in order, until one is malformed or refused. */
  function Walk(level: Level, data: seq<Byte>, pos: nat, end: nat, s: State): (r: Outgoing)
    requires pos <= end <= |data|
    decreases end - pos, 1
  {
    if pos >= end then Outgoing(true, 0, s)
    else
      var h := ParseBoxHeader(data, pos, end);
      if h.FixtureError? then Outgoing(false, pos, s)
      else
        var v := Visit(level, data, h.value.boxType, Box(pos, h.value.size, h.value.headerLen), s);
        if !v.ok then v else Walk(level, data, pos + h.value.size, end, v.state)
  }

  // ---------------------------------------------------------------------
  // The reader.
  // ---------------------------------------------------------------------

  /** A file that is only ever read within its length. */
  class BoundedReader {
    const data: seq<Byte>
    var position: nat

    /** The length is a 64-bit signed offset. */
    ghost predicate Valid()
      reads this
    {
      |data| <= 0x7FFF_FFFF_FFFF_FFFF && position <= |data|
    }

    constructor (data: seq<Byte>)
      requires |data| <= 0x7FFF_FFFF_FFFF_FFFF
      ensures Valid() && this.data == data
    {
      this.data, position := data, 0;
    }

    method Seek(offset: int) returns (ok: bool)
      requires Valid()
      modifies this
      ensures Valid() && ok == (0 <= offset <= |data|)
      ensures position == if ok then offset else old(position)
    {
      if offset < 0 || offset > |data| {
        return false;
      }
      position := offset;
      return true;
    }

    method Read(n: int) returns (r: Option<seq<Byte>>)
      requires Valid() && FitsInt64(n)
      modifies this
      ensures Valid()
      ensures r.Some? <==> n >= 0 && old(position) + n <= |data|
      ensures r.Some? ==> r.value == data[old(position)..old(position) + n] && position == old(position) + n
      ensures r.None? ==> position == old(position)
    {
      if n < 0 {
        return None;
      }
      var newPosition := CheckedAdd(position, n);
      if newPosition.None? || newPosition.value > |data| {
        return None;
      }
      r := Some(data[position..position + n]);
      position := newPosition.value;
    }
  }

  method ReadVersionedField(reader: BoundedReader, c: nat, e: nat) returns (r: Option<int>)
    requires reader.Valid() && c <= e <= |reader.data|
    modifies reader
    ensures reader.Valid() && r == VersionedField(reader.data, c, e)
  {
    var contentLen := e - c;
    if contentLen < 4 {
      return None;
    }
    var _ := reader.Seek(c);
    var verflags := reader.Read(4);
    var skip := if verflags.value[0] == 1 then 16 else 8;
    var needed := 4 + skip + 4;
    if contentLen < needed {
      return None;
    }
    var _ := reader.Seek(c + 4 + skip);
    var field := reader.Read(4);
    U32OfSlice(reader.data, c + 4 + skip, 4, 0);
    return Some(U32At(field.value, 0));
  }

  method ParseFtyp(reader: BoundedReader, c: nat, e: nat, result: ScanResult) returns (r: Option<ScanResult>)
    requires reader.Valid() && c <= e <= |reader.data|
    modifies reader
    ensures reader.Valid() && r == Ftyp(reader.data, c, e, result)
  {
    var contentLen := e - c;
    if contentLen < 8 {
      return None;
    }
    var _ := reader.Seek(c);
    var head := reader.Read(8);
    ghost var data := reader.data;
    U32OfSlice(data, c, 8, 4);
    assert head.value[0..4] == data[c..c + 4];
    var brands: seq<seq<Byte>> := [];
    var remaining := contentLen - 8;
    while remaining >= 4
      invariant reader.Valid() && 0 <= remaining && remaining == contentLen - 8 - 4 * |brands|
      invariant reader.position == c + 8 + 4 * |brands| && c + 8 + 4 * |brands| <= |data|
      invariant brands == Brands(data, c + 8, |brands|)
      decreases remaining
    {
      var brand := reader.Read(4);
      brands := brands + [brand.value];
      remaining := remaining - 4;
    }
    return Some(result.(majorBrand := head.value[0..4], minorVersion := U32At(head.value, 4),
                        compatibleBrands := result.compatibleBrands + brands));
  }

  method ParseEntry(bytes: seq<Byte>, version: Byte) returns (entry: EditListEntry)
    requires |bytes| == EntrySize(version)
    ensures entry == EntryAt(bytes, 0, version)
  {
    if version == 1 {
      entry := EditListEntry(Signed(U64At(bytes, 0), 0x1_0000_0000_0000_0000), Signed(U64At(bytes, 8), 0x1_0000_0000_0000_0000),
                             Signed(U16At(bytes, 16), 0x1_0000), Signed(U16At(bytes, 18), 0x1_0000));
    } else {
      entry := EditListEntry(Signed(U32At(bytes, 0), 0x1_0000_0000), Signed(U32At(bytes, 4), 0x1_0000_0000),
                             Signed(U16At(bytes, 8), 0x1_0000), Signed(U16At(bytes, 10), 0x1_0000));
    }
  }

  lemma EntryOfSlice(data: seq<Byte>, at: nat, version: Byte)
    requires at + EntrySize(version) <= |data|
    ensures EntryAt(data[at..at + EntrySize(version)], 0, version) == EntryAt(data, at, version)
  {
    var n := EntrySize(version);
    if version == 1 {
      U64OfSlice(data, at, n, 0);
      U64OfSlice(data, at, n, 8);
      U16OfSlice(data, at, n, 16);
      U16OfSlice(data, at, n, 18);
    } else {
      U32OfSlice(data, at, n, 0);
      U32OfSlice(data, at, n, 4);
      U16OfSlice(data, at, n, 8);
      U16OfSlice(data, at, n, 10);
    }
    hide U64At, U32At, U16At, Signed;
  }

  method ParseElst(reader: BoundedReader, c: nat, e: nat, track: Track) returns (r: Option<Track>)
    requires reader.Valid() && c <= e <= |reader.data|
    modifies reader
    ensures reader.Valid() && r == Elst(reader.data, c, e, track)
  {
    var contentLen := e - c;
    if contentLen < 8 {
      return None;
    }
    var _ := reader.Seek(c);
    var head := reader.Read(8);
    ghost var data := reader.data;
    U32OfSlice(data, c, 8, 4);
    var version, entryCount := head.value[0], U32At(head.value, 4);
    var entrySize := EntrySize(version);
    var needed := CheckedMul(entryCount, entrySize);
    if needed.None? || needed.value > contentLen - 8 {
      return None;
    }
    var edits := ReadEntries(reader, c + 8, version, entryCount);
    return Some(track.(edits := track.edits + edits));
  }

  method ReadEntries(reader: BoundedReader, at: nat, version: Byte, count: nat) returns (edits: seq<EditListEntry>)
    requires reader.Valid() && reader.position == at && at + count * EntrySize(version) <= |reader.data|
    modifies reader
    ensures reader.Valid() && edits == Entries(reader.data, at, version, count)
  {
    edits := [];
    NoEntries(reader.data, at, version);
    hide *;
    for i := 0 to count
      invariant reader.Valid() && reader.position == EntryPos(at, version, i)
      invariant EntryPos(at, version, i) <= |reader.data|
      invariant at + i * EntrySize(version) <= |reader.data| && edits == Entries(reader.data, at, version, i)
    {
      EntryPositions(at, version, i, count);
      var entrySize := EntrySize(version);
      var bytes := reader.Read(entrySize);
      EntryOfSlice(reader.data, EntryPos(at, version, i), version);
      var entry := ParseEntry(bytes.value, version);
      MoreEntries(reader.data, at, version, i);
      edits := edits + [entry];
    }
  }

  function EntryPos(at: nat, version: Byte, i: nat): (p: nat) {
    at + i * EntrySize(version)
  }

  lemma EntryPositions(at: nat, version: Byte, i: nat, n: nat)
    requires i < n
    ensures EntryPos(at, version, i) == at + i * EntrySize(version)
    ensures EntryPos(at, version, i + 1) == EntryPos(at, version, i) + EntrySize(version) == at + (i + 1) * EntrySize(version)
    ensures EntryPos(at, version, i + 1) <= at + n * EntrySize(version)
    ensures FitsInt64(EntrySize(version)) && EntrySize(version) >= 0
  {}

  lemma NoEntries(data: seq<Byte>, at: nat, version: Byte)
    requires at <= |data|
    ensures EntryPos(at, version, 0) == at && 0 * EntrySize(version) == 0
    ensures Entries(data, at, version, 0) == []
  {}

  lemma MoreEntries(data: seq<Byte>, at: nat, version: Byte, i: nat)
    requires at + (i + 1) * EntrySize(version) <= |data|
    ensures at + i * EntrySize(version) + EntrySize(version) <= |data|
    ensures Entries(data, at, version, i + 1) == Entries(data, at, version, i) + [EntryAt(data, at + i * EntrySize(version), version)]
  {
    hide EntryAt;
  }

  // ---------------------------------------------------------------------
  // The walk.
  // ---------------------------------------------------------------------

  method ReadSizeAndType(reader: BoundedReader, offset: nat) returns (size32: int, boxType: seq<Byte>)
    requires reader.Valid() && offset + 8 <= |reader.data|
    modifies reader
    ensures reader.Valid() && reader.position == offset + 8
    ensures size32 == U32At(reader.data, offset) && boxType == reader.data[offset + 4..offset + 8]
  {
    var _ := reader.Seek(offset);
    var header := reader.Read(8);
    U32OfSlice(reader.data, offset, 8, 0);
    TypeOfSlice(reader.data, offset, 8);
    return U32At(header.value, 0), header.value[4..8];
  }

  method ReadLargeSize(reader: BoundedReader) returns (size64: int)
    requires reader.Valid() && reader.position + 8 <= |reader.data|
    modifies reader
    ensures reader.Valid() && size64 == U64At(reader.data, old(reader.position))
  {
    U64OfSlice(reader.data, reader.position, 8, 0);
    var large := reader.Read(8);
    return U64At(large.value, 0);
  }

  /** The header at offset, read field by field; nothing when it is truncated,
      too small for itself or runs past the range. */
  method ReadHeader(reader: BoundedReader, offset: nat, rangeEnd: nat) returns (h: Option<Header>)
    requires reader.Valid() && offset < rangeEnd <= |reader.data|
    modifies reader
    ensures reader.Valid()
    ensures var spec := ParseBoxHeader(reader.data, offset, rangeEnd);
      h == if spec.FixtureError? then None else Some(spec.value)
  {
    var headerProbeEnd := CheckedAdd(offset, 8);
    if headerProbeEnd.None? || headerProbeEnd.value > rangeEnd {
      HeaderCases(reader.data, offset, rangeEnd);
      return None;
    }
    HeaderCases(reader.data, offset, rangeEnd);
    hide U32At, U64At, ParseBoxHeader;
    var size32, boxType := ReadSizeAndType(reader, offset);
    var headerSize, totalSize := 8, 0;
    if size32 == 1 {
      var largeProbeEnd := CheckedAdd(offset, 16);
      if largeProbeEnd.None? || largeProbeEnd.value > rangeEnd {
        return None;
      }
      var size64 := ReadLargeSize(reader);
      if size64 > INT64_MAX {
        return None;
      }
      totalSize, headerSize := size64, 16;
    } else if size32 == 0 {
      totalSize := rangeEnd - offset;
    } else {
      totalSize := size32;
    }
    if totalSize < headerSize {
      return None;
    }
    var endOffset := CheckedAdd(offset, totalSize);
    if endOffset.None? {
      return None;
    }
    if endOffset.value > rangeEnd {
      return None;
    }
    return Some(Header(totalSize, boxType, headerSize));
  }

  lemma HeaderCases(data: seq<Byte>, pos: nat, end: nat)
    requires end <= |data|
    ensures pos + 8 > end ==> ParseBoxHeader(data, pos, end) == FixtureError
    ensures pos + 8 <= end && U32At(data, pos) == 1 && pos + 16 > end ==> ParseBoxHeader(data, pos, end) == FixtureError
    ensures pos + 8 <= end && (U32At(data, pos) == 1 ==> pos + 16 <= end) ==>
      var declared := U32At(data, pos);
      var size := if declared == 1 then U64At(data, pos + 8) else if declared == 0 then end - pos else declared;
      var headerLen := if declared == 1 then 16 else 8;
      ParseBoxHeader(data, pos, end)
      == if size < headerLen || pos + size > end then FixtureError else Fine(Header(size, data[pos + 4..pos + 8], headerLen))
  {}

  /** Visits the boxes of a range in order. */
  method WalkBoxes(level: Level, reader: BoundedReader, rangeStart: nat, rangeEnd: nat, s: State) returns (r: Outgoing)
    requires reader.Valid() && rangeStart <= rangeEnd <= |reader.data|
    modifies reader
    ensures reader.Valid() && r == Walk(level, reader.data, rangeStart, rangeEnd, s)
    decreases rangeEnd - rangeStart, 1
  {
    hide Visit, ParseBoxHeader;
    var offset, state := rangeStart, s;
    while offset < rangeEnd
      invariant reader.Valid() && rangeStart <= offset <= rangeEnd
      invariant Walk(level, reader.data, rangeStart, rangeEnd, s) == Walk(level, reader.data, offset, rangeEnd, state)
      decreases rangeEnd - offset
    {
      var h := ReadHeader(reader, offset, rangeEnd);
      if h.None? {
        return Outgoing(false, offset, state);
      }
      var v := VisitBox(level, reader, h.value.boxType, Box(offset, h.value.size, h.value.headerLen), state);
      if !v.ok {
        return v;
      }
      state := v.state;
      offset := offset + h.value.size;
    }
    return Outgoing(true, 0, state);
  }

  method VisitBox(level: Level, reader: BoundedReader, t: seq<Byte>, b: Box, s: State) returns (r: Outgoing)
    requires reader.Valid() && 8 <= b.headerLen <= b.size && b.ContentEnd() <= |reader.data|
    modifies reader
    ensures reader.Valid() && r == Visit(level, reader.data, t, b, s)
    decreases b.size, 0
  {
    hide VersionedField, Ftyp, Elst, Walk;
    match level {
      case FileLevel => r := VisitTopLevel(reader, t, b, s);
      case MoovLevel => r := VisitInMoov(reader, t, b, s);
      case TrakLevel => r := VisitInTrak(reader, t, b, s);
      case MdiaLevel =>
        r := Outgoing(true, 0, s);
        if IsType(t, "mdhd") {
          var v := ReadVersionedField(reader, b.ContentStart(), b.ContentEnd());
          if v.None? {
            return Outgoing(false, b.ContentStart(), s);
          }
          r := Outgoing(true, 0, s.(track := s.track.(mediaTimescale := v.value)));
        }
      case EdtsLevel =>
        r := Outgoing(true, 0, s);
        if IsType(t, "elst") {
          var l := ParseElst(reader, b.ContentStart(), b.ContentEnd(), s.track);
          if l.None? {
            return Outgoing(false, b.ContentStart(), s);
          }
          r := Outgoing(true, 0, s.(track := l.value));
        }
    }
  }

  method VisitTopLevel(reader: BoundedReader, t: seq<Byte>, b: Box, s: State) returns (r: Outgoing)
    requires reader.Valid() && 8 <= b.headerLen <= b.size && b.ContentEnd() <= |reader.data|
    modifies reader
    ensures reader.Valid() && r == Visit(FileLevel, reader.data, t, b, s)
    decreases b.size, -1
  {
    hide VersionedField, Ftyp, Elst, Walk;
    var state := s;
    var name := TrackedName(t);
    if name.Some? {
      state := state.(result := state.result.(topLevel := state.result.topLevel + [BoxRecord(name.value, b.start, b.size)]));
    }
    if IsType(t, "ftyp") {
      var f := ParseFtyp(reader, b.ContentStart(), b.ContentEnd(), state.result);
      if f.None? {
        return Outgoing(false, b.ContentStart(), state);
      }
      return Outgoing(true, 0, state.(result := f.value));
    }
    if IsType(t, "moov") {
      r := WalkBoxes(MoovLevel, reader, b.ContentStart(), b.ContentEnd(), state);
      return;
    }
    if IsType(t, "moof") {
      state := state.(result := state.result.(moofCount := state.result.moofCount + 1));
    } else if IsType(t, "sidx") {
      state := state.(result := state.result.(hasSidx := true));
    }
    return Outgoing(true, 0, state);
  }

  method VisitInMoov(reader: BoundedReader, t: seq<Byte>, b: Box, s: State) returns (r: Outgoing)
    requires reader.Valid() && 8 <= b.headerLen <= b.size && b.ContentEnd() <= |reader.data|
    modifies reader
    ensures reader.Valid() && r == Visit(MoovLevel, reader.data, t, b, s)
    decreases b.size, -1
  {
    hide VersionedField, Ftyp, Elst, Walk;
    if IsType(t, "mvhd") {
      var v := ReadVersionedField(reader, b.ContentStart(), b.ContentEnd());
      if v.None? {
        return Outgoing(false, b.ContentStart(), s);
      }
      return Outgoing(true, 0, s.(result := s.result.(movieTimescale := v.value)));
    }
    if IsType(t, "trak") {
      var w := WalkBoxes(TrakLevel, reader, b.ContentStart(), b.ContentEnd(), s.(track := NEW_TRACK));
      if !w.ok {
        return w;
      }
      return w.(state := w.state.(result := w.state.result.(tracks := w.state.result.tracks + [w.state.track])));
    }
    return Outgoing(true, 0, s);
  }

  method VisitInTrak(reader: BoundedReader, t: seq<Byte>, b: Box, s: State) returns (r: Outgoing)
    requires reader.Valid() && 8 <= b.headerLen <= b.size && b.ContentEnd() <= |reader.data|
    modifies reader
    ensures reader.Valid() && r == Visit(TrakLevel, reader.data, t, b, s)
    decreases b.size, -1
  {
    hide VersionedField, Ftyp, Elst, Walk;
    if IsType(t, "tkhd") {
      var v := ReadVersionedField(reader, b.ContentStart(), b.ContentEnd());
      if v.None? {
        return Outgoing(false, b.ContentStart(), s);
      }
      return Outgoing(true, 0, s.(track := s.track.(trackId := v.value)));
    }
    if IsType(t, "mdia") {
      r := WalkBoxes(MdiaLevel, reader, b.ContentStart(), b.ContentEnd(), s);
      return;
    }
    if IsType(t, "edts") {
      r := WalkBoxes(EdtsLevel, reader, b.ContentStart(), b.ContentEnd(), s);
      return;
    }
    return Outgoing(true, 0, s);
  }

  /** The whole file: what was recorded, whether the file was accounted for to
      its last byte, and where the scan stopped otherwise. */
  method RunBmffScan(data: seq<Byte>) returns (result: ScanResult, complete: bool, stopOffset: nat)
    requires |data| <= 0x7FFF_FFFF_FFFF_FFFF
    ensures var w := Walk(FileLevel, data, 0, |data|, State(EMPTY_RESULT, NEW_TRACK));
      result == w.state.result && complete == w.ok && stopOffset == if w.ok then 0 else w.stop
    ensures complete ==>
      var top := Children(data, 0, |data|); top.Fine? && Inside(data, top.value) && result == Recorded(data, top.value)
  {
    var reader := new BoundedReader(data);
    var w := WalkBoxes(FileLevel, reader, 0, |data|, State(EMPTY_RESULT, NEW_TRACK));
    if w.ok {
      CompleteScanIsRecorded(data);
    }
    return w.state.result, w.ok, if w.ok then 0 else w.stop;
  }

  // ---------------------------------------------------------------------
  // What a walk means.
  // ---------------------------------------------------------------------

  predicate Inside(data: seq<Byte>, boxes: seq<Box>) {
    forall i :: 0 <= i < |boxes| ==> 8 <= boxes[i].headerLen <= boxes[i].size && boxes[i].start + boxes[i].size <= |data|
  }

  function BoxType(data: seq<Byte>, b: Box): seq<Byte>
    requires b.start + 8 <= |data|
  {
    data[b.start + 4..b.start + 8]
  }

  /** The boxes of a list are visited one after the other, all accepted. */
  predicate AllAccepted(level: Level, data: seq<Byte>, boxes: seq<Box>, s: State)
    requires Inside(data, boxes)
  {
    boxes == [] ||
    var v := Visit(level, data, BoxType(data, boxes[0]), boxes[0], s);
    v.ok && AllAccepted(level, data, boxes[1..], v.state)
  }

  lemma {:induction false} ChildrenInside(data: seq<Byte>, pos: nat, end: nat)
    requires pos <= end <= |data| && Children(data, pos, end).Fine?
    ensures Inside(data, Children(data, pos, end).value)
    decreases end - pos
  {
    if pos < end {
      ChildrenHead(data, pos, end);
      var h := ParseBoxHeader(data, pos, end).value;
      ChildrenInside(data, pos + h.size, end);
      var rest := Children(data, pos + h.size, end).value;
      hide Children, ParseBoxHeader;
      assert forall i :: 1 <= i < |rest| + 1 ==> ([Box(pos, h.size, h.headerLen)] + rest)[i] == rest[i - 1];
    }
  }

  /** A walk goes through exactly when the range splits into consecutive
      well-formed boxes, each of which is accepted. */
  lemma {:induction false} WalkSucceedsIff(level: Level, data: seq<Byte>, pos: nat, end: nat, s: State)
    requires pos <= end <= |data|
    ensures Children(data, pos, end).Fine? ==> Inside(data, Children(data, pos, end).value)
    ensures Walk(level, data, pos, end, s).ok
       <==> Children(data, pos, end).Fine? && AllAccepted(level, data, Children(data, pos, end).value, s)
    decreases end - pos
  {
    hide *;
    if pos == end {
      EmptyWalk(level, data, pos, s);
    } else if ParseBoxHeader(data, pos, end).FixtureError? {
      BadHeader(level, data, pos, end, s);
    } else {
      WalkHead(level, data, pos, end, s);
      var h := ParseBoxHeader(data, pos, end).value;
      var b := Box(pos, h.size, h.headerLen);
      WalkSucceedsIff(level, data, pos + h.size, end, Visit(level, data, h.boxType, b, s).state);
      if Children(data, pos + h.size, end).Fine? {
        AcceptedHead(level, data, b, Children(data, pos + h.size, end).value, s);
        ChildrenCons(data, pos, end, h, Children(data, pos + h.size, end).value);
      } else {
        ChildrenFail(data, pos, end);
      }
    }
  }

  lemma EmptyWalk(level: Level, data: seq<Byte>, end: nat, s: State)
    requires end <= |data|
    ensures Walk(level, data, end, end, s) == Outgoing(true, 0, s) && Children(data, end, end) == Fine([]) && Inside(data, []) && AllAccepted(level, data, [], s)
  {}

  lemma BadHeader(level: Level, data: seq<Byte>, pos: nat, end: nat, s: State)
    requires pos < end <= |data| && ParseBoxHeader(data, pos, end).FixtureError?
    ensures Walk(level, data, pos, end, s) == Outgoing(false, pos, s) && Children(data, pos, end).FixtureError?
  {}

  lemma ChildrenFail(data: seq<Byte>, pos: nat, end: nat)
    requires pos < end <= |data| && ParseBoxHeader(data, pos, end).Fine?
    requires Children(data, pos + ParseBoxHeader(data, pos, end).value.size, end).FixtureError?
    ensures Children(data, pos, end).FixtureError?
  {}

  lemma WalkHead(level: Level, data: seq<Byte>, pos: nat, end: nat, s: State)
    requires pos < end <= |data| && ParseBoxHeader(data, pos, end).Fine?
    ensures var h := ParseBoxHeader(data, pos, end).value;
      var b := Box(pos, h.size, h.headerLen);
      && 8 <= h.headerLen <= h.size && pos + h.size <= end && b.ContentEnd() <= |data| && h.boxType == BoxType(data, b)
      && var v := Visit(level, data, h.boxType, b, s);
      Walk(level, data, pos, end, s) == if v.ok then Walk(level, data, pos + h.size, end, v.state) else v
  {
    hide Visit;
  }

  lemma AcceptedHead(level: Level, data: seq<Byte>, b: Box, rest: seq<Box>, s: State)
    requires 8 <= b.headerLen <= b.size && b.ContentEnd() <= |data| && Inside(data, rest)
    ensures Inside(data, [b] + rest)
    ensures var v := Visit(level, data, BoxType(data, b), b, s);
      AllAccepted(level, data, [b] + rest, s) <==> v.ok && AllAccepted(level, data, rest, v.state)
  {
    hide Visit;
    assert ([b] + rest)[1..] == rest;
    assert forall i :: 1 <= i < |rest| + 1 ==> ([b] + rest)[i] == rest[i - 1];
  }

  // ---------------------------------------------------------------------
  // What is recorded, and from where.
  // ---------------------------------------------------------------------

  /** The part of the result that only top-level boxes change. */
  predicate SameTopLevel(a: State, b: State) {
    && a.result.topLevel == b.result.topLevel && a.result.moofCount == b.result.moofCount
    && a.result.hasSidx == b.result.hasSidx
  }

  lemma {:induction false} NestedWalkKeepsTopLevel(level: Level, data: seq<Byte>, pos: nat, end: nat, s: State)
    requires level != FileLevel && pos <= end <= |data|
    ensures SameTopLevel(s, Walk(level, data, pos, end, s).state)
    decreases end - pos, 1
  {
    hide Visit, ParseBoxHeader, Walk, AllAccepted;
    if pos == end {
      EmptyWalk(level, data, end, s);
    } else if ParseBoxHeader(data, pos, end).FixtureError? {
      BadHeader(level, data, pos, end, s);
    } else {
      WalkHead(level, data, pos, end, s);
      var h := ParseBoxHeader(data, pos, end).value;
      var b := Box(pos, h.size, h.headerLen);
      NestedVisitKeepsTopLevel(level, data, h.boxType, b, s);
      NestedWalkKeepsTopLevel(level, data, pos + h.size, end, Visit(level, data, h.boxType, b, s).state);
    }
  }

  lemma {:induction false} NestedVisitKeepsTopLevel(level: Level, data: seq<Byte>, t: seq<Byte>, b: Box, s: State)
    requires level != FileLevel && 8 <= b.headerLen <= b.size && b.ContentEnd() <= |data|
    ensures SameTopLevel(s, Visit(level, data, t, b, s).state)
    decreases b.size, 0
  {
    var c, e := b.ContentStart(), b.ContentEnd();
    hide VersionedField, Elst, Walk;
    if level == MoovLevel && IsType(t, "trak") {
      NestedWalkKeepsTopLevel(TrakLevel, data, c, e, s.(track := NEW_TRACK));
    } else if level == TrakLevel && IsType(t, "mdia") {
      NestedWalkKeepsTopLevel(MdiaLevel, data, c, e, s);
    } else if level == TrakLevel && IsType(t, "edts") {
      NestedWalkKeepsTopLevel(EdtsLevel, data, c, e, s);
    }
  }

  /** The records of the tracked boxes, in order. */
  function RecordsOf(data: seq<Byte>, boxes: seq<Box>): seq<BoxRecord>
    requires Inside(data, boxes)
  {
    if boxes == [] then []
    else
      var name := TrackedName(BoxType(data, boxes[0]));
      (if name.Some? then [BoxRecord(name.value, boxes[0].start, boxes[0].size)] else []) + RecordsOf(data, boxes[1..])
  }

  /** How many boxes have a type. */
  function CountOf(data: seq<Byte>, boxes: seq<Box>, name: string): nat
    requires Inside(data, boxes) && |name| == 4 && forall i :: 0 <= i < 4 ==> name[i] < 128 as char
  {
    if boxes == [] then 0
    else (if IsType(BoxType(data, boxes[0]), name) then 1 else 0) + CountOf(data, boxes[1..], name)
  }

  /** A complete scan records every tracked top-level box in order with its true
      extent, counts the fragments and notes a segment index. */
  lemma {:induction false} CompleteScanRecords(data: seq<Byte>, boxes: seq<Box>, s: State, pos: nat)
    requires pos <= |data| && Children(data, pos, |data|) == Fine(boxes) && Walk(FileLevel, data, pos, |data|, s).ok
    ensures Inside(data, boxes)
    ensures var r := Walk(FileLevel, data, pos, |data|, s).state.result;
      && r.topLevel == s.result.topLevel + RecordsOf(data, boxes)
      && r.moofCount == s.result.moofCount + CountOf(data, boxes, "moof")
      && r.hasSidx == (s.result.hasSidx || CountOf(data, boxes, "sidx") > 0)
    decreases |data| - pos
  {
    hide Visit, ParseBoxHeader, Walk, Children, IsType, TrackedName, AllAccepted;
    if pos == |data| {
      EmptyWalk(FileLevel, data, pos, s);
    } else {
      ChildrenHead(data, pos, |data|);
      ChildrenInside(data, pos, |data|);
      WalkHead(FileLevel, data, pos, |data|, s);
      var h := ParseBoxHeader(data, pos, |data|).value;
      var b := Box(pos, h.size, h.headerLen);
      var rest := Children(data, pos + h.size, |data|).value;
      TopLevelVisit(data, h.boxType, b, s);
      CompleteScanRecords(data, rest, Visit(FileLevel, data, h.boxType, b, s).state, pos + h.size);
      RecordsHead(data, b, rest);
    }
  }

  lemma RecordsHead(data: seq<Byte>, b: Box, rest: seq<Box>)
    requires Inside(data, [b] + rest)
    ensures Inside(data, rest) && b.start + 8 <= |data|
    ensures var t := BoxType(data, b);
      && RecordsOf(data, [b] + rest)
         == (if TrackedName(t).Some? then [BoxRecord(TrackedName(t).value, b.start, b.size)] else []) + RecordsOf(data, rest)
      && CountOf(data, [b] + rest, "moof") == (if IsType(t, "moof") then 1 else 0) + CountOf(data, rest, "moof")
      && CountOf(data, [b] + rest, "sidx") == (if IsType(t, "sidx") then 1 else 0) + CountOf(data, rest, "sidx")
  {
    hide IsType, TrackedName;
    var boxes := [b] + rest;
    assert boxes[0] == b && boxes[1..] == rest;
    assert forall i :: 0 <= i < |rest| ==> rest[i] == boxes[i + 1];
  }

  lemma TopLevelVisit(data: seq<Byte>, t: seq<Byte>, b: Box, s: State)
    requires 8 <= b.headerLen <= b.size && b.ContentEnd() <= |data|
    ensures var r := Visit(FileLevel, data, t, b, s).state.result;
      && r.topLevel == s.result.topLevel + (if TrackedName(t).Some? then [BoxRecord(TrackedName(t).value, b.start, b.size)] else [])
      && r.moofCount == s.result.moofCount + (if IsType(t, "moof") then 1 else 0)
      && r.hasSidx == (s.result.hasSidx || IsType(t, "sidx"))
  {
    TypesDiffer(t);
    if IsType(t, "moov") {
      var s1 := s.(result := s.result.(topLevel := s.result.topLevel + [BoxRecord("moov", b.start, b.size)]));
      NestedWalkKeepsTopLevel(MoovLevel, data, b.ContentStart(), b.ContentEnd(), s1);
    }
    hide Ftyp, Walk, IsType;
  }

  lemma TypesDiffer(t: seq<Byte>)
    ensures IsType(t, "ftyp") ==> !IsType(t, "moov") && !IsType(t, "moof") && !IsType(t, "sidx")
    ensures IsType(t, "moov") ==> !IsType(t, "moof") && !IsType(t, "sidx")
    ensures IsType(t, "moof") ==> !IsType(t, "sidx")
  {
    assert "ftyp"[0] == 'f' && "moov"[0] == 'm' && "moof"[0] == 'm' && "sidx"[0] == 's' && "moov"[3] == 'v' && "moof"[3] == 'f';
    assert |t| == 4 ==> t[0] == t[0] && t[3] == t[3];
  }

  // ---------------------------------------------------------------------
  // What a complete scan records, from the box tree alone.
  // ---------------------------------------------------------------------

  /** The types of the boxes the scan reads or descends into. */
  datatype Kind = FtypBox | MoovBox | MvhdBox | TrakBox | TkhdBox | MdiaBox | MdhdBox | EdtsBox | ElstBox

  predicate IsKind(t: seq<Byte>, kind: Kind) {
    match kind
    case FtypBox => IsType(t, "ftyp")
    case MoovBox => IsType(t, "moov")
    case MvhdBox => IsType(t, "mvhd")
    case TrakBox => IsType(t, "trak")
    case TkhdBox => IsType(t, "tkhd")
    case MdiaBox => IsType(t, "mdia")
    case MdhdBox => IsType(t, "mdhd")
    case EdtsBox => IsType(t, "edts")
    case ElstBox => IsType(t, "elst")
  }

  /** The boxes that tile a box's content, when they do. */
  function ContentBoxes(data: seq<Byte>, b: Box): (r: seq<Box>)
    requires 8 <= b.headerLen <= b.size && b.ContentEnd() <= |data|
    ensures Inside(data, r)
  {
    var c := Children(data, b.ContentStart(), b.ContentEnd());
    if c.FixtureError? then []
    else
      ChildrenInside(data, b.ContentStart(), b.ContentEnd());
      c.value
  }

  /** The boxes of one type, in order. */
  function Typed(data: seq<Byte>, boxes: seq<Box>, kind: Kind): (r: seq<Box>)
    requires Inside(data, boxes)
    ensures Inside(data, r)
  {
    if boxes == [] then []
    else
      InsideHead(data, boxes);
      (if IsKind(BoxType(data, boxes[0]), kind) then [boxes[0]] else []) + Typed(data, boxes[1..], kind)
  }

  /** The boxes of one type inside those of another, in order. */
  function Nested(data: seq<Byte>, boxes: seq<Box>, outer: Kind, inner: Kind): (r: seq<Box>)
    requires Inside(data, boxes)
    ensures Inside(data, r)
  {
    if boxes == [] then []
    else
      InsideHead(data, boxes);
      (if IsKind(BoxType(data, boxes[0]), outer) then Typed(data, ContentBoxes(data, boxes[0]), inner) else [])
      + Nested(data, boxes[1..], outer, inner)
  }

  lemma InsideHead(data: seq<Byte>, boxes: seq<Box>)
    requires Inside(data, boxes) && boxes != []
    ensures var b := boxes[0]; 8 <= b.headerLen <= b.size && b.ContentEnd() <= |data| && b.start + 8 <= |data|
    ensures Inside(data, boxes[1..]) && Inside(data, [boxes[0]])
  {}

  function FieldOf(data: seq<Byte>, b: Box): Option<int>
    requires 8 <= b.headerLen <= b.size && b.ContentEnd() <= |data|
  {
    VersionedField(data, b.ContentStart(), b.ContentEnd())
  }

  /** The field of the last box that has one. */
  function LastField(data: seq<Byte>, boxes: seq<Box>, initial: int): int
    requires Inside(data, boxes)
  {
    if boxes == [] then initial
    else
      var f := FieldOf(data, boxes[|boxes| - 1]);
      if f.Some? then f.value else LastField(data, boxes[..|boxes| - 1], initial)
  }

  /** The entries of the edit lists, one list after the other. */
  function EditsOf(data: seq<Byte>, boxes: seq<Box>): seq<EditListEntry>
    requires Inside(data, boxes)
  {
    if boxes == [] then []
    else
      InsideHead(data, boxes);
      var l := Elst(data, boxes[0].ContentStart(), boxes[0].ContentEnd(), NEW_TRACK);
      (if l.Some? then l.value.edits else []) + EditsOf(data, boxes[1..])
  }

  /** A track: the number of its last track header, the timescale of its last
      media header, and the entries of all its edit lists. */
  function TrackOf(data: seq<Byte>, trak: Box): Track
    requires 8 <= trak.headerLen <= trak.size && trak.ContentEnd() <= |data|
  {
    var kids := ContentBoxes(data, trak);
    Track(LastField(data, Typed(data, kids, TkhdBox), 0), LastField(data, Nested(data, kids, MdiaBox, MdhdBox), 0),
          EditsOf(data, Nested(data, kids, EdtsBox, ElstBox)))
  }

  function TracksOf(data: seq<Byte>, traks: seq<Box>): (r: seq<Track>)
    requires Inside(data, traks)
    ensures |r| == |traks|
  {
    seq(|traks|, i requires 0 <= i < |traks| => TrackOf(data, traks[i]))
  }

  /** File types: each one read replaces the major brand and the version and
      adds its compatible brands. */
  function FtypsOf(data: seq<Byte>, ftyps: seq<Box>, r: ScanResult): ScanResult
    requires Inside(data, ftyps)
  {
    if ftyps == [] then r
    else
      InsideHead(data, ftyps);
      var f := Ftyp(data, ftyps[0].ContentStart(), ftyps[0].ContentEnd(), r);
      FtypsOf(data, ftyps[1..], if f.Some? then f.value else r)
  }

  /** Everything recorded of a file with these top-level boxes: their extents,
      the file types, the last movie timescale, one track per track box of each
      movie box in order, the fragments and the segment index. */
  function Recorded(data: seq<Byte>, top: seq<Box>): ScanResult
    requires Inside(data, top)
  {
    FtypsOf(data, Typed(data, top, FtypBox), EMPTY_RESULT).(
      topLevel := RecordsOf(data, top),
      movieTimescale := LastField(data, Nested(data, top, MoovBox, MvhdBox), 0),
      tracks := TracksOf(data, Nested(data, top, MoovBox, TrakBox)),
      moofCount := CountOf(data, top, "moof"),
      hasSidx := CountOf(data, top, "sidx") > 0)
  }

  /** The state after all boxes of a list have been visited. */
  function AfterAll(level: Level, data: seq<Byte>, boxes: seq<Box>, s: State): State
    requires Inside(data, boxes)
  {
    if boxes == [] then s
    else
      InsideHead(data, boxes);
      AfterAll(level, data, boxes[1..], Visit(level, data, BoxType(data, boxes[0]), boxes[0], s).state)
  }

  /** A walk that goes through visits the boxes of its range one by one. */
  lemma {:induction false} WalkVisitsAll(level: Level, data: seq<Byte>, pos: nat, end: nat, s: State)
    requires pos <= end <= |data| && Walk(level, data, pos, end, s).ok
    ensures Children(data, pos, end).Fine? && Inside(data, Children(data, pos, end).value)
    ensures AllAccepted(level, data, Children(data, pos, end).value, s)
    ensures Walk(level, data, pos, end, s).state == AfterAll(level, data, Children(data, pos, end).value, s)
    decreases end - pos
  {
    hide *;
    WalkSucceedsIff(level, data, pos, end, s);
    if pos == end {
      EmptyWalk(level, data, pos, s);
      NothingVisited(level, data, s);
    } else if ParseBoxHeader(data, pos, end).FixtureError? {
      BadHeader(level, data, pos, end, s);
    } else {
      WalkHead(level, data, pos, end, s);
      var h := ParseBoxHeader(data, pos, end).value;
      var b := Box(pos, h.size, h.headerLen);
      var v := Visit(level, data, h.boxType, b, s);
      WalkVisitsAll(level, data, pos + h.size, end, v.state);
      var rest := Children(data, pos + h.size, end).value;
      ChildrenCons(data, pos, end, h, rest);
      AcceptedHead(level, data, b, rest, s);
      OneMoreVisited(level, data, b, rest, s);
    }
  }

  lemma NothingVisited(level: Level, data: seq<Byte>, s: State)
    ensures Inside(data, []) && AfterAll(level, data, [], s) == s
  {}

  lemma OneMoreVisited(level: Level, data: seq<Byte>, b: Box, rest: seq<Box>, s: State)
    requires Inside(data, [b] + rest)
    ensures 8 <= b.headerLen <= b.size && b.ContentEnd() <= |data| && Inside(data, rest)
    ensures AfterAll(level, data, [b] + rest, s) == AfterAll(level, data, rest, Visit(level, data, BoxType(data, b), b, s).state)
  {
    InsideHead(data, [b] + rest);
    hide Visit;
    assert ([b] + rest)[1..] == rest && ([b] + rest)[0] == b;
  }

  lemma {:induction false} LastFieldAppend(data: seq<Byte>, a: seq<Box>, b: seq<Box>, initial: int)
    requires Inside(data, a) && Inside(data, b)
    ensures Inside(data, a + b)
    ensures LastField(data, a + b, initial) == LastField(data, b, LastField(data, a, initial))
    decreases |b|
  {
    hide FieldOf;
    if b == [] {
      assert a + b == a;
    } else {
      LastFieldAppend(data, a, b[..|b| - 1], initial);
      assert (a + b)[..|a + b| - 1] == a + b[..|b| - 1];
    }
  }

  lemma {:induction false} EditsAppend(data: seq<Byte>, a: seq<Box>, b: seq<Box>)
    requires Inside(data, a) && Inside(data, b)
    ensures Inside(data, a + b) && EditsOf(data, a + b) == EditsOf(data, a) + EditsOf(data, b)
  {
    hide Elst;
    if a == [] {
      assert a + b == b;
    } else {
      EditsAppend(data, a[1..], b);
      assert (a + b)[1..] == a[1..] + b;
    }
  }

  lemma InsideAppend(data: seq<Byte>, a: seq<Box>, b: seq<Box>)
    requires Inside(data, a) && Inside(data, b)
    ensures Inside(data, a + b)
  {}

  lemma TrackAt(data: seq<Byte>, boxes: seq<Box>, i: nat)
    requires Inside(data, boxes) && i < |boxes|
    ensures 8 <= boxes[i].headerLen <= boxes[i].size && boxes[i].ContentEnd() <= |data|
    ensures TracksOf(data, boxes)[i] == TrackOf(data, boxes[i])
  {
    hide TrackOf;
  }

  lemma TrackOfEither(data: seq<Byte>, a: seq<Box>, b: seq<Box>, i: nat)
    requires Inside(data, a) && Inside(data, b) && Inside(data, a + b) && i < |a + b|
    ensures TracksOf(data, a + b)[i] == (TracksOf(data, a) + TracksOf(data, b))[i]
  {
    hide *;
    TrackAt(data, a + b, i);
    if i < |a| {
      TrackAt(data, a, i);
    } else {
      TrackAt(data, b, i - |a|);
    }
  }

  lemma TracksAppend(data: seq<Byte>, a: seq<Box>, b: seq<Box>)
    requires Inside(data, a) && Inside(data, b)
    ensures Inside(data, a + b) && TracksOf(data, a + b) == TracksOf(data, a) + TracksOf(data, b)
  {
    InsideAppend(data, a, b);
    hide *;
    forall i: nat | i < |a + b| ensures TracksOf(data, a + b)[i] == (TracksOf(data, a) + TracksOf(data, b))[i] {
      TrackOfEither(data, a, b, i);
    }
  }

  lemma RegroupTracks(a: seq<Track>, b: seq<Track>, c: seq<Track>)
    ensures a + b + c == a + (b + c)
  {}

  lemma RegroupEdits(a: seq<EditListEntry>, b: seq<EditListEntry>, c: seq<EditListEntry>)
    ensures a + b + c == a + (b + c)
  {}

  /** The boxes inside an edit box: the entries of the edit lists are added. */
  lemma {:induction false} EditBoxRecords(data: seq<Byte>, boxes: seq<Box>, s: State)
    requires Inside(data, boxes) && AllAccepted(EdtsLevel, data, boxes, s)
    ensures AfterAll(EdtsLevel, data, boxes, s)
         == s.(track := s.track.(edits := s.track.edits + EditsOf(data, Typed(data, boxes, ElstBox))))
  {
    if boxes == [] {
      assert s.track.edits + [] == s.track.edits;
    } else {
      var b := boxes[0];
      InsideHead(data, boxes);
      var v := Visit(EdtsLevel, data, BoxType(data, b), b, s);
      OneEditChild(data, b, s);
      TypedCons(data, boxes, ElstBox);
      hide Visit, IsType, Typed, EditsOf;
      EditBoxRecords(data, boxes[1..], v.state);
      EditsAppend(data, Typed(data, [b], ElstBox), Typed(data, boxes[1..], ElstBox));
      RegroupEdits(s.track.edits, EditsOf(data, Typed(data, [b], ElstBox)), EditsOf(data, Typed(data, boxes[1..], ElstBox)));
    }
  }

  lemma OneEditChild(data: seq<Byte>, b: Box, s: State)
    requires 8 <= b.headerLen <= b.size && b.ContentEnd() <= |data| && Inside(data, [b])
    requires Visit(EdtsLevel, data, BoxType(data, b), b, s).ok
    ensures Visit(EdtsLevel, data, BoxType(data, b), b, s).state
         == s.(track := s.track.(edits := s.track.edits + EditsOf(data, Typed(data, [b], ElstBox))))
  {
    OfOneBox(data, b, ElstBox);
    EmptyLists(data, s.track);
    OneEditList(data, b);
    EditListAdds(data, b, s.track);
    hide Typed, EditsOf, IsType, Elst, Inside, BoxType;
  }

  lemma EditListAdds(data: seq<Byte>, b: Box, t: Track)
    requires b.headerLen <= b.size && b.ContentEnd() <= |data|
    ensures var l, k := Elst(data, b.ContentStart(), b.ContentEnd(), t), Elst(data, b.ContentStart(), b.ContentEnd(), NEW_TRACK);
      (l.Some? <==> k.Some?) && (l.Some? ==> l.value == t.(edits := t.edits + k.value.edits))
  {
    hide Entries;
  }

  lemma OneEditList(data: seq<Byte>, b: Box)
    requires 8 <= b.headerLen <= b.size && b.ContentEnd() <= |data| && Inside(data, [b])
    ensures var l := Elst(data, b.ContentStart(), b.ContentEnd(), NEW_TRACK);
      l.Some? ==> EditsOf(data, [b]) == l.value.edits
  {
    assert [b][1..] == [] && EditsOf(data, []) == [];
    hide Elst;
  }

  /** The boxes inside a media box: the last media header gives the timescale. */
  lemma {:induction false} MediaBoxRecords(data: seq<Byte>, boxes: seq<Box>, s: State)
    requires Inside(data, boxes) && AllAccepted(MdiaLevel, data, boxes, s)
    ensures AfterAll(MdiaLevel, data, boxes, s)
         == s.(track := s.track.(mediaTimescale := LastField(data, Typed(data, boxes, MdhdBox), s.track.mediaTimescale)))
  {
    if boxes != [] {
      var b := boxes[0];
      InsideHead(data, boxes);
      var v := Visit(MdiaLevel, data, BoxType(data, b), b, s);
      MediaBoxRecords(data, boxes[1..], v.state);
      var found := if IsKind(BoxType(data, b), MdhdBox) then [b] else [];
      LastFieldAppend(data, found, Typed(data, boxes[1..], MdhdBox), s.track.mediaTimescale);
      assert v.state == s.(track := s.track.(mediaTimescale := LastField(data, found, s.track.mediaTimescale))) by {
        hide Typed;
      }
      hide Visit, VersionedField, IsType, LastField;
    }
  }

  /** What the boxes of a track box make of the track. */
  function TrackAfter(data: seq<Byte>, boxes: seq<Box>, t: Track): Track
    requires Inside(data, boxes)
  {
    Track(LastField(data, Typed(data, boxes, TkhdBox), t.trackId),
          LastField(data, Nested(data, boxes, MdiaBox, MdhdBox), t.mediaTimescale),
          t.edits + EditsOf(data, Nested(data, boxes, EdtsBox, ElstBox)))
  }

  /** The boxes inside a track box. */
  lemma {:induction false} TrackBoxRecords(data: seq<Byte>, boxes: seq<Box>, s: State)
    requires Inside(data, boxes) && AllAccepted(TrakLevel, data, boxes, s)
    ensures AfterAll(TrakLevel, data, boxes, s) == s.(track := TrackAfter(data, boxes, s.track))
  {
    if boxes == [] {
      assert s.track.edits + [] == s.track.edits;
    } else {
      var b := boxes[0];
      InsideHead(data, boxes);
      var v := Visit(TrakLevel, data, BoxType(data, b), b, s);
      OneTrackChild(data, b, s);
      TrackBoxRecords(data, boxes[1..], v.state);
      hide Visit, IsType, TrackAfter;
      TrackAfterCons(data, boxes, s.track);
    }
  }

  lemma OneTrackChild(data: seq<Byte>, b: Box, s: State)
    requires 8 <= b.headerLen <= b.size && b.ContentEnd() <= |data| && Inside(data, [b])
    requires Visit(TrakLevel, data, BoxType(data, b), b, s).ok
    ensures Visit(TrakLevel, data, BoxType(data, b), b, s).state == s.(track := TrackAfter(data, [b], s.track))
  {
    TrackTypesDiffer(BoxType(data, b));
    TrackOfOne(data, b, s.track);
    hide Walk, Typed, LastField, EditsOf, IsType, VersionedField, ContentBoxes, Inside, BoxType, TrackAfter;
    if IsKind(BoxType(data, b), MdiaBox) {
      WalkedMedia(data, b, s);
    } else if IsKind(BoxType(data, b), EdtsBox) {
      WalkedEdits(data, b, s);
    }
  }

  /** What a single box of a track box contributes. */
  lemma TrackOfOne(data: seq<Byte>, b: Box, t: Track)
    requires 8 <= b.headerLen <= b.size && b.ContentEnd() <= |data| && Inside(data, [b])
    ensures var kind, after, kids := BoxType(data, b), TrackAfter(data, [b], t), ContentBoxes(data, b);
      if IsKind(kind, TkhdBox) then after == t.(trackId := if FieldOf(data, b).Some? then FieldOf(data, b).value else t.trackId)
      else if IsKind(kind, MdiaBox) then after == t.(mediaTimescale := LastField(data, Typed(data, kids, MdhdBox), t.mediaTimescale))
      else if IsKind(kind, EdtsBox) then after == t.(edits := t.edits + EditsOf(data, Typed(data, kids, ElstBox)))
      else after == t
  {
    TrackTypesDiffer(BoxType(data, b));
    OfOneBox(data, b, TkhdBox);
    NestedInOneBox(data, b, MdiaBox, MdhdBox);
    NestedInOneBox(data, b, EdtsBox, ElstBox);
    EmptyLists(data, t);
    OneField(data, b, t.trackId);
    hide Typed, Nested, LastField, EditsOf, IsType, FieldOf, ContentBoxes, Inside, BoxType;
  }

  lemma WalkedMedia(data: seq<Byte>, b: Box, s: State)
    requires 8 <= b.headerLen <= b.size && b.ContentEnd() <= |data|
    requires Walk(MdiaLevel, data, b.ContentStart(), b.ContentEnd(), s).ok
    ensures Walk(MdiaLevel, data, b.ContentStart(), b.ContentEnd(), s).state
         == s.(track := s.track.(mediaTimescale := LastField(data, Typed(data, ContentBoxes(data, b), MdhdBox), s.track.mediaTimescale)))
  {
    hide Walk, AfterAll, AllAccepted, Typed, LastField;
    WalkVisitsAll(MdiaLevel, data, b.ContentStart(), b.ContentEnd(), s);
    MediaBoxRecords(data, ContentBoxes(data, b), s);
  }

  lemma WalkedEdits(data: seq<Byte>, b: Box, s: State)
    requires 8 <= b.headerLen <= b.size && b.ContentEnd() <= |data|
    requires Walk(EdtsLevel, data, b.ContentStart(), b.ContentEnd(), s).ok
    ensures Walk(EdtsLevel, data, b.ContentStart(), b.ContentEnd(), s).state
         == s.(track := s.track.(edits := s.track.edits + EditsOf(data, Typed(data, ContentBoxes(data, b), ElstBox))))
  {
    hide Walk, AfterAll, AllAccepted, Typed, EditsOf;
    WalkVisitsAll(EdtsLevel, data, b.ContentStart(), b.ContentEnd(), s);
    EditBoxRecords(data, ContentBoxes(data, b), s);
  }

  lemma OneField(data: seq<Byte>, b: Box, initial: int)
    requires 8 <= b.headerLen <= b.size && b.ContentEnd() <= |data| && Inside(data, [b])
    ensures LastField(data, [b], initial) == if FieldOf(data, b).Some? then FieldOf(data, b).value else initial
  {
    hide VersionedField;
    assert [b][..0] == [];
  }

  lemma TrackTypesDiffer(t: seq<Byte>)
    ensures IsKind(t, TkhdBox) ==> !IsKind(t, MdiaBox) && !IsKind(t, EdtsBox)
    ensures IsKind(t, MdiaBox) ==> !IsKind(t, EdtsBox)
  {
    assert "tkhd"[0] == 't' && "mdia"[0] == 'm' && "edts"[0] == 'e';
    assert |t| == 4 ==> t[0] == t[0];
  }

  lemma OfOneBox(data: seq<Byte>, b: Box, kind: Kind)
    requires 8 <= b.headerLen <= b.size && b.ContentEnd() <= |data| && Inside(data, [b])
    ensures Typed(data, [b], kind) == if IsKind(BoxType(data, b), kind) then [b] else []
  {
    assert [b][1..] == [];
    hide IsType;
  }

  lemma NestedInOneBox(data: seq<Byte>, b: Box, outer: Kind, inner: Kind)
    requires 8 <= b.headerLen <= b.size && b.ContentEnd() <= |data| && Inside(data, [b])
    ensures Nested(data, [b], outer, inner) == if IsKind(BoxType(data, b), outer) then Typed(data, ContentBoxes(data, b), inner) else []
  {
    assert [b][1..] == [] && Nested(data, [], outer, inner) == [];
    hide IsType, ContentBoxes, Typed;
  }

  lemma EmptyLists(data: seq<Byte>, t: Track)
    ensures Inside(data, []) && EditsOf(data, []) == [] && t.edits + [] == t.edits
    ensures LastField(data, [], t.trackId) == t.trackId && LastField(data, [], t.mediaTimescale) == t.mediaTimescale
  {}

  lemma TypedCons(data: seq<Byte>, boxes: seq<Box>, kind: Kind)
    requires Inside(data, boxes) && boxes != []
    ensures Inside(data, [boxes[0]]) && Inside(data, boxes[1..])
    ensures Typed(data, boxes, kind) == Typed(data, [boxes[0]], kind) + Typed(data, boxes[1..], kind)
  {
    InsideHead(data, boxes);
    OfOneBox(data, boxes[0], kind);
    hide IsType;
  }

  lemma NestedCons(data: seq<Byte>, boxes: seq<Box>, outer: Kind, inner: Kind)
    requires Inside(data, boxes) && boxes != []
    ensures Inside(data, [boxes[0]]) && Inside(data, boxes[1..])
    ensures Nested(data, boxes, outer, inner) == Nested(data, [boxes[0]], outer, inner) + Nested(data, boxes[1..], outer, inner)
  {
    InsideHead(data, boxes);
    NestedInOneBox(data, boxes[0], outer, inner);
    hide IsType, ContentBoxes, Typed;
  }

  lemma LastTypedCons(data: seq<Byte>, boxes: seq<Box>, kind: Kind, initial: int)
    requires Inside(data, boxes) && boxes != []
    ensures Inside(data, [boxes[0]]) && Inside(data, boxes[1..])
    ensures LastField(data, Typed(data, boxes, kind), initial)
         == LastField(data, Typed(data, boxes[1..], kind), LastField(data, Typed(data, [boxes[0]], kind), initial))
  {
    TypedCons(data, boxes, kind);
    hide Typed, LastField, Inside;
    LastFieldAppend(data, Typed(data, [boxes[0]], kind), Typed(data, boxes[1..], kind), initial);
  }

  lemma LastNestedCons(data: seq<Byte>, boxes: seq<Box>, outer: Kind, inner: Kind, initial: int)
    requires Inside(data, boxes) && boxes != []
    ensures Inside(data, [boxes[0]]) && Inside(data, boxes[1..])
    ensures LastField(data, Nested(data, boxes, outer, inner), initial)
         == LastField(data, Nested(data, boxes[1..], outer, inner), LastField(data, Nested(data, [boxes[0]], outer, inner), initial))
  {
    NestedCons(data, boxes, outer, inner);
    hide Nested, LastField, Inside;
    LastFieldAppend(data, Nested(data, [boxes[0]], outer, inner), Nested(data, boxes[1..], outer, inner), initial);
  }

  lemma EditsNestedCons(data: seq<Byte>, boxes: seq<Box>, before: seq<EditListEntry>)
    requires Inside(data, boxes) && boxes != []
    ensures Inside(data, [boxes[0]]) && Inside(data, boxes[1..])
    ensures before + EditsOf(data, Nested(data, boxes, EdtsBox, ElstBox))
         == before + EditsOf(data, Nested(data, [boxes[0]], EdtsBox, ElstBox)) + EditsOf(data, Nested(data, boxes[1..], EdtsBox, ElstBox))
  {
    NestedCons(data, boxes, EdtsBox, ElstBox);
    hide Nested, EditsOf, Inside;
    EditsAppend(data, Nested(data, [boxes[0]], EdtsBox, ElstBox), Nested(data, boxes[1..], EdtsBox, ElstBox));
    RegroupEdits(before, EditsOf(data, Nested(data, [boxes[0]], EdtsBox, ElstBox)), EditsOf(data, Nested(data, boxes[1..], EdtsBox, ElstBox)));
  }

  lemma TracksNestedCons(data: seq<Byte>, boxes: seq<Box>, before: seq<Track>)
    requires Inside(data, boxes) && boxes != []
    ensures Inside(data, [boxes[0]]) && Inside(data, boxes[1..])
    ensures before + TracksOf(data, Nested(data, boxes, MoovBox, TrakBox))
         == before + TracksOf(data, Nested(data, [boxes[0]], MoovBox, TrakBox)) + TracksOf(data, Nested(data, boxes[1..], MoovBox, TrakBox))
  {
    NestedCons(data, boxes, MoovBox, TrakBox);
    hide Nested, TracksOf, Inside;
    TracksAppend(data, Nested(data, [boxes[0]], MoovBox, TrakBox), Nested(data, boxes[1..], MoovBox, TrakBox));
    RegroupTracks(before, TracksOf(data, Nested(data, [boxes[0]], MoovBox, TrakBox)), TracksOf(data, Nested(data, boxes[1..], MoovBox, TrakBox)));
  }

  lemma TrackAfterCons(data: seq<Byte>, boxes: seq<Box>, t: Track)
    requires Inside(data, boxes) && boxes != []
    ensures Inside(data, [boxes[0]]) && Inside(data, boxes[1..])
    ensures TrackAfter(data, boxes, t) == TrackAfter(data, boxes[1..], TrackAfter(data, [boxes[0]], t))
  {
    hide Typed, Nested, LastField, EditsOf, Inside;
    LastTypedCons(data, boxes, TkhdBox, t.trackId);
    LastNestedCons(data, boxes, MdiaBox, MdhdBox, t.mediaTimescale);
    EditsNestedCons(data, boxes, t.edits);
  }

  /** The boxes inside a movie box: the last movie header gives the timescale,
      and each track box adds one track. */
  lemma {:induction false} MovieBoxRecords(data: seq<Byte>, boxes: seq<Box>, s: State)
    requires Inside(data, boxes) && AllAccepted(MoovLevel, data, boxes, s)
    ensures AfterAll(MoovLevel, data, boxes, s).result
         == s.result.(movieTimescale := LastField(data, Typed(data, boxes, MvhdBox), s.result.movieTimescale),
                      tracks := s.result.tracks + TracksOf(data, Typed(data, boxes, TrakBox)))
  {
    if boxes == [] {
      assert s.result.tracks + [] == s.result.tracks;
    } else {
      var b := boxes[0];
      InsideHead(data, boxes);
      var v := Visit(MoovLevel, data, BoxType(data, b), b, s);
      OneMovieChild(data, b, s);
      MovieBoxRecords(data, boxes[1..], v.state);
      hide Visit, Typed, LastField, TracksOf;
      MovieAfterCons(data, boxes, s.result);
    }
  }

  lemma MovieAfterCons(data: seq<Byte>, boxes: seq<Box>, r: ScanResult)
    requires Inside(data, boxes) && boxes != []
    ensures Inside(data, [boxes[0]]) && Inside(data, boxes[1..])
    ensures LastField(data, Typed(data, boxes, MvhdBox), r.movieTimescale)
         == LastField(data, Typed(data, boxes[1..], MvhdBox), LastField(data, Typed(data, [boxes[0]], MvhdBox), r.movieTimescale))
    ensures r.tracks + TracksOf(data, Typed(data, boxes, TrakBox))
         == r.tracks + TracksOf(data, Typed(data, [boxes[0]], TrakBox)) + TracksOf(data, Typed(data, boxes[1..], TrakBox))
  {
    LastTypedCons(data, boxes, MvhdBox, r.movieTimescale);
    TypedCons(data, boxes, TrakBox);
    hide Typed, LastField, TracksOf, Inside;
    TracksAppend(data, Typed(data, [boxes[0]], TrakBox), Typed(data, boxes[1..], TrakBox));
    RegroupTracks(r.tracks, TracksOf(data, Typed(data, [boxes[0]], TrakBox)), TracksOf(data, Typed(data, boxes[1..], TrakBox)));
  }

  lemma OneMovieChild(data: seq<Byte>, b: Box, s: State)
    requires 8 <= b.headerLen <= b.size && b.ContentEnd() <= |data| && Inside(data, [b])
    requires Visit(MoovLevel, data, BoxType(data, b), b, s).ok
    ensures Visit(MoovLevel, data, BoxType(data, b), b, s).state.result
         == s.result.(movieTimescale := LastField(data, Typed(data, [b], MvhdBox), s.result.movieTimescale),
                      tracks := s.result.tracks + TracksOf(data, Typed(data, [b], TrakBox)))
  {
    MovieOfOne(data, b, s.result);
    if IsKind(BoxType(data, b), TrakBox) {
      assert !IsKind(BoxType(data, b), MvhdBox) by {
        assert "mvhd"[0] == 'm' && "trak"[0] == 't';
      }
      WalkedTrack(data, b, s);
    }
    hide Walk, Typed, LastField, TracksOf, TrackOf, IsType, VersionedField, Inside, BoxType;
  }

  /** What a single box of a movie box contributes. */
  lemma MovieOfOne(data: seq<Byte>, b: Box, r: ScanResult)
    requires 8 <= b.headerLen <= b.size && b.ContentEnd() <= |data| && Inside(data, [b])
    ensures LastField(data, Typed(data, [b], MvhdBox), r.movieTimescale)
         == if IsKind(BoxType(data, b), MvhdBox) && FieldOf(data, b).Some? then FieldOf(data, b).value else r.movieTimescale
    ensures r.tracks + TracksOf(data, Typed(data, [b], TrakBox))
         == if IsKind(BoxType(data, b), TrakBox) then r.tracks + [TrackOf(data, b)] else r.tracks
  {
    OfOneBox(data, b, MvhdBox);
    OfOneBox(data, b, TrakBox);
    OneField(data, b, r.movieTimescale);
    TrackAt(data, [b], 0);
    assert Inside(data, []) && TracksOf(data, []) == [] && r.tracks + [] == r.tracks;
    assert TracksOf(data, [b]) == [TracksOf(data, [b])[0]];
    hide Typed, TracksOf, TrackOf, IsType, FieldOf, Inside, BoxType;
  }

  /** A track box that is walked through gives its track. */
  lemma WalkedTrack(data: seq<Byte>, b: Box, s: State)
    requires 8 <= b.headerLen <= b.size && b.ContentEnd() <= |data|
    requires Walk(TrakLevel, data, b.ContentStart(), b.ContentEnd(), s.(track := NEW_TRACK)).ok
    ensures var w := Walk(TrakLevel, data, b.ContentStart(), b.ContentEnd(), s.(track := NEW_TRACK)).state;
      w.result == s.result && w.track == TrackOf(data, b)
  {
    WalkVisitsAll(TrakLevel, data, b.ContentStart(), b.ContentEnd(), s.(track := NEW_TRACK));
    TrackBoxRecords(data, ContentBoxes(data, b), s.(track := NEW_TRACK));
    hide Walk, AfterAll, AllAccepted, Typed, Nested, LastField, EditsOf;
    var kids := ContentBoxes(data, b);
    assert [] + EditsOf(data, Nested(data, kids, EdtsBox, ElstBox)) == EditsOf(data, Nested(data, kids, EdtsBox, ElstBox));
  }

  /** What only file type and movie boxes change. */
  predicate SameContents(a: ScanResult, b: ScanResult) {
    && a.majorBrand == b.majorBrand && a.minorVersion == b.minorVersion && a.compatibleBrands == b.compatibleBrands
    && a.movieTimescale == b.movieTimescale && a.tracks == b.tracks
  }

  function ContentsAfter(data: seq<Byte>, boxes: seq<Box>, r: ScanResult): ScanResult
    requires Inside(data, boxes)
  {
    FtypsOf(data, Typed(data, boxes, FtypBox), r).(
      movieTimescale := LastField(data, Nested(data, boxes, MoovBox, MvhdBox), r.movieTimescale),
      tracks := r.tracks + TracksOf(data, Nested(data, boxes, MoovBox, TrakBox)))
  }

  lemma {:induction false} TopLevelContents(data: seq<Byte>, boxes: seq<Box>, s: State)
    requires Inside(data, boxes) && AllAccepted(FileLevel, data, boxes, s)
    ensures SameContents(AfterAll(FileLevel, data, boxes, s).result, ContentsAfter(data, boxes, s.result))
  {
    if boxes == [] {
      assert s.result.tracks + [] == s.result.tracks;
    } else {
      var b := boxes[0];
      InsideHead(data, boxes);
      var v := Visit(FileLevel, data, BoxType(data, b), b, s);
      OneTopLevelBox(data, b, s);
      TopLevelContents(data, boxes[1..], v.state);
      hide Visit, IsType, ContentsAfter;
      ContentsAfterSame(data, boxes[1..], v.state.result, ContentsAfter(data, [b], s.result));
      ContentsAfterCons(data, boxes, s.result);
    }
  }

  lemma OneTopLevelBox(data: seq<Byte>, b: Box, s: State)
    requires 8 <= b.headerLen <= b.size && b.ContentEnd() <= |data| && Inside(data, [b])
    requires Visit(FileLevel, data, BoxType(data, b), b, s).ok
    ensures SameContents(Visit(FileLevel, data, BoxType(data, b), b, s).state.result, ContentsAfter(data, [b], s.result))
  {
    var t, r := BoxType(data, b), s.result;
    TypesDiffer(t);
    ContentsOfOne(data, b, r);
    hide Walk, LastField, TracksOf, IsType, Ftyp, ContentBoxes, Typed, Inside, BoxType, ContentsAfter;
    if IsKind(t, MoovBox) {
      WalkedMovie(data, b, s.(result := r.(topLevel := r.topLevel + [BoxRecord("moov", b.start, b.size)])));
    } else if IsKind(t, FtypBox) {
      FtypOfSame(data, b, r, r.(topLevel := r.topLevel + [BoxRecord("ftyp", b.start, b.size)]));
    }
  }

  /** What a single top-level box contributes. */
  lemma ContentsOfOne(data: seq<Byte>, b: Box, r: ScanResult)
    requires 8 <= b.headerLen <= b.size && b.ContentEnd() <= |data| && Inside(data, [b])
    ensures var t, after, kids := BoxType(data, b), ContentsAfter(data, [b], r), ContentBoxes(data, b);
      if IsKind(t, FtypBox) then
        var f := Ftyp(data, b.ContentStart(), b.ContentEnd(), r); after == if f.Some? then f.value else r
      else if IsKind(t, MoovBox) then
        after == r.(movieTimescale := LastField(data, Typed(data, kids, MvhdBox), r.movieTimescale),
                    tracks := r.tracks + TracksOf(data, Typed(data, kids, TrakBox)))
      else after == r
  {
    TypesDiffer(BoxType(data, b));
    OfOneBox(data, b, FtypBox);
    NestedInOneBox(data, b, MoovBox, MvhdBox);
    NestedInOneBox(data, b, MoovBox, TrakBox);
    assert Inside(data, []) && LastField(data, [], r.movieTimescale) == r.movieTimescale;
    assert TracksOf(data, []) == [] && r.tracks + [] == r.tracks && FtypsOf(data, [], r) == r;
    OneFtyp(data, b, r);
    FtypOfSame(data, b, r, r);
    hide Typed, Nested, LastField, TracksOf, IsType, Ftyp, FtypsOf, ContentBoxes, Inside, BoxType;
  }

  lemma WalkedMovie(data: seq<Byte>, b: Box, s: State)
    requires 8 <= b.headerLen <= b.size && b.ContentEnd() <= |data|
    requires Walk(MoovLevel, data, b.ContentStart(), b.ContentEnd(), s).ok
    ensures var kids := ContentBoxes(data, b);
      Walk(MoovLevel, data, b.ContentStart(), b.ContentEnd(), s).state.result
      == s.result.(movieTimescale := LastField(data, Typed(data, kids, MvhdBox), s.result.movieTimescale),
                   tracks := s.result.tracks + TracksOf(data, Typed(data, kids, TrakBox)))
  {
    hide Walk, AfterAll, AllAccepted, Typed, LastField, TracksOf;
    WalkVisitsAll(MoovLevel, data, b.ContentStart(), b.ContentEnd(), s);
    MovieBoxRecords(data, ContentBoxes(data, b), s);
  }

  lemma OneFtyp(data: seq<Byte>, b: Box, r: ScanResult)
    requires 8 <= b.headerLen <= b.size && b.ContentEnd() <= |data| && Inside(data, [b])
    ensures var f := Ftyp(data, b.ContentStart(), b.ContentEnd(), r);
      FtypsOf(data, [b], r) == if f.Some? then f.value else r
  {
    assert [b][1..] == [];
    hide Ftyp;
  }

  lemma FtypOfSame(data: seq<Byte>, b: Box, r: ScanResult, q: ScanResult)
    requires b.headerLen <= b.size && b.ContentEnd() <= |data| && SameContents(r, q)
    ensures var f, g := Ftyp(data, b.ContentStart(), b.ContentEnd(), r), Ftyp(data, b.ContentStart(), b.ContentEnd(), q);
      && (f.Some? <==> g.Some?)
      && (f.Some? ==> SameContents(f.value, g.value) && f.value.movieTimescale == r.movieTimescale && f.value.tracks == r.tracks)
  {}

  lemma {:induction false} FtypsOfSame(data: seq<Byte>, ftyps: seq<Box>, r: ScanResult, q: ScanResult)
    requires Inside(data, ftyps) && SameContents(r, q)
    ensures SameContents(FtypsOf(data, ftyps, r), FtypsOf(data, ftyps, q))
  {
    if ftyps != [] {
      InsideHead(data, ftyps);
      var b := ftyps[0];
      FtypOfSame(data, b, r, q);
      var f, g := Ftyp(data, b.ContentStart(), b.ContentEnd(), r), Ftyp(data, b.ContentStart(), b.ContentEnd(), q);
      FtypsOfSame(data, ftyps[1..], if f.Some? then f.value else r, if g.Some? then g.value else q);
      hide Ftyp, SameContents;
    }
  }

  lemma ContentsAfterSame(data: seq<Byte>, boxes: seq<Box>, r: ScanResult, q: ScanResult)
    requires Inside(data, boxes) && SameContents(r, q)
    ensures SameContents(ContentsAfter(data, boxes, r), ContentsAfter(data, boxes, q))
  {
    FtypsOfSame(data, Typed(data, boxes, FtypBox), r, q);
    hide FtypsOf, Typed, Nested, LastField, TracksOf;
  }

  /** File types leave the timescale and the tracks alone. */
  lemma {:induction false} FtypsKeep(data: seq<Byte>, ftyps: seq<Box>, r: ScanResult, timescale: int, tracks: seq<Track>)
    requires Inside(data, ftyps)
    ensures FtypsOf(data, ftyps, r.(movieTimescale := timescale, tracks := tracks))
         == FtypsOf(data, ftyps, r).(movieTimescale := timescale, tracks := tracks)
  {
    if ftyps != [] {
      InsideHead(data, ftyps);
      var f := Ftyp(data, ftyps[0].ContentStart(), ftyps[0].ContentEnd(), r);
      FtypsKeep(data, ftyps[1..], if f.Some? then f.value else r, timescale, tracks);
    }
  }

  lemma {:induction false} FtypsAppend(data: seq<Byte>, a: seq<Box>, b: seq<Box>, r: ScanResult)
    requires Inside(data, a) && Inside(data, b)
    ensures Inside(data, a + b) && FtypsOf(data, a + b, r) == FtypsOf(data, b, FtypsOf(data, a, r))
    decreases |a|
  {
    hide Ftyp;
    if a == [] {
      assert a + b == b;
    } else {
      InsideHead(data, a);
      var f := Ftyp(data, a[0].ContentStart(), a[0].ContentEnd(), r);
      FtypsAppend(data, a[1..], b, if f.Some? then f.value else r);
      assert (a + b)[1..] == a[1..] + b;
    }
  }

  lemma ContentsAfterCons(data: seq<Byte>, boxes: seq<Box>, r: ScanResult)
    requires Inside(data, boxes) && boxes != []
    ensures Inside(data, [boxes[0]]) && Inside(data, boxes[1..])
    ensures ContentsAfter(data, boxes, r) == ContentsAfter(data, boxes[1..], ContentsAfter(data, [boxes[0]], r))
  {
    hide Typed, Nested, LastField, TracksOf, FtypsOf, Inside;
    LastNestedCons(data, boxes, MoovBox, MvhdBox, r.movieTimescale);
    TracksNestedCons(data, boxes, r.tracks);
    var b, rest := [boxes[0]], boxes[1..];
    TypedCons(data, boxes, FtypBox);
    FtypsAppend(data, Typed(data, b, FtypBox), Typed(data, rest, FtypBox), r);
    FtypsKeep(data, Typed(data, rest, FtypBox), FtypsOf(data, Typed(data, b, FtypBox), r),
              LastField(data, Nested(data, b, MoovBox, MvhdBox), r.movieTimescale),
              r.tracks + TracksOf(data, Nested(data, b, MoovBox, TrakBox)));
  }

  /** A complete scan records exactly what the box tree holds. */
  lemma CompleteScanIsRecorded(data: seq<Byte>)
    requires Walk(FileLevel, data, 0, |data|, State(EMPTY_RESULT, NEW_TRACK)).ok
    ensures Children(data, 0, |data|).Fine? && Inside(data, Children(data, 0, |data|).value)
    ensures Walk(FileLevel, data, 0, |data|, State(EMPTY_RESULT, NEW_TRACK)).state.result
         == Recorded(data, Children(data, 0, |data|).value)
  {
    var s := State(EMPTY_RESULT, NEW_TRACK);
    hide Walk, Children, AllAccepted, AfterAll, Typed, Nested, LastField, TracksOf, FtypsOf, RecordsOf, CountOf;
    WalkVisitsAll(FileLevel, data, 0, |data|, s);
    var top := Children(data, 0, |data|).value;
    CompleteScanRecords(data, top, s, 0);
    TopLevelContents(data, top, s);
    assert [] + RecordsOf(data, top) == RecordsOf(data, top);
    assert [] + TracksOf(data, Nested(data, top, MoovBox, TrakBox)) == TracksOf(data, Nested(data, top, MoovBox, TrakBox));
  }

  /** The bytes of a range agree. */
  predicate Agree(a: seq<Byte>, b: seq<Byte>, from: nat, to: nat) {
    from <= to <= |a| && to <= |b| && forall k :: from <= k < to ==> a[k] == b[k]
  }

  /** A walk depends on the bytes of its own range only: no read leaves it. */
  lemma {:induction false} WalkReadsItsRange(level: Level, data: seq<Byte>, other: seq<Byte>, pos: nat, end: nat, s: State)
    requires Agree(data, other, pos, end)
    ensures Walk(level, data, pos, end, s) == Walk(level, other, pos, end, s)
    decreases end - pos, 1
  {
    hide Visit, ParseBoxHeader, Walk, AllAccepted, Agree;
    AgreeWithin(data, other, pos, end);
    HeaderReadsItsRange(data, other, pos, end);
    if pos == end {
      EmptyWalk(level, data, end, s);
      EmptyWalk(level, other, end, s);
    } else if ParseBoxHeader(data, pos, end).FixtureError? {
      BadHeader(level, data, pos, end, s);
      BadHeader(level, other, pos, end, s);
    } else {
      WalkHead(level, data, pos, end, s);
      WalkHead(level, other, pos, end, s);
      var h := ParseBoxHeader(data, pos, end).value;
      var b := Box(pos, h.size, h.headerLen);
      AgreeParts(data, other, pos, pos + h.size, end);
      VisitReadsItsBox(level, data, other, h.boxType, b, s);
      WalkReadsItsRange(level, data, other, pos + h.size, end, Visit(level, data, h.boxType, b, s).state);
    }
  }

  lemma AgreeWithin(a: seq<Byte>, b: seq<Byte>, from: nat, to: nat)
    requires Agree(a, b, from, to)
    ensures from <= to <= |a| && to <= |b|
  {}

  lemma AgreeParts(a: seq<Byte>, b: seq<Byte>, from: nat, mid: nat, to: nat)
    requires Agree(a, b, from, to) && from <= mid <= to
    ensures Agree(a, b, from, mid) && Agree(a, b, mid, to)
  {}

  lemma HeaderReadsItsRange(data: seq<Byte>, other: seq<Byte>, pos: nat, end: nat)
    requires Agree(data, other, pos, end)
    ensures ParseBoxHeader(data, pos, end) == ParseBoxHeader(other, pos, end)
  {
    if pos + 8 <= end {
      SameBytesRead(data, other, pos);
      assert data[pos + 4..pos + 8] == other[pos + 4..pos + 8];
      if pos + 16 <= end {
        SameBytesRead(data, other, pos + 8);
        SameBytesRead(data, other, pos + 12);
      }
    }
  }

  lemma {:induction false} VisitReadsItsBox(level: Level, data: seq<Byte>, other: seq<Byte>, t: seq<Byte>, b: Box, s: State)
    requires 8 <= b.headerLen <= b.size && Agree(data, other, b.start, b.ContentEnd())
    ensures Visit(level, data, t, b, s) == Visit(level, other, t, b, s)
    decreases b.size, 0
  {
    var c, e := b.ContentStart(), b.ContentEnd();
    assert Agree(data, other, c, e);
    LeavesReadTheirBox(data, other, c, e, s);
    if level == FileLevel && IsType(t, "moov") {
      var s1 := s.(result := s.result.(topLevel := s.result.topLevel + [BoxRecord("moov", b.start, b.size)]));
      WalkReadsItsRange(MoovLevel, data, other, c, e, s1);
    } else if level == FileLevel && IsType(t, "ftyp") {
      var s1 := s.(result := s.result.(topLevel := s.result.topLevel + [BoxRecord("ftyp", b.start, b.size)]));
      LeavesReadTheirBox(data, other, c, e, s1);
    } else if level == MoovLevel && IsType(t, "trak") {
      WalkReadsItsRange(TrakLevel, data, other, c, e, s.(track := NEW_TRACK));
    } else if level == TrakLevel && IsType(t, "mdia") {
      WalkReadsItsRange(MdiaLevel, data, other, c, e, s);
    } else if level == TrakLevel && IsType(t, "edts") {
      WalkReadsItsRange(EdtsLevel, data, other, c, e, s);
    }
    hide VersionedField, Ftyp, Elst, Walk, Agree;
  }

  lemma LeavesReadTheirBox(data: seq<Byte>, other: seq<Byte>, c: nat, e: nat, s: State)
    requires Agree(data, other, c, e)
    ensures VersionedField(data, c, e) == VersionedField(other, c, e)
    ensures Ftyp(data, c, e, s.result) == Ftyp(other, c, e, s.result)
    ensures Elst(data, c, e, s.track) == Elst(other, c, e, s.track)
  {
    FieldReadsItsBox(data, other, c, e);
    FtypReadsItsBox(data, other, c, e, s.result);
    ElstReadsItsBox(data, other, c, e, s.track);
  }

  lemma FieldReadsItsBox(data: seq<Byte>, other: seq<Byte>, c: nat, e: nat)
    requires Agree(data, other, c, e)
    ensures VersionedField(data, c, e) == VersionedField(other, c, e)
  {
    if e - c >= 16 {
      SameBytesRead(data, other, c + 12);
      if e - c >= 24 {
        SameBytesRead(data, other, c + 20);
      }
    }
  }

  lemma FtypReadsItsBox(data: seq<Byte>, other: seq<Byte>, c: nat, e: nat, r: ScanResult)
    requires Agree(data, other, c, e)
    ensures Ftyp(data, c, e, r) == Ftyp(other, c, e, r)
  {
    if e - c >= 8 {
      SameBytesRead(data, other, c + 4);
      assert data[c..c + 4] == other[c..c + 4];
      var n := (e - c - 8) / 4;
      var x, y := Brands(data, c + 8, n), Brands(other, c + 8, n);
      forall i: nat | i < n ensures x[i] == y[i] {
        assert data[c + 8 + 4 * i..c + 8 + 4 * i + 4] == other[c + 8 + 4 * i..c + 8 + 4 * i + 4];
      }
      assert x == y;
    }
  }

  lemma ElstReadsItsBox(data: seq<Byte>, other: seq<Byte>, c: nat, e: nat, t: Track)
    requires Agree(data, other, c, e)
    ensures Elst(data, c, e, t) == Elst(other, c, e, t)
  {
    if e - c >= 8 {
      SameBytesRead(data, other, c + 4);
      var version, count := data[c], U32At(data, c + 4);
      if count * EntrySize(version) <= e - c - 8 {
        var x, y := Entries(data, c + 8, version, count), Entries(other, c + 8, version, count);
        forall i: nat | i < count ensures x[i] == y[i] {
          EntryFits(c + 8, version, i, count);
          EntryReadsItsBytes(data, other, c + 8 + i * EntrySize(version), version);
        }
        assert x == y;
      }
    }
  }

  lemma EntryReadsItsBytes(data: seq<Byte>, other: seq<Byte>, at: nat, version: Byte)
    requires Agree(data, other, at, at + EntrySize(version))
    ensures EntryAt(data, at, version) == EntryAt(other, at, version)
  {
    var n := EntrySize(version);
    EntryOfSlice(data, at, version);
    EntryOfSlice(other, at, version);
    assert data[at..at + n] == other[at..at + n];
  }

  /** A scan that stops does so inside the range, and says where. */
  lemma {:induction false} StopsInside(level: Level, data: seq<Byte>, pos: nat, end: nat, s: State)
    requires pos <= end <= |data|
    ensures !Walk(level, data, pos, end, s).ok ==> pos <= Walk(level, data, pos, end, s).stop <= end
    decreases end - pos, 1
  {
    hide Visit, ParseBoxHeader, Walk, AllAccepted;
    if pos == end {
      EmptyWalk(level, data, end, s);
    } else if ParseBoxHeader(data, pos, end).FixtureError? {
      BadHeader(level, data, pos, end, s);
    } else {
      WalkHead(level, data, pos, end, s);
      var h := ParseBoxHeader(data, pos, end).value;
      var b := Box(pos, h.size, h.headerLen);
      VisitStopsInside(level, data, h.boxType, b, s);
      StopsInside(level, data, pos + h.size, end, Visit(level, data, h.boxType, b, s).state);
    }
  }

  lemma {:induction false} VisitStopsInside(level: Level, data: seq<Byte>, t: seq<Byte>, b: Box, s: State)
    requires 8 <= b.headerLen <= b.size && b.ContentEnd() <= |data|
    ensures !Visit(level, data, t, b, s).ok ==> b.start <= Visit(level, data, t, b, s).stop <= b.ContentEnd()
    decreases b.size, 0
  {
    var c, e := b.ContentStart(), b.ContentEnd();
    hide VersionedField, Ftyp, Elst, Walk;
    if level == FileLevel && IsType(t, "moov") {
      var s1 := s.(result := s.result.(topLevel := s.result.topLevel + [BoxRecord("moov", b.start, b.size)]));
      StopsInside(MoovLevel, data, c, e, s1);
    } else if level == MoovLevel && IsType(t, "trak") {
      StopsInside(TrakLevel, data, c, e, s.(track := NEW_TRACK));
    } else if level == TrakLevel && IsType(t, "mdia") {
      StopsInside(MdiaLevel, data, c, e, s);
    } else if level == TrakLevel && IsType(t, "edts") {
      StopsInside(EdtsLevel, data, c, e, s);
    }
  }
}
