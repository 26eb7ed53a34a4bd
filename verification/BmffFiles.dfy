/** Files written box by box, and what the scan makes of them. */
module BmffFiles {
  import opened MachineInts
  import opened Options
  import opened BigEndian
  import opened IsoBoxes
  import opened BmffScan

  // ---------------------------------------------------------------------
  // Writing.
  // ---------------------------------------------------------------------

  datatype BoxName = NameFtyp | NameMoov | NameMvhd | NameTrak | NameTkhd | NameMdia | NameMdhd | NameEdts | NameElst
                   | NameMdat | NameMoof | NameSidx | NameFree

  /** The four-character codes of the boxes, in ASCII. */
  function Code(name: BoxName): (c: seq<Byte>)
    ensures |c| == 4
  {
    match name
    case NameFtyp => [0x66, 0x74, 0x79, 0x70]
    case NameMoov => [0x6D, 0x6F, 0x6F, 0x76]
    case NameMvhd => [0x6D, 0x76, 0x68, 0x64]
    case NameTrak => [0x74, 0x72, 0x61, 0x6B]
    case NameTkhd => [0x74, 0x6B, 0x68, 0x64]
    case NameMdia => [0x6D, 0x64, 0x69, 0x61]
    case NameMdhd => [0x6D, 0x64, 0x68, 0x64]
    case NameEdts => [0x65, 0x64, 0x74, 0x73]
    case NameElst => [0x65, 0x6C, 0x73, 0x74]
    case NameMdat => [0x6D, 0x64, 0x61, 0x74]
    case NameMoof => [0x6D, 0x6F, 0x6F, 0x66]
    case NameSidx => [0x73, 0x69, 0x64, 0x78]
    case NameFree => [0x66, 0x72, 0x65, 0x65]
  }

  /** A box with the 32-bit size field, which wraps. */
  function Boxed(name: BoxName, payload: seq<Byte>): (b: seq<Byte>)
    ensures |b| == 8 + |payload|
  {
    U32Bytes((8 + |payload|) % 0x1_0000_0000) + Code(name) + payload
  }

  /** The movie, track and media headers up to the field the scan reads: the
      version, the flags, the creation and modification times, and the field;
      then anything. */
  datatype FullBox = FullBox(version: Byte, flags: seq<Byte>, created: seq<Byte>, modified: seq<Byte>, field: int,
                             rest: seq<Byte>)

  /** The times are 64 bits wide in version 1 and 32 otherwise. */
  predicate ValidFullBox(f: FullBox) {
    && |f.flags| == 3 && 0 <= f.field < 0x1_0000_0000
    && |f.created| == |f.modified| == if f.version == 1 then 8 else 4
  }

  function FullBoxBytes(f: FullBox): seq<Byte>
    requires ValidFullBox(f)
  {
    [f.version] + f.flags + f.created + f.modified + U32Bytes(f.field) + f.rest
  }

  datatype EditList = EditList(version: Byte, flags: seq<Byte>, entries: seq<EditListEntry>, rest: seq<Byte>)

  predicate InRange(v: int, half: int) {
    -half <= v < half
  }

  /** The durations and times are 64 bits wide in version 1 and 32 otherwise. */
  predicate ValidEntry(e: EditListEntry, version: Byte) {
    var half := if version == 1 then 0x8000_0000_0000_0000 else 0x8000_0000;
    && InRange(e.segmentDuration, half) && InRange(e.mediaTime, half)
    && InRange(e.mediaRateInteger, 0x8000) && InRange(e.mediaRateFraction, 0x8000)
  }

  predicate ValidEditList(l: EditList) {
    |l.flags| == 3 && |l.entries| < 0x1_0000_0000 && forall e :: e in l.entries ==> ValidEntry(e, l.version)
  }

  /** Two's complement. */
  function Wrapped(v: int, half: int): (w: int)
    requires InRange(v, half)
    ensures 0 <= w < 2 * half
  {
    if v < 0 then v + 2 * half else v
  }

  function S16Bytes(v: int): (b: seq<Byte>)
    requires InRange(v, 0x8000)
    ensures |b| == 2
  {
    U16Bytes(Wrapped(v, 0x8000))
  }

  function S32Bytes(v: int): (b: seq<Byte>)
    requires InRange(v, 0x8000_0000)
    ensures |b| == 4
  {
    U32Bytes(Wrapped(v, 0x8000_0000))
  }

  function S64Bytes(v: int): (b: seq<Byte>)
    requires InRange(v, 0x8000_0000_0000_0000)
    ensures |b| == 8
  {
    U64Bytes(Wrapped(v, 0x8000_0000_0000_0000))
  }

  function EntryBytes(e: EditListEntry, version: Byte): (b: seq<Byte>)
    requires ValidEntry(e, version)
    ensures |b| == if version == 1 then 20 else 12
  {
    (if version == 1 then S64Bytes(e.segmentDuration) + S64Bytes(e.mediaTime)
     else S32Bytes(e.segmentDuration) + S32Bytes(e.mediaTime))
    + S16Bytes(e.mediaRateInteger) + S16Bytes(e.mediaRateFraction)
  }

  function EntriesBytes(entries: seq<EditListEntry>, version: Byte): seq<Byte>
    requires forall e :: e in entries ==> ValidEntry(e, version)
  {
    if entries == [] then [] else EntryBytes(entries[0], version) + EntriesBytes(entries[1..], version)
  }

  function EditListBytes(l: EditList): seq<Byte>
    requires ValidEditList(l)
  {
    [l.version] + l.flags + U32Bytes(|l.entries|) + EntriesBytes(l.entries, l.version) + l.rest
  }

  /** A track box with its headers and, when there is one, its edit list. */
  datatype TrackBox = TrackBox(header: FullBox, media: FullBox, edits: Option<EditList>)

  predicate ValidTrack(t: TrackBox) {
    ValidFullBox(t.header) && ValidFullBox(t.media) && (t.edits.Some? ==> ValidEditList(t.edits.value))
  }

  function EditsBytes(t: TrackBox): seq<Byte>
    requires ValidTrack(t)
  {
    if t.edits.None? then [] else Boxed(NameEdts, Boxed(NameElst, EditListBytes(t.edits.value)))
  }

  function TrackBytes(t: TrackBox): seq<Byte>
    requires ValidTrack(t)
  {
    Boxed(NameTkhd, FullBoxBytes(t.header)) + Boxed(NameMdia, Boxed(NameMdhd, FullBoxBytes(t.media))) + EditsBytes(t)
  }

  function TracksBytes(tracks: seq<TrackBox>): seq<Byte>
    requires forall t :: t in tracks ==> ValidTrack(t)
  {
    if tracks == [] then [] else Boxed(NameTrak, TrackBytes(tracks[0])) + TracksBytes(tracks[1..])
  }

  function BrandsBytes(brands: seq<seq<Byte>>): seq<Byte> {
    if brands == [] then [] else brands[0] + BrandsBytes(brands[1..])
  }

  /** A top-level box. A file type may end in up to three stray bytes. */
  datatype Item =
    | FileType(major: seq<Byte>, minor: int, brands: seq<seq<Byte>>, stray: seq<Byte>)
    | MovieBox(header: FullBox, tracks: seq<TrackBox>)
    | MediaData(payload: seq<Byte>)
    | Fragment(payload: seq<Byte>)
    | SegmentIndex(payload: seq<Byte>)
    | FreeSpace(payload: seq<Byte>)

  predicate ValidItem(item: Item) {
    match item
    case FileType(major, minor, brands, stray) =>
      |major| == 4 && 0 <= minor < 0x1_0000_0000 && (forall b :: b in brands ==> |b| == 4) && |stray| < 4
    case MovieBox(header, tracks) => ValidFullBox(header) && forall t :: t in tracks ==> ValidTrack(t)
    case _ => true
  }

  function NameOf(item: Item): BoxName {
    match item
    case FileType(_, _, _, _) => NameFtyp
    case MovieBox(_, _) => NameMoov
    case MediaData(_) => NameMdat
    case Fragment(_) => NameMoof
    case SegmentIndex(_) => NameSidx
    case FreeSpace(_) => NameFree
  }

  function Payload(item: Item): seq<Byte>
    requires ValidItem(item)
  {
    match item
    case FileType(major, minor, brands, stray) => major + U32Bytes(minor) + BrandsBytes(brands) + stray
    case MovieBox(header, tracks) => Boxed(NameMvhd, FullBoxBytes(header)) + TracksBytes(tracks)
    case MediaData(payload) => payload
    case Fragment(payload) => payload
    case SegmentIndex(payload) => payload
    case FreeSpace(payload) => payload
  }

  function FileBytes(items: seq<Item>): seq<Byte>
    requires forall i :: i in items ==> ValidItem(i)
  {
    if items == [] then [] else Boxed(NameOf(items[0]), Payload(items[0])) + FileBytes(items[1..])
  }

  // ---------------------------------------------------------------------
  // What was written.
  // ---------------------------------------------------------------------

  function EntriesOf(t: TrackBox): seq<EditListEntry> {
    if t.edits.None? then [] else t.edits.value.entries
  }

  function TrackOfBox(t: TrackBox): Track {
    Track(t.header.field, t.media.field, EntriesOf(t))
  }

  function TracksOfBoxes(tracks: seq<TrackBox>): (r: seq<Track>)
    ensures |r| == |tracks|
  {
    seq(|tracks|, i requires 0 <= i < |tracks| => TrackOfBox(tracks[i]))
  }

  function NameText(item: Item): string {
    match item
    case FileType(_, _, _, _) => "ftyp"
    case MovieBox(_, _) => "moov"
    case MediaData(_) => "mdat"
    case Fragment(_) => "moof"
    case SegmentIndex(_) => "sidx"
    case FreeSpace(_) => "free"
  }

  /** What one top-level box written at pos adds. */
  function DescribedItem(item: Item, pos: nat, r: ScanResult): ScanResult
    requires ValidItem(item)
  {
    var listed := r.(topLevel := r.topLevel + [BoxRecord(NameText(item), pos, 8 + |Payload(item)|)]);
    match item
    case FileType(major, minor, brands, _) =>
      listed.(majorBrand := major, minorVersion := minor, compatibleBrands := r.compatibleBrands + brands)
    case MovieBox(header, tracks) => listed.(movieTimescale := header.field, tracks := r.tracks + TracksOfBoxes(tracks))
    case Fragment(_) => listed.(moofCount := r.moofCount + 1)
    case SegmentIndex(_) => listed.(hasSidx := true)
    case _ => listed
  }

  /** What a file of these boxes from pos on adds. */
  function Described(items: seq<Item>, pos: nat, r: ScanResult): ScanResult
    requires forall i :: i in items ==> ValidItem(i)
  {
    if items == [] then r
    else Described(items[1..], pos + 8 + |Payload(items[0])|, DescribedItem(items[0], pos, r))
  }

  // ---------------------------------------------------------------------
  // Reading back.
  // ---------------------------------------------------------------------

  /** The bytes stand at pos. */
  predicate Holds(data: seq<Byte>, pos: nat, bytes: seq<Byte>) {
    pos + |bytes| <= |data| && data[pos..pos + |bytes|] == bytes
  }

  lemma HoldsParts(data: seq<Byte>, pos: nat, a: seq<Byte>, b: seq<Byte>)
    requires Holds(data, pos, a + b)
    ensures Holds(data, pos, a) && Holds(data, pos + |a|, b)
  {
    var s := data[pos..pos + |a + b|];
    assert data[pos..pos + |a|] == s[..|a|] == a;
    assert data[pos + |a|..pos + |a| + |b|] == s[|a|..] == b;
  }

  /** The box stands whole before end, and its size fits its size field. */
  predicate BoxStands(data: seq<Byte>, pos: nat, end: nat, name: BoxName, payload: seq<Byte>) {
    && pos + 8 + |payload| <= end <= |data| && 8 + |payload| < 0x1_0000_0000
    && Holds(data, pos, Boxed(name, payload))
  }

  /** The header and the content of a written box. */
  lemma BoxIsParsed(data: seq<Byte>, pos: nat, end: nat, name: BoxName, payload: seq<Byte>)
    requires BoxStands(data, pos, end, name, payload)
    ensures pos < pos + 8 + |payload| <= end <= |data| && Holds(data, pos + 8, payload)
    ensures ParseBoxHeader(data, pos, end) == Fine(Header(8 + |payload|, Code(name), 8))
  {
    var size := U32Bytes(8 + |payload|);
    assert Boxed(name, payload) == size + Code(name) + payload;
    HoldsParts(data, pos, size + Code(name), payload);
    HoldsParts(data, pos, size, Code(name));
    U32ReadsBack(data, pos, 8 + |payload|);
    hide U32At, U32Bytes, Code, Boxed;
  }

  /** The field of a header is the one written, at its width. */
  lemma FieldReadsBack(data: seq<Byte>, c: nat, e: nat, f: FullBox)
    requires ValidFullBox(f) && Holds(data, c, FullBoxBytes(f)) && e == c + |FullBoxBytes(f)|
    ensures VersionedField(data, c, e) == Some(f.field)
  {
    var before := [f.version] + f.flags + f.created + f.modified;
    assert FullBoxBytes(f) == before + U32Bytes(f.field) + f.rest;
    HoldsParts(data, c, before + U32Bytes(f.field), f.rest);
    HoldsParts(data, c, before, U32Bytes(f.field));
    assert data[c] == data[c..c + |before|][0] == f.version;
    U32ReadsBack(data, c + |before|, f.field);
  }

  /** In any completely scanned file: such a header as the last one of its kind
      gives the movie timescale, the track number and the media timescale. */
  lemma LastHeadersAreRecorded(data: seq<Byte>, top: seq<Box>, i: nat, f: FullBox)
    requires Inside(data, top) && ValidFullBox(f)
    ensures HeaderIsLast(data, Nested(data, top, MoovBox, MvhdBox), f) ==> Recorded(data, top).movieTimescale == f.field
    ensures var traks := Nested(data, top, MoovBox, TrakBox);
      i < |traks| ==>
        var kids, t := ContentBoxes(data, traks[i]), Recorded(data, top).tracks[i];
        && (HeaderIsLast(data, Typed(data, kids, TkhdBox), f) ==> t.trackId == f.field)
        && (HeaderIsLast(data, Nested(data, kids, MdiaBox, MdhdBox), f) ==> t.mediaTimescale == f.field)
  {
    var traks := Nested(data, top, MoovBox, TrakBox);
    hide LastField, Typed, Nested, ContentBoxes, FtypsOf, RecordsOf, CountOf, EditsOf, HeaderIsLast, IsType;
    HeaderDecides(data, Nested(data, top, MoovBox, MvhdBox), f);
    if i < |traks| {
      var kids := ContentBoxes(data, traks[i]);
      HeaderDecides(data, Typed(data, kids, TkhdBox), f);
      HeaderDecides(data, Nested(data, kids, MdiaBox, MdhdBox), f);
    }
  }

  lemma HeaderDecides(data: seq<Byte>, boxes: seq<Box>, f: FullBox)
    requires Inside(data, boxes) && ValidFullBox(f)
    ensures HeaderIsLast(data, boxes, f) ==> LastField(data, boxes, 0) == f.field
  {
    if HeaderIsLast(data, boxes, f) {
      var b := boxes[|boxes| - 1];
      FieldReadsBack(data, b.ContentStart(), b.ContentEnd(), f);
    }
    hide VersionedField, FullBoxBytes, Holds;
  }

  /** The content of the last of the boxes is f. */
  predicate HeaderIsLast(data: seq<Byte>, boxes: seq<Box>, f: FullBox)
    requires Inside(data, boxes) && ValidFullBox(f)
  {
    boxes != [] &&
    var b := boxes[|boxes| - 1];
    Holds(data, b.ContentStart(), FullBoxBytes(f)) && b.ContentEnd() == b.ContentStart() + |FullBoxBytes(f)|
  }

  lemma BrandsHead(data: seq<Byte>, at: nat, n: nat)
    requires n > 0 && at + 4 * n <= |data|
    ensures Brands(data, at, n) == [data[at..at + 4]] + Brands(data, at + 4, n - 1)
  {}

  lemma {:induction false} BrandsAreRead(data: seq<Byte>, at: nat, brands: seq<seq<Byte>>)
    requires (forall b :: b in brands ==> |b| == 4) && Holds(data, at, BrandsBytes(brands))
    ensures at + 4 * |brands| <= |data| && |BrandsBytes(brands)| == 4 * |brands|
    ensures Brands(data, at, |brands|) == brands
    decreases brands
  {
    if brands != [] {
      assert brands[0] in brands;
      HoldsParts(data, at, brands[0], BrandsBytes(brands[1..]));
      BrandsAreRead(data, at + 4, brands[1..]);
      BrandsHead(data, at, |brands|);
      assert brands == [brands[0]] + brands[1..];
    }
    hide Brands;
  }

  /** The brands are the ones written; stray bytes at the end are not one. */
  lemma FileTypeReadsBack(data: seq<Byte>, c: nat, e: nat, major: seq<Byte>, minor: int, brands: seq<seq<Byte>>,
                          stray: seq<Byte>, r: ScanResult)
    requires ValidItem(FileType(major, minor, brands, stray))
    requires var p := Payload(FileType(major, minor, brands, stray)); Holds(data, c, p) && e == c + |p|
    ensures Ftyp(data, c, e, r)
         == Some(r.(majorBrand := major, minorVersion := minor, compatibleBrands := r.compatibleBrands + brands))
  {
    var all := BrandsBytes(brands);
    assert Payload(FileType(major, minor, brands, stray)) == major + U32Bytes(minor) + all + stray;
    FourParts(data, c, major, U32Bytes(minor), all, stray);
    U32ReadsBack(data, c + 4, minor);
    BrandsAreRead(data, c + 8, brands);
    hide Brands, BrandsBytes, U32At, U32Bytes, Payload;
    assert (e - c - 8) / 4 == |brands|;
  }

  lemma FourParts(data: seq<Byte>, c: nat, major: seq<Byte>, minor: seq<Byte>, brands: seq<Byte>, stray: seq<Byte>)
    requires Holds(data, c, major + minor + brands + stray)
    ensures Holds(data, c, major) && Holds(data, c + |major|, minor)
    ensures Holds(data, c + |major| + |minor|, brands) && c + |major| + |minor| + |brands| + |stray| <= |data|
  {
    HoldsParts(data, c, major + minor + brands, stray);
    HoldsParts(data, c, major + minor, brands);
    HoldsParts(data, c, major, minor);
  }

  lemma SignedUnwraps(v: int, half: int)
    requires InRange(v, half)
    ensures Signed(Wrapped(v, half), 2 * half) == v
  {}

  lemma EntryReadsBack(data: seq<Byte>, at: nat, e: EditListEntry, version: Byte)
    requires ValidEntry(e, version) && Holds(data, at, EntryBytes(e, version))
    ensures at + EntrySize(version) <= |data| && EntryAt(data, at, version) == e
  {
    SignedUnwraps(e.mediaRateInteger, 0x8000);
    SignedUnwraps(e.mediaRateFraction, 0x8000);
    var rates := S16Bytes(e.mediaRateInteger) + S16Bytes(e.mediaRateFraction);
    var n := if version == 1 then 8 else 4;
    if version == 1 {
      var times := S64Bytes(e.segmentDuration) + S64Bytes(e.mediaTime);
      assert EntryBytes(e, version) == times + rates;
      HoldsParts(data, at, times, rates);
      HoldsParts(data, at, S64Bytes(e.segmentDuration), S64Bytes(e.mediaTime));
      U64ReadsBack(data, at, Wrapped(e.segmentDuration, 0x8000_0000_0000_0000));
      U64ReadsBack(data, at + 8, Wrapped(e.mediaTime, 0x8000_0000_0000_0000));
      SignedUnwraps(e.segmentDuration, 0x8000_0000_0000_0000);
      SignedUnwraps(e.mediaTime, 0x8000_0000_0000_0000);
    } else {
      var times := S32Bytes(e.segmentDuration) + S32Bytes(e.mediaTime);
      assert EntryBytes(e, version) == times + rates;
      HoldsParts(data, at, times, rates);
      HoldsParts(data, at, S32Bytes(e.segmentDuration), S32Bytes(e.mediaTime));
      U32ReadsBack(data, at, Wrapped(e.segmentDuration, 0x8000_0000));
      U32ReadsBack(data, at + 4, Wrapped(e.mediaTime, 0x8000_0000));
      SignedUnwraps(e.segmentDuration, 0x8000_0000);
      SignedUnwraps(e.mediaTime, 0x8000_0000);
    }
    HoldsParts(data, at + 2 * n, S16Bytes(e.mediaRateInteger), S16Bytes(e.mediaRateFraction));
    U16ReadsBack(data, at + 2 * n, Wrapped(e.mediaRateInteger, 0x8000));
    U16ReadsBack(data, at + 2 * n + 2, Wrapped(e.mediaRateFraction, 0x8000));
    hide U64At, U32At, U16At, Signed, Wrapped, U64Bytes, U32Bytes, U16Bytes;
  }

  lemma {:induction false} EntriesLength(entries: seq<EditListEntry>, version: Byte)
    requires forall e :: e in entries ==> ValidEntry(e, version)
    ensures |EntriesBytes(entries, version)| == |entries| * EntrySize(version)
  {
    if entries != [] {
      assert entries[0] in entries;
      EntriesLength(entries[1..], version);
      var n := EntrySize(version);
      assert |entries| * n == n + (|entries| - 1) * n;
      hide EntryBytes, ValidEntry;
    }
  }

  lemma EntriesHead(data: seq<Byte>, at: nat, version: Byte, n: nat)
    requires n > 0 && at + n * EntrySize(version) <= |data|
    ensures at + EntrySize(version) <= |data| && at + EntrySize(version) + (n - 1) * EntrySize(version) <= |data|
    ensures Entries(data, at, version, n)
         == [EntryAt(data, at, version)] + Entries(data, at + EntrySize(version), version, n - 1)
  {
    var size := EntrySize(version);
    assert n * size == size + (n - 1) * size;
    forall i | 0 < i < n ensures at + size + (i - 1) * size == at + i * size {}
    hide EntryAt;
  }

  lemma {:induction false} EntriesAreRead(data: seq<Byte>, at: nat, entries: seq<EditListEntry>, version: Byte)
    requires (forall e :: e in entries ==> ValidEntry(e, version)) && Holds(data, at, EntriesBytes(entries, version))
    ensures |EntriesBytes(entries, version)| == |entries| * EntrySize(version) && at + |entries| * EntrySize(version) <= |data|
    ensures Entries(data, at, version, |entries|) == entries
    decreases entries
  {
    EntriesLength(entries, version);
    if entries != [] {
      assert entries[0] in entries;
      HoldsParts(data, at, EntryBytes(entries[0], version), EntriesBytes(entries[1..], version));
      EntryReadsBack(data, at, entries[0], version);
      EntriesAreRead(data, at + EntrySize(version), entries[1..], version);
      EntriesHead(data, at, version, |entries|);
      assert entries == [entries[0]] + entries[1..];
    }
    hide EntryAt, Entries, ValidEntry, EntryBytes;
  }

  /** The edits are the ones written, with their signs, at their width. */
  lemma EditListReadsBack(data: seq<Byte>, c: nat, e: nat, l: EditList, t: Track)
    requires ValidEditList(l) && Holds(data, c, EditListBytes(l)) && e == c + |EditListBytes(l)|
    ensures Elst(data, c, e, t) == Some(t.(edits := t.edits + l.entries))
  {
    var n := |l.entries|;
    var all := EntriesBytes(l.entries, l.version);
    assert EditListBytes(l) == [l.version] + l.flags + U32Bytes(n) + all + l.rest;
    FourParts(data, c, [l.version] + l.flags, U32Bytes(n), all, l.rest);
    FirstByte(data, c, [l.version] + l.flags);
    U32ReadsBack(data, c + 4, n);
    EntriesAreRead(data, c + 8, l.entries, l.version);
    hide EntrySize, Entries, EntriesBytes, EditListBytes, U32At, U32Bytes, ValidEditList, Holds;
  }

  lemma FirstByte(data: seq<Byte>, c: nat, bytes: seq<Byte>)
    requires Holds(data, c, bytes) && bytes != []
    ensures c < |data| && data[c] == bytes[0]
  {
    assert data[c] == data[c..c + |bytes|][0];
  }


  // ---------------------------------------------------------------------
  // The scan of a written file.
  // ---------------------------------------------------------------------

  /** The box that payload makes at pos. */
  function Extent(pos: nat, payload: seq<Byte>): (b: Box)
    ensures b.ContentStart() == pos + 8 && b.ContentEnd() == pos + 8 + |payload| && b.headerLen == 8 <= b.size
  {
    Box(pos, 8 + |payload|, 8)
  }

  /** How a walk goes on after a visit. */
  function Onward(level: Level, data: seq<Byte>, v: Outgoing, pos: nat, end: nat): Outgoing
    requires pos <= end <= |data|
  {
    if v.ok then Walk(level, data, pos, end, v.state) else v
  }

  /** A written box is visited with its type and extent, and the walk goes on
      behind it. */
  lemma WalkStep(level: Level, data: seq<Byte>, pos: nat, end: nat, s: State, name: BoxName, payload: seq<Byte>)
    requires BoxStands(data, pos, end, name, payload)
    ensures pos + 8 + |payload| <= end <= |data| && Holds(data, pos + 8, payload)
    ensures var v := Visit(level, data, Code(name), Extent(pos, payload), s);
      Walk(level, data, pos, end, s) == Onward(level, data, v, pos + 8 + |payload|, end)
  {
    hide *;
    BoxIsParsed(data, pos, end, name, payload);
    WalkHead(level, data, pos, end, s);
    ExtentIs(pos, payload);
    OnwardIs(level, data, Visit(level, data, Code(name), Extent(pos, payload), s), pos + 8 + |payload|, end);
  }

  lemma ExtentIs(pos: nat, payload: seq<Byte>)
    ensures Extent(pos, payload) == Box(pos, 8 + |payload|, 8)
  {}

  lemma OnwardIs(level: Level, data: seq<Byte>, v: Outgoing, pos: nat, end: nat)
    requires pos <= end <= |data|
    ensures Onward(level, data, v, pos, end) == if v.ok then Walk(level, data, pos, end, v.state) else v
  {
    hide Walk;
  }

  /** The codes of the boxes inside a movie box are told apart. */
  lemma NestedCodes()
    ensures IsType(Code(NameMvhd), "mvhd") && IsType(Code(NameTrak), "trak") && IsType(Code(NameTkhd), "tkhd")
    ensures IsType(Code(NameMdia), "mdia") && IsType(Code(NameEdts), "edts")
    ensures IsType(Code(NameMdhd), "mdhd") && IsType(Code(NameElst), "elst")
    ensures !IsType(Code(NameTrak), "mvhd") && !IsType(Code(NameMdia), "tkhd")
    ensures !IsType(Code(NameEdts), "tkhd") && !IsType(Code(NameEdts), "mdia")
  {
    assert Code(NameTrak)[0] != "mvhd"[0] as int;
    assert Code(NameMdia)[0] != "tkhd"[0] as int;
    assert Code(NameEdts)[0] != "tkhd"[0] as int && Code(NameEdts)[0] != "mdia"[0] as int;
  }

  // --- Each leaf ---

  lemma FieldVisits(data: seq<Byte>, b: Box, s: State, x: int)
    requires b.headerLen == 8 <= b.size && b.ContentEnd() <= |data|
    requires VersionedField(data, b.ContentStart(), b.ContentEnd()) == Some(x)
    ensures Visit(MoovLevel, data, Code(NameMvhd), b, s) == Outgoing(true, 0, s.(result := s.result.(movieTimescale := x)))
    ensures Visit(TrakLevel, data, Code(NameTkhd), b, s) == Outgoing(true, 0, s.(track := s.track.(trackId := x)))
    ensures Visit(MdiaLevel, data, Code(NameMdhd), b, s) == Outgoing(true, 0, s.(track := s.track.(mediaTimescale := x)))
  {
    NestedCodes();
    hide IsType, Code, VersionedField, Walk, Elst, Ftyp;
  }

  lemma FieldIsVisited(data: seq<Byte>, pos: nat, s: State, f: FullBox)
    requires ValidFullBox(f) && Holds(data, pos + 8, FullBoxBytes(f))
    ensures pos + 8 + |FullBoxBytes(f)| <= |data|
    ensures var b := Extent(pos, FullBoxBytes(f));
      && Visit(MoovLevel, data, Code(NameMvhd), b, s) == Outgoing(true, 0, s.(result := s.result.(movieTimescale := f.field)))
      && Visit(TrakLevel, data, Code(NameTkhd), b, s) == Outgoing(true, 0, s.(track := s.track.(trackId := f.field)))
      && Visit(MdiaLevel, data, Code(NameMdhd), b, s) == Outgoing(true, 0, s.(track := s.track.(mediaTimescale := f.field)))
  {
    var p := FullBoxBytes(f);
    assert pos + 8 + |p| <= |data|;
    hide *;
    FieldReadsBack(data, pos + 8, pos + 8 + |p|, f);
    FieldVisits(data, Extent(pos, p), s, f.field);
  }

  lemma EditListVisit(data: seq<Byte>, b: Box, s: State, t: Track)
    requires b.headerLen == 8 <= b.size && b.ContentEnd() <= |data|
    requires Elst(data, b.ContentStart(), b.ContentEnd(), s.track) == Some(t)
    ensures Visit(EdtsLevel, data, Code(NameElst), b, s) == Outgoing(true, 0, s.(track := t))
  {
    NestedCodes();
    hide IsType, Code, VersionedField, Walk, Elst, Ftyp;
  }

  /** The only box of its container, accepted. */
  lemma OnlyBox(level: Level, data: seq<Byte>, pos: nat, end: nat, s: State, name: BoxName, payload: seq<Byte>, after: State)
    requires BoxStands(data, pos, end, name, payload) && end == pos + 8 + |payload|
    requires Visit(level, data, Code(name), Extent(pos, payload), s) == Outgoing(true, 0, after)
    ensures pos <= end <= |data| && Walk(level, data, pos, end, s) == Outgoing(true, 0, after)
  {
    hide *;
    WalkStep(level, data, pos, end, s, name, payload);
    OnwardIs(level, data, Outgoing(true, 0, after), end, end);
    EmptyWalk(level, data, end, after);
  }

  lemma MediaIsScanned(data: seq<Byte>, pos: nat, end: nat, s: State, f: FullBox)
    requires ValidFullBox(f) && BoxStands(data, pos, end, NameMdhd, FullBoxBytes(f)) && end == pos + 8 + |FullBoxBytes(f)|
    ensures pos <= end <= |data|
    ensures Walk(MdiaLevel, data, pos, end, s) == Outgoing(true, 0, s.(track := s.track.(mediaTimescale := f.field)))
  {
    hide *;
    WalkStep(MdiaLevel, data, pos, end, s, NameMdhd, FullBoxBytes(f));
    FieldIsVisited(data, pos, s, f);
    OnlyBox(MdiaLevel, data, pos, end, s, NameMdhd, FullBoxBytes(f), s.(track := s.track.(mediaTimescale := f.field)));
  }

  lemma EditsAreScanned(data: seq<Byte>, pos: nat, end: nat, s: State, l: EditList)
    requires ValidEditList(l) && BoxStands(data, pos, end, NameElst, EditListBytes(l)) && end == pos + 8 + |EditListBytes(l)|
    ensures pos <= end <= |data|
    ensures Walk(EdtsLevel, data, pos, end, s) == Outgoing(true, 0, s.(track := s.track.(edits := s.track.edits + l.entries)))
  {
    hide *;
    var p, t := EditListBytes(l), s.track.(edits := s.track.edits + l.entries);
    WalkStep(EdtsLevel, data, pos, end, s, NameElst, p);
    EditListReadsBack(data, pos + 8, pos + 8 + |p|, l, s.track);
    EditListVisit(data, Extent(pos, p), s, t);
    OnlyBox(EdtsLevel, data, pos, end, s, NameElst, p, s.(track := t));
  }

  // --- A track ---

  /** Containers hand the walk on to their content. */
  lemma ContainerVisits(data: seq<Byte>, b: Box, s: State)
    requires b.headerLen == 8 <= b.size && b.ContentEnd() <= |data|
    ensures Visit(TrakLevel, data, Code(NameMdia), b, s) == Walk(MdiaLevel, data, b.ContentStart(), b.ContentEnd(), s)
    ensures Visit(TrakLevel, data, Code(NameEdts), b, s) == Walk(EdtsLevel, data, b.ContentStart(), b.ContentEnd(), s)
    ensures var w := Walk(TrakLevel, data, b.ContentStart(), b.ContentEnd(), s.(track := NEW_TRACK));
      w.ok ==> Visit(MoovLevel, data, Code(NameTrak), b, s)
               == w.(state := w.state.(result := w.state.result.(tracks := w.state.result.tracks + [w.state.track])))
  {
    NestedCodes();
    hide IsType, Code, VersionedField, Walk, Elst, Ftyp;
  }

  /** Bytes at pos that end with the range: the first box and the rest of it. */
  lemma FirstStands(data: seq<Byte>, pos: nat, end: nat, name: BoxName, payload: seq<Byte>, rest: seq<Byte>)
    requires Holds(data, pos, Boxed(name, payload) + rest) && end == pos + 8 + |payload| + |rest| && |data| < 0x1_0000_0000
    ensures BoxStands(data, pos, end, name, payload) && pos + 8 + |payload| <= end <= |data|
    ensures Holds(data, pos + 8 + |payload|, rest)
  {
    HoldsParts(data, pos, Boxed(name, payload), rest);
  }

  lemma InnerStands(data: seq<Byte>, pos: nat, end: nat, name: BoxName, payload: seq<Byte>)
    requires Holds(data, pos, Boxed(name, payload)) && end == pos + 8 + |payload| && |data| < 0x1_0000_0000
    ensures BoxStands(data, pos, end, name, payload) && end <= |data|
  {}

  lemma MediaBoxIsVisited(data: seq<Byte>, pos: nat, s: State, f: FullBox)
    requires ValidFullBox(f) && |data| < 0x1_0000_0000
    requires Holds(data, pos + 8, Boxed(NameMdhd, FullBoxBytes(f)))
    ensures pos + 16 + |FullBoxBytes(f)| <= |data|
    ensures Visit(TrakLevel, data, Code(NameMdia), Extent(pos, Boxed(NameMdhd, FullBoxBytes(f))), s)
         == Outgoing(true, 0, s.(track := s.track.(mediaTimescale := f.field)))
  {
    hide *;
    var p := FullBoxBytes(f);
    InnerStands(data, pos + 8, pos + 16 + |p|, NameMdhd, p);
    MediaIsScanned(data, pos + 8, pos + 16 + |p|, s, f);
    ContainerVisits(data, Extent(pos, Boxed(NameMdhd, p)), s);
  }

  lemma EditBoxIsVisited(data: seq<Byte>, pos: nat, s: State, l: EditList)
    requires ValidEditList(l) && |data| < 0x1_0000_0000
    requires Holds(data, pos + 8, Boxed(NameElst, EditListBytes(l)))
    ensures pos + 16 + |EditListBytes(l)| <= |data|
    ensures Visit(TrakLevel, data, Code(NameEdts), Extent(pos, Boxed(NameElst, EditListBytes(l))), s)
         == Outgoing(true, 0, s.(track := s.track.(edits := s.track.edits + l.entries)))
  {
    hide *;
    var p := EditListBytes(l);
    InnerStands(data, pos + 8, pos + 16 + |p|, NameElst, p);
    EditsAreScanned(data, pos + 8, pos + 16 + |p|, s, l);
    ContainerVisits(data, Extent(pos, Boxed(NameElst, p)), s);
  }

  /** What a track box without a name yet adds up to. */
  lemma TrackIsScanned(data: seq<Byte>, pos: nat, end: nat, s: State, t: TrackBox)
    requires ValidTrack(t) && Holds(data, pos, TrackBytes(t)) && end == pos + |TrackBytes(t)| && |data| < 0x1_0000_0000
    requires s.track == NEW_TRACK
    ensures pos <= end <= |data|
    ensures Walk(TrakLevel, data, pos, end, s) == Outgoing(true, 0, s.(track := TrackOfBox(t)))
  {
    hide *;
    TrackParts(t);
    var head, media, edits := FullBoxBytes(t.header), Boxed(NameMdhd, FullBoxBytes(t.media)), EditsBytes(t);
    var s1 := s.(track := s.track.(trackId := t.header.field));
    var s2 := s1.(track := s1.track.(mediaTimescale := t.media.field));
    var mid := pos + 8 + |head|;
    var last := mid + 8 + |media|;
    FirstStands(data, pos, end, NameTkhd, head, Boxed(NameMdia, media) + edits);
    WalkStep(TrakLevel, data, pos, end, s, NameTkhd, head);
    FieldIsVisited(data, pos, s, t.header);
    OnwardIs(TrakLevel, data, Outgoing(true, 0, s1), mid, end);
    FirstStands(data, mid, end, NameMdia, media, edits);
    WalkStep(TrakLevel, data, mid, end, s1, NameMdia, media);
    MediaBoxIsVisited(data, mid, s1, t.media);
    OnwardIs(TrakLevel, data, Outgoing(true, 0, s2), last, end);
    LastOfTrack(data, last, end, s2, t);
  }

  lemma TrackParts(t: TrackBox)
    requires ValidTrack(t)
    ensures ValidFullBox(t.header) && ValidFullBox(t.media)
    ensures TrackBytes(t)
         == Boxed(NameTkhd, FullBoxBytes(t.header)) + (Boxed(NameMdia, Boxed(NameMdhd, FullBoxBytes(t.media))) + EditsBytes(t))
    ensures |TrackBytes(t)|
         == 8 + |FullBoxBytes(t.header)| + 8 + |Boxed(NameMdhd, FullBoxBytes(t.media))| + |EditsBytes(t)|
    ensures TrackOfBox(t) == Track(t.header.field, t.media.field, NEW_TRACK.edits + EntriesOf(t))
  {
    assert [] + EntriesOf(t) == EntriesOf(t);
    hide FullBoxBytes, EditsBytes, ValidEditList;
  }

  lemma LastOfTrack(data: seq<Byte>, pos: nat, end: nat, s: State, t: TrackBox)
    requires ValidTrack(t) && Holds(data, pos, EditsBytes(t)) && end == pos + |EditsBytes(t)| && |data| < 0x1_0000_0000
    ensures pos <= end <= |data|
    ensures Walk(TrakLevel, data, pos, end, s)
         == Outgoing(true, 0, s.(track := s.track.(edits := s.track.edits + EntriesOf(t))))
  {
    if t.edits.None? {
      assert EditsBytes(t) == [] && s.track.edits + [] == s.track.edits;
      hide *;
      EmptyWalk(TrakLevel, data, end, s);
    } else {
      var l := t.edits.value;
      var p := Boxed(NameElst, EditListBytes(l));
      var after := s.(track := s.track.(edits := s.track.edits + l.entries));
      assert ValidEditList(l) && EditsBytes(t) == Boxed(NameEdts, p) && pos <= end <= |data|;
      hide *;
      InnerStands(data, pos, end, NameEdts, p);
      WalkStep(TrakLevel, data, pos, end, s, NameEdts, p);
      EditBoxIsVisited(data, pos, s, l);
      OnlyBox(TrakLevel, data, pos, end, s, NameEdts, p, after);
    }
  }

  // --- A movie ---

  /** The result and the track at hand after one more track box. */
  function WithTrack(s: State, t: TrackBox): State {
    State(s.result.(tracks := s.result.tracks + [TrackOfBox(t)]), TrackOfBox(t))
  }

  lemma TrackBoxIsVisited(data: seq<Byte>, pos: nat, s: State, t: TrackBox)
    requires ValidTrack(t) && Holds(data, pos + 8, TrackBytes(t)) && |data| < 0x1_0000_0000
    ensures pos + 8 + |TrackBytes(t)| <= |data|
    ensures Visit(MoovLevel, data, Code(NameTrak), Extent(pos, TrackBytes(t)), s) == Outgoing(true, 0, WithTrack(s, t))
  {
    hide *;
    WithTrackIs(s, t);
    TrackIsScanned(data, pos + 8, pos + 8 + |TrackBytes(t)|, s.(track := NEW_TRACK), t);
    ContainerVisits(data, Extent(pos, TrackBytes(t)), s);
  }

  lemma WithTrackIs(s: State, t: TrackBox)
    ensures WithTrack(s, t) == State(s.result.(tracks := s.result.tracks + [TrackOfBox(t)]), TrackOfBox(t))
  {}

  lemma {:induction false} TracksAreScanned(data: seq<Byte>, pos: nat, end: nat, s: State, tracks: seq<TrackBox>)
      returns (after: Track)
    requires (forall t :: t in tracks ==> ValidTrack(t)) && |data| < 0x1_0000_0000
    requires Holds(data, pos, TracksBytes(tracks)) && end == pos + |TracksBytes(tracks)|
    ensures pos <= end <= |data|
    ensures Walk(MoovLevel, data, pos, end, s)
         == Outgoing(true, 0, State(s.result.(tracks := s.result.tracks + TracksOfBoxes(tracks)), after))
    decreases tracks
  {
    hide *;
    if tracks == [] {
      NoTracks(data, pos, end, s);
      EmptyWalk(MoovLevel, data, end, s);
      after := s.track;
    } else {
      TracksHead(s, tracks);
      var p, rest := TrackBytes(tracks[0]), TracksBytes(tracks[1..]);
      var s1 := WithTrack(s, tracks[0]);
      var mid := pos + 8 + |p|;
      FirstStands(data, pos, end, NameTrak, p, rest);
      WalkStep(MoovLevel, data, pos, end, s, NameTrak, p);
      TrackBoxIsVisited(data, pos, s, tracks[0]);
      OnwardIs(MoovLevel, data, Outgoing(true, 0, s1), mid, end);
      after := TracksAreScanned(data, mid, end, s1, tracks[1..]);
    }
  }

  lemma NoTracks(data: seq<Byte>, pos: nat, end: nat, s: State)
    requires Holds(data, pos, TracksBytes([])) && end == pos + |TracksBytes([])|
    ensures pos == end <= |data|
    ensures State(s.result.(tracks := s.result.tracks + TracksOfBoxes([])), s.track) == s
  {
    assert s.result.tracks + [] == s.result.tracks;
  }

  lemma TracksHead(s: State, tracks: seq<TrackBox>)
    requires (forall t :: t in tracks ==> ValidTrack(t)) && tracks != []
    ensures ValidTrack(tracks[0]) && forall t :: t in tracks[1..] ==> ValidTrack(t)
    ensures TracksBytes(tracks) == Boxed(NameTrak, TrackBytes(tracks[0])) + TracksBytes(tracks[1..])
    ensures |TracksBytes(tracks)| == 8 + |TrackBytes(tracks[0])| + |TracksBytes(tracks[1..])|
    ensures WithTrack(s, tracks[0]).result.(tracks := WithTrack(s, tracks[0]).result.tracks + TracksOfBoxes(tracks[1..]))
         == s.result.(tracks := s.result.tracks + TracksOfBoxes(tracks))
  {
    assert tracks[0] in tracks;
    assert TracksOfBoxes(tracks) == [TrackOfBox(tracks[0])] + TracksOfBoxes(tracks[1..]);
    TracksRegroup(s.result.tracks, [TrackOfBox(tracks[0])], TracksOfBoxes(tracks[1..]));
    hide TracksOfBoxes, TrackOfBox, TrackBytes, ValidTrack;
  }

  lemma TracksRegroup(a: seq<Track>, b: seq<Track>, c: seq<Track>)
    ensures a + b + c == a + (b + c)
  {}

  lemma MovieIsScanned(data: seq<Byte>, pos: nat, end: nat, s: State, header: FullBox, tracks: seq<TrackBox>)
      returns (after: Track)
    requires ValidItem(MovieBox(header, tracks)) && |data| < 0x1_0000_0000
    requires var p := Payload(MovieBox(header, tracks)); Holds(data, pos, p) && end == pos + |p|
    ensures pos <= end <= |data|
    ensures Walk(MoovLevel, data, pos, end, s)
         == Outgoing(true, 0, State(s.result.(movieTimescale := header.field,
                                              tracks := s.result.tracks + TracksOfBoxes(tracks)), after))
  {
    hide *;
    MovieParts(header, tracks);
    var head, rest := FullBoxBytes(header), TracksBytes(tracks);
    var s1 := s.(result := s.result.(movieTimescale := header.field));
    var mid := pos + 8 + |head|;
    FirstStands(data, pos, end, NameMvhd, head, rest);
    WalkStep(MoovLevel, data, pos, end, s, NameMvhd, head);
    FieldIsVisited(data, pos, s, header);
    OnwardIs(MoovLevel, data, Outgoing(true, 0, s1), mid, end);
    after := TracksAreScanned(data, mid, end, s1, tracks);
  }

  lemma MovieParts(header: FullBox, tracks: seq<TrackBox>)
    requires ValidItem(MovieBox(header, tracks))
    ensures ValidFullBox(header) && forall t :: t in tracks ==> ValidTrack(t)
    ensures Payload(MovieBox(header, tracks)) == Boxed(NameMvhd, FullBoxBytes(header)) + TracksBytes(tracks)
    ensures |Payload(MovieBox(header, tracks))| == 8 + |FullBoxBytes(header)| + |TracksBytes(tracks)|
  {}

  // --- A file ---

  lemma TopLevelTypes(c: seq<Byte>)
    ensures IsType(c, "ftyp") <==> c == Code(NameFtyp)
    ensures IsType(c, "moov") <==> c == Code(NameMoov)
    ensures IsType(c, "mdat") <==> c == Code(NameMdat)
    ensures IsType(c, "moof") <==> c == Code(NameMoof)
    ensures IsType(c, "sidx") <==> c == Code(NameSidx)
    ensures IsType(c, "free") <==> c == Code(NameFree)
  {
    if |c| == 4 {
      assert c == [c[0], c[1], c[2], c[3]];
    }
  }

  /** Which code is listed under which name, and what else is done with it. */
  lemma TopLevelCode(item: Item)
    ensures var c := Code(NameOf(item));
      && TrackedName(c) == Some(NameText(item))
      && (IsType(c, "ftyp") <==> item.FileType?) && (IsType(c, "moov") <==> item.MovieBox?)
      && (IsType(c, "moof") <==> item.Fragment?) && (IsType(c, "sidx") <==> item.SegmentIndex?)
  {
    var c := Code(NameOf(item));
    TopLevelTypes(c);
    CodesDiffer(NameOf(item));
    hide IsType, Code;
  }

  lemma CodesDiffer(n: BoxName)
    ensures n != NameFtyp ==> Code(n) != Code(NameFtyp)
    ensures n != NameMoov ==> Code(n) != Code(NameMoov)
    ensures n != NameMdat ==> Code(n) != Code(NameMdat)
    ensures n != NameMoof ==> Code(n) != Code(NameMoof)
    ensures n != NameSidx ==> Code(n) != Code(NameSidx)
    ensures n != NameFree ==> Code(n) != Code(NameFree)
  {
    var c := Code(n);
    assert c == [c[0], c[1], c[2], c[3]];
  }

  lemma FileTypeVisit(data: seq<Byte>, b: Box, s: State, item: Item, r: ScanResult)
    requires b.headerLen == 8 <= b.size && b.ContentEnd() <= |data| && item.FileType?
    requires Ftyp(data, b.ContentStart(), b.ContentEnd(), Listed(item, b, s.result)) == Some(r)
    ensures Visit(FileLevel, data, Code(NameFtyp), b, s) == Outgoing(true, 0, s.(result := r))
  {
    TopLevelCode(item);
    hide IsType, TrackedName, Code, Walk, Ftyp;
  }

  lemma MovieVisit(data: seq<Byte>, b: Box, s: State, item: Item)
    requires b.headerLen == 8 <= b.size && b.ContentEnd() <= |data| && item.MovieBox?
    ensures Visit(FileLevel, data, Code(NameMoov), b, s)
         == Walk(MoovLevel, data, b.ContentStart(), b.ContentEnd(), s.(result := Listed(item, b, s.result)))
  {
    TopLevelCode(item);
    hide IsType, TrackedName, Code, Walk, Ftyp;
  }

  lemma OtherVisit(data: seq<Byte>, b: Box, s: State, item: Item)
    requires b.headerLen == 8 <= b.size && b.ContentEnd() <= |data| && !item.FileType? && !item.MovieBox?
    ensures var r := Listed(item, b, s.result);
      Visit(FileLevel, data, Code(NameOf(item)), b, s)
      == Outgoing(true, 0, s.(result := r.(moofCount := r.moofCount + (if item.Fragment? then 1 else 0),
                                           hasSidx := r.hasSidx || item.SegmentIndex?)))
  {
    TopLevelCode(item);
    hide IsType, TrackedName, Code, Walk, Ftyp;
  }

  function Listed(item: Item, b: Box, r: ScanResult): ScanResult {
    r.(topLevel := r.topLevel + [BoxRecord(NameText(item), b.start, b.size)])
  }

  lemma FileTypeIsVisited(data: seq<Byte>, pos: nat, s: State, item: Item)
    requires ValidItem(item) && item.FileType? && Holds(data, pos + 8, Payload(item))
    ensures pos + 8 + |Payload(item)| <= |data|
    ensures Visit(FileLevel, data, Code(NameFtyp), Extent(pos, Payload(item)), s)
         == Outgoing(true, 0, s.(result := DescribedItem(item, pos, s.result)))
  {
    hide *;
    var p := Payload(item);
    var b := Extent(pos, p);
    HoldsEnds(data, pos + 8, p);
    DescribedIs(item, pos, s.result);
    FileTypeReadsBack(data, pos + 8, pos + 8 + |p|, item.major, item.minor, item.brands, item.stray, Listed(item, b, s.result));
    FileTypeVisit(data, b, s, item, DescribedItem(item, pos, s.result));
  }

  lemma HoldsEnds(data: seq<Byte>, pos: nat, bytes: seq<Byte>)
    requires Holds(data, pos, bytes)
    ensures pos + |bytes| <= |data|
  {}

  lemma DescribedIs(item: Item, pos: nat, r: ScanResult)
    requires ValidItem(item)
    ensures var q := Listed(item, Extent(pos, Payload(item)), r);
      DescribedItem(item, pos, r) == match item
        case FileType(major, minor, brands, _) =>
          q.(majorBrand := major, minorVersion := minor, compatibleBrands := q.compatibleBrands + brands)
        case MovieBox(header, tracks) => q.(movieTimescale := header.field, tracks := q.tracks + TracksOfBoxes(tracks))
        case _ => q.(moofCount := q.moofCount + (if item.Fragment? then 1 else 0), hasSidx := q.hasSidx || item.SegmentIndex?)
  {}

  lemma MovieIsVisited(data: seq<Byte>, pos: nat, s: State, item: Item) returns (after: Track)
    requires ValidItem(item) && item.MovieBox? && Holds(data, pos + 8, Payload(item)) && |data| < 0x1_0000_0000
    ensures pos + 8 + |Payload(item)| <= |data|
    ensures Visit(FileLevel, data, Code(NameMoov), Extent(pos, Payload(item)), s)
         == Outgoing(true, 0, State(DescribedItem(item, pos, s.result), after))
  {
    hide *;
    var p := Payload(item);
    var b := Extent(pos, p);
    HoldsEnds(data, pos + 8, p);
    DescribedIs(item, pos, s.result);
    MovieVisit(data, b, s, item);
    after := MovieIsScanned(data, pos + 8, pos + 8 + |p|, s.(result := Listed(item, b, s.result)), item.header, item.tracks);
  }

  lemma OtherIsVisited(data: seq<Byte>, pos: nat, s: State, item: Item)
    requires ValidItem(item) && !item.FileType? && !item.MovieBox? && Holds(data, pos + 8, Payload(item))
    ensures pos + 8 + |Payload(item)| <= |data|
    ensures Visit(FileLevel, data, Code(NameOf(item)), Extent(pos, Payload(item)), s)
         == Outgoing(true, 0, s.(result := DescribedItem(item, pos, s.result)))
  {
    hide *;
    HoldsEnds(data, pos + 8, Payload(item));
    DescribedIs(item, pos, s.result);
    OtherVisit(data, Extent(pos, Payload(item)), s, item);
  }

  /** One written top-level box is recorded as described. */
  lemma ItemIsVisited(data: seq<Byte>, pos: nat, s: State, item: Item) returns (after: Track)
    requires ValidItem(item) && Holds(data, pos + 8, Payload(item)) && |data| < 0x1_0000_0000
    ensures pos + 8 + |Payload(item)| <= |data|
    ensures Visit(FileLevel, data, Code(NameOf(item)), Extent(pos, Payload(item)), s)
         == Outgoing(true, 0, State(DescribedItem(item, pos, s.result), after))
  {
    hide *;
    NameIs(item);
    if item.FileType? {
      FileTypeIsVisited(data, pos, s, item);
      after := s.track;
    } else if item.MovieBox? {
      after := MovieIsVisited(data, pos, s, item);
    } else {
      OtherIsVisited(data, pos, s, item);
      after := s.track;
    }
  }

  lemma NameIs(item: Item)
    ensures item.FileType? ==> NameOf(item) == NameFtyp
    ensures item.MovieBox? ==> NameOf(item) == NameMoov
  {}

  lemma {:induction false} ItemsAreScanned(data: seq<Byte>, pos: nat, s: State, items: seq<Item>) returns (after: Track)
    requires (forall i :: i in items ==> ValidItem(i)) && |data| < 0x1_0000_0000
    requires Holds(data, pos, FileBytes(items)) && |data| == pos + |FileBytes(items)|
    ensures Walk(FileLevel, data, pos, |data|, s) == Outgoing(true, 0, State(Described(items, pos, s.result), after))
    decreases items
  {
    hide *;
    if items == [] {
      NoItems(pos, s.result);
      EmptyWalk(FileLevel, data, pos, s);
      after := s.track;
    } else {
      ItemsHead(items, pos, s.result);
      var p, rest := Payload(items[0]), FileBytes(items[1..]);
      var mid := pos + 8 + |p|;
      FirstStands(data, pos, |data|, NameOf(items[0]), p, rest);
      WalkStep(FileLevel, data, pos, |data|, s, NameOf(items[0]), p);
      after := ItemIsVisited(data, pos, s, items[0]);
      var s1 := State(DescribedItem(items[0], pos, s.result), after);
      OnwardIs(FileLevel, data, Outgoing(true, 0, s1), mid, |data|);
      after := ItemsAreScanned(data, mid, s1, items[1..]);
    }
  }

  lemma NoItems(pos: nat, r: ScanResult)
    ensures FileBytes([]) == [] && Described([], pos, r) == r
  {}

  lemma ItemsHead(items: seq<Item>, pos: nat, r: ScanResult)
    requires (forall i :: i in items ==> ValidItem(i)) && items != []
    ensures ValidItem(items[0]) && forall i :: i in items[1..] ==> ValidItem(i)
    ensures FileBytes(items) == Boxed(NameOf(items[0]), Payload(items[0])) + FileBytes(items[1..])
    ensures |FileBytes(items)| == 8 + |Payload(items[0])| + |FileBytes(items[1..])|
    ensures Described(items, pos, r) == Described(items[1..], pos + 8 + |Payload(items[0])|, DescribedItem(items[0], pos, r))
  {
    assert items[0] in items;
    hide DescribedItem, Payload, ValidItem;
  }

  /** A file written box by box is scanned to its end, and what the scan
      records is what was written: the extents, the file type, the timescales,
      the track numbers and the edits, for either version of each box. */
  lemma WrittenFileIsScanned(items: seq<Item>)
    requires (forall i :: i in items ==> ValidItem(i)) && |FileBytes(items)| < 0x1_0000_0000
    ensures var data := FileBytes(items);
      var w := Walk(FileLevel, data, 0, |data|, State(EMPTY_RESULT, NEW_TRACK));
      w.ok && w.state.result == Described(items, 0, EMPTY_RESULT)
  {
    var data := FileBytes(items);
    assert data[0..|data|] == data;
    var _ := ItemsAreScanned(data, 0, State(EMPTY_RESULT, NEW_TRACK), items);
    hide Walk, Described, FileBytes;
  }
}
