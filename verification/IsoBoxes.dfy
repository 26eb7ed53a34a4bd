/** Boxes of the ISO base media file format: headers (section 4.2 of ISO/IEC
    14496-12) and the tiling of a byte range by boxes. */
module IsoBoxes {
  import opened MachineInts
  import opened BigEndian

  /** A value, or the writer's refusal. */
  datatype Outcome<T> = Fine(value: T) | FixtureError

  datatype Header = Header(size: int, boxType: seq<Byte>, headerLen: int)

  /** Where a box was found. */
  datatype Box = Box(start: nat, size: nat, headerLen: nat) {
    function ContentStart(): nat {
      start + headerLen
    }

    function ContentEnd(): nat {
      start + size
    }
  }

  function ParseBoxHeader(data: seq<Byte>, pos: nat, end: nat): (h: Outcome<Header>)
    requires end <= |data|
    ensures h.Fine? ==> 8 <= h.value.headerLen <= h.value.size && pos + h.value.size <= end && |h.value.boxType| == 4
  {
    if pos + 8 > end then FixtureError
    else
      var declared := U32At(data, pos);
      if declared == 1 && pos + 16 > end then FixtureError
      else
        var size := if declared == 1 then U64At(data, pos + 8) else if declared == 0 then end - pos else declared;
        var headerLen := if declared == 1 then 16 else 8;
        if size < headerLen || pos + size > end then FixtureError
        else Fine(Header(size, data[pos + 4..pos + 8], headerLen))
  }

  /** The type field, read from a slice. */
  lemma TypeOfSlice(data: seq<Byte>, from: nat, n: nat)
    requires from + n <= |data| && n >= 8
    ensures data[from..from + n][4..8] == data[from + 4..from + 8]
  {
    var s := data[from..from + n];
    assert |s[4..8]| == 4 && |data[from + 4..from + 8]| == 4;
    assert forall k :: 0 <= k < 4 ==> s[4..8][k] == s[4 + k] == data[from + (4 + k)] == data[from + 4..from + 8][k];
  }

  /** All boxes that tile [pos, end), when they do. */
  function Children(data: seq<Byte>, pos: nat, end: nat): Outcome<seq<Box>>
    requires end <= |data|
    decreases end - pos
  {
    if pos >= end then Fine([])
    else
      var h := ParseBoxHeader(data, pos, end);
      if h.FixtureError? then FixtureError
      else
        var rest := Children(data, pos + h.value.size, end);
        if rest.FixtureError? then FixtureError
        else Fine([Box(pos, h.value.size, h.value.headerLen)] + rest.value)
  }

  lemma NoChildren(data: seq<Byte>, end: nat)
    requires end <= |data|
    ensures Children(data, end, end) == Fine([])
  {}

  lemma ChildrenHead(data: seq<Byte>, pos: nat, end: nat)
    requires pos < end <= |data| && Children(data, pos, end).Fine?
    ensures ParseBoxHeader(data, pos, end).Fine?
    ensures var h := ParseBoxHeader(data, pos, end).value;
      && Children(data, pos + h.size, end).Fine?
      && Children(data, pos, end) == Fine([Box(pos, h.size, h.headerLen)] + Children(data, pos + h.size, end).value)
      && (pos + h.size == end ==> Children(data, pos + h.size, end) == Fine([]))
  {}

  lemma ChildrenCons(data: seq<Byte>, pos: nat, end: nat, h: Header, rest: seq<Box>)
    requires pos < end <= |data| && ParseBoxHeader(data, pos, end) == Fine(h) && Children(data, pos + h.size, end) == Fine(rest)
    ensures Children(data, pos, end) == Fine([Box(pos, h.size, h.headerLen)] + rest)
  {}

  /** A box that fills its region is its only child. */
  lemma OneChild(data: seq<Byte>, pos: nat, end: nat)
    requires pos < end <= |data| && ParseBoxHeader(data, pos, end).Fine?
    requires pos + ParseBoxHeader(data, pos, end).value.size == end
    ensures var h := ParseBoxHeader(data, pos, end).value;
      Children(data, pos, end) == Fine([Box(pos, h.size, h.headerLen)])
  {
    var h := ParseBoxHeader(data, pos, end).value;
    assert Children(data, end, end) == Fine([]);
    assert [Box(pos, h.size, h.headerLen)] + [] == [Box(pos, h.size, h.headerLen)];
  }

  /** The boxes tile the range: they follow one another from its start to its
      end, each within it, and there is at most one per eight bytes. */
  predicate Tiles(boxes: seq<Box>, pos: nat, end: nat) {
    && (boxes == [] <==> pos == end)
    && (boxes != [] ==> boxes[0].start == pos && boxes[|boxes| - 1].ContentEnd() == end)
    && (forall i :: 0 <= i < |boxes| ==> pos <= boxes[i].start && 8 <= boxes[i].headerLen <= boxes[i].size && boxes[i].ContentEnd() <= end)
    && (forall i :: 0 <= i < |boxes| - 1 ==> boxes[i + 1].start == boxes[i].ContentEnd())
    && 8 * |boxes| <= end - pos
  }

  lemma {:induction false} ChildrenTile(data: seq<Byte>, pos: nat, end: nat)
    requires pos <= end <= |data| && Children(data, pos, end).Fine?
    ensures Tiles(Children(data, pos, end).value, pos, end)
    decreases end - pos
  {
    if pos < end {
      ChildrenHead(data, pos, end);
      var h := ParseBoxHeader(data, pos, end).value;
      ChildrenTile(data, pos + h.size, end);
      hide Children, ParseBoxHeader;
      TileCons(Box(pos, h.size, h.headerLen), Children(data, pos + h.size, end).value, pos, end);
    }
  }

  lemma TileCons(b: Box, rest: seq<Box>, pos: nat, end: nat)
    requires b.start == pos && 8 <= b.headerLen <= b.size && b.ContentEnd() <= end && Tiles(rest, b.ContentEnd(), end)
    ensures Tiles([b] + rest, pos, end)
  {
    var boxes := [b] + rest;
    assert forall i :: 1 <= i < |boxes| ==> boxes[i] == rest[i - 1];
  }
}
