/** The packet sweep under its byte budget. */
module PacketSweep {
  import opened MachineInts
  import opened Options
  import Products

  datatype PacketRecord = PacketRecord(pts: Int64, dts: Int64, duration: Int64, size: Int64, pos: Int64, flags: int)

  /** A demuxed packet: its record, its data, and its skip-samples side data, if
      it has any. */
  datatype Packet = Packet(stream: int, record: PacketRecord, payload: seq<Byte>, skip: Option<seq<Byte>>)

  /** What reading the next packet gives: a packet, the end, or a failure. */
  datatype Read = Got(packet: Packet) | EndOfFile | Failed

  datatype Limits = Limits(maxBytes: Int64, maxPacketsPerStream: Int64)

  /** The access unit parser of a stream: what the last of the packets it was
      fed yields, given their data and timestamps. */
  type Parser<!U> = (nat, seq<Packet>) -> Option<U>

  /** The sweep's fixed inputs. recordBytes and unitBytes are what one stored
      record and one stored access unit are charged. */
  datatype Sweep<!U> = Sweep(limits: Limits, recordBytes: Int64, unitBytes: Int64, parseUnits: bool, parser: Parser<U>)

  /** What is kept of a stream; fed, the accepted packets as they came, stands
      for the state of the stream's parser. */
  datatype StreamScan<U> = StreamScan(
    packets: seq<PacketRecord>, fed: seq<Packet>, byteTotal: int, partial: bool,
    firstPacketSkip: Option<int>, lastDiscardPadding: Option<int>,
    units: seq<U>, unitsPartial: bool)

  // ---------------------------------------------------------------------
  // What arrived.
  // ---------------------------------------------------------------------

  /** The packets of stream s among those received. */
  function Arrived(received: seq<Read>, s: nat): seq<Packet> {
    if received == [] then []
    else
      var last := received[|received| - 1];
      Arrived(received[..|received| - 1], s) + (if last.Got? && last.packet.stream == s then [last.packet] else [])
  }

  function Records(packets: seq<Packet>): (r: seq<PacketRecord>)
    ensures |r| == |packets|
  {
    seq(|packets|, i requires 0 <= i < |packets| => packets[i].record)
  }

  function SumOfSizes(records: seq<PacketRecord>): int {
    if records == [] then 0 else SumOfSizes(records[..|records| - 1]) + records[|records| - 1].size
  }

  function LittleEndian(b: seq<Byte>, at: nat): int
    requires at + 4 <= |b|
  {
    var b0: int, b1: int, b2: int, b3: int := b[at], b[at + 1], b[at + 2], b[at + 3];
    b0 + 0x100 * b1 + 0x1_0000 * b2 + 0x100_0000 * b3
  }

  function StartSkip(p: Packet): Option<int> {
    if p.skip.Some? && |p.skip.value| >= 4 then Some(LittleEndian(p.skip.value, 0)) else None
  }

  function EndSkip(p: Packet): Option<int> {
    if p.skip.Some? && |p.skip.value| >= 8 then Some(LittleEndian(p.skip.value, 4)) else None
  }

  /** The four bytes of x, the least significant first. */
  function LeastFirst(x: int): (b: seq<Byte>)
    requires 0 <= x < 0x1_0000_0000
    ensures |b| == 4
  {
    [x % 0x100, x / 0x100 % 0x100, x / 0x1_0000 % 0x100, x / 0x100_0000]
  }

  /** Side data that holds a start and an end skip is read back as those; what
      is too short for one has none. */
  lemma SkipsReadBack(p: Packet, start: int, end: int, rest: seq<Byte>)
    requires 0 <= start < 0x1_0000_0000 && 0 <= end < 0x1_0000_0000
    ensures p.skip == Some(LeastFirst(start) + LeastFirst(end) + rest) ==> StartSkip(p) == Some(start) && EndSkip(p) == Some(end)
    ensures p.skip == Some(LeastFirst(start) + rest) && |rest| < 4 ==> StartSkip(p) == Some(start) && EndSkip(p) == None
    ensures p.skip == None || |p.skip.value| < 4 ==> StartSkip(p) == None && EndSkip(p) == None
  {
    var a, b := LeastFirst(start), LeastFirst(end);
    var both, one := a + b + rest, a + rest;
    assert both[0] == a[0] && both[1] == a[1] && both[2] == a[2] && both[3] == a[3];
    assert both[4] == b[0] && both[5] == b[1] && both[6] == b[2] && both[7] == b[3];
    assert one[0] == a[0] && one[1] == a[1] && one[2] == a[2] && one[3] == a[3];
    LeastFirstReadsBack(start);
    LeastFirstReadsBack(end);
    hide LeastFirst;
  }

  lemma LeastFirstReadsBack(x: int)
    requires 0 <= x < 0x1_0000_0000
    ensures LittleEndian(LeastFirst(x), 0) == x
  {
    assert x / 0x1_0000 == x / 0x100 / 0x100 && x / 0x100_0000 == x / 0x100 / 0x100 / 0x100;
  }

  /** The end skip of the last packet that carries one. */
  function LastEndSkip(packets: seq<Packet>): Option<int> {
    if packets == [] then None
    else if EndSkip(packets[|packets| - 1]).Some? then EndSkip(packets[|packets| - 1])
    else LastEndSkip(packets[..|packets| - 1])
  }

  /** What the parser yields over the packets of stream s fed to it. */
  function Yields<U>(parser: Parser<U>, s: nat, fed: seq<Packet>): seq<U> {
    if fed == [] then []
    else
      var last := parser(s, fed);
      Yields(parser, s, fed[..|fed| - 1]) + (if last.Some? then [last.value] else [])
  }

  // ---------------------------------------------------------------------
  // What the sweep has stored of one stream, given what arrived for it and
  // the bytes accounted so far.
  // ---------------------------------------------------------------------

  ghost predicate Stored<U>(w: Sweep<U>, s: nat, scan: StreamScan<U>, arrived: seq<Packet>, accounted: int) {
    && PacketsStored(w, scan, arrived, accounted)
    && UnitsStored(w, s, scan, accounted)
  }

  /** The stored packets are a prefix of those that arrived, the stream is
      partial exactly when one was refused, and a refusal is for good. */
  ghost predicate PacketsStored<U>(w: Sweep<U>, scan: StreamScan<U>, arrived: seq<Packet>, accounted: int) {
    var n := |scan.packets|;
    && n <= |arrived| && scan.fed == arrived[..n] && scan.packets == Records(scan.fed)
    && (scan.partial <==> n < |arrived|)
    && (scan.partial ==> Refused(w, n, accounted))
    && scan.byteTotal == SumOfSizes(scan.packets)
    && scan.firstPacketSkip == (if n > 0 then StartSkip(arrived[0]) else None)
    && scan.lastDiscardPadding == LastEndSkip(arrived[..n])
  }

  /** Another packet of a stream with n stored packets would be refused. */
  predicate Refused<U>(w: Sweep<U>, n: nat, accounted: int) {
    n >= w.limits.maxPacketsPerStream || accounted + w.recordBytes > w.limits.maxBytes
  }

  /** The same for the access units of the stored packets. */
  ghost predicate UnitsStored<U>(w: Sweep<U>, s: nat, scan: StreamScan<U>, accounted: int) {
    if !w.parseUnits then scan.units == [] && !scan.unitsPartial
    else
      var all, m := Yields(w.parser, s, scan.fed), |scan.units|;
      && m <= |all| && scan.units == all[..m]
      && (scan.unitsPartial <==> scan.partial || m < |all|)
      && (m < |all| ==> accounted + w.unitBytes > w.limits.maxBytes)
  }

  function StoredBytes<U>(w: Sweep<U>, streams: seq<StreamScan<U>>): int {
    if streams == [] then 0
    else
      var last := streams[|streams| - 1];
      StoredBytes(w, streams[..|streams| - 1]) + |last.packets| * w.recordBytes + |last.units| * w.unitBytes
  }

  /** The budget as a bound: nothing is stored under a negative one. */
  function Bound(maxBytes: int): int {
    if maxBytes < 0 then 0 else maxBytes
  }

  ghost predicate SweepHolds<U>(w: Sweep<U>, streams: seq<StreamScan<U>>, received: seq<Read>, accounted: int) {
    && 0 <= accounted <= Bound(w.limits.maxBytes)
    && accounted == StoredBytes(w, streams)
    && forall s :: 0 <= s < |streams| ==> Stored(w, s, streams[s], Arrived(received, s), accounted)
  }

  lemma {:induction false} StoredBytesUpdate<U>(w: Sweep<U>, streams: seq<StreamScan<U>>, s: nat, scan: StreamScan<U>)
    requires s < |streams|
    ensures StoredBytes(w, streams[s := scan])
         == StoredBytes(w, streams)
            + (|scan.packets| * w.recordBytes + |scan.units| * w.unitBytes)
            - (|streams[s].packets| * w.recordBytes + |streams[s].units| * w.unitBytes)
  {
    var n := |streams| - 1;
    if s < n {
      StoredBytesUpdate(w, streams[..n], s, scan);
      assert streams[s := scan][..n] == streams[..n][s := scan];
    } else {
      assert streams[s := scan][..n] == streams[..n];
    }
  }

  // ---------------------------------------------------------------------
  // One packet of a stream.
  // ---------------------------------------------------------------------

  /** What happens to a packet of stream s: stored or refused, and the access
      unit it completes stored or refused. */
  method TakePacket<U>(w: Sweep<U>, s: nat, scan: StreamScan<U>, p: Packet, accounted: int, ghost arrived: seq<Packet>)
    returns (r: StreamScan<U>, total: int, refused: bool)
    requires 0 <= accounted <= Bound(w.limits.maxBytes) && w.recordBytes > 0 && w.unitBytes > 0
    requires Stored(w, s, scan, arrived, accounted)
    ensures accounted <= total <= Bound(w.limits.maxBytes)
    ensures total - accounted == (|r.packets| - |scan.packets|) * w.recordBytes + (|r.units| - |scan.units|) * w.unitBytes
    ensures Stored(w, s, r, arrived + [p], total)
    ensures scan.partial || refused <==> r.partial
    ensures scan.unitsPartial ==> r.unitsPartial
  {
    hide *;
    StoredMeans(w, s, scan, arrived, accounted);
    r, total := scan, accounted;
    if |scan.packets| >= w.limits.maxPacketsPerStream {
      RefusedWhen(w, |scan.packets|, accounted);
      r := Refuse(w, s, scan, p, accounted, arrived);
      return r, accounted, true;
    }
    FitsWithinBudget(w, accounted, w.recordBytes);
    var nextTotal := CheckedAdd(accounted, w.recordBytes);
    RefusedWhen(w, |scan.packets|, accounted);
    if nextTotal.None? || nextTotal.value > w.limits.maxBytes {
      r := Refuse(w, s, scan, p, accounted, arrived);
      return r, accounted, true;
    }
    r, total := StorePacket(w, s, scan, p, accounted, arrived);
    refused := false;
  }

  /** An accepted packet and the access unit it completes. */
  method StorePacket<U>(w: Sweep<U>, s: nat, scan: StreamScan<U>, p: Packet, accounted: int, ghost arrived: seq<Packet>)
    returns (r: StreamScan<U>, total: int)
    requires 0 <= accounted && accounted + w.recordBytes <= Bound(w.limits.maxBytes) && w.recordBytes > 0 && w.unitBytes > 0
    requires Stored(w, s, scan, arrived, accounted) && !Refused(w, |scan.packets|, accounted)
    ensures accounted <= total <= Bound(w.limits.maxBytes)
    ensures total - accounted == (|r.packets| - |scan.packets|) * w.recordBytes + (|r.units| - |scan.units|) * w.unitBytes
    ensures Stored(w, s, r, arrived + [p], total)
    ensures !scan.partial && !r.partial && (scan.unitsPartial ==> r.unitsPartial)
  {
    hide *;
    StoredMeans(w, s, scan, arrived, accounted);
    var stored := Accept(w, s, scan, p, accounted, arrived);
    r, total := TakeUnit(w, s, scan, stored, p, accounted);
    StoredLater(w, stored, r, arrived + [p], accounted + w.recordBytes, total);
    MakeStored(w, s, r, arrived + [p], total);
    ChargedBytes(w, scan, r, accounted, total);
  }

  lemma StoredMeans<U>(w: Sweep<U>, s: nat, scan: StreamScan<U>, arrived: seq<Packet>, accounted: int)
    requires Stored(w, s, scan, arrived, accounted)
    ensures PacketsStored(w, scan, arrived, accounted) && UnitsStored(w, s, scan, accounted)
  {}

  lemma MakeStored<U>(w: Sweep<U>, s: nat, scan: StreamScan<U>, arrived: seq<Packet>, accounted: int)
    requires PacketsStored(w, scan, arrived, accounted) && UnitsStored(w, s, scan, accounted)
    ensures Stored(w, s, scan, arrived, accounted)
  {}

  lemma RefusedWhen<U>(w: Sweep<U>, n: nat, accounted: int)
    ensures Refused(w, n, accounted) <==> n >= w.limits.maxPacketsPerStream || accounted + w.recordBytes > w.limits.maxBytes
  {}

  /** The checked sum against the budget is the exact one. */
  lemma FitsWithinBudget<U>(w: Sweep<U>, accounted: int, charge: Int64)
    requires 0 <= accounted <= Bound(w.limits.maxBytes) && charge > 0
    ensures FitsInt64(accounted) && FitsInt64(charge)
    ensures var total := CheckedAdd(accounted, charge);
      && ((total.None? || total.value > w.limits.maxBytes) <==> accounted + charge > w.limits.maxBytes)
      && (accounted + charge <= w.limits.maxBytes ==>
            total == Some(accounted + charge) && accounted + charge <= Bound(w.limits.maxBytes))
  {}

  lemma ChargedBytes<U>(w: Sweep<U>, scan: StreamScan<U>, r: StreamScan<U>, accounted: int, total: int)
    requires |r.packets| == |scan.packets| + 1
    requires (|r.units| == |scan.units| && total == accounted + w.recordBytes)
          || (|r.units| == |scan.units| + 1 && total == accounted + w.recordBytes + w.unitBytes)
    ensures total - accounted == (|r.packets| - |scan.packets|) * w.recordBytes + (|r.units| - |scan.units|) * w.unitBytes
  {}

  /** The access unit the stored packet completes, if any, stored when it fits
      and refused otherwise. */
  method TakeUnit<U>(w: Sweep<U>, s: nat, ghost scan: StreamScan<U>, stored: StreamScan<U>, ghost p: Packet, accounted: int)
    returns (r: StreamScan<U>, total: int)
    requires w.recordBytes > 0 && w.unitBytes > 0 && 0 <= accounted && accounted + w.recordBytes <= Bound(w.limits.maxBytes)
    requires UnitsStored(w, s, scan, accounted) && !scan.partial && !stored.partial
    requires stored.fed == scan.fed + [p] && |stored.packets| == |scan.packets| + 1 && stored.units == scan.units && stored.unitsPartial == scan.unitsPartial
    ensures total <= Bound(w.limits.maxBytes) && UnitsStored(w, s, r, total)
    ensures r == stored.(units := r.units, unitsPartial := r.unitsPartial) && (stored.unitsPartial ==> r.unitsPartial)
    ensures (|r.units| == |scan.units| && total == accounted + w.recordBytes)
         || (|r.units| == |scan.units| + 1 && total == accounted + w.recordBytes + w.unitBytes)
  {
    hide *;
    r, total := stored, accounted + w.recordBytes;
    assert stored.fed[..|scan.fed|] == scan.fed;
    if w.parseUnits {
      var unit := w.parser(s, stored.fed);
      if unit.Some? {
        FitsWithinBudget(w, total, w.unitBytes);
        var unitTotal := CheckedAdd(total, w.unitBytes);
        if unitTotal.None? || unitTotal.value > w.limits.maxBytes {
          r := r.(unitsPartial := true);
        } else {
          total := unitTotal.value;
          r := r.(units := r.units + [unit.value]);
        }
      }
    }
    UnitTaken(w, s, scan, r, accounted, total);
  }

  method Refuse<U>(w: Sweep<U>, s: nat, scan: StreamScan<U>, p: Packet, accounted: int, ghost arrived: seq<Packet>)
    returns (r: StreamScan<U>)
    requires Stored(w, s, scan, arrived, accounted) && Refused(w, |scan.packets|, accounted)
    ensures r == scan.(partial := true, unitsPartial := w.parseUnits)
    ensures Stored(w, s, r, arrived + [p], accounted)
  {
    r := scan.(partial := true);
    if w.parseUnits {
      r := r.(unitsPartial := true);
    }
    var n := |scan.packets|;
    assert (arrived + [p])[..n] == arrived[..n];
    assert n > 0 ==> (arrived + [p])[0] == arrived[0];
    hide Yields, LastEndSkip, StartSkip, Records, SumOfSizes;
  }

  /** The stored packet's side of an acceptance. */
  method Accept<U>(w: Sweep<U>, s: nat, scan: StreamScan<U>, p: Packet, accounted: int, ghost arrived: seq<Packet>)
    returns (r: StreamScan<U>)
    requires Stored(w, s, scan, arrived, accounted) && !Refused(w, |scan.packets|, accounted)
    ensures r.packets == scan.packets + [p.record] && r.fed == scan.fed + [p]
    ensures r.units == scan.units && r.unitsPartial == scan.unitsPartial
    ensures !r.partial && !scan.partial
    ensures PacketsStored(w, r, arrived + [p], accounted + w.recordBytes)
  {
    r := scan;
    AcceptMeans(w, scan, arrived, accounted);
    hide PacketsStored, UnitsStored, LittleEndian, Stored, Refused;
    if p.skip.Some? && |p.skip.value| >= 4 {
      if scan.packets == [] {
        r := r.(firstPacketSkip := Some(LittleEndian(p.skip.value, 0)));
      }
      if |p.skip.value| >= 8 {
        r := r.(lastDiscardPadding := Some(LittleEndian(p.skip.value, 4)));
      }
    }
    r := r.(byteTotal := r.byteTotal + p.record.size, packets := r.packets + [p.record], fed := r.fed + [p]);
    AcceptHolds(w, scan, r, p, accounted, arrived);
  }

  lemma AcceptMeans<U>(w: Sweep<U>, scan: StreamScan<U>, arrived: seq<Packet>, accounted: int)
    requires PacketsStored(w, scan, arrived, accounted) && !Refused(w, |scan.packets|, accounted)
    ensures !scan.partial && |scan.packets| == |arrived| && scan.fed == arrived && scan.packets == Records(arrived)
    ensures scan.byteTotal == SumOfSizes(scan.packets)
    ensures scan.firstPacketSkip == (if arrived != [] then StartSkip(arrived[0]) else None)
    ensures scan.lastDiscardPadding == LastEndSkip(arrived)
  {
    hide LastEndSkip, StartSkip, SumOfSizes, Records;
    assert arrived[..|arrived|] == arrived;
  }

  lemma AcceptHolds<U>(w: Sweep<U>, scan: StreamScan<U>, r: StreamScan<U>, p: Packet, accounted: int, arrived: seq<Packet>)
    requires !scan.partial && |scan.packets| == |arrived| && scan.fed == arrived && scan.packets == Records(arrived)
    requires r.fed == scan.fed + [p]
    requires scan.byteTotal == SumOfSizes(scan.packets)
    requires scan.firstPacketSkip == (if arrived != [] then StartSkip(arrived[0]) else None)
    requires scan.lastDiscardPadding == LastEndSkip(arrived)
    requires r.packets == scan.packets + [p.record] && r.partial == scan.partial && r.byteTotal == scan.byteTotal + p.record.size
    requires r.firstPacketSkip == if scan.packets == [] then StartSkip(p) else scan.firstPacketSkip
    requires r.lastDiscardPadding == if EndSkip(p).Some? then EndSkip(p) else scan.lastDiscardPadding
    ensures PacketsStored(w, r, arrived + [p], accounted + w.recordBytes)
  {
    AcceptedPrefix(scan.packets, arrived, p);
    hide LastEndSkip, StartSkip, EndSkip, SumOfSizes, Records, Refused;
  }

  lemma AcceptedPrefix(records: seq<PacketRecord>, arrived: seq<Packet>, p: Packet)
    requires |records| == |arrived| && records == Records(arrived)
    ensures arrived[..|arrived|] == arrived
    ensures (arrived + [p])[..|records| + 1] == arrived + [p]
    ensures records + [p.record] == Records(arrived + [p])
    ensures (arrived + [p])[0] == if arrived == [] then p else arrived[0]
    ensures SumOfSizes(records + [p.record]) == SumOfSizes(records) + p.record.size
    ensures LastEndSkip(arrived + [p]) == if EndSkip(p).Some? then EndSkip(p) else LastEndSkip(arrived)
  {
    assert (records + [p.record])[..|records|] == records;
    assert (arrived + [p])[..|arrived|] == arrived;
  }

  /** The access unit's side of an acceptance. */
  lemma UnitTaken<U>(w: Sweep<U>, s: nat, scan: StreamScan<U>, r: StreamScan<U>, accounted: int, total: int)
    requires w.recordBytes > 0 && w.unitBytes > 0 && UnitsStored(w, s, scan, accounted) && !scan.partial && !r.partial
    requires |r.fed| == |scan.fed| + 1 && r.fed[..|scan.fed|] == scan.fed
    requires w.parseUnits ==>
      var unit := w.parser(s, r.fed);
      if unit.None? then r.units == scan.units && r.unitsPartial == scan.unitsPartial && total == accounted + w.recordBytes
      else if accounted + w.recordBytes + w.unitBytes > w.limits.maxBytes then
        r.units == scan.units && r.unitsPartial && total == accounted + w.recordBytes
      else r.units == scan.units + [unit.value] && r.unitsPartial == scan.unitsPartial && total == accounted + w.recordBytes + w.unitBytes
    requires !w.parseUnits ==> r.units == scan.units && r.unitsPartial == scan.unitsPartial && total == accounted + w.recordBytes
    ensures UnitsStored(w, s, r, total)
  {
    if w.parseUnits {
      var before, m := Yields(w.parser, s, scan.fed), |scan.units|;
      var after := Yields(w.parser, s, r.fed);
      var unit := w.parser(s, r.fed);
      assert after == before + (if unit.Some? then [unit.value] else []);
      assert after[..m] == before[..m];
      if unit.Some? && m == |before| {
        assert before[..m] == before;
      }
      hide Yields;
    }
  }

  lemma StoredLater<U>(w: Sweep<U>, stored: StreamScan<U>, r: StreamScan<U>, arrived: seq<Packet>, accounted: int, total: int)
    requires PacketsStored(w, stored, arrived, accounted) && accounted <= total
    requires r == stored.(units := r.units, unitsPartial := r.unitsPartial)
    ensures PacketsStored(w, r, arrived, total)
  {}

  /** More accounted bytes refuse what fewer refused. */
  lemma OthersUnchanged<U>(w: Sweep<U>, s: nat, scan: StreamScan<U>, arrived: seq<Packet>, accounted: int, total: int)
    requires Stored(w, s, scan, arrived, accounted) && accounted <= total
    ensures Stored(w, s, scan, arrived, total)
  {
    hide Yields, LastEndSkip, Records, SumOfSizes;
  }

  // ---------------------------------------------------------------------
  // The loop.
  // ---------------------------------------------------------------------

  datatype Outputs<U> = Outputs(streams: seq<StreamScan<U>>, partial: bool, unitsPartial: bool, accountedBytes: int, readCalls: nat)

  function EmptyScan<U>(): StreamScan<U> {
    StreamScan([], [], 0, false, None, None, [], false)
  }

  predicate SomePartial<U>(streams: seq<StreamScan<U>>) {
    exists s :: 0 <= s < |streams| && streams[s].partial
  }

  predicate SomeUnitsPartial<U>(streams: seq<StreamScan<U>>) {
    exists s :: 0 <= s < |streams| && streams[s].unitsPartial
  }

  /** The results the sweep consumes: up to the first that is not a packet. */
  function Consumed(received: seq<Read>): (n: nat)
    ensures n <= |received| && forall i :: 0 <= i < n ==> received[i].Got?
    ensures n < |received| ==> !received[n].Got?
  {
    if received != [] && received[0].Got? then 1 + Consumed(received[1..]) else 0
  }

  /** One sweep. It accounts for what it stores and never exceeds its budget;
      each stream's packets and access units are a prefix of what came for it;
      a stream is partial exactly when one of its packets was refused, and the
      result exactly when a stream is or reading failed. */
  method RunPacketScan<U>(w: Sweep<U>, streamCount: nat, received: seq<Read>) returns (o: Outputs<U>)
    requires w.recordBytes > 0 && w.unitBytes > 0
    ensures |o.streams| == streamCount
    ensures var n := Consumed(received);
      && SweepHolds(w, o.streams, received[..n], o.accountedBytes)
      && (o.partial <==> SomePartial(o.streams) || (n < |received| && received[n].Failed?))
      && (o.unitsPartial <==> w.parseUnits && (SomeUnitsPartial(o.streams) || (n < |received| && received[n].Failed?)))
      && o.readCalls == if n < |received| then n + 1 else n
  {
    var streams := seq(streamCount, _ => EmptyScan<U>());
    var accounted, partial, unitsPartial, calls := 0, false, false, 0;
    StartHolds(w, streamCount);
    hide *;
    var i := 0;
    assert received[..0] == [];
    while i < |received|
      invariant i <= Consumed(received) && calls == i && |streams| == streamCount
      invariant SweepHolds(w, streams, received[..i], accounted)
      invariant partial <==> SomePartial(streams)
      invariant unitsPartial <==> w.parseUnits && SomeUnitsPartial(streams)
    {
      calls := calls + 1;
      var read := received[i];
      ConsumedAt(received, i);
      if read.EndOfFile? {
        break;
      }
      if read.Failed? {
        partial := true;
        unitsPartial := w.parseUnits;
        break;
      }
      assert received[..i + 1] == received[..i] + [read];
      ghost var before := streams;
      var packetRefused, unitRefused: bool;
      streams, accounted, packetRefused, unitRefused := TakeRead(w, streams, read.packet, accounted, received[..i]);
      partial := partial || packetRefused;
      unitsPartial := unitsPartial || unitRefused;
      i := i + 1;
    }
    return Outputs(streams, partial, unitsPartial, accounted, calls);
  }

  /** One packet, of whichever stream. */
  method TakeRead<U>(w: Sweep<U>, streams: seq<StreamScan<U>>, p: Packet, accounted: int, ghost received: seq<Read>)
    returns (after: seq<StreamScan<U>>, total: int, partial: bool, unitsPartial: bool)
    requires w.recordBytes > 0 && w.unitBytes > 0 && SweepHolds(w, streams, received, accounted)
    ensures |after| == |streams| && SweepHolds(w, after, received + [Got(p)], total)
    ensures SomePartial(after) <==> SomePartial(streams) || partial
    ensures SomeUnitsPartial(after) <==> SomeUnitsPartial(streams) || unitsPartial
    ensures unitsPartial ==> w.parseUnits
  {
    hide *;
    if p.stream < 0 || p.stream >= |streams| {
      DroppedPacket(w, streams, received, accounted, Got(p));
      return streams, accounted, false, false;
    }
    var s := p.stream;
    HoldsMeans(w, streams, received, accounted, s);
    var r: StreamScan<U>;
    var refused: bool;
    r, total, refused := TakePacket(w, s, streams[s], p, accounted, Arrived(received, s));
    PacketTaken(w, streams, received, accounted, Got(p), r, total);
    PartialAfter(streams, s, r);
    UnitsPartialAfter(w, streams, s, r, Arrived(received, s) + [p], total, Arrived(received, s), accounted);
    after, partial, unitsPartial := streams[s := r], r.partial, r.unitsPartial;
  }

  lemma HoldsMeans<U>(w: Sweep<U>, streams: seq<StreamScan<U>>, received: seq<Read>, accounted: int, s: nat)
    requires SweepHolds(w, streams, received, accounted) && s < |streams|
    ensures 0 <= accounted <= Bound(w.limits.maxBytes) && Stored(w, s, streams[s], Arrived(received, s), accounted)
  {}

  lemma {:induction false} ConsumedAt(received: seq<Read>, i: nat)
    requires i < |received| && i <= Consumed(received)
    ensures received[i].Got? <==> i < Consumed(received)
    ensures !received[i].Got? ==> i == Consumed(received)
  {}

  lemma StartHolds<U>(w: Sweep<U>, streamCount: nat)
    ensures SweepHolds(w, seq(streamCount, _ => EmptyScan<U>()), [], 0)
    ensures !SomePartial(seq(streamCount, _ => EmptyScan<U>())) && !SomeUnitsPartial(seq(streamCount, _ => EmptyScan<U>()))
  {
    NothingStored(w, streamCount);
    assert Records([]) == [];
  }

  lemma {:induction false} NothingStored<U>(w: Sweep<U>, n: nat)
    ensures StoredBytes(w, seq(n, _ => EmptyScan<U>())) == 0
  {
    if n > 0 {
      NothingStored(w, n - 1);
      var streams := seq(n, _ => EmptyScan<U>());
      assert streams[..n - 1] == seq(n - 1, _ => EmptyScan<U>());
    }
  }

  lemma ArrivedSnoc(received: seq<Read>, read: Read, s: nat)
    ensures Arrived(received + [read], s)
         == if read.Got? && read.packet.stream == s then Arrived(received, s) + [read.packet] else Arrived(received, s)
  {
    assert (received + [read])[..|received|] == received;
    assert Arrived(received, s) + [] == Arrived(received, s);
  }

  lemma DroppedPacket<U>(w: Sweep<U>, streams: seq<StreamScan<U>>, received: seq<Read>, accounted: int, read: Read)
    requires SweepHolds(w, streams, received, accounted) && read.Got? && (read.packet.stream < 0 || read.packet.stream >= |streams|)
    ensures SweepHolds(w, streams, received + [read], accounted)
  {
    hide Stored, Arrived;
    forall s | 0 <= s < |streams| ensures Stored(w, s, streams[s], Arrived(received + [read], s), accounted) {
      ArrivedSnoc(received, read, s);
    }
  }

  lemma PacketTaken<U>(w: Sweep<U>, streams: seq<StreamScan<U>>, received: seq<Read>, accounted: int, read: Read,
                       r: StreamScan<U>, total: int)
    requires SweepHolds(w, streams, received, accounted) && read.Got? && 0 <= read.packet.stream < |streams|
    requires accounted <= total <= Bound(w.limits.maxBytes)
    requires var scan := streams[read.packet.stream];
      total - accounted == (|r.packets| - |scan.packets|) * w.recordBytes + (|r.units| - |scan.units|) * w.unitBytes
    requires Stored(w, read.packet.stream, r, Arrived(received, read.packet.stream) + [read.packet], total)
    ensures SweepHolds(w, streams[read.packet.stream := r], received + [read], total)
  {
    hide *;
    var k := read.packet.stream;
    AccountMeans(w, streams, received, accounted);
    BytesAfter(w, streams, k, r, accounted, total);
    forall s | 0 <= s < |streams| ensures Stored(w, s, streams[k := r][s], Arrived(received + [read], s), total) {
      HoldsMeans(w, streams, received, accounted, s);
      StreamAfter(w, s, streams[s], received, accounted, read, r, total);
    }
    MakeSweep(w, streams[k := r], received + [read], total);
  }

  lemma AccountMeans<U>(w: Sweep<U>, streams: seq<StreamScan<U>>, received: seq<Read>, accounted: int)
    requires SweepHolds(w, streams, received, accounted)
    ensures 0 <= accounted && accounted == StoredBytes(w, streams)
  {}

  lemma MakeSweep<U>(w: Sweep<U>, streams: seq<StreamScan<U>>, received: seq<Read>, accounted: int)
    requires 0 <= accounted <= Bound(w.limits.maxBytes) && accounted == StoredBytes(w, streams)
    requires forall s :: 0 <= s < |streams| ==> Stored(w, s, streams[s], Arrived(received, s), accounted)
    ensures SweepHolds(w, streams, received, accounted)
  {}

  lemma StreamAfter<U>(w: Sweep<U>, s: nat, scan: StreamScan<U>, received: seq<Read>, accounted: int, read: Read,
                       r: StreamScan<U>, total: int)
    requires Stored(w, s, scan, Arrived(received, s), accounted) && read.Got? && accounted <= total
    requires s == read.packet.stream ==> Stored(w, s, r, Arrived(received, s) + [read.packet], total)
    ensures Stored(w, s, if s == read.packet.stream then r else scan, Arrived(received + [read], s), total)
  {
    hide *;
    ArrivedSnoc(received, read, s);
    if s != read.packet.stream {
      OthersUnchanged(w, s, scan, Arrived(received, s), accounted, total);
    }
  }

  lemma BytesAfter<U>(w: Sweep<U>, streams: seq<StreamScan<U>>, k: nat, r: StreamScan<U>, accounted: int, total: int)
    requires k < |streams| && accounted == StoredBytes(w, streams)
    requires total - accounted
          == (|r.packets| - |streams[k].packets|) * w.recordBytes + (|r.units| - |streams[k].units|) * w.unitBytes
    ensures total == StoredBytes(w, streams[k := r])
  {
    StoredBytesUpdate(w, streams, k, r);
    TotalMoves(|streams[k].packets|, |r.packets|, |streams[k].units|, |r.units|, w.recordBytes, w.unitBytes);
    hide StoredBytes;
  }

  lemma TotalMoves(p: int, q: int, u: int, v: int, a: int, b: int)
    ensures (q - p) * a + (v - u) * b == (q * a + v * b) - (p * a + u * b)
  {}

  lemma PartialAfter<U>(streams: seq<StreamScan<U>>, s: nat, r: StreamScan<U>)
    requires s < |streams| && (streams[s].partial ==> r.partial)
    ensures SomePartial(streams[s := r]) <==> SomePartial(streams) || r.partial
  {
    var t := streams[s := r];
    if SomePartial(streams) {
      var i :| 0 <= i < |streams| && streams[i].partial;
      assert t[i].partial;
    }
    if r.partial {
      assert t[s].partial;
    }
    if SomePartial(t) && !r.partial {
      var i :| 0 <= i < |t| && t[i].partial;
      assert streams[i].partial;
    }
  }

  lemma UnitsPartialAfter<U>(w: Sweep<U>, streams: seq<StreamScan<U>>, s: nat, r: StreamScan<U>, arrived: seq<Packet>, total: int,
                             arrivedBefore: seq<Packet>, accounted: int)
    requires s < |streams| && Stored(w, s, r, arrived, total) && Stored(w, s, streams[s], arrivedBefore, accounted)
    requires streams[s].unitsPartial ==> r.unitsPartial
    ensures r.unitsPartial ==> w.parseUnits
    ensures SomeUnitsPartial(streams[s := r]) <==> SomeUnitsPartial(streams) || r.unitsPartial
  {
    var t := streams[s := r];
    if SomeUnitsPartial(streams) {
      var i :| 0 <= i < |streams| && streams[i].unitsPartial;
      assert t[i].unitsPartial;
    }
    if r.unitsPartial {
      assert t[s].unitsPartial;
    }
    if SomeUnitsPartial(t) && !r.unitsPartial {
      var i :| 0 <= i < |t| && t[i].unitsPartial;
      assert streams[i].unitsPartial;
    }
  }

  // ---------------------------------------------------------------------
  // Several sweeps at once.
  // ---------------------------------------------------------------------

  /** Division that truncates toward zero. */
  function Truncated(a: int, b: int): int
    requires b > 0
  {
    if a >= 0 then a / b else -((-a) / b)
  }

  function DerivePerFileCap(budget: Int64, threads: int): int {
    if threads <= 1 then budget else Truncated(budget, threads)
  }

  /** The cap is the largest share that as many sweeps as threads can all have. */
  lemma CapIsLargest(budget: Int64, threads: int)
    requires budget >= 0
    ensures threads <= 1 ==> DerivePerFileCap(budget, threads) == budget
    ensures threads > 1 ==>
      var cap := DerivePerFileCap(budget, threads); cap >= 0 && threads * cap <= budget < threads * (cap + 1)
  {
    if threads > 1 {
      var b: int := budget;
      QuotientIsNat(b, threads);
      assert b == threads * (b / threads) + b % threads;
      Products.Distribute(threads, b / threads, 1);
    }
  }

  function Total(accounted: seq<int>): int {
    if accounted == [] then 0 else Total(accounted[..|accounted| - 1]) + accounted[|accounted| - 1]
  }

  /** As many sweeps as threads, each within the derived cap, stay within the
      whole budget together. */
  lemma {:induction false} SweepsStayWithinBudget(budget: Int64, threads: int, accounted: seq<int>)
    requires threads >= 1 && |accounted| <= threads
    requires forall i :: 0 <= i < |accounted| ==> accounted[i] <= Bound(DerivePerFileCap(budget, threads))
    ensures Total(accounted) <= Bound(budget)
  {
    TotalBound(accounted, Bound(DerivePerFileCap(budget, threads)));
    CapTimesThreads(budget, threads, |accounted|);
  }

  lemma {:induction false} TotalBound(accounted: seq<int>, cap: int)
    requires forall i :: 0 <= i < |accounted| ==> accounted[i] <= cap
    ensures Total(accounted) <= |accounted| * cap
  {
    if accounted != [] {
      TotalBound(accounted[..|accounted| - 1], cap);
    }
  }

  lemma CapTimesThreads(budget: Int64, threads: int, n: nat)
    requires threads >= 1 && n <= threads
    ensures n * Bound(DerivePerFileCap(budget, threads)) <= Bound(budget)
  {
    var b: int := budget;
    if b < 0 {
      NegativeBudget(b, threads);
    } else if threads == 1 {
      Products.Monotone(b, n, 1);
    } else {
      var q := b / threads;
      assert b == threads * q + b % threads;
      QuotientIsNat(b, threads);
      Products.Monotone(q, n, threads);
    }
  }

  lemma QuotientIsNat(b: int, threads: int)
    requires b >= 0 && threads > 0
    ensures b / threads >= 0
  {}

  lemma NegativeBudget(b: Int64, threads: int)
    requires b < 0 && threads >= 1
    ensures Bound(DerivePerFileCap(b, threads)) == 0
  {
    if threads > 1 {
      QuotientIsNat(-(b as int), threads);
    }
  }
}
