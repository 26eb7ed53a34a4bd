/** NAL units in Annex B byte streams: emulation prevention and its removal,
    start codes and splitting at them (clauses 7.3.1, 7.4.1 and Annex B of
    ITU-T H.264). */
module NalUnits {
  import opened MachineInts
  import opened WordPairs
  import opened Bits

  /** The length of the current run of zero bytes. */
  function RunAfter(zeroRun: nat, b: Byte): nat {
    if b == 0 then zeroRun + 1 else 0
  }

  function Escaped(rbsp: seq<Byte>, zeroRun: nat): seq<Byte> {
    if rbsp == [] then []
    else if zeroRun >= 2 && rbsp[0] <= 3 then [3, rbsp[0]] + Escaped(rbsp[1..], RunAfter(0, rbsp[0]))
    else [rbsp[0]] + Escaped(rbsp[1..], RunAfter(zeroRun, rbsp[0]))
  }

  /** Inserts the emulation prevention bytes. */
  method EmulationPrevention(rbsp: seq<Byte>) returns (out: seq<Byte>)
    ensures out == Escaped(rbsp, 0)
  {
    out := [];
    var zeroRun: nat := 0;
    assert rbsp[0..] == rbsp;
    for i := 0 to |rbsp|
      invariant Escaped(rbsp, 0) == out + Escaped(rbsp[i..], zeroRun)
    {
      var byte := rbsp[i];
      EscapeStep(rbsp, i, zeroRun, out);
      if zeroRun >= 2 && byte <= 3 {
        out := out + [3];
        zeroRun := 0;
      }
      out := out + [byte];
      zeroRun := if byte == 0 then zeroRun + 1 else 0;
    }
    assert Escaped(rbsp[|rbsp|..], zeroRun) == [];
  }

  lemma EscapeStep(rbsp: seq<Byte>, i: nat, zeroRun: nat, out: seq<Byte>)
    requires i < |rbsp|
    ensures var b := rbsp[i];
      out + Escaped(rbsp[i..], zeroRun)
      == if zeroRun >= 2 && b <= 3 then out + [3] + [b] + Escaped(rbsp[i + 1..], RunAfter(0, b))
         else out + [b] + Escaped(rbsp[i + 1..], RunAfter(zeroRun, b))
  {
    assert rbsp[i..][1..] == rbsp[i + 1..];
  }

  /** The decoder's removal: a 3 after two zero bytes is dropped. */
  function Unescape(bytes: seq<Byte>, zeroRun: nat): seq<Byte> {
    if bytes == [] then []
    else if zeroRun >= 2 && bytes[0] == 3 then Unescape(bytes[1..], 0)
    else [bytes[0]] + Unescape(bytes[1..], RunAfter(zeroRun, bytes[0]))
  }

  /** Removal undoes insertion, for every payload. */
  lemma {:induction false} UnescapeEscaped(rbsp: seq<Byte>, zeroRun: nat)
    ensures Unescape(Escaped(rbsp, zeroRun), zeroRun) == rbsp
  {
    if rbsp != [] {
      var b, rest := rbsp[0], rbsp[1..];
      if zeroRun >= 2 && b <= 3 {
        var tail := Escaped(rest, RunAfter(0, b));
        UnescapeEscaped(rest, RunAfter(0, b));
        assert ([3, b] + tail)[1..] == [b] + tail && ([b] + tail)[1..] == tail;
      } else {
        UnescapeEscaped(rest, RunAfter(zeroRun, b));
      }
    }
  }

  /** No two zero bytes are followed by a byte below 3. */
  predicate NoStartCode(s: seq<Byte>) {
    forall i :: 0 <= i && i + 2 < |s| && s[i] == 0 && s[i + 1] == 0 ==> s[i + 2] >= 3
  }

  /** The same, for a string after a run of zeros. */
  predicate SafeAfter(s: seq<Byte>, zeroRun: nat) {
    s == [] || ((zeroRun >= 2 ==> s[0] >= 3) && SafeAfter(s[1..], RunAfter(zeroRun, s[0])))
  }

  lemma {:induction false} EscapedIsSafe(rbsp: seq<Byte>, zeroRun: nat)
    ensures SafeAfter(Escaped(rbsp, zeroRun), zeroRun)
  {
    if rbsp != [] {
      var b, rest := rbsp[0], rbsp[1..];
      if zeroRun >= 2 && b <= 3 {
        var tail := Escaped(rest, RunAfter(0, b));
        EscapedIsSafe(rest, RunAfter(0, b));
        assert ([3, b] + tail)[1..] == [b] + tail && ([b] + tail)[1..] == tail;
      } else {
        EscapedIsSafe(rest, RunAfter(zeroRun, b));
      }
    }
  }

  lemma {:induction false} SafeHasNoStartCode(s: seq<Byte>, zeroRun: nat)
    requires SafeAfter(s, zeroRun)
    ensures NoStartCode(s)
  {
    if s != [] {
      SafeHasNoStartCode(s[1..], RunAfter(zeroRun, s[0]));
      forall i | 0 <= i && i + 2 < |s| && s[i] == 0 && s[i + 1] == 0 ensures s[i + 2] >= 3 {
        if i > 0 {
          assert s[1..][i - 1] == 0 && s[1..][i] == 0;
        } else {
          assert SafeAfter(s[1..][1..], RunAfter(RunAfter(zeroRun, s[0]), s[1..][0]));
          assert s[1..][1..][0] == s[2];
        }
      }
    }
  }

  /** The last byte is not zero. */
  predicate EndsNonzero(s: seq<Byte>) {
    s != [] ==> s[|s| - 1] != 0
  }

  lemma {:induction false} EscapedEnds(rbsp: seq<Byte>, zeroRun: nat)
    requires EndsNonzero(rbsp)
    ensures EndsNonzero(Escaped(rbsp, zeroRun)) && (Escaped(rbsp, zeroRun) == [] <==> rbsp == [])
  {
    if |rbsp| > 1 {
      var b, rest := rbsp[0], rbsp[1..];
      EscapedEnds(rest, if zeroRun >= 2 && b <= 3 then RunAfter(0, b) else RunAfter(zeroRun, b));
    } else if |rbsp| == 1 {
      assert Escaped(rbsp[1..], RunAfter(0, rbsp[0])) == [] && Escaped(rbsp[1..], RunAfter(zeroRun, rbsp[0])) == [];
    }
  }

  // ---------------------------------------------------------------------
  // NAL units and streams.
  // ---------------------------------------------------------------------

  const START_CODE: seq<Byte> := [0, 0, 0, 1]

  /** A NAL unit's bytes: the header as it is, the payload escaped. */
  function NalBytes(header: seq<Byte>, rbsp: seq<Byte>): seq<Byte> {
    header + Escaped(rbsp, 0)
  }

  method AnnexBNal(header: seq<Byte>, rbsp: seq<Byte>) returns (out: seq<Byte>)
    ensures out == START_CODE + NalBytes(header, rbsp)
  {
    var payload := EmulationPrevention(rbsp);
    assert START_CODE + header + payload == START_CODE + (header + payload);
    return START_CODE + header + payload;
  }

  /** A NAL unit that cannot be mistaken for the end of itself. */
  predicate Clean(nal: seq<Byte>) {
    nal != [] && EndsNonzero(nal) && NoStartCode(nal)
  }

  /** A short header that ends in a nonzero byte. */
  predicate GoodHeader(header: seq<Byte>) {
    1 <= |header| <= 2 && header[|header| - 1] != 0
  }

  /** No NAL unit with such a header contains a start code. */
  lemma NalIsClean(header: seq<Byte>, rbsp: seq<Byte>)
    requires GoodHeader(header) && EndsNonzero(rbsp)
    ensures Clean(NalBytes(header, rbsp))
  {
    EscapedIsSafe(rbsp, 0);
    SafeHasNoStartCode(Escaped(rbsp, 0), 0);
    EscapedEnds(rbsp, 0);
    hide Escaped, GoodHeader, Clean, EndsNonzero, NoStartCode;
    CleanAfterHeader(header, Escaped(rbsp, 0));
  }

  lemma CleanAfterHeader(header: seq<Byte>, payload: seq<Byte>)
    requires GoodHeader(header) && EndsNonzero(payload) && NoStartCode(payload)
    ensures Clean(header + payload)
  {
    var nal, n := header + payload, |header|;
    assert nal[n - 1] != 0 && nal[|nal| - 1] != 0;
    assert forall j :: n <= j < |nal| ==> nal[j] == payload[j - n];
    forall i | 0 <= i && i + 2 < |nal| && nal[i] == 0 && nal[i + 1] == 0 ensures nal[i + 2] >= 3 {
      assert i >= n;
      assert payload[i - n] == 0 && payload[i - n + 1] == 0;
    }
  }

  function AnnexB(nals: seq<seq<Byte>>): seq<Byte> {
    if nals == [] then [] else START_CODE + nals[0] + AnnexB(nals[1..])
  }

  lemma {:induction false} AnnexBSnoc(nals: seq<seq<Byte>>, nal: seq<Byte>)
    ensures AnnexB(nals + [nal]) == AnnexB(nals) + (START_CODE + nal)
  {
    if nals == [] {
      assert AnnexB([nal]) == START_CODE + nal + AnnexB([]);
    } else {
      AnnexBSnoc(nals[1..], nal);
      assert (nals + [nal])[1..] == nals[1..] + [nal];
      var head := START_CODE + nals[0];
      assert head + (AnnexB(nals[1..]) + (START_CODE + nal)) == head + AnnexB(nals[1..]) + (START_CODE + nal);
    }
  }

  /** Bytes up to the next start code prefix or zero padding before one. */
  function NalLength(s: seq<Byte>): (n: nat)
    ensures n <= |s|
  {
    if s == [] || (|s| >= 3 && s[0] == 0 && s[1] == 0 && s[2] <= 1) then 0 else 1 + NalLength(s[1..])
  }

  /** The decoder's view: whatever follows each three-byte prefix. */
  function Split(s: seq<Byte>): seq<seq<Byte>>
    decreases |s|
  {
    if |s| < 3 then []
    else if s[0] == 0 && s[1] == 0 && s[2] == 1 then
      var n := NalLength(s[3..]);
      [s[3..3 + n]] + Split(s[3 + n..])
    else Split(s[1..])
  }

  lemma {:induction false} NalLengthIsWhole(nal: seq<Byte>, rest: seq<Byte>)
    requires EndsNonzero(nal) && NoStartCode(nal)
    requires rest == [] || (|rest| >= 4 && rest[..4] == START_CODE)
    ensures NalLength(nal + rest) == |nal|
  {
    if nal == [] {
      assert nal + rest == rest;
      StartsLikeCode(rest);
    } else {
      TailIsNal(nal);
      NotAtEnd(nal, rest);
      hide EndsNonzero, NoStartCode;
      NalLengthIsWhole(nal[1..], rest);
      assert (nal + rest)[1..] == nal[1..] + rest;
    }
  }

  lemma TailIsNal(nal: seq<Byte>)
    requires nal != [] && EndsNonzero(nal) && NoStartCode(nal)
    ensures EndsNonzero(nal[1..]) && NoStartCode(nal[1..])
  {
    assert forall i :: 0 <= i < |nal| - 1 ==> nal[1..][i] == nal[i + 1];
  }

  lemma StartsLikeCode(rest: seq<Byte>)
    requires rest == [] || (|rest| >= 4 && rest[..4] == START_CODE)
    ensures rest != [] ==> rest[0] == 0 && rest[1] == 0 && rest[2] == 0 && rest[3] == 1
  {
    if rest != [] {
      assert rest[..4][0] == rest[0] && rest[..4][1] == rest[1] && rest[..4][2] == rest[2] && rest[..4][3] == rest[3];
    }
  }

  lemma NotAtEnd(nal: seq<Byte>, rest: seq<Byte>)
    requires nal != [] && EndsNonzero(nal) && NoStartCode(nal)
    ensures var s := nal + rest; !(|s| >= 3 && s[0] == 0 && s[1] == 0 && s[2] <= 1)
  {
    var s := nal + rest;
    assert |nal| == 1 ==> s[0] != 0;
    assert |nal| == 2 ==> s[1] != 0;
    assert |nal| >= 3 ==> s[0] == nal[0] && s[1] == nal[1] && s[2] == nal[2];
  }

  /** Splitting a stream of clean NAL units recovers exactly the units. */
  lemma {:induction false} SplitRecovers(nals: seq<seq<Byte>>)
    requires forall nal :: nal in nals ==> Clean(nal)
    ensures Split(AnnexB(nals)) == nals
  {
    if nals != [] {
      var nal, rest := nals[0], AnnexB(nals[1..]);
      assert nal in nals;
      SplitRecovers(nals[1..]);
      StreamStarts(nals[1..]);
      SplitFirst(nal, rest);
      assert nals == [nal] + nals[1..];
    }
  }

  lemma StreamStarts(nals: seq<seq<Byte>>)
    ensures AnnexB(nals) == [] || (|AnnexB(nals)| >= 4 && AnnexB(nals)[..4] == START_CODE)
  {}

  lemma SplitFirst(nal: seq<Byte>, rest: seq<Byte>)
    requires Clean(nal) && (rest == [] || (|rest| >= 4 && rest[..4] == START_CODE))
    ensures Split(START_CODE + nal + rest) == [nal] + Split(rest)
  {
    assert EndsNonzero(nal) && NoStartCode(nal);
    var coded: seq<Byte> := [0, 0, 1] + (nal + rest);
    assert coded[1] == 0;
    assert START_CODE + nal + rest == [0] + coded;
    hide *;
    NalLengthIsWhole(nal, rest);
    SplitSkips(coded);
    SplitNal(nal, rest);
  }

  lemma SplitNal(nal: seq<Byte>, rest: seq<Byte>)
    requires NalLength(nal + rest) == |nal|
    ensures Split([0, 0, 1] + (nal + rest)) == [nal] + Split(rest)
  {
    hide *;
    SplitAtPrefix(nal + rest);
    assert (nal + rest)[..|nal|] == nal && (nal + rest)[|nal|..] == rest;
  }

  lemma SplitSkips(s: seq<Byte>)
    requires |s| >= 2 && s[1] == 0
    ensures Split([0] + s) == Split(s)
  {
    var t: seq<Byte> := [0] + s;
    assert t[1..] == s && t[2] == s[1];
  }

  lemma SplitAtPrefix(body: seq<Byte>)
    ensures var n := NalLength(body); Split([0, 0, 1] + body) == [body[..n]] + Split(body[n..])
  {
    var s := [0, 0, 1] + body;
    var n := NalLength(body);
    assert s[3..] == body;
    assert s[3..3 + n] == body[..n] && s[3 + n..] == body[n..];
    hide NalLength;
  }
}
