/** Big-endian integers in byte strings. */
module BigEndian {
  import opened MachineInts

  function U16At(data: seq<Byte>, pos: nat): (v: int)
    requires pos + 2 <= |data|
    ensures 0 <= v < 0x1_0000
  {
    var high: int := data[pos];
    high * 0x100 + data[pos + 1]
  }

  function U32At(data: seq<Byte>, pos: nat): (v: int)
    requires pos + 4 <= |data|
    ensures 0 <= v < 0x1_0000_0000
  {
    U16At(data, pos) * 0x1_0000 + U16At(data, pos + 2)
  }

  function U64At(data: seq<Byte>, pos: nat): (v: int)
    requires pos + 8 <= |data|
    ensures 0 <= v < 0x1_0000_0000_0000_0000
  {
    U32At(data, pos) * 0x1_0000_0000 + U32At(data, pos + 4)
  }

  function U16Bytes(v: int): (b: seq<Byte>)
    requires 0 <= v < 0x1_0000
    ensures |b| == 2
  {
    [v / 0x100, v % 0x100]
  }

  function U32Bytes(v: int): (b: seq<Byte>)
    requires 0 <= v < 0x1_0000_0000
    ensures |b| == 4
  {
    U16Bytes(v / 0x1_0000) + U16Bytes(v % 0x1_0000)
  }

  function U64Bytes(v: int): (b: seq<Byte>)
    requires 0 <= v < 0x1_0000_0000_0000_0000
    ensures |b| == 8
  {
    U32Bytes(v / 0x1_0000_0000) + U32Bytes(v % 0x1_0000_0000)
  }

  /** Reading from a slice. */
  lemma U16OfSlice(data: seq<Byte>, from: nat, n: nat, k: nat)
    requires from + n <= |data| && k + 2 <= n
    ensures U16At(data[from..from + n], k) == U16At(data, from + k)
  {
    var s := data[from..from + n];
    assert s[k] == data[from + k] && s[k + 1] == data[from + k + 1];
  }

  lemma U32OfSlice(data: seq<Byte>, from: nat, n: nat, k: nat)
    requires from + n <= |data| && k + 4 <= n
    ensures U32At(data[from..from + n], k) == U32At(data, from + k)
  {
    U16OfSlice(data, from, n, k);
    U16OfSlice(data, from, n, k + 2);
    hide U16At;
  }

  lemma U64OfSlice(data: seq<Byte>, from: nat, n: nat, k: nat)
    requires from + n <= |data| && k + 8 <= n
    ensures U64At(data[from..from + n], k) == U64At(data, from + k)
  {
    U32OfSlice(data, from, n, k);
    U32OfSlice(data, from, n, k + 4);
    hide U32At;
  }

  /** What was written is read back. */
  lemma U32ReadsBack(data: seq<Byte>, pos: nat, v: int)
    requires 0 <= v < 0x1_0000_0000 && pos + 4 <= |data| && data[pos..pos + 4] == U32Bytes(v)
    ensures U32At(data, pos) == v
  {
    var b := data[pos..pos + 4];
    assert data[pos] == b[0] && data[pos + 1] == b[1] && data[pos + 2] == b[2] && data[pos + 3] == b[3];
  }

  lemma U16ReadsBack(data: seq<Byte>, pos: nat, v: int)
    requires 0 <= v < 0x1_0000 && pos + 2 <= |data| && data[pos..pos + 2] == U16Bytes(v)
    ensures U16At(data, pos) == v
  {
    var b := data[pos..pos + 2];
    assert data[pos] == b[0] && data[pos + 1] == b[1];
  }

  lemma U32WritesBack(data: seq<Byte>, pos: nat)
    requires pos + 4 <= |data|
    ensures data[pos..pos + 4] == U32Bytes(U32At(data, pos))
  {
    assert data[pos..pos + 4] == [data[pos], data[pos + 1], data[pos + 2], data[pos + 3]];
  }

  lemma U64ReadsBack(data: seq<Byte>, pos: nat, v: int)
    requires 0 <= v < 0x1_0000_0000_0000_0000 && pos + 8 <= |data| && data[pos..pos + 8] == U64Bytes(v)
    ensures U64At(data, pos) == v
  {
    assert data[pos..pos + 4] == data[pos..pos + 8][..4] && data[pos + 4..pos + 8] == data[pos..pos + 8][4..];
    U32ReadsBack(data, pos, v / 0x1_0000_0000);
    U32ReadsBack(data, pos + 4, v % 0x1_0000_0000);
  }

  /** The most significant byte comes first. */
  lemma MostSignificantFirst(data: seq<Byte>, pos: nat)
    requires pos + 8 <= |data|
    ensures var d: seq<int> := data[pos..pos + 8];
      && U16At(data, pos) == 0x100 * d[0] + d[1]
      && U32At(data, pos) == 0x100_0000 * d[0] + 0x1_0000 * d[1] + 0x100 * d[2] + d[3]
      && U64At(data, pos)
         == 0x100_0000_0000_0000 * d[0] + 0x1_0000_0000_0000 * d[1] + 0x100_0000_0000 * d[2] + 0x1_0000_0000 * d[3]
            + 0x100_0000 * d[4] + 0x1_0000 * d[5] + 0x100 * d[6] + d[7]
  {}

  /** Equal bytes read equal. */
  lemma SameBytesRead(a: seq<Byte>, b: seq<Byte>, pos: nat)
    requires pos + 4 <= |a| && pos + 4 <= |b| && forall k :: pos <= k < pos + 4 ==> a[k] == b[k]
    ensures U32At(a, pos) == U32At(b, pos)
  {}
}
