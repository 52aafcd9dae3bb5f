/**
 * What memmove leaves in a char buffer: little-endian integers and the
 * key-value records of MemtableToString (src/util.cc). The inverse direction
 * is what SSTablePage::ParsePageData reads back.
 */
module Bytes {
  import opened Common

  function Pow256(n: nat): nat {
    if n == 0 then 1 else 256 * Pow256(n - 1)
  }

  function ToBytes(n: nat, size: nat): (bs: seq<Byte>)
    ensures |bs| == size
  {
    if size == 0 then [] else [n % 256] + ToBytes(n / 256, size - 1)
  }

  function FromBytes(bs: seq<Byte>): nat {
    if bs == [] then 0 else bs[0] + 256 * FromBytes(bs[1..])
  }

  lemma {:induction false} FromToBytes(n: nat, size: nat)
    requires n < Pow256(size)
    ensures FromBytes(ToBytes(n, size)) == n
  {
    if size != 0 { FromToBytes(n / 256, size - 1); }
  }

  lemma {:induction false} FromBytesBound(bs: seq<Byte>)
    ensures FromBytes(bs) < Pow256(|bs|)
  {
    if bs != [] { FromBytesBound(bs[1..]); }
  }

  lemma Pow256Four()
    ensures Pow256(4) == 0x1_0000_0000
  {
    assert Pow256(4) == 256 * (256 * (256 * (256 * Pow256(0))));
  }

  // --- int32_t, two's complement ---------------------------------------

  function Int32ToBytes(n: int): (bs: seq<Byte>)
    requires -0x8000_0000 <= n <= 0x7fff_ffff
    ensures |bs| == 4
  {
    ToBytes(if n < 0 then n + 0x1_0000_0000 else n, 4)
  }

  function BytesToInt32(bs: seq<Byte>): (n: int)
    requires |bs| == 4
    ensures -0x8000_0000 <= n <= 0x7fff_ffff
  {
    FromBytesBound(bs);
    Pow256Four();
    var u := FromBytes(bs);
    if u < 0x8000_0000 then u else u - 0x1_0000_0000
  }

  lemma Int32RoundTrip(n: int)
    requires -0x8000_0000 <= n <= 0x7fff_ffff
    ensures BytesToInt32(Int32ToBytes(n)) == n
  {
    Pow256Four();
    FromToBytes(if n < 0 then n + 0x1_0000_0000 else n, 4);
  }

  // Lowest byte first, negative numbers in two's complement.
  lemma Int32Layout(n: int)
    requires -0x8000_0000 <= n <= 0x7fff_ffff
    ensures var u := if n < 0 then n + 0x1_0000_0000 else n;
            Int32ToBytes(n) == [u % 256, u / 0x100 % 256, u / 0x1_0000 % 256, u / 0x100_0000]
  {
    var u := if n < 0 then n + 0x1_0000_0000 else n;
    assert ToBytes(u / 0x100_0000, 1) == [u / 0x100_0000];
    assert ToBytes(u / 0x1_0000, 2) == [u / 0x1_0000 % 256] + ToBytes(u / 0x100_0000, 1);
    assert ToBytes(u / 0x100, 3) == [u / 0x100 % 256] + ToBytes(u / 0x1_0000, 2);
  }

  // --- Records ----------------------------------------------------------

  function EncodeRecord(p: Pair): (bs: seq<Byte>)
    ensures |bs| == RECORD_SIZE
  {
    Int32ToBytes(p.key) + Int32ToBytes(p.val)
  }

  function DecodeRecord(bs: seq<Byte>): Pair
    requires |bs| == RECORD_SIZE
  {
    Pair(BytesToInt32(bs[..KEY_SIZE]), BytesToInt32(bs[KEY_SIZE..]))
  }

  lemma RecordRoundTrip(p: Pair)
    ensures DecodeRecord(EncodeRecord(p)) == p
  {
    Int32RoundTrip(p.key);
    Int32RoundTrip(p.val);
    assert EncodeRecord(p)[..KEY_SIZE] == Int32ToBytes(p.key);
    assert EncodeRecord(p)[KEY_SIZE..] == Int32ToBytes(p.val);
  }

  function EncodeAll(t: Table): (bs: seq<Byte>)
    ensures |bs| == RECORD_SIZE * |t|
  {
    if t == [] then [] else EncodeAll(t[..|t| - 1]) + EncodeRecord(t[|t| - 1])
  }

  // The whole records at the front of a stretch of bytes.
  function DecodeAll(bs: seq<Byte>): (t: Table)
    ensures |t| == |bs| / RECORD_SIZE
  {
    if |bs| < RECORD_SIZE then [] else [DecodeRecord(bs[..RECORD_SIZE])] + DecodeAll(bs[RECORD_SIZE..])
  }

  lemma {:induction false} DecodeConcat(a: seq<Byte>, b: seq<Byte>)
    requires |a| % RECORD_SIZE == 0
    ensures DecodeAll(a + b) == DecodeAll(a) + DecodeAll(b)
  {
    if a == [] {
      assert a + b == b;
    } else {
      var tail := a[RECORD_SIZE..];
      DecodeConcat(tail, b);
      assert (a + b)[..RECORD_SIZE] == a[..RECORD_SIZE];
      assert (a + b)[RECORD_SIZE..] == tail + b;
      var first := DecodeRecord(a[..RECORD_SIZE]);
      assert DecodeAll(a) == [first] + DecodeAll(tail);
      assert DecodeAll(a + b) == [first] + DecodeAll(tail + b);
    }
  }

  lemma DecodeRecordAlone(bs: seq<Byte>)
    requires |bs| == RECORD_SIZE
    ensures DecodeAll(bs) == [DecodeRecord(bs)]
  {
    hide DecodeRecord;
    assert bs[..RECORD_SIZE] == bs && bs[RECORD_SIZE..] == [];
    assert DecodeAll(bs[RECORD_SIZE..]) == [];
  }

  // Reading one more record at a moving offset.
  lemma DecodeNext(bs: seq<Byte>, start: nat, offset: nat)
    requires start <= offset && offset + RECORD_SIZE <= |bs| && (offset - start) % RECORD_SIZE == 0
    ensures DecodeAll(bs[start..offset + RECORD_SIZE]) == DecodeAll(bs[start..offset]) +
            [Pair(BytesToInt32(bs[offset..offset + KEY_SIZE]),
                  BytesToInt32(bs[offset + KEY_SIZE..offset + RECORD_SIZE]))]
  {
    hide DecodeAll, BytesToInt32;
    var record := bs[offset..offset + RECORD_SIZE];
    assert bs[start..offset + RECORD_SIZE] == bs[start..offset] + record;
    DecodeConcat(bs[start..offset], record);
    DecodeRecordAlone(record);
    assert record[..KEY_SIZE] == bs[offset..offset + KEY_SIZE];
    assert record[KEY_SIZE..] == bs[offset + KEY_SIZE..offset + RECORD_SIZE];
  }

  lemma DecodeOne(p: Pair)
    ensures DecodeAll(EncodeRecord(p)) == [p]
  {
    hide DecodeAll, EncodeRecord, DecodeRecord;
    RecordRoundTrip(p);
    DecodeRecordAlone(EncodeRecord(p));
  }

  lemma {:induction false} EncodeRoundTrip(t: Table)
    ensures DecodeAll(EncodeAll(t)) == t
  {
    if t != [] {
      EncodeRoundTrip(t[..|t| - 1]);
      DecodeOne(t[|t| - 1]);
      DecodeConcat(EncodeAll(t[..|t| - 1]), EncodeRecord(t[|t| - 1]));
    }
  }

  // --- Buffers ----------------------------------------------------------

  function Zeros(n: nat): seq<Byte> {
    seq(n, i => 0)
  }

  // memmove(buf + offset, src, |src|)
  function Overwrite(buf: seq<Byte>, offset: nat, src: seq<Byte>): seq<Byte>
    requires offset + |src| <= |buf|
  {
    buf[..offset] + src + buf[offset + |src|..]
  }

  method MemMove(buf: array<Byte>, offset: nat, src: seq<Byte>)
    requires offset + |src| <= buf.Length
    modifies buf
    ensures buf[..] == Overwrite(old(buf[..]), offset, src)
  {
    for i := 0 to |src|
      invariant buf[offset..offset + i] == src[..i]
      invariant buf[..offset] == old(buf[..offset])
      invariant buf[offset + i..] == old(buf[offset + i..])
    {
      buf[offset + i] := src[i];
      assert buf[offset..offset + i + 1] == buf[offset..offset + i] + [src[i]];
    }
    assert src[..|src|] == src;
    assert buf[..] == buf[..offset] + buf[offset..offset + |src|] + buf[offset + |src|..];
  }

  method MemtableToString(memtable: Table) returns (s: seq<Byte>)
    ensures s == EncodeAll(memtable)
  {
    var arr := new Byte[RECORD_SIZE * |memtable|];
    var offset := 0;
    for i := 0 to |memtable|
      invariant offset == RECORD_SIZE * i
      invariant arr[..offset] == EncodeAll(memtable[..i])
    {
      MemMove(arr, offset, Int32ToBytes(memtable[i].key));
      offset := offset + KEY_SIZE;
      MemMove(arr, offset, Int32ToBytes(memtable[i].val));
      offset := offset + KEY_SIZE;
      assert memtable[..i + 1][..i] == memtable[..i];
      assert arr[..offset] == EncodeAll(memtable[..i]) + EncodeRecord(memtable[i]);
    }
    assert memtable[..|memtable|] == memtable;
    s := arr[..];
  }

  method IsPageAllZero(pageData: seq<Byte>) returns (zero: bool)
    ensures zero <==> pageData == Zeros(|pageData|)
  {
    for idx := 0 to |pageData|
      invariant forall i :: 0 <= i < idx ==> pageData[i] == 0
    {
      if pageData[idx] != 0 {
        return false;
      }
    }
    return true;
  }
}
