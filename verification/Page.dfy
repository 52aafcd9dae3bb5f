/**
 * The layout of an SSTable page (include/page.h), as written by
 * Run::DumpSSTable and read back by SSTablePage::ParsePageData
 * (src/sstable_page.cc).
 */
module Page {
  import opened Common
  import Tables
  import Layout
  import opened Bytes
  import opened Bloom

  // A table fits one page; the store has no overflow pages.
  predicate Fits(pageSize: nat, t: Table) {
    PAYLOAD_OFFSET + RECORD_SIZE * |t| <= pageSize <= 0x7fff_ffff
  }

  // | magic | number of pairs | page id | Bloom filter | pairs | zeros |
  function EncodePage(pageSize: nat, t: Table, f: Filter, id: nat): (page: seq<Byte>)
    requires Fits(pageSize, t) && id <= 0x7fff_ffff
    ensures |page| == pageSize
  {
    [PAGE_HEADER_MAGIC] + Int32ToBytes(|t|) + Int32ToBytes(id) + FilterToBytes(f)
    + EncodeAll(t) + Zeros(pageSize - PAYLOAD_OFFSET - RECORD_SIZE * |t|)
  }

  function KvNumOf(page: seq<Byte>): int
    requires PAYLOAD_OFFSET <= |page|
  {
    BytesToInt32(page[1..5])
  }

  function PageIdOf(page: seq<Byte>): int
    requires PAYLOAD_OFFSET <= |page|
  {
    BytesToInt32(page[5..9])
  }

  function FilterField(page: seq<Byte>): Filter
    requires PAYLOAD_OFFSET <= |page|
  {
    BytesToFilter(page[9..17])
  }

  // The pages ParsePageData accepts: its assertions hold and every record it
  // reads lies inside the page.
  predicate WellFormed(pageSize: nat, page: seq<Byte>) {
    && PAYLOAD_OFFSET <= |page| == pageSize
    && page[0] == PAGE_HEADER_MAGIC
    && 0 <= KvNumOf(page)
    && PAYLOAD_OFFSET + RECORD_SIZE * KvNumOf(page) <= |page|
    && 0 <= PageIdOf(page)
  }

  function Records(pageSize: nat, page: seq<Byte>): Table
    requires WellFormed(pageSize, page)
  {
    DecodeAll(page[PAYLOAD_OFFSET..PAYLOAD_OFFSET + RECORD_SIZE * KvNumOf(page)])
  }

  // What a page holds: nothing, or a table.
  function TableOf(pageSize: nat, page: seq<Byte>): Tables.Slot {
    if WellFormed(pageSize, page) then Some(Records(pageSize, page)) else None
  }

  // A page of the SSTable file: never written or cleared, or a sorted table
  // stamped with the page's own id and carrying that table's Bloom filter.
  ghost predicate PageOk(hs: Hashes, pageSize: nat, page: seq<Byte>, id: nat) {
    || page == Zeros(pageSize)
    || (&& WellFormed(pageSize, page)
        && PageIdOf(page) == id
        && FilterField(page) == FilterOf(hs, Records(pageSize, page))
        && Tables.Sorted(Records(pageSize, page)))
  }

  lemma ZeroPageEmpty(pageSize: nat)
    ensures TableOf(pageSize, Zeros(pageSize)) == None
  {}

  lemma Slices(magic: Byte, a: seq<Byte>, b: seq<Byte>, c: seq<Byte>, d: seq<Byte>, e: seq<Byte>)
    requires |a| == 4 && |b| == 4 && |c| == 8
    ensures var s := [magic] + a + b + c + d + e;
            s[0] == magic && s[1..5] == a && s[5..9] == b && s[9..17] == c && s[17..17 + |d|] == d
  {}

  lemma PageFields(pageSize: nat, t: Table, f: Filter, id: nat)
    requires Fits(pageSize, t) && id <= 0x7fff_ffff
    ensures var page := EncodePage(pageSize, t, f, id);
            && page[0] == PAGE_HEADER_MAGIC
            && page[1..5] == Int32ToBytes(|t|)
            && page[5..9] == Int32ToBytes(id)
            && page[9..17] == FilterToBytes(f)
            && page[PAYLOAD_OFFSET..PAYLOAD_OFFSET + RECORD_SIZE * |t|] == EncodeAll(t)
  {
    Slices(PAGE_HEADER_MAGIC, Int32ToBytes(|t|), Int32ToBytes(id), FilterToBytes(f), EncodeAll(t),
           Zeros(pageSize - PAYLOAD_OFFSET - RECORD_SIZE * |t|));
  }

  // Where everything lies in a dumped page.
  lemma PageLayout(pageSize: nat, t: Table, f: Filter, id: nat)
    requires Fits(pageSize, t) && id <= 0x7fff_ffff
    ensures var page := EncodePage(pageSize, t, f, id);
            && page[0] == 0xAA
            && page[1..5] == Int32ToBytes(|t|)
            && page[5..9] == Int32ToBytes(id)
            && page[9..17] == ToBytes(BitsToNat(f), 8)
            && page[17..17 + 8 * |t|] == EncodeAll(t)
            && forall i :: 17 + 8 * |t| <= i < pageSize ==> page[i] == 0
  {
    PageFields(pageSize, t, f, id);
  }

  // Parsing a dumped page gives back exactly the pairs, the page id and the
  // filter that were dumped, and a dumped page is never all zeros.
  lemma PageRoundTrip(pageSize: nat, t: Table, f: Filter, id: nat)
    requires Fits(pageSize, t) && id <= 0x7fff_ffff
    ensures var page := EncodePage(pageSize, t, f, id);
            && WellFormed(pageSize, page)
            && TableOf(pageSize, page) == Some(t)
            && KvNumOf(page) == |t|
            && PageIdOf(page) == id
            && FilterField(page) == f
            && page != Zeros(pageSize)
  {
    PageFields(pageSize, t, f, id);
    Int32RoundTrip(|t|);
    Int32RoundTrip(id);
    FilterRoundTrip(f);
    EncodeRoundTrip(t);
  }

  // The page Run::DumpSSTable writes for a sorted table is a good page.
  lemma DumpedPageOk(hs: Hashes, pageSize: nat, t: Table, id: nat)
    requires Fits(pageSize, t) && id <= 0x7fff_ffff && Tables.Sorted(t)
    ensures PageOk(hs, pageSize, EncodePage(pageSize, t, FilterOf(hs, t), id), id)
    ensures TableOf(pageSize, EncodePage(pageSize, t, FilterOf(hs, t), id)) == Some(t)
  {
    PageRoundTrip(pageSize, t, FilterOf(hs, t), id);
  }

  class SSTablePage {
    const cfg: Config
    var data: seq<Byte>
    var pageId: int
    var level: nat
    var run: nat
    var kvNum: int
    var bloomFilter: Filter
    var memtable: Table

    constructor (cfg: Config)
      ensures this.cfg == cfg && data == Zeros(cfg.pageSize) && memtable == []
    {
      this.cfg := cfg;
      data := Zeros(cfg.pageSize);
      pageId, level, run, kvNum := 0, 0, 0, -1;
      bloomFilter := EMPTY_FILTER;
      memtable := [];
    }

    // The loop over the payload, at a moving offset.
    static method ReadRecords(data: seq<Byte>, start: nat, kvNum: nat) returns (memtable: Table)
      requires start + RECORD_SIZE * kvNum <= |data|
      ensures memtable == DecodeAll(data[start..start + RECORD_SIZE * kvNum])
    {
      memtable := [];
      var offset := start;
      for idx := 0 to kvNum
        invariant offset == start + RECORD_SIZE * idx
        invariant memtable == DecodeAll(data[start..offset])
      {
        DecodeNext(data, start, offset);
        var key := BytesToInt32(data[offset..offset + KEY_SIZE]);
        offset := offset + KEY_SIZE;
        var val := BytesToInt32(data[offset..offset + KEY_SIZE]);
        offset := offset + KEY_SIZE;
        memtable := memtable + [Pair(key, val)];
      }
    }

    method ParsePageData() returns (allZero: bool)
      requires |data| == cfg.pageSize
      requires data == Zeros(|data|) || WellFormed(cfg.pageSize, data)
      requires memtable == []
      modifies this
      ensures data == old(data)
      ensures allZero <==> data == Zeros(|data|)
      ensures allZero ==> memtable == []
      ensures !allZero ==>
                && kvNum == KvNumOf(data)
                && pageId == PageIdOf(data)
                && (pageId < cfg.TotalPages() ==>
                      Layout.ValidRun(cfg, level, run) && Layout.GetPageId(cfg, level, run) == pageId)
                && bloomFilter == FilterField(data)
                && memtable == Records(cfg.pageSize, data)
    {
      allZero := IsPageAllZero(data);
      if allZero {
        return;
      }
      var offset := 0;
      var header := data[offset];
      assert header == PAGE_HEADER_MAGIC;
      offset := offset + 1;
      kvNum := BytesToInt32(data[offset..offset + 4]);
      offset := offset + 4;
      pageId := BytesToInt32(data[offset..offset + 4]);
      offset := offset + 4;
      if pageId < cfg.TotalPages() {
        var found, l, r := Layout.GetLevelRunNo(cfg, pageId);
        assert found;
        level, run := l, r;
      }
      bloomFilter := BytesToFilter(data[offset..offset + 8]);
      offset := offset + 8;
      memtable := ReadRecords(data, offset, kvNum);
    }
  }
}
