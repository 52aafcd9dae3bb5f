/**
 * One run (src/run.cc) and one level of runs (src/level.cc). The single-page
 * latch of a run is modelled on its own in module RwLatch.
 */
module Runs {
  import opened Common
  import opened Layout
  import opened Bytes
  import opened Bloom
  import opened Page
  import opened Disk

  // memmove behind what is already written into a zeroed page.
  method Append(pageData: array<Byte>, offset: nat, src: seq<Byte>, ghost written: seq<Byte>) returns (next: nat)
    requires offset == |written| && offset + |src| <= pageData.Length
    requires pageData[..] == written + Zeros(pageData.Length - offset)
    modifies pageData
    ensures next == offset + |src|
    ensures pageData[..] == written + src + Zeros(pageData.Length - next)
  {
    MemMove(pageData, offset, src);
    next := offset + |src|;
  }

  class Run {
    const cfg: Config
    const hs: Hashes
    const level: nat
    const run: nat
    const disk: DiskManager
    var isEmpty: bool
    var kvNum: int
    var bloomFilter: Filter

    ghost predicate Wf() {
      && disk.pageSize == cfg.pageSize
      && PAYLOAD_OFFSET <= cfg.pageSize <= 0x7fff_ffff
      && GetPageId(cfg, level, run) <= 0x7fff_ffff
    }

    constructor (cfg: Config, hs: Hashes, level: nat, run: nat, disk: DiskManager)
      requires cfg.Valid() && ValidRun(cfg, level, run) && disk.pageSize == cfg.pageSize
      requires PageOk(hs, cfg.pageSize, PageAt(cfg.pageSize, disk.files, GetPageId(cfg, level, run)),
                      GetPageId(cfg, level, run))
      ensures this.cfg == cfg && this.hs == hs && this.level == level && this.run == run && this.disk == disk
      ensures Wf()
      ensures isEmpty <==> PageAt(cfg.pageSize, disk.files, GetPageId(cfg, level, run)) == Zeros(cfg.pageSize)
    {
      this.cfg, this.hs, this.level, this.run, this.disk := cfg, hs, level, run, disk;
      isEmpty, kvNum, bloomFilter := true, 0, EMPTY_FILTER;
      new;
      PageIdInRange(cfg, level, run);
      var page := new SSTablePage(cfg);
      page.data := disk.ReadDb(GetPageId(cfg, level, run));
      isEmpty := page.ParsePageData();
    }

    method ClearSSTable()
      requires Wf() && !isEmpty
      modifies this, disk
      ensures isEmpty
      ensures disk.files == old(disk.files).(
                pages := old(disk.files.pages)[GetPageId(cfg, level, run) := Zeros(cfg.pageSize)])
      ensures disk.history == old(disk.history) + [disk.files]
    {
      isEmpty := true;
      disk.WriteDb(Zeros(cfg.pageSize), GetPageId(cfg, level, run));
    }

    static method FillPage(pageSize: nat, memtable: Table, filter: Filter, pageId: nat) returns (page: seq<Byte>)
      requires Fits(pageSize, memtable) && pageId <= 0x7fff_ffff
      ensures page == EncodePage(pageSize, memtable, filter, pageId)
    {
      var offset := 0;
      var pageData := new Byte[pageSize](i => 0);
      assert pageData[..] == [] + Zeros(pageSize);
      ghost var header := [PAGE_HEADER_MAGIC];
      offset := Append(pageData, offset, [PAGE_HEADER_MAGIC], []);
      offset := Append(pageData, offset, Int32ToBytes(|memtable|), header);
      header := header + Int32ToBytes(|memtable|);
      offset := Append(pageData, offset, Int32ToBytes(pageId), header);
      header := header + Int32ToBytes(pageId);
      offset := Append(pageData, offset, FilterToBytes(filter), header);
      header := header + FilterToBytes(filter);
      var kv := MemtableToString(memtable);
      offset := Append(pageData, offset, kv, header);
      page := pageData[..];
    }

    // bloom_filter_: cleared, then every key of the table set.
    method FillFilter(memtable: Table) returns (bloom: BloomFilter)
      ensures fresh(bloom) && bloom.filter == FilterOf(hs, memtable)
    {
      bloom := new BloomFilter(hs, bloomFilter);
      bloom.ClearKey();
      for i := 0 to |memtable|
        invariant bloom.hs == hs && bloom.filter == FilterOf(hs, memtable[..i])
      {
        bloom.SetKey(memtable[i].key);
        assert memtable[..i + 1][..i] == memtable[..i];
      }
      assert memtable[..|memtable|] == memtable;
    }

    method DumpSSTable(memtable: Table, forTempTable: bool)
      requires Wf() && Fits(cfg.pageSize, memtable)
      modifies this, disk
      ensures !isEmpty && kvNum == |memtable| && bloomFilter == FilterOf(hs, memtable)
      ensures var page := EncodePage(cfg.pageSize, memtable, FilterOf(hs, memtable), GetPageId(cfg, level, run));
              disk.files ==
              if forTempTable then old(disk.files).(temp := page)
              else old(disk.files).(pages := old(disk.files.pages)[GetPageId(cfg, level, run) := page])
      ensures disk.history == old(disk.history) + [disk.files]
    {
      isEmpty := false;
      kvNum := |memtable|;
      var pageId := GetPageId(cfg, level, run);
      var bloom := FillFilter(memtable);
      bloomFilter := bloom.filter;
      var pageData := FillPage(cfg.pageSize, memtable, bloom.filter, pageId);
      if forTempTable {
        disk.WriteTempDb(pageData);
      } else {
        disk.WriteDb(pageData, pageId);
      }
    }

    // The out-parameters keep their values when the run is empty.
    method LoadSSTable(filter0: Filter, memtable0: Table) returns (filter: Filter, memtable: Table)
      requires Wf()
      requires !isEmpty ==> WellFormed(cfg.pageSize, PageAt(cfg.pageSize, disk.files, GetPageId(cfg, level, run)))
      ensures isEmpty ==> filter == filter0 && memtable == memtable0
      ensures var page := PageAt(cfg.pageSize, disk.files, GetPageId(cfg, level, run));
              !isEmpty ==> filter == FilterField(page) && memtable == Records(cfg.pageSize, page)
    {
      if isEmpty {
        return filter0, memtable0;
      }
      var page := new SSTablePage(cfg);
      page.data := disk.ReadDb(GetPageId(cfg, level, run));
      var zero := page.ParsePageData();
      filter, memtable := page.bloomFilter, page.memtable;
    }
  }

  class Level {
    const cfg: Config
    const hs: Hashes
    const level: nat
    const disk: DiskManager
    const runs: seq<Run>

    ghost predicate Wf() {
      && |runs| == GetMaxRun(cfg, level)
      && forall r | 0 <= r < |runs| ::
           && runs[r].Wf() && runs[r].cfg == cfg && runs[r].hs == hs
           && runs[r].level == level && runs[r].run == r && runs[r].disk == disk
    }

    constructor (cfg: Config, hs: Hashes, level: nat, disk: DiskManager)
      requires cfg.Valid() && level < cfg.maxLevelNum && disk.pageSize == cfg.pageSize
      requires forall r | 0 <= r < GetMaxRun(cfg, level) ::
                 PageOk(hs, cfg.pageSize, PageAt(cfg.pageSize, disk.files, GetPageId(cfg, level, r)),
                        GetPageId(cfg, level, r))
      ensures this.cfg == cfg && this.hs == hs && this.level == level && this.disk == disk
      ensures Wf()
      ensures forall r | 0 <= r < |runs| ::
                && fresh(runs[r])
                && (runs[r].isEmpty <==>
                    PageAt(cfg.pageSize, disk.files, GetPageId(cfg, level, r)) == Zeros(cfg.pageSize))
    {
      var maxRunSize := GetMaxRun(cfg, level);
      var rs: seq<Run> := [];
      for r := 0 to maxRunSize
        invariant |rs| == r
        invariant forall k | 0 <= k < r ::
                    && fresh(rs[k]) && rs[k].Wf() && rs[k].cfg == cfg && rs[k].hs == hs
                    && rs[k].level == level && rs[k].run == k && rs[k].disk == disk
                    && (rs[k].isEmpty <==>
                        PageAt(cfg.pageSize, disk.files, GetPageId(cfg, level, k)) == Zeros(cfg.pageSize))
      {
        var x := new Run(cfg, hs, level, r, disk);
        rs := rs + [x];
      }
      this.cfg, this.hs, this.level, this.disk := cfg, hs, level, disk;
      runs := rs;
    }

    // The leftmost empty run, or -1.
    method GetAvaiRun() returns (avai: int)
      requires Wf()
      ensures -1 <= avai < |runs|
      ensures avai != -1 ==> runs[avai].isEmpty
      ensures forall r | 0 <= r < |runs| && (avai == -1 || r < avai) :: !runs[r].isEmpty
    {
      for idx := 0 to |runs|
        invariant forall r | 0 <= r < idx :: !runs[r].isEmpty
      {
        if runs[idx].isEmpty {
          return idx;
        }
      }
      return -1;
    }
  }
}
