/**
 * SSTableManager (src/sstable_manager.cc): every operation is specified by
 * what it does to the slots, the fill-order view of the SSTable file.
 */
module SSTables {
  import opened Common
  import Tables
  import opened Layout
  import Bytes
  import opened Bloom
  import opened Page
  import opened Disk
  import opened Store
  import opened Runs

  // The first empty slot in fill order, or the number of slots.
  ghost function FirstEmpty(s: seq<Tables.Slot>): (p: nat)
    ensures p <= |s|
    ensures forall i :: 0 <= i < p ==> s[i].Some?
    ensures p < |s| ==> s[p].None?
  {
    if s == [] || s[0].None? then 0 else 1 + FirstEmpty(s[1..])
  }

  class SSTableManager {
    const cfg: Config
    const hs: Hashes
    const disk: DiskManager
    const levels: seq<Level>

    ghost predicate Wf() {
      && cfg.Shape()
      && disk.pageSize == cfg.pageSize
      && |levels| == cfg.maxLevelNum
      && forall l | 0 <= l < |levels| ::
           && levels[l].Wf() && levels[l].cfg == cfg && levels[l].hs == hs
           && levels[l].level == l && levels[l].disk == disk
    }

    ghost function AllRuns(): set<Run> {
      set l, r | 0 <= l < |levels| && 0 <= r < |levels[l].runs| :: levels[l].runs[r]
    }

    // The in-memory flag of every run agrees with its page on disk.
    ghost predicate Valid()
      reads disk, AllRuns()
    {
      && Wf()
      && disk.Valid()
      && FilesOk(cfg, hs, disk.files)
      && forall l, r {:trigger levels[l].runs[r]} | ValidRun(cfg, l, r) ::
           levels[l].runs[r].isEmpty <==> SlotOf(cfg, disk.files, l, r).None?
    }

    ghost function View(): seq<Tables.Slot>
      reads disk
    {
      Slots(cfg, disk.files)
    }

    constructor (cfg: Config, hs: Hashes, disk: DiskManager)
      requires cfg.Valid() && disk.pageSize == cfg.pageSize && disk.Valid()
      requires FilesOk(cfg, hs, disk.files)
      ensures this.cfg == cfg && this.hs == hs && this.disk == disk
      ensures Valid() && fresh(AllRuns())
    {
      var ls: seq<Level> := [];
      for l := 0 to cfg.maxLevelNum
        invariant |ls| == l
        invariant forall k | 0 <= k < l ::
                    && ls[k].Wf() && ls[k].cfg == cfg && ls[k].hs == hs && ls[k].level == k && ls[k].disk == disk
        invariant forall k, r | 0 <= k < l && 0 <= r < |ls[k].runs| ::
                    && fresh(ls[k].runs[r])
                    && (ls[k].runs[r].isEmpty <==>
                        PageAt(cfg.pageSize, disk.files, GetPageId(cfg, k, r)) == Bytes.Zeros(cfg.pageSize))
      {
        var x := new Level(cfg, hs, l, disk);
        ls := ls + [x];
      }
      this.cfg, this.hs, this.disk := cfg, hs, disk;
      levels := ls;
      new;
      ZeroPageEmpty(cfg.pageSize);
    }

    lemma RunInSet(l: nat, r: nat)
      requires Wf() && ValidRun(cfg, l, r)
      ensures r < |levels[l].runs| && levels[l].runs[r] in AllRuns()
    {}

    method IsEmpty(levelNo: nat, runNo: nat) returns (empty: bool)
      requires Valid() && ValidRun(cfg, levelNo, runNo)
      ensures 0 <= SlotNo(cfg, levelNo, runNo) < |View()|
      ensures empty <==> View()[SlotNo(cfg, levelNo, runNo)].None?
    {
      hide TableOf, PageOk;
      SlotAt(cfg, disk.files, levelNo, runNo);
      empty := levels[levelNo].runs[runNo].isEmpty;
    }

    // Bottom level first, each level from the left: the first empty slot.
    method GetAvaiRun() returns (found: bool, levelNo: nat, runNo: nat)
      requires Valid()
      ensures found <==> FirstEmpty(View()) < |View()|
      ensures found ==> ValidRun(cfg, levelNo, runNo) && SlotNo(cfg, levelNo, runNo) == FirstEmpty(View())
    {
      hide TableOf, PageOk;
      found, levelNo, runNo := false, 0, 0;
      SlotsLength(cfg, disk.files);
      var idx := cfg.maxLevelNum - 1;
      LevelStarts(cfg, idx);
      while idx >= 0
        invariant -1 <= idx < cfg.maxLevelNum
        invariant idx >= 0 ==> forall i | 0 <= i < LevelStart(cfg, idx) :: i < |View()| ==> View()[i].Some?
        invariant idx == -1 ==> forall i | 0 <= i < |View()| :: View()[i].Some?
      {
        var avaiRun := levels[idx].GetAvaiRun();
        LevelStarts(cfg, idx);
        forall r | 0 <= r < GetMaxRun(cfg, idx)
          ensures 0 <= SlotNo(cfg, idx, r) < |View()|
          ensures View()[SlotNo(cfg, idx, r)].None? <==> levels[idx].runs[r].isEmpty
        {
          SlotAt(cfg, disk.files, idx, r);
        }
        forall i | 0 <= i < LevelStart(cfg, idx) + if avaiRun == -1 then GetMaxRun(cfg, idx) else avaiRun
          ensures i < |View()| && View()[i].Some?
        {
          if i >= LevelStart(cfg, idx) {
            var r := i - LevelStart(cfg, idx);
            assert SlotNo(cfg, idx, r) == i;
          }
        }
        if avaiRun != -1 {
          return true, idx, avaiRun;
        }
        idx := idx - 1;
      }
    }

    lemma FlagFrame(files: Files, l: nat, r: nat, page: seq<Byte>)
      requires Wf() && ValidRun(cfg, l, r)
      ensures var after := files.(pages := files.pages[GetPageId(cfg, l, r) := page]);
              && SlotOf(cfg, after, l, r) == TableOf(cfg.pageSize, page)
              && forall k, m | ValidRun(cfg, k, m) && !(k == l && m == r) ::
                   SlotOf(cfg, after, k, m) == SlotOf(cfg, files, k, m)
    {
      hide TableOf;
      forall k, m | ValidRun(cfg, k, m) && !(k == l && m == r)
        ensures GetPageId(cfg, k, m) != GetPageId(cfg, l, r)
      {
        if GetPageId(cfg, k, m) == GetPageId(cfg, l, r) { PageIdInjective(cfg, k, m, l, r); }
      }
    }

    // What writing one page of a valid store does to slots and pages.
    lemma AfterWrite(files: Files, l: nat, r: nat, page: seq<Byte>)
      requires Wf() && ValidRun(cfg, l, r) && FilesOk(cfg, hs, files)
      requires PageOk(hs, cfg.pageSize, page, GetPageId(cfg, l, r))
      ensures var after := files.(pages := files.pages[GetPageId(cfg, l, r) := page]);
              && FilesOk(cfg, hs, after)
              && 0 <= SlotNo(cfg, l, r) < |Slots(cfg, files)|
              && Slots(cfg, after) == Slots(cfg, files)[SlotNo(cfg, l, r) := TableOf(cfg.pageSize, page)]
    {
      hide TableOf;
      WritePageOk(cfg, hs, files, l, r, page);
      WriteSlot(cfg, files, l, r, page);
    }

    method DumpAt(levelNo: nat, runNo: nat, memtable: Table)
      requires Valid() && ValidRun(cfg, levelNo, runNo)
      requires Tables.Sorted(memtable) && Fits(cfg.pageSize, memtable)
      modifies disk, AllRuns()
      ensures Valid()
      ensures 0 <= SlotNo(cfg, levelNo, runNo) < |old(View())|
      ensures View() == old(View())[SlotNo(cfg, levelNo, runNo) := Some(memtable)]
      ensures disk.files == old(disk.files).(pages := disk.files.pages)
      ensures disk.history == old(disk.history) + [disk.files]
    {
      hide TableOf, PageOk;
      var id := GetPageId(cfg, levelNo, runNo);
      PageIdInRange(cfg, levelNo, runNo);
      RunInSet(levelNo, runNo);
      ghost var page := EncodePage(cfg.pageSize, memtable, FilterOf(hs, memtable), id);
      levels[levelNo].runs[runNo].DumpSSTable(memtable, false);
      DumpedPageOk(hs, cfg.pageSize, memtable, id);
      AfterWrite(old(disk.files), levelNo, runNo, page);
      FlagFrame(old(disk.files), levelNo, runNo, page);
    }

    // Dumps a full memtable into the first empty slot, if there is one.
    method DumpSSTable(memtable: Table) returns (dumped: bool)
      requires Valid() && Tables.Sorted(memtable) && Fits(cfg.pageSize, memtable)
      modifies disk, AllRuns()
      ensures Valid()
      ensures dumped <==> FirstEmpty(old(View())) < |old(View())|
      ensures dumped ==>
                && View() == old(View())[FirstEmpty(old(View())) := Some(memtable)]
                && disk.files == old(disk.files).(pages := disk.files.pages)
                && disk.history == old(disk.history) + [disk.files]
      ensures !dumped ==> disk.files == old(disk.files) && disk.history == old(disk.history)
    {
      hide TableOf, PageOk;
      var canDump, levelNo, runNo := GetAvaiRun();
      if canDump {
        DumpAt(levelNo, runNo, memtable);
        return true;
      }
      return false;
    }

    lemma TempHolds(files: Files, t: Table)
      requires Wf() && Fits(cfg.pageSize, t)
      ensures var id := GetPageId(cfg, cfg.maxLevelNum - 1, 0);
              && id <= 0x7fff_ffff
              && var page := EncodePage(cfg.pageSize, t, FilterOf(hs, t), id);
                 var after := files.(temp := page);
                 && TableOf(cfg.pageSize, TempPage(cfg.pageSize, after)) == Some(t)
                 && PageIdOf(TempPage(cfg.pageSize, after)) == id
    {
      PageIdInRange(cfg, cfg.maxLevelNum - 1, 0);
      assert levels[cfg.maxLevelNum - 1].runs[0].Wf();
      PageRoundTrip(cfg.pageSize, t, FilterOf(hs, t), GetPageId(cfg, cfg.maxLevelNum - 1, 0));
    }

    method WriteTemp(memtable: Table)
      requires Valid() && Fits(cfg.pageSize, memtable)
      modifies disk, AllRuns()
      ensures forall l, r | ValidRun(cfg, l, r) ::
                levels[l].runs[r].isEmpty <==> old(levels[l].runs[r].isEmpty) && !(l == cfg.maxLevelNum - 1 && r == 0)
      ensures disk.files == old(disk.files).(temp := disk.files.temp)
      ensures TableOf(cfg.pageSize, TempPage(cfg.pageSize, disk.files)) == Some(memtable)
      ensures PageIdOf(TempPage(cfg.pageSize, disk.files)) == GetPageId(cfg, cfg.maxLevelNum - 1, 0)
      ensures disk.history == old(disk.history) + [disk.files]
    {
      hide TableOf, PageOk;
      RunInSet(cfg.maxLevelNum - 1, 0);
      levels[cfg.maxLevelNum - 1].runs[0].DumpSSTable(memtable, true);
      TempHolds(old(disk.files), memtable);
    }

    lemma BottomSlot(files: Files)
      requires Wf()
      ensures ValidRun(cfg, cfg.maxLevelNum - 1, 0)
      ensures |Slots(cfg, files)| > 0 && Slots(cfg, files)[0] == SlotOf(cfg, files, cfg.maxLevelNum - 1, 0)
    {
      LevelStarts(cfg, cfg.maxLevelNum - 1);
      SlotAt(cfg, files, cfg.maxLevelNum - 1, 0);
    }

    lemma SameSlots(a: Files, b: Files)
      requires a.pages == b.pages
      ensures FilesOk(cfg, hs, a) ==> FilesOk(cfg, hs, b)
      ensures forall l, r | ValidRun(cfg, l, r) :: SlotOf(cfg, b, l, r) == SlotOf(cfg, a, l, r)
      ensures Slots(cfg, b) == Slots(cfg, a)
    {
      assert forall id :: PageAt(cfg.pageSize, a, id) == PageAt(cfg.pageSize, b, id);
      SlotsFromPages(cfg, a, b, 0);
    }

    // The temporary page goes through run (L-1, 0), which marks that run
    // non-empty: the flags stay right if slot 0 was occupied already, and go
    // wrong if it was not.
    method DumpTempSSTable(memtable: Table)
      requires Valid() && Fits(cfg.pageSize, memtable)
      modifies disk, AllRuns()
      ensures View() == old(View()) && |View()| > 0
      ensures View()[0].Some? ==> Valid()
      ensures View()[0].None? ==> !Valid()
      ensures disk.files == old(disk.files).(temp := disk.files.temp)
      ensures TableOf(cfg.pageSize, TempPage(cfg.pageSize, disk.files)) == Some(memtable)
      ensures PageIdOf(TempPage(cfg.pageSize, disk.files)) == GetPageId(cfg, cfg.maxLevelNum - 1, 0)
      ensures disk.history == old(disk.history) + [disk.files]
    {
      hide TableOf, PageOk;
      WriteTemp(memtable);
      SameSlots(old(disk.files), disk.files);
      BottomSlot(disk.files);
    }

    method ClearTempSSTable()
      requires Valid()
      modifies disk
      ensures Valid()
      ensures View() == old(View())
      ensures disk.files == old(disk.files).(temp := disk.files.temp)
      ensures TableOf(cfg.pageSize, TempPage(cfg.pageSize, disk.files)).None?
      ensures disk.history == old(disk.history) + [disk.files]
    {
      hide TableOf, PageOk;
      disk.WriteTempDb(Bytes.Zeros(cfg.pageSize));
      ZeroPageEmpty(cfg.pageSize);
      SameSlots(old(disk.files), disk.files);
    }

    method ClearSSTable(levelNo: nat, runNo: nat)
      requires Valid() && ValidRun(cfg, levelNo, runNo)
      requires SlotOf(cfg, disk.files, levelNo, runNo).Some?
      modifies disk, AllRuns()
      ensures Valid()
      ensures 0 <= SlotNo(cfg, levelNo, runNo) < |old(View())|
      ensures View() == old(View())[SlotNo(cfg, levelNo, runNo) := None]
      ensures disk.files == old(disk.files).(pages := disk.files.pages)
      ensures disk.history == old(disk.history) + [disk.files]
    {
      RunInSet(levelNo, runNo);
      levels[levelNo].runs[runNo].ClearSSTable();
      ZeroPageEmpty(cfg.pageSize);
      AfterWrite(old(disk.files), levelNo, runNo, Bytes.Zeros(cfg.pageSize));
      FlagFrame(old(disk.files), levelNo, runNo, Bytes.Zeros(cfg.pageSize));
    }

    // An occupied run yields its table and that table's Bloom filter.
    method LoadSSTable(levelNo: nat, runNo: nat, filter0: Filter, memtable0: Table)
      returns (exist: bool, filter: Filter, memtable: Table)
      requires Valid() && ValidRun(cfg, levelNo, runNo)
      ensures 0 <= SlotNo(cfg, levelNo, runNo) < |View()|
      ensures exist <==> View()[SlotNo(cfg, levelNo, runNo)].Some?
      ensures exist ==>
                && View()[SlotNo(cfg, levelNo, runNo)] == Some(memtable)
                && filter == FilterOf(hs, memtable)
                && Tables.Sorted(memtable)
      ensures !exist ==> filter == filter0 && memtable == memtable0
    {
      SlotAt(cfg, disk.files, levelNo, runNo);
      var run := levels[levelNo].runs[runNo];
      if run.isEmpty {
        return false, filter0, memtable0;
      }
      filter, memtable := run.LoadSSTable(filter0, memtable0);
      return true, filter, memtable;
    }
  }
}
