/**
 * The contents of the disk files: which table each slot holds, in fill order,
 * what the log replays to, and what a crash at this moment would leave
 * recoverable.
 */
module Store {
  import opened Common
  import opened Tables
  import opened Layout
  import Bytes
  import Bloom
  import opened Page
  import opened Disk

  function SlotOf(cfg: Config, files: Files, level: nat, run: nat): Slot {
    TableOf(cfg.pageSize, PageAt(cfg.pageSize, files, GetPageId(cfg, level, run)))
  }

  function LevelSlots(cfg: Config, files: Files, level: nat): (s: seq<Slot>)
    ensures |s| == GetMaxRun(cfg, level)
  {
    seq(GetMaxRun(cfg, level), run requires 0 <= run => SlotOf(cfg, files, level, run))
  }

  // The slots of the given level and everything below it, in fill order.
  function SlotsFrom(cfg: Config, files: Files, level: nat): seq<Slot>
    decreases cfg.maxLevelNum - level
  {
    if level >= cfg.maxLevelNum then []
    else SlotsFrom(cfg, files, level + 1) + LevelSlots(cfg, files, level)
  }

  // All slots in fill order, oldest first when the store is well laid out.
  function Slots(cfg: Config, files: Files): seq<Slot> {
    SlotsFrom(cfg, files, 0)
  }

  lemma {:induction false} SlotsFromLength(cfg: Config, files: Files, level: nat)
    requires level <= cfg.maxLevelNum
    ensures |SlotsFrom(cfg, files, level)| == cfg.TotalPages() - GetPageId(cfg, level, 0)
    decreases cfg.maxLevelNum - level
  {
    hide TableOf;
    TotalPagesBase(cfg);
    if level < cfg.maxLevelNum {
      SlotsFromLength(cfg, files, level + 1);
      PageBaseStep(cfg, level);
    }
  }

  lemma SlotsLength(cfg: Config, files: Files)
    ensures |Slots(cfg, files)| == cfg.TotalPages()
  {
    SlotsFromLength(cfg, files, 0);
  }

  lemma {:induction false} SlotsFromAt(cfg: Config, files: Files, from: nat, level: nat, run: nat)
    requires from <= level && ValidRun(cfg, level, run)
    ensures 0 <= SlotNo(cfg, level, run) < |SlotsFrom(cfg, files, from)|
    ensures SlotsFrom(cfg, files, from)[SlotNo(cfg, level, run)] == SlotOf(cfg, files, level, run)
    decreases level - from
  {
    hide TableOf;
    SlotsFromLength(cfg, files, from);
    SlotsFromLength(cfg, files, from + 1);
    PageBaseStep(cfg, level);
    PageBaseStep(cfg, from);
    LevelStarts(cfg, level);
    if from < level {
      SlotsFromAt(cfg, files, from + 1, level, run);
    }
  }

  lemma SlotAt(cfg: Config, files: Files, level: nat, run: nat)
    requires ValidRun(cfg, level, run)
    ensures 0 <= SlotNo(cfg, level, run) < |Slots(cfg, files)|
    ensures Slots(cfg, files)[SlotNo(cfg, level, run)] == SlotOf(cfg, files, level, run)
  {
    SlotsFromAt(cfg, files, 0, level, run);
  }

  lemma WriteLevel(cfg: Config, files: Files, level: nat, run: nat, page: seq<Byte>, l: nat)
    requires ValidRun(cfg, level, run) && l < cfg.maxLevelNum
    ensures var after := files.(pages := files.pages[GetPageId(cfg, level, run) := page]);
            LevelSlots(cfg, after, l) ==
            if l == level then LevelSlots(cfg, files, l)[run := TableOf(cfg.pageSize, page)]
            else LevelSlots(cfg, files, l)
  {
    hide TableOf;
    var after := files.(pages := files.pages[GetPageId(cfg, level, run) := page]);
    forall r | 0 <= r < GetMaxRun(cfg, l)
      ensures SlotOf(cfg, after, l, r) ==
              if l == level && r == run then TableOf(cfg.pageSize, page) else SlotOf(cfg, files, l, r)
    {
      if GetPageId(cfg, l, r) == GetPageId(cfg, level, run) { PageIdInjective(cfg, l, r, level, run); }
    }
  }

  lemma UpdateRight<T>(a: seq<T>, b: seq<T>, i: nat, x: T)
    requires i < |b|
    ensures (a + b)[|a| + i := x] == a + b[i := x]
  {}

  lemma UpdateLeft<T>(a: seq<T>, b: seq<T>, i: nat, x: T)
    requires i < |a|
    ensures (a + b)[i := x] == a[i := x] + b
  {}

  // A level above or at the written run, when the levels below it are settled.
  lemma WriteSlotHere(deeper: seq<Slot>, here: seq<Slot>, deeperAfter: seq<Slot>, hereAfter: seq<Slot>,
                      at: nat, x: Slot)
    requires at < |deeper| + |here|
    requires deeperAfter == if at < |deeper| then deeper[at := x] else deeper
    requires hereAfter == if at < |deeper| then here else here[at - |deeper| := x]
    ensures deeperAfter + hereAfter == (deeper + here)[at := x]
  {
    if at < |deeper| { UpdateLeft(deeper, here, at, x); } else { UpdateRight(deeper, here, at - |deeper|, x); }
  }

  // Writing the page of one run changes that run's slot and no other.
  lemma {:induction false} WriteSlotFrom(cfg: Config, files: Files, level: nat, run: nat, page: seq<Byte>, from: nat)
    requires ValidRun(cfg, level, run) && from <= cfg.maxLevelNum
    ensures var after := files.(pages := files.pages[GetPageId(cfg, level, run) := page]);
            SlotsFrom(cfg, after, from) ==
            if from <= level && 0 <= SlotNo(cfg, level, run) < |SlotsFrom(cfg, files, from)| then
              SlotsFrom(cfg, files, from)[SlotNo(cfg, level, run) := TableOf(cfg.pageSize, page)]
            else SlotsFrom(cfg, files, from)
    decreases cfg.maxLevelNum - from
  {
    hide TableOf, LevelSlots;
    if from < cfg.maxLevelNum {
      WriteSlotFrom(cfg, files, level, run, page, from + 1);
      WriteLevel(cfg, files, level, run, page, from);
      if from <= level {
        var after := files.(pages := files.pages[GetPageId(cfg, level, run) := page]);
        SlotsFromLength(cfg, files, from + 1);
        if from == level {
          assert SlotNo(cfg, level, run) == |SlotsFrom(cfg, files, from + 1)| + run;
        } else {
          SlotsFromAt(cfg, files, from + 1, level, run);
        }
        WriteSlotHere(SlotsFrom(cfg, files, from + 1), LevelSlots(cfg, files, from),
                      SlotsFrom(cfg, after, from + 1), LevelSlots(cfg, after, from),
                      SlotNo(cfg, level, run), TableOf(cfg.pageSize, page));
      }
    }
  }

  lemma WriteSlot(cfg: Config, files: Files, level: nat, run: nat, page: seq<Byte>)
    requires ValidRun(cfg, level, run)
    ensures 0 <= SlotNo(cfg, level, run) < |Slots(cfg, files)|
    ensures Slots(cfg, files.(pages := files.pages[GetPageId(cfg, level, run) := page])) ==
            Slots(cfg, files)[SlotNo(cfg, level, run) := TableOf(cfg.pageSize, page)]
  {
    SlotAt(cfg, files, level, run);
    WriteSlotFrom(cfg, files, level, run, page, 0);
  }

  // Slots depend on the SSTable pages alone.
  lemma {:induction false} SlotsFromPages(cfg: Config, a: Files, b: Files, level: nat)
    requires a.pages == b.pages
    ensures SlotsFrom(cfg, a, level) == SlotsFrom(cfg, b, level)
    decreases cfg.maxLevelNum - level
  {
    hide TableOf;
    if level < cfg.maxLevelNum {
      SlotsFromPages(cfg, a, b, level + 1);
      assert LevelSlots(cfg, a, level) == LevelSlots(cfg, b, level);
    }
  }

  // Every page of every run is clear, or a table stamped for that very run.
  ghost predicate FilesOk(cfg: Config, hs: Bloom.Hashes, files: Files) {
    forall level, run | ValidRun(cfg, level, run) ::
      PageOk(hs, cfg.pageSize, PageAt(cfg.pageSize, files, GetPageId(cfg, level, run)), GetPageId(cfg, level, run))
  }

  lemma WritePageOk(cfg: Config, hs: Bloom.Hashes, files: Files, level: nat, run: nat, page: seq<Byte>)
    requires ValidRun(cfg, level, run) && FilesOk(cfg, hs, files)
    requires PageOk(hs, cfg.pageSize, page, GetPageId(cfg, level, run))
    ensures FilesOk(cfg, hs, files.(pages := files.pages[GetPageId(cfg, level, run) := page]))
  {
    var after := files.(pages := files.pages[GetPageId(cfg, level, run) := page]);
    forall l, r | ValidRun(cfg, l, r)
      ensures PageOk(hs, cfg.pageSize, PageAt(cfg.pageSize, after, GetPageId(cfg, l, r)), GetPageId(cfg, l, r))
    {
      if GetPageId(cfg, l, r) == GetPageId(cfg, level, run) { PageIdInjective(cfg, l, r, level, run); }
    }
  }

  lemma {:induction false} FilesOkSortedFrom(cfg: Config, hs: Bloom.Hashes, files: Files, level: nat)
    requires FilesOk(cfg, hs, files)
    ensures AllSorted(SlotsFrom(cfg, files, level))
    decreases cfg.maxLevelNum - level
  {
    if level < cfg.maxLevelNum { FilesOkSortedFrom(cfg, hs, files, level + 1); }
  }

  // A new SSTable file: good pages, no table anywhere.
  lemma {:induction false} NewFilesFrom(cfg: Config, hs: Bloom.Hashes, files: Files, level: nat)
    requires files.pages == map[]
    ensures FilesOk(cfg, hs, files)
    ensures forall i :: 0 <= i < |SlotsFrom(cfg, files, level)| ==> SlotsFrom(cfg, files, level)[i].None?
    decreases cfg.maxLevelNum - level
  {
    ZeroPageEmpty(cfg.pageSize);
    if level < cfg.maxLevelNum { NewFilesFrom(cfg, hs, files, level + 1); }
  }

  // --- The log ------------------------------------------------------------

  // The records on disk up to the write cursor.
  function LogRecords(files: Files): Table
    requires files.logPos <= |files.log|
  {
    Bytes.DecodeAll(files.log[..files.logPos])
  }

  // Replaying records in order, as recovery fills a fresh buffer.
  ghost function Replay(records: Table): map<Key, Val> {
    if records == [] then map[]
    else
      var last := records[|records| - 1];
      Replay(records[..|records| - 1])[last.key := last.val]
  }

  // --- What a crash leaves --------------------------------------------------

  ghost function Recover(slots: seq<Slot>, temp: Slot, base: nat): map<Key, Val>
    requires base <= |slots|
  {
    Overlay(slots[..base]) + SlotMap(temp) + Overlay(slots[base..])
  }

  // The temporary page, when it holds a table, stands for the compacted group
  // and is read just below slot `base`, where that group started.
  ghost function RecoverTables(cfg: Config, files: Files, base: nat): map<Key, Val>
    requires base <= cfg.TotalPages()
  {
    SlotsLength(cfg, files);
    Recover(Slots(cfg, files), TableOf(cfg.pageSize, TempPage(cfg.pageSize, files)), base)
  }
}
