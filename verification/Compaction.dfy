/**
 * CompactionManager (src/compaction_manager.cc) as the client sees it: a
 * request is one turn of the compaction thread. That no client step can come
 * between is what module CompactionProtocol proves.
 */
module Compaction {
  import opened Common
  import opened Tables
  import opened Layout
  import Bloom
  import opened Page
  import opened Disk
  import opened Store
  import opened SSTables

  // Minor compaction merges the two uppermost levels.
  const MINOR_COMPACTION_LEVEL_NUM: nat := 2

  // Occupied slots come before empty ones.
  ghost predicate Prefix(s: seq<Slot>) {
    forall i, j :: 0 <= i < j < |s| && s[j].Some? ==> s[i].Some?
  }

  ghost function Nones(n: nat): (s: seq<Slot>)
    ensures |s| == n && forall i :: 0 <= i < n ==> s[i].None?
  {
    seq(n, i => None)
  }

  // The group from `base` on with its j oldest slots cleared.
  ghost function Cleared(s: seq<Slot>, base: nat, j: nat): (r: seq<Slot>)
    requires base + j <= |s|
    ensures |r| == |s|
  {
    s[..base] + Nones(j) + s[base + j..]
  }

  // The group from `base` on collapsed into one table in its first slot.
  ghost function Compacted(s: seq<Slot>, base: nat): (r: seq<Slot>)
    requires base < |s|
    ensures |r| == |s|
  {
    s[..base] + [Some(Fold(s[base..]))] + Nones(|s| - base - 1)
  }

  // --- What stays recoverable ---------------------------------------------

  lemma UnionEmpty(m: map<Key, Val>)
    ensures m + map[] == m && map[] + m == m
  {}

  lemma SplitOverlay(s: seq<Slot>, i: nat)
    requires i <= |s|
    ensures Overlay(s) == Overlay(s[..i]) + Overlay(s[i..])
  {
    assert s == s[..i] + s[i..];
    OverlayConcat(s[..i], s[i..]);
  }

  lemma ClearedParts(s: seq<Slot>, base: nat, j: nat)
    requires base + j <= |s|
    ensures Cleared(s, base, j)[..base] == s[..base]
    ensures Overlay(Cleared(s, base, j)[base..]) == Overlay(s[base + j..])
  {
    assert Cleared(s, base, j)[base..] == Nones(j) + s[base + j..];
    OverlayConcat(Nones(j), s[base + j..]);
    OverlayNone(Nones(j));
    UnionEmpty(Overlay(s[base + j..]));
  }

  lemma CompactedParts(s: seq<Slot>, base: nat)
    requires base < |s|
    ensures Compacted(s, base)[..base] == s[..base]
    ensures Overlay(Compacted(s, base)[base..]) == AsMap(Fold(s[base..]))
  {
    var target, rest := Some(Fold(s[base..])), Nones(|s| - base - 1);
    assert Compacted(s, base)[base..] == [target] + rest;
    OverlayConcat([target], rest);
    OverlayNone(rest);
    assert [target][..0] == [];
    UnionEmpty(SlotMap(target));
  }

  // Reading an override a second time, in whole or in part, changes nothing.
  lemma OverrideAgain(older: map<Key, Val>, folded: map<Key, Val>, a: map<Key, Val>, b: map<Key, Val>)
    requires Ordinary(folded) == Ordinary(a + b)
    ensures Ordinary(older + folded + b) == Ordinary(older + (a + b))
  {
    OrdinaryUnion(older + folded, b);
    OrdinaryUnion(older, folded);
    OrdinaryUnion(older, a + b);
    OrdinaryUnion(a, b);
  }

  lemma OverrideWhole(older: map<Key, Val>, folded: map<Key, Val>, group: map<Key, Val>)
    requires Ordinary(folded) == Ordinary(group)
    ensures Ordinary(older + map[] + folded) == Ordinary(older + group)
    ensures Ordinary(older + folded + folded) == Ordinary(older + group)
  {
    UnionEmpty(older);
    OrdinaryUnion(older + folded, folded);
    OrdinaryUnion(older, folded);
    OrdinaryUnion(older, group);
  }

  // With the folded table in the temporary page just below the group, any
  // number of the group's oldest runs may be gone already.
  lemma RecoverCleared(s: seq<Slot>, base: nat, j: nat)
    requires base + j <= |s| && AllSorted(s)
    ensures Ordinary(Recover(Cleared(s, base, j), Some(Fold(s[base..])), base)) == Ordinary(Overlay(s))
  {
    ClearedParts(s, base, j);
    SplitOverlay(s, base);
    SplitOverlay(s[base..], j);
    assert s[base..][j..] == s[base + j..];
    FoldOverlay(s[base..]);
    OverrideAgain(Overlay(s[..base]), AsMap(Fold(s[base..])), Overlay(s[base..][..j]), Overlay(s[base + j..]));
  }

  // Once the target is written, with or without the temporary page.
  lemma RecoverCompacted(s: seq<Slot>, base: nat, temp: Slot)
    requires base < |s| && AllSorted(s)
    requires temp == None || temp == Some(Fold(s[base..]))
    ensures Ordinary(Recover(Compacted(s, base), temp, base)) == Ordinary(Overlay(s))
  {
    var older, folded, group := Overlay(s[..base]), AsMap(Fold(s[base..])), Overlay(s[base..]);
    CompactedParts(s, base);
    SplitOverlay(s, base);
    FoldOverlay(s[base..]);
    OverrideWhole(older, folded, group);
  }

  lemma RecoverPlain(s: seq<Slot>, base: nat)
    requires base <= |s|
    ensures Recover(s, None, base) == Overlay(s)
  {
    SplitOverlay(s, base);
    UnionEmpty(Overlay(s[..base]));
  }

  // A disk image from which the tables recover to `want`, log untouched.
  ghost predicate Recovers(cfg: Config, image: Files, before: Files, base: int, want: map<Key, Val>) {
    && 0 <= base <= cfg.TotalPages()
    && image.log == before.log && image.logPos == before.logPos
    && Ordinary(RecoverTables(cfg, image, base)) == Ordinary(want)
  }

  class CompactionManager {
    const mgr: SSTableManager
    var requestMinorCompaction: bool
    var requestMajorCompaction: bool
    ghost var launched: nat

    constructor (mgr: SSTableManager)
      ensures this.mgr == mgr && !requestMinorCompaction && !requestMajorCompaction && launched == 0
    {
      this.mgr := mgr;
      requestMinorCompaction, requestMajorCompaction, launched := false, false, 0;
    }

    // The slots from base up to stop are occupied and fold to the memtable.
    ghost predicate Gathered(s: seq<Slot>, base: int, stop: int, memtable: Table) {
      && 0 <= base <= stop <= |s|
      && (forall i :: base <= i < stop ==> s[i].Some?)
      && memtable == Fold(s[base..stop])
    }

    lemma GatherOne(s: seq<Slot>, base: nat, stop: nat, memtable: Table, t: Table)
      requires stop < |s| && Gathered(s, base, stop, memtable) && s[stop] == Some(t)
      ensures Gathered(s, base, stop + 1, Merge(t, memtable))
    {
      assert s[base..stop + 1][..stop - base] == s[base..stop];
    }

    method GatherRun(levelNo: nat, runNo: nat, older: Table, ghost s: seq<Slot>, ghost base: nat, ghost stop: nat)
      returns (empty: bool, memtable: Table)
      requires mgr.Valid() && ValidRun(mgr.cfg, levelNo, runNo) && stop == SlotNo(mgr.cfg, levelNo, runNo)
      requires mgr.View() == s && Gathered(s, base, stop, older)
      ensures stop < |s| && (empty <==> s[stop].None?)
      ensures empty ==> memtable == older
      ensures !empty ==> Gathered(s, base, stop + 1, memtable)
    {
      hide TableOf, PageOk;
      memtable := older;
      empty := mgr.IsEmpty(levelNo, runNo);
      if !empty {
        var _, _, sstableKv := mgr.LoadSSTable(levelNo, runNo, Bloom.EMPTY_FILTER, []);
        memtable := MergeSSTable(sstableKv, memtable);
        GatherOne(s, base, stop, older, sstableKv);
      }
    }

    // The inner loop over one level.
    method GatherLevel(levelNo: nat, memtable0: Table, ghost s: seq<Slot>, ghost base: nat)
      returns (isRunAvai: bool, memtable: Table, ghost stop: nat)
      requires mgr.Valid() && levelNo < mgr.cfg.maxLevelNum && mgr.View() == s
      requires Gathered(s, base, LevelStart(mgr.cfg, levelNo), memtable0)
      ensures Gathered(s, base, stop, memtable)
      ensures isRunAvai ==> stop == LevelStart(mgr.cfg, levelNo) + GetMaxRun(mgr.cfg, levelNo)
      ensures !isRunAvai ==> stop < |s| && s[stop].None?
    {
      hide TableOf, PageOk;
      isRunAvai, memtable, stop := true, memtable0, LevelStart(mgr.cfg, levelNo);
      var runNo := 0;
      while runNo < GetMaxRun(mgr.cfg, levelNo)
        invariant 0 <= runNo <= GetMaxRun(mgr.cfg, levelNo)
        invariant isRunAvai && stop == SlotNo(mgr.cfg, levelNo, runNo)
        invariant mgr.Valid() && mgr.View() == s
        invariant Gathered(s, base, stop, memtable)
      {
        var empty;
        empty, memtable := GatherRun(levelNo, runNo, memtable, s, base, stop);
        if empty {
          isRunAvai := false;
          break;
        }
        stop := stop + 1;
        runNo := runNo + 1;
      }
    }

    lemma GatheredAll(s: seq<Slot>, base: nat, stop: nat, memtable: Table)
      requires Prefix(s) && Gathered(s, base, stop, memtable) && (stop < |s| ==> s[stop].None?)
      ensures memtable == Fold(s[base..])
      ensures |memtable| > 1 ==> base < stop && s[0].Some?
    {
      assert s[base..] == s[base..stop] + s[stop..];
      FoldNone(s[base..stop], s[stop..]);
    }

    // Step 1: merge the occupied runs, oldest first, up to the first empty one.
    // Stopping there misses nothing when occupied runs come before empty ones.
    method Gather(startLevelNo: nat) returns (memtable: Table, ghost stop: nat)
      requires mgr.Valid() && startLevelNo < mgr.cfg.maxLevelNum
      ensures 0 <= LevelStart(mgr.cfg, startLevelNo) <= stop <= |mgr.View()|
      ensures Gathered(mgr.View(), LevelStart(mgr.cfg, startLevelNo), stop, memtable)
      ensures stop < |mgr.View()| ==> mgr.View()[stop].None?
      ensures Prefix(mgr.View()) ==> memtable == Fold(mgr.View()[LevelStart(mgr.cfg, startLevelNo)..])
    {
      hide TableOf, PageOk;
      ghost var s := mgr.View();
      SlotsLength(mgr.cfg, mgr.disk.files);
      LevelStarts(mgr.cfg, startLevelNo);
      ghost var base := LevelStart(mgr.cfg, startLevelNo);
      var isRunAvai := true;
      memtable, stop := [], base;
      var levelNo := startLevelNo;
      while isRunAvai && levelNo >= 0
        invariant -1 <= levelNo <= startLevelNo
        invariant mgr.Valid() && mgr.View() == s
        invariant Gathered(s, base, stop, memtable)
        invariant isRunAvai ==> stop == if levelNo >= 0 then LevelStart(mgr.cfg, levelNo) else |s|
        invariant !isRunAvai ==> stop < |s| && s[stop].None?
      {
        LevelStarts(mgr.cfg, levelNo);
        isRunAvai, memtable, stop := GatherLevel(levelNo, memtable, s, base);
        levelNo := levelNo - 1;
      }
      if Prefix(s) { GatheredAll(s, base, stop, memtable); }
    }

    // The slots are those of s, except that base up to at are cleared; s is
    // occupied from base up to stop and empty there.
    ghost predicate ClearedTo(s: seq<Slot>, base: int, at: int, stop: int)
      reads mgr.disk
    {
      && 0 <= base <= at <= stop <= |s|
      && (forall i :: base <= i < stop ==> s[i].Some?)
      && (stop < |s| ==> s[stop].None?)
      && mgr.View() == Cleared(s, base, at - base)
    }

    // A disk image in the middle of clearing the group.
    ghost predicate ClearedImage(image: Files, before: Files, s: seq<Slot>, base: int) {
      && image == before.(pages := image.pages)
      && exists j :: 0 <= base && 0 <= j && base + j <= |s| && Slots(mgr.cfg, image) == Cleared(s, base, j)
    }

    // Every disk step since then left an image in the middle of clearing.
    ghost predicate Steps(files0: Files, history0: seq<Files>, s: seq<Slot>, base: int)
      reads mgr.disk
    {
      && mgr.disk.files == files0.(pages := mgr.disk.files.pages)
      && |history0| <= |mgr.disk.history|
      && mgr.disk.history[..|history0|] == history0
      && forall k :: |history0| <= k < |mgr.disk.history| ==> ClearedImage(mgr.disk.history[k], files0, s, base)
    }

    method ClearRun(levelNo: nat, runNo: nat, ghost s: seq<Slot>, ghost base: nat, ghost at: nat, ghost stop: nat,
                    ghost files0: Files, ghost history0: seq<Files>)
      returns (empty: bool)
      requires mgr.Valid() && ValidRun(mgr.cfg, levelNo, runNo) && at == SlotNo(mgr.cfg, levelNo, runNo)
      requires ClearedTo(s, base, at, stop) && Steps(files0, history0, s, base)
      modifies mgr.disk, mgr.AllRuns()
      ensures mgr.Valid() && Steps(files0, history0, s, base)
      ensures empty ==> at == stop && ClearedTo(s, base, at, stop)
      ensures !empty ==> ClearedTo(s, base, at + 1, stop)
    {
      hide TableOf, PageOk;
      empty := mgr.IsEmpty(levelNo, runNo);
      assert mgr.View()[at] == s[at];
      if !empty {
        SlotAt(mgr.cfg, mgr.disk.files, levelNo, runNo);
        ghost var h := mgr.disk.history;
        mgr.ClearSSTable(levelNo, runNo);
        assert Cleared(s, base, at - base)[at := None] == Cleared(s, base, at + 1 - base);
        assert ClearedImage(mgr.disk.files, files0, s, base);
        assert mgr.disk.history[..|h|] == h;
      }
    }

    method ClearLevel(levelNo: nat, ghost s: seq<Slot>, ghost base: nat, ghost stop: nat,
                      ghost files0: Files, ghost history0: seq<Files>)
      returns (isRunAvai: bool, ghost at: nat)
      requires mgr.Valid() && levelNo < mgr.cfg.maxLevelNum
      requires ClearedTo(s, base, LevelStart(mgr.cfg, levelNo), stop) && Steps(files0, history0, s, base)
      modifies mgr.disk, mgr.AllRuns()
      ensures mgr.Valid() && ClearedTo(s, base, at, stop) && Steps(files0, history0, s, base)
      ensures isRunAvai ==> at == LevelStart(mgr.cfg, levelNo) + GetMaxRun(mgr.cfg, levelNo)
      ensures !isRunAvai ==> at == stop
    {
      hide TableOf, PageOk;
      isRunAvai, at := true, LevelStart(mgr.cfg, levelNo);
      var runNo := 0;
      var curMaxRun := GetMaxRun(mgr.cfg, levelNo);
      while runNo < curMaxRun
        invariant 0 <= runNo <= curMaxRun
        invariant isRunAvai && at == SlotNo(mgr.cfg, levelNo, runNo)
        invariant mgr.Valid() && ClearedTo(s, base, at, stop) && Steps(files0, history0, s, base)
      {
        var empty := ClearRun(levelNo, runNo, s, base, at, stop, files0, history0);
        if empty {
          isRunAvai := false;
          break;
        }
        at := at + 1;
        runNo := runNo + 1;
      }
    }

    // Step 3: clear the gathered runs, oldest first.
    method ClearGroup(startLevelNo: nat, ghost s: seq<Slot>, ghost stop: nat)
      requires mgr.Valid() && startLevelNo < mgr.cfg.maxLevelNum
      requires ClearedTo(s, LevelStart(mgr.cfg, startLevelNo), LevelStart(mgr.cfg, startLevelNo), stop)
      modifies mgr.disk, mgr.AllRuns()
      ensures mgr.Valid()
      ensures ClearedTo(s, LevelStart(mgr.cfg, startLevelNo), stop, stop)
      ensures Steps(old(mgr.disk.files), old(mgr.disk.history), s, LevelStart(mgr.cfg, startLevelNo))
    {
      hide TableOf, PageOk;
      SlotsLength(mgr.cfg, mgr.disk.files);
      LevelStarts(mgr.cfg, startLevelNo);
      ghost var base := LevelStart(mgr.cfg, startLevelNo);
      ghost var files0, history0 := mgr.disk.files, mgr.disk.history;
      ghost var at := base;
      var isRunAvai := true;
      var levelNo := startLevelNo;
      while isRunAvai && levelNo >= 0
        invariant -1 <= levelNo <= startLevelNo
        invariant isRunAvai ==> at == if levelNo >= 0 then LevelStart(mgr.cfg, levelNo) else |s|
        invariant !isRunAvai ==> at == stop
        invariant mgr.Valid() && ClearedTo(s, base, at, stop) && Steps(files0, history0, s, base)
      {
        LevelStarts(mgr.cfg, levelNo);
        isRunAvai, at := ClearLevel(levelNo, s, base, stop, files0, history0);
        levelNo := levelNo - 1;
      }
    }

    // The files recover to `want` after every disk step since `history0`.
    ghost predicate CrashSafe(before: Files, history0: seq<Files>, base: int, want: map<Key, Val>)
      reads mgr.disk
    {
      && |history0| <= |mgr.disk.history|
      && mgr.disk.history[..|history0|] == history0
      && forall k :: |history0| <= k < |mgr.disk.history| ==>
           Recovers(mgr.cfg, mgr.disk.history[k], before, base, want)
    }

    ghost predicate TempEmpty()
      reads mgr.disk
    {
      TableOf(mgr.cfg.pageSize, TempPage(mgr.cfg.pageSize, mgr.disk.files)).None?
    }

    // Compaction of slots s from `base` on is under way: whatever was written
    // so far, the files on disk recover to what s held.
    ghost predicate During(before: Files, history0: seq<Files>, s: seq<Slot>, base: nat)
      reads mgr.disk, mgr.AllRuns()
    {
      && mgr.Valid()
      && base < |s| && AllSorted(s) && |s| == mgr.cfg.TotalPages()
      && mgr.disk.files.log == before.log && mgr.disk.files.logPos == before.logPos
      && CrashSafe(before, history0, base, Overlay(s))
    }

    ghost predicate TempHolds(t: Table)
      reads mgr.disk
    {
      TableOf(mgr.cfg.pageSize, TempPage(mgr.cfg.pageSize, mgr.disk.files)) == Some(t)
    }

    lemma Extend(before: Files, history0: seq<Files>, s: seq<Slot>, base: nat, earlier: seq<Files>)
      requires mgr.disk.history == earlier + [mgr.disk.files]
      requires |history0| <= |earlier| && earlier[..|history0|] == history0
      requires forall k :: |history0| <= k < |earlier| ==> Recovers(mgr.cfg, earlier[k], before, base, Overlay(s))
      requires Recovers(mgr.cfg, mgr.disk.files, before, base, Overlay(s))
      ensures CrashSafe(before, history0, base, Overlay(s))
    {
      hide Recovers;
    }

    method DumpTemp(memtable: Table, ghost s: seq<Slot>, ghost base: nat)
      requires mgr.Valid() && mgr.View() == s && base < |s| && s[0].Some? && AllSorted(s)
      requires memtable == Fold(s[base..]) && Fits(mgr.cfg.pageSize, memtable)
      modifies mgr.disk, mgr.AllRuns()
      ensures During(old(mgr.disk.files), old(mgr.disk.history), s, base)
      ensures mgr.View() == s && TempHolds(memtable)
    {
      hide TableOf, PageOk, Fold;
      SlotsLength(mgr.cfg, mgr.disk.files);
      mgr.DumpTempSSTable(memtable);
      RecoverCleared(s, base, 0);
      assert Cleared(s, base, 0) == s;
      Extend(old(mgr.disk.files), old(mgr.disk.history), s, base, old(mgr.disk.history));
    }

    lemma ClearedRecovers(image: Files, files1: Files, s: seq<Slot>, base: nat, memtable: Table)
      requires ClearedImage(image, files1, s, base) && AllSorted(s) && |s| == mgr.cfg.TotalPages()
      requires base <= |s| && memtable == Fold(s[base..])
      requires TableOf(mgr.cfg.pageSize, TempPage(mgr.cfg.pageSize, files1)) == Some(memtable)
      ensures Recovers(mgr.cfg, image, files1, base, Overlay(s))
    {
      hide TableOf;
      var j :| 0 <= j && base + j <= |s| && Slots(mgr.cfg, image) == Cleared(s, base, j);
      RecoverCleared(s, base, j);
    }

    method Clear(startLevelNo: nat, memtable: Table, ghost s: seq<Slot>, ghost base: nat, ghost stop: nat,
                 ghost before: Files, ghost history0: seq<Files>)
      requires startLevelNo < mgr.cfg.maxLevelNum && base == LevelStart(mgr.cfg, startLevelNo)
      requires During(before, history0, s, base) && TempHolds(memtable) && memtable == Fold(s[base..])
      requires ClearedTo(s, base, base, stop)
      modifies mgr.disk, mgr.AllRuns()
      ensures During(before, history0, s, base) && TempHolds(memtable)
      ensures mgr.View() == Cleared(s, base, stop - base)
    {
      hide TableOf, PageOk, Fold;
      ghost var files1, history1 := mgr.disk.files, mgr.disk.history;
      ClearGroup(startLevelNo, s, stop);
      forall k | |history1| <= k < |mgr.disk.history|
        ensures Recovers(mgr.cfg, mgr.disk.history[k], before, base, Overlay(s))
      {
        ClearedRecovers(mgr.disk.history[k], files1, s, base, memtable);
      }
      assert mgr.disk.history[..|history0|] == history1[..|history0|];
      assert forall k :: |history0| <= k < |history1| ==> mgr.disk.history[k] == history1[k];
    }

    method ClearTemp(ghost s: seq<Slot>, ghost base: nat, ghost before: Files, ghost history0: seq<Files>)
      requires During(before, history0, s, base) && mgr.View() == Compacted(s, base)
      modifies mgr.disk, mgr.AllRuns()
      ensures During(before, history0, s, base) && mgr.View() == Compacted(s, base) && TempEmpty()
    {
      hide TableOf, PageOk, Fold;
      ghost var earlier := mgr.disk.history;
      mgr.ClearTempSSTable();
      RecoverCompacted(s, base, None);
      Extend(before, history0, s, base, earlier);
    }

    // The table the compaction writes fits one page.
    ghost predicate GroupFits(startLevelNo: nat)
      reads mgr.disk
    {
      var base := LevelStart(mgr.cfg, startLevelNo);
      0 <= base <= |mgr.View()| && Fits(mgr.cfg.pageSize, Fold(mgr.View()[base..]))
    }

    lemma NothingCleared(s: seq<Slot>, base: nat, stop: nat)
      requires base <= stop <= |s| && s == mgr.View()
      requires (forall i :: base <= i < stop ==> s[i].Some?) && (stop < |s| ==> s[stop].None?)
      ensures ClearedTo(s, base, base, stop)
    {
      assert Cleared(s, base, 0) == s;
    }

    lemma ClearedThenDumped(s: seq<Slot>, base: nat, stop: nat)
      requires Prefix(s) && base < stop <= |s| && (stop < |s| ==> s[stop].None?)
      ensures Cleared(s, base, stop - base)[base := Some(Fold(s[base..]))] == Compacted(s, base)
    {}

    lemma CompactedPrefix(s: seq<Slot>, base: nat)
      requires Prefix(s) && base < |s| && s[base].Some?
      ensures Prefix(Compacted(s, base))
    {
      hide Fold;
    }

    method DumpTarget(startLevelNo: nat, memtable: Table, ghost s: seq<Slot>, ghost base: nat,
                      ghost before: Files, ghost history0: seq<Files>)
      requires startLevelNo < mgr.cfg.maxLevelNum && base == LevelStart(mgr.cfg, startLevelNo)
      requires During(before, history0, s, base) && TempHolds(memtable) && memtable == Fold(s[base..])
      requires Sorted(memtable) && Fits(mgr.cfg.pageSize, memtable)
      requires base < |mgr.View()| && mgr.View()[base := Some(memtable)] == Compacted(s, base)
      modifies mgr.disk, mgr.AllRuns()
      ensures During(before, history0, s, base) && mgr.View() == Compacted(s, base)
    {
      hide TableOf, PageOk, Fold;
      LevelStarts(mgr.cfg, startLevelNo);
      ghost var earlier := mgr.disk.history;
      mgr.DumpAt(startLevelNo, 0, memtable);
      RecoverCompacted(s, base, Some(memtable));
      Extend(before, history0, s, base, earlier);
    }

    // Fewer than two merged keys: "there's no SSTable to compact".
    ghost predicate WorthCompacting(s: seq<Slot>, startLevelNo: nat) {
      var base := LevelStart(mgr.cfg, startLevelNo);
      0 <= base <= |s| && |Fold(s[base..])| > 1
    }

    ghost predicate AfterCompaction(s: seq<Slot>, startLevelNo: nat)
      reads mgr.disk
    {
      var base := LevelStart(mgr.cfg, startLevelNo);
      && 0 <= base < |s|
      && mgr.View() == if WorthCompacting(s, startLevelNo) then Compacted(s, base) else s
    }

    method LaunchCompactionImpl(startLevelNo: nat)
      requires mgr.Valid() && startLevelNo < mgr.cfg.maxLevelNum
      requires Prefix(mgr.View()) && TempEmpty()
      requires GroupFits(startLevelNo)
      modifies mgr.disk, mgr.AllRuns()
      ensures mgr.Valid() && TempEmpty()
      ensures AfterCompaction(old(mgr.View()), startLevelNo) && Prefix(mgr.View())
      ensures !WorthCompacting(old(mgr.View()), startLevelNo) ==>
                mgr.disk.files == old(mgr.disk.files) && mgr.disk.history == old(mgr.disk.history)
      ensures mgr.disk.files.log == old(mgr.disk.files.log) && mgr.disk.files.logPos == old(mgr.disk.files.logPos)
      ensures CrashSafe(old(mgr.disk.files), old(mgr.disk.history), LevelStart(mgr.cfg, startLevelNo),
                        Overlay(old(mgr.View())))
    {
      hide TableOf, PageOk, Fold, Overlay, Cleared, Compacted, Recovers, FilesOk, AllSorted;
      ghost var s := mgr.View();
      ghost var before, history0 := mgr.disk.files, mgr.disk.history;
      SlotsLength(mgr.cfg, mgr.disk.files);
      LevelStarts(mgr.cfg, startLevelNo);
      ghost var base: nat := LevelStart(mgr.cfg, startLevelNo);
      FilesOkSortedFrom(mgr.cfg, mgr.hs, mgr.disk.files, 0);

      // Fold the group; with fewer than two keys left there is nothing to do.
      var memtable;
      ghost var stop;
      memtable, stop := Gather(startLevelNo);
      GatheredAll(s, base, stop, memtable);
      if |memtable| <= 1 {
        return;
      }
      FoldOverlay(s[base..]);

      // From here on the temporary page backs the group.
      DumpTemp(memtable, s, base);
      // Oldest first, so that what is left always overrides the temporary page rightly.
      NothingCleared(s, base, stop);
      Clear(startLevelNo, memtable, s, base, stop, before, history0);
      // The first slot of the group takes the folded table.
      ClearedThenDumped(s, base, stop);
      CompactedPrefix(s, base);
      DumpTarget(startLevelNo, memtable, s, base, before, history0);
      // Nothing depends on the temporary page any more.
      ClearTemp(s, base, before, history0);
    }

    // --- The compaction thread and its requests -----------------------------

    // A compaction from the given level ran to the end, crash-safe throughout.
    ghost predicate Launched(s: seq<Slot>, before: Files, history0: seq<Files>, startLevelNo: nat)
      reads mgr.disk
    {
      && AfterCompaction(s, startLevelNo)
      && CrashSafe(before, history0, LevelStart(mgr.cfg, startLevelNo), Overlay(s))
    }

    // One turn of the thread, from its wake-up to its notification: a major
    // request takes precedence and discharges a minor one.
    method CompactionTurn()
      requires mgr.Valid() && Prefix(mgr.View()) && TempEmpty()
      requires requestMajorCompaction ==> GroupFits(mgr.cfg.maxLevelNum - 1)
      requires requestMinorCompaction ==> GroupFits(MINOR_COMPACTION_LEVEL_NUM - 1)
      modifies this, mgr.disk, mgr.AllRuns()
      ensures mgr.Valid() && Prefix(mgr.View()) && TempEmpty()
      ensures !requestMinorCompaction && !requestMajorCompaction
      ensures old(requestMajorCompaction) ==> Launched(old(mgr.View()), old(mgr.disk.files), old(mgr.disk.history),
                                                       mgr.cfg.maxLevelNum - 1)
      ensures !old(requestMajorCompaction) && old(requestMinorCompaction) ==>
                Launched(old(mgr.View()), old(mgr.disk.files), old(mgr.disk.history), MINOR_COMPACTION_LEVEL_NUM - 1)
      ensures !old(requestMajorCompaction) && !old(requestMinorCompaction) ==>
                mgr.disk.files == old(mgr.disk.files) && mgr.disk.history == old(mgr.disk.history)
      ensures launched == old(launched) + if old(requestMajorCompaction || requestMinorCompaction) then 1 else 0
      ensures mgr.disk.files.log == old(mgr.disk.files.log) && mgr.disk.files.logPos == old(mgr.disk.files.logPos)
    {
      hide TableOf, PageOk, Fold, Overlay, Compacted, Recovers;
      if requestMajorCompaction {
        launched := launched + 1;
        LaunchCompactionImpl(mgr.cfg.maxLevelNum - 1);
        requestMajorCompaction := false;
        requestMinorCompaction := false;
      } else if requestMinorCompaction {
        launched := launched + 1;
        LaunchCompactionImpl(MINOR_COMPACTION_LEVEL_NUM - 1);
        requestMinorCompaction := false;
      }
    }

    // The two requests; the wait for the flag to clear is the thread's turn.
    method RequestMinorCompaction()
      requires mgr.Valid() && Prefix(mgr.View()) && TempEmpty()
      requires !requestMinorCompaction && !requestMajorCompaction
      requires GroupFits(MINOR_COMPACTION_LEVEL_NUM - 1)
      modifies this, mgr.disk, mgr.AllRuns()
      ensures mgr.Valid() && Prefix(mgr.View()) && TempEmpty()
      ensures !requestMinorCompaction && !requestMajorCompaction
      ensures Launched(old(mgr.View()), old(mgr.disk.files), old(mgr.disk.history), MINOR_COMPACTION_LEVEL_NUM - 1)
      ensures launched == old(launched) + 1
      ensures mgr.disk.files.log == old(mgr.disk.files.log) && mgr.disk.files.logPos == old(mgr.disk.files.logPos)
    {
      hide TableOf, PageOk, Fold, Overlay, Compacted, Recovers;
      requestMinorCompaction := true;
      CompactionTurn();
    }

    method RequestMajorCompaction()
      requires mgr.Valid() && Prefix(mgr.View()) && TempEmpty()
      requires !requestMinorCompaction && !requestMajorCompaction
      requires GroupFits(mgr.cfg.maxLevelNum - 1)
      modifies this, mgr.disk, mgr.AllRuns()
      ensures mgr.Valid() && Prefix(mgr.View()) && TempEmpty()
      ensures !requestMinorCompaction && !requestMajorCompaction
      ensures Launched(old(mgr.View()), old(mgr.disk.files), old(mgr.disk.history), mgr.cfg.maxLevelNum - 1)
      ensures launched == old(launched) + 1
      ensures mgr.disk.files.log == old(mgr.disk.files.log) && mgr.disk.files.logPos == old(mgr.disk.files.logPos)
    {
      hide TableOf, PageOk, Fold, Overlay, Compacted, Recovers;
      requestMajorCompaction := true;
      CompactionTurn();
    }
  }
}
