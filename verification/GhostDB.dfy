/**
 * GhostDB (src/db.cc): the store refines a finite map.
 */
module Database {
  import opened Common
  import opened Tables
  import opened Ranges
  import opened Layout
  import Bytes
  import opened Bloom
  import opened Page
  import opened Disk
  import opened Store
  import opened SSTables
  import opened Compaction
  import opened Wal
  import opened Memtable
  import opened Contents

  lemma {:induction false} ReplayConcat(a: Table, b: Table)
    ensures Replay(a + b) == Replay(a) + Replay(b)
  {
    if b == [] {
      assert a + b == a;
      UnionEmpty(Replay(a));
    } else {
      var init, last := b[..|b| - 1], b[|b| - 1];
      ReplayConcat(a, init);
      assert (a + b)[..|a + b| - 1] == a + init;
      assert (a + b)[|a + b| - 1] == last;
      UnionPut(Replay(a), Replay(init), last.key, last.val);
    }
  }

  // What a restart would rebuild from these files: the tables, the temporary
  // page included, overridden by the log up to its cursor.
  ghost function RecoverAll(cfg: Config, image: Files): map<Key, Val>
    requires image.logPos <= |image.log| && 0 <= MinorBase(cfg) <= cfg.TotalPages()
  {
    RecoverTables(cfg, image, MinorBase(cfg)) + Replay(LogRecords(image))
  }

  ghost predicate Recoverable(cfg: Config, image: Files, want: map<Key, Val>) {
    && image.logPos <= |image.log|
    && 0 <= MinorBase(cfg) <= cfg.TotalPages()
    && Ordinary(RecoverAll(cfg, image)) == Ordinary(want)
  }

  // An image with the log of `before` whose tables, below kv, give `want`.
  ghost predicate TablesUnder(cfg: Config, image: Files, before: Files, kv: Table, want: map<Key, Val>) {
    && 0 <= MinorBase(cfg) <= cfg.TotalPages()
    && image.log == before.log && image.logPos == before.logPos
    && Ordinary(RecoverTables(cfg, image, MinorBase(cfg)) + AsMap(kv)) == Ordinary(want)
  }

  class GhostDB {
    const cfg: Config
    const hs: Hashes
    const disk: DiskManager
    const mgr: SSTableManager
    const comp: CompactionManager
    const buffer: Buffer

    ghost function Repr(): set<object>
      reads buffer.log
    {
      {disk, comp, buffer, buffer.log} + buffer.log.Buffers() + mgr.AllRuns()
    }

    ghost predicate Linked() {
      && cfg.Shape()
      && mgr.cfg == cfg && mgr.hs == hs && mgr.disk == disk
      && comp.mgr == mgr
      && buffer.log.disk == disk && buffer.bufferSize == cfg.maxBufferSize
      && buffer.log.bufferSize == cfg.logBufferSize
    }

    // The tables and the compaction thread between two steps of the client.
    ghost predicate TablesIdle()
      reads disk, comp, mgr.AllRuns()
    {
      && Linked()
      && mgr.Valid() && comp.TempEmpty()
      && !comp.requestMinorCompaction && !comp.requestMajorCompaction
    }

    ghost predicate Valid()
      reads Repr(), buffer.log
    {
      && TablesIdle()
      && buffer.Valid()
      && StoreOk(cfg, mgr.View(), buffer.kv)
    }

    // The newest version of every key, deletions included.
    ghost function Content(): map<Key, Val>
      reads mgr.disk, buffer
    {
      Contents.Content(mgr.View(), buffer.kv)
    }

    // Between two calls the memtable is empty only as long as there is no run.
    ghost predicate Settled()
      reads mgr.disk, buffer
    {
      buffer.kv == [] ==> FirstEmpty(mgr.View()) == 0
    }

    // The files start out truncated, so there is nothing to recover.
    constructor (cfg: Config, hs: Hashes)
      requires cfg.Valid()
      ensures Valid()
      ensures fresh(disk) && fresh(comp) && fresh(buffer) && fresh(buffer.log)
      ensures fresh(buffer.log.Buffers()) && fresh(mgr.AllRuns())
      ensures this.cfg == cfg && this.hs == hs
      ensures Content() == map[] && buffer.kv == [] && comp.launched == 0 && disk.history == [] && Settled()
      ensures buffer.log.logBufferSize == 0
    {
      hide TableOf, PageOk, Overlay, AsMap, StoreOk, FilesOk, Replay, SlotOf, LogRecords, Bytes.DecodeAll;
      hide SlotsFrom, Bytes.Zeros, FilterOf;
      var d := new DiskManager(cfg.pageSize);
      NewFilesFrom(cfg, hs, d.files, 0);
      var m := new SSTableManager(cfg, hs, d);
      var c := new CompactionManager(m);
      var l := new LogManager(cfg.logBufferSize, d);
      var b := new Buffer(cfg.maxBufferSize, l);
      assert m.Valid() && b.Valid();
      this.cfg, this.hs, disk, mgr, comp, buffer := cfg, hs, d, m, c, b;
      new;
      assert mgr.Valid() && buffer.Valid();
      EmptyStore(cfg, mgr.View());
      ZeroPageEmpty(cfg.pageSize);
    }

    // The tables that dumping the memtable now would write fit their pages.
    ghost predicate SpillFits()
      reads disk, mgr.disk, comp.mgr.disk, buffer
    {
      && Fits(cfg.pageSize, buffer.kv)
      && (FirstEmpty(mgr.View()) == |mgr.View()| ==> comp.GroupFits(MINOR_COMPACTION_LEVEL_NUM - 1))
    }

    // Every disk step since history0 leaves tables that, below the memtable, give `want`.
    ghost predicate SafeSince(history0: seq<Files>, before: Files, want: map<Key, Val>)
      reads disk, buffer
    {
      && |history0| <= |disk.history| && disk.history[..|history0|] == history0
      && forall k :: |history0| <= k < |disk.history| ==> TablesUnder(cfg, disk.history[k], before, buffer.kv, want)
    }

    lemma StoreShape(s: seq<Slot>)
      requires StoreOk(cfg, s, buffer.kv)
      ensures Prefix(s) && AllSorted(s) && Sorted(buffer.kv)
    {
      hide AsMap, Overlay;
    }

    ghost function CompactedMinor(s: seq<Slot>): seq<Slot> {
      if 0 <= MinorBase(cfg) < |s| then Compacted(s, MinorBase(cfg)) else s
    }

    lemma MinorReady(s: seq<Slot>)
      requires Linked() && StoreOk(cfg, s, buffer.kv) && FirstEmpty(s) == |s| && s == mgr.View()
      ensures comp.WorthCompacting(s, MINOR_COMPACTION_LEVEL_NUM - 1)
      ensures 0 <= MinorBase(cfg) && MinorBase(cfg) + 2 < |s| == cfg.TotalPages()
      ensures StoreOk(cfg, CompactedMinor(s), buffer.kv)
      ensures Ordinary(Contents.Content(CompactedMinor(s), buffer.kv)) == Ordinary(Contents.Content(s, buffer.kv))
      ensures Contents.Content(CompactedMinor(s), buffer.kv).Keys <= Contents.Content(s, buffer.kv).Keys
      ensures FirstEmpty(CompactedMinor(s)) < |s| == |CompactedMinor(s)|
    {
      hide TableOf, PageOk, Fold, Overlay, AsMap, StoreOk;
      SlotsLength(cfg, disk.files);
      CompactKeeps(cfg, s, buffer.kv);
    }

    // The image right after the memtable went into the first empty slot of s.
    lemma DumpedImage(before: Files, after: Files, s: seq<Slot>, want: map<Key, Val>)
      requires Linked() && StoreOk(cfg, s, buffer.kv) && FirstEmpty(s) < |s|
      requires Slots(cfg, after) == s[FirstEmpty(s) := Some(buffer.kv)]
      requires TableOf(cfg.pageSize, TempPage(cfg.pageSize, after)).None?
      requires after.log == before.log && after.logPos == before.logPos
      requires Ordinary(Contents.Content(s, buffer.kv)) == Ordinary(want)
      ensures TablesUnder(cfg, after, before, buffer.kv, want)
    {
      hide TableOf, PageOk, Fold, Overlay, AsMap;
      SlotsLength(cfg, after);
      MinorBaseInRange(cfg);
      RecoverPlain(Slots(cfg, after), MinorBase(cfg));
      DumpOverlay(s, buffer.kv);
      UnionTwice(Overlay(s), AsMap(buffer.kv));
    }

    method DumpAfterCompaction(ghost s0: seq<Slot>, ghost s: seq<Slot>, ghost before: Files,
                               ghost history0: seq<Files>, ghost want: map<Key, Val>)
      returns (dumped: bool)
      requires TablesIdle() && Fits(cfg.pageSize, buffer.kv)
      requires mgr.View() == s && StoreOk(cfg, s, buffer.kv) && FirstEmpty(s) < |s|
      requires want == Contents.Content(s0, buffer.kv)
      requires Ordinary(Contents.Content(s, buffer.kv)) == Ordinary(want)
      requires disk.files.log == before.log && disk.files.logPos == before.logPos
      requires 0 <= MinorBase(cfg) && comp.CrashSafe(before, history0, MinorBase(cfg), Overlay(s0))
      modifies disk, mgr.AllRuns()
      ensures dumped && TablesIdle()
      ensures mgr.View() == s[FirstEmpty(s) := Some(buffer.kv)]
      ensures disk.files.log == before.log && disk.files.logPos == before.logPos
      ensures SafeSince(history0, before, want)
    {
      hide TableOf, PageOk, Fold, Overlay, AsMap, StoreOk;
      ghost var earlier := disk.history;
      StoreShape(s);
      MinorBaseInRange(cfg);
      dumped := mgr.DumpSSTable(buffer.kv);
      DumpedImage(before, disk.files, s, want);
      forall k | |history0| <= k < |earlier|
        ensures TablesUnder(cfg, earlier[k], before, buffer.kv, want)
      {
        assert Recovers(cfg, earlier[k], before, MinorBase(cfg), Overlay(s0));
        OrdinaryUnion(RecoverTables(cfg, earlier[k], MinorBase(cfg)), AsMap(buffer.kv));
        OrdinaryUnion(Overlay(s0), AsMap(buffer.kv));
      }
    }

    // The loop that dumps the memtable, compacting when no slot is free. It
    // compacts at most once: compaction always frees a slot.
    method DumpMemtable() returns (ghost s: seq<Slot>)
      requires TablesIdle() && StoreOk(cfg, mgr.View(), buffer.kv) && SpillFits()
      modifies disk, comp, mgr.AllRuns()
      ensures TablesIdle()
      ensures s == if FirstEmpty(old(mgr.View())) < |old(mgr.View())| then old(mgr.View())
                   else CompactedMinor(old(mgr.View()))
      ensures comp.launched == old(comp.launched) + if FirstEmpty(old(mgr.View())) < |old(mgr.View())| then 0 else 1
      ensures StoreOk(cfg, s, buffer.kv) && FirstEmpty(s) < |s|
      ensures Ordinary(Contents.Content(s, buffer.kv)) == Ordinary(old(Content()))
      ensures Contents.Content(s, buffer.kv).Keys <= old(Content()).Keys
      ensures mgr.View() == s[FirstEmpty(s) := Some(buffer.kv)]
      ensures disk.files.log == old(disk.files.log) && disk.files.logPos == old(disk.files.logPos)
      ensures |old(disk.history)| <= |disk.history| && disk.history[..|old(disk.history)|] == old(disk.history)
      ensures forall k :: |old(disk.history)| <= k < |disk.history| ==>
                TablesUnder(cfg, disk.history[k], old(disk.files), buffer.kv, old(Content()))
    {
      hide TableOf, PageOk, Fold, Overlay, AsMap, Compacted, StoreOk;
      ghost var s0, history0, files0 := mgr.View(), disk.history, disk.files;
      ghost var want := Content();
      s := s0;
      StoreShape(s0);
      var dumped := mgr.DumpSSTable(buffer.kv);
      if dumped { DumpedImage(files0, disk.files, s, want); }
      while !dumped
        invariant TablesIdle()
        invariant !dumped ==>
                    && mgr.View() == s0 == s && FirstEmpty(s0) == |s0|
                    && disk.files == files0 && disk.history == history0
                    && comp.launched == old(comp.launched)
        invariant dumped ==>
                    && s == (if FirstEmpty(s0) < |s0| then s0 else CompactedMinor(s0))
                    && comp.launched == old(comp.launched) + (if FirstEmpty(s0) < |s0| then 0 else 1)
                    && StoreOk(cfg, s, buffer.kv) && FirstEmpty(s) < |s|
                    && Ordinary(Contents.Content(s, buffer.kv)) == Ordinary(want)
                    && Contents.Content(s, buffer.kv).Keys <= want.Keys
                    && mgr.View() == s[FirstEmpty(s) := Some(buffer.kv)]
        invariant disk.files.log == files0.log && disk.files.logPos == files0.logPos
        invariant SafeSince(history0, files0, want)
        decreases if dumped then 0 else 1
      {
        MinorReady(s0);
        comp.RequestMinorCompaction();
        s := CompactedMinor(s0);
        dumped := DumpAfterCompaction(s0, s, files0, history0, want);
      }
    }

    // The content that spilling the memtable leaves: only a compaction can
    // change it, and only for the key TOMBSTONE (CompactionExactIff).
    ghost function SpillContent(): map<Key, Val>
      reads mgr.disk, buffer
    {
      if FirstEmpty(mgr.View()) < |mgr.View()| then Content()
      else Contents.Content(CompactedMinor(mgr.View()), buffer.kv)
    }

    // --- Put ----------------------------------------------------------------

    // Every disk step since history0 left files that recover to `want`.
    ghost predicate HistorySafe(history0: seq<Files>, want: map<Key, Val>)
      reads disk
    {
      && |history0| <= |disk.history| && disk.history[..|history0|] == history0
      && forall k :: |history0| <= k < |disk.history| ==> Recoverable(cfg, disk.history[k], want)
    }

    // Files whose log replays to kv, under the tables s.
    lemma IdleRecovers(files: Files, s: seq<Slot>, kv: Table, want: map<Key, Val>)
      requires Linked() && files.logPos <= |files.log|
      requires Slots(cfg, files) == s && TableOf(cfg.pageSize, TempPage(cfg.pageSize, files)).None?
      requires Replay(LogRecords(files)) == AsMap(kv)
      requires Ordinary(Contents.Content(s, kv)) == Ordinary(want)
      ensures Recoverable(cfg, files, want)
    {
      hide TableOf, PageOk, Overlay, AsMap, Replay, LogRecords;
      SlotsLength(cfg, files);
      MinorBaseInRange(cfg);
      RecoverPlain(s, MinorBase(cfg));
    }

    // The log moved; the tables did not.
    lemma TablesUnmoved(before: Files)
      requires Linked() && disk.files.pages == before.pages && disk.files.temp == before.temp
      requires disk.Valid() && FilesOk(cfg, hs, before)
      requires TableOf(cfg.pageSize, TempPage(cfg.pageSize, before)).None?
      requires !comp.requestMinorCompaction && !comp.requestMajorCompaction
      requires mgr.Wf() && forall l, r {:trigger mgr.levels[l].runs[r]} | ValidRun(cfg, l, r) ::
                 mgr.levels[l].runs[r].isEmpty <==> SlotOf(cfg, before, l, r).None?
      ensures TablesIdle() && mgr.View() == Slots(cfg, before)
    {
      hide TableOf, PageOk;
      mgr.SameSlots(before, disk.files);
    }

    // Put, once the memtable is full: flush the log, ... A time-out of the flush
    // thread between two calls of the client does the same.
    method FlushWAL()
      requires Valid()
      modifies disk, buffer.log
      ensures Valid() && buffer.log.Buffers() == old(buffer.log.Buffers())
      ensures buffer.log.logBufferSize == 0
      ensures Replay(buffer.log.Logged()) == AsMap(buffer.kv)
      ensures mgr.View() == old(mgr.View()) && Content() == old(Content())
      ensures |disk.history| > |old(disk.history)| <==> old(buffer.log.logBufferSize) > 0
      ensures HistorySafe(old(disk.history), old(Content()))
    {
      hide TableOf, PageOk, Overlay, AsMap, Replay, LogRecords, StoreOk, FilesOk;
      ghost var files0, history0, s0 := disk.files, disk.history, mgr.View();
      buffer.FlushWAL();
      TablesUnmoved(files0);
      if |disk.history| > |history0| { IdleRecovers(disk.files, s0, buffer.kv, Content()); }
    }

    // A time-out of the compaction thread: with no request pending it does nothing.
    method CompactionTimeOut()
      requires Valid()
      modifies disk, comp, mgr.AllRuns()
      ensures Valid() && mgr.View() == old(mgr.View()) && Content() == old(Content())
      ensures comp.launched == old(comp.launched) && disk.history == old(disk.history)
    {
      hide TableOf, PageOk, Overlay, AsMap, Replay, LogRecords, Bytes.DecodeAll, StoreOk, FilesOk;
      StoreShape(mgr.View());
      comp.CompactionTurn();
    }

    // ... dump the memtable, ...
    method DumpFlushed(ghost history0: seq<Files>, ghost want: map<Key, Val>)
      requires Valid() && SpillFits()
      requires Replay(buffer.log.Logged()) == AsMap(buffer.kv)
      requires want == Content() && HistorySafe(history0, want)
      modifies disk, comp, mgr.AllRuns()
      ensures TablesIdle() && buffer.log.Valid()
      ensures var s := if FirstEmpty(old(mgr.View())) < |old(mgr.View())| then old(mgr.View())
                       else CompactedMinor(old(mgr.View()));
              && StoreOk(cfg, s, buffer.kv) && FirstEmpty(s) < |s|
              && mgr.View() == s[FirstEmpty(s) := Some(buffer.kv)]
              && Ordinary(Contents.Content(s, buffer.kv)) == Ordinary(want)
              && Contents.Content(s, buffer.kv).Keys <= want.Keys
      ensures comp.launched == old(comp.launched) + if FirstEmpty(old(mgr.View())) < |old(mgr.View())| then 0 else 1
      ensures HistorySafe(history0, want)
    {
      hide TableOf, PageOk, Overlay, AsMap, Replay, Bytes.DecodeAll, StoreOk, FilesOk, Compacted, RecoverTables;
      ghost var files1, history1 := disk.files, disk.history;
      ghost var s := DumpMemtable();
      forall k | |history1| <= k < |disk.history| ensures Recoverable(cfg, disk.history[k], want) {
        assert TablesUnder(cfg, disk.history[k], files1, buffer.kv, want);
      }
      assert disk.history[..|history0|] == history1[..|history0|];
      assert forall k :: |history0| <= k < |history1| ==> disk.history[k] == history1[k];
    }

    // ... clear the log, and then the memtable.
    method ClearFlushed(ghost s: seq<Slot>, ghost history0: seq<Files>, ghost want: map<Key, Val>)
      requires TablesIdle() && buffer.log.Valid() && buffer.log.logBufferSize == 0
      requires StoreOk(cfg, s, buffer.kv) && FirstEmpty(s) < |s| && |buffer.kv| == cfg.maxBufferSize
      requires mgr.View() == s[FirstEmpty(s) := Some(buffer.kv)]
      requires Ordinary(Contents.Content(s, buffer.kv)) == Ordinary(want) && HistorySafe(history0, want)
      modifies disk, buffer
      ensures Valid() && buffer.kv == [] && LastRun(mgr.View()) == Some(old(buffer.kv))
      ensures |disk.history| > |old(disk.history)|
      ensures Content() == Contents.Content(s, old(buffer.kv))
      ensures HistorySafe(history0, want)
    {
      hide TableOf, PageOk, Overlay, AsMap, StoreOk, FilesOk;
      hide ImageOk, Varied, Varies, LastRun, FirstEmpty, RecoverAll;
      ghost var files0, earlier := disk.files, disk.history;
      DumpKeeps(cfg, s, buffer.kv);
      EmptyTable();
      disk.WriteLog(Bytes.Zeros(cfg.pageSize), true);
      TablesUnmoved(files0);
      buffer.ClearKV();
      assert LogRecords(disk.files) == [];
      assert buffer.log.Logged() + buffer.log.Pending() == [];
      IdleRecovers(disk.files, mgr.View(), [], want);
    }

    // Nothing happened to any ordinary key.
    static ghost predicate Same(before: map<Key, Val>, after: map<Key, Val>) {
      Ordinary(after) == Ordinary(before) && after.Keys <= before.Keys
    }

    method SpillMemtable()
      requires Valid() && |buffer.kv| == cfg.maxBufferSize && SpillFits()
      modifies disk, comp, buffer, buffer.log, mgr.AllRuns()
      ensures Valid() && buffer.log.Buffers() == old(buffer.log.Buffers())
      ensures buffer.kv == [] && buffer.log.logBufferSize == 0 && LastRun(mgr.View()) == Some(old(buffer.kv))
      ensures Same(old(Content()), Content())
      ensures Content() == old(SpillContent()) && |disk.history| > |old(disk.history)|
      ensures comp.launched == old(comp.launched) + if FirstEmpty(old(mgr.View())) < |old(mgr.View())| then 0 else 1
      ensures HistorySafe(old(disk.history), old(Content()))
    {
      hide TableOf, PageOk, Overlay, AsMap, Replay, LogRecords, StoreOk, FilesOk, Compacted, Recoverable;
      ghost var want, history0, s0 := Content(), disk.history, mgr.View();
      FlushWAL();
      DumpFlushed(history0, want);
      ClearFlushed(if FirstEmpty(s0) < |s0| then s0 else CompactedMinor(s0), history0, want);
    }

    // What the caller of Put must see to: if this put makes the memtable spill,
    // the tables written fit their pages. The second condition is Put's promise
    // to itself, for its recursive call; Settled gives it to every client.
    ghost predicate CanPut(key: Key)
      reads disk, mgr.disk, comp.mgr.disk, buffer
    {
      && (|buffer.kv| == cfg.maxBufferSize && key !in AsMap(buffer.kv) ==> SpillFits())
      && FreshKey(cfg, mgr.View(), buffer.kv, key)
    }

    lemma SettledFresh(key: Key)
      requires cfg.Shape() && Settled()
      ensures FreshKey(cfg, mgr.View(), buffer.kv, key)
    {
      MinorBaseInRange(cfg);
    }

    lemma SpilledFresh(spilled: Table, key: Key)
      requires buffer.kv == [] && LastRun(mgr.View()) == Some(spilled) && key !in AsMap(spilled)
      ensures FreshKey(cfg, mgr.View(), buffer.kv, key)
    {
      hide AsMap, FirstEmpty;
    }

    // The memtable is full of other keys and no slot is free.
    ghost predicate MustCompact(key: Key)
      reads mgr.disk, buffer
    {
      |buffer.kv| == cfg.maxBufferSize && key !in AsMap(buffer.kv) && FirstEmpty(mgr.View()) == |mgr.View()|
    }

    // The content to which a put adds its pair.
    ghost function PutContent(key: Key): map<Key, Val>
      reads mgr.disk, buffer
    {
      if MustCompact(key) then SpillContent() else Content()
    }

    // One more version of key; no other ordinary key is touched.
    static ghost predicate AfterPut(before: map<Key, Val>, after: map<Key, Val>, key: Key, val: Val) {
      && Ordinary(after) == Ordinary(before[key := val])
      && after.Keys <= before.Keys + {key}
    }

    lemma Placed(s: seq<Slot>, kv: Table, after: Table, key: Key, val: Val)
      requires StoreOk(cfg, s, kv) && Sorted(after) && |after| <= cfg.maxBufferSize
      requires AsMap(after) == AsMap(kv)[key := val]
      requires FreshKey(cfg, s, kv, key)
      ensures StoreOk(cfg, s, after)
      ensures AfterPut(Contents.Content(s, kv), Contents.Content(s, after), key, val)
      ensures Contents.Content(s, after) == Contents.Content(s, kv)[key := val]
    {
      hide Overlay, AsMap;
      PutKeeps(cfg, s, kv, after, key, val);
    }

    // One more record waits in the log's buffer, alone if there was a disk step
    // since: every disk step of a put saves all earlier records.
    ghost predicate OneMoreLogged(history0: seq<Files>, unsaved0: nat)
      reads disk, buffer.log
    {
      buffer.log.logBufferSize == (if |disk.history| > |history0| then 0 else unsaved0) + RECORD_SIZE
    }

    method PlaceInBuffer(key: Key, val: Val) returns (placed: bool)
      requires Valid() && FreshKey(cfg, mgr.View(), buffer.kv, key)
      modifies disk, buffer, buffer.log, buffer.log.Buffers()
      ensures Valid() && buffer.log.Buffers() == old(buffer.log.Buffers())
      ensures placed <==> |old(buffer.kv)| < cfg.maxBufferSize || key in AsMap(old(buffer.kv))
      ensures placed ==> AfterPut(old(Content()), Content(), key, val) && key in AsMap(buffer.kv)
      ensures placed ==> Content() == old(Content())[key := val]
      ensures placed ==> OneMoreLogged(old(disk.history), old(buffer.log.logBufferSize))
      ensures !placed ==> Content() == old(Content()) && buffer.kv == old(buffer.kv)
      ensures mgr.View() == old(mgr.View())
      ensures !placed && old(SpillFits()) ==> SpillFits()
      ensures HistorySafe(old(disk.history), old(Content()))
    {
      hide TableOf, PageOk, Overlay, AsMap, StoreOk, FilesOk, Replay, LogRecords, Bytes.DecodeAll, Fold;
      hide Contents.Content, Recoverable, AfterPut, FreshKey;
      ghost var files0, history0, s0, kv0 := disk.files, disk.history, mgr.View(), buffer.kv;
      placed := buffer.Put(key, val);
      TablesUnmoved(files0);
      if placed {
        Placed(s0, kv0, buffer.kv, key, val);
        if |disk.history| > |history0| { IdleRecovers(disk.files, s0, kv0, Contents.Content(s0, kv0)); }
      } else {
        assert mgr.View() == s0 && buffer.kv == kv0;
      }
    }

    lemma BufferShape(s: seq<Slot>, kv: Table)
      requires StoreOk(cfg, s, kv)
      ensures Sorted(kv) && |kv| <= cfg.maxBufferSize
    {
      hide AsMap, Overlay;
    }

    lemma PutAfterSame(m0: map<Key, Val>, m1: map<Key, Val>, m2: map<Key, Val>, key: Key, val: Val)
      requires Same(m0, m1) && AfterPut(m1, m2, key, val)
      ensures AfterPut(m0, m2, key, val)
    {
      RemoveUpdate(m0, key, val);
      RemoveUpdate(m1, key, val);
    }

    lemma HistoryChain(history0: seq<Files>, history2: seq<Files>, want: map<Key, Val>, want2: map<Key, Val>)
      requires Same(want, want2)
      requires |history0| <= |history2| && history2[..|history0|] == history0
      requires forall k :: |history0| <= k < |history2| ==> Recoverable(cfg, history2[k], want)
      requires HistorySafe(history2, want2)
      ensures HistorySafe(history0, want)
    {
      hide RecoverAll;
      forall k | |history0| <= k < |disk.history| ensures Recoverable(cfg, disk.history[k], want) {
        if k < |history2| { assert disk.history[k] == history2[k]; }
      }
      assert disk.history[..|history0|] == history2[..|history0|];
    }

    // Puts one pair. Whatever the state, it takes at most one compaction and
    // one nested call; a crash at any disk step on the way loses no earlier put.
    method Put(key: Key, val: Val) returns (ok: bool)
      requires Valid() && CanPut(key)
      modifies disk, comp, buffer, buffer.log, buffer.log.Buffers(), mgr.AllRuns()
      ensures ok && Valid() && buffer.log.Buffers() == old(buffer.log.Buffers())
      ensures AfterPut(old(Content()), Content(), key, val) && key in AsMap(buffer.kv)
      ensures Content() == old(PutContent(key))[key := val]
      ensures OneMoreLogged(old(disk.history), old(buffer.log.logBufferSize))
      ensures comp.launched == old(comp.launched) + if old(MustCompact(key)) then 1 else 0
      ensures HistorySafe(old(disk.history), old(Content()))
      decreases if |buffer.kv| == cfg.maxBufferSize then 1 else 0
    {
      hide TableOf, PageOk, Overlay, AsMap, StoreOk, FilesOk, Replay, LogRecords, Bytes.DecodeAll, FirstEmpty, Sorted;
      hide Contents.Content, Recoverable, AfterPut, Same, FreshKey, LastRun, SpillFits;
      ghost var content0, history0, kv0 := Content(), disk.history, buffer.kv;
      var placed := PlaceInBuffer(key, val);
      if placed {
        return true;
      }
      BufferShape(mgr.View(), buffer.kv);
      SpillMemtable();
      ghost var content2, history2 := Content(), disk.history;
      SpilledFresh(kv0, key);
      var _ := Put(key, val);
      PutAfterSame(content0, content2, Content(), key, val);
      HistoryChain(history0, history2, content0, content2);
      return true;
    }

    method Delete(key: Key) returns (ok: bool)
      requires Valid() && CanPut(key)
      modifies disk, comp, buffer, buffer.log, buffer.log.Buffers(), mgr.AllRuns()
      ensures ok && Valid() && buffer.log.Buffers() == old(buffer.log.Buffers())
      ensures AfterPut(old(Content()), Content(), key, TOMBSTONE) && key in AsMap(buffer.kv)
      ensures Content() == old(PutContent(key))[key := TOMBSTONE]
      ensures OneMoreLogged(old(disk.history), old(buffer.log.logBufferSize))
      ensures comp.launched == old(comp.launched) + if old(MustCompact(key)) then 1 else 0
      ensures HistorySafe(old(disk.history), old(Content()))
    {
      ok := Put(key, TOMBSTONE);
    }

    // --- Get ----------------------------------------------------------------

    // What a reader sees: the newest version, unless it is a deletion.
    static ghost function Visible(content: map<Key, Val>, key: Key): Option<Val> {
      if key in content && content[key] != TOMBSTONE then Some(content[key]) else None
    }

    // No slot from `at` on holds the key.
    static ghost predicate NotFrom(s: seq<Slot>, at: int, key: Key) {
      forall j :: at <= j < |s| && 0 <= j ==> key !in SlotMap(s[j])
    }

    // One run: its filter gates a binary search of its table.
    method SearchRun(levelNo: nat, runNo: nat, key: Key) returns (hit: bool, val: Val)
      requires mgr.Valid() && mgr.cfg == cfg && mgr.hs == hs && ValidRun(cfg, levelNo, runNo)
      ensures 0 <= SlotNo(cfg, levelNo, runNo) < |mgr.View()|
      ensures hit <==> key in SlotMap(mgr.View()[SlotNo(cfg, levelNo, runNo)])
      ensures hit ==> val == SlotMap(mgr.View()[SlotNo(cfg, levelNo, runNo)])[key]
    {
      hide TableOf, PageOk, Overlay, AsMap, FilesOk, FilterOf, LowerBound;
      var exist, filter, memtable := mgr.LoadSSTable(levelNo, runNo, EMPTY_FILTER, []);
      if exist {
        LowerBoundFinds(memtable, key);
        var bloom := new BloomFilter(hs, filter);
        if bloom.CouldHasKey(key) {
          var p := LowerBound(memtable, key);
          if p < |memtable| && memtable[p].key == key {
            return true, memtable[p].val;
          }
        } else if key in AsMap(memtable) {
          NoFalseNegative(hs, memtable, LowerBound(memtable, key));
        }
      }
      return false, 0;
    }

    // One level, right to left, when no newer slot holds the key.
    method SearchLevel(levelNo: nat, key: Key) returns (hit: bool, val: Val)
      requires mgr.Valid() && mgr.cfg == cfg && mgr.hs == hs && levelNo < cfg.maxLevelNum
      requires NotFrom(mgr.View(), LevelStart(cfg, levelNo) + GetMaxRun(cfg, levelNo), key)
      ensures hit ==> key in Overlay(mgr.View()) && val == Overlay(mgr.View())[key]
      ensures !hit ==> NotFrom(mgr.View(), LevelStart(cfg, levelNo), key)
    {
      hide TableOf, PageOk, Overlay, AsMap, FilesOk, SlotMap;
      ghost var s := mgr.View();
      var runNo := GetMaxRun(cfg, levelNo) - 1;
      while runNo >= 0
        invariant -1 <= runNo < GetMaxRun(cfg, levelNo)
        invariant mgr.Valid() && mgr.View() == s
        invariant NotFrom(s, LevelStart(cfg, levelNo) + runNo + 1, key)
      {
        hit, val := SearchRun(levelNo, runNo, key);
        if hit {
          OverlayNewest(s, SlotNo(cfg, levelNo, runNo), key);
          return;
        }
        runNo := runNo - 1;
      }
      return false, 0;
    }

    // Top level first: slots from the last one down, so newest version first.
    method SearchRuns(key: Key) returns (found: bool, val: Val)
      requires mgr.Valid() && mgr.cfg == cfg && mgr.hs == hs && mgr.disk == disk
      ensures found <==> key in Overlay(mgr.View())
      ensures found ==> val == Overlay(mgr.View())[key]
    {
      hide TableOf, PageOk, Overlay, AsMap, FilesOk, SlotMap;
      ghost var s := mgr.View();
      SlotsLength(cfg, disk.files);
      LevelStarts(cfg, 0);
      var levelNo := 0;
      while levelNo < cfg.maxLevelNum
        invariant 0 <= levelNo <= cfg.maxLevelNum
        invariant mgr.Valid() && mgr.View() == s
        invariant levelNo < cfg.maxLevelNum ==> NotFrom(s, LevelStart(cfg, levelNo) + GetMaxRun(cfg, levelNo), key)
        invariant levelNo == cfg.maxLevelNum ==> NotFrom(s, 0, key)
      {
        LevelStarts(cfg, levelNo);
        if levelNo + 1 < cfg.maxLevelNum { LevelStarts(cfg, levelNo + 1); }
        found, val := SearchLevel(levelNo, key);
        if found {
          return;
        }
        levelNo := levelNo + 1;
      }
      OverlayMiss(s, key);
      return false, 0;
    }

    // Returns exactly what a finite map would; *val is untouched on a miss.
    method Get(key: Key, val0: Val) returns (ok: bool, val: Val)
      requires Valid()
      ensures Visible(Content(), key) == if ok then Some(val) else None
      ensures !ok ==> val == val0
    {
      hide TableOf, PageOk, Overlay, AsMap, FilesOk, Replay, LogRecords, Bytes.DecodeAll;
      BufferShape(mgr.View(), buffer.kv);
      var inBuffer, bufferVal := buffer.Get(key);
      if inBuffer {
        match bufferVal
        case None => return false, val0;
        case Some(v) => return true, v;
      }
      var found, v := SearchRuns(key);
      if found && v != TOMBSTONE {
        return true, v;
      }
      return false, val0;
    }

    // --- GetRange -----------------------------------------------------------

    // Copies one run's entries in range, never over what is there already.
    method CopyRun(memtable: Table, key1: Key, key2: Key, res0: map<Key, Val>) returns (res: map<Key, Val>)
      requires Sorted(memtable) && memtable != [] && key1 <= key2
      ensures res == AsMap(RangeSlice(memtable, key1, key2)) + res0
    {
      hide AsMap, LowerBound;
      EmptyMap(res0);
      res := res0;
      if memtable[0].key > key2 || memtable[|memtable| - 1].key < key1 {
        return;
      }
      RangeBounds(memtable, key1, key2);
      var it1, it2 := LowerBound(memtable, key1), RangeEnd(memtable, key2);
      assert memtable[it1..it1] == [];
      for it := it1 to it2
        invariant res == AsMap(memtable[it1..it]) + res0
      {
        SliceNext(memtable, it1, it);
        if memtable[it].key !in res {
          res := res[memtable[it].key := memtable[it].val];
        }
      }
    }

    // What the slots from `at` on contribute to a range query, over `newer`.
    static ghost function RangeFrom(s: seq<Slot>, at: int, key1: Key, key2: Key, newer: map<Key, Val>): map<Key, Val>
      requires key1 <= key2
    {
      if 0 <= at <= |s| then Overlay(Sliced(s, key1, key2)[at..]) + newer else newer
    }

    static lemma RangeStep(s: seq<Slot>, at: nat, key1: Key, key2: Key, newer: map<Key, Val>)
      requires key1 <= key2 && at < |s|
      ensures RangeFrom(s, at, key1, key2, newer) ==
              SlotMap(SlicedSlot(s[at], key1, key2)) + RangeFrom(s, at + 1, key1, key2, newer)
    {
      hide AsMap, RangeSlice, SlotMap;
      var sliced := Sliced(s, key1, key2);
      assert sliced[at..] == [sliced[at]] + sliced[at + 1..];
      OverlayConcat([sliced[at]], sliced[at + 1..]);
      assert [sliced[at]][..0] == [];
      UnionEmpty(SlotMap(sliced[at]));
      UnionAssoc(SlotMap(sliced[at]), Overlay(sliced[at + 1..]), newer);
    }

    method RangeRun(levelNo: nat, runNo: nat, key1: Key, key2: Key, res0: map<Key, Val>, ghost newer: map<Key, Val>)
      returns (res: map<Key, Val>)
      requires mgr.Valid() && mgr.cfg == cfg && ValidRun(cfg, levelNo, runNo) && key1 <= key2
      requires forall i :: 0 <= i < |mgr.View()| && mgr.View()[i].Some? ==> mgr.View()[i].value != []
      requires res0 == RangeFrom(mgr.View(), SlotNo(cfg, levelNo, runNo) + 1, key1, key2, newer)
      ensures res == RangeFrom(mgr.View(), SlotNo(cfg, levelNo, runNo), key1, key2, newer)
    {
      hide TableOf, PageOk, Overlay, AsMap, FilesOk, RangeFrom, RangeSlice;
      var exist, _, memtable := mgr.LoadSSTable(levelNo, runNo, EMPTY_FILTER, []);
      RangeStep(mgr.View(), SlotNo(cfg, levelNo, runNo), key1, key2, newer);
      res := res0;
      if exist {
        res := CopyRun(memtable, key1, key2, res);
      } else {
        UnionEmpty(res0);
      }
    }

    method RangeLevel(levelNo: nat, key1: Key, key2: Key, res0: map<Key, Val>, ghost newer: map<Key, Val>)
      returns (res: map<Key, Val>)
      requires mgr.Valid() && mgr.cfg == cfg && levelNo < cfg.maxLevelNum && key1 <= key2
      requires forall i :: 0 <= i < |mgr.View()| && mgr.View()[i].Some? ==> mgr.View()[i].value != []
      requires res0 == RangeFrom(mgr.View(), LevelStart(cfg, levelNo) + GetMaxRun(cfg, levelNo), key1, key2, newer)
      ensures res == RangeFrom(mgr.View(), LevelStart(cfg, levelNo), key1, key2, newer)
    {
      hide TableOf, PageOk, Overlay, AsMap, FilesOk, RangeFrom;
      ghost var s := mgr.View();
      res := res0;
      var runNo := GetMaxRun(cfg, levelNo) - 1;
      while runNo >= 0
        invariant -1 <= runNo < GetMaxRun(cfg, levelNo)
        invariant mgr.Valid() && mgr.View() == s
        invariant res == RangeFrom(s, LevelStart(cfg, levelNo) + runNo + 1, key1, key2, newer)
      {
        res := RangeRun(levelNo, runNo, key1, key2, res, newer);
        runNo := runNo - 1;
      }
    }

    lemma RangeStart(s: seq<Slot>, key1: Key, key2: Key, newer: map<Key, Val>)
      requires key1 <= key2
      ensures RangeFrom(s, |s|, key1, key2, newer) == newer
      ensures RangeFrom(s, 0, key1, key2, newer) == Overlay(Sliced(s, key1, key2)) + newer
    {
      assert Sliced(s, key1, key2)[0..] == Sliced(s, key1, key2);
      assert Overlay([]) == map[];
      UnionEmpty(newer);
    }

    method RangeRuns(key1: Key, key2: Key, newer: map<Key, Val>) returns (res: map<Key, Val>)
      requires mgr.Valid() && mgr.cfg == cfg && mgr.disk == disk && key1 <= key2
      requires forall i :: 0 <= i < |mgr.View()| && mgr.View()[i].Some? ==> mgr.View()[i].value != []
      ensures res == Overlay(Sliced(mgr.View(), key1, key2)) + newer
    {
      hide TableOf, PageOk, Overlay, AsMap, FilesOk, RangeFrom, Sliced;
      ghost var s := mgr.View();
      SlotsLength(cfg, disk.files);
      LevelStarts(cfg, 0);
      RangeStart(s, key1, key2, newer);
      res := newer;
      var levelNo := 0;
      while levelNo < cfg.maxLevelNum
        invariant 0 <= levelNo <= cfg.maxLevelNum
        invariant mgr.Valid() && mgr.View() == s
        invariant levelNo < cfg.maxLevelNum ==>
                    res == RangeFrom(s, LevelStart(cfg, levelNo) + GetMaxRun(cfg, levelNo), key1, key2, newer)
        invariant levelNo == cfg.maxLevelNum ==> res == RangeFrom(s, 0, key1, key2, newer)
      {
        LevelStarts(cfg, levelNo);
        if levelNo + 1 < cfg.maxLevelNum { LevelStarts(cfg, levelNo + 1); }
        res := RangeLevel(levelNo, key1, key2, res, newer);
        levelNo := levelNo + 1;
      }
    }

    lemma RunsNotEmpty(s: seq<Slot>)
      requires StoreOk(cfg, s, buffer.kv)
      ensures Sorted(buffer.kv)
      ensures forall i :: 0 <= i < |s| && s[i].Some? ==> s[i].value != []
    {
      hide Overlay, AsMap, Varied, Varies;
    }

    // Entries of the memtable overwrite the result; entries of the runs only
    // fill in what is missing. RangeAgrees and RangeExactIff say what it means.
    method GetRange(key1: Key, key2: Key, res0: map<Key, Val>) returns (res: map<Key, Val>)
      requires Valid() && key1 <= key2 && buffer.kv != []
      ensures res == Overlay(Sliced(mgr.View(), key1, key2)) + (res0 + AsMap(RangeSlice(buffer.kv, key1, key2)))
      ensures res0 == map[] ==> res == RangeView(mgr.View(), buffer.kv, key1, key2)
    {
      hide TableOf, PageOk, Overlay, AsMap, FilesOk, RangeSlice, Replay, LogRecords, Bytes.DecodeAll, Sliced;
      RunsNotEmpty(mgr.View());
      res := buffer.GetRange(key1, key2, res0);
      res := RangeRuns(key1, key2, res);
      UnionEmpty(AsMap(RangeSlice(buffer.kv, key1, key2)));
    }

    // --- The destructor -------------------------------------------------------

    // The tables that a shutdown writes fit their pages; the last one holds the
    // whole store.
    ghost predicate CloseFits()
      reads disk, mgr.disk, comp.mgr.disk, buffer
    {
      SpillFits() && Fits(cfg.pageSize, Fold(Spilled(cfg, mgr.View(), buffer.kv)))
    }

    // It is enough that all keys of the store fit one page.
    lemma RoomMeansFits()
      requires Valid() && |Content().Keys| <= cfg.Capacity()
      ensures SpillFits() && CloseFits()
    {
      hide TableOf, PageOk, Overlay, AsMap, Fold, StoreOk, Spilled, FilesOk, Replay, Bytes.DecodeAll;
      SlotsLength(cfg, disk.files);
      AllFits(cfg, mgr.View(), buffer.kv);
    }

    lemma MajorSafe(before: Files, history1: seq<Files>, s: seq<Slot>, want: map<Key, Val>)
      requires Linked() && comp.CrashSafe(before, history1, 0, Overlay(s))
      requires before.logPos == 0 && Ordinary(Overlay(s)) == Ordinary(want)
      ensures |history1| <= |disk.history| && disk.history[..|history1|] == history1
      ensures forall k :: |history1| <= k < |disk.history| ==>
                && disk.history[k].logPos == 0
                && Ordinary(RecoverTables(cfg, disk.history[k], 0)) == Ordinary(want)
    {
      hide Overlay, RecoverTables;
      forall k | |history1| <= k < |disk.history|
        ensures disk.history[k].logPos == 0
        ensures Ordinary(RecoverTables(cfg, disk.history[k], 0)) == Ordinary(want)
      {
        assert Recovers(cfg, disk.history[k], before, 0, Overlay(s));
      }
    }

    ghost predicate LogRecordsEmpty()
      reads disk
    {
      disk.files.logPos == 0
    }

    lemma MajorReady(s: seq<Slot>, after: seq<Slot>, want: map<Key, Val>)
      requires TablesIdle() && StoreOk(cfg, s, buffer.kv) && FirstEmpty(s) < |s|
      requires after == mgr.View() == s[FirstEmpty(s) := Some(buffer.kv)]
      requires Ordinary(Contents.Content(s, buffer.kv)) == Ordinary(want) && Fits(cfg.pageSize, Fold(after))
      ensures Prefix(after) && AllSorted(after) && comp.GroupFits(cfg.maxLevelNum - 1)
      ensures Ordinary(Overlay(after)) == Ordinary(want)
    {
      hide TableOf, PageOk, Overlay, AsMap, StoreOk, Fold, FilesOk;
      StoreShape(s);
      DumpOverlay(s, buffer.kv);
      SlotsLength(cfg, disk.files);
      LevelStarts(cfg, cfg.maxLevelNum - 1);
      assert after[0..] == after;
      FilesOkSortedFrom(cfg, hs, disk.files, 0);
    }

    lemma MajorDone(s: seq<Slot>, after: seq<Slot>)
      requires Linked() && comp.AfterCompaction(s, cfg.maxLevelNum - 1) && after == mgr.View() && AllSorted(s)
      ensures Ordinary(Overlay(after)) == Ordinary(Overlay(s)) && after == Merged(s)
    {
      hide TableOf, PageOk, Overlay, AsMap, Fold, Compacted;
      LevelStarts(cfg, cfg.maxLevelNum - 1);
      assert s[0..] == s;
      if comp.WorthCompacting(s, cfg.maxLevelNum - 1) {
        RecoverCompacted(s, 0, None);
        RecoverPlain(after, 0);
      }
    }

    method FinalCompaction(ghost s: seq<Slot>, ghost want: map<Key, Val>)
      requires TablesIdle() && StoreOk(cfg, s, buffer.kv) && FirstEmpty(s) < |s| && LogRecordsEmpty()
      requires mgr.View() == s[FirstEmpty(s) := Some(buffer.kv)]
      requires Ordinary(Contents.Content(s, buffer.kv)) == Ordinary(want) && Fits(cfg.pageSize, Fold(mgr.View()))
      modifies disk, comp, mgr.AllRuns()
      ensures TablesIdle() && LogRecordsEmpty()
      ensures mgr.View() == Merged(old(mgr.View())) && comp.launched == old(comp.launched) + 1
      ensures Ordinary(Overlay(mgr.View())) == Ordinary(want)
      ensures |old(disk.history)| <= |disk.history| && disk.history[..|old(disk.history)|] == old(disk.history)
      ensures forall k :: |old(disk.history)| <= k < |disk.history| ==>
                && disk.history[k].logPos == 0
                && Ordinary(RecoverTables(cfg, disk.history[k], 0)) == Ordinary(want)
    {
      hide TableOf, PageOk, Overlay, AsMap, Replay, LogRecords, StoreOk, FilesOk, Compacted, RecoverTables;
      hide Fold, FirstEmpty, ImageOk, CompactionManager.CrashSafe, Ordinary, LevelStart, GetMaxRun, Slots, Merged;
      ghost var s1, before, history1 := mgr.View(), disk.files, disk.history;
      MajorReady(s, s1, want);
      comp.RequestMajorCompaction();
      MajorDone(s1, mgr.View());
      LevelStarts(cfg, cfg.maxLevelNum - 1);
      MajorSafe(before, history1, s1, want);
    }

    method ClearLog(ghost s: seq<Slot>, ghost history0: seq<Files>, ghost want: map<Key, Val>)
      requires TablesIdle() && StoreOk(cfg, s, buffer.kv) && FirstEmpty(s) < |s|
      requires mgr.View() == s[FirstEmpty(s) := Some(buffer.kv)]
      requires Ordinary(Contents.Content(s, buffer.kv)) == Ordinary(want) && HistorySafe(history0, want)
      modifies disk
      ensures TablesIdle() && mgr.View() == old(mgr.View())
      ensures LogRecordsEmpty()
      ensures HistorySafe(history0, want)
    {
      hide TableOf, PageOk, Overlay, AsMap, StoreOk, FilesOk;
      ghost var files0, earlier := disk.files, disk.history;
      disk.WriteLog(Bytes.Zeros(cfg.pageSize), true);
      TablesUnmoved(files0);
      StoreShape(s);
      DumpOverlay(s, buffer.kv);
      EmptyTable();
      UnionEmpty(Overlay(mgr.View()));
      assert LogRecords(disk.files) == [];
      IdleRecovers(disk.files, mgr.View(), [], want);
    }

    // Dumps what is left in the memtable, clears the log, and lets the
    // compaction manager's own shutdown merge all runs into one. Every version
    // is then in the tables. From history entry `mid` on, the temporary page
    // belongs to that last, major compaction.
    method Close() returns (ghost mid: nat)
      requires Valid() && CloseFits()
      modifies disk, comp, buffer.log, mgr.AllRuns()
      ensures TablesIdle() && LogRecordsEmpty()
      ensures mgr.View() == Merged(old(Spilled(cfg, mgr.View(), buffer.kv)))
      ensures comp.launched == old(comp.launched) + 1 + if FirstEmpty(old(mgr.View())) < |old(mgr.View())| then 0 else 1
      ensures Ordinary(Overlay(mgr.View())) == Ordinary(old(Content()))
      ensures |old(disk.history)| <= mid <= |disk.history|
      ensures forall k :: |old(disk.history)| <= k < mid ==> Recoverable(cfg, disk.history[k], old(Content()))
      ensures forall k :: mid <= k < |disk.history| ==>
                && disk.history[k].logPos == 0
                && Ordinary(RecoverTables(cfg, disk.history[k], 0)) == Ordinary(old(Content()))
    {
      hide TableOf, PageOk, Overlay, AsMap, Replay, LogRecords, StoreOk, FilesOk, Compacted, RecoverTables, Fold;
      hide Recoverable, Bytes.DecodeAll, Contents.Content, Merged;
      ghost var want, history0, s0 := Content(), disk.history, mgr.View();
      FlushWAL();
      DumpFlushed(history0, want);
      ghost var s := if FirstEmpty(s0) < |s0| then s0 else CompactedMinor(s0);
      ClearLog(s, history0, want);
      mid := |disk.history|;
      ghost var history1 := disk.history;
      FinalCompaction(s, want);
      assert forall k :: |history0| <= k < mid ==> disk.history[k] == history1[k];
    }

    // --- Between two calls ------------------------------------------------------

    // A crash now loses no more than the records still in the log's buffer.
    lemma CrashNow()
      requires Valid()
      ensures disk.files.logPos <= |disk.files.log| && 0 <= MinorBase(cfg) <= cfg.TotalPages()
      ensures Content() == RecoverAll(cfg, disk.files) + Replay(buffer.log.Pending())
      ensures RECORD_SIZE * |buffer.log.Pending()| < cfg.logBufferSize
    {
      hide TableOf, PageOk, Overlay, AsMap, Replay, LogRecords, StoreOk, FilesOk;
      SlotsLength(cfg, disk.files);
      MinorBaseInRange(cfg);
      RecoverPlain(mgr.View(), MinorBase(cfg));
      ReplayConcat(buffer.log.Logged(), buffer.log.Pending());
      UnionAssoc(Overlay(mgr.View()), Replay(buffer.log.Logged()), Replay(buffer.log.Pending()));
    }
  }

  // The store with the constants and hash functions of the source.
  method Open() returns (db: GhostDB)
    ensures db.cfg == DEFAULTS && db.hs == GHOST_HASHES
    ensures db.Valid() && db.Settled() && db.Content() == map[]
  {
    DefaultsValid();
    db := new GhostDB(DEFAULTS, GHOST_HASHES);
  }
}
