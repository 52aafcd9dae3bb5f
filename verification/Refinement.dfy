/**
 * Whole runs of the store: for every sequence of client calls and background
 * time-outs, GhostDB answers as a finite map would, and a crash at any disk
 * step leaves the map as it was before the operation that took the step.
 */
module Refinement {
  import opened Common
  import opened Tables
  import Ranges
  import Bytes
  import Bloom
  import opened Disk
  import opened Store
  import opened Contents
  import opened LogBytes
  import opened Database
  import Compaction
  import Page
  import SSTables

  datatype Op =
    | PutOp(key: Key, val: Val)
    | DeleteOp(key: Key)
    | GetOp(key: Key)
    | RangeOp(key1: Key, key2: Key)
    | FlushTimeOut
    | CompactionTimeOut

  datatype Answer = Nothing | Value(found: Option<Val>) | Entries(entries: map<Key, Val>)

  predicate Writes(op: Op) {
    op.PutOp? || op.DeleteOp?
  }

  // A plain finite map under the same operations; putting TOMBSTONE is how
  // Delete is implemented, so it deletes.
  ghost function Model(ops: seq<Op>): map<Key, Val> {
    if ops == [] then map[]
    else
      var m := Model(ops[..|ops| - 1]);
      match ops[|ops| - 1]
      case PutOp(k, v) => if v == TOMBSTONE then m - {k} else m[k := v]
      case DeleteOp(k) => m - {k}
      case _ => m
  }

  ghost function Written(ops: seq<Op>): set<Key> {
    set i | 0 <= i < |ops| && Writes(ops[i]) :: ops[i].key
  }

  // Operation j is the last to write this key.
  ghost predicate LastWrite(ops: seq<Op>, j: nat, k: Key) {
    && j < |ops| && Writes(ops[j]) && ops[j].key == k
    && forall i :: j < i < |ops| && Writes(ops[i]) ==> ops[i].key != k
  }

  // The value a write leaves to be found: any but the least one.
  function Kept(op: Op): Option<Val> {
    if op.PutOp? && op.val > -0x8000_0000 then Some(op.val) else None
  }

  // The model holds what the last write of a key left, and nothing else.
  lemma {:induction false} ModelReads(ops: seq<Op>, j: nat, k: Key)
    requires LastWrite(ops, j, k)
    ensures Version(Model(ops), k) == Kept(ops[j])
  {
    TombstoneIsLeast(if ops[j].PutOp? then ops[j].val else 0);
    if j < |ops| - 1 { ModelReads(ops[..|ops| - 1], j, k); }
  }

  lemma WrittenStep(ops: seq<Op>, n: nat)
    requires n < |ops|
    ensures Written(ops[..n + 1]) == Written(ops[..n]) + if Writes(ops[n]) then {ops[n].key} else {}
    ensures Written(ops[..n + 1]) <= Written(ops)
    ensures ops[..n + 1][..n] == ops[..n] && ops[..n + 1][n] == ops[n]
  {
    var before, after := ops[..n], ops[..n + 1];
    assert after[..n] == before && after[n] == ops[n];
    forall k | k in Written(before) ensures k in Written(after) {
      var i :| 0 <= i < n && Writes(before[i]) && before[i].key == k;
      assert after[i] == before[i];
    }
    forall k | k in Written(after) ensures k in Written(ops) {
      var i :| 0 <= i < |after| && Writes(after[i]) && after[i].key == k;
      assert ops[i] == after[i];
    }
  }

  lemma {:induction false} ModelMisses(ops: seq<Op>, k: Key)
    requires k !in Written(ops)
    ensures Version(Model(ops), k) == None
  {
    if ops != [] {
      var n := |ops| - 1;
      WrittenStep(ops, n);
      assert ops[..n + 1] == ops;
      ModelMisses(ops[..n], k);
    }
  }

  // The content, read through its deletions, is the model at this key.
  ghost predicate AgreesAt(content: map<Key, Val>, ops: seq<Op>, k: Key) {
    GhostDB.Visible(content, k) == Version(Model(ops), k)
  }

  ghost predicate Agrees(content: map<Key, Val>, ops: seq<Op>) {
    forall k: Key :: k != TOMBSTONE ==> AgreesAt(content, ops, k)
  }

  ghost predicate Refines(content: map<Key, Val>, ops: seq<Op>) {
    && Agrees(content, ops)
    && content.Keys <= Written(ops)
    && Model(ops).Keys <= Written(ops)
  }

  lemma RefinesPut(before: map<Key, Val>, after: map<Key, Val>, ops: seq<Op>, n: nat, val: Val)
    requires n < |ops| && Refines(before, ops[..n])
    requires Writes(ops[n]) && val == if ops[n].PutOp? then ops[n].val else TOMBSTONE
    requires GhostDB.AfterPut(before, after, ops[n].key, val)
    ensures Refines(after, ops[..n + 1])
  {
    var key, done := ops[n].key, ops[..n + 1];
    WrittenStep(ops, n);
    forall k: Key | k != TOMBSTONE ensures AgreesAt(after, done, k) {
      assert k in after <==> k in Ordinary(after);
      assert k in before[key := val] <==> k in Ordinary(before[key := val]);
      assert AgreesAt(before, ops[..n], k);
    }
  }

  // A put that did not compact is exact at every key.
  lemma AgreesPut(before: map<Key, Val>, ops: seq<Op>, n: nat, val: Val, k: Key)
    requires n < |ops| && AgreesAt(before, ops[..n], k)
    requires Writes(ops[n]) && val == if ops[n].PutOp? then ops[n].val else TOMBSTONE
    ensures AgreesAt(before[ops[n].key := val], ops[..n + 1], k)
  {
    WrittenStep(ops, n);
  }

  lemma RefinesRead(content: map<Key, Val>, ops: seq<Op>, n: nat)
    requires n < |ops| && Refines(content, ops[..n]) && !Writes(ops[n])
    ensures Refines(content, ops[..n + 1])
    ensures forall k :: AgreesAt(content, ops[..n], k) ==> AgreesAt(content, ops[..n + 1], k)
  {
    var done := ops[..n + 1];
    WrittenStep(ops, n);
    forall k: Key | k != TOMBSTONE ensures AgreesAt(content, done, k) {
      assert AgreesAt(content, ops[..n], k);
    }
  }

  // --- What is asked and what is promised ------------------------------------

  // A range query must have proper bounds and must not come before any write.
  ghost predicate Proper(ops: seq<Op>) {
    forall i :: 0 <= i < |ops| && ops[i].RangeOp? ==> ops[i].key1 <= ops[i].key2 && Written(ops[..i]) != {}
  }

  // A compaction can forget the key TOMBSTONE, so lookups of it are promised
  // as long as nobody has written it or no compaction has taken place.
  ghost predicate Exact(done: seq<Op>, compacted: bool, key: Key) {
    key != TOMBSTONE || !compacted || TOMBSTONE !in Written(done)
  }

  // A key above key2 that a range query may return besides: one that was
  // written, and only if another not above key2 was written too.
  ghost predicate Extra(done: seq<Op>, key2: Key, k: Key) {
    k in Written(done) && exists a :: a in Written(done) && a <= key2
  }

  // The right answer to operation i, when a compaction has taken place before
  // it or not.
  ghost predicate Right(ops: seq<Op>, i: nat, answer: Answer, compacted: bool)
    requires i < |ops|
  {
    match ops[i]
    case GetOp(key) =>
      answer.Value? && (Exact(ops[..i], compacted, key) ==> answer.found == Version(Model(ops[..i]), key))
    case RangeOp(key1, key2) =>
      && answer.Entries?
      && (forall k: Key :: key1 <= k <= key2 && Exact(ops[..i], compacted, k) ==>
            AgreesAt(answer.entries, ops[..i], k))
      && forall k :: k in answer.entries ==> key1 <= k && (k <= key2 || Extra(ops[..i], key2, k))
    case _ => answer.Nothing?
  }

  // Where the content agrees with the model, up to the key TOMBSTONE.
  ghost predicate Tracks(content: map<Key, Val>, ops: seq<Op>, compacted: bool) {
    Refines(content, ops) && (!compacted ==> AgreesAt(content, ops, TOMBSTONE))
  }

  lemma AgreesWhenExact(content: map<Key, Val>, done: seq<Op>, compacted: bool, k: Key)
    requires Tracks(content, done, compacted) && Exact(done, compacted, k)
    ensures AgreesAt(content, done, k)
  {}

  lemma GetRight(content: map<Key, Val>, ops: seq<Op>, n: nat, compacted: bool, found: Option<Val>)
    requires n < |ops| && ops[n].GetOp? && Tracks(content, ops[..n], compacted)
    requires found == GhostDB.Visible(content, ops[n].key)
    ensures Right(ops, n, Value(found), compacted)
  {
    hide Tracks;
    if Exact(ops[..n], compacted, ops[n].key) { AgreesWhenExact(content, ops[..n], compacted, ops[n].key); }
  }

  // A lookup finds what the last write of its key left.
  ghost predicate Finds(ops: seq<Op>, i: nat, answer: Answer)
    requires i < |ops| && ops[i].GetOp?
  {
    && (forall j: nat :: LastWrite(ops[..i], j, ops[i].key) ==> answer == Value(Kept(ops[j])))
    && (ops[i].key !in Written(ops[..i]) ==> answer == Value(None))
  }

  lemma RightFinds(ops: seq<Op>, i: nat, answer: Answer, compacted: bool)
    requires i < |ops| && ops[i].GetOp? && ops[i].key != TOMBSTONE && Right(ops, i, answer, compacted)
    ensures Finds(ops, i, answer)
  {
    hide Model, Written, Version;
    var key, done := ops[i].key, ops[..i];
    forall j: nat | LastWrite(done, j, key) ensures answer == Value(Kept(ops[j])) {
      ModelReads(done, j, key);
    }
    if key !in Written(done) { ModelMisses(done, key); }
  }

  lemma ExtraWritten(s: seq<Slot>, kv: Table, done: seq<Op>, compacted: bool, key1: Key, key2: Key, k: Key)
    requires AllSorted(s) && Sorted(kv) && Tracks(Overlay(s) + AsMap(kv), done, compacted) && key1 <= key2
    requires k in Ranges.RangeView(s, kv, key1, key2) && key2 < k
    ensures Extra(done, key2, k)
  {
    hide Ranges.RangeView, Overlay, AsMap, Agrees, AgreesAt, Written, Model;
    Ranges.ExtraHasLower(s, kv, key1, key2, k);
    var content := Overlay(s) + AsMap(kv);
    var a :| a in content && a <= key2;
    assert a in Written(done);
  }

  lemma RangeRight(s: seq<Slot>, kv: Table, ops: seq<Op>, n: nat, compacted: bool)
    requires n < |ops| && ops[n].RangeOp? && ops[n].key1 <= ops[n].key2
    requires AllSorted(s) && Sorted(kv) && Tracks(Overlay(s) + AsMap(kv), ops[..n], compacted)
    ensures Right(ops, n, Entries(Ranges.RangeView(s, kv, ops[n].key1, ops[n].key2)), compacted)
  {
    hide Tracks, Ranges.RangeView, Overlay, AsMap, Exact, Model, Extra;
    var key1, key2, done := ops[n].key1, ops[n].key2, ops[..n];
    forall k: Key
      ensures k in Ranges.RangeView(s, kv, key1, key2) ==> key1 <= k && (k <= key2 || Extra(done, key2, k))
      ensures key1 <= k <= key2 && Exact(done, compacted, k) ==>
                AgreesAt(Ranges.RangeView(s, kv, key1, key2), done, k)
    {
      Ranges.RangeAgrees(s, kv, key1, key2, k);
      if k in Ranges.RangeView(s, kv, key1, key2) && key2 < k {
        ExtraWritten(s, kv, done, compacted, key1, key2, k);
      }
      if Exact(done, compacted, k) { AgreesWhenExact(Overlay(s) + AsMap(kv), done, compacted, k); }
    }
  }

  // --- What a crash leaves -----------------------------------------------------

  // A restart from this image would find the model after these operations.
  ghost predicate Survives(cfg: Config, image: Files, ops: seq<Op>) {
    && ImageOk(cfg.pageSize, image)
    && 0 <= MinorBase(cfg) <= cfg.TotalPages()
    && Agrees(RecoverAll(cfg, image), ops)
  }

  lemma SameOrdinary(content: map<Key, Val>, found: map<Key, Val>, ops: seq<Op>)
    requires Ordinary(found) == Ordinary(content) && Agrees(content, ops)
    ensures Agrees(found, ops)
  {
    forall k: Key | k != TOMBSTONE ensures AgreesAt(found, ops, k) {
      assert k in found <==> k in Ordinary(found);
      assert k in content <==> k in Ordinary(content);
      assert AgreesAt(content, ops, k);
    }
  }

  lemma ImageSurvives(cfg: Config, image: Files, content: map<Key, Val>, ops: seq<Op>)
    requires Recoverable(cfg, image, content) && ImageOk(cfg.pageSize, image) && Refines(content, ops)
    ensures Survives(cfg, image, ops)
  {
    hide RecoverAll, Agrees, ImageOk;
    SameOrdinary(content, RecoverAll(cfg, image), ops);
  }

  // The same from the bytes of the files alone, when they determine the logged
  // records (BytesSufficeIff).
  lemma SurvivesFromBytes(cfg: Config, image: Files, ops: seq<Op>)
    requires Survives(cfg, image, ops) && Tells(cfg.pageSize, image)
    ensures Agrees(RecoverTables(cfg, image, MinorBase(cfg))
                   + Replay(Strip(Bytes.DecodeAll(FirstPage(cfg.pageSize, image.log)))), ops)
  {
    hide Agrees, LogRecords, Bytes.DecodeAll, Strip, FirstPage, Replay, RecoverTables, Tells;
    BytesSufficeIff(cfg.pageSize, image);
  }

  // The images from a up to b survive as the model after these operations.
  ghost predicate Window(cfg: Config, images: seq<Files>, a: nat, b: nat, ops: seq<Op>) {
    a <= b <= |images| && forall k :: a <= k < b ==> Survives(cfg, images[k], ops)
  }

  ghost function WriteCount(ops: seq<Op>): nat {
    if ops == [] then 0 else WriteCount(ops[..|ops| - 1]) + if Writes(ops[|ops| - 1]) then 1 else 0
  }

  ghost predicate LagsFrom(cfg: Config, image: Files, ops: seq<Op>, j: nat, unsaved: nat)
    requires j <= |ops|
  {
    Survives(cfg, image, ops[..j]) && RECORD_SIZE * WriteCount(ops[j..]) == unsaved
  }

  // The image lags behind the operations by the writes still in the log's
  // buffer, `unsaved` bytes of them.
  ghost predicate Lags(cfg: Config, image: Files, ops: seq<Op>, unsaved: nat) {
    exists j :: 0 <= j <= |ops| && LagsFrom(cfg, image, ops, j, unsaved)
  }

  // What operation op leaves in the log's buffer.
  function Unsaved(op: Op, stepped: bool, before: nat): nat {
    (if stepped then 0 else before) + if Writes(op) then RECORD_SIZE else 0
  }

  // No disk step: the same image lags by one more write, if it was one.
  lemma LagsOn(cfg: Config, image: Files, ops: seq<Op>, n: nat, unsaved: nat)
    requires n < |ops| && Lags(cfg, image, ops[..n], unsaved)
    ensures Lags(cfg, image, ops[..n + 1], Unsaved(ops[n], false, unsaved))
  {
    hide Survives;
    var done, more := ops[..n], ops[..n + 1];
    var j :| 0 <= j <= n && LagsFrom(cfg, image, done, j, unsaved);
    assert more[..j] == done[..j];
    assert more[j..][..n - j] == done[j..] && more[j..][n - j] == ops[n];
    assert LagsFrom(cfg, image, more, j, Unsaved(ops[n], false, unsaved));
  }

  // A disk step saves everything before the operation.
  lemma LagsAnew(cfg: Config, image: Files, ops: seq<Op>, n: nat)
    requires n < |ops| && Survives(cfg, image, ops[..n])
    ensures Lags(cfg, image, ops[..n + 1], Unsaved(ops[n], true, 0))
  {
    hide Survives;
    var more := ops[..n + 1];
    assert more[..n] == ops[..n] && more[n..] == [ops[n]] && [ops[n]][..0] == [];
    assert WriteCount([ops[n]]) == if Writes(ops[n]) then 1 else 0;
    assert LagsFrom(cfg, image, more, n, Unsaved(ops[n], true, 0));
  }

  lemma {:induction false} NoWritesSince(ops: seq<Op>, j: nat)
    requires j <= |ops| && WriteCount(ops[j..]) == 0
    ensures Model(ops) == Model(ops[..j])
  {
    if j < |ops| {
      var n := |ops| - 1;
      assert ops[j..][..n - j] == ops[..n][j..] && ops[j..][n - j] == ops[n];
      NoWritesSince(ops[..n], j);
      assert ops[..n][..j] == ops[..j];
    } else {
      assert ops[..j] == ops;
    }
  }

  lemma NoLag(cfg: Config, image: Files, ops: seq<Op>)
    requires Lags(cfg, image, ops, 0)
    ensures Survives(cfg, image, ops)
  {
    hide RecoverAll, Model, WriteCount, Page.TableOf, Page.PageOk, LogRecords;
    var j :| 0 <= j <= |ops| && LagsFrom(cfg, image, ops, j, 0);
    NoWritesSince(ops, j);
    forall k: Key | k != TOMBSTONE ensures AgreesAt(RecoverAll(cfg, image), ops, k) {
      assert AgreesAt(RecoverAll(cfg, image), ops[..j], k);
    }
  }

  // Fewer writes than the log's buffer holds separate the image from the
  // operations done.
  ghost predicate Behind(cfg: Config, image: Files, ops: seq<Op>) {
    exists unsaved :: 0 <= unsaved < cfg.logBufferSize && Lags(cfg, image, ops, unsaved)
  }

  // The last of the first b images lacks none of these operations.
  ghost predicate SavedBy(cfg: Config, images: seq<Files>, b: nat, ops: seq<Op>) {
    b <= |images| && Survives(cfg, LastImage(images[..b]), ops)
  }

  // at[i] is the number of images when operation i began; at[n] counts all. A
  // crash during operation i finds the image that was there when it began, or
  // one that the operation wrote. A time-out of the flush thread saves all.
  ghost predicate Timeline(cfg: Config, images: seq<Files>, at: seq<nat>, ops: seq<Op>, n: nat) {
    && n <= |ops| && |at| == n + 1 && at[0] == 0 && at[n] == |images|
    && (forall i :: 0 <= i < n ==> Window(cfg, images, at[i], at[i + 1], ops[..i]))
    && (forall i :: 0 <= i < n && ops[i].FlushTimeOut? ==> SavedBy(cfg, images, at[i + 1], ops[..i + 1]))
    && forall i :: 0 <= i <= n ==> at[i] <= |images| && Behind(cfg, LastImage(images[..at[i]]), ops[..i])
  }

  lemma NewWindow(db: GhostDB, images: seq<Files>, content: map<Key, Val>, done: seq<Op>)
    requires db.Valid() && Refines(content, done) && db.HistorySafe(images, content)
    ensures images <= db.disk.history
    ensures Window(db.cfg, db.disk.history, |images|, |db.disk.history|, done)
  {
    hide Refines, Survives, Recoverable, ImageOk, StoreOk;
    forall k | |images| <= k < |db.disk.history| ensures Survives(db.cfg, db.disk.history[k], done) {
      ImageSurvives(db.cfg, db.disk.history[k], content, done);
    }
  }

  lemma OldWindow(cfg: Config, images: seq<Files>, longer: seq<Files>, a: nat, b: nat, done: seq<Op>)
    requires images <= longer && Window(cfg, images, a, b, done)
    ensures Window(cfg, longer, a, b, done)
  {
    hide Survives;
    assert forall k :: 0 <= k < |images| ==> longer[k] == images[k];
  }

  lemma TimelineStep(cfg: Config, images: seq<Files>, longer: seq<Files>, at: seq<nat>, ops: seq<Op>, n: nat)
    requires n < |ops| && Timeline(cfg, images, at, ops, n) && images <= longer
    requires Window(cfg, longer, |images|, |longer|, ops[..n]) && Behind(cfg, LastImage(longer), ops[..n + 1])
    requires ops[n].FlushTimeOut? ==> Survives(cfg, LastImage(longer), ops[..n + 1])
    ensures Timeline(cfg, longer, at + [|longer|], ops, n + 1)
  {
    hide Window, Behind, LastImage, Survives;
    assert longer[..|longer|] == longer;
    forall i | 0 <= i < n && ops[i].FlushTimeOut? ensures SavedBy(cfg, longer, at[i + 1], ops[..i + 1]) {
      assert longer[..at[i + 1]] == images[..at[i + 1]];
    }
    forall i | 0 <= i < n ensures Window(cfg, longer, at[i], at[i + 1], ops[..i]) {
      OldWindow(cfg, images, longer, at[i], at[i + 1], ops[..i]);
    }
    forall i | 0 <= i <= n ensures at[i] <= |longer| && Behind(cfg, LastImage(longer[..at[i]]), ops[..i]) {
      assert longer[..at[i]] == images[..at[i]];
    }
  }

  // One operation moves the lag on, or starts it anew.
  lemma LagsStep(db: GhostDB, images: seq<Files>, content: map<Key, Val>, ops: seq<Op>, n: nat, unsaved: nat)
    requires n < |ops| && db.Valid() && Lags(db.cfg, LastImage(images), ops[..n], unsaved)
    requires Refines(content, ops[..n]) && db.HistorySafe(images, content)
    requires db.buffer.log.logBufferSize == Unsaved(ops[n], |db.disk.history| > |images|, unsaved)
    ensures Lags(db.cfg, db.disk.files, ops[..n + 1], db.buffer.log.logBufferSize)
  {
    hide Refines, Survives, Recoverable, ImageOk, StoreOk, Lags;
    if |db.disk.history| > |images| {
      ImageSurvives(db.cfg, db.disk.files, content, ops[..n]);
      LagsAnew(db.cfg, db.disk.files, ops, n);
    } else {
      assert db.disk.history == images;
      LagsOn(db.cfg, db.disk.files, ops, n, unsaved);
    }
  }

  // --- Runs ------------------------------------------------------------------------

  lemma Room(cfg: Config, content: map<Key, Val>, ops: seq<Op>, n: nat)
    requires n <= |ops| && Refines(content, ops[..n]) && |Written(ops)| <= cfg.Capacity()
    ensures |content.Keys| <= cfg.Capacity()
  {
    if n < |ops| { WrittenStep(ops, n); } else { assert ops[..n] == ops; }
    CardMonotone(content.Keys, Written(ops));
  }

  // After the first write the memtable is never empty between operations.
  ghost predicate Started(db: GhostDB, ops: seq<Op>)
    reads db.buffer
  {
    Written(ops) != {} ==> db.buffer.kv != []
  }

  // Whether a put of this key would write no table that overruns its page.
  method Allows(db: GhostDB, key: Key) returns (ok: bool)
    requires db.Valid() && db.Settled()
    ensures db.Valid() && db.Settled() && db.Content() == old(db.Content())
    ensures ok <==> db.CanPut(key)
  {
    hide Page.TableOf, Page.PageOk, Overlay, AsMap, Fold, Replay, LogRecords, Bytes.DecodeAll, FreshKey, ImageOk;
    hide SSTables.FirstEmpty;
    db.SettledFresh(key);
    db.BufferShape(db.mgr.View(), db.buffer.kv);
    db.StoreShape(db.mgr.View());
    MinorBaseInRange(db.cfg);
    var found, _ := db.buffer.Get(key);
    if |db.buffer.kv| < db.cfg.maxBufferSize || found {
      return true;
    }
    var free, _, _ := db.mgr.GetAvaiRun();
    ok := PAYLOAD_OFFSET + RECORD_SIZE * |db.buffer.kv| <= db.cfg.pageSize;
    if ok && !free {
      var group, _ := db.comp.Gather(Compaction.MINOR_COMPACTION_LEVEL_NUM - 1);
      ok := PAYLOAD_OFFSET + RECORD_SIZE * |group| <= db.cfg.pageSize;
    }
  }

  method WriteStep(db: GhostDB, ops: seq<Op>, n: nat)
    requires n < |ops| && Writes(ops[n]) && db.CanPut(ops[n].key)
    requires db.Valid() && db.Settled() && Tracks(db.Content(), ops[..n], db.comp.launched != 0)
    modifies db.disk, db.comp, db.buffer, db.buffer.log, db.buffer.log.Buffers(), db.mgr.AllRuns()
    ensures db.Valid() && db.Settled() && db.buffer.log.Buffers() == old(db.buffer.log.Buffers())
    ensures db.buffer.kv != [] && old(db.comp.launched) <= db.comp.launched <= old(db.comp.launched) + 1
    ensures db.buffer.log.logBufferSize ==
            Unsaved(ops[n], |db.disk.history| > |old(db.disk.history)|, old(db.buffer.log.logBufferSize))
    ensures Tracks(db.Content(), ops[..n + 1], db.comp.launched != 0)
    ensures db.HistorySafe(old(db.disk.history), old(db.Content()))
  {
    hide Page.TableOf, Page.PageOk, StoreOk, Overlay, AsMap, Replay, LogRecords, Refines, Model, Written, Recoverable;
    hide Contents.Content, GhostDB.AfterPut, GhostDB.Visible, FreshKey, AgreesAt, ImageOk;
    hide GhostDB.SpillFits, GhostDB.CanPut;
    ghost var before := db.Content();
    ghost var val := if ops[n].PutOp? then ops[n].val else TOMBSTONE;
    EmptyTable();
    if ops[n].PutOp? {
      var _ := db.Put(ops[n].key, ops[n].val);
    } else {
      var _ := db.Delete(ops[n].key);
    }
    RefinesPut(before, db.Content(), ops, n, val);
    if db.comp.launched == 0 { AgreesPut(before, ops, n, val, TOMBSTONE); }
  }

  method ReadStep(db: GhostDB, ops: seq<Op>, n: nat) returns (answer: Answer)
    requires n < |ops| && Proper(ops) && !Writes(ops[n])
    requires db.Valid() && db.Settled() && Started(db, ops[..n])
    requires Tracks(db.Content(), ops[..n], db.comp.launched != 0)
    modifies db.disk, db.comp, db.buffer.log, db.mgr.AllRuns()
    ensures db.Valid() && db.Settled() && db.buffer.log.Buffers() == old(db.buffer.log.Buffers())
    ensures db.Content() == old(db.Content()) && db.comp.launched == old(db.comp.launched)
    ensures db.buffer.log.logBufferSize ==
            Unsaved(ops[n], |db.disk.history| > |old(db.disk.history)|, old(db.buffer.log.logBufferSize))
    ensures ops[n].FlushTimeOut? ==> db.buffer.log.logBufferSize == 0
    ensures Tracks(db.Content(), ops[..n + 1], db.comp.launched != 0)
    ensures db.HistorySafe(old(db.disk.history), old(db.Content()))
    ensures Right(ops, n, answer, db.comp.launched != 0)
  {
    hide Page.TableOf, Page.PageOk, StoreOk, Overlay, AsMap, Replay, LogRecords, Refines, Model, Written, Recoverable;
    hide GhostDB.Visible, AgreesAt, ImageOk, Ranges.RangeView, Ranges.Sliced, Bytes.DecodeAll;
    RefinesRead(db.Content(), ops, n);
    match ops[n]
    case GetOp(key) =>
      var ok, val := db.Get(key, 0);
      answer := Value(if ok then Some(val) else None);
      GetRight(db.Content(), ops, n, db.comp.launched != 0, answer.found);
    case RangeOp(key1, key2) =>
      var res := db.GetRange(key1, key2, map[]);
      db.StoreShape(db.mgr.View());
      answer := Entries(res);
      RangeRight(db.mgr.View(), db.buffer.kv, ops, n, db.comp.launched != 0);
    case FlushTimeOut =>
      db.FlushWAL();
      answer := Nothing;
    case CompactionTimeOut =>
      db.CompactionTimeOut();
      answer := Nothing;
    case _ =>
      assert false;
  }

  lemma WriteRight(ops: seq<Op>, n: nat, compacted: bool)
    requires n < |ops| && Writes(ops[n])
    ensures Right(ops, n, Nothing, compacted)
  {}

  // One operation.
  method Step(db: GhostDB, ops: seq<Op>, n: nat) returns (answer: Answer)
    requires n < |ops| && Proper(ops) && (Writes(ops[n]) ==> db.CanPut(ops[n].key))
    requires db.Valid() && db.Settled() && Started(db, ops[..n])
    requires Tracks(db.Content(), ops[..n], db.comp.launched != 0)
    modifies db.disk, db.comp, db.buffer, db.buffer.log, db.buffer.log.Buffers(), db.mgr.AllRuns()
    ensures db.Valid() && db.Settled() && Started(db, ops[..n + 1])
    ensures db.buffer.log.Buffers() == old(db.buffer.log.Buffers())
    ensures old(db.comp.launched) <= db.comp.launched <= old(db.comp.launched) + 1
    ensures !Writes(ops[n]) ==> db.comp.launched == old(db.comp.launched)
    ensures db.buffer.log.logBufferSize ==
            Unsaved(ops[n], |db.disk.history| > |old(db.disk.history)|, old(db.buffer.log.logBufferSize))
    ensures ops[n].FlushTimeOut? ==> db.buffer.log.logBufferSize == 0
    ensures Tracks(db.Content(), ops[..n + 1], db.comp.launched != 0)
    ensures db.HistorySafe(old(db.disk.history), old(db.Content()))
    ensures Right(ops, n, answer, old(db.comp.launched) != 0)
  {
    hide Tracks, Written, Right, Proper, GhostDB.CanPut, GhostDB.Valid, GhostDB.Settled, GhostDB.HistorySafe;
    hide GhostDB.Content;
    ghost var compacted := db.comp.launched != 0;
    WrittenStep(ops, n);
    if Writes(ops[n]) {
      WriteStep(db, ops, n);
      answer := Nothing;
      WriteRight(ops, n, compacted);
    } else {
      answer := ReadStep(db, ops, n);
    }
  }

  // launches[i] compactions had taken place when operation i began.
  ghost predicate Launches(launches: seq<nat>, ops: seq<Op>, n: nat) {
    && n <= |ops| && |launches| == n + 1 && launches[0] == 0
    && forall i :: 0 <= i < n ==>
         && launches[i] <= launches[i + 1] <= launches[i] + 1
         && (!Writes(ops[i]) ==> launches[i + 1] == launches[i])
  }

  // n operations have been done, and everything about them is as it should be.
  ghost predicate DoneWell(db: GhostDB, ops: seq<Op>, answers: seq<Answer>, at: seq<nat>, launches: seq<nat>)
    reads db.Repr(), db.buffer.log
  {
    var n := |answers|;
    && n <= |ops| && db.Valid() && db.Settled() && Started(db, ops[..n])
    && Tracks(db.Content(), ops[..n], db.comp.launched != 0)
    && Timeline(db.cfg, db.disk.history, at, ops, n)
    && Lags(db.cfg, db.disk.files, ops[..n], db.buffer.log.logBufferSize)
    && Launches(launches, ops, n) && launches[n] == db.comp.launched
    && forall i :: 0 <= i < n ==> Right(ops, i, answers[i], launches[i] != 0)
  }

  lemma FilesAreLast(db: GhostDB)
    requires db.Valid()
    ensures db.disk.files == LastImage(db.disk.history)
  {}

  lemma NowBehind(db: GhostDB, done: seq<Op>)
    requires db.Valid() && Lags(db.cfg, db.disk.files, done, db.buffer.log.logBufferSize)
    ensures Behind(db.cfg, LastImage(db.disk.history), done)
    ensures db.buffer.log.logBufferSize == 0 ==> Survives(db.cfg, LastImage(db.disk.history), done)
  {
    hide Lags, StoreOk, ImageOk, Survives;
    if db.buffer.log.logBufferSize == 0 { NoLag(db.cfg, db.disk.files, done); }
  }

  // What the disk steps of operation n add to the record.
  lemma Recorded(db: GhostDB, images: seq<Files>, content: map<Key, Val>, at: seq<nat>, more: seq<nat>,
                 ops: seq<Op>, n: nat, unsaved: nat)
    requires n < |ops| && more == at + [|db.disk.history|]
    requires db.buffer.log.logBufferSize == Unsaved(ops[n], |db.disk.history| > |images|, unsaved)
    requires ops[n].FlushTimeOut? ==> db.buffer.log.logBufferSize == 0
    requires Timeline(db.cfg, images, at, ops, n) && Lags(db.cfg, LastImage(images), ops[..n], unsaved)
    requires Refines(content, ops[..n]) && db.Valid() && db.HistorySafe(images, content)
    ensures Timeline(db.cfg, db.disk.history, more, ops, n + 1)
    ensures Lags(db.cfg, db.disk.files, ops[..n + 1], db.buffer.log.logBufferSize)
  {
    hide Timeline, Lags, Refines, Unsaved, GhostDB.Valid, GhostDB.HistorySafe, Window, Survives, Behind, LastImage;
    LagsStep(db, images, content, ops, n, unsaved);
    NewWindow(db, images, content, ops[..n]);
    NowBehind(db, ops[..n + 1]);
    TimelineStep(db.cfg, images, db.disk.history, at, ops, n);
  }

  lemma TracksRefines(content: map<Key, Val>, ops: seq<Op>, compacted: bool)
    requires Tracks(content, ops, compacted)
    ensures Refines(content, ops)
  {}

  method Advance(db: GhostDB, ops: seq<Op>, answers: seq<Answer>, ghost at: seq<nat>, ghost launches: seq<nat>)
    returns (answer: Answer, ghost at': seq<nat>, ghost launches': seq<nat>)
    requires DoneWell(db, ops, answers, at, launches) && Proper(ops) && |answers| < |ops|
    requires Writes(ops[|answers|]) ==> db.CanPut(ops[|answers|].key)
    modifies db.disk, db.comp, db.buffer, db.buffer.log, db.buffer.log.Buffers(), db.mgr.AllRuns()
    ensures db.buffer.log.Buffers() == old(db.buffer.log.Buffers())
    ensures DoneWell(db, ops, answers + [answer], at', launches')
  {
    hide Page.TableOf, Page.PageOk, StoreOk, Overlay, AsMap, Replay, LogRecords, Tracks, Model, Written, Recoverable;
    hide Proper, Survives, Right, ImageOk, Lags, Unsaved, Timeline, GhostDB.CanPut, GhostDB.Content, Window, Refines;
    hide GhostDB.Valid, GhostDB.HistorySafe, GhostDB.Settled;
    var n := |answers|;
    ghost var content, history := db.Content(), db.disk.history;
    ghost var unsaved := db.buffer.log.logBufferSize;
    TracksRefines(content, ops[..n], db.comp.launched != 0);
    FilesAreLast(db);
    answer := Step(db, ops, n);
    at', launches' := at + [|db.disk.history|], launches + [db.comp.launched];
    Recorded(db, history, content, at, at', ops, n, unsaved);
  }

  lemma TooManyKeys(db: GhostDB, ops: seq<Op>, n: nat)
    requires n < |ops| && db.Valid() && db.Settled() && Refines(db.Content(), ops[..n])
    requires Writes(ops[n]) && !db.CanPut(ops[n].key)
    ensures |Written(ops)| > db.cfg.Capacity()
  {
    hide Page.TableOf, Page.PageOk, StoreOk, Overlay, AsMap, Refines, Written, Contents.Content, ImageOk, Replay;
    hide FreshKey, GhostDB.SpillFits, GhostDB.CloseFits;
    db.SettledFresh(ops[n].key);
    if |Written(ops)| <= db.cfg.Capacity() {
      Room(db.cfg, db.Content(), ops, n);
      db.RoomMeansFits();
    }
  }

  // A new store, and the empty files under it, are the empty map.
  lemma Begin(db: GhostDB, ops: seq<Op>)
    requires db.Valid() && db.Content() == map[] && db.disk.history == [] && db.buffer.log.logBufferSize == 0
    ensures Tracks(map[], ops[..0], false) && Written(ops[..0]) == {}
    ensures Lags(db.cfg, db.disk.files, ops[..0], 0)
    ensures Timeline(db.cfg, [], [0], ops, 0)
  {
    hide Page.TableOf, Page.PageOk, StoreOk, Overlay, AsMap, RecoverAll;
    db.CrashNow();
    assert db.buffer.log.Pending() == [];
    assert RecoverAll(db.cfg, db.disk.files) == map[];
    assert Survives(db.cfg, db.disk.files, ops[..0]);
    assert LagsFrom(db.cfg, db.disk.files, ops[..0], 0, 0);
    assert Lags(db.cfg, LastImage([]), ops[..0], 0);
  }

  ghost predicate AllFind(ops: seq<Op>, answers: seq<Answer>) {
    && |answers| <= |ops|
    && forall i :: 0 <= i < |answers| && ops[i].GetOp? && ops[i].key != TOMBSTONE ==> Finds(ops, i, answers[i])
  }

  lemma Answered(ops: seq<Op>, answers: seq<Answer>, launches: seq<nat>)
    requires |answers| <= |ops| && |launches| == |answers| + 1
    requires forall i :: 0 <= i < |answers| ==> Right(ops, i, answers[i], launches[i] != 0)
    ensures AllFind(ops, answers)
  {
    hide Right, Finds;
    forall i | 0 <= i < |answers| && ops[i].GetOp? && ops[i].key != TOMBSTONE ensures Finds(ops, i, answers[i]) {
      assert Right(ops, i, answers[i], launches[i] != 0);
      RightFinds(ops, i, answers[i], launches[i] != 0);
    }
  }

  // For every sequence of puts, deletions, lookups, range queries and
  // time-outs on a new store, across any number of memtable overflows and
  // compactions, up to the first put that would overrun a page: every answer is
  // the one a finite map gives; every image the disk goes through during
  // operation i is the map after the operations before i; and the image that
  // operation i found is the map before the last few of those, fewer than the
  // log's buffer holds. Nothing overruns as long as all keys fit one page.
  method Execute(cfg: Config, hs: Bloom.Hashes, ops: seq<Op>)
    returns (db: GhostDB, answers: seq<Answer>, ghost at: seq<nat>, ghost launches: seq<nat>)
    requires cfg.Valid() && Proper(ops)
    ensures db.cfg == cfg && DoneWell(db, ops, answers, at, launches)
    ensures AllFind(ops, answers)
    ensures |answers| < |ops| ==> Writes(ops[|answers|]) && !db.CanPut(ops[|answers|].key)
    ensures |Written(ops)| <= cfg.Capacity() ==> |answers| == |ops|
  {
    hide Page.TableOf, Page.PageOk, StoreOk, Overlay, AsMap, Replay, LogRecords, Refines, Model, Written, Recoverable;
    hide Contents.Content, Proper, Survives, Right, AgreesAt, ImageOk, Lags, Timeline, Tracks;
    hide GhostDB.CanPut, AllFind;
    db := new GhostDB(cfg, hs);
    answers, at, launches := [], [0], [0];
    Begin(db, ops);
    while |answers| < |ops|
      invariant |answers| <= |ops| && db.cfg == cfg && DoneWell(db, ops, answers, at, launches)
      invariant fresh(db.disk) && fresh(db.comp) && fresh(db.buffer) && fresh(db.buffer.log)
      invariant fresh(db.buffer.log.Buffers()) && fresh(db.mgr.AllRuns())
    {
      if Writes(ops[|answers|]) {
        var ok := Allows(db, ops[|answers|].key);
        if !ok {
          TracksRefines(db.Content(), ops[..|answers|], db.comp.launched != 0);
          TooManyKeys(db, ops, |answers|);
          Answered(ops, answers, launches);
          return;
        }
      }
      var answer;
      answer, at, launches := Advance(db, ops, answers, at, launches);
      answers := answers + [answer];
    }
    Answered(ops, answers, launches);
  }

  // After an orderly shutdown the tables alone hold the map, with the memtable
  // dumped and all runs merged into the first.
  method Shutdown(db: GhostDB, ghost ops: seq<Op>)
    requires db.Valid() && Refines(db.Content(), ops) && db.CloseFits()
    modifies db.disk, db.comp, db.buffer.log, db.mgr.AllRuns()
    ensures db.disk.files.logPos == 0 && Agrees(Overlay(Slots(db.cfg, db.disk.files)), ops)
    ensures Slots(db.cfg, db.disk.files) == Merged(old(Spilled(db.cfg, db.mgr.View(), db.buffer.kv)))
  {
    hide Page.TableOf, Page.PageOk, StoreOk, Overlay, AsMap, Replay, LogRecords, Recoverable, Agrees;
    hide Contents.Content, ImageOk, GhostDB.CloseFits;
    ghost var content := db.Content();
    ghost var _ := db.Close();
    SameOrdinary(content, Overlay(db.mgr.View()), ops);
  }
}
