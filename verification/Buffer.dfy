/**
 * The bounded memtable and its log (src/buffer.cc).
 */
module Memtable {
  import opened Common
  import opened Tables
  import opened Ranges
  import Store
  import opened Wal

  class Buffer {
    const bufferSize: nat
    const log: LogManager
    var kv: Table

    ghost predicate Valid()
      reads this, log, log.disk, log.logBuffer
    {
      && log.Valid()
      && Sorted(kv)
      && |kv| <= bufferSize
      && AsMap(kv) == Store.Replay(log.Logged() + log.Pending())
    }

    constructor (bufferSize: nat, log: LogManager)
      requires log.Valid() && log.Logged() == [] && log.Pending() == []
      ensures Valid() && kv == []
      ensures this.bufferSize == bufferSize && this.log == log
    {
      this.bufferSize, this.log := bufferSize, log;
      kv := [];
    }

    // Fails, changing nothing, exactly when the buffer is full of other keys.
    method Put(key: Key, val: Val) returns (placed: bool)
      requires Valid()
      modifies this, log, log.disk, log.logBuffer, log.flushBuffer
      ensures Valid() && log.Buffers() == old(log.Buffers())
      ensures placed <==> |old(kv)| < bufferSize || key in AsMap(old(kv))
      ensures placed ==> AsMap(kv) == AsMap(old(kv))[key := val]
      ensures placed ==> log.Logged() + log.Pending() == old(log.Logged() + log.Pending()) + [Pair(key, val)]
      ensures placed ==>
                if old(log.logBufferSize) + RECORD_SIZE >= log.bufferSize then
                  && log.Logged() == old(log.Logged() + log.Pending()) && log.Pending() == [Pair(key, val)]
                  && log.disk.history == old(log.disk.history) + [log.disk.files]
                else log.disk.files == old(log.disk.files) && log.disk.history == old(log.disk.history)
      ensures placed ==>
                log.logBufferSize ==
                (if |log.disk.history| > |old(log.disk.history)| then 0 else old(log.logBufferSize)) + RECORD_SIZE
      ensures log.disk.files == old(log.disk.files).(log := log.disk.files.log, logPos := log.disk.files.logPos)
      ensures !placed ==>
                && kv == old(kv) && log.disk.files == old(log.disk.files)
                && log.disk.history == old(log.disk.history)
                && log.logBufferSize == old(log.logBufferSize) && log.Pending() == old(log.Pending())
    {
      LowerBoundFinds(kv, key);
      var p := LowerBound(kv, key);
      if |kv| == bufferSize && !(p < |kv| && kv[p].key == key) {
        return false;
      }
      InsertCorrect(kv, key, val);
      kv := Insert(kv, key, val);
      ghost var records := log.Logged() + log.Pending();
      log.AppendLogRecord(key, val);
      assert (records + [Pair(key, val)])[..|records|] == records;
      return true;
    }

    // found says the buffer knows the key; val is None when it was deleted.
    method Get(key: Key) returns (found: bool, val: Option<Val>)
      requires Sorted(kv)
      ensures found <==> key in AsMap(kv)
      ensures found ==> val == if AsMap(kv)[key] == TOMBSTONE then None else Some(AsMap(kv)[key])
    {
      LowerBoundFinds(kv, key);
      var p := LowerBound(kv, key);
      if p < |kv| && kv[p].key == key {
        return true, if kv[p].val == TOMBSTONE then None else Some(kv[p].val);
      }
      return false, None;
    }

    // Copies the entries in range over what the result already holds.
    method GetRange(key1: Key, key2: Key, res0: map<Key, Val>) returns (res: map<Key, Val>)
      requires Sorted(kv) && key1 <= key2 && kv != []
      ensures res == res0 + AsMap(RangeSlice(kv, key1, key2))
    {
      hide AsMap, LowerBound;
      EmptyMap(res0);
      res := res0;
      if kv[0].key > key2 || kv[|kv| - 1].key < key1 {
        return;
      }
      RangeBounds(kv, key1, key2);
      var it1, it2 := LowerBound(kv, key1), RangeEnd(kv, key2);
      assert kv[it1..it1] == [];
      for it := it1 to it2
        invariant res == res0 + AsMap(kv[it1..it])
      {
        SliceNext(kv, it1, it);
        res := res[kv[it].key := kv[it].val];
      }
    }

    method FlushWAL()
      requires Valid()
      modifies log, log.disk
      ensures Valid() && log.Buffers() == old(log.Buffers())
      ensures log.Pending() == [] && log.logBufferSize == 0
      ensures log.Logged() == old(log.Logged() + log.Pending())
      ensures log.disk.files == old(log.disk.files).(log := log.disk.files.log, logPos := log.disk.files.logPos)
      ensures log.disk.history == old(log.disk.history) + if old(log.logBufferSize) > 0 then [log.disk.files] else []
    {
      log.Flush();
      assert log.Logged() + [] == log.Logged();
    }

    method ClearKV()
      modifies this
      ensures kv == []
    {
      kv := [];
    }
  }
}
