/**
 * The write-ahead log as its one client sees it (src/log_manager.cc): two
 * byte buffers, swapped and written out by the flush thread. A wait on a
 * condition variable is a turn of that thread; module WalProtocol shows this
 * for any number of clients and any interleaving.
 */
module Wal {
  import opened Common
  import opened Bytes
  import opened Disk
  import Store

  class LogManager {
    const bufferSize: nat  // LOG_BUFFER_SIZE
    const disk: DiskManager
    var requestFlush: bool
    var logBufferSize: nat
    var flushBufferSize: nat
    var logBuffer: array<Byte>
    var flushBuffer: array<Byte>

    // What holds whenever the latch is free: the flush buffer is empty, and the
    // append buffer holds whole records and is never full to the last byte.
    ghost predicate Ready()
      reads this, disk
    {
      && disk.Valid()
      && RECORD_SIZE < bufferSize
      && logBuffer != flushBuffer
      && logBuffer.Length == flushBuffer.Length == bufferSize
      && logBufferSize < bufferSize && logBufferSize % RECORD_SIZE == 0
      && flushBufferSize == 0
      && disk.files.logPos % RECORD_SIZE == 0
    }

    ghost predicate Valid()
      reads this, disk
    {
      Ready() && !requestFlush
    }

    ghost function Buffers(): set<object>
      reads this
    {
      {logBuffer, flushBuffer}
    }

    // The records appended but not yet on disk.
    ghost function Pending(): Table
      requires Ready()
      reads this, disk, logBuffer
    {
      DecodeAll(logBuffer[..logBufferSize])
    }

    ghost function Logged(): Table
      requires disk.Valid()
      reads disk
    {
      Store.LogRecords(disk.files)
    }

    constructor (bufferSize: nat, disk: DiskManager)
      requires RECORD_SIZE < bufferSize && disk.Valid() && disk.files.logPos == 0
      ensures Valid() && Pending() == [] && Logged() == [] && logBufferSize == 0
      ensures this.disk == disk && this.bufferSize == bufferSize
      ensures fresh(Buffers())
    {
      this.bufferSize, this.disk := bufferSize, disk;
      requestFlush, logBufferSize, flushBufferSize := false, 0, 0;
      logBuffer := new Byte[bufferSize](i => 0);
      flushBuffer := new Byte[bufferSize](i => 0);
    }

    // The body of the flush thread once it holds the latch.
    method FlushTurn()
      requires Ready()
      modifies this, disk
      ensures Valid() && Buffers() == old(Buffers())
      ensures logBufferSize == 0 && Pending() == []
      ensures Logged() == old(Logged()) + old(Pending())
      ensures disk.files == old(disk.files).(log := disk.files.log, logPos := disk.files.logPos)
      ensures disk.history == old(disk.history) + if old(logBufferSize) > 0 then [disk.files] else []
    {
      assert flushBufferSize == 0;
      if logBufferSize > 0 {
        logBufferSize, flushBufferSize := flushBufferSize, logBufferSize;
        logBuffer, flushBuffer := flushBuffer, logBuffer;
        ghost var before := disk.files;
        disk.WriteLog(flushBuffer[..flushBufferSize], false);
        DecodeConcat(before.log[..before.logPos], flushBuffer[..flushBufferSize]);
        flushBufferSize := 0;
      }
      requestFlush := false;
    }

    method Flush()
      requires Valid()
      modifies this, disk
      ensures Valid() && Buffers() == old(Buffers())
      ensures Pending() == [] && logBufferSize == 0
      ensures Logged() == old(Logged()) + old(Pending())
      ensures disk.files == old(disk.files).(log := disk.files.log, logPos := disk.files.logPos)
      ensures disk.history == old(disk.history) + if old(logBufferSize) > 0 then [disk.files] else []
    {
      requestFlush := true;
      FlushTurn();
    }

    // The two memmoves.
    method CopyRecord(key: Key, val: Val)
      requires logBufferSize + RECORD_SIZE <= logBuffer.Length
      modifies this`logBufferSize, logBuffer
      ensures logBufferSize == old(logBufferSize) + RECORD_SIZE
      ensures logBuffer[..logBufferSize] == old(logBuffer[..logBufferSize]) + EncodeRecord(Pair(key, val))
    {
      hide Int32ToBytes;
      MemMove(logBuffer, logBufferSize, Int32ToBytes(key));
      logBufferSize := logBufferSize + KEY_SIZE;
      MemMove(logBuffer, logBufferSize, Int32ToBytes(val));
      logBufferSize := logBufferSize + KEY_SIZE;
    }

    method AppendLogRecord(key: Key, val: Val)
      requires Valid()
      modifies this, disk, logBuffer, flushBuffer
      ensures Valid() && Buffers() == old(Buffers())
      ensures Logged() + Pending() == old(Logged() + Pending()) + [Pair(key, val)]
      ensures disk.files == old(disk.files).(log := disk.files.log, logPos := disk.files.logPos)
      ensures logBufferSize ==
              (if old(logBufferSize) + RECORD_SIZE >= bufferSize then 0 else old(logBufferSize)) + RECORD_SIZE
      ensures if old(logBufferSize) + RECORD_SIZE >= bufferSize then
                // the buffer was full: everything older is on disk, the new record is not
                && Logged() == old(Logged() + Pending()) && Pending() == [Pair(key, val)]
                && disk.history == old(disk.history) + [disk.files]
              else disk.files == old(disk.files) && disk.history == old(disk.history)
    {
      hide DecodeAll, EncodeRecord;
      if logBufferSize + RECORD_SIZE >= bufferSize {
        requestFlush := true;
        FlushTurn();
      }
      ghost var older, disk0 := logBuffer[..logBufferSize], disk.files;
      CopyRecord(key, val);
      assert disk.files == disk0;
      DecodeConcat(older, EncodeRecord(Pair(key, val)));
      DecodeOne(Pair(key, val));
    }
  }
}
