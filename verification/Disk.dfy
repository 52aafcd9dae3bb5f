/**
 * The three files of the store (src/disk_manager.cc): SSTable pages, one
 * temporary page, and the log with its write cursor. A write is one atomic
 * disk step; `history` records the files after every step, so that crash
 * consistency can be stated about each of them.
 */
module Disk {
  import opened Common
  import Bytes

  // pages: sstable.db, where a page never written reads as zeros;
  // temp: sstable.temp, empty or one page; log: memtable.log.
  datatype Files = Files(pages: map<nat, seq<Byte>>, temp: seq<Byte>, log: seq<Byte>, logPos: nat)

  function PageAt(pageSize: nat, files: Files, id: nat): seq<Byte> {
    if id in files.pages then files.pages[id] else Bytes.Zeros(pageSize)
  }

  function TempPage(pageSize: nat, files: Files): seq<Byte> {
    if files.temp == [] then Bytes.Zeros(pageSize) else files.temp
  }

  // Bytes written at a position replace what is there and extend the file.
  function WriteAt(file: seq<Byte>, pos: nat, data: seq<Byte>): (r: seq<Byte>)
    requires pos <= |file|
    ensures |r| == (if pos + |data| < |file| then |file| else pos + |data|)
    ensures r[..pos + |data|] == file[..pos] + data
    ensures forall i :: pos + |data| <= i < |file| ==> r[i] == file[i]
  {
    file[..pos] + data + if pos + |data| < |file| then file[pos + |data|..] else []
  }

  // The log up to its cursor is whole records, and what follows within the
  // first page is zeros: a clear zeroes that page, and writes move forward.
  ghost predicate ImageOk(pageSize: nat, image: Files) {
    && image.logPos <= |image.log|
    && image.logPos % RECORD_SIZE == 0
    && forall i :: image.logPos <= i < |image.log| && i < pageSize ==> image.log[i] == 0
  }

  // The files after the last recorded disk step; new files are empty.
  ghost function LastImage(history: seq<Files>): Files {
    if history == [] then Files(map[], [], [], 0) else history[|history| - 1]
  }

  class DiskManager {
    const pageSize: nat
    var files: Files
    ghost var history: seq<Files>

    ghost predicate Valid()
      reads this
    {
      && files == LastImage(history)
      && ImageOk(pageSize, files) && forall k :: 0 <= k < |history| ==> ImageOk(pageSize, history[k])
    }

    // Every file is truncated when the store opens.
    constructor (pageSize: nat)
      ensures this.pageSize == pageSize
      ensures files == Files(map[], [], [], 0) && history == []
      ensures Valid()
    {
      this.pageSize := pageSize;
      files := Files(map[], [], [], 0);
      history := [];
    }

    lemma WriteKeepsTail(log: seq<Byte>, pos: nat, data: seq<Byte>)
      requires pos <= |log|
      ensures forall i :: pos + |data| <= i < |WriteAt(log, pos, data)| ==>
                i < |log| && WriteAt(log, pos, data)[i] == log[i]
    {
      var end := pos + |data|;
      if end < |log| {
        assert WriteAt(log, pos, data) == (log[..pos] + data) + log[end..];
        assert forall i :: end <= i < |log| ==> log[end..][i - end] == log[i];
      } else {
        assert WriteAt(log, pos, data) == log[..pos] + data;
      }
    }

    method WriteLog(logData: seq<Byte>, isDelete: bool)
      requires Valid()
      modifies this
      ensures (if isDelete then logData == Bytes.Zeros(pageSize) else |logData| % RECORD_SIZE == 0) ==> Valid()
      ensures files.logPos <= |files.log|
      ensures logData == [] ==> files == old(files) && history == old(history)
      ensures logData != [] ==> history == old(history) + [files]
      ensures files.pages == old(files.pages) && files.temp == old(files.temp)
      ensures logData != [] && isDelete ==> files.logPos == 0 && files.log == WriteAt(old(files.log), 0, logData)
      ensures !isDelete ==>
                && files.logPos == old(files.logPos) + |logData|
                && files.log == WriteAt(old(files.log), old(files.logPos), logData)
                && files.log[..files.logPos] == old(files.log[..files.logPos]) + logData
    {
      if |logData| == 0 {
        return;
      }
      var pos := files.logPos;
      if isDelete {
        pos := 0;
      }
      var log := WriteAt(files.log, pos, logData);
      pos := pos + |logData|;
      if isDelete {
        pos := 0;
      }
      ghost var before := files;
      files := files.(log := log, logPos := pos);
      history := history + [files];
      if !isDelete && |logData| % RECORD_SIZE == 0 { WriteKeepsTail(before.log, before.logPos, logData); }
    }

    // WriteDb without a page id: the temporary file.
    method WriteTempDb(dbData: seq<Byte>)
      requires |dbData| == pageSize && pageSize != 0
      modifies this
      ensures files == old(files).(temp := dbData)
      ensures old(Valid()) ==> Valid()
      ensures history == old(history) + [files]
    {
      files := files.(temp := dbData);
      history := history + [files];
    }

    method WriteDb(dbData: seq<Byte>, pageId: nat)
      requires |dbData| == pageSize
      modifies this
      ensures files == old(files).(pages := old(files.pages)[pageId := dbData])
      ensures old(Valid()) ==> Valid()
      ensures history == old(history) + [files]
    {
      files := files.(pages := files.pages[pageId := dbData]);
      history := history + [files];
    }

    method ReadDb(pageId: nat) returns (page: seq<Byte>)
      ensures page == PageAt(pageSize, files, pageId)
    {
      if pageId in files.pages {
        page := files.pages[pageId];
      } else {
        page := Bytes.Zeros(pageSize);
      }
    }
  }
}
