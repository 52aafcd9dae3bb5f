/**
 * What the bytes of the log say by themselves. The write cursor dies with the
 * process; a restart has one page of the log file (src/recovery_manager.cc)
 * and must find the end of the records in it.
 */
module LogBytes {
  import opened Common
  import Tables
  import Ranges
  import opened Bytes
  import opened Disk
  import opened Store
  import Wal
  import Memtable

  const NIL := Pair(0, 0)

  // The first page of the log, zeros where the file is shorter.
  function FirstPage(pageSize: nat, log: seq<Byte>): seq<Byte> {
    if |log| < pageSize then log + Zeros(pageSize - |log|) else log[..pageSize]
  }

  // Records up to the zeros that end the page.
  function Strip(t: Table): Table {
    if t != [] && t[|t| - 1] == NIL then Strip(t[..|t| - 1]) else t
  }

  lemma ZeroRecord()
    ensures EncodeRecord(NIL) == Zeros(RECORD_SIZE)
  {
    assert ToBytes(0, 4) == [0] + ToBytes(0, 3);
    assert ToBytes(0, 3) == [0] + ToBytes(0, 2);
    assert ToBytes(0, 2) == [0] + ToBytes(0, 1);
    assert ToBytes(0, 1) == [0] + ToBytes(0, 0);
  }

  lemma {:induction false} DecodeZeros(n: nat)
    ensures DecodeAll(Zeros(n)) == seq(n / RECORD_SIZE, _ => NIL)
  {
    if n >= RECORD_SIZE {
      DecodeZeros(n - RECORD_SIZE);
      assert Zeros(n)[RECORD_SIZE..] == Zeros(n - RECORD_SIZE);
      assert Zeros(n)[..RECORD_SIZE] == EncodeRecord(NIL) by { ZeroRecord(); }
      RecordRoundTrip(NIL);
    }
  }

  lemma {:induction false} StripPadding(t: Table, n: nat)
    ensures Strip(t + seq(n, _ => NIL)) == Strip(t)
  {
    var padded := t + seq(n, _ => NIL);
    if n == 0 {
      assert padded == t;
    } else {
      StripPadding(t, n - 1);
      assert padded[..|padded| - 1] == t + seq(n - 1, _ => NIL);
    }
  }

  lemma {:induction false} StripShort(t: Table)
    ensures |Strip(t)| <= |t| && (Strip(t) == [] || Strip(t)[|Strip(t)| - 1] != NIL)
  {
    if t != [] && t[|t| - 1] == NIL { StripShort(t[..|t| - 1]); }
  }

  // A log of at most one page is its records followed by zeros.
  lemma PageSpells(pageSize: nat, image: Files)
    requires ImageOk(pageSize, image) && image.logPos <= pageSize
    ensures DecodeAll(FirstPage(pageSize, image.log)) ==
            LogRecords(image) + seq((pageSize - image.logPos) / RECORD_SIZE, _ => NIL)
  {
    hide DecodeAll;
    var records, rest := image.log[..image.logPos], Zeros(pageSize - image.logPos);
    assert FirstPage(pageSize, image.log) == records + rest;
    DecodeConcat(records, rest);
    DecodeZeros(pageSize - image.logPos);
  }

  // The logged records fit the first page, and the last is not itself all zeros.
  ghost predicate Tells(pageSize: nat, image: Files)
    requires image.logPos <= |image.log|
  {
    var records := LogRecords(image);
    |records| <= pageSize / RECORD_SIZE && (records == [] || records[|records| - 1] != NIL)
  }

  // Exactly when stripping the zeros off the first page gives the logged records.
  lemma BytesSufficeIff(pageSize: nat, image: Files)
    requires ImageOk(pageSize, image)
    ensures Strip(DecodeAll(FirstPage(pageSize, image.log))) == LogRecords(image) <==> Tells(pageSize, image)
  {
    hide DecodeAll;
    StripShort(DecodeAll(FirstPage(pageSize, image.log)));
    if image.logPos <= pageSize {
      PageSpells(pageSize, image);
      StripPadding(LogRecords(image), (pageSize - image.logPos) / RECORD_SIZE);
    }
  }

  lemma {:induction false} ZeroNat(bs: seq<Byte>)
    requires FromBytes(bs) == 0
    ensures bs == Zeros(|bs|)
  {
    if bs != [] {
      ZeroNat(bs[1..]);
      assert bs == [bs[0]] + bs[1..];
    }
  }

  lemma ZeroBytes(bs: seq<Byte>)
    requires |bs| == 4 && BytesToInt32(bs) == 0
    ensures bs == Zeros(4)
  {
    FromBytesBound(bs);
    Pow256Four();
    ZeroNat(bs);
  }

  lemma LastIsZeros(image: Files)
    requires image.logPos <= |image.log| && image.logPos % RECORD_SIZE == 0
    requires var records := LogRecords(image); records != [] && records[|records| - 1] == NIL
    ensures forall i :: image.logPos - RECORD_SIZE <= i < image.logPos ==> image.log[i] == 0
  {
    hide DecodeAll, BytesToInt32;
    var cursor := image.logPos - RECORD_SIZE;
    var middle := cursor + KEY_SIZE;
    DecodeNext(image.log, 0, cursor);
    assert image.log[..image.logPos] == image.log[0..image.logPos];
    ZeroBytes(image.log[cursor..middle]);
    ZeroBytes(image.log[middle..image.logPos]);
    forall i | cursor <= i < image.logPos ensures image.log[i] == 0 {
      if i < middle {
        assert image.log[i] == image.log[cursor..middle][i - cursor];
      } else {
        assert image.log[i] == image.log[middle..image.logPos][i - middle];
      }
    }
  }

  // Where that fails no other reading does better: another log with the same
  // first page holds other records.
  lemma Ambiguous(pageSize: nat, image: Files) returns (other: Files)
    requires ImageOk(pageSize, image) && !Tells(pageSize, image)
    ensures ImageOk(pageSize, other) && FirstPage(pageSize, other.log) == FirstPage(pageSize, image.log)
    ensures LogRecords(other) != LogRecords(image)
  {
    hide DecodeAll;
    var records := LogRecords(image);
    if |records| > pageSize / RECORD_SIZE {
      // the same log, one record longer
      other := image.(log := image.log[..image.logPos] + EncodeRecord(NIL), logPos := image.logPos + RECORD_SIZE);
      assert image.logPos > pageSize;
    } else {
      // the same bytes, with the cursor before the last record
      var cursor := image.logPos - RECORD_SIZE;
      other := image.(logPos := cursor);
      LastIsZeros(image);
      assert image.log[..image.logPos] == image.log[..cursor] + image.log[cursor..image.logPos];
    }
    assert |LogRecords(other)| != |records|;
  }

  lemma OneKeyOnly(t: Table, key: Key)
    requires Tables.Sorted(t) && Tables.AsMap(t).Keys <= {key}
    ensures |t| <= 1
  {
    hide Tables.AsMap;
    if |t| >= 2 {
      Tables.AsMapAt(t, 0);
      Tables.AsMapAt(t, 1);
      assert false;
    }
  }

  lemma NoRecords(files: Files)
    requires files.logPos == 0
    ensures LogRecords(files) == []
  {}

  // The log does not always fit its page: overwriting one key keeps the
  // memtable at one entry and lets the log grow to any length.
  method OverwriteOneKey(pageSize: nat, logBufferSize: nat, m: nat) returns (buffer: Memtable.Buffer)
    requires RECORD_SIZE < logBufferSize
    ensures buffer.Valid() && |buffer.kv| <= 1 && |buffer.log.Logged()| == m
  {
    hide ImageOk, DecodeAll, Replay, LogRecords, Tables.AsMap, Tables.Sorted;
    var disk := new DiskManager(pageSize);
    NoRecords(disk.files);
    var log := new Wal.LogManager(logBufferSize, disk);
    buffer := new Memtable.Buffer(2, log);
    Ranges.EmptyMap(map[]);
    for i := 0 to m
      invariant fresh(disk) && fresh(log) && fresh(buffer) && fresh(log.Buffers())
      invariant buffer.log == log && log.disk == disk && buffer.bufferSize == 2
      invariant buffer.Valid() && |buffer.log.Logged() + buffer.log.Pending()| == i
      invariant Tables.AsMap(buffer.kv).Keys <= {1}
    {
      OneKeyOnly(buffer.kv, 1);
      var _ := buffer.Put(1, 1);
    }
    OneKeyOnly(buffer.kv, 1);
    buffer.FlushWAL();
  }
}
