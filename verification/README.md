# GhostDB storage engine in Dafny

GhostDB is a small log-structured merge store: a bounded memtable with a
write-ahead log, a triangular array of sorted runs (level `l` has
`(l + 1) * MAX_RUN_PER_LEVEL` of them, one page each), a compaction thread that
merges runs, and a flush thread that writes the log. This project models the
engine and proves what it is for. Level count (at least 2), runs per level (at
least 1), memtable size (at least 2), page size and log buffer size are
parameters throughout; nothing depends on the values the source ships with.

Main results:

- **The store is a map.** `Refinement.Execute`: for every sequence of Put,
  Delete, Get, GetRange and time-outs of the two background threads on a new
  store, across any number of memtable overflows and compactions, every answer
  is the one a finite map gives. A crash during an operation finds either an
  image that the operation wrote, which recovers to the map as it was before
  that operation, or the image that was there when it began, which recovers to
  the map as it was fewer writes ago than the log's buffer holds records. The
  run goes on until a put would overrun a page, which never happens while all
  keys fit one page. `Refinement.Shutdown` adds that after an orderly shutdown
  the tables alone hold the map, the memtable dumped and all runs merged into
  the first.
- **Nothing is lost at any disk step.** `Database.GhostDB.Put`,
  `Compaction.CompactionManager.LaunchCompactionImpl` and
  `Database.GhostDB.Close` are proved step by step: a ghost history in the disk
  records the files after every write, and each entry recovers the same content.
  Compaction relies on clearing runs oldest first below the temporary page, the
  memtable hand-off on flushing the log before dumping.
- **Put terminates** with at most one compaction and one nested call, for every
  key. The reason is not local: neighbouring dumps never hold the same set of
  keys (`Contents.Varied`), so the early return of compaction is never taken on
  a full store. `Contents.NoProgressIff` says exactly when it would be.
- **The three protocols** (log flusher, compaction handshake, reader/writer
  latch) are state machines over any number of threads with spurious wake-ups
  and time-outs as free steps; safety is proved for all schedules, with exact
  conditions where the code meets it only sometimes. The log protocol runs
  across any number of clears of the log, which take no latch and can fall
  anywhere. What a schedule must have done follows from its calls alone: every
  record passed to AppendLogRecord is appended once, each client's in the order
  of its calls (`WalProtocol.EveryRecordOnce`, `WalProtocol.RecordsConserved`);
  a thread gets the latch the way it asked for it, whatever waits come between
  (`RwLatch.GetsWhatItAskedFor`). As for liveness, every schedule of releases and wake-ups of the latch
  ends with nobody waiting, exactly under the condition of `RwLatch.DrainIff`;
  the flush thread and the compaction thread can each serve everybody who waits
  without anybody's help whenever their latch is free
  (`WalProtocol.AlwaysServes`, `CompactionProtocol.OneServesAll`).

How the modules fit: `Common`, `Layout`, `Bytes`, `Bloom`, `Tables`, `Ranges`
hold values and pure facts; `Page`, `Disk`, `Runs`, `SSTables`, `Compaction`,
`Wal`, `Memtable`, `Database` follow the source's classes, with methods that
update fields in place; `Store` reads the files back as slots in fill order
(slot 0 is the first run of the deepest level); `Contents` holds the invariant
of the whole store; `LogBytes` asks what the log says without its cursor;
`Refinement` states the end-to-end result; `WalProtocol`, `CompactionProtocol`
and `RwLatch` treat concurrency.

Three words used below: the *overlay* of some slots is the newest-wins union of
their tables, deletions included; the *content* of the store is the overlay of
all slots overridden by the memtable; the *ordinary* part of a map leaves out
the key TOMBSTONE, which a merge can forget.

## Findings

Where the code differs from its documentation or apparent intent, the model
follows the code:

- The merge tests the key, not the value, against TOMBSTOME
  (src/util.cc:172). Deletions therefore survive merging, which minor
  compaction needs; but a key equal to TOMBSTOME that both inputs hold is
  dropped. `Contents.CompactionExactIff` says exactly when a compaction leaves
  the content of the store as it was, `Contents.TombstoneVersion` which version
  of that key there is afterwards (its newest, an older one that comes back, or
  none), and `Contents.FullStoreForgets` gives a full store that loses it.
- GetRange promises an inclusive range, but both loops run one entry past
  lower_bound(key2). `Ranges.SliceIs` and `Ranges.RangeViewIs` say what is
  returned without the bounds tests and positions of the code: each source gives
  its entries in the range and, if it lacks key2 but holds something below it,
  its least key above key2. `Ranges.RangeExactIff` says exactly when a key above the
  range is returned, `Contents.RangeExtraCanBeStale` that it can carry an
  overwritten value, and `Ranges.RangeIsContentIff` when the answer is the
  content between the bounds and nothing else. Inside the range the answer is
  always the newest version, deletions shown as TOMBSTOME.
- The temporary page goes through run (MAX_LEVEL_NUM - 1, 0) and marks that run
  non-empty. `SSTables.SSTableManager.DumpTempSSTable` keeps flags and pages in
  agreement exactly when that run is occupied, which the layout invariant
  guarantees whenever there is something to compact.
- With MAX_READERS of at least 2 the latch can lose a wake-up exactly when
  there are MAX_READERS + 2 threads or more (`RwLatch.StuckIff`,
  `RwLatch.DrainIff`).
- Put clears the log without the log's latch (src/db.cc:60). No schedule of any
  number of clients loses, tears or reorders a record appended since the clear
  (`WalProtocol.NothingLost`), but a clear that comes before everything is in
  the file lets cleared records come back. That log and buffers hold nothing
  else than the records since the last clear is true of every schedule exactly
  when there is at most one client (`WalProtocol.NothingLostIff`); the same goes
  for the assertions at the end of StopFlushThread (`WalProtocol.StopIff`).
- src/recovery_manager.cc:46 takes the log to be within one page. Overwriting
  one key makes it grow without bound (`LogBytes.OverwriteOneKey`).
  `LogBytes.BytesSufficeIff` says when stripping the zeros off its first page
  gives the records; where it does not, another log has the same first page and
  other records (`LogBytes.Ambiguous`).
- A client waiting for room in the log can be left to the flush thread's
  time-out exactly when there is a second client (`WalProtocol.ForgottenIff`).
- The compaction request flags are not initialised by the constructor; a
  compaction nobody asked for can happen exactly when one starts out true
  (`CompactionProtocol.FlagsMustStartFalse`). They start false here.
- include/compaction_manager.h:15 says that a time-out triggers a major
  compaction; it never does (`CompactionProtocol.OnlyOnRequest`).
- include/level.h:13-20 describes the opposite fill order; the model follows
  src/sstable_manager.cc:43-55.

## Model

| member | source | states |
|---|---|---|
| Refinement.Execute | src/db.cc:49-141 | for any sequence of puts, deletions, lookups, range queries and background time-outs from an empty store, up to the first put that would overrun a page: every answer is the finite map's; in particular a lookup finds the value of the last put of its key, any value but the least of 32 bits, unless a deletion came after; a range query returns no key below the range, and one above it only if it was written and some key not above the range was too; an image written during operation i recovers to the map after the operations before i; the image found by operation i recovers to the map before the last few of those, fewer writes than the log's buffer holds; the image after a flush time-out lacks nothing; no put overruns while all keys fit one page |
| Refinement.ModelReads | include/config.h:36 | what the last write of a key leaves to be found: the value put, if it is above -0x80000000, and otherwise nothing |
| Refinement.Step | src/db.cc:49-141 | one operation keeps the refinement between the store's content and the map and the store's invariant, answers rightly, counts what it leaves in the log's buffer, and every disk step in it recovers to the content before it |
| Refinement.LagsStep | src/log_manager.cc:76-88 | the image on disk lags behind the operations by exactly the writes still in the log's buffer, whether an operation takes a disk step or not |
| Refinement.NoLag | src/log_manager.cc:44-57 | with nothing in the log's buffer, as after a time-out of the flush thread, a crash loses no operation |
| Refinement.Allows | src/run.cc:91-93 | decides whether a put would write a table that overruns its page |
| Refinement.RangeRight | src/db.cc:110-141 | between its bounds a range query returns the model, read through deletions; nothing below the lower bound; a key above the upper bound only if it was written and a key not above that bound was written too |
| Refinement.Shutdown | src/db.cc:148-155 | after an orderly shutdown the log is empty, the slots of the file are those before it with the memtable dumped (after a compaction if none was free) and all runs then merged into the first, and the tables read as the model |
| Refinement.ImageSurvives | src/db.cc:55-63 | an image that recovers the content on ordinary keys shows a reader the model map |
| Refinement.SurvivesFromBytes | src/recovery_manager.cc:46-81 | the same recovery from the bytes of the files without the log's cursor, when the logged records fit a page and the last is not all zeros |
| LogBytes.BytesSufficeIff | src/recovery_manager.cc:46-81 | stripping the zero records off the first page of the log gives the logged records iff they fit it and the last is not the pair of zeros |
| LogBytes.Ambiguous | src/recovery_manager.cc:46-81 | where that condition fails, another log has the same first page and other records, so that no reading of the page could do |
| LogBytes.PageSpells | src/disk_manager.cc:63-76 | a log of at most one page is its records followed by zeros, whatever was cleared and overwritten before |
| LogBytes.OverwriteOneKey | src/recovery_manager.cc:46 | any number of overwrites of one key leave one memtable entry and that many logged records |
| Database.GhostDB.constructor | src/db.cc:31-40 | a new store holds nothing and satisfies the whole invariant |
| Database.Open | src/db.cc:31-40 | the store with the source's own constants and hash functions starts empty and satisfies the invariant |
| Database.GhostDB.Put | src/db.cc:49-64 | succeeds and terminates whenever the tables it has to write fit their pages; the new content is stated exactly, the key TOMBSTONE included; exactly one compaction if the memtable is full of other keys and no slot is free, otherwise none; every disk step recovers everything put before |
| Database.GhostDB.SpillMemtable | src/db.cc:55-61 | flush, dump (compacting if needed), clear log, clear memtable: the content stays the same at the end and recoverable after each disk step |
| Database.GhostDB.FlushWAL | src/db.cc:56 | afterwards the log on disk alone replays to the memtable; content and recoverable content are unchanged (also the effect of the flush thread's time-out) |
| Database.GhostDB.CompactionTimeOut | src/compaction_manager.cc:44-59 | a time-out without a request changes nothing |
| Database.GhostDB.DumpMemtable | src/db.cc:57-59 | the retry loop ends after at most one minor compaction; the memtable becomes the newest run; below the memtable, every image still gives the same content |
| Database.GhostDB.ClearFlushed | src/db.cc:60-61 | clearing log and memtable after the dump loses no version and resurrects none |
| Database.GhostDB.Delete | src/db.cc:106-108 | the newest version of the key becomes a deletion, with the same crash safety as Put |
| Database.GhostDB.Get | src/db.cc:66-104 | returns the newest version across memtable and runs unless it is a deletion, and leaves the out-parameter alone on a miss |
| Database.GhostDB.SearchRun | src/db.cc:82-99 | filter test plus binary search finds a key exactly when the run's table holds it |
| Database.GhostDB.SearchRuns | src/db.cc:77-103 | top level down, right to left, is newest first: the result is the overlay's |
| Database.GhostDB.GetRange | src/db.cc:110-141 | the memtable's slice overwrites the result, the runs' slices only fill in, newest first |
| Database.GhostDB.CopyRun | src/db.cc:121-137 | copies exactly the slice of one run, never over what is there |
| Database.GhostDB.Close | src/db.cc:148-155 | leaves exactly the old slots with the memtable dumped and, if there is more than one key, all runs merged into the first; takes one compaction, and one more if the dump found no free slot; the log is empty and every version is in the tables; every disk image on the way recovers to the same content |
| Database.GhostDB.FinalCompaction | src/compaction_manager.cc:63-67 | stopping the compaction thread requests one major compaction, which runs to its end, crash-safe throughout |
| Database.GhostDB.CrashNow | src/db.cc:49-64 | between calls, what the files recover plus the unflushed records is exactly the content, and fewer than a log buffer of bytes are unflushed |
| Contents.DumpKeeps | src/sstable_manager.cc:58-67 | a dump into the first empty slot keeps the store invariant, becomes the newest run, and moves the content unchanged |
| Contents.CompactKeeps | src/compaction_manager.cc:103-151 | minor compaction of a full store keeps the invariant and every ordinary version, and leaves the slot after its target free |
| Contents.GroupBig | src/compaction_manager.cc:121-125 | on a full store the merged group has at least two keys, so the early return is not taken |
| Contents.NoProgressIff | src/compaction_manager.cc:121-125 | a group of runs with two keys or more merges to at most one key iff all hold the same two keys, one of them TOMBSTONE, and their number is even |
| Contents.PutKeeps | src/buffer.cc:29-37 | placing a pair in the memtable keeps the store invariant and updates the content at that key only |
| Contents.AllFits | src/run.cc:91-93 | if all keys of the store fit one page, so do the memtable, the group of minor compaction and the last merge at shutdown |
| Contents.TombstoneVersion | src/util.cc:172-174 | which version of the key TOMBSTONE the store holds before and after a compaction |
| Contents.CompactionExactIff | src/util.cc:172-174 | a compaction leaves the content as it was iff the memtable holds the key TOMBSTONE, or none or an odd number of the merged runs hold it, or a deeper run holds the same version |
| Contents.FullStoreForgets | src/util.cc:172-174 | a full two-level store of two-key runs whose next compaction forgets the newest version of the key TOMBSTONE |
| Compaction.CompactionManager.LaunchCompactionImpl | src/compaction_manager.cc:103-151 | the group collapses into one run at (start level, 0), or nothing happens when fewer than two keys would be left; occupied runs still come first; after every disk step the files, with the temporary page read just below the group, recover the same overlay |
| Compaction.CompactionManager.Gather | src/compaction_manager.cc:106-119 | the loop that stops at the first empty run merges exactly the occupied slots from there back to the group's start, which are all of them when occupied runs come first |
| Compaction.CompactionManager.ClearGroup | src/compaction_manager.cc:133-142 | clears exactly those slots, oldest first; every image on the way has some number of the oldest cleared |
| Compaction.CompactionManager.CompactionTurn | src/compaction_manager.cc:44-59 | major takes precedence and discharges minor; nothing is compacted without a request |
| Compaction.CompactionManager.RequestMinorCompaction | src/compaction_manager.cc:69-74 | returns after one compaction from level 1 |
| Compaction.CompactionManager.RequestMajorCompaction | src/compaction_manager.cc:76-81 | returns after one compaction from the deepest level |
| Compaction.RecoverCleared | src/compaction_manager.cc:127-142 | with the temporary page in place, any number of the group's oldest runs may be gone |
| Compaction.RecoverCompacted | src/compaction_manager.cc:144-150 | with the target written, the temporary page may be there or not |
| SSTables.SSTableManager.constructor | src/sstable_manager.cc:26-32 | every run's flag agrees with its page, and every page is clear or a sorted table with its own page id and filter: the coherence every other operation keeps |
| SSTables.SSTableManager.GetAvaiRun | src/sstable_manager.cc:43-55 | finds the first empty slot in fill order, or reports that there is none |
| SSTables.SSTableManager.DumpSSTable | src/sstable_manager.cc:58-67 | puts the table into the first empty slot and changes no other; fails, changing nothing, iff no slot is empty |
| SSTables.SSTableManager.DumpAt | src/sstable_manager.cc:69-71 | sets that slot to the table and changes no other |
| SSTables.SSTableManager.DumpTempSSTable | src/sstable_manager.cc:75-77 | the temporary page holds the table, stamped as run (L-1, 0); no slot changes; flags still agree iff slot 0 was occupied |
| SSTables.SSTableManager.ClearSSTable | src/sstable_manager.cc:88-90 | empties that slot and changes no other |
| SSTables.SSTableManager.LoadSSTable | src/level.cc:72-78 | an occupied slot yields its sorted table and that table's filter; an empty one leaves the out-parameters alone |
| Store.WriteSlot | src/disk_manager.cc:88-96 | writing one run's page changes that run's slot and no other |
| Runs.Level.GetAvaiRun | src/level.cc:41-48 | the leftmost empty run, or -1 iff all are occupied |
| Runs.Run.DumpSSTable | src/run.cc:59-103 | writes the page of the table, with a fresh filter of its keys, to the run's own page or the temporary file, in one step |
| Runs.Run.constructor | src/run.cc:36-46 | a run starts empty iff its page is all zero |
| Page.PageRoundTrip | src/sstable_page.cc:25-68 | parsing a dumped page gives back the pairs, the count, the page id and the filter; a dumped page is never all zero |
| Page.PageLayout | include/page.h:13-17 | where each field of a dumped page lies, byte by byte, the magic number included |
| Page.SSTablePage.ParsePageData | src/sstable_page.cc:25-68 | reports an all-zero page as such, otherwise reads every field and the run number behind the page id |
| Bytes.MemtableToString | src/util.cc:45-56 | the loop writes the records in order, key then value |
| Bytes.EncodeRoundTrip | src/util.cc:45-56 | decoding the written bytes gives back the table |
| Bytes.Int32RoundTrip | src/sstable_page.cc:38-44 | a 32-bit integer survives memmove to bytes and back, sign included |
| Bytes.Int32Layout | src/util.cc:45-56 | the four bytes of an integer, lowest first, in two's complement |
| Bytes.IsPageAllZero | src/util.cc:72-79 | true iff every byte is zero |
| Bloom.NoFalseNegative | src/bloom.cc:19-29 | a table's filter passes every key of the table, whatever the hash functions |
| Bloom.PassesIff | src/bloom.cc:19-29 | a table's filter passes a key iff each of the key's three bits is a bit of some key of the table |
| Bloom.BitWeight | src/bloom.cc:35-37 | bit i of the filter has weight 2^i in its integer |
| Bloom.FilterRoundTrip | src/run.cc:86-88 | a filter survives conversion to 64 bits, to bytes and back |
| Bloom.Hash1 | src/bloom.cc:43-52 | computes on 64-bit words and yields a bit index of the filter for every key; the contract says no more |
| Bloom.Hash2 | src/bloom.cc:54-63 | computes on 64-bit words and yields a bit index of the filter for every key; the contract says no more |
| Bloom.Hash3 | src/bloom.cc:65-73 | computes on 64-bit words and yields a bit index of the filter for every key; the contract says no more |
| Bloom.BloomFilter.SetKey | src/bloom.cc:19-23 | the key passes from now on, and no key that passed stops passing |
| Bloom.BloomFilter.ToInt | src/bloom.cc:35-37 | a 64-bit integer from which the same filter is rebuilt |
| Layout.PageIdInRange | src/util.cc:131-133 | page ids of valid runs lie below the number of non-overflow pages |
| Layout.PageIdInjective | src/util.cc:131-133 | two runs never share a page |
| Layout.PageIdOrder | src/util.cc:131-133 | pages are numbered from the top level down, each level from the left |
| Layout.PageIdSurjective | src/util.cc:131-133 | every page id belongs to a run |
| Layout.GetLevelRunNo | src/util.cc:136-149 | the search loop inverts the page id, and fails only outside the range |
| Layout.SlotNoOrder | src/sstable_manager.cc:43-55 | slot numbers list the runs in fill order without ties |
| Tables.MergeSSTable | src/util.cc:151-180 | the loop computes the recursive merge |
| Tables.MergeCorrect | src/util.cc:151-180 | the merge of sorted tables is sorted, and is the old table overridden by the new, deletions kept, less a TOMBSTONE key both hold |
| Tables.FoldOverlay | src/compaction_manager.cc:107-119 | merging oldest to newest is newest-wins override on ordinary keys; the key TOMBSTONE survives iff an odd number of tables hold it |
| Tables.InsertCorrect | src/buffer.cc:34 | updating the ordered map keeps it sorted, changes one key, and grows it iff the key is new |
| Tables.LowerBoundFinds | src/db.cc:85-87 | the lower bound of a key is its position iff the table holds it |
| Tables.PairLowerBoundIs | src/db.cc:85-86 | std::lower_bound by the order on pairs with target (key, TOMBSTOME) is the lower bound by key |
| Tables.TombstoneIsLeast | include/config.h:36 | TOMBSTOME is -0x80000000, the least value there is, which is why that search misses no pair |
| Tables.OverlayNewest | src/db.cc:79-97 | the first hit from the newest slot down is the overlay's value |
| Ranges.RangeAgrees | src/db.cc:110-141 | inside the range the result is the content; outside it only keys above the range can occur |
| Ranges.SliceIs | src/buffer.cc:55-72 | one source gives its entries from key1 to key2 and, if it lacks key2 but holds a smaller key, its least key above key2, as long as that is not below key1 |
| Ranges.RangeViewIs | src/db.cc:110-141 | the whole answer, key by key and value by value: newest wins over what the sources give |
| Ranges.OvershootsIff | src/db.cc:126-130 | a source overshoots iff it lacks key2, holds a key below it and a key above it |
| Ranges.ExtraHasLower | src/db.cc:123-125 | a key above key2 is returned only if the content also has a key not above key2, so that a store wholly above the range gives nothing |
| Ranges.RangeExactIff | src/db.cc:126-130 | no key above the range is returned iff no source overshoots: some entry at or past key2, the first of which is not key2 itself, in a source that meets the range |
| Ranges.RangeIsContentIff | src/db.cc:110-141 | a range query returns exactly the content between its bounds, nothing stale and nothing else, iff no source overshoots |
| Contents.RangeExtraCanBeStale | src/db.cc:126-130 | a store satisfying the invariant and a query that returns a key above the range with a value already overwritten |
| Memtable.Buffer.Put | src/buffer.cc:29-37 | fails, changing nothing, iff the buffer is full of other keys; otherwise one key changes and one record is logged, so the buffer stays the replay of its log |
| Memtable.Buffer.Get | src/buffer.cc:43-53 | finds a key iff the buffer holds it, and tells a deletion from a value |
| Memtable.Buffer.GetRange | src/buffer.cc:55-72 | copies the slice, one entry past the lower bound of key2 included, over the result |
| Wal.LogManager.AppendLogRecord | src/log_manager.cc:76-88 | log plus buffer grow by exactly this record; a full buffer is written out first |
| Wal.LogManager.Flush | src/log_manager.cc:61-66 | everything buffered is on disk, in order, when it returns |
| Wal.LogManager.FlushTurn | src/log_manager.cc:47-56 | the swap and write of the flush thread move the buffer behind the log in one disk step |
| WalProtocol.NothingLost | src/log_manager.cc:41-88 | for any number of clients and any schedule, clears falling anywhere: at every moment file, flush buffer and append buffer spell, in order and without a gap, all records appended since the last clear, preceded at most by records the clear came too early to remove; the file holds whole records; with the latch free the flush buffer is empty; the append buffer never fills up |
| WalProtocol.EveryRecordOnce | src/log_manager.cc:76-88 | for every schedule and each client: the records of its calls, in order, are its records among those appended and then the one its unfinished call holds; none is dropped, doubled or made up, however often it waited |
| WalProtocol.RecordsConserved | src/log_manager.cc:76-88 | the records of all calls, as a multiset, are those appended and those still held by callers |
| WalProtocol.CanFill | src/log_manager.cc:78-83 | the append buffer can be filled to the last whole record below its size before anybody has to wait |
| WalProtocol.SpelledIff | src/db.cc:56-60 | nothing but the records since the last clear is there iff all earlier ones were in the file when it was cleared |
| WalProtocol.NothingLostIff | src/db.cc:56-60 | over all schedules, log and buffers hold the records since the last clear and no others iff there is at most one client |
| WalProtocol.LoneClearIsSafe | src/db.cc:56-60 | one client's clear always finds both buffers empty, no write under way and every record on disk |
| WalProtocol.StopIff | src/log_manager.cc:68-74 | both buffers are empty once the flush thread has been stopped and has exited, under every schedule, iff there is at most one client |
| WalProtocol.AssertsHold | src/log_manager.cc:41-59 | under every schedule the flush thread's assertion on the flush buffer holds, and no memmove of a client leaves the append buffer |
| WalProtocol.FlushKeepsItsWord | src/log_manager.cc:61-66 | when Flush returns, all records appended before the call are in the file in order, except those a clear has removed since, whatever other clients did |
| WalProtocol.AlwaysServes | src/log_manager.cc:44-57 | whenever the latch is free, at most six steps of the flush thread alone, without a time-out if a flush is requested, put every record on disk and wake everybody, and each waiting call then gets past its wait |
| WalProtocol.ActsOnRequest | src/log_manager.cc:45 | as long as no wait times out, the flush thread holds the latch only with a flush requested |
| WalProtocol.LoneWaitIsATurn | src/log_manager.cc:61-88 | a lone client's wait ends with everything on disk and both buffers empty |
| WalProtocol.ForgottenIff | src/log_manager.cc:79-83 | an appender can sleep with no flush requested iff there are two clients or more |
| CompactionProtocol.ReturnsServed | src/compaction_manager.cc:69-81 | a request returns only after a compaction that began after it has ended, a major one if it asked for that |
| CompactionProtocol.OnlyOnRequest | src/compaction_manager.cc:41-60 | while a compaction runs, a client that asked for that kind is blocked; compactions never outnumber requests |
| CompactionProtocol.RunAsked | src/compaction_manager.cc:69-81 | the requests on record are the kinds of the calls made, in order |
| CompactionProtocol.ActsOnRequest | src/compaction_manager.cc:44-47 | as long as no wait times out, the compaction thread gets past its wait only with something requested |
| CompactionProtocol.FlagsMustStartFalse | src/compaction_manager.cc:30-34 | a compaction nobody asked for is possible iff a flag starts out true |
| CompactionProtocol.OneServesAll | src/compaction_manager.cc:44-59 | a sleeping client always has its request pending, and one compaction serves every waiting client |
| CompactionProtocol.MajorServesAll | src/compaction_manager.cc:50-53 | a major compaction discharges every waiting request |
| CompactionProtocol.LoneRequestIsATurn | src/compaction_manager.cc:69-81 | with one client, between its requests the compactions run are exactly the requests made, in order |
| RwLatch.Safety | include/rwlatch.h:37-83 | for any number of threads and any schedule: a writer excludes everybody; reader_count_ is the number of readers and stays within MAX_READERS; writer_entered_ iff some thread owns or awaits the write latch |
| RwLatch.NoReaderEnters | include/rwlatch.h:60-66 | once a writer has announced itself, until it leaves, nobody starts to read and each reader's exit lowers the count |
| RwLatch.GetsWhatItAskedFor | include/rwlatch.h:37-83 | over every run, from its WLock until its WUnlock a thread only waits to write or writes, from its RLock until its RUnlock it only waits to read or reads, and otherwise it is idle |
| RwLatch.WriterWokenInTime | include/rwlatch.h:74-77 | unless spuriously, a waiting writer is woken only when the last reader has left, and none enters before it |
| RwLatch.StuckIff | include/rwlatch.h:37-83 | a state where a thread sleeps and nobody holds the latch or is awake is reachable iff MAX_READERS >= 2 and there are at least MAX_READERS + 2 threads |
| RwLatch.CauseIff | include/rwlatch.h:37-83 | a sleeper on reader_ always waits for a writer or for a full count, and a sleeper on writer_ for readers, iff there are at most MAX_READERS + 1 threads |
| RwLatch.DrainIff | include/rwlatch.h:37-83 | from every reachable state, every schedule of releases and wake-ups is finite and, when it can go no further, every thread that held or awaited the latch has had it, for reading or for writing as it asked, and left, iff MAX_READERS is 1 or there are at most MAX_READERS + 1 threads |
| RwLatch.LostWakeup | include/rwlatch.h:79-81 | the schedule that gets there |
| RwLatch.ReaderWriterLatch.WLock | include/rwlatch.h:37-46 | one critical section does exactly the step of the state machine and keeps the safety invariant, in 32-bit arithmetic |
| RwLatch.ReaderWriterLatch.WUnlock | include/rwlatch.h:51-55 | likewise |
| RwLatch.ReaderWriterLatch.RLock | include/rwlatch.h:60-66 | likewise |
| RwLatch.ReaderWriterLatch.RUnlock | include/rwlatch.h:71-83 | likewise |
| RwLatch.ReaderWriterLatch.IsWriteLocked | include/rwlatch.h:85-88 | true iff a writer holds the latch or is entitled to it but not awake yet |
| RwLatch.ReaderWriterLatch.IsReadLocked | include/rwlatch.h:90-93 | true iff some thread reads |

## Left out

- Database.GhostDB.Get: a lower bound past the end of a run is modelled as "not found"; the source dereferences the end iterator there (src/db.cc:86-87).
- Database.GhostDB.GetRange: requires a non-empty memtable, because the source dereferences its first entry (src/buffer.cc:57-58), and bounds in order, which the source asserts; after the first Put the memtable is never empty again until shutdown.
- Database.GhostDB.Put: requires that the memtable it spills, and the group it has to compact, fit one page (125 pairs with the default constants), because a larger table overruns its page buffer in the source (src/run.cc:91-93); overflow pages are not implemented there.
- Database.GhostDB.Put: requires a memtable of two entries or more; with a single-entry memtable a key equal to TOMBSTOME could make the dump loop run forever.
- Refinement.Execute: stops at the first put that would write a table larger than a page, where the source overruns its page buffer; range queries need bounds in order and an earlier write, as GetRange does.
- Refinement.Execute: a lookup of the key TOMBSTOME itself is promised right only as long as nobody has written that key or no compaction has taken place; Contents.CompactionExactIff says which compactions keep it.
- Bloom.Hash1: only that it yields a bit index matters; which bit, and how evenly, is not stated.
- Bloom.Hash2: likewise.
- Bloom.Hash3: likewise.
- Disk.DiskManager.WriteDb: writing one page, the temporary page or one stretch of log is a single atomic step; torn writes, I/O errors and file handles are not modelled.
- WalProtocol: a clear and a write of the log are single steps each; what two unlatched accesses to one stream could do inside such a step is not modelled.
- Disk.DiskManager.WriteLog: clearing the log rewrites its first page and resets the write cursor in one step; stale records beyond the first page stay in the file, as in the source.
- Recovery at start-up (src/recovery_manager.cc): the store wipes its directory when it opens, and the recovery code re-reads offset 0 in its loop and passes a page id as a size. What a correct recovery would find is stated instead, with the temporary page placed just below the group being compacted and the log replayed up to its cursor.
- Concurrent clients of one GhostDB: not supported by the source either. The store has one client; a wait on a background thread is that thread's turn, which WalProtocol.LoneWaitIsATurn and CompactionProtocol.LoneRequestIsATurn justify.
- Time-outs in the middle of a client call: between calls they are operations of Refinement.Execute. Within Put one can fall before the record is appended, which is the same as before the call, or between Flush and the clear, when there is nothing to write (WalProtocol.LoneClearIsSafe).
- The latch calls inside Run and the latch's IsLocked; the latch is treated on its own in RwLatch.
- Runs.Run: keeps its Bloom filter as a value, and SSTablePage keeps its data as a sequence; neither is shared in the source.
- Level's ClearSSTable, DumpSSTable and LoadSSTable only delegate; SSTableManager calls the run directly.
- Bloom false-positive rates.
- Byte order is little-endian and integers are 32-bit two's complement, as on the platforms the source is built for.
- The shutdown flag of the compaction thread, directory set-up and shell commands (src/util.cc:81-125), logging macros, build files.
