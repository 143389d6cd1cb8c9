# LFS in Dafny

LFS is a small distributed file store written in C. Data servers keep files on
mounted blocks, write a binlog of what they stored and replay it to their
slaves; trackers keep a weighted list of data servers, route writes to the
least loaded one and reads to replicas that have caught up. This project models
the parts of LFS whose correctness is not visible from one function, and proves
what they promise.

- **Replication.** `Replication` is the protocol between a master's sync thread
  and its slaves as a state machine: reading, seeing the end of a file, switching
  to the next, shipping, applying, acknowledging, marking, losing the connection
  and restarting, in any interleaving with the writer. `SyncThreads` is the thread itself, changed in place, and is
  proved to take the protocol's steps. `BinlogWriters` and `BinlogReaders` are
  the write cache and the read buffer underneath; `Lines` is binlog text as
  bytes and as lines.
- **Read routing.** `ReadRouting` is the tracker's choice of a replica, proved
  over the runs of the replication protocol.
- **Write scheduling.** `Towers` is the skip list of the weighted-least-connection
  scheduler as a row of towers, with both of its searches; `SkipLists` is the
  list in memory with forward and backward pointers; `WlcScheduler` is what stat
  reports, registrations, heartbeats and write requests do to it over whole runs.
- **Volume table.** `VolumeHash` is the tracker's table of volumes with
  incremental expansion and striped locks; `Powers` has the arithmetic of
  power-of-two tables.
- **Containers.** `HashTables` is the chained hash table, `Rings` the circular
  list of `list.h`, `Timers` the timer queue over all interleavings and
  `TimerQueues` the same queue on a real ring. `Rows`, `Options` and `Buffers`
  are shared.
- **Codecs.** `Base64`, `Base64Lengths` and `Base64Codec`; `Crc32` and
  `CrcBursts`; `Mixing`, `MixingLoops` and `Jenkins` for the Jenkins hash;
  `FileIds` for file names and ids; `DirectoryAllocator` for the directory
  counter. `Iteration`, `Folding` and `WordOps` hold what CRC and hash share.

Modules that follow mutable C state are classes or methods with loops, each tied
by its contract to a function on values; the properties are lemmas about those
functions. The nodes of the skip list live in an explicit memory, a map from
addresses to cells, so that dangling and shared pointers can be spoken of.

Some of what one would expect of the code does not hold. In those cases the code
is modelled as it is, a lemma gives an input on which the expectation fails, and
another lemma gives the exact condition under which it holds:

- The `!=` search of find and delete misses a key exactly when a tower of equal
  weight and larger id is taller (`Towers.SearchExact`,
  `WlcScheduler.TieHidesBlock`), so a stat report leaves a second node behind
  exactly then (`WlcScheduler.StatExact`). A block that has a node and registers
  again with another weight leaves that node under the old one
  (`WlcScheduler.RegisterExact`, `WlcScheduler.ReturnLeavesNode`). The list is good
  throughout a run exactly when neither happens (`WlcScheduler.RunExact`).
- A write request chooses among the blocks that have a node, not among all that are
  fresh: a block has one exactly when some report changed its weight and no write
  request since then has found it stale and removed it (`WlcScheduler.ListedExact`,
  `WlcScheduler.ChoiceExact`). A lone idle block is passed over
  (`WlcScheduler.IdleBlockIsPassedOver`).
- `binlog_read` moves to the next file without opening it for the reader
  (`ds_binlog.c:388` opens the writer's file), and it asks which file is being
  written only after `read()` has returned nothing, without a lock. A replica ends
  up with a gap exactly when a switch is taken with the descriptor still on an
  earlier file, or with records appended to its file since the end was seen, or a
  first start finds nothing to locate by (`Replication.GapExact`,
  `Replication.SwitchSkipsFile`, `Replication.LateRecordIsSkipped`); with the file
  reopened the last two remain (`Replication.ReopeningIsClean`). A thread that has
  switched once and loses nothing reads nothing more until its session ends
  (`Replication.SilentAfterSwitch`).
- A flush whose `write()` succeeds and whose `fsync()` fails keeps the cache, so
  the same lines are written again. Files and cache are all lines in order exactly
  when no flush of a non-empty cache ends that way (`BinlogWriters.RunConserves`,
  `BinlogWriters.UnsyncedRepeats`); lines are never lost or reordered
  (`BinlogWriters.RunKeepsAll`).
- A tracker routes reads by sequence numbers, which are seconds. A slave is never
  asked for a record it lacks exactly when every record it gets after its full
  synchronisation is newer than all before it and than the sequence that the full
  synchronisation reported (`ReadRouting.StaleExact`); for slaves that may join at
  any time, exactly when the numbers in the log rise strictly
  (`ReadRouting.RisingExact`). Equal and falling numbers both fail
  (`ReadRouting.DropIsStale`).
- During an expansion an insert writes outside the old table exactly when the
  new top bit of the id is set (`VolumeHash.InsertExact`, `VolumeHash.InsertFails`),
  because the insert masks with the new size where find uses the old one.
- Deleting a key that is not first in its chain leaves the freed node linked: the
  address of the predecessor's link is assigned to a local variable. The delete
  reports success, and the node's key is NULL from then on. A lookup compares
  through it exactly when it is for a key of the same chain and length that does
  not stand before the node, the deleted key first of all
  (`HashTables.DeleteExact`, `HashTables.DeleteLeavesFreedNode`); the same goes for
  a put over such an entry (`HashTables.PutExact`). What the next put then meets is
  `HashTables.PutAfterLoss`.
- Ids under different locks share no bucket exactly when there are no more lock bits
  than table bits (`VolumeHash.StripingExact`). The locks that the code makes for a
  table of 2^n buckets and t threads meet this exactly when 2^n < (n + 1) t
  (`VolumeHash.LockInitExact`), for the default table with two threads or more
  (`VolumeHash.DefaultNeedsTwoThreads`).
- Decoding undoes every padded base64 encoding exactly when the three extra
  characters are distinct and outside letters and digits and, unless the line
  length is zero, nothing of the alphabet occurs in the separator
  (`Base64.RoundTripExact`).
- `base64_get_encode_length` is right for all inputs exactly when a line holds
  whole groups or there is no separator (`Base64Lengths.LengthExact`), and
  `base64_decode_auto` undoes an unpadded encoding exactly when the separators
  add a multiple of four bytes (`Base64Lengths.AutoExact`).
- `jenkins_hash` gives the keys at an address the hash they have everywhere exactly
  on machines of the byte order it was compiled for, or if it reads that address
  byte by byte (`Jenkins.AlignmentExact`). The Makefile in `src/common` defines
  `ENDIAN_BIG`.
- The block index in a file id is written in hexadecimal and read with `atoi`;
  it survives exactly below ten (`FileIds.IndexExact`).

`base64.h` declares other functions than `base64.c` defines; the model follows
`base64.c`. `LFS_MACHINE_ID_BUFF_SIZE` is not defined in the headers; `FileIds`
takes the eight bytes that `__fileidname_pack` writes.

## Model

| member | source | states |
|---|---|---|
| `Replication.InvNext` | src/dataserver/ds_sync.c:431-493 | every step of thread, slave and connection keeps the invariant that ties the persisted mark, the thread's position, its descriptor and what is in flight or applied |
| `Replication.InvLog` | src/dataserver/ds_binlog.c:579-641 | the invariant survives appending to the log and opening new files |
| `Replication.CleanIsGapFree` | src/dataserver/ds_sync.c:431-493 | in a clean state the slave has every record before the persisted mark |
| `Replication.CleanStep` | src/dataserver/ds_binlog.c:350-402 | a step that neither starts without locating nor switches away from an unread record keeps the state clean |
| `Replication.DirtyStart` | src/dataserver/ds_binlog.c:744-808 | a first start that cannot locate the slave's position loses a record at once |
| `Replication.DirtySwitch` | src/dataserver/ds_binlog.c:385-395 | a switch taken with the descriptor on an earlier file, or after more was appended to the file, puts the mark behind a record the slave lacks |
| `Replication.StepExact` | src/dataserver/ds_sync.c:431-493 | from a clean state, one step of a cluster leaves a replica gap-free exactly when the step is clean |
| `Replication.GapExact` | src/dataserver/ds_sync.c:431-493 | over every run of a master and its slaves, a slave stays without gaps throughout if and only if every first start on it locates its place and every switch leaves a file that is read to its end |
| `Replication.FreshIsClean` | src/dataserver/ds_binlog.c:404-456 | a slave after a full synchronisation, without a mark, is a clean start |
| `Replication.FirstSeenIsPrefix` | src/dataserver/ds_service.c:156-202 | records that arrive in order are, repeats ignored, a contiguous stretch of the log from the base |
| `Replication.RunIsPrefix` | src/dataserver/ds_sync.c:431-493 | after every clean run a slave has received, repeats ignored and in order, the records from its base up to a place not before the mark |
| `Replication.RestartResends` | src/dataserver/ds_binlog.c:404-456 | what a restart sends again is what was acknowledged since the mark, fewer than WRITE_TO_BAT_FILE_BY_SYNC_COUNT records outside the marking step |
| `Replication.AckedOnce` | src/dataserver/ds_sync.c:431-493 | over every clean run without a crash the master's place moves forward by exactly the number of acknowledgements, through any number of closed and resumed sessions, so nothing acknowledged is sent again |
| `Replication.ResumesAfter` | src/dataserver/ds_sync.c:481-483 | a closed session is resumed by the next start at its index, offset and count, whatever comes in between; after a crash the next start is at the mark as it was |
| `Replication.MarksAreRare` | src/dataserver/ds_sync.c:462-476 | over every run the marks written by counting are at most one for WRITE_TO_BAT_FILE_BY_SYNC_COUNT acknowledgements |
| `Replication.CatchesUp` | src/dataserver/ds_sync.c:431-493 | from every state of a clean run with a mark there is a clean continuation, by steps of the slave's own thread and connection and without a crash, after which the slave has the whole log; no new session is needed while the thread is on the file being written |
| `Replication.LastSyncIs` | src/dataserver/ds_service.c:194-197 | while the slave is not restarted its last_sync_sequence is the newest of what it was and the records applied |
| `Replication.LastSyncAfterRestart` | src/dataserver/ds_func.c:285-296 | after a restart the same holds from the value it restarted with |
| `Replication.ReopeningIsClean` | src/dataserver/ds_binlog.c:385-395 | with the new file opened for the reader, a run is clean exactly when every first start locates its position and no file is left after more was appended to it |
| `Replication.SilentAfterSwitch` | src/dataserver/ds_binlog.c:385-395 | in every run without a gap, a thread whose descriptor is behind its index reads nothing more until its session ends, however much is written |
| `Replication.AfterSwitch` | src/dataserver/ds_binlog.c:385-395 | every literal switch leads there; with the file reopened the next record can be read as soon as the new file has one |
| `Replication.SwitchSkipsFile` | src/dataserver/ds_binlog.c:385-395 | a run of four steps from a clean state in which the literal switch walks over a whole file |
| `Replication.LateRecordIsSkipped` | src/dataserver/ds_binlog.c:922-942 | a record appended between the empty read() and the comparison of the file index is passed over, whether or not the reader's file is reopened |
| `SyncThreads.Locate` | src/dataserver/ds_binlog.c:744-808 | the scan stops at the first record of the current file newer than the sequence, or at its end |
| `SyncThreads.SyncThread.WriteMarkFile` | src/dataserver/ds_binlog.c:499-535 | the mark holds the current position and the sync count is remembered |
| `SyncThreads.SyncThread.Init` | src/dataserver/ds_binlog.c:404-456 | the context starts as the protocol's start step says, from the mark or from the located offset |
| `SyncThreads.SyncThread.SwitchFile` | src/dataserver/ds_binlog.c:385-395 | moving on to the next file is the protocol's switch, with the descriptor unchanged |
| `SyncThreads.SyncThread.LeaveFile` | src/dataserver/ds_binlog.c:934-942 | after an empty read() the thread switches if a newer file is being written, otherwise it reports no data |
| `SyncThreads.SyncThread.ReadOrSwitch` | src/dataserver/ds_binlog.c:361-396 | once round the read loop, with the log growing between read() and the comparison, is the protocol's read, or its end and switch, or its end and wait |
| `SyncThreads.SyncThread.BinlogRead` | src/dataserver/ds_binlog.c:350-402 | for a log that grows between any two looks, a read ends with the next record of the descriptor's file or with no data in a file that was being written |
| `SyncThreads.SyncThread.Deliver` | src/dataserver/ds_sync.c:435-493 | the record is shipped; an acknowledged one advances the position and marks every second time, a failed one stays on its way, writes what is unmarked and stops |
| `ReadRouting.Volume.constructor` | src/trackerserver/ts_cluster_datasevr.c:132-161 | a new volume has no blocks and no master |
| `ReadRouting.Volume.Insert` | src/trackerserver/ts_cluster_datasevr.c:132-161 | the first block becomes the master; blocks keep their places |
| `ReadRouting.Volume.ReadBlock` | src/trackerserver/ts_cluster_datasevr.c:70-104 | the first block that is neither master nor last used, with a fresh heartbeat and a sequence that reaches the request, otherwise the master |
| `ReadRouting.HonestIsUpToDate` | src/trackerserver/ts_service.c:220-247 | if records to come are newer than all before them, a block that reported t has applied every record up to t |
| `ReadRouting.HonestStep` | src/dataserver/ds_service.c:156-202 | applying, reporting and every thread step keep the reported sequence covered by what is applied |
| `ReadRouting.NeverStale` | src/trackerserver/ts_cluster_datasevr.c:70-104 | after every clean run whose log suits the slave, a slave whose reported sequence reaches t holds all records up to t |
| `ReadRouting.RoutedRead` | src/trackerserver/ts_cluster_datasevr.c:70-104 | a read for sequence t that is routed away from the master goes to a block with all records up to t |
| `ReadRouting.DropIsStale` | src/dataserver/ds_service.c:69-80 | a record to come that is not newer than some earlier one gives a clean run from the full synchronisation after which the tracker routes to a slave without it |
| `ReadRouting.OldIsStale` | src/trackerserver/ts_cluster_datasevr.c:87-90 | so does one that is not newer than the sequence of the full synchronisation |
| `ReadRouting.StaleExact` | src/trackerserver/ts_cluster_datasevr.c:70-104 | over all clean runs that end with a given log, a slave is never routed to too early if and only if every record after its full synchronisation is newer than all before it and than the sequence reported then |
| `ReadRouting.RisingExact` | src/trackerserver/ts_cluster_datasevr.c:70-104 | this holds for every slave with a consistent full synchronisation if and only if the sequence numbers in the log rise strictly |
| `BinlogWriters.FlushConserves` | src/dataserver/ds_binlog.c:579-641 | a flush that is stored or refused changes no line of files plus cache; one that is stored and not synced leaves the cache twice |
| `BinlogWriters.WriteSound` | src/dataserver/ds_binlog.c:312-336 | a line that fits keeps the cache within 16 KiB and files made of whole records, whatever its flush comes to |
| `BinlogWriters.WriteBatches` | src/dataserver/ds_binlog.c:312-336 | a write goes to the file only when less than 256 bytes of the cache are free |
| `BinlogWriters.RunConserves` | src/dataserver/ds_binlog.c:579-641 | over every run of writes and flushes, files plus cache are all lines in order if and only if no flush of a non-empty cache is stored and not synced |
| `BinlogWriters.RunSound` | src/dataserver/ds_binlog.c:579-641 | every run that fits the cache leaves whole records only and closed files of 2^30 bytes or more, below 2^30 + 2^14 if no flush ended unsynced |
| `BinlogWriters.RunKeepsAll` | src/dataserver/ds_binlog.c:579-641 | in every run no line is lost and no two change places |
| `BinlogWriters.UnsyncedRepeats` | src/dataserver/ds_binlog.c:601-612 | one line, a flush that cannot sync and another flush leave the line twice in the file |
| `BinlogWriters.SuccessFits` | src/dataserver/ds_binlog.c:312-336 | as long as flushes succeed every line fits and none is repeated |
| `BinlogWriters.BinlogWriter.constructor` | src/dataserver/ds_binlog.c:112-201 | a writer that goes on with the last file there is, with its size, or begins the first |
| `BinlogWriters.BinlogWriter.FlushCache` | src/dataserver/ds_binlog.c:579-641 | the in-place flush is the flush on values, in the three outcomes of write() and fsync() |
| `BinlogWriters.BinlogWriter.WriteLine` | src/dataserver/ds_binlog.c:312-336 | the in-place write is the write on values, and reports a line that goes past the cache |
| `BinlogReaders.BinlogReader.CutRecord` | src/dataserver/ds_binlog.c:965-1003 | a record is handed out exactly when its newline is in the buffer and it is short enough; otherwise nothing moves |
| `BinlogReaders.BinlogReader.Compact` | src/dataserver/ds_binlog.c:903-946 | moving the unread bytes to the front keeps the buffer equal to the file's bytes |
| `BinlogReaders.BinlogReader.Receive` | src/dataserver/ds_binlog.c:903-946 | what read() returns goes behind the unread bytes |
| `BinlogReaders.BinlogReader.FileRead` | src/dataserver/ds_binlog.c:903-946 | the buffer stays the file's bytes from the consumed offset to the descriptor; end of file only for files no longer written |
| `BinlogReaders.BinlogReader.RecordRead` | src/dataserver/ds_binlog.c:948-963 | the next line of the file, or a reason why there is none yet, with no byte lost |
| `BinlogReaders.ReadFile` | src/dataserver/ds_binlog.c:948-1003 | for any sizes read() returns and a file that grows between any two calls, successive calls give exactly the lines the file has when a call finds no more, each whole and in order, and keep the unfinished tail |
| `BinlogReaders.RecordBytes` | src/dataserver/ds_binlog.c:965-1003 | in a file of whole lines record k ends where record k + 1 begins, so counting bytes is counting records |
| `BinlogReaders.ReadRecord` | src/dataserver/ds_binlog.c:948-963 | a call that yields a record reads record k, and one that finds nothing at the end of the file has read all of them: the protocol's read and its sight of the end |
| `BinlogReaders.ReadsBackWhatWasWritten` | src/dataserver/ds_binlog.c:312-336 | after any run of the writer that fits its cache every file's bytes split into exactly the records written to it, and all files and the cache hold all lines in order if and only if no flush ended unsynced |
| `Lines.JoinSplit` | src/dataserver/ds_binlog.c:965-1003 | the lines from any position and the tail put together are the text |
| `Lines.SplitJoined` | src/dataserver/ds_binlog.c:965-1003 | a text made of lines splits into exactly those lines |
| `Towers.InsertedSorted` | src/trackerserver/ts_wlc.c:84-126 | inserting at the place the search finds keeps the order by (wlc, block id) |
| `Towers.RemovedSorted` | src/trackerserver/ts_wlc.c:128-154 | removal keeps the order |
| `Towers.NextInserted` | src/trackerserver/ts_wlc.c:84-126 | an inserted tower is the next one exactly for the towers below it on its levels |
| `Towers.NextRemoved` | src/trackerserver/ts_wlc.c:128-154 | removing a tower changes the next one exactly for those that pointed to it |
| `Towers.SearchFingers` | src/trackerserver/ts_wlc.c:91-103 | a search over unobstructed levels ends, on every level, at the last tower before the key's place |
| `Towers.SearchUnmasked` | src/trackerserver/ts_wlc.c:164-176 | the `!=` search reaches a key no tied tower rises above |
| `Towers.SearchMasked` | src/trackerserver/ts_wlc.c:164-176 | a tied tower with a larger id and more height leads it past the key |
| `Towers.SearchExact` | src/trackerserver/ts_wlc.c:190-214 | find succeeds if and only if the key is present and no tower of equal weight and larger id is taller than all its holders |
| `SkipLists.WalkLevel` | src/trackerserver/ts_wlc.c:94-101 | one level of a search in memory is the walk on the row |
| `SkipLists.Search` | src/trackerserver/ts_wlc.c:91-103 | the search in memory returns the addresses of the row's search path |
| `SkipLists.Splice` | src/trackerserver/ts_wlc.c:113-118 | the splicing loop changes exactly the forward pointers of the fingers and of the new node |
| `SkipLists.Unsplice` | src/trackerserver/ts_wlc.c:134-140 | the unlinking loop changes exactly the pointers that led to the node |
| `SkipLists.HookIn` | src/trackerserver/ts_wlc.c:119-123 | backward pointers and tail mirror level 0 after an insert |
| `SkipLists.HookOut` | src/trackerserver/ts_wlc.c:141-148 | backward pointers and tail mirror level 0 after a removal |
| `SkipLists.Shrink` | src/trackerserver/ts_wlc.c:149-152 | the level falls to the height of the tallest tower left |
| `SkipLists.SplicedLinked` | src/trackerserver/ts_wlc.c:113-118 | after splicing every level is exactly the subsequence of towers tall enough, with the new one |
| `SkipLists.UnsplicedLinked` | src/trackerserver/ts_wlc.c:134-140 | after unlinking every level is exactly the subsequence without the node |
| `SkipLists.PutIn` | src/trackerserver/ts_wlc.c:84-126 | wlcsl_insert on the memory keeps the whole structure and adds one node at its place |
| `SkipLists.SkipList.constructor` | src/trackerserver/ts_wlc.c:35-51 | an empty list with a header of full height |
| `SkipLists.SkipList.Insert` | src/trackerserver/ts_wlc.c:84-126 | for any level choice the list stays whole and its contents change by the one node |
| `SkipLists.SkipList.Locate` | src/trackerserver/ts_wlc.c:164-178 | the search of find and delete hits the first node with the key, with fingers for the removal, exactly when it is not masked |
| `SkipLists.SkipList.NodeDelete` | src/trackerserver/ts_wlc.c:128-154 | removing a located node keeps the whole structure; the node keeps its own pointers |
| `SkipLists.SkipList.Delete` | src/trackerserver/ts_wlc.c:156-188 | removes the node exactly when the search reaches it; a failed delete changes nothing |
| `SkipLists.SkipList.Find` | src/trackerserver/ts_wlc.c:190-214 | a node with the key, exactly when the search reaches one |
| `WlcScheduler.StatKeeps` | src/trackerserver/ts_service.c:268-281 | a stat report whose old node can be found keeps one node per block with wlc = conns * weight |
| `WlcScheduler.StatSpoils` | src/trackerserver/ts_wlc.c:216-233 | a report whose old node is hidden leaves the block with two nodes |
| `WlcScheduler.StatExact` | src/trackerserver/ts_wlc.c:216-233 | a report on a good list keeps it good if and only if the old node is not hidden by a tied taller tower |
| `WlcScheduler.StatNodes` | src/trackerserver/ts_wlc.c:216-233 | a report that changes the weight leaves the nodes of the other blocks and one of the block under its new weight, of the height drawn |
| `WlcScheduler.RegisterExact` | src/trackerserver/ts_service.c:40-88 | a registration on a good list keeps it good if and only if the block has no node or its weighted connections stay the same |
| `WlcScheduler.SweepExact` | src/trackerserver/ts_wlc.c:235-263 | a write request leaves exactly the nodes from the first fresh block on and the stale ones its own search cannot reach |
| `WlcScheduler.WriteKeeps` | src/trackerserver/ts_wlc.c:235-263 | a write request keeps the scheduler good |
| `WlcScheduler.WriteMarks` | src/trackerserver/ts_wlc.c:247-253 | after a write request a block is off line if and only if it was, or its node and all before it are silent for longer than the interval at their looks; no other field of any block changes |
| `WlcScheduler.RunExact` | src/trackerserver/ts_service.c:40-350 | over every run of registrations, heartbeats, stat reports and write requests the scheduler is good throughout if and only if no report finds its node hidden and no listed block registers with another weight |
| `WlcScheduler.DistinctRun` | src/trackerserver/ts_service.c:249-350 | with pairwise distinct wlc values and unchanged weights of listed blocks throughout, every run is good |
| `WlcScheduler.FieldsAt` | src/trackerserver/ts_service.c:40-281 | after any run a block's heartbeat is the time of its last heartbeat or report, its connections those of its last report and its weight that of its last registration |
| `WlcScheduler.OffLineExact` | src/trackerserver/ts_wlc.c:247-253 | on a run that stays good a block is off line if and only if a write request swept it and it has not been heard of since |
| `WlcScheduler.TieHidesBlock` | src/trackerserver/ts_wlc.c:200-213 | two tied blocks on which one report makes a second node |
| `WlcScheduler.ReturnLeavesNode` | src/trackerserver/ts_service.c:77-79 | a block that registers with another weight and reports gets a second node |
| `WlcScheduler.ChoiceIsLeast` | src/trackerserver/ts_wlc.c:235-263 | the chosen block has the least key of all listed blocks that are fresh at their look, and there is none exactly when every listed block is stale |
| `WlcScheduler.ListedExact` | src/trackerserver/ts_wlc.c:216-263 | from an empty list, on a run that stays good, a block has a node if and only if some report changed its weight and no write request since then has removed it |
| `WlcScheduler.ChoiceExact` | src/trackerserver/ts_wlc.c:235-263 | after such a run a write request answers, of the blocks kept and last heard of within the interval, the least by last reported connections times last registered weight and id, or that there is none |
| `WlcScheduler.IdleBlockIsPassedOver` | src/trackerserver/ts_wlc.c:222-223 | a fresh block without connections that reports none has no node, and a write request finds nobody |
| `WlcScheduler.Forget` | src/trackerserver/ts_wlc.c:222-228 | the old node is deleted exactly when the list finds it |
| `WlcScheduler.WriteBlockGet` | src/trackerserver/ts_wlc.c:235-263 | the walk over level 0, with a look at the clock for every node, deletes and marks off line as the request on values does, although it goes on from deleted nodes |
| `WlcScheduler.SweepList` | src/trackerserver/ts_wlc.c:241-261 | the loop stops in front of the first block that is fresh at its look, with the stale ones before it marked |
| `WlcScheduler.DeleteMet` | src/trackerserver/ts_wlc.c:242-254 | whether or not the delete finds the node, its forward pointer leads to the node to look at next |
| `WlcScheduler.Tracker.constructor` | src/trackerserver/ts_wlc.c:35-51 | a tracker with an empty list |
| `WlcScheduler.Tracker.BlockAdd` | src/trackerserver/ts_wlc.c:216-233 | the list in memory changes as the list on values |
| `WlcScheduler.Tracker.Enter` | src/trackerserver/ts_service.c:40-88 | handle_cmd_register is the registration event |
| `WlcScheduler.Tracker.Beat` | src/trackerserver/ts_service.c:135-153 | handle_cmd_heartbeat is the heartbeat event; unknown blocks change nothing |
| `WlcScheduler.Tracker.Report` | src/trackerserver/ts_service.c:249-291 | handle_cmd_statreport is the report event; unknown blocks change nothing |
| `WlcScheduler.Tracker.WriteBlock` | src/trackerserver/ts_service.c:327-350 | handle_cmd_writetracker is the write request event and returns its choice |
| `VolumeHash.ExactlyOnce` | src/trackerserver/ts_cluster.c:340-365 | a volume anywhere in the two tables is in the one chain that find walks, and once |
| `VolumeHash.InsertExact` | src/trackerserver/ts_cluster.c:147-169 | an insert lands where find looks if and only if no expansion is under way or the id's new top bit is clear |
| `VolumeHash.InsertFails` | src/trackerserver/ts_cluster.c:147-169 | an expanding table of four buckets and an id whose insert leaves the old table |
| `VolumeHash.ExpandKeeps` | src/trackerserver/ts_cluster.c:266-286 | starting an expansion changes nothing that find sees |
| `VolumeHash.MigrateKeeps` | src/trackerserver/ts_cluster.c:287-338 | moving a bucket keeps every volume in its one right place and changes nothing that find sees |
| `VolumeHash.RunIsSet` | src/trackerserver/ts_cluster.c:147-365 | over every run of inserts, expansions and bucket moves the tables are exactly the set of inserted ids |
| `VolumeHash.StripingExact` | src/trackerserver/ts_cluster.c:50-73 | ids under different locks never share a bucket if and only if there are no more lock bits than table bits |
| `VolumeHash.LockInitExact` | src/trackerserver/ts_cluster.c:233-257 | with the locks made for 2^n buckets and t threads, ids under different locks share no bucket of a table in use in any run if and only if 2^n < (n + 1) t |
| `VolumeHash.DefaultNeedsTwoThreads` | src/trackerserver/ts_cluster.c:233-257 | for the default table, if and only if there are two threads or more |
| `VolumeHash.MoveStaysUnderLock` | src/trackerserver/ts_cluster.c:292-327 | a bucket move touches no bucket under another lock |
| `VolumeHash.FindUndisturbed` | src/trackerserver/ts_cluster.c:346-354 | a find under another lock takes the same decision and walks the same chain before and after a move |
| `VolumeHash.MoveChain` | src/trackerserver/ts_cluster.c:299-306 | relinking one old bucket pushes its volumes and counts them |
| `VolumeHash.Cluster.constructor` | src/trackerserver/ts_cluster.c:204-231 | an empty table |
| `VolumeHash.Cluster.Find` | src/trackerserver/ts_cluster.c:340-365 | find is membership in the set |
| `VolumeHash.Cluster.Insert` | src/trackerserver/ts_cluster.c:147-169 | the in-place insert, with the case that leaves the old table |
| `VolumeHash.Cluster.ExpandTable` | src/trackerserver/ts_cluster.c:266-286 | the in-place expansion, which is asked for only when the table is more than half full |
| `VolumeHash.Cluster.MigrateBucket` | src/trackerserver/ts_cluster.c:287-338 | the in-place bucket move; volumes inserted into the old table are counted twice |
| `VolumeHash.Cluster.FinishExpansion` | src/trackerserver/ts_cluster.c:287-338 | left alone, the maintenance loop ends and find sees the same volumes |
| `HashTables.UnlinkExact` | src/common/hash_table.c:295-324 | unlinking a node leaves no freed node in the chain if and only if the node is first, and then drops its key and no other |
| `HashTables.UnlinkDead` | src/common/hash_table.c:40-56 | after freeing a node behind the first, a walk ends at it if and only if its key has the same length and is not found before it; other walks are unchanged |
| `HashTables.ResizeKeeps` | src/common/hash_table.c:68-107 | a resize keeps the table well formed, its count and every lookup, although it reverses chains |
| `HashTables.DeleteExact` | src/common/hash_table.c:295-324 | a delete reports whether the key was there; it keeps the table valid if and only if the key is absent or first in its chain, and then removes that key only; otherwise exactly the lookups of the same chain and length that do not end before the freed node read its NULL key, that of the deleted key among them |
| `HashTables.PutKeeps` | src/common/hash_table.c:124-166 | a valid put sets the key and changes no other, also when it resizes |
| `HashTables.PutExact` | src/common/hash_table.c:124-166 | a put keeps the table valid if and only if no old entry of the key stands behind the first of its chain; it sets the key either way, and otherwise exactly the lookups that would meet the freed entry read its NULL key |
| `HashTables.PutAfterLoss` | src/common/hash_table.c:259-277 | after a delete that left its freed node linked, the next put reads the NULL key if and only if it doubles the table (if the deleted key is empty, only for a put of the empty key) or its walk compares the node that was left |
| `HashTables.RunExact` | src/common/hash_table.c:259-324 | over every run of puts and deletes the table is a finite map throughout if and only if no step unlinks a node behind the first; then every lookup is the map's |
| `HashTables.RunLight` | src/common/hash_table.c:259-277 | over every run that keeps the map the entries stay within the load factor's share of the capacity, unless every entry has doubled the table |
| `HashTables.DeleteLeavesFreedNode` | src/common/hash_table.c:295-324 | two colliding keys after which a freed node is still linked and lookups of the deleted key and of a third key read through NULL |
| `HashTables.MoveAll` | src/common/hash_table.c:91-101 | the resize loops over all buckets push every node, unless they hash the NULL key of a freed one |
| `HashTables.HashTable.constructor` | src/common/hash_table.c:168-208 | an empty table whose capacity is the least power of two not below the target, with the default and the limit for the capacity and the default load factor |
| `HashTables.Create` | src/common/hash_table.c:168-208 | no table exactly for a negative capacity or load factor |
| `HashTables.HashTable.Walk` | src/common/hash_table.c:109-122 | the chain walk ends at the key's entry, at a freed entry of the key's length, or nowhere |
| `HashTables.HashTable.Get` | src/common/hash_table.c:279-293 | the value the map has for the key, or a freed node |
| `HashTables.HashTable.Delete` | src/common/hash_table.c:295-324 | the in-place delete, and when it ends at a freed node |
| `HashTables.HashTable.Double` | src/common/hash_table.c:68-107 | the in-place resize, and when it hashes a NULL key |
| `HashTables.HashTable.Put` | src/common/hash_table.c:259-277 | the in-place put, with the resize above the load factor, and when it reads a NULL key |
| `Timers.AddedOrdered` | src/common/sched_timer.c:44-64 | adding keeps the queue sorted by deadline and first-in first-out among equals |
| `Timers.InvNext` | src/common/sched_timer.c:88-112 | every step of any thread conserves timers and keeps the queue in order |
| `Timers.FiresExactlyOnce` | src/common/sched_timer.c:88-140 | over every interleaving a fired timer fired once, not before its deadline, and is neither queued nor taken; when none is queued or taken all timers ever scheduled have fired |
| `Timers.NeverEarly` | src/common/sched_timer.c:114-122 | if one event of a run asks for a callback in usec and another makes the callback of that timer, at least usec has passed between the two |
| `Timers.ShotsAreRecorded` | src/common/sched_timer.c:88-112 | the callbacks recorded are those the run's events make, with their timers and times |
| `Timers.DrainStopsWhenNoneDue` | src/common/sched_timer.c:88-112 | a drain that takes nothing leaves no due timer in the queue |
| `Timers.FifoAmongEquals` | src/common/sched_timer.c:44-64 | timers with the same deadline stand in the queue in the order they were added, in every reachable state |
| `Rings.Connect` | src/common/list.h:45-54 | the four assignments of __list_add |
| `Rings.AddBehind` | src/common/list.h:64-67 | the ring has the new link right behind the given one and is otherwise the same ring |
| `Rings.Delete` | src/common/list.h:89-106 | the ring without the link |
| `Rings.Splice` | src/common/list.h:179-202 | the links of one ring stand behind the head of the other, in order |
| `TimerQueues.TimerQueue.constructor` | src/common/sched_timer.c:147-170 | an empty queue |
| `TimerQueues.TimerQueue.FindSpot` | src/common/sched_timer.c:44-64 | the walk from the back stops at the last timer that is not due later |
| `TimerQueues.TimerQueue.Add` | src/common/sched_timer.c:44-64 | the ring holds the queue with the timer added in its place |
| `TimerQueues.TimerQueue.Take` | src/common/sched_timer.c:66-112 | the head is taken exactly when it is due |
| `TimerQueues.TimerQueue.Yield` | src/common/sched_timer.c:88-112 | what fires is a prefix of the queue, each timer due at the look that took it, and the rest begins with a timer not due at the last look |
| `Base64.InitEx` | src/common/base64.c:36-75 | the tables hold the alphabet, later letters win, and decoding undoes every padded encoding if and only if the three extra characters are usable with this line length |
| `Base64.InitExact` | src/common/base64.c:36-75 | the tables invert each other, with pad and, if lines are broken, separator outside, if and only if the three extra characters are distinct, no letters or digits, and nothing of the alphabet is in the separator |
| `Base64.StandardAlphabet` | src/common/base64.c:36-75 | with + and / the alphabet is that of section 4 of RFC 4648 |
| `Base64.TestVectors` | src/common/base64.c:96-213 | the test vectors of section 10 of RFC 4648 for one, two, three and six bytes |
| `Base64.QuadTriple` | src/common/base64.c:161-174 | the values of four letters recombine to the three bytes; zero bytes give zero values |
| `Base64.RoundTrip` | src/common/base64.c:96-335 | decode undoes a padded encode of every text whenever the tables invert each other and a separator that is written lies outside the alphabet |
| `Base64.RoundTripExact` | src/common/base64.c:24-335 | for any line length and separator, decode undoes every padded encode if and only if the three extra characters are usable |
| `Base64.SeparatorRead` | src/common/base64.c:148-159 | a separator that is not skipped spoils a text of two lines |
| `Base64Lengths.CountIs` | src/common/base64.c:148-159 | the line position arithmetic puts a break before every group that starts a line |
| `Base64Lengths.Lengths` | src/common/base64.c:96-213 | the encoding has four letters a group and one separator a break, less the letters left out without padding |
| `Base64Lengths.AutoExact` | src/common/base64.c:215-260 | decode_auto undoes an unpadded encoding if and only if the separators add a multiple of four bytes |
| `Base64Lengths.LengthExact` | src/common/base64.c:77-94 | the estimate is the padded length of every text if and only if there is no separator or a line is a non-negative multiple of four |
| `Base64Lengths.ExpectedIs` | src/common/base64.c:77-94 | the estimate counts the full lines of letters before the last one, and none for a negative line length |
| `Base64Lengths.LengthExactOnceSet` | src/common/base64.c:24-27 | after base64_set_line_length the estimate is exact unless the length asked for is -4 or less |
| `Base64Lengths.LineLengthRounds` | src/common/base64.c:24-27 | the line length is rounded to a multiple of four, towards zero |
| `Base64Codec.GetEncodeLength` | src/common/base64.c:77-94 | computes the estimate, with C's division |
| `Base64Codec.PutGroup` | src/common/base64.c:150-174 | one group: a separator when the line is full, then the four letters |
| `Base64Codec.Finish` | src/common/base64.c:178-210 | pads, or a shorter text with its terminator |
| `Base64Codec.EncodeEx` | src/common/base64.c:96-213 | dest holds the encoding and its terminator, and nothing behind it changes |
| `Base64Codec.Shift` | src/common/base64.c:292-317 | one character of the decode loop: the accumulator gives the three bytes of a complete group |
| `Base64Codec.DecodeText` | src/common/base64.c:262-335 | dest holds the decoded bytes up to the reported length, which is zero for an incomplete last group and negative for more pads than bytes |
| `Base64Codec.DecodeAutoText` | src/common/base64.c:215-260 | the same after filling up to a multiple of four with pads |
| `Crc32.Unrolled` | src/common/crc32.c:14-48 | every table entry is its index clocked eight times through the register of polynomial 0xEDB88320 |
| `Crc32.ShiftIsLinear` | src/common/crc32.c:14-48 | the register is linear over exclusive or |
| `Crc32.LooksUp` | src/common/crc32.c:60 | one look-up does the work of any byte clock that the table tabulates |
| `Crc32.TableIsSerial` | src/common/crc32.c:55-62 | the table-driven value is the bit-serial CRC-32 of every buffer, for every start value |
| `Crc32.KnownValue` | src/common/crc32.c:55-62 | the digits 1 to 9 have the check value 0xCBF43926 of CRC-32 |
| `Crc32.ChecksumConcat` | src/common/crc32.c:55-62 | the value of one piece is the start value for the next |
| `Crc32.AnyPartition` | src/common/crc32.c:75-78 | any partition of a buffer gives the value of the whole |
| `Crc32.GetDefaultCrc32Value` | src/common/crc32.c:55-62 | the loop computes the bit-serial CRC-32 |
| `Crc32.GetFileCrc32Value` | src/common/crc32.c:64-81 | reading a file in pieces of 16 KiB gives the CRC-32 of its content |
| `CrcBursts.BurstsAreDetected` | src/common/crc32.c:55-62 | two buffers of one length that differ only within four neighbouring bytes have the same value if and only if they are equal |
| `CrcBursts.LeadingZeroShows` | src/common/crc32.c:55-62 | a zero byte in front of any buffer changes its value |
| `Mixing.MixIsReversible` | src/common/jenkins_hash.c:78-86 | mix has an inverse on both sides |
| `Mixing.OneBlockTells` | src/common/jenkins_hash.c:143-151 | block sequences that differ in one block end in the same state if and only if the blocks are equal |
| `Mixing.SameHash` | src/common/jenkins_hash.c:153-180 | ways of reading that agree on the bytes of a key give one hash, whatever lies behind the key |
| `Mixing.OneBlockDiffers` | src/common/jenkins_hash.c:255-272 | the same for keys of bytes |
| `Mixing.OneBlockDecides` | src/common/jenkins_hash.c:143-296 | two keys of one length that differ in no more than one block, the last and unfinished one included, reach the same state in front of final if and only if they are equal |
| `MixingLoops.MixState` | src/common/jenkins_hash.c:78-86 | the eighteen assignments of the macro are the six turns |
| `MixingLoops.FinalState` | src/common/jenkins_hash.c:113-122 | the assignments of the final macro |
| `MixingLoops.RunBlocks` | src/common/jenkins_hash.c:133-151 | the block loop absorbs all blocks before the last |
| `MixingLoops.AddTail` | src/common/jenkins_hash.c:165-180 | the switch on the length left adds the words that the key still reaches |
| `MixingLoops.HashKey` | src/common/jenkins_hash.c:125-296 | the whole function for any way of reading words |
| `Jenkins.Masked` | src/common/jenkins_hash.c:167-178 | a masked aligned word is the sum of the bytes that belong to the key |
| `Jenkins.Halved` | src/common/jenkins_hash.c:223-247 | so are two half words with the odd byte |
| `Jenkins.AlignmentIndependent` | src/common/jenkins_hash.c:125-296 | on a machine of the compiled byte order neither the address nor the bytes behind the key matter |
| `Jenkins.Mirrored` | src/common/jenkins_hash.c:136-255 | a read of two or four bytes on a big-endian machine is that of the reversed bytes on a little-endian one |
| `Jenkins.Mismatch` | src/common/jenkins_hash.c:305-427 | compiled for the other byte order, the key 1 has another hash at addresses divisible by four |
| `Jenkins.PairMismatch` | src/common/jenkins_hash.c:204-255 | and at other even addresses the little-endian code gives the key of the bytes 1 and 0 another hash |
| `Jenkins.AlignmentExact` | src/common/jenkins_hash.c:125-427 | all keys at an address have the hash they have everywhere if and only if the byte orders agree or the address is read byte by byte: an odd one, or for big-endian code one not divisible by four |
| `Jenkins.BlocksTell` | src/common/jenkins_hash.c:143-296 | two keys of one length that differ only in one block, the last one included, reach the same state in front of the last mixing if and only if they are equal |
| `Jenkins.KnownHash` | src/common/jenkins_hash.c:125-296 | the published value of Bob Jenkins' little-endian hash for a text of thirty bytes, and that of the empty key |
| `Jenkins.JenkinsHash` | src/common/jenkins_hash.c:125-427 | the hash at an address, which is the hash of the key when the byte orders agree |
| `FileIds.NumberRoundTrip` | src/common/shared_func.c:305-349 | every signed number of four or eight bytes survives its big-endian buffer |
| `FileIds.BuffDigit` | src/common/shared_func.c:305-349 | the bytes of a buffer are the digits of the number to base 256, the most significant first |
| `FileIds.PackRoundTrip` | src/dataserver/ds_file.c:264-293 | unpacking the 44 bytes of a name gives back times, offset, size and CRC |
| `FileIds.PackLayout` | src/dataserver/ds_file.c:264-293 | machine id, creation and modification time, offset, size and checksum stand in this order |
| `FileIds.NameRoundTrip` | src/dataserver/ds_file.c:224-244 | so does decoding the base64 name with any usable codec |
| `FileIds.IndexExact` | src/dataserver/ds_binlog.c:897 | the block index survives its id if and only if it is below ten |
| `FileIds.Hex2Is` | src/dataserver/ds_file.c:216-220 | %02X gives the hexadecimal number in capitals with at least two digits |
| `FileIds.AtoiReads` | src/dataserver/ds_binlog.c:897 | atoi reads every decimal number and stops at what is no digit |
| `FileIds.IdRoundTrip` | src/include/lfs_define.h:61-126 | an id splits back into group, volume, block and map name, for group and volume names without a slash, and the index is read back exactly below ten |
| `FileIds.MapNameRoundTrip` | src/include/lfs_define.h:36-56 | a map name splits back into the two directories and the base64 name |
| `DirectoryAllocator.AdvanceCounts` | src/dataserver/ds_block.c:499-537 | an allocation adds one to ((pre * S) + suf) * M + count modulo S * S * M and keeps every digit in range |
| `DirectoryAllocator.AfterCounts` | src/dataserver/ds_block.c:499-537 | k allocations add k |
| `DirectoryAllocator.FillsEvenly` | src/dataserver/ds_block.c:499-537 | of any S * S * M consecutive files every one of the S * S directories gets exactly M |
| `DirectoryAllocator.MountBlock.Poll` | src/dataserver/ds_block.c:499-537 | the in-place counter and the directory it returns, with limits of zero or less counting as one |

## Left out

- Sockets, libevent, thread pools, disk queues, configuration, logging and process start-up: plumbing whose outcomes enter the model as parameters.
- Errors of system calls other than a failed flush or a failed transfer, and failed allocations.
- The full synchronisation that brings a new slave up: "done" is an initial state of the protocol.
- The window in which the mark file is truncated and not yet rewritten: a mark write is one step.
- Byte offsets in the mark: positions count records, so a mark written while the descriptor is on another file than the index says may in the code point into the middle of a record.
- A write() that stores only a part of the cache: a flush stores all of it or nothing.
- Records that cannot be parsed, and a length in `b_buff` at the end of a closed file, which end the sync thread with an error.
- MurmurHash: the tables take any hash function.
- Choosing a mount by free space, which is floating point over statvfs.
- Races on counters that are read outside their lock: a critical section or handler is one step.
- The VALGRIND branches of `jenkins_hash`, which read the tail byte by byte.
- Jenkins.JenkinsHash: the separate additions of the bytes of one word are one addition of their sum.
- WlcScheduler.Tracker.Report: does not model 32-bit overflow of connections times weight, because the order of the list is the point.
- WlcScheduler.Tracker.WriteBlock: a stale block that was removed comes back only when its connection count changes, as in the code; freed nodes stay readable in the model's memory until the walk has left them.
- HashTables.HashTable.Delete: chains are sequences of entries, not linked nodes, and memory that was freed is taken to keep what _free_hash_data left in it; a read through NULL ends the operation.
- Base64Codec.DecodeText: for more pads than bytes the terminator that the code writes in front of the buffer is not modelled; the length is.
- Base64Codec.DecodeAutoText: the same, and the temporary buffer is a value.
- BinlogWriters.BinlogWriter.WriteLine: a line that goes past the end of the cache is reported and not copied, because the memory behind the cache is not part of the model.
- FileIds.IdRoundTrip: buffers are long enough; truncation by snprintf is not modelled.
- DirectoryAllocator.MountBlock.Poll: requires digits in range, which initialisation and every call establish.
