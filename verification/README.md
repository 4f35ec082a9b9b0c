# Verified model of the input framework: ACKs, cursors and the durable store

An input publishes events. When the outputs acknowledge an event, the cursor update that travelled with it is
written to a key-value store, and that store has to give the cursor back after a crash. This project models the
three parts that carry this promise and proves them, alone and composed, with Dafny 4.11.

* **memlog store** (`TxIds`, `DataFiles`, `Checkpoints`, `Replay`, `FileSystems`, `Durability`, `DiskStores`,
  `MemlogStores`, `MemlogRuns`, `Limits`): a table in memory, kept durable by a log of updates with consecutive
  64-bit transaction ids and by full checkpoints named by such an id.
* **ACKers** (`GapLists`, `TrackingACKers`, `EventDataACKers`, `AckerInterleaving`, `AckerOrders`): a linked list of
  (published, dropped) runs stands for the queue of unreported events. It is verified as a class, and again as a
  state machine in which producers and the ACK thread interleave between their lock operations.
* **cursors** (`Cursors`, `InputSessions`, `InputRuns`, `Handovers`, `AckerCursors`, `ResourceTables`,
  `ResourceLifecycle`): update operations that wait for their ACK, the in-sync and the pending cursor, resource
  ownership, and garbage collection.
* **shared stores** (`Registries`, `ReleaseInterleaving`): reference counting of the store handles.

`Documents` holds the value types the parts share.

## How crashes and failures are modelled

`FileSystems.FileSystem` is the store directory. Each of its operations may fail, counts its failures in `faults`, and
appends every state it puts the directory in to `trace`; `Pause` does so between operations. A crash leaves the directory
in some element of `trace`, so a contract that speaks about all new elements of `trace` speaks about a crash at any
point. In the runs, `marks` cuts the trace into one stretch for each command or action, and what a crash may recover is
said stretch by stretch. `Replay.Recover` is what opening the store on a directory reads. A write of a log entry passes
through five states (`Replay.Partial`): nothing, a torn action document, the action alone, the action and a torn data
document, the entry.

Transaction ids are compared on 64 bits. `room` is a ghost budget: the number of ids that can still be given out before
the oldest id on disk falls 2^63 behind, where the comparison stops being an order
(`TxIds.AmbiguousExactlyAtHalf`). Every operation that gives out an id takes at most one from it.

The main results:

* Whatever writes fail and wherever a crash comes, one life of the store recovers the plain map after a prefix of the
  commands that includes every one confirmed by then (`MemlogRuns.Life`), and so do any number of lives, each ended by a
  crash (`MemlogRuns.Lives`). The exception is a life in which a read fails unnoticed while the store is opened, so
  that a data file counts as empty, or the log as ending or torn earlier than it does, and in which this does harm: what
  has been read is not what the directory holds, or a torn log is trusted, or the data file is gone
  (`MemlogStores.Store.Open` says when, exactly). Confirmed commands can then be lost: `Limits.MisreadLogLosesConfirmed`,
  `Limits.TrustedTornTailLosesUpdate`, `Limits.MisreadDataFileLosesTable`, `Limits.SetAsideLosesEvenOverwritten`.
  A store that has seen part of the log can go on if and only if all applied entries were in that part and it trusts
  the log only where that is right (`Limits.MisreadLogIsHarmlessExactly`, `Limits.CutBetweenIsHarmlessExactly`). A
  directory whose newest data file has been set aside still recovers what it did if and only if the replay over the
  older file reaches the newest one, with its table up to keys that later entries set or remove
  (`Limits.SetAsideIsHarmlessExactly`).
* Every ACK reports exactly the longest prefix of the queue with that many published events
  (`TrackingACKers.TrackingACKer.ACKEvents`). With any number of producers and the ACK thread interleaved, what has been
  reported together with what the ACK in progress has counted is at every moment the longest prefix of the events with
  as many published ones as were covered (`AckerInterleaving.EveryScheduleIsSafe`). While no ACK is being counted that is
  what has been reported (`AckerInterleaving.RestingIsExact`). The callbacks run in the order of the events exactly if
  no dropped event is reported while the callback for an ACK is still to come
  (`AckerInterleaving.InSequenceExactlyWithoutOvertaking`). With one input on top, its cursor is the newest update
  executed throughout exactly if no callback gets an update when a later one has been executed already, and leaves
  another outstanding (`AckerCursors.NewestExactlyWithoutPutBack`).
* Over whole runs of an input, with any other clients on the same store, the cursor in memory is the last update in
  the reported events. A crash during any action recovers a cursor that is not ahead of what is reported by the end of
  that action, and not behind what the last successful write before it had covered, in a document that keeps the time to
  live of the input (`InputRuns.Run`, `InputRuns.CrashPoint`). `InputRuns.Life` and `InputRuns.Lives` say the same over
  restarts, with the same exception.

Where code and comments differ the code is followed: `pkg/publisher/pipeline.go:60-62` says a dropped event is added
with `published` set to true; the ACKer (`acker.go:88-95`) treats `published == false` as dropped.
`pkg/manager/input/input-cursor/publish.go:52-53` says ACKs come in the right order; a first event of a new input that is
dropped is reported at once, before older updates (`Handovers.OlderACKCanGoBack`), and so is a later event of the same
input whose callback runs before that of an ACK (`AckerCursors.CallbackCanPutBack`).

## Model

| member | source | states |
|---|---|---|
| TxIds.WrapAroundOrder | pkg/statestore/backend/memlog/diskstore.go:678-685 | on unbounded sequence numbers less than 2^63 apart, the comparison of their 64-bit images is the true order, across a rollover too |
| TxIds.OrderByAge | pkg/statestore/backend/memlog/diskstore.go:58-60 | within a window, less-or-equal is exactly "at least as far behind the counter" |
| TxIds.AmbiguousExactlyAtHalf | pkg/statestore/backend/memlog/diskstore.go:678-685 | the comparison is total, and answers true both ways for different ids exactly when they are 2^63 apart |
| DataFiles.SortIsOldestFirst | pkg/statestore/backend/memlog/diskstore.go:496-501 | sorting keeps the same files and orders them oldest checkpoint first, also across a rollover |
| DataFiles.EverySortAgrees | pkg/statestore/backend/memlog/diskstore.go:496-501 | whatever algorithm orders the listed files by the comparison, the result is this list |
| DataFiles.LastOfSortedIsNewest | pkg/statestore/backend/memlog/diskstore.go:455-494 | the last file of the listing is the most recent checkpoint, all others are strictly older |
| Checkpoints.ParsesExactly | pkg/statestore/backend/memlog/diskstore.go:503-542 | a file parses to some records if and only if it starts with the array of them as it is written, with its brackets and separators |
| Checkpoints.RoundTrip | pkg/statestore/backend/memlog/diskstore.go:503-542 | a written data file, for any order of keys and members, decodes to the table if and only if no value has a top-level `_key` |
| Checkpoints.CutDoesNotDecode | pkg/statestore/backend/memlog/diskstore.go:522-534 | a data file that was not written to its end never decodes |
| Replay.RunStale | pkg/statestore/backend/memlog/diskstore.go:556-559 | entries that are not newer than the data file change nothing |
| Replay.RunPartial | pkg/statestore/backend/memlog/diskstore.go:583-617 | an interrupted append leaves the recovered state alone and is noticed, a complete one takes effect |
| Replay.RunCounts | pkg/statestore/backend/memlog/diskstore.go:544-581 | the replayed id is the id of the data file plus the number of applied entries, modulo 2^64 |
| Replay.RunOkIsBehind | pkg/statestore/backend/memlog/diskstore.go:561-564 | after a replay without error every id in the log is behind the next one to be given out |
| Replay.RunAppliesExactly | pkg/statestore/backend/memlog/diskstore.go:556-564 | a log, whoever wrote it, lets no entry in if and only if its first entry newer than the data file is not the next one |
| Replay.RunTorn | pkg/statestore/backend/memlog/diskstore.go:594-611 | a log whose reading fails within a document gives the same table and is noticed |
| Replay.NothingBehindUnreadable | pkg/statestore/backend/memlog/diskstore.go:594-614 | nothing behind a document that does not decode, or behind an action the store does not know, is replayed |
| Replay.RunOnOther | pkg/statestore/backend/memlog/diskstore.go:556-577 | which entries are applied does not depend on the table; they decide the keys they touch and leave the others alone |
| Replay.RunAppend | pkg/statestore/backend/memlog/diskstore.go:583-617 | replaying an appended log is replaying the appended part on the state the first part gives |
| Replay.TornLog | pkg/statestore/backend/memlog/diskstore.go:544-617 | wherever a written log is cut, replay gives the state after exactly the complete entries and reports an incomplete one |
| Durability.CheckpointIsNewest | pkg/statestore/backend/memlog/diskstore.go:290-296 | a checkpoint takes an id no data file has, is newer than all of them, and makes every log entry stale |
| Durability.CheckpointRecovers | pkg/statestore/backend/memlog/diskstore.go:298-301 | once the checkpoint is in place the recovered table is the written one, whatever the log and old files hold |
| Durability.CheckpointCommits | pkg/statestore/backend/memlog/diskstore.go:280-323 | the rename keeps the invariant between fields and directory with the id advanced and the old file retired |
| Durability.DataFileRemoved | pkg/statestore/backend/memlog/diskstore.go:440-453 | deleting an old data file changes nothing that is recovered |
| Durability.OldsDropped | pkg/statestore/backend/memlog/diskstore.go:440-453 | files already deleted can leave the list without losing track of one that is still there |
| Durability.StaleLogTruncated | pkg/statestore/backend/memlog/diskstore.go:154-193 | truncating the log when it is opened after a checkpoint changes nothing that is recovered |
| Durability.EntryAppended | pkg/statestore/backend/memlog/diskstore.go:217-267 | an append is invisible until its last byte, then it is the operation; the invariant holds at every stage |
| Durability.ConsistentIsWellFormed | pkg/statestore/backend/memlog/diskstore.go:97-100 | whenever the process stops, the data files and the log are ones the store can be opened on; the meta file is the matter of `FileSystems.HomeAfter` |
| Durability.OpenedIsConsistent | pkg/statestore/backend/memlog/diskstore.go:112-133 | the fields set up on open satisfy the invariant: newest file active, all others listed as strictly older |
| FileSystems.FileSystem.AppendEntry | pkg/statestore/backend/memlog/diskstore.go:248-261 | the entry reaches the file front to back and may stop anywhere; each stage is a crash state |
| FileSystems.FileSystem.RenameCheckpointTmp | pkg/statestore/backend/memlog/diskstore.go:298-300 | the data file appears complete or not at all |
| FileSystems.FileSystem.ListDataFiles | pkg/statestore/backend/memlog/diskstore.go:458-484 | the listing fails or holds every numbered data file once |
| FileSystems.HomeDirectory.Prepare | pkg/statestore/backend/memlog/store.go:44-68 | a missing directory is made, then its meta file; succeeds exactly if no operation fails and the directory was not left without a meta file before, or the version check is off |
| FileSystems.FileSystem.ReadDataFile | pkg/statestore/backend/memlog/diskstore.go:522-534 | a read that fails on the way looks like a data file that does not decode |
| FileSystems.FileSystem.ReadLog | pkg/statestore/backend/memlog/diskstore.go:584-614 | a read that fails between two documents looks like the end of the log, one that fails within a document like a torn one |
| DiskStores.EncodeEntry | pkg/statestore/backend/memlog/diskstore.go:66-70 | an entry is one record, the key first, then each field once |
| DiskStores.DiskStore.TryOpenLog | pkg/statestore/backend/memlog/diskstore.go:150-193 | opening the log, truncating or not, failing or not, keeps what is recovered; a success empties it exactly if that was due |
| DiskStores.DiskStore.OpenLogOnStart | pkg/statestore/backend/memlog/diskstore.go:146-147 | the first attempt to open the log leaves the directory as it is |
| DiskStores.DiskStore.LogOperation | pkg/statestore/backend/memlog/diskstore.go:217-267 | success adds exactly this entry to the log, opened and emptied first if that was due, and takes the next id; a failure marks the log invalid and leaves the old or the new state; an invalid log is never written; every crash recovers one of the two |
| DiskStores.DiskStore.CheckpointTmpFile | pkg/statestore/backend/memlog/diskstore.go:325-380 | the temporary file is the entries of the table in some order and nothing else, and decodes to the table; nothing that is read on open changes |
| DiskStores.DiskStore.CheckpointClearLog | pkg/statestore/backend/memlog/diskstore.go:382-403 | an open log is emptied and stays open; if that fails it is closed, distrusted and to be truncated; one that is not open is left alone and to be truncated |
| DiskStores.DiskStore.UpdateActiveMarker | pkg/statestore/backend/memlog/diskstore.go:405-438 | a successful update names the new data file; data files and log are untouched |
| DiskStores.DiskStore.RemoveOldDataFiles | pkg/statestore/backend/memlog/diskstore.go:440-453 | old files go one by one, up to the first that could not be deleted, and exactly the others stay listed; the active file is never deleted |
| DiskStores.DiskStore.WriteCheckpoint | pkg/statestore/backend/memlog/diskstore.go:269-323 | a crash at any effect recovers the old state if the new data file is not there yet and exactly the table if it is; no data file is overwritten; afterwards the log is empty or to be emptied when it is opened; without failures only the new file is left, marked active, with an open log emptied and no temporary file |
| MemlogStores.LoadLogFile | pkg/statestore/backend/memlog/diskstore.go:544-617 | the decoding loop, on what could be read of the log, computes the replay that the lemmas speak about |
| MemlogStores.LoadDataFile | pkg/statestore/backend/memlog/store.go:97-115 | a data file that does not decode, or whose reading fails on the way, is set aside and counts as empty; one that can not be opened makes the open fail |
| MemlogStores.LoadTable | pkg/statestore/backend/memlog/store.go:79-128 | the recovered table and id and the fields of a consistent disk store, unless it says that something was lost; on intact data files it says so exactly if what was read is not what the directory holds, or no longer holds, or a log is trusted that should not be |
| MemlogStores.Store.Open | pkg/statestore/backend/memlog/store.go:43-139 | unless something was lost the table is the recovered one, a log whose replay stops early is distrusted, and on an intact data file nothing changes that is read on open, so reopening gives the same table and id; without failures a log is distrusted only then; when something was lost is said exactly, and at most the newest data file has been set aside; a directory without a meta file does not open; no temporary file is left |
| MemlogStores.Store.LogOperation | pkg/statestore/backend/memlog/store.go:206-223 | exactly if the log is distrusted or the predicate says so, success is a checkpoint with the log cleared; otherwise it is one entry appended, and active data file and files stay; a nil result, or a log still trusted, means the whole table is on disk; behind a broken log a failure leaves the files alone |
| MemlogStores.Store.Set | pkg/statestore/backend/memlog/store.go:170-184 | a value that does not convert changes nothing; otherwise the table is updated, success makes all updates so far durable, also those whose own write had failed, by a checkpoint or by this entry as for `LogOperation`, and every crash recovers the last durable table or the new one; behind a broken log nothing is appended, and the next success is a checkpoint against which what is left of the log is stale |
| MemlogStores.Store.Remove | pkg/statestore/backend/memlog/store.go:186-194 | the same for removals |
| MemlogStores.Store.Checkpoint | pkg/statestore/backend/memlog/store.go:196-204 | success makes the whole table durable in a new active data file and clears the log as `WriteCheckpoint` does; a crash is decided by the presence of the new data file |
| MemlogRuns.Execute | pkg/statestore/backend/memlog/store.go:173-204 | each command has the effect of the plain map and is durable when it reports success |
| MemlogRuns.ModelIsLastCommand | pkg/statestore/backend/memlog/store.go:170-194 | in the plain map a key has what the last command on it put there, and nothing if that was a removal |
| MemlogRuns.Issue | pkg/statestore/backend/memlog/store.go:173-223 | one more command: no directory a crash can leave during it loses a confirmed command; failures come from the file system only |
| MemlogRuns.IssueAll | pkg/statestore/backend/memlog/doc.go:15-21 | a crash during any command of any sequence leaves the plain map after a prefix of the commands begun that includes every one confirmed until then |
| MemlogRuns.Life | pkg/statestore/backend/memlog/doc.go:36-51 | open, any commands with any failures, crash anywhere: the directory recovers the plain map after a prefix with every command confirmed by then, and its files can be opened again; without failures of the file system everything succeeds; nothing is claimed if opening lost something to a failing read |
| MemlogRuns.CrashPoint | pkg/statestore/backend/memlog/doc.go:36-51 | every state of the directory during a life belongs to the time of one command and keeps what had been confirmed by then |
| MemlogRuns.Lives | pkg/statestore/backend/memlog/doc.go:36-51 | any number of lives, each ended by a crash anywhere: the directory holds the plain map after some first commands of each life, among them every command confirmed when its crash came; a complete directory stays complete; up to the first life whose opening loses something to a failing read |
| MemlogRuns.EmptyIsWellFormed | pkg/statestore/backend/memlog/store.go:44-54 | the lives can begin on a directory without data files and log |
| Limits.CorruptionMakesReopenUnstable | pkg/statestore/backend/memlog/store.go:102-112 | with a data file that does not decode, a second open can give another table than the first; `MemlogStores.Store.Open` covers all other directories |
| Limits.SecondOpenKeepsIdExactly | pkg/statestore/backend/memlog/store.go:97-124 | once the newest data file has been set aside, opening again ends at the same id if and only if the replay over the older file reaches the id of the newest |
| Limits.ForeignGapCanBeAccepted | pkg/statestore/backend/memlog/diskstore.go:561-563 | an entry rejected for a gap that the store did not write itself can be accepted after a crash during the next checkpoint |
| Limits.CheckpointHidesLogExactly | pkg/statestore/backend/memlog/diskstore.go:298-304 | between the rename and the truncation, opening finds just the checkpoint if and only if the first newer entry of the log does not have the id after it, whoever wrote the log |
| Limits.MisreadLogLosesConfirmed | pkg/statestore/backend/memlog/diskstore.go:584-593 | after an opening that could not read the log, a confirmed update gets an id that is there already and is not recovered |
| Limits.MisreadLogIsHarmlessExactly | pkg/statestore/backend/memlog/diskstore.go:584-617 | a store that has seen only part of the log has the fields of a consistent disk store, at the id of the directory, if and only if every applied entry was in that part and, in case no error showed, none shows in the whole log either |
| Limits.MisreadLogIsUnharmedExactly | pkg/statestore/backend/memlog/diskstore.go:584-617 | what `Store.Open` counts as lost to a log that was not seen whole is exactly that an applied entry is missing or a log with an error is trusted |
| Limits.CutBetweenIsHarmlessExactly | pkg/statestore/backend/memlog/diskstore.go:584-617 | with the cut between two documents: if and only if the first newer entry behind it does not have the next id and nothing behind it stops the replay |
| Limits.TrustedTornTailLosesUpdate | pkg/statestore/backend/memlog/diskstore.go:584-593 | a torn tail that was not seen: table and id are right, and yet the next confirmed update is not recovered |
| Limits.MisreadDataFileLosesTable | pkg/statestore/backend/memlog/store.go:102-110 | an intact data file that could not be read to its end is set aside, and the next opening finds nothing |
| Limits.TableWithoutDataFileIsRightExactly | pkg/statestore/backend/memlog/store.go:102-124 | the table in memory right after the data file was taken for empty is the right one if and only if the applied entries of the log set or remove every key of the file |
| Limits.TablesAgreeExactly | pkg/statestore/backend/memlog/diskstore.go:544-581 | one log on two tables gives the same table if and only if they differ only in keys its applied entries set or remove |
| Limits.SetAsideIsHarmlessExactly | pkg/statestore/backend/memlog/store.go:97-124 | without its newest data file the directory recovers the same table, id and trust in the log if and only if the replay over the older file reaches the id of the newest, with its table up to keys that later entries set or remove |
| Limits.SetAsideLosesEvenOverwritten | pkg/statestore/backend/memlog/store.go:102-110 | a directory whose log overwrites the only key of the data file: the table in memory is right, but once the file is set aside nothing is recovered, not even updates confirmed later |
| GapLists.SpanIsLongestPrefix | pkg/publisher/acker/acker.go:39-51 | what an ACK of n reports is the longest prefix of the queue with exactly n published events |
| GapLists.SpanInSteps | pkg/publisher/acker/acker.go:148-195 | ACKs that come one after the other report what one ACK of their sum reports, also with events added in between |
| GapLists.AddedToUnreported | pkg/publisher/acker/acker.go:88-95 | adding an event, dropped at once or not, keeps the queue equal to what follows the longest acknowledged prefix |
| GapLists.AckedFromUnreported | pkg/publisher/acker/acker.go:148-195 | an ACK keeps the queue equal to what follows the longest acknowledged prefix |
| GapLists.PublishedAtEnd | pkg/publisher/acker/acker.go:97-118 | counting a published event in the last run, or in a new one, appends it to the queue |
| GapLists.DroppedAtEnd | pkg/publisher/acker/acker.go:143-145 | counting a dropped event in the last run appends it to the queue |
| GapLists.AckFirst | pkg/publisher/acker/acker.go:164-189 | taking the whole first run removes that prefix and leaves the rest of the ACK to the rest of the list |
| GapLists.AckWithinFirst | pkg/publisher/acker/acker.go:180-183 | an ACK that ends inside the first run removes just the ACKed events and nothing dropped behind them |
| TrackingACKers.TrackingACKer.AddEvent | pkg/publisher/acker/acker.go:88-95 | the event joins the queue, unless it was dropped while nothing was outstanding, and then it is reported at once |
| TrackingACKers.TrackingACKer.AddPublishedEvent | pkg/publisher/acker/acker.go:97-118 | the linked list encodes the queue with the event at its end |
| TrackingACKers.TrackingACKer.AddDropEvent | pkg/publisher/acker/acker.go:120-146 | reported at once exactly when the queue is empty; the panic for a list that is not empty is unreachable |
| TrackingACKers.TrackingACKer.AckHead | pkg/publisher/acker/acker.go:155-191 | one round of the loop removes a prefix and passes on what is left of the ACK |
| TrackingACKers.TrackingACKer.Consume | pkg/publisher/acker/acker.go:155-191 | the loop panics exactly if more is ACKed than was published, and otherwise covers exactly the span |
| TrackingACKers.TrackingACKer.ACKEvents | pkg/publisher/acker/acker.go:148-195 | panics exactly if the ACK exceeds the published events outstanding; otherwise reports n and the longest prefix with n published events and removes just that; the event counter stays the queue length modulo 2^32 |
| EventDataACKers.EventDataACKer.AddEvent | pkg/publisher/acker/acker.go:227-232 | the value is kept for its event; reported values stay a prefix of those added |
| EventDataACKers.EventDataACKer.ACKEvents | pkg/publisher/acker/acker.go:148-195 | the batch handed out is exactly the values of the events the ACK covers, in order, always within the buffer |
| EventDataACKers.EventDataACKer.OnACK | pkg/publisher/acker/acker.go:234-247 | the reported values are cut off the front and nothing is lost |
| EventDataACKers.LastEventReporter.OnBatch | pkg/publisher/acker/acker.go:249-265 | what is passed on is the value that is set and has none set behind it, and nothing exactly if none is set; counts delivered plus counts held back equal all counts received |
| EventDataACKers.LastEventACKer.ACKEvents | pkg/publisher/acker/acker.go:249-265 | the callback gets all counts held back and, of the values the ACK covers, the one that is set and has none set behind it, and is not called exactly if none is set; all counts add up to the events ACKed |
| EventDataACKers.LastEventACKer.AddEvent | pkg/publisher/acker/acker.go:249-265 | an event reported at once adds nothing to the counts |
| EventDataACKers.SomethingCovered | pkg/publisher/acker/acker.go:234-247 | an ACK reports something exactly if it ACKs something |
| AckerInterleaving.EveryScheduleIsSafe | pkg/publisher/acker/acker.go:97-247 | under every interleaving of any number of producers and the ACK thread, the events reported and about to be reported are the longest prefix of all events with as many published ones as were covered, and the list holds exactly the rest in order |
| AckerInterleaving.SlicesPartition | pkg/publisher/acker/acker.go:227-247 | every slice cut off the buffer is within it, none is delivered twice and none is left out once the callbacks have run |
| AckerInterleaving.OnlyDropsOvertake | pkg/publisher/acker/acker.go:130-140 | the callbacks get out of order exactly by a drop that is reported at once while the callback for an ACK has not run |
| AckerInterleaving.InSequenceExactlyWithoutOvertaking | pkg/publisher/acker/acker.go:227-247 | the callbacks get the values in the order of the buffer throughout a schedule if and only if it has no such drop |
| AckerInterleaving.DropCanOvertake | pkg/publisher/acker/acker.go:130-140 | a schedule in which the callback for an event that was dropped later runs before the one for an ACK |
| AckerOrders.EveryScheduleIsValued | pkg/publisher/acker/acker.go:227-232 | in every schedule each value in the buffer belongs to just one event, counted or still with its producer |
| AckerOrders.OnlyPassingDisorders | pkg/publisher/acker/acker.go:97-146 | list and buffer get the events in different orders exactly by counting one while another that was buffered earlier still waits |
| AckerOrders.AlignedExactlyWithoutPassing | pkg/publisher/acker/acker.go:227-232 | the orders agree throughout a schedule if and only if no event in it is counted before one that was buffered earlier |
| AckerOrders.AlignedDeliversReported | pkg/publisher/acker/acker.go:234-247 | with the same order, every value a callback has got is that of an event reported |
| AckerOrders.OneProducerPassesNone | pkg/publisher/acker/acker.go:227-232 | a single producer keeps the orders the same |
| AckerOrders.SliceCanBeAnothers | pkg/publisher/acker/acker.go:234-247 | two producers: an ACK of the second one's event cuts off the value of the first one's, which has not been counted |
| AckerInterleaving.RestingIsExact | pkg/publisher/acker/acker.go:148-195 | whenever no ACK is being counted, exactly the longest prefix with as many published events as were ACKed has been reported |
| AckerInterleaving.CompletedAckIsExact | pkg/publisher/acker/acker.go:148-195 | a call that completes reports, with all that was reported before, exactly that prefix for its argument |
| AckerInterleaving.NoPanicWithoutExcess | pkg/publisher/acker/acker.go:136-176 | no schedule finds the list not empty, and one finds too many events ACKed only if some ACK in it asked for more than had been published by then, all ACKs before it taken together |
| AckerInterleaving.ProducersExclude | pkg/publisher/acker/acker.go:97-146 | the lock of the last node lets at most one producer be between its two sections |
| AckerInterleaving.BalancedWithin | pkg/publisher/acker/acker.go:180-183 | an ACK that ends inside a node takes just its events and none dropped behind the published ones that are left |
| AckerInterleaving.BalancedTaken | pkg/publisher/acker/acker.go:184-189 | taking a whole node moves the boundary behind its dropped events and no further |
| AckerInterleaving.BalancedAtOnce | pkg/publisher/acker/acker.go:127-140 | a dropped event reported at once is the next one in order: nothing is outstanding then |
| AckerInterleaving.AckUnlocks | pkg/publisher/acker/acker.go:180-190 | the change of a node after the list lock was handed back keeps the invariant |
| AckerInterleaving.PublishBegins | pkg/publisher/acker/acker.go:100-114 | linking a new node before the list lock is handed back keeps the invariant |
| Cursors.CreateUpdateOp | pkg/manager/input/input-cursor/publish.go:75-101 | the operation joins the outstanding ones and becomes the view of new inputs; the in-sync cursor stays; a failed conversion changes nothing |
| Cursors.Execute | pkg/manager/input/input-cursor/publish.go:103-139 | the first n outstanding operations are done, the in-sync cursor is the n-th update, the update time reaches its timestamp, and exactly the in-sync state is written, recorded or not, unless the handle is closed, and then nothing is |
| Cursors.UpdateTTL | pkg/manager/input/input-cursor/store.go:160-188 | the in-sync state with the new time to live is written, never a pending cursor; nothing happens if it is stored already, and nothing is written on a closed handle |
| Cursors.MembersByName | pkg/manager/input/input-cursor/store.go:103-107 | a document decodes exactly if its members have the right types, and each field is that of the member with its name |
| Cursors.Resource.SnapshotIsLatest | pkg/manager/input/input-cursor/store.go:259-272 | a new input sees the last update created, ACKed or not |
| Cursors.Resource.Advance | pkg/manager/input/input-cursor/publish.go:115-128 | the counter of active operations never underflows, no pending cursor is left when none is active, and `updated` has reached every executed operation unless the clock was set back |
| Cursors.Resource.Finished | pkg/manager/input/input-cursor/store.go:236-238 | true exactly if no input holds the resource and no update is outstanding |
| Cursors.Resource.Retain | pkg/manager/input/input-cursor/store.go:223-226 | pending counts one holder more, besides the outstanding updates |
| Cursors.Resource.Release | pkg/manager/input/input-cursor/store.go:228-229 | pending counts one holder less and never underflows |
| Cursors.Resource.UpdatesReleaseN | pkg/manager/input/input-cursor/store.go:231-234 | after the release pending again counts holders plus outstanding updates |
| Cursors.Resource.Restored | pkg/manager/input/input-cursor/store.go:291-302 | a restored resource has the stored document as its in-sync state and nothing pending |
| InputSessions.ScanBatch | pkg/manager/input/input-cursor/input.go:164-187 | the loop finds how many updates a batch holds and the last of them |
| InputSessions.CursorAppend | pkg/manager/input/input-cursor/publish.go:115-124 | executing only the last update of a batch gives the cursor after all its events |
| InputSessions.WriteKeepsBehind | pkg/manager/input/input-cursor/publish.go:130-138 | a write, complete, failed or cut by a crash, leaves no cursor on disk that is ahead of the reported events or behind the last successful write |
| InputSessions.InputSession.Yield | pkg/statestore/store.go:95-130 | a command of another client of the store, on a key of its own, successful or not: the session stays valid and no crash on the way gets ahead of the ACKs or behind what was covered |
| InputSessions.InputSession.OnBatch | pkg/manager/input/input-cursor/input.go:164-187 | after a reported batch the in-sync cursor is the last update in the reported prefix, and a successful write has stored it |
| InputSessions.InputSession.Forward | pkg/manager/input/input-cursor/publish.go:67-73 | a dropped event with nothing outstanding is reported at once, any other event waits |
| InputSessions.InputSession.Publish | pkg/manager/input/input-cursor/publish.go:53-65 | with or without an update, forwarded or dropped, the cursor invariant holds and no crash gets ahead of the ACKs |
| InputSessions.InputSession.ACKEvents | pkg/manager/input/input-cursor/input.go:164-187 | an ACK moves the cursor to the last update among exactly the events it covers, in memory and, if the write succeeds, on disk |
| InputSessions.AckedCursorIsDurable | pkg/manager/input/input-cursor/publish.go:130-138 | after a successful write the recovered document is the in-sync state and its cursor the last update in the reported prefix |
| InputSessions.OpenResource | pkg/manager/input/input-cursor/store.go:274-311 | the resource of a stored key has the stored document as its in-sync state; any other starts empty and not stored |
| InputSessions.StartSession | pkg/manager/input/input-cursor/input.go:134-155 | the input starts from the in-sync cursor with nothing reported, after its time to live, and the start time if there was no update time, have been written with that cursor, unless they are stored already |
| InputSessions.Resume | pkg/manager/input/input-cursor/input.go:121-155 | after a crash anywhere the input resumes after some prefix of the events reported before, no shorter than what was covered, with the stored document brought to its time to live, on disk if nothing fails; a crash while it does so gets no further; nothing is claimed if opening lost something to a failing read |
| InputSessions.CursorResumes | pkg/manager/input/input-cursor/input.go:134-155 | an input that resumes from the cursor after some events and reports more ends where one that never stopped would |
| InputSessions.BehindResumes | pkg/manager/input/input-cursor/input.go:134-155 | a stored cursor within what a resumed input has reported is within old and new events together |
| InputRuns.ReportedIs | pkg/publisher/acker/acker.go:220-247 | the values handed out are exactly those of the longest prefix of all events with as many published ones as were ACKed |
| InputRuns.TakeEmit | pkg/manager/input/input-cursor/publish.go:53-101 | a publish keeps the session in step with the actions; what is persisted stays up to date unless a write fails |
| InputRuns.TakeAck | pkg/manager/input/input-cursor/input.go:164-187 | an ACK keeps the session in step with the actions, or panics exactly if more has been ACKed than published |
| InputRuns.TakeOther | pkg/statestore/store.go:95-130 | whatever another client does to keys of its own, and whether it succeeds, the session stays in step and what is persisted stays persisted; no crash on the way gets ahead of the ACKs |
| InputRuns.Take | pkg/manager/input/input-cursor/publish.go:130-138 | no directory a crash can leave up to the end of an action is ahead of what is reported by then or behind the last successful write |
| InputRuns.Run | pkg/manager/input/input-cursor/publish.go:53-139 | any publishes and ACKs, and any commands of other clients on other keys of the store: the cursor is the last update in the reported prefix; during each action no crash recovers a cursor ahead of what is reported by its end or behind the last successful write before it; unless the last write that was needed failed the cursor is on disk; none succeeds on a closed handle; a write is needed exactly for the actions that report another update; the run panics exactly at the first excess ACK |
| InputRuns.Life | pkg/manager/input/input-cursor/input.go:121-187 | a life started on a crashed directory resumes after a prefix of the events reported before that includes all covered ones, continues from there with the same promises for each action, and leaves at every moment a directory from which the next life can start; once the document has the time to live of the input, every crash recovers it with that; nothing is claimed if opening lost something to a failing read |
| InputRuns.CrashPoint | pkg/manager/input/input-cursor/input.go:121-155 | whichever state of a life a crash leaves, the next life can start from it with the events reported and the writes confirmed by the action it fell into, and the document has the time to live if it had when the input started |
| InputRuns.Lives | pkg/manager/input/input-cursor/input.go:121-187 | any number of lives, each ended by a crash anywhere: each resumes after events that the lives before it have reported, what a successful write has covered is never lost, and a document that had been written with its time to live is recovered with it; up to the first life whose opening loses something to a failing read |
| Handovers.InOrderIsExact | pkg/manager/input/input-cursor/publish.go:35-54 | with successive inputs on one resource and the ACKs in the order of creation across their clients, the cursor is the last update of the joint reported prefix |
| Handovers.ExactlyWithoutGoingBack | pkg/manager/input/input-cursor/publish.go:104-128 | in any order of the ACKs, the cursor is the newest executed update throughout if and only if no ACK of an older update comes later and leaves others outstanding |
| Handovers.OnlyOlderACKsGoBack | pkg/manager/input/input-cursor/publish.go:115-124 | one step that executes updates leaves the cursor at the newest of them exactly in that case |
| Handovers.OlderACKCanGoBack | pkg/manager/input/input-cursor/publish.go:115-124 | a dropped first event of the new input, reported at once, and then an ACK for the old input: the cursor steps back |
| Handovers.QuietIsLatest | pkg/manager/input/input-cursor/publish.go:115-120 | once nothing is outstanding the cursor is the last update created, whichever way the ACKs came |
| AckerCursors.EveryScheduleIsSafe | pkg/manager/input/input-cursor/input.go:164-187 | in every interleaving of an input with the ACK thread the updates executed are just those of the events whose values the callbacks have got |
| AckerCursors.CallbackIsEnabled | pkg/manager/input/input-cursor/publish.go:110-128 | the updates in a slice are outstanding when its callback runs, so the callback can always run |
| AckerCursors.BatchIsExact | pkg/manager/input/input-cursor/input.go:164-187 | the number of updates counted in a slice is by how many the outstanding ones decrease |
| AckerCursors.OnlyCallbacksPutBack | pkg/manager/input/input-cursor/publish.go:115-124 | one step takes the cursor from the newest update executed exactly if a callback gets an update behind one already executed and leaves another outstanding |
| AckerCursors.PutBackIsOvertaken | pkg/publisher/acker/acker.go:130-140 | such a callback is one for an ACK, overtaken by a dropped event |
| AckerCursors.NewestExactlyWithoutPutBack | pkg/manager/input/input-cursor/publish.go:48-54 | the cursor is the newest update executed throughout a schedule if and only if no such callback is in it |
| AckerCursors.NewestInSequence | pkg/manager/input/input-cursor/publish.go:48-54 | so it is while the callbacks get the values in the order of the buffer |
| AckerCursors.CallbackCanPutBack | pkg/manager/input/input-cursor/publish.go:115-124 | one event published and ACKed, the next dropped before the callback, a third update created: the callback puts the cursor back to the first update |
| ResourceTables.States.Read | pkg/manager/input/input-cursor/store.go:274-311 | exactly the documents that decode and whose key is the prefix, two colons and anything become resources, with the same in-sync state |
| ResourceTables.States.Find | pkg/manager/input/input-cursor/store.go:190-214 | an existing resource is retained and returned, a missing one is made on request |
| ResourceTables.States.CheckCleanResource | pkg/manager/input/input-cursor/clean.go:93-111 | true exactly if unowned, stored, and both the last update and the start of the cleaner are longer ago than the time to live |
| ResourceTables.States.GcFind | pkg/manager/input/input-cursor/clean.go:65-78 | finds exactly the expired keys |
| ResourceTables.States.RemoveKey | pkg/manager/input/input-cursor/clean.go:85-87 | the key leaves the table in memory, and on success the durable one; on a closed handle nothing changes |
| ResourceTables.States.GcClean | pkg/manager/input/input-cursor/clean.go:80-91 | table and store lose the same keys; after a failure at most the failing key is missing from the store alone, and keys not reached stay in both |
| ResourceTables.States.GcStore | pkg/manager/input/input-cursor/clean.go:40-63 | a pass removes expired keys only, all of them if nothing fails |
| ResourceTables.SweepAfterRead | pkg/manager/input/input-cursor/clean.go:46-91 | a pass on what was just read for a type removes only expired documents of that type, all of them if nothing fails, and leaves the documents of other types as they are |
| ResourceLifecycle.EveryScheduleIsSafe | pkg/manager/input/input-cursor/store.go:53-58 | under every interleaving of inputs, ACKs and cleaner, pending counts holders plus outstanding updates, a resource in use is the one the table has for its key, it is locked exactly by the input that runs on it, and the resources in the table that say stored are exactly those with a document, up to what failed operations did to the table in memory |
| ResourceLifecycle.OutstandingIsExact | pkg/manager/input/input-cursor/publish.go:93-128 | over any schedule the operations active on a resource are those created and not written, and those still to release it are those written and not released |
| ResourceLifecycle.OneRunnerPerKey | pkg/manager/input/input-cursor/manager.go:170-197 | at most one input has the lock for a key |
| ResourceLifecycle.LockedExactlyByRunner | pkg/manager/input/input-cursor/manager.go:170-197 | an input that waits gets the lock exactly if none runs on its resource |
| ResourceLifecycle.WritesAreForLiveKeys | pkg/manager/input/input-cursor/publish.go:104-139 | a write by an input or a late ACK is for the resource the table holds, so a cleaned key does not come back through it; one that succeeds leaves the document and the resource stored, and one that fails at most the document in the table in memory |
| ResourceLifecycle.SweepKeepsInv | pkg/manager/input/input-cursor/clean.go:46-91 | no step of the cleaner takes a resource in use out of the table |
| ResourceLifecycle.MarkedIsRemoved | pkg/manager/input/input-cursor/clean.go:80-91 | what was found it can remove, from the store and on success from the table; what it fails to remove stays in the table and ends the pass |
| ResourceLifecycle.FindKeepsInv | pkg/manager/input/input-cursor/store.go:192-214 | a new resource never stands beside one in use for the same key |
| Registries.Registry.Get | pkg/statestore/registry.go:43-66 | one more open handle on the one active store of the name, opened on demand |
| Registries.Registry.Share | pkg/statestore/store.go:41-46 | the reference count stays the number of open handles |
| Registries.Registry.Open | pkg/statestore/registry.go:50-63 | the deferred release of the creator is never the last one |
| Registries.Registry.Close | pkg/statestore/store.go:48-60 | only the first close of a handle counts; the backend is closed exactly when no handle is left |
| Registries.Registry.Release | pkg/statestore/store.go:144-163 | the last release finds its store registered, so the panic for an unknown store is unreachable |
| ReleaseInterleaving.SoundWithoutRevival | pkg/statestore/store.go:144-163 | with the halves of a release apart, all is well as long as Get hands out no store whose count is zero |
| ReleaseInterleaving.RevivalCanPanic | pkg/statestore/registry.go:68-76 | a schedule with such a Get in which a store is unregistered twice and the second time panics |
| ReleaseInterleaving.RevivalCanOrphan | pkg/statestore/registry.go:68-76 | a schedule with such a Get in which a store in use is taken out of the registry |
| ReleaseInterleaving.HarmIsUnregisteringAClosedStore | pkg/statestore/store.go:144-163 | from a state without panic, without a store in use or open outside the registry, and without a closed one in it, a step leads to another such state exactly if it is no release that finds the count zero on a store whose backend is closed |
| ReleaseInterleaving.IntactExactlyWithoutStaleRelease | pkg/statestore/store.go:144-163 | every state of a schedule is such a state if and only if it has no such release |

## Left out

- JSON syntax, number fidelity and value conversion: values are abstract, a document that is cut short is one `Torn` token.
- Conversion of a cursor update is overwriting: the result depends on the update alone. `Execute(n)` skips the updates before the n-th, so the code relies on this.
- MemlogStores.Store.Set: values with a top-level `_key` are excluded by the type `Documents.Fields`; `Checkpoints.RoundTrip` shows that exactly these do not survive a checkpoint.
- Loss of file contents that were written but not synced (power loss): a crash is the end of the process. Syncs are no-ops of the model.
- MemlogRuns.Life: a life whose opening lost something to a failing read (`lost`) is not followed, nor are those after it; the same holds for `MemlogRuns.Lives`, `InputSessions.Resume`, `InputRuns.Life` and `InputRuns.Lives`. That includes every life whose data file was set aside, even where `Limits.SetAsideIsHarmlessExactly` says that the directory is as good as before.
- An encoder that fails in the middle of a log entry: values are in normal form and can be encoded (`pkg/statestore/backend/memlog/doc.go:17-18`), so only writes fail.
- Data files that do not decode, and logs with gaps written by another program, are outside the invariants; `Limits` shows what goes wrong with them.
- Permissions of the files are one step of the open that may fail. The contents of the marker file are never read.
- `logFileSize` and `logEntries`: the answer of the checkpoint predicate is arbitrary, so nothing depends on them.
- Use of a memlog store after its Close, which the code leaves undefined.
- InputSessions.StartSession: the resource has no updates of an earlier input in flight. `Handovers` treats successive inputs on one resource, with ACKs in any order, but without the store.
- `InputSessions` treats AddEvent and ACKEvents as atomic, callbacks included; `AckerInterleaving`, `AckerOrders` and `AckerCursors` show what finer steps allow. There the callback of a dropped event runs within its step, and there is no store.
- Inputs that run at the same time are followed one at a time: for each the others, the cleaner included, are commands on other keys (`InputRuns.Action.Other`), which `ResourceLifecycle` shows them to be.
- A second input on a resource whose last write failed, in the same process: `InputSessions` starts from a resource just read from the store.
- Store.Close of memlog: it only syncs and closes the log file.
- Documents that do not decode: `ResourceLifecycle` has the keys of decodable documents only; `ResourceTables.States.Read` covers the others.
- Data files whose names are numbers written in another way (leading zeros): a name is its txid.
- Clocks are parameters. That `updated` reaches the timestamps of all executed updates (`Cursors.Resource.Timed`) is claimed as long as the clock is not set back between updates, because one `Execute` looks at the last of them only.
- `ConnectionOnly`, `Combine`, `RawCounting`, stateless inputs, plugin loading, configuration and the load generator: plumbing.
