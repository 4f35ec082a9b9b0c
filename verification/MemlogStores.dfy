/** The key-value store: a table in memory, kept durable by a disk store. */
module MemlogStores {
  import opened Documents
  import opened TxIds
  import opened DataFiles
  import opened Replay
  import opened FileSystems
  import opened Durability
  import opened DiskStores
  import Checkpoints

  // loadLogFile and readLogFile: the log is decoded document by document.
  method LoadLogFile(log: seq<Token>, base: TxId, tbl: Table) returns (table: Table, txid: TxId, entries: nat, ok: bool)
    ensures Replayed(table, txid, entries, ok) == Run(log, base, tbl)
  {
    table, txid, entries, ok := tbl, base, 0, true;
    var pos := 0;
    while pos < |log|
      invariant 0 <= pos <= |log| && ok
      invariant Then(Replayed(table, txid, entries, true), Run(log[pos..], txid, table)) == Run(log, base, tbl)
    {
      hide Inc, IsTxIDLessEqual;
      ghost var rest := log[pos..];
      if !log[pos].Action? || pos + 1 == |log| {
        return table, txid, entries, false;
      }
      var decoded := DecodeOp(log[pos].name, log[pos + 1]);
      if decoded.None? {
        return table, txid, entries, false;
      }
      var id := log[pos].id;
      assert rest[2..] == log[pos + 2..];
      pos := pos + 2;
      if IsTxIDLessEqual(id, txid) {
        continue;
      }
      if id != Inc(txid) {
        return table, txid, entries, false;
      }
      txid := id;
      entries := entries + 1;
      match decoded.value {
        case OpSet(k, v) => table := table[k := v];
        case OpRemove(k) => table := table - {k};
      }
    }
  }

  // What a read that fails and is not noticed makes of the directory: the
  // newest data file counts as empty, or the end of the log is missing.
  ghost predicate Misreads(disk: Disk, table: Table, txid: TxId, ok: bool) {
    exists seen, tbl, entries ::
      && (tbl == Base(disk).1 || tbl == map[]) && (seen == disk.log || IsCutShort(seen, disk.log))
      && Run(seen, Base(disk).0, tbl) == Replayed(table, txid, entries, ok)
  }

  // What has been read is what the directory holds, and still does. The log may
  // be distrusted without need.
  ghost predicate Unharmed(was: Disk, disk: Disk, table: Table, next: TxId, logInvalid: bool) {
    var r := Recover(was);
    SameData(disk, was) && table == r.table && next == Inc(r.txid) && (logInvalid || r.ok)
  }

  // At most the newest data file has been set aside.
  ghost predicate SetAsideAtMost(was: Disk, disk: Disk) {
    disk.log == was.log && (disk.files == was.files || disk.files == was.files - {Base(was).0})
  }

  lemma NotOpenAfterAll(was: Home, states: seq<Home>, home: HomeDirectory, ignoreVersionCheck: bool)
    requires HomeAfter(was, states, home, true, ignoreVersionCheck)
    ensures HomeAfter(was, states, home, false, ignoreVersionCheck)
  {
  }

  // The newest data file. One that does not decode, be it only because reading
  // it fails on the way, is set aside and counts as empty.
  method LoadDataFile(fs: FileSystem, base: TxId) returns (readable: bool, tbl: Table, misread: bool)
    requires base in fs.disk.files
    modifies fs
    ensures fs.faults >= old(fs.faults) && (!readable || misread ==> fs.faults > old(fs.faults))
    ensures !readable ==> !misread && fs.disk == old(fs.disk)
    ensures fs.disk.files == old(fs.disk.files) ==>
      SameData(fs.disk, old(fs.disk)) && Quiet(fs.trace, old(fs.trace), old(fs.disk))
    ensures var decoded := Checkpoints.Decode(old(fs.disk).files[base]);
      && (readable ==> tbl == if misread || decoded.None? then map[] else decoded.value)
      && (!misread && decoded.Some? ==> fs.disk == old(fs.disk))
    ensures fs.disk.log == old(fs.disk.log) && Extends(fs.trace, old(fs.trace))
    ensures fs.disk.files == old(fs.disk.files) || fs.disk.files == old(fs.disk.files) - {base}
    // it stays only if it decodes, or if setting it aside fails
    ensures readable && (misread || Checkpoints.Decode(old(fs.disk).files[base]).None?) ==>
      fs.disk.files == old(fs.disk.files) - {base} || fs.faults > old(fs.faults) + if misread then 1 else 0
  {
    hide Checkpoints.Decode;
    readable := fs.TryToRead();
    tbl, misread := map[], false;
    if !readable {
      return;
    }
    var content;
    content, misread := fs.ReadDataFile(base);
    match content {
      case Some(loaded) => tbl := loaded;
      case None => var _ := fs.SetAsideDataFile(base);
    }
  }

  // The data file and the log, as openStore reads them. A data file that can
  // not be opened, or a listing that fails, makes the open fail. The code does
  // not notice when a later read fails; `lost` says that one has and that it
  // does harm, which can be seen only by comparing with what is on disk.
  method LoadTable(fs: FileSystem, ghost room: nat)
    returns (readable: bool, sorted: seq<TxId>, table: Table, txid: TxId, ok: bool, lost: bool)
    requires Comparable(fs.disk, room) && 0 < room
    modifies fs
    ensures fs.faults >= old(fs.faults) && (!readable || lost ==> fs.faults > old(fs.faults)) && (!readable ==> !lost)
    ensures readable && !lost ==>
      var r := Recover(old(fs.disk)); table == r.table && txid == r.txid && (ok ==> r.ok)
    ensures readable && fs.faults == old(fs.faults) ==> ok == Recover(old(fs.disk)).ok
    ensures readable ==> Misreads(old(fs.disk), table, txid, ok)
    ensures SetAsideAtMost(old(fs.disk), fs.disk) && Extends(fs.trace, old(fs.trace))
    ensures readable && fs.faults == old(fs.faults) && !old(Intact(fs.disk)) ==>
      fs.disk.files == old(fs.disk).files - {Base(old(fs.disk)).0}
    ensures !lost && old(Intact(fs.disk)) ==>
      SameData(fs.disk, old(fs.disk)) && Quiet(fs.trace, old(fs.trace), old(fs.disk))
    ensures readable && old(Intact(fs.disk)) ==> (lost <==> !Unharmed(old(fs.disk), fs.disk, table, Inc(txid), !ok))
    ensures readable && !lost && old(Intact(fs.disk)) ==>
      Consistent(fs.disk, Inc(txid), ActiveOf(sorted), OldsOf(sorted), !ok, false, room)
  {
    hide Comparable, Consistent, SortDataFileInfos, Run, Checkpoints.Decode, IsCutShort, Inc;
    ghost var before, start := fs.disk, fs.trace;
    NothingYet(start, before);
    readable, sorted, table, txid, ok, lost := false, [], map[], 0, false, false;
    var infos, listed := fs.ListDataFiles();
    if !listed {
      return;
    }
    sorted := SortDataFileInfos(infos);
    ListingFindsNewest(before, infos, room);
    var files, tbl: Table, misread, decodes := fs.disk.files, map[], false, true;
    var base: TxId, whole := 0, tbl;
    if |sorted| > 0 {
      base := sorted[|sorted| - 1];
      var content := Checkpoints.Decode(files[base]);
      decodes, whole := content.Some?, if content.Some? then content.value else map[];
      var isRead;
      isRead, tbl, misread := LoadDataFile(fs, base);
      if !isRead {
        return;
      }
    }
    assert (base, whole) == Base(before) && (decodes <==> Intact(before));
    assert tbl == whole || tbl == map[];
    readable := true;
    var entries;
    var seen, cut := fs.ReadLog();
    table, txid, entries, ok := LoadLogFile(seen, base, tbl);
    var all := Run(fs.disk.log, base, whole);
    lost := (misread || cut) &&
            !((!decodes || fs.disk.files == files) && table == all.table && txid == all.txid && (ok ==> all.ok));
    assert all == Recover(before);
    UnharmedIs(before, fs.disk, table, txid, ok);
    if Intact(before) && !lost {
      LoadedIsConsistent(before, fs.disk, infos, room, ok);
    }
  }

  lemma UnharmedStays(was: Disk, loaded: Disk, disk: Disk, table: Table, next: TxId, logInvalid: bool)
    requires SameData(disk, loaded)
    ensures Unharmed(was, disk, table, next, logInvalid) <==> Unharmed(was, loaded, table, next, logInvalid)
  {
    hide Recover;
  }

  lemma NothingYet(trace: seq<Disk>, disk: Disk)
    ensures Quiet(trace, trace, disk) && Extends(trace, trace) && SameData(disk, disk)
  {
  }

  lemma UnharmedIs(was: Disk, disk: Disk, table: Table, txid: TxId, ok: bool)
    ensures var r := Recover(was);
      Unharmed(was, disk, table, Inc(txid), !ok) <==>
      SameData(disk, was) && table == r.table && txid == r.txid && (ok ==> r.ok)
  {
    hide Recover;
  }

  lemma LoadedIsConsistent(was: Disk, disk: Disk, infos: seq<TxId>, room: nat, ok: bool)
    requires WellFormed(was, room) && 0 < room && Distinct(infos) && forall id :: id in infos <==> id in was.files
    requires SameData(disk, was) && (ok ==> Recover(was).ok)
    ensures var sorted := SortDataFileInfos(infos);
      Consistent(disk, Inc(Recover(was).txid), ActiveOf(sorted), OldsOf(sorted), !ok, false, room)
  {
    hide Consistent, Recover, Comparable, Intact, SortDataFileInfos, ActiveOf, OldsOf, Inc;
    var r, sorted := Recover(was), SortDataFileInfos(infos);
    OpenedIsConsistent(was, infos, room);
    SameDataRecovers(was, disk);
    Weaken(was, Inc(r.txid), ActiveOf(sorted), OldsOf(sorted), !r.ok, false, room);
  }

  // Nothing is ever appended to a log that is not trusted: a failed update
  // leaves the files as they are, and a successful one was a checkpoint against
  // which all that is left of the log is stale.
  ghost predicate PastBrokenLog(disk: DiskStore, next: TxId, was: Disk, ok: bool)
    reads disk, disk.fs
  {
    && disk.logInvalid
    && if ok then disk.activeDataFile == Some(next) && HidesLog(next, was.log, disk.fs.disk.log)
       else SameData(disk.fs.disk, was)
  }

  lemma NothingAppended(disk: DiskStore)
    ensures disk.logInvalid ==> PastBrokenLog(disk, disk.nextTxID, disk.fs.disk, false)
  {
  }

  // A checkpoint `id` has been written and made active, the whole log is stale
  // against it, and it has been emptied unless something failed.
  ghost predicate Compacted(disk: DiskStore, id: TxId, was: Disk, wasOpen: bool, failed: bool)
    reads disk, disk.fs
  {
    && disk.activeDataFile == Some(id) && disk.nextTxID == Inc(id) && id in disk.fs.disk.files
    && HidesLog(id, was.log, disk.fs.disk.log)
    && (if disk.logFileOpen then disk.fs.disk.log == [] else disk.logNeedsTruncate)
    && (!failed ==> Tidy(disk, id, was, wasOpen))
  }

  // The entry has been appended to the log, emptied first if that was due, and
  // nothing else has changed.
  ghost predicate Appended(disk: DiskStore, id: TxId, op: Op, was: Disk, truncate: bool)
    reads disk, disk.fs
  {
    && disk.nextTxID == Inc(id) && disk.logFileOpen
    && disk.fs.disk == was.(log := (if truncate then [] else was.log) + Entry(id, op))
  }

  // What an update leaves that reports success.
  ghost predicate Logged(disk: DiskStore, compact: bool, id: TxId, op: Op, was: Disk, wasOpen: bool, truncate: bool,
                         failed: bool)
    reads disk, disk.fs
  {
    if compact then Compacted(disk, id, was, wasOpen, failed) else Appended(disk, id, op, was, truncate)
  }

  class Store {
    const disk: DiskStore
    var table: Table

    // The table when the store was opened and after each update since.
    ghost var history: seq<Table>
    // The element of `history` that the directory holds.
    ghost var durable: nat
    // The last element of `history` whose update, or a later checkpoint, reported success.
    ghost var acked: nat

    ghost predicate Valid()
      reads this, disk, disk.fs
    {
      && disk.Valid()
      && acked <= durable < |history|
      && history[|history| - 1] == table
      && Recover(disk.fs.disk).table == history[durable]
      && (!disk.logInvalid ==> durable == |history| - 1)
    }

    // Whenever the process stops between two operations, the store can be opened again.
    lemma IsWellFormed(left: nat)
      requires Valid() && left < disk.room
      ensures WellFormed(disk.fs.disk, left)
    {
      ConsistentIsWellFormed(disk.fs.disk, disk.nextTxID, disk.activeDataFile, disk.oldDataFiles, disk.logInvalid,
                             disk.logNeedsTruncate, disk.room, left);
    }

    // Nothing happens for a while; a crash may come.
    method Pause()
      requires Valid()
      modifies disk.fs
      ensures Valid() && disk.fs.disk == old(disk.fs.disk) && disk.fs.faults == old(disk.fs.faults)
      ensures disk.fs.trace == old(disk.fs.trace) + [disk.fs.disk]
    {
      hide Consistent, Recover;
      disk.fs.Pause();
    }

    constructor (disk: DiskStore, table: Table)
      ensures this.disk == disk && this.table == table
      ensures history == [table] && durable == 0 && acked == 0
    {
      this.disk := disk;
      this.table := table;
      history := [table];
      durable := 0;
      acked := 0;
    }

    // openStore. `lost` says that reads which failed unnoticed have done harm.
    static method Open(fs: FileSystem, ignoreVersionCheck: bool, ghost room: nat)
      returns (store: Store?, lost: bool)
      requires Comparable(fs.disk, room) && 0 < room
      modifies fs, fs.home
      ensures store != null ==> fresh(store) && fresh(store.disk) && store.disk.fs == fs
      // when it succeeds
      ensures fs.faults >= old(fs.faults) && (lost ==> fs.faults > old(fs.faults))
      ensures store == null ==> fs.faults > old(fs.faults) || (old(fs.home.state) == Unfinished && !ignoreVersionCheck)
      ensures HomeAfter(old(fs.home.state), old(fs.home.states), fs.home, store != null, ignoreVersionCheck)
      // what it reads
      ensures store != null && !lost ==>
        var r := Recover(old(fs.disk));
        store.table == r.table && store.disk.nextTxID == Inc(r.txid) && (store.disk.logInvalid || r.ok)
      ensures store != null && fs.faults == old(fs.faults) ==> store.disk.logInvalid == !Recover(old(fs.disk)).ok
      ensures store != null ==>
        exists txid :: store.disk.nextTxID == Inc(txid)
                       && Misreads(old(fs.disk), store.table, txid, !store.disk.logInvalid)
      // what it leaves
      ensures SetAsideAtMost(old(fs.disk), fs.disk) && Extends(fs.trace, old(fs.trace))
      ensures store != null ==> fs.disk.checkpointTmp == None && !fs.disk.activeTmp
      ensures store != null && fs.faults == old(fs.faults) && !old(Intact(fs.disk)) ==>
        fs.disk.files == old(fs.disk).files - {Base(old(fs.disk)).0}
      ensures store != null && fs.faults == old(fs.faults) ==> store.disk.logFileOpen
      ensures !lost && old(Intact(fs.disk)) ==>
        SameData(fs.disk, old(fs.disk)) && Quiet(fs.trace, old(fs.trace), old(fs.disk))
      ensures store != null && old(Intact(fs.disk)) ==>
        (lost <==> !Unharmed(old(fs.disk), fs.disk, store.table, store.disk.nextTxID, store.disk.logInvalid))
      ensures !lost && old(Intact(fs.disk)) && store != null ==>
        store.Valid() && store.disk.room == room && store.history == [store.table]
    {
      hide Consistent, Recover, Intact, Comparable, Quiet, Misreads;
      ghost var made, states := fs.home.state, fs.home.states;
      store, lost := null, false;
      ghost var before, start := fs.disk, fs.trace;
      QuietFirst(start, before);
      var checked := fs.CheckHome(ignoreVersionCheck);
      if !checked {
        return;
      }
      NotOpenAfterAll(made, states, fs.home, ignoreVersionCheck);
      ghost var checkedTrace := fs.trace;
      assert Extends(checkedTrace, start);
      hide HomeAfter, Extends;
      var readable, sorted, table, txid, ok;
      readable, sorted, table, txid, ok, lost := LoadTable(fs, room);
      ghost var loaded, trace := fs.disk, fs.trace;
      ExtendsFurther(trace, checkedTrace, start);
      if !lost && Intact(before) {
        QuietSteps(trace, checkedTrace, start, before, before);
      }
      if !readable {
        return;
      }
      store := Assemble(fs, sorted, table, txid, ok, room);
      QuietExtends(fs.trace, trace, loaded);
      ExtendsFurther(fs.trace, trace, start);
      UnharmedStays(before, loaded, fs.disk, table, Inc(txid), !ok);
      if !lost && Intact(before) {
        SameDataRecovers(before, loaded);
        QuietSteps(fs.trace, trace, start, before, loaded);
      }
    }

    // newDiskStore, on what has been loaded.
    static method Assemble(fs: FileSystem, sorted: seq<TxId>, table: Table, txid: TxId, ok: bool, ghost room: nat)
      returns (store: Store?)
      modifies fs
      ensures SameData(fs.disk, old(fs.disk)) && Quiet(fs.trace, old(fs.trace), old(fs.disk))
      ensures fs.faults >= old(fs.faults) && (store == null ==> fs.faults > old(fs.faults))
      ensures store != null ==>
        && fresh(store) && fresh(store.disk) && store.disk.fs == fs
        && store.table == table && store.disk.nextTxID == Inc(txid) && store.disk.logInvalid == !ok
        && store.disk.activeDataFile == ActiveOf(sorted) && store.disk.oldDataFiles == OldsOf(sorted)
        && fs.disk.checkpointTmp == None && !fs.disk.activeTmp
        && (fs.faults == old(fs.faults) ==> store.disk.logFileOpen)
      ensures store != null && old(Recover(fs.disk)).table == table
              && old(Consistent(fs.disk, Inc(txid), ActiveOf(sorted), OldsOf(sorted), !ok, false, room)) ==>
        store.Valid() && store.disk.room == room && store.history == [table]
    {
      hide Consistent, Recover, Inc;
      store := null;
      ghost var loaded, trace := fs.disk, fs.trace;
      var disk := new DiskStore(fs, sorted, txid, !ok, room);
      var removed := RemoveTemporaryFiles(fs);
      SameDataRecovers(loaded, fs.disk);
      if !removed {
        return;
      }
      ghost var cleaned := fs.trace;
      disk.OpenLogOnStart();
      QuietStep(cleaned, trace, loaded, fs.disk);
      store := new Store(disk, table);
    }

    // Files of an instance that was interrupted during a checkpoint.
    static method RemoveTemporaryFiles(fs: FileSystem) returns (ok: bool)
      modifies fs
      ensures SameData(fs.disk, old(fs.disk)) && Quiet(fs.trace, old(fs.trace), old(fs.disk))
      ensures if ok then fs.faults == old(fs.faults) else fs.faults > old(fs.faults)
      ensures ok ==> fs.disk.checkpointTmp == None && !fs.disk.activeTmp
    {
      ok := fs.RemoveCheckpointTmp();
      if ok {
        ok := fs.RemoveActiveTmp();
      }
    }

    // logOperation, after `op` has been applied to the table. `full` is the
    // answer of the checkpoint predicate.
    method LogOperation(op: Op, full: bool) returns (ok: bool)
      requires disk.Valid() && 2 < disk.room
      requires !disk.logInvalid ==> table == Apply(op, Recover(disk.fs.disk).table)
      modifies disk, disk.fs
      ensures disk.Valid() && old(disk.room) - 1 <= disk.room <= old(disk.room)
      ensures ok || !disk.logInvalid ==> Recover(disk.fs.disk).table == table
      ensures disk.fs.faults >= old(disk.fs.faults) && (!ok ==> disk.fs.faults > old(disk.fs.faults))
      ensures Recover(disk.fs.disk).table == old(Recover(disk.fs.disk).table) || Recover(disk.fs.disk).table == table
      ensures Extends(disk.fs.trace, old(disk.fs.trace))
      ensures CrashSafe(disk.fs.trace, |old(disk.fs.trace)|, old(Recover(disk.fs.disk).table), table,
                        old(disk.room) - 2)
      ensures old(disk.logInvalid) ==> PastBrokenLog(disk, old(disk.nextTxID), old(disk.fs.disk), ok)
      // a checkpoint if the log is distrusted or the predicate says so, and otherwise an entry
      ensures ok ==>
        Logged(disk, old(disk.logInvalid) || full, old(disk.nextTxID), op, old(disk.fs.disk),
               old(disk.logFileOpen), old(disk.logNeedsTruncate), disk.fs.faults > old(disk.fs.faults))
      ensures !full && !old(disk.logInvalid) ==>
        disk.activeDataFile == old(disk.activeDataFile) && disk.fs.disk == old(disk.fs.disk).(log := disk.fs.disk.log)
    {
      hide Consistent, Recover, WellFormed, Apply, Tidy;
      if disk.logInvalid || full {
        ghost var before, from, left := Recover(disk.fs.disk).table, |disk.fs.trace|, disk.room - 2;
        ok := disk.WriteCheckpoint(table);
        ghost var trace := disk.fs.trace;
        CommitsAreSafe(trace, from, old(disk.nextTxID), before, table, left);
        if !ok {
          SameDataRecovers(old(disk.fs.disk), disk.fs.disk);
          hide CommitsWith, CrashSafe;
          var _ := disk.LogOperation(op);
          if Apply(op, before) == table {
            StillSafe(disk.fs.trace, trace, from, before, table, left);
          }
        }
        return;
      }
      ok := disk.LogOperation(op);
    }

    ghost method Record(ok: bool)
      requires history != [] && (Recover(disk.fs.disk).table == table || durable < |history|)
      modifies this`history, this`durable, this`acked
      ensures history == old(history) + [table]
      ensures durable == if Recover(disk.fs.disk).table == table then |history| - 1 else old(durable)
      ensures acked == if ok then |history| - 1 else old(acked)
    {
      history := history + [table];
      durable := if Recover(disk.fs.disk).table == table then |history| - 1 else durable;
      acked := if ok then |history| - 1 else acked;
    }

    // `value` is the normal form of the value, if it is convertible.
    method Set(key: string, value: Fields, convertible: bool, full: bool) returns (ok: bool)
      requires Valid() && 2 < disk.room
      modifies this, disk, disk.fs
      ensures Valid() && old(disk.room) - 1 <= disk.room <= old(disk.room)
      ensures !convertible ==>
        !ok && table == old(table) && history == old(history) && disk.fs.disk == old(disk.fs.disk)
      ensures convertible ==> table == old(table)[key := value] && history == old(history) + [table]
      ensures durable == old(durable) || durable == |history| - 1
      ensures acked == if ok then |history| - 1 else old(acked)
      ensures ok ==> durable == acked
      ensures old(disk.logInvalid) ==> PastBrokenLog(disk, old(disk.nextTxID), old(disk.fs.disk), ok)
      // a checkpoint if the log is distrusted or the predicate says so, and otherwise an entry
      ensures ok ==>
        Logged(disk, old(disk.logInvalid) || full, old(disk.nextTxID), OpSet(key, value), old(disk.fs.disk),
               old(disk.logFileOpen), old(disk.logNeedsTruncate), disk.fs.faults > old(disk.fs.faults))
      ensures !full && !old(disk.logInvalid) ==>
        disk.activeDataFile == old(disk.activeDataFile) && disk.fs.disk == old(disk.fs.disk).(log := disk.fs.disk.log)
      ensures disk.fs.faults >= old(disk.fs.faults) && (!ok && convertible ==> disk.fs.faults > old(disk.fs.faults))
      ensures Extends(disk.fs.trace, old(disk.fs.trace))
      ensures CrashSafe(disk.fs.trace, |old(disk.fs.trace)|, old(history[durable]), table, old(disk.room) - 2)
    {
      hide Consistent, Recover, WellFormed, PastBrokenLog, Logged;
      if !convertible {
        NothingAppended(disk);
        return false;
      }
      table := table[key := value];
      ok := LogOperation(OpSet(key, value), full);
      Record(ok);
    }

    method Remove(key: string, full: bool) returns (ok: bool)
      requires Valid() && 2 < disk.room
      modifies this, disk, disk.fs
      ensures Valid() && old(disk.room) - 1 <= disk.room <= old(disk.room)
      ensures table == old(table) - {key} && history == old(history) + [table]
      ensures durable == old(durable) || durable == |history| - 1
      ensures acked == if ok then |history| - 1 else old(acked)
      ensures ok ==> durable == acked
      ensures old(disk.logInvalid) ==> PastBrokenLog(disk, old(disk.nextTxID), old(disk.fs.disk), ok)
      // a checkpoint if the log is distrusted or the predicate says so, and otherwise an entry
      ensures ok ==>
        Logged(disk, old(disk.logInvalid) || full, old(disk.nextTxID), OpRemove(key), old(disk.fs.disk),
               old(disk.logFileOpen), old(disk.logNeedsTruncate), disk.fs.faults > old(disk.fs.faults))
      ensures !full && !old(disk.logInvalid) ==>
        disk.activeDataFile == old(disk.activeDataFile) && disk.fs.disk == old(disk.fs.disk).(log := disk.fs.disk.log)
      ensures disk.fs.faults >= old(disk.fs.faults) && (!ok ==> disk.fs.faults > old(disk.fs.faults))
      ensures Extends(disk.fs.trace, old(disk.fs.trace))
      ensures CrashSafe(disk.fs.trace, |old(disk.fs.trace)|, old(history[durable]), table, old(disk.room) - 2)
    {
      hide Consistent, Recover, WellFormed, PastBrokenLog, Logged;
      table := table - {key};
      ok := LogOperation(OpRemove(key), full);
      Record(ok);
    }

    method Checkpoint() returns (ok: bool)
      requires Valid() && 2 < disk.room
      modifies this, disk, disk.fs
      ensures Valid() && old(disk.room) - 1 <= disk.room <= old(disk.room)
      ensures table == old(table) && history == old(history)
      ensures ok ==> acked == durable == |history| - 1
      ensures !ok ==> acked == old(acked) && durable == old(durable)
      ensures disk.fs.faults >= old(disk.fs.faults) && (!ok ==> disk.fs.faults > old(disk.fs.faults))
      ensures Extends(disk.fs.trace, old(disk.fs.trace))
      ensures ok ==>
        Compacted(disk, old(disk.nextTxID), old(disk.fs.disk), old(disk.logFileOpen),
                  disk.fs.faults > old(disk.fs.faults))
      ensures CommitsWith(disk.fs.trace, |old(disk.fs.trace)|, old(disk.nextTxID),
                          old(history[durable]), table, old(disk.room) - 2)
    {
      hide Consistent, WellFormed, Base, Run, Tidy;
      ok := disk.WriteCheckpoint(table);
      if ok {
        durable := |history| - 1;
        acked := durable;
      } else {
        SameDataRecovers(old(disk.fs.disk), disk.fs.disk);
      }
    }
  }
}
