/** The on-disk half of a store: checkpoints, the update log, and their recovery. */
module DiskStores {
  import opened Documents
  import opened TxIds
  import opened Replay
  import opened FileSystems
  import opened Durability
  import Checkpoints

  // The trace only grows.
  ghost predicate Extends(now: seq<Disk>, was: seq<Disk>) {
    |was| <= |now| && now[..|was|] == was
  }

  lemma ExtendsItself(trace: seq<Disk>)
    ensures Extends(trace, trace)
  {
  }

  lemma ExtendsFurther(later: seq<Disk>, now: seq<Disk>, was: seq<Disk>)
    requires Extends(later, now) && Extends(now, was)
    ensures Extends(later, was)
  {
    assert later[..|was|] == later[..|now|][..|was|];
  }

  // The last mark up to `m` that is not behind `i`, so that `i` falls between it and the next.
  lemma FindMark(marks: seq<nat>, i: nat, m: nat) returns (k: nat)
    requires m < |marks| && marks[0] <= i
    ensures k <= m && marks[k] <= i && (k < m ==> i < marks[k + 1])
  {
    if marks[m] <= i {
      k := m;
    } else {
      k := FindMark(marks, i, m - 1);
    }
  }

  // The trace grew from `was`, by states that do not differ from `disk` in
  // what is read on open.
  ghost predicate Quiet(now: seq<Disk>, was: seq<Disk>, disk: Disk) {
    Extends(now, was) && forall i :: |was| <= i < |now| ==> SameData(now[i], disk)
  }

  lemma QuietExtends(now: seq<Disk>, was: seq<Disk>, disk: Disk)
    requires Quiet(now, was, disk)
    ensures Extends(now, was)
  {
  }

  lemma QuietFirst(was: seq<Disk>, disk: Disk)
    ensures Quiet(was + [disk], was, disk)
  {
  }

  lemma QuietStep(now: seq<Disk>, was: seq<Disk>, disk: Disk, next: Disk)
    requires Quiet(now, was, disk) && SameData(next, disk)
    ensures Quiet(now + [next], was, disk)
  {
  }

  lemma QuietSteps(later: seq<Disk>, now: seq<Disk>, was: seq<Disk>, disk: Disk, other: Disk)
    requires Quiet(now, was, disk) && Quiet(later, now, other) && SameData(other, disk)
    ensures Quiet(later, was, disk)
  {
    assert later[..|was|] == later[..|now|][..|was|];
  }

  // A crash in any state since `from` leaves a directory from which the store
  // recovers either `before` or `after`.
  ghost predicate CrashSafe(trace: seq<Disk>, from: nat, before: Table, after: Table, left: nat) {
    forall i :: from <= i < |trace| ==>
      WellFormed(trace[i], left) && (Recover(trace[i]).table == before || Recover(trace[i]).table == after)
  }

  // The same, and the data file `id` is what tells the two apart.
  ghost predicate Commits(disk: Disk, id: TxId, before: Table, after: Table, left: nat) {
    WellFormed(disk, left) && Recover(disk).table == if id in disk.files then after else before
  }

  ghost predicate CommitsWith(trace: seq<Disk>, from: nat, id: TxId, before: Table, after: Table, left: nat) {
    forall i :: from <= i < |trace| ==> Commits(trace[i], id, before, after, left)
  }

  lemma CommitsAreSafe(trace: seq<Disk>, from: nat, id: TxId, before: Table, after: Table, left: nat)
    requires CommitsWith(trace, from, id, before, after, left)
    ensures CrashSafe(trace, from, before, after, left)
  {
    hide WellFormed, Recover;
    assert forall i :: from <= i < |trace| ==> Commits(trace[i], id, before, after, left);
  }

  lemma StillSafe(now: seq<Disk>, was: seq<Disk>, from: nat, before: Table, after: Table, left: nat)
    requires CrashSafe(was, from, before, after, left) && from <= |was|
    requires Extends(now, was) && CrashSafe(now, |was|, before, after, left)
    ensures CrashSafe(now, from, before, after, left)
  {
    hide WellFormed, Recover;
    forall i | from <= i < |now|
      ensures WellFormed(now[i], left) && (Recover(now[i]).table == before || Recover(now[i]).table == after)
    {
      if i < |was| {
        assert now[i] == was[i];
      }
    }
  }

  lemma OneMoreCommits(
    now: seq<Disk>, was: seq<Disk>, disk: Disk, id: TxId, before: Table, after: Table, left: nat)
    requires (now == was || now == was + [disk]) && Commits(disk, id, before, after, left)
    ensures Extends(now, was) && CommitsWith(now, |was|, id, before, after, left)
  {
    hide Commits;
  }

  lemma CommitsJoin(
    now: seq<Disk>, was: seq<Disk>, start: seq<Disk>, id: TxId, before: Table, after: Table, left: nat)
    requires Extends(was, start) && CommitsWith(was, |start|, id, before, after, left)
    requires Extends(now, was) && CommitsWith(now, |was|, id, before, after, left)
    ensures Extends(now, start) && CommitsWith(now, |start|, id, before, after, left)
  {
    hide Commits;
    ExtendsFurther(now, was, start);
    forall i | |start| <= i < |now| ensures Commits(now[i], id, before, after, left) {
      if i < |was| {
        assert now[..|was|][i] == was[i];
      }
    }
  }

  lemma QuietCommits(now: seq<Disk>, was: seq<Disk>, disk: Disk, id: TxId, after: Table, left: nat)
    requires Quiet(now, was, disk) && WellFormed(disk, left) && id !in disk.files
    ensures Extends(now, was) && CommitsWith(now, |was|, id, Recover(disk).table, after, left)
  {
    hide WellFormed, Recover;
    forall i | |was| <= i < |now| ensures Commits(now[i], id, Recover(disk).table, after, left) {
      SameDataRecovers(disk, now[i]);
    }
  }

  lemma QuietStands(now: seq<Disk>, was: seq<Disk>, disk: Disk, id: TxId, before: Table, after: Table, left: nat)
    requires Quiet(now, was, disk) && Commits(disk, id, before, after, left)
    ensures CommitsWith(now, |was|, id, before, after, left)
  {
    hide WellFormed, Recover;
    forall i | |was| <= i < |now| ensures Commits(now[i], id, before, after, left) {
      SameDataRecovers(disk, now[i]);
    }
  }

  // A committed checkpoint, whatever became of the log since the rename.
  lemma CheckpointStands(
    disk: Disk, next: TxId, active: Option<TxId>, olds: seq<TxId>, logInvalid: bool, truncate: bool, room: nat,
    content: seq<Checkpoints.Token>, before: Table, state: Table, after: Disk, invalidAfter: bool)
    requires Consistent(disk, next, active, olds, logInvalid, truncate, room) && 2 < room
    requires Checkpoints.Decode(content) == Some(state)
    requires after.files == disk.files[next := content] && (after.log == disk.log || after.log == [])
    requires logInvalid ==> invalidAfter
    ensures Recover(after).table == state && Commits(after, next, before, state, room - 2)
    ensures Consistent(after, Inc(next), Some(next), Retired(olds, active), invalidAfter, true, room - 1)
    ensures Consistent(after, Inc(next), Some(next), Retired(olds, active), invalidAfter, false, room - 1)
  {
    hide Recover, WellFormed, Checkpoints.Decode, Live, Tracked, LogIsStale, InStep, Retired;
    CheckpointCommits(disk, next, active, olds, logInvalid, truncate, room, content, state, after);
    ConsistentIsWellFormed(after, Inc(next), Some(next), Retired(olds, active), true, true, room - 1, room - 2);
    Weaken(after, Inc(next), Some(next), Retired(olds, active), invalidAfter, true, room - 1);
  }

  // Every entry that is left of the log is stale against the data file `id`.
  ghost predicate HidesLog(id: TxId, was: seq<Token>, log: seq<Token>) {
    && (log == was || log == [])
    && forall entry :: entry in Ids(log) ==> IsTxIDLessEqual(entry, id)
  }

  lemma AllBehindNext(
    disk: Disk, next: TxId, active: Option<TxId>, olds: seq<TxId>, logInvalid: bool, truncate: bool, room: nat)
    requires Consistent(disk, next, active, olds, logInvalid, truncate, room) && 1 < room
    ensures HidesLog(next, disk.log, disk.log) && HidesLog(next, disk.log, [])
  {
    hide Consistent, IsTxIDLessEqual;
    CheckpointIsNewest(disk, next, active, olds, logInvalid, truncate, room);
  }

  lemma AppendIsCrashSafe(
    disk: Disk, next: TxId, active: Option<TxId>, olds: seq<TxId>, truncate: bool, room: nat,
    op: Op, trace: seq<Disk>, from: nat)
    requires Consistent(disk, next, active, olds, false, truncate, room) && 2 < room
    requires |trace| <= from + 5
    requires forall i :: from <= i < |trace| ==> trace[i] == disk.(log := disk.log + Partial(i - from, next, op))
    ensures CrashSafe(trace, from, Recover(disk).table, Apply(op, Recover(disk).table), room - 2)
  {
    forall i | from <= i < |trace|
      ensures WellFormed(trace[i], room - 2)
      ensures Recover(trace[i]).table == Recover(disk).table
              || Recover(trace[i]).table == Apply(op, Recover(disk).table)
    {
      hide Consistent, Recover, WellFormed, Partial;
      EntryAppended(disk, next, active, olds, truncate, room, op, i - from, trace[i]);
      ConsistentIsWellFormed(trace[i], next, active, olds, true, false, room, room - 2);
    }
  }

  lemma PartialIsEntry(id: TxId, op: Op)
    ensures Partial(4, id, op) == Entry(id, op)
  {
  }

  // The fields of a row but those in `left`.
  function Encoded(row: Fields, left: set<string>): Fields {
    map name | name in row.Keys - left :: row[name]
  }

  lemma FieldVisited(row: Fields, left: set<string>, name: string)
    requires left <= row.Keys && name in left
    ensures name !in Encoded(row, left) && Encoded(row, left - {name}) == Encoded(row, left)[name := row[name]]
  {
  }

  lemma AllLeft(row: Fields)
    ensures Encoded(row, row.Keys) == map[]
  {
  }

  lemma NoneLeft(row: Fields)
    ensures Encoded(row, {}) == row
  {
  }

  // An entry inlined into one record, its fields in some order.
  method EncodeEntry(key: string, row: Fields) returns (members: Checkpoints.Members)
    ensures Checkpoints.IsEntry(members, key, row)
  {
    hide Checkpoints.IsListing, Encoded;
    Checkpoints.ListNothing();
    AllLeft(row);
    ghost var fields: Checkpoints.Members := [];
    members := [(KEY_FIELD, Text(key))];
    var left := row.Keys;
    while left != {}
      invariant left <= row.Keys
      invariant members == [(KEY_FIELD, Text(key))] + fields
      invariant Checkpoints.IsListing(fields, Encoded(row, left))
      decreases left
    {
      var name :| name in left;
      FieldVisited(row, left, name);
      Checkpoints.ListOneMore(fields, Encoded(row, left), name, row[name]);
      left := left - {name};
      fields := fields + [(name, row[name])];
      members := members + [(name, row[name])];
    }
    assert members[1..] == fields;
    NoneLeft(row);
  }

  // What a checkpoint `id` leaves if nothing fails: no other data file, no
  // temporary files, and a log that is empty if it was open, and otherwise is to
  // be emptied when it is opened.
  ghost predicate Tidy(disk: DiskStore, id: TxId, was: Disk, wasOpen: bool)
    reads disk, disk.fs
  {
    var left := disk.fs.disk;
    && left.files.Keys == {id} && disk.oldDataFiles == []
    && left.activeMarker == Some(id) && left.checkpointTmp == None && !left.activeTmp
    && disk.logFileOpen == wasOpen && disk.logNeedsTruncate == !wasOpen
    && left.log == if wasOpen then [] else was.log
  }

  function FilesBut<T>(files: map<TxId, T>, gone: seq<TxId>): map<TxId, T> {
    map id | id in files && id !in gone :: files[id]
  }

  lemma FilesButNone<T>(files: map<TxId, T>)
    ensures FilesBut(files, []) == files
  {
  }

  lemma FilesButMore<T>(files: map<TxId, T>, gone: seq<TxId>, id: TxId)
    ensures FilesBut(files, gone) - {id} == FilesBut(files, gone + [id])
  {
  }

  lemma NotInFilesBut<T>(files: map<TxId, T>, olds: seq<TxId>, n: nat)
    requires n <= |olds|
    ensures forall i :: 0 <= i < n ==> olds[i] !in FilesBut(files, olds[..n])
  {
    forall i | 0 <= i < n ensures olds[i] in olds[..n] {
      assert olds[..n][i] == olds[i];
    }
  }

  class DiskStore {
    const fs: FileSystem
    var oldDataFiles: seq<TxId>
    var activeDataFile: Option<TxId>
    var nextTxID: TxId
    var logFileOpen: bool
    var logInvalid: bool
    var logNeedsTruncate: bool

    // How many more transaction ids the window has room for.
    ghost var room: nat

    ghost predicate Valid()
      reads this, fs
    {
      && Consistent(fs.disk, nextTxID, activeDataFile, oldDataFiles, logInvalid, logNeedsTruncate, room)
      && (logNeedsTruncate ==> !logFileOpen)
    }

    // newDiskStore
    constructor (fs: FileSystem, sorted: seq<TxId>, txid: TxId, logInvalid: bool, ghost room: nat)
      ensures this.fs == fs && nextTxID == Inc(txid) && this.logInvalid == logInvalid
      ensures activeDataFile == ActiveOf(sorted) && oldDataFiles == OldsOf(sorted)
      ensures !logFileOpen && !logNeedsTruncate && this.room == room
    {
      this.fs := fs;
      activeDataFile := ActiveOf(sorted);
      oldDataFiles := OldsOf(sorted);
      nextTxID := Inc(txid);
      logFileOpen := false;
      this.logInvalid := logInvalid;
      logNeedsTruncate := false;
      this.room := room;
    }

    method TryOpenLog() returns (ok: bool)
      requires Valid() && (logNeedsTruncate ==> !logInvalid)
      modifies this`logFileOpen, this`logNeedsTruncate, fs
      ensures Valid()
      ensures ok ==> logFileOpen && !logNeedsTruncate
      ensures !ok ==> logFileOpen == old(logFileOpen) && logNeedsTruncate == old(logNeedsTruncate)
      ensures Recover(fs.disk).table == old(Recover(fs.disk).table)
      ensures fs.disk.files == old(fs.disk.files)
      ensures fs.disk == old(fs.disk) || (old(logNeedsTruncate) && fs.disk == old(fs.disk).(log := []))
      ensures ok && old(logNeedsTruncate) ==> fs.disk.log == []
      ensures fs.trace == old(fs.trace) + [fs.disk] && fs.faults == old(fs.faults) + if ok then 0 else 1
    {
      hide Consistent, Recover;
      ghost var before := fs.disk;
      ok := fs.OpenLog(logNeedsTruncate);
      if fs.disk != before {
        StaleLogTruncated(before, nextTxID, activeDataFile, oldDataFiles, room, fs.disk);
      }
      Weaken(fs.disk, nextTxID, activeDataFile, oldDataFiles, logInvalid, logNeedsTruncate, room);
      if ok {
        logFileOpen := true;
        logNeedsTruncate := false;
      }
    }

    // The attempt of newDiskStore to open the log, whose error is ignored.
    method OpenLogOnStart()
      requires !logNeedsTruncate && !logFileOpen
      modifies this`logFileOpen, fs
      ensures fs.disk == old(fs.disk) && fs.trace == old(fs.trace) + [fs.disk]
      ensures fs.faults == old(fs.faults) + if logFileOpen then 0 else 1
      ensures old(Valid()) ==> Valid()
    {
      logFileOpen := fs.OpenLog(false);
    }

    method LogOperation(op: Op) returns (ok: bool)
      requires Valid() && 2 < room
      modifies this, fs
      ensures Valid() && old(room) - 1 <= room <= old(room)
      ensures ok ==> !old(logInvalid) && !logInvalid
      ensures !ok ==> logInvalid
      ensures old(logInvalid) ==> fs.disk == old(fs.disk) && fs.trace == old(fs.trace) && fs.faults == old(fs.faults)
      ensures fs.faults >= old(fs.faults) && (!ok && !old(logInvalid) ==> fs.faults > old(fs.faults))
      ensures activeDataFile == old(activeDataFile) && oldDataFiles == old(oldDataFiles)
      // the log grows by this entry, after the truncation that may be due
      ensures fs.disk == old(fs.disk).(log := fs.disk.log)
      ensures ok ==>
        && fs.disk.log == (if old(logNeedsTruncate) then [] else old(fs.disk.log)) + Entry(old(nextTxID), op)
        && nextTxID == Inc(old(nextTxID)) && logFileOpen && !logNeedsTruncate
      ensures !ok ==> nextTxID == old(nextTxID) && room == old(room)
      // it is opened only if it has to be
      ensures ok ==> |fs.trace| == |old(fs.trace)| + if old(logFileOpen) then 5 else 6
      ensures ok ==> Recover(fs.disk).table == Apply(op, old(Recover(fs.disk).table))
      ensures Recover(fs.disk).table == old(Recover(fs.disk).table)
              || Recover(fs.disk).table == Apply(op, old(Recover(fs.disk).table))
      ensures Extends(fs.trace, old(fs.trace))
      ensures CrashSafe(fs.trace, |old(fs.trace)|, old(Recover(fs.disk).table),
                        Apply(op, old(Recover(fs.disk).table)), old(room) - 2)
    {
      hide Consistent, Recover, WellFormed, Partial, Apply;
      if logInvalid {
        return false;
      }
      if !logFileOpen {
        var isOpen := TryOpenLog();
        ConsistentIsWellFormed(fs.disk, nextTxID, activeDataFile, oldDataFiles, logInvalid, logNeedsTruncate,
                               room, room - 2);
        if !isOpen {
          Weaken(fs.disk, nextTxID, activeDataFile, oldDataFiles, logInvalid, logNeedsTruncate, room);
          logInvalid := true;
          return false;
        }
      }
      ghost var before := fs.disk;
      ghost var stage: nat;
      ghost var start := |fs.trace|;
      ok, stage := fs.AppendEntry(nextTxID, op);
      AppendIsCrashSafe(before, nextTxID, activeDataFile, oldDataFiles, logNeedsTruncate, room, op, fs.trace, start);
      EntryAppended(before, nextTxID, activeDataFile, oldDataFiles, logNeedsTruncate, room, op, stage, fs.disk);
      if ok {
        PartialIsEntry(nextTxID, op);
        nextTxID := Inc(nextTxID);
        room := room - 1;
      } else {
        logInvalid := true;
      }
    }

    // One element of the array, with its separator.
    method WriteEntry(key: string, row: Fields, first: bool) returns (ok: bool, ghost record: Checkpoints.Members)
      requires fs.disk.checkpointTmp.Some?
      modifies fs
      ensures SameData(fs.disk, old(fs.disk)) && Quiet(fs.trace, old(fs.trace), old(fs.disk))
      ensures fs.faults >= old(fs.faults) && (!ok ==> fs.faults > old(fs.faults))
      ensures Checkpoints.IsEntry(record, key, row)
      ensures var prefix := if first then [] else [Checkpoints.Comma];
        ok ==> fs.disk.checkpointTmp == Some(old(fs.disk.checkpointTmp.value) + prefix + [Checkpoints.Record(record)])
    {
      var members := EncodeEntry(key, row);
      record := members;
      ok := fs.WriteCheckpointTmp(if first then [] else [Checkpoints.Comma]);
      if ok {
        ok := fs.WriteCheckpointTmp([Checkpoints.Record(members)]);
      }
    }

    // checkpointTmpFile: the table as a JSON array, in whatever order it is visited.
    method CheckpointTmpFile(state: Table) returns (ok: bool)
      modifies fs
      ensures SameData(fs.disk, old(fs.disk)) && Quiet(fs.trace, old(fs.trace), old(fs.disk))
      ensures fs.faults >= old(fs.faults) && (!ok ==> fs.faults > old(fs.faults))
      ensures ok ==> fs.disk.checkpointTmp.Some? && Checkpoints.Decode(fs.disk.checkpointTmp.value) == Some(state)
      ensures ok ==> Checkpoints.IsFileOf(fs.disk.checkpointTmp.value, state)
    {
      ok := fs.CreateCheckpointTmp();
      if !ok { return; }
      ok := fs.WriteCheckpointTmp([Checkpoints.Open]);
      if !ok { return; }
      ghost var records: seq<Checkpoints.Members>, keys: seq<string> := [], [];
      var left := state.Keys;
      Checkpoints.ListsNothing(state);
      assert [] + [Checkpoints.Open] == [Checkpoints.Open] + Checkpoints.Body(records);
      var first := true;
      hide Checkpoints.Lists, Checkpoints.Visited, Checkpoints.Body, Checkpoints.IsEntry, Checkpoints.Decode, Quiet;
      while left != {}
        invariant left <= state.Keys && fs.faults >= old(fs.faults)
        invariant SameData(fs.disk, old(fs.disk)) && Quiet(fs.trace, old(fs.trace), old(fs.disk))
        invariant fs.disk.checkpointTmp == Some([Checkpoints.Open] + Checkpoints.Body(records))
        invariant first <==> records == []
        invariant Checkpoints.Lists(records, keys, Checkpoints.Visited(state, left))
        decreases left
      {
        var key :| key in left;
        ghost var trace, disk := fs.trace, fs.disk;
        ghost var record;
        ok, record := WriteEntry(key, state[key], first);
        QuietSteps(fs.trace, trace, old(fs.trace), old(fs.disk), disk);
        if !ok { return; }
        Checkpoints.ListsOneMore(records, keys, state, left, key, record);
        Checkpoints.BodyOneMore(records, record);
        first, records, keys := false, records + [record], keys + [key];
        left := left - {key};
      }
      ghost var trace := fs.trace;
      ok := fs.WriteCheckpointTmp([Checkpoints.Close]);
      QuietStep(trace, old(fs.trace), old(fs.disk), fs.disk);
      if ok {
        Checkpoints.RoundTrip(records, keys, state);
      }
    }

    // An open log has been truncated, and stays open; if that failed it is
    // distrusted. One that is not open is to be truncated when it is opened.
    ghost predicate LogCleared(wasOpen: bool, wasInvalid: bool, was: seq<Token>, failed: bool)
      reads this, fs
    {
      if !wasOpen then !logFileOpen && logNeedsTruncate && logInvalid == wasInvalid && fs.disk.log == was
      else if !failed then logFileOpen && !logNeedsTruncate && logInvalid == wasInvalid && fs.disk.log == []
      else !logFileOpen && logNeedsTruncate && logInvalid
    }

    // Whatever failed, the log has been emptied or will be when it is opened,
    // and it was closed only if it is distrusted.
    ghost predicate ClearedAtLast(wasOpen: bool, wasInvalid: bool)
      reads this, fs
    {
      && (if logFileOpen then wasOpen && fs.disk.log == [] && !logNeedsTruncate else logNeedsTruncate)
      && (logInvalid <==> wasInvalid || (wasOpen && !logFileOpen))
    }

    // checkpointClearLog
    method CheckpointClearLog()
      requires logNeedsTruncate ==> !logFileOpen
      modifies this`logFileOpen, this`logInvalid, this`logNeedsTruncate, fs
      ensures old(logInvalid) ==> logInvalid
      ensures logNeedsTruncate ==> !logFileOpen
      ensures fs.disk == old(fs.disk) || fs.disk == old(fs.disk).(log := [])
      ensures fs.trace == old(fs.trace) || fs.trace == old(fs.trace) + [fs.disk]
      ensures fs.faults >= old(fs.faults)
      ensures LogCleared(old(logFileOpen), old(logInvalid), old(fs.disk.log), fs.faults > old(fs.faults))
      ensures !old(logFileOpen) ==> fs.faults == old(fs.faults)
    {
      if !logFileOpen {
        logNeedsTruncate := true;
        return;
      }
      var ok := fs.TruncateLog();
      if !ok {
        logFileOpen := false;
        logNeedsTruncate := true;
        logInvalid := true;
      }
    }

    method UpdateActiveMarker(id: TxId) returns (ok: bool)
      modifies fs
      ensures ok ==> fs.disk.activeMarker == Some(id) && !fs.disk.activeTmp
      ensures fs.faults >= old(fs.faults) && (!ok ==> fs.faults > old(fs.faults))
      ensures SameData(fs.disk, old(fs.disk)) && Quiet(fs.trace, old(fs.trace), old(fs.disk))
    {
      ok := fs.RemoveActiveTmp();
      if !ok { return; }
      ok := fs.WriteActiveTmp();
      if !ok { return; }
      ok := fs.RenameActiveTmp(id);
    }

    // The first `n` of the files are gone, and those left are still listed.
    ghost predicate RemovedUpTo(n: nat, olds: seq<TxId>, files: map<TxId, seq<Checkpoints.Token>>)
      reads this, fs
    {
      n <= |olds| && oldDataFiles == olds[n..] && fs.disk.files == FilesBut(files, olds[..n])
    }

    // removeOldDataFiles
    method RemoveOldDataFiles(id: TxId, ghost before: Table, ghost left: nat)
      requires Valid() && left < room && activeDataFile == Some(id)
      modifies this`oldDataFiles, fs
      ensures Valid() && Recover(fs.disk) == old(Recover(fs.disk))
      ensures fs.disk == old(fs.disk).(files := fs.disk.files)
      ensures fs.faults >= old(fs.faults) && (fs.faults == old(fs.faults) ==> oldDataFiles == [])
      ensures exists n :: RemovedUpTo(n, old(oldDataFiles), old(fs.disk.files))
      ensures Extends(fs.trace, old(fs.trace))
      ensures CommitsWith(fs.trace, |old(fs.trace)|, id, before, old(Recover(fs.disk).table), left)
    {
      hide Consistent, Recover, WellFormed, FilesBut;
      FilesButNone(fs.disk.files);
      assert oldDataFiles[..0] == [];
      var i := 0;
      while i < |oldDataFiles|
        invariant 0 <= i <= |oldDataFiles| && oldDataFiles == old(oldDataFiles)
        invariant Valid() && Recover(fs.disk) == old(Recover(fs.disk)) && fs.faults == old(fs.faults)
        invariant fs.disk == old(fs.disk).(files := fs.disk.files)
        invariant fs.disk.files == FilesBut(old(fs.disk.files), oldDataFiles[..i])
        invariant Extends(fs.trace, old(fs.trace))
        invariant CommitsWith(fs.trace, |old(fs.trace)|, id, before, old(Recover(fs.disk).table), left)
      {
        ghost var disk := fs.disk;
        assert oldDataFiles[..i + 1] == oldDataFiles[..i] + [oldDataFiles[i]];
        FilesButMore(old(fs.disk.files), oldDataFiles[..i], oldDataFiles[i]);
        var ok := fs.RemoveDataFile(oldDataFiles[i]);
        if ok {
          DataFileRemoved(disk, nextTxID, activeDataFile, oldDataFiles, logInvalid, logNeedsTruncate, room,
                          oldDataFiles[i], fs.disk);
        }
        ConsistentIsWellFormed(fs.disk, nextTxID, activeDataFile, oldDataFiles, logInvalid, logNeedsTruncate,
                               room, left);
        ActiveExists(fs.disk, nextTxID, activeDataFile, oldDataFiles, logInvalid, logNeedsTruncate, room);
        if !ok {
          NotInFilesBut(old(fs.disk.files), oldDataFiles, i);
          OldsDropped(fs.disk, nextTxID, activeDataFile, oldDataFiles, logInvalid, logNeedsTruncate, room, i);
          oldDataFiles := oldDataFiles[i..];
          assert RemovedUpTo(i, old(oldDataFiles), old(fs.disk.files));
          return;
        }
        i := i + 1;
      }
      NotInFilesBut(old(fs.disk.files), oldDataFiles, i);
      OldsDropped(fs.disk, nextTxID, activeDataFile, oldDataFiles, logInvalid, logNeedsTruncate, room, i);
      assert oldDataFiles[i..] == [];
      assert oldDataFiles[..i] == oldDataFiles;
      oldDataFiles := [];
      assert RemovedUpTo(i, old(oldDataFiles), old(fs.disk.files));
    }

    // The end of WriteCheckpoint: marker, old data files, temporary file.
    method RemoveLeftovers(id: TxId, ghost before: Table, ghost left: nat)
      requires Valid() && left < room && activeDataFile == Some(id)
      modifies this`oldDataFiles, fs
      ensures Valid() && Recover(fs.disk) == old(Recover(fs.disk))
      ensures id in fs.disk.files && fs.disk.files[id] == old(fs.disk.files)[id]
      ensures fs.disk.log == old(fs.disk.log) && fs.faults >= old(fs.faults)
      ensures fs.faults == old(fs.faults) ==>
        && oldDataFiles == [] && fs.disk.activeMarker == Some(id)
        && fs.disk.checkpointTmp == None && !fs.disk.activeTmp
      ensures Extends(fs.trace, old(fs.trace))
      ensures CommitsWith(fs.trace, |old(fs.trace)|, id, before, old(Recover(fs.disk).table), left)
    {
      hide Consistent, Recover, WellFormed;
      ghost var disk, trace, after := fs.disk, fs.trace, Recover(fs.disk).table;
      ConsistentIsWellFormed(disk, nextTxID, activeDataFile, oldDataFiles, logInvalid, logNeedsTruncate, room, left);
      ActiveExists(disk, nextTxID, activeDataFile, oldDataFiles, logInvalid, logNeedsTruncate, room);
      var marked := UpdateActiveMarker(id);
      QuietStands(fs.trace, trace, disk, id, before, after, left);
      SameDataRecovers(disk, fs.disk);
      RemoveOldDataFiles(id, before, left);
      ActiveExists(fs.disk, nextTxID, activeDataFile, oldDataFiles, logInvalid, logNeedsTruncate, room);
      ConsistentIsWellFormed(fs.disk, nextTxID, activeDataFile, oldDataFiles, logInvalid, logNeedsTruncate, room, left);
      ghost var last := fs.disk;
      var _ := fs.RemoveCheckpointTmp();
      SameDataRecovers(last, fs.disk);
    }

    // The middle of WriteCheckpoint, right after the rename of `content` to
    // the data file `nextTxID` in the directory that was `disk`.
    method AdvancePastCheckpoint(
      ghost disk: Disk, ghost content: seq<Checkpoints.Token>, ghost before: Table, ghost state: Table)
      requires Consistent(disk, nextTxID, activeDataFile, oldDataFiles, logInvalid, logNeedsTruncate, room)
      requires (logNeedsTruncate ==> !logFileOpen) && 2 < room
      requires Checkpoints.Decode(content) == Some(state)
      requires fs.disk.files == disk.files[nextTxID := content] && fs.disk.log == disk.log
      modifies this, fs
      ensures Valid() && room == old(room) - 1
      ensures old(logInvalid) ==> logInvalid
      ensures activeDataFile == Some(old(nextTxID)) && nextTxID == Inc(old(nextTxID))
      ensures Recover(fs.disk).table == state && fs.faults >= old(fs.faults)
      ensures fs.disk.files == old(fs.disk.files) && (fs.disk.log == old(fs.disk.log) || fs.disk.log == [])
      ensures LogCleared(old(logFileOpen), old(logInvalid), old(fs.disk.log), fs.faults > old(fs.faults))
      ensures Extends(fs.trace, old(fs.trace))
      ensures CommitsWith(fs.trace, |old(fs.trace)|, old(nextTxID), before, state, old(room) - 2)
    {
      hide Consistent, Recover, WellFormed, Checkpoints.Decode, Commits, CommitsWith, Extends;
      ghost var trace := fs.trace;
      ghost var next, active, olds := nextTxID, activeDataFile, oldDataFiles;
      ghost var invalid, truncate := logInvalid, logNeedsTruncate;
      CheckpointClearLog();
      CheckpointStands(disk, next, active, olds, invalid, truncate, room, content, before, state, fs.disk, logInvalid);
      OneMoreCommits(fs.trace, trace, fs.disk, next, before, state, room - 2);

      if activeDataFile.Some? {
        oldDataFiles := oldDataFiles + [activeDataFile.value];
      }
      assert oldDataFiles == Retired(olds, active);
      activeDataFile := Some(nextTxID);
      nextTxID := Inc(nextTxID);
      room := room - 1;
    }

    // All that follows the rename.
    method FinishCheckpoint(
      ghost disk: Disk, ghost content: seq<Checkpoints.Token>, ghost before: Table, ghost state: Table)
      requires Consistent(disk, nextTxID, activeDataFile, oldDataFiles, logInvalid, logNeedsTruncate, room)
      requires (logNeedsTruncate ==> !logFileOpen) && 2 < room
      requires Checkpoints.Decode(content) == Some(state)
      requires HidesLog(nextTxID, disk.log, disk.log) && HidesLog(nextTxID, disk.log, [])
      requires fs.disk.files == disk.files[nextTxID := content] && fs.disk.log == disk.log
      modifies this, fs
      ensures Valid() && room == old(room) - 1
      ensures old(logInvalid) ==> logInvalid
      ensures activeDataFile == Some(old(nextTxID)) && nextTxID == Inc(old(nextTxID))
      ensures Recover(fs.disk).table == state
      ensures old(nextTxID) in fs.disk.files && fs.disk.files[old(nextTxID)] == content
      ensures HidesLog(old(nextTxID), disk.log, fs.disk.log)
      ensures fs.faults >= old(fs.faults)
      ensures ClearedAtLast(old(logFileOpen), old(logInvalid))
      ensures fs.faults == old(fs.faults) ==>
        logInvalid == old(logInvalid) && Tidy(this, old(nextTxID), disk, old(logFileOpen))
      ensures Extends(fs.trace, old(fs.trace))
      ensures CommitsWith(fs.trace, |old(fs.trace)|, old(nextTxID), before, state, old(room) - 2)
    {
      hide Consistent, Recover, WellFormed, Checkpoints.Decode, HidesLog, CommitsWith, Extends;
      var id := nextTxID;
      ghost var left, trace0 := room - 2, fs.trace;
      AdvancePastCheckpoint(disk, content, before, state);
      ghost var trace1 := fs.trace;
      RemoveLeftovers(id, before, left);
      CommitsJoin(fs.trace, trace1, trace0, id, before, state, left);
      NoOlds(fs.disk, nextTxID, id, oldDataFiles, logInvalid, logNeedsTruncate, room);
    }

    method WriteCheckpoint(state: Table) returns (ok: bool)
      requires Valid() && 2 < room
      modifies this, fs
      ensures Valid() && old(room) - 1 <= room <= old(room)
      ensures old(logInvalid) ==> logInvalid
      ensures old(nextTxID) !in old(fs.disk).files
      ensures ok ==> activeDataFile == Some(old(nextTxID)) && nextTxID == Inc(old(nextTxID))
      ensures ok ==> Recover(fs.disk).table == state
      ensures ok ==> old(nextTxID) in fs.disk.files && Checkpoints.IsFileOf(fs.disk.files[old(nextTxID)], state)
      ensures ok ==> HidesLog(old(nextTxID), old(fs.disk.log), fs.disk.log)
      ensures fs.faults >= old(fs.faults) && (!ok ==> fs.faults > old(fs.faults))
      // without a failure only the new data file is left, and no log
      ensures fs.faults == old(fs.faults) ==>
        ok && logInvalid == old(logInvalid) && Tidy(this, old(nextTxID), old(fs.disk), old(logFileOpen))
      ensures ok ==> ClearedAtLast(old(logFileOpen), old(logInvalid))
      ensures !ok ==> SameData(fs.disk, old(fs.disk)) && room == old(room)
      ensures !ok ==> logInvalid == old(logInvalid) && nextTxID == old(nextTxID)
      ensures !ok ==> logFileOpen == old(logFileOpen) && logNeedsTruncate == old(logNeedsTruncate)
      ensures !ok ==> activeDataFile == old(activeDataFile) && oldDataFiles == old(oldDataFiles)
      ensures Extends(fs.trace, old(fs.trace))
      ensures CommitsWith(fs.trace, |old(fs.trace)|, old(nextTxID), old(Recover(fs.disk).table), state, old(room) - 2)
    {
      hide Consistent, Recover, WellFormed, Checkpoints.Decode, Checkpoints.IsFileOf, HidesLog, Commits, CommitsWith,
        Extends, Quiet;
      ghost var disk0, before, left, start := fs.disk, Recover(fs.disk).table, room - 2, fs.trace;
      ConsistentIsWellFormed(disk0, nextTxID, activeDataFile, oldDataFiles, logInvalid, logNeedsTruncate, room, left);
      ActiveExists(disk0, nextTxID, activeDataFile, oldDataFiles, logInvalid, logNeedsTruncate, room);
      AllBehindNext(disk0, nextTxID, activeDataFile, oldDataFiles, logInvalid, logNeedsTruncate, room);
      ok := CheckpointTmpFile(state);
      ghost var disk1, trace1 := fs.disk, fs.trace;
      QuietCommits(trace1, start, disk0, nextTxID, state, left);
      SameDataRecovers(disk0, disk1);
      if !ok {
        return;
      }
      var fileTxID := nextTxID;
      ok := fs.RenameCheckpointTmp(fileTxID);
      if !ok {
        QuietFirst(trace1, disk1);
        QuietStep(trace1, trace1, disk1, fs.disk);
        ghost var trace2 := fs.trace;
        var _ := fs.RemoveCheckpointTmp();
        QuietStep(trace2, trace1, disk1, fs.disk);
        QuietCommits(fs.trace, trace1, disk1, nextTxID, state, left);
        CommitsJoin(fs.trace, trace1, start, nextTxID, before, state, left);
        SameDataRecovers(disk0, fs.disk);
        return;
      }
      ghost var content, disk2, trace2 := disk1.checkpointTmp.value, fs.disk, fs.trace;
      CheckpointStands(disk1, nextTxID, activeDataFile, oldDataFiles, logInvalid, logNeedsTruncate, room,
                       content, before, state, disk2, true);
      OneMoreCommits(trace2, trace1, disk2, fileTxID, before, state, left);
      CommitsJoin(trace2, trace1, start, fileTxID, before, state, left);
      FinishCheckpoint(disk1, content, before, state);
      CommitsJoin(fs.trace, trace2, start, fileTxID, before, state, left);
    }
  }
}
