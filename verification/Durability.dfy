/** The invariant between the fields of a disk store and its directory, and its preservation. */
module Durability {
  import opened Documents
  import opened TxIds
  import opened DataFiles
  import opened Replay
  import Checkpoints

  // Every id found on disk is behind `next`, and `room` more ids can be given
  // out before one of them falls out of the window the comparison can resolve.
  ghost predicate Live(disk: Disk, next: TxId, room: nat) {
    && (forall id :: id in disk.files ==> 1 <= Age(next, id) < HALF - room)
    && (forall id :: id in Ids(disk.log) ==> Age(next, id) < HALF - room)
    && 1 <= Age(next, Base(disk).0) < HALF - room
  }

  // Every data file is the active one or listed as old; old ones are strictly older.
  ghost predicate Tracked(disk: Disk, next: TxId, active: Option<TxId>, olds: seq<TxId>, room: nat) {
    && (active.None? ==> disk.files == map[] && olds == [])
    && (active.Some? ==> active.value in disk.files && Checkpoints.Decode(disk.files[active.value]).Some?)
    && (forall id :: id in disk.files ==> active == Some(id) || id in olds)
    && (forall id :: id in olds ==> Age(next, active.value) < Age(next, id) < HALF - room)
  }

  // No entry of the log is newer than the active data file.
  ghost predicate LogIsStale(disk: Disk, next: TxId) {
    && Inc(Base(disk).0) == next
    && forall id :: id in Ids(disk.log) ==> 1 <= Age(next, id)
  }

  // The log ends exactly at the last id given out.
  ghost predicate InStep(disk: Disk, next: TxId) {
    && Recover(disk).ok
    && Inc(Recover(disk).txid) == next
    && forall id :: id in Ids(disk.log) ==> 1 <= Age(next, id)
  }

  ghost predicate Consistent(
    disk: Disk, next: TxId, active: Option<TxId>, olds: seq<TxId>, logInvalid: bool, truncate: bool, room: nat)
  {
    && 0 < room < HALF
    && Live(disk, next, room)
    && Tracked(disk, next, active, olds, room)
    && (Inc(Recover(disk).txid) == next || Recover(disk).txid == next)
    && (!logInvalid ==> InStep(disk, next))
    && (truncate ==> LogIsStale(disk, next))
  }

  // The ids found on disk can be ordered and the next one is ahead of them.
  ghost predicate Comparable(disk: Disk, room: nat) {
    room < HALF && Live(disk, Inc(Recover(disk).txid), room)
  }

  // The most recent data file decodes.
  ghost predicate Intact(disk: Disk) {
    disk.files != map[] ==> Checkpoints.Decode(disk.files[Newest(disk.files.Keys)]).Some?
  }

  // A directory that any number of lives of the store, each ended by a crash
  // at any point, can leave behind.
  ghost predicate WellFormed(disk: Disk, room: nat) {
    Comparable(disk, room) && Intact(disk)
  }

  lemma BaseIsActive(disk: Disk, next: TxId, active: Option<TxId>, olds: seq<TxId>, room: nat)
    requires Live(disk, next, room) && Tracked(disk, next, active, olds, room)
    ensures active.Some? ==> Newest(disk.files.Keys) == active.value && Base(disk).0 == active.value
    ensures active.Some? ==> Checkpoints.Decode(disk.files[active.value]) == Some(Base(disk).1)
  {
    if active.Some? {
      NewestByAge(next, disk.files.Keys, active.value);
    }
  }

  // Whenever the process stops, the directory it leaves is well formed.
  lemma ConsistentIsWellFormed(
    disk: Disk, next: TxId, active: Option<TxId>, olds: seq<TxId>, logInvalid: bool, truncate: bool, room: nat,
    left: nat)
    requires Consistent(disk, next, active, olds, logInvalid, truncate, room) && left < room
    ensures WellFormed(disk, left)
  {
    BaseIsActive(disk, next, active, olds, room);
    if Recover(disk).txid == next {
      forall id: TxId | Age(next, id) < HALF - room ensures Age(Inc(next), id) == Age(next, id) + 1 {
        AgeOfInc(next, id);
      }
    }
  }

  lemma WellFormedIs(disk: Disk, room: nat)
    requires WellFormed(disk, room)
    ensures Comparable(disk, room) && Intact(disk)
  {
  }

  lemma WellFormedWithLess(disk: Disk, room: nat, left: nat)
    requires WellFormed(disk, room) && left <= room
    ensures WellFormed(disk, left)
  {
    hide Age, Inc, Ids, Recover, Base, Intact;
  }

  // Distrusting the log, or forgetting that it is stale, keeps the invariant.
  lemma Weaken(
    disk: Disk, next: TxId, active: Option<TxId>, olds: seq<TxId>, logInvalid: bool, truncate: bool, room: nat)
    requires Consistent(disk, next, active, olds, logInvalid, truncate, room)
    ensures Consistent(disk, next, active, olds, true, truncate, room)
    ensures Consistent(disk, next, active, olds, logInvalid, false, room)
  {
    hide Live, Tracked, Recover, InStep, LogIsStale;
  }

  // Temporary files and the marker are not read on open.
  ghost predicate SameData(disk: Disk, other: Disk) {
    disk.files == other.files && disk.log == other.log
  }

  lemma SameDataRecovers(disk: Disk, other: Disk)
    requires SameData(disk, other)
    ensures Base(disk) == Base(other) && Recover(disk) == Recover(other)
    ensures forall room :: WellFormed(disk, room) <==> WellFormed(other, room)
    ensures forall next, active, olds, logInvalid, truncate, room ::
      Consistent(disk, next, active, olds, logInvalid, truncate, room) <==>
      Consistent(other, next, active, olds, logInvalid, truncate, room)
  {
    hide Run, Checkpoints.Decode, Newest, Age, Inc, Ids;
  }

  // The fields a sorted listing of the directory gives.
  function ActiveOf(sorted: seq<TxId>): Option<TxId> {
    if |sorted| == 0 then None else Some(sorted[|sorted| - 1])
  }

  function OldsOf(sorted: seq<TxId>): seq<TxId> {
    if |sorted| == 0 then [] else sorted[..|sorted| - 1]
  }

  // The last file of the sorted listing is the most recent checkpoint.
  lemma ListingFindsNewest(disk: Disk, infos: seq<TxId>, room: nat)
    requires Comparable(disk, room) && Distinct(infos)
    requires forall id :: id in infos <==> id in disk.files
    ensures var sorted := SortDataFileInfos(infos);
      && (ActiveOf(sorted).Some? <==> disk.files != map[])
      && (disk.files != map[] ==> ActiveOf(sorted).value == Newest(disk.files.Keys))
      && (Intact(disk) ==> Tracked(disk, Inc(Recover(disk).txid), ActiveOf(sorted), OldsOf(sorted), room))
  {
    hide Recover, Age, Inc;
    if disk.files != map[] {
      assert disk.files.Keys != {};
      LastOfSortedIsNewest(Inc(Recover(disk).txid), infos, disk.files.Keys);
    } else {
      assert forall i :: 0 <= i < |infos| ==> infos[i] in disk.files;
    }
  }

  lemma OpenedIsConsistent(disk: Disk, infos: seq<TxId>, room: nat)
    requires WellFormed(disk, room) && 0 < room && Distinct(infos)
    requires forall id :: id in infos <==> id in disk.files
    ensures var sorted := SortDataFileInfos(infos);
      Consistent(disk, Inc(Recover(disk).txid), ActiveOf(sorted), OldsOf(sorted), !Recover(disk).ok, false, room)
  {
    ListingFindsNewest(disk, infos, room);
    if Recover(disk).ok {
      RunOkIsBehind(disk.log, Base(disk).0, Base(disk).1, Inc(Recover(disk).txid));
    }
  }

  lemma AgesGrow(next: TxId, ids: set<TxId>, room: nat)
    requires 1 < room < HALF && forall id :: id in ids ==> Age(next, id) < HALF - room
    ensures forall id :: id in ids ==> Age(Inc(next), id) == Age(next, id) + 1
  {
    forall id | id in ids ensures Age(Inc(next), id) == Age(next, id) + 1 {
      AgeOfInc(next, id);
    }
  }

  // The old data files once the active one has been replaced.
  function Retired(olds: seq<TxId>, active: Option<TxId>): seq<TxId> {
    if active.Some? then olds + [active.value] else olds
  }

  lemma RetiredIs(olds: seq<TxId>, active: Option<TxId>)
    ensures forall id :: id in Retired(olds, active) <==> id in olds || active == Some(id)
  {
  }

  // A checkpoint written under the next id is the newest data file and
  // replaces none, and every entry of the log is stale against it.
  lemma CheckpointIsNewest(
    disk: Disk, next: TxId, active: Option<TxId>, olds: seq<TxId>, logInvalid: bool, truncate: bool, room: nat)
    requires Consistent(disk, next, active, olds, logInvalid, truncate, room) && 1 < room
    ensures next !in disk.files && Newest(disk.files.Keys + {next}) == next
    ensures forall id :: id in Ids(disk.log) ==> IsTxIDLessEqual(id, next)
    ensures forall id :: id in disk.files.Keys + Ids(disk.log) || id in olds ==> Age(Inc(next), id) == Age(next, id) + 1
  {
    hide Age, Inc, IsTxIDLessEqual, Ids, Recover;
    AgesGrow(next, disk.files.Keys + Ids(disk.log) + (set id | id in olds), room);
    AgeOfLast(next);
    NewestByAge(Inc(next), disk.files.Keys + {next}, next);
    forall id | id in Ids(disk.log) ensures IsTxIDLessEqual(id, next) {
      OrderByAge(Inc(next), id, next);
    }
  }

  lemma CheckpointRecovers(
    disk: Disk, next: TxId, content: seq<Checkpoints.Token>, state: Table, after: Disk)
    requires Newest(disk.files.Keys + {next}) == next
    requires forall id :: id in Ids(disk.log) ==> IsTxIDLessEqual(id, next)
    requires Checkpoints.Decode(content) == Some(state)
    requires after.files == disk.files[next := content] && (after.log == disk.log || after.log == [])
    ensures var r := Recover(after); r.table == state && r.txid == next
    ensures Base(after).0 == next && Ids(after.log) <= Ids(disk.log)
    ensures Recover(disk).ok || after.log == [] ==> Recover(after).ok
  {
    hide IsTxIDLessEqual;
    assert after.files.Keys == disk.files.Keys + {next};
    RunStale(after.log, next, state);
  }

  lemma CheckpointIsTracked(
    disk: Disk, next: TxId, active: Option<TxId>, olds: seq<TxId>, logInvalid: bool, truncate: bool, room: nat,
    content: seq<Checkpoints.Token>, after: Disk)
    requires Consistent(disk, next, active, olds, logInvalid, truncate, room) && 1 < room
    requires Checkpoints.Decode(content).Some? && after.files == disk.files[next := content]
    requires Base(after).0 == next && Ids(after.log) <= Ids(disk.log)
    ensures Live(after, Inc(next), room - 1) && LogIsStale(after, Inc(next))
    ensures Tracked(after, Inc(next), Some(next), Retired(olds, active), room - 1)
  {
    hide Age, Inc, IsTxIDLessEqual, Ids, Recover, Base, Newest, Checkpoints.Decode;
    CheckpointIsNewest(disk, next, active, olds, logInvalid, truncate, room);
    AgeOfLast(next);
    RetiredIs(olds, active);
    hide Retired;
  }

  // The rename that puts the checkpoint in place commits it: from then on the
  // recovered table is the written one, whatever the log and old files hold.
  lemma CheckpointCommits(
    disk: Disk, next: TxId, active: Option<TxId>, olds: seq<TxId>, logInvalid: bool, truncate: bool, room: nat,
    content: seq<Checkpoints.Token>, state: Table, after: Disk)
    requires Consistent(disk, next, active, olds, logInvalid, truncate, room) && 1 < room
    requires Checkpoints.Decode(content) == Some(state)
    requires after.files == disk.files[next := content] && (after.log == disk.log || after.log == [])
    ensures next !in disk.files
    ensures var r := Recover(after); r.table == state && r.txid == next
    ensures Consistent(after, Inc(next), Some(next), Retired(olds, active), true, true, room - 1)
    ensures !logInvalid || after.log == [] ==> InStep(after, Inc(next))
  {
    CheckpointIsNewest(disk, next, active, olds, logInvalid, truncate, room);
    CheckpointRecovers(disk, next, content, state, after);
    CheckpointIsTracked(disk, next, active, olds, logInvalid, truncate, room, content, after);
    hide Age, Inc, IsTxIDLessEqual, Ids, Recover, Base, Newest, Checkpoints.Decode, Retired, Live, Tracked;
  }

  lemma DataFileRemoved(
    disk: Disk, next: TxId, active: Option<TxId>, olds: seq<TxId>, logInvalid: bool, truncate: bool, room: nat,
    id: TxId, after: Disk)
    requires Consistent(disk, next, active, olds, logInvalid, truncate, room)
    requires id in olds && after.files == disk.files - {id} && after.log == disk.log
    ensures Consistent(after, next, active, olds, logInvalid, truncate, room)
    ensures Recover(after) == Recover(disk)
  {
    hide Age, Inc, IsTxIDLessEqual;
    BaseIsActive(disk, next, active, olds, room);
    NewestByAge(next, after.files.Keys, active.value);
  }

  lemma ActiveExists(
    disk: Disk, next: TxId, active: Option<TxId>, olds: seq<TxId>, logInvalid: bool, truncate: bool, room: nat)
    requires Consistent(disk, next, active, olds, logInvalid, truncate, room)
    ensures active.Some? ==> active.value in disk.files && active.value !in olds
    ensures next !in disk.files
  {
    AgeOfLast(next);
  }

  lemma NoOlds(
    disk: Disk, next: TxId, active: TxId, olds: seq<TxId>, logInvalid: bool, truncate: bool, room: nat)
    requires Consistent(disk, next, Some(active), olds, logInvalid, truncate, room)
    ensures olds == [] ==> forall id :: id in disk.files ==> id == active
  {
    hide Live, Recover, InStep, LogIsStale, Age;
  }

  // Entries of the list whose file is gone need not be kept.
  lemma OldsDropped(
    disk: Disk, next: TxId, active: Option<TxId>, olds: seq<TxId>, logInvalid: bool, truncate: bool, room: nat, n: nat)
    requires Consistent(disk, next, active, olds, logInvalid, truncate, room)
    requires n <= |olds| && forall i :: 0 <= i < n ==> olds[i] !in disk.files
    ensures Consistent(disk, next, active, olds[n..], logInvalid, truncate, room)
  {
    hide Live, Recover, InStep, LogIsStale, Age;
    assert olds == olds[..n] + olds[n..];
  }

  // Truncating a stale log leaves the recovered state alone.
  lemma StaleLogTruncated(
    disk: Disk, next: TxId, active: Option<TxId>, olds: seq<TxId>, room: nat, after: Disk)
    requires Consistent(disk, next, active, olds, false, true, room)
    requires after.files == disk.files && after.log == []
    ensures Consistent(after, next, active, olds, false, true, room)
    ensures Recover(after).table == Recover(disk).table
  {
    hide Age, Inc, IsTxIDLessEqual;
    var base := Base(disk);
    AgeOfLast(base.0);
    forall id | id in Ids(disk.log) ensures IsTxIDLessEqual(id, base.0) {
      OrderByAge(next, id, base.0);
    }
    RunStale(disk.log, base.0, base.1);
  }

  lemma EntryIds(disk: Disk, next: TxId, op: Op, stage: nat)
    requires InStep(disk, next) && stage <= 4
    ensures Ids(disk.log + Partial(stage, next, op)) == Ids(disk.log) + if stage <= 1 then {} else {next}
  {
    hide Run, Age, Inc;
    IdsAppend(disk.log, Partial(stage, next, op), Base(disk).0, Base(disk).1);
  }

  lemma EntryRecovers(disk: Disk, next: TxId, op: Op, stage: nat, after: Disk)
    requires InStep(disk, next) && stage <= 4
    requires after.files == disk.files && after.log == disk.log + Partial(stage, next, op)
    ensures var r, was := Recover(after), Recover(disk);
      if stage == 4 then r.table == Apply(op, was.table) && r.txid == next && r.ok
      else r == was.(ok := stage == 0)
  {
    hide Run, Age, Inc, Partial;
    RunPartial(disk.log, Base(disk).0, Base(disk).1, stage, op);
  }

  // An interrupted append is invisible until the entry is complete.
  lemma EntryAppended(
    disk: Disk, next: TxId, active: Option<TxId>, olds: seq<TxId>, truncate: bool, room: nat,
    op: Op, stage: nat, after: Disk)
    requires Consistent(disk, next, active, olds, false, truncate, room) && 1 < room && stage <= 4
    requires after.files == disk.files && after.log == disk.log + Partial(stage, next, op)
    ensures Consistent(after, next, active, olds, true, false, room)
    ensures Recover(after).table == if stage == 4 then Apply(op, Recover(disk).table) else Recover(disk).table
    ensures stage == 4 ==> Consistent(after, Inc(next), active, olds, false, false, room - 1)
  {
    hide Run, Age, Inc, Partial, Ids;
    EntryRecovers(disk, next, op, stage, after);
    EntryIds(disk, next, op, stage);
    var ids := disk.files.Keys + Ids(disk.log) + {Base(disk).0} + set id | id in olds;
    AgesGrow(next, ids, room);
    AgeOfLast(next);
  }
}
