/** Directories the store does not leave behind itself, on which its promises fail. */
module Limits {
  import opened Documents
  import opened TxIds
  import opened DataFiles
  import opened Replay
  import opened Durability
  import opened MemlogStores
  import Checkpoints

  // What the directory holds once a data file that does not decode has been set aside.
  function SetAside(disk: Disk, id: TxId): Disk {
    disk.(files := disk.files - {id})
  }

  lemma OnlyFile(id: TxId, ids: set<TxId>)
    requires ids == {id}
    ensures Newest(ids) == id
  {
  }

  // Opening twice need not give the same table when the newest data file does
  // not decode: the first time the log is replayed on its id, the second time
  // on the id of an older file, and is rejected. On all other directories, the
  // ones that are `Intact`, opening changes nothing that is read on open: see
  // `Store.Open`.
  lemma CorruptionMakesReopenUnstable(key: string, value: Fields) returns (disk: Disk, newest: TxId)
    ensures newest in disk.files && Newest(disk.files.Keys) == newest
    ensures Comparable(disk, 1) && !Intact(disk)
    ensures Recover(disk).table == map[key := value]
    ensures Recover(SetAside(disk, newest)).table == map[]
  {
    newest := 2;
    var older: TxId, entry: TxId := 1, 3;
    var empty := Checkpoints.Render([]);
    Checkpoints.ParseOfRender([]);
    var op := OpSet(key, value);
    var log := Entry(entry, op);
    disk := Disk(map[older := empty, newest := []], log, None, false, None);
    assert disk.files.Keys == {older, newest};
    NewestByAge(4, disk.files.Keys, newest);
    assert Checkpoints.Decode([]).None?;
    assert Base(disk) == (newest, map[]);
    assert log[2..] == [];
    assert Run(log, newest, map[]) == Replayed(map[key := value], entry, 1, true);

    var next := SetAside(disk, newest);
    OnlyFile(older, next.files.Keys);
    assert Base(next) == (older, map[]);
    assert Run(log, older, map[]) == Replayed(map[], older, 0, false);
  }

  // A log that another program left with a gap is rejected on open. A crash
  // between the rename of the next checkpoint and the truncation of the log
  // then lets the rejected entry in.
  lemma ForeignGapCanBeAccepted(key: string, value: Fields) returns (disk: Disk, content: seq<Checkpoints.Token>)
    ensures Recover(disk) == Replayed(map[], 0, 0, false)
    ensures Checkpoints.Decode(content) == Some(map[])
    ensures Recover(disk.(files := disk.files[Inc(0) := content])).table == map[key := value]
  {
    var op := OpSet(key, value);
    var log := Entry(2, op);
    disk := Disk(map[], log, None, false, None);
    assert Run(log, 0, map[]) == Replayed(map[], 0, 0, false);
    content := Checkpoints.Render([]);
    Checkpoints.ParseOfRender([]);
    var after := disk.(files := disk.files[1 := content]);
    OnlyFile(1, after.files.Keys);
    assert Base(after) == (1, map[]);
    assert log[2..] == [];
    assert Run(log, 1, map[]) == Replayed(map[key := value], 2, 1, true);
  }

  // That is the only way: with a checkpoint `next` in place and the log still
  // there, whoever wrote it, opening finds just the checkpoint if and only if
  // the first entry of the log that is newer does not have the id after it.
  lemma CheckpointHidesLogExactly(
    disk: Disk, next: TxId, content: seq<Checkpoints.Token>, state: Table, after: Disk)
    requires Newest(disk.files.Keys + {next}) == next && Checkpoints.Decode(content) == Some(state)
    requires after.files == disk.files[next := content] && after.log == disk.log
    ensures var r := Recover(after);
      && (r.entries == 0 <==> FirstNewer(disk.log, next) != Some(Inc(next)))
      && (r.entries == 0 ==> r.table == state && r.txid == next)
  {
    assert after.files.Keys == disk.files.Keys + {next};
    RunAppliesExactly(disk.log, next, state);
  }

  // ----- reads that fail unnoticed

  // The end of the log can not be read, and the store takes it for shorter than
  // it is. The next update gets the id of an entry that is there already, so
  // that the store loses it although it reported success.
  lemma MisreadLogLosesConfirmed(first: string, second: string, value: Fields) returns (disk: Disk, after: Disk)
    requires first != second
    ensures WellFormed(disk, 2)
    ensures var seen := Run([], Base(disk).0, Base(disk).1);
      && IsCutShort([], disk.log) && seen == Replayed(map[], 0, 0, true)
      && after == disk.(log := disk.log + Entry(Inc(seen.txid), OpSet(second, value)))
    ensures Recover(after) == Replayed(map[first := value], 1, 1, true)
  {
    var entry: TxId := 1;
    var log, more := Entry(entry, OpSet(first, value)), Entry(entry, OpSet(second, value));
    disk := Disk(map[], log, None, false, None);
    after := disk.(log := log + more);
    assert log[2..] == [] && log[..0] == [] && more[2..] == [];
    assert Run([], 1, map[first := value]) == Replayed(map[first := value], 1, 0, true);
    assert Recover(disk) == Replayed(map[first := value], entry, 1, true);
    assert Ids(log) == {entry};
    assert after.log[2..] == more;
    assert Run(more, 1, map[first := value]) == Replayed(map[first := value], 1, 0, true);
  }

  // Within a window a replay goes one id forward with each entry it applies.
  lemma {:induction false} RunForwardBy(now: TxId, log: seq<Token>, txid: TxId, table: Table)
    requires Age(now, txid) < HALF && forall id :: id in Ids(log) ==> Age(now, id) < HALF
    ensures var r := Run(log, txid, table); Age(now, r.txid) + r.entries == Age(now, txid)
    decreases |log|
  {
    hide Age, Inc, IsTxIDLessEqual;
    if |log| <= 1 || !log[0].Action? || DecodeOp(log[0].name, log[1]).None? {
    } else {
      var op, id := DecodeOp(log[0].name, log[1]).value, log[0].id;
      assert Ids(log) == {id} + Ids(log[2..]);
      if IsTxIDLessEqual(id, txid) {
        RunForwardBy(now, log[2..], txid, table);
      } else if id == Inc(txid) {
        PrevIsOlder(now, txid);
        RunForwardBy(now, log[2..], id, Apply(op, table));
      }
    }
  }

  lemma PrevIsOlder(now: TxId, txid: TxId)
    requires Age(now, txid) < HALF && Age(now, Inc(txid)) < HALF && !IsTxIDLessEqual(Inc(txid), txid)
    ensures Age(now, txid) == Age(now, Inc(txid)) + 1
  {
    AgeOfPrevious(now, txid);
  }

  lemma IncInjective(a: TxId, b: TxId)
    requires Inc(a) == Inc(b)
    ensures a == b
  {
  }

  // Whatever is seen of a log, if no error shows then it is a first part of it.
  lemma SeenIsFirst(log: seq<Token>, seen: seq<Token>, txid: TxId, table: Table) returns (n: nat)
    requires IsCutShort(seen, log)
    ensures n <= |log| && (seen == log[..n] || seen == log[..n] + [Torn])
    ensures Run(seen, txid, table).ok ==> seen == log[..n]
    ensures var r, s := Run(seen, txid, table), Run(log[..n], txid, table);
      r.table == s.table && r.txid == s.txid && r.entries == s.entries
  {
    n :| 0 <= n <= |log| && (seen == log[..n] || seen == log[..n] + [Torn]);
    RunTorn(log[..n], txid, table);
  }

  // What is seen of the log ends at the id of the whole log exactly if it
  // applies as many entries, and then it gives the same table.
  lemma SeenEndsSame(disk: Disk, seen: seq<Token>, room: nat)
    requires WellFormed(disk, room) && IsCutShort(seen, disk.log)
    ensures var s, whole := Run(seen, Base(disk).0, Base(disk).1), Recover(disk);
      && (s.txid == whole.txid <==> s.entries == whole.entries)
      && (s.entries == whole.entries ==> s.table == whole.table)
  {
    var base, tbl, now := Base(disk).0, Base(disk).1, Inc(Recover(disk).txid);
    hide Age, Inc, Run, Base;
    var n := SeenIsFirst(disk.log, seen, base, tbl);
    RunOfFirst(disk.log, n, base, tbl);
    IdsOfFirst(disk.log, n);
    RunForwardBy(now, disk.log, base, tbl);
    RunForwardBy(now, disk.log[..n], base, tbl);
  }

  // A store that has seen only part of the log can go on where the directory
  // is if and only if all entries of the log have been applied, and it trusts
  // the log only if that is one to trust. If it does not trust the log it may
  // have been one entry short, but then its next id is not that of the directory.
  lemma MisreadLogIsHarmlessExactly(disk: Disk, infos: seq<TxId>, room: nat, seen: seq<Token>)
    requires WellFormed(disk, room) && 0 < room && IsCutShort(seen, disk.log)
    requires Distinct(infos) && forall id :: id in infos <==> id in disk.files
    ensures var s, whole, sorted := Run(seen, Base(disk).0, Base(disk).1), Recover(disk), SortDataFileInfos(infos);
      var fits := Consistent(disk, Inc(s.txid), ActiveOf(sorted), OldsOf(sorted), !s.ok, false, room);
      && (s.ok ==> (fits <==> s.entries == whole.entries && whole.ok))
      && (!s.ok ==> (fits && s.txid == whole.txid <==> s.entries == whole.entries))
      && (s.entries == whole.entries ==> s.table == whole.table)
  {
    var s, whole, sorted := Run(seen, Base(disk).0, Base(disk).1), Recover(disk), SortDataFileInfos(infos);
    SeenEndsSame(disk, seen, room);
    OpenedIsConsistent(disk, infos, room);
    var active, olds := ActiveOf(sorted), OldsOf(sorted);
    Weaken(disk, Inc(whole.txid), active, olds, !whole.ok, false, room);
    hide Run, Base, Live, Tracked, SortDataFileInfos, ActiveOf, OldsOf, Inc;
    if s.ok && Consistent(disk, Inc(s.txid), active, olds, false, false, room) {
      IncInjective(s.txid, whole.txid);
    }
  }

  // In the terms of `Store.Open`: reading only part of the log does no harm
  // exactly in that case.
  lemma MisreadLogIsUnharmedExactly(disk: Disk, room: nat, seen: seq<Token>)
    requires WellFormed(disk, room) && IsCutShort(seen, disk.log)
    ensures var s, whole := Run(seen, Base(disk).0, Base(disk).1), Recover(disk);
      Unharmed(disk, disk, s.table, Inc(s.txid), !s.ok) <==> s.entries == whole.entries && (s.ok ==> whole.ok)
  {
    SeenEndsSame(disk, seen, room);
    hide Run, Base, Inc;
    var s := Run(seen, Base(disk).0, Base(disk).1);
    UnharmedIs(disk, disk, s.table, s.txid, s.ok);
  }

  // If the cut comes between two documents, so that no error shows: exactly if
  // the first newer entry behind it does not have the next id, and nothing
  // behind it stops the replay.
  lemma CutBetweenIsHarmlessExactly(disk: Disk, infos: seq<TxId>, room: nat, n: nat)
    requires WellFormed(disk, room) && 0 < room && n <= |disk.log|
    requires Distinct(infos) && forall id :: id in infos <==> id in disk.files
    requires Run(disk.log[..n], Base(disk).0, Base(disk).1).ok
    ensures var r, rest, sorted :=
        Run(disk.log[..n], Base(disk).0, Base(disk).1), disk.log[n..], SortDataFileInfos(infos);
      Consistent(disk, Inc(r.txid), ActiveOf(sorted), OldsOf(sorted), false, false, room) <==>
      FirstNewer(rest, r.txid) != Some(Inc(r.txid)) && Run(rest, r.txid, r.table).ok
  {
    var r, rest := Run(disk.log[..n], Base(disk).0, Base(disk).1), disk.log[n..];
    assert disk.log == disk.log[..n] + rest;
    RunAppend(disk.log[..n], rest, Base(disk).0, Base(disk).1);
    RunAppliesExactly(rest, r.txid, r.table);
    hide Run, Base, Consistent, SortDataFileInfos;
    assert IsCutShort(disk.log[..n], disk.log);
    MisreadLogIsHarmlessExactly(disk, infos, room, disk.log[..n]);
  }

  // The whole table and the right id are not enough: here only the torn end of
  // the log is not seen. The store then trusts its log and appends behind it,
  // where no replay comes.
  lemma TrustedTornTailLosesUpdate(key: string, value: Fields) returns (disk: Disk, after: Disk)
    ensures WellFormed(disk, 2) && disk.log == [Torn] && IsCutShort([], disk.log)
    ensures var seen := Run([], Base(disk).0, Base(disk).1);
      && seen.ok && seen.table == Recover(disk).table && seen.txid == Recover(disk).txid
      && after == disk.(log := disk.log + Entry(Inc(seen.txid), OpSet(key, value)))
    ensures Recover(after).table == map[]
  {
    disk := Disk(map[], [Torn], None, false, None);
    var entry: TxId := 1;
    after := disk.(log := disk.log + Entry(entry, OpSet(key, value)));
    assert disk.log[..0] == [];
  }

  // A data file that can not be read to its end counts as empty. The table in
  // memory right after the opening is the right one if and only if the applied
  // entries of the log set or remove every key of the file. If the file could
  // not be set aside, and so is still there, that is all that matters.
  lemma TableWithoutDataFileIsRightExactly(log: seq<Token>, id: TxId, state: Table)
    ensures var seen, whole := Run(log, id, map[]), Run(log, id, state);
      && seen.txid == whole.txid && seen.entries == whole.entries && seen.ok == whole.ok
      && (seen.table == whole.table <==> state.Keys <= Touched(log, id))
  {
    hide Run, Touched;
    RunOnOther(log, id, state, map[], {});
    RunOnOther(log, id, map[], state, {});
    var seen, whole, keys := Run(log, id, map[]), Run(log, id, state), Touched(log, id);
    if state.Keys <= keys {
      assert forall k :: k in seen.table <==> k in whole.table;
    } else {
      var k :| k in state && k !in keys;
      assert k in whole.table && k !in seen.table;
    }
  }

  // From the next opening on, all that was in the only data file is lost.
  lemma MisreadDataFileLosesTable(id: TxId, content: seq<Checkpoints.Token>, state: Table) returns (disk: Disk)
    requires Checkpoints.Decode(content) == Some(state)
    ensures disk == Disk(map[id := content], [], None, false, None) && Intact(disk)
    ensures Recover(disk).table == state && Recover(SetAside(disk, id)).table == map[]
  {
    hide Checkpoints.Decode;
    disk := Disk(map[id := content], [], None, false, None);
    OnlyFile(id, disk.files.Keys);
  }

  // ----- reopening after the newest data file has been set aside

  // Within a window a replay that does not stop early leaves no entry newer
  // than where it ends.
  lemma {:induction false} RunOkEndsNewest(now: TxId, log: seq<Token>, txid: TxId, table: Table)
    requires Run(log, txid, table).ok && Age(now, txid) < HALF && forall id :: id in Ids(log) ==> Age(now, id) < HALF
    ensures var last := Run(log, txid, table).txid;
      Age(now, last) <= Age(now, txid) && forall id :: id in Ids(log) ==> Age(now, id) >= Age(now, last)
    decreases |log|
  {
    hide Age, Inc, IsTxIDLessEqual;
    if |log| == 0 {
    } else {
      var op, id := DecodeOp(log[0].name, log[1]).value, log[0].id;
      OrderByAge(now, id, txid);
      assert Ids(log) == {id} + Ids(log[2..]);
      if IsTxIDLessEqual(id, txid) {
        RunOkEndsNewest(now, log[2..], txid, table);
      } else {
        RunOkEndsNewest(now, log[2..], id, Apply(op, table));
      }
    }
  }

  // The replay of some first part of the log reaches `target`.
  ghost predicate Reaches(log: seq<Token>, txid: TxId, table: Table, target: TxId) {
    exists m :: 0 <= m <= |log| && ReachesAt(log, m, txid, table, target)
  }

  ghost predicate ReachesAt(log: seq<Token>, m: nat, txid: TxId, table: Table, target: TxId)
    requires m <= |log|
  {
    Run(log[..m], txid, table).ok && Run(log[..m], txid, table).txid == target
  }

  // A replay goes through all ids up to the one it ends at.
  lemma {:induction false} RunPasses(now: TxId, log: seq<Token>, txid: TxId, table: Table, target: TxId)
    requires Age(now, txid) < HALF && forall id :: id in Ids(log) ==> Age(now, id) < HALF
    requires Age(now, Run(log, txid, table).txid) <= Age(now, target) <= Age(now, txid)
    ensures Reaches(log, txid, table, target)
    decreases |log|
  {
    hide Age, Inc, IsTxIDLessEqual;
    if txid == target {
      assert log[..0] == [];
      assert ReachesAt(log, 0, txid, table, target);
    } else {
      if Age(now, txid) == Age(now, target) {
        AgeInjective(now, txid, target);
      }
      var op, id := DecodeOp(log[0].name, log[1]).value, log[0].id;
      assert Ids(log) == {id} + Ids(log[2..]);
      if IsTxIDLessEqual(id, txid) {
        RunPasses(now, log[2..], txid, table, target);
        var m :| 0 <= m <= |log[2..]| && ReachesAt(log[2..], m, txid, table, target);
        assert log[..m + 2][2..] == log[2..][..m];
        assert ReachesAt(log, m + 2, txid, table, target);
      } else {
        PrevIsOlder(now, txid);
        RunPasses(now, log[2..], id, Apply(op, table), target);
        var m :| 0 <= m <= |log[2..]| && ReachesAt(log[2..], m, id, Apply(op, table), target);
        assert log[..m + 2][2..] == log[2..][..m];
        assert ReachesAt(log, m + 2, txid, table, target);
      }
    }
  }

  // If the replay over the older file reaches `newest`, it goes on from there
  // just as the first one did. The tables then agree exactly if what the older
  // file and the log up to there give differs from the newest file only in keys
  // that later entries set or remove.
  lemma ReachedGoesOn(now: TxId, log: seq<Token>, m: nat, older: TxId, loaded: Table, newest: TxId, state: Table)
    requires Age(now, older) < HALF && forall id :: id in Ids(log) ==> Age(now, id) < HALF
    requires m <= |log| && ReachesAt(log, m, older, loaded, newest)
    ensures var r, s := Run(log, older, loaded), Run(log, newest, state);
      && r.txid == s.txid && r.ok == s.ok
      && (r.table == s.table <==> AgreeBut(Run(log[..m], older, loaded).table, state, Touched(log[m..], newest)))
  {
    var first, rest, reached := log[..m], log[m..], Run(log[..m], older, loaded).table;
    assert log == first + rest;
    hide Age, Inc, IsTxIDLessEqual;
    IdsAppend(first, rest, older, loaded);
    RunOkEndsNewest(now, first, older, loaded);
    forall id | id in Ids(first) ensures IsTxIDLessEqual(id, newest) {
      OrderByAge(now, id, newest);
    }
    RunStale(first, newest, state);
    RunAppend(first, rest, older, loaded);
    RunAppend(first, rest, newest, state);
    TablesAgreeExactly(rest, newest, reached, state);
  }

  // The same log on two tables gives the same table exactly if they differ only
  // in keys that its applied entries set or remove.
  lemma TablesAgreeExactly(log: seq<Token>, txid: TxId, a: Table, b: Table)
    ensures var r, s := Run(log, txid, a), Run(log, txid, b);
      && r.txid == s.txid && r.entries == s.entries && r.ok == s.ok
      && (r.table == s.table <==> AgreeBut(a, b, Touched(log, txid)))
  {
    hide Run, Touched;
    RunOnOther(log, txid, a, b, {});
    RunOnOther(log, txid, b, a, {});
    var r, s, keys := Run(log, txid, a).table, Run(log, txid, b).table, Touched(log, txid);
    if AgreeBut(a, b, keys) {
      assert forall k :: (k in r <==> k in s) && (k in r && k in s ==> r[k] == s[k]);
    }
  }

  // Opening again after the newest data file has been set aside keeps the id
  // if and only if the replay over the older file reaches the id of the newest.
  lemma SecondOpenKeepsIdExactly(disk: Disk, newest: TxId, now: TxId)
    requires disk.files != map[] && newest == Newest(disk.files.Keys)
    requires forall id :: id in Ids(disk.log) ==> Age(now, id) < HALF
    requires Age(now, newest) < Age(now, Base(SetAside(disk, newest)).0) < HALF
    ensures var older := Base(SetAside(disk, newest));
      Recover(SetAside(disk, newest)).txid == Recover(disk).txid <==> Reaches(disk.log, older.0, older.1, newest)
  {
    hide Age, ReachesAt;
    var older := Base(SetAside(disk, newest));
    if Reaches(disk.log, older.0, older.1, newest) {
      var m :| 0 <= m <= |disk.log| && ReachesAt(disk.log, m, older.0, older.1, newest);
      ReachedGoesOn(now, disk.log, m, older.0, older.1, newest, Base(disk).1);
    }
    if Recover(SetAside(disk, newest)).txid == Recover(disk).txid {
      RunForwardBy(now, disk.log, newest, Base(disk).1);
      RunPasses(now, disk.log, older.0, older.1, newest);
    }
  }

  // The directory without its newest data file, which could be read to its end
  // after all, still recovers what it did if and only if the replay over the
  // older file reaches the newest, and there has its table up to keys that
  // later entries set or remove.
  lemma SetAsideIsHarmlessExactly(disk: Disk, newest: TxId, now: TxId)
    requires disk.files != map[] && newest == Newest(disk.files.Keys)
    requires forall id :: id in Ids(disk.log) ==> Age(now, id) < HALF
    requires Age(now, newest) < Age(now, Base(SetAside(disk, newest)).0) < HALF
    ensures var older, was, now := Base(SetAside(disk, newest)), Recover(disk), Recover(SetAside(disk, newest));
      now.txid == was.txid && now.table == was.table && now.ok == was.ok <==>
      exists m :: 0 <= m <= |disk.log| && ReachesAt(disk.log, m, older.0, older.1, newest)
                  && AgreeBut(Run(disk.log[..m], older.0, older.1).table, Base(disk).1, Touched(disk.log[m..], newest))
  {
    assert Base(disk).0 == newest;
    hide Age, ReachesAt, Run, Touched, AgreeBut, Base;
    SecondOpenKeepsIdExactly(disk, newest, now);
    var older, log := Base(SetAside(disk, newest)), disk.log;
    forall m | 0 <= m <= |log| && ReachesAt(log, m, older.0, older.1, newest)
      ensures Recover(SetAside(disk, newest)).ok == Recover(disk).ok
      ensures Recover(SetAside(disk, newest)).table == Recover(disk).table <==>
              AgreeBut(Run(log[..m], older.0, older.1).table, Base(disk).1, Touched(log[m..], newest))
    {
      ReachedGoesOn(now, log, m, older.0, older.1, newest, Base(disk).1);
    }
  }

  // That the table in memory was right does not help: the only data file, whose
  // one key the log overwrites, has been set aside, and with it the id that the
  // log goes on from. Nothing is recovered, whatever is confirmed from then on.
  lemma SetAsideLosesEvenOverwritten(key: string, value: Fields, newer: Fields, content: seq<Checkpoints.Token>, op: Op)
    returns (disk: Disk, after: Disk)
    requires Checkpoints.Decode(content) == Some(map[key := value])
    ensures WellFormed(disk, 2) && Recover(disk) == Replayed(map[key := newer], 6, 1, true)
    ensures disk.files == map[5 := content] && Run(disk.log, 5, map[]) == Recover(disk)
    ensures after == SetAside(disk, 5).(log := disk.log + Entry(7, op)) && Recover(after).table == map[]
  {
    hide Checkpoints.Decode;
    var file: TxId, entry: TxId, next: TxId := 5, 6, 7;
    var log := Entry(entry, OpSet(key, newer));
    disk := Disk(map[file := content], log, None, false, None);
    OnlyFile(file, disk.files.Keys);
    assert log[2..] == [];
    assert Base(disk) == (file, map[key := value]);
    assert Ids(log) == {entry};
    assert map[key := value][key := newer] == map[key := newer];
    assert Run([], entry, map[key := newer]) == Replayed(map[key := newer], entry, 0, true);
    after := SetAside(disk, file).(log := log + Entry(next, op));
    assert after.files == map[];
  }
}
