/** Whole runs of the store: any updates, any failures, and a crash anywhere. */
module MemlogRuns {
  import opened Documents
  import opened TxIds
  import opened Replay
  import opened FileSystems
  import opened Durability
  import opened DiskStores
  import opened MemlogStores

  datatype Command = Put(key: string, value: Fields, full: bool) | Delete(key: string, full: bool) | Compact

  function Effect(command: Command, table: Table): Table {
    match command
    case Put(k, v, _) => table[k := v]
    case Delete(k, _) => table - {k}
    case Compact => table
  }

  // The command has nothing to do with the key.
  predicate Spares(command: Command, key: string) {
    command.Compact? || command.key != key
  }

  // The table a plain map would hold after the commands.
  function Model(commands: seq<Command>, table: Table): Table {
    if |commands| == 0 then table
    else
      var n := |commands| - 1;
      Effect(commands[n], Model(commands[..n], table))
  }

  // A key has what the last command on it put there, `commands[i]`, or what it
  // had at the start if there is none.
  lemma {:induction false} ModelIsLastCommand(commands: seq<Command>, table: Table, key: string, i: int)
    requires -1 <= i < |commands| && (i >= 0 ==> !Spares(commands[i], key))
    requires forall j :: i < j < |commands| ==> Spares(commands[j], key)
    ensures var after := Model(commands, table);
      if i >= 0 && commands[i].Put? then key in after && after[key] == commands[i].value
      else if i >= 0 then key !in after
      else (key in after <==> key in table) && (key in table ==> after[key] == table[key])
  {
    if i < |commands| - 1 {
      ModelIsLastCommand(commands[..|commands| - 1], table, key, i);
    }
  }

  // How many commands had been issued when one last reported success.
  function Confirmed(results: seq<bool>): nat
    ensures Confirmed(results) <= |results|
  {
    if |results| == 0 then 0
    else
      var n := |results| - 1;
      if results[n] then n + 1 else Confirmed(results[..n])
  }

  lemma NothingConfirmed()
    ensures Confirmed([]) == 0
  {
  }

  lemma ConfirmedMore(results: seq<bool>, ok: bool)
    ensures Confirmed(results + [ok]) == if ok then |results| + 1 else Confirmed(results)
  {
    assert (results + [ok])[..|results|] == results;
  }

  // The map after some number of the commands, no fewer than `atLeast`.
  ghost predicate IsPrefixState(table: Table, commands: seq<Command>, start: Table, atLeast: nat) {
    exists n :: atLeast <= n <= |commands| && table == Model(commands[..n], start)
  }

  method Execute(store: Store, command: Command) returns (ok: bool)
    requires store.Valid() && 2 < store.disk.room
    modifies store, store.disk, store.disk.fs
    ensures store.Valid() && old(store.disk.room) - 1 <= store.disk.room <= old(store.disk.room)
    ensures store.table == Effect(command, old(store.table))
    ensures store.disk.fs.faults >= old(store.disk.fs.faults)
    ensures !ok ==> store.disk.fs.faults > old(store.disk.fs.faults)
    ensures ok ==> store.acked == store.durable == |store.history| - 1
    ensures store.durable == old(store.durable) || store.durable == |store.history| - 1
    ensures store.history == old(store.history) || store.history == old(store.history) + [store.table]
    ensures Extends(store.disk.fs.trace, old(store.disk.fs.trace))
    ensures CrashSafe(store.disk.fs.trace, |old(store.disk.fs.trace)|,
                      old(store.history[store.durable]), store.table, old(store.disk.room) - 2)
  {
    hide Consistent, Recover, WellFormed;
    match command {
      case Put(k, v, full) => ok := store.Set(k, v, true, full);
      case Delete(k, full) => ok := store.Remove(k, full);
      case Compact =>
        ghost var before, id, left := store.history[store.durable], store.disk.nextTxID, store.disk.room - 2;
        ok := store.Checkpoint();
        CommitsAreSafe(store.disk.fs.trace, |old(store.disk.fs.trace)|, id, before, store.table, left);
    }
  }

  lemma PrefixStateGrows(table: Table, commands: seq<Command>, command: Command, start: Table, atLeast: nat)
    requires IsPrefixState(table, commands, start, atLeast)
    ensures IsPrefixState(table, commands + [command], start, atLeast)
  {
    var n :| atLeast <= n <= |commands| && table == Model(commands[..n], start);
    assert (commands + [command])[..n] == commands[..n];
  }

  lemma WholePrefixState(commands: seq<Command>, start: Table, atLeast: nat)
    requires atLeast <= |commands|
    ensures IsPrefixState(Model(commands, start), commands, start, atLeast)
  {
    assert commands[..|commands|] == commands;
  }

  // A crash that leaves `disk` keeps at least the first `atLeast` commands.
  ghost predicate MayCrashIn(disk: Disk, commands: seq<Command>, start: Table, atLeast: nat, left: nat) {
    WellFormed(disk, left) && IsPrefixState(Recover(disk).table, commands, start, atLeast)
  }

  // The store has run `done` since it recovered `start`.
  ghost predicate Ran(store: Store, done: seq<Command>, start: Table, atLeast: nat)
    reads store, store.disk, store.disk.fs
  {
    && store.Valid()
    && store.table == Model(done, start)
    && IsPrefixState(Recover(store.disk.fs.disk).table, done, start, atLeast)
  }

  // The next command. Up to its end a crash keeps what was confirmed before.
  method Issue(store: Store, command: Command, ghost done: seq<Command>, ghost start: Table,
               ghost atLeast: nat, ghost left: nat)
    returns (ok: bool)
    requires Ran(store, done, start, atLeast) && atLeast <= |done| && left + 2 < store.disk.room
    modifies store, store.disk, store.disk.fs
    ensures Ran(store, done + [command], start, if ok then |done| + 1 else atLeast)
    ensures old(store.disk.room) - 1 <= store.disk.room <= old(store.disk.room)
    ensures store.disk.fs.faults >= old(store.disk.fs.faults)
    ensures !ok ==> store.disk.fs.faults > old(store.disk.fs.faults)
    ensures Extends(store.disk.fs.trace, old(store.disk.fs.trace))
    ensures StretchKeeps(store.disk.fs.trace, |old(store.disk.fs.trace)|, |store.disk.fs.trace|,
                         done + [command], start, atLeast, left)
  {
    hide Consistent, Recover, WellFormed, IsPrefixState;
    ghost var from, allowed := |store.disk.fs.trace|, store.disk.room - 2;
    PrefixStateGrows(Recover(store.disk.fs.disk).table, done, command, start, atLeast);
    store.Pause();
    store.IsWellFormed(allowed);
    ok := Execute(store, command);
    assert (done + [command])[..|done|] == done;
    WholePrefixState(done + [command], start, atLeast);
    WholePrefixState(done + [command], start, |done| + 1);
    forall i | from <= i < |store.disk.fs.trace|
      ensures MayCrashIn(store.disk.fs.trace[i], done + [command], start, atLeast, left)
    {
      WellFormedWithLess(store.disk.fs.trace[i], allowed, left);
    }
  }

  ghost predicate StretchKeeps(
    trace: seq<Disk>, from: nat, to: nat, commands: seq<Command>, start: Table, atLeast: nat, left: nat)
  {
    from <= to <= |trace| && forall i :: from <= i < to ==> MayCrashIn(trace[i], commands, start, atLeast, left)
  }

  lemma StretchStays(
    trace: seq<Disk>, more: seq<Disk>, from: nat, to: nat, commands: seq<Command>, start: Table, atLeast: nat,
    left: nat)
    requires StretchKeeps(trace, from, to, commands, start, atLeast, left) && Extends(more, trace)
    ensures StretchKeeps(more, from, to, commands, start, atLeast, left)
  {
    hide MayCrashIn;
    forall i | from <= i < to ensures MayCrashIn(more[i], commands, start, atLeast, left) {
      assert more[..|trace|][i] == trace[i];
    }
  }

  // `marks` cuts the trace into one stretch for each command that ran, from the
  // end of the command before. A crash there keeps all commands confirmed
  // before it.
  ghost predicate Stretches(
    trace: seq<Disk>, marks: seq<nat>, commands: seq<Command>, results: seq<bool>, start: Table, left: nat)
  {
    && |marks| == |results| + 1 <= |commands| + 1
    && forall k :: 0 <= k < |results| ==>
      StretchKeeps(trace, marks[k], marks[k + 1], commands[..k + 1], start, Confirmed(results[..k]), left)
  }

  // The stretches, and the time since the last command.
  ghost predicate CrashesKeep(
    trace: seq<Disk>, marks: seq<nat>, commands: seq<Command>, results: seq<bool>, start: Table, left: nat)
  {
    && Stretches(trace, marks, commands, results, start, left)
    && StretchKeeps(trace, marks[|results|], |trace|, commands[..|results|], start, Confirmed(results), left)
  }

  lemma StretchesStay(trace: seq<Disk>, more: seq<Disk>, marks: seq<nat>, commands: seq<Command>, results: seq<bool>,
                      start: Table, left: nat)
    requires Stretches(trace, marks, commands, results, start, left) && Extends(more, trace)
    ensures Stretches(more, marks, commands, results, start, left)
  {
    hide StretchKeeps, Confirmed, Extends;
    forall k | 0 <= k < |results|
      ensures StretchKeeps(more, marks[k], marks[k + 1], commands[..k + 1], start, Confirmed(results[..k]), left)
    {
      StretchStays(trace, more, marks[k], marks[k + 1], commands[..k + 1], start, Confirmed(results[..k]), left);
    }
  }

  lemma StretchesMore(trace: seq<Disk>, marks: seq<nat>, commands: seq<Command>, results: seq<bool>, ok: bool,
                      start: Table, left: nat)
    requires Stretches(trace, marks, commands, results, start, left) && |results| < |commands|
    requires StretchKeeps(trace, marks[|results|], |trace|, commands[..|results| + 1], start, Confirmed(results), left)
    ensures Stretches(trace, marks + [|trace|], commands, results + [ok], start, left)
  {
    hide StretchKeeps, Confirmed;
    var marks', results' := marks + [|trace|], results + [ok];
    forall k | 0 <= k < |results'|
      ensures StretchKeeps(trace, marks'[k], marks'[k + 1], commands[..k + 1], start, Confirmed(results'[..k]), left)
    {
      assert results'[..k] == results[..k];
      if k == |results| {
        assert results[..k] == results;
      }
    }
  }

  ghost predicate AllTrue(results: seq<bool>) {
    forall i :: 0 <= i < |results| ==> results[i]
  }

  // Where a store is after the commands that have a result.
  ghost predicate Underway(
    store: Store, commands: seq<Command>, results: seq<bool>, marks: seq<nat>, start: Table, left: nat)
    requires |results| <= |commands|
    reads store, store.disk, store.disk.fs
  {
    var trace := store.disk.fs.trace;
    && Ran(store, commands[..|results|], start, Confirmed(results))
    && Stretches(trace, marks, commands, results, start, left) && marks[|results|] == |trace|
  }

  // The next of the commands.
  method IssueNext(store: Store, commands: seq<Command>, results: seq<bool>, ghost marks: seq<nat>,
                   ghost start: Table, ghost left: nat)
    returns (ok: bool)
    requires |results| < |commands| && Underway(store, commands, results, marks, start, left)
    requires left + 2 < store.disk.room
    modifies store, store.disk, store.disk.fs
    ensures Underway(store, commands, results + [ok], marks + [|store.disk.fs.trace|], start, left)
    ensures old(store.disk.room) - 1 <= store.disk.room && Extends(store.disk.fs.trace, old(store.disk.fs.trace))
    ensures store.disk.fs.faults >= old(store.disk.fs.faults)
    ensures !ok ==> store.disk.fs.faults > old(store.disk.fs.faults)
  {
    hide Ran, StretchKeeps, Confirmed, Extends, Stretches;
    var n := |results|;
    ghost var trace := store.disk.fs.trace;
    assert commands[..n + 1] == commands[..n] + [commands[n]];
    MarksAreMore(trace, marks, commands, results, start, left);
    ok := Issue(store, commands[n], commands[..n], start, Confirmed(results), left);
    ConfirmedMore(results, ok);
    StretchesStay(trace, store.disk.fs.trace, marks, commands, results, start, left);
    StretchesMore(store.disk.fs.trace, marks, commands, results, ok, start, left);
  }

  lemma MarksAreMore(trace: seq<Disk>, marks: seq<nat>, commands: seq<Command>, results: seq<bool>,
                     start: Table, left: nat)
    requires Stretches(trace, marks, commands, results, start, left)
    ensures |marks| == |results| + 1
  {
  }

  // All commands, one after the other, and a while after the last.
  method IssueAll(store: Store, commands: seq<Command>, ghost start: Table, ghost left: nat)
    returns (results: seq<bool>, ghost marks: seq<nat>)
    requires Ran(store, [], start, 0) && left + |commands| + 1 < store.disk.room
    modifies store, store.disk, store.disk.fs
    ensures |results| == |commands| && Ran(store, commands, start, Confirmed(results)) && left < store.disk.room
    ensures marks != [] && marks[0] == |old(store.disk.fs.trace)|
    ensures Extends(store.disk.fs.trace, old(store.disk.fs.trace))
    ensures CrashesKeep(store.disk.fs.trace, marks, commands, results, start, left)
    ensures store.disk.fs.faults >= old(store.disk.fs.faults)
    ensures store.disk.fs.faults == old(store.disk.fs.faults) ==> AllTrue(results)
  {
    ghost var d, was := store.disk, store.disk.fs.trace;
    ghost var room, faults := d.room, d.fs.faults;
    NothingConfirmed();
    ExtendsItself(was);
    assert commands[..0] == [];
    results, marks := [], [|was|];
    hide Ran, Stretches, Confirmed, Extends;
    assert Stretches(was, marks, commands, results, start, left) by { NoStretches(was, commands, start, left); }
    while |results| < |commands|
      invariant |results| <= |commands| && Underway(store, commands, results, marks, start, left)
      invariant |marks| == |results| + 1 && marks[0] == |was|
      invariant Extends(d.fs.trace, was) && room - |results| <= d.room
      invariant d.fs.faults >= faults && (d.fs.faults == faults ==> AllTrue(results))
    {
      ghost var trace := d.fs.trace;
      var ok := IssueNext(store, commands, results, marks, start, left);
      ExtendsFurther(d.fs.trace, trace, was);
      results, marks := results + [ok], marks + [|d.fs.trace|];
    }
    assert commands[..|results|] == commands;
    ghost var trace := d.fs.trace;
    Rest(store, commands, start, Confirmed(results), left);
    ExtendsFurther(d.fs.trace, trace, was);
    StretchesStay(trace, d.fs.trace, marks, commands, results, start, left);
  }

  lemma NoStretches(trace: seq<Disk>, commands: seq<Command>, start: Table, left: nat)
    ensures Stretches(trace, [|trace|], commands, [], start, left)
  {
  }

  // A while without anything, in which a crash may come.
  method Rest(store: Store, ghost commands: seq<Command>, ghost start: Table, ghost atLeast: nat, ghost left: nat)
    requires Ran(store, commands, start, atLeast) && left < store.disk.room
    modifies store.disk.fs
    ensures Ran(store, commands, start, atLeast) && store.disk.fs.faults == old(store.disk.fs.faults)
    ensures Extends(store.disk.fs.trace, old(store.disk.fs.trace))
    ensures StretchKeeps(store.disk.fs.trace, |old(store.disk.fs.trace)|, |store.disk.fs.trace|,
                         commands, start, atLeast, left)
  {
    hide WellFormed, IsPrefixState, Consistent, Recover;
    store.Pause();
    store.IsWellFormed(left);
  }

  method Begin(fs: FileSystem, ignoreVersionCheck: bool, ghost room: nat, ghost left: nat)
    returns (store: Store?, lost: bool)
    requires WellFormed(fs.disk, room) && left + 1 < room
    modifies fs, fs.home
    ensures Extends(fs.trace, old(fs.trace))
    ensures HomeAfter(old(fs.home.state), old(fs.home.states), fs.home, store != null, ignoreVersionCheck)
    ensures fs.faults >= old(fs.faults) && (lost ==> fs.faults > old(fs.faults))
    ensures fs.faults == old(fs.faults) ==> (store != null <==> ignoreVersionCheck || old(fs.home.state) != Unfinished)
    ensures !lost ==>
      && WellFormed(fs.disk, left)
      && StretchKeeps(fs.trace, |old(fs.trace)|, |fs.trace|, [], old(Recover(fs.disk).table), 0, left)
    ensures store != null ==> fresh(store) && fresh(store.disk) && store.disk.fs == fs
    ensures store != null && !lost ==> store.disk.room == room && Ran(store, [], old(Recover(fs.disk).table), 0)
  {
    hide Recover, WellFormed, IsPrefixState, Consistent, Misreads, SetAsideAtMost;
    ghost var disk0, trace0, start := fs.disk, fs.trace, Recover(fs.disk).table;
    WellFormedIs(disk0, room);
    WellFormedWithLess(disk0, room, left);
    store, lost := Store.Open(fs, ignoreVersionCheck, room);
    if !lost {
      SameDataRecovers(disk0, fs.disk);
      WholePrefixState([], start, 0);
      forall i | |trace0| <= i < |fs.trace| ensures MayCrashIn(fs.trace[i], [], start, 0, left) {
        SameDataRecovers(disk0, fs.trace[i]);
      }
    }
  }

  // One life of the store. Wherever a crash ends it, the directory recovers the
  // plain map after a prefix of the commands that includes every one confirmed
  // until then, and is again one from which a life can start. Commands fail
  // only if some operation of the file system did. All that unless opening
  // the store loses something; such a life is not followed.
  method Life(fs: FileSystem, ignoreVersionCheck: bool, commands: seq<Command>, ghost room: nat)
    returns (isOpen: bool, lost: bool, results: seq<bool>, ghost marks: seq<nat>)
    requires WellFormed(fs.disk, room) && |commands| + 2 < room
    modifies fs, fs.home
    ensures HomeAfter(old(fs.home.state), old(fs.home.states), fs.home, isOpen, ignoreVersionCheck)
    ensures fs.faults == old(fs.faults) ==>
      !lost && (isOpen <==> ignoreVersionCheck || old(fs.home.state) != Unfinished) && AllTrue(results)
    ensures if isOpen && !lost then |results| == |commands| else results == []
    ensures Extends(fs.trace, old(fs.trace)) && (!lost ==> WellFormed(fs.disk, room - |commands| - 2))
    // while opening
    ensures marks != []
    ensures !lost ==>
      StretchKeeps(fs.trace, |old(fs.trace)|, marks[0], [], old(Recover(fs.disk).table), 0, room - |commands| - 2)
    // while running and afterwards
    ensures !lost && !isOpen ==> marks == [|fs.trace|]
    ensures !lost ==>
      CrashesKeep(fs.trace, marks, commands, results, old(Recover(fs.disk).table), room - |commands| - 2)
    ensures isOpen && !lost ==>
      IsPrefixState(Recover(fs.disk).table, commands, old(Recover(fs.disk).table), Confirmed(results))
  {
    hide Recover, WellFormed, Ran, StretchKeeps, Extends, AllTrue, CrashesKeep, HomeAfter;
    ghost var trace0, start, left := fs.trace, Recover(fs.disk).table, room - |commands| - 2;
    var store;
    store, lost := Begin(fs, ignoreVersionCheck, room, left);
    ghost var trace1 := fs.trace;
    isOpen, results, marks := store != null, [], [|trace1|];
    NeverOpen(trace1, commands, start, left);
    if lost || store == null {
      return;
    }
    results, marks := IssueAll(store, commands, start, left);
    RanIs(store, commands, start, Confirmed(results), left);
    StretchStays(trace1, fs.trace, |trace0|, |trace1|, [], start, 0, left);
    ExtendsFurther(fs.trace, trace1, trace0);
  }

  lemma RanIs(store: Store, commands: seq<Command>, start: Table, atLeast: nat, left: nat)
    requires Ran(store, commands, start, atLeast) && left < store.disk.room
    ensures WellFormed(store.disk.fs.disk, left)
    ensures IsPrefixState(Recover(store.disk.fs.disk).table, commands, start, atLeast)
  {
    store.IsWellFormed(left);
  }

  lemma NeverOpen(trace: seq<Disk>, commands: seq<Command>, start: Table, left: nat)
    ensures CrashesKeep(trace, [|trace|], commands, [], start, left)
    ensures AllTrue([])
  {
  }

  // ----- one life after the other

  // A directory that holds nothing yet.
  lemma EmptyIsWellFormed(room: nat)
    requires room < HALF - 1
    ensures WellFormed(Disk(map[], [], None, false, None), room)
    ensures Recover(Disk(map[], [], None, false, None)).table == map[]
  {
  }

  // What a crash in the state `trace[i]` keeps, and during which command it comes.
  lemma CrashPoint(trace: seq<Disk>, marks: seq<nat>, commands: seq<Command>, results: seq<bool>, start: Table,
                   left: nat, i: nat)
    returns (at: nat, kept: nat)
    requires CrashesKeep(trace, marks, commands, results, start, left) && marks[0] <= i < |trace|
    ensures at <= |results| && Confirmed(results[..at]) <= kept <= at + 1 && kept <= |commands|
    ensures WellFormed(trace[i], left) && Recover(trace[i]).table == Model(commands[..kept], start)
  {
    hide WellFormed, Recover, Confirmed, Model;
    at := FindMark(marks, i, |results|);
    assert results[..|results|] == results;
    var begun := if at < |results| then commands[..at + 1] else commands[..at];
    assert MayCrashIn(trace[i], begun, start, Confirmed(results[..at]), left);
    kept := PrefixStateAt(Recover(trace[i]).table, begun, start, Confirmed(results[..at]));
    assert begun[..kept] == commands[..kept];
  }

  lemma PrefixStateAt(table: Table, commands: seq<Command>, start: Table, atLeast: nat) returns (n: nat)
    requires IsPrefixState(table, commands, start, atLeast)
    ensures atLeast <= n <= |commands| && table == Model(commands[..n], start)
  {
    n :| atLeast <= n <= |commands| && table == Model(commands[..n], start);
  }

  lemma {:induction false} ModelAppend(a: seq<Command>, b: seq<Command>, table: Table)
    ensures Model(a + b, table) == Model(b, Model(a, table))
  {
    if |b| == 0 {
      assert a + b == a;
    } else {
      var n := |b| - 1;
      assert (a + b)[..|a| + n] == a + b[..n];
      ModelAppend(a, b[..n], table);
    }
  }

  // A life on the directory `disk`, and the one that a crash leaves somewhere
  // on the way: during the command `at`, or after the last.
  method LifeAndCrash(disk: Disk, home: Home, ignoreVersionCheck: bool, commands: seq<Command>, ghost room: nat)
    returns (after: Disk, next: Home, lost: bool, results: seq<bool>, ghost at: nat, ghost kept: nat)
    requires WellFormed(disk, room) && |commands| + 2 < room
    ensures HomeSurvives(home, next, results != [], ignoreVersionCheck)
    ensures next != Ready && !ignoreVersionCheck ==> after == disk
    ensures !lost ==>
      && at <= |results| && Confirmed(results[..at]) <= kept <= at + 1 && kept <= |commands|
      && WellFormed(after, room - |commands| - 2)
      && Recover(after).table == Model(commands[..kept], Recover(disk).table)
  {
    hide WellFormed, Recover, Model, Confirmed, CrashesKeep, IsPrefixState;
    ghost var left := room - |commands| - 2;
    var fs := new FileSystem(disk, home);
    var isOpen;
    ghost var marks;
    isOpen, lost, results, marks := Life(fs, ignoreVersionCheck, commands, room);
    var i: int :| 0 <= i < |fs.trace|;
    var j: int :| 0 <= j < |fs.home.states|;
    // a directory that is not complete has not been used yet
    if fs.home.states[j] != Ready && (home == Missing || !ignoreVersionCheck) {
      i := 0;
    }
    after, next := fs.trace[i], fs.home.states[j];
    at, kept := 0, 0;
    if lost {
    } else if i < marks[0] {
      at := 0;
      assert commands[..0] == [] && results[..0] == [];
      NothingConfirmed();
      NothingDone(Recover(disk).table);
      if i == 0 {
        assert fs.trace[..1] == [disk];
        WellFormedWithLess(disk, room, left);
        kept := 0;
      } else {
        kept := PrefixStateAt(Recover(after).table, [], Recover(disk).table, 0);
        WellFormedWithLess(after, left, left);
      }
    } else {
      at, kept := CrashPoint(fs.trace, marks, commands, results, Recover(disk).table, left, i);
    }
  }

  lemma NothingDone(table: Table)
    ensures Model([], table) == table
  {
  }

  // The transaction ids that the lives may use up.
  function Budget(lives: seq<seq<Command>>): nat {
    if |lives| == 0 then 0 else Budget(lives[..|lives| - 1]) + |lives[|lives| - 1]| + 2
  }

  // The commands that are left of the lives, the first `kept` of each.
  function Remaining(lives: seq<seq<Command>>, kept: seq<nat>): seq<Command>
    requires |kept| <= |lives| && forall j :: 0 <= j < |kept| ==> kept[j] <= |lives[j]|
  {
    if |kept| == 0 then []
    else
      var n := |kept| - 1;
      Remaining(lives, kept[..n]) + lives[n][..kept[n]]
  }

  lemma {:induction false} BudgetBefore(lives: seq<seq<Command>>, n: nat)
    requires n <= |lives|
    ensures Budget(lives[..n]) <= Budget(lives)
  {
    if n == |lives| {
      assert lives[..n] == lives;
    } else {
      BudgetBefore(lives[..|lives| - 1], n);
      assert lives[..|lives| - 1][..n] == lives[..n];
    }
  }

  lemma BudgetMore(lives: seq<seq<Command>>, n: nat)
    requires n < |lives|
    ensures Budget(lives[..n + 1]) == Budget(lives[..n]) + |lives[n]| + 2 <= Budget(lives)
  {
    BudgetBefore(lives, n + 1);
    assert lives[..n + 1][..n] == lives[..n];
  }

  lemma RemainingMore(lives: seq<seq<Command>>, kept: seq<nat>, k: nat, table: Table)
    requires |kept| < |lives| && k <= |lives[|kept|]| && forall j :: 0 <= j < |kept| ==> kept[j] <= |lives[j]|
    ensures var n := |kept|;
      Model(Remaining(lives, kept + [k]), table) == Model(lives[n][..k], Model(Remaining(lives, kept), table))
  {
    assert (kept + [k])[..|kept|] == kept;
    ModelAppend(Remaining(lives, kept), lives[|kept|][..k], table);
  }

  // What a crash keeps of each life, and when it came.
  ghost predicate Survives(lives: seq<seq<Command>>, results: seq<seq<bool>>, at: seq<nat>, kept: seq<nat>) {
    && |results| == |at| == |kept| <= |lives|
    && forall j :: 0 <= j < |results| ==>
      at[j] <= |results[j]| && Confirmed(results[j][..at[j]]) <= kept[j] <= at[j] + 1 && kept[j] <= |lives[j]|
  }

  // Any number of lives, each ended by a crash at some moment: what the last
  // one leaves is the plain map after some first commands of each life, among
  // them all that had been confirmed when the crash came. A complete directory
  // stays complete. All that unless opening the store loses something in some
  // life, which is then the last one looked at.
  method Lives(disk: Disk, home: Home, ignoreVersionCheck: bool, lives: seq<seq<Command>>, ghost room: nat)
    returns (last: Disk, lastHome: Home, lost: bool, results: seq<seq<bool>>,
             ghost at: seq<nat>, ghost kept: seq<nat>)
    requires WellFormed(disk, room) && Budget(lives) < room
    ensures home != Missing ==> lastHome == home
    ensures lastHome != Ready && !ignoreVersionCheck ==> last == disk
    ensures lost ==> |results| < |lives|
    ensures !lost ==>
      && |results| == |lives| && Survives(lives, results, at, kept)
      && WellFormed(last, room - Budget(lives))
      && Recover(last).table == Model(Remaining(lives, kept), Recover(disk).table)
  {
    hide WellFormed, Recover, Model, Confirmed, Budget;
    last, lastHome, lost, results, at, kept := disk, home, false, [], [], [];
    NothingDone(Recover(disk).table);
    NoBudget();
    assert lives[..0] == [];
    while |results| < |lives|
      invariant |results| <= |lives| && Survives(lives, results, at, kept)
      invariant home != Missing ==> lastHome == home
      invariant lastHome != Ready && !ignoreVersionCheck ==> last == disk
      invariant Budget(lives[..|results|]) < room && WellFormed(last, room - Budget(lives[..|results|]))
      invariant Recover(last).table == Model(Remaining(lives, kept), Recover(disk).table)
    {
      var n := |results|;
      BudgetMore(lives, n);
      ghost var a, k;
      var after, next, result;
      after, next, lost, result, a, k :=
        LifeAndCrash(last, lastHome, ignoreVersionCheck, lives[n], room - Budget(lives[..n]));
      lastHome := next;
      if lost {
        last := after;
        return;
      }
      RemainingMore(lives, kept, k, Recover(disk).table);
      last, results, at, kept := after, results + [result], at + [a], kept + [k];
    }
    assert lives[..|results|] == lives;
  }

  lemma NoBudget()
    ensures Budget([]) == 0
  {
  }
}
