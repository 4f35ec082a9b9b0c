/**
 * Whole runs of an input: any publishes, any ACKs, anything that other clients
 * do with the store, any failures of it and a crash anywhere, against a definition of what is reported that knows
 * neither queues nor gap lists.
 */
module InputRuns {
  import opened Documents
  import opened GapLists
  import opened Replay
  import opened FileSystems
  import opened Durability
  import opened DiskStores
  import opened Cursors
  import opened InputSessions
  import opened ResourceTables
  import MemlogRuns

  // `Other` is what another input, the cleaner, or any other client of the
  // store does with it. `closed` says whether the handle used has been closed.
  datatype Action =
    | Emit(private: Private, update: Option<Json>, convertible: bool, published: bool, now: Time, closed: bool)
    | Ack(n: nat, closed: bool)
    | Other(command: MemlogRuns.Command, closed: bool)

  // The event an action adds, if any: an update that can not be converted adds none.
  function Added(action: Action): seq<Private> {
    match action
    case Ack(_, _) => []
    case Other(_, _) => []
    case Emit(private, None, _, _, _, _) => [private]
    case Emit(_, Some(update), convertible, _, now, _) => if convertible then [Update(UpdateOp(now, update))] else []
  }

  function Events(actions: seq<Action>): seq<Private> {
    if |actions| == 0 then [] else Events(actions[..|actions| - 1]) + Added(actions[|actions| - 1])
  }

  // For each event whether it was published.
  function Flags(actions: seq<Action>): (flags: seq<bool>)
    ensures |flags| == |Events(actions)|
  {
    if |actions| == 0 then []
    else
      var action := actions[|actions| - 1];
      Flags(actions[..|actions| - 1]) + if Added(action) == [] then [] else [action.published]
  }

  function Acked(actions: seq<Action>): nat {
    if |actions| == 0 then 0
    else
      var action := actions[|actions| - 1];
      Acked(actions[..|actions| - 1]) + if action.Ack? then action.n else 0
  }

  // The longest prefix of the events that has as many published events as were ACKed.
  function Reported(actions: seq<Action>): seq<Private> {
    Events(actions)[..Span(Flags(actions), Acked(actions))]
  }

  // At no time more has been ACKed than was published.
  ghost predicate Answered(actions: seq<Action>) {
    forall k :: 0 <= k <= |actions| ==> Acked(actions[..k]) <= Count(Flags(actions[..k]))
  }

  // Update operations are made by Publish alone, and nobody else uses the key of
  // an input that runs (`ResourceLifecycle`).
  predicate Allowed(action: Action, key: string) {
    match action
    case Emit(private, _, _, _, _, _) => !private.Update?
    case Ack(_, _) => true
    case Other(command, _) => MemlogRuns.Spares(command, key)
  }

  ghost predicate Proper(actions: seq<Action>, key: string) {
    forall i :: 0 <= i < |actions| ==> Allowed(actions[i], key)
  }

  // ----- the run

  ghost predicate InStepWith(session: InputSession, actions: seq<Action>)
    reads session, session.acker, session.acker.tracking, session.acker.tracking.nodes, session.resource,
          session.store, session.store.disk, session.store.disk.fs
  {
    && session.Valid()
    && session.acker.added == Events(actions)
    && Acked(actions) <= Count(Flags(actions))
    && session.acker.tracking.Queue() == Unreported(Flags(actions), Acked(actions))
  }

  lemma ReportedIs(session: InputSession, actions: seq<Action>)
    requires InStepWith(session, actions)
    ensures session.acker.reported == Reported(actions)
    ensures session.resource.cursor == CursorAfter(session.initial, Reported(actions))
  {
    hide session.resource.Valid, session.store.Valid, session.acker.tracking.Valid, CursorAfter, Behind, Span, Count;
    var a := session.acker;
    assert a.reported == a.added[..|a.reported|];
  }

  // The store has the in-sync state, and so has what the directory recovers: if
  // `always`, and otherwise once an update has been reported.
  ghost predicate PersistedIn(always: bool, table: Table, disk: Disk, key: string, state: State,
                              reported: seq<Private>)
  {
    always || OpsOf(reported) != [] ==> Holds(table, key, state) && Holds(Recover(disk).table, key, state)
  }

  ghost predicate Persisted(session: InputSession, always: bool)
    reads session, session.acker, session.resource, session.store, session.store.disk, session.store.disk.fs
  {
    PersistedIn(always, session.store.table, session.store.disk.fs.disk, session.resource.key,
                session.resource.InSyncStateSnapshot(), session.acker.reported)
  }

  lemma PersistedAtLeast(session: InputSession, always: bool, less: bool)
    requires less ==> always
    ensures Persisted(session, always) ==> Persisted(session, less)
  {
    hide Recover;
  }

  // A batch without updates needs no write.
  lemma NothingToPersist(always: bool, table: Table, disk: Disk, key: string, state: State, before: seq<Private>,
                         batch: seq<Private>)
    requires OpsOf(batch) == []
    ensures PersistedIn(always, table, disk, key, state, before + batch) <==>
            PersistedIn(always, table, disk, key, state, before)
  {
    OpsAppend(before, batch);
  }

  // A command that spares the key leaves it persisted, successful or not.
  lemma StaysPersisted(always: bool, was: Table, disk: Disk, table: Table, after: Disk,
                       command: MemlogRuns.Command, key: string, state: State, reported: seq<Private>)
    requires PersistedIn(always, was, disk, key, state, reported) && MemlogRuns.Spares(command, key)
    requires table == was || table == MemlogRuns.Effect(command, was)
    requires Recover(after).table == Recover(disk).table || Recover(after).table == table
    ensures PersistedIn(always, table, after, key, state, reported)
  {
    hide Recover, OpsOf;
  }

  lemma NoNewUpdate(before: seq<Private>, batch: seq<Private>)
    ensures OpsOf(before + batch) == OpsOf(before) <==> OpsOf(batch) == []
  {
    OpsAppend(before, batch);
  }

  lemma OpsOfOne(event: Private)
    ensures OpsOf([]) == [] && (OpsOf([event]) == [] <==> !event.Update?)
  {
    assert [event][..0] == [];
  }

  lemma SettledIsValid(session: InputSession, room: nat, was: seq<Disk>, before: nat, write: Write)
    requires 2 < room && session.Settled(room, was, before, write)
    ensures session.Valid()
  {
  }

  lemma DoneIsStored(session: InputSession, room: nat, was: seq<Disk>, before: nat)
    requires 2 < room && session.Settled(room, was, before, Done)
    ensures Holds(session.store.table, session.resource.key, session.resource.InSyncStateSnapshot())
  {
    hide Recover, session.Valid, NeverAhead;
  }

  lemma DoneIsPersisted(session: InputSession, always: bool, room: nat, was: seq<Disk>, before: nat)
    requires 2 < room && session.Settled(room, was, before, Done)
    ensures Persisted(session, always)
  {
    hide Recover, session.Settled;
    AckedCursorIsDurable(session, room, was, before);
    DoneIsStored(session, room, was, before);
  }

  // What is persisted after `batch` has been reported, with the outcome `write`.
  lemma PersistedAfter(session: InputSession, always: bool, table: Table, disk: Disk, state: State,
                       before: seq<Private>, batch: seq<Private>, room: nat, was: seq<Disk>, covered: nat, write: Write)
    requires 2 < room && session.Settled(room, was, covered, write) && session.acker.reported == before + batch
    requires write == NotNeeded ==>
      && OpsOf(batch) == [] && session.store.table == table && session.store.disk.fs.disk == disk
      && session.resource.InSyncStateSnapshot() == state
    ensures session.Valid()
    ensures write == Done
            || (write == NotNeeded && PersistedIn(always, table, disk, session.resource.key, state, before)) ==>
      Persisted(session, always)
    ensures OpsOf(session.acker.reported) == OpsOf(before) <==> OpsOf(batch) == []
  {
    hide session.Valid, session.Settled, PersistedIn, Recover;
    SettledIsValid(session, room, was, covered, write);
    NoNewUpdate(before, batch);
    if write == NotNeeded {
      NothingToPersist(always, table, disk, session.resource.key, state, before, batch);
    } else if write == Done {
      DoneIsPersisted(session, always, room, was, covered);
    }
  }

  lemma SessionIsAcker(session: InputSession)
    requires session.Valid()
    ensures session.acker.Valid()
  {
  }

  lemma OneMore(actions: seq<Action>, action: Action)
    ensures var longer, added := actions + [action], Added(action);
      && Events(longer) == Events(actions) + added
      && Flags(longer) == Flags(actions) + (if added == [] then [] else [action.published])
      && Acked(longer) == Acked(actions) + if action.Ack? then action.n else 0
  {
    assert (actions + [action])[..|actions|] == actions;
  }

  method TakeEmit(session: InputSession, ghost always: bool, ghost actions: seq<Action>, action: Action)
    returns (write: Write)
    requires InStepWith(session, actions) && 2 < session.store.disk.room
    requires action.Emit? && !action.private.Update?
    modifies session`covered, session.acker, session.acker.tracking, session.acker.tracking.nodes, session.resource,
             session.store, session.store.disk, session.store.disk.fs
    ensures InStepWith(session, actions + [action])
    ensures session.Settled(old(session.store.disk.room), old(session.store.disk.fs.trace), old(session.covered), write)
    ensures fresh(set node | node in session.acker.tracking.nodes && node !in old(session.acker.tracking.nodes))
    ensures Failing(old(session.store.disk.fs.faults), session.store, action.closed, write != Failed)
    ensures session.resource.ttl == old(session.resource.ttl) && (action.closed ==> write != Done)
    ensures old(session.acker.reported) <= session.acker.reported
    ensures write == Done || (write == NotNeeded && old(Persisted(session, always))) ==> Persisted(session, always)
    ensures write == NotNeeded <==> OpsOf(session.acker.reported) == old(OpsOf(session.acker.reported))
  {
    hide session.Valid, session.Settled, PersistedIn, Span, Count, Enqueue, Failing, Unreported, Recover;
    OneMore(actions, action);
    hide Events, Flags, Acked;
    ghost var a, flags := session.acker, Flags(actions);
    ghost var room, was := session.store.disk.room, session.store.disk.fs.trace;
    ghost var before, disk, state := a.reported, session.store.disk.fs.disk, session.resource.InSyncStateSnapshot();
    ghost var covered, table := session.covered, session.store.table;
    AddedToUnreported(flags, Acked(actions), action.published);
    var ok;
    ok, write := session.Publish(action.private, action.update, action.convertible, action.published, action.now,
                                 action.closed);
    ghost var batch := a.reported[|before|..];
    assert a.reported == before + batch;
    OpsOfOne(if ok then Added(action)[0] else Nil);
    if !ok {
      assert flags + [] == flags && Events(actions) + [] == Events(actions);
    }
    PersistedAfter(session, always, table, disk, state, before, batch, room, was, covered, write);
  }

  method TakeAck(session: InputSession, ghost always: bool, ghost actions: seq<Action>, action: Action)
    returns (panicked: bool, write: Write)
    requires InStepWith(session, actions) && 2 < session.store.disk.room && action.Ack?
    modifies session`covered, session.acker, session.acker.tracking, session.acker.tracking.nodes, session.resource,
             session.store, session.store.disk, session.store.disk.fs
    ensures panicked <==> Acked(actions + [action]) > Count(Flags(actions + [action]))
    ensures !panicked ==> InStepWith(session, actions + [action])
    ensures if panicked then session.store.disk.fs.trace == old(session.store.disk.fs.trace)
            else session.Settled(old(session.store.disk.room), old(session.store.disk.fs.trace),
                                 old(session.covered), write)
    ensures fresh(set node | node in session.acker.tracking.nodes && node !in old(session.acker.tracking.nodes))
    ensures Failing(old(session.store.disk.fs.faults), session.store, action.closed, write != Failed)
    ensures session.resource.ttl == old(session.resource.ttl) && (action.closed ==> write != Done)
    ensures !panicked ==> old(session.acker.reported) <= session.acker.reported
    ensures !panicked && (write == Done || (write == NotNeeded && old(Persisted(session, always)))) ==>
      Persisted(session, always)
    ensures !panicked ==>
      (write == NotNeeded <==> OpsOf(session.acker.reported) == old(OpsOf(session.acker.reported)))
  {
    hide session.Valid, session.Settled, PersistedIn, Span, Count, Dequeue, Failing, Unreported, Recover, OpsOf,
      session.acker.Covered;
    OneMore(actions, action);
    hide Events, Flags, Acked;
    ghost var a, flags := session.acker, Flags(actions);
    ghost var room, was := session.store.disk.room, session.store.disk.fs.trace;
    ghost var before, disk, state := a.reported, session.store.disk.fs.disk, session.resource.InSyncStateSnapshot();
    ghost var covered, table := session.covered, session.store.table;
    AckedFromUnreported(flags, Acked(actions), action.n);
    assert flags + [] == flags && Events(actions) + [] == Events(actions);
    SessionIsAcker(session);
    ghost var batch := a.Covered(action.n);
    panicked, write := session.ACKEvents(action.n, action.closed);
    if panicked {
      return;
    }
    PersistedAfter(session, always, table, disk, state, before, batch, room, was, covered, write);
  }

  // What another client of the store does changes nothing for the input.
  method TakeOther(session: InputSession, ghost always: bool, ghost actions: seq<Action>, action: Action)
    requires InStepWith(session, actions) && 2 < session.store.disk.room
    requires action.Other? && Allowed(action, session.resource.key)
    modifies session.store, session.store.disk, session.store.disk.fs
    ensures InStepWith(session, actions + [action])
    ensures session.Settled(old(session.store.disk.room), old(session.store.disk.fs.trace), session.covered, NotNeeded)
    ensures session.store.disk.fs.faults >= old(session.store.disk.fs.faults)
    ensures old(Persisted(session, always)) ==> Persisted(session, always)
  {
    hide session.Valid, session.Settled, PersistedIn, Span, Count, Unreported, Recover, OpsOf;
    OneMore(actions, action);
    hide Events, Flags, Acked;
    assert Flags(actions) + [] == Flags(actions) && Events(actions) + [] == Events(actions);
    ghost var room, was := session.store.disk.room, session.store.disk.fs.trace;
    ghost var table, disk, state := session.store.table, session.store.disk.fs.disk,
                                    session.resource.InSyncStateSnapshot();
    var _ := session.Yield(action.command, action.closed);
    SettledIsValid(session, room, was, session.covered, NotNeeded);
    if PersistedIn(always, table, disk, session.resource.key, state, session.acker.reported) {
      StaysPersisted(always, table, disk, session.store.table, session.store.disk.fs.disk, action.command,
                     session.resource.key, state, session.acker.reported);
    }
  }

  // The states since `was` and those before them back to `from`, together.
  lemma SettledJoins(session: InputSession, room: nat, from: seq<Disk>, was: seq<Disk>, p: Progress,
                     write: Write, left: nat)
    requires 2 < room && session.Settled(room, was, p.covered, write) && left <= room - 2
    requires Extends(was, from) && NeverAhead(was, |from|, |was|, p, room - 2)
    requires Relaxes(session.Reached().(covered := p.covered), p)
    ensures var trace := session.store.disk.fs.trace;
      && Extends(trace, from)
      && NeverAhead(trace, |from|, |trace|, session.Reached().(covered := p.covered), left)
  {
    hide NeverAhead, session.Valid, Relaxes;
    var trace, q := session.store.disk.fs.trace, session.Reached().(covered := p.covered);
    RelaxesItself(q);
    NeverAheadGrows(was, trace, |from|, |was|, p, q, room - 2, left);
    NeverAheadGrows(trace, trace, |was|, |trace|, q, q, room - 2, left);
    NeverAheadJoins(trace, |from|, |was|, |trace|, q, left);
  }

  // A while without anything, in which a crash may come.
  method Rest(session: InputSession, ghost always: bool, ghost actions: seq<Action>, ghost left: nat)
    requires InStepWith(session, actions) && left + 2 <= session.store.disk.room && 2 < session.store.disk.room
    modifies session.store.disk.fs
    ensures InStepWith(session, actions) && Persisted(session, always) == old(Persisted(session, always))
    ensures session.store.disk.fs.faults == old(session.store.disk.fs.faults)
    ensures Extends(session.store.disk.fs.trace, old(session.store.disk.fs.trace))
    ensures NeverAhead(session.store.disk.fs.trace, |old(session.store.disk.fs.trace)|, |session.store.disk.fs.trace|,
                       session.Reached(), left)
  {
    hide session.Valid, NeverAhead, PersistedIn, Relaxes;
    session.Pause();
    ghost var trace, p := session.store.disk.fs.trace, session.Reached();
    RelaxesItself(p);
    ExtendsItself(trace);
    NeverAheadGrows(trace, trace, |old(session.store.disk.fs.trace)|, |trace|, p, p, session.store.disk.room - 2, left);
  }

  // One action, after a while.
  method Take(session: InputSession, ghost always: bool, ghost actions: seq<Action>, action: Action, ghost left: nat)
    returns (panicked: bool, write: Write)
    requires InStepWith(session, actions) && left + 2 <= session.store.disk.room && 2 < session.store.disk.room
    requires Allowed(action, session.resource.key)
    modifies session`covered, session.acker, session.acker.tracking, session.acker.tracking.nodes, session.resource,
             session.store, session.store.disk, session.store.disk.fs
    ensures panicked <==> Acked(actions + [action]) > Count(Flags(actions + [action]))
    ensures !panicked ==> InStepWith(session, actions + [action])
    ensures !panicked ==> old(session.store.disk.room) - 1 <= session.store.disk.room
    ensures !panicked ==> session.covered == if write == Done then |session.acker.reported| else old(session.covered)
    ensures Extends(session.store.disk.fs.trace, old(session.store.disk.fs.trace))
    ensures NeverAhead(session.store.disk.fs.trace, |old(session.store.disk.fs.trace)|, |session.store.disk.fs.trace|,
                       if panicked then old(session.Reached())
                       else session.Reached().(covered := old(session.covered)), left)
    ensures fresh(set node | node in session.acker.tracking.nodes && node !in old(session.acker.tracking.nodes))
    ensures session.store.disk.fs.faults >= old(session.store.disk.fs.faults)
    ensures write == Failed && session.store.disk.fs.faults == old(session.store.disk.fs.faults) ==> action.closed
    ensures session.resource.ttl == old(session.resource.ttl) && (action.closed ==> write != Done)
    ensures !panicked && (write == Done || (write == NotNeeded && old(Persisted(session, always)))) ==>
      Persisted(session, always)
    ensures !panicked ==>
      (write == NotNeeded <==> OpsOf(session.acker.reported) == old(OpsOf(session.acker.reported)))
  {
    hide Persisted, InStepWith, NeverAhead, session.Valid, Extends, Acked, Flags, Events, Count, Relaxes;
    ghost var trace, room, before := session.store.disk.fs.trace, session.store.disk.room, session.Reached();
    Rest(session, always, actions, room - 2);
    ghost var was := session.store.disk.fs.trace;
    panicked := false;
    if action.Ack? {
      panicked, write := TakeAck(session, always, actions, action);
    } else {
      AnsweredOnTrack(session, actions, action);
      if action.Emit? {
        write := TakeEmit(session, always, actions, action);
      } else {
        write := NotNeeded;
        TakeOther(session, always, actions, action);
      }
    }
    RelaxesItself(before);
    ExtendsItself(was);
    if panicked {
      NeverAheadGrows(was, was, |trace|, |was|, before, before, room - 2, left);
    } else {
      GrownRelaxes(before, session.Reached());
      SettledJoins(session, room, trace, was, before, write, left);
    }
  }

  lemma GrownRelaxes(p: Progress, q: Progress)
    requires q.key == p.key && q.initial == p.initial && p.events <= q.events && q.documented == p.documented
    ensures Relaxes(q.(covered := p.covered), p)
  {
  }

  lemma AnsweredOnTrack(session: InputSession, actions: seq<Action>, action: Action)
    requires InStepWith(session, actions) && !action.Ack?
    ensures Acked(actions + [action]) <= Count(Flags(actions + [action]))
  {
    hide session.Valid;
    OneMore(actions, action);
    if action.Emit? {
      CountAppend(Flags(actions), [action.published]);
    }
    assert Flags(actions) + [] == Flags(actions);
  }

  lemma AnsweredMore(actions: seq<Action>, action: Action)
    ensures Answered(actions + [action]) <==>
            Answered(actions) && Acked(actions + [action]) <= Count(Flags(actions + [action]))
  {
    hide Acked, Flags, Count;
    var longer := actions + [action];
    assert longer[..|longer|] == longer;
    assert forall k :: 0 <= k <= |actions| ==> longer[..k] == actions[..k];
  }

  // ----- what a run leaves behind at any moment

  // How many of the reported events the last successful write has covered.
  function Confirmed(actions: seq<Action>, writes: seq<Write>): nat
    requires |writes| <= |actions|
  {
    if |writes| == 0 then 0
    else
      var n := |writes| - 1;
      if writes[n] == Done then |Reported(actions[..n + 1])| else Confirmed(actions, writes[..n])
  }

  // The outcome of the last write that was needed, if there was one.
  function LastNeeded(writes: seq<Write>): Write {
    if |writes| == 0 then NotNeeded
    else
      var n := |writes| - 1;
      if writes[n] != NotNeeded then writes[n] else LastNeeded(writes[..n])
  }

  lemma ConfirmedMore(actions: seq<Action>, writes: seq<Write>, write: Write)
    requires |writes| < |actions|
    ensures Confirmed(actions, writes + [write]) ==
            if write == Done then |Reported(actions[..|writes| + 1])| else Confirmed(actions, writes)
    ensures LastNeeded(writes + [write]) == if write != NotNeeded then write else LastNeeded(writes)
  {
    assert (writes + [write])[..|writes|] == writes;
  }

  // How far the input has come after the first `k` actions and `writes`.
  ghost function Reach(session: InputSession, actions: seq<Action>, k: nat, writes: seq<Write>): Progress
    requires k <= |actions| && |writes| <= |actions|
  {
    Progress(session.resource.key, session.initial, Reported(actions[..k]), Confirmed(actions, writes),
             session.documented)
  }

  // `marks` cuts the trace into one stretch for each action that was carried
  // out, from the end of the action before. A crash there recovers no cursor
  // ahead of what is reported by the end of the action, and none behind the
  // last successful write before it.
  ghost predicate Stretches(session: InputSession, trace: seq<Disk>, marks: seq<nat>, actions: seq<Action>,
                            writes: seq<Write>, left: nat)
  {
    && |marks| == |writes| + 1 <= |actions| + 1 && marks[|writes|] <= |trace|
    && forall k :: 0 <= k < |writes| ==>
      NeverAhead(trace, marks[k], marks[k + 1], Reach(session, actions, k + 1, writes[..k]), left)
  }

  lemma StretchesMore(session: InputSession, trace: seq<Disk>, more: seq<Disk>, marks: seq<nat>, actions: seq<Action>,
                      writes: seq<Write>, write: Write, left: nat)
    requires Stretches(session, trace, marks, actions, writes, left) && |writes| < |actions|
    requires Extends(more, trace) && marks[|writes|] == |trace|
    requires NeverAhead(more, |trace|, |more|, Reach(session, actions, |writes| + 1, writes), left)
    ensures Stretches(session, more, marks + [|more|], actions, writes + [write], left)
  {
    hide NeverAhead, Reach, Extends;
    var marks', writes' := marks + [|more|], writes + [write];
    forall k | 0 <= k < |writes'|
      ensures NeverAhead(more, marks'[k], marks'[k + 1], Reach(session, actions, k + 1, writes'[..k]), left)
    {
      assert writes'[..k] == writes[..k];
      if k < |writes| {
        var p := Reach(session, actions, k + 1, writes[..k]);
        RelaxesItself(p);
        NeverAheadGrows(trace, more, marks[k], marks[k + 1], p, p, left, left);
      } else {
        assert writes[..k] == writes;
      }
    }
  }

  // Where a run is after the actions that have an outcome in `writes`.
  ghost predicate OnTrack(session: InputSession, actions: seq<Action>, writes: seq<Write>, marks: seq<nat>, left: nat)
    requires |writes| <= |actions|
    reads session, session.acker, session.acker.tracking, session.acker.tracking.nodes, session.resource,
          session.store, session.store.disk, session.store.disk.fs
  {
    var trace, done := session.store.disk.fs.trace, actions[..|writes|];
    && InStepWith(session, done) && Answered(done) && session.covered == Confirmed(actions, writes)
    && Stretches(session, trace, marks, actions, writes, left) && marks[|writes|] == |trace|
  }

  lemma StartsInStep(session: InputSession)
    requires session.Valid() && session.acker.added == []
    ensures InStepWith(session, []) && session.acker.reported == []
  {
    hide session.resource.Valid, session.store.Valid, session.acker.tracking.Valid;
    hide CursorAfter, Behind, Recover, WellFormed;
  }

  lemma Starts(session: InputSession, always: bool, actions: seq<Action>, left: nat)
    requires session.Valid() && session.acker.added == [] && session.covered == 0
    requires always ==> InSync(session)
    ensures OnTrack(session, actions, [], [|session.store.disk.fs.trace|], left) && Persisted(session, always)
  {
    StartsInStep(session);
    hide session.Valid, InStepWith, Recover, NeverAhead;
    assert actions[..0] == [];
  }

  // A write was needed exactly for the actions that reported another update.
  ghost predicate NeededExactly(actions: seq<Action>, writes: seq<Write>)
    requires |writes| <= |actions|
  {
    forall k :: 0 <= k < |writes| ==>
      (writes[k] == NotNeeded <==> OpsOf(Reported(actions[..k + 1])) == OpsOf(Reported(actions[..k])))
  }

  lemma NeededMore(actions: seq<Action>, writes: seq<Write>, write: Write)
    requires |writes| < |actions| && NeededExactly(actions, writes)
    requires var n := |writes|;
      write == NotNeeded <==> OpsOf(Reported(actions[..n + 1])) == OpsOf(Reported(actions[..n]))
    ensures NeededExactly(actions, writes + [write])
  {
    hide OpsOf, Reported;
  }

  // Where the handle had been closed no write succeeded.
  ghost predicate NoneOnClosed(actions: seq<Action>, writes: seq<Write>)
    requires |writes| <= |actions|
  {
    forall k :: 0 <= k < |writes| && actions[k].closed ==> writes[k] != Done
  }

  // Writes failed only where the handle had been closed.
  ghost predicate OnlyClosedFail(actions: seq<Action>, writes: seq<Write>)
    requires |writes| <= |actions|
  {
    forall k :: 0 <= k < |writes| && writes[k] == Failed ==> actions[k].closed
  }

  lemma NoneFailed(actions: seq<Action>)
    ensures OnlyClosedFail(actions, []) && NeededExactly(actions, []) && NoneOnClosed(actions, [])
  {
  }

  lemma ClosedMore(actions: seq<Action>, writes: seq<Write>, write: Write)
    requires |writes| < |actions| && OnlyClosedFail(actions, writes)
    requires write == Failed ==> actions[|writes|].closed
    ensures OnlyClosedFail(actions, writes + [write])
  {
  }

  lemma NoneMore(actions: seq<Action>, writes: seq<Write>, write: Write)
    requires |writes| < |actions| && NoneOnClosed(actions, writes)
    requires actions[|writes|].closed ==> write != Done
    ensures NoneOnClosed(actions, writes + [write])
  {
  }

  // The stretches, and the time since the last action.
  ghost predicate CrashesBehind(session: InputSession, trace: seq<Disk>, marks: seq<nat>, actions: seq<Action>,
                                writes: seq<Write>, left: nat)
  {
    && Stretches(session, trace, marks, actions, writes, left)
    && NeverAhead(trace, marks[|writes|], |trace|, Reach(session, actions, |writes|, writes), left)
  }

  lemma StretchesEnd(session: InputSession, trace: seq<Disk>, more: seq<Disk>, marks: seq<nat>, actions: seq<Action>,
                     writes: seq<Write>, left: nat)
    requires Stretches(session, trace, marks, actions, writes, left) && marks[|writes|] == |trace|
    requires Extends(more, trace) && NeverAhead(more, |trace|, |more|, Reach(session, actions, |writes|, writes), left)
    ensures CrashesBehind(session, more, marks, actions, writes, left)
  {
    hide NeverAhead, Reach;
    forall k | 0 <= k < |writes|
      ensures NeverAhead(more, marks[k], marks[k + 1], Reach(session, actions, k + 1, writes[..k]), left)
    {
      var p := Reach(session, actions, k + 1, writes[..k]);
      RelaxesItself(p);
      NeverAheadGrows(trace, more, marks[k], marks[k + 1], p, p, left, left);
    }
  }

  // A run of an input from its start. It ends early, with the ACKer's panic,
  // when more has been ACKed than was published. The in-sync cursor is the last
  // update among the reported events, no crash at any moment recovers a cursor
  // ahead of what is reported then or behind the last successful write, and
  // unless the last write that was needed failed, the cursor is on disk.
  method Run(session: InputSession, ghost always: bool, actions: seq<Action>)
    returns (writes: seq<Write>, ghost marks: seq<nat>)
    requires session.Valid() && session.acker.added == [] && session.covered == 0
    requires |actions| + 2 < session.store.disk.room && Proper(actions, session.resource.key)
    requires always ==> InSync(session)
    modifies session`covered, session.acker, session.acker.tracking, session.acker.tracking.nodes, session.resource,
             session.store, session.store.disk, session.store.disk.fs
    ensures |writes| <= |actions| && Answered(actions[..|writes|])
    ensures |writes| < |actions| ==> !Answered(actions[..|writes| + 1])
    ensures Extends(session.store.disk.fs.trace, old(session.store.disk.fs.trace))
    ensures marks != [] && marks[0] == |old(session.store.disk.fs.trace)|
    ensures CrashesBehind(session, session.store.disk.fs.trace, marks, actions, writes,
                          old(session.store.disk.room) - |actions| - 2)
    ensures session.store.disk.fs.faults >= old(session.store.disk.fs.faults)
    ensures session.store.disk.fs.faults == old(session.store.disk.fs.faults) ==> OnlyClosedFail(actions, writes)
    ensures NeededExactly(actions, writes) && NoneOnClosed(actions, writes)
    ensures session.resource.ttl == old(session.resource.ttl)
    ensures |writes| == |actions| ==>
      && InStepWith(session, actions) && session.acker.reported == Reported(actions)
      && session.resource.cursor == CursorAfter(session.initial, Reported(actions))
      && (LastNeeded(writes) != Failed ==> Persisted(session, always))
  {
    hide session.Valid, Persisted, InStepWith, NeverAhead, Extends, Answered, Acked, Flags, Events, Count, Span;
    hide Stretches, CrashesBehind, OnlyClosedFail, NeededExactly, NoneOnClosed;
    ghost var d, trace := session.store.disk, session.store.disk.fs.trace;
    ghost var room, faults, left := d.room, d.fs.faults, d.room - |actions| - 2;
    Starts(session, always, actions, left);
    ExtendsItself(trace);
    NoneFailed(actions);
    writes, marks := [], [|trace|];
    while |writes| < |actions|
      invariant |writes| <= |actions| && OnTrack(session, actions, writes, marks, left)
      invariant fresh(set node | node in session.acker.tracking.nodes && node !in old(session.acker.tracking.nodes))
      invariant Extends(d.fs.trace, trace) && |marks| == |writes| + 1 && marks[0] == |trace|
      invariant room - |writes| <= d.room && d.fs.faults >= faults
      invariant NoneOnClosed(actions, writes) && session.resource.ttl == old(session.resource.ttl)
      invariant NeededExactly(actions, writes) && (d.fs.faults == faults ==> OnlyClosedFail(actions, writes))
      invariant LastNeeded(writes) != Failed ==> Persisted(session, always)
    {
      var n := |writes|;
      ghost var was := d.fs.trace;
      ReportedIs(session, actions[..n]);
      assert actions[..n + 1] == actions[..n] + [actions[n]];
      AnsweredMore(actions[..n], actions[n]);
      var panicked, write := Take(session, always, actions[..n], actions[n], left);
      ExtendsFurther(d.fs.trace, was, trace);
      if panicked {
        StretchesEnd(session, was, d.fs.trace, marks, actions, writes, left);
        return;
      }
      ReportedIs(session, actions[..n + 1]);
      ConfirmedMore(actions, writes, write);
      NeededMore(actions, writes, write);
      NoneMore(actions, writes, write);
      if d.fs.faults == faults {
        ClosedMore(actions, writes, write);
      }
      StretchesMore(session, was, d.fs.trace, marks, actions, writes, write, left);
      writes, marks := writes + [write], marks + [|d.fs.trace|];
    }
    assert actions[..|writes|] == actions;
    ReportedIs(session, actions[..|writes|]);
    ghost var was := d.fs.trace;
    Rest(session, always, actions, left);
    ExtendsFurther(d.fs.trace, was, trace);
    StretchesEnd(session, was, d.fs.trace, marks, actions, writes, left);
  }

  // The same, seen from the first life: `before` was reported until then.
  ghost predicate CrashesResume(session: InputSession, trace: seq<Disk>, marks: seq<nat>, actions: seq<Action>,
                                writes: seq<Write>, initial: Json, before: seq<Private>, left: nat)
  {
    && |marks| == |writes| + 1 <= |actions| + 1 && marks[|writes|] <= |trace|
    && (forall k :: 0 <= k < |writes| ==>
          NeverAhead(trace, marks[k], marks[k + 1],
                     Resumed(initial, before, Reach(session, actions, k + 1, writes[..k])), left))
    && NeverAhead(trace, marks[|writes|], |trace|,
                  Resumed(initial, before, Reach(session, actions, |writes|, writes)), left)
  }

  // Any state a crash leaves belongs to the time of one action, and the next
  // life can start from it with what had been reported and covered by then.
  lemma CrashPoint(session: InputSession, trace: seq<Disk>, marks: seq<nat>, actions: seq<Action>,
                   writes: seq<Write>, initial: Json, before: seq<Private>, left: nat, i: nat)
    returns (at: nat, p: Progress)
    requires CrashesResume(session, trace, marks, actions, writes, initial, before, left)
    requires marks[0] <= i < |trace|
    ensures at <= |writes| <= |actions|
    ensures var begun := if at < |writes| then at + 1 else at;
      && p.key == session.resource.key && p.initial == initial && p.documented == session.documented
      && p.events == before + Reported(actions[..begun])
      && p.covered == |before| + Confirmed(actions, writes[..at])
    ensures WellFormed(trace[i], left) && Behind(Recover(trace[i]).table, p)
    ensures session.documented.Some? ==>
      var document := DocumentOf(Recover(trace[i]).table, session.resource.key);
      document.Some? && document.value.ttl == session.documented.value
  {
    hide WellFormed, Recover, Confirmed, Reported, CursorAfter;
    at := FindMark(marks, i, |writes|);
    assert writes[..|writes|] == writes;
    p := Resumed(initial, before, Reach(session, actions, if at < |writes| then at + 1 else at, writes[..at]));
  }

  lemma CrashesStillResume(session: InputSession, trace: seq<Disk>, marks: seq<nat>, actions: seq<Action>,
                           writes: seq<Write>, initial: Json, before: seq<Private>, room: nat, left: nat)
    requires CrashesBehind(session, trace, marks, actions, writes, room) && left <= room
    requires session.initial == CursorAfter(initial, before)
    ensures CrashesResume(session, trace, marks, actions, writes, initial, before, left)
  {
    hide NeverAhead, CursorAfter, Reported, Confirmed, Resumed;
    ExtendsItself(trace);
    forall k | 0 <= k < |writes|
      ensures NeverAhead(trace, marks[k], marks[k + 1],
                         Resumed(initial, before, Reach(session, actions, k + 1, writes[..k])), left)
    {
      var p := Reach(session, actions, k + 1, writes[..k]);
      StretchResumes(trace, marks[k], marks[k + 1], initial, before, p, room, left);
    }
    var p := Reach(session, actions, |writes|, writes);
    StretchResumes(trace, marks[|writes|], |trace|, initial, before, p, room, left);
  }

  lemma StretchResumes(trace: seq<Disk>, from: nat, to: nat, initial: Json, before: seq<Private>, p: Progress,
                       room: nat, left: nat)
    requires NeverAhead(trace, from, to, p, room) && left <= room && p.initial == CursorAfter(initial, before)
    ensures NeverAhead(trace, from, to, Resumed(initial, before, p), left)
  {
    hide NeverAhead, Relaxes, CursorAfter;
    RelaxesItself(p);
    ExtendsItself(trace);
    NeverAheadGrows(trace, trace, from, to, p, p, room, left);
    NeverAheadResumes(trace, from, to, initial, before, p, left);
  }

  // One life of the process: the input resumes on whatever directory a crash
  // has left and runs until its end, a panic, or a crash. Whenever a crash
  // comes, the next life can start in the same way from what it leaves. All
  // that unless opening the store loses something; such a life is not followed.
  method Life(fs: FileSystem, ignoreVersionCheck: bool, key: string, prefix: string, ttl: int, now: Time,
              actions: seq<Action>, ghost room: nat, ghost p: Progress)
    returns (session: InputSession?, lost: bool, ghost r: nat, writes: seq<Write>, ghost marks: seq<nat>)
    requires WellFormed(fs.disk, room) && |actions| + 3 < room && HasPrefix(key, prefix + "::")
    requires Behind(Recover(fs.disk).table, p) && p.key == key && Proper(actions, key)
    modifies fs, fs.home
    ensures HomeAfter(old(fs.home.state), old(fs.home.states), fs.home, session != null, ignoreVersionCheck)
    ensures Extends(fs.trace, old(fs.trace)) && p.covered <= r <= |p.events| && |writes| <= |actions| && marks != []
    ensures lost ==> session == null && fs.faults > old(fs.faults)
    // until the input has started
    ensures !lost ==>
      NeverAhead(fs.trace, |old(fs.trace)|, marks[0], p.(documented := None), room - |actions| - 3)
    ensures session == null ==> writes == [] && marks == [|fs.trace|]
    ensures session == null ==> fs.faults > old(fs.faults) || (old(fs.home.state) == Unfinished && !ignoreVersionCheck)
    // and from then on
    ensures session != null ==>
      && session.resource.key == key && session.resource.ttl == ttl
      && (session.documented == None || session.documented == Some(ttl))
      && (fs.faults == old(fs.faults) ==> session.documented == Some(ttl))
      && NeededExactly(actions, writes) && NoneOnClosed(actions, writes)
      && CrashesResume(session, fs.trace, marks, actions, writes, p.initial, p.events[..r], room - |actions| - 3)
      && Answered(actions[..|writes|]) && (|writes| < |actions| ==> !Answered(actions[..|writes| + 1]))
      && (fs.faults == old(fs.faults) ==> OnlyClosedFail(actions, writes))
    ensures session != null && |writes| == |actions| ==>
      && session.Valid() && session.store.disk.fs == fs
      && session.resource.cursor == CursorAfter(p.initial, p.events[..r] + Reported(actions))
      && (LastNeeded(writes) != Failed ==> Persisted(session, fs.faults == old(fs.faults)))
  {
    hide NeverAhead, WellFormed, Behind, Recover, Reported, CursorAfter, Answered, Proper, InputSession.Valid;
    hide Persisted, CrashesBehind, CrashesResume, OnlyClosedFail, NeededExactly, NoneOnClosed, Relaxes, HomeAfter;
    ghost var trace, left, faults := fs.trace, room - |actions| - 3, fs.faults;
    session, lost, r := Resume(fs, ignoreVersionCheck, key, prefix, ttl, now, room, p);
    ghost var quiet := fs.trace;
    writes, marks := [], [|quiet|];
    if lost {
      return;
    }
    ghost var q := p.(documented := None);
    RelaxesItself(q);
    ExtendsItself(quiet);
    NeverAheadGrows(quiet, quiet, |trace|, |quiet|, q, q, room - 2, left);
    if session == null {
      return;
    }
    ghost var budget := session.store.disk.room - |actions| - 2;
    ghost var always := fs.faults == faults;
    writes, marks := Run(session, always, actions);
    PersistedAtLeast(session, always, fs.faults == faults);
    ExtendsFurther(fs.trace, quiet, trace);
    NeverAheadGrows(quiet, fs.trace, |trace|, |quiet|, q, q, room - 2, left);
    CrashesStillResume(session, fs.trace, marks, actions, writes, p.initial, p.events[..r], budget, left);
    CursorResumes(p.initial, p.events[..r], Reported(actions));
  }

  // ----- one life after the other

  datatype Plan = Plan(ttl: int, now: Time, actions: seq<Action>)

  // From a life that began with `p` a crash has left `q`: as it was, or with
  // what the actions carried out by then have reported and confirmed.
  ghost predicate Continues(p: Progress, q: Progress, plan: Plan, writes: seq<Write>, at: nat) {
    var actions := plan.actions;
    && |writes| <= |actions| && at <= |writes| && q.key == p.key && q.initial == p.initial
    && (q.documented == None || q.documented == Some(plan.ttl))
    && (q == p.(documented := None) || exists r :: p.covered <= r <= |p.events| && GoesOn(p, q, r, actions, writes, at))
  }

  // The first `r` of the events before, and then those of the actions up to
  // the one that the crash fell into.
  predicate GoesOn(p: Progress, q: Progress, r: nat, actions: seq<Action>, writes: seq<Write>, at: nat)
    requires |writes| <= |actions| && at <= |writes| && r <= |p.events|
  {
    && q.events == p.events[..r] + Reported(actions[..if at < |writes| then at + 1 else at])
    && q.covered == r + Confirmed(actions, writes[..at])
  }

  // A life on the directory `disk`, and the one that a crash leaves somewhere on the way.
  method LifeAndCrash(disk: Disk, home: Home, ignoreVersionCheck: bool, key: string, prefix: string, plan: Plan,
                      ghost room: nat, ghost p: Progress)
    returns (after: Disk, next: Home, lost: bool, writes: seq<Write>, ghost at: nat, ghost q: Progress)
    requires WellFormed(disk, room) && |plan.actions| + 3 < room && HasPrefix(key, prefix + "::")
    requires Behind(Recover(disk).table, p) && p.key == key && Proper(plan.actions, key)
    ensures HomeSurvives(home, next, writes != [], ignoreVersionCheck)
    ensures next != Ready && !ignoreVersionCheck ==> after == disk
    ensures !lost ==>
      && Continues(p, q, plan, writes, at)
      && WellFormed(after, room - |plan.actions| - 3) && Behind(Recover(after).table, q)
  {
    hide WellFormed, Recover, Behind, Reported, Confirmed, CursorAfter, Answered, CrashesResume;
    hide InputSession.Valid, Persisted, NeededExactly, OnlyClosedFail;
    ghost var left := room - |plan.actions| - 3;
    var fs := new FileSystem(disk, home);
    var session;
    ghost var r, marks;
    session, lost, r, writes, marks :=
      Life(fs, ignoreVersionCheck, key, prefix, plan.ttl, plan.now, plan.actions, room, p);
    var i: int :| 0 <= i < |fs.trace|;
    var j: int :| 0 <= j < |fs.home.states|;
    // a directory that is not complete has not been used yet
    if fs.home.states[j] != Ready && (home == Missing || !ignoreVersionCheck) {
      i := 0;
    }
    after, next := fs.trace[i], fs.home.states[j];
    at, q := 0, p.(documented := None);
    BehindGrows(Recover(disk).table, p, q);
    if lost {
    } else if i < marks[0] {
      if i == 0 {
        assert fs.trace[..1] == [disk];
        WellFormedWithLess(disk, room, left);
      }
    } else {
      at, q := CrashPoint(session, fs.trace, marks, plan.actions, writes, p.initial, p.events[..r], left, i);
      assert GoesOn(p, q, r, plan.actions, writes, at);
    }
  }

  // The transaction ids that the lives may use up.
  function Budget(lives: seq<Plan>): nat {
    if |lives| == 0 then 0 else Budget(lives[..|lives| - 1]) + |lives[|lives| - 1].actions| + 3
  }

  lemma {:induction false} BudgetBefore(lives: seq<Plan>, n: nat)
    requires n <= |lives|
    ensures Budget(lives[..n]) <= Budget(lives)
  {
    if n == |lives| {
      assert lives[..n] == lives;
    } else {
      BudgetBefore(lives[..|lives| - 1], n);
      assert lives[..|lives| - 1][..n] == lives[..n];
    }
  }

  lemma BudgetMore(lives: seq<Plan>, n: nat)
    requires n < |lives|
    ensures Budget(lives[..n + 1]) == Budget(lives[..n]) + |lives[n].actions| + 3 <= Budget(lives)
  {
    BudgetBefore(lives, n + 1);
    assert lives[..n + 1][..n] == lives[..n];
  }

  lemma NoBudget()
    ensures Budget([]) == 0
  {
  }

  // What a successful write has covered stays covered.
  lemma CoveredStays(p: Progress, q: Progress, plan: Plan, writes: seq<Write>, at: nat)
    requires Continues(p, q, plan, writes, at)
    ensures p.covered <= q.covered && q.key == p.key && q.initial == p.initial
  {
  }

  // `reached` holds how far each of the lives has come when its crash came.
  ghost predicate Chain(lives: seq<Plan>, reached: seq<Progress>, writes: seq<seq<Write>>, at: seq<nat>) {
    && |reached| == |writes| + 1 && |at| == |writes| <= |lives|
    && forall j :: 0 <= j < |writes| ==> Continues(reached[j], reached[j + 1], lives[j], writes[j], at[j])
  }

  lemma ChainMore(lives: seq<Plan>, reached: seq<Progress>, writes: seq<seq<Write>>, at: seq<nat>,
                  q: Progress, w: seq<Write>, a: nat)
    requires Chain(lives, reached, writes, at) && |writes| < |lives|
    requires Continues(reached[|writes|], q, lives[|writes|], w, a)
    ensures Chain(lives, reached + [q], writes + [w], at + [a])
  {
    hide Continues;
  }

  // Any number of lives, each ended by a crash at some moment: each resumes
  // after events that the lives before it have reported, and what a write has
  // covered is never lost. All that unless opening the store loses something in
  // some life, which is then the last one looked at.
  method Lives(disk: Disk, home: Home, ignoreVersionCheck: bool, key: string, prefix: string, lives: seq<Plan>,
               ghost room: nat, ghost p: Progress)
    returns (last: Disk, lastHome: Home, lost: bool, writes: seq<seq<Write>>, ghost at: seq<nat>,
             ghost reached: seq<Progress>)
    requires WellFormed(disk, room) && Budget(lives) < room && HasPrefix(key, prefix + "::")
    requires Behind(Recover(disk).table, p) && p.key == key
    requires forall j :: 0 <= j < |lives| ==> Proper(lives[j].actions, key)
    ensures home != Missing ==> lastHome == home
    ensures lastHome != Ready && !ignoreVersionCheck ==> last == disk
    ensures lost ==> |writes| < |lives|
    ensures !lost ==>
      && |writes| == |lives| && Chain(lives, reached, writes, at) && reached[0] == p
      && WellFormed(last, room - Budget(lives)) && Behind(Recover(last).table, reached[|lives|])
      && p.covered <= reached[|lives|].covered
  {
    hide WellFormed, Recover, Behind, Proper, Continues, Budget;
    last, lastHome, lost, writes, at, reached := disk, home, false, [], [], [p];
    NoBudget();
    assert lives[..0] == [];
    while |writes| < |lives|
      invariant |writes| <= |lives| && Chain(lives, reached, writes, at) && reached[0] == p
      invariant home != Missing ==> lastHome == home
      invariant lastHome != Ready && !ignoreVersionCheck ==> last == disk
      invariant Budget(lives[..|writes|]) < room && WellFormed(last, room - Budget(lives[..|writes|]))
      invariant Behind(Recover(last).table, reached[|writes|]) && reached[|writes|].key == key
      invariant p.covered <= reached[|writes|].covered
    {
      var n := |writes|;
      BudgetMore(lives, n);
      ghost var a, q;
      var after, next, w;
      after, next, lost, w, a, q :=
        LifeAndCrash(last, lastHome, ignoreVersionCheck, key, prefix, lives[n], room - Budget(lives[..n]), reached[n]);
      lastHome := next;
      if lost {
        last := after;
        return;
      }
      CoveredStays(reached[n], q, lives[n], w, a);
      ChainMore(lives, reached, writes, at, q, w, a);
      last, writes, at, reached := after, writes + [w], at + [a], reached + [q];
    }
    assert lives[..|writes|] == lives;
  }
}
