/**
 * One input publishing events for one source: the ACKer of its client, the
 * resource of the source, and the persistent store. AddEvent and ACKEvents are
 * atomic, callbacks included.
 */
module InputSessions {
  import opened Documents
  import opened GapLists
  import opened Replay
  import opened Durability
  import opened DiskStores
  import opened MemlogStores
  import opened EventDataACKers
  import opened Cursors
  import opened FileSystems
  import opened ResourceTables
  import MemlogRuns

  // event.Private: unset, something of the input's own, or an update operation.
  datatype Private = Nil | Foreign | Update(op: UpdateOp)

  function OpsOf(events: seq<Private>): seq<UpdateOp> {
    if |events| == 0 then []
    else
      var n := |events| - 1;
      OpsOf(events[..n]) + if events[n].Update? then [events[n].op] else []
  }

  // The cursor after the events: the last update among them.
  function CursorAfter(initial: Json, events: seq<Private>): Json {
    if |events| == 0 then initial
    else
      var n := |events| - 1;
      if events[n].Update? then events[n].op.delta else CursorAfter(initial, events[..n])
  }

  lemma {:induction false} OpsAppend(a: seq<Private>, b: seq<Private>)
    ensures OpsOf(a + b) == OpsOf(a) + OpsOf(b)
  {
    if |b| == 0 {
      assert a + b == a;
    } else {
      var n := |b| - 1;
      assert (a + b)[..|a| + n] == a + b[..n];
      OpsAppend(a, b[..n]);
    }
  }

  lemma OpsSplit(a: seq<Private>, all: seq<Private>)
    requires a <= all
    ensures OpsOf(all) == OpsOf(a) + OpsOf(all[|a|..])
  {
    OpsAppend(a, all[|a|..]);
    assert all == a + all[|a|..];
  }

  lemma NoOps()
    ensures OpsOf([]) == []
  {
  }

  // The cursor after some more events is the last of their updates, if any.
  lemma {:induction false} CursorAppend(initial: Json, a: seq<Private>, b: seq<Private>)
    ensures CursorAfter(initial, a + b) ==
            if OpsOf(b) == [] then CursorAfter(initial, a) else OpsOf(b)[|OpsOf(b)| - 1].delta
  {
    if |b| == 0 {
      assert a + b == a;
    } else {
      var n := |b| - 1;
      assert (a + b)[..|a| + n] == a + b[..n];
      CursorAppend(initial, a, b[..n]);
    }
  }

  // The document stored for the key, if there is one that decodes.
  function DocumentOf(table: Table, key: string): Option<State> {
    if key in table then DecodeState(table[key]) else None
  }

  // The cursor an input starts from: that of the stored document, if there is one.
  function StoredCursor(table: Table, key: string): Json {
    match DocumentOf(table, key)
    case None => Null
    case Some(state) => state.cursor
  }

  // The in-sync state after an input with this time to live has started.
  function Started(was: State, stored: bool, ttl: int, now: Time): State {
    if stored && was.ttl == ttl then was else State(ttl, if was.updated == 0 then now else was.updated, was.cursor)
  }

  // The in-sync state of a resource just read from the store.
  function Loaded(document: Option<State>): State {
    if document.Some? then document.value else State(0, 0, Null)
  }

  // How far the input for a key has come: the cursor it started from, the
  // events reported since, and how many of them a successful write has covered;
  // and the time to live in the stored document, if it has one for sure.
  datatype Progress = Progress(
    key: string, initial: Json, events: seq<Private>, covered: nat, documented: Option<int>)

  // The cursor in `table` is the one after some of the reported events, and not
  // fewer than have been covered, and the document is there with that time to live.
  ghost predicate Behind(table: Table, p: Progress) {
    && (exists r :: p.covered <= r <= |p.events| && StoredCursor(table, p.key) == CursorAfter(p.initial, p.events[..r]))
    && IsDocumented(table, p.key, p.documented)
  }

  predicate IsDocumented(table: Table, key: string, ttl: Option<int>) {
    ttl.Some? ==> DocumentOf(table, key).Some? && DocumentOf(table, key).value.ttl == ttl.value
  }

  lemma BehindAt(table: Table, p: Progress) returns (r: nat)
    requires Behind(table, p)
    ensures p.covered <= r <= |p.events| && StoredCursor(table, p.key) == CursorAfter(p.initial, p.events[..r])
  {
    r :| p.covered <= r <= |p.events| && StoredCursor(table, p.key) == CursorAfter(p.initial, p.events[..r]);
  }

  // `q` leaves room for all that `p` does.
  predicate Relaxes(q: Progress, p: Progress) {
    && q.key == p.key && q.initial == p.initial && p.events <= q.events && q.covered <= p.covered
    && (q.documented == None || q.documented == p.documented)
  }

  lemma RelaxesItself(p: Progress)
    ensures Relaxes(p, p)
  {
  }

  lemma BehindGrows(table: Table, p: Progress, q: Progress)
    requires Behind(table, p) && Relaxes(q, p)
    ensures Behind(table, q)
  {
    var r := BehindAt(table, p);
    assert q.events[..r] == p.events[..r];
  }

  // Whichever of these directories a crash leaves, it can be opened and its
  // cursor is not ahead of the events.
  ghost predicate NeverAhead(trace: seq<Disk>, from: nat, to: nat, p: Progress, left: nat) {
    && from <= to <= |trace|
    && forall i :: from <= i < to ==> WellFormed(trace[i], left) && Behind(Recover(trace[i]).table, p)
  }

  lemma NeverAheadGrows(trace: seq<Disk>, now: seq<Disk>, from: nat, to: nat, p: Progress, q: Progress,
                        room: nat, left: nat)
    requires NeverAhead(trace, from, to, p, room) && Extends(now, trace) && Relaxes(q, p) && left <= room
    ensures NeverAhead(now, from, to, q, left)
  {
    hide WellFormed, Recover, Behind, Relaxes;
    forall i | from <= i < to ensures WellFormed(now[i], left) && Behind(Recover(now[i]).table, q) {
      assert now[..|trace|][i] == trace[i];
      WellFormedWithLess(trace[i], room, left);
      BehindGrows(Recover(trace[i]).table, p, q);
    }
  }

  lemma NeverAheadJoins(trace: seq<Disk>, from: nat, mid: nat, to: nat, p: Progress, left: nat)
    requires NeverAhead(trace, from, mid, p, left) && NeverAhead(trace, mid, to, p, left)
    ensures NeverAhead(trace, from, to, p, left)
  {
  }

  // The cursor after the events before a restart and those after it.
  lemma {:induction false} CursorResumes(initial: Json, a: seq<Private>, b: seq<Private>)
    ensures CursorAfter(CursorAfter(initial, a), b) == CursorAfter(initial, a + b)
  {
    if |b| == 0 {
      assert a + b == a;
    } else {
      var n := |b| - 1;
      assert (a + b)[..|a| + n] == a + b[..n];
      CursorResumes(initial, a, b[..n]);
    }
  }

  // An input that started from the cursor after `before` and came as far as
  // `p` has come this far in all.
  function Resumed(initial: Json, before: seq<Private>, p: Progress): Progress {
    Progress(p.key, initial, before + p.events, |before| + p.covered, p.documented)
  }

  lemma BehindResumes(table: Table, initial: Json, before: seq<Private>, p: Progress)
    requires Behind(table, p) && p.initial == CursorAfter(initial, before)
    ensures Behind(table, Resumed(initial, before, p))
  {
    var r := BehindAt(table, p);
    CursorResumes(initial, before, p.events[..r]);
    assert (before + p.events)[..|before| + r] == before + p.events[..r];
  }

  lemma NeverAheadResumes(trace: seq<Disk>, from: nat, to: nat, initial: Json, before: seq<Private>,
                          p: Progress, left: nat)
    requires NeverAhead(trace, from, to, p, left) && p.initial == CursorAfter(initial, before)
    ensures NeverAhead(trace, from, to, Resumed(initial, before, p), left)
  {
    hide WellFormed, Recover, Behind, Resumed;
    forall i | from <= i < to ensures Behind(Recover(trace[i]).table, Resumed(initial, before, p)) {
      BehindResumes(Recover(trace[i]).table, initial, before, p);
    }
  }

  lemma WrittenIsBehind(table: Table, p: Progress, state: State)
    requires state.cursor == CursorAfter(p.initial, p.events) && p.covered <= |p.events|
    requires p.documented.Some? ==> p.documented.value == state.ttl
    ensures Behind(table[p.key := EncodeState(state)], p)
  {
    assert p.events[..|p.events|] == p.events;
    assert DecodeState(EncodeState(state)) == Some(state);
  }

  // Recording a table that is not ahead of the reported events leaves nothing
  // on disk, now or after a crash on the way, that is.
  lemma WriteKeepsBehind(was: StoreView, store: Store, written: Table, p: Progress, q: Progress)
    requires WroteAtMost(was, store, written) && Behind(written, q) && Relaxes(q, p)
    requires Behind(was.table, p) && Behind(was.history[was.durable], p)
    ensures store.Valid() && was.room - 1 <= store.disk.room <= was.room
    ensures Behind(store.table, q) && Behind(store.history[store.durable], q)
    ensures Extends(store.disk.fs.trace, was.trace)
    ensures NeverAhead(store.disk.fs.trace, |was.trace|, |store.disk.fs.trace|, q, was.room - 2)
  {
    hide Consistent, Recover, Behind, WellFormed, Relaxes;
    BehindGrows(was.table, p, q);
    BehindGrows(was.history[was.durable], p, q);
  }

  lemma SparedIsBehind(table: Table, command: MemlogRuns.Command, p: Progress)
    requires Behind(table, p) && MemlogRuns.Spares(command, p.key)
    ensures Behind(MemlogRuns.Effect(command, table), p)
  {
    var r := BehindAt(table, p);
    assert StoredCursor(MemlogRuns.Effect(command, table), p.key) == StoredCursor(table, p.key);
  }

  lemma SyncedIsDurable(store: Store)
    requires store.Valid() && Synced(store)
    ensures store.history[store.durable] == store.table
  {
  }

  lemma CursorAfterNothing(initial: Json)
    ensures CursorAfter(initial, []) == initial
  {
  }

  // Nothing that is read on open has changed.
  lemma QuietIsNotAhead(trace: seq<Disk>, was: seq<Disk>, disk: Disk, p: Progress, room: nat)
    requires Quiet(trace, was, disk) && WellFormed(disk, room) && 2 < room
    requires Behind(Recover(disk).table, p)
    ensures Extends(trace, was) && NeverAhead(trace, |was|, |trace|, p, room - 2)
  {
    hide WellFormed, Recover, Behind, SameData;
    WellFormedWithLess(disk, room, room - 2);
    forall i | |was| <= i < |trace| ensures WellFormed(trace[i], room - 2) && Behind(Recover(trace[i]).table, p) {
      SameDataRecovers(trace[i], disk);
    }
  }

  // The document stored for the key is the state.
  predicate Holds(table: Table, key: string, state: State) {
    DocumentOf(table, key) == Some(state)
  }

  lemma StartHolds(table: Table, written: Table, key: string, ttl: int, now: Time)
    requires var document := DocumentOf(table, key);
      var state := Started(Loaded(document), document.Some?, ttl, now);
      written == if document.Some? && document.value.ttl == ttl then table else table[key := EncodeState(state)]
    ensures var document := DocumentOf(table, key);
      Holds(written, key, Started(Loaded(document), document.Some?, ttl, now))
  {
    var document := DocumentOf(table, key);
    var state := Started(Loaded(document), document.Some?, ttl, now);
    assert DecodeState(EncodeState(state)) == Some(state);
  }

  // An input that starts has not gone further yet.
  function Start(key: string, cursor: Json): Progress {
    Progress(key, cursor, [], 0, None)
  }

  lemma NotYetBehind(table: Table, key: string, cursor: Json)
    requires StoredCursor(table, key) == cursor
    ensures Behind(table, Start(key, cursor))
  {
    assert CursorAfter(cursor, [][..0]) == cursor;
  }

  // A session that resumed after the first `r` events has not gone further yet.
  lemma NotAheadResumes(trace: seq<Disk>, from: nat, to: nat, p: Progress, r: nat, left: nat)
    requires p.covered <= r <= |p.events| && p.documented == None
    requires NeverAhead(trace, from, to, Start(p.key, CursorAfter(p.initial, p.events[..r])), left)
    ensures NeverAhead(trace, from, to, p, left)
  {
    var start := Start(p.key, CursorAfter(p.initial, p.events[..r]));
    NeverAheadResumes(trace, from, to, p.initial, p.events[..r], start, left);
    NeverAheadGrows(trace, trace, from, to, Resumed(p.initial, p.events[..r], start), p, left, left);
  }

  // The loop of the ACK handler: how many updates the batch holds, and where
  // the last one is.
  method ScanBatch(events: seq<Private>) returns (n: nat, last: nat)
    ensures n == |OpsOf(events)|
    ensures n > 0 ==> last < |events| && events[last] == Update(OpsOf(events)[n - 1])
  {
    n, last := 0, 0;
    var i := 0;
    while i < |events|
      invariant 0 <= i <= |events|
      invariant n == |OpsOf(events[..i])|
      invariant n > 0 ==> last < i && events[last] == Update(OpsOf(events[..i])[n - 1])
    {
      assert events[..i + 1][..i] == events[..i];
      match events[i] {
        case Nil => i := i + 1; continue;
        case Foreign => i := i + 1; continue;
        case Update(_) =>
      }
      n := n + 1;
      last := i;
      i := i + 1;
    }
    assert events[..i] == events;
  }

  // A command of another client of the store.
  method Request(store: Store, command: MemlogRuns.Command, closed: bool) returns (ok: bool)
    requires store.Valid() && 2 < store.disk.room
    modifies store, store.disk, store.disk.fs
    ensures WroteAtMost(old(ViewOf(store)), store, MemlogRuns.Effect(command, old(store.table)))
    ensures Requested(old(ViewOf(store)), store, MemlogRuns.Effect(command, old(store.table)), closed, ok)
    ensures var table := Recover(store.disk.fs.disk).table;
      table == old(Recover(store.disk.fs.disk)).table || table == store.table
    ensures Failing(old(store.disk.fs.faults), store, closed, ok)
  {
    hide Consistent, Recover, WellFormed;
    if closed {
      return false;
    }
    ok := MemlogRuns.Execute(store, command);
  }

  // The time to live, if the documents in memory and on disk both have it.
  ghost function TtlIn(store: Store, resource: Resource): Option<int>
    requires store.Valid()
    reads store, store.disk, store.disk.fs, resource
  {
    var ttl := Some(resource.ttl);
    if IsDocumented(store.table, resource.key, ttl)
       && IsDocumented(store.history[store.durable], resource.key, ttl) then ttl else None
  }

  datatype Write = NotNeeded | Failed | Done

  class InputSession {
    const acker: EventDataACKer<Private>
    const resource: Resource
    const store: Store

    // The cursor when the input started.
    ghost const initial: Json
    // The time to live, if the stored document had it when the input started.
    ghost const documented: Option<int>
    // How many events had been reported when a write last succeeded.
    ghost var covered: nat

    ghost function Reached(): Progress
      reads this, acker, resource
    {
      Progress(resource.key, initial, acker.reported, covered, documented)
    }

    ghost predicate Valid()
      reads this, acker, acker.tracking, acker.tracking.nodes, resource, store, store.disk, store.disk.fs
    {
      && acker.Valid() && resource.Valid() && store.Valid()
      // the outstanding updates are those of the unreported events
      && resource.ops == OpsOf(acker.data)
      // the in-sync cursor is the last update in the reported prefix
      && resource.cursor == CursorAfter(initial, acker.reported)
      && (documented.Some? ==> documented.value == resource.ttl)
      // what is persisted is not ahead of that
      && Behind(store.table, Reached()) && Behind(store.history[store.durable], Reached())
    }

    // The session is consistent again and, if `write` says so, the document on
    // disk is the in-sync state. No crash on the way gets ahead of the ACKs or
    // loses what had been covered before.
    ghost predicate Settled(room: nat, was: seq<Disk>, before: nat, write: Write)
      requires 2 < room
      reads this, acker, acker.tracking, acker.tracking.nodes, resource, store, store.disk, store.disk.fs
    {
      && Valid() && room - 1 <= store.disk.room <= room
      && Extends(store.disk.fs.trace, was)
      && NeverAhead(store.disk.fs.trace, |was|, |store.disk.fs.trace|, Reached().(covered := before), room - 2)
      && covered == (if write == Done then |acker.reported| else before)
      && (write == Done ==>
          && Synced(store) && resource.key in store.table
          && store.table[resource.key] == EncodeState(resource.InSyncStateSnapshot()))
    }

    // A write puts the in-sync state into the table, recorded or not, unless the
    // handle is closed. The time to live stays, and the update time never goes back.
    ghost predicate Kept(was: State, table: Table, closed: bool, write: Write)
      reads resource, store
    {
      && resource.ttl == was.ttl && resource.updated >= was.updated
      && (closed ==> write != Done)
      && store.table == if closed || write == NotNeeded then table
                        else table[resource.key := EncodeState(resource.InSyncStateSnapshot())]
    }

    // The in-sync state, the store and the directory.
    ghost function Idle(): (State, StoreView, Disk)
      reads resource, store, store.disk, store.disk.fs
    {
      (resource.InSyncStateSnapshot(), ViewOf(store), store.disk.fs.disk)
    }

    lemma NothingReported()
      requires Valid() && 2 < store.disk.room
      ensures Settled(store.disk.room, store.disk.fs.trace, covered, NotNeeded)
    {
      hide Behind, CursorAfter, EncodeState, acker.Valid, store.Valid, resource.Valid;
    }

    constructor (resource: Resource, store: Store)
      requires resource.Valid() && store.Valid() && resource.ops == []
      requires Behind(store.table, Start(resource.key, resource.cursor))
      requires Behind(store.history[store.durable], Start(resource.key, resource.cursor))
      ensures Valid() && this.resource == resource && this.store == store && initial == resource.cursor
      ensures documented == TtlIn(store, resource)
      ensures covered == 0
      ensures acker.added == [] && fresh(acker) && fresh(acker.tracking) && fresh(acker.tracking.nodes)
    {
      acker := new EventDataACKer<Private>();
      this.resource, this.store, initial, covered := resource, store, resource.cursor, 0;
      documented := TtlIn(store, resource);
    }

    // Nothing happens for a while; a crash may come.
    method Pause()
      requires Valid() && 2 < store.disk.room
      modifies store.disk.fs
      ensures Settled(store.disk.room, old(store.disk.fs.trace), covered, NotNeeded)
      ensures store.disk.fs.disk == old(store.disk.fs.disk) && store.disk.fs.faults == old(store.disk.fs.faults)
    {
      hide Behind, CursorAfter, EncodeState, acker.Valid, resource.Valid, WellFormed, Recover, Consistent;
      store.Pause();
      store.IsWellFormed(store.disk.room - 2);
    }

    // Another input, the cleaner, or any other client of the shared store uses
    // it, for keys of its own.
    method Yield(command: MemlogRuns.Command, closed: bool) returns (ok: bool)
      requires Valid() && 2 < store.disk.room && MemlogRuns.Spares(command, resource.key)
      modifies store, store.disk, store.disk.fs
      ensures Settled(old(store.disk.room), old(store.disk.fs.trace), covered, NotNeeded)
      ensures Failing(old(store.disk.fs.faults), store, closed, ok)
      ensures Requested(old(ViewOf(store)), store, MemlogRuns.Effect(command, old(store.table)), closed, ok)
      ensures var table := Recover(store.disk.fs.disk).table;
        table == old(Recover(store.disk.fs.disk)).table || table == store.table
    {
      hide Consistent, Recover, Behind, OpsOf, CursorAfter, EncodeState, NeverAhead, Extends, MemlogRuns.Effect;
      hide acker.Valid, resource.Valid, WroteAtMost;
      ghost var was, p := ViewOf(store), Reached();
      ok := Request(store, command, closed);
      SparedIsBehind(was.table, command, p);
      RelaxesItself(p);
      WriteKeepsBehind(was, store, MemlogRuns.Effect(command, was.table), p, p);
    }

    // The callback passed to EventPrivateReporter, run on a batch that the
    // ACKer has just cut off its buffer.
    method OnBatch(batch: seq<Private>, closed: bool, ghost before: Progress) returns (write: Write)
      requires acker.Valid() && resource.Valid() && store.Valid() && 2 < store.disk.room
      requires Reached() == before.(events := before.events + batch)
      requires resource.ops == OpsOf(batch) + OpsOf(acker.data)
      requires resource.cursor == CursorAfter(initial, before.events)
      requires documented.Some? ==> documented.value == resource.ttl
      requires Behind(store.table, before) && Behind(store.history[store.durable], before)
      modifies this`covered, resource, store, store.disk, store.disk.fs
      ensures Settled(old(store.disk.room), old(store.disk.fs.trace), old(covered), write)
      ensures write == NotNeeded <==> OpsOf(batch) == []
      ensures Failing(old(store.disk.fs.faults), store, closed, write != Failed)
      ensures write == NotNeeded ==> Idle() == old(Idle())
      ensures Kept(old(resource.InSyncStateSnapshot()), old(store.table), closed, write)
    {
      hide Consistent, Recover, Behind, OpsOf, CursorAfter, EncodeState, WroteAtMost, NeverAhead, Extends;
      hide acker.Valid, resource.Valid, store.Valid;
      CursorAppend(initial, before.events, batch);
      var n, last := ScanBatch(batch);
      ghost var was, after := ViewOf(store), Reached();
      if n == 0 {
        NothingWritten(store, store.table);
        BehindGrows(store.table, before, after);
        WriteKeepsBehind(was, store, store.table, before, after);
        return NotNeeded;
      }
      var ok := Execute(batch[last].op, n, resource, store, closed);
      ghost var state, all := resource.InSyncStateSnapshot(), after.(covered := |after.events|);
      ghost var written := was.table[resource.key := EncodeState(state)];
      WrittenIsBehind(was.table, all, state);
      ghost var _ := BehindAt(was.table, before);
      BehindGrows(written, all, after);
      WriteKeepsBehind(was, store, written, before, after);
      if ok {
        covered := |acker.reported|;
        SyncedIsDurable(store);
      }
      write := if ok then Done else Failed;
    }

    // The client hands the event to the ACKer: forwarded to the queue, or
    // dropped by a processor.
    method Forward(event: Private, published: bool, closed: bool) returns (write: Write)
      requires acker.Valid() && resource.Valid() && store.Valid() && 2 < store.disk.room
      requires resource.ops == OpsOf(acker.data) + OpsOf([event])
      requires resource.cursor == CursorAfter(initial, acker.reported)
      requires documented.Some? ==> documented.value == resource.ttl
      requires Behind(store.table, Reached()) && Behind(store.history[store.durable], Reached())
      modifies this`covered, acker, acker.tracking, acker.tracking.nodes, resource, store, store.disk, store.disk.fs
      ensures Settled(old(store.disk.room), old(store.disk.fs.trace), old(covered), write)
      ensures fresh(set node | node in acker.tracking.nodes && node !in old(acker.tracking.nodes))
      ensures Failing(old(store.disk.fs.faults), store, closed, write != Failed)
      ensures write == NotNeeded ==> Idle() == old(Idle())
      ensures Kept(old(resource.InSyncStateSnapshot()), old(store.table), closed, write)
      ensures acker.added == old(acker.added) + [event]
      ensures acker.tracking.Queue() == Enqueue(old(acker.tracking.Queue()), published)
      ensures acker.reported != old(acker.reported) ==> (write == NotNeeded <==> OpsOf([event]) == [])
      ensures acker.reported == old(acker.reported) ==> write == NotNeeded
      ensures acker.reported == old(acker.reported) +
                                if AtOnce(old(acker.tracking.Queue()), published) then [event] else []
    {
      hide Behind, CursorAfter, EncodeState, acker.Valid, store.Valid, resource.Valid, acker.tracking.Valid, Settled;
      ghost var before, data := Reached(), acker.data;
      OpsAppend(data, [event]);
      assert OpsOf([]) == [];
      hide OpsOf;
      var batch := acker.AddEvent(event, published);
      write := NotNeeded;
      if batch.Some? {
        write := OnBatch(batch.value.data, closed, before);
      } else {
        assert acker.reported == before.events;
        NothingReported();
      }
    }

    // cursorPublisher.Publish
    method Publish(private: Private, update: Option<Json>, convertible: bool, published: bool, now: Time, closed: bool)
      returns (ok: bool, write: Write)
      requires Valid() && 2 < store.disk.room && !private.Update?
      modifies this`covered, acker, acker.tracking, acker.tracking.nodes, resource, store, store.disk, store.disk.fs
      ensures Settled(old(store.disk.room), old(store.disk.fs.trace), old(covered), write)
      ensures fresh(set node | node in acker.tracking.nodes && node !in old(acker.tracking.nodes))
      ensures ok <==> update.None? || convertible
      ensures Failing(old(store.disk.fs.faults), store, closed, write != Failed)
      ensures var event := if update.Some? then Update(UpdateOp(now, update.value)) else private;
        if ok then
          && acker.added == old(acker.added) + [event]
          && acker.reported == old(acker.reported) +
                               (if AtOnce(old(acker.tracking.Queue()), published) then [event] else [])
          && acker.tracking.Queue() == Enqueue(old(acker.tracking.Queue()), published)
          && (write == NotNeeded <==> acker.reported == old(acker.reported) || !event.Update?)
        else
          && acker.added == old(acker.added) && acker.reported == old(acker.reported)
          && acker.tracking.Queue() == old(acker.tracking.Queue()) && write == NotNeeded
      ensures write == NotNeeded ==> Idle() == old(Idle())
      ensures Kept(old(resource.InSyncStateSnapshot()), old(store.table), closed, write)
    {
      hide Behind, CursorAfter, EncodeState, acker.Valid, store.Valid, resource.Valid, acker.tracking.Valid, Settled;
      var event := private;
      if update.Some? {
        var op := CreateUpdateOp(resource, now, update.value, convertible);
        if op.None? {
          NothingReported();
          return false, NotNeeded;
        }
        event := Update(op.value);
      }
      assert [event][..0] == [];
      write := Forward(event, published, closed);
      ok := true;
    }

    // The pipeline reports that the queue has ACKed n events of the client.
    method ACKEvents(n: int, closed: bool) returns (panicked: bool, write: Write)
      requires Valid() && 2 < store.disk.room
      modifies this`covered, acker, acker.tracking, acker.tracking.nodes, resource, store, store.disk, store.disk.fs
      ensures panicked <==> n > Count(old(acker.tracking.Queue()))
      ensures if panicked then write == NotNeeded
              else Settled(old(store.disk.room), old(store.disk.fs.trace), old(covered), write)
      ensures fresh(set node | node in acker.tracking.nodes && node !in old(acker.tracking.nodes))
      ensures Failing(old(store.disk.fs.faults), store, closed, write != Failed)
      ensures acker.added == old(acker.added)
      ensures !panicked ==> acker.tracking.Queue() == Dequeue(old(acker.tracking.Queue()), n)
      ensures write == NotNeeded ==> Idle() == old(Idle())
      ensures Kept(old(resource.InSyncStateSnapshot()), old(store.table), closed, write)
      ensures !panicked ==> (write == NotNeeded <==> OpsOf(old(acker.Covered(n))) == [])
      ensures !panicked ==> acker.reported == old(acker.reported + acker.Covered(n))
    {
      hide Behind, CursorAfter, EncodeState, acker.Valid, store.Valid, resource.Valid, acker.tracking.Valid;
      hide Count, acker.Covered, Settled, OpsOf, Span, Dequeue;
      ghost var before, data := Reached(), acker.data;
      NoOps();
      var batch;
      panicked, batch := acker.ACKEvents(n);
      write := NotNeeded;
      if batch.Some? {
        OpsSplit(batch.value.data, data);
        write := OnBatch(batch.value.data, closed, before);
      } else if !panicked {
        assert acker.reported == before.events;
        NothingReported();
      }
    }
  }

  // Once a write for an ACK has succeeded, the cursor on disk is exactly the
  // last update among the reported events.
  lemma AckedCursorIsDurable(session: InputSession, room: nat, was: seq<Disk>, before: nat)
    requires 2 < room && session.Settled(room, was, before, Done)
    ensures var table := Recover(session.store.disk.fs.disk).table;
      && session.resource.key in table
      && DecodeState(table[session.resource.key]) == Some(session.resource.InSyncStateSnapshot())
      && session.resource.InSyncStateSnapshot().cursor == CursorAfter(session.initial, session.acker.reported)
  {
    hide session.acker.Valid, session.resource.Valid, CursorAfter;
  }

  // openStore and manager.lock: the resource as the stored document has it.
  method OpenResource(store: Store, key: string, prefix: string) returns (resource: Resource)
    requires HasPrefix(key, prefix + "::")
    ensures fresh(resource) && resource.Valid() && resource.ops == [] && resource.key == key
    ensures resource.stored <==> DocumentOf(store.table, key).Some?
    ensures resource.InSyncStateSnapshot() == Loaded(DocumentOf(store.table, key))
    ensures resource.cursor == StoredCursor(store.table, key)
  {
    hide HasPrefix, DecodeState;
    var states := new States.Empty();
    states.Read(store, prefix);
    PrefixOfType(key, prefix);
    assert key in states.table <==> DocumentOf(store.table, key).Some?;
    resource := states.Find(key, true);
  }

  // The start of runSource once the resource is locked.
  method StartSession(resource: Resource, store: Store, ttl: int, now: Time, closed: bool)
    returns (session: InputSession)
    requires resource.Valid() && resource.ops == [] && store.Valid() && 2 < store.disk.room
    requires Behind(store.table, Start(resource.key, resource.cursor))
    requires Behind(store.history[store.durable], Start(resource.key, resource.cursor))
    modifies resource, store, store.disk, store.disk.fs
    ensures session.Valid() && session.resource == resource && session.store == store
    ensures session.initial == old(resource.cursor) && session.acker.added == [] && session.covered == 0
    ensures session.documented == TtlIn(store, resource)
    ensures old(store.disk.room) - 1 <= store.disk.room <= old(store.disk.room)
    ensures Extends(store.disk.fs.trace, old(store.disk.fs.trace))
    ensures NeverAhead(store.disk.fs.trace, |old(store.disk.fs.trace)|, |store.disk.fs.trace|,
                       Start(resource.key, session.initial), old(store.disk.room) - 2)
    // the time to live is stored, unless it is already
    ensures resource.InSyncStateSnapshot() == old(Started(resource.InSyncStateSnapshot(), resource.stored, ttl, now))
    ensures if old(resource.stored && resource.ttl == ttl) then resource.stored && ViewOf(store) == old(ViewOf(store))
            else
              && Requested(old(ViewOf(store)), store,
                           old(store.table)[resource.key := EncodeState(resource.InSyncStateSnapshot())], closed,
                           resource.internalInSync)
              && resource.stored == (old(resource.stored) || resource.internalInSync)
              && Failing(old(store.disk.fs.faults), store, closed, resource.internalInSync)
    ensures store.disk.fs.faults >= old(store.disk.fs.faults)
    ensures fresh(session) && fresh(session.acker)
    ensures fresh(session.acker.tracking) && fresh(session.acker.tracking.nodes)
  {
    hide CursorAfter, Behind, EncodeState, WroteAtMost, resource.Valid, store.Valid, NeverAhead;
    ghost var was, start := ViewOf(store), Start(resource.key, resource.cursor);
    UpdateTTL(resource, ttl, now, store, closed);
    CursorAfterNothing(start.initial);
    ghost var state := resource.InSyncStateSnapshot();
    WrittenIsBehind(was.table, start, state);
    WriteKeepsBehind(was, store, was.table[resource.key := EncodeState(state)], start, start);
    session := new InputSession(resource, store);
  }

  // The in-sync state is in the table, and the directory recovers the table.
  ghost predicate InSync(session: InputSession)
    reads session, session.resource, session.store, session.store.disk, session.store.disk.fs
  {
    && session.resource.stored && Synced(session.store)
    && Holds(session.store.table, session.resource.key, session.resource.InSyncStateSnapshot())
    && Holds(Recover(session.store.disk.fs.disk).table, session.resource.key, session.resource.InSyncStateSnapshot())
  }

  lemma SyncedRecovers(store: Store)
    requires store.Valid() && Synced(store)
    ensures Recover(store.disk.fs.disk).table == store.table
  {
  }

  // An input starts on a store that has just been opened.
  method StartOn(store: Store, key: string, prefix: string, ttl: int, now: Time) returns (session: InputSession)
    requires store.Valid() && Synced(store) && 2 < store.disk.room && HasPrefix(key, prefix + "::")
    modifies store, store.disk, store.disk.fs
    ensures session.Valid() && session.resource.key == key && session.store == store
    ensures session.initial == StoredCursor(old(store.table), key) && session.acker.added == [] && session.covered == 0
    ensures old(store.disk.room) - 1 <= store.disk.room && store.disk.fs.faults >= old(store.disk.fs.faults)
    ensures Extends(store.disk.fs.trace, old(store.disk.fs.trace))
    ensures NeverAhead(store.disk.fs.trace, |old(store.disk.fs.trace)|, |store.disk.fs.trace|,
                       Start(key, session.initial), old(store.disk.room) - 2)
    ensures var document := DocumentOf(old(store.table), key);
      session.resource.InSyncStateSnapshot() == Started(Loaded(document), document.Some?, ttl, now)
    ensures store.disk.fs.faults == old(store.disk.fs.faults) ==> InSync(session) && session.documented == Some(ttl)
    ensures session.documented == None || session.documented == Some(ttl)
    ensures fresh(session) && fresh(session.resource) && fresh(session.acker)
    ensures fresh(session.acker.tracking) && fresh(session.acker.tracking.nodes)
  {
    hide WellFormed, Recover, Consistent, CursorAfter, Behind, NeverAhead, Extends, EncodeState;
    ghost var table, faults := store.table, store.disk.fs.faults;
    var resource := OpenResource(store, key, prefix);
    NotYetBehind(table, key, resource.cursor);
    SyncedIsDurable(store);
    session := StartSession(resource, store, ttl, now, false);
    if store.disk.fs.faults == faults {
      StartHolds(table, store.table, key, ttl, now);
      SyncedRecovers(store);
    }
  }

  // A new life of the process on a directory that a crash has left: the input
  // resumes after the first `r` of the events reported before, and another
  // crash on the way does not get it further. All that unless opening
  // the store loses something; such a life is not followed.
  method Resume(fs: FileSystem, ignoreVersionCheck: bool, key: string, prefix: string, ttl: int, now: Time,
                ghost room: nat, ghost p: Progress)
    returns (session: InputSession?, lost: bool, ghost r: nat)
    requires WellFormed(fs.disk, room) && 3 < room && HasPrefix(key, prefix + "::")
    requires Behind(Recover(fs.disk).table, p) && p.key == key
    modifies fs, fs.home
    ensures HomeAfter(old(fs.home.state), old(fs.home.states), fs.home, session != null, ignoreVersionCheck)
    ensures fs.faults >= old(fs.faults) && (lost ==> session == null && fs.faults > old(fs.faults))
    ensures session == null ==> fs.faults > old(fs.faults) || (old(fs.home.state) == Unfinished && !ignoreVersionCheck)
    ensures Extends(fs.trace, old(fs.trace)) && p.covered <= r <= |p.events|
    ensures !lost ==> NeverAhead(fs.trace, |old(fs.trace)|, |fs.trace|, p.(documented := None), room - 2)
    ensures session != null ==>
      && session.Valid() && session.resource.key == key && session.store.disk.fs == fs
      && fresh(session) && fresh(session.acker) && fresh(session.acker.tracking) && fresh(session.acker.tracking.nodes)
      && fresh(session.resource) && fresh(session.store) && fresh(session.store.disk)
      && session.acker.added == [] && session.covered == 0 && room - 1 <= session.store.disk.room
      && session.initial == CursorAfter(p.initial, p.events[..r])
    // the document with the time to live is in memory and, without failures, on disk
    ensures session != null ==>
      var document := DocumentOf(old(Recover(fs.disk)).table, key);
      session.resource.InSyncStateSnapshot() == Started(Loaded(document), document.Some?, ttl, now)
    ensures session != null && fs.faults == old(fs.faults) ==> InSync(session) && session.documented == Some(ttl)
    ensures session != null ==> session.documented == None || session.documented == Some(ttl)
  {
    hide WellFormed, Recover, Consistent, CursorAfter, Behind, NeverAhead, StoredCursor, HomeAfter, Misreads;
    ghost var disk, trace, made, states := fs.disk, fs.trace, fs.home.state, fs.home.states;
    r := BehindAt(Recover(disk).table, p);
    ghost var q := p.(documented := None);
    BehindGrows(Recover(disk).table, p, q);
    WellFormedIs(disk, room);
    session := null;
    var store;
    store, lost := Store.Open(fs, ignoreVersionCheck, room);
    if lost {
      if store != null {
        NotOpenAfterAll(made, states, fs.home, ignoreVersionCheck);
      }
      return;
    }
    QuietIsNotAhead(fs.trace, trace, disk, q, room);
    if store == null {
      return;
    }
    ghost var quiet := fs.trace;
    session := StartOn(store, key, prefix, ttl, now);
    NotAheadResumes(fs.trace, |quiet|, |fs.trace|, q, r, room - 2);
    NeverAheadGrows(quiet, fs.trace, |trace|, |quiet|, q, q, room - 2, room - 2);
    NeverAheadJoins(fs.trace, |trace|, |quiet|, |fs.trace|, q, room - 2);
  }
}
