/** Cursor state of a source: the resource, and the update operations that wait for an ACK. */
module Cursors {
  import opened Documents
  import opened Replay
  import opened Durability
  import opened DiskStores
  import opened MemlogStores

  // Nanoseconds; 0 is the zero time.
  type Time = nat

  // An update waiting for the ACK of the event that carries it.
  datatype UpdateOp = UpdateOp(timestamp: Time, delta: Json)

  // The document stored for a resource.
  datatype State = State(ttl: int, updated: Time, cursor: Json)

  function EncodeState(state: State): Fields {
    map["ttl" := Number(state.ttl), "updated" := Number(state.updated), "cursor" := state.cursor]
  }

  // Members that are absent decode to their zero value.
  function DecodeState(row: Fields): Option<State> {
    var ttl := if "ttl" in row then row["ttl"] else Number(0);
    var updated := if "updated" in row then row["updated"] else Number(0);
    var cursor := if "cursor" in row then row["cursor"] else Null;
    if ttl.Number? && updated.Number? && updated.n >= 0 then Some(State(ttl.n, updated.n, cursor)) else None
  }

  // A document decodes just if its members have the right types, each field comes
  // from the member of its own name, and encoding puts it back there.
  lemma MembersByName(row: Fields)
    ensures DecodeState(row).Some? <==>
            && ("ttl" in row ==> row["ttl"].Number?)
            && ("updated" in row ==> row["updated"].Number? && row["updated"].n >= 0)
    ensures DecodeState(row).Some? ==>
      var state, again := DecodeState(row).value, EncodeState(DecodeState(row).value);
      && state.ttl == (if "ttl" in row then row["ttl"].n else 0)
      && state.updated == (if "updated" in row then row["updated"].n else 0)
      && state.cursor == (if "cursor" in row then row["cursor"] else Null)
      && again.Keys == {"ttl", "updated", "cursor"}
      && forall name :: name in again && name in row ==> again[name] == row[name]
  {
  }

  ghost predicate Ascending(ops: seq<UpdateOp>) {
    forall i, j :: 0 <= i < j < |ops| ==> ops[i].timestamp <= ops[j].timestamp
  }

  lemma AscendingBefore(ops: seq<UpdateOp>, op: UpdateOp)
    requires Ascending(ops + [op])
    ensures Ascending(ops)
  {
    assert forall i :: 0 <= i < |ops| ==> (ops + [op])[i] == ops[i];
  }

  lemma LastIsLatest(earlier: seq<UpdateOp>, ops: seq<UpdateOp>, n: nat)
    requires Ascending(earlier + ops) && 0 < n <= |ops|
    ensures forall i :: 0 <= i < n ==> ops[i].timestamp <= ops[n - 1].timestamp
  {
    assert forall i :: 0 <= i < n ==> ops[i] == (earlier + ops)[|earlier| + i];
  }

  class Resource {
    const key: string

    // Holders and outstanding updates; an atomic.Uint64.
    var pending: int

    var stored: bool
    var internalInSync: bool
    var activeCursorOperations: int
    var ttl: int
    var updated: Time
    var cursor: Json
    var pendingCursor: Json

    // The update operations created and not executed yet, oldest first.
    ghost var ops: seq<UpdateOp>
    // Those executed, oldest first.
    ghost var executed: seq<UpdateOp>
    // The inputs that hold the resource or wait for it.
    ghost var holders: nat

    // Unless the clock has been set back between updates, `updated` has reached
    // all that were executed.
    ghost predicate Timed()
      reads this
    {
      Ascending(executed + ops) ==> forall i :: 0 <= i < |executed| ==> executed[i].timestamp <= updated
    }

    ghost predicate Valid()
      reads this
    {
      && activeCursorOperations == |ops|
      && pending == holders + |ops|
      && pendingCursor == (if ops == [] then Null else ops[|ops| - 1].delta)
      && Timed()
    }

    // states.Find for a key that is not in the table, without the Retain.
    constructor (key: string)
      ensures Valid() && this.key == key && ops == [] && holders == 0
      ensures !stored && !internalInSync && ttl == 0 && updated == 0 && cursor == Null
    {
      this.key := key;
      pending, activeCursorOperations := 0, 0;
      stored, internalInSync := false, false;
      ttl, updated, cursor, pendingCursor := 0, 0, Null, Null;
      ops, executed, holders := [], [], 0;
    }

    // readStates, for a document that decoded.
    constructor Restored(key: string, state: State)
      ensures Valid() && this.key == key && ops == [] && holders == 0
      ensures stored && internalInSync && InSyncStateSnapshot() == state
    {
      this.key := key;
      pending, activeCursorOperations := 0, 0;
      stored, internalInSync := true, true;
      ttl, updated, cursor, pendingCursor := state.ttl, state.updated, state.cursor, Null;
      ops, executed, holders := [], [], 0;
    }

    method Retain()
      requires Valid()
      modifies this`pending, this`holders
      ensures Valid() && holders == old(holders) + 1
    {
      pending := pending + 1;
      holders := holders + 1;
    }

    method Release()
      requires Valid() && holders > 0
      modifies this`pending, this`holders
      ensures Valid() && holders == old(holders) - 1
    {
      pending := pending - 1;
      holders := holders - 1;
    }

    // UpdatesReleaseN
    method UpdatesReleaseN(n: nat)
      requires pending == holders + |ops| + n && activeCursorOperations == |ops| && Timed()
      requires pendingCursor == if ops == [] then Null else ops[|ops| - 1].delta
      modifies this`pending
      ensures Valid()
    {
      pending := pending - n;
    }

    // The part of Execute that changes the state in memory.
    method Advance(op: UpdateOp, n: nat)
      requires Valid() && 0 < n <= |ops| && op == ops[n - 1]
      modifies this`activeCursorOperations, this`cursor, this`pendingCursor, this`updated, this`ops, this`executed
      ensures ops == old(ops)[n..] && executed == old(executed) + old(ops)[..n] && Timed()
      ensures activeCursorOperations == |ops| && pending == holders + |ops| + n
      ensures pendingCursor == if ops == [] then Null else ops[|ops| - 1].delta
      ensures cursor == op.delta
      ensures updated == if old(updated) < op.timestamp then op.timestamp else old(updated)
    {
      activeCursorOperations := activeCursorOperations - n;
      if activeCursorOperations == 0 {
        cursor := pendingCursor;
        pendingCursor := Null;
      } else {
        cursor := op.delta;
      }
      if updated < op.timestamp {
        updated := op.timestamp;
      }
      assert executed + ops == (executed + ops[..n]) + ops[n..];
      if Ascending(executed + ops) {
        LastIsLatest(executed, ops, n);
      }
      executed := executed + ops[..n];
      ops := ops[n..];
    }

    // No input holds the resource and no update is outstanding.
    method Finished() returns (finished: bool)
      requires Valid()
      ensures finished <==> holders == 0 && ops == []
    {
      finished := pending == 0;
    }

    function InSyncStateSnapshot(): State
      reads this
    {
      State(ttl, updated, cursor)
    }

    // What a new input sees.
    function StateSnapshot(): State
      reads this
    {
      State(ttl, updated, if activeCursorOperations == 0 then cursor else pendingCursor)
    }

    // The snapshot for inputs holds the last update created, ACKed or not.
    lemma SnapshotIsLatest()
      requires Valid()
      ensures StateSnapshot().cursor == if ops == [] then cursor else ops[|ops| - 1].delta
    {
    }
  }

  // createUpdateOp. Converting the update fails for values that can not be
  // stored; otherwise it overwrites the cursor.
  method CreateUpdateOp(resource: Resource, now: Time, update: Json, convertible: bool) returns (op: Option<UpdateOp>)
    requires resource.Valid()
    modifies resource`pending, resource`activeCursorOperations, resource`pendingCursor, resource`ops
    ensures resource.Valid()
    ensures op == if convertible then Some(UpdateOp(now, update)) else None
    ensures resource.ops == old(resource.ops) + if convertible then [op.value] else []
  {
    var cursor := resource.pendingCursor;
    if resource.activeCursorOperations == 0 {
      var tmp := cursor;
      resource.pendingCursor := tmp;
      cursor := tmp;
    }
    if !convertible {
      return None;
    }
    cursor := update;
    resource.pendingCursor := cursor;
    resource.pending := resource.pending + 1;
    resource.activeCursorOperations := resource.activeCursorOperations + 1;
    op := Some(UpdateOp(now, update));
    ghost var was := resource.executed + resource.ops;
    resource.ops := resource.ops + [op.value];
    assert resource.executed + resource.ops == was + [op.value];
    if Ascending(was + [op.value]) {
      AscendingBefore(was, op.value);
    }
  }

  // What there is to know about a store at some moment.
  datatype StoreView = StoreView(
    table: Table, history: seq<Table>, durable: nat, acked: nat, room: nat, trace: seq<Disk>)

  ghost function ViewOf(store: Store): StoreView
    reads store, store.disk, store.disk.fs
  {
    StoreView(store.table, store.history, store.durable, store.acked, store.disk.room, store.disk.fs.trace)
  }

  // Since `was` the store has been asked at most once to hold `written`: it is
  // as it was or has recorded the new table, and a crash on the way recovers
  // what was durable before or the new table.
  ghost predicate WroteAtMost(was: StoreView, store: Store, written: Table)
    reads store, store.disk, store.disk.fs
  {
    && was.durable < |was.history| && 2 < was.room
    && store.Valid() && was.room - 1 <= store.disk.room <= was.room
    && (store.table == was.table || store.table == written)
    && (store.history == was.history || store.history == was.history + [store.table])
    && (store.durable == was.durable || store.durable == |store.history| - 1)
    && Extends(store.disk.fs.trace, was.trace)
    && CrashSafe(store.disk.fs.trace, |was.trace|, was.history[was.durable], store.table, was.room - 2)
  }

  // Writes fail on a closed handle, and otherwise only if the file system does.
  ghost predicate Failing(faults: nat, store: Store, closed: bool, ok: bool)
    reads store.disk.fs
  {
    store.disk.fs.faults >= faults && (!ok ==> closed || store.disk.fs.faults > faults)
  }

  lemma NothingWritten(store: Store, written: Table)
    requires store.Valid() && 2 < store.disk.room
    ensures WroteAtMost(ViewOf(store), store, written)
  {
    hide Consistent, Recover;
  }

  // On a closed handle nothing is done, and the write fails. Otherwise the table
  // in memory is the new one, whether or not it could be recorded.
  ghost predicate Requested(was: StoreView, store: Store, written: Table, closed: bool, ok: bool)
    reads store, store.disk, store.disk.fs
  {
    if closed then !ok && ViewOf(store) == was else store.table == written && (ok ==> Synced(store))
  }

  // The whole table is on disk.
  ghost predicate Synced(store: Store)
    reads store
  {
    store.acked == store.durable == |store.history| - 1
  }

  // A write through the handle of the shared store, which may have been closed.
  method Persist(store: Store, closed: bool, key: string, state: State) returns (ok: bool)
    requires store.Valid() && 2 < store.disk.room
    modifies store, store.disk, store.disk.fs
    ensures WroteAtMost(old(ViewOf(store)), store, old(store.table)[key := EncodeState(state)])
    ensures Requested(old(ViewOf(store)), store, old(store.table)[key := EncodeState(state)], closed, ok)
    ensures Failing(old(store.disk.fs.faults), store, closed, ok)
  {
    hide Consistent, Recover, WellFormed;
    var full: bool := *;
    if closed {
      return false;
    }
    ok := store.Set(key, EncodeState(state), true, full);
  }

  // updateOp.Execute: `op` stands for itself and the n-1 updates before it.
  method Execute(op: UpdateOp, n: nat, resource: Resource, store: Store, closed: bool) returns (ok: bool)
    requires resource.Valid() && store.Valid() && 2 < store.disk.room
    requires 0 < n <= |resource.ops| && op == resource.ops[n - 1]
    modifies resource, store, store.disk, store.disk.fs
    ensures resource.Valid() && resource.ops == old(resource.ops)[n..]
    ensures resource.executed == old(resource.executed) + old(resource.ops)[..n]
    ensures resource.holders == old(resource.holders)
    ensures resource.cursor == op.delta && resource.ttl == old(resource.ttl)
    ensures resource.updated == if old(resource.updated) < op.timestamp then op.timestamp else old(resource.updated)
    ensures ok ==> resource.stored && resource.internalInSync
    ensures !ok ==> resource.stored == old(resource.stored) && resource.internalInSync == old(resource.internalInSync)
    ensures var written := old(store.table)[resource.key := EncodeState(resource.InSyncStateSnapshot())];
      WroteAtMost(old(ViewOf(store)), store, written) && Requested(old(ViewOf(store)), store, written, closed, ok)
    ensures Failing(old(store.disk.fs.faults), store, closed, ok)
  {
    hide WroteAtMost, Synced, EncodeState, Consistent, Recover, store.Valid, Failing, Requested;
    resource.Advance(op, n);
    ok := Persist(store, closed, resource.key, resource.InSyncStateSnapshot());
    if ok {
      resource.internalInSync := true;
      resource.stored := true;
    }
    resource.UpdatesReleaseN(n);
  }

  // store.UpdateTTL. Nothing happens if the time to live is stored already.
  method UpdateTTL(resource: Resource, ttl: int, now: Time, store: Store, closed: bool)
    requires resource.Valid() && store.Valid() && 2 < store.disk.room
    modifies resource`ttl, resource`updated, resource`stored, resource`internalInSync, store, store.disk, store.disk.fs
    ensures resource.Valid() && resource.ttl == ttl && store.disk.fs.faults >= old(store.disk.fs.faults)
    ensures var written := old(store.table)[resource.key := EncodeState(resource.InSyncStateSnapshot())];
      && WroteAtMost(old(ViewOf(store)), store, written)
      && if old(resource.stored && resource.ttl == ttl) then
           && resource.updated == old(resource.updated) && resource.stored
           && resource.internalInSync == old(resource.internalInSync) && ViewOf(store) == old(ViewOf(store))
         else
           && resource.updated == (if old(resource.updated) == 0 then now else old(resource.updated))
           && resource.stored == (old(resource.stored) || resource.internalInSync)
           && Failing(old(store.disk.fs.faults), store, closed, resource.internalInSync)
           && Requested(old(ViewOf(store)), store, written, closed, resource.internalInSync)
  {
    hide WroteAtMost, Synced, Requested, EncodeState, Consistent, Recover, store.Valid;
    if resource.stored && resource.ttl == ttl {
      NothingWritten(store, store.table[resource.key := EncodeState(resource.InSyncStateSnapshot())]);
      return;
    }
    resource.ttl := ttl;
    if resource.updated == 0 {
      resource.updated := now;
    }
    var ok := Persist(store, closed, resource.key, State(resource.ttl, resource.updated, resource.cursor));
    if !ok {
      resource.internalInSync := false;
    } else {
      resource.stored := true;
      resource.internalInSync := true;
    }
  }
}
