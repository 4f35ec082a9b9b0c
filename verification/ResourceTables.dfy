/** The resources of an input type in memory, read from the store and cleaned up in both. */
module ResourceTables {
  import opened Documents
  import opened MemlogStores
  import opened Cursors

  // strings.HasPrefix
  predicate HasPrefix(s: string, prefix: string) {
    prefix <= s
  }

  lemma PrefixOfType(key: string, prefix: string)
    ensures HasPrefix(key, prefix + "::") <==>
            |key| >= |prefix| + 2 && key[..|prefix|] == prefix && key[|prefix|] == key[|prefix| + 1] == ':'
  {
    var n, start := |prefix|, prefix + "::";
    assert start[..n] == prefix && start[n] == start[n + 1] == ':';
    if |key| >= n + 2 {
      assert key[..n + 2][..n] == key[..n] && key[..n + 2] == key[..n] + [key[n], key[n + 1]];
    }
  }

  function LaterOf(a: Time, b: Time): Time {
    if b < a then a else b
  }

  function Without<V>(m: map<string, V>, keys: set<string>): map<string, V> {
    m - keys
  }

  // The keys in `removed` are gone from the store, and so may be the one whose
  // removal failed.
  ghost predicate Cleaned(before: Table, after: Table, removeSet: set<string>, removed: set<string>, ok: bool) {
    && removed <= removeSet
    && (after == Without(before, removed)
        || (!ok && exists key :: key in removeSet - removed && after == Without(before, removed + {key})))
  }

  class States {
    var table: map<string, Resource>

    ghost predicate Valid()
      reads this, table.Values
    {
      forall key :: key in table ==> table[key].Valid() && table[key].key == key
    }

    constructor Empty()
      ensures Valid() && table == map[]
    {
      table := map[];
    }

    // readStates: one resource for each document under the prefix that decodes.
    method Read(store: Store, prefix: string)
      requires Valid() && table == map[]
      modifies this
      ensures Valid()
      ensures forall key :: key in table <==>
        && key in store.table && DecodeState(store.table[key]).Some?
        && |key| >= |prefix| + 2 && key[..|prefix|] == prefix && key[|prefix|] == key[|prefix| + 1] == ':'
      ensures forall key :: key in table ==>
        && fresh(table[key]) && table[key].stored && table[key].ops == [] && table[key].holders == 0
        && Some(table[key].InSyncStateSnapshot()) == DecodeState(store.table[key])
    {
      var left := store.table.Keys;
      while left != {}
        invariant left <= store.table.Keys
        invariant Valid()
        invariant forall key :: key in table <==>
          key in store.table && key !in left && HasPrefix(key, prefix + "::") && DecodeState(store.table[key]).Some?
        invariant forall key :: key in table ==>
          && fresh(table[key]) && table[key].stored && table[key].ops == [] && table[key].holders == 0
          && Some(table[key].InSyncStateSnapshot()) == DecodeState(store.table[key])
        decreases left
      {
        var key :| key in left;
        left := left - {key};
        if !HasPrefix(key, prefix + "::") {
          continue;
        }
        var decoded := DecodeState(store.table[key]);
        if decoded.None? {
          continue;
        }
        var resource := new Resource.Restored(key, decoded.value);
        table := table[key := resource];
      }
      forall key: string
        ensures HasPrefix(key, prefix + "::") <==>
                |key| >= |prefix| + 2 && key[..|prefix|] == prefix && key[|prefix|] == key[|prefix| + 1] == ':'
      {
        PrefixOfType(key, prefix);
      }
    }

    // states.Find
    method Find(key: string, create: bool) returns (resource: Resource?)
      requires Valid()
      modifies this, if key in table then {table[key]} else {}
      ensures Valid()
      ensures key in old(table) ==>
        && resource == old(table[key]) && table == old(table) && resource.holders == old(table[key].holders) + 1
        && resource.ops == old(table[key].ops) && resource.stored == old(table[key].stored)
        && resource.InSyncStateSnapshot() == old(table[key].InSyncStateSnapshot())
      ensures resource != null ==> resource.Valid() && resource.key == key && key in table && table[key] == resource
      ensures key !in old(table) && !create ==> resource == null && table == old(table)
      ensures key !in old(table) && create ==>
        && resource != null && fresh(resource) && table == old(table)[key := resource]
        && resource.holders == 1 && resource.ops == [] && !resource.stored
        && resource.InSyncStateSnapshot() == State(0, 0, Null)
    {
      if key in table {
        resource := table[key];
        resource.Retain();
        return;
      }
      if !create {
        return null;
      }
      resource := new Resource(key);
      table := table[key := resource];
      resource.Retain();
    }

    // Unowned, stored, and its last update and the start of the cleaner both
    // longer ago than the time to live.
    ghost predicate Expired(key: string, started: Time, now: Time)
      requires key in table
      reads this, table.Values
    {
      var resource := table[key];
      && resource.holders == 0 && resource.ops == [] && resource.stored
      && resource.updated + resource.ttl < now && started + resource.ttl < now
    }

    // checkCleanResource
    method CheckCleanResource(started: Time, now: Time, resource: Resource) returns (clean: bool)
      requires resource.Valid()
      ensures clean <==>
        && resource.holders == 0 && resource.ops == [] && resource.stored
        && resource.updated + resource.ttl < now && started + resource.ttl < now
    {
      var finished := resource.Finished();
      if !finished {
        return false;
      }
      var reference := LaterOf(started, resource.updated);
      clean := reference + resource.ttl < now && resource.stored;
    }

    method GcFind(started: Time, now: Time) returns (keys: set<string>)
      requires Valid()
      ensures forall key :: key in keys <==> key in table && Expired(key, started, now)
    {
      keys := {};
      var left := table.Keys;
      while left != {}
        invariant left <= table.Keys
        invariant forall key :: key in keys <==> key in table && key !in left && Expired(key, started, now)
        decreases left
      {
        var key :| key in left;
        left := left - {key};
        var clean := CheckCleanResource(started, now, table[key]);
        if !clean {
          continue;
        }
        keys := keys + {key};
      }
    }

    // A removal through the handle of the shared store, which may have been closed.
    method RemoveKey(store: Store, closed: bool, key: string) returns (ok: bool)
      requires store.Valid() && 2 < store.disk.room
      modifies store, store.disk, store.disk.fs
      ensures store.Valid() && old(store.disk.room) - 1 <= store.disk.room
      ensures Requested(old(ViewOf(store)), store, Without(old(store.table), {key}), closed, ok)
      ensures Failing(old(store.disk.fs.faults), store, closed, ok)
    {
      hide store.Valid;
      var full: bool := *;
      if closed {
        return false;
      }
      ok := store.Remove(key, full);
    }

    // Stops at the first key the store fails to remove, which then stays in
    // the table, as do the keys not reached.
    method GcClean(store: Store, closed: bool, removeSet: set<string>) returns (ok: bool, ghost removed: set<string>)
      requires store.Valid() && |removeSet| + 2 < store.disk.room
      modifies this`table, store, store.disk, store.disk.fs
      ensures store.Valid() && table == Without(old(table), removed)
      ensures ok ==> removed == removeSet && (removeSet != {} ==> Synced(store))
      ensures Cleaned(old(store.table), store.table, removeSet, removed, ok)
      ensures Failing(old(store.disk.fs.faults), store, closed, ok)
    {
      hide store.Valid, Synced, Cleaned, Without;
      removed := {};
      var left := removeSet;
      ghost var table0, store0 := table, store.table;
      MinusNone(table0);
      MinusNone(store0);
      while left != {}
        invariant left <= removeSet && removed == removeSet - left
        invariant store.Valid() && |left| + 2 < store.disk.room
        invariant store.disk.fs.faults >= old(store.disk.fs.faults)
        invariant table == Without(table0, removed) && store.table == Without(store0, removed)
        invariant removed != {} ==> Synced(store)
        decreases left
      {
        var key :| key in left;
        ghost var more := removed + {key};
        OneFewer(removeSet, left, removed, key);
        MinusMore(store0, removed, key);
        MinusMore(table0, removed, key);
        ok := RemoveKey(store, closed, key);
        if !ok {
          FailedRemoval(store0, store.table, removeSet, removed, key);
          return;
        }
        table := Without(table, {key});
        removed := more;
        left := left - {key};
      }
      ok := true;
      AllRemoved(store0, removeSet, removed);
    }

    // gcStore
    method GcStore(store: Store, closed: bool, started: Time, now: Time)
      returns (ok: bool, expired: set<string>, ghost removed: set<string>)
      requires Valid() && store.Valid() && |table| + 2 < store.disk.room
      modifies this`table, store, store.disk, store.disk.fs
      ensures Valid() && store.Valid() && table == Without(old(table), removed)
      ensures forall key :: key in expired <==> key in old(table) && old(Expired(key, started, now))
      ensures Cleaned(old(store.table), store.table, expired, removed, ok)
      ensures ok ==> removed == expired && (expired != {} ==> Synced(store))
      ensures Failing(old(store.disk.fs.faults), store, closed, ok)
    {
      hide store.Valid, Synced, Resource.Valid, Without, Cleaned;
      expired := GcFind(started, now);
      ok, removed := true, {};
      if expired == {} {
        MinusNone(table);
        AllRemoved(store.table, {}, {});
        MinusNone(store.table);
        return;
      }
      SubsetSize(expired, table.Keys);
      ghost var before := table;
      ok, removed := GcClean(store, closed, expired);
      FewerAreValid(before, removed);
    }

    lemma FewerAreValid(before: map<string, Resource>, removed: set<string>)
      requires table == Without(before, removed)
      requires forall key :: key in before ==> before[key].Valid() && before[key].key == key
      ensures Valid()
    {
    }
  }

  // A pass of the cleaner right after the table has been read, as after a start:
  // only documents of its own type go.
  method SweepAfterRead(store: Store, prefix: string, closed: bool, started: Time, now: Time)
    returns (ok: bool, ghost removed: set<string>)
    requires store.Valid() && |store.table| + 2 < store.disk.room
    modifies store, store.disk, store.disk.fs
    ensures store.Valid() && store.table.Keys == old(store.table).Keys - removed
    ensures forall key :: key in store.table ==> store.table[key] == old(store.table)[key]
    ensures forall key :: key in removed ==>
      && |key| >= |prefix| + 2 && key[..|prefix|] == prefix && key[|prefix|] == key[|prefix| + 1] == ':'
      && key in old(store.table) && IsExpired(old(store.table)[key], started, now)
    ensures ok ==> forall key ::
      && key in old(store.table) && IsExpired(old(store.table)[key], started, now)
      && |key| >= |prefix| + 2 && key[..|prefix|] == prefix && key[|prefix|] == key[|prefix| + 1] == ':' ==>
      key in removed
    ensures Failing(old(store.disk.fs.faults), store, closed, ok)
  {
    hide store.Valid, Synced, DecodeState, Without, Cleaned, IsExpired;
    var states := new States.Empty();
    states.Read(store, prefix);
    ghost var table, mine := store.table, states.table.Keys;
    SubsetSize(mine, table.Keys);
    forall key | key in mine ensures states.Expired(key, started, now) <==> IsExpired(table[key], started, now) {
      ExpiredByDocument(table[key], states.table[key], started, now);
    }
    var expired;
    ghost var gone;
    ok, expired, gone := states.GcStore(store, closed, started, now);
    removed := table.Keys - store.table.Keys;
    OnlyItsTypeIsSwept(table, store.table, prefix, started, now, mine, expired, gone, ok);
  }

  lemma ExpiredByDocument(row: Fields, resource: Resource, started: Time, now: Time)
    requires DecodeState(row) == Some(resource.InSyncStateSnapshot())
    ensures IsExpired(row, started, now) <==> resource.updated + resource.ttl < now && started + resource.ttl < now
  {
  }

  lemma OnlyItsTypeIsSwept(before: Table, after: Table, prefix: string, started: Time, now: Time, mine: set<string>,
                           expired: set<string>, gone: set<string>, ok: bool)
    requires forall key :: key in mine <==>
      && key in before && DecodeState(before[key]).Some?
      && |key| >= |prefix| + 2 && key[..|prefix|] == prefix && key[|prefix|] == key[|prefix| + 1] == ':'
    requires forall key :: key in expired <==> key in mine && IsExpired(before[key], started, now)
    requires Cleaned(before, after, expired, gone, ok) && (ok ==> gone == expired)
    ensures after.Keys <= before.Keys && forall key :: key in after ==> after[key] == before[key]
    ensures forall key :: key in before.Keys - after.Keys ==>
      && |key| >= |prefix| + 2 && key[..|prefix|] == prefix && key[|prefix|] == key[|prefix| + 1] == ':'
      && IsExpired(before[key], started, now)
    ensures ok ==> forall key ::
      && key in before && IsExpired(before[key], started, now)
      && |key| >= |prefix| + 2 && key[..|prefix|] == prefix && key[|prefix|] == key[|prefix| + 1] == ':' ==>
      key !in after
  {
    CleanedRemoves(before, after, expired, gone, ok);
    hide Cleaned;
  }

  // The document says that its resource has expired.
  predicate IsExpired(row: Fields, started: Time, now: Time) {
    match DecodeState(row)
    case None => false
    case Some(state) => state.updated + state.ttl < now && started + state.ttl < now
  }

  lemma CleanedRemoves(before: Table, after: Table, removeSet: set<string>, removed: set<string>, ok: bool)
    requires Cleaned(before, after, removeSet, removed, ok) && (ok ==> removed == removeSet)
    ensures after.Keys <= before.Keys && before.Keys - after.Keys <= removeSet
    ensures forall key :: key in after ==> after[key] == before[key]
    ensures ok ==> forall key :: key in removeSet ==> key !in after
  {
  }

  lemma MinusMore<V>(m: map<string, V>, keys: set<string>, key: string)
    ensures Without(Without(m, keys), {key}) == Without(m, keys + {key})
  {
  }

  lemma MinusNone<V>(m: map<string, V>)
    ensures Without(m, {}) == m
  {
  }

  lemma OneFewer(all: set<string>, left: set<string>, removed: set<string>, key: string)
    requires key in left && left <= all && removed == all - left
    ensures |left - {key}| == |left| - 1 && key in all - removed && removed + {key} == all - (left - {key})
  {
  }

  lemma FailedRemoval(before: Table, after: Table, removeSet: set<string>, removed: set<string>, key: string)
    requires removed <= removeSet && key in removeSet - removed
    requires after == Without(before, removed) || after == Without(before, removed + {key})
    ensures Cleaned(before, after, removeSet, removed, false)
  {
  }

  lemma AllRemoved(before: Table, removeSet: set<string>, removed: set<string>)
    requires removed == removeSet
    ensures Cleaned(before, Without(before, removed), removeSet, removed, true)
  {
  }

  lemma {:induction false} SubsetSize(a: set<string>, b: set<string>)
    requires a <= b
    ensures |a| <= |b|
    decreases a
  {
    if a == {} {
    } else {
      var x :| x in a;
      SubsetSize(a - {x}, b - {x});
    }
  }
}
