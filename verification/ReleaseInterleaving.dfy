/**
 * Get and Close on one store name, with the two halves of a release apart: the
 * decrement of the reference count, and the attempt to unregister under the
 * lock of the registry once the count was seen to be zero.
 */
module ReleaseInterleaving {
  import opened Documents

  // `waiting` counts the releases between their two halves.
  datatype Shared = Shared(refCount: nat, waiting: nat, backendOpen: bool)

  datatype State = State(
    stores: seq<Shared>,     // every shared store ever made for the name
    active: Option<nat>,     // the one in the registry
    panicked: bool)          // "removing an unknown store"

  datatype Step = Get | Decrement(r: nat) | TryUnregister(r: nat)

  predicate Enabled(s: State, step: Step) {
    && !s.panicked
    && match step
       case Get => s.active.Some? ==> s.active.value < |s.stores|
       case Decrement(r) => r < |s.stores| && s.stores[r].refCount > 0
       case TryUnregister(r) => r < |s.stores| && s.stores[r].waiting > 0
  }

  // Get hands out a store whose last handle has just been closed.
  predicate Revives(s: State, step: Step) {
    step.Get? && s.active.Some? && s.active.value < |s.stores| && s.stores[s.active.value].refCount == 0
  }

  function Apply(s: State, step: Step): State
    requires Enabled(s, step)
  {
    match step
    case Get =>
      if s.active.Some? then
        var r := s.active.value;
        s.(stores := s.stores[r := s.stores[r].(refCount := s.stores[r].refCount + 1)])
      else
        s.(stores := s.stores + [Shared(1, 0, true)], active := Some(|s.stores|))
    case Decrement(r) =>
      var count := s.stores[r].refCount - 1;
      s.(stores := s.stores[r := s.stores[r].(
        refCount := count, waiting := s.stores[r].waiting + if count == 0 then 1 else 0)])
    case TryUnregister(r) =>
      var store := s.stores[r].(waiting := s.stores[r].waiting - 1);
      if store.refCount > 0 then s.(stores := s.stores[r := store])
      else if s.active.None? then s.(panicked := true)
      else s.(stores := s.stores[r := store.(backendOpen := false)], active := None)
  }

  function Exec(schedule: seq<Step>): Option<State> {
    if |schedule| == 0 then Some(State([], None, false))
    else
      var n := |schedule| - 1;
      match Exec(schedule[..n])
      case None => None
      case Some(s) => if Enabled(s, schedule[n]) then Some(Apply(s, schedule[n])) else None
  }

  // No step of the schedule revives a store.
  predicate NoRevival(schedule: seq<Step>) {
    |schedule| == 0 ||
    var n := |schedule| - 1;
    NoRevival(schedule[..n]) && (Exec(schedule[..n]).Some? ==> !Revives(Exec(schedule[..n]).value, schedule[n]))
  }

  // A store with handles is the registered one and open; one that waits to be
  // unregistered is still registered, and waits once.
  predicate Sound(s: State) {
    && !s.panicked
    && (s.active.Some? ==> s.active.value < |s.stores|)
    && forall r :: 0 <= r < |s.stores| ==>
      var store := s.stores[r];
      && (store.refCount > 0 ==> s.active == Some(r) && store.waiting == 0)
      && (store.waiting > 0 ==> s.active == Some(r) && store.waiting == 1)
      && (store.backendOpen <==> s.active == Some(r))
      && (s.active == Some(r) ==> store.refCount > 0 || store.waiting > 0)
  }

  // Without a revival every handle in use is on the registered, open store,
  // and each store is unregistered once.
  lemma {:induction false} SoundWithoutRevival(schedule: seq<Step>)
    requires NoRevival(schedule) && Exec(schedule).Some?
    ensures Sound(Exec(schedule).value)
  {
    if |schedule| == 0 {
    } else {
      SoundWithoutRevival(schedule[..|schedule| - 1]);
    }
  }

  // A store that is in use but not registered.
  predicate Orphaned(s: State, r: nat) {
    r < |s.stores| && s.stores[r].refCount > 0 && s.active != Some(r)
  }

  lemma ExecMore(schedule: seq<Step>, step: Step)
    requires Exec(schedule).Some? && Enabled(Exec(schedule).value, step)
    ensures Exec(schedule + [step]) == Some(Apply(Exec(schedule).value, step))
  {
    assert (schedule + [step])[..|schedule|] == schedule;
  }

  // The name has one store, which is registered.
  predicate HasOnly(s: Option<State>, store: Shared) {
    s.Some? && s.value.stores == [store] && s.value.active == Some(0) && !s.value.panicked
  }

  // With one, the same store can be waiting twice.
  lemma RevivalWaitsTwice() returns (schedule: seq<Step>)
    ensures HasOnly(Exec(schedule), Shared(0, 2, true))
  {
    assert Exec([]) == Some(State([], None, false));
    hide Exec;
    var s1 := [] + [Get];
    ExecMore([], Get);
    assert HasOnly(Exec(s1), Shared(1, 0, true));
    var s2 := s1 + [Decrement(0)];
    ExecMore(s1, Decrement(0));
    assert HasOnly(Exec(s2), Shared(0, 1, true));
    var s3 := s2 + [Get];
    ExecMore(s2, Get);
    assert HasOnly(Exec(s3), Shared(1, 1, true));
    schedule := s3 + [Decrement(0)];
    ExecMore(s3, Decrement(0));
  }

  // The second attempt to unregister it panics.
  lemma RevivalCanPanic()
    ensures exists schedule :: Exec(schedule).Some? && Exec(schedule).value.panicked
  {
    var s4 := RevivalWaitsTwice();
    hide Exec;
    var s5 := s4 + [TryUnregister(0)];
    ExecMore(s4, TryUnregister(0));
    ExecMore(s5, TryUnregister(0));
  }

  // Or, if the name has been opened anew in between, takes the new store out
  // of the registry although it has a handle.
  lemma RevivalCanOrphan()
    ensures exists schedule, r :: Exec(schedule).Some? && Orphaned(Exec(schedule).value, r)
  {
    var s4 := RevivalWaitsTwice();
    hide Exec;
    var s5 := s4 + [TryUnregister(0)];
    ExecMore(s4, TryUnregister(0));
    var s6 := s5 + [Get];
    ExecMore(s5, Get);
    var s7 := s6 + [TryUnregister(0)];
    ExecMore(s6, TryUnregister(0));
    assert Orphaned(Exec(s7).value, 1);
  }

  // What every state should be: no panic, a backend is open exactly while its
  // store is registered, and a store in use is registered.
  predicate Intact(s: State) {
    && !s.panicked
    && (s.active.Some? ==> s.active.value < |s.stores|)
    && forall r :: 0 <= r < |s.stores| ==>
      && (s.stores[r].backendOpen <==> s.active == Some(r))
      && (s.stores[r].refCount > 0 ==> s.active == Some(r))
  }

  // The second half of a release that finds the count zero on a store whose
  // backend is closed already.
  predicate IsStale(s: State, step: Step) {
    step.TryUnregister? && step.r < |s.stores| && s.stores[step.r].refCount == 0 && !s.stores[step.r].backendOpen
  }

  // Exactly such a release breaks an intact state; anything else, a revival
  // included, keeps it.
  lemma HarmIsUnregisteringAClosedStore(s: State, step: Step)
    requires Intact(s) && Enabled(s, step)
    ensures Intact(Apply(s, step)) <==> !IsStale(s, step)
  {
    if IsStale(s, step) && s.active.Some? {
      assert Apply(s, step).stores[s.active.value].backendOpen;
    }
  }

  ghost predicate AlwaysIntact(schedule: seq<Step>) {
    forall k :: 0 <= k <= |schedule| && Exec(schedule[..k]).Some? ==> Intact(Exec(schedule[..k]).value)
  }

  ghost predicate NeverStale(schedule: seq<Step>) {
    forall k :: 0 <= k < |schedule| && Exec(schedule[..k]).Some? ==> !IsStale(Exec(schedule[..k]).value, schedule[k])
  }

  lemma {:induction false} ExecBefore(schedule: seq<Step>, k: nat)
    requires k <= |schedule| && Exec(schedule).Some?
    ensures Exec(schedule[..k]).Some?
  {
    if k == |schedule| {
      assert schedule[..k] == schedule;
    } else {
      ExecBefore(schedule[..|schedule| - 1], k);
      assert schedule[..|schedule| - 1][..k] == schedule[..k];
    }
  }

  lemma {:induction false} IntactUpTo(schedule: seq<Step>, k: nat)
    requires Exec(schedule).Some? && NeverStale(schedule) && k <= |schedule|
    ensures Exec(schedule[..k]).Some? && Intact(Exec(schedule[..k]).value)
  {
    hide Intact, IsStale, Enabled, Apply;
    ExecBefore(schedule, k);
    if k == 0 {
      StartIsIntact();
    } else {
      IntactUpTo(schedule, k - 1);
      assert schedule[..k][..k - 1] == schedule[..k - 1];
      HarmIsUnregisteringAClosedStore(Exec(schedule[..k - 1]).value, schedule[k - 1]);
    }
  }

  lemma StartIsIntact()
    ensures Exec([]) == Some(State([], None, false)) && Intact(Exec([]).value)
  {
  }

  lemma FreshUpTo(schedule: seq<Step>, k: nat)
    requires Exec(schedule).Some? && AlwaysIntact(schedule) && k < |schedule|
    ensures Exec(schedule[..k]).Some? && !IsStale(Exec(schedule[..k]).value, schedule[k])
  {
    ExecBefore(schedule, k);
    ExecBefore(schedule, k + 1);
    hide Intact, IsStale, Enabled, Apply;
    assert schedule[..k + 1][..k] == schedule[..k];
    HarmIsUnregisteringAClosedStore(Exec(schedule[..k]).value, schedule[k]);
  }

  // A schedule goes well at every step if and only if no release in it finds
  // the count zero on a store that is closed: a check of that flag under the
  // lock is what the code lacks.
  lemma IntactExactlyWithoutStaleRelease(schedule: seq<Step>)
    requires Exec(schedule).Some?
    ensures AlwaysIntact(schedule) <==> NeverStale(schedule)
  {
    hide Intact, IsStale, Exec;
    if NeverStale(schedule) {
      forall k | 0 <= k <= |schedule| ensures Exec(schedule[..k]).Some? && Intact(Exec(schedule[..k]).value) {
        IntactUpTo(schedule, k);
      }
    }
    if AlwaysIntact(schedule) {
      forall k | 0 <= k < |schedule|
        ensures Exec(schedule[..k]).Some? && !IsStale(Exec(schedule[..k]).value, schedule[k])
      {
        FreshUpTo(schedule, k);
      }
    }
  }
}
