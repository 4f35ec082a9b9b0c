/**
 * The registry of shared stores. Get and Close are atomic: a release is the
 * decrement of the reference count and the attempt to unregister in one step.
 */
module Registries {

  class SharedStore {
    const name: string
    var refCount: int
    // False once backend.Close has been called.
    var backendOpen: bool

    constructor (name: string)
      ensures this.name == name && refCount == 1 && backendOpen
    {
      this.name := name;
      refCount, backendOpen := 1, true;
    }
  }

  // A Store: the handle given out by Get.
  class Handle {
    const shared: SharedStore
    var closed: bool

    constructor (shared: SharedStore)
      ensures this.shared == shared && !closed
    {
      this.shared := shared;
      closed := false;
    }
  }

  ghost function Sharing(handles: set<Handle>, shared: SharedStore): set<Handle> {
    set h | h in handles && h.shared == shared
  }

  // How many of the handles share `shared`.
  ghost function Users(handles: set<Handle>, shared: SharedStore): nat {
    |Sharing(handles, shared)|
  }

  lemma UsersMore(handles: set<Handle>, handle: Handle, shared: SharedStore)
    requires handle !in handles
    ensures Users(handles + {handle}, shared) == Users(handles, shared) + if handle.shared == shared then 1 else 0
  {
    assert Sharing(handles + {handle}, shared) ==
           Sharing(handles, shared) + if handle.shared == shared then {handle} else {};
  }

  lemma UsersNone(handles: set<Handle>, shared: SharedStore)
    requires forall h :: h in handles ==> h.shared != shared
    ensures Users(handles, shared) == 0
  {
    assert Sharing(handles, shared) == {};
  }

  lemma UsersSome(handles: set<Handle>, handle: Handle)
    requires handle in handles
    ensures Users(handles, handle.shared) > 0
  {
    assert handle in Sharing(handles, handle.shared);
  }

  lemma UsersOfActive(handles: set<Handle>, handle: Handle, active: map<string, SharedStore>)
    requires handle !in handles
    ensures forall name :: name in active ==>
      Users(handles + {handle}, active[name]) ==
      Users(handles, active[name]) + if active[name] == handle.shared then 1 else 0
  {
    forall name | name in active
      ensures Users(handles + {handle}, active[name]) ==
              Users(handles, active[name]) + if active[name] == handle.shared then 1 else 0
    {
      UsersMore(handles, handle, active[name]);
    }
  }

  class Registry {
    var active: map<string, SharedStore>
    // The wait group that Registry.Close waits for.
    var wg: int

    // The handles that have not been closed.
    ghost var handles: set<Handle>
    // Successful calls of backend.Access, and calls of Close on what they returned.
    ghost var opens: nat
    ghost var closes: nat

    ghost predicate StoresOk()
      reads this, active.Values
    {
      forall name :: name in active ==>
        var s := active[name];
        s.name == name && s.backendOpen && s.refCount == Users(handles, s) && s.refCount > 0
    }

    ghost predicate HandlesOk()
      reads this, handles
    {
      forall h :: h in handles ==>
        !h.closed && h.shared.name in active && active[h.shared.name] == h.shared
    }

    // A store is active exactly while it has handles, its backend is open, and
    // the counts agree.
    ghost predicate Valid()
      reads this, active.Values, handles
    {
      StoresOk() && HandlesOk() && wg == |active| && opens == closes + |active|
    }

    constructor ()
      ensures Valid() && active == map[] && handles == {} && opens == closes == 0
    {
      active, wg, handles, opens, closes := map[], 0, {}, 0, 0;
    }

    // `accessible` is the outcome of backend.Access, should it be called.
    method Get(name: string, accessible: bool) returns (handle: Handle?)
      requires Valid()
      modifies this, if name in active then {active[name]} else {}
      ensures Valid() && closes == old(closes)
      ensures handle == null <==> name !in old(active) && !accessible
      ensures handle != null ==>
        fresh(handle) && handle.shared.name == name && handles == old(handles) + {handle}
      ensures handle != null && name in old(active) ==> active == old(active) && opens == old(opens)
      ensures handle != null && name !in old(active) ==>
        fresh(handle.shared) && active == old(active)[name := handle.shared] && opens == old(opens) + 1
      ensures handle == null ==>
        active == old(active) && handles == old(handles) && opens == old(opens)
    {
      if name in active {
        handle := Share(name);
        return;
      }
      if !accessible {
        return null;
      }
      handle := Open(name);
    }

    // newStore on a store that is active already
    method Share(name: string) returns (handle: Handle)
      requires Valid() && name in active
      modifies this`handles, active[name]
      ensures Valid()
      ensures fresh(handle) && handle.shared == active[name] && handles == old(handles) + {handle}
    {
      hide Users;
      var shared := active[name];
      shared.refCount := shared.refCount + 1;
      handle := new Handle(shared);
      ghost var was := handles;
      UsersOfActive(was, handle, active);
      handles := handles + {handle};
    }

    // newSharedStore and newStore
    method Open(name: string) returns (handle: Handle)
      requires Valid() && name !in active
      modifies this
      ensures Valid() && closes == old(closes) && opens == old(opens) + 1
      ensures fresh(handle) && fresh(handle.shared) && handle.shared.name == name
      ensures handles == old(handles) + {handle} && active == old(active)[name := handle.shared]
    {
      hide Users;
      var shared := new SharedStore(name);
      ghost var was := handles;
      UsersNone(was, shared);
      shared.refCount := shared.refCount + 1;
      handle := new Handle(shared);
      UsersMore(was, handle, shared);
      UsersOfActive(was, handle, active);
      active := active[name := shared];
      wg := wg + 1;
      opens := opens + 1;
      handles := handles + {handle};
      // the deferred release of the first reference never is the last one
      shared.refCount := shared.refCount - 1;
      assert shared.refCount != 0;
      Entered(handle);
    }

    // A new store with its first handle.
    twostate lemma Entered(new handle: Handle)
      requires old(Valid()) && fresh(handle) && fresh(handle.shared) && !handle.closed
      requires handle.shared.name !in old(active) && active == old(active)[handle.shared.name := handle.shared]
      requires handles == old(handles) + {handle}
      requires handle.shared.backendOpen && handle.shared.refCount == Users(handles, handle.shared) == 1
      requires forall name :: name in old(active) ==> unchanged(old(active)[name])
      requires forall h :: h in old(handles) ==> unchanged(h)
      requires forall name :: name in old(active) ==>
        Users(handles, old(active)[name]) == Users(old(handles), old(active)[name])
      ensures StoresOk() && HandlesOk()
    {
      hide Users;
    }

    // Store.Close. Only the first call for a handle succeeds.
    method Close(handle: Handle) returns (ok: bool)
      requires Valid() && (handle in handles || handle.closed)
      modifies this, handle`closed, handle.shared
      ensures Valid() && opens == old(opens)
      ensures ok <==> !old(handle.closed)
      ensures !ok ==> active == old(active) && handles == old(handles) && closes == old(closes)
      ensures ok ==> handle.closed && handles == old(handles) - {handle}
      ensures ok && Users(handles, handle.shared) > 0 ==>
        active == old(active) && closes == old(closes) && handle.shared.backendOpen
      ensures ok && Users(handles, handle.shared) == 0 ==>
        active == old(active) - {handle.shared.name} && closes == old(closes) + 1 && !handle.shared.backendOpen
    {
      if handle.closed {
        return false;
      }
      handle.closed := true;
      ok := true;
      Release(handle);
    }

    // The handle has been closed and not released yet.
    ghost predicate Leaving(handle: Handle)
      reads this, active.Values, handles
    {
      && handle in handles && handle.closed && StoresOk()
      && (forall h :: h in handles ==>
            (h == handle || !h.closed) && h.shared.name in active && active[h.shared.name] == h.shared)
      && wg == |active| && opens == closes + |active|
    }

    // The handle is gone, and its store too if it has no other.
    twostate lemma Left(handle: Handle)
      requires old(Leaving(handle)) && handles == old(handles) - {handle}
      requires forall h :: h in old(handles) ==> unchanged(h)
      requires forall name :: name in old(active) && old(active)[name] != handle.shared ==> unchanged(old(active)[name])
      requires forall name :: name in old(active) && old(active)[name] != handle.shared ==>
        Users(handles, old(active)[name]) == Users(old(handles), old(active)[name])
      requires handle.shared.refCount == Users(handles, handle.shared)
      requires if handle.shared.refCount > 0 then active == old(active) && handle.shared.backendOpen
               else active == old(active) - {handle.shared.name}
                    && forall h :: h in handles ==> h.shared != handle.shared
      ensures StoresOk() && HandlesOk()
    {
      hide Users;
    }

    // Release, tryUnregister and unregisterStore: the last release takes the
    // store out of the registry, where it still is.
    method Release(handle: Handle)
      requires Leaving(handle)
      modifies this, handle.shared
      ensures Valid() && opens == old(opens) && handles == old(handles) - {handle}
      ensures Users(handles, handle.shared) > 0 ==>
        active == old(active) && closes == old(closes) && handle.shared.backendOpen
      ensures Users(handles, handle.shared) == 0 ==>
        active == old(active) - {handle.shared.name} && closes == old(closes) + 1 && !handle.shared.backendOpen
    {
      hide Users;
      var shared := handle.shared;
      ghost var was := handles;
      ghost var rest := was - {handle};
      assert rest + {handle} == was;
      UsersOfActive(rest, handle, active);
      handles := rest;
      shared.refCount := shared.refCount - 1;
      if shared.refCount == 0 {
        assert shared.name in active; // otherwise: "removing an unknown store"
        forall h | h in rest ensures h.shared != shared {
          UsersSome(rest, h);
        }
        active := active - {shared.name};
        wg := wg - 1;
        shared.backendOpen := false;
        closes := closes + 1;
      }
      Left(handle);
    }
  }
}
