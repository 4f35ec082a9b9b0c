/**
 * One input on a resource, with the ACKer of its client: its goroutine creates
 * an update, puts it in the buffer and counts the event, while the ACK thread
 * runs. The callback for a slice executes the updates in it.
 */
module AckerCursors {
  import opened Documents
  import G = GapLists
  import A = AckerInterleaving
  import H = Handovers

  datatype State = State(
    acks: A.State,
    updates: seq<Option<Json>>,   // for each event, the update it carries, if any
    ops: H.State)

  datatype Step = Create(update: Option<Json>) | Ack(step: A.Step)

  predicate IsStart(s: State) {
    A.IsStart(s.acks) && |s.acks.producers| == 1 && s.updates == [] && H.IsStart(s.ops)
  }

  // How many of the first `n` events carry an update.
  function Index(updates: seq<Option<Json>>, n: nat): nat
    requires n <= |updates|
  {
    if n == 0 then 0 else Index(updates, n - 1) + if updates[n - 1].Some? then 1 else 0
  }

  // What the step hands to the callback.
  function Handed(s: A.State, step: A.Step): Option<A.Slice>
    requires A.Enabled(s, step)
  {
    var delivered := A.Apply(s, step).delivered;
    if |delivered| > |s.delivered| then Some(delivered[|delivered| - 1]) else None
  }

  // newInputACKHandler: the last update of the slice is executed for all of them.
  function Batch(updates: seq<Option<Json>>, slice: A.Slice): Option<H.Step>
    requires slice.from <= slice.to <= |updates|
  {
    var first, next := Index(updates, slice.from), Index(updates, slice.to);
    if first < next then Some(H.Execute(first, next - 1)) else None
  }

  predicate Enabled(s: State, step: Step) {
    match step
    case Create(update) =>
      && |s.updates| == s.acks.buffered && (forall p :: 0 <= p < |s.acks.producers| ==> s.acks.producers[p].Idle?)
      && (update.Some? ==> H.Enabled(s.ops, H.Create(0, update.value)))
    case Ack(step) =>
      && A.Enabled(s.acks, step)
      && (step.Buffer? ==> |s.updates| == s.acks.buffered + 1)
      && (Handed(s.acks, step).Some? ==>
            var slice := Handed(s.acks, step).value;
            && slice.from <= slice.to <= |s.updates|
            && (Batch(s.updates, slice).Some? ==> H.Enabled(s.ops, Batch(s.updates, slice).value)))
  }

  function Executed(ops: H.State, updates: seq<Option<Json>>, slice: A.Slice): H.State
    requires slice.from <= slice.to <= |updates|
    requires Batch(updates, slice).Some? ==> H.Enabled(ops, Batch(updates, slice).value)
  {
    if Batch(updates, slice).Some? then H.Apply(ops, Batch(updates, slice).value) else ops
  }

  function Apply(s: State, step: Step): State
    requires Enabled(s, step)
  {
    match step
    case Create(update) =>
      s.(updates := s.updates + [update],
         ops := if update.Some? then H.Apply(s.ops, H.Create(0, update.value)) else s.ops)
    case Ack(step) =>
      s.(acks := A.Apply(s.acks, step),
         ops := if Handed(s.acks, step).None? then s.ops
                else Executed(s.ops, s.updates, Handed(s.acks, step).value))
  }

  // The state after a schedule, if each of its steps can be taken.
  function Exec(start: State, schedule: seq<Step>): Option<State> {
    if |schedule| == 0 then Some(start)
    else
      var n := |schedule| - 1;
      match Exec(start, schedule[..n])
      case None => None
      case Some(s) => if Enabled(s, schedule[n]) then Some(Apply(s, schedule[n])) else None
  }

  // ----- the updates by their events

  lemma {:induction false} IndexGrows(updates: seq<Option<Json>>, m: nat, n: nat)
    requires m <= n <= |updates|
    ensures Index(updates, m) <= Index(updates, n)
    ensures m < n && updates[m].Some? ==> Index(updates, m) < Index(updates, n)
  {
    if m == n {
    } else {
      IndexGrows(updates, m, n - 1);
    }
  }

  lemma {:induction false} IndexStays(updates: seq<Option<Json>>, update: Option<Json>, n: nat)
    requires n <= |updates|
    ensures Index(updates + [update], n) == Index(updates, n)
  {
    if n == 0 {
    } else {
      IndexStays(updates, update, n - 1);
    }
  }

  // The event that carries the update `j`.
  lemma {:induction false} EventOf(updates: seq<Option<Json>>, n: nat, j: nat) returns (i: nat)
    requires n <= |updates| && j < Index(updates, n)
    ensures i < n && updates[i].Some? && Index(updates, i) == j
  {
    if j == Index(updates, n - 1) {
      i := n - 1;
    } else {
      i := EventOf(updates, n - 1, j);
    }
  }

  // An update is in the batch for a slice just if its event is in the slice.
  lemma InBatch(updates: seq<Option<Json>>, slice: A.Slice, i: nat)
    requires slice.from <= slice.to <= |updates| && i < |updates| && updates[i].Some?
    ensures slice.from <= i < slice.to <==>
            Index(updates, slice.from) <= Index(updates, i) < Index(updates, slice.to)
  {
    IndexGrows(updates, if slice.from <= i then slice.from else i, if slice.from <= i then i else slice.from);
    IndexGrows(updates, if slice.to <= i then slice.to else i, if slice.to <= i then i else slice.to);
  }

  // The callback for some slice has got the value of the event.
  predicate Delivered(slices: seq<A.Slice>, i: nat) {
    exists k :: 0 <= k < |slices| && slices[k].from <= i < slices[k].to
  }

  lemma DeliveredMore(slices: seq<A.Slice>, slice: A.Slice, i: nat)
    ensures Delivered(slices + [slice], i) <==> Delivered(slices, i) || slice.from <= i < slice.to
  {
    var more := slices + [slice];
    assert more[|slices|] == slice;
    assert forall k :: 0 <= k < |slices| ==> more[k] == slices[k];
  }

  // ----- the invariant

  // The update of the event is the operation with its number, executed just if
  // the callback has got it.
  predicate Matches(s: State, i: nat)
    requires i < |s.updates| && s.updates[i].Some?
  {
    var j := Index(s.updates, i);
    && j < |s.ops.created| == |s.ops.done|
    && s.ops.created[j] == H.Op(0, s.updates[i].value)
    && (s.ops.done[j] <==> Delivered(s.acks.delivered, i))
  }

  predicate Joined(s: State) {
    && s.acks.buffered <= |s.updates|
    && |s.ops.created| == |s.ops.done| == Index(s.updates, |s.updates|)
    && forall i :: 0 <= i < |s.updates| && s.updates[i].Some? ==> Matches(s, i)
  }

  predicate Inv(s: State) {
    A.Inv(s.acks) && H.Inv(s.ops) && Joined(s)
  }

  // What is handed to the callback has been buffered and not been delivered.
  lemma HandedIsNew(s: A.State, step: A.Step)
    requires A.Inv(s) && A.Enabled(s, step) && Handed(s, step).Some?
    ensures var slice := Handed(s, step).value;
      && A.Apply(s, step).delivered == s.delivered + [slice] && slice.from < slice.to <= s.buffered
      && forall i :: slice.from <= i < slice.to ==> !Delivered(s.delivered, i)
  {
    hide A.ProducerPlaced, A.AckerPlaced, A.Exact, A.WithinBounds, A.LockedByProducer, A.LockedByAcker;
    A.StepKeepsInv(s, step);
  }

  lemma HandedIsAll(s: A.State, step: A.Step)
    requires A.Enabled(s, step) && Handed(s, step).None?
    ensures A.Apply(s, step).delivered == s.delivered
  {
  }

  // None of the updates in the batch has been executed.
  lemma BatchIsOutstanding(s: State, slice: A.Slice)
    requires Joined(s) && slice.from <= slice.to <= |s.updates|
    requires forall i :: slice.from <= i < slice.to ==> !Delivered(s.acks.delivered, i)
    ensures Index(s.updates, slice.to) <= |s.ops.done|
    ensures forall j :: Index(s.updates, slice.from) <= j < Index(s.updates, slice.to) ==> !s.ops.done[j]
  {
    hide Delivered;
    IndexGrows(s.updates, slice.to, |s.updates|);
    forall j | Index(s.updates, slice.from) <= j < Index(s.updates, slice.to) ensures !s.ops.done[j] {
      var i := EventOf(s.updates, slice.to, j);
      InBatch(s.updates, slice, i);
      assert Matches(s, i);
    }
  }

  // The part `first`, up to and without `next`, is done and was not before.
  lemma {:induction false} OutstandingLess(was: seq<bool>, done: seq<bool>, first: nat, next: nat)
    requires |was| == |done| && first <= next <= |was|
    requires forall j :: 0 <= j < |was| ==> (done[j] <==> was[j] || first <= j < next)
    requires forall j :: first <= j < next ==> !was[j]
    ensures H.Outstanding(was) == H.Outstanding(done) + next - first
  {
    if |was| == 0 {
    } else {
      var n := |was| - 1;
      OutstandingLess(was[..n], done[..n], if first <= n then first else n, if next <= n then next else n);
    }
  }

  // The number of updates counted in the batch is the number of those it
  // executes, and they are all outstanding.
  lemma BatchIsExact(s: State, slice: A.Slice)
    requires Joined(s) && slice.from <= slice.to <= |s.updates|
    requires forall i :: slice.from <= i < slice.to ==> !Delivered(s.acks.delivered, i)
    ensures Batch(s.updates, slice).Some? ==>
              && H.Enabled(s.ops, Batch(s.updates, slice).value)
              && H.Outstanding(s.ops.done) == H.Outstanding(Executed(s.ops, s.updates, slice).done)
                                              + Index(s.updates, slice.to) - Index(s.updates, slice.from)
  {
    hide Delivered, H.Outstanding;
    BatchIsOutstanding(s, slice);
    var first, next := Index(s.updates, slice.from), Index(s.updates, slice.to);
    if first < next {
      AllOneClient(s);
      OutstandingLess(s.ops.done, H.DoneAfter(s.ops, first, next - 1), first, next);
    }
  }

  lemma AllOneClient(s: State)
    requires Joined(s)
    ensures forall j :: 0 <= j < |s.ops.created| ==> s.ops.created[j].client == 0
  {
    forall j | 0 <= j < |s.ops.created| ensures s.ops.created[j].client == 0 {
      var i := EventOf(s.updates, |s.updates|, j);
      assert Matches(s, i);
    }
  }

  lemma CreateKeepsInv(s: State, update: Option<Json>)
    requires Inv(s) && Enabled(s, Create(update))
    ensures Inv(Apply(s, Create(update)))
  {
    hide A.Inv, H.Inv, Delivered;
    var t := Apply(s, Create(update));
    if update.Some? {
      H.StepKeepsInv(s.ops, H.Create(0, update.value));
    }
    IndexStays(s.updates, update, |s.updates|);
    forall i | 0 <= i < |t.updates| && t.updates[i].Some? ensures Matches(t, i) {
      IndexStays(s.updates, update, i);
      if i < |s.updates| {
        assert Matches(s, i);
      } else {
        NotYetDelivered(s, i);
      }
    }
  }

  lemma NotYetDelivered(s: State, i: nat)
    requires A.Inv(s.acks) && s.acks.buffered <= i
    ensures !Delivered(s.acks.delivered, i)
  {
  }

  lemma DeliverKeepsInv(s: State, t: State, slice: A.Slice)
    requires Inv(s) && A.Inv(t.acks) && slice.from <= slice.to <= |s.updates|
    requires forall i :: slice.from <= i < slice.to ==> !Delivered(s.acks.delivered, i)
    requires Batch(s.updates, slice).Some? ==> H.Enabled(s.ops, Batch(s.updates, slice).value)
    requires t.updates == s.updates && t.ops == Executed(s.ops, s.updates, slice)
    requires t.acks.buffered == s.acks.buffered && t.acks.delivered == s.acks.delivered + [slice]
    ensures Inv(t)
  {
    hide A.Inv, H.Inv, Delivered, H.Outstanding;
    if Batch(s.updates, slice).Some? {
      H.StepKeepsInv(s.ops, Batch(s.updates, slice).value);
    }
    AllOneClient(s);
    forall i | 0 <= i < |t.updates| && t.updates[i].Some? ensures Matches(t, i) {
      assert Matches(s, i);
      InBatch(s.updates, slice, i);
      DeliveredMore(s.acks.delivered, slice, i);
    }
  }

  // The callback can always run: what the ACKer does is never held up by the updates.
  lemma CallbackIsEnabled(s: State, step: A.Step)
    requires Inv(s) && A.Enabled(s.acks, step) && (step.Buffer? ==> |s.updates| == s.acks.buffered + 1)
    ensures Enabled(s, Ack(step))
  {
    hide A.Inv, H.Inv, A.Enabled, A.Apply, Handed, Delivered;
    if Handed(s.acks, step).Some? {
      HandedIsNew(s.acks, step);
      BatchIsExact(s, Handed(s.acks, step).value);
    }
  }

  lemma BufferedBy(s: A.State, step: A.Step)
    requires A.Enabled(s, step)
    ensures A.Apply(s, step).buffered == s.buffered + if step.Buffer? then 1 else 0
    ensures step.Buffer? ==> Handed(s, step).None?
  {
  }

  lemma AckKeepsInv(s: State, step: A.Step)
    requires Inv(s) && Enabled(s, Ack(step))
    ensures Inv(Apply(s, Ack(step)))
  {
    hide A.Inv, H.Inv, A.Enabled, A.Apply, Handed, Delivered, Executed, Batch;
    var t := Apply(s, Ack(step));
    A.StepKeepsInv(s.acks, step);
    BufferedBy(s.acks, step);
    if Handed(s.acks, step).Some? {
      HandedIsNew(s.acks, step);
      DeliverKeepsInv(s, t, Handed(s.acks, step).value);
    } else {
      HandedIsAll(s.acks, step);
      assert forall i :: 0 <= i < |s.updates| && s.updates[i].Some? && Matches(s, i) ==> Matches(t, i);
    }
  }

  lemma StartIsSafe(s: State)
    requires IsStart(s)
    ensures Inv(s) && H.Exact(s.ops)
  {
    A.StartIsSafe(s.acks);
  }

  lemma StepKeepsInv(s: State, step: Step)
    requires Inv(s) && Enabled(s, step)
    ensures Inv(Apply(s, step))
  {
    hide Inv, Enabled, Apply;
    match step
    case Create(update) => CreateKeepsInv(s, update);
    case Ack(step) => AckKeepsInv(s, step);
  }

  // In every schedule the updates executed are just those of the events whose
  // values the callbacks have got.
  lemma {:induction false} EveryScheduleIsSafe(start: State, schedule: seq<Step>)
    requires IsStart(start) && Exec(start, schedule).Some?
    ensures Inv(Exec(start, schedule).value)
  {
    hide Inv, Apply, Enabled, IsStart;
    if |schedule| == 0 {
      StartIsSafe(start);
    } else {
      var n := |schedule| - 1;
      EveryScheduleIsSafe(start, schedule[..n]);
      StepKeepsInv(Exec(start, schedule[..n]).value, schedule[n]);
    }
  }

  // ----- when the cursor goes back

  // The event `i` carries an update.
  predicate Carries(s: State, i: int) {
    0 <= i < |s.updates| && s.updates[i].Some?
  }

  // A callback gets an update behind one that has been executed, and leaves
  // another one outstanding.
  ghost predicate PutsBack(s: State, step: Step) {
    && step.Ack? && A.Enabled(s.acks, step.step) && Handed(s.acks, step.step).Some?
    && var slice := Handed(s.acks, step.step).value;
    && (exists i :: slice.from <= i < slice.to && Carries(s, i))
    && (exists i :: i >= slice.to && Carries(s, i) && Delivered(s.acks.delivered, i))
    && (exists i :: Carries(s, i) && !Delivered(s.acks.delivered + [slice], i))
  }

  lemma AllExecuted(s: State)
    requires Joined(s)
    ensures H.Outstanding(s.ops.done) == 0 <==> forall i :: Carries(s, i) ==> Delivered(s.acks.delivered, i)
  {
    hide Delivered, H.Outstanding;
    H.NoneOutstanding(s.ops.done);
    if H.Outstanding(s.ops.done) == 0 {
      forall i | Carries(s, i) ensures Delivered(s.acks.delivered, i) {
        assert Matches(s, i);
      }
    } else {
      var j :| 0 <= j < |s.ops.done| && !s.ops.done[j];
      var i := EventOf(s.updates, |s.updates|, j);
      assert Matches(s, i) && Carries(s, i);
    }
  }

  // With the cursor at the newest update executed, it comes from behind the
  // slice just if the callbacks have got an update from behind it.
  lemma ComesFromBehind(s: State, slice: A.Slice)
    requires Inv(s) && H.Exact(s.ops) && slice.from <= slice.to <= |s.updates|
    ensures s.ops.source >= Index(s.updates, slice.to) <==>
            exists i :: i >= slice.to && Carries(s, i) && Delivered(s.acks.delivered, i)
  {
    hide A.Inv, Delivered, H.Outstanding;
    if s.ops.source >= Index(s.updates, slice.to) {
      var i := EventOf(s.updates, |s.updates|, s.ops.source);
      assert Matches(s, i) && Carries(s, i);
      if i < slice.to {
        IndexGrows(s.updates, i, slice.to);
      }
    } else if i :| i >= slice.to && Carries(s, i) && Delivered(s.acks.delivered, i) {
      assert Matches(s, i);
      IndexGrows(s.updates, slice.to, i);
    }
  }

  // A slice has a batch just if it has an update.
  lemma HasBatch(s: State, slice: A.Slice)
    requires slice.from <= slice.to <= |s.updates|
    ensures Batch(s.updates, slice).Some? <==> exists i :: slice.from <= i < slice.to && Carries(s, i)
  {
    var first, next := Index(s.updates, slice.from), Index(s.updates, slice.to);
    if first < next {
      var i := EventOf(s.updates, slice.to, first);
      InBatch(s.updates, slice, i);
      assert Carries(s, i);
    } else if i :| slice.from <= i < slice.to && Carries(s, i) {
      InBatch(s.updates, slice, i);
    }
  }

  lemma DeliversExactly(s: State, step: A.Step)
    requires Inv(s) && H.Exact(s.ops) && Enabled(s, Ack(step)) && Handed(s.acks, step).Some?
    ensures H.Exact(Apply(s, Ack(step)).ops) <==> !PutsBack(s, Ack(step))
  {
    hide A.Inv, H.Inv, A.Enabled, A.Apply, Handed, Delivered, H.Outstanding, H.Exact;
    var slice, t := Handed(s.acks, step).value, Apply(s, Ack(step));
    HandedIsNew(s.acks, step);
    AckKeepsInv(s, step);
    HasBatch(s, slice);
    ComesFromBehind(s, slice);
    AllExecuted(t);
    if Batch(s.updates, slice).Some? {
      H.OnlyOlderACKsGoBack(s.ops, Batch(s.updates, slice).value);
      assert forall i :: Carries(s, i) <==> Carries(t, i);
    }
  }

  // The cursor stops being the newest update executed exactly by such a callback.
  lemma OnlyCallbacksPutBack(s: State, step: Step)
    requires Inv(s) && H.Exact(s.ops) && Enabled(s, step)
    ensures H.Exact(Apply(s, step).ops) <==> !PutsBack(s, step)
  {
    hide A.Inv, H.Inv, Joined, A.Enabled, A.Apply, Handed, Delivered, H.Outstanding, H.Exact;
    match step
    case Create(update) => {
      if update.Some? {
        H.OnlyOlderACKsGoBack(s.ops, H.Create(0, update.value));
      }
    }
    case Ack(step) => {
      if Handed(s.acks, step).Some? {
        DeliversExactly(s, step);
      }
    }
  }

  lemma HandedBy(s: A.State, step: A.Step)
    requires A.Enabled(s, step) && Handed(s, step).Some?
    ensures if step == A.AckCall then s.acker.Calling? && Handed(s, step).value == s.acker.slice
            else Handed(s, step).value == A.Slice(s.reported, s.reported + 1)
    ensures step == A.AckCall ==>
              var t := A.Apply(s, step); t.acker.Resting? && t.reported == s.reported && |t.delivered| > 0
                                         && t.delivered[|t.delivered| - 1] == s.acker.slice
  {
  }

  lemma DeliveredIsReported(s: A.State, i: nat)
    requires A.Inv(s) && Delivered(s.delivered, i)
    ensures i < s.reported
  {
  }

  // Only a callback that a drop has overtaken can do so.
  lemma PutBackIsOvertaken(s: State, step: Step)
    requires Inv(s) && Enabled(s, step) && PutsBack(s, step)
    ensures step == Ack(A.AckCall) && !A.InSequence(A.Apply(s.acks, A.AckCall))
  {
    hide A.Inv, H.Inv, Joined, A.Enabled, A.Apply, Handed, Delivered;
    var slice := Handed(s.acks, step.step).value;
    HandedBy(s.acks, step.step);
    var i :| i >= slice.to && Carries(s, i) && Delivered(s.acks.delivered, i);
    DeliveredIsReported(s.acks, i);
  }

  lemma {:induction false} ExecBefore(start: State, schedule: seq<Step>, k: nat)
    requires k <= |schedule| && Exec(start, schedule).Some?
    ensures Exec(start, schedule[..k]).Some?
  {
    hide Enabled, Apply;
    if k == |schedule| {
      assert schedule[..k] == schedule;
    } else {
      ExecBefore(start, schedule[..|schedule| - 1], k);
      assert schedule[..|schedule| - 1][..k] == schedule[..k];
    }
  }

  // The state before the step `k`, that step, and the state after it.
  lemma StepAt(start: State, schedule: seq<Step>, k: nat)
    requires IsStart(start) && Exec(start, schedule).Some? && k < |schedule|
    ensures var was, now := Exec(start, schedule[..k]), Exec(start, schedule[..k + 1]);
      was.Some? && Inv(was.value) && Enabled(was.value, schedule[k]) && now == Some(Apply(was.value, schedule[k]))
  {
    hide Enabled, Apply, Inv, IsStart;
    ExecBefore(start, schedule, k);
    ExecBefore(start, schedule, k + 1);
    EveryScheduleIsSafe(start, schedule[..k]);
    assert schedule[..k + 1][..k] == schedule[..k];
  }

  ghost predicate AlwaysNewest(start: State, schedule: seq<Step>) {
    forall k :: 0 <= k <= |schedule| && Exec(start, schedule[..k]).Some? ==>
      H.Exact(Exec(start, schedule[..k]).value.ops)
  }

  ghost predicate NeverPutsBack(start: State, schedule: seq<Step>) {
    forall k :: 0 <= k < |schedule| && Exec(start, schedule[..k]).Some? ==>
      !PutsBack(Exec(start, schedule[..k]).value, schedule[k])
  }

  // Throughout a schedule the cursor is the newest update executed if and only
  // if no callback in it puts the cursor back.
  lemma {:induction false} NewestExactlyWithoutPutBack(start: State, schedule: seq<Step>)
    requires IsStart(start) && Exec(start, schedule).Some?
    ensures AlwaysNewest(start, schedule) <==> NeverPutsBack(start, schedule)
  {
    hide Inv, Apply, Enabled, IsStart, H.Exact, PutsBack;
    if |schedule| == 0 {
      StartIsSafe(start);
      assert schedule[..0] == schedule;
    } else {
      var n := |schedule| - 1;
      NewestExactlyWithoutPutBack(start, schedule[..n]);
      EveryScheduleIsSafe(start, schedule[..n]);
      assert schedule[..n + 1] == schedule && schedule[..n][..n] == schedule[..n];
      assert forall k :: 0 <= k <= n ==> schedule[..n][..k] == schedule[..k];
      if AlwaysNewest(start, schedule[..n]) {
        OnlyCallbacksPutBack(Exec(start, schedule[..n]).value, schedule[n]);
      }
    }
  }

  // In particular it is as long as the callbacks get the values in the order of
  // the buffer.
  lemma NewestInSequence(start: State, schedule: seq<Step>)
    requires IsStart(start) && Exec(start, schedule).Some?
    requires forall k :: 0 <= k <= |schedule| && Exec(start, schedule[..k]).Some? ==>
               A.InSequence(Exec(start, schedule[..k]).value.acks)
    ensures AlwaysNewest(start, schedule)
  {
    hide Exec, A.InSequence, H.Exact, PutsBack, IsStart;
    forall k | 0 <= k < |schedule| && Exec(start, schedule[..k]).Some?
      ensures !PutsBack(Exec(start, schedule[..k]).value, schedule[k])
    {
      StepAt(start, schedule, k);
      if PutsBack(Exec(start, schedule[..k]).value, schedule[k]) {
        PutBackIsOvertaken(Exec(start, schedule[..k]).value, schedule[k]);
      }
    }
    NewestExactlyWithoutPutBack(start, schedule);
  }

  // ----- an input whose cursor goes back

  lemma ExecMore(start: State, schedule: seq<Step>, step: Step)
    requires Exec(start, schedule).Some? && Enabled(Exec(start, schedule).value, step)
    ensures Exec(start, schedule + [step]) == Some(Apply(Exec(start, schedule).value, step))
  {
    assert (schedule + [step])[..|schedule|] == schedule;
  }

  lemma AckMore(start: State, schedule: seq<Step>, step: A.Step)
    requires Exec(start, schedule).Some? && A.Enabled(Exec(start, schedule).value.acks, step)
    requires var s := Exec(start, schedule).value;
      && A.Apply(s.acks, step).delivered == s.acks.delivered
      && (step.Buffer? ==> |s.updates| == s.acks.buffered + 1)
    ensures var s := Exec(start, schedule).value;
      Exec(start, schedule + [Ack(step)]) == Some(s.(acks := A.Apply(s.acks, step)))
  {
    hide Exec, A.Enabled, A.Apply;
    ExecMore(start, schedule, Ack(step));
  }

  // What the ACKer does without a callback can be part of a schedule.
  lemma {:induction false} AcksMore(start: State, schedule: seq<Step>, steps: seq<A.Step>) returns (longer: seq<Step>)
    requires Exec(start, schedule).Some? && A.Exec(Exec(start, schedule).value.acks, steps).Some?
    requires var s := Exec(start, schedule).value; var acks := A.Exec(s.acks, steps).value;
      && acks.delivered == s.acks.delivered && acks.buffered <= |s.updates| == s.acks.buffered + 1
    ensures var s := Exec(start, schedule).value;
      Exec(start, longer) == Some(s.(acks := A.Exec(s.acks, steps).value))
  {
    if |steps| == 0 {
      longer := schedule;
    } else {
      hide Exec, A.Enabled, A.Apply;
      var s, n := Exec(start, schedule).value, |steps| - 1;
      Extends(s.acks, steps[..n]);
      Extends(A.Exec(s.acks, steps[..n]).value, [steps[n]]);
      assert [steps[n]][..0] == [];
      longer := AcksMore(start, schedule, steps[..n]);
      AckMore(start, longer, steps[n]);
      longer := longer + [Ack(steps[n])];
    }
  }

  lemma StepExtends(s: A.State, step: A.Step)
    requires A.Enabled(s, step)
    ensures s.delivered <= A.Apply(s, step).delivered
    ensures A.Apply(s, step).buffered == s.buffered + if step.Buffer? then 1 else 0
  {
  }

  lemma {:induction false} Extends(s: A.State, steps: seq<A.Step>)
    requires A.Exec(s, steps).Some?
    ensures s.delivered <= A.Exec(s, steps).value.delivered && s.buffered <= A.Exec(s, steps).value.buffered
  {
    hide A.Enabled, A.Apply;
    if |steps| == 0 {
    } else {
      var n := |steps| - 1;
      Extends(s, steps[..n]);
      StepExtends(A.Exec(s, steps[..n]).value, steps[n]);
    }
  }

  // The first event is published and ACKed, and its value cut off the buffer.
  lemma FirstIsAcked(start: State, first: Json) returns (schedule: seq<Step>)
    requires IsStart(start)
    ensures var end := Exec(start, schedule);
      && end.Some? && end.value.updates == [Some(first)] && A.OneAcked(end.value.acks)
      && end.value.ops.created == [H.Op(0, first)] && end.value.ops.done == [false] && end.value.ops.active == 1
  {
    assert Exec(start, []) == Some(start);
    hide Exec, A.Exec, H.Outstanding;
    ExecMore(start, [], Create(Some(first)));
    var steps := A.OneIsAcked(start.acks);
    schedule := AcksMore(start, [] + [Create(Some(first))], steps);
  }

  // The state after the value in second place has been handed to its callback
  // before the one in first place.
  predicate SecondIsAhead(acks: A.State) {
    && acks.acker == A.Calling(A.Slice(0, 1)) && acks.delivered == [A.Slice(1, 2)] && acks.panic == A.NoPanic
    && acks.producers == [A.Idle] && acks.head < |acks.nodes| && |acks.values| == 1 && acks.buffered == 2
  }

  lemma DropsAhead(acks: A.State)
    requires A.OneAcked(acks)
    ensures A.Enabled(acks, A.Buffer(0))
    ensures var later := A.Apply(acks, A.Buffer(0));
      && later.delivered == acks.delivered && A.Enabled(later, A.DropBegin(0))
      && SecondIsAhead(A.Apply(later, A.DropBegin(0))) && Handed(later, A.DropBegin(0)) == Some(A.Slice(1, 2))
  {
  }

  lemma IndexOf(updates: seq<Option<Json>>, n: nat)
    requires n <= |updates| && forall i :: 0 <= i < n ==> updates[i].Some?
    ensures Index(updates, n) == n
  {
  }

  lemma SecondExecuted(ops: H.State, first: Json, second: Json)
    requires ops.created == [H.Op(0, first), H.Op(0, second)] && ops.done == [false, false] && ops.active == 2
    ensures H.Enabled(ops, H.Execute(1, 1))
    ensures var later := H.Apply(ops, H.Execute(1, 1));
      later.created == ops.created && later.done == [false, true] && later.active == 1 && later.cursor == second
  {
    hide H.Outstanding;
    H.OutstandingOfTwo(false, false);
    H.OutstandingOfTwo(false, true);
    assert H.DoneAfter(ops, 1, 1) == [false, true];
  }

  lemma FirstExecuted(ops: H.State, first: Json, second: Json, third: Json)
    requires ops.created == [H.Op(0, first), H.Op(0, second), H.Op(0, third)]
    requires ops.done == [false, true, false] && ops.active == 2
    ensures H.Enabled(ops, H.Execute(0, 0))
    ensures var later := H.Apply(ops, H.Execute(0, 0));
      later.done == [true, true, false] && later.cursor == first && !H.Exact(later)
  {
    hide H.Outstanding;
    H.OutstandingOf(false, true, false);
    H.OutstandingOf(true, true, false);
    assert H.DoneAfter(ops, 0, 0) == [true, true, false];
    assert H.Apply(ops, H.Execute(0, 0)).done[1];
  }

  // The goroutine goes on with the next event.
  lemma SecondIsBuffered(start: State, first: Json, second: Json) returns (schedule: seq<Step>)
    requires IsStart(start)
    ensures var end := Exec(start, schedule);
      && end.Some? && end.value.updates == [Some(first), Some(second)]
      && A.Enabled(end.value.acks, A.DropBegin(0)) && SecondIsAhead(A.Apply(end.value.acks, A.DropBegin(0)))
      && Handed(end.value.acks, A.DropBegin(0)) == Some(A.Slice(1, 2))
      && end.value.ops.created == [H.Op(0, first), H.Op(0, second)] && end.value.ops.done == [false, false]
      && end.value.ops.active == 2
  {
    schedule := FirstIsAcked(start, first);
    hide Exec, H.Outstanding, A.Enabled, A.Apply, SecondIsAhead, Handed;
    ExecMore(start, schedule, Create(Some(second)));
    schedule := schedule + [Create(Some(second))];
    DropsAhead(Exec(start, schedule).value.acks);
    AckMore(start, schedule, A.Buffer(0));
    schedule := schedule + [Ack(A.Buffer(0))];
    assert Exec(start, schedule).value.ops.done == [false, false];
  }

  // Before its callback runs, the next event is dropped and so reported at once.
  lemma SecondIsDropped(start: State, first: Json, second: Json) returns (schedule: seq<Step>)
    requires IsStart(start)
    ensures var end := Exec(start, schedule);
      && end.Some? && end.value.updates == [Some(first), Some(second)] && SecondIsAhead(end.value.acks)
      && end.value.ops.created == [H.Op(0, first), H.Op(0, second)] && end.value.ops.done == [false, true]
      && end.value.ops.active == 1 && end.value.ops.cursor == second
  {
    schedule := SecondIsBuffered(start, first, second);
    hide Exec, H.Outstanding, H.Apply, H.Enabled, A.Enabled, A.Apply, SecondIsAhead, Handed;
    var s := Exec(start, schedule).value;
    IndexOf(s.updates, 1);
    IndexOf(s.updates, 2);
    SecondExecuted(s.ops, first, second);
    ExecMore(start, schedule, Ack(A.DropBegin(0)));
    schedule := schedule + [Ack(A.DropBegin(0))];
  }

  lemma CallsFirst(acks: A.State)
    requires SecondIsAhead(acks)
    ensures A.Enabled(acks, A.AckCall) && Handed(acks, A.AckCall) == Some(A.Slice(0, 1))
  {
  }

  // A third update is created.
  lemma ThirdIsCreated(start: State, first: Json, second: Json, third: Json) returns (schedule: seq<Step>)
    requires IsStart(start)
    ensures var end := Exec(start, schedule);
      && end.Some? && end.value.updates == [Some(first), Some(second), Some(third)] && SecondIsAhead(end.value.acks)
      && end.value.ops.created == [H.Op(0, first), H.Op(0, second), H.Op(0, third)]
      && end.value.ops.done == [false, true, false] && end.value.ops.active == 2
  {
    schedule := SecondIsDropped(start, first, second);
    hide Exec, H.Outstanding, Handed;
    ExecMore(start, schedule, Create(Some(third)));
    schedule := schedule + [Create(Some(third))];
    assert Exec(start, schedule).value.ops.done == [false, true, false];
  }

  // Then the callback for the first one puts the cursor back behind the second.
  lemma CallbackCanPutBack(start: State, first: Json, second: Json, third: Json) returns (schedule: seq<Step>)
    requires IsStart(start)
    ensures var end := Exec(start, schedule);
      end.Some? && end.value.ops.cursor == first && end.value.ops.done == [true, true, false] && !H.Exact(end.value.ops)
  {
    schedule := ThirdIsCreated(start, first, second, third);
    hide Exec, H.Outstanding, A.Enabled, A.Apply, Handed, H.Apply, H.Enabled, H.Exact, SecondIsAhead;
    var s := Exec(start, schedule).value;
    IndexOf(s.updates, 0);
    IndexOf(s.updates, 1);
    FirstExecuted(s.ops, first, second, third);
    CallsFirst(s.acks);
    ExecMore(start, schedule, Ack(A.AckCall));
    schedule := schedule + [Ack(A.AckCall)];
  }
}
