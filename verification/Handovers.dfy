/**
 * Successive inputs on one resource, each with a client and an ACKer of its
 * own: a new input may add update operations while those of an older one still
 * wait for their ACK. The updates are numbered in the order they were created.
 */
module Handovers {
  import opened Documents

  datatype Op = Op(client: nat, delta: Json)

  datatype State = State(
    initial: Json,          // the cursor at the start
    created: seq<Op>,
    done: seq<bool>,        // which of them have been executed
    cursor: Json,
    source: int,            // the update the cursor comes from; -1 for the start
    pendingCursor: Json,
    active: int)            // activeCursorOperations

  // An ACK executes the update `last`, for itself and those of its client from
  // `first` on that are outstanding.
  datatype Step = Create(client: nat, delta: Json) | Execute(first: nat, last: nat)

  predicate IsStart(s: State) {
    && s.created == [] && s.done == [] && s.active == 0
    && s.cursor == s.initial && s.source == -1 && s.pendingCursor == Null
  }

  predicate Enabled(s: State, step: Step) {
    match step
    case Create(_, _) => |s.done| == |s.created|
    case Execute(first, last) => first <= last < |s.created| == |s.done| && !s.done[last]
  }

  // What is done after the ACK.
  function DoneAfter(s: State, first: nat, last: nat): seq<bool>
    requires last < |s.created| == |s.done|
  {
    seq(|s.done|, i requires 0 <= i < |s.done| =>
      s.done[i] || (first <= i <= last && s.created[i].client == s.created[last].client))
  }

  function Outstanding(done: seq<bool>): nat {
    if |done| == 0 then 0 else Outstanding(done[..|done| - 1]) + if done[|done| - 1] then 0 else 1
  }

  // createUpdateOp, and Execute with the number of updates the ACK covers.
  function Apply(s: State, step: Step): State
    requires Enabled(s, step)
  {
    match step
    case Create(client, delta) =>
      s.(created := s.created + [Op(client, delta)], done := s.done + [false],
         pendingCursor := delta, active := s.active + 1)
    case Execute(first, last) =>
      var done := DoneAfter(s, first, last);
      var n := Outstanding(s.done) - Outstanding(done);
      var t := s.(done := done, active := s.active - n);
      if t.active == 0 then t.(cursor := s.pendingCursor, source := |s.created| - 1, pendingCursor := Null)
      else t.(cursor := s.created[last].delta, source := last)
  }

  function Exec(start: State, schedule: seq<Step>): Option<State> {
    if |schedule| == 0 then Some(start)
    else
      var n := |schedule| - 1;
      match Exec(start, schedule[..n])
      case None => None
      case Some(s) => if Enabled(s, schedule[n]) then Some(Apply(s, schedule[n])) else None
  }

  // ----- what holds whatever the order

  predicate Inv(s: State) {
    && |s.done| == |s.created| && s.active == Outstanding(s.done)
    && s.pendingCursor == (if s.active == 0 then Null else s.created[|s.created| - 1].delta)
    && -1 <= s.source < |s.created|
    && (s.source >= 0 ==> s.done[s.source])
    && (s.source == -1 ==> forall i :: 0 <= i < |s.done| ==> !s.done[i])
    && s.cursor == (if s.source == -1 then s.initial else s.created[s.source].delta)
    && (s.active == 0 ==> s.source == |s.created| - 1)
  }

  lemma {:induction false} NoneOutstanding(done: seq<bool>)
    ensures Outstanding(done) == 0 <==> forall i :: 0 <= i < |done| ==> done[i]
  {
    if |done| == 0 {
    } else {
      var n := |done| - 1;
      NoneOutstanding(done[..n]);
      assert done == done[..n] + [done[n]];
    }
  }

  lemma OneMoreOutstanding(done: seq<bool>)
    ensures Outstanding(done + [false]) == Outstanding(done) + 1
  {
    assert (done + [false])[..|done|] == done;
  }

  lemma StepKeepsInv(s: State, step: Step)
    requires Inv(s) && Enabled(s, step)
    ensures Inv(Apply(s, step))
  {
    hide Outstanding;
    match step
    case Create(_, _) =>
      OneMoreOutstanding(s.done);
    case Execute(first, last) =>
      NoneOutstanding(s.done);
      NoneOutstanding(DoneAfter(s, first, last));
      assert DoneAfter(s, first, last)[last];
  }

  lemma {:induction false} EveryScheduleIsSafe(start: State, schedule: seq<Step>)
    requires IsStart(start) && Exec(start, schedule).Some?
    ensures Inv(Exec(start, schedule).value)
  {
    hide Enabled, Apply;
    if |schedule| == 0 {
    } else {
      hide Inv;
      var n := |schedule| - 1;
      EveryScheduleIsSafe(start, schedule[..n]);
      StepKeepsInv(Exec(start, schedule[..n]).value, schedule[n]);
    }
  }

  // Once nothing is outstanding the cursor is the last update created,
  // whichever way the ACKs came.
  lemma QuietIsLatest(start: State, schedule: seq<Step>)
    requires IsStart(start) && Exec(start, schedule).Some?
    ensures var s := Exec(start, schedule).value;
      s.active == 0 && s.created != [] ==> s.cursor == s.created[|s.created| - 1].delta
  {
    hide Exec;
    EveryScheduleIsSafe(start, schedule);
  }

  // ----- when the cursor is the last of the updates executed

  predicate Exact(s: State) {
    forall i :: 0 <= i < |s.done| && s.done[i] ==> i <= s.source
  }

  // The ACK of an older update after that of a newer one, with others still
  // outstanding, puts the cursor back.
  predicate GoesBack(s: State, step: Step) {
    step.Execute? && step.last < s.source && Enabled(s, step) && Outstanding(DoneAfter(s, step.first, step.last)) > 0
  }

  lemma OnlyOlderACKsGoBack(s: State, step: Step)
    requires Inv(s) && Exact(s) && Enabled(s, step)
    ensures Exact(Apply(s, step)) <==> !GoesBack(s, step)
  {
    hide Outstanding;
    if step.Execute? {
      var done := DoneAfter(s, step.first, step.last);
      assert forall i :: 0 <= i < |done| && done[i] ==> i <= step.last || s.done[i];
      if s.source >= 0 {
        assert done[s.source];
      }
    }
  }

  lemma {:induction false} ExecBefore(start: State, schedule: seq<Step>, k: nat)
    requires k <= |schedule| && Exec(start, schedule).Some?
    ensures Exec(start, schedule[..k]).Some?
  {
    hide Enabled, Apply;
    if k == |schedule| {
      assert schedule[..k] == schedule;
    } else {
      ExecBefore(start, schedule[..|schedule| - 1], k);
      assert schedule[..|schedule| - 1][..k] == schedule[..k];
    }
  }

  // The state before the step `k`, that step, and the state after it.
  lemma StepAt(start: State, schedule: seq<Step>, k: nat)
    requires IsStart(start) && Exec(start, schedule).Some? && k < |schedule|
    ensures var was, now := Exec(start, schedule[..k]), Exec(start, schedule[..k + 1]);
      was.Some? && Inv(was.value) && Enabled(was.value, schedule[k]) && now == Some(Apply(was.value, schedule[k]))
  {
    hide Enabled, Apply, Inv, IsStart;
    ExecBefore(start, schedule, k);
    ExecBefore(start, schedule, k + 1);
    EveryScheduleIsSafe(start, schedule[..k]);
    assert schedule[..k + 1][..k] == schedule[..k];
  }

  ghost predicate AlwaysExact(start: State, schedule: seq<Step>) {
    forall k :: 0 <= k <= |schedule| && Exec(start, schedule[..k]).Some? ==> Exact(Exec(start, schedule[..k]).value)
  }

  ghost predicate NeverGoesBack(start: State, schedule: seq<Step>) {
    forall k :: 0 <= k < |schedule| && Exec(start, schedule[..k]).Some? ==>
      !GoesBack(Exec(start, schedule[..k]).value, schedule[k])
  }

  lemma {:induction false} ExactUpTo(start: State, schedule: seq<Step>, k: nat)
    requires IsStart(start) && Exec(start, schedule).Some? && NeverGoesBack(start, schedule) && k <= |schedule|
    ensures Exec(start, schedule[..k]).Some? && Exact(Exec(start, schedule[..k]).value)
  {
    ExecBefore(start, schedule, k);
    if k == 0 {
      assert schedule[..0] == [];
    } else {
      hide Exec, Enabled, Apply, Inv, IsStart, Exact, GoesBack;
      ExactUpTo(start, schedule, k - 1);
      StepAt(start, schedule, k - 1);
      OnlyOlderACKsGoBack(Exec(start, schedule[..k - 1]).value, schedule[k - 1]);
    }
  }

  lemma NotBackAt(start: State, schedule: seq<Step>, k: nat)
    requires IsStart(start) && Exec(start, schedule).Some? && AlwaysExact(start, schedule) && k < |schedule|
    ensures Exec(start, schedule[..k]).Some? && !GoesBack(Exec(start, schedule[..k]).value, schedule[k])
  {
    hide Exec, Enabled, Apply, Inv, IsStart, Exact, GoesBack;
    StepAt(start, schedule, k);
    OnlyOlderACKsGoBack(Exec(start, schedule[..k]).value, schedule[k]);
  }

  // Throughout a schedule the cursor is the last of the updates executed if and
  // only if no ACK in it puts the cursor back.
  lemma ExactlyWithoutGoingBack(start: State, schedule: seq<Step>)
    requires IsStart(start) && Exec(start, schedule).Some?
    ensures AlwaysExact(start, schedule) <==> NeverGoesBack(start, schedule)
  {
    hide Exec, Exact, GoesBack, IsStart;
    if NeverGoesBack(start, schedule) {
      forall k | 0 <= k <= |schedule|
        ensures Exec(start, schedule[..k]).Some? && Exact(Exec(start, schedule[..k]).value)
      {
        ExactUpTo(start, schedule, k);
      }
    }
    if AlwaysExact(start, schedule) {
      forall k | 0 <= k < |schedule|
        ensures Exec(start, schedule[..k]).Some? && !GoesBack(Exec(start, schedule[..k]).value, schedule[k])
      {
        NotBackAt(start, schedule, k);
      }
    }
  }

  // ----- ACKs in the order of creation, across clients

  // The updates covered by the ACK are the first ones outstanding.
  predicate InOrder(s: State, step: Step) {
    step.Execute? && Enabled(s, step) ==> forall i :: 0 <= i < step.last ==> DoneAfter(s, step.first, step.last)[i]
  }

  ghost predicate AllInOrder(start: State, schedule: seq<Step>) {
    forall k :: 0 <= k < |schedule| && Exec(start, schedule[..k]).Some? ==>
      InOrder(Exec(start, schedule[..k]).value, schedule[k])
  }

  // The cursor after some updates, one after the other.
  function CursorAfter(initial: Json, ops: seq<Op>): Json {
    if |ops| == 0 then initial else ops[|ops| - 1].delta
  }

  // The first `k` updates have been executed, and the cursor is what they say.
  predicate Reported(s: State, k: nat) {
    && k <= |s.created| == |s.done|
    && (forall i :: 0 <= i < |s.done| ==> (s.done[i] <==> i < k))
    && s.source == k - 1 && s.cursor == CursorAfter(s.initial, s.created[..k])
  }

  lemma InOrderKeepsPrefix(s: State, step: Step, k: nat)
    requires Inv(s) && Enabled(s, step) && InOrder(s, step) && Reported(s, k)
    ensures Reported(Apply(s, step), if step.Execute? then step.last + 1 else k)
  {
    hide Outstanding;
    match step
    case Create(client, delta) =>
      assert (s.created + [Op(client, delta)])[..k] == s.created[..k];
    case Execute(first, last) =>
      var done := DoneAfter(s, first, last);
      NoneOutstanding(done);
      assert !s.done[last] && last >= k;
      assert forall i :: last < i < |done| ==> !done[i];
      assert s.created[..last + 1][last] == s.created[last];
      if last < |done| - 1 {
        assert !done[|done| - 1];
      }
  }

  // With the ACKs in the order of creation, across all clients, the cursor is
  // the last update of the joint prefix that has been reported.
  lemma {:induction false} InOrderIsExact(start: State, schedule: seq<Step>) returns (k: nat)
    requires IsStart(start) && Exec(start, schedule).Some? && AllInOrder(start, schedule)
    ensures Reported(Exec(start, schedule).value, k)
  {
    if |schedule| == 0 {
      k := 0;
    } else {
      hide Enabled, Apply, Inv, IsStart, InOrder, Reported;
      var n := |schedule| - 1;
      assert forall j :: 0 <= j <= n ==> schedule[..n][..j] == schedule[..j];
      k := InOrderIsExact(start, schedule[..n]);
      EveryScheduleIsSafe(start, schedule[..n]);
      InOrderKeepsPrefix(Exec(start, schedule[..n]).value, schedule[n], k);
      k := if schedule[n].Execute? then schedule[n].last + 1 else k;
    }
  }

  lemma ExecMore(start: State, schedule: seq<Step>, step: Step)
    requires Exec(start, schedule).Some? && Enabled(Exec(start, schedule).value, step)
    ensures Exec(start, schedule + [step]) == Some(Apply(Exec(start, schedule).value, step))
  {
    assert (schedule + [step])[..|schedule|] == schedule;
  }

  lemma OutstandingOfTwo(a: bool, b: bool)
    ensures Outstanding([a, b]) == (if a then 0 else 1) + if b then 0 else 1
  {
    assert [a, b][..1] == [a] && [a][..0] == [];
    assert Outstanding([a]) == if a then 0 else 1;
  }

  lemma OutstandingOf(a: bool, b: bool, c: bool)
    ensures Outstanding([a, b, c]) == (if a then 0 else 1) + (if b then 0 else 1) + if c then 0 else 1
  {
    assert [a, b, c][..2] == [a, b];
    OutstandingOfTwo(a, b);
  }

  // Two updates of an old input and one of a new one.
  lemma ThreeCreated(start: State, first: Json, second: Json, newer: Json) returns (schedule: seq<Step>)
    requires IsStart(start)
    ensures var end := Exec(start, schedule);
      && end.Some? && end.value.created == [Op(0, first), Op(0, second), Op(1, newer)]
      && end.value.done == [false, false, false] && end.value.active == 3
  {
    assert Exec(start, []) == Some(start);
    hide Exec, Outstanding;
    schedule := [] + [Create(0, first)];
    ExecMore(start, [], Create(0, first));
    ExecMore(start, schedule, Create(0, second));
    schedule := schedule + [Create(0, second)];
    ExecMore(start, schedule, Create(1, newer));
    schedule := schedule + [Create(1, newer)];
  }

  // The first event of the new input is dropped, and so reported at once, while
  // two updates of the old one wait for their ACK.
  lemma NewerIsReported(start: State, first: Json, second: Json, newer: Json) returns (schedule: seq<Step>)
    requires IsStart(start)
    ensures var end := Exec(start, schedule);
      && end.Some? && end.value.created == [Op(0, first), Op(0, second), Op(1, newer)]
      && end.value.done == [false, false, true] && end.value.active == 2 && end.value.cursor == newer
  {
    schedule := ThreeCreated(start, first, second, newer);
    hide Exec, Outstanding;
    OutstandingOf(false, false, false);
    OutstandingOf(false, false, true);
    assert DoneAfter(Exec(start, schedule).value, 0, 2) == [false, false, true];
    ExecMore(start, schedule, Execute(0, 2));
    schedule := schedule + [Execute(0, 2)];
  }

  // The ACK of the first update of the old input then puts its cursor in place
  // of the newer one.
  lemma OlderACKCanGoBack(start: State, first: Json, second: Json, newer: Json) returns (schedule: seq<Step>)
    requires IsStart(start)
    ensures var end := Exec(start, schedule);
      end.Some? && end.value.cursor == first && end.value.done == [true, false, true] && !Exact(end.value)
  {
    schedule := NewerIsReported(start, first, second, newer);
    hide Exec, Outstanding;
    OutstandingOf(false, false, true);
    OutstandingOf(true, false, true);
    assert DoneAfter(Exec(start, schedule).value, 0, 0) == [true, false, true];
    ExecMore(start, schedule, Execute(0, 0));
    schedule := schedule + [Execute(0, 0)];
    assert Exec(start, schedule).value.done[2];
  }
}
