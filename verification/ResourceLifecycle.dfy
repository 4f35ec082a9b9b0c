/**
 * Inputs, ACKs and the cleaner working on the resources of one input type at
 * the same time. A step is what one goroutine does under a lock or in one
 * atomic operation.
 */
module ResourceLifecycle {
  import opened Documents

  // What an input holds: a resource it waits for, has locked, or has unlocked
  // but not released yet.
  datatype Phase = Out | Waiting(res: nat) | Running(res: nat) | Leaving(res: nat)

  // `active` counts the update operations created and not executed, and
  // `finishing` those that have written the store but not released the resource.
  datatype Res = Res(key: string, pending: int, lockedBy: Option<nat>, stored: bool, active: nat, finishing: nat)

  datatype Cleaner = Idle | Sweeping(keys: set<string>)

  datatype State = State(
    resources: seq<Res>,         // every resource ever made
    table: map<string, nat>,     // those the table of states holds
    inputs: seq<Phase>,
    cleaner: Cleaner,            // sweeping: holds the lock of the table
    docs: set<string>,           // keys in the persistent store, as its table in memory has them
    lost: set<string>,           // removed there by a removal that failed, although the resource says stored
    kept: set<string>)           // put there by a write that failed, so that the resource does not say stored

  datatype Step =
    | Find(i: nat, key: string)
    | Lock(i: nat)
    | Cancel(i: nat)
    | WriteTTL(i: nat, ok: bool, kept: bool)
    | CreateUpdate(i: nat)
    | Unlock(i: nat)
    | Release(i: nat)
    | ExecuteWrite(r: nat, n: nat, ok: bool, kept: bool)
    | ExecuteDone(r: nat, n: nat)
    | SweepBegin
    | SweepMark(key: string)
    | SweepRemove(key: string, ok: bool, lost: bool)
    | SweepEnd

  predicate Enabled(s: State, step: Step) {
    match step
    case Find(i, key) =>
      && i < |s.inputs| && s.inputs[i].Out? && s.cleaner.Idle?
      && (key in s.table ==> s.table[key] < |s.resources|)
    case Lock(i) =>
      && i < |s.inputs| && s.inputs[i].Waiting? && s.inputs[i].res < |s.resources|
      && s.resources[s.inputs[i].res].lockedBy.None?
    case Cancel(i) => i < |s.inputs| && s.inputs[i].Waiting? && s.inputs[i].res < |s.resources|
    case WriteTTL(i, _, _) => i < |s.inputs| && s.inputs[i].Running? && s.inputs[i].res < |s.resources|
    case CreateUpdate(i) => i < |s.inputs| && s.inputs[i].Running? && s.inputs[i].res < |s.resources|
    case Unlock(i) => i < |s.inputs| && s.inputs[i].Running? && s.inputs[i].res < |s.resources|
    case Release(i) => i < |s.inputs| && s.inputs[i].Leaving? && s.inputs[i].res < |s.resources|
    case ExecuteWrite(r, n, _, _) => r < |s.resources| && 0 < n <= s.resources[r].active
    case ExecuteDone(r, n) => r < |s.resources| && 0 < n <= s.resources[r].finishing
    case SweepBegin => s.cleaner.Idle?
    case SweepMark(key) =>
      && s.cleaner.Sweeping? && key in s.table && s.table[key] < |s.resources|
      && s.resources[s.table[key]].pending == 0 && s.resources[s.table[key]].stored
    case SweepRemove(key, _, _) => s.cleaner.Sweeping? && key in s.cleaner.keys
    case SweepEnd => s.cleaner.Sweeping?
  }

  function With(s: State, r: nat, res: Res): State
    requires r < |s.resources|
  {
    s.(resources := s.resources[r := res])
  }

  // A write of the document of `r`. One that fails may still have reached the
  // table in memory.
  function Write(s: State, r: nat, ok: bool, kept: bool): State
    requires r < |s.resources|
  {
    var res := s.resources[r];
    var key := {res.key};
    if ok then With(s, r, res.(stored := true)).(docs := s.docs + key, lost := s.lost - key, kept := s.kept - key)
    else if !kept then s
    else if res.stored then s.(docs := s.docs + key, lost := s.lost - key)
    else s.(docs := s.docs + key, kept := s.kept + key)
  }

  // Execute has counted the operations as done.
  function Executing(s: State, r: nat, n: nat): State
    requires r < |s.resources| && n <= s.resources[r].active
  {
    var res := s.resources[r];
    With(s, r, res.(active := res.active - n, finishing := res.finishing + n))
  }

  function Apply(s: State, step: Step): State
    requires Enabled(s, step)
  {
    match step
    case Find(i, key) =>
      if key in s.table then
        var r := s.table[key];
        var res := s.resources[r];
        With(s, r, res.(pending := res.pending + 1)).(inputs := s.inputs[i := Waiting(r)])
      else
        var r := |s.resources|;
        s.(resources := s.resources + [Res(key, 1, None, false, 0, 0)],
           table := s.table[key := r], inputs := s.inputs[i := Waiting(r)])
    case Lock(i) =>
      var r := s.inputs[i].res;
      With(s, r, s.resources[r].(lockedBy := Some(i))).(inputs := s.inputs[i := Running(r)])
    case Cancel(i) =>
      var r := s.inputs[i].res;
      With(s, r, s.resources[r].(pending := s.resources[r].pending - 1)).(inputs := s.inputs[i := Out])
    case WriteTTL(i, ok, kept) => Write(s, s.inputs[i].res, ok, kept)
    case CreateUpdate(i) =>
      var r := s.inputs[i].res;
      With(s, r, s.resources[r].(pending := s.resources[r].pending + 1, active := s.resources[r].active + 1))
    case Unlock(i) =>
      var r := s.inputs[i].res;
      With(s, r, s.resources[r].(lockedBy := None)).(inputs := s.inputs[i := Leaving(r)])
    case Release(i) =>
      var r := s.inputs[i].res;
      With(s, r, s.resources[r].(pending := s.resources[r].pending - 1)).(inputs := s.inputs[i := Out])
    case ExecuteWrite(r, n, ok, kept) => Write(Executing(s, r, n), r, ok, kept)
    case ExecuteDone(r, n) =>
      With(s, r, s.resources[r].(finishing := s.resources[r].finishing - n, pending := s.resources[r].pending - n))
    case SweepBegin => s.(cleaner := Sweeping({}))
    case SweepMark(key) => s.(cleaner := Sweeping(s.cleaner.keys + {key}))
    case SweepRemove(key, ok, lost) =>
      if ok then
        s.(docs := s.docs - {key}, lost := s.lost - {key}, table := s.table - {key},
           cleaner := Sweeping(s.cleaner.keys - {key}))
      else if lost then s.(docs := s.docs - {key}, lost := s.lost + {key}, cleaner := Idle)
      else s.(cleaner := Idle)
    case SweepEnd => s.(cleaner := Idle)
  }

  function Exec(start: State, schedule: seq<Step>): Option<State> {
    if |schedule| == 0 then Some(start)
    else
      var n := |schedule| - 1;
      match Exec(start, schedule[..n])
      case None => None
      case Some(s) => if Enabled(s, schedule[n]) then Some(Apply(s, schedule[n])) else None
  }

  predicate Refers(phase: Phase, r: nat) {
    !phase.Out? && phase.res == r
  }

  // How many inputs hold or wait for the resource.
  function Holders(inputs: seq<Phase>, r: nat): nat {
    if |inputs| == 0 then 0
    else Holders(inputs[..|inputs| - 1], r) + if Refers(inputs[|inputs| - 1], r) then 1 else 0
  }

  lemma {:induction false} HoldersAfter(inputs: seq<Phase>, i: nat, phase: Phase, r: nat)
    requires i < |inputs|
    ensures Holders(inputs[i := phase], r) ==
            Holders(inputs, r) - (if Refers(inputs[i], r) then 1 else 0) + if Refers(phase, r) then 1 else 0
  {
    var n := |inputs| - 1;
    if i < n {
      HoldersAfter(inputs[..n], i, phase, r);
      assert inputs[i := phase][..n] == inputs[..n][i := phase];
    } else {
      assert inputs[i := phase][..n] == inputs[..n];
    }
  }

  // ----- the invariant

  // `pending` counts the holders and the outstanding updates.
  ghost predicate Counted(resources: seq<Res>, inputs: seq<Phase>) {
    forall r :: 0 <= r < |resources| ==>
      resources[r].pending == Holders(inputs, r) + resources[r].active + resources[r].finishing
  }

  // A resource in use is the one the table has for its key.
  ghost predicate Live(resources: seq<Res>, table: map<string, nat>) {
    forall r :: 0 <= r < |resources| && resources[r].pending > 0 ==>
      resources[r].key in table && table[resources[r].key] == r
  }

  ghost predicate TableOk(s: State) {
    forall key :: key in s.table ==> s.table[key] < |s.resources| && s.resources[s.table[key]].key == key
  }

  // A resource is locked by the input that runs on it, if there is one.
  ghost predicate LocksOk(s: State) {
    && (forall i :: 0 <= i < |s.inputs| && !s.inputs[i].Out? ==> s.inputs[i].res < |s.resources|)
    && (forall i :: 0 <= i < |s.inputs| && s.inputs[i].Running? ==> s.resources[s.inputs[i].res].lockedBy == Some(i))
    && (forall r :: 0 <= r < |s.resources| && s.resources[r].lockedBy.Some? ==>
          s.resources[r].lockedBy.value < |s.inputs| && s.inputs[s.resources[r].lockedBy.value] == Running(r))
  }

  // The resources in the table that say stored are those with a document, up to
  // what operations that failed have done to the table in memory.
  ghost predicate Documented(s: State) {
    && s.docs <= s.table.Keys && s.lost <= s.table.Keys && s.kept <= s.table.Keys
    && forall key :: key in s.table && s.table[key] < |s.resources| ==>
      if s.resources[s.table[key]].stored then key !in s.kept && (key in s.docs <==> key !in s.lost)
      else key !in s.lost && (key in s.docs <==> key in s.kept)
  }

  ghost predicate SweepOk(s: State) {
    s.cleaner.Sweeping? ==>
      forall key :: key in s.cleaner.keys ==>
        && key in s.table && s.table[key] < |s.resources|
        && s.resources[s.table[key]].pending == 0 && s.resources[s.table[key]].stored
  }

  ghost predicate Inv(s: State) {
    && Counted(s.resources, s.inputs) && Live(s.resources, s.table)
    && TableOk(s) && LocksOk(s) && SweepOk(s) && Documented(s)
  }

  // After openStore: one resource per document, nothing in use.
  ghost predicate IsStart(s: State) {
    && TableOk(s) && s.cleaner.Idle? && s.docs == s.table.Keys && s.lost == s.kept == {}
    && (forall key :: key in s.table ==> s.resources[s.table[key]].stored)
    && (forall i :: 0 <= i < |s.inputs| ==> s.inputs[i].Out?)
    && (forall r :: 0 <= r < |s.resources| ==>
        var res := s.resources[r]; res.pending == res.active == res.finishing == 0 && res.lockedBy.None?)
  }

  lemma {:induction false} NobodyHolds(inputs: seq<Phase>, r: nat)
    requires forall i :: 0 <= i < |inputs| ==> !Refers(inputs[i], r)
    ensures Holders(inputs, r) == 0
  {
    if |inputs| == 0 {
    } else {
      NobodyHolds(inputs[..|inputs| - 1], r);
    }
  }

  lemma {:induction false} SomebodyHolds(inputs: seq<Phase>, i: nat, r: nat)
    requires i < |inputs| && Refers(inputs[i], r)
    ensures Holders(inputs, r) > 0
  {
    if i < |inputs| - 1 {
      SomebodyHolds(inputs[..|inputs| - 1], i, r);
    }
  }

  // The state after input i and the resource r it works on have changed.
  function Changed(s: State, r: nat, res: Res, i: nat, phase: Phase): State
    requires r < |s.resources| && i < |s.inputs|
  {
    With(s, r, res).(inputs := s.inputs[i := phase])
  }

  lemma ChangedIsCounted(s: State, r: nat, res: Res, i: nat, phase: Phase)
    requires r < |s.resources| && i < |s.inputs|
    requires Counted(s.resources, s.inputs)
    requires (s.inputs[i].Out? || s.inputs[i].res == r) && (phase.Out? || phase.res == r)
    requires var was := s.resources[r];
      res.pending - res.active - res.finishing - (if phase.Out? then 0 else 1) ==
      was.pending - was.active - was.finishing - (if s.inputs[i].Out? then 0 else 1)
    ensures Counted(s.resources[r := res], s.inputs[i := phase])
  {
    var resources, inputs := s.resources[r := res], s.inputs[i := phase];
    forall q | 0 <= q < |resources|
      ensures resources[q].pending == Holders(inputs, q) + resources[q].active + resources[q].finishing
    {
      HoldersAfter(s.inputs, i, phase, q);
      assert s.resources[q].pending == Holders(s.inputs, q) + s.resources[q].active + s.resources[q].finishing;
    }
  }

  // An input with a resource keeps it in use, and so in the table.
  lemma HeldIsLive(s: State, i: nat)
    requires Inv(s) && i < |s.inputs| && !s.inputs[i].Out?
    ensures var r := s.inputs[i].res;
      r < |s.resources| && s.resources[r].pending > 0
      && s.resources[r].key in s.table && s.table[s.resources[r].key] == r
  {
    var r := s.inputs[i].res;
    SomebodyHolds(s.inputs, i, r);
    assert s.resources[r].pending > 0;
  }

  // Changing a resource in use, but not its key, keeps the table as it is.
  lemma ChangedIsOk(s: State, r: nat, res: Res, i: nat, phase: Phase)
    requires Inv(s) && r < |s.resources| && i < |s.inputs|
    requires (s.inputs[i].Out? || s.inputs[i].res == r) && (phase.Out? || phase.res == r)
    requires s.resources[r].key in s.table && s.table[s.resources[r].key] == r && res.key == s.resources[r].key
    requires s.resources[r].pending > 0 || s.cleaner.Idle?
    requires phase.Running? ==> res.lockedBy == Some(i)
    requires res.lockedBy == s.resources[r].lockedBy || s.resources[r].lockedBy == None
             || (s.inputs[i].Running? && !phase.Running?)
    requires s.inputs[i].Running? && !phase.Running? ==> s.resources[r].lockedBy == Some(i)
    requires res.lockedBy == Some(i) ==> phase.Running?
    requires res.lockedBy.Some? && res.lockedBy != Some(i) ==> res.lockedBy == s.resources[r].lockedBy
    requires res.stored == s.resources[r].stored
    ensures var t := Changed(s, r, res, i, phase);
      TableOk(t) && LocksOk(t) && SweepOk(t) && Documented(t) && Live(t.resources, t.table)
  {
  }

  lemma InputStepKeepsInv(s: State, step: Step)
    requires Inv(s) && Enabled(s, step)
    requires step.Lock? || step.Cancel? || step.CreateUpdate? || step.Unlock? || step.Release?
    ensures Inv(Apply(s, step))
  {
    var i := step.i;
    HeldIsLive(s, i);
    var t := Apply(s, step);
    var r := s.inputs[i].res;
    assert t.inputs == s.inputs[i := t.inputs[i]];
    ChangedIsCounted(s, r, t.resources[r], i, t.inputs[i]);
    ChangedIsOk(s, r, t.resources[r], i, t.inputs[i]);
    assert Changed(s, r, t.resources[r], i, t.inputs[i]) == t;
  }

  // A resource in use can be written.
  lemma WriteKeepsInv(s: State, r: nat, ok: bool, kept: bool)
    requires Inv(s) && r < |s.resources| && s.resources[r].pending > 0
    ensures Inv(Write(s, r, ok, kept))
  {
    hide Holders;
  }

  lemma {:induction false} HoldersBound(inputs: seq<Phase>, r: nat)
    requires forall i :: 0 <= i < |inputs| && !inputs[i].Out? ==> inputs[i].res < r
    ensures Holders(inputs, r) == 0
  {
    NobodyHolds(inputs, r);
  }

  lemma FirstFindIsCounted(s: State, i: nat, key: string)
    requires Inv(s) && Enabled(s, Find(i, key)) && key !in s.table
    ensures var t := Apply(s, Find(i, key)); Counted(t.resources, t.inputs)
  {
    var t, r := Apply(s, Find(i, key)), |s.resources|;
    HoldersBound(s.inputs, r);
    forall q | 0 <= q < |t.resources|
      ensures t.resources[q].pending == Holders(t.inputs, q) + t.resources[q].active + t.resources[q].finishing
    {
      HoldersAfter(s.inputs, i, t.inputs[i], q);
    }
  }

  lemma FindKeepsInv(s: State, i: nat, key: string)
    requires Inv(s) && Enabled(s, Find(i, key))
    ensures Inv(Apply(s, Find(i, key)))
  {
    var t := Apply(s, Find(i, key));
    if key in s.table {
      var r := s.table[key];
      ChangedIsCounted(s, r, t.resources[r], i, t.inputs[i]);
      ChangedIsOk(s, r, t.resources[r], i, t.inputs[i]);
    } else {
      FirstFindIsCounted(s, i, key);
      hide Holders, Counted;
    }
  }

  lemma WriteTTLKeepsInv(s: State, i: nat, ok: bool, kept: bool)
    requires Inv(s) && Enabled(s, WriteTTL(i, ok, kept))
    ensures Inv(Apply(s, WriteTTL(i, ok, kept)))
  {
    HeldIsLive(s, i);
    hide Inv;
    WriteKeepsInv(s, s.inputs[i].res, ok, kept);
  }

  lemma ExecuteBegins(s: State, r: nat, n: nat)
    requires Inv(s) && r < |s.resources| && 0 < n <= s.resources[r].active
    ensures Inv(Executing(s, r, n)) && Executing(s, r, n).resources[r].pending > 0
  {
    hide Holders;
  }

  lemma ExecuteWriteKeepsInv(s: State, r: nat, n: nat, ok: bool, kept: bool)
    requires Inv(s) && Enabled(s, ExecuteWrite(r, n, ok, kept))
    ensures Inv(Apply(s, ExecuteWrite(r, n, ok, kept)))
  {
    ExecuteBegins(s, r, n);
    hide Inv;
    WriteKeepsInv(Executing(s, r, n), r, ok, kept);
  }

  lemma ExecuteDoneKeepsInv(s: State, r: nat, n: nat)
    requires Inv(s) && Enabled(s, ExecuteDone(r, n))
    ensures Inv(Apply(s, ExecuteDone(r, n)))
  {
    hide Holders;
    assert s.resources[r].pending > 0;
  }

  lemma RemovedKeepsInv(s: State, key: string)
    requires Inv(s) && Enabled(s, SweepRemove(key, true, false))
    ensures Inv(Apply(s, SweepRemove(key, true, false)))
  {
    hide Holders;
  }

  lemma SweepKeepsInv(s: State, step: Step)
    requires Inv(s) && Enabled(s, step)
    requires step.SweepBegin? || step.SweepMark? || step.SweepRemove? || step.SweepEnd?
    ensures Inv(Apply(s, step))
  {
    hide Holders;
    if step.SweepRemove? && step.ok {
      RemovedKeepsInv(s, step.key);
    }
  }

  lemma StepKeepsInv(s: State, step: Step)
    requires Inv(s) && Enabled(s, step)
    ensures Inv(Apply(s, step))
  {
    hide Inv, Apply, Enabled;
    match step
    case Find(i, key) => FindKeepsInv(s, i, key);
    case Lock(_) => InputStepKeepsInv(s, step);
    case Cancel(_) => InputStepKeepsInv(s, step);
    case WriteTTL(i, ok, kept) => WriteTTLKeepsInv(s, i, ok, kept);
    case CreateUpdate(_) => InputStepKeepsInv(s, step);
    case Unlock(_) => InputStepKeepsInv(s, step);
    case Release(_) => InputStepKeepsInv(s, step);
    case ExecuteWrite(r, n, ok, kept) => ExecuteWriteKeepsInv(s, r, n, ok, kept);
    case ExecuteDone(r, n) => ExecuteDoneKeepsInv(s, r, n);
    case SweepBegin => SweepKeepsInv(s, step);
    case SweepMark(_) => SweepKeepsInv(s, step);
    case SweepRemove(_, _, _) => SweepKeepsInv(s, step);
    case SweepEnd => SweepKeepsInv(s, step);
  }

  lemma StartIsSafe(s: State)
    requires IsStart(s)
    ensures Inv(s)
  {
    forall r | 0 <= r < |s.resources| ensures Holders(s.inputs, r) == 0 {
      NobodyHolds(s.inputs, r);
    }
  }

  // Every reachable state satisfies the invariant.
  lemma {:induction false} EveryScheduleIsSafe(start: State, schedule: seq<Step>)
    requires IsStart(start) && Exec(start, schedule).Some?
    ensures Inv(Exec(start, schedule).value)
  {
    hide Inv, Apply, Enabled, IsStart;
    if |schedule| == 0 {
      StartIsSafe(start);
    } else {
      var n := |schedule| - 1;
      EveryScheduleIsSafe(start, schedule[..n]);
      StepKeepsInv(Exec(start, schedule[..n]).value, schedule[n]);
    }
  }

  // What the cleaner has marked it can remove: from the store and, if that
  // succeeds, from the table. What it fails to remove stays in the table.
  lemma MarkedIsRemoved(s: State, key: string, ok: bool, lost: bool)
    requires Inv(s) && Enabled(s, SweepMark(key))
    ensures var marked := Apply(s, SweepMark(key));
      && Enabled(marked, SweepRemove(key, ok, lost))
      && var after := Apply(marked, SweepRemove(key, ok, lost));
      && after.docs == (if ok || lost then s.docs - {key} else s.docs)
      && after.table == (if ok then s.table - {key} else s.table)
      && after.resources == s.resources
      && (after.cleaner.Sweeping? <==> ok)
  {
  }

  // ----- the updates of a resource over a schedule

  // What a step adds to the updates created, written, and released for `r`.
  function Adds(s: State, step: Step, r: nat): (nat, nat, nat) {
    match step
    case CreateUpdate(i) => (if i < |s.inputs| && s.inputs[i] == Running(r) then 1 else 0, 0, 0)
    case ExecuteWrite(q, n, _, _) => (0, if q == r then n else 0, 0)
    case ExecuteDone(q, n) => (0, 0, if q == r then n else 0)
    case _ => (0, 0, 0)
  }

  function Counts(start: State, schedule: seq<Step>, r: nat): (nat, nat, nat)
    requires Exec(start, schedule).Some?
  {
    if |schedule| == 0 then (0, 0, 0)
    else
      var n := |schedule| - 1;
      var (created, written, released) := Counts(start, schedule[..n], r);
      var (c, w, d) := Adds(Exec(start, schedule[..n]).value, schedule[n], r);
      (created + c, written + w, released + d)
  }

  predicate Outstands(s: State, r: nat, created: nat, written: nat, released: nat) {
    if r < |s.resources| then
      s.resources[r].active == created - written && s.resources[r].finishing == written - released
    else created == written == released == 0
  }

  lemma StepOutstands(s: State, step: Step, r: nat, created: nat, written: nat, released: nat)
    requires Enabled(s, step) && Outstands(s, r, created, written, released)
    ensures var (c, w, d) := Adds(s, step, r);
      Outstands(Apply(s, step), r, created + c, written + w, released + d)
  {
  }

  // The outstanding updates of a resource are those created and not written
  // yet, and those written that have not let go of it.
  lemma {:induction false} OutstandingIsExact(start: State, schedule: seq<Step>, r: nat)
    requires IsStart(start) && Exec(start, schedule).Some?
    ensures var (created, written, released) := Counts(start, schedule, r);
      Outstands(Exec(start, schedule).value, r, created, written, released)
  {
    if |schedule| == 0 {
    } else {
      hide IsStart, Enabled, Apply, Outstands, Adds;
      var n := |schedule| - 1;
      OutstandingIsExact(start, schedule[..n], r);
      var (created, written, released) := Counts(start, schedule[..n], r);
      StepOutstands(Exec(start, schedule[..n]).value, schedule[n], r, created, written, released);
    }
  }

  // At most one input at a time has the lock for a key.
  lemma OneRunnerPerKey(start: State, schedule: seq<Step>, i: nat, j: nat)
    requires IsStart(start) && Exec(start, schedule).Some?
    requires var s := Exec(start, schedule).value;
      && i < |s.inputs| && j < |s.inputs| && s.inputs[i].Running? && s.inputs[j].Running?
      && s.inputs[i].res < |s.resources| && s.inputs[j].res < |s.resources|
      && s.resources[s.inputs[i].res].key == s.resources[s.inputs[j].res].key
    ensures i == j
  {
    EveryScheduleIsSafe(start, schedule);
    var s := Exec(start, schedule).value;
    HeldIsLive(s, i);
    HeldIsLive(s, j);
  }

  // An input that waits gets the lock exactly if no input runs on its resource.
  lemma LockedExactlyByRunner(start: State, schedule: seq<Step>, i: nat)
    requires IsStart(start) && Exec(start, schedule).Some?
    requires i < |Exec(start, schedule).value.inputs| && Exec(start, schedule).value.inputs[i].Waiting?
    ensures var s := Exec(start, schedule).value;
      Enabled(s, Lock(i)) <==> forall j :: 0 <= j < |s.inputs| ==> s.inputs[j] != Running(s.inputs[i].res)
  {
    EveryScheduleIsSafe(start, schedule);
    var s := Exec(start, schedule).value;
    HeldIsLive(s, i);
  }

  // A write for a resource, by an input or by a late ACK, happens only while
  // the table holds that resource, so a key the cleaner has removed comes back
  // only together with a new resource.
  lemma WritesAreForLiveKeys(start: State, schedule: seq<Step>, step: Step)
    requires IsStart(start) && Exec(start, schedule).Some? && Enabled(Exec(start, schedule).value, step)
    requires step.ExecuteWrite? || step.WriteTTL?
    ensures var s := Exec(start, schedule).value;
      var r := if step.ExecuteWrite? then step.r else s.inputs[step.i].res;
      && s.resources[r].key in s.table && s.table[s.resources[r].key] == r
      && Apply(s, step).docs <= s.table.Keys
      // a success is stored, and a failure at most in the table in memory
      && (if step.ok then Apply(s, step).resources[r].stored && s.resources[r].key in Apply(s, step).docs
          else
            && Apply(s, step).resources[r].stored == s.resources[r].stored
            && Apply(s, step).docs == s.docs + if step.kept then {s.resources[r].key} else {})
      && (s.cleaner.Sweeping? ==> s.resources[r].key !in s.cleaner.keys)
  {
    EveryScheduleIsSafe(start, schedule);
    var s := Exec(start, schedule).value;
    if step.WriteTTL? {
      HeldIsLive(s, step.i);
    } else {
      assert s.resources[step.r].pending > 0;
    }
  }
}
