/**
 * The order of the events in the buffer of values, in the gap list, and in the
 * callbacks.
 */
module AckerOrders {
  import opened Documents
  import opened GapLists
  import opened AckerInterleaving

  // Every value in the buffer belongs to one event, which has been counted or
  // whose producer is about to count it.
  predicate Valued(s: State) {
    && |s.values| == |s.producers| && |s.order| == |s.log|
    && (forall i :: 0 <= i < |s.order| ==> s.order[i] < s.buffered)
    && (forall i, j :: 0 <= i < j < |s.order| ==> s.order[i] != s.order[j])
    && (forall p :: 0 <= p < |s.producers| && !s.producers[p].Idle? ==>
          s.values[p] < s.buffered && s.values[p] !in s.order)
    && (forall p, q :: 0 <= p < q < |s.producers| && !s.producers[p].Idle? && !s.producers[q].Idle? ==>
          s.values[p] != s.values[q])
    && (forall v :: 0 <= v < s.buffered ==> v in s.order || IsWaiting(s, v))
  }

  // Some producer has put the value in the buffer and not counted its event.
  predicate IsWaiting(s: State, value: nat)
    requires |s.values| == |s.producers|
  {
    exists p :: 0 <= p < |s.producers| && !s.producers[p].Idle? && s.values[p] == value
  }

  lemma StartIsValued(s: State)
    requires IsStart(s)
    ensures Valued(s) && Aligned(s)
  {
  }

  // The step counts the event of the producer `p`.
  predicate Counts(s: State, step: Step, p: nat) {
    || step == PublishEnd(p)
    || step == DropEnd(p)
    || (step == DropBegin(p) && |s.nodes| > 0 && s.nodes[|s.nodes| - 1].send == 0 && s.head == |s.nodes| - 1)
  }

  lemma BufferKeepsValued(s: State, t: State, p: nat)
    requires Valued(s) && p < |s.producers| && s.producers[p].Idle? && |t.log| == |s.log| && t.order == s.order
    requires t.producers == s.producers[p := Queued] && t.values == s.values[p := s.buffered]
    requires t.buffered == s.buffered + 1
    ensures Valued(t)
  {
    forall v | 0 <= v < t.buffered ensures v in t.order || IsWaiting(t, v) {
      if v == s.buffered {
        assert t.values[p] == v;
      } else if v !in s.order {
        assert IsWaiting(s, v);
        var q :| 0 <= q < |s.producers| && !s.producers[q].Idle? && s.values[q] == v;
        assert t.values[q] == v;
      }
    }
  }

  lemma CountKeepsValued(s: State, t: State, p: nat)
    requires Valued(s) && p < |s.producers| && !s.producers[p].Idle? && |t.log| == |s.log| + 1
    requires t.producers == s.producers[p := Idle] && t.values == s.values && t.order == s.order + [s.values[p]]
    requires t.buffered == s.buffered
    ensures Valued(t)
  {
    assert t.order[|s.order|] == s.values[p];
    forall v | 0 <= v < t.buffered ensures v in t.order || IsWaiting(t, v) {
      if v !in s.order && v != s.values[p] {
        assert IsWaiting(s, v);
        var q :| 0 <= q < |s.producers| && !s.producers[q].Idle? && s.values[q] == v;
        assert t.values[q] == v;
      }
    }
  }

  lemma BeginKeepsValued(s: State, t: State, p: nat)
    requires Valued(s) && p < |s.producers| && !s.producers[p].Idle? && |t.log| == |s.log| && t.order == s.order
    requires |t.producers| == |s.producers| && t.values == s.values && t.buffered == s.buffered
    requires forall q :: 0 <= q < |s.producers| ==> (t.producers[q].Idle? <==> s.producers[q].Idle?)
    ensures Valued(t)
  {
    forall v | 0 <= v < t.buffered ensures v in t.order || IsWaiting(t, v) {
      if v !in s.order {
        assert IsWaiting(s, v);
        var q :| 0 <= q < |s.producers| && !s.producers[q].Idle? && s.values[q] == v;
        assert t.values[q] == v;
      }
    }
  }

  lemma AckKeepsValued(s: State, t: State)
    requires Valued(s) && t.log == s.log && t.order == s.order
    requires t.producers == s.producers && t.values == s.values && t.buffered == s.buffered
    ensures Valued(t)
  {
    assert forall v :: 0 <= v < t.buffered && IsWaiting(s, v) ==> IsWaiting(t, v);
  }

  lemma StepKeepsValued(s: State, step: Step)
    requires Valued(s) && Enabled(s, step)
    ensures Valued(Apply(s, step))
  {
    hide Valued, LockedByAcker, LockedByProducer;
    var t := Apply(s, step);
    match step
    case Buffer(p) => BufferKeepsValued(s, t, p);
    case PublishBegin(p) => BeginKeepsValued(s, t, p);
    case PublishEnd(p) => CountKeepsValued(s, t, p);
    case DropBegin(p) => {
      if Counts(s, step, p) {
        CountKeepsValued(s, t, p);
      } else {
        BeginKeepsValued(s, t, p);
      }
    }
    case DropEnd(p) => CountKeepsValued(s, t, p);
    case _ => AckKeepsValued(s, t);
  }

  lemma {:induction false} EveryScheduleIsValued(start: State, schedule: seq<Step>)
    requires IsStart(start) && Exec(start, schedule).Some?
    ensures Valued(Exec(start, schedule).value)
  {
    hide Valued, Apply, Enabled, IsStart;
    if |schedule| == 0 {
      StartIsValued(start);
    } else {
      var n := |schedule| - 1;
      EveryScheduleIsValued(start, schedule[..n]);
      StepKeepsValued(Exec(start, schedule[..n]).value, schedule[n]);
    }
  }

  // ----- when the list has the events in the order of the buffer

  predicate Aligned(s: State) {
    forall i :: 0 <= i < |s.order| ==> s.order[i] == i
  }

  // An event is counted while one that was buffered before it still waits.
  predicate PassesOver(s: State, step: Step) {
    exists p, q :: 0 <= p < |s.producers| && 0 <= q < |s.producers| && |s.values| == |s.producers|
                   && Counts(s, step, p) && !s.producers[q].Idle? && s.values[q] < s.values[p]
  }

  lemma WaitingIsLater(s: State, p: nat)
    requires Valued(s) && Aligned(s) && p < |s.producers| && !s.producers[p].Idle?
    ensures s.values[p] >= |s.order|
  {
    forall i | 0 <= i < |s.order| ensures i in s.order {
      assert s.order[i] == i;
    }
  }

  // The value of an event that waits is the next one exactly if no older one waits.
  lemma NextExactly(s: State, p: nat)
    requires Valued(s) && Aligned(s) && p < |s.producers| && !s.producers[p].Idle?
    ensures s.values[p] != |s.order| <==>
            exists q :: 0 <= q < |s.producers| && !s.producers[q].Idle? && s.values[q] < s.values[p]
  {
    var k := |s.order|;
    forall q | 0 <= q < |s.producers| && !s.producers[q].Idle? ensures s.values[q] >= k {
      WaitingIsLater(s, q);
    }
    if s.values[p] != k {
      assert IsWaiting(s, k);
    }
  }

  lemma AlignedMore(order: seq<nat>, value: nat)
    ensures (forall i :: 0 <= i < |order| + 1 ==> (order + [value])[i] == i) <==>
            value == |order| && forall i :: 0 <= i < |order| ==> order[i] == i
  {
    var longer := order + [value];
    assert longer[|order|] == value;
    assert forall i :: 0 <= i < |order| ==> longer[i] == order[i];
  }

  lemma CountStaysAligned(s: State, step: Step, p: nat)
    requires Valued(s) && Enabled(s, step) && Aligned(s) && Counts(s, step, p)
    ensures Aligned(Apply(s, step)) <==> !PassesOver(s, step)
  {
    hide Valued, LockedByAcker, LockedByProducer;
    assert Apply(s, step).order == s.order + [s.values[p]];
    AlignedMore(s.order, s.values[p]);
    NextExactly(s, p);
    if PassesOver(s, step) {
      var p', q :| 0 <= p' < |s.producers| && 0 <= q < |s.producers| && |s.values| == |s.producers|
                   && Counts(s, step, p') && !s.producers[q].Idle? && s.values[q] < s.values[p'];
      assert p' == p;
    }
  }

  // Exactly so the list gets another order than the buffer.
  lemma OnlyPassingDisorders(s: State, step: Step)
    requires Valued(s) && Enabled(s, step) && Aligned(s)
    ensures Aligned(Apply(s, step)) <==> !PassesOver(s, step)
  {
    hide Valued, LockedByAcker, LockedByProducer;
    match step
    case PublishEnd(p) => CountStaysAligned(s, step, p);
    case DropEnd(p) => CountStaysAligned(s, step, p);
    case DropBegin(p) => {
      if Counts(s, step, p) {
        CountStaysAligned(s, step, p);
      }
    }
    case _ =>
  }

  ghost predicate AlwaysAligned(start: State, schedule: seq<Step>) {
    forall k :: 0 <= k <= |schedule| && Exec(start, schedule[..k]).Some? ==> Aligned(Exec(start, schedule[..k]).value)
  }

  ghost predicate NeverPassesOver(start: State, schedule: seq<Step>) {
    forall k :: 0 <= k < |schedule| && Exec(start, schedule[..k]).Some? ==>
      !PassesOver(Exec(start, schedule[..k]).value, schedule[k])
  }

  lemma {:induction false} AlignedUpTo(start: State, schedule: seq<Step>, k: nat)
    requires IsStart(start) && Exec(start, schedule).Some? && NeverPassesOver(start, schedule) && k <= |schedule|
    ensures Exec(start, schedule[..k]).Some? && Aligned(Exec(start, schedule[..k]).value)
  {
    ExecBefore(start, schedule, k);
    if k == 0 {
      assert schedule[..0] == [];
    } else {
      hide Exec, Enabled, Apply, Inv, IsStart, Aligned, PassesOver, Valued;
      AlignedUpTo(start, schedule, k - 1);
      StepAt(start, schedule, k - 1);
      EveryScheduleIsValued(start, schedule[..k - 1]);
      OnlyPassingDisorders(Exec(start, schedule[..k - 1]).value, schedule[k - 1]);
    }
  }

  lemma NotPassedAt(start: State, schedule: seq<Step>, k: nat)
    requires IsStart(start) && Exec(start, schedule).Some? && AlwaysAligned(start, schedule) && k < |schedule|
    ensures Exec(start, schedule[..k]).Some? && !PassesOver(Exec(start, schedule[..k]).value, schedule[k])
  {
    hide Exec, Enabled, Apply, Inv, IsStart, Aligned, PassesOver, Valued;
    StepAt(start, schedule, k);
    EveryScheduleIsValued(start, schedule[..k]);
    OnlyPassingDisorders(Exec(start, schedule[..k]).value, schedule[k]);
  }

  // Buffer and list agree throughout a schedule if and only if no event in it
  // is counted before one that was buffered earlier.
  lemma AlignedExactlyWithoutPassing(start: State, schedule: seq<Step>)
    requires IsStart(start) && Exec(start, schedule).Some?
    ensures AlwaysAligned(start, schedule) <==> NeverPassesOver(start, schedule)
  {
    hide Exec, Aligned, PassesOver, IsStart;
    if NeverPassesOver(start, schedule) {
      forall k | 0 <= k <= |schedule|
        ensures Exec(start, schedule[..k]).Some? && Aligned(Exec(start, schedule[..k]).value)
      {
        AlignedUpTo(start, schedule, k);
      }
    }
    if AlwaysAligned(start, schedule) {
      forall k | 0 <= k < |schedule|
        ensures Exec(start, schedule[..k]).Some? && !PassesOver(Exec(start, schedule[..k]).value, schedule[k])
      {
        NotPassedAt(start, schedule, k);
      }
    }
  }

  // Then every value a callback got is that of an event reported.
  lemma AlignedDeliversReported(start: State, schedule: seq<Step>, i: nat, value: nat)
    requires IsStart(start) && Exec(start, schedule).Some? && Aligned(Exec(start, schedule).value)
    requires i < |Exec(start, schedule).value.delivered|
    requires var slice := Exec(start, schedule).value.delivered[i]; slice.from <= value < slice.to
    ensures var s := Exec(start, schedule).value;
      value < |s.order| == |s.log| && s.order[value] == value < s.reported <= |s.log|
  {
    hide Exec, Shaped, ProducerPlaced, AckerPlaced, WithinBounds, QueueOf, Unreported, Count, Span;
    EveryScheduleIsSafe(start, schedule);
    EveryScheduleIsValued(start, schedule);
    InvIsExact(Exec(start, schedule).value);
  }

  // A single producer, as a client is, counts each event before it buffers the next.
  lemma OneProducerPassesNone(s: State, step: Step)
    requires |s.producers| == 1
    ensures !PassesOver(s, step)
  {
  }

  // Two producers buffer a value each, and the second counts its event.
  predicate SecondIsCounted(s: State) {
    && s.nodes == [Gap(1, 0)] && s.head == 0 && s.producers == [Queued, Idle] && s.values == [0, 1]
    && s.log == [true] && s.order == [1] && s.buffered == 2 && s.reported == 0 && s.acker == Resting
    && s.panic == NoPanic
  }

  lemma SecondGoesFirst(start: State) returns (schedule: seq<Step>)
    requires IsStart(start) && |start.producers| == 2
    ensures Exec(start, schedule).Some? && SecondIsCounted(Exec(start, schedule).value)
  {
    schedule := [];
    assert Exec(start, schedule) == Some(start);
    hide Exec, Count, Began;
    ExecMore(start, schedule, Buffer(0));
    schedule := schedule + [Buffer(0)];
    ExecMore(start, schedule, Buffer(1));
    schedule := schedule + [Buffer(1)];
    ExecMore(start, schedule, PublishBegin(1));
    schedule := schedule + [PublishBegin(1)];
    ExecMore(start, schedule, PublishEnd(1));
    schedule := schedule + [PublishEnd(1)];
  }

  // An ACK for that event cuts off the value of the first producer, whose event
  // has not even been counted.
  lemma SliceCanBeAnothers(start: State) returns (schedule: seq<Step>)
    requires IsStart(start) && |start.producers| == 2
    ensures var end := Exec(start, schedule);
      && end.Some? && end.value.order == [1] && end.value.log == [true]
      && end.value.acker == Calling(Slice(0, 1)) && IsWaiting(end.value, 0)
  {
    schedule := SecondGoesFirst(start);
    hide Exec, Count, Began;
    ExecMore(start, schedule, AckBegin(1));
    schedule := schedule + [AckBegin(1)];
    ExecMore(start, schedule, AckLock);
    schedule := schedule + [AckLock];
    ExecMore(start, schedule, AckUnlock);
    schedule := schedule + [AckUnlock];
    ExecMore(start, schedule, AckEnd);
    schedule := schedule + [AckEnd];
    assert Exec(start, schedule).value.values[0] == 0;
  }
}
