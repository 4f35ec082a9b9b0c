/**
 * Any number of producers and one ACK thread working on the gap list at the
 * same time. A step is a section between two lock operations; a thread that has
 * handed the list lock back still holds the lock of the node it is about to
 * change.
 */
module AckerInterleaving {
  import opened Documents
  import opened GapLists

  // `Queued`: the value of the event is in the buffer, the event not yet counted.
  datatype Producer = Idle | Queued | Publishing(node: nat) | Dropping(node: nat)

  // The values `from`, up to and without `to`, of all that were put in the buffer.
  datatype Slice = Slice(from: nat, to: nat)

  // `Calling`: the values of the reported events have been cut off the buffer,
  // and the callback has not run yet.
  // `acked` is the argument of the call in progress and `n` what is left of
  // it; `sent` counts the published events the call has covered so far.
  datatype Acker =
    | Resting
    | Looping(acked: nat, n: nat, total: nat, emptyLst: bool, sent: nat)
    | Holding(acked: nat, n: nat, total: nat, emptyLst: bool, sent: nat, node: nat)
    | Calling(slice: Slice)

  datatype Panic = NoPanic | ListNotEmpty | TooManyAcked

  datatype State = State(
    nodes: seq<Gap>,            // every node ever linked, in list order
    head: nat,                  // the list is nodes[head..]
    producers: seq<Producer>,
    acker: Acker,
    panic: Panic,
    log: seq<bool>,             // the events counted in so far, true for a published one
    order: seq<nat>,            // their values, by the place in the buffer
    values: seq<nat>,           // for each producer, the last value it has put in the buffer
    buffered: nat,              // values put in the buffer so far
    reported: nat,              // sum of the totals reported: values cut off the buffer
    delivered: seq<Slice>,      // what the callbacks got, in the order they ran
    acked: nat,                 // sum of the arguments of the completed ACKs
    excess: bool)               // some ACK asked for more than was published

  datatype Step =
    | Buffer(p: nat)
    | PublishBegin(p: nat)
    | PublishEnd(p: nat)
    | DropBegin(p: nat)
    | DropEnd(p: nat)
    | AckBegin(n: nat)
    | AckLock
    | AckUnlock
    | AckEnd
    | AckCall

  // TrackingCounter: one empty node, nothing added or reported.
  predicate IsStart(s: State) {
    && s.nodes == [Gap(0, 0)] && s.head == 0 && s.acker == Resting && s.panic == NoPanic
    && (forall p :: 0 <= p < |s.producers| ==> s.producers[p] == Idle)
    && s.log == [] && s.order == [] && |s.values| == |s.producers|
    && s.buffered == s.reported == s.acked == 0 && s.delivered == [] && !s.excess
  }

  predicate LockedByAcker(s: State, node: nat) {
    s.acker.Holding? && s.acker.node == node
  }

  predicate LockedByProducer(s: State, node: nat) {
    Publishing(node) in s.producers || Dropping(node) in s.producers
  }

  // A producer needs the lock of the last node.
  predicate CanBegin(s: State, p: nat)
    requires |s.nodes| > 0
  {
    var tail := |s.nodes| - 1;
    p < |s.producers| && s.producers[p].Queued? && !LockedByAcker(s, tail) && !LockedByProducer(s, tail)
  }

  // A thread that waits for the lock of a node keeps the list lock meanwhile,
  // so that it counts as one that has not begun.
  predicate Enabled(s: State, step: Step) {
    && s.panic == NoPanic && s.head < |s.nodes| && |s.values| == |s.producers|
    && match step
       case Buffer(p) => p < |s.producers| && s.producers[p].Idle?
       case PublishBegin(p) => CanBegin(s, p)
       case DropBegin(p) => CanBegin(s, p)
       case PublishEnd(p) => p < |s.producers| && s.producers[p].Publishing? && s.producers[p].node < |s.nodes|
       case DropEnd(p) => p < |s.producers| && s.producers[p].Dropping? && s.producers[p].node < |s.nodes|
       case AckBegin(_) => s.acker.Resting?
       case AckLock => s.acker.Looping? && s.acker.n > 0 && (s.acker.emptyLst || !LockedByProducer(s, s.head))
       case AckUnlock => s.acker.Holding? && s.acker.node < |s.nodes|
       case AckEnd => s.acker.Looping? && s.acker.n == 0
       case AckCall => s.acker.Calling?
  }

  function Apply(s: State, step: Step): State
    requires Enabled(s, step)
  {
    var tail := |s.nodes| - 1;
    match step
    case Buffer(p) =>
      s.(producers := s.producers[p := Queued], values := s.values[p := s.buffered], buffered := s.buffered + 1)
    case PublishBegin(p) =>
      if s.nodes[tail].dropped > 0
      then s.(nodes := s.nodes + [Gap(0, 0)], producers := s.producers[p := Publishing(tail + 1)])
      else s.(producers := s.producers[p := Publishing(tail)])
    case PublishEnd(p) =>
      var i := s.producers[p].node;
      s.(nodes := s.nodes[i := Gap(s.nodes[i].send + 1, s.nodes[i].dropped)],
         producers := s.producers[p := Idle], log := s.log + [true], order := s.order + [s.values[p]])
    case DropBegin(p) =>
      if s.nodes[tail].send > 0 then s.(producers := s.producers[p := Dropping(tail)])
      else if s.head != tail then s.(panic := ListNotEmpty)
      else s.(producers := s.producers[p := Idle], log := s.log + [false], order := s.order + [s.values[p]],
              reported := s.reported + 1, delivered := s.delivered + [Slice(s.reported, s.reported + 1)])
    case DropEnd(p) =>
      var i := s.producers[p].node;
      s.(nodes := s.nodes[i := Gap(s.nodes[i].send, s.nodes[i].dropped + 1)],
         producers := s.producers[p := Idle], log := s.log + [false], order := s.order + [s.values[p]])
    case AckBegin(n) =>
      s.(acker := Looping(n, n, 0, false, 0), excess := s.excess || s.acked + n > Count(s.log))
    case AckLock =>
      var Looping(acked, n, total, emptyLst, sent) := s.acker;
      if emptyLst then s.(panic := TooManyAcked)
      else
        var covers := n >= s.nodes[s.head].send;
        s.(acker := Holding(acked, n, total, covers && s.head == tail, sent, s.head),
           head := if covers && s.head < tail then s.head + 1 else s.head)
    case AckUnlock =>
      var Holding(acked, n, total, emptyLst, sent, i) := s.acker;
      var gap := s.nodes[i];
      if n < gap.send then
        s.(nodes := s.nodes[i := Gap(gap.send - n, gap.dropped)],
           acker := Looping(acked, 0, total + n, emptyLst, sent + n))
      else
        s.(nodes := s.nodes[i := Gap(0, 0)],
           acker := Looping(acked, n - gap.send, total + gap.send + gap.dropped, emptyLst, sent + gap.send))
    case AckEnd =>
      var end := s.reported + s.acker.total;
      s.(acker := if s.acker.total == 0 then Resting else Calling(Slice(s.reported, end)),
         reported := end, acked := s.acked + s.acker.acked)
    case AckCall =>
      s.(acker := Resting, delivered := s.delivered + [s.acker.slice])
  }

  // The state after a schedule, if each of its steps can be taken.
  function Exec(start: State, schedule: seq<Step>): Option<State> {
    if |schedule| == 0 then Some(start)
    else
      var n := |schedule| - 1;
      match Exec(start, schedule[..n])
      case None => None
      case Some(s) => if Enabled(s, schedule[n]) then Some(Apply(s, schedule[n])) else None
  }

  // ----- the invariant

  // An ACK is being counted.
  predicate InCall(s: State) {
    s.acker.Looping? || s.acker.Holding?
  }

  // The events reported, and those the call in progress is about to report.
  function Total(s: State): nat {
    s.reported + if InCall(s) then s.acker.total else 0
  }

  // The published ones of them.
  function Covered(s: State): nat {
    s.acked + if InCall(s) then s.acker.sent else 0
  }

  // `total` is the length of the longest prefix of the events with `covered`
  // published ones, and the nodes hold just the rest.
  predicate Balanced(nodes: seq<Gap>, log: seq<bool>, covered: nat, total: nat) {
    && covered <= Count(log)
    && total == Span(log, covered)
    && QueueOf(nodes) == Unreported(log, covered)
  }

  predicate Exact(s: State) {
    && Balanced(s.nodes, s.log, Covered(s), Total(s))
    && (InCall(s) ==> s.acker.sent + s.acker.n == s.acker.acked)
  }

  // Between the two sections of counting an event.
  predicate Began(producer: Producer) {
    producer.Publishing? || producer.Dropping?
  }

  // A producer that is, if there is one.
  function InFlight(producers: seq<Producer>): Producer {
    if |producers| == 0 then Idle
    else
      var last := producers[|producers| - 1];
      if Began(last) then last else InFlight(producers[..|producers| - 1])
  }

  predicate OnlyOne(producers: seq<Producer>) {
    forall p, q :: 0 <= p < q < |producers| ==> !Began(producers[p]) || !Began(producers[q])
  }

  // The producers whose event is in the buffer and not counted.
  function Waiting(producers: seq<Producer>): nat {
    if |producers| == 0 then 0
    else
      var n := |producers| - 1;
      Waiting(producers[..n]) + if producers[n].Idle? then 0 else 1
  }

  lemma {:induction false} WaitingAfter(producers: seq<Producer>, p: nat, producer: Producer)
    requires p < |producers|
    ensures Waiting(producers[p := producer]) ==
            Waiting(producers) - (if producers[p].Idle? then 0 else 1) + (if producer.Idle? then 0 else 1)
  {
    var n := |producers| - 1;
    if p == n {
      assert producers[p := producer][..n] == producers[..n];
    } else {
      WaitingAfter(producers[..n], p, producer);
      assert producers[p := producer][..n] == producers[..n][p := producer];
    }
  }

  lemma {:induction false} NoneWaiting(producers: seq<Producer>)
    requires forall p :: 0 <= p < |producers| ==> producers[p] == Idle
    ensures Waiting(producers) == 0
  {
    if |producers| == 0 {
    } else {
      NoneWaiting(producers[..|producers| - 1]);
    }
  }

  lemma {:induction false} InFlightIs(producers: seq<Producer>)
    ensures InFlight(producers) != Idle ==> InFlight(producers) in producers && Began(InFlight(producers))
    ensures InFlight(producers) == Idle ==> forall p :: 0 <= p < |producers| ==> !Began(producers[p])
  {
    if |producers| == 0 {
    } else {
      InFlightIs(producers[..|producers| - 1]);
    }
  }

  lemma InFlightAfter(producers: seq<Producer>, p: nat, producer: Producer)
    requires p < |producers| && OnlyOne(producers) && (InFlight(producers) == Idle || Began(producers[p]))
    ensures var after := producers[p := producer];
      OnlyOne(after) && InFlight(after) == if Began(producer) then producer else Idle
    ensures Began(producers[p]) ==> InFlight(producers) == producers[p]
  {
    var after := producers[p := producer];
    InFlightIs(producers);
    InFlightIs(after);
    if InFlight(after) == Idle {
      assert !Began(after[p]);
    }
  }

  // The first node whose counts have not been taken by the ACK thread.
  function First(s: State): nat {
    if s.acker.Holding? then s.acker.node else s.head
  }

  // Only the last node may have counts still missing: it is the only one of
  // the list, or has just been linked.
  predicate Shaped(s: State) {
    var tail := |s.nodes| - 1;
    && s.head <= tail && First(s) <= tail
    && (forall i :: 0 <= i < First(s) ==> s.nodes[i] == Gap(0, 0))
    && (forall i :: First(s) <= i < tail ==> s.nodes[i].send > 0 && s.nodes[i].dropped > 0)
    && (s.nodes[tail].send == 0 ==>
          s.nodes[tail].dropped == 0 && (First(s) == tail || InFlight(s.producers) == Publishing(tail)))
  }

  // The producer between its two sections has the lock of the last node, which
  // keeps the others out.
  predicate ProducerPlaced(s: State) {
    var busy, tail := InFlight(s.producers), |s.nodes| - 1;
    && OnlyOne(s.producers)
    && (Began(busy) ==> busy.node == tail && !LockedByAcker(s, tail))
    && (busy.Publishing? ==> s.nodes[tail].dropped == 0)
    && (busy.Dropping? ==> s.nodes[tail].send > 0)
  }

  // The node the ACK thread is about to change: either still the head, and
  // then the whole call ends in it or nothing follows it, or just unlinked.
  predicate AckerPlaced(s: State) {
    s.acker.Holding? ==>
      var Holding(_, n, _, emptyLst, _, i) := s.acker;
      && i < |s.nodes|
      && (if i == s.head then emptyLst <==> n >= s.nodes[i].send else i + 1 == s.head && n >= s.nodes[i].send)
      && (emptyLst ==> i == s.head == |s.nodes| - 1)
  }

  // While no ACK asked for too much, the call in progress asks for published
  // events only, and finding the end of the list completes it.
  predicate WithinBounds(s: State) {
    !s.excess && InCall(s) ==>
      && s.acked + s.acker.acked <= Count(s.log)
      && (s.acker.Looping? && s.acker.emptyLst ==> s.acker.n == 0)
  }

  // A producer that only buffers does not get in the way of one in flight.
  lemma InFlightStays(producers: seq<Producer>, p: nat, producer: Producer)
    requires p < |producers| && OnlyOne(producers) && !Began(producers[p]) && !Began(producer)
    ensures var after := producers[p := producer]; OnlyOne(after) && InFlight(after) == InFlight(producers)
  {
    var after := producers[p := producer];
    InFlightIs(producers);
    InFlightIs(after);
    if InFlight(producers) != Idle {
      var q :| 0 <= q < |producers| && producers[q] == InFlight(producers);
      assert after[q] == producers[q];
    }
    if InFlight(after) != Idle {
      var q :| 0 <= q < |after| && after[q] == InFlight(after);
      assert after[q] == producers[q];
    }
  }

  function Sum(slices: seq<Slice>): int {
    if |slices| == 0 then 0 else Sum(slices[..|slices| - 1]) + slices[|slices| - 1].to - slices[|slices| - 1].from
  }

  lemma SumMore(slices: seq<Slice>, slice: Slice)
    ensures Sum(slices + [slice]) == Sum(slices) + slice.to - slice.from
  {
    assert (slices + [slice])[..|slices|] == slices;
  }

  predicate Apart(a: Slice, b: Slice) {
    a.to <= b.from || b.to <= a.from
  }

  // Every slice is within the values cut off, which are within the buffer, no
  // value is delivered twice, and none is skipped.
  predicate Sliced(s: State) {
    && s.buffered == |s.log| + Waiting(s.producers) && s.reported <= s.buffered
    && (forall i :: 0 <= i < |s.delivered| ==> s.delivered[i].from < s.delivered[i].to <= s.reported)
    && (forall i, j :: 0 <= i < j < |s.delivered| ==> Apart(s.delivered[i], s.delivered[j]))
    && Sum(s.delivered) + (if s.acker.Calling? then s.acker.slice.to - s.acker.slice.from else 0) == s.reported
    && (s.acker.Calling? ==>
          && s.acker.slice.from < s.acker.slice.to <= s.reported
          && forall i :: 0 <= i < |s.delivered| ==> Apart(s.delivered[i], s.acker.slice))
  }

  predicate Inv(s: State) {
    && |s.nodes| > 0 && Shaped(s) && ProducerPlaced(s) && AckerPlaced(s) && Exact(s) && WithinBounds(s) && Sliced(s)
    && s.panic != ListNotEmpty
    && (s.panic == TooManyAcked ==> s.excess)
  }

  // ----- what the steps do to the balance

  lemma BalancedAtStart()
    ensures Balanced([Gap(0, 0)], [], 0, 0)
  {
    EmptyQueue();
  }

  lemma BalancedLink(nodes: seq<Gap>, log: seq<bool>, covered: nat, total: nat)
    requires Balanced(nodes, log, covered, total)
    ensures Balanced(nodes + [Gap(0, 0)], log, covered, total)
  {
    EmptyQueue();
    hide QueueOf, Span, Count, Unreported;
    QueueAppend(nodes, [Gap(0, 0)]);
  }

  lemma BalancedPublish(nodes: seq<Gap>, log: seq<bool>, covered: nat, total: nat)
    requires nodes != [] && nodes[|nodes| - 1].dropped == 0 && Balanced(nodes, log, covered, total)
    ensures Balanced(WithPublished(nodes), log + [true], covered, total)
  {
    hide QueueOf, Span, Count, Unreported;
    SentAtEnd(nodes);
    AddAdvances(log, covered, true);
  }

  lemma BalancedDrop(nodes: seq<Gap>, log: seq<bool>, covered: nat, total: nat)
    requires nodes != [] && nodes[|nodes| - 1].send > 0 && Balanced(nodes, log, covered, total)
    ensures Balanced(WithDropped(nodes), log + [false], covered, total)
  {
    SplitLast(nodes);
    hide QueueOf, Span, Count, Unreported;
    DroppedLast(nodes);
    AddAdvances(log, covered, false);
  }

  lemma BalancedAtOnce(nodes: seq<Gap>, log: seq<bool>, covered: nat, total: nat)
    requires forall i :: 0 <= i < |nodes| ==> nodes[i] == Gap(0, 0)
    requires Balanced(nodes, log, covered, total)
    ensures Balanced(nodes, log + [false], covered, total + 1)
  {
    hide QueueOf, Span, Count, Unreported;
    QueueOfEmptyRuns(nodes);
    AddAdvances(log, covered, false);
  }

  // The ACK ends within the first run that is left.
  lemma BalancedWithin(nodes: seq<Gap>, i: nat, n: nat, log: seq<bool>, covered: nat, total: nat)
    requires i < |nodes| && forall j :: 0 <= j < i ==> nodes[j] == Gap(0, 0)
    requires n < nodes[i].send && Balanced(nodes, log, covered, total)
    ensures Balanced(nodes[i := Gap(nodes[i].send - n, nodes[i].dropped)], log, covered + n, total + n)
  {
    hide QueueOf, Span, Count, Unreported, Run;
    var left := nodes[i := Gap(nodes[i].send - n, nodes[i].dropped)];
    QueueFrom(nodes, i);
    QueueFrom(left, i);
    assert left[i + 1..] == nodes[i + 1..];
    AckWithinRun(nodes[i], QueueOf(nodes[i + 1..]), n);
    AckAdvances(log, covered, n);
  }

  // What the ACK thread leaves starts with a published event.
  lemma QueueStarts(nodes: seq<Gap>)
    requires nodes != [] ==> nodes[0].send > 0 || nodes == [Gap(0, 0)]
    ensures Span(QueueOf(nodes), 0) == 0
  {
    EmptyQueue();
    if nodes != [] && nodes[0].send > 0 {
      assert QueueOf(nodes)[0];
    }
  }

  lemma EmptyRun(gaps: seq<Gap>, i: nat)
    requires i < |gaps| && forall j :: 0 <= j <= i ==> gaps[j] == Gap(0, 0)
    ensures QueueOf(gaps) == QueueOf(gaps[i + 1..])
  {
    QueueFrom(gaps, i);
  }

  // The ACK takes all of the first run that is left.
  lemma BalancedTaken(nodes: seq<Gap>, i: nat, log: seq<bool>, covered: nat, total: nat)
    requires i < |nodes| && forall j :: 0 <= j < i ==> nodes[j] == Gap(0, 0)
    requires i + 1 < |nodes| ==> nodes[i + 1].send > 0 || nodes[i + 1..] == [Gap(0, 0)]
    requires Balanced(nodes, log, covered, total)
    ensures var gap := nodes[i];
      && Balanced(nodes[i := Gap(0, 0)], log, covered + gap.send, total + gap.send + gap.dropped)
      && (i == |nodes| - 1 ==> covered + gap.send == Count(log))
  {
    EmptyQueue();
    hide Span, Count, Unreported, QueueOf, Run;
    var gap, left, rest := nodes[i], nodes[i := Gap(0, 0)], nodes[i + 1..];
    QueueFrom(nodes, i);
    assert left[i + 1..] == rest;
    EmptyRun(left, i);
    QueueStarts(rest);
    AckRun(gap, QueueOf(rest), gap.send);
    AckedFromUnreported(log, covered, gap.send);
    AckAdvances(log, covered, gap.send);
    if i == |nodes| - 1 {
      assert rest == [];
    }
  }

  lemma CountMore(log: seq<bool>, published: bool)
    ensures Count(log) <= Count(log + [published])
  {
    CountAppend(log, [published]);
  }

  // ----- each step keeps the invariant

  lemma StartIsSafe(s: State)
    requires IsStart(s)
    ensures Inv(s)
  {
    BalancedAtStart();
    InFlightIs(s.producers);
    NoneWaiting(s.producers);
    hide Balanced, Count;
  }

  lemma Buffers(s: State, p: nat)
    requires Inv(s) && Enabled(s, Buffer(p))
    ensures Inv(Apply(s, Buffer(p)))
  {
    hide Balanced, Count, InFlight, OnlyOne, LockedByProducer, Waiting, Sum;
    InFlightStays(s.producers, p, Queued);
    WaitingAfter(s.producers, p, Queued);
  }

  // A producer that begins finds no other in flight.
  lemma Begins(s: State, p: nat, producer: Producer)
    requires Inv(s) && CanBegin(s, p)
    ensures InFlight(s.producers) == Idle
    ensures var after := s.producers[p := producer];
      OnlyOne(after) && InFlight(after) == if Began(producer) then producer else Idle
    ensures Waiting(s.producers[p := producer]) == Waiting(s.producers) - if producer.Idle? then 1 else 0
  {
    hide Sliced, Exact, WithinBounds;
    InFlightIs(s.producers);
    InFlightAfter(s.producers, p, producer);
    WaitingAfter(s.producers, p, producer);
  }

  // The event of the producer has been counted.
  lemma Ends(s: State, p: nat)
    requires Inv(s) && p < |s.producers| && Began(s.producers[p])
    ensures InFlight(s.producers) == s.producers[p]
    ensures var after := s.producers[p := Idle];
      OnlyOne(after) && InFlight(after) == Idle && Waiting(after) == Waiting(s.producers) - 1
  {
    hide Sliced, Exact, WithinBounds;
    InFlightAfter(s.producers, p, Idle);
    WaitingAfter(s.producers, p, Idle);
  }

  lemma PublishBegins(s: State, p: nat)
    requires Inv(s) && Enabled(s, PublishBegin(p))
    ensures Inv(Apply(s, PublishBegin(p)))
  {
    hide Balanced, Count, InFlight, OnlyOne, LockedByProducer, Waiting, Sum;
    var tail := |s.nodes| - 1;
    if s.nodes[tail].dropped > 0 {
      Begins(s, p, Publishing(tail + 1));
      BalancedLink(s.nodes, s.log, Covered(s), Total(s));
    } else {
      Begins(s, p, Publishing(tail));
    }
  }

  lemma PublishEnds(s: State, p: nat)
    requires Inv(s) && Enabled(s, PublishEnd(p))
    ensures Inv(Apply(s, PublishEnd(p)))
  {
    hide Balanced, Count, InFlight, OnlyOne, LockedByProducer, Waiting, Sum;
    Ends(s, p);
    BalancedPublish(s.nodes, s.log, Covered(s), Total(s));
    CountMore(s.log, true);
    assert Apply(s, PublishEnd(p)).nodes == WithPublished(s.nodes);
  }

  lemma TotalIsBuffered(s: State)
    requires Inv(s)
    ensures Total(s) <= |s.log| <= s.buffered
  {
    hide Shaped, ProducerPlaced, AckerPlaced, WithinBounds, QueueOf, Unreported, Count, Waiting, Sum;
  }

  lemma DropBegins(s: State, p: nat)
    requires Inv(s) && Enabled(s, DropBegin(p))
    ensures Inv(Apply(s, DropBegin(p)))
  {
    hide Balanced, Count, InFlight, OnlyOne, LockedByProducer, Waiting, Sum;
    var tail := |s.nodes| - 1;
    if s.nodes[tail].send > 0 {
      Begins(s, p, Dropping(tail));
    } else {
      DropReports(s, p);
    }
  }

  lemma DropReports(s: State, p: nat)
    requires Inv(s) && Enabled(s, DropBegin(p)) && s.nodes[|s.nodes| - 1].send == 0
    ensures Inv(Apply(s, DropBegin(p)))
  {
    hide Balanced, Count, InFlight, OnlyOne, LockedByProducer, Waiting, Sum;
    Begins(s, p, Idle);
    CountMore(s.log, false);
    BalancedAtOnce(s.nodes, s.log, Covered(s), Total(s));
    TotalIsBuffered(s);
    SumMore(s.delivered, Slice(s.reported, s.reported + 1));
  }

  lemma DropEnds(s: State, p: nat)
    requires Inv(s) && Enabled(s, DropEnd(p))
    ensures Inv(Apply(s, DropEnd(p)))
  {
    hide Balanced, Count, InFlight, OnlyOne, LockedByProducer, Waiting, Sum;
    Ends(s, p);
    BalancedDrop(s.nodes, s.log, Covered(s), Total(s));
    CountMore(s.log, false);
    assert Apply(s, DropEnd(p)).nodes == WithDropped(s.nodes);
  }

  lemma AckBegins(s: State, n: nat)
    requires Inv(s) && Enabled(s, AckBegin(n))
    ensures Inv(Apply(s, AckBegin(n)))
  {
    hide Balanced, Count, InFlight, OnlyOne, LockedByProducer, Waiting, Sum;
  }

  lemma HasItsLock(producers: seq<Producer>)
    ensures InFlight(producers) == Idle || Began(InFlight(producers))
  {
    InFlightIs(producers);
  }

  lemma InFlightLocks(s: State)
    ensures var busy := InFlight(s.producers); Began(busy) ==> LockedByProducer(s, busy.node)
  {
    InFlightIs(s.producers);
  }

  lemma AckLocks(s: State)
    requires Inv(s) && Enabled(s, AckLock)
    ensures Inv(Apply(s, AckLock))
  {
    hide Balanced, Count, InFlight, OnlyOne, LockedByProducer, Waiting, Sum;
    HasItsLock(s.producers);
    InFlightLocks(s);
  }

  lemma AckEnds(s: State)
    requires Inv(s) && Enabled(s, AckEnd)
    ensures Inv(Apply(s, AckEnd))
  {
    hide Balanced, Count, InFlight, OnlyOne, LockedByProducer, Waiting, Sum;
    TotalIsBuffered(s);
  }

  lemma AckCalls(s: State)
    requires Inv(s) && Enabled(s, AckCall)
    ensures Inv(Apply(s, AckCall))
  {
    hide Balanced, Count, InFlight, OnlyOne, LockedByProducer, Waiting, Sum;
    SumMore(s.delivered, s.acker.slice);
  }

  lemma AckUnlocksWithin(s: State)
    requires Inv(s) && Enabled(s, AckUnlock) && s.acker.n < s.nodes[s.acker.node].send
    ensures Inv(Apply(s, AckUnlock))
  {
    hide Balanced, Count, InFlight, OnlyOne, LockedByProducer, Waiting, Sum;
    BalancedWithin(s.nodes, s.acker.node, s.acker.n, s.log, Covered(s), Total(s));
  }

  lemma SlicedStays(s: State, t: State)
    requires Sliced(s) && !s.acker.Calling? && !t.acker.Calling?
    requires t.buffered == s.buffered && t.log == s.log && t.producers == s.producers
    requires t.reported == s.reported && t.delivered == s.delivered
    ensures Sliced(t)
  {
  }

  lemma AckUnlocksAll(s: State)
    requires Inv(s) && Enabled(s, AckUnlock) && s.acker.n >= s.nodes[s.acker.node].send
    ensures Inv(Apply(s, AckUnlock))
  {
    hide Balanced, Count, InFlight, OnlyOne, LockedByProducer, Sliced;
    var i, tail := s.acker.node, |s.nodes| - 1;
    assert i + 1 == tail ==> s.nodes[tail].send > 0 || s.nodes[i + 1..] == [Gap(0, 0)];
    BalancedTaken(s.nodes, i, s.log, Covered(s), Total(s));
    SlicedStays(s, Apply(s, AckUnlock));
  }

  lemma AckUnlocks(s: State)
    requires Inv(s) && Enabled(s, AckUnlock)
    ensures Inv(Apply(s, AckUnlock))
  {
    hide Inv, Apply;
    if s.acker.n < s.nodes[s.acker.node].send {
      AckUnlocksWithin(s);
    } else {
      AckUnlocksAll(s);
    }
  }

  lemma StepKeepsInv(s: State, step: Step)
    requires Inv(s) && Enabled(s, step)
    ensures Inv(Apply(s, step))
  {
    hide Inv, Apply, Enabled;
    match step
    case Buffer(p) => Buffers(s, p);
    case PublishBegin(p) => PublishBegins(s, p);
    case PublishEnd(p) => PublishEnds(s, p);
    case DropBegin(p) => DropBegins(s, p);
    case DropEnd(p) => DropEnds(s, p);
    case AckBegin(n) => AckBegins(s, n);
    case AckLock => AckLocks(s);
    case AckUnlock => AckUnlocks(s);
    case AckEnd => AckEnds(s);
    case AckCall => AckCalls(s);
  }

  // However the producers and the ACK thread interleave, the events reported
  // and about to be reported are the longest prefix with as many published
  // ones as were covered, only one producer is between its two sections, "gap
  // list expected to be empty" never happens, and neither does "too many
  // events acked" unless more was ACKed than published.
  lemma {:induction false} EveryScheduleIsSafe(start: State, schedule: seq<Step>)
    requires IsStart(start) && Exec(start, schedule).Some?
    ensures Inv(Exec(start, schedule).value)
  {
    hide Inv, Apply, Enabled, IsStart;
    if |schedule| == 0 {
      StartIsSafe(start);
    } else {
      var n := |schedule| - 1;
      EveryScheduleIsSafe(start, schedule[..n]);
      StepKeepsInv(Exec(start, schedule[..n]).value, schedule[n]);
    }
  }

  // The reported events are the longest prefix with that many published ones.
  predicate IsLongestPrefix(log: seq<bool>, total: nat, covered: nat) {
    && total <= |log| && Count(log[..total]) == covered
    && forall k :: total < k <= |log| ==> Count(log[..k]) > covered
  }

  lemma InvIsExact(s: State)
    requires Inv(s)
    ensures IsLongestPrefix(s.log, Total(s), Covered(s))
    ensures s.acker.Looping? && s.acker.n == 0 ==> Covered(s) == s.acked + s.acker.acked
  {
    hide Count, Span, Shaped, ProducerPlaced, AckerPlaced, WithinBounds, QueueOf, Unreported;
    SpanIsLongestPrefix(s.log, Covered(s));
  }

  // Whenever no ACK is being counted, exactly the longest prefix of the events
  // with as many published ones as were ACKed has been reported.
  lemma RestingIsExact(start: State, schedule: seq<Step>)
    requires IsStart(start) && Exec(start, schedule).Some? && !InCall(Exec(start, schedule).value)
    ensures var s := Exec(start, schedule).value; IsLongestPrefix(s.log, s.reported, s.acked)
  {
    hide Exec, Inv, IsLongestPrefix;
    EveryScheduleIsSafe(start, schedule);
    InvIsExact(Exec(start, schedule).value);
  }

  // A call that completes reports, together with what has been reported
  // before, exactly that prefix for its argument.
  lemma CompletedAckIsExact(start: State, schedule: seq<Step>)
    requires IsStart(start) && Exec(start, schedule).Some? && Enabled(Exec(start, schedule).value, AckEnd)
    ensures var s := Exec(start, schedule).value;
      IsLongestPrefix(s.log, s.reported + s.acker.total, s.acked + s.acker.acked)
  {
    hide Exec, Inv, IsLongestPrefix;
    EveryScheduleIsSafe(start, schedule);
    InvIsExact(Exec(start, schedule).value);
  }

  // Some ACK asks for more published events than there have been, all ACKs
  // before it taken together.
  ghost predicate AsksTooMuch(start: State, schedule: seq<Step>) {
    exists k :: 0 <= k < |schedule| && AsksAt(start, schedule, k)
  }

  ghost predicate AsksAt(start: State, schedule: seq<Step>, k: nat)
    requires k < |schedule|
  {
    && schedule[k].AckBegin? && Exec(start, schedule[..k]).Some?
    && Exec(start, schedule[..k]).value.acked + schedule[k].n > Count(Exec(start, schedule[..k]).value.log)
  }

  lemma AsksOneMore(start: State, schedule: seq<Step>, step: Step)
    ensures AsksTooMuch(start, schedule + [step]) <==>
            AsksTooMuch(start, schedule) || AsksAt(start, schedule + [step], |schedule|)
  {
    hide Exec, Count;
    var longer := schedule + [step];
    forall k | 0 <= k < |schedule| ensures AsksAt(start, longer, k) <==> AsksAt(start, schedule, k) {
      assert longer[..k] == schedule[..k];
    }
  }

  lemma ExcessOfStep(s: State, step: Step)
    requires Enabled(s, step)
    ensures Apply(s, step).excess <==> s.excess || (step.AckBegin? && s.acked + step.n > Count(s.log))
  {
  }

  lemma {:induction false} ExcessExactly(start: State, schedule: seq<Step>)
    requires IsStart(start) && Exec(start, schedule).Some?
    ensures Exec(start, schedule).value.excess <==> AsksTooMuch(start, schedule)
  {
    if |schedule| == 0 {
    } else {
      hide Enabled, Apply, IsStart, Count, AsksTooMuch;
      var n := |schedule| - 1;
      ExcessExactly(start, schedule[..n]);
      ExcessOfStep(Exec(start, schedule[..n]).value, schedule[n]);
      AsksOneMore(start, schedule[..n], schedule[n]);
      assert schedule[..n] + [schedule[n]] == schedule;
    }
  }

  // The list is never found not to be empty, and too many events are found
  // ACKed only if some ACK asked for more than had been published.
  lemma NoPanicWithoutExcess(start: State, schedule: seq<Step>)
    requires IsStart(start) && Exec(start, schedule).Some?
    ensures var s := Exec(start, schedule).value;
      s.panic != ListNotEmpty && (!AsksTooMuch(start, schedule) ==> s.panic == NoPanic)
  {
    hide Exec;
    EveryScheduleIsSafe(start, schedule);
    ExcessExactly(start, schedule);
  }

  // At most one producer is between its two sections.
  lemma ProducersExclude(start: State, schedule: seq<Step>, p: nat, q: nat)
    requires IsStart(start) && Exec(start, schedule).Some?
    ensures var s := Exec(start, schedule).value;
      p < |s.producers| && q < |s.producers| && Began(s.producers[p]) && Began(s.producers[q]) ==> p == q
  {
    hide Exec;
    EveryScheduleIsSafe(start, schedule);
  }

  // ----- the order of the callbacks

  // At any time the values cut off the buffer are in it, none is handed to a
  // callback twice, and none is left out once the callbacks have run.
  lemma SlicesPartition(start: State, schedule: seq<Step>)
    requires IsStart(start) && Exec(start, schedule).Some?
    ensures Sliced(Exec(start, schedule).value)
  {
    hide Exec;
    EveryScheduleIsSafe(start, schedule);
  }

  // The slices come one after the other, and `next` after the last.
  predicate Consecutive(slices: seq<Slice>, next: nat) {
    if |slices| == 0 then next == 0
    else
      var n := |slices| - 1;
      slices[n].to == next && Consecutive(slices[..n], slices[n].from)
  }

  lemma ConsecutiveMore(slices: seq<Slice>, slice: Slice, next: nat)
    ensures Consecutive(slices + [slice], next) <==> slice.to == next && Consecutive(slices, slice.from)
  {
    assert (slices + [slice])[..|slices|] == slices;
  }

  // The callbacks get the values in the order of the buffer, so far.
  predicate InSequence(s: State) {
    if s.acker.Calling? then s.acker.slice.to == s.reported && Consecutive(s.delivered, s.acker.slice.from)
    else Consecutive(s.delivered, s.reported)
  }

  // A dropped event is reported at once while the callback for an ACK has not
  // run yet.
  predicate Overtakes(s: State, step: Step) {
    && step.DropBegin? && s.acker.Calling?
    && |s.nodes| > 0 && s.nodes[|s.nodes| - 1].send == 0 && s.head == |s.nodes| - 1
  }

  // That is exactly how the order of the callbacks gets lost.
  lemma OnlyDropsOvertake(s: State, step: Step)
    requires Inv(s) && Enabled(s, step) && InSequence(s)
    ensures InSequence(Apply(s, step)) <==> !Overtakes(s, step)
  {
    hide Shaped, ProducerPlaced, AckerPlaced, Exact, WithinBounds, LockedByProducer, LockedByAcker, Sum, Waiting;
    hide Consecutive;
    match step
    case DropBegin(_) => {
      var slice := Slice(s.reported, s.reported + 1);
      ConsecutiveMore(s.delivered, slice, slice.to);
    }
    case AckCall =>
      ConsecutiveMore(s.delivered, s.acker.slice, s.reported);
    case _ =>
  }

  lemma {:induction false} ExecBefore(start: State, schedule: seq<Step>, k: nat)
    requires k <= |schedule| && Exec(start, schedule).Some?
    ensures Exec(start, schedule[..k]).Some?
  {
    hide Enabled, Apply;
    if k == |schedule| {
      assert schedule[..k] == schedule;
    } else {
      ExecBefore(start, schedule[..|schedule| - 1], k);
      assert schedule[..|schedule| - 1][..k] == schedule[..k];
    }
  }

  // The state before the step `k`, that step, and the state after it.
  lemma StepAt(start: State, schedule: seq<Step>, k: nat)
    requires IsStart(start) && Exec(start, schedule).Some? && k < |schedule|
    ensures var was, now := Exec(start, schedule[..k]), Exec(start, schedule[..k + 1]);
      was.Some? && Inv(was.value) && Enabled(was.value, schedule[k]) && now == Some(Apply(was.value, schedule[k]))
  {
    hide Enabled, Apply, Inv, IsStart;
    ExecBefore(start, schedule, k);
    ExecBefore(start, schedule, k + 1);
    EveryScheduleIsSafe(start, schedule[..k]);
    assert schedule[..k + 1][..k] == schedule[..k];
  }

  ghost predicate AlwaysInSequence(start: State, schedule: seq<Step>) {
    forall k :: 0 <= k <= |schedule| && Exec(start, schedule[..k]).Some? ==>
      InSequence(Exec(start, schedule[..k]).value)
  }

  ghost predicate NeverOvertakes(start: State, schedule: seq<Step>) {
    forall k :: 0 <= k < |schedule| && Exec(start, schedule[..k]).Some? ==>
      !Overtakes(Exec(start, schedule[..k]).value, schedule[k])
  }

  lemma {:induction false} InSequenceUpTo(start: State, schedule: seq<Step>, k: nat)
    requires IsStart(start) && Exec(start, schedule).Some? && NeverOvertakes(start, schedule) && k <= |schedule|
    ensures Exec(start, schedule[..k]).Some? && InSequence(Exec(start, schedule[..k]).value)
  {
    ExecBefore(start, schedule, k);
    if k == 0 {
      assert schedule[..0] == [];
    } else {
      hide Exec, Enabled, Apply, Inv, IsStart, InSequence, Overtakes;
      InSequenceUpTo(start, schedule, k - 1);
      StepAt(start, schedule, k - 1);
      OnlyDropsOvertake(Exec(start, schedule[..k - 1]).value, schedule[k - 1]);
    }
  }

  lemma NotOvertakenAt(start: State, schedule: seq<Step>, k: nat)
    requires IsStart(start) && Exec(start, schedule).Some? && AlwaysInSequence(start, schedule) && k < |schedule|
    ensures Exec(start, schedule[..k]).Some? && !Overtakes(Exec(start, schedule[..k]).value, schedule[k])
  {
    hide Exec, Enabled, Apply, Inv, IsStart, InSequence, Overtakes;
    StepAt(start, schedule, k);
    OnlyDropsOvertake(Exec(start, schedule[..k]).value, schedule[k]);
  }

  // The callbacks get the values in the order of the buffer throughout a
  // schedule if and only if no drop overtakes the callback of an ACK in it.
  lemma InSequenceExactlyWithoutOvertaking(start: State, schedule: seq<Step>)
    requires IsStart(start) && Exec(start, schedule).Some?
    ensures AlwaysInSequence(start, schedule) <==> NeverOvertakes(start, schedule)
  {
    hide Exec, InSequence, Overtakes, IsStart;
    if NeverOvertakes(start, schedule) {
      forall k | 0 <= k <= |schedule|
        ensures Exec(start, schedule[..k]).Some? && InSequence(Exec(start, schedule[..k]).value)
      {
        InSequenceUpTo(start, schedule, k);
      }
    }
    if AlwaysInSequence(start, schedule) {
      forall k | 0 <= k < |schedule|
        ensures Exec(start, schedule[..k]).Some? && !Overtakes(Exec(start, schedule[..k]).value, schedule[k])
      {
        NotOvertakenAt(start, schedule, k);
      }
    }
  }

  lemma ExecMore(start: State, schedule: seq<Step>, step: Step)
    requires Exec(start, schedule).Some? && Enabled(Exec(start, schedule).value, step)
    ensures Exec(start, schedule + [step]) == Some(Apply(Exec(start, schedule).value, step))
  {
    assert (schedule + [step])[..|schedule|] == schedule;
  }

  // A single event has been counted and ACKed, and its callback not run.
  predicate OneAcked(s: State) {
    && s.nodes == [Gap(0, 0)] && s.head == 0 && s.producers == [Idle] && |s.values| == 1 && s.buffered == 1
    && s.acker == Calling(Slice(0, 1)) && s.delivered == [] && s.reported == 1 && s.panic == NoPanic
  }

  // One event is published and ACKed, and its value cut off the buffer.
  lemma OneIsAcked(start: State) returns (schedule: seq<Step>)
    requires IsStart(start) && |start.producers| == 1
    ensures Exec(start, schedule).Some? && OneAcked(Exec(start, schedule).value)
  {
    schedule := [];
    assert Exec(start, schedule) == Some(start);
    hide Exec, Count, Began;
    ExecMore(start, schedule, Buffer(0));
    schedule := schedule + [Buffer(0)];
    ExecMore(start, schedule, PublishBegin(0));
    schedule := schedule + [PublishBegin(0)];
    ExecMore(start, schedule, PublishEnd(0));
    schedule := schedule + [PublishEnd(0)];
    ExecMore(start, schedule, AckBegin(1));
    schedule := schedule + [AckBegin(1)];
    ExecMore(start, schedule, AckLock);
    schedule := schedule + [AckLock];
    ExecMore(start, schedule, AckUnlock);
    schedule := schedule + [AckUnlock];
    ExecMore(start, schedule, AckEnd);
    schedule := schedule + [AckEnd];
  }

  // The callback for an event that was dropped later runs first.
  lemma DropCanOvertake(start: State) returns (schedule: seq<Step>)
    requires IsStart(start) && |start.producers| == 1
    ensures Exec(start, schedule).Some? && Exec(start, schedule).value.delivered == [Slice(1, 2), Slice(0, 1)]
  {
    schedule := OneIsAcked(start);
    hide Exec, Count;
    ExecMore(start, schedule, Buffer(0));
    schedule := schedule + [Buffer(0)];
    ExecMore(start, schedule, DropBegin(0));
    schedule := schedule + [DropBegin(0)];
    ExecMore(start, schedule, AckCall);
    schedule := schedule + [AckCall];
  }
}
