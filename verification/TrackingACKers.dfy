/** The tracking ACKer: a linked list of gaps, appended to by producers, consumed by ACKs. */
module TrackingACKers {
  import opened Documents
  import opened GapLists

  const UINT32: int := 0x1_0000_0000

  // The arguments of the callback.
  datatype Report = Report(acked: int, total: nat)

  // x modulo the width of the counter.
  function Wrap(x: int): int {
    x % UINT32
  }

  lemma WrapAdd(x: int, k: int)
    ensures Wrap(Wrap(x) + k) == Wrap(x + k)
  {
  }

  class GapInfo {
    var next: GapInfo?
    var send: int
    var dropped: int

    constructor ()
      ensures next == null && send == 0 && dropped == 0
    {
      next, send, dropped := null, 0, 0;
    }
  }

  class TrackingACKer {
    var head: GapInfo
    var tail: GapInfo
    // An atomic.Uint32.
    var events: int

    ghost var nodes: seq<GapInfo>
    ghost var gaps: seq<Gap>

    ghost predicate Linked()
      reads this`head, this`tail, this`nodes, this`gaps, nodes
    {
      && |nodes| == |gaps| > 0
      && head == nodes[0] && tail == nodes[|nodes| - 1] && tail.next == null
      && (forall i, j :: 0 <= i < j < |nodes| ==> nodes[i] != nodes[j])
      && (forall i :: 0 <= i < |nodes| - 1 ==> nodes[i].next == nodes[i + 1])
      && (forall i :: 0 <= i < |nodes| ==> nodes[i].send == gaps[i].send && nodes[i].dropped == gaps[i].dropped)
    }

    ghost predicate Valid()
      reads this`head, this`tail, this`nodes, this`gaps, nodes
    {
      Linked() && IsGapList(gaps)
    }

    // The events added and not reported yet.
    ghost function Queue(): seq<bool>
      reads this`gaps
    {
      QueueOf(gaps)
    }

    // The counter agrees with the queue, modulo its width.
    ghost predicate Counted()
      reads this
    {
      events == Wrap(|Queue()|)
    }

    constructor ()
      ensures Valid() && Queue() == [] && Counted() && fresh(nodes)
    {
      var init := new GapInfo();
      head, tail, events := init, init, 0;
      nodes, gaps := [init], [Gap(0, 0)];
      new;
      EmptyQueue();
    }

    method AddEvent(published: bool) returns (report: Option<Report>)
      requires Valid()
      modifies this, nodes
      ensures Valid() && fresh(set node | node in nodes && node !in old(nodes))
      ensures Queue() == Enqueue(old(Queue()), published)
      ensures report == if AtOnce(old(Queue()), published) then Some(Report(0, 1)) else None
      ensures old(Counted()) ==> Counted()
    {
      hide Wrap, QueueOf;
      WrapAdd(|Queue()|, 1);
      WrapAdd(|Queue()| + 1, -1);
      events := Wrap(events + 1);
      if published {
        AddPublishedEvent();
        report := None;
      } else {
        report := AddDropEvent();
      }
    }

    method AddPublishedEvent()
      requires Valid()
      modifies this, nodes
      ensures Valid() && fresh(set node | node in nodes && node !in old(nodes))
      ensures Queue() == old(Queue()) + [true] && events == old(events)
    {
      hide QueueOf, Run, Wrap, IsGapList;
      PublishedAtEnd(gaps);
      ghost var goal := WithPublished(gaps);
      if tail.dropped > 0 {
        AppendGap();
      }
      tail.send := tail.send + 1;
      gaps := gaps[|gaps| - 1 := Gap(gaps[|gaps| - 1].send + 1, gaps[|gaps| - 1].dropped)];
      assert gaps == goal;
    }

    // A new gap at the end of the list, still without events.
    method AppendGap()
      requires Linked()
      modifies this`tail, this`nodes, this`gaps, nodes
      ensures Linked() && fresh(tail) && nodes == old(nodes) + [tail] && gaps == old(gaps) + [Gap(0, 0)]
    {
      var tmp := new GapInfo();
      tail.next := tmp;
      tail := tmp;
      nodes, gaps := nodes + [tmp], gaps + [Gap(0, 0)];
    }

    method AddDropEvent() returns (report: Option<Report>)
      requires Valid()
      modifies this, nodes
      ensures Valid() && nodes == old(nodes)
      ensures report.None? ==> old(Queue()) != [] && Queue() == old(Queue()) + [false] && events == old(events)
      ensures report.Some? ==> old(Queue()) == [] && Queue() == [] && report.value == Report(0, 1)
      ensures report.Some? ==> events == Wrap(old(events) - 1)
    {
      var current := tail;
      if current.send == 0 && current.next == null {
        EmptyQueue();
        // send can only be 0 while the list is empty
        assert head == tail;
        report := Some(Report(0, 1));
        events := Wrap(events - 1);
        return;
      }
      DroppedAtEnd(gaps);
      current.dropped := current.dropped + 1;
      gaps := WithDropped(gaps);
      report := None;
    }

    // One round of the ACK loop: takes what it can from the first gap.
    method AckHead(n: int) returns (left: nat, covered: nat, emptyLst: bool)
      requires Valid() && 0 < n
      modifies this`head, this`nodes, this`gaps, nodes
      ensures Valid() && nodes != [] && (nodes == old(nodes) || nodes == old(nodes)[1..])
      ensures covered <= |old(Queue())| && Queue() == old(Queue())[covered..]
      ensures 0 <= left <= n && (left < n || emptyLst) && (emptyLst ==> Queue() == [])
      ensures Count(old(Queue())) - n == Count(Queue()) - left
      ensures Span(old(Queue()), n) == covered + Span(Queue(), left)
    {
      hide QueueOf, Span, Count, Run, IsGapList;
      EmptyQueue();
      var current := head;
      ghost var first := gaps[0];
      assert nodes[0] in nodes;
      emptyLst := false;
      if n >= current.send {
        AckFirst(gaps, n);
        var next := current.next;
        emptyLst := next == null;
        if next != null {
          head := next;
        }
      }
      if n < current.send {
        AckWithinFirst(gaps, n);
        current.send := current.send - n;
        covered := n;
        left := 0;
        gaps := gaps[0 := Gap(first.send - n, first.dropped)];
      } else {
        covered := current.send + current.dropped;
        left := n - current.send;
        current.dropped := 0;
        current.send := 0;
        if emptyLst {
          gaps := [Gap(0, 0)];
        } else {
          nodes, gaps := nodes[1..], gaps[1..];
        }
      }
    }

    // Without a panic the report covers the longest prefix of the queue that
    // holds exactly `acked` published events, and just that prefix is removed.
    method ACKEvents(acked: int) returns (panicked: bool, report: Report)
      requires Valid()
      modifies this, nodes
      ensures Valid() && fresh(set node | node in nodes && node !in old(nodes))
      ensures panicked <==> acked > Count(old(Queue()))
      ensures !panicked ==> report == Report(acked, Span(old(Queue()), if acked < 0 then 0 else acked))
      ensures !panicked ==> Queue() == old(Queue())[report.total..]
      ensures !panicked && old(Counted()) ==> Counted()
    {
      panicked := false;
      var total: nat := 0;
      if acked > 0 {
        panicked, total := Consume(acked);
      }
      report := Report(acked, total);
      if !panicked {
        hide Wrap, Linked, QueueOf;
        WrapAdd(|old(Queue())|, 0 - total);
        events := Wrap(events - total);
      }
      NothingToReport(old(gaps));
    }

    // The loop of ACKEvents.
    method Consume(acked: nat) returns (panicked: bool, total: nat)
      requires Valid()
      modifies this`head, this`nodes, this`gaps, nodes
      ensures Valid() && forall node :: node in nodes ==> node in old(nodes)
      ensures panicked <==> acked > Count(old(Queue()))
      ensures total <= |old(Queue())|
      ensures !panicked ==> total == Span(old(Queue()), acked) && Queue() == old(Queue())[total..]
    {
      assert nodes != [];
      hide QueueOf, Span, Count, IsGapList, Linked;
      var n: nat, emptyLst := acked, false;
      panicked, total := false, 0;
      ghost var queue, k := Queue(), 0;
      EmptyQueue();
      while n > 0
        invariant Valid() && nodes != [] && 0 <= k <= |old(nodes)| && nodes == old(nodes)[k..]
        invariant 0 <= total <= |queue| && Queue() == queue[total..]
        invariant Count(queue) - acked == Count(Queue()) - n
        invariant Span(queue, acked) == total + Span(Queue(), n)
        invariant emptyLst ==> Queue() == []
        decreases n, !emptyLst
      {
        if emptyLst {
          panicked := true;
          return;
        }
        ghost var was, left := nodes, Queue();
        var covered;
        n, covered, emptyLst := AckHead(n);
        total := total + covered;
        k := if nodes == was then k else k + 1;
        assert left[covered..] == queue[total..];
      }
      NothingToReport(gaps);
    }
  }
}
