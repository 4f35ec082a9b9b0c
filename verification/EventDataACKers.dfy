/** ACKers that hand out the private data of the reported events. */
module EventDataACKers {
  import opened Documents
  import opened GapLists
  import opened TrackingACKers

  // The arguments of the callback of EventPrivateReporter.
  datatype Batch<+T> = Batch(acked: int, data: seq<T>)

  class EventDataACKer<T> {
    const tracking: TrackingACKer
    var data: seq<T>

    // All private values passed in, and those handed out so far.
    ghost var added: seq<T>
    ghost var reported: seq<T>

    // What has been reported is a prefix of what was added, in that order,
    // and each event still tracked has its value in `data`.
    ghost predicate Valid()
      reads this, tracking, tracking.nodes
    {
      && tracking.Valid()
      && added == reported + data
      && |data| == |tracking.Queue()|
    }

    // The values an ACK of n events reports.
    ghost function Covered(n: int): (prefix: seq<T>)
      requires Valid()
      reads this, tracking, tracking.nodes
      ensures prefix <= data
    {
      data[..Span(tracking.Queue(), if n < 0 then 0 else n)]
    }

    constructor ()
      ensures Valid() && added == [] && reported == []
      ensures tracking.Queue() == [] && fresh(tracking) && fresh(tracking.nodes)
    {
      tracking := new TrackingACKer();
      data, added, reported := [], [], [];
    }

    method AddEvent(datum: T, published: bool) returns (batch: Option<Batch<T>>)
      requires Valid()
      modifies this, tracking, tracking.nodes
      ensures Valid() && fresh(set node | node in tracking.nodes && node !in old(tracking.nodes))
      ensures added == old(added) + [datum]
      ensures data == if batch.Some? then [] else old(data) + [datum]
      ensures batch.Some? <==> AtOnce(old(tracking.Queue()), published)
      ensures batch.Some? ==> batch.value == Batch(0, [datum]) && old(data) == []
      ensures reported == old(reported) + if batch.Some? then [datum] else []
      ensures tracking.Queue() == Enqueue(old(tracking.Queue()), published)
    {
      hide QueueOf, IsGapList, tracking.Linked;
      data := data + [datum];
      added := added + [datum];
      assert added == reported + data;
      var report := tracking.AddEvent(published);
      if report.Some? {
        batch := OnACK(report.value.acked, report.value.total);
      } else {
        batch := None;
      }
    }

    method ACKEvents(n: int) returns (panicked: bool, batch: Option<Batch<T>>)
      requires Valid()
      modifies this, tracking, tracking.nodes
      ensures panicked <==> n > Count(old(tracking.Queue()))
      ensures fresh(set node | node in tracking.nodes && node !in old(tracking.nodes))
      ensures added == old(added)
      ensures if panicked then batch == None else Valid()
      ensures !panicked ==>
        && reported == old(reported + Covered(n))
        && data == old(data[|Covered(n)|..])
        && tracking.Queue() == Dequeue(old(tracking.Queue()), n)
        && batch == if old(Covered(n)) == [] then None else Some(Batch(n, old(Covered(n))))
    {
      var report;
      panicked, report := tracking.ACKEvents(n);
      batch := None;
      if !panicked {
        batch := OnACK(report.acked, report.total);
      }
    }

    // onACK: cuts the reported events off the front of the buffer.
    method OnACK(acked: int, total: nat) returns (batch: Option<Batch<T>>)
      requires total <= |data| && added == reported + data
      modifies this`data, this`reported
      ensures data == old(data)[total..] && reported == old(reported) + old(data)[..total]
      ensures added == reported + data
      ensures batch == if total == 0 then None else Some(Batch(acked, old(data)[..total]))
    {
      if total == 0 {
        return None;
      }
      var cut := data[..total];
      data := data[total..];
      reported := reported + cut;
      batch := if |cut| > 0 then Some(Batch(acked, cut)) else None;
    }
  }

  // LastEventPrivateReporter
  class LastEventReporter<T> {
    var ignored: int

    // The sum of all counts received, and of those passed on.
    ghost var received: int
    ghost var delivered: int

    ghost predicate Valid()
      reads this
    {
      delivered + ignored == received
    }

    constructor ()
      ensures Valid() && received == 0 && ignored == 0
    {
      ignored, received, delivered := 0, 0, 0;
    }

    // The latest value that is not nil is passed on, if there is one.
    method OnBatch(acked: int, data: seq<Option<T>>) returns (call: Option<(int, T)>)
      requires Valid()
      modifies this
      ensures Valid() && received == old(received) + acked
      ensures call == None <==> forall i :: 0 <= i < |data| ==> data[i] == None
      ensures call.Some? ==>
        && call.value.0 == old(ignored) + acked && ignored == 0 && delivered == received
        && exists i :: 0 <= i < |data| && data[i] == Some(call.value.1)
                       && forall j :: i < j < |data| ==> data[j] == None
      ensures call == None ==> delivered == old(delivered)
    {
      received := received + acked;
      var i := |data| - 1;
      while i >= 0
        invariant -1 <= i < |data|
        invariant forall j :: i < j < |data| ==> data[j] == None
        invariant ignored == old(ignored) && delivered == old(delivered) && received == old(received) + acked
      {
        match data[i] {
          case Some(d) =>
            call := Some((ignored + acked, d));
            delivered := delivered + ignored + acked;
            ignored := 0;
            return;
          case None =>
        }
        i := i - 1;
      }
      ignored := ignored + acked;
      call := None;
    }
  }

  // What LastEventPrivateReporter returns: the reporter on top of an ACKer.
  class LastEventACKer<T> {
    const acker: EventDataACKer<Option<T>>
    const reporter: LastEventReporter<T>

    // The sum of all counts ACKed.
    ghost var acked: int

    // What was delivered and what is held back add up to all that was ACKed.
    ghost predicate Valid()
      reads this, acker, acker.tracking, acker.tracking.nodes, reporter
    {
      acker.Valid() && reporter.Valid() && acked == reporter.delivered + reporter.ignored
    }

    constructor ()
      ensures Valid() && acked == 0
      ensures fresh(acker) && fresh(acker.tracking) && fresh(acker.tracking.nodes) && fresh(reporter)
    {
      acker := new EventDataACKer<Option<T>>();
      reporter := new LastEventReporter<T>();
      acked := 0;
    }

    method AddEvent(datum: Option<T>, published: bool) returns (call: Option<(int, T)>)
      requires Valid()
      modifies this, acker, acker.tracking, acker.tracking.nodes, reporter
      ensures Valid() && acked == old(acked)
      ensures fresh(set node | node in acker.tracking.nodes && node !in old(acker.tracking.nodes))
      ensures call == if AtOnce(old(acker.tracking.Queue()), published) && datum.Some?
                      then Some((old(reporter.ignored), datum.value)) else None
    {
      hide acker.tracking.Valid;
      call := None;
      var batch := acker.AddEvent(datum, published);
      if batch.Some? {
        assert batch.value.data[0] == datum;
        call := reporter.OnBatch(batch.value.acked, batch.value.data);
      }
    }

    method ACKEvents(n: int) returns (panicked: bool, call: Option<(int, T)>)
      requires Valid()
      modifies this, acker, acker.tracking, acker.tracking.nodes, reporter
      ensures panicked <==> n > Count(old(acker.tracking.Queue()))
      ensures fresh(set node | node in acker.tracking.nodes && node !in old(acker.tracking.nodes))
      ensures !panicked ==> Valid() && acked == old(acked) + if n > 0 then n else 0
      ensures !panicked ==>
        var data := old(acker.Covered(n));
        && (call == None <==> forall i :: 0 <= i < |data| ==> data[i] == None)
        && (call.Some? ==>
              && call.value.0 == old(reporter.ignored) + n && reporter.ignored == 0
              && exists i :: 0 <= i < |data| && data[i] == Some(call.value.1)
                             && forall j :: i < j < |data| ==> data[j] == None)
    {
      ghost var queue := acker.tracking.Queue();
      SomethingCovered(acker, n);
      hide acker.tracking.Valid, acker.Covered;
      call := None;
      var batch;
      panicked, batch := acker.ACKEvents(n);
      if batch.Some? {
        call := reporter.OnBatch(batch.value.acked, batch.value.data);
      }
      acked := acked + if n > 0 then n else 0;
    }
  }

  // An ACK reports something exactly if it ACKs something.
  lemma SomethingCovered<T>(acker: EventDataACKer<T>, n: int)
    requires acker.Valid()
    ensures n <= Count(acker.tracking.Queue()) ==> (acker.Covered(n) == [] <==> n <= 0)
  {
    var queue := acker.tracking.Queue();
    if 0 < n <= Count(queue) {
      SpanIsLongestPrefix(queue, n);
    } else if n <= 0 {
      NothingToReport(acker.tracking.gaps);
    }
  }
}
