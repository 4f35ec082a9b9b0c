/**
 * The queue of unreported events of a client, true for a published and false
 * for a dropped one, and its compressed form: a list of runs, each some
 * published events followed by some dropped ones.
 */
module GapLists {

  datatype Gap = Gap(send: nat, dropped: nat)

  function Run(gap: Gap): seq<bool> {
    seq(gap.send, _ => true) + seq(gap.dropped, _ => false)
  }

  function QueueOf(gaps: seq<Gap>): seq<bool> {
    if |gaps| == 0 then [] else Run(gaps[0]) + QueueOf(gaps[1..])
  }

  // Only the last run may still be without dropped events, and a run without
  // published events stands for the empty queue.
  ghost predicate IsGapList(gaps: seq<Gap>) {
    && |gaps| > 0
    && (forall i :: 0 <= i < |gaps| - 1 ==> gaps[i].dropped > 0)
    && (forall i :: 0 <= i < |gaps| ==> gaps[i].send > 0 || gaps == [Gap(0, 0)])
  }

  // The number of published events.
  function Count(queue: seq<bool>): nat {
    if |queue| == 0 then 0 else (if queue[0] then 1 else 0) + Count(queue[1..])
  }

  // A dropped event with nothing outstanding is reported at once.
  predicate AtOnce(queue: seq<bool>, published: bool) {
    !published && queue == []
  }

  // The queue after an event has been added.
  function Enqueue(queue: seq<bool>, published: bool): seq<bool> {
    if AtOnce(queue, published) then queue else queue + [published]
  }

  // The queue after an ACK.
  function Dequeue(queue: seq<bool>, n: int): seq<bool> {
    queue[Span(queue, if n < 0 then 0 else n)..]
  }

  // How many events an ACK of `n` published ones reports.
  function Span(queue: seq<bool>, n: nat): (k: nat)
    ensures k <= |queue|
  {
    if |queue| == 0 || (n == 0 && queue[0]) then 0
    else 1 + Span(queue[1..], if queue[0] then n - 1 else n)
  }

  lemma {:induction false} CountAppend(a: seq<bool>, b: seq<bool>)
    ensures Count(a + b) == Count(a) + Count(b)
  {
    if |a| == 0 {
      assert a + b == b;
    } else {
      assert (a + b)[1..] == a[1..] + b;
      CountAppend(a[1..], b);
    }
  }

  // The ACKed events plus those dropped behind them: the longest prefix of
  // the queue that holds exactly n published events.
  lemma {:induction false} SpanIsLongestPrefix(queue: seq<bool>, n: nat)
    requires n <= Count(queue)
    ensures Count(queue[..Span(queue, n)]) == n
    ensures forall k :: Span(queue, n) < k <= |queue| ==> Count(queue[..k]) > n
  {
    var s := Span(queue, n);
    if |queue| == 0 {
    } else {
      if n == 0 && queue[0] {
        forall k | 0 < k <= |queue| ensures Count(queue[..k]) > 0 {
        }
      } else {
        SpanIsLongestPrefix(queue[1..], if queue[0] then n - 1 else n);
        assert queue[..s][1..] == queue[1..][..s - 1];
        forall k | s < k <= |queue| ensures Count(queue[..k]) > n {
          assert queue[..k][1..] == queue[1..][..k - 1];
        }
      }
    }
  }

  lemma {:induction false} SpanAppend(a: seq<bool>, b: seq<bool>, n: nat)
    requires Count(a) <= n && Span(a, n) == |a|
    ensures Span(a + b, n) == |a| + Span(b, n - Count(a))
  {
    if |a| == 0 {
      assert a + b == b;
    } else {
      assert (a + b)[1..] == a[1..] + b;
      SpanAppend(a[1..], b, if a[0] then n - 1 else n);
    }
  }

  // ----- the queue is what follows the reported events

  // What is left of all events once `acked` published ones have been ACKed.
  function Unreported(flags: seq<bool>, acked: nat): seq<bool> {
    flags[Span(flags, acked)..]
  }

  lemma {:induction false} SpanAll(queue: seq<bool>, n: nat)
    requires Count(queue) <= n
    ensures Span(queue, n) == |queue|
  {
    if |queue| == 0 {
    } else {
      SpanAll(queue[1..], if queue[0] then n - 1 else n);
    }
  }

  // ACKs one after the other report what one ACK of their sum reports.
  lemma SpanInSteps(flags: seq<bool>, acked: nat, more: seq<bool>, n: nat)
    requires acked <= Count(flags)
    ensures Span(flags + more, acked + n) == Span(flags, acked) + Span(Unreported(flags, acked) + more, n)
    ensures Count(Unreported(flags, acked)) == Count(flags) - acked
  {
    var s := Span(flags, acked);
    SpanIsLongestPrefix(flags, acked);
    SpanAll(flags[..s], acked + n);
    SpanAppend(flags[..s], flags[s..] + more, acked + n);
    CountAppend(flags[..s], flags[s..]);
    assert flags[..s] + flags[s..] == flags;
    assert flags[..s] + (flags[s..] + more) == flags + more;
  }

  lemma SpanOfOne(published: bool)
    ensures Span([published], 0) == if published then 0 else 1
  {
    assert [published][1..] == [];
  }

  lemma AddedToUnreported(flags: seq<bool>, acked: nat, published: bool)
    requires acked <= Count(flags)
    ensures Enqueue(Unreported(flags, acked), published) == Unreported(flags + [published], acked)
    ensures acked <= Count(flags + [published])
  {
    var queue, s, all := Unreported(flags, acked), Span(flags, acked), flags + [published];
    SpanInSteps(flags, acked, [], 0);
    SpanInSteps(flags, acked, [published], 0);
    CountAppend(flags, [published]);
    SpanOfOne(published);
    assert flags + [] == flags && queue + [] == queue;
    assert Span(queue, 0) == 0;
    if queue == [] {
      assert queue + [published] == [published];
      assert Unreported(all, acked) == if published then all[s..] else all[s + 1..];
    } else {
      assert Span(queue + [published], 0) == 0;
      assert Unreported(all, acked) == all[s..] == queue + [published];
    }
  }

  lemma AckedFromUnreported(flags: seq<bool>, acked: nat, n: nat)
    requires acked <= Count(flags)
    ensures Count(Unreported(flags, acked)) == Count(flags) - acked
    ensures Dequeue(Unreported(flags, acked), n) == Unreported(flags, acked + n)
  {
    SpanInSteps(flags, acked, [], n);
    assert flags + [] == flags && Unreported(flags, acked) + [] == Unreported(flags, acked);
  }

  // An ACK moves the boundary by what it reports of the queue.
  lemma AckAdvances(log: seq<bool>, acked: nat, n: nat)
    requires acked <= Count(log) && n <= Count(Unreported(log, acked))
    ensures var queue := Unreported(log, acked);
      && acked + n <= Count(log)
      && Unreported(log, acked + n) == queue[Span(queue, n)..]
      && Span(log, acked + n) == Span(log, acked) + Span(queue, n)
  {
    AckedFromUnreported(log, acked, n);
    assert |Unreported(log, acked + n)| == |Unreported(log, acked)| - Span(Unreported(log, acked), n);
  }

  // An event that is added moves it only if it is reported at once.
  lemma AddAdvances(log: seq<bool>, acked: nat, published: bool)
    requires acked <= Count(log)
    ensures var queue := Unreported(log, acked);
      && acked <= Count(log + [published])
      && Unreported(log + [published], acked) == Enqueue(queue, published)
      && Span(log + [published], acked) == Span(log, acked) + if AtOnce(queue, published) then 1 else 0
  {
    AddedToUnreported(log, acked, published);
    assert |Unreported(log + [published], acked)| == |Enqueue(Unreported(log, acked), published)|;
  }

  // ----- runs

  lemma {:induction false} RunOfSent(n: nat)
    ensures var q := Run(Gap(n, 0)); |q| == n && Count(q) == n && forall m: nat :: m >= n ==> Span(q, m) == n
    ensures forall m: nat :: m < n ==> Span(Run(Gap(n, 0)), m) == m
  {
    if n == 0 {
    } else {
      RunOfSent(n - 1);
      assert Run(Gap(n, 0))[1..] == Run(Gap(n - 1, 0));
      forall m: nat | m < n ensures Span(Run(Gap(n, 0)), m) == m {
        if m > 0 { assert Span(Run(Gap(n - 1, 0)), m - 1) == m - 1; }
      }
    }
  }

  lemma {:induction false} RunOfDropped(n: nat)
    ensures var q := Run(Gap(0, n)); |q| == n && Count(q) == 0 && forall m: nat :: Span(q, m) == n
  {
    if n == 0 {
    } else {
      RunOfDropped(n - 1);
      assert Run(Gap(0, n))[1..] == Run(Gap(0, n - 1));
    }
  }

  // ----- the list

  lemma {:induction false} QueueAppend(a: seq<Gap>, b: seq<Gap>)
    ensures QueueOf(a + b) == QueueOf(a) + QueueOf(b)
  {
    if |a| == 0 {
      assert a + b == b;
    } else {
      assert (a + b)[1..] == a[1..] + b;
      QueueAppend(a[1..], b);
    }
  }

  lemma {:induction false} QueueOfEmptyRuns(gaps: seq<Gap>)
    requires forall i :: 0 <= i < |gaps| ==> gaps[i] == Gap(0, 0)
    ensures QueueOf(gaps) == []
  {
    if |gaps| == 0 {
    } else {
      QueueOfEmptyRuns(gaps[1..]);
    }
  }

  // Empty runs at the front do not matter.
  lemma QueueFrom(gaps: seq<Gap>, i: nat)
    requires i < |gaps| && forall j :: 0 <= j < i ==> gaps[j] == Gap(0, 0)
    ensures QueueOf(gaps) == Run(gaps[i]) + QueueOf(gaps[i + 1..])
  {
    assert gaps == gaps[..i] + gaps[i..];
    QueueAppend(gaps[..i], gaps[i..]);
    QueueOfEmptyRuns(gaps[..i]);
    assert gaps[i..][1..] == gaps[i + 1..];
  }

  lemma QueueOfOne(gap: Gap)
    ensures QueueOf([gap]) == Run(gap)
  {
    assert [gap][1..] == [];
  }

  lemma EmptyQueue()
    ensures QueueOf([]) == [] && QueueOf([Gap(0, 0)]) == [] && Count([]) == 0 && IsGapList([Gap(0, 0)])
  {
    QueueOfOne(Gap(0, 0));
  }

  function WithPublished(gaps: seq<Gap>): seq<Gap>
    requires |gaps| > 0
  {
    var last := gaps[|gaps| - 1];
    if last.dropped > 0 then gaps + [Gap(1, 0)] else gaps[|gaps| - 1 := Gap(last.send + 1, 0)]
  }

  function WithDropped(gaps: seq<Gap>): seq<Gap>
    requires |gaps| > 0
  {
    var last := gaps[|gaps| - 1];
    gaps[|gaps| - 1 := Gap(last.send, last.dropped + 1)]
  }

  lemma PublishedAtEnd(gaps: seq<Gap>)
    requires IsGapList(gaps)
    ensures IsGapList(WithPublished(gaps)) && QueueOf(WithPublished(gaps)) == QueueOf(gaps) + [true]
  {
    hide QueueOf;
    var n := |gaps| - 1;
    if gaps[n].dropped > 0 {
      QueueAppend(gaps, [Gap(1, 0)]);
      QueueOfOne(Gap(1, 0));
    } else {
      SentAtEnd(gaps);
    }
  }

  lemma SentAtEnd(gaps: seq<Gap>)
    requires |gaps| > 0 && gaps[|gaps| - 1].dropped == 0
    ensures QueueOf(WithPublished(gaps)) == QueueOf(gaps) + [true]
  {
    hide QueueOf;
    var n := |gaps| - 1;
    SplitLast(gaps);
    SplitLast(WithPublished(gaps));
    assert WithPublished(gaps)[..n] == gaps[..n];
    assert Run(Gap(gaps[n].send + 1, 0)) == Run(gaps[n]) + [true];
  }

  lemma DroppedAtEnd(gaps: seq<Gap>)
    requires IsGapList(gaps) && gaps != [Gap(0, 0)]
    ensures IsGapList(WithDropped(gaps)) && QueueOf(WithDropped(gaps)) == QueueOf(gaps) + [false]
  {
    hide QueueOf;
    DroppedLast(gaps);
  }

  lemma DroppedLast(gaps: seq<Gap>)
    requires |gaps| > 0
    ensures QueueOf(WithDropped(gaps)) == QueueOf(gaps) + [false]
  {
    hide QueueOf;
    var n := |gaps| - 1;
    SplitLast(gaps);
    SplitLast(WithDropped(gaps));
    assert WithDropped(gaps)[..n] == gaps[..n];
    assert Run(WithDropped(gaps)[n]) == Run(gaps[n]) + [false];
  }

  lemma SplitLast(gaps: seq<Gap>)
    requires |gaps| > 0
    ensures QueueOf(gaps) == QueueOf(gaps[..|gaps| - 1]) + Run(gaps[|gaps| - 1])
  {
    var n := |gaps| - 1;
    assert gaps == gaps[..n] + [gaps[n]];
    QueueAppend(gaps[..n], [gaps[n]]);
    QueueOfOne(gaps[n]);
  }

  lemma NothingToReport(gaps: seq<Gap>)
    requires IsGapList(gaps)
    ensures Span(QueueOf(gaps), 0) == 0
  {
    if gaps[0].send > 0 {
      assert QueueOf(gaps)[0];
    } else {
      EmptyQueue();
    }
  }

  // An ACK that stays within the published events of a run.
  lemma AckWithinRun(gap: Gap, rest: seq<bool>, n: nat)
    requires n < gap.send
    ensures var q, left := Run(gap) + rest, Run(Gap(gap.send - n, gap.dropped)) + rest;
      && |q| == n + |left| && left == q[n..] && left[0]
      && Count(q) == n + Count(left)
      && Span(q, n) == n
  {
    var sent, left := Run(Gap(n, 0)), Run(Gap(gap.send - n, gap.dropped)) + rest;
    assert Run(gap) + rest == sent + left;
    RunOfSent(n);
    CountAppend(sent, left);
    SpanAppend(sent, left, n);
    assert left[0];
  }

  // An ACK that covers a run.
  lemma AckRun(gap: Gap, rest: seq<bool>, n: nat)
    requires gap.send <= n
    ensures var q, k := Run(gap) + rest, gap.send + gap.dropped;
      && |q| == k + |rest| && rest == q[k..]
      && Count(q) == gap.send + Count(rest)
      && Span(q, n) == k + Span(rest, n - gap.send)
  {
    var sent, dropped := Run(Gap(gap.send, 0)), Run(Gap(0, gap.dropped));
    RunOfSent(gap.send);
    RunOfDropped(gap.dropped);
    assert Run(gap) + rest == sent + (dropped + rest);
    hide Run, Count, Span;
    CountAppend(dropped, rest);
    CountAppend(sent, dropped + rest);
    SpanAppend(dropped, rest, n - gap.send);
    SpanAppend(sent, dropped + rest, n);
  }

  // An ACK that stays within the published events of the first run.
  lemma AckWithinFirst(gaps: seq<Gap>, n: nat)
    requires IsGapList(gaps) && 0 < n < gaps[0].send
    ensures var rest := gaps[0 := Gap(gaps[0].send - n, gaps[0].dropped)];
      && IsGapList(rest)
      && QueueOf(rest) == QueueOf(gaps)[n..]
      && Count(QueueOf(gaps)) == n + Count(QueueOf(rest))
      && Span(QueueOf(gaps), n) == n
      && Span(QueueOf(rest), 0) == 0
  {
    hide Run, Count;
    AckWithinRun(gaps[0], QueueOf(gaps[1..]), n);
  }

  // An ACK that covers the first run.
  lemma AckFirst(gaps: seq<Gap>, n: nat)
    requires IsGapList(gaps) && gaps[0].send <= n
    ensures var rest, k := gaps[1..], gaps[0].send + gaps[0].dropped;
      && (rest != [] ==> IsGapList(rest) && rest[0].send > 0 && gaps[0].send > 0)
      && |QueueOf(gaps)| == k + |QueueOf(rest)|
      && QueueOf(rest) == QueueOf(gaps)[k..]
      && Count(QueueOf(gaps)) == gaps[0].send + Count(QueueOf(rest))
      && Span(QueueOf(gaps), n) == k + Span(QueueOf(rest), n - gaps[0].send)
  {
    hide Run, Count, Span;
    AckRun(gaps[0], QueueOf(gaps[1..]), n);
  }
}
