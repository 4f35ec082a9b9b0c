/** The update log, and what a store recovers from the files it finds on disk. */
module Replay {
  import opened Documents
  import opened TxIds
  import opened DataFiles
  import Checkpoints

  datatype OpName = SetName | RemoveName | OtherName

  datatype Op = OpSet(key: string, value: Fields) | OpRemove(key: string)

  // A log entry is an action document followed by a data document. `Torn`
  // stands for bytes that do not decode: a document cut short.
  datatype Token =
    | Action(name: OpName, id: TxId)
    | Data(key: string, value: Option<Fields>)
    | Torn

  datatype Replayed = Replayed(table: Table, txid: TxId, entries: nat, ok: bool)

  datatype Disk = Disk(
    files: map<TxId, seq<Checkpoints.Token>>,
    log: seq<Token>,
    checkpointTmp: Option<seq<Checkpoints.Token>>,
    activeTmp: bool,
    activeMarker: Option<TxId>)

  function NameOf(op: Op): OpName {
    match op
    case OpSet(_, _) => SetName
    case OpRemove(_) => RemoveName
  }

  function DataOf(op: Op): Token {
    match op
    case OpSet(k, v) => Data(k, Some(v))
    case OpRemove(k) => Data(k, None)
  }

  function Apply(op: Op, table: Table): Table {
    match op
    case OpSet(k, v) => table[k := v]
    case OpRemove(k) => table - {k}
  }

  // Decodes `data` into the operation struct picked by the action. Members
  // the struct does not have are ignored and absent ones stay zero.
  function DecodeOp(name: OpName, data: Token): Option<Op> {
    match data
    case Torn => None
    case Action(_, _) =>
      (match name
       case SetName => Some(OpSet("", map[]))
       case RemoveName => Some(OpRemove(""))
       case OtherName => None)
    case Data(k, v) =>
      (match name
       case SetName => Some(OpSet(k, if v.Some? then v.value else map[]))
       case RemoveName => Some(OpRemove(k))
       case OtherName => None)
  }

  // The log replayed on top of `table`, which holds everything up to `txid`:
  // entries that are not newer are skipped, a gap or a document that does not
  // decode stops the replay.
  function Run(log: seq<Token>, txid: TxId, table: Table): Replayed {
    if |log| == 0 then Replayed(table, txid, 0, true)
    else if |log| == 1 || !log[0].Action? then Replayed(table, txid, 0, false)
    else
      match DecodeOp(log[0].name, log[1])
      case None => Replayed(table, txid, 0, false)
      case Some(op) =>
        var id := log[0].id;
        if IsTxIDLessEqual(id, txid) then Run(log[2..], txid, table)
        else if id != Inc(txid) then Replayed(table, txid, 0, false)
        else
          var rest := Run(log[2..], id, Apply(op, table));
          rest.(entries := rest.entries + 1)
  }

  ghost function Base(disk: Disk): (TxId, Table) {
    if disk.files == map[] then (0, map[])
    else
      var active := Newest(disk.files.Keys);
      var loaded := Checkpoints.Decode(disk.files[active]);
      (active, if loaded.Some? then loaded.value else map[])
  }

  // What opening the store on `disk` reads.
  ghost function Recover(disk: Disk): Replayed {
    Run(disk.log, Base(disk).0, Base(disk).1)
  }

  // ----- logs

  // The ids of the entries, up to the first token that is not an entry.
  function Ids(log: seq<Token>): set<TxId> {
    if |log| == 0 || !log[0].Action? then {}
    else {log[0].id} + (if |log| == 1 then {} else Ids(log[2..]))
  }

  function Entry(id: TxId, op: Op): seq<Token> {
    [Action(NameOf(op), id), DataOf(op)]
  }

  // What an interrupted write of an entry can leave at the end of the log.
  function Partial(stage: nat, id: TxId, op: Op): seq<Token>
    requires stage <= 4
  {
    match stage
    case 0 => []
    case 1 => [Torn]
    case 2 => [Action(NameOf(op), id)]
    case 3 => [Action(NameOf(op), id), Torn]
    case 4 => Entry(id, op)
  }

  function Then(first: Replayed, rest: Replayed): Replayed {
    rest.(entries := first.entries + rest.entries)
  }

  lemma {:induction false} RunAppend(a: seq<Token>, b: seq<Token>, txid: TxId, table: Table)
    requires Run(a, txid, table).ok
    ensures var r := Run(a, txid, table);
      Run(a + b, txid, table) == Then(r, Run(b, r.txid, r.table))
    decreases |a|
  {
    if |a| == 0 {
      assert a + b == b;
    } else {
      var op := DecodeOp(a[0].name, a[1]).value;
      assert (a + b)[2..] == a[2..] + b;
      var id := a[0].id;
      if IsTxIDLessEqual(id, txid) {
        RunAppend(a[2..], b, txid, table);
      } else {
        RunAppend(a[2..], b, id, Apply(op, table));
      }
    }
  }

  lemma {:induction false} IdsAppend(a: seq<Token>, b: seq<Token>, txid: TxId, table: Table)
    requires Run(a, txid, table).ok
    ensures Ids(a + b) == Ids(a) + Ids(b)
    decreases |a|
  {
    if |a| == 0 {
      assert a + b == b;
    } else {
      var op := DecodeOp(a[0].name, a[1]).value;
      assert (a + b)[2..] == a[2..] + b;
      if IsTxIDLessEqual(a[0].id, txid) {
        IdsAppend(a[2..], b, txid, table);
      } else {
        IdsAppend(a[2..], b, a[0].id, Apply(op, table));
      }
    }
  }

  lemma RunEntry(log: seq<Token>, txid: TxId, table: Table, op: Op)
    requires |log| >= 2 && log[..2] == Entry(Inc(txid), op)
    ensures var rest := Run(log[2..], Inc(txid), Apply(op, table));
      Run(log, txid, table) == rest.(entries := rest.entries + 1)
  {
    hide Inc, IsTxIDLessEqual;
    assert log[0] == log[..2][0] && log[1] == log[..2][1];
    NextIsNewer(txid);
  }

  // An interrupted append leaves the recovered state alone, and is noticed,
  // unless the entry is complete, in which case the operation took effect.
  lemma RunPartial(log: seq<Token>, txid: TxId, table: Table, stage: nat, op: Op)
    requires stage <= 4 && Run(log, txid, table).ok
    ensures var r := Run(log, txid, table);
      Run(log + Partial(stage, Inc(r.txid), op), txid, table) ==
      if stage == 0 then r
      else if stage == 4 then Replayed(Apply(op, r.table), Inc(r.txid), r.entries + 1, true)
      else r.(ok := false)
  {
    var r := Run(log, txid, table);
    var tail := Partial(stage, Inc(r.txid), op);
    RunAppend(log, tail, txid, table);
    hide Inc, IsTxIDLessEqual;
    NextIsNewer(r.txid);
    if stage == 4 {
      RunEntry(tail, r.txid, r.table, op);
    }
  }

  // Entries that are not newer than the base change nothing. A log that
  // replayed without error before still does.
  lemma {:induction false} RunStale(log: seq<Token>, txid: TxId, table: Table)
    requires forall id :: id in Ids(log) ==> IsTxIDLessEqual(id, txid)
    ensures var r := Run(log, txid, table); r.table == table && r.txid == txid && r.entries == 0
    ensures forall t, s :: Run(log, t, s).ok ==> Run(log, txid, table).ok
    decreases |log|
  {
    if |log| <= 1 || !log[0].Action? || DecodeOp(log[0].name, log[1]).None? {
    } else {
      RunStale(log[2..], txid, table);
    }
  }

  // The id of the first entry that is newer than `txid`, if the log gets that far.
  function FirstNewer(log: seq<Token>, txid: TxId): Option<TxId> {
    if |log| <= 1 || !log[0].Action? || DecodeOp(log[0].name, log[1]).None? then None
    else if IsTxIDLessEqual(log[0].id, txid) then FirstNewer(log[2..], txid)
    else Some(log[0].id)
  }

  // A log lets nothing in exactly if its first newer entry is not the next one.
  lemma {:induction false} RunAppliesExactly(log: seq<Token>, txid: TxId, table: Table)
    ensures var r := Run(log, txid, table);
      && (r.entries == 0 <==> FirstNewer(log, txid) != Some(Inc(txid)))
      && (r.entries == 0 ==> r.table == table && r.txid == txid)
    decreases |log|
  {
    if |log| <= 1 || !log[0].Action? || DecodeOp(log[0].name, log[1]).None? {
    } else if IsTxIDLessEqual(log[0].id, txid) {
      RunAppliesExactly(log[2..], txid, table);
    }
  }

  // After a replay without error every id of the log is behind the next one.
  lemma {:induction false} RunOkIsBehind(log: seq<Token>, txid: TxId, table: Table, next: TxId)
    requires Run(log, txid, table).ok && next == Inc(Run(log, txid, table).txid)
    requires Age(next, txid) < HALF && forall id :: id in Ids(log) ==> Age(next, id) < HALF
    ensures 1 <= Age(next, txid) && forall id :: id in Ids(log) ==> 1 <= Age(next, id)
    decreases |log|
  {
    if |log| == 0 {
      AgeOfLast(txid);
    } else {
      var op := DecodeOp(log[0].name, log[1]).value;
      var id := log[0].id;
      assert Ids(log) == {id} + Ids(log[2..]);
      if IsTxIDLessEqual(id, txid) {
        OrderByAge(next, id, txid);
        RunOkIsBehind(log[2..], txid, table, next);
      } else {
        RunOkIsBehind(log[2..], id, Apply(op, table), next);
        AgeOfPrevious(next, txid);
      }
    }
  }

  // The replayed id is the id of the data file plus the number of applied entries.
  lemma {:induction false} RunCounts(log: seq<Token>, txid: TxId, table: Table)
    ensures var r := Run(log, txid, table); r.txid == (txid + r.entries) % MODULUS
    decreases |log|
  {
    hide Inc, IsTxIDLessEqual, DecodeOp, Apply;
    if |log| <= 1 || !log[0].Action? || DecodeOp(log[0].name, log[1]).None? {
    } else {
      var op := DecodeOp(log[0].name, log[1]).value;
      var id := log[0].id;
      if IsTxIDLessEqual(id, txid) {
        RunCounts(log[2..], txid, table);
      } else if id == Inc(txid) {
        RunCounts(log[2..], id, Apply(op, table));
        IncThenAdd(txid, Run(log[2..], id, Apply(op, table)).entries);
      }
    }
  }

  // ----- replay on another table, or of part of a log

  // What can be seen of a log whose reading fails somewhere.
  ghost predicate IsCutShort(seen: seq<Token>, log: seq<Token>) {
    exists n :: 0 <= n <= |log| && (seen == log[..n] || seen == log[..n] + [Torn])
  }

  // A reading that fails within a document is noticed.
  lemma {:induction false} RunTorn(log: seq<Token>, txid: TxId, table: Table)
    ensures Run(log + [Torn], txid, table) == Run(log, txid, table).(ok := false)
    decreases |log|
  {
    hide Inc, IsTxIDLessEqual;
    if |log| <= 1 {
    } else {
      assert (log + [Torn])[2..] == log[2..] + [Torn];
      if log[0].Action? && DecodeOp(log[0].name, log[1]).Some? {
        RunTorn(log[2..], txid, table);
        RunTorn(log[2..], log[0].id, Apply(DecodeOp(log[0].name, log[1]).value, table));
      }
    }
  }

  // Nothing behind a document that does not decode, or behind an action that the
  // store does not know, is replayed.
  lemma NothingBehindUnreadable(log: seq<Token>, bad: Token, rest: seq<Token>, txid: TxId, table: Table)
    requires Run(log, txid, table).ok && (bad.Torn? || bad.Data? || (bad.Action? && bad.name == OtherName))
    ensures Run(log + [bad] + rest, txid, table) == Run(log, txid, table).(ok := false)
  {
    assert log + [bad] + rest == log + ([bad] + rest);
    RunAppend(log, [bad] + rest, txid, table);
  }

  // The first documents of a log give no more than all of them, and if they
  // apply as many entries they give the same.
  lemma {:induction false} RunOfFirst(log: seq<Token>, n: nat, txid: TxId, table: Table)
    requires n <= |log|
    ensures var r, whole := Run(log[..n], txid, table), Run(log, txid, table);
      && r.entries <= whole.entries
      && (r.entries == whole.entries ==> r.table == whole.table && r.txid == whole.txid)
    decreases |log|
  {
    hide Inc, IsTxIDLessEqual;
    RunAppliesExactly(log, txid, table);
    if n <= 1 || !log[0].Action? || DecodeOp(log[0].name, log[1]).None? {
    } else {
      var op, id := DecodeOp(log[0].name, log[1]).value, log[0].id;
      assert log[..n][2..] == log[2..][..n - 2];
      if IsTxIDLessEqual(id, txid) {
        RunOfFirst(log[2..], n - 2, txid, table);
      } else if id == Inc(txid) {
        RunOfFirst(log[2..], n - 2, id, Apply(op, table));
      }
    }
  }

  lemma {:induction false} IdsOfFirst(log: seq<Token>, n: nat)
    requires n <= |log|
    ensures Ids(log[..n]) <= Ids(log)
    decreases |log|
  {
    if n == 0 || !log[0].Action? {
    } else if n == 1 {
      assert log[..1][0] == log[0];
    } else {
      assert log[..n][2..] == log[2..][..n - 2];
      IdsOfFirst(log[2..], n - 2);
    }
  }

  // The keys that the applied entries set or remove.
  function Touched(log: seq<Token>, txid: TxId): set<string> {
    if |log| <= 1 || !log[0].Action? then {}
    else
      match DecodeOp(log[0].name, log[1])
      case None => {}
      case Some(op) =>
        var id := log[0].id;
        if IsTxIDLessEqual(id, txid) then Touched(log[2..], txid)
        else if id != Inc(txid) then {}
        else {op.key} + Touched(log[2..], id)
  }

  ghost predicate Agree(a: Table, b: Table, keys: set<string>) {
    forall k :: k in keys ==> (k in a <==> k in b) && (k in a && k in b ==> a[k] == b[k])
  }

  ghost predicate AgreeBut(a: Table, b: Table, keys: set<string>) {
    forall k :: k !in keys ==> (k in a <==> k in b) && (k in a && k in b ==> a[k] == b[k])
  }

  lemma ApplyAgrees(op: Op, a: Table, b: Table, same: set<string>)
    requires Agree(a, b, same)
    ensures Agree(Apply(op, a), Apply(op, b), same + {op.key}) && AgreeBut(Apply(op, a), a, {op.key})
  {
  }

  lemma AgreeButBoth(a: Table, b: Table, c: Table, first: set<string>, second: set<string>)
    requires AgreeBut(a, b, first) && AgreeBut(b, c, second)
    ensures AgreeBut(a, c, second + first)
  {
  }

  lemma AgreeAlready(a: Table, b: Table, same: set<string>)
    requires Agree(a, b, same)
    ensures Agree(a, b, same + {}) && AgreeBut(a, a, {})
  {
    assert same + {} == same;
  }

  // Which entries are applied does not depend on the table. They decide the
  // keys they touch, and leave the others alone.
  lemma {:induction false} RunOnOther(log: seq<Token>, txid: TxId, a: Table, b: Table, same: set<string>)
    requires Agree(a, b, same)
    ensures var r, s, keys := Run(log, txid, a), Run(log, txid, b), Touched(log, txid);
      && r.txid == s.txid && r.entries == s.entries && r.ok == s.ok
      && Agree(r.table, s.table, same + keys) && AgreeBut(r.table, a, keys)
    decreases |log|
  {
    hide Inc, IsTxIDLessEqual, Agree, AgreeBut, Apply;
    AgreeAlready(a, b, same);
    if |log| <= 1 || !log[0].Action? || DecodeOp(log[0].name, log[1]).None? {
    } else {
      var op, id := DecodeOp(log[0].name, log[1]).value, log[0].id;
      if IsTxIDLessEqual(id, txid) {
        RunOnOther(log[2..], txid, a, b, same);
      } else if id == Inc(txid) {
        ApplyAgrees(op, a, b, same);
        RunOnOther(log[2..], id, Apply(op, a), Apply(op, b), same + {op.key});
        AgreeButBoth(Run(log[2..], id, Apply(op, a)).table, Apply(op, a), a, Touched(log[2..], id), {op.key});
        assert same + Touched(log, txid) == same + {op.key} + Touched(log[2..], id);
      }
    }
  }

  // ----- torn logs

  // The log written by applying `ops` in order after transaction `txid`.
  function Written(txid: TxId, ops: seq<Op>): seq<Token>
    decreases |ops|
  {
    if |ops| == 0 then [] else Entry(Inc(txid), ops[0]) + Written(Inc(txid), ops[1..])
  }

  function ApplyAll(ops: seq<Op>, table: Table): Table {
    if |ops| == 0 then table else ApplyAll(ops[1..], Apply(ops[0], table))
  }

  // A log is cut after `cut` documents, possibly in the middle of the next one.
  function Cut(log: seq<Token>, cut: nat, torn: bool): seq<Token>
    requires cut <= |log|
  {
    log[..cut] + if torn then [Torn] else []
  }

  lemma {:induction false} RunWritten(txid: TxId, ops: seq<Op>, table: Table)
    ensures var r := Run(Written(txid, ops), txid, table);
      r.table == ApplyAll(ops, table) && r.entries == |ops| && r.ok
    decreases |ops|
  {
    hide Inc, IsTxIDLessEqual;
    if |ops| == 0 {
    } else {
      var log := Written(txid, ops);
      RunWritten(Inc(txid), ops[1..], Apply(ops[0], table));
      assert log[..2] == Entry(Inc(txid), ops[0]) && log[2..] == Written(Inc(txid), ops[1..]);
      RunEntry(log, txid, table, ops[0]);
    }
  }

  lemma {:induction false} WrittenPrefix(txid: TxId, ops: seq<Op>, n: nat)
    requires n <= |ops|
    ensures |Written(txid, ops)| == 2 * |ops| && Written(txid, ops)[..2 * n] == Written(txid, ops[..n])
    decreases |ops|
  {
    hide Inc;
    if |ops| == 0 {
    } else {
      var log := Written(txid, ops);
      WrittenPrefix(Inc(txid), ops[1..], if n > 0 then n - 1 else 0);
      if n > 0 {
        assert ops[..n][1..] == ops[1..][..n - 1];
        assert log[..2 * n] == log[..2] + log[2..][..2 * (n - 1)];
      }
    }
  }

  // Less than one entry: nothing at all, or documents that stop too early.
  predicate IsIncomplete(tail: seq<Token>) {
    |tail| <= 1 || (|tail| == 2 && tail[1] == Torn)
  }

  lemma RunIncomplete(tail: seq<Token>, txid: TxId, table: Table)
    requires IsIncomplete(tail)
    ensures Run(tail, txid, table) == Replayed(table, txid, 0, tail == [])
  {
  }

  lemma CutSplits(txid: TxId, ops: seq<Op>, cut: nat, torn: bool) returns (complete: seq<Token>, tail: seq<Token>)
    requires cut <= |Written(txid, ops)|
    ensures cut / 2 <= |ops| && complete == Written(txid, ops[..cut / 2])
    ensures Cut(Written(txid, ops), cut, torn) == complete + tail
    ensures IsIncomplete(tail) && (tail == [] <==> cut % 2 == 0 && !torn)
  {
    var n := cut / 2;
    WrittenPrefix(txid, ops, 0);
    WrittenPrefix(txid, ops, n);
    hide Written;
    complete := Written(txid, ops[..n]);
    tail := Written(txid, ops)[2 * n..cut] + if torn then [Torn] else [];
  }

  // Torn-log recovery: `log` replays and `ops` were appended to it. Wherever
  // the appended part is cut, replay gives the state after exactly the
  // complete entries in it, and reports an entry that is not complete.
  lemma TornLog(log: seq<Token>, txid: TxId, ops: seq<Op>, table: Table, cut: nat, torn: bool)
    requires Run(log, txid, table).ok
    requires cut <= |Written(Run(log, txid, table).txid, ops)|
    ensures var before := Run(log, txid, table);
      var r := Run(log + Cut(Written(before.txid, ops), cut, torn), txid, table);
      && cut / 2 <= |ops|
      && r.table == ApplyAll(ops[..cut / 2], before.table)
      && r.entries == before.entries + cut / 2
      && r.txid == (txid + r.entries) % MODULUS
      && (r.ok <==> cut % 2 == 0 && !torn)
  {
    hide Inc, IsTxIDLessEqual, Run, Written, ApplyAll, Cut, IsIncomplete;
    var before := Run(log, txid, table);
    var complete, tail := CutSplits(before.txid, ops, cut, torn);
    RunWritten(before.txid, ops[..cut / 2], before.table);
    RunIncomplete(tail, Run(complete, before.txid, before.table).txid, ApplyAll(ops[..cut / 2], before.table));
    RunAppend(complete, tail, before.txid, before.table);
    RunAppend(log, complete + tail, txid, table);
    RunCounts(log + (complete + tail), txid, table);
  }
}
