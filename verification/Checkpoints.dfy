/** The data file format: one JSON array holding a record per key-value pair. */
module Checkpoints {
  import opened Documents

  type Members = seq<(string, Json)>

  datatype Token = Open | Comma | Close | Record(members: Members)

  // ----- writing

  // The elements in writing order, a comma in front of every one but the first.
  function Body(records: seq<Members>): seq<Token> {
    if |records| == 0 then []
    else
      var n := |records| - 1;
      Body(records[..n]) + (if n == 0 then [] else [Comma]) + [Record(records[n])]
  }

  function Render(records: seq<Members>): seq<Token> {
    [Open] + Body(records) + [Close]
  }

  // The members of `row`, each once, in some order.
  ghost predicate IsListing(members: Members, row: Row) {
    && (forall i, j :: 0 <= i < j < |members| ==> members[i].0 != members[j].0)
    && ObjectOf(members) == row
  }

  // `record` is the inlined form of an entry: the key member, then the fields.
  ghost predicate IsEntry(record: Members, key: string, row: Row) {
    |record| > 0 && record[0] == (KEY_FIELD, Text(key)) && IsListing(record[1..], row)
  }

  // `records` holds one entry for each key of `table`, visited in the order `keys`.
  ghost predicate Lists(records: seq<Members>, keys: seq<string>, table: map<string, Row>) {
    && |records| == |keys|
    && (forall i, j :: 0 <= i < j < |keys| ==> keys[i] != keys[j])
    && (forall k :: k in table <==> k in keys)
    && (forall i :: 0 <= i < |keys| ==> IsEntry(records[i], keys[i], table[keys[i]]))
  }

  // A file as it is written: the entries of the table, in some order, and
  // nothing else.
  ghost predicate IsFileOf(tokens: seq<Token>, table: map<string, Row>) {
    exists records, keys :: Lists(records, keys, table) && tokens == Render(records)
  }

  // ----- reading

  // Members of an object are decoded in order and a later duplicate wins.
  function ObjectOf(members: Members): Row {
    if |members| == 0 then map[]
    else
      var n := |members| - 1;
      ObjectOf(members[..n])[members[n].0 := members[n].1]
  }

  function ParseItems(tokens: seq<Token>): Option<seq<Members>> {
    if |tokens| < 2 || !tokens[0].Record? then None
    else if tokens[1] == Close then Some([tokens[0].members])
    else if tokens[1] != Comma then None
    else
      match ParseItems(tokens[2..])
      case None => None
      case Some(rest) => Some([tokens[0].members] + rest)
  }

  // Only the first JSON value of the file is decoded.
  function Parse(tokens: seq<Token>): Option<seq<Members>> {
    if |tokens| < 2 || tokens[0] != Open then None
    else if tokens[1] == Close then Some([])
    else ParseItems(tokens[1..])
  }

  // Records without a textual key member are skipped.
  function LoadRecord(table: Table, record: Members): Table {
    var state := ObjectOf(record);
    if KEY_FIELD in state && state[KEY_FIELD].Text?
    then table[state[KEY_FIELD].text := state - {KEY_FIELD}]
    else table
  }

  function LoadRecords(records: seq<Members>): Table {
    if |records| == 0 then map[]
    else
      var n := |records| - 1;
      LoadRecord(LoadRecords(records[..n]), records[n])
  }

  function Decode(tokens: seq<Token>): Option<Table> {
    match Parse(tokens)
    case None => None
    case Some(records) => Some(LoadRecords(records))
  }

  // ----- round trip

  lemma {:induction false} BodyFront(records: seq<Members>)
    requires |records| >= 2
    ensures Body(records) == [Record(records[0]), Comma] + Body(records[1..])
  {
    var n := |records| - 1;
    if n > 1 {
      BodyFront(records[..n]);
      assert records[..n][1..] == records[1..][..n - 1];
    } else {
      assert records[1..] == [records[1]];
      assert records[..1] == [records[0]];
      assert Body(records[..1]) == Body(records[..1][..0]) + [] + [Record(records[0])];
      assert Body(records[1..]) == Body(records[1..][..0]) + [] + [Record(records[1])];
    }
  }

  // Only what a rendering starts with is parsed, whatever may follow it.
  lemma {:induction false} ItemsAreRendered(tokens: seq<Token>)
    ensures ParseItems(tokens).Some? ==>
      var records := ParseItems(tokens).value; |records| > 0 && Body(records) + [Close] <= tokens
  {
    if ParseItems(tokens).Some? {
      var records := ParseItems(tokens).value;
      if tokens[1] == Close {
        assert records[..0] == [];
        assert Body(records) + [Close] == tokens[..2];
      } else {
        ItemsAreRendered(tokens[2..]);
        BodyFront(records);
        assert tokens == [tokens[0], Comma] + tokens[2..];
        assert records[1..] == ParseItems(tokens[2..]).value;
      }
    }
  }

  lemma {:induction false} RenderedItemsParse(tokens: seq<Token>, records: seq<Members>)
    requires |records| > 0 && Body(records) + [Close] <= tokens
    ensures ParseItems(tokens) == Some(records)
  {
    var items := Body(records) + [Close];
    assert tokens[..|items|] == items;
    if |records| == 1 {
      assert records[..0] == [];
      assert items == [Record(records[0]), Close];
      assert tokens[0] == items[0] && tokens[1] == items[1];
      assert records == [records[0]];
    } else {
      BodyFront(records);
      assert tokens[0] == items[0] && tokens[1] == items[1];
      assert items[2..] == Body(records[1..]) + [Close];
      assert tokens[2..][..|items| - 2] == items[2..];
      RenderedItemsParse(tokens[2..], records[1..]);
      assert records == [records[0]] + records[1..];
    }
  }

  // A file parses to some records exactly if it starts with their rendering.
  lemma ParsesExactly(tokens: seq<Token>, records: seq<Members>)
    ensures Parse(tokens) == Some(records) <==> Render(records) <= tokens
  {
    if Parse(tokens) == Some(records) {
      if records == [] {
        assert Render(records) == tokens[..2];
      }
      ItemsAreRendered(tokens[1..]);
      assert tokens == [tokens[0]] + tokens[1..];
    }
    if Render(records) <= tokens {
      var all := Render(records);
      assert tokens[..|all|] == all;
      assert tokens[0] == all[0] && tokens[1] == all[1];
      if records != [] {
        assert tokens[1..][..|all| - 1] == all[1..] == Body(records) + [Close];
        RenderedItemsParse(tokens[1..], records);
        assert all[1] != Close;
      }
    }
  }

  lemma ParseOfRender(records: seq<Members>)
    ensures Parse(Render(records)) == Some(records)
  {
    ParsesExactly(Render(records), records);
  }

  lemma {:induction false} CutItemsDoNotParse(records: seq<Members>, n: nat)
    requires |records| > 0 && n <= |Body(records)|
    ensures ParseItems((Body(records) + [Close])[..n]) == None
  {
    if |records| == 1 {
      assert records[..0] == [];
      assert |Body(records)| == 1;
    } else if n >= 2 {
      BodyFront(records);
      CutItemsDoNotParse(records[1..], n - 2);
      var tokens := (Body(records) + [Close])[..n];
      assert tokens[2..] == (Body(records[1..]) + [Close])[..n - 2];
    }
  }

  // A file that was not written to its end never decodes.
  lemma CutDoesNotDecode(records: seq<Members>, n: nat)
    requires n < |Render(records)|
    ensures Decode(Render(records)[..n]) == None
  {
    if |records| > 0 && n > 0 {
      CutItemsDoNotParse(records, n - 1);
      assert Render(records)[..n][1..] == (Body(records) + [Close])[..n - 1];
      if n > 1 {
        assert Body(records)[0].Record? by {
          if |records| >= 2 { BodyFront(records); } else { assert Body(records[..0]) == []; }
        }
        assert Render(records)[..n][1] == Body(records)[0];
      }
    }
  }

  lemma {:induction false} ObjectOfPrepend(first: (string, Json), rest: Members)
    ensures ObjectOf([first] + rest) ==
            if first.0 in ObjectOf(rest) then ObjectOf(rest) else ObjectOf(rest)[first.0 := first.1]
  {
    var all := [first] + rest;
    if |rest| == 0 {
      assert all[..0] == [];
    } else {
      var n := |rest| - 1;
      assert all[..n + 1] == [first] + rest[..n];
      ObjectOfPrepend(first, rest[..n]);
    }
  }

  lemma ListNothing()
    ensures IsListing([], map[])
  {
  }

  lemma ListOneMore(members: Members, row: Row, name: string, value: Json)
    requires IsListing(members, row) && name !in row
    ensures IsListing(members + [(name, value)], row[name := value])
  {
    MembersAreKeys(members);
    var all := members + [(name, value)];
    assert all[..|members|] == members;
  }

  // The part of `table` already written while the keys in `left` are not.
  function Visited(table: Table, left: set<string>): Table {
    map k | k in table && k !in left :: table[k]
  }

  lemma ListsNothing(table: Table)
    ensures Lists([], [], Visited(table, table.Keys)) && Visited(table, {}) == table
  {
  }

  lemma ListsOneMore(
    records: seq<Members>, keys: seq<string>, table: Table, left: set<string>, key: string, record: Members)
    requires key in left && left <= table.Keys && IsEntry(record, key, table[key])
    requires Lists(records, keys, Visited(table, left))
    ensures Lists(records + [record], keys + [key], Visited(table, left - {key}))
  {
    hide IsEntry;
    assert key !in keys;
  }

  lemma BodyOneMore(records: seq<Members>, record: Members)
    ensures [Open] + Body(records + [record]) ==
      [Open] + Body(records) + (if records == [] then [] else [Comma]) + [Record(record)]
  {
    assert (records + [record])[..|records|] == records;
  }

  lemma {:induction false} MembersAreKeys(members: Members)
    ensures forall i :: 0 <= i < |members| ==> members[i].0 in ObjectOf(members)
  {
    if |members| == 0 {
    } else {
      MembersAreKeys(members[..|members| - 1]);
    }
  }

  // Loading an entry gives the pair back, unless the row itself carries the
  // reserved member, which then replaces the key.
  lemma LoadEntry(table: Table, record: Members, key: string, row: Row)
    requires IsEntry(record, key, row) && KEY_FIELD !in row
    ensures LoadRecord(table, record) == table[key := row]
  {
    ObjectOfPrepend(record[0], record[1..]);
    assert record == [record[0]] + record[1..];
    assert row[KEY_FIELD := Text(key)] - {KEY_FIELD} == row;
  }

  lemma {:induction false} LoadPrefix(records: seq<Members>, keys: seq<string>, table: map<string, Row>, n: nat)
    requires Lists(records, keys, table) && n <= |keys|
    requires forall k :: k in table ==> KEY_FIELD !in table[k]
    ensures LoadRecords(records[..n]).Keys == set i | 0 <= i < n :: keys[i]
    ensures forall i :: 0 <= i < n ==> LoadRecords(records[..n])[keys[i]] == table[keys[i]]
  {
    hide ObjectOf, LoadRecord, IsEntry;
    if n == 0 {
    } else {
      LoadPrefix(records, keys, table, n - 1);
      var before := LoadRecords(records[..n - 1]);
      assert keys[n - 1] in table;
      LoadEntry(before, records[n - 1], keys[n - 1], table[keys[n - 1]]);
      assert records[..n][..n - 1] == records[..n - 1];
      assert LoadRecords(records[..n]) == before[keys[n - 1] := table[keys[n - 1]]];
    }
  }

  // What is loaded never has the reserved member.
  lemma {:induction false} NothingReserved(records: seq<Members>)
    ensures forall k :: k in LoadRecords(records) ==> KEY_FIELD !in LoadRecords(records)[k]
  {
    hide ObjectOf;
    if |records| == 0 {
    } else {
      NothingReserved(records[..|records| - 1]);
    }
  }

  // Checkpoint round trip: for every table, iteration order of the table and
  // order of the members inside each record, the written file decodes to the
  // same table if and only if no value has a top-level `_key` member.
  lemma RoundTrip(records: seq<Members>, keys: seq<string>, table: map<string, Row>)
    requires Lists(records, keys, table)
    ensures Decode(Render(records)) == Some(table) <==> forall k :: k in table ==> KEY_FIELD !in table[k]
  {
    ParseOfRender(records);
    hide Render, Parse, LoadRecord, IsEntry;
    if forall k :: k in table ==> KEY_FIELD !in table[k] {
      LoadPrefix(records, keys, table, |keys|);
      assert records[..|keys|] == records;
      hide LoadRecords;
      assert LoadRecords(records) == table;
    } else {
      NothingReserved(records);
    }
  }
}
