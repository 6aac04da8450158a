/** Ingest: `parse_all_mavlink_messages_to_csv` groups decoded messages per
    type, and `load_csvs_to_temp_db` turns each group into a table. The
    decoder is replaced by the sequence of messages it yields; the CSV files
    between the two steps are taken to carry each record's values unchanged. */
module Ingest {
  import opened Text
  import opened Store

  /** A message's `to_dict()`: field names with their values, in order. */
  type Record = seq<(string, Cell)>

  /** One message from the decoder: its type and, unless converting it to a
      dictionary failed, its record. */
  datatype MavMessage = MavMessage(msgType: string, record: Option<Record>)

  /** The decoder's markers for unreadable input, never grouped. */
  predicate IsSentinel(msgType: string)
  {
    msgType == "BAD_DATA" || msgType == "UNKNOWN"
  }

  /** The message types in the order they were first met, without sentinels:
      the keys of `message_writers` in insertion order. */
  function FirstSeen(messages: seq<MavMessage>): (r: seq<string>)
  {
    if messages == [] then []
    else
      var prev := FirstSeen(messages[..|messages| - 1]);
      var t := messages[|messages| - 1].msgType;
      if IsSentinel(t) || t in prev then prev else prev + [t]
  }

  /** The records of type `msgType` in arrival order: `message_files[msgType]`. */
  function RecordsOf(messages: seq<MavMessage>, msgType: string): seq<Record>
  {
    if messages == [] then []
    else
      var prev := RecordsOf(messages[..|messages| - 1], msgType);
      var m := messages[|messages| - 1];
      if m.msgType == msgType && m.record.Some? then prev + [m.record.value] else prev
  }

  /** The parse loop: skip sentinels, register a type the first time it is
      met, and append each converted record to its type's list. */
  method GroupMessages(messages: seq<MavMessage>) returns (types: seq<string>, files: map<string, seq<Record>>)
    ensures types == FirstSeen(messages)
    ensures files.Keys == set t | t in types
    ensures forall t :: t in files ==> files[t] == RecordsOf(messages, t)
  {
    types, files := [], map[];
    for i := 0 to |messages|
      invariant types == FirstSeen(messages[..i])
      invariant files.Keys == set t | t in types
      invariant forall t :: t in files ==> files[t] == RecordsOf(messages[..i], t)
      invariant forall t :: t in files ==> !IsSentinel(t)
      invariant forall t :: t !in files && !IsSentinel(t) ==> RecordsOf(messages[..i], t) == []
    {
      GroupStep(messages, i);
      var msg := messages[i];
      if IsSentinel(msg.msgType) {
        continue;
      }
      if msg.msgType !in files {
        types := types + [msg.msgType];
        files := files[msg.msgType := []];
      }
      if msg.record.Some? {
        files := files[msg.msgType := files[msg.msgType] + [msg.record.value]];
      }
    }
    assert messages[..|messages|] == messages;
  }

  /** One more message: its type is registered if new and not a sentinel, and
      its record, if any, is appended to its type's list only. */
  lemma GroupStep(messages: seq<MavMessage>, i: nat)
    requires i < |messages|
    ensures var m := messages[i];
      FirstSeen(messages[..i + 1]) ==
        if IsSentinel(m.msgType) || m.msgType in FirstSeen(messages[..i]) then FirstSeen(messages[..i])
        else FirstSeen(messages[..i]) + [m.msgType]
    ensures var m := messages[i];
      forall t :: RecordsOf(messages[..i + 1], t) ==
        if m.msgType == t && m.record.Some? then RecordsOf(messages[..i], t) + [m.record.value]
        else RecordsOf(messages[..i], t)
  {
    assert messages[..i + 1][..i] == messages[..i];
  }

  /** Every non-sentinel type that occurs is registered once, and nothing else is. */
  lemma {:induction false} FirstSeenTypes(messages: seq<MavMessage>)
    ensures Distinct(FirstSeen(messages))
    ensures forall t :: t in FirstSeen(messages) <==>
      !IsSentinel(t) && exists i :: 0 <= i < |messages| && messages[i].msgType == t
  {
    if messages != [] {
      var init := messages[..|messages| - 1];
      FirstSeenTypes(init);
      forall t | t in FirstSeen(messages)
        ensures exists i :: 0 <= i < |messages| && messages[i].msgType == t
      {
        if t in FirstSeen(init) {
          var i :| 0 <= i < |init| && init[i].msgType == t;
          assert messages[i] == init[i];
        } else {
          assert messages[|messages| - 1].msgType == t;
        }
      }
      forall i | 0 <= i < |messages| && !IsSentinel(messages[i].msgType)
        ensures messages[i].msgType in FirstSeen(messages)
      {
        if i < |init| {
          assert init[i] == messages[i];
        }
      }
    }
  }

  /** Grouping respects arrival order: the records of a concatenated stream
      are those of the first part followed by those of the second. */
  lemma {:induction false} RecordsOfAppend(first: seq<MavMessage>, second: seq<MavMessage>, msgType: string)
    ensures RecordsOf(first + second, msgType) == RecordsOf(first, msgType) + RecordsOf(second, msgType)
    decreases |second|
  {
    if second != [] {
      var init := second[..|second| - 1];
      RecordsOfAppend(first, init, msgType);
      assert (first + second)[..|first + second| - 1] == first + init;
      assert (first + second)[|first + second| - 1] == second[|second| - 1];
    } else {
      assert first + second == first;
    }
  }

  /** A record is grouped under a type exactly when a message of that type
      carried it. */
  lemma {:induction false} RecordsOfMember(messages: seq<MavMessage>, msgType: string, r: Record)
    ensures r in RecordsOf(messages, msgType) <==>
      exists i :: 0 <= i < |messages| && messages[i] == MavMessage(msgType, Some(r))
  {
    if messages != [] {
      var init := messages[..|messages| - 1];
      RecordsOfMember(init, msgType, r);
      if exists i :: 0 <= i < |messages| && messages[i] == MavMessage(msgType, Some(r)) {
        var i :| 0 <= i < |messages| && messages[i] == MavMessage(msgType, Some(r));
        if i < |init| {
          assert init[i] == messages[i];
        }
      }
    }
  }

  /** `msg_type.replace('-', '_').replace(' ', '_')`. */
  function CleanTableName(msgType: string): string
  {
    ReplaceChar(ReplaceChar(msgType, '-', '_'), ' ', '_')
  }

  /** The cleaned name keeps the length and every other character, and holds
      neither a hyphen nor a space. */
  lemma CleanTableNameShape(msgType: string)
    ensures var r := CleanTableName(msgType);
      && |r| == |msgType|
      && '-' !in r && ' ' !in r
      && forall i :: 0 <= i < |r| ==>
           r[i] == if msgType[i] == '-' || msgType[i] == ' ' then '_' else msgType[i]
  {
    var r := CleanTableName(msgType);
    forall i | 0 <= i < |r|
      ensures r[i] != '-' && r[i] != ' '
    {
    }
  }

  /** Cleaning a cleaned name changes nothing. */
  lemma CleanTableNameIdempotent(msgType: string)
    ensures CleanTableName(CleanTableName(msgType)) == CleanTableName(msgType)
  {
    var r := CleanTableName(msgType);
    CleanTableNameShape(msgType);
    CleanTableNameShape(r);
  }

  /** The record has a field called `x`. */
  predicate HasField(record: Record, x: string)
  {
    exists k :: 0 <= k < |record| && record[k].0 == x
  }

  /** Appends the record's field names not yet present, in the record's order. */
  function AddNames(names: seq<string>, record: Record): (r: seq<string>)
    ensures names <= r
    ensures Distinct(names) ==> Distinct(r)
    ensures forall x :: x in r <==> x in names || HasField(record, x)
    decreases |record|
  {
    if record == [] then names
    else
      var next := if record[0].0 in names then names else names + [record[0].0];
      var r := AddNames(next, record[1..]);
      assert forall k :: 0 < k < |record| ==> record[k] == record[1..][k - 1];
      r
  }

  /** Where the record first names field `x`. */
  function FirstField(record: Record, x: string): (r: nat)
    requires HasField(record, x)
    ensures r < |record| && record[r].0 == x
    ensures forall k :: 0 <= k < r ==> record[k].0 != x
    decreases |record|
  {
    if record[0].0 == x then 0
    else
      assert HasField(record[1..], x) by {
        var k :| 0 <= k < |record| && record[k].0 == x;
        assert record[1..][k - 1].0 == x;
      }
      1 + FirstField(record[1..], x)
  }

  /** A field of the record's tail is a field of the record, first named one
      place later unless the head names it. */
  lemma FieldOfTail(record: Record, x: string)
    requires record != [] && HasField(record[1..], x)
    ensures HasField(record, x)
    ensures x != record[0].0 ==> FirstField(record, x) == 1 + FirstField(record[1..], x)
  {
    var k :| 0 <= k < |record[1..]| && record[1..][k].0 == x;
    assert record[k + 1].0 == x;
  }

  /** The names `AddNames` appends are new and come from the record. */
  lemma {:induction false} AddNamesFresh(names: seq<string>, record: Record)
    ensures var r := AddNames(names, record);
      forall i :: |names| <= i < |r| ==> r[i] !in names && HasField(record, r[i])
    decreases |record|
  {
    var r := AddNames(names, record);
    if record != [] {
      var f := record[0].0;
      var next := if f in names then names else names + [f];
      assert r == AddNames(next, record[1..]);
      AddNamesFresh(next, record[1..]);
      assert next <= r;
      forall i | |names| <= i < |r|
        ensures r[i] !in names && HasField(record, r[i])
      {
        if i < |next| {
          assert r[i] == f && record[0].0 == f;
        } else {
          FieldOfTail(record, r[i]);
        }
      }
    }
  }

  /** The names `AddNames` appends follow the order in which the record first
      names them. */
  lemma {:induction false} AddNamesOrder(names: seq<string>, record: Record)
    ensures var r := AddNames(names, record);
      forall i, j :: |names| <= i < j < |r| ==>
        HasField(record, r[i]) && HasField(record, r[j]) && FirstField(record, r[i]) < FirstField(record, r[j])
    decreases |record|
  {
    var r := AddNames(names, record);
    AddNamesFresh(names, record);
    if record != [] {
      var rest := record[1..];
      var f := record[0].0;
      var next := if f in names then names else names + [f];
      assert r == AddNames(next, rest);
      AddNamesOrder(next, rest);
      AddNamesFresh(next, rest);
      assert next <= r;
      forall i, j | |names| <= i < j < |r|
        ensures FirstField(record, r[i]) < FirstField(record, r[j])
      {
        FieldOfTail(record, r[j]);
        if i < |next| {
          assert r[i] == f && FirstField(record, f) == 0;
        } else {
          FieldOfTail(record, r[i]);
        }
      }
    }
  }

  /** The columns of `pd.DataFrame(records)`: every field name of every
      record, in the order first met. */
  function FieldNames(records: seq<Record>): seq<string>
  {
    if records == [] then []
    else AddNames(FieldNames(records[..|records| - 1]), records[|records| - 1])
  }

  /** A record's value for a column; a field it lacks reads back as missing. */
  function Lookup(record: Record, name: string): Cell
  {
    if record == [] then Null
    else if record[0].0 == name then record[0].1
    else Lookup(record[1..], name)
  }

  /** The table `pd.DataFrame(records)` writes: one row per record. */
  function Materialize(records: seq<Record>): Table
  {
    var columns := FieldNames(records);
    Table(columns, seq(|records|, i requires 0 <= i < |records| =>
                         seq(|columns|, j requires 0 <= j < |columns| => Lookup(records[i], columns[j]))))
  }

  /** The columns are the field names of all records, each once. */
  lemma {:induction false} FieldNamesShape(records: seq<Record>)
    ensures Distinct(FieldNames(records))
    ensures forall x :: x in FieldNames(records) <==> SomeRecordHas(records, x)
  {
    if records != [] {
      var init := records[..|records| - 1];
      var last := records[|records| - 1];
      assert FieldNames(records) == AddNames(FieldNames(init), last);
      FieldNamesShape(init);
      forall x ensures SomeRecordHas(records, x) <==> SomeRecordHas(init, x) || HasField(last, x) {
        SomeRecordHasSnoc(records, x);
      }
    }
  }

  /** Some record carries a field named `x`. */
  predicate SomeRecordHas(records: seq<Record>, x: string)
  {
    exists i :: 0 <= i < |records| && HasField(records[i], x)
  }

  lemma SomeRecordHasSnoc(records: seq<Record>, x: string)
    requires records != []
    ensures SomeRecordHas(records, x) <==>
            SomeRecordHas(records[..|records| - 1], x) || HasField(records[|records| - 1], x)
  {
    var init := records[..|records| - 1];
    if SomeRecordHas(init, x) {
      var i :| 0 <= i < |init| && HasField(init[i], x);
      assert records[i] == init[i];
    }
    if SomeRecordHas(records, x) {
      var i :| 0 <= i < |records| && HasField(records[i], x);
      if i < |init| {
        assert init[i] == records[i];
      }
    }
  }

  /** Records become a well-formed table with one row per record, every field
      name as a column, and each cell the record's value or missing. */
  lemma MaterializeShape(records: seq<Record>)
    ensures var t := Materialize(records);
      && WellFormed(t)
      && |t.rows| == |records|
      && (forall x :: x in t.columns <==> SomeRecordHas(records, x))
      && forall i, j :: 0 <= i < |records| && 0 <= j < |t.columns| ==> t.rows[i][j] == Lookup(records[i], t.columns[j])
  {
    FieldNamesShape(records);
  }

  /** Unlike a table built from the first record's fields, a field that only
      a later record has still becomes a column, missing in earlier rows. */
  lemma MaterializeExample(records: seq<Record>)
    requires records == [[("a", Int(1))], [("b", Int(2)), ("a", Int(3))]]
    ensures Materialize(records) == Table(["a", "b"], [[Int(1), Null], [Int(3), Int(2)]])
  {
    FieldNamesExample();
    LookupExample();
    var t := Materialize(records);
    assert t.columns == ["a", "b"];
    assert t.rows[0] == [Int(1), Null] by {
      assert t.rows[0][0] == Lookup(records[0], "a") && t.rows[0][1] == Lookup(records[0], "b");
    }
    assert t.rows[1] == [Int(3), Int(2)] by {
      assert t.rows[1][0] == Lookup(records[1], "a") && t.rows[1][1] == Lookup(records[1], "b");
    }
  }

  /** The cells of the example: the first record lacks "b". */
  lemma LookupExample()
    ensures Lookup([("a", Int(1))], "a") == Int(1) && Lookup([("a", Int(1))], "b") == Null
    ensures Lookup([("b", Int(2)), ("a", Int(3))], "a") == Int(3)
    ensures Lookup([("b", Int(2)), ("a", Int(3))], "b") == Int(2)
  {
    assert "b"[0] != "a"[0];
    assert [("a", Int(1))][1..] == [];
    assert [("b", Int(2)), ("a", Int(3))][1..] == [("a", Int(3))];
  }

  /** The columns of the example: "a" from the first record, then "b". */
  lemma FieldNamesExample()
    ensures FieldNames([[("a", Int(1))], [("b", Int(2)), ("a", Int(3))]]) == ["a", "b"]
  {
    var records: seq<Record> := [[("a", Int(1))], [("b", Int(2)), ("a", Int(3))]];
    assert records[..1] == [records[0]] && records[..1][..0] == [];
    AddNamesFirstRecord();
    assert FieldNames(records[..1]) == ["a"];
    AddNamesSecondRecord();
  }

  lemma AddNamesFirstRecord()
    ensures AddNames([], [("a", Int(1))]) == ["a"]
  {
    var record: Record := [("a", Int(1))];
    assert record[1..] == [];
    assert AddNames(["a"], []) == ["a"];
  }

  lemma AddNamesSecondRecord()
    ensures AddNames(["a"], [("b", Int(2)), ("a", Int(3))]) == ["a", "b"]
  {
    var record: Record := [("b", Int(2)), ("a", Int(3))];
    assert "b" !in ["a"] by {
      assert "b"[0] != "a"[0];
    }
    assert record[1..] == [("a", Int(3))] && record[1..][1..] == [];
    assert AddNames(["a", "b"], []) == ["a", "b"];
    assert AddNames(["a", "b"], record[1..]) == ["a", "b"];
  }

  /** `if not df.empty`: a table is written only with rows and columns. */
  predicate Loadable(t: Table)
  {
    t.rows != [] && t.columns != []
  }

  /** One turn of the load loop, `to_sql(..., if_exists='replace')`. A table
      whose name differs only in case already exists for SQLite, so the
      CREATE TABLE fails and the type is skipped. Otherwise a table of exactly
      that name is dropped first; the CREATE TABLE then fails on two column
      names that differ only in case, leaving no table of that name, and
      succeeds on any other table. */
  function LoadStep(db: Db, name: string, table: Table): Db
  {
    if !Loadable(table) then db
    else if exists k :: k in db && k != name && SameIdentifier(k, name) then db
    else if !CaseDistinct(table.columns) then db - {name}
    else db[name := table]
  }

  /** The store after the first `n` (name, table) pairs. */
  function LoadedUpTo(names: seq<string>, tables: seq<Table>, n: nat): Db
    requires n <= |names| == |tables|
  {
    if n == 0 then map[]
    else LoadStep(LoadedUpTo(names, tables, n - 1), names[n - 1], tables[n - 1])
  }

  /** The cleaned table name of every registered type. */
  function TableNames(types: seq<string>): (r: seq<string>)
    ensures |r| == |types| && forall j :: 0 <= j < |types| ==> r[j] == CleanTableName(types[j])
  {
    seq(|types|, j requires 0 <= j < |types| => CleanTableName(types[j]))
  }

  /** The CSV files the parse step writes, as the tables they hold: one per
      registered type, built from its records (a type without records keeps
      its header-only file, which holds no row). */
  function CsvTables(types: seq<string>, files: map<string, seq<Record>>): map<string, Table>
  {
    map t | t in types && t in files :: Materialize(files[t])
  }

  /** The table each registered type's CSV file holds, in registration order. */
  function TablesOf(types: seq<string>, csv: map<string, Table>): (r: seq<Table>)
    requires forall t :: t in types ==> t in csv
    ensures |r| == |types| && forall j :: 0 <= j < |types| ==> r[j] == csv[types[j]]
  {
    seq(|types|, j requires 0 <= j < |types| => csv[types[j]])
  }

  /** `load_csvs_to_temp_db`: reads the types' CSV files in registration order
      and writes each non-empty one as a table, skipping those SQLite refuses. */
  method LoadCsvsToTempDb(types: seq<string>, csv: map<string, Table>) returns (db: Db)
    requires forall t :: t in types ==> t in csv
    ensures db == LoadedUpTo(TableNames(types), TablesOf(types, csv), |types|)
  {
    ghost var names, tables := TableNames(types), TablesOf(types, csv);
    db := map[];
    for n := 0 to |types|
      invariant db == LoadedUpTo(names, tables, n)
    {
      var msgType := types[n];
      var df := csv[msgType];
      assert LoadedUpTo(names, tables, n + 1) == LoadStep(db, CleanTableName(msgType), df);
      if !Loadable(df) {
        continue;
      }
      var tableName := CleanTableName(msgType);
      if exists k :: k in db && k != tableName && SameIdentifier(k, tableName) {
        continue;
      }
      if !CaseDistinct(df.columns) {
        db := db - {tableName};
        continue;
      }
      db := db[tableName := df];
    }
  }

  /** `table` is the one the `j`-th pair stored under `name`, and no later
      pair with that name could be loaded. */
  predicate LastWriter(names: seq<string>, tables: seq<Table>, n: nat, name: string, table: Table, j: int)
    requires n <= |names| == |tables|
  {
    && 0 <= j < n && names[j] == name && tables[j] == table
    && forall l :: j < l < n && names[l] == name ==> !Loadable(tables[l])
  }

  /** A pair that stores nothing under `name` keeps the last writer. */
  lemma LastWriterExtends(names: seq<string>, tables: seq<Table>, n: nat, name: string, table: Table, j: int)
    requires 0 < n <= |names| == |tables| && LastWriter(names, tables, n - 1, name, table, j)
    requires names[n - 1] == name ==> !Loadable(tables[n - 1])
    ensures LastWriter(names, tables, n, name, table, j)
  {
  }

  /** Every table in the store is a loadable table stored under its own name,
      from the last pair with that name whose table could be loaded: a later
      type with the same cleaned name replaces an earlier one. */
  lemma {:induction false} LoadedTables(names: seq<string>, tables: seq<Table>, n: nat)
    requires n <= |names| == |tables|
    ensures forall name :: name in LoadedUpTo(names, tables, n) ==>
      && Loadable(LoadedUpTo(names, tables, n)[name])
      && CaseDistinct(LoadedUpTo(names, tables, n)[name].columns)
      && exists j :: LastWriter(names, tables, n, name, LoadedUpTo(names, tables, n)[name], j)
  {
    if n > 0 {
      LoadedTables(names, tables, n - 1);
      var prev := LoadedUpTo(names, tables, n - 1);
      var db := LoadedUpTo(names, tables, n);
      var last, table := names[n - 1], tables[n - 1];
      var collides := exists k :: k in prev && k != last && SameIdentifier(k, last);
      if Loadable(table) && !collides && CaseDistinct(table.columns) {
        assert db == prev[last := table];
        forall name | name in db
          ensures Loadable(db[name]) && exists j :: LastWriter(names, tables, n, name, db[name], j)
        {
          if name == last {
            assert LastWriter(names, tables, n, name, db[name], n - 1);
          } else {
            var j :| LastWriter(names, tables, n - 1, name, prev[name], j);
            LastWriterExtends(names, tables, n, name, prev[name], j);
          }
        }
      } else {
        if Loadable(table) && !collides {
          assert db == prev - {last};
        } else {
          assert db == prev;
        }
        if Loadable(table) && collides {
          // the name collides with a stored one, so it is not stored itself
          var k :| k in prev && k != last && SameIdentifier(k, last);
          assert last !in prev;
        }
        forall name | name in db
          ensures Loadable(db[name]) && exists j :: LastWriter(names, tables, n, name, db[name], j)
        {
          assert name in prev && db[name] == prev[name];
          var j :| LastWriter(names, tables, n - 1, name, prev[name], j);
          LastWriterExtends(names, tables, n, name, prev[name], j);
        }
      }
    }
  }

  /** No pair after the `j`-th whose name matches it ignoring case holds a
      non-empty table SQLite refuses, so none of them dropped a table. */
  predicate NotDroppedAfter(names: seq<string>, tables: seq<Table>, n: nat, j: nat)
    requires j < n <= |names| == |tables|
  {
    forall l :: j < l < n && SameIdentifier(names[l], names[j]) && Loadable(tables[l]) ==>
      CaseDistinct(tables[l].columns)
  }

  /** A non-empty table SQLite accepts ends up in the store, under its own
      name or under an earlier one that differs only in case, unless a later
      type of that name failed to load and dropped it. */
  lemma {:induction false} LoadedComplete(names: seq<string>, tables: seq<Table>, n: nat)
    requires n <= |names| == |tables|
    ensures var db := LoadedUpTo(names, tables, n);
      forall j :: 0 <= j < n && Loadable(tables[j]) && CaseDistinct(tables[j].columns)
                  && NotDroppedAfter(names, tables, n, j) ==>
        exists name :: name in db && SameIdentifier(name, names[j])
  {
    if n > 0 {
      LoadedComplete(names, tables, n - 1);
      var prev := LoadedUpTo(names, tables, n - 1);
      var db := LoadedUpTo(names, tables, n);
      var last, table := names[n - 1], tables[n - 1];
      forall j | 0 <= j < n && Loadable(tables[j]) && CaseDistinct(tables[j].columns)
                 && NotDroppedAfter(names, tables, n, j)
        ensures exists name :: name in db && SameIdentifier(name, names[j])
      {
        if j == n - 1 {
          if exists k :: k in prev && k != last && SameIdentifier(k, last) {
            var k :| k in prev && k != last && SameIdentifier(k, last);
            assert db == prev;
            assert k in db;
          } else {
            assert db == prev[last := table];
            assert SameIdentifier(last, last);
          }
        } else {
          assert NotDroppedAfter(names, tables, n - 1, j);
          var name :| name in prev && SameIdentifier(name, names[j]);
          assert SameIdentifier(last, names[j]) && Loadable(table) ==> CaseDistinct(table.columns);
          assert name in db;
        }
      }
    }
  }

  /** The whole ingest: group the decoded stream, then load every group. */
  function IngestedDb(messages: seq<MavMessage>): Db
  {
    var types := FirstSeen(messages);
    var files := map t | t in types :: RecordsOf(messages, t);
    LoadedUpTo(TableNames(types), TablesOf(types, CsvTables(types, files)), |types|)
  }

  /** Every table the ingest produces has rows, unique column names and rows
      as wide as its header, and holds the records of one message type, under
      that type's cleaned name. */
  lemma IngestedTables(messages: seq<MavMessage>)
    ensures var db := IngestedDb(messages);
      forall name :: name in db ==>
        && RowCount(db[name]) > 0 && WellFormed(db[name]) && CaseDistinct(db[name].columns)
        && exists t :: t in FirstSeen(messages) && CleanTableName(t) == name
                       && db[name] == Materialize(RecordsOf(messages, t))
  {
    var types := FirstSeen(messages);
    var files := map t | t in types :: RecordsOf(messages, t);
    var names, tables := TableNames(types), TablesOf(types, CsvTables(types, files));
    var db := IngestedDb(messages);
    LoadedTables(names, tables, |types|);
    forall name | name in db
      ensures && RowCount(db[name]) > 0 && WellFormed(db[name])
              && exists t :: t in types && CleanTableName(t) == name
                             && db[name] == Materialize(RecordsOf(messages, t))
    {
      var j :| LastWriter(names, tables, |types|, name, db[name], j);
      MaterializeShape(files[types[j]]);
      assert types[j] in types;
    }
  }

  /** "GPS-1" and "GPS 1" both become table GPS_1, and the later one stays. */
  lemma ReplacedByLaterType(first: Table, second: Table)
    requires Loadable(first) && Loadable(second)
    requires CaseDistinct(first.columns) && CaseDistinct(second.columns)
    ensures CleanTableName("GPS-1") == "GPS_1" && CleanTableName("GPS 1") == "GPS_1"
    ensures LoadedUpTo(TableNames(["GPS-1", "GPS 1"]), [first, second], 2) == map["GPS_1" := second]
  {
    assert CleanTableName("GPS-1") == "GPS_1";
    assert CleanTableName("GPS 1") == "GPS_1";
    var names := TableNames(["GPS-1", "GPS 1"]);
    assert names == ["GPS_1", "GPS_1"];
    assert LoadedUpTo(names, [first, second], 1) == map["GPS_1" := first];
  }

  /** "gps" after "GPS" is not loaded: SQLite already has a table of that name. */
  lemma SkippedOnCaseCollision(first: Table, second: Table)
    requires Loadable(first) && Loadable(second) && CaseDistinct(first.columns)
    ensures LoadedUpTo(["GPS", "gps"], [first, second], 2) == map["GPS" := first]
  {
    assert LoadedUpTo(["GPS", "gps"], [first, second], 1) == map["GPS" := first];
    assert "GPS"[0] != "gps"[0];
    assert ToLower("GPS") == "gps" == ToLower("gps");
    assert SameIdentifier("GPS", "gps");
  }

  /** A second GPS table whose columns "a" and "A" clash is refused after the
      first GPS table was dropped, so no GPS table is left. */
  lemma DroppedOnColumnClash(first: Table, second: Table)
    requires Loadable(first) && CaseDistinct(first.columns)
    requires second == Table(["a", "A"], [[Int(1), Int(2)]])
    ensures LoadedUpTo(["GPS", "GPS"], [first, second], 2) == map[]
  {
    assert LoadedUpTo(["GPS", "GPS"], [first, second], 1) == map["GPS" := first];
    assert Loadable(second);
    assert ToLower("a") == "a" == ToLower("A");
    assert SameIdentifier(second.columns[0], second.columns[1]);
  }
}
