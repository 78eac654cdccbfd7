/** A whole select (sorm.c): the text of the column list, the result of the engine, and the rows that all-list,
    all-array and the iterator deliver from it. */
module Selects {
  import opened Rows
  import opened SelectColumns

  /** The row parser of a select: the members of table `t` that have a position in the result. */
  function ParseRow(indexes: seq<seq<int>>, storage: seq<seq<Storage>>, t: nat, raw: seq<Value>): Parsed<seq<Member>>
    requires |indexes| == |storage| && forall i :: 0 <= i < |indexes| ==> |indexes[i]| == |storage[i]|
  {
    if t >= |indexes| then Bad
    else
      match Filling(indexes[t], storage[t], raw, |indexes[t]|)
      case Filled(row) => Good(row)
      case Failed(_) => Bad
  }

  /** `row` has of table `t` exactly the columns in the list, each with its own value. */
  ghost predicate RowIs(row: seq<Member>, list: seq<Pair>, t: nat, storage: seq<Storage>, db: Pair -> Value) {
    |row| == |storage| && forall c :: 0 <= c < |storage| ==> Expected(list, t, c, storage[c], db, Got(row[c]))
  }

  /** Every value of the list can be stored. */
  ghost predicate Storable(list: seq<Pair>, t: nat, storage: seq<Storage>, db: Pair -> Value) {
    forall c :: 0 <= c < |storage| ==> CanStore(list, t, c, storage[c], db)
  }

  /** What the parser makes of a result row. */
  lemma {:induction false} ParseRowExactly(
    tables: seq<Table>, indexes: seq<seq<int>>, list: seq<Pair>, storage: seq<seq<Storage>>,
    t: nat, db: Pair -> Value, raw: seq<Value>)
    requires Agrees(tables, indexes, list) && |storage| == |indexes|
    requires (forall i :: 0 <= i < |indexes| ==> |indexes[i]| == |storage[i]|)
    requires t < |tables| && Delivers(raw, list, db)
    ensures ParseRow(indexes, storage, t, raw).Good? <==> Storable(list, t, storage[t], db)
    ensures ParseRow(indexes, storage, t, raw).Good? ==>
              RowIs(ParseRow(indexes, storage, t, raw).row, list, t, storage[t], db)
  {
    hide Delivers;
    hide Agrees;
    hide Expected;
    hide CanStore;
    hide ReadMember;
    hide Filling;
    AgreesShape(tables, indexes, list);
    forall c | 0 <= c < |indexes[t]|
      ensures Expected(list, t, c, storage[t][c], db, ReadMember(indexes[t], storage[t], raw, c))
      ensures ReadMember(indexes[t], storage[t], raw, c).Got? <==> CanStore(list, t, c, storage[t][c], db)
    {
      FilledExactly(tables, indexes, list, t, storage[t], db, raw, c);
    }
  }

  /** A table takes part when it is wanted and some column of it is in the list. */
  ghost predicate TakesPart(list: seq<Pair>, wanted: bool, t: nat) {
    wanted && exists c: nat :: (t, c) in list
  }

  lemma {:induction false} SelectedSome(row: seq<int>)
    ensures Selected(row) != 0 <==> exists c :: 0 <= c < |row| && row[c] != NO_INDEX
  {
    if row != [] {
      var front := row[..|row| - 1];
      SelectedSome(front);
      assert forall c :: 0 <= c < |front| ==> front[c] == row[c];
      if Selected(front) != 0 {
        var c :| 0 <= c < |front| && front[c] != NO_INDEX;
        assert row[c] != NO_INDEX;
      }
    }
  }

  /** Every column of a list is a column of its table. */
  ghost predicate InTables(list: seq<Pair>, tables: seq<Table>) {
    forall k :: 0 <= k < |list| ==> list[k].0 < |tables| && list[k].1 < |tables[list[k].0].columns|
  }

  lemma {:induction false} RowsInTables(tables: seq<Table>, n: nat)
    requires n <= |tables|
    ensures InTables(SelectColumns.Rows(tables, n), tables)
  {
    if n > 0 { RowsInTables(tables, n - 1); }
  }

  lemma {:induction false} ExpandInTables(tables: seq<Table>, items: seq<string>)
    ensures InTables(ExpandAll(tables, items), tables)
  {
    hide Meaning;
    hide Trimmed;
    if items != [] {
      ExpandInTables(tables, items[..|items| - 1]);
      MeaningInRange(tables, Trimmed(items[|items| - 1]));
      RowsInTables(tables, |tables|);
    }
  }

  lemma TakesPartExactly(tables: seq<Table>, indexes: seq<seq<int>>, list: seq<Pair>, wanted: bool, t: nat)
    requires Agrees(tables, indexes, list) && InTables(list, tables) && t < |tables|
    ensures wanted && Selected(indexes[t]) != 0 <==> TakesPart(list, wanted, t)
  {
    SelectedSome(indexes[t]);
    if exists c: nat :: (t, c) in list {
      var c: nat :| (t, c) in list;
      var k :| 0 <= k < |list| && list[k] == (t, c);
      assert indexes[t][c] != NO_INDEX;
    }
    if Selected(indexes[t]) != 0 {
      var c :| 0 <= c < |indexes[t]| && indexes[t][c] != NO_INDEX;
      assert list[indexes[t][c]] == (t, c);
    }
  }

  /** The tables for which rows are made: those asked for of which some column is selected. */
  method TablesOf(sel: Selection, tables: seq<Table>, wanted: seq<bool>) returns (selected: seq<bool>)
    requires sel.Valid(tables) && |wanted| == |tables| && InTables(sel.list, tables)
    ensures |selected| == |tables| && forall t :: 0 <= t < |tables| ==>
              (selected[t] <==> TakesPart(sel.list, wanted[t], t))
  {
    hide Agrees;
    hide Selected;
    AgreesShape(tables, sel.indexes, sel.list);
    selected := [];
    for t := 0 to |tables|
      invariant |selected| == t && forall u :: 0 <= u < t ==> (selected[u] <==> TakesPart(sel.list, wanted[u], u))
    {
      TakesPartExactly(tables, sel.indexes, sel.list, wanted[t], t);
      selected := selected + [sel.columnsNum[t] != 0 && wanted[t]];
    }
  }

  /** The k-th row delivered for table `t` is the k-th row of the database as the list selects it. */
  ghost predicate Shown(rows: seq<seq<Member>>, list: seq<Pair>, t: nat, storage: seq<Storage>,
                        db: nat -> Pair -> Value, n: nat) {
    |rows| == n && forall k :: 0 <= k < n ==> RowIs(rows[k], list, t, storage, db(k))
  }

  lemma ShownExactly(
    tables: seq<Table>, indexes: seq<seq<int>>, list: seq<Pair>, storage: seq<seq<Storage>>, t: nat,
    db: nat -> Pair -> Value, results: seq<seq<Value>>, rows: seq<seq<Member>>,
    parse: Parser<seq<Value>, seq<Member>>)
    requires Agrees(tables, indexes, list) && |storage| == |indexes|
    requires (forall i :: 0 <= i < |indexes| ==> |indexes[i]| == |storage[i]|)
    requires t < |tables| && forall k :: 0 <= k < |results| ==> Delivers(results[k], list, db(k))
    requires forall u, raw :: parse(u, raw) == ParseRow(indexes, storage, u, raw)
    requires Projects(parse, t, results, rows)
    ensures Shown(rows, list, t, storage[t], db, |results|)
  {
    hide ParseRow;
    hide RowIs;
    hide Delivers;
    hide Agrees;
    hide Storable;
    AgreesShape(tables, indexes, list);
    forall k | 0 <= k < |results|
      ensures RowIs(rows[k], list, t, storage[t], db(k))
    {
      assert parse(t, results[k]) == Good(rows[k]);
      ParseRowExactly(tables, indexes, list, storage, t, db(k), results[k]);
    }
  }

  /** The first `n` rows can be stored for every table that takes part. */
  ghost predicate AllStorable(list: seq<Pair>, storage: seq<seq<Storage>>, selected: seq<bool>,
                              db: nat -> Pair -> Value, n: nat)
    requires |selected| == |storage|
  {
    forall t, k :: 0 <= t < |storage| && 0 <= k < n && selected[t] ==> Storable(list, t, storage[t], db(k))
  }

  lemma StorableExactly(
    tables: seq<Table>, indexes: seq<seq<int>>, list: seq<Pair>, storage: seq<seq<Storage>>, selected: seq<bool>,
    db: nat -> Pair -> Value, results: seq<seq<Value>>, parse: Parser<seq<Value>, seq<Member>>)
    requires Agrees(tables, indexes, list) && |storage| == |indexes| == |selected|
    requires forall i :: 0 <= i < |indexes| ==> |indexes[i]| == |storage[i]|
    requires forall k :: 0 <= k < |results| ==> Delivers(results[k], list, db(k))
    requires forall u, raw :: parse(u, raw) == ParseRow(indexes, storage, u, raw)
    ensures AllParse(parse, selected, results) <==> AllStorable(list, storage, selected, db, |results|)
  {
    hide ParseRow, RowIs, Delivers, Agrees, Storable;
    AgreesShape(tables, indexes, list);
    forall k, t | 0 <= k < |results| && 0 <= t < |selected| && selected[t]
      ensures parse(t, results[k]).Good? <==> Storable(list, t, storage[t], db(k))
    {
      ParseRowExactly(tables, indexes, list, storage, t, db(k), results[k]);
    }
  }

  /** The tables that take part. */
  ghost predicate Participants(list: seq<Pair>, wanted: seq<bool>, selected: seq<bool>) {
    |selected| == |wanted| && forall t :: 0 <= t < |wanted| ==> (selected[t] <==> TakesPart(list, wanted[t], t))
  }

  /** How a select ends: with the first value that cannot be stored, or as the engine does. */
  ghost function Result(list: seq<Pair>, storage: seq<seq<Storage>>, selected: seq<bool>, db: nat -> Pair -> Value,
                        n: nat, failed: bool): Rows.Error
    requires |selected| == |storage|
  {
    if !AllStorable(list, storage, selected, db, n) then ParseError else if failed then DbError else SormOk
  }

  /** It succeeds exactly when the engine does not fail and no listed value of a row it reads is refused. */
  lemma ResultMeaning(list: seq<Pair>, storage: seq<seq<Storage>>, selected: seq<bool>, db: nat -> Pair -> Value,
                      n: nat, failed: bool)
    requires |selected| == |storage|
    ensures Result(list, storage, selected, db, n, failed) == SormOk <==>
            && !failed
            && forall t, k :: 0 <= t < |storage| && 0 <= k < n && selected[t] ==> Storable(list, t, storage[t], db(k))
    ensures Result(list, storage, selected, db, n, failed) == ParseError <==>
            exists t, k :: 0 <= t < |storage| && 0 <= k < n && selected[t] && !Storable(list, t, storage[t], db(k))
    ensures Result(list, storage, selected, db, n, failed) != NoExist
  {
  }

  /** What a select delivers for one table: the same rows in its list, its array and its iterator, one for each
      result row, with exactly the selected columns. */
  ghost predicate DeliveredRows(
    lists: Lists<seq<Member>>, arrays: Arrays<seq<Member>>, read: seq<seq<Slot<seq<Member>>>>,
    list: seq<Pair>, t: nat, storage: seq<Storage>, db: nat -> Pair -> Value, n: nat)
    requires t < |lists| && t < |arrays|
    reads lists, arrays
  {
    && lists[t] != null && arrays[t] != null && |read| == n
    && Shown(lists[t].contents, list, t, storage, db, n)
    && arrays[t][..] == lists[t].contents
    && forall k :: 0 <= k < n ==> t < |read[k]| && read[k][t] == Full(lists[t].contents[k])
  }

  method ReadSelected(
    indexes: seq<seq<int>>, ghost tables: seq<Table>, ghost list: seq<Pair>, storage: seq<seq<Storage>>,
    selected: seq<bool>, results: seq<seq<Value>>, fails: bool, ghost db: nat -> Pair -> Value)
    returns (rc: Rows.Error, lists: Lists<seq<Member>>, arrays: Arrays<seq<Member>>, read: seq<seq<Slot<seq<Member>>>>)
    requires Agrees(tables, indexes, list) && |storage| == |indexes| == |selected| == |tables|
    requires forall i :: 0 <= i < |indexes| ==> |indexes[i]| == |storage[i]|
    requires forall k :: 0 <= k < |results| ==> Delivers(results[k], list, db(k))
    ensures rc == Result(list, storage, selected, db, |results|, fails)
    ensures |lists| == |arrays| == |tables|
    ensures forall t :: 0 <= t < |tables| ==>
              if rc == SormOk && selected[t] && results != [] then
                DeliveredRows(lists, arrays, read, list, t, storage[t], db, |results|)
              else
                lists[t] == null && arrays[t] == null
  {
    hide Agrees, Delivers, AllStorable, ParseRow, AllParse, Shown, Projects, Joined;
    var parse := (t: nat, raw: seq<Value>) => ParseRow(indexes, storage, t, raw);
    StorableExactly(tables, indexes, list, storage, selected, db, results, parse);
    var rcArrays, rcRead;
    rc, rcArrays, rcRead, lists, arrays, read := ReadAll(results, fails, selected, parse, []);
    forall t | 0 <= t < |tables| && rc == SormOk && selected[t] && results != []
      ensures Shown(lists[t].contents, list, t, storage[t], db, |results|)
    {
      ShownExactly(tables, indexes, list, storage, t, db, results, lists[t].contents, parse);
    }
  }

  /** From the text of the list to the rows: whatever the list, when the engine delivers its columns, every reader
      delivers for every table that takes part the rows of the database, in order, with exactly the listed columns
      of that table, or nothing at all when a value cannot be stored or the engine fails; no rows are delivered for
      other tables or for an empty result. */
  method Select(tables: seq<Table>, text: string, storage: seq<seq<Storage>>, wanted: seq<bool>,
                results: seq<seq<Value>>, fails: bool, ghost db: nat -> Pair -> Value)
    returns (ending: Ending, rc: Rows.Error, selected: seq<bool>,
             lists: Lists<seq<Member>>, arrays: Arrays<seq<Member>>, read: seq<seq<Slot<seq<Member>>>>)
    requires |storage| == |wanted| == |tables| && forall t :: 0 <= t < |tables| ==> |storage[t]| == |tables[t].columns|
    requires forall k :: 0 <= k < |results| ==> Delivers(results[k], ExpandAll(tables, Items(text)), db(k))
    ensures ending == Outside <==> BlankStart(text)
    ensures ending != Outside ==> (ending == Stopped <==> Stops(tables, Items(text)))
    ensures ending.Done? ==>
              && Participants(ExpandAll(tables, Items(text)), wanted, selected)
              && rc == Result(ExpandAll(tables, Items(text)), storage, selected, db, |results|, fails)
              && |lists| == |arrays| == |tables|
    ensures ending.Done? ==> forall t :: 0 <= t < |tables| ==>
              if rc == SormOk && selected[t] && results != [] then
                DeliveredRows(lists, arrays, read, ExpandAll(tables, Items(text)), t, storage[t], db, |results|)
              else
                lists[t] == null && arrays[t] == null
  {
    hide Items, ExpandAll, Stops, Delivers, Agrees, Counts, TakesPart, BlankStart, Result, DeliveredRows;
    rc, selected, lists, arrays, read := SormOk, [], [], [], [];
    var sel;
    sel, ending := Parse(tables, text);
    if ending.Done? {
      ExpandInTables(tables, Items(text));
      AgreesShape(tables, sel.indexes, sel.list);
      selected := TablesOf(sel, tables, wanted);
      rc, lists, arrays, read := ReadSelected(sel.indexes, tables, sel.list, storage, selected, results, fails, db);
    }
  }

  // ---------------------------------------------------------------- with a limit

  /** What a limited select delivers for one table: the first `n` rows, the same in its list and its array. */
  ghost predicate DeliveredFirst(lists: Lists<seq<Member>>, arrays: Arrays<seq<Member>>,
                                 list: seq<Pair>, t: nat, storage: seq<Storage>, db: nat -> Pair -> Value, n: nat)
    requires t < |lists| && t < |arrays|
    reads lists, arrays
  {
    && lists[t] != null && arrays[t] != null && n <= arrays[t].Length
    && Shown(lists[t].contents, list, t, storage, db, n)
    && arrays[t][..n] == lists[t].contents
  }

  method ReadFirst(indexes: seq<seq<int>>, ghost tables: seq<Table>, ghost list: seq<Pair>, storage: seq<seq<Storage>>,
                   selected: seq<bool>, max: nat, results: seq<seq<Value>>, fails: bool, ghost db: nat -> Pair -> Value)
    returns (rc: Rows.Error, lists: Lists<seq<Member>>, arrays: Arrays<seq<Member>>)
    requires Agrees(tables, indexes, list) && |storage| == |indexes| == |selected| == |tables|
    requires forall i :: 0 <= i < |indexes| ==> |indexes[i]| == |storage[i]|
    requires forall k :: 0 <= k < |results| ==> Delivers(results[k], list, db(k))
    ensures rc == Result(list, storage, selected, db, |Limited(results, max)|, fails && |results| < max)
    ensures |lists| == |arrays| == |tables|
    ensures forall t :: 0 <= t < |tables| ==>
              if rc == SormOk && selected[t] && Limited(results, max) != [] then
                DeliveredFirst(lists, arrays, list, t, storage[t], db, |Limited(results, max)|)
              else
                lists[t] == null && arrays[t] == null
  {
    hide Agrees, Delivers, AllStorable, ParseRow, AllParse, Shown, Projects;
    var parse := (t: nat, raw: seq<Value>) => ParseRow(indexes, storage, t, raw);
    ghost var first := Limited(results, max);
    StorableExactly(tables, indexes, list, storage, selected, db, first, parse);
    ghost var used, all;
    var n, rcArrays;
    var stmt := new Stmt(results, fails);
    rc, n, lists, used := SelectSomeList(stmt, max, selected, parse, []);
    stmt := new Stmt(results, fails);
    rcArrays, n, arrays, all := SelectSomeArray(stmt, max, selected, parse, []);
    forall t | 0 <= t < |tables| && rc == SormOk && selected[t] && first != []
      ensures Shown(lists[t].contents, list, t, storage[t], db, |first|) && arrays[t][..|first|] == lists[t].contents
    {
      ListAndArray(lists, used, arrays, max, all, selected, parse, first, t);
      ShownExactly(tables, indexes, list, storage, t, db, first, lists[t].contents, parse);
    }
  }

  /** From the text of the list to the first rows; only they have to be stored, and a failure of the engine behind
      them is not met. */
  method SelectSome(tables: seq<Table>, text: string, storage: seq<seq<Storage>>, wanted: seq<bool>, max: nat,
                    results: seq<seq<Value>>, fails: bool, ghost db: nat -> Pair -> Value)
    returns (ending: Ending, rc: Rows.Error, selected: seq<bool>,
             lists: Lists<seq<Member>>, arrays: Arrays<seq<Member>>)
    requires |storage| == |wanted| == |tables| && forall t :: 0 <= t < |tables| ==> |storage[t]| == |tables[t].columns|
    requires forall k :: 0 <= k < |results| ==> Delivers(results[k], ExpandAll(tables, Items(text)), db(k))
    ensures ending == Outside <==> BlankStart(text)
    ensures ending != Outside ==> (ending == Stopped <==> Stops(tables, Items(text)))
    ensures ending.Done? ==>
              var list, n := ExpandAll(tables, Items(text)), |Limited(results, max)|;
              && Participants(list, wanted, selected)
              && rc == Result(list, storage, selected, db, n, fails && |results| < max)
              && |lists| == |arrays| == |tables|
    ensures ending.Done? ==> forall t :: 0 <= t < |tables| ==>
              if rc == SormOk && selected[t] && Limited(results, max) != [] then
                var list, n := ExpandAll(tables, Items(text)), |Limited(results, max)|;
                DeliveredFirst(lists, arrays, list, t, storage[t], db, n)
              else
                lists[t] == null && arrays[t] == null
  {
    hide Items, ExpandAll, Stops, Delivers, Agrees, Counts, TakesPart, BlankStart, Result, DeliveredFirst;
    rc, selected, lists, arrays := SormOk, [], [], [];
    var sel;
    sel, ending := Parse(tables, text);
    if ending.Done? {
      ExpandInTables(tables, Items(text));
      AgreesShape(tables, sel.indexes, sel.list);
      selected := TablesOf(sel, tables, wanted);
      rc, lists, arrays := ReadFirst(sel.indexes, tables, sel.list, storage, selected, max, results, fails, db);
    }
  }
}
