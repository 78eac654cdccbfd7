/** The readers of a select (sorm.c): all rows as lists, all rows as arrays, the first rows as lists or
    arrays, or one row at a time.  The engine is a statement that delivers result rows and then
    either ends or fails; how a result row is turned into a row object of a table is a parameter. */
module Rows {
  import opened Rings

  datatype Error = SormOk | NoExist | DbError | ParseError

  datatype Parsed<+R> = Good(row: R) | Bad

  datatype StepResult<+Raw> = Row(raw: Raw) | Done | Failed

  /** A prepared statement: the rows still to come, and how it ends. */
  class Stmt<Raw> {
    const rows: seq<Raw>
    const fails: bool
    var pos: nat

    ghost predicate Valid()
      reads this
    {
      pos <= |rows|
    }

    constructor (rows: seq<Raw>, fails: bool)
      ensures Valid() && pos == 0 && this.rows == rows && this.fails == fails
    {
      this.rows, this.fails, pos := rows, fails, 0;
    }

    method Step() returns (r: StepResult<Raw>)
      requires Valid()
      modifies this
      ensures Valid()
      ensures if old(pos) < |rows| then r == Row(rows[old(pos)]) && pos == old(pos) + 1
              else r == (if fails then Failed else Done) && pos == old(pos)
    {
      if pos < |rows| {
        r := Row(rows[pos]);
        pos := pos + 1;
      } else {
        r := if fails then Failed else Done;
      }
    }
  }

  // ---------------------------------------------------------------- what is to be delivered

  /** How the result row is turned into a row object of the table with the given number. */
  type Parser<!Raw, !R> = (nat, Raw) -> Parsed<R>

  /** Every row parses for every selected table. */
  ghost predicate AllParse<Raw, R>(parse: Parser<Raw, R>, selected: seq<bool>, raws: seq<Raw>) {
    forall k :: 0 <= k < |raws| ==> RowParses(parse, selected, raws[k])
  }

  ghost predicate RowParses<Raw, R>(parse: Parser<Raw, R>, selected: seq<bool>, raw: Raw) {
    forall t :: 0 <= t < |selected| && selected[t] ==> parse(t, raw).Good?
  }

  /** `rows` are the row objects of table `t`: the k-th one comes from the k-th result row. */
  ghost predicate Projects<Raw, R>(parse: Parser<Raw, R>, t: nat, raws: seq<Raw>, rows: seq<R>) {
    |rows| == |raws| && forall k :: 0 <= k < |raws| ==> parse(t, raws[k]) == Good(rows[k])
  }

  lemma ProjectsNext<Raw, R>(parse: Parser<Raw, R>, t: nat, raws: seq<Raw>, rows: seq<R>, raw: Raw, row: R)
    requires Projects(parse, t, raws, rows) && parse(t, raw) == Good(row)
    ensures Projects(parse, t, raws + [raw], rows + [row])
  {
  }

  /** At most one sequence of row objects is right for a table. */
  lemma ProjectsUnique<Raw, R>(parse: Parser<Raw, R>, t: nat, raws: seq<Raw>, a: seq<R>, b: seq<R>)
    requires Projects(parse, t, raws, a) && Projects(parse, t, raws, b)
    ensures a == b
  {
    forall k | 0 <= k < |raws|
      ensures a[k] == b[k]
    {
      assert Good(a[k]) == parse(t, raws[k]) == Good(b[k]);
    }
  }

  // ---------------------------------------------------------------- a list of rows

  class RowList<R> {
    const head: Node<R>

    ghost var nodes: seq<Node<R>>
    ghost var contents: seq<R>
    ghost var Repr: set<object>

    ghost predicate Valid()
      reads this, Repr
      ensures Valid() ==> this in Repr
    {
      && this in Repr && head in Repr && (forall i :: 0 <= i < |nodes| ==> nodes[i] in Repr)
      && Reads(head, nodes, contents)
    }

    constructor (blank: R)
      ensures Valid() && fresh(Repr) && contents == []
    {
      var h := new Node(blank);
      head := h;
      nodes, contents := [], [];
      new;
      Repr := {this, head};
      Init(head);
    }

    /** A new entry goes to the end. */
    method Add(row: R)
      requires Valid()
      modifies Repr
      ensures Valid() && fresh(Repr - old(Repr))
      ensures contents == old(contents) + [row]
    {
      hide Ring;
      var entry := new Node(row);
      ListAddTail(entry, head, nodes);
      nodes, contents := nodes + [entry], contents + [row];
      Repr := Repr + {entry};
    }

    /** __list_cpy_free: the rows of the list go to an array of the same length. */
    method Copy(n: nat, blank: R) returns (rows: array<R>)
      requires Valid() && n == |contents|
      ensures fresh(rows) && rows[..] == contents
    {
      rows := new R[n](_ => blank);
      var pos, i := head.next, 0;
      while pos != head
        invariant i <= |nodes| && pos == At(head, nodes, i + 1) && rows[..i] == contents[..i]
        decreases |nodes| - i
      {
        rows[i] := pos.data;
        pos, i := pos.next, i + 1;
      }
      assert rows[..n] == rows[..];
    }
  }

  // ---------------------------------------------------------------- all rows as lists

  type Lists<R> = seq<RowList?<R>>

  /** One list for each selected table, none for the others, no two sharing anything; all of it in `all`. */
  ghost predicate Apart<R>(lists: Lists<R>, selected: seq<bool>, all: set<object>)
    reads all
  {
    && |lists| == |selected|
    && (forall t :: 0 <= t < |lists| ==> (lists[t] != null <==> selected[t]))
    && (forall t :: 0 <= t < |lists| && selected[t] ==> lists[t] in all && lists[t].Repr <= all && lists[t].Valid())
    && (forall s, t :: 0 <= s < t < |lists| && selected[s] && selected[t] ==> lists[s].Repr !! lists[t].Repr)
  }

  /** The list of each selected table holds its row objects. */
  ghost predicate Hold<Raw, R>(lists: Lists<R>, selected: seq<bool>, all: set<object>, parse: Parser<Raw, R>,
                               raws: seq<Raw>)
    reads all
  {
    && Apart(lists, selected, all)
    && forall t :: 0 <= t < |lists| && selected[t] ==> Projects(parse, t, raws, lists[t].contents)
  }

  method NewLists<Raw, R>(selected: seq<bool>, blank: R, ghost parse: Parser<Raw, R>)
    returns (lists: Lists<R>, ghost all: set<object>)
    ensures fresh(all) && Hold(lists, selected, all, parse, [])
  {
    lists, all := [], {};
    for i := 0 to |selected|
      invariant fresh(all) && Apart(lists, selected[..i], all)
      invariant forall t :: 0 <= t < i && selected[t] ==> lists[t].contents == []
    {
      if selected[i] {
        var l := new RowList<R>(blank);
        lists, all := lists + [l], all + l.Repr;
      } else {
        lists := lists + [null];
      }
    }
    assert selected[..|selected|] == selected;
  }

  method AddTo<R>(lists: Lists<R>, selected: seq<bool>, ghost all: set<object>, t: nat, row: R)
    returns (ghost all': set<object>)
    requires Apart(lists, selected, all) && t < |lists| && selected[t]
    modifies lists[t].Repr
    ensures Apart(lists, selected, all') && fresh(all' - all) && all <= all'
    ensures lists[t].contents == old(lists[t].contents) + [row]
    ensures forall s :: 0 <= s < |lists| && s != t && selected[s] ==> lists[s].contents == old(lists[s].contents)
  {
    lists[t].Add(row);
    all' := all + lists[t].Repr;
  }

  /** One result row goes to the list of every selected table. */
  method AddRow<Raw, R>(lists: Lists<R>, selected: seq<bool>, ghost all: set<object>, parse: Parser<Raw, R>, raw: Raw,
                        ghost raws: seq<Raw>)
    returns (rc: Error, ghost all': set<object>)
    requires Hold(lists, selected, all, parse, raws)
    modifies all
    ensures fresh(all' - all)
    ensures rc == if RowParses(parse, selected, raw) then SormOk else ParseError
    ensures rc == SormOk ==> Hold(lists, selected, all', parse, raws + [raw])
  {
    hide Projects;
    all' := all;
    for t := 0 to |lists|
      invariant fresh(all' - all) && Apart(lists, selected, all')
      invariant forall s :: 0 <= s < t && selected[s] ==> Projects(parse, s, raws + [raw], lists[s].contents)
      invariant forall s :: t <= s < |lists| && selected[s] ==> Projects(parse, s, raws, lists[s].contents)
      invariant forall s :: 0 <= s < t && selected[s] ==> parse(s, raw).Good?
    {
      if selected[t] {
        var p := parse(t, raw);
        if p.Bad? {
          return ParseError, all';
        }
        ProjectsNext(parse, t, raws, lists[t].contents, raw, p.row);
        all' := AddTo(lists, selected, all', t, p.row);
      }
    }
    rc := SormOk;
  }

  function Freed<R>(n: nat): (lists: Lists<R>)
    ensures |lists| == n && forall t :: 0 <= t < n ==> lists[t] == null
  {
    if n == 0 then [] else Freed(n - 1) + [null]
  }

  /** What a list reader leaves behind: the rows of `raws` for every selected table, or nothing at all
      when there are none or something went wrong. */
  ghost predicate Delivered<Raw, R>(rc: Error, lists: Lists<R>, selected: seq<bool>, all: set<object>,
                                    parse: Parser<Raw, R>, raws: seq<Raw>)
    reads all
  {
    if rc == SormOk && raws != [] then Hold(lists, selected, all, parse, raws)
    else |lists| == |selected| && forall t :: 0 <= t < |lists| ==> lists[t] == null
  }

  /** The first `n` of the rows, all of them if there are fewer. */
  function Limited<Raw>(rows: seq<Raw>, n: nat): seq<Raw> {
    if n < |rows| then rows[..n] else rows
  }

  lemma LimitedMeaning<Raw>(rows: seq<Raw>, n: nat)
    ensures Limited(rows, n) <= rows && |Limited(rows, n)| <= n && (|Limited(rows, n)| < n ==> Limited(rows, n) == rows)
  {
  }

  /** The result of reading `raws`: the engine's failure is met only when the end is reached. */
  ghost function Outcome<Raw, R>(parse: Parser<Raw, R>, selected: seq<bool>, raws: seq<Raw>, failed: bool): Error {
    if !AllParse(parse, selected, raws) then ParseError else if failed then DbError else SormOk
  }

  /** A reader succeeds exactly when every row parses and the engine does not fail, and tells the two failures apart. */
  lemma OutcomeMeaning<Raw, R>(parse: Parser<Raw, R>, selected: seq<bool>, raws: seq<Raw>, failed: bool)
    ensures Outcome(parse, selected, raws, failed) == SormOk <==>
            !failed && forall t, k :: 0 <= t < |selected| && selected[t] && 0 <= k < |raws| ==> parse(t, raws[k]).Good?
    ensures Outcome(parse, selected, raws, failed) == ParseError <==>
            exists t, k :: 0 <= t < |selected| && selected[t] && 0 <= k < |raws| && parse(t, raws[k]).Bad?
    ensures Outcome(parse, selected, raws, failed) != NoExist
  {
    if !AllParse(parse, selected, raws) {
      var k :| 0 <= k < |raws| && !RowParses(parse, selected, raws[k]);
      var t :| 0 <= t < |selected| && selected[t] && parse(t, raws[k]).Bad?;
    } else {
      forall t, k | 0 <= t < |selected| && selected[t] && 0 <= k < |raws|
        ensures parse(t, raws[k]).Good?
      {
        assert RowParses(parse, selected, raws[k]);
      }
    }
  }

  lemma NoneParsed<Raw, R>(parse: Parser<Raw, R>, selected: seq<bool>)
    ensures AllParse(parse, selected, [])
  {
  }

  /** _select_all_list_core */
  method SelectAllList<Raw, R>(stmt: Stmt<Raw>, selected: seq<bool>, parse: Parser<Raw, R>, blank: R)
    returns (rc: Error, rowsNum: nat, lists: Lists<R>, ghost all: set<object>)
    requires stmt.Valid() && stmt.pos == 0
    modifies stmt
    ensures fresh(all) && Delivered(rc, lists, selected, all, parse, stmt.rows)
    ensures rc == Outcome(parse, selected, stmt.rows, stmt.fails)
    ensures rc == SormOk ==> rowsNum == |stmt.rows|
  {
    hide Hold, AllParse, RowParses;
    NoneParsed(parse, selected);
    lists, all := NewLists(selected, blank, parse);
    rowsNum := 0;
    assert stmt.rows[..0] == [];
    while true
      invariant stmt.Valid() && stmt.pos == rowsNum && fresh(all)
      invariant Hold(lists, selected, all, parse, stmt.rows[..rowsNum])
      invariant AllParse(parse, selected, stmt.rows[..rowsNum])
      decreases |stmt.rows| - rowsNum
    {
      var step := stmt.Step();
      if step.Row? {
        rc, all := AddRow(lists, selected, all, parse, step.raw, stmt.rows[..rowsNum]);
        ParseNext(parse, selected, stmt.rows, rowsNum);
        if rc != SormOk {
          lists := Freed(|selected|);
          return;
        }
        assert stmt.rows[..rowsNum] + [step.raw] == stmt.rows[..rowsNum + 1];
        rowsNum := rowsNum + 1;
      } else {
        assert stmt.rows[..rowsNum] == stmt.rows;
        rc := if step.Done? then SormOk else DbError;
        break;
      }
    }
    if rc != SormOk || rowsNum == 0 {
      lists := Freed(|selected|);
    }
  }

  /** Reading one more row. */
  lemma ParseNext<Raw, R>(parse: Parser<Raw, R>, selected: seq<bool>, raws: seq<Raw>, n: nat)
    requires n < |raws|
    ensures AllParse(parse, selected, raws[..n + 1]) <==>
            AllParse(parse, selected, raws[..n]) && RowParses(parse, selected, raws[n])
    ensures AllParse(parse, selected, raws) ==> AllParse(parse, selected, raws[..n + 1])
  {
    hide RowParses;
    assert raws[..n + 1][n] == raws[n];
    assert forall k :: 0 <= k < n ==> raws[..n + 1][k] == raws[..n][k];
  }

  // ---------------------------------------------------------------- the first rows as lists

  /** _select_some_list_core: when the limit is reached the engine is not asked again. */
  method SelectSomeList<Raw, R>(stmt: Stmt<Raw>, max: nat, selected: seq<bool>, parse: Parser<Raw, R>, blank: R)
    returns (rc: Error, rowsNum: nat, lists: Lists<R>, ghost all: set<object>)
    requires stmt.Valid() && stmt.pos == 0
    modifies stmt
    ensures fresh(all) && Delivered(rc, lists, selected, all, parse, Limited(stmt.rows, max))
    ensures rc == Outcome(parse, selected, Limited(stmt.rows, max), stmt.fails && |stmt.rows| < max)
    ensures rc == SormOk ==> rowsNum == |Limited(stmt.rows, max)|
  {
    hide Hold, AllParse, RowParses;
    NoneParsed(parse, selected);
    rowsNum := 0;
    if max == 0 {
      return SormOk, 0, Freed(|selected|), {};
    }
    lists, all := NewLists(selected, blank, parse);
    rc := SormOk;
    assert stmt.rows[..0] == [];
    while rowsNum < max
      invariant stmt.Valid() && stmt.pos == rowsNum <= max && rc == SormOk && fresh(all)
      invariant Hold(lists, selected, all, parse, stmt.rows[..rowsNum])
      invariant AllParse(parse, selected, stmt.rows[..rowsNum])
    {
      var step := stmt.Step();
      if step.Row? {
        rc, all := AddRow(lists, selected, all, parse, step.raw, stmt.rows[..rowsNum]);
        ParseNext(parse, selected, stmt.rows, rowsNum);
        if rc != SormOk {
          LimitedParse(parse, selected, stmt.rows, max, rowsNum + 1);
          lists := Freed(|selected|);
          return;
        }
        assert stmt.rows[..rowsNum] + [step.raw] == stmt.rows[..rowsNum + 1];
        rowsNum := rowsNum + 1;
      } else {
        assert stmt.rows[..rowsNum] == stmt.rows;
        rc := if step.Done? then SormOk else DbError;
        break;
      }
    }
    assert stmt.rows[..rowsNum] == Limited(stmt.rows, max);
    if rc != SormOk || rowsNum == 0 {
      lists := Freed(|selected|);
    }
  }

  /** A row that does not parse among the rows to be read. */
  lemma LimitedParse<Raw, R>(parse: Parser<Raw, R>, selected: seq<bool>, raws: seq<Raw>, max: nat, n: nat)
    requires n <= |raws| && n <= max && !AllParse(parse, selected, raws[..n])
    ensures !AllParse(parse, selected, Limited(raws, max))
  {
    hide RowParses;
    var k :| 0 <= k < n && !RowParses(parse, selected, raws[..n][k]);
    assert Limited(raws, max)[k] == raws[..n][k];
  }

  // ---------------------------------------------------------------- rows as arrays

  type Arrays<R> = seq<array?<R>>

  /** One array of `size` rows for each selected table, none for the others, all of them different. */
  ghost predicate Separate<R>(arrays: Arrays<R>, selected: seq<bool>, size: nat, all: set<object>) {
    && |arrays| == |selected|
    && (forall t :: 0 <= t < |arrays| ==> (arrays[t] != null <==> selected[t]))
    && (forall t :: 0 <= t < |arrays| && selected[t] ==> arrays[t] in all && arrays[t].Length == size)
    && (forall s, t :: 0 <= s < t < |arrays| && selected[s] && selected[t] ==> arrays[s] != arrays[t])
  }

  /** The array of each selected table starts with its row objects. */
  ghost predicate Filled<Raw, R>(arrays: Arrays<R>, selected: seq<bool>, size: nat, all: set<object>,
                                 parse: Parser<Raw, R>, raws: seq<Raw>)
    reads all
  {
    && Separate(arrays, selected, size, all) && |raws| <= size
    && forall t :: 0 <= t < |arrays| && selected[t] ==> Projects(parse, t, raws, arrays[t][..|raws|])
  }

  method NewArrays<R>(selected: seq<bool>, size: nat, blank: R) returns (arrays: Arrays<R>, ghost all: set<object>)
    ensures fresh(all) && Separate(arrays, selected, size, all)
  {
    arrays, all := [], {};
    for i := 0 to |selected|
      invariant fresh(all) && Separate(arrays, selected[..i], size, all)
    {
      if selected[i] {
        var a := new R[size](_ => blank);
        arrays, all := arrays + [a], all + {a};
      } else {
        arrays := arrays + [null];
      }
    }
    assert selected[..|selected|] == selected;
  }

  method Store<R>(a: array<R>, n: nat, row: R)
    requires n < a.Length
    modifies a
    ensures a[..n + 1] == old(a[..n]) + [row]
  {
    a[n] := row;
  }

  /** One result row goes to place `n` of the array of every selected table. */
  method StoreRow<Raw, R>(arrays: Arrays<R>, selected: seq<bool>, ghost size: nat, ghost all: set<object>, n: nat,
                          parse: Parser<Raw, R>, raw: Raw, ghost raws: seq<Raw>)
    returns (rc: Error)
    requires Filled(arrays, selected, size, all, parse, raws) && n == |raws| < size
    modifies all
    ensures rc == if RowParses(parse, selected, raw) then SormOk else ParseError
    ensures rc == SormOk ==> Filled(arrays, selected, size, all, parse, raws + [raw])
  {
    hide Projects;
    for t := 0 to |arrays|
      invariant forall s :: 0 <= s < t && selected[s] ==> Projects(parse, s, raws + [raw], arrays[s][..n + 1])
      invariant forall s :: t <= s < |arrays| && selected[s] ==> Projects(parse, s, raws, arrays[s][..n])
      invariant forall s :: 0 <= s < t && selected[s] ==> parse(s, raw).Good?
    {
      if selected[t] {
        var p := parse(t, raw);
        if p.Bad? {
          return ParseError;
        }
        ProjectsNext(parse, t, raws, arrays[t][..n], raw, p.row);
        label before: Store(arrays[t], n, p.row);
        forall s | 0 <= s < |arrays| && s != t && selected[s]
          ensures arrays[s][..n] == old@before(arrays[s][..n]) && arrays[s][..n + 1] == old@before(arrays[s][..n + 1])
        {
        }
      }
    }
    rc := SormOk;
  }

  function NoArrays<R>(n: nat): (arrays: Arrays<R>)
    ensures |arrays| == n && forall t :: 0 <= t < n ==> arrays[t] == null
  {
    if n == 0 then [] else NoArrays(n - 1) + [null]
  }

  ghost predicate DeliveredArrays<Raw, R>(rc: Error, arrays: Arrays<R>, selected: seq<bool>, size: nat,
                                          all: set<object>, parse: Parser<Raw, R>, raws: seq<Raw>)
    reads all
  {
    if rc == SormOk && raws != [] then Filled(arrays, selected, size, all, parse, raws)
    else |arrays| == |selected| && forall t :: 0 <= t < |arrays| ==> arrays[t] == null
  }

  /** _select_some_array_core */
  method SelectSomeArray<Raw, R>(stmt: Stmt<Raw>, max: nat, selected: seq<bool>, parse: Parser<Raw, R>, blank: R)
    returns (rc: Error, rowsNum: nat, arrays: Arrays<R>, ghost all: set<object>)
    requires stmt.Valid() && stmt.pos == 0
    modifies stmt
    ensures fresh(all) && DeliveredArrays(rc, arrays, selected, max, all, parse, Limited(stmt.rows, max))
    ensures rc == Outcome(parse, selected, Limited(stmt.rows, max), stmt.fails && |stmt.rows| < max)
    ensures rc == SormOk ==> rowsNum == |Limited(stmt.rows, max)|
  {
    rowsNum := 0;
    if max == 0 {
      return SormOk, 0, NoArrays(|selected|), {};
    }
    arrays, all := NewArrays(selected, max, blank);
    rc := SormOk;
    while rowsNum < max
      invariant stmt.Valid() && stmt.pos == rowsNum <= max && rc == SormOk && fresh(all)
      invariant Filled(arrays, selected, max, all, parse, stmt.rows[..rowsNum])
      invariant AllParse(parse, selected, stmt.rows[..rowsNum])
    {
      hide Filled, AllParse, RowParses;
      var step := stmt.Step();
      if step.Row? {
        rc := StoreRow(arrays, selected, max, all, rowsNum, parse, step.raw, stmt.rows[..rowsNum]);
        ParseNext(parse, selected, stmt.rows, rowsNum);
        if rc != SormOk {
          LimitedParse(parse, selected, stmt.rows, max, rowsNum + 1);
          arrays := NoArrays(|selected|);
          return;
        }
        assert stmt.rows[..rowsNum] + [step.raw] == stmt.rows[..rowsNum + 1];
        rowsNum := rowsNum + 1;
      } else {
        assert stmt.rows[..rowsNum] == stmt.rows;
        rc := if step.Done? then SormOk else DbError;
        break;
      }
    }
    assert stmt.rows[..rowsNum] == Limited(stmt.rows, max);
    if rc != SormOk || rowsNum == 0 {
      arrays := NoArrays(|selected|);
    }
  }

  method CopyLists<R>(lists: Lists<R>, selected: seq<bool>, ghost used: set<object>, n: nat, blank: R)
    returns (arrays: Arrays<R>, ghost all: set<object>)
    requires Apart(lists, selected, used)
    requires forall t :: 0 <= t < |lists| && selected[t] ==> |lists[t].contents| == n
    ensures fresh(all) && Separate(arrays, selected, n, all)
    ensures forall t :: 0 <= t < |lists| && selected[t] ==> arrays[t][..] == lists[t].contents
  {
    arrays, all := [], {};
    for i := 0 to |lists|
      invariant fresh(all) && Separate(arrays, selected[..i], n, all)
      invariant forall t :: 0 <= t < i && selected[t] ==> arrays[t][..] == lists[t].contents
    {
      if lists[i] != null {
        var a := lists[i].Copy(n, blank);
        arrays, all := arrays + [a], all + {a};
      } else {
        arrays := arrays + [null];
      }
    }
    assert selected[..|selected|] == selected;
  }

  /** sorm_select_all_array_by and its join: the lists are read first and then copied. */
  method SelectAllArray<Raw, R>(stmt: Stmt<Raw>, selected: seq<bool>, parse: Parser<Raw, R>, blank: R)
    returns (rc: Error, rowsNum: nat, arrays: Arrays<R>, ghost all: set<object>)
    requires stmt.Valid() && stmt.pos == 0
    modifies stmt
    ensures fresh(all) && DeliveredArrays(rc, arrays, selected, |stmt.rows|, all, parse, stmt.rows)
    ensures var out := Outcome(parse, selected, stmt.rows, stmt.fails);
            rc == if out == SormOk && stmt.rows == [] then NoExist else out
    ensures rc == SormOk ==> rowsNum == |stmt.rows|
  {
    hide Outcome;
    var lists; ghost var used;
    rc, rowsNum, lists, used := SelectAllList(stmt, selected, parse, blank);
    all := {};
    if rc != SormOk {
      return rc, rowsNum, NoArrays(|selected|), all;
    }
    if rowsNum == 0 {
      return NoExist, rowsNum, NoArrays(|selected|), all;
    }
    arrays, all := CopyLists(lists, selected, used, rowsNum, blank);
    assert forall t :: 0 <= t < |arrays| && selected[t] ==> arrays[t][..rowsNum] == arrays[t][..];
  }

  // ---------------------------------------------------------------- one row at a time

  datatype Slot<+R> = Full(row: R) | Vacant

  /** A row object for every selected table, from the same result row. */
  ghost predicate Joined<Raw, R>(parse: Parser<Raw, R>, selected: seq<bool>, raw: Raw, slots: seq<Slot<R>>) {
    && |slots| == |selected|
    && forall t :: 0 <= t < |selected| ==>
         if selected[t] then slots[t].Full? && parse(t, raw) == Good(slots[t].row) else slots[t].Vacant?
  }

  class Iterator<Raw, R> {
    const stmt: Stmt<Raw>
    var hasMore: bool

    constructor (stmt: Stmt<Raw>)
      ensures this.stmt == stmt && !hasMore
    {
      this.stmt, hasMore := stmt, false;
    }

    /** _select_iterate */
    method Next(selected: seq<bool>, parse: Parser<Raw, R>) returns (rc: Error, slots: seq<Slot<R>>)
      requires stmt.Valid()
      modifies this, stmt
      ensures stmt.Valid() && hasMore == (old(stmt.pos) < |stmt.rows|)
      ensures stmt.pos == if hasMore then old(stmt.pos) + 1 else old(stmt.pos)
      ensures !hasMore ==> rc == if stmt.fails then DbError else SormOk
      ensures hasMore ==> rc == if RowParses(parse, selected, stmt.rows[old(stmt.pos)]) then SormOk else ParseError
      ensures hasMore && rc == SormOk ==> Joined(parse, selected, stmt.rows[old(stmt.pos)], slots)
    {
      slots := [];
      hasMore := false;
      var step := stmt.Step();
      if step.Row? {
        hasMore := true;
        for t := 0 to |selected|
          invariant Joined(parse, selected[..t], step.raw, slots)
          invariant forall s :: 0 <= s < t && selected[s] ==> parse(s, step.raw).Good?
        {
          if selected[t] {
            var p := parse(t, step.raw);
            if p.Bad? {
              return ParseError, slots;
            }
            slots := slots + [Full(p.row)];
          } else {
            slots := slots + [Vacant];
          }
        }
        assert selected[..|selected|] == selected;
      }
      rc := if step.Failed? then DbError else SormOk;
    }

    /** An iterator asked until it has no more. */
    method Drain(selected: seq<bool>, parse: Parser<Raw, R>) returns (rc: Error, read: seq<seq<Slot<R>>>)
      requires stmt.Valid() && stmt.pos == 0
      modifies this, stmt
      ensures rc == Outcome(parse, selected, stmt.rows, stmt.fails)
      ensures rc == SormOk ==> |read| == |stmt.rows|
      ensures |read| <= |stmt.rows|
      ensures forall k :: 0 <= k < |read| ==> Joined(parse, selected, stmt.rows[k], read[k])
    {
      read := [];
      while true
        invariant stmt.Valid() && stmt.pos == |read|
        invariant AllParse(parse, selected, stmt.rows[..|read|])
        invariant forall k :: 0 <= k < |read| ==> Joined(parse, selected, stmt.rows[k], read[k])
        decreases |stmt.rows| - |read|
      {
        hide AllParse, RowParses, Joined;
        var slots;
        rc, slots := Next(selected, parse);
        if |read| < |stmt.rows| {
          ParseNext(parse, selected, stmt.rows, |read|);
        } else {
          assert stmt.rows[..|read|] == stmt.rows;
        }
        if rc != SormOk || !hasMore {
          return;
        }
        read := read + [slots];
      }
    }
  }

  // ---------------------------------------------------------------- the readers agree

  /** A drained iterator holds for each table what the other readers deliver. */
  lemma {:induction false} JoinedProjects<Raw, R>(parse: Parser<Raw, R>, selected: seq<bool>, raws: seq<Raw>,
                                                  read: seq<seq<Slot<R>>>, t: nat, rows: seq<R>)
    requires |read| == |raws| && forall k :: 0 <= k < |raws| ==> Joined(parse, selected, raws[k], read[k])
    requires t < |selected| && selected[t] && Projects(parse, t, raws, rows)
    ensures forall k :: 0 <= k < |raws| ==> |read[k]| == |selected| && read[k][t] == Full(rows[k])
  {
    forall k | 0 <= k < |raws|
      ensures |read[k]| == |selected| && read[k][t] == Full(rows[k])
    {
      assert Joined(parse, selected, raws[k], read[k]);
      assert Good(rows[k]) == parse(t, raws[k]) == Good(read[k][t].row);
    }
  }

  /** Lists and arrays filled from the same result hold the same rows. */
  lemma {:induction false} ListAndArray<Raw, R>(
    lists: Lists<R>, used: set<object>, arrays: Arrays<R>, size: nat, all: set<object>,
    selected: seq<bool>, parse: Parser<Raw, R>, raws: seq<Raw>, t: nat)
    requires Hold(lists, selected, used, parse, raws) && Filled(arrays, selected, size, all, parse, raws)
    requires t < |selected| && selected[t]
    ensures arrays[t][..|raws|] == lists[t].contents
  {
    hide Projects;
    ProjectsUnique(parse, t, raws, arrays[t][..|raws|], lists[t].contents);
  }

  /** A limited list is the beginning of the unlimited one. */
  lemma {:induction false} LimitedList<Raw, R>(
    lists: Lists<R>, used: set<object>, some: Lists<R>, used': set<object>,
    selected: seq<bool>, parse: Parser<Raw, R>, raws: seq<Raw>, max: nat, t: nat)
    requires Hold(lists, selected, used, parse, raws) && Hold(some, selected, used', parse, Limited(raws, max))
    requires t < |selected| && selected[t]
    ensures |lists[t].contents| == |raws| && some[t].contents == Limited(lists[t].contents, max)
  {
    ProjectsUnique(parse, t, Limited(raws, max), some[t].contents, Limited(lists[t].contents, max));
  }

  /** The lists and arrays of a result hold its rows, the same in both; there are none when nothing was delivered. */
  ghost predicate SameRows<Raw, R>(rc: Error, lists: Lists<R>, arrays: Arrays<R>, selected: seq<bool>,
                                   parse: Parser<Raw, R>, raws: seq<Raw>)
    reads lists, arrays
  {
    && |lists| == |arrays| == |selected|
    && forall t :: 0 <= t < |selected| ==>
         if rc == SormOk && selected[t] && raws != [] then
           && lists[t] != null && arrays[t] != null
           && Projects(parse, t, raws, lists[t].contents) && arrays[t][..] == lists[t].contents
         else
           lists[t] == null && arrays[t] == null
  }

  /** What an iterator has read before its end or a failure: a row for each result row, from that row. */
  ghost predicate ReadInOrder<Raw, R>(read: seq<seq<Slot<R>>>, selected: seq<bool>, parse: Parser<Raw, R>,
                                      raws: seq<Raw>) {
    |read| <= |raws| && forall k :: 0 <= k < |read| ==> Joined(parse, selected, raws[k], read[k])
  }

  /** All-list, all-array and a drained iterator over the same result end the same, and deliver the same rows in the
      same order: one for each result row, from that row; and nothing at all for an empty result or an error. */
  method ReadAll<Raw, R>(rows: seq<Raw>, fails: bool, selected: seq<bool>, parse: Parser<Raw, R>, blank: R)
    returns (rc: Error, rcArrays: Error, rcRead: Error, lists: Lists<R>, arrays: Arrays<R>, read: seq<seq<Slot<R>>>)
    ensures rc == rcRead == Outcome(parse, selected, rows, fails)
    ensures rcArrays == if rc == SormOk && rows == [] then NoExist else rc
    ensures SameRows(rc, lists, arrays, selected, parse, rows)
    ensures ReadInOrder(read, selected, parse, rows) && (rc == SormOk ==> |read| == |rows|)
    ensures rc == SormOk ==> forall t, k :: 0 <= t < |selected| && selected[t] && 0 <= k < |rows| ==>
              |read[k]| == |selected| && k < |lists[t].contents| && read[k][t] == Full(lists[t].contents[k])
  {
    hide Joined, Outcome, Projects;
    ghost var used, all;
    var n;
    var stmt := new Stmt(rows, fails);
    rc, n, lists, used := SelectAllList(stmt, selected, parse, blank);
    stmt := new Stmt(rows, fails);
    rcArrays, n, arrays, all := SelectAllArray(stmt, selected, parse, blank);
    stmt := new Stmt(rows, fails);
    var it := new Iterator<Raw, R>(stmt);
    rcRead, read := it.Drain(selected, parse);
    if rc == SormOk && rows != [] {
      forall t | 0 <= t < |selected| && selected[t]
        ensures arrays[t][..] == lists[t].contents && |lists[t].contents| == |rows|
        ensures forall k :: 0 <= k < |rows| ==> |read[k]| == |selected| && read[k][t] == Full(lists[t].contents[k])
      {
        ListAndArray(lists, used, arrays, |rows|, all, selected, parse, rows, t);
        assert arrays[t][..|rows|] == arrays[t][..];
        JoinedProjects(parse, selected, rows, read, t, lists[t].contents);
      }
    }
  }

  lemma ParseLimited<Raw, R>(parse: Parser<Raw, R>, selected: seq<bool>, raws: seq<Raw>, max: nat)
    requires AllParse(parse, selected, raws)
    ensures AllParse(parse, selected, Limited(raws, max))
  {
  }

  lemma {:induction false} LimitedAgree<Raw, R>(
    lists: Lists<R>, used: set<object>, some: Lists<R>, used': set<object>,
    selected: seq<bool>, parse: Parser<Raw, R>, raws: seq<Raw>, max: nat)
    requires Hold(lists, selected, used, parse, raws) && Hold(some, selected, used', parse, Limited(raws, max))
    ensures |lists| == |some| == |selected|
    ensures forall t :: 0 <= t < |selected| && selected[t] ==>
              lists[t] != null && some[t] != null && some[t].contents == Limited(lists[t].contents, max)
  {
    hide Projects;
    forall t | 0 <= t < |selected| && selected[t]
      ensures some[t].contents == Limited(lists[t].contents, max)
    {
      LimitedList(lists, used, some, used', selected, parse, raws, max, t);
    }
  }

  /** What both limited readers deliver: the same rows, those of `raws`. */
  ghost predicate SameFirst<Raw, R>(rc: Error, lists: Lists<R>, arrays: Arrays<R>, selected: seq<bool>,
                                    parse: Parser<Raw, R>, raws: seq<Raw>)
    reads lists, arrays
  {
    && |lists| == |arrays| == |selected|
    && forall t :: 0 <= t < |selected| ==>
         if rc == SormOk && selected[t] && raws != [] then
           && lists[t] != null && arrays[t] != null && |raws| <= arrays[t].Length
           && Projects(parse, t, raws, lists[t].contents) && arrays[t][..|raws|] == lists[t].contents
         else
           lists[t] == null && arrays[t] == null
  }

  /** With a limit, lists and arrays end the same and both deliver the first rows, whatever comes behind them; when the
      unlimited reader succeeds, these are the first of what it delivers. */
  method ReadSome<Raw, R>(rows: seq<Raw>, fails: bool, max: nat, selected: seq<bool>, parse: Parser<Raw, R>, blank: R)
    returns (rcAll: Error, lists: Lists<R>, rc: Error, rcArrays: Error, some: Lists<R>, arrays: Arrays<R>, n: nat)
    ensures rcAll == Outcome(parse, selected, rows, fails)
    ensures rc == rcArrays == Outcome(parse, selected, Limited(rows, max), fails && |rows| < max)
    ensures rc == SormOk ==> n == if max < |rows| then max else |rows|
    ensures SameFirst(rc, some, arrays, selected, parse, Limited(rows, max))
    ensures rcAll == SormOk && Limited(rows, max) != [] ==>
              && rc == SormOk && |lists| == |some| == |selected|
              && forall t :: 0 <= t < |selected| && selected[t] ==>
                   lists[t] != null && some[t] != null && some[t].contents == Limited(lists[t].contents, max)
  {
    hide AllParse, RowParses, Projects, Hold, Filled;
    ghost var used, used', all;
    var m;
    var stmt := new Stmt(rows, fails);
    rcAll, m, lists, used := SelectAllList(stmt, selected, parse, blank);
    stmt := new Stmt(rows, fails);
    rc, m, some, used' := SelectSomeList(stmt, max, selected, parse, blank);
    stmt := new Stmt(rows, fails);
    rcArrays, n, arrays, all := SelectSomeArray(stmt, max, selected, parse, blank);
    if rc == SormOk && Limited(rows, max) != [] {
      FirstAgree(some, used', arrays, max, all, selected, parse, Limited(rows, max));
    }
    if rcAll == SormOk {
      ParseLimited(parse, selected, rows, max);
      if Limited(rows, max) != [] {
        LimitedAgree(lists, used, some, used', selected, parse, rows, max);
      }
    }
  }

  lemma {:induction false} FirstAgree<Raw, R>(
    lists: Lists<R>, used: set<object>, arrays: Arrays<R>, size: nat, all: set<object>,
    selected: seq<bool>, parse: Parser<Raw, R>, raws: seq<Raw>)
    requires Hold(lists, selected, used, parse, raws) && Filled(arrays, selected, size, all, parse, raws) && raws != []
    ensures SameFirst(SormOk, lists, arrays, selected, parse, raws)
  {
    hide Projects;
    forall t | 0 <= t < |selected| && selected[t]
      ensures arrays[t][..|raws|] == lists[t].contents
    {
      ListAndArray(lists, used, arrays, size, all, selected, parse, raws, t);
    }
  }
}
