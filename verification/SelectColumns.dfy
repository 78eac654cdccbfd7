/** The column list of a select (sorm.c): a comma separated text is resolved against the tables and
    turned into an index from columns to positions in the result, by which rows are filled. */
module SelectColumns {

  const NO_INDEX := -1

  datatype Table = Table(name: string, columns: seq<string>)

  /** A column of the result: table and column number. */
  type Pair = (nat, nat)

  // ---------------------------------------------------------------- names

  /** The first place of `x` at or after `from`, or the length. */
  function Find<T(==)>(s: seq<T>, x: T, from: nat): (i: nat)
    requires from <= |s|
    ensures from <= i <= |s| && (i < |s| ==> s[i] == x) && forall j :: from <= j < i ==> s[j] != x
    decreases |s| - from
  {
    if from == |s| || s[from] == x then from else Find(s, x, from + 1)
  }

  lemma FindUnique<T>(s: seq<T>, x: T, from: nat, i: nat)
    requires from <= i <= |s| && (i < |s| ==> s[i] == x) && forall j :: from <= j < i ==> s[j] != x
    ensures Find(s, x, from) == i
  {
  }

  ghost function Names(tables: seq<Table>): (ns: seq<string>)
    ensures |ns| == |tables| && forall i :: 0 <= i < |ns| ==> ns[i] == tables[i].name
  {
    if tables == [] then [] else Names(tables[..|tables| - 1]) + [tables[|tables| - 1].name]
  }

  /** What one item of the list stands for.  An unknown table name is reported and the item passed
      over; an unknown column name stops the program. */
  datatype Target = All | AllOf(table: nat) | One(table: nat, column: nat) | BadTable | Stop

  /** The first table with the column. */
  ghost function Owner(tables: seq<Table>, column: string, from: nat): (i: nat)
    requires from <= |tables|
    ensures from <= i <= |tables| && (i < |tables| ==> column in tables[i].columns)
    ensures forall j :: from <= j < i ==> column !in tables[j].columns
    decreases |tables| - from
  {
    if from == |tables| || column in tables[from].columns then from else Owner(tables, column, from + 1)
  }

  ghost function Meaning(tables: seq<Table>, item: string): Target {
    var dot := Find(item, '.', 0);
    if dot < |item| then
      var t, column := Find(Names(tables), item[..dot], 0), item[dot + 1..];
      if t == |tables| then BadTable
      else if column == "*" then AllOf(t)
      else if column in tables[t].columns then One(t, Find(tables[t].columns, column, 0))
      else Stop
    else if item == "*" then All
    else
      var t := Owner(tables, item, 0);
      if t < |tables| then One(t, Find(tables[t].columns, item, 0)) else Stop
  }

  // ---------------------------------------------------------------- what an item means, from its text

  /** `item` is n.col, with its first dot after n. */
  ghost predicate Dotted(item: string, n: string, col: string) { '.' !in n && item == n + "." + col }

  ghost predicate FirstNamed(tables: seq<Table>, n: string, t: nat) {
    t < |tables| && tables[t].name == n && forall u :: 0 <= u < t ==> tables[u].name != n
  }

  ghost predicate FirstColumn(columns: seq<string>, col: string, c: nat) {
    c < |columns| && columns[c] == col && forall d :: 0 <= d < c ==> columns[d] != col
  }

  /** "*" means everything, n.* all columns of the first table named n, n.col its first column of that name, and col
      the first one of that name in the first table that has one. */
  ghost predicate Means(tables: seq<Table>, item: string, r: Target) {
    match r
    case All => item == "*"
    case AllOf(t) => exists n :: Dotted(item, n, "*") && FirstNamed(tables, n, t)
    case One(t, c) =>
      t < |tables| &&
      var columns := tables[t].columns;
      || (exists n, col ::
            Dotted(item, n, col) && col != "*" && FirstNamed(tables, n, t) && FirstColumn(columns, col, c))
      || (Plain(item) && FirstColumn(columns, item, c) && forall u :: 0 <= u < t ==> item !in tables[u].columns)
    case BadTable => exists n, col :: Dotted(item, n, col) && forall u :: 0 <= u < |tables| ==> tables[u].name != n
    case Stop =>
      || (exists n, col, t: nat ::
            Dotted(item, n, col) && col != "*" && FirstNamed(tables, n, t) && col !in tables[t].columns)
      || (Plain(item) && forall u :: 0 <= u < |tables| ==> item !in tables[u].columns)
  }

  /** A name without a table. */
  ghost predicate Plain(item: string) { '.' !in item && item != "*" }

  lemma DottedAt(item: string, n: string, col: string)
    requires Dotted(item, n, col)
    ensures Find(item, '.', 0) == |n| < |item| && n == item[..|n|] && col == item[|n| + 1..]
  {
    assert forall j :: 0 <= j < |n| ==> item[j] == n[j];
    FindUnique(item, '.', 0, |n|);
  }

  lemma DottedHasDot(item: string, n: string, col: string)
    requires Dotted(item, n, col)
    ensures '.' in item
  {
    assert item[|n|] == '.';
  }

  /** An item means one thing only. */
  lemma MeansUnique(tables: seq<Table>, item: string, r: Target, r': Target)
    requires Means(tables, item, r) && Means(tables, item, r')
    ensures r == r'
  {
    if '.' in item {
      var n, col := DottedOf(tables, item, r);
      var n', col' := DottedOf(tables, item, r');
      DottedAt(item, n, col);
      DottedAt(item, n', col');
      hide Means;
    } else {
      forall n, col
        ensures !Dotted(item, n, col)
      {
        if Dotted(item, n, col) { DottedHasDot(item, n, col); }
      }
    }
  }

  lemma DottedOf(tables: seq<Table>, item: string, r: Target) returns (n: string, col: string)
    requires Means(tables, item, r) && '.' in item
    ensures Dotted(item, n, col)
    ensures r.All? ==> false
    ensures r.AllOf? ==> col == "*" && FirstNamed(tables, n, r.table)
    ensures r.One? ==> col != "*" && FirstNamed(tables, n, r.table)
    ensures r.One? ==> FirstColumn(tables[r.table].columns, col, r.column)
    ensures r.BadTable? ==> forall u :: 0 <= u < |tables| ==> tables[u].name != n
    ensures r.Stop? ==> col != "*" && exists t: nat :: FirstNamed(tables, n, t) && col !in tables[t].columns
  {
    match r
    case All => n, col := "", "";
    case AllOf(t) =>
      n :| Dotted(item, n, "*") && FirstNamed(tables, n, t);
      col := "*";
    case One(t, c) =>
      var columns := tables[t].columns;
      n, col :| Dotted(item, n, col) && col != "*" && FirstNamed(tables, n, t) && FirstColumn(columns, col, c);
    case BadTable =>
      n, col :| Dotted(item, n, col) && forall u :: 0 <= u < |tables| ==> tables[u].name != n;
    case Stop =>
      var t: nat;
      n, col, t :| Dotted(item, n, col) && col != "*" && FirstNamed(tables, n, t) && col !in tables[t].columns;
  }

  /** And it means what is computed. */
  lemma MeaningMeans(tables: seq<Table>, item: string)
    ensures Means(tables, item, Meaning(tables, item))
  {
    var dot := Find(item, '.', 0);
    if dot < |item| {
      var n, col := item[..dot], item[dot + 1..];
      assert item == n + "." + col && Dotted(item, n, col);
      var t := Find(Names(tables), n, 0);
      if t < |tables| {
        assert FirstNamed(tables, n, t);
        if col != "*" && col in tables[t].columns {
          assert FirstColumn(tables[t].columns, col, Find(tables[t].columns, col, 0));
        }
      } else {
        assert forall u :: 0 <= u < |tables| ==> Names(tables)[u] == tables[u].name;
      }
    } else if item != "*" {
      assert Plain(item);
      var t := Owner(tables, item, 0);
      if t < |tables| {
        assert FirstColumn(tables[t].columns, item, Find(tables[t].columns, item, 0));
      }
    }
  }

  method FindColumn(columns: seq<string>, name: string) returns (j: nat)
    ensures j == Find(columns, name, 0)
  {
    j := 0;
    while j < |columns|
      invariant j <= |columns| && forall k :: 0 <= k < j ==> columns[k] != name
    {
      if columns[j] == name {
        break;
      }
      j := j + 1;
    }
    FindUnique(columns, name, 0, j);
  }

  /** _column_name_to_index_in_tables */
  method Resolve(tables: seq<Table>, item: string) returns (r: Target)
    ensures r == Meaning(tables, item) && Means(tables, item, r)
  {
    hide Means;
    MeaningMeans(tables, item);
    var dot := Find(item, '.', 0);
    if dot < |item| {
      var tableName, column := item[..dot], item[dot + 1..];
      var i := 0;
      while i < |tables|
        invariant i <= |tables| && forall k :: 0 <= k < i ==> tables[k].name != tableName
      {
        if tables[i].name == tableName {
          break;
        }
        i := i + 1;
      }
      FindUnique(Names(tables), tableName, 0, i);
      if i == |tables| {
        return BadTable;
      }
      if column == "*" {
        return AllOf(i);
      }
      var j := FindColumn(tables[i].columns, column);
      return if j < |tables[i].columns| then One(i, j) else Stop;
    }
    if item == "*" {
      return All;
    }
    var i := 0;
    while i < |tables|
      invariant i <= |tables| && forall k :: 0 <= k < i ==> item !in tables[k].columns
    {
      var j := FindColumn(tables[i].columns, item);
      if j < |tables[i].columns| {
        OwnerUnique(tables, item, 0, i);
        return One(i, j);
      }
      i := i + 1;
    }
    OwnerUnique(tables, item, 0, i);
    return Stop;
  }

  lemma OwnerUnique(tables: seq<Table>, column: string, from: nat, i: nat)
    requires from <= i <= |tables| && (i < |tables| ==> column in tables[i].columns)
    requires forall j :: from <= j < i ==> column !in tables[j].columns
    ensures Owner(tables, column, from) == i
  {
  }

  // ---------------------------------------------------------------- the select list

  /** The first `n` columns of table `t`. */
  ghost function Row(t: nat, n: nat): (ps: seq<Pair>)
    ensures |ps| == n && forall i :: 0 <= i < n ==> ps[i] == (t, i)
  {
    if n == 0 then [] else Row(t, n - 1) + [(t, n - 1)]
  }

  /** All columns of the first `n` tables. */
  ghost function Rows(tables: seq<Table>, n: nat): seq<Pair>
    requires n <= |tables|
  {
    if n == 0 then [] else Rows(tables, n - 1) + Row(n - 1, |tables[n - 1].columns|)
  }

  ghost function Expand(tables: seq<Table>, r: Target): seq<Pair>
    requires r.AllOf? || r.One? ==> r.table < |tables|
  {
    match r
    case All => Rows(tables, |tables|)
    case AllOf(t) => Row(t, |tables[t].columns|)
    case One(t, c) => [(t, c)]
    case BadTable => []
    case Stop => []
  }

  ghost predicate Before(p: Pair, q: Pair) { p.0 < q.0 || (p.0 == q.0 && p.1 < q.1) }

  /** Table by table and column by column, nothing twice. */
  ghost predicate Ascending(ps: seq<Pair>) { forall k, l :: 0 <= k < l < |ps| ==> Before(ps[k], ps[l]) }

  lemma {:induction false} RowsExactly(tables: seq<Table>, n: nat)
    requires n <= |tables|
    ensures Ascending(Rows(tables, n))
    ensures forall p: Pair :: p in Rows(tables, n) <==> p.0 < n && p.1 < |tables[p.0].columns|
  {
    if n > 0 {
      RowsExactly(tables, n - 1);
      var before, row := Rows(tables, n - 1), Row(n - 1, |tables[n - 1].columns|);
      assert forall k :: 0 <= k < |before| ==> before[k] in before;
      forall p: Pair
        ensures p in row <==> p.0 == n - 1 && p.1 < |tables[n - 1].columns|
      {
        if p.0 == n - 1 && p.1 < |tables[n - 1].columns| {
          assert row[p.1] == p;
        }
      }
    }
  }

  /** What a target selects: all columns of all tables, all of one table, one column, or none; in order and once. */
  lemma ExpandExactly(tables: seq<Table>, r: Target)
    requires r.AllOf? || r.One? ==> r.table < |tables|
    ensures Ascending(Expand(tables, r))
    ensures forall p: Pair :: p in Expand(tables, r) <==>
              match r
              case All => p.0 < |tables| && p.1 < |tables[p.0].columns|
              case AllOf(t) => p.0 == t && p.1 < |tables[t].columns|
              case One(t, c) => p == (t, c)
              case BadTable => false
              case Stop => false
  {
    RowsExactly(tables, |tables|);
    if r.AllOf? {
      var row := Row(r.table, |tables[r.table].columns|);
      forall p: Pair | p.0 == r.table && p.1 < |tables[r.table].columns|
        ensures p in row
      {
        assert row[p.1] == p;
      }
    }
  }

  /** How many columns of a table have a position. */
  ghost function Selected(row: seq<int>): nat {
    if row == [] then 0 else Selected(row[..|row| - 1]) + if row[|row| - 1] != NO_INDEX then 1 else 0
  }

  lemma {:induction false} SelectedCounts(row: seq<int>)
    ensures Selected(row) == |set c | 0 <= c < |row| && row[c] != NO_INDEX|
  {
    var all := set c | 0 <= c < |row| && row[c] != NO_INDEX;
    if row == [] {
      assert all == {};
    } else {
      var n, front := |row| - 1, row[..|row| - 1];
      SelectedCounts(front);
      var before := set c | 0 <= c < |front| && front[c] != NO_INDEX;
      assert all == before + if row[n] != NO_INDEX then {n} else {};
    }
  }

  lemma {:induction false} SelectedAll(row: seq<int>)
    requires forall i :: 0 <= i < |row| ==> row[i] != NO_INDEX
    ensures Selected(row) == |row|
  {
    if row != [] { SelectedAll(row[..|row| - 1]); }
  }

  lemma {:induction false} SelectedNone(row: seq<int>)
    requires forall i :: 0 <= i < |row| ==> row[i] == NO_INDEX
    ensures Selected(row) == 0
  {
    if row != [] { SelectedNone(row[..|row| - 1]); }
  }

  lemma {:induction false} SelectedMore(row: seq<int>, c: nat, v: int)
    requires c < |row| && v != NO_INDEX
    ensures Selected(row[c := v]) == Selected(row) + if row[c] == NO_INDEX then 1 else 0
  {
    var n := |row| - 1;
    if c < n {
      assert row[c := v][..n] == row[..n][c := v];
      SelectedMore(row[..n], c, v);
    } else {
      assert row[c := v][..n] == row[..n];
    }
  }

  /** The index agrees with the select list: a column has a position exactly when it is in the list,
      and its position holds it. */
  ghost predicate Agrees(tables: seq<Table>, indexes: seq<seq<int>>, list: seq<Pair>) {
    && |indexes| == |tables|
    && (forall t :: 0 <= t < |tables| ==> |indexes[t]| == |tables[t].columns|)
    && (forall t, c :: 0 <= t < |tables| && 0 <= c < |indexes[t]| ==>
          if indexes[t][c] == NO_INDEX then (t, c) !in list
          else 0 <= indexes[t][c] < |list| && list[indexes[t][c]] == (t, c))
  }

  ghost predicate Counts(indexes: seq<seq<int>>, columnsNum: seq<int>) {
    |columnsNum| == |indexes| && forall t :: 0 <= t < |indexes| ==> columnsNum[t] == Selected(indexes[t])
  }

  /** Different columns have different positions. */
  lemma PositionsDistinct(tables: seq<Table>, indexes: seq<seq<int>>, list: seq<Pair>, t: nat, c: nat, t': nat, c': nat)
    requires Agrees(tables, indexes, list)
    requires t < |tables| && c < |indexes[t]| && t' < |tables| && c' < |indexes[t']|
    requires indexes[t][c] == indexes[t'][c'] != NO_INDEX
    ensures t == t' && c == c'
  {
    assert list[indexes[t][c]] == (t, c) && list[indexes[t'][c']] == (t', c');
  }

  /** select_columns_of_table and result_columns_num */
  class Selection {
    var columnsNum: seq<int>
    var indexes: seq<seq<int>>
    var resultNum: nat

    /** The select list read so far. */
    ghost var list: seq<Pair>

    ghost predicate Valid(tables: seq<Table>)
      reads this
    {
      resultNum == |list| && Agrees(tables, indexes, list) && Counts(indexes, columnsNum)
    }

    constructor (tables: seq<Table>)
      ensures Valid(tables) && list == []
    {
      var nums, rows := [], [];
      for i := 0 to |tables|
        invariant |nums| == |rows| == i
        invariant forall t :: 0 <= t < i ==> nums[t] == 0 && |rows[t]| == |tables[t].columns|
        invariant forall t :: 0 <= t < i ==> forall c :: 0 <= c < |rows[t]| ==> rows[t][c] == NO_INDEX
      {
        var row := [];
        for j := 0 to |tables[i].columns|
          invariant |row| == j && forall c :: 0 <= c < j ==> row[c] == NO_INDEX
        {
          row := row + [NO_INDEX];
        }
        nums, rows := nums + [0], rows + [row];
      }
      columnsNum, indexes, resultNum, list := nums, rows, 0, [];
      forall t | 0 <= t < |rows|
        ensures Selected(rows[t]) == 0
      {
        SelectedNone(rows[t]);
      }
    }

    /** One position: column `c` of table `t` is next in the result. */
    method Place(tables: seq<Table>, t: nat, c: nat)
      requires resultNum == |list| && Agrees(tables, indexes, list) && t < |tables| && c < |tables[t].columns|
      modifies this`indexes, this`resultNum, this`list
      ensures resultNum == |list| && Agrees(tables, indexes, list) && list == old(list) + [(t, c)]
      ensures indexes == old(indexes)[t := old(indexes)[t][c := old(resultNum)]]
    {
      indexes := indexes[t := indexes[t][c := resultNum]];
      resultNum := resultNum + 1;
      list := list + [(t, c)];
    }

    /** device_name.*: all columns, whatever positions they had. */
    method SelectAllOf(tables: seq<Table>, t: nat)
      requires Valid(tables) && t < |tables|
      modifies this
      ensures Valid(tables) && list == old(list) + Row(t, |tables[t].columns|)
      ensures |indexes| == |old(indexes)| == |tables|
      ensures forall u :: 0 <= u < |tables| && u != t ==> indexes[u] == old(indexes)[u]
      ensures |indexes[t]| == |tables[t].columns|
      ensures forall c :: 0 <= c < |indexes[t]| ==> indexes[t][c] == old(resultNum) + c
    {
      hide Agrees, Selected;
      ghost var before := indexes;
      AgreesShape(tables, indexes, list);
      columnsNum := columnsNum[t := |tables[t].columns|];
      ghost var nums := columnsNum;
      for i := 0 to |tables[t].columns|
        invariant resultNum == |list| && Agrees(tables, indexes, list) && list == old(list) + Row(t, i)
        invariant |indexes| == |tables| && |indexes[t]| == |tables[t].columns| && columnsNum == nums
        invariant forall u :: 0 <= u < |tables| && u != t ==> indexes[u] == before[u]
        invariant resultNum == old(resultNum) + i && forall c :: 0 <= c < i ==> indexes[t][c] == old(resultNum) + c
      {
        Place(tables, t, i);
      }
      SelectedAll(indexes[t]);
    }

    /** *: every table in turn. */
    method SelectAll(tables: seq<Table>)
      requires Valid(tables)
      modifies this
      ensures Valid(tables) && list == old(list) + Rows(tables, |tables|)
    {
      hide Agrees;
      hide Counts;
      for t := 0 to |tables|
        invariant Valid(tables) && list == old(list) + Rows(tables, t)
      {
        SelectAllOf(tables, t);
        assert list == old(list) + (Rows(tables, t) + Row(t, |tables[t].columns|));
      }
    }

    /** A single column keeps the position it already has. */
    method SelectOne(tables: seq<Table>, t: nat, c: nat)
      requires Valid(tables) && t < |tables| && c < |tables[t].columns|
      modifies this
      ensures Valid(tables) && list == old(list) + [(t, c)]
      ensures |old(indexes)| == |tables| && |old(indexes)[t]| == |tables[t].columns|
      ensures indexes == if old(indexes)[t][c] != NO_INDEX then old(indexes)
                         else old(indexes)[t := old(indexes)[t][c := old(resultNum)]]
    {
      ghost var row := indexes[t];
      if indexes[t][c] == NO_INDEX {
        SelectedMore(row, c, resultNum);
        Place(tables, t, c);
        columnsNum := columnsNum[t := columnsNum[t] + 1];
      } else {
        resultNum := resultNum + 1;
        list := list + [(t, c)];
      }
    }

    method Apply(tables: seq<Table>, r: Target)
      requires Valid(tables) && (r.AllOf? || r.One? ==> r.table < |tables|)
      requires r.One? ==> r.column < |tables[r.table].columns|
      modifies this
      ensures Valid(tables) && list == old(list) + Expand(tables, r)
    {
      match r {
        case All => SelectAll(tables);
        case AllOf(t) => SelectAllOf(tables, t);
        case One(t, c) => SelectOne(tables, t, c);
        case BadTable => assert list + [] == list;
        case Stop => assert list + [] == list;
      }
    }
  }

  lemma AgreesShape(tables: seq<Table>, indexes: seq<seq<int>>, list: seq<Pair>)
    requires Agrees(tables, indexes, list)
    ensures |indexes| == |tables| && forall t :: 0 <= t < |tables| ==> |indexes[t]| == |tables[t].columns|
  {
  }

  // ---------------------------------------------------------------- the text

  predicate IsBlank(c: char) { c == ' ' || c == '\t' }

  ghost predicate AllBlank(s: string) { forall i :: 0 <= i < |s| ==> IsBlank(s[i]) }

  /** `s` without the blanks at both ends. */
  ghost function Trimmed(s: string): string
    decreases |s|
  {
    if s != "" && IsBlank(s[0]) then Trimmed(s[1..])
    else if s != "" && IsBlank(s[|s| - 1]) then Trimmed(s[..|s| - 1])
    else s
  }

  lemma Glued(a: string, b: string, c: string, d: string)
    ensures a + (b + c + d) == (a + b) + c + d == a + b + (c + d)
  {
  }

  /** What is cut off are blanks, and no end of what is left is one. */
  lemma {:induction false} TrimmedMeaning(s: string) returns (pre: string, post: string)
    ensures s == pre + Trimmed(s) + post && AllBlank(pre) && AllBlank(post)
    ensures var t := Trimmed(s); t != "" ==> !IsBlank(t[0]) && !IsBlank(t[|t| - 1])
    decreases |s|
  {
    if s != "" && IsBlank(s[0]) {
      var pre' := "";
      pre', post := TrimmedMeaning(s[1..]);
      pre := [s[0]] + pre';
      Glued([s[0]], pre', Trimmed(s), post);
      assert s == [s[0]] + s[1..];
    } else if s != "" && IsBlank(s[|s| - 1]) {
      var post' := "";
      pre, post' := TrimmedMeaning(s[..|s| - 1]);
      post := post' + [s[|s| - 1]];
      Glued(pre, Trimmed(s), post', [s[|s| - 1]]);
      assert s == s[..|s| - 1] + [s[|s| - 1]];
    } else {
      pre, post := "", "";
      assert s == "" + s + "";
    }
  }

  lemma TrimHead(text: string, from: nat, to: nat)
    requires from < to <= |text| && IsBlank(text[from])
    ensures Trimmed(text[from..to]) == Trimmed(text[from + 1..to])
  {
    assert text[from..to][0] == text[from] && text[from..to][1..] == text[from + 1..to];
  }

  lemma TrimTail(text: string, from: nat, to: nat)
    requires from < to <= |text| && !IsBlank(text[from]) && IsBlank(text[to - 1])
    ensures Trimmed(text[from..to]) == Trimmed(text[from..to - 1])
  {
    var s := text[from..to];
    assert s[0] == text[from] && s[|s| - 1] == text[to - 1] && s[..|s| - 1] == text[from..to - 1];
  }

  lemma TrimDone(text: string, from: nat, to: nat)
    requires from < to <= |text| && !IsBlank(text[from]) && !IsBlank(text[to - 1])
    ensures Trimmed(text[from..to]) == text[from..to]
  {
    var s := text[from..to];
    assert s[0] == text[from] && s[|s| - 1] == text[to - 1];
  }

  /** trim on characters from..to of the text.  The tail loop looks for a character that is not a blank and has
      no bound: in an item of blanks only it goes on to the comma before the item, and, in the first item, to the
      character before the text. */
  method Trim(text: string, from: nat, to: nat) returns (item: string, outside: bool)
    requires from <= to <= |text| && (from > 0 ==> !IsBlank(text[from - 1]))
    ensures outside <==> from == 0 && AllBlank(text[from..to])
    ensures !outside ==> item == Trimmed(text[from..to])
  {
    hide Trimmed;
    item, outside := "", false;
    var str := from;
    while str < to && IsBlank(text[str])
      invariant from <= str <= to && forall k :: from <= k < str ==> IsBlank(text[k])
      invariant Trimmed(text[str..to]) == Trimmed(text[from..to])
    {
      TrimHead(text, str, to);
      str := str + 1;
    }
    assert str < to ==> text[from..to][str - from] == text[str];
    var end := to - 1;
    while end >= 0 && IsBlank(text[end])
      invariant (if str < to then str else from - 1) <= end < to
      invariant str < to ==> Trimmed(text[str..end + 1]) == Trimmed(text[from..to])
    {
      if str < to {
        TrimTail(text, str, end + 1);
      }
      end := end - 1;
    }
    if end < 0 {
      outside := true;
    } else if str < to {
      TrimDone(text, str, end + 1);
      item := text[str..end + 1];
    } else {
      TrimNothing(text, to);
    }
  }

  lemma TrimNothing(text: string, to: nat)
    requires to <= |text|
    ensures Trimmed(text[to..to]) == ""
  {
    assert text[to..to] == "";
  }

  /** The pieces between commas. */
  ghost function Items(s: string): seq<string>
    decreases |s|
  {
    var d := Find(s, ',', 0);
    if d == |s| then [s] else [s[..d]] + Items(s[d + 1..])
  }

  /** The pieces with commas between them. */
  ghost function WithCommas(items: seq<string>): string
    requires items != []
  {
    if |items| == 1 then items[0] else items[0] + "," + WithCommas(items[1..])
  }

  /** The pieces have no commas, and with commas between them they are the text. */
  lemma {:induction false} ItemsMeaning(s: string)
    ensures Items(s) != [] && WithCommas(Items(s)) == s && forall i :: 0 <= i < |Items(s)| ==> ',' !in Items(s)[i]
    decreases |s|
  {
    var d := Find(s, ',', 0);
    if d < |s| {
      ItemsMeaning(s[d + 1..]);
      assert Items(s)[1..] == Items(s[d + 1..]);
      assert s == s[..d] + "," + s[d + 1..];
    }
  }

  /** The select list a text stands for. */
  ghost function ExpandAll(tables: seq<Table>, items: seq<string>): seq<Pair> {
    if items == [] then []
    else ExpandAll(tables, items[..|items| - 1]) + Expand(tables, Meaning(tables, Trimmed(items[|items| - 1])))
  }

  ghost predicate Stops(tables: seq<Table>, items: seq<string>) {
    exists i :: 0 <= i < |items| && Meaning(tables, Trimmed(items[i])) == Stop
  }

  lemma FindShift(s: string, x: char, pos: nat)
    requires pos <= |s|
    ensures Find(s, x, pos) == pos + Find(s[pos..], x, 0)
  {
    var i := Find(s, x, pos);
    assert forall j :: 0 <= j < i - pos ==> s[pos..][j] == s[pos + j];
    assert i < |s| ==> s[pos..][i - pos] == s[i];
    FindUnique(s[pos..], x, 0, i - pos);
  }

  /** One item of the list, and what is left. */
  lemma ItemsAt(text: string, pos: nat)
    requires pos <= |text|
    ensures var d := Find(text, ',', pos);
            Items(text[pos..]) == [text[pos..d]] + if d == |text| then [] else Items(text[d + 1..])
  {
    var s, d := text[pos..], Find(text, ',', pos);
    FindShift(text, ',', pos);
    hide Find;
    assert Items(s) == if d - pos == |s| then [s] else [s[..d - pos]] + Items(s[d - pos + 1..]);
    hide Items;
    assert s[..d - pos] == text[pos..d];
    if d < |text| {
      assert s[d - pos + 1..] == text[d + 1..];
    } else {
      assert s == text[pos..d];
    }
  }

  lemma StopsAt(tables: seq<Table>, all: seq<string>, k: nat)
    requires k < |all| && !Stops(tables, all[..k])
    ensures !Stops(tables, all[..k + 1]) <==> Meaning(tables, Trimmed(all[k])) != Stop
    ensures Meaning(tables, Trimmed(all[k])) == Stop ==> Stops(tables, all)
  {
    assert all[..k + 1][k] == all[k];
    assert forall i :: 0 <= i < k ==> all[..k + 1][i] == all[..k][i];
  }

  lemma TailSplit(all: seq<string>, k: nat, item: string, rest: seq<string>)
    requires k <= |all| && all[k..] == [item] + rest
    ensures k < |all| && all[k] == item && all[k + 1..] == rest && all[..k + 1] == all[..k] + [item]
    ensures rest == [] ==> all[..k + 1] == all
  {
    assert all[k..][0] == item && all[k..][1..] == rest;
  }

  /** The item the loop stands at. */
  lemma NextItem(text: string, pos: nat, all: seq<string>, k: nat)
    requires pos <= |text| && k <= |all| && Items(text[pos..]) == all[k..]
    ensures var d := Find(text, ',', pos);
            && k < |all| && all[k] == text[pos..d] && all[..k + 1] == all[..k] + [text[pos..d]]
            && (d < |text| ==> Items(text[d + 1..]) == all[k + 1..])
            && (d == |text| ==> all[..k + 1] == all)
  {
    hide Items;
    hide Find;
    var d := Find(text, ',', pos);
    ItemsAt(text, pos);
    TailSplit(all, k, text[pos..d], if d == |text| then [] else Items(text[d + 1..]));
  }

  lemma ExpandSnoc(tables: seq<Table>, done: seq<string>, item: string)
    ensures ExpandAll(tables, []) == []
    ensures ExpandAll(tables, done + [item]) == ExpandAll(tables, done) + Expand(tables, Meaning(tables, Trimmed(item)))
  {
    assert (done + [item])[..|done|] == done;
  }

  /** How the reading of a list ends: with its last item, at a name that stops the program, or with a look at
      the character before the text. */
  datatype Ending = Done | Stopped | Outside

  /** One turn of the loop, on the item between two commas. */
  method ParseItem(sel: Selection, tables: seq<Table>, text: string, pos: nat, d: nat, ghost done: seq<string>)
    returns (ending: Ending)
    requires pos <= d <= |text| && (pos > 0 ==> text[pos - 1] == ',')
    requires sel.Valid(tables) && sel.list == ExpandAll(tables, done)
    modifies sel
    ensures ending == Outside <==> pos == 0 && AllBlank(text[pos..d])
    ensures ending != Outside ==> (ending == Stopped <==> Meaning(tables, Trimmed(text[pos..d])) == Stop)
    ensures ending == Done ==> sel.Valid(tables) && sel.list == ExpandAll(tables, done + [text[pos..d]])
  {
    hide Meaning;
    hide Trimmed;
    hide Expand;
    hide ExpandAll;
    hide Agrees;
    hide Counts;
    var name, outside := Trim(text, pos, d);
    if outside {
      return Outside;
    }
    var r := Resolve(tables, name);
    if r == Stop {
      return Stopped;
    }
    MeaningInRange(tables, name);
    ExpandSnoc(tables, done, text[pos..d]);
    sel.Apply(tables, r);
    ending := Done;
  }

  /** The first item is nothing but blanks. */
  ghost predicate BlankStart(text: string) {
    AllBlank(text[..Find(text, ',', 0)])
  }

  /** Texts that begin so: the empty one, and one with a blank before its first comma. */
  lemma BlankStarts()
    ensures BlankStart("") && BlankStart(" ,a") && !BlankStart("a, ")
  {
    FindUnique(" ,a", ',', 0, 1);
    FindUnique("a, ", ',', 0, 1);
    assert "a, "[..1][0] == 'a';
  }

  /** _columns_name_to_select_columns: any text, over any tables. */
  method Parse(tables: seq<Table>, text: string) returns (sel: Selection, ending: Ending)
    ensures ending == Outside <==> BlankStart(text)
    ensures ending != Outside ==> (ending == Stopped <==> Stops(tables, Items(text)))
    ensures ending == Done ==> sel.Valid(tables) && sel.list == ExpandAll(tables, Items(text))
  {
    hide Meaning;
    hide Trimmed;
    hide Items;
    hide Stops;
    hide AllBlank;
    hide Agrees;
    hide Counts;
    hide ExpandAll;
    ExpandSnoc(tables, [], "");
    sel := new Selection(tables);
    ghost var all, k := Items(text), 0;
    NothingStops(tables);
    var pos := 0;
    assert text[0..] == text && all[0..] == all && all[..0] == [];
    while true
      invariant pos <= |text| && k <= |all| && Items(text[pos..]) == all[k..]
      invariant (pos > 0 ==> text[pos - 1] == ',' && !BlankStart(text))
      invariant fresh(sel) && sel.Valid(tables) && sel.list == ExpandAll(tables, all[..k]) && !Stops(tables, all[..k])
      decreases |text| - pos
    {
      var d := Find(text, ',', pos);
      NextItem(text, pos, all, k);
      StopsAt(tables, all, k);
      assert pos == 0 ==> text[pos..d] == text[..d];
      ending := ParseItem(sel, tables, text, pos, d, all[..k]);
      if ending != Done {
        return;
      }
      k := k + 1;
      if d == |text| {
        break;
      }
      pos := d + 1;
    }
  }

  lemma NothingStops(tables: seq<Table>)
    ensures !Stops(tables, [])
  {
  }

  lemma MeaningInRange(tables: seq<Table>, item: string)
    ensures var r := Meaning(tables, item);
            (r.AllOf? || r.One? ==> r.table < |tables|) && (r.One? ==> r.column < |tables[r.table].columns|)
  {
  }

  // ---------------------------------------------------------------- filling a row

  datatype Memory = Heap | Stack | OtherMemory

  datatype Kind = IntKind | Int64Kind | DoubleKind | TextKind | BlobKind | OtherKind

  /** The member a column is stored in. */
  datatype Storage = Storage(kind: Kind, memory: Memory, maxLen: int)

  /** A value of the result, as the engine's column functions give it in each form. */
  datatype Value = Null | Value(int32: int, int64: int, double: real, text: string, blob: seq<nat>)

  datatype Content = Int(i: int) | Long(l: int) | Double(d: real) | Text(s: string) | Blob(b: seq<nat>)

  /** A member of a row object: as it was made, marked as null, or with a value. */
  datatype Member = Untouched | NullMember | Valued(content: Content)

  datatype Error = TooLong | InvalidMemory | InvalidType

  datatype Read = Got(member: Member) | Refused(error: Error)

  /** _sqlite3_column */
  function ReadColumn(v: Value, m: Storage): Read {
    if v.Null? then Got(NullMember)
    else
      match m.kind
      case IntKind => Got(Valued(Int(v.int32)))
      case Int64Kind => Got(Valued(Long(v.int64)))
      case DoubleKind => Got(Valued(Double(v.double)))
      case TextKind =>
        if m.memory.Heap? then Got(Valued(Text(v.text)))
        else if m.memory.OtherMemory? then Refused(InvalidMemory)
        else if v.blob == [] then Got(Valued(Text("")))
        else if |v.text| > m.maxLen then Refused(TooLong)
        else Got(Valued(Text(v.text)))
      case BlobKind =>
        if m.memory.OtherMemory? then Refused(InvalidMemory)
        else if m.memory.Stack? && |v.blob| > m.maxLen then Refused(TooLong)
        else Got(Valued(Blob(v.blob)))
      case OtherKind => Refused(InvalidType)
  }

  /** The content of a member is the engine's value in the form that belongs to its kind; a text without bytes leaves a
      member of fixed size empty. */
  ghost predicate Carries(v: Value, m: Storage, x: Content)
    requires v.Value?
  {
    match x
    case Int(i) => m.kind == IntKind && i == v.int32
    case Long(l) => m.kind == Int64Kind && l == v.int64
    case Double(d) => m.kind == DoubleKind && d == v.double
    case Text(s) => m.kind == TextKind && s == if m.memory == Stack && v.blob == [] then "" else v.text
    case Blob(b) => m.kind == BlobKind && b == v.blob
  }

  /** A value is refused for an unknown kind, for a text or blob in other memory, or for one that is longer than its
      member of fixed size. */
  ghost predicate RefusedFor(v: Value, m: Storage, e: Error) {
    v.Value? &&
    match e
    case InvalidType => m.kind == OtherKind
    case InvalidMemory => (m.kind == TextKind || m.kind == BlobKind) && m.memory == OtherMemory
    case TooLong =>
      && m.memory == Stack
      && ((m.kind == TextKind && v.blob != [] && |v.text| > m.maxLen) || (m.kind == BlobKind && |v.blob| > m.maxLen))
  }

  /** What reading the value is to give: the mark for a null and only for that, its content, or why it is refused. */
  ghost predicate IsRead(v: Value, m: Storage, r: Read) {
    match r
    case Got(Untouched) => false
    case Got(NullMember) => v.Null?
    case Got(Valued(x)) => v.Value? && Carries(v, m, x) && forall e :: !RefusedFor(v, m, e)
    case Refused(e) => RefusedFor(v, m, e)
  }

  lemma IsReadUnique(v: Value, m: Storage, r: Read, r': Read)
    requires IsRead(v, m, r) && IsRead(v, m, r')
    ensures r == r'
  {
  }

  lemma ReadColumnIsRead(v: Value, m: Storage)
    ensures IsRead(v, m, ReadColumn(v, m))
  {
  }

  datatype Fill = Filled(row: seq<Member>) | Failed(error: Error)

  ghost predicate InResult(indexes: seq<int>, width: nat) {
    forall c :: 0 <= c < |indexes| ==> indexes[c] == NO_INDEX || 0 <= indexes[c] < width
  }

  /** What is read for column `c`. */
  function ReadMember(indexes: seq<int>, storage: seq<Storage>, result: seq<Value>, c: nat): Read
    requires c < |indexes| == |storage|
  {
    if 0 <= indexes[c] < |result| then ReadColumn(result[indexes[c]], storage[c]) else Got(Untouched)
  }

  ghost predicate FirstRefused(indexes: seq<int>, storage: seq<Storage>, result: seq<Value>, c: nat, error: Error)
    requires c < |indexes| == |storage|
  {
    && ReadMember(indexes, storage, result, c) == Refused(error)
    && forall b :: 0 <= b < c ==> ReadMember(indexes, storage, result, b).Got?
  }

  /** The first `n` members, or the error of the first that is refused. */
  function Filling(indexes: seq<int>, storage: seq<Storage>, result: seq<Value>, n: nat): (r: Fill)
    requires n <= |indexes| == |storage|
    ensures r.Filled? ==>
              && |r.row| == n
              && forall c :: 0 <= c < n ==> ReadMember(indexes, storage, result, c) == Got(r.row[c])
    ensures r.Failed? ==> exists c | 0 <= c < n :: FirstRefused(indexes, storage, result, c, r.error)
  {
    if n == 0 then Filled([])
    else
      var before := Filling(indexes, storage, result, n - 1);
      if before.Failed? then before
      else
        match ReadMember(indexes, storage, result, n - 1)
        case Got(member) => Filled(before.row + [member])
        case Refused(error) =>
          assert FirstRefused(indexes, storage, result, n - 1, error);
          Failed(error)
  }

  /** _parse_select_result: the members that have a position in the result are read from it, up to the first
      that cannot be. */
  method FillRow(indexes: seq<int>, storage: seq<Storage>, result: seq<Value>) returns (r: Fill)
    requires |storage| == |indexes| && InResult(indexes, |result|)
    ensures r == Filling(indexes, storage, result, |indexes|)
    ensures r.Filled? ==> |r.row| == |indexes| && forall c :: 0 <= c < |indexes| ==>
              if indexes[c] == NO_INDEX then r.row[c] == Untouched
              else IsRead(result[indexes[c]], storage[c], Got(r.row[c]))
    ensures r.Failed? ==> exists c | 0 <= c < |indexes| ::
              && indexes[c] != NO_INDEX && RefusedFor(result[indexes[c]], storage[c], r.error)
              && forall b, e :: 0 <= b < c && indexes[b] != NO_INDEX ==> !RefusedFor(result[indexes[b]], storage[b], e)
  {
    hide Carries, RefusedFor, ReadColumn;
    var row: seq<Member> := [];
    for i := 0 to |indexes|
      invariant Filling(indexes, storage, result, i) == Filled(row)
      invariant forall c :: 0 <= c < i ==>
                  if indexes[c] == NO_INDEX then row[c] == Untouched
                  else IsRead(result[indexes[c]], storage[c], Got(row[c]))
      invariant forall b, e :: 0 <= b < i && indexes[b] != NO_INDEX ==> !RefusedFor(result[indexes[b]], storage[b], e)
    {
      var member := Untouched;
      if indexes[i] != NO_INDEX {
        var read := ReadColumn(result[indexes[i]], storage[i]);
        ReadColumnIsRead(result[indexes[i]], storage[i]);
        NotBoth(result[indexes[i]], storage[i], read);
        if read.Refused? {
          FailsOn(indexes, storage, result, i + 1);
          return Failed(read.error);
        }
        member := read.member;
      }
      row := row + [member];
    }
    r := Filled(row);
  }

  lemma NotBoth(v: Value, m: Storage, r: Read)
    requires IsRead(v, m, r)
    ensures r.Got? ==> forall e :: !RefusedFor(v, m, e)
  {
  }

  /** A row that has failed stays so. */
  lemma {:induction false} FailsOn(indexes: seq<int>, storage: seq<Storage>, result: seq<Value>, n: nat)
    requires n <= |indexes| == |storage| && Filling(indexes, storage, result, n).Failed?
    ensures Filling(indexes, storage, result, |indexes|) == Filling(indexes, storage, result, n)
    decreases |indexes| - n
  {
    if n < |indexes| {
      assert Filling(indexes, storage, result, n + 1) == Filling(indexes, storage, result, n);
      FailsOn(indexes, storage, result, n + 1);
    }
  }

  /** What the list makes of column `c` of table `t`, when `db` gives the value of every column. */
  ghost predicate Expected(list: seq<Pair>, t: nat, c: nat, m: Storage, db: Pair -> Value, r: Read) {
    if (t, c) in list then IsRead(db((t, c)), m, r) else r == Got(Untouched)
  }

  /** It can be stored. */
  ghost predicate CanStore(list: seq<Pair>, t: nat, c: nat, m: Storage, db: Pair -> Value) {
    (t, c) in list ==> forall e :: !RefusedFor(db((t, c)), m, e)
  }

  /** The engine delivers the select list. */
  ghost predicate Delivers(result: seq<Value>, list: seq<Pair>, db: Pair -> Value) {
    |result| == |list| && forall k :: 0 <= k < |list| ==> result[k] == db(list[k])
  }

  /** When the engine delivers the select list, each member of a row is read from its own column if that is in the
      list, and left alone if not, however often and in whatever order the columns were named. */
  lemma FilledExactly(tables: seq<Table>, indexes: seq<seq<int>>, list: seq<Pair>, t: nat, storage: seq<Storage>,
                      db: Pair -> Value, result: seq<Value>, c: nat)
    requires Agrees(tables, indexes, list) && t < |tables| && c < |indexes[t]| == |storage|
    requires Delivers(result, list, db)
    ensures InResult(indexes[t], |result|)
    ensures Expected(list, t, c, storage[c], db, ReadMember(indexes[t], storage, result, c))
    ensures ReadMember(indexes[t], storage, result, c).Got? <==> CanStore(list, t, c, storage[c], db)
  {
    hide Carries, RefusedFor, ReadColumn;
    if indexes[t][c] != NO_INDEX {
      assert list[indexes[t][c]] == (t, c);
      ReadColumnIsRead(db((t, c)), storage[c]);
      NotBoth(db((t, c)), storage[c], ReadColumn(db((t, c)), storage[c]));
    }
  }

  /** From the text to a filled row. */
  method ReadRow(tables: seq<Table>, text: string, result: seq<Value>, t: nat, storage: seq<Storage>,
                 ghost db: Pair -> Value)
    returns (ending: Ending, r: Fill)
    requires t < |tables| && |storage| == |tables[t].columns|
    requires Delivers(result, ExpandAll(tables, Items(text)), db)
    ensures ending == Outside <==> BlankStart(text)
    ensures ending != Outside ==> (ending == Stopped <==> Stops(tables, Items(text)))
    ensures ending == Done && r.Filled? ==> |r.row| == |storage| && forall c :: 0 <= c < |storage| ==>
              Expected(ExpandAll(tables, Items(text)), t, c, storage[c], db, Got(r.row[c]))
    ensures ending == Done && r.Failed? ==>
              var list := ExpandAll(tables, Items(text));
              exists c | 0 <= c < |storage| :: Expected(list, t, c, storage[c], db, Refused(r.error))
  {
    hide Items;
    hide ExpandAll;
    hide Stops;
    hide ReadColumn, IsRead, RefusedFor, Expected;
    var sel;
    sel, ending := Parse(tables, text);
    r := Failed(TooLong);
    if ending == Done {
      var row := sel.indexes[t];
      ghost var list := sel.list;
      hide Delivers;
      assert |row| == |storage|;
      forall c | 0 <= c < |row|
        ensures InResult(row, |result|) && Expected(list, t, c, storage[c], db, ReadMember(row, storage, result, c))
      {
        FilledExactly(tables, sel.indexes, list, t, storage, db, result, c);
      }
      r := FillRow(row, storage, result);
    }
  }
}
