/** The statements sorm.c builds for insert, replace, delete and update: column names, placeholders
    and bind numbers come from separate loops over the same columns and have to line up. */
module Statements {
  import opened Common

  const SQL_STMT_MAX_LEN := 1023

  /** A column of a row object: `unique` is a primary key or UNIQUE constraint, `valued` its stat. */
  datatype Column = Column(name: string, unique: bool, valued: bool)

  datatype Table = Table(name: string, columns: seq<Column>)

  /** A call of sqlite3_bind: the number of the placeholder, from 1, and the column bound to it. */
  datatype Bind = Bind(number: nat, column: nat)

  /** What is handed to the engine, or why nothing is: no column has a value, the text is too long, or a write has
      gone past the buffer. */
  datatype Outcome = NoValue | TooLong | Overrun | Prepared(text: string, binds: seq<Bind>)

  // ---------------------------------------------------------------- what is meant

  /** The parts with `sep` between them. */
  function Join(parts: seq<string>, sep: string): string {
    if parts == [] then ""
    else if |parts| == 1 then parts[0]
    else Join(parts[..|parts| - 1], sep) + sep + parts[|parts| - 1]
  }

  /** The columns with a value, in order; for a WHERE of an update only the unique ones. */
  ghost function Chosen(cs: seq<Column>, uniqueOnly: bool): seq<nat> {
    if cs == [] then []
    else
      var rest := Chosen(cs[..|cs| - 1], uniqueOnly);
      var c := cs[|cs| - 1];
      if c.valued && (uniqueOnly ==> c.unique) then rest + [|cs| - 1] else rest
  }

  /** Exactly these columns are chosen, each once and in order. */
  lemma {:induction false} ChosenExactly(cs: seq<Column>, uniqueOnly: bool)
    ensures Increasing(Chosen(cs, uniqueOnly))
    ensures forall i: nat :: i in Chosen(cs, uniqueOnly) <==> i < |cs| && cs[i].valued && (uniqueOnly ==> cs[i].unique)
  {
    if cs != [] {
      var n, front := |cs| - 1, cs[..|cs| - 1];
      ChosenExactly(front, uniqueOnly);
      forall i: nat
        ensures i in Chosen(cs, uniqueOnly) <==> i < |cs| && cs[i].valued && (uniqueOnly ==> cs[i].unique)
      {
        assert i < n ==> front[i] == cs[i];
      }
      forall k | 0 <= k < |Chosen(front, uniqueOnly)|
        ensures Chosen(front, uniqueOnly)[k] < n
      {
        assert Chosen(front, uniqueOnly)[k] in Chosen(front, uniqueOnly);
      }
    }
  }

  /** " name" ++ tail, for every chosen column. */
  ghost function Parts(cs: seq<Column>, uniqueOnly: bool, tail: string): seq<string> {
    if cs == [] then []
    else
      var rest := Parts(cs[..|cs| - 1], uniqueOnly, tail);
      var c := cs[|cs| - 1];
      if c.valued && (uniqueOnly ==> c.unique) then rest + [" " + c.name + tail] else rest
  }

  /** " ?", for every chosen column. */
  ghost function Marks(cs: seq<Column>): seq<string> {
    if cs == [] then []
    else if cs[|cs| - 1].valued then Marks(cs[..|cs| - 1]) + [" ?"]
    else Marks(cs[..|cs| - 1])
  }

  ghost function InsertText(verb: string, t: Table): string {
    var names, marks := Join(Parts(t.columns, false, ""), ","), Join(Marks(t.columns), ",");
    verb + " INTO " + t.name + " (" + names + ")" + " VALUES (" + marks + ")"
  }

  ghost function DeleteText(t: Table): string {
    "DELETE FROM " + t.name + " WHERE " + Join(Parts(t.columns, false, "=?"), " AND")
  }

  ghost function UpdateText(t: Table): string {
    var sets, tests := Join(Parts(t.columns, false, "=?"), ","), Join(Parts(t.columns, true, "=?"), " AND");
    "UPDATE " + t.name + " SET" + sets + " WHERE" + tests
  }

  /** Placeholders are numbered from `first`. */
  ghost function Numbered(cols: seq<nat>, first: nat): (bs: seq<Bind>)
    ensures |bs| == |cols| && forall k :: 0 <= k < |bs| ==> bs[k] == Bind(first + k, cols[k])
  {
    if cols == [] then [] else Numbered(cols[..|cols| - 1], first) + [Bind(first + |cols| - 1, cols[|cols| - 1])]
  }

  // ---------------------------------------------------------------- what the loops write

  /** The parts each followed by `sep`. */
  function Each(parts: seq<string>, sep: string): string {
    if parts == [] then "" else Each(parts[..|parts| - 1], sep) + parts[|parts| - 1] + sep
  }

  lemma {:induction false} EachIsJoin(parts: seq<string>, sep: string)
    requires parts != []
    ensures Each(parts, sep) == Join(parts, sep) + sep
  {
    if |parts| == 1 {
      assert Each(parts[..0], sep) == "";
    } else {
      EachIsJoin(parts[..|parts| - 1], sep);
    }
  }

  /** sql_stmt and its write offset. */
  class Text {
    const buf: array<char>
    var offset: nat

    /** What is written so far is followed by a terminator. */
    ghost predicate Valid()
      reads this, buf
    {
      buf.Length == SQL_STMT_MAX_LEN + 1 && (offset <= SQL_STMT_MAX_LEN ==> buf[offset] == '\0')
    }

    ghost function Written(): string
      requires Valid() && offset <= SQL_STMT_MAX_LEN
      reads this, buf
    {
      buf[..offset]
    }

    constructor ()
      ensures Valid() && fresh(buf) && offset == 0
    {
      buf := new char[SQL_STMT_MAX_LEN + 1](_ => '\0');
      offset := 0;
    }

    /** snprintf at the offset: at most `bound` characters with the terminator.  The offset moves by the full
        length, whether or not it fits; `outside` tells that the terminator or more would land past the buffer,
        which the model then leaves alone. */
    method PrintWithin(s: string, bound: nat) returns (ok: bool, outside: bool)
      requires Valid() && offset <= SQL_STMT_MAX_LEN && bound > 0
      modifies this, buf
      ensures offset == old(offset) + |s| && ok == (offset <= SQL_STMT_MAX_LEN)
      ensures !ok || (!outside && |s| < bound) ==> Valid()
      ensures outside <==> old(offset) + (if |s| < bound then |s| else bound - 1) >= buf.Length
      ensures ok && !outside && |s| < bound ==> Written() == old(Written()) + s
    {
      var n := if |s| < bound then |s| else bound - 1;
      var at := offset;
      offset := offset + |s|;
      ok := offset <= SQL_STMT_MAX_LEN;
      outside := at + n >= buf.Length;
      if !outside {
        forall i | 0 <= i < n {
          buf[at + i] := s[i];
        }
        buf[at + n] := '\0';
      }
    }

    /** With the room that is left for a bound. */
    method Print(s: string) returns (ok: bool)
      requires Valid() && offset <= SQL_STMT_MAX_LEN
      modifies this, buf
      ensures Valid() && offset == old(offset) + |s| && ok == (offset <= SQL_STMT_MAX_LEN)
      ensures ok ==> Written() == old(Written()) + s
    {
      var outside;
      ok, outside := PrintWithin(s, SQL_STMT_MAX_LEN - offset + 1);
      assert !outside;
    }

    /** sql_stmt[offset - 1] = c */
    method ReplaceLast(c: char)
      requires Valid() && 0 < offset <= SQL_STMT_MAX_LEN
      modifies buf
      ensures Valid() && Written() == old(Written())[..offset - 1] + [c]
    {
      buf[offset - 1] := c;
    }

    /** Cuts the last `n` characters off with a terminator. */
    method CutLast(n: nat)
      requires Valid() && n <= offset <= SQL_STMT_MAX_LEN
      modifies this, buf
      ensures Valid() && offset == old(offset) - n && Written() == old(Written())[..offset]
    {
      offset := offset - n;
      buf[offset] := '\0';
    }
  }

  lemma {:induction false} EachPrefix(cs: seq<Column>, uniqueOnly: bool, tail: string, sep: string, k: nat)
    requires k <= |cs|
    ensures |Each(Parts(cs[..k], uniqueOnly, tail), sep)| <= |Each(Parts(cs, uniqueOnly, tail), sep)|
    ensures |Each(Marks(cs[..k]), sep)| <= |Each(Marks(cs), sep)|
    decreases |cs|
  {
    if k < |cs| {
      var front := cs[..|cs| - 1];
      EachPrefix(front, uniqueOnly, tail, sep, k);
      assert front[..k] == cs[..k];
    } else {
      assert cs[..k] == cs;
    }
  }

  lemma EachStep(cs: seq<Column>, uniqueOnly: bool, tail: string, sep: string, i: nat)
    requires i < |cs|
    ensures var c := cs[i];
            Each(Parts(cs[..i + 1], uniqueOnly, tail), sep) ==
            Each(Parts(cs[..i], uniqueOnly, tail), sep)
            + if c.valued && (uniqueOnly ==> c.unique) then " " + c.name + tail + sep else ""
    ensures Each(Marks(cs[..i + 1]), sep) == Each(Marks(cs[..i]), sep) + if cs[i].valued then " ?" + sep else ""
    ensures |Each(Parts(cs[..i + 1], uniqueOnly, tail), sep)| <= |Each(Parts(cs, uniqueOnly, tail), sep)|
    ensures |Each(Marks(cs[..i + 1]), sep)| <= |Each(Marks(cs), sep)|
  {
    hide Each;
    assert cs[..i + 1][..i] == cs[..i];
    var c, parts, marks := cs[i], Parts(cs[..i], uniqueOnly, tail), Marks(cs[..i]);
    EachSnoc(parts, " " + c.name + tail, sep);
    EachSnoc(marks, " ?", sep);
    EachPrefix(cs, uniqueOnly, tail, sep, i + 1);
  }

  lemma EachSnoc(parts: seq<string>, part: string, sep: string)
    ensures Each(parts + [part], sep) == Each(parts, sep) + (part + sep)
    ensures Each(parts, sep) + "" == Each(parts, sep)
  {
    assert (parts + [part])[..|parts|] == parts;
  }

  /** The loop " %s" ++ tail ++ sep over the chosen columns. */
  method PrintColumns(b: Text, cs: seq<Column>, uniqueOnly: bool, tail: string, sep: string) returns (ok: bool)
    requires b.Valid() && b.offset <= SQL_STMT_MAX_LEN
    modifies b, b.buf
    ensures b.Valid()
    ensures ok <==> old(b.offset) + |Each(Parts(cs, uniqueOnly, tail), sep)| <= SQL_STMT_MAX_LEN
    ensures ok ==>
              b.offset <= SQL_STMT_MAX_LEN && b.Written() == old(b.Written()) + Each(Parts(cs, uniqueOnly, tail), sep)
  {
    hide Parts;
    hide Each;
    EachNone(sep, tail, uniqueOnly);
    ghost var w := b.Written();
    assert cs[..0] == [];
    for i := 0 to |cs|
      invariant b.Valid() && b.offset <= SQL_STMT_MAX_LEN
      invariant b.Written() == w + Each(Parts(cs[..i], uniqueOnly, tail), sep)
    {
      EachStep(cs, uniqueOnly, tail, sep, i);
      if cs[i].valued && (uniqueOnly ==> cs[i].unique) {
        ok := b.Print(" " + cs[i].name + tail + sep);
        if !ok {
          return;
        }
      }
    }
    ok := true;
    assert cs[..|cs|] == cs;
  }

  lemma EachNone(sep: string, tail: string, uniqueOnly: bool)
    ensures Each(Parts([], uniqueOnly, tail), sep) == "" && Each(Marks([]), sep) == ""
  {
  }

  /** The loop " ?," over the valued columns. */
  method PrintMarks(b: Text, cs: seq<Column>) returns (ok: bool)
    requires b.Valid() && b.offset <= SQL_STMT_MAX_LEN
    modifies b, b.buf
    ensures b.Valid()
    ensures ok <==> old(b.offset) + |Each(Marks(cs), ",")| <= SQL_STMT_MAX_LEN
    ensures ok ==> b.offset <= SQL_STMT_MAX_LEN && b.Written() == old(b.Written()) + Each(Marks(cs), ",")
  {
    hide Parts;
    hide Marks;
    hide Each;
    EachNone(",", "", false);
    ghost var w := b.Written();
    assert cs[..0] == [];
    for i := 0 to |cs|
      invariant b.Valid() && b.offset <= SQL_STMT_MAX_LEN && b.Written() == w + Each(Marks(cs[..i]), ",")
    {
      EachStep(cs, false, "", ",", i);
      if cs[i].valued {
        ok := b.Print(" ?,");
        if !ok {
          return;
        }
      }
    }
    ok := true;
    assert cs[..|cs|] == cs;
  }

  /** The loop of sqlite3_bind calls over the chosen columns. */
  method BindColumns(cs: seq<Column>, uniqueOnly: bool, first: nat) returns (binds: seq<Bind>)
    ensures binds == Numbered(Chosen(cs, uniqueOnly), first)
  {
    binds := [];
    var bindIndex := first;
    for i := 0 to |cs|
      invariant binds == Numbered(Chosen(cs[..i], uniqueOnly), first) && bindIndex == first + |binds|
    {
      assert cs[..i + 1][..i] == cs[..i];
      ghost var cols := Chosen(cs[..i], uniqueOnly);
      if cs[i].valued && (uniqueOnly ==> cs[i].unique) {
        assert (cols + [i])[..|cols|] == cols;
        binds := binds + [Bind(bindIndex, i)];
        bindIndex := bindIndex + 1;
      }
    }
    assert cs[..|cs|] == cs;
  }

  lemma {:induction false} ChosenGrows(cs: seq<Column>, k: nat)
    requires k <= |cs| && Chosen(cs[..k], false) != []
    ensures Chosen(cs, false) != []
    decreases |cs|
  {
    if k < |cs| {
      assert cs[..|cs| - 1][..k] == cs[..k];
      ChosenGrows(cs[..|cs| - 1], k);
    } else {
      assert cs[..k] == cs;
    }
  }

  /** _check_has_value */
  method HasValue(cs: seq<Column>) returns (has: bool)
    ensures has <==> Chosen(cs, false) != []
  {
    has := false;
    for i := 0 to |cs|
      invariant !has && Chosen(cs[..i], false) == []
    {
      assert cs[..i + 1][..i] == cs[..i];
      has := has || cs[i].valued;
      if has {
        ChosenGrows(cs, i + 1);
        return;
      }
    }
    assert cs[..|cs|] == cs;
  }

  lemma {:induction false} SameCount(cs: seq<Column>, uniqueOnly: bool, tail: string)
    ensures |Parts(cs, uniqueOnly, tail)| == |Chosen(cs, uniqueOnly)| && |Marks(cs)| == |Chosen(cs, false)|
  {
    if cs != [] { SameCount(cs[..|cs| - 1], uniqueOnly, tail); }
  }

  // ---------------------------------------------------------------- the statements

  method WriteInsert(b: Text, verb: string, t: Table) returns (ok: bool)
    requires b.Valid() && b.offset == 0 && Chosen(t.columns, false) != []
    modifies b, b.buf
    ensures b.Valid()
    ensures ok <==> |InsertText(verb, t)| <= SQL_STMT_MAX_LEN
    ensures ok ==> b.offset <= SQL_STMT_MAX_LEN && b.Written() == InsertText(verb, t)
  {
    hide Parts;
    hide Marks;
    hide Each;
    hide Join;
    hide Chosen;
    SameCount(t.columns, false, "");
    EachIsJoin(Parts(t.columns, false, ""), ",");
    EachIsJoin(Marks(t.columns), ",");
    var head := verb + " INTO " + t.name + " (";
    ghost var cols, marks := Join(Parts(t.columns, false, ""), ","), Join(Marks(t.columns), ",");
    assert InsertText(verb, t) == head + cols + ")" + " VALUES (" + marks + ")";
    ok := b.Print(head);
    if !ok {
      return;
    }
    assert b.Written() == head;
    ok := PrintColumns(b, t.columns, false, "", ",");
    if !ok {
      return;
    }
    b.ReplaceLast(')');
    assert b.Written() == head + cols + ")";
    ok := b.Print(" VALUES (");
    if !ok {
      return;
    }
    ok := PrintMarks(b, t.columns);
    if !ok {
      return;
    }
    b.ReplaceLast(')');
    assert b.Written() == head + cols + ")" + " VALUES (" + marks + ")";
  }

  /** The text of an insert or replace is the unbounded rendering, and is refused exactly when that
      does not fit; placeholder k is bound to the k-th valued column. */
  method Save(verb: string, t: Table) returns (r: Outcome)
    ensures r == if Chosen(t.columns, false) == [] then NoValue
                 else if |InsertText(verb, t)| > SQL_STMT_MAX_LEN then TooLong
                 else Prepared(InsertText(verb, t), Numbered(Chosen(t.columns, false), 1))
    ensures r.Prepared? && Readable(t) ==>
              ReadInsert(verb, r.text) ==
              Some((t.name, NamesAt(t.columns, Chosen(t.columns, false)), QuestionMarks(|Chosen(t.columns, false)|)))
  {
    hide InsertText, Chosen, ReadInsert, Readable, NamesAt, QuestionMarks;
    if Readable(t) && Chosen(t.columns, false) != [] {
      InsertReads(verb, t);
    }
    var has := HasValue(t.columns);
    if !has {
      return NoValue;
    }
    var b := new Text();
    var ok := WriteInsert(b, verb, t);
    if !ok {
      return TooLong;
    }
    var binds := BindColumns(t.columns, false, 1);
    r := Prepared(b.buf[..b.offset], binds);
  }

  method WriteDelete(b: Text, t: Table) returns (ok: bool)
    requires b.Valid() && b.offset == 0 && Chosen(t.columns, false) != []
    modifies b, b.buf
    ensures b.Valid()
    ensures ok <==> |DeleteText(t)| + |" AND"| <= SQL_STMT_MAX_LEN
    ensures ok ==> b.offset <= SQL_STMT_MAX_LEN && b.Written() == DeleteText(t)
  {
    hide Parts;
    hide Each;
    hide Join;
    hide Chosen;
    SameCount(t.columns, false, "=?");
    EachIsJoin(Parts(t.columns, false, "=?"), " AND");
    var head := "DELETE FROM " + t.name + " WHERE ";
    ok := b.Print(head);
    if !ok {
      return;
    }
    assert b.Written() == head;
    ok := PrintColumns(b, t.columns, false, "=?", " AND");
    if !ok {
      return;
    }
    b.CutLast(4);
    assert b.Written() == DeleteText(t);
  }

  /** The text of a delete; the four characters cut off at the end must have fitted as well. */
  method Delete(t: Table) returns (r: Outcome)
    ensures r == if Chosen(t.columns, false) == [] then NoValue
                 else if |DeleteText(t)| + |" AND"| > SQL_STMT_MAX_LEN then TooLong
                 else Prepared(DeleteText(t), Numbered(Chosen(t.columns, false), 1))
    ensures r.Prepared? && Readable(t) ==>
              ReadDelete(r.text) == Some((t.name, NamesAt(t.columns, Chosen(t.columns, false))))
  {
    hide ReadDelete, Readable, NamesAt, DeleteText, Chosen;
    var has := HasValue(t.columns);
    if !has {
      return NoValue;
    }
    if Readable(t) {
      DeleteReads(t);
    }
    var b := new Text();
    var ok := WriteDelete(b, t);
    if !ok {
      return TooLong;
    }
    var binds := BindColumns(t.columns, false, 1);
    r := Prepared(b.buf[..b.offset], binds);
  }

  /** The text of an update up to its WHERE. */
  ghost function Setting(t: Table): string {
    "UPDATE " + t.name + " SET" + Join(Parts(t.columns, false, "=?"), ",")
  }

  /** What the loops of an update write, and what is left of it when the last four characters are cut off. */
  ghost function UpdateWritten(t: Table): string {
    Setting(t) + " WHERE" + Each(Parts(t.columns, true, "=?"), " AND")
  }

  ghost function UpdateResult(t: Table): string {
    UpdateWritten(t)[..|UpdateWritten(t)| - 4]
  }

  /** The comma after the last assignment still fitted, but " WHERE" does not: it is written with a bound that
      takes no account of the offset. */
  ghost predicate Overruns(t: Table) {
    |Setting(t)| + 1 <= SQL_STMT_MAX_LEN < |Setting(t)| + |" WHERE"|
  }

  method WriteSetting(b: Text, t: Table) returns (ok: bool)
    requires b.Valid() && b.offset == 0 && Chosen(t.columns, false) != []
    modifies b, b.buf
    ensures b.Valid()
    ensures ok <==> |Setting(t)| + 1 <= SQL_STMT_MAX_LEN
    ensures ok ==> b.offset < SQL_STMT_MAX_LEN && b.Written() == Setting(t)
  {
    hide Parts;
    hide Each;
    hide Join;
    hide Chosen;
    SameCount(t.columns, false, "=?");
    EachIsJoin(Parts(t.columns, false, "=?"), ",");
    var head := "UPDATE " + t.name + " SET";
    ok := b.Print(head);
    if !ok {
      return;
    }
    assert b.Written() == head;
    ok := PrintColumns(b, t.columns, false, "=?", ",");
    if !ok {
      return;
    }
    b.CutLast(1);
    assert b.Written() == Setting(t);
  }

  method WriteUpdate(b: Text, t: Table) returns (ok: bool, outside: bool)
    requires b.Valid() && b.offset == 0 && Chosen(t.columns, false) != []
    modifies b, b.buf
    ensures b.Valid()
    ensures outside <==> Overruns(t)
    ensures ok && !outside <==> |UpdateWritten(t)| <= SQL_STMT_MAX_LEN
    ensures ok && !outside ==> b.offset <= SQL_STMT_MAX_LEN && b.Written() == UpdateResult(t)
  {
    hide Parts;
    hide Each;
    hide Chosen;
    outside := false;
    ok := WriteSetting(b, t);
    if !ok {
      return;
    }
    hide Setting;
    ok, outside := b.PrintWithin(" WHERE", SQL_STMT_MAX_LEN + 1);
    if outside || !ok {
      return;
    }
    ok := PrintColumns(b, t.columns, true, "=?", " AND");
    if !ok {
      return;
    }
    assert b.Written() == UpdateWritten(t);
    b.CutLast(4);
  }

  method Update(t: Table) returns (r: Outcome)
    ensures r == if Chosen(t.columns, false) == [] then NoValue
                 else if Overruns(t) then Overrun
                 else if |UpdateWritten(t)| > SQL_STMT_MAX_LEN then TooLong
                 else Prepared(UpdateResult(t), Numbered(Chosen(t.columns, false) + Chosen(t.columns, true), 1))
    ensures r.Prepared? && Readable(t) && Chosen(t.columns, true) != [] ==>
              ReadUpdate(r.text) ==
              Some((t.name, NamesAt(t.columns, Chosen(t.columns, false)), NamesAt(t.columns, Chosen(t.columns, true))))
  {
    hide ReadUpdate, Readable, NamesAt, UpdateText;
    if Readable(t) && Chosen(t.columns, false) != [] && Chosen(t.columns, true) != [] {
      UpdateReads(t);
      UpdateMeant(t);
    }
    hide UpdateWritten;
    hide UpdateResult;
    hide Overruns;
    hide Chosen;
    hide Numbered;
    var has := HasValue(t.columns);
    if !has {
      return NoValue;
    }
    var b := new Text();
    var ok, outside := WriteUpdate(b, t);
    if outside {
      return Overrun;
    }
    if !ok {
      return TooLong;
    }
    var binds := BindColumns(t.columns, false, 1);
    var more := BindColumns(t.columns, true, 1 + |binds|);
    NumberedSplit(Chosen(t.columns, false), Chosen(t.columns, true), 1);
    r := Prepared(b.buf[..b.offset], binds + more);
  }

  lemma {:induction false} NumberedSplit(a: seq<nat>, b: seq<nat>, first: nat)
    ensures Numbered(a + b, first) == Numbered(a, first) + Numbered(b, first + |a|)
  {
  }

  /** The text of an update is the one meant exactly when some unique column has a value: what is cut off is then
      the last " AND"; without one it is the end of " WHERE". */
  lemma {:induction false} UpdateMeant(t: Table)
    ensures UpdateResult(t) == UpdateText(t) <==> Chosen(t.columns, true) != []
  {
    hide Parts;
    hide Chosen;
    hide Join;
    hide Each;
    var tests := Parts(t.columns, true, "=?");
    SameCount(t.columns, true, "=?");
    if tests != [] {
      EachIsJoin(tests, " AND");
      assert UpdateWritten(t) == UpdateText(t) + " AND";
    } else {
      JoinNone(" AND");
      assert UpdateWritten(t) == UpdateText(t);
    }
  }

  lemma JoinNone(sep: string)
    ensures Join([], sep) == "" == Each([], sep)
  {
  }

  lemma SingleColumn(c: Column, tail: string)
    requires c.valued && !c.unique
    ensures Parts([c], false, tail) == [" " + c.name + tail] && Parts([c], true, tail) == [] && Chosen([c], true) == []
  {
    var cs := [c];
    var front := cs[..0];
    assert front == [] && cs[|cs| - 1] == c;
    assert Parts(front, false, tail) == [] && Parts(front, true, tail) == [] && Chosen(front, true) == [];
  }

  /** A row whose only value is in a column that is not unique. */
  lemma CutInsideWhere(c: Column)
    requires c.valued && !c.unique && c.name == "a"
    ensures UpdateText(Table("t", [c])) == "UPDATE t SET a=? WHERE"
    ensures UpdateResult(Table("t", [c])) == "UPDATE t SET a=? W"
  {
    hide Parts;
    hide Chosen;
    SingleColumn(c, "=?");
    var parts := [" " + c.name + "=?"];
    assert Join(parts, ",") == parts[0];
    JoinNone(" AND");
    assert UpdateText(Table("t", [c])) == "UPDATE " + "t" + " SET" + parts[0] + " WHERE" + "";
    assert UpdateWritten(Table("t", [c])) == UpdateText(Table("t", [c])) + "";
  }

  /** Rows that overrun: with a single value, in a column named a, tables with names of 1003 to 1007 characters. */
  lemma OverrunRows(c: Column, name: string)
    requires c.valued && !c.unique && c.name == "a"
    ensures Overruns(Table(name, [c])) <==> 1003 <= |name| <= 1007
  {
    hide Parts;
    SingleColumn(c, "=?");
    var parts := [" " + c.name + "=?"];
    assert Join(parts, ",") == parts[0];
  }

  // ---------------------------------------------------------------- placeholders and columns line up

  /** The number of placeholders in a text. */
  ghost function Holes(s: string): nat {
    if s == "" then 0 else Holes(s[..|s| - 1]) + if s[|s| - 1] == '?' then 1 else 0
  }

  lemma {:induction false} HolesConcat(a: string, b: string)
    ensures Holes(a + b) == Holes(a) + Holes(b)
  {
    if b == "" {
      assert a + b == a;
    } else {
      assert (a + b)[..|a + b| - 1] == a + b[..|b| - 1];
      HolesConcat(a, b[..|b| - 1]);
    }
  }

  /** Placeholder `k` of the text, from 0, comes right after `before`. */
  ghost predicate HoleAfter(text: string, k: nat, before: string) {
    exists pre: string, post: string :: text == pre + (before + "?") + post && Holes(pre + before) == k
  }

  lemma {:induction false} PartsAt(cs: seq<Column>, uniqueOnly: bool, tail: string, k: nat)
    requires k < |Chosen(cs, uniqueOnly)|
    ensures |Parts(cs, uniqueOnly, tail)| == |Chosen(cs, uniqueOnly)| && Chosen(cs, uniqueOnly)[k] < |cs|
    ensures Parts(cs, uniqueOnly, tail)[k] == " " + cs[Chosen(cs, uniqueOnly)[k]].name + tail
  {
    SameCount(cs, uniqueOnly, tail);
    var front := cs[..|cs| - 1];
    SameCount(front, uniqueOnly, tail);
    if k < |Chosen(front, uniqueOnly)| {
      PartsAt(front, uniqueOnly, tail, k);
    }
  }

  ghost predicate OneHoleEach(parts: seq<string>) {
    forall i :: 0 <= i < |parts| ==> Holes(parts[i]) == 1
  }

  lemma {:induction false} JoinHoles(parts: seq<string>, sep: string)
    requires OneHoleEach(parts) && Holes(sep) == 0
    ensures Holes(Join(parts, sep)) == |parts|
  {
    if |parts| > 1 {
      var front := parts[..|parts| - 1];
      JoinHoles(front, sep);
      HolesConcat(Join(front, sep), sep);
      HolesConcat(Join(front, sep) + sep, parts[|parts| - 1]);
    }
  }

  /** Part `k` of a joined list has `k` placeholders before it. */
  lemma {:induction false} JoinSplit(parts: seq<string>, sep: string, k: nat) returns (pre: string, post: string)
    requires OneHoleEach(parts) && Holes(sep) == 0 && k < |parts|
    ensures Join(parts, sep) == pre + parts[k] + post && Holes(pre) == k
    decreases |parts|
  {
    var n := |parts|;
    if n == 1 {
      pre, post := "", "";
      assert Join(parts, sep) == "" + parts[k] + "";
    } else {
      var front := parts[..n - 1];
      if k == n - 1 {
        JoinHoles(front, sep);
        HolesConcat(Join(front, sep), sep);
        pre, post := Join(front, sep) + sep, "";
      } else {
        var post';
        pre, post' := JoinSplit(front, sep, k);
        post := post' + sep + parts[n - 1];
        assert Join(parts, sep) == (pre + parts[k] + post') + sep + parts[n - 1];
      }
    }
  }

  /** No table or column name contains a placeholder. */
  ghost predicate PlainNames(t: Table) {
    Holes(t.name) == 0 && forall i :: 0 <= i < |t.columns| ==> Holes(t.columns[i].name) == 0
  }

  lemma AssignmentHoles(name: string)
    requires Holes(name) == 0
    ensures Holes(" " + name + "=?") == 1 && Holes(" " + name + "=") == 0
  {
    HolesConcat(" ", name);
    HolesConcat(" " + name, "=");
    HolesConcat(" " + name + "=", "?");
    assert " " + name + "=" + "?" == " " + name + "=?";
    assert " "[..0] == "" && "="[..0] == "" && "?"[..0] == "";
  }

  lemma {:induction false} AssignmentParts(cs: seq<Column>, uniqueOnly: bool)
    requires forall i :: 0 <= i < |cs| ==> Holes(cs[i].name) == 0
    ensures OneHoleEach(Parts(cs, uniqueOnly, "=?"))
  {
    if cs != [] {
      AssignmentParts(cs[..|cs| - 1], uniqueOnly);
      AssignmentHoles(cs[|cs| - 1].name);
    }
  }

  /** A list of assignments somewhere in a text: its k-th placeholder is that of the k-th column. */
  lemma ListLinesUp(head: string, cs: seq<Column>, uniqueOnly: bool, sep: string, rest: string, k: nat)
    requires (forall i :: 0 <= i < |cs| ==> Holes(cs[i].name) == 0) && Holes(sep) == 0
    requires k < |Chosen(cs, uniqueOnly)|
    ensures Chosen(cs, uniqueOnly)[k] < |cs|
    ensures HoleAfter(head + Join(Parts(cs, uniqueOnly, "=?"), sep) + rest, Holes(head) + k,
                      " " + cs[Chosen(cs, uniqueOnly)[k]].name + "=")
  {
    hide Join;
    hide Parts;
    hide Chosen;
    var parts := Parts(cs, uniqueOnly, "=?");
    PartsAt(cs, uniqueOnly, "=?", k);
    AssignmentParts(cs, uniqueOnly);
    var name := cs[Chosen(cs, uniqueOnly)[k]].name;
    var before := " " + name + "=";
    AssignmentHoles(name);
    var pre, post := JoinSplit(parts, sep, k);
    assert parts[k] == before + "?";
    var text := head + Join(parts, sep) + rest;
    assert text == (head + pre) + (before + "?") + (post + rest);
    HolesConcat(head, pre);
    HolesConcat(head + pre, before);
  }

  /** In a delete, placeholder k tests the column bound to it. */
  lemma DeleteLinesUp(t: Table, k: nat)
    requires PlainNames(t) && k < |Chosen(t.columns, false)|
    ensures Numbered(Chosen(t.columns, false), 1)[k].column < |t.columns|
    ensures HoleAfter(DeleteText(t), k, " " + t.columns[Numbered(Chosen(t.columns, false), 1)[k].column].name + "=")
  {
    HeadHoles("DELETE FROM ", t.name, " WHERE ");
    SepHoles();
    ListLinesUp("DELETE FROM " + t.name + " WHERE ", t.columns, false, " AND", "", k);
    assert DeleteText(t) == DeleteText(t) + "";
  }

  /** In an update, placeholder k sets or tests the column bound to it: first all valued columns,
      then the valued unique ones. */
  lemma UpdateLinesUp(t: Table, k: nat)
    requires PlainNames(t) && Chosen(t.columns, true) != [] && k < |Chosen(t.columns, false) + Chosen(t.columns, true)|
    ensures Numbered(Chosen(t.columns, false) + Chosen(t.columns, true), 1)[k].column < |t.columns|
    ensures var bind := Numbered(Chosen(t.columns, false) + Chosen(t.columns, true), 1)[k];
            HoleAfter(UpdateText(t), k, " " + t.columns[bind.column].name + "=")
  {
    hide Join;
    hide Parts;
    hide Chosen;
    var set', unique := Chosen(t.columns, false), Chosen(t.columns, true);
    var head := "UPDATE " + t.name + " SET";
    var sets, tests := Join(Parts(t.columns, false, "=?"), ","), Join(Parts(t.columns, true, "=?"), " AND");
    HeadHoles("UPDATE ", t.name, " SET");
    SepHoles();
    if k < |set'| {
      ListLinesUp(head, t.columns, false, ",", " WHERE" + tests, k);
      assert UpdateText(t) == head + sets + (" WHERE" + tests);
    } else {
      AssignmentParts(t.columns, false);
      JoinHoles(Parts(t.columns, false, "=?"), ",");
      SameCount(t.columns, false, "=?");
      HolesConcat(head, sets);
      HolesConcat(head + sets, " WHERE");
      ListLinesUp(head + sets + " WHERE", t.columns, true, " AND", "", k - |set'|);
      assert UpdateText(t) == head + sets + " WHERE" + tests + "";
    }
  }

  lemma SepHoles()
    ensures Holes(",") == 0 && Holes(" AND") == 0 && Holes(" WHERE") == 0
  {
    NoHoles(",");
    NoHoles(" AND");
    NoHoles(" WHERE");
  }

  lemma {:induction false} NoHoles(s: string)
    requires forall i :: 0 <= i < |s| ==> s[i] != '?'
    ensures Holes(s) == 0
  {
    if s != "" { NoHoles(s[..|s| - 1]); }
  }

  lemma HeadHoles(a: string, name: string, b: string)
    requires (forall i :: 0 <= i < |a| ==> a[i] != '?') && (forall i :: 0 <= i < |b| ==> b[i] != '?')
    requires Holes(name) == 0
    ensures Holes(a + name + b) == 0
  {
    NoHoles(a);
    NoHoles(b);
    HolesConcat(a, name);
    HolesConcat(a + name, b);
  }

  lemma {:induction false} JoinNoHoles(parts: seq<string>, sep: string)
    requires (forall i :: 0 <= i < |parts| ==> Holes(parts[i]) == 0) && Holes(sep) == 0
    ensures Holes(Join(parts, sep)) == 0
  {
    if |parts| > 1 {
      var front := parts[..|parts| - 1];
      JoinNoHoles(front, sep);
      HolesConcat(Join(front, sep), sep);
      HolesConcat(Join(front, sep) + sep, parts[|parts| - 1]);
    }
  }

  /** Before part `k` of a list stand the `k` parts before it, each with its separator. */
  lemma {:induction false} JoinFrom(parts: seq<string>, sep: string, k: nat) returns (post: string)
    requires k < |parts|
    ensures Join(parts, sep) == Each(parts[..k], sep) + parts[k] + post
    decreases |parts|
  {
    var n := |parts|;
    var front := parts[..n - 1];
    if k == n - 1 {
      post := "";
      if n == 1 {
        assert Each(parts[..0], sep) == "" && Join(parts, sep) == "" + parts[k] + "";
      } else {
        EachIsJoin(front, sep);
        assert Join(parts, sep) == Each(front, sep) + parts[k] + "";
      }
    } else {
      var post' := JoinFrom(front, sep, k);
      assert front[..k] == parts[..k] && front[k] == parts[k];
      post := post' + sep + parts[n - 1];
      assert Join(parts, sep) == (Each(parts[..k], sep) + parts[k] + post') + sep + parts[n - 1];
    }
  }

  lemma {:induction false} NameParts(cs: seq<Column>)
    requires forall i :: 0 <= i < |cs| ==> Holes(cs[i].name) == 0
    ensures forall i :: 0 <= i < |Parts(cs, false, "")| ==> Holes(Parts(cs, false, "")[i]) == 0
    ensures OneHoleEach(Marks(cs))
  {
    if cs != [] {
      var name := cs[|cs| - 1].name;
      NameParts(cs[..|cs| - 1]);
      HolesConcat(" ", name);
      assert " " + name + "" == " " + name;
      HolesConcat(" ", "?");
      assert " " + "?" == " ?" && " "[..0] == "" && "?"[..0] == "";
    }
  }

  /** In an insert there is one placeholder for each bound column. */
  lemma InsertCounts(verb: string, t: Table)
    requires Holes(verb) == 0 && PlainNames(t)
    ensures Holes(InsertText(verb, t)) == |Numbered(Chosen(t.columns, false), 1)|
  {
    hide Join;
    hide Parts;
    hide Marks;
    hide Chosen;
    var names, marks := Parts(t.columns, false, ""), Marks(t.columns);
    NameParts(t.columns);
    SepHoles();
    SameCount(t.columns, false, "");
    JoinNoHoles(names, ",");
    JoinHoles(marks, ",");
    InsertHoles(verb, t.name, Join(names, ","), Join(marks, ","));
  }

  /** The k-th name of the column list, after k others, is that of the column bound to placeholder k. */
  lemma InsertLinesUp(verb: string, t: Table, k: nat)
    requires k < |Chosen(t.columns, false)|
    ensures Numbered(Chosen(t.columns, false), 1)[k].column < |t.columns| && k < |Parts(t.columns, false, "")|
    ensures exists post: string :: InsertText(verb, t) ==
              verb + " INTO " + t.name + " (" + Each(Parts(t.columns, false, "")[..k], ",")
              + (" " + t.columns[Numbered(Chosen(t.columns, false), 1)[k].column].name) + post
  {
    hide Join;
    hide Parts;
    hide Marks;
    hide Each;
    hide Chosen;
    var names, marks := Parts(t.columns, false, ""), Marks(t.columns);
    var head := verb + " INTO " + t.name + " (";
    PartsAt(t.columns, false, "", k);
    var post := JoinFrom(names, ",", k);
    var rest := ")" + " VALUES (" + Join(marks, ",") + ")";
    var name := " " + t.columns[Chosen(t.columns, false)[k]].name;
    assert names[k] == name + "" == name;
    assert InsertText(verb, t) == head + (Each(names[..k], ",") + name + post) + rest;
    assert InsertText(verb, t) == head + Each(names[..k], ",") + name + (post + rest);
  }

  lemma InsertHoles(verb: string, name: string, cols: string, marks: string)
    requires Holes(verb) == 0 && Holes(name) == 0 && Holes(cols) == 0
    ensures Holes(verb + " INTO " + name + " (" + cols + ")" + " VALUES (" + marks + ")") == Holes(marks)
  {
    NoHoles(" INTO ");
    NoHoles(" (");
    NoHoles(")");
    NoHoles(" VALUES (");
    HolesConcat(verb, " INTO ");
    HolesConcat(verb + " INTO ", name);
    HolesConcat(verb + " INTO " + name, " (");
    HolesConcat(verb + " INTO " + name + " (", cols);
    HolesConcat(verb + " INTO " + name + " (" + cols, ")");
    HolesConcat(verb + " INTO " + name + " (" + cols + ")", " VALUES (");
    HolesConcat(verb + " INTO " + name + " (" + cols + ")" + " VALUES (", marks);
    HolesConcat(verb + " INTO " + name + " (" + cols + ")" + " VALUES (" + marks, ")");
  }

  // ---------------------------------------------------------------- reading the statements

  /** The first place of a character, or the length. */
  function IndexOf(s: string, c: char): (i: nat)
    ensures i <= |s|
  {
    if s == "" || s[0] == c then 0 else 1 + IndexOf(s[1..], c)
  }

  lemma {:induction false} IndexOfFirst(a: string, c: char, b: string)
    requires c !in a && b != "" && b[0] == c
    ensures IndexOf(a + b, c) == |a|
  {
    if a == "" {
      assert a + b == b;
    } else {
      assert (a + b)[0] == a[0] && a[0] in a;
      assert (a + b)[1..] == a[1..] + b;
      IndexOfFirst(a[1..], c, b);
    }
  }

  /** A list of tests or assignments, " name=?" with `sep` between them: the names, and what follows. */
  function ReadTests(s: string, sep: string): (seq<string>, string)
    requires sep != ""
    decreases |s|
  {
    var n := IndexOf(s, '=');
    if s == "" || s[0] != ' ' || n + 2 > |s| || s[n..n + 2] != "=?" then ([], s)
    else
      var name, rest := s[1..n], s[n + 2..];
      if sep <= rest then
        var more := ReadTests(rest[|sep|..], sep);
        ([name] + more.0, more.1)
      else ([name], rest)
  }

  /** A list in brackets, " item" with commas between them, up to the bracket. */
  function ReadItems(s: string): (seq<string>, string)
    decreases |s|
  {
    var n, e := IndexOf(s, ','), IndexOf(s, ')');
    if s == "" || s[0] != ' ' then ([], s)
    else if n < e then
      var more := ReadItems(s[n + 1..]);
      ([s[1..n]] + more.0, more.1)
    else ([s[1..e]], s[e..])
  }

  function ReadDelete(s: string): Option<(string, seq<string>)> {
    if !("DELETE FROM " <= s) then None
    else
      var r := s[|"DELETE FROM "|..];
      var n := IndexOf(r, ' ');
      if !(" WHERE " <= r[n..]) then None
      else
        var tests := ReadTests(r[n..][|" WHERE "|..], " AND");
        if tests.1 == "" then Some((r[..n], tests.0)) else None
  }

  function ReadUpdate(s: string): Option<(string, seq<string>, seq<string>)> {
    if !("UPDATE " <= s) then None
    else
      var r := s[|"UPDATE "|..];
      var n := IndexOf(r, ' ');
      if !(" SET" <= r[n..]) then None
      else
        var sets := ReadTests(r[n..][|" SET"|..], ",");
        if !(" WHERE" <= sets.1) then None
        else
          var tests := ReadTests(sets.1[|" WHERE"|..], " AND");
          if tests.1 == "" then Some((r[..n], sets.0, tests.0)) else None
  }

  /** The table, the columns and the values. */
  function ReadInsert(verb: string, s: string): Option<(string, seq<string>, seq<string>)> {
    if !(verb + " INTO " <= s) then None
    else
      var r := s[|verb + " INTO "|..];
      var n := IndexOf(r, ' ');
      if !(" (" <= r[n..]) then None
      else
        var names := ReadItems(r[n..][|" ("|..]);
        if !(") VALUES (" <= names.1) then None
        else
          var values := ReadItems(names.1[|") VALUES ("|..]);
          if values.1 == ")" then Some((r[..n], names.0, values.0)) else None
  }

  // ---------------------------------------------------------------- what is read

  /** The names of the columns with the given numbers. */
  ghost function NamesAt(cs: seq<Column>, idx: seq<nat>): (names: seq<string>)
    ensures |names| == |idx| && forall k :: 0 <= k < |idx| && idx[k] < |cs| ==> names[k] == cs[idx[k]].name
  {
    if idx == [] then []
    else
      var i := idx[|idx| - 1];
      NamesAt(cs, idx[..|idx| - 1]) + [if i < |cs| then cs[i].name else ""]
  }

  /** Names without the characters by which the reader tells them apart. */
  ghost predicate Readable(t: Table) {
    ' ' !in t.name && forall i :: 0 <= i < |t.columns| ==> ReadableName(t.columns[i].name)
  }

  ghost predicate ReadableName(name: string) {
    '=' !in name && ',' !in name && ')' !in name
  }

  lemma {:induction false} JoinFront(parts: seq<string>, sep: string)
    requires |parts| > 1
    ensures Join(parts, sep) == parts[0] + sep + Join(parts[1..], sep)
  {
    var n := |parts| - 1;
    if n > 1 {
      var front := parts[..n];
      JoinFront(front, sep);
      assert front[1..] == parts[1..][..n - 1];
      JoinStep(parts, sep);
      JoinStep(parts[1..], sep);
      assert Join(parts, sep) == parts[0] + sep + (Join(front[1..], sep) + sep + parts[n]);
    } else {
      assert parts[..1] == [parts[0]] && parts[1..] == [parts[1]];
    }
  }

  lemma JoinStep(parts: seq<string>, sep: string)
    requires |parts| > 1
    ensures Join(parts, sep) == Join(parts[..|parts| - 1], sep) + sep + parts[|parts| - 1]
  {
  }

  /** One test and what follows it. */
  lemma ReadTest(name: string, rest: string, sep: string)
    requires '=' !in name && sep != ""
    ensures ReadTests(" " + name + "=?" + rest, sep) ==
            if sep <= rest then ([name] + ReadTests(rest[|sep|..], sep).0, ReadTests(rest[|sep|..], sep).1)
            else ([name], rest)
  {
    var s := " " + name + "=?" + rest;
    IndexOfFirst(" " + name, '=', "=?" + rest);
    assert s == (" " + name) + ("=?" + rest);
    var n := |name| + 1;
    assert s[n..n + 2] == "=?" && s[1..n] == name && s[n + 2..] == rest;
  }

  /** `parts` are the tests of `names`. */
  ghost predicate TestsOf(parts: seq<string>, names: seq<string>) {
    && |parts| == |names|
    && forall k :: 0 <= k < |names| ==> parts[k] == " " + names[k] + "=?" && ReadableName(names[k])
  }

  lemma {:induction false} TestsRead(parts: seq<string>, names: seq<string>, sep: string, rest: string)
    requires TestsOf(parts, names) && names != [] && sep != "" && !(sep <= rest)
    ensures ReadTests(Join(parts, sep) + rest, sep) == (names, rest)
    decreases |names|
  {
    hide ReadTests;
    if |names| == 1 {
      ReadTest(names[0], rest, sep);
      assert Join(parts, sep) == parts[0] && names == [names[0]];
    } else {
      JoinFront(parts, sep);
      TestsTail(parts, names);
      TestsRead(parts[1..], names[1..], sep, rest);
      var more := sep + (Join(parts[1..], sep) + rest);
      assert Join(parts, sep) + rest == parts[0] + more;
      assert more[|sep|..] == Join(parts[1..], sep) + rest;
      ReadTest(names[0], more, sep);
      assert names == [names[0]] + names[1..];
    }
  }

  lemma TestsTail(parts: seq<string>, names: seq<string>)
    requires TestsOf(parts, names) && names != []
    ensures TestsOf(parts[1..], names[1..])
  {
  }

  lemma PartsAreTests(cs: seq<Column>, uniqueOnly: bool)
    requires forall i :: 0 <= i < |cs| ==> ReadableName(cs[i].name)
    ensures TestsOf(Parts(cs, uniqueOnly, "=?"), NamesAt(cs, Chosen(cs, uniqueOnly)))
  {
    hide Parts, Chosen, ReadableName;
    SameCount(cs, uniqueOnly, "=?");
    forall k | 0 <= k < |Chosen(cs, uniqueOnly)|
      ensures Chosen(cs, uniqueOnly)[k] < |cs|
      ensures Parts(cs, uniqueOnly, "=?")[k] == " " + cs[Chosen(cs, uniqueOnly)[k]].name + "=?"
    {
      PartsAt(cs, uniqueOnly, "=?", k);
    }
  }

  lemma TableRead(head: string, name: string, rest: string)
    requires ' ' !in name && rest != "" && rest[0] == ' '
    ensures head <= head + name + rest && (head + name + rest)[|head|..] == name + rest
    ensures IndexOf(name + rest, ' ') == |name| && (name + rest)[..|name|] == name && (name + rest)[|name|..] == rest
  {
    IndexOfFirst(name, ' ', rest);
  }

  /** The statement of a delete reads as the conjunction of one test for every valued column, in order, on its table. */
  lemma DeleteReads(t: Table)
    requires Readable(t) && Chosen(t.columns, false) != []
    ensures ReadDelete(DeleteText(t)) == Some((t.name, NamesAt(t.columns, Chosen(t.columns, false))))
  {
    hide ReadTests, Join, Parts, Chosen, NamesAt, TestsOf;
    var names, parts := NamesAt(t.columns, Chosen(t.columns, false)), Parts(t.columns, false, "=?");
    PartsAreTests(t.columns, false);
    TestsRead(parts, names, " AND", "");
    var list := Join(parts, " AND");
    assert list + "" == list;
    TableRead("DELETE FROM ", t.name, " WHERE " + list);
    assert DeleteText(t) == "DELETE FROM " + t.name + (" WHERE " + list);
    assert (" WHERE " + list)[|" WHERE "|..] == list;
  }

  /** The statement of an update reads as an assignment for every valued column and the conjunction of one test for
      every valued unique one. */
  lemma UpdateReads(t: Table)
    requires Readable(t) && Chosen(t.columns, false) != [] && Chosen(t.columns, true) != []
    ensures ReadUpdate(UpdateText(t)) ==
            Some((t.name, NamesAt(t.columns, Chosen(t.columns, false)), NamesAt(t.columns, Chosen(t.columns, true))))
  {
    hide ReadTests, Join, Parts, Chosen, NamesAt, TestsOf;
    var names, unique := NamesAt(t.columns, Chosen(t.columns, false)), NamesAt(t.columns, Chosen(t.columns, true));
    var sets, tests := Join(Parts(t.columns, false, "=?"), ","), Join(Parts(t.columns, true, "=?"), " AND");
    PartsAreTests(t.columns, false);
    PartsAreTests(t.columns, true);
    assert (" WHERE" + tests)[0] == ' ';
    TestsRead(Parts(t.columns, false, "=?"), names, ",", " WHERE" + tests);
    TestsRead(Parts(t.columns, true, "=?"), unique, " AND", "");
    assert tests + "" == tests;
    TableRead("UPDATE ", t.name, " SET" + (sets + (" WHERE" + tests)));
    assert UpdateText(t) == "UPDATE " + t.name + (" SET" + (sets + (" WHERE" + tests)));
    assert (" SET" + (sets + (" WHERE" + tests)))[|" SET"|..] == sets + (" WHERE" + tests);
    assert (" WHERE" + tests)[|" WHERE"|..] == tests;
  }

  // ---------------------------------------------------------------- the two lists of an insert

  /** `parts` are the items of a list. */
  ghost predicate ItemsOf(parts: seq<string>, items: seq<string>) {
    && |parts| == |items|
    && forall k :: 0 <= k < |items| ==> parts[k] == " " + items[k] && ',' !in items[k] && ')' !in items[k]
  }

  lemma {:induction false} IndexOfPast(a: string, c: char, b: string)
    requires c !in a
    ensures IndexOf(a + b, c) == |a| + IndexOf(b, c)
  {
    if a == "" {
      assert a + b == b;
    } else {
      assert (a + b)[0] == a[0] && a[0] in a;
      assert (a + b)[1..] == a[1..] + b;
      IndexOfPast(a[1..], c, b);
    }
  }

  lemma ReadItem(item: string, rest: string)
    requires ',' !in item && ')' !in item && rest != "" && (rest[0] == ',' || rest[0] == ')')
    ensures ReadItems(" " + item + rest) ==
            if rest[0] == ',' then ([item] + ReadItems(rest[1..]).0, ReadItems(rest[1..]).1) else ([item], rest)
  {
    var s := " " + item + rest;
    IndexOfPast(" " + item, ',', rest);
    IndexOfPast(" " + item, ')', rest);
    var n := |item| + 1;
    assert s[1..n] == item && s[n..] == rest && (rest[0] == ',' ==> s[n + 1..] == rest[1..]);
  }

  lemma {:induction false} ItemsRead(parts: seq<string>, items: seq<string>, rest: string)
    requires ItemsOf(parts, items) && items != [] && rest != "" && rest[0] == ')'
    ensures ReadItems(Join(parts, ",") + rest) == (items, rest)
    decreases |items|
  {
    hide ReadItems;
    if |items| == 1 {
      ReadItem(items[0], rest);
      assert Join(parts, ",") == parts[0] && items == [items[0]];
    } else {
      JoinFront(parts, ",");
      ItemsTail(parts, items);
      ItemsRead(parts[1..], items[1..], rest);
      var more := "," + (Join(parts[1..], ",") + rest);
      assert Join(parts, ",") + rest == parts[0] + more;
      assert more[1..] == Join(parts[1..], ",") + rest;
      ReadItem(items[0], more);
      assert items == [items[0]] + items[1..];
    }
  }

  lemma ItemsTail(parts: seq<string>, items: seq<string>)
    requires ItemsOf(parts, items) && items != []
    ensures ItemsOf(parts[1..], items[1..])
  {
  }

  /** As many question marks. */
  ghost function QuestionMarks(n: nat): (ms: seq<string>)
    ensures |ms| == n && forall k :: 0 <= k < n ==> ms[k] == "?"
  {
    if n == 0 then [] else QuestionMarks(n - 1) + ["?"]
  }

  lemma PartsAreItems(cs: seq<Column>)
    requires forall i :: 0 <= i < |cs| ==> ReadableName(cs[i].name)
    ensures ItemsOf(Parts(cs, false, ""), NamesAt(cs, Chosen(cs, false)))
  {
    hide Parts, Chosen;
    SameCount(cs, false, "");
    forall k | 0 <= k < |Chosen(cs, false)|
      ensures Chosen(cs, false)[k] < |cs|
      ensures Parts(cs, false, "")[k] == " " + cs[Chosen(cs, false)[k]].name
    {
      PartsAt(cs, false, "", k);
      assert " " + cs[Chosen(cs, false)[k]].name + "" == " " + cs[Chosen(cs, false)[k]].name;
    }
  }

  lemma {:induction false} MarksAreItems(cs: seq<Column>)
    ensures ItemsOf(Marks(cs), QuestionMarks(|Chosen(cs, false)|))
  {
    SameCount(cs, false, "");
    MarksAt(cs);
  }

  lemma {:induction false} MarksAt(cs: seq<Column>)
    ensures forall k :: 0 <= k < |Marks(cs)| ==> Marks(cs)[k] == " " + "?"
  {
    if cs != [] { MarksAt(cs[..|cs| - 1]); }
  }

  /** The statement of an insert reads as the valued columns, in order, and a placeholder for each. */
  lemma InsertReads(verb: string, t: Table)
    requires Readable(t) && Chosen(t.columns, false) != []
    ensures ReadInsert(verb, InsertText(verb, t)) ==
            Some((t.name, NamesAt(t.columns, Chosen(t.columns, false)), QuestionMarks(|Chosen(t.columns, false)|)))
  {
    hide ReadItems, Join, Parts, Marks, Chosen, NamesAt, ItemsOf, QuestionMarks;
    var names, marks := Join(Parts(t.columns, false, ""), ","), Join(Marks(t.columns), ",");
    PartsAreItems(t.columns);
    MarksAreItems(t.columns);
    var rest := ") VALUES (" + (marks + ")");
    ItemsRead(Parts(t.columns, false, ""), NamesAt(t.columns, Chosen(t.columns, false)), rest);
    ItemsRead(Marks(t.columns), QuestionMarks(|Chosen(t.columns, false)|), ")");
    TableRead(verb + " INTO ", t.name, " (" + (names + rest));
    InsertPieces(verb, t.name, names, marks);
    assert (" (" + (names + rest))[|" ("|..] == names + rest && rest[|") VALUES ("|..] == marks + ")";
  }

  lemma InsertPieces(verb: string, name: string, names: string, marks: string)
    ensures verb + " INTO " + name + " (" + names + ")" + " VALUES (" + marks + ")"
         == verb + " INTO " + name + (" (" + (names + (") VALUES (" + (marks + ")"))))
  {
    assert ")" + " VALUES (" == ") VALUES (";
  }
}
