/** Categories (category.c) and the table of all of them (category_table.c): a reload of
    the configuration fits every category with new rules and can be taken back. */
module Categories {
  import opened Common
  import opened Rules
  import opened HashTables

  /** What a reload changes in a category. */
  datatype State = State(fit: Option<seq<Rule>>, bitmap: seq<bv8>, fitBackup: Option<seq<Rule>>, bitmapBackup: seq<bv8>)

  function NoLevels(): (map': seq<bv8>)
    ensures |map'| == MAP_BYTES && forall i :: 0 <= i < MAP_BYTES ==> map'[i] == 0
  {
    seq(MAP_BYTES, _ => 0)
  }

  /** The category outputs by `rs` and its map agrees with them. */
  ghost predicate FittedWith(s: State, rs: seq<Rule>) {
    s.fit == Some(rs) && Covers(s.bitmap, rs)
  }

  class Category {
    const name: string
    var bitmap: seq<bv8>
    var bitmapBackup: seq<bv8>
    var fitRules: Option<seq<Rule>>
    var fitRulesBackup: Option<seq<Rule>>

    ghost function S(): State
      reads this
    {
      State(fitRules, bitmap, fitRulesBackup, bitmapBackup)
    }

    constructor (name: string)
      ensures this.name == name && fitRulesBackup == None && bitmapBackup == NoLevels() && fitRules == None
      ensures bitmap == NoLevels()
    {
      this.name := name;
      bitmap, bitmapBackup := NoLevels(), NoLevels();
      fitRules, fitRulesBackup := None, None;
    }

    /** Lays the map of a rule over the map of the category. */
    method OverlapBitmap(r: Rule, ghost rs: seq<Rule>)
      requires Covers(bitmap, rs) && RuleOk(r)
      modifies this`bitmap
      ensures Covers(bitmap, rs + [r])
    {
      hide LevelSet;
      ghost var before := bitmap;
      for i := 0 to MAP_BYTES
        invariant |bitmap| == MAP_BYTES
        invariant forall j :: 0 <= j < MAP_BYTES ==> bitmap[j] == if j < i then before[j] | r.bitmap[j] else before[j]
      {
        bitmap := bitmap[i := bitmap[i] | r.bitmap[i]];
      }
      OverlapCovers(before, rs, r, bitmap);
    }

    /** `ok` tells which allocations succeed.  The rules are obtained exactly when all that are needed do; otherwise
        there are none, and the map is that of the rules gone through so far. */
    method ObtainRules(rules: seq<Rule>, ok: nat -> bool) returns (rc: int, ghost idx: seq<nat>)
      requires RulesOk(rules)
      modifies this`bitmap, this`fitRules
      ensures rc == 0 || rc == -1
      ensures rc == 0 ==> FittedWith(S(), Fitted(rules, name)) && IsFitting(rules, name, idx, fitRules.value)
      ensures rc == 0 <==> Allocates(rules, name, ok)
      ensures rc == -1 ==> fitRules == None && Covers(bitmap, Partial(rules, name, ok))
    {
      hide Covers;
      hide Matches;
      hide IsFitting;
      idx := FittedIsFitting(rules, name);
      bitmap := NoLevels();
      EmptyCovers(bitmap);
      if !ok(0) {
        fitRules := None;
        return -1, idx;
      }
      fitRules := Some([]);
      var count := 0;
      var wastebin: Option<Rule> := None;
      for i := 0 to |rules|
        invariant fitRules == Some(Matching(rules[..i], name)) && Covers(bitmap, fitRules.value)
        invariant count == |fitRules.value|
        invariant Wastebin(rules[..i]) == if wastebin == None then [] else [wastebin.value]
        invariant wastebin != None ==> RuleOk(wastebin.value)
        invariant Reached(rules, name, ok, 0) == Reached(rules, name, ok, i)
      {
        var r := rules[i];
        assert rules[..i + 1][..i] == rules[..i];
        if Matches(r, name) {
          if !ok(i + 1) {
            rc := Fail();
            return;
          }
          OverlapBitmap(r, fitRules.value);
          fitRules := Some(fitRules.value + [r]);
          count := count + 1;
        }
        if IsWastebin(r) {
          wastebin := Some(r);
        }
      }
      assert rules[..|rules|] == rules;
      if count == 0 && wastebin != None {
        if !ok(|rules| + 1) {
          rc := Fail();
          return;
        }
        OverlapBitmap(wastebin.value, fitRules.value);
        fitRules := Some(fitRules.value + [wastebin.value]);
        assert fitRules.value == Wastebin(rules);
      }
      rc := 0;
    }

    method Fail() returns (rc: int)
      modifies this`fitRules
      ensures fitRules == None && rc == -1
    {
      fitRules := None;
      return -1;
    }

    /** Null when the name is too long or an allocation fails. */
    static method New(name: string, rules: seq<Rule>, ok: nat -> bool) returns (c: Category?)
      requires RulesOk(rules)
      ensures c != null ==>
                fresh(c) && c.name == name && c.S().fitBackup == None && FittedWith(c.S(), Fitted(rules, name))
      ensures c != null <==> |name| <= MAXLEN_PATH && Allocates(rules, name, ok)
    {
      if |name| > MAXLEN_PATH {
        return null;
      }
      var d := new Category(name);
      var rc, _ := d.ObtainRules(rules, ok);
      c := if rc != 0 then null else d;
    }

    /** The rules in force and their map move to the backup; then the new rules are fitted. */
    method UpdateRules(rules: seq<Rule>, ok: nat -> bool) returns (rc: int)
      requires RulesOk(rules)
      modifies this
      ensures rc == 0 || rc == -1
      ensures rc == 0 <==> Allocates(rules, name, ok)
      ensures Updated(old(S()), S(), rc == 0, Fitted(rules, name), Partial(rules, name, ok))
      ensures fitRulesBackup == old(fitRules) && bitmapBackup == old(bitmap)
    {
      hide Covers, Allocates, Partial, Fitted;
      fitRulesBackup := fitRules;
      fitRules := None;
      bitmapBackup := bitmap;
      ghost var idx;
      rc, idx := ObtainRules(rules, ok);
      if rc != 0 {
        fitRules := None;
        return -1;
      }
    }

    method CommitRules()
      modifies this
      ensures S() == Committed(old(S()))
      ensures fitRules == old(fitRules) && bitmap == old(bitmap) && fitRulesBackup == None
      ensures bitmapBackup == if old(fitRulesBackup) == None then old(bitmapBackup) else NoLevels()
    {
      if fitRulesBackup == None {
        return;
      }
      fitRulesBackup := None;
      bitmapBackup := NoLevels();
    }

    method RollbackRules()
      modifies this
      ensures S() == RolledBack(old(S()))
      ensures old(fitRulesBackup) == None ==> S() == old(S())
      ensures old(fitRulesBackup) != None ==> fitRules == old(fitRulesBackup) && bitmap == old(bitmapBackup)
      ensures old(fitRulesBackup) != None ==> fitRulesBackup == None && bitmapBackup == NoLevels()
    {
      if fitRulesBackup == None {
        return;
      }
      fitRules := fitRulesBackup;
      fitRulesBackup := None;
      bitmap := bitmapBackup;
      bitmapBackup := NoLevels();
    }

    /** Offers an event of level `lv` to every fitted rule: `idx` are the places of those that output it. */
    method Output(lv: LevelNumber) returns (fired: seq<Rule>, ghost idx: seq<nat>)
      requires fitRules != None && Covers(bitmap, fitRules.value)
      ensures FirePlaces(fitRules.value, lv, idx) && |fired| == |idx|
      ensures forall k :: 0 <= k < |idx| ==> idx[k] < |fitRules.value| && fired[k] == fitRules.value[idx[k]]
      ensures Needless(bitmap, lv) <==> fired == []
    {
      hide Fires, Covers;
      var rs := fitRules.value;
      fired, idx := [], [];
      for i := 0 to |rs|
        invariant |fired| == |idx| && Increasing(idx)
        invariant forall k :: 0 <= k < |idx| ==> idx[k] < i && fired[k] == rs[idx[k]]
        invariant forall j: nat :: j in idx <==> j < i && Fires(rs[j], lv)
      {
        if Fires(rs[i], lv) {
          fired, idx := fired + [rs[i]], idx + [i];
        }
      }
      NeedlessExactly(bitmap, rs, lv);
      assert fired != [] ==> idx[0] in idx;
    }
  }

  /** `idx` are the places of the rules that output an event of level `lv`. */
  ghost predicate FirePlaces(rs: seq<Rule>, lv: LevelNumber, idx: seq<nat>) {
    Increasing(idx) && forall i: nat :: i in idx <==> i < |rs| && Fires(rs[i], lv)
  }

  // ---------------------------------------------------------------- one category, one reload

  /** An update from `s` to `s'`; a failed one leaves no rules and the map of some of them. */
  ghost predicate Updated(s: State, s': State, success: bool, rs: seq<Rule>, partial: seq<Rule>) {
    && s'.fitBackup == s.fit && s'.bitmapBackup == s.bitmap
    && (success ==> FittedWith(s', rs))
    && (!success ==> s'.fit == None && Covers(s'.bitmap, partial))
  }

  ghost function Committed(s: State): State {
    if s.fitBackup == None then s else State(s.fit, s.bitmap, None, NoLevels())
  }

  ghost function RolledBack(s: State): State {
    if s.fitBackup == None then s else State(s.fitBackup, s.bitmapBackup, None, NoLevels())
  }

  ghost predicate SameRules(s: State, s': State) { s'.fit == s.fit && s'.bitmap == s.bitmap }

  /** Taking back an update, successful or not, restores the category exactly when it had rules before: a category
      without any has nothing to put in the backup, and a rollback does not see it.  Such a one is as it was only if
      the update failed and its map was already that of the rules gone through by then. */
  lemma RollbackRestoresExactly(s: State, s': State, success: bool, rs: seq<Rule>, partial: seq<Rule>)
    requires Updated(s, s', success, rs, partial)
    ensures SameRules(s, RolledBack(s')) <==> s.fit != None || (!success && Covers(s.bitmap, partial))
    ensures s.fit != None ==> RolledBack(s').fitBackup == None
  {
    hide Covers;
    if !success && Covers(s.bitmap, partial) {
      CoversUnique(s.bitmap, s'.bitmap, partial);
    }
  }

  /** How a category comes to be without rules: an update fails and is not rolled back.  The next update then loses
      the rules for good, and its rollback leaves the new ones in force. */
  method LostAfterFailure(c: Category, rules: seq<Rule>, rules': seq<Rule>) returns (failed: State, last: State)
    requires RulesOk(rules) && RulesOk(rules') && c.fitRules != None && c.fitRulesBackup == None
    modifies c
    ensures failed.fit == None && failed.fitBackup == old(c.fitRules)
    ensures FittedWith(last, Fitted(rules', c.name)) && last.fitBackup == None
    ensures c.S() == RolledBack(last) == last
  {
    var rc := c.UpdateRules(rules, _ => false);
    failed := State(c.fitRules, c.bitmap, c.fitRulesBackup, c.bitmapBackup);
    rc := c.UpdateRules(rules', _ => true);
    last := State(c.fitRules, c.bitmap, c.fitRulesBackup, c.bitmapBackup);
    c.RollbackRules();
  }

  lemma OneMatches(r: Rule, name: string)
    requires RuleOk(r) && Matches(r, name)
    ensures Fitted([r], name) == [r] && Fitted([], name) == []
  {
    hide RuleOk, Matches;
    var rs := [r];
    var none := rs[..0];
    assert none == [] && rs[|rs| - 1] == r && Matching(none, name) == [];
    assert Matching(rs, name) == [] + [r];
  }

  /** Such a category: made with one rule, it is left without it although the last update was rolled back. */
  method LostExample() returns (r: Rule, before: State, after: State)
    ensures FittedWith(before, [r]) && before.fitBackup == None
    ensures FittedWith(after, []) && after.fitBackup == None && !SameRules(before, after)
  {
    hide RuleOk, Covers;
    r := NewRule("a", Any, 0);
    OneMatches(r, "a");
    var c := Category.New("a", [r], _ => true);
    before := State(c.fitRules, c.bitmap, c.fitRulesBackup, c.bitmapBackup);
    var failed, last := LostAfterFailure(c, [], []);
    after := last;
  }

  // ---------------------------------------------------------------- all categories

  type Table = HashTable<string, Category>

  /** A table from names to categories. */
  ghost predicate TableOk(t: Table)
    reads t, t.Repr()
  {
    && t.Valid()
    && forall n | n in t.m.contents :: t.m.contents[n].name == n
  }

  ghost function Members(t: Table): set<Category>
    reads t
  {
    set n | n in t.m.contents :: t.m.contents[n]
  }

  /** `cats` are the categories of `t` in the order of its walk. */
  ghost predicate InOrder(t: Table, cats: seq<Category>)
    reads t
  {
    && |cats| == |t.Walk()|
    && forall i :: 0 <= i < |cats| ==> t.Walk()[i].key in t.m.contents && cats[i] == t.m.contents[t.Walk()[i].key]
  }

  /** The walk meets all categories, each once. */
  lemma CatsOf(t: Table) returns (cats: seq<Category>)
    requires TableOk(t)
    ensures InOrder(t, cats) && Distinct(cats)
    ensures forall c | c in cats :: c in Members(t)
    ensures forall c | c in Members(t) :: c in cats
  {
    WalkCounts(t);
    FlatVisitsOnce(t.m.chains, t.m.entries);
    cats := [];
    for k := 0 to |t.Walk()|
      invariant |cats| == k && forall i :: 0 <= i < k ==> cats[i] == t.Walk()[i].value
    {
      cats := cats + [t.Walk()[k].value];
    }
    forall c | c in Members(t)
      ensures c in cats
    {
      var n :| n in t.m.contents && t.m.contents[n] == c;
      assert t.m.at[n] in t.Walk();
    }
  }

  /** The category under a cursor. */
  lemma ValueAt(t: Table, cats: seq<Category>, k: nat)
    requires t.Valid() && InOrder(t, cats) && k < |cats|
    ensures t.Walk()[k].value == cats[k]
  {
    WalkCounts(t);
  }

  ghost function Snapshot(cats: seq<Category>): (before: seq<State>)
    reads cats
    ensures |before| == |cats| && forall i :: 0 <= i < |cats| ==> before[i] == cats[i].S()
  {
    if cats == [] then [] else Snapshot(cats[..|cats| - 1]) + [cats[|cats| - 1].S()]
  }

  /** What a failed update leaves, apart from the map. */
  ghost predicate FailedFrom(s: State, s': State) {
    s'.fit == None && s'.fitBackup == s.fit && s'.bitmapBackup == s.bitmap
  }

  /** The allocations for category `i`. */
  function For(ok: (nat, nat) -> bool, i: nat): nat -> bool {
    (j: nat) => ok(i, j)
  }

  /** There is memory for the update of every category. */
  ghost predicate AllAllocate(rules: seq<Rule>, cats: seq<Category>, ok: (nat, nat) -> bool)
    requires RulesOk(rules)
  {
    forall i :: 0 <= i < |cats| ==> Allocates(rules, cats[i].name, For(ok, i))
  }

  /** The first `k` categories are updated, the next one has failed if `stopped`, the others are as before. */
  ghost predicate UpdatedTo(cats: seq<Category>, before: seq<State>, rules: seq<Rule>, k: nat, stopped: bool)
    requires RulesOk(rules)
    reads cats
  {
    && |before| == |cats| && k <= |cats| && (stopped ==> k < |cats|)
    && (forall i :: 0 <= i < k ==> Updated(before[i], cats[i].S(), true, Fitted(rules, cats[i].name), []))
    && (stopped ==> FailedFrom(before[k], cats[k].S()))
    && (forall i :: (if stopped then k + 1 else k) <= i < |cats| ==> cats[i].S() == before[i])
  }

  lemma NoneUpdated(cats: seq<Category>, rules: seq<Rule>)
    requires RulesOk(rules)
    ensures UpdatedTo(cats, Snapshot(cats), rules, 0, false)
  {
  }

  method UpdateNext(c: Category, rules: seq<Rule>, ok: nat -> bool,
                    ghost cats: seq<Category>, ghost before: seq<State>, ghost k: nat)
    returns (rc: int)
    requires RulesOk(rules) && Distinct(cats) && UpdatedTo(cats, before, rules, k, false) && k < |cats| && c == cats[k]
    modifies c
    ensures rc == 0 || rc == -1
    ensures rc == 0 <==> Allocates(rules, c.name, ok)
    ensures if rc == 0 then UpdatedTo(cats, before, rules, k + 1, false) else UpdatedTo(cats, before, rules, k, true)
  {
    hide Fitted, RulesOk, Allocates, Partial, Covers;
    rc := c.UpdateRules(rules, ok);
  }

  /** Stops at the first category for which there is not enough memory; `done` counts those before it. */
  method UpdateTable(t: Table, rules: seq<Rule>, ok: (nat, nat) -> bool, ghost cats: seq<Category>)
    returns (rc: int, ghost done: nat)
    requires TableOk(t) && RulesOk(rules) && InOrder(t, cats) && Distinct(cats)
    modifies cats
    ensures done <= |cats| && rc == if done == |cats| then 0 else -1
    ensures rc == 0 <==> AllAllocate(rules, cats, ok)
    ensures UpdatedTo(cats, old(Snapshot(cats)), rules, done, done < |cats|)
  {
    hide UpdatedTo, Flat, RulesOk, Snapshot, Buckets, Holds, Allocates, For;
    var k := 0;
    ghost var before := Snapshot(cats);
    NoneUpdated(cats, rules);
    var e := t.Begin();
    while e != null
      invariant t.Valid() && InOrder(t, cats) && k <= |cats| && e == if k < |cats| then t.Walk()[k] else null
      invariant UpdatedTo(cats, before, rules, k, false)
      invariant forall i :: 0 <= i < k ==> Allocates(rules, cats[i].name, For(ok, i))
      decreases |cats| - k
    {
      ValueAt(t, cats, k);
      rc := UpdateNext(e.value, rules, For(ok, k), cats, before, k);
      if rc != 0 {
        return -1, k;
      }
      e := t.Next(e, k);
      k := k + 1;
    }
    return 0, k;
  }

  method CommitTable(t: Table, ghost cats: seq<Category>)
    requires TableOk(t) && InOrder(t, cats) && Distinct(cats)
    modifies cats
    ensures forall i :: 0 <= i < |cats| ==> cats[i].S() == Committed(old(cats[i].S()))
  {
    hide Committed, Flat, Buckets, Holds;
    ghost var k := 0;
    var e := t.Begin();
    while e != null
      invariant t.Valid() && InOrder(t, cats) && k <= |cats| && e == if k < |cats| then t.Walk()[k] else null
      invariant forall i :: 0 <= i < |cats| ==>
                  cats[i].S() == if i < k then Committed(old(cats[i].S())) else old(cats[i].S())
      decreases |cats| - k
    {
      ValueAt(t, cats, k);
      e.value.CommitRules();
      e := t.Next(e, k);
      k := k + 1;
    }
  }

  method RollbackTable(t: Table, ghost cats: seq<Category>)
    requires TableOk(t) && InOrder(t, cats) && Distinct(cats)
    modifies cats
    ensures forall i :: 0 <= i < |cats| ==> cats[i].S() == RolledBack(old(cats[i].S()))
  {
    hide RolledBack, Flat, Buckets, Holds;
    ghost var k := 0;
    var e := t.Begin();
    while e != null
      invariant t.Valid() && InOrder(t, cats) && k <= |cats| && e == if k < |cats| then t.Walk()[k] else null
      invariant forall i :: 0 <= i < |cats| ==>
                  cats[i].S() == if i < k then RolledBack(old(cats[i].S())) else old(cats[i].S())
      decreases |cats| - k
    {
      ValueAt(t, cats, k);
      e.value.RollbackRules();
      e := t.Next(e, k);
      k := k + 1;
    }
  }

  /** The categories between two reloads: rules in force, nothing pending. */
  ghost predicate Settled(t: Table)
    reads t, Members(t)
  {
    forall c | c in Members(t) :: InForce(c.S())
  }

  ghost predicate InForce(s: State) {
    s.fit != None && s.fitBackup == None
  }

  /** What a rollback makes of the category at place `i` after an update of the table. */
  lemma UndoneAt(cats: seq<Category>, before: seq<State>, rules: seq<Rule>, done: nat, i: nat)
    requires RulesOk(rules) && i < |cats| && UpdatedTo(cats, before, rules, done, done < |cats|) && InForce(before[i])
    ensures SameRules(before[i], RolledBack(cats[i].S())) && InForce(RolledBack(cats[i].S()))
  {
    hide Fitted, RulesOk;
  }

  /** And what a commit makes of it after a full one. */
  lemma KeptAt(cats: seq<Category>, before: seq<State>, rules: seq<Rule>, i: nat)
    requires RulesOk(rules) && i < |cats| && UpdatedTo(cats, before, rules, |cats|, false) && InForce(before[i])
    ensures FittedWith(Committed(cats[i].S()), Fitted(rules, cats[i].name)) && InForce(Committed(cats[i].S()))
  {
    hide Fitted, RulesOk;
  }

  /** Whether the update of the table succeeds or stops at any category, a rollback of the
      table puts every category back as it was. */
  method UpdateThenRollback(t: Table, rules: seq<Rule>, ok: (nat, nat) -> bool)
    returns (rc: int, ghost cats: seq<Category>)
    requires TableOk(t) && RulesOk(rules) && Settled(t)
    modifies Members(t)
    ensures InOrder(t, cats) && (rc == 0 <==> AllAllocate(rules, cats, ok))
    ensures Settled(t)
    ensures forall c | c in Members(t) :: SameRules(old(c.S()), c.S())
  {
    hide RulesOk, Buckets, Holds, RolledBack, UpdatedTo, SameRules, InForce, AllAllocate;
    cats := CatsOf(t);
    ghost var done;
    rc, done := UpdateTable(t, rules, ok, cats);
    RollbackUpdate(t, rules, cats, old(Snapshot(cats)), done);
  }

  method RollbackUpdate(t: Table, ghost rules: seq<Rule>, ghost cats: seq<Category>, ghost before: seq<State>,
                        ghost done: nat)
    requires TableOk(t) && RulesOk(rules) && InOrder(t, cats) && Distinct(cats)
    requires UpdatedTo(cats, before, rules, done, done < |cats|) && forall i :: 0 <= i < |before| ==> InForce(before[i])
    modifies cats
    ensures |before| == |cats| && forall i :: 0 <= i < |cats| ==>
              SameRules(before[i], cats[i].S()) && InForce(cats[i].S())
  {
    assert |before| == |cats|;
    hide RulesOk, Buckets, Holds, RolledBack, UpdatedTo, SameRules, InForce;
    forall i | 0 <= i < |cats|
      ensures SameRules(before[i], RolledBack(cats[i].S())) && InForce(RolledBack(cats[i].S()))
    {
      UndoneAt(cats, before, rules, done, i);
    }
    RollbackTable(t, cats);
  }

  method CommitUpdate(t: Table, ghost rules: seq<Rule>, ghost cats: seq<Category>, ghost before: seq<State>)
    requires TableOk(t) && RulesOk(rules) && InOrder(t, cats) && Distinct(cats)
    requires UpdatedTo(cats, before, rules, |cats|, false) && forall i :: 0 <= i < |before| ==> InForce(before[i])
    modifies cats
    ensures forall i :: 0 <= i < |cats| ==> FittedWith(cats[i].S(), Fitted(rules, cats[i].name)) && InForce(cats[i].S())
  {
    assert |before| == |cats|;
    hide RulesOk, Buckets, Holds, Committed, UpdatedTo, FittedWith, Fitted, InForce;
    forall i | 0 <= i < |cats|
      ensures FittedWith(Committed(cats[i].S()), Fitted(rules, cats[i].name)) && InForce(Committed(cats[i].S()))
    {
      KeptAt(cats, before, rules, i);
    }
    CommitTable(t, cats);
  }

  /** A full update and a commit leave every category fitted with the new rules. */
  method UpdateThenCommit(t: Table, rules: seq<Rule>, ok: (nat, nat) -> bool)
    returns (rc: int, ghost cats: seq<Category>)
    requires TableOk(t) && RulesOk(rules) && Settled(t)
    modifies Members(t)
    ensures InOrder(t, cats) && (rc == 0 <==> AllAllocate(rules, cats, ok))
    ensures rc == 0 ==> Settled(t) && forall c | c in Members(t) :: FittedWith(c.S(), Fitted(rules, c.name))
  {
    hide RulesOk, Buckets, Holds, UpdatedTo, FittedWith, Fitted, InForce, AllAllocate;
    cats := CatsOf(t);
    ghost var done;
    rc, done := UpdateTable(t, rules, ok, cats);
    if rc == 0 {
      CommitUpdate(t, rules, cats, old(Snapshot(cats)));
    }
  }

  /** The category an update of the table stopped at. */
  lemma StoppedAt(cats: seq<Category>, before: seq<State>, rules: seq<Rule>, done: nat)
    requires RulesOk(rules) && done < |cats| && UpdatedTo(cats, before, rules, done, true) && InForce(before[done])
    ensures !SameRules(before[done], cats[done].S()) && FailedFrom(before[done], cats[done].S())
  {
  }

  /** What an update of the table that stops makes of a category: it is updated, has failed, or is as before. */
  ghost predicate HalfUpdated(s: State, s': State, rs: seq<Rule>) {
    Updated(s, s', true, rs, []) || FailedFrom(s, s') || s' == s
  }

  lemma HalfAt(cats: seq<Category>, before: seq<State>, rules: seq<Rule>, done: nat, i: nat)
    requires RulesOk(rules) && i < |cats| && UpdatedTo(cats, before, rules, done, done < |cats|)
    ensures HalfUpdated(before[i], cats[i].S(), Fitted(rules, cats[i].name))
  {
    hide Fitted, RulesOk, Updated, FailedFrom;
  }

  /** The categories in zlog_reload: a failure after the update rolls back, a failed update does not.  A reload that
      fails leaves every category as it was if and only if there was memory to update them all; `cats` are the
      categories in the order of the table. */
  method Reload(t: Table, rules: seq<Rule>, ok: (nat, nat) -> bool, buffersOk: bool)
    returns (rc: int, updated: bool, ghost cats: seq<Category>)
    requires TableOk(t) && RulesOk(rules) && Settled(t)
    modifies Members(t)
    ensures InOrder(t, cats) && (updated <==> AllAllocate(rules, cats, ok))
    ensures rc == if AllAllocate(rules, cats, ok) && buffersOk then 0 else -1
    ensures rc == 0 ==> Settled(t) && forall c | c in Members(t) :: FittedWith(c.S(), Fitted(rules, c.name))
    ensures rc != 0 ==> (AllAllocate(rules, cats, ok) <==> forall c | c in Members(t) :: SameRules(old(c.S()), c.S()))
    ensures AllAllocate(rules, cats, ok) ==> Settled(t)
    ensures !AllAllocate(rules, cats, ok) ==> exists c | c in Members(t) :: FailedFrom(old(c.S()), c.S())
    ensures !AllAllocate(rules, cats, ok) ==>
              forall c | c in Members(t) :: HalfUpdated(old(c.S()), c.S(), Fitted(rules, c.name))
  {
    hide RulesOk, Buckets, Holds, UpdatedTo, FittedWith, Fitted, InForce, SameRules, AllAllocate;
    hide FailedFrom, HalfUpdated;
    cats := CatsOf(t);
    ghost var done;
    rc, done := UpdateTable(t, rules, ok, cats);
    updated := rc == 0;
    if !updated {
      StoppedAt(cats, old(Snapshot(cats)), rules, done);
      assert cats[done] in cats;
      forall i | 0 <= i < |cats|
        ensures HalfUpdated(old(cats[i].S()), cats[i].S(), Fitted(rules, cats[i].name))
      {
        HalfAt(cats, old(Snapshot(cats)), rules, done, i);
      }
    } else if buffersOk {
      CommitUpdate(t, rules, cats, old(Snapshot(cats)));
    } else {
      rc := -1;
      RollbackUpdate(t, rules, cats, old(Snapshot(cats)), done);
    }
  }

  /** Finds the category of a name or makes one; other names keep theirs. */
  method FetchCategory(t: Table, name: string, rules: seq<Rule>, ok: nat -> bool) returns (c: Category?)
    requires TableOk(t) && RulesOk(rules)
    modifies t.Repr()
    ensures TableOk(t) && (t.tab == old(t.tab) || fresh(t.tab)) && fresh(t.m.entries - old(t.m.entries))
    ensures c == null ==> t.m.contents == old(t.m.contents)
    ensures c != null ==> c.name == name && t.m.contents == old(t.m.contents)[name := c]
    ensures name in old(t.m.contents) ==> c == old(t.m.contents)[name]
    ensures name !in old(t.m.contents) ==> (c != null <==> |name| <= MAXLEN_PATH && Allocates(rules, name, ok))
    ensures c != null && name !in old(t.m.contents) ==>
              fresh(c) && FittedWith(c.S(), Fitted(rules, name)) && InForce(c.S())
  {
    hide RulesOk, Buckets, Holds, Allocates, FittedWith, Fitted, InForce;
    var found := t.Get(name);
    if found.Some? {
      assert t.m.contents == t.m.contents[name := found.value];
      return found.value;
    }
    c := AddCategory(t, name, rules, ok);
  }

  method AddCategory(t: Table, name: string, rules: seq<Rule>, ok: nat -> bool) returns (c: Category?)
    requires TableOk(t) && RulesOk(rules)
    modifies t.Repr()
    ensures TableOk(t) && (t.tab == old(t.tab) || fresh(t.tab)) && fresh(t.m.entries - old(t.m.entries))
    ensures c != null <==> |name| <= MAXLEN_PATH && Allocates(rules, name, ok)
    ensures c == null ==> t.m.contents == old(t.m.contents)
    ensures c != null ==> c.name == name && t.m.contents == old(t.m.contents)[name := c]
    ensures c != null ==> fresh(c) && FittedWith(c.S(), Fitted(rules, name)) && InForce(c.S())
  {
    hide RulesOk, Buckets, Holds, Allocates, Fitted, Covers;
    c := Category.New(name, rules, ok);
    if c != null {
      t.Put(name, c);
    }
  }

  /** No table with a category in it is updated without memory. */
  lemma NoMemory(t: Table, cats: seq<Category>, rules: seq<Rule>, ok: (nat, nat) -> bool)
    requires TableOk(t) && InOrder(t, cats) && RulesOk(rules) && t.m.contents != map[] && forall i, j :: !ok(i, j)
    ensures !AllAllocate(rules, cats, ok)
  {
    WalkCounts(t);
    assert !Allocates(rules, cats[0].name, For(ok, 0));
  }

  /** A reload without memory: it fails, and some category is left without its rules. */
  method ReloadWithoutMemory(t: Table, rules: seq<Rule>) returns (rc: int, ghost c: Category)
    requires TableOk(t) && RulesOk(rules) && Settled(t) && t.m.contents != map[]
    modifies Members(t)
    ensures rc == -1 && c in Members(t) && FailedFrom(old(c.S()), c.S())
  {
    hide RulesOk, Buckets, Holds, FittedWith, Fitted, InForce, Allocates, AllAllocate, FailedFrom, SameRules;
    ghost var cats;
    var none := (i: nat, j: nat) => false;
    var updated;
    rc, updated, cats := Reload(t, rules, none, true);
    NoMemory(t, cats, rules, none);
    c :| c in Members(t) && FailedFrom(old(c.S()), c.S());
  }

  method NewTable(hash: string -> uint32) returns (t: Table)
    ensures fresh(t) && fresh(t.Repr()) && TableOk(t) && t.m.contents == map[]
  {
    t := new HashTable<string, Category>(20, hash);
  }

  lemma EnoughMemory(rules: seq<Rule>, name: string)
    requires RulesOk(rules)
    ensures forall ok: nat -> bool | (forall j :: ok(j)) :: Allocates(rules, name, ok)
  {
  }

  /** A table with one category, fitted with one rule. */
  method OneCategory(hash: string -> uint32) returns (t: Table, c: Category, r: Rule)
    ensures fresh(t) && fresh(t.Repr()) && fresh(c) && TableOk(t) && t.m.contents == map["a" := c] && Members(t) == {c}
    ensures FittedWith(c.S(), [r]) && InForce(c.S())
  {
    hide RuleOk, Covers, Buckets, Holds, TableOk, Allocates;
    r := NewRule("a", Any, 0);
    OneMatches(r, "a");
    t := NewTable(hash);
    EnoughMemory([r], "a");
    var d := FetchCategory(t, "a", [r], _ => true);
    c := d;
    assert t.m.contents["a"] == c;
  }

  /** Such a reload: the category of a table with one loses its rule. */
  method FailedReload(hash: string -> uint32) returns (rc: int, r: Rule, before: State, after: State)
    ensures rc == -1 && FittedWith(before, [r]) && InForce(before)
    ensures FailedFrom(before, after) && !SameRules(before, after)
  {
    hide RuleOk, Covers, Buckets, Holds, TableOk;
    var t, c;
    t, c, r := OneCategory(hash);
    before := State(c.fitRules, c.bitmap, c.fitRulesBackup, c.bitmapBackup);
    ghost var d;
    rc, d := ReloadWithoutMemory(t, []);
    after := State(c.fitRules, c.bitmap, c.fitRulesBackup, c.bitmapBackup);
  }

  // ---------------------------------------------------------------- whole runs

  datatype Command = Fetch(name: string, memory: nat -> bool)
                   | Load(rules: seq<Rule>, ok: (nat, nat) -> bool, buffersOk: bool)

  ghost predicate CommandsOk(cmds: seq<Command>) {
    forall k :: 0 <= k < |cmds| && cmds[k].Load? ==> RulesOk(cmds[k].rules)
  }

  /** The rules in force after the first `k` commands, when no update of the table failed. */
  ghost function RulesAfter(rules: seq<Rule>, cmds: seq<Command>, k: nat): (now: seq<Rule>)
    requires RulesOk(rules) && CommandsOk(cmds) && k <= |cmds|
    ensures RulesOk(now)
  {
    if k == 0 then rules
    else if cmds[k - 1].Load? && cmds[k - 1].buffersOk then cmds[k - 1].rules
    else RulesAfter(rules, cmds, k - 1)
  }

  /** The names that have a category then: a fetch adds its own if it is not too long and there is memory. */
  ghost function NamesAfter(names: set<string>, rules: seq<Rule>, cmds: seq<Command>, k: nat): set<string>
    requires RulesOk(rules) && CommandsOk(cmds) && k <= |cmds|
  {
    if k == 0 then names
    else
      var before := NamesAfter(names, rules, cmds, k - 1);
      match cmds[k - 1]
      case Load(_, _, _) => before
      case Fetch(name, memory) =>
        if |name| <= MAXLEN_PATH && Allocates(RulesAfter(rules, cmds, k - 1), name, memory) then before + {name}
        else before
  }

  /** A load for which there is not enough memory, when the categories come in this order. */
  ghost predicate Fails(cmd: Command, cats: seq<Category>)
    requires cmd.Load? ==> RulesOk(cmd.rules)
  {
    cmd.Load? && !AllAllocate(cmd.rules, cats, cmd.ok)
  }

  ghost predicate NamedAs(cats: seq<Category>, names: set<string>) {
    (forall c | c in cats :: c.name in names) && (forall n | n in names :: exists c | c in cats :: c.name == n)
  }

  /** The course of a run: `steps` are the categories before each command, in the order of the table.  It ends with
      the first load that fails, if there is one, and otherwise with the last command. */
  ghost predicate Course(names: set<string>, rules: seq<Rule>, cmds: seq<Command>,
                         steps: seq<seq<Category>>, lost: bool)
    requires RulesOk(rules) && CommandsOk(cmds)
  {
    && |steps| <= |cmds| && (if lost then steps != [] else |steps| == |cmds|)
    && (forall k :: 0 <= k < |steps| ==> NamedAs(steps[k], NamesAfter(names, rules, cmds, k)))
    && (forall k :: 0 <= k < |steps| ==> (Fails(cmds[k], steps[k]) <==> lost && k == |steps| - 1))
  }

  /** A run that goes on: no load has failed so far. */
  ghost predicate Going(names: set<string>, rules: seq<Rule>, cmds: seq<Command>, steps: seq<seq<Category>>)
    requires RulesOk(rules) && CommandsOk(cmds)
  {
    && |steps| <= |cmds|
    && (forall k :: 0 <= k < |steps| ==> NamedAs(steps[k], NamesAfter(names, rules, cmds, k)))
    && (forall k :: 0 <= k < |steps| ==> !Fails(cmds[k], steps[k]))
  }

  lemma CourseNext(names: set<string>, rules: seq<Rule>, cmds: seq<Command>,
                   steps: seq<seq<Category>>, cats: seq<Category>)
    requires RulesOk(rules) && CommandsOk(cmds) && |steps| < |cmds|
    ensures Going(names, rules, cmds, steps) && NamedAs(cats, NamesAfter(names, rules, cmds, |steps|)) ==>
              if Fails(cmds[|steps|], cats) then Course(names, rules, cmds, steps + [cats], true)
              else Going(names, rules, cmds, steps + [cats])
  {
    hide RulesOk, NamedAs, Fails, NamesAfter;
  }

  lemma CourseEnds(names: set<string>, rules: seq<Rule>, cmds: seq<Command>, steps: seq<seq<Category>>)
    requires RulesOk(rules) && CommandsOk(cmds) && (steps == [] || Going(names, rules, cmds, steps))
    ensures Going(names, rules, cmds, [])
    ensures |steps| == |cmds| ==> Course(names, rules, cmds, steps, false)
  {
    hide RulesOk, NamedAs, Fails, NamesAfter;
  }

  lemma AfterNext(names: set<string>, rules: seq<Rule>, cmds: seq<Command>, k: nat)
    requires RulesOk(rules) && CommandsOk(cmds) && k < |cmds|
    ensures var cmd, now, before := cmds[k], RulesAfter(rules, cmds, k), NamesAfter(names, rules, cmds, k);
            && RulesAfter(rules, cmds, k + 1) == (if cmd.Load? && cmd.buffersOk then cmd.rules else now)
            && NamesAfter(names, rules, cmds, k + 1) ==
               if cmd.Fetch? && |cmd.name| <= MAXLEN_PATH && Allocates(now, cmd.name, cmd.memory)
               then before + {cmd.name} else before
  {
    hide RulesOk, Allocates;
  }

  /** Every category outputs by `rules`, and nothing is pending. */
  ghost predicate Current(t: Table, rules: seq<Rule>)
    reads t, t.Repr(), Members(t)
  {
    && TableOk(t) && Settled(t) && RulesOk(rules)
    && forall c | c in Members(t) :: FittedWith(c.S(), Fitted(rules, c.name))
  }

  /** What a failed update leaves of categories that output by `rules`: each is fitted with the new rules or without
      any, its old ones in the backup, or is as before; and some are without. */
  ghost predicate HalfLoaded(t: Table, rules: seq<Rule>, new': seq<Rule>)
    reads t, t.Repr(), Members(t)
  {
    && TableOk(t) && RulesOk(rules) && RulesOk(new')
    && (forall c | c in Members(t) :: HalfFitted(c.S(), Fitted(rules, c.name), Fitted(new', c.name)))
    && (exists c | c in Members(t) :: c.S().fit == None)
  }

  ghost predicate HalfFitted(s: State, fit: seq<Rule>, new': seq<Rule>) {
    || (FittedWith(s, new') && s.fitBackup == Some(fit))
    || (s.fit == None && s.fitBackup == Some(fit))
    || (FittedWith(s, fit) && s.fitBackup == None)
  }

  method FetchStep(t: Table, rules: seq<Rule>, name: string, ok: nat -> bool)
    requires Current(t, rules)
    modifies t.Repr()
    ensures Current(t, rules) && (t.tab == old(t.tab) || fresh(t.tab)) && fresh(t.m.entries - old(t.m.entries))
    ensures fresh(Members(t) - old(Members(t)))
    ensures t.m.contents.Keys == old(t.m.contents.Keys)
              + if |name| <= MAXLEN_PATH && Allocates(rules, name, ok) then {name} else {}
  {
    hide RulesOk, TableOk, FittedWith, Fitted, InForce, Allocates;
    var c := FetchCategory(t, name, rules, ok);
    assert forall d | d in Members(t) :: d in old(Members(t)) || (d == c && name !in old(t.m.contents));
  }

  method LoadStep(t: Table, ghost rules: seq<Rule>, cmd: Command)
    returns (rc: int, lost: bool, ghost cats: seq<Category>)
    requires Current(t, rules) && cmd.Load? && RulesOk(cmd.rules)
    modifies Members(t)
    ensures InOrder(t, cats) && TableOk(t) && (lost <==> !AllAllocate(cmd.rules, cats, cmd.ok))
    ensures rc == if !lost && cmd.buffersOk then 0 else -1
    ensures !lost ==> Current(t, if cmd.buffersOk then cmd.rules else rules)
    ensures lost ==> HalfLoaded(t, rules, cmd.rules)
  {
    hide RulesOk, Buckets, Holds, Fitted, InForce, Covers, AllAllocate, HalfUpdated, HalfFitted;
    var updated;
    rc, updated, cats := Reload(t, cmd.rules, cmd.ok, cmd.buffersOk);
    lost := !updated;
    if lost {
      forall c | c in Members(t)
        ensures HalfFitted(c.S(), Fitted(rules, c.name), Fitted(cmd.rules, c.name))
      {
        HalfFits(old(c.S()), c.S(), Fitted(rules, c.name), Fitted(cmd.rules, c.name));
      }
    }
  }

  lemma HalfFits(s: State, s': State, fit: seq<Rule>, new': seq<Rule>)
    requires InForce(s) && FittedWith(s, fit) && HalfUpdated(s, s', new')
    ensures HalfFitted(s', fit, new')
  {
    hide Covers;
  }

  lemma OrderNames(t: Table, cats: seq<Category>)
    requires TableOk(t) && InOrder(t, cats)
    ensures NamedAs(cats, t.m.contents.Keys)
  {
    var all := CatsOf(t);
    assert all == cats;
    forall n | n in t.m.contents
      ensures exists c | c in cats :: c.name == n
    {
      assert t.m.contents[n] in Members(t);
    }
  }

  /** One command; `cats` are the categories before it. */
  method Execute(t: Table, rules: seq<Rule>, cmd: Command)
    returns (next: seq<Rule>, lost: bool, ghost cats: seq<Category>)
    requires Current(t, rules) && (cmd.Load? ==> RulesOk(cmd.rules))
    modifies t.Repr(), Members(t)
    ensures (t.tab == old(t.tab) || fresh(t.tab)) && fresh(t.m.entries - old(t.m.entries))
    ensures fresh(Members(t) - old(Members(t)))
    ensures NamedAs(cats, old(t.m.contents.Keys)) && (lost <==> Fails(cmd, cats))
    ensures next == if cmd.Load? && cmd.buffersOk then cmd.rules else rules
    ensures cmd.Load? ==> t.m.contents.Keys == old(t.m.contents.Keys)
    ensures cmd.Fetch? ==>
              t.m.contents.Keys == old(t.m.contents.Keys)
                + if |cmd.name| <= MAXLEN_PATH && Allocates(rules, cmd.name, cmd.memory) then {cmd.name} else {}
    ensures if lost then HalfLoaded(t, rules, cmd.rules) && InOrder(t, cats) else Current(t, next)
  {
    hide AllAllocate, Allocates, RulesOk, Settled, HalfLoaded, TableOk, NamedAs, Fitted, FittedWith;
    next, lost := rules, false;
    match cmd
    case Fetch(name, memory) =>
      cats := CatsOf(t);
      OrderNames(t, cats);
      FetchStep(t, rules, name, memory);
    case Load(new', ok, buffersOk) =>
      var rc;
      rc, lost, cats := LoadStep(t, rules, cmd);
      OrderNames(t, cats);
      next := if buffersOk then new' else rules;
  }

  /** Any run of fetches and reloads, up to the first reload whose update fails for want of memory.  The table has a
      category for every name that was fetched with success, and each outputs by the rules in force, the last ones
      that were loaded to the end; after a failed update each is fitted with the old rules or the new, or without. */
  method Run(t: Table, rules: seq<Rule>, cmds: seq<Command>) returns (lost: bool, ghost steps: seq<seq<Category>>)
    requires Current(t, rules) && RulesOk(rules) && CommandsOk(cmds)
    modifies t.Repr(), Members(t)
    ensures Course(old(t.m.contents.Keys), rules, cmds, steps, lost)
    ensures t.m.contents.Keys == NamesAfter(old(t.m.contents.Keys), rules, cmds, |steps|)
    ensures !lost ==> Current(t, RulesAfter(rules, cmds, |cmds|))
    ensures lost ==>
              var k := |steps| - 1;
              && cmds[k].Load? && InOrder(t, steps[k])
              && HalfLoaded(t, RulesAfter(rules, cmds, k), cmds[k].rules)
  {
    hide Current, Fails, NamedAs, RulesOk, HalfLoaded, Allocates, InOrder, Going, Course, NamesAfter, RulesAfter;
    lost, steps := false, [];
    var now := rules;
    ghost var names := t.m.contents.Keys;
    CourseEnds(names, rules, cmds, []);
    AfterNone(names, rules, cmds);
    for k := 0 to |cmds|
      invariant (t.tab == old(t.tab) || fresh(t.tab)) && fresh(t.m.entries - old(t.m.entries))
      invariant fresh(Members(t) - old(Members(t)))
      invariant |steps| == k && now == RulesAfter(rules, cmds, k) && Current(t, now)
      invariant t.m.contents.Keys == NamesAfter(names, rules, cmds, k)
      invariant Going(names, rules, cmds, steps)
    {
      AfterNext(names, rules, cmds, k);
      ghost var cats;
      now, lost, cats := Execute(t, now, cmds[k]);
      CourseNext(names, rules, cmds, steps, cats);
      steps := steps + [cats];
      if lost {
        FailsLoad(cmds[k], cats);
        return;
      }
    }
    CourseEnds(names, rules, cmds, steps);
  }

  lemma AfterNone(names: set<string>, rules: seq<Rule>, cmds: seq<Command>)
    requires RulesOk(rules) && CommandsOk(cmds)
    ensures RulesAfter(rules, cmds, 0) == rules && NamesAfter(names, rules, cmds, 0) == names
  {
  }

  lemma FailsLoad(cmd: Command, cats: seq<Category>)
    requires (cmd.Load? ==> RulesOk(cmd.rules)) && Fails(cmd, cats)
    ensures cmd.Load?
  {
  }

  /** From an empty table: the fast test of every category then says needless exactly when neither a rule in force that
      matches it, nor without one the last wastebin, would output.  With enough memory no update fails. */
  method RunFresh(hash: string -> uint32, rules: seq<Rule>, cmds: seq<Command>)
    returns (t: Table, lost: bool, ghost steps: seq<seq<Category>>)
    requires RulesOk(rules) && CommandsOk(cmds)
    ensures Course({}, rules, cmds, steps, lost) && t.m.contents.Keys == NamesAfter({}, rules, cmds, |steps|)
    ensures (forall k :: 0 <= k < |cmds| && cmds[k].Load? ==> Plenty(cmds[k].ok)) ==> !lost
    ensures lost ==>
              var k := |steps| - 1;
              && cmds[k].Load? && InOrder(t, steps[k])
              && HalfLoaded(t, RulesAfter(rules, cmds, k), cmds[k].rules)
    ensures !lost ==> Current(t, RulesAfter(rules, cmds, |cmds|))
    ensures !lost ==> forall c | c in Members(t) :: |c.bitmap| == MAP_BYTES
    ensures !lost ==> forall c, lv: LevelNumber | c in Members(t) ::
              Needless(c.bitmap, lv) <==> !IsOutput(RulesAfter(rules, cmds, |cmds|), c.name, lv)
  {
    hide Needless, IsOutput, Fitted, Buckets, Holds, RulesOk, NamedAs, Allocates, Fails, HalfLoaded, NamesAfter, Plenty;
    t := NewTable(hash);
    lost, steps := Run(t, rules, cmds);
    if lost {
      ghost var k := |steps| - 1;
      if Plenty(cmds[k].ok) {
        PlentySuffices(cmds[k], steps[k]);
      }
    } else {
      FastTest(t, RulesAfter(rules, cmds, |cmds|));
    }
  }

  /** Every allocation succeeds. */
  ghost predicate Plenty(ok: (nat, nat) -> bool) {
    forall i, j :: ok(i, j)
  }

  lemma PlentySuffices(cmd: Command, cats: seq<Category>)
    requires cmd.Load? && RulesOk(cmd.rules) && Plenty(cmd.ok)
    ensures !Fails(cmd, cats)
  {
    hide RulesOk;
  }

  lemma FastTest(t: Table, rules: seq<Rule>)
    requires RulesOk(rules) && Current(t, rules)
    ensures forall c | c in Members(t) :: |c.bitmap| == MAP_BYTES
    ensures forall c, lv: LevelNumber | c in Members(t) :: Needless(c.bitmap, lv) <==> !IsOutput(rules, c.name, lv)
  {
    hide Needless, Fires, Fitted, Buckets, Holds, RulesOk, LevelSet, IsOutput, IsFitting;
    forall c, lv: LevelNumber | c in Members(t)
      ensures Needless(c.bitmap, lv) <==> !IsOutput(rules, c.name, lv)
    {
      var fit := Fitted(rules, c.name);
      var idx := FittedIsFitting(rules, c.name);
      NeedlessExactly(c.bitmap, fit, lv);
      FittingFires(rules, c.name, idx, fit, lv);
    }
  }
}
