/** The nested transactions of a connection (sorm.c): a counter of open transactions against an
    engine that knows only one.  Whether the engine prepares, carries out and finalizes a statement is a
    parameter of every call. */
module Transactions {

  datatype Error = SormOk | DbError

  datatype Kind = Begin | Commit | Rollback

  /** What the engine answers to the statement of one call. */
  datatype Outcome = Outcome(prepared: bool, stepped: bool, finalized: bool)

  datatype Call = Call(kind: Kind, outcome: Outcome)

  /** The counter, whether the engine is in a transaction, and the commands it has carried out. */
  datatype State = State(num: int, inTransaction: bool, log: seq<Kind>)

  const FRESH := State(0, false, [])

  // ---------------------------------------------------------------- one call

  /** Whether the call reaches the engine. */
  predicate Outermost(num: int, kind: Kind) {
    num == if kind.Begin? then 0 else 1
  }

  /** How the counter moves when the call succeeds. */
  function Step(num: int, kind: Kind): int {
    if kind.Begin? then 1 else if num == 0 then 0 else -1
  }

  /** The state after a call and its result. */
  function Next(s: State, call: Call): (State, Error) {
    var o := call.outcome;
    if !Outermost(s.num, call.kind) then (s.(num := s.num + Step(s.num, call.kind)), SormOk)
    else if !o.prepared then (s, DbError)
    else
      var engine := if o.stepped then State(s.num, call.kind.Begin?, s.log + [call.kind]) else s;
      var moves := o.finalized && (o.stepped || call.kind.Rollback?);
      (if moves then engine.(num := s.num + Step(s.num, call.kind)) else engine,
       if o.finalized && o.stepped then SormOk else DbError)
  }

  /** The begin, commit and rollback paths that end in _unlock; none of them takes the lock. */
  predicate Unlocks(num: int, call: Call) {
    && Outermost(num, call.kind) && call.outcome.prepared && call.outcome.finalized
    && (call.kind.Begin? ==> !call.outcome.stepped)
  }

  function After(s: State, calls: seq<Call>): State {
    if calls == [] then s else Next(After(s, calls[..|calls| - 1]), calls[|calls| - 1]).0
  }

  lemma AfterLast(s: State, calls: seq<Call>, i: nat)
    requires i < |calls|
    ensures After(s, calls[..0]) == s
    ensures After(s, calls[..i + 1]) == Next(After(s, calls[..i]), calls[i]).0
  {
    assert calls[..i + 1][..i] == calls[..i];
  }

  class Connection {
    var transactionNum: int
    var inTransaction: bool
    var log: seq<Kind>

    function Now(): State
      reads this
    {
      State(transactionNum, inTransaction, log)
    }

    constructor ()
      ensures Now() == FRESH
    {
      transactionNum, inTransaction, log := 0, false, [];
    }

    /** The engine runs the statement: a BEGIN that succeeds opens its transaction, the others end it. */
    method Execute(kind: Kind, stepped: bool)
      modifies this`inTransaction, this`log
      ensures inTransaction == (if stepped then kind.Begin? else old(inTransaction))
      ensures log == if stepped then old(log) + [kind] else old(log)
    {
      if stepped {
        inTransaction := kind.Begin?;
        log := log + [kind];
      }
    }

    /** `unlocked` tells whether the call ends in _unlock: here after a BEGIN that failed. */
    method BeginTransaction(o: Outcome) returns (rc: Error, unlocked: bool)
      modifies this
      ensures (Now(), rc) == Next(old(Now()), Call(Begin, o))
      ensures unlocked == Unlocks(old(transactionNum), Call(Begin, o))
      ensures old(transactionNum) != 0 ==> rc == SormOk && Now() == old(Now()).(num := old(transactionNum) + 1)
      ensures old(transactionNum) == 0 ==>
                && rc == (if o.prepared && o.stepped && o.finalized then SormOk else DbError)
                && transactionNum == (if rc == SormOk then 1 else 0)
                && log == (if o.prepared && o.stepped then old(log) + [Begin] else old(log))
                && inTransaction == ((o.prepared && o.stepped) || old(inTransaction))
      ensures unlocked <==> old(transactionNum) == 0 && o.prepared && !o.stepped && o.finalized
    {
      unlocked := false;
      if transactionNum == 0 {
        if !o.prepared {
          return DbError, false;
        }
        Execute(Begin, o.stepped);
        rc := if o.stepped then SormOk else DbError;
        if !o.finalized {
          return DbError, false;
        }
        if rc == SormOk {
          transactionNum := transactionNum + 1;
        } else {
          unlocked := true;
        }
      } else {
        transactionNum := transactionNum + 1;
        rc := SormOk;
      }
    }

    /** The outermost commit ends in _unlock whenever its finalize succeeds. */
    method CommitTransaction(o: Outcome) returns (rc: Error, unlocked: bool)
      modifies this
      ensures (Now(), rc) == Next(old(Now()), Call(Commit, o))
      ensures unlocked == Unlocks(old(transactionNum), Call(Commit, o))
      ensures old(transactionNum) == 0 ==> rc == SormOk && Now() == old(Now())
      ensures old(transactionNum) !in {0, 1} ==> rc == SormOk && Now() == old(Now()).(num := old(transactionNum) - 1)
      ensures old(transactionNum) == 1 ==>
                && rc == (if o.prepared && o.stepped && o.finalized then SormOk else DbError)
                && transactionNum == (if rc == SormOk then 0 else 1)
                && log == (if o.prepared && o.stepped then old(log) + [Commit] else old(log))
                && inTransaction == (!(o.prepared && o.stepped) && old(inTransaction))
      ensures unlocked <==> old(transactionNum) == 1 && o.prepared && o.finalized
    {
      unlocked := false;
      if transactionNum == 0 {
        rc := SormOk;
      } else if transactionNum == 1 {
        if !o.prepared {
          return DbError, false;
        }
        Execute(Commit, o.stepped);
        rc := if o.stepped then SormOk else DbError;
        if !o.finalized {
          return DbError, false;
        }
        if rc == SormOk {
          transactionNum := transactionNum - 1;
        }
        unlocked := true;
      } else {
        transactionNum := transactionNum - 1;
        rc := SormOk;
      }
    }

    /** The outermost rollback too, and it counts as done even when it failed. */
    method RollbackTransaction(o: Outcome) returns (rc: Error, unlocked: bool)
      modifies this
      ensures (Now(), rc) == Next(old(Now()), Call(Rollback, o))
      ensures unlocked == Unlocks(old(transactionNum), Call(Rollback, o))
      ensures old(transactionNum) == 0 ==> rc == SormOk && Now() == old(Now())
      ensures old(transactionNum) !in {0, 1} ==> rc == SormOk && Now() == old(Now()).(num := old(transactionNum) - 1)
      ensures old(transactionNum) == 1 ==>
                && rc == (if o.prepared && o.stepped && o.finalized then SormOk else DbError)
                && transactionNum == (if o.prepared && o.finalized then 0 else 1)
                && log == (if o.prepared && o.stepped then old(log) + [Rollback] else old(log))
                && inTransaction == (!(o.prepared && o.stepped) && old(inTransaction))
      ensures unlocked <==> old(transactionNum) == 1 && o.prepared && o.finalized
    {
      unlocked := false;
      if transactionNum == 0 {
        rc := SormOk;
      } else if transactionNum == 1 {
        if !o.prepared {
          return DbError, false;
        }
        Execute(Rollback, o.stepped);
        rc := if o.stepped then SormOk else DbError;
        if !o.finalized {
          return DbError, false;
        }
        transactionNum := transactionNum - 1;
        unlocked := true;
      } else {
        transactionNum := transactionNum - 1;
        rc := SormOk;
      }
    }

    method Run(calls: seq<Call>)
      requires Consistent(Now()) && forall k :: 0 <= k < |calls| ==> Honest(calls[k].outcome)
      modifies this
      ensures Now() == After(old(Now()), calls) && Consistent(Now())
    {
      for i := 0 to |calls|
        invariant Now() == After(old(Now()), calls[..i])
      {
        hide After;
        var call, rc, unlocked := calls[i], SormOk, false;
        AfterLast(old(Now()), calls, i);
        match call.kind
        case Begin => rc, unlocked := BeginTransaction(call.outcome);
        case Commit => rc, unlocked := CommitTransaction(call.outcome);
        case Rollback => rc, unlocked := RollbackTransaction(call.outcome);
      }
      assert calls[..|calls|] == calls;
      HonestRun(old(Now()), calls);
    }
  }

  // ---------------------------------------------------------------- every run

  /** The commands carried out are BEGIN, COMMIT or ROLLBACK, BEGIN, and so on. */
  ghost predicate Alternates(log: seq<Kind>) {
    forall i :: 0 <= i < |log| ==> (log[i].Begin? <==> i % 2 == 0)
  }

  /** The counter is never negative, the engine is in a transaction exactly when it is positive, and the log
      alternates; an odd log is one whose last BEGIN is still open. */
  ghost predicate Consistent(s: State) {
    && s.num >= 0
    && (s.inTransaction <==> s.num > 0)
    && Alternates(s.log)
    && (s.inTransaction <==> |s.log| % 2 == 1)
  }

  /** sqlite3_finalize reports an error exactly when the last step failed. */
  predicate Honest(o: Outcome) {
    o.finalized <==> o.stepped
  }

  /** What one call needs of the engine, to be seen before the call from the counter and the answers. */
  predicate Safe(num: int, call: Call) {
    var o := call.outcome;
    Outermost(num, call.kind) && o.prepared ==>
      (o.stepped ==> o.finalized) && (call.kind.Rollback? ==> (o.finalized ==> o.stepped))
  }

  /** A call keeps a consistent connection consistent if and only if it is safe. */
  lemma NextConsistent(s: State, call: Call)
    requires Consistent(s)
    ensures Consistent(Next(s, call).0) <==> Safe(s.num, call)
    ensures Honest(call.outcome) ==> Safe(s.num, call)
  {
    var s' := Next(s, call).0;
    if s'.log != s.log {
      assert s'.log[|s.log|] == call.kind;
      assert s'.log[..|s.log|] == s.log;
      assert Alternates(s'.log);
    }
  }

  lemma {:induction false} HonestRun(s: State, calls: seq<Call>)
    requires Consistent(s) && forall k :: 0 <= k < |calls| ==> Honest(calls[k].outcome)
    ensures Consistent(After(s, calls))
  {
    if calls != [] {
      var front := calls[..|calls| - 1];
      HonestRun(s, front);
      NextConsistent(After(s, front), calls[|calls| - 1]);
    }
  }

  /** Every call of the run is safe in the state it meets. */
  ghost predicate AllSafe(s: State, calls: seq<Call>) {
    forall k {:trigger calls[k]} :: 0 <= k < |calls| ==> Safe(After(s, calls[..k]).num, calls[k])
  }

  /** A run stays consistent at every point if and only if every call is safe. */
  lemma {:induction false} ConsistentExactly(s: State, calls: seq<Call>)
    requires Consistent(s)
    ensures AllSafe(s, calls) <==> forall k :: 0 <= k <= |calls| ==> Consistent(After(s, calls[..k]))
  {
    if AllSafe(s, calls) {
      forall k | 0 <= k <= |calls|
        ensures Consistent(After(s, calls[..k]))
      {
        SafePrefix(s, calls, k);
      }
    }
    if forall k :: 0 <= k <= |calls| ==> Consistent(After(s, calls[..k])) {
      forall k {:trigger calls[k]} | 0 <= k < |calls|
        ensures Safe(After(s, calls[..k]).num, calls[k])
      {
        assert calls[..k + 1][..k] == calls[..k];
        assert Consistent(After(s, calls[..k + 1]));
        NextConsistent(After(s, calls[..k]), calls[k]);
      }
    }
  }

  lemma {:induction false} SafePrefix(s: State, calls: seq<Call>, k: nat)
    requires Consistent(s) && AllSafe(s, calls) && k <= |calls|
    ensures Consistent(After(s, calls[..k]))
  {
    if k > 0 {
      SafePrefix(s, calls, k - 1);
      assert calls[..k][..k - 1] == calls[..k - 1];
      NextConsistent(After(s, calls[..k - 1]), calls[k - 1]);
    }
  }

  /** A COMMIT that is carried out but whose finalize fails leaves the counter at 1 outside any transaction;
      a ROLLBACK that fails while its finalize succeeds leaves it at 0 inside one. */
  lemma UnsafeCalls()
    ensures var open := Next(FRESH, Call(Begin, Outcome(true, true, true))).0;
            && Consistent(open) && open.num == 1
            && Next(open, Call(Commit, Outcome(true, true, false))).0 == State(1, false, [Begin, Commit])
            && Next(open, Call(Rollback, Outcome(true, false, true))).0 == State(0, true, [Begin])
            && !Consistent(State(1, false, [Begin, Commit])) && !Consistent(State(0, true, [Begin]))
  {
  }

  // ---------------------------------------------------------------- the counter as a balance

  /** The calls that returned without an error and found something to do. */
  function Successes(s: State, calls: seq<Call>, begins: bool): nat {
    if calls == [] then 0
    else
      var front, last := calls[..|calls| - 1], calls[|calls| - 1];
      var before := After(s, front);
      Successes(s, front, begins) +
      if Next(before, last).1 == SormOk && last.kind.Begin? == begins && (begins || before.num > 0) then 1 else 0
  }

  /** The counter is the number of successful begins minus the number of successful ends: nothing else moves it. */
  lemma {:induction false} CounterBalances(calls: seq<Call>)
    requires forall k :: 0 <= k < |calls| ==> Honest(calls[k].outcome)
    ensures After(FRESH, calls).num == Successes(FRESH, calls, true) - Successes(FRESH, calls, false)
  {
    if calls != [] {
      var front := calls[..|calls| - 1];
      CounterBalances(front);
      HonestRun(FRESH, front);
      assert Honest(calls[|calls| - 1].outcome);
    }
  }

  // ---------------------------------------------------------------- nesting

  /** Successful calls on an open connection that never bring the counter back to 0. */
  ghost predicate Inner(num: int, calls: seq<Call>)
    decreases |calls|
  {
    calls == [] || (var n := num + Step(num, calls[0].kind); n > 0 && Inner(n, calls[1..]))
  }

  lemma AfterFirst(s: State, calls: seq<Call>)
    requires calls != []
    ensures After(s, calls) == After(Next(s, calls[0]).0, calls[1..])
  {
    if |calls| > 1 {
      AfterFirst(s, calls[..|calls| - 1]);
      assert calls[..|calls| - 1][1..] == calls[1..][..|calls| - 2];
    } else {
      assert calls[..0] == [] && calls == [calls[0]];
    }
  }

  /** Inside an outermost transaction no call reaches the engine, whatever it would have answered: a whole
      nested run is invisible to it. */
  lemma {:induction false} InnerInvisible(s: State, calls: seq<Call>)
    requires s.num > 0 && Inner(s.num, calls)
    ensures var s' := After(s, calls); s'.num > 0 && s'.log == s.log && s'.inTransaction == s.inTransaction
    decreases |calls|
  {
    if calls != [] {
      AfterFirst(s, calls);
      InnerInvisible(Next(s, calls[0]).0, calls[1..]);
    }
  }

  /** However deep the nesting between them, a begin and the end that brings the counter back to 0 show the
      engine one BEGIN and one COMMIT or ROLLBACK. */
  lemma {:induction false} NestedIsOne(s: State, begin: Call, inner: seq<Call>, end: Call)
    requires Consistent(s) && s.num == 0 && begin.kind.Begin? && !end.kind.Begin?
    requires begin.outcome == end.outcome == Outcome(true, true, true)
    requires Inner(1, inner) && After(Next(s, begin).0, inner).num == 1
    ensures After(s, [begin] + inner + [end]) == State(0, false, s.log + [Begin, end.kind])
  {
    var calls := [begin] + inner + [end];
    AfterLast(s, calls, |inner| + 1);
    assert calls[..|inner| + 1] == [begin] + inner && calls[..|calls|] == calls;
    AfterFirst(s, [begin] + inner);
    assert ([begin] + inner)[1..] == inner;
    InnerInvisible(Next(s, begin).0, inner);
    assert s.log + [Begin] + [end.kind] == s.log + [Begin, end.kind];
  }
}
