/** The lock around every engine step (sorm.c, semaphore.c): any number of connections share a semaphore or
    a read-write lock and interleave the parts of their steps.  A connection takes the lock, calls the
    engine up to ten times while it is busy, and releases the lock; inside an explicit transaction it
    neither takes nor releases it. */
module Locks {
  import Transactions

  const BUSY_RETRY_TIME: nat := 10

  datatype Flag = Read | Write

  datatype Lock = Semaphore(value: int) | RwLock(readers: int, writing: bool)

  // ---------------------------------------------------------------- the lock

  /** Whether taking the lock would not block. */
  predicate Available(lock: Lock, flag: Flag) {
    match lock
    case Semaphore(value) => value > 0
    case RwLock(readers, writing) => !writing && (flag.Write? ==> readers == 0)
  }

  /** sem_p, pthread_rwlock_rdlock, pthread_rwlock_wrlock */
  function Taken(lock: Lock, flag: Flag): Lock {
    match lock
    case Semaphore(value) => Semaphore(value - 1)
    case RwLock(readers, writing) => if flag.Read? then RwLock(readers + 1, writing) else RwLock(readers, true)
  }

  /** sem_v, pthread_rwlock_unlock */
  function Released(lock: Lock): Lock {
    match lock
    case Semaphore(value) => Semaphore(value + 1)
    case RwLock(readers, writing) => if writing then RwLock(readers, false) else RwLock(readers - 1, writing)
  }

  // ---------------------------------------------------------------- one connection alone

  datatype Reply = Busy | Other(code: int)

  class SharedLock {
    var lock: Lock

    constructor (lock: Lock)
      ensures this.lock == lock
    {
      this.lock := lock;
    }

    method Take(flag: Flag)
      requires Available(lock, flag)
      modifies this
      ensures lock == Taken(old(lock), flag)
    {
      match lock
      case Semaphore(value) => lock := Semaphore(value - 1);
      case RwLock(readers, writing) =>
        lock := if flag.Read? then RwLock(readers + 1, writing) else RwLock(readers, true);
    }

    method Release()
      modifies this
      ensures lock == Released(old(lock))
    {
      match lock
      case Semaphore(value) => lock := Semaphore(value + 1);
      case RwLock(readers, writing) => lock := if writing then RwLock(readers, false) else RwLock(readers - 1, writing);
    }

    /** _sqlite3_step: what was taken is released, and the engine is called again only while it is busy and
        at most ten times. */
    method SqliteStep(transactionNum: int, flag: Flag, engine: nat -> Reply) returns (ret: Reply, calls: nat)
      requires transactionNum == 0 ==> Available(lock, flag)
      modifies this
      ensures lock == old(lock)
      ensures 1 <= calls <= 10 && ret == engine(calls - 1)
      ensures forall k :: 0 <= k < calls - 1 ==> engine(k) == Busy
      ensures ret == Busy ==> calls == 10
    {
      if transactionNum == 0 {
        Take(flag);
      }
      ret := engine(0);
      calls := 1;
      while ret == Busy && calls < BUSY_RETRY_TIME
        invariant 1 <= calls <= BUSY_RETRY_TIME && ret == engine(calls - 1)
        invariant forall k :: 0 <= k < calls - 1 ==> engine(k) == Busy
        invariant lock == if transactionNum == 0 then Taken(old(lock), flag) else old(lock)
      {
        ret := engine(calls);
        calls := calls + 1;
      }
      if transactionNum == 0 {
        Release();
      }
    }
  }

  // ---------------------------------------------------------------- many connections

  /** `locked` says whether the step took the lock, `busy` what the last call answered. */
  datatype Phase = Idle | Inside(flag: Flag, locked: bool, calls: nat, busy: bool)

  datatype Conn = Conn(txn: Transactions.State, phase: Phase)

  datatype System = System(lock: Lock, conns: seq<Conn>)

  datatype Event =
    | Enter(i: nat, flag: Flag)
    | Call(i: nat, busy: bool)
    | Leave(i: nat)
    | Transact(i: nat, call: Transactions.Call)

  predicate MayCall(p: Phase) {
    p.Inside? && (p.calls == 0 || (p.busy && p.calls < BUSY_RETRY_TIME))
  }

  /** Whether the event can happen now. */
  predicate Enabled(s: System, e: Event) {
    e.i < |s.conns| &&
    var c := s.conns[e.i];
    match e
    case Enter(_, flag) => c.phase.Idle? && (c.txn.num == 0 ==> Available(s.lock, flag))
    case Call(_, _) => MayCall(c.phase)
    case Leave(_) => c.phase.Inside? && !MayCall(c.phase)
    case Transact(_, _) => c.phase.Idle?
  }

  function Next(s: System, e: Event): System
    requires Enabled(s, e)
  {
    var c := s.conns[e.i];
    match e
    case Enter(i, flag) =>
      var free := c.txn.num == 0;
      System(if free then Taken(s.lock, flag) else s.lock, s.conns[i := c.(phase := Inside(flag, free, 0, false))])
    case Call(i, busy) =>
      s.(conns := s.conns[i := c.(phase := c.phase.(calls := c.phase.calls + 1, busy := busy))])
    case Leave(i) =>
      System(if c.txn.num == 0 then Released(s.lock) else s.lock, s.conns[i := c.(phase := Idle)])
    case Transact(i, call) =>
      System(if Transactions.Unlocks(c.txn.num, call) then Released(s.lock) else s.lock,
             s.conns[i := c.(txn := Transactions.Next(c.txn, call).0)])
  }

  ghost predicate Possible(s: System, run: seq<Event>)
    decreases |run|
  {
    run == [] || (Enabled(s, run[0]) && Possible(Next(s, run[0]), run[1..]))
  }

  function After(s: System, run: seq<Event>): System
    requires Possible(s, run)
    decreases |run|
  {
    if run == [] then s else After(Next(s, run[0]), run[1..])
  }

  // ---------------------------------------------------------------- counting

  function Weight(c: Conn, flag: Flag): nat {
    if c.phase.Inside? && c.phase.locked && c.phase.flag == flag then 1 else 0
  }

  /** The connections inside the engine with the lock taken, for reading or for writing. */
  function Holders(conns: seq<Conn>, flag: Flag): nat {
    if conns == [] then 0 else Holders(conns[..|conns| - 1], flag) + Weight(conns[|conns| - 1], flag)
  }

  lemma {:induction false} HoldersUpdate(conns: seq<Conn>, i: nat, c: Conn, flag: Flag)
    requires i < |conns|
    ensures Holders(conns[i := c], flag) == Holders(conns, flag) - Weight(conns[i], flag) + Weight(c, flag)
  {
    var n := |conns| - 1;
    if i < n {
      HoldersUpdate(conns[..n], i, c, flag);
      assert conns[i := c][..n] == conns[..n][i := c];
    } else {
      assert conns[i := c][..n] == conns[..n];
    }
  }

  /** Two different connections that hold are counted twice. */
  lemma {:induction false} HoldersAtLeast(conns: seq<Conn>, i: nat, j: nat, flag: Flag)
    requires i < |conns| && j < |conns|
    ensures Holders(conns, flag) >= Weight(conns[i], flag)
    ensures i != j ==> Holders(conns, flag) >= Weight(conns[i], flag) + Weight(conns[j], flag)
  {
    var n := |conns| - 1;
    if i < n && j < n {
      HoldersAtLeast(conns[..n], i, j, flag);
    } else if i < n {
      HoldersAtLeast(conns[..n], i, i, flag);
    } else if j < n {
      HoldersAtLeast(conns[..n], j, j, flag);
    }
  }

  lemma {:induction false} NoHolders(conns: seq<Conn>, flag: Flag)
    requires forall i :: 0 <= i < |conns| ==> conns[i].phase.Idle?
    ensures Holders(conns, flag) == 0
  {
    if conns != [] {
      NoHolders(conns[..|conns| - 1], flag);
    }
  }

  // ---------------------------------------------------------------- every run

  /** Everyone outside, the lock free. */
  ghost predicate Start(s: System) {
    && (forall i :: 0 <= i < |s.conns| ==> s.conns[i] == Conn(Transactions.FRESH, Idle))
    && (s.lock == Semaphore(1) || s.lock == RwLock(0, false))
  }

  /** A step that is inside took the lock exactly when its connection has no transaction, and has called the
      engine at most ten times. */
  ghost predicate Marked(s: System) {
    forall i {:trigger s.conns[i]} :: 0 <= i < |s.conns| && s.conns[i].phase.Inside? ==>
      (s.conns[i].phase.locked <==> s.conns[i].txn.num == 0) && s.conns[i].phase.calls <= BUSY_RETRY_TIME
  }

  /** The event is a transaction path that releases the lock without having taken it. */
  predicate Releases(s: System, e: Event) {
    e.Transact? && e.i < |s.conns| && Transactions.Unlocks(s.conns[e.i].txn.num, e.call)
  }

  /** How often the run did that. */
  function Extra(s: System, run: seq<Event>): nat
    requires Possible(s, run)
    decreases |run|
  {
    if run == [] then 0 else Extra(Next(s, run[0]), run[1..]) + if Releases(s, run[0]) then 1 else 0
  }

  /** How much the lock still has to give: the value of a semaphore, minus the holds on a read-write lock. */
  ghost function Slack(lock: Lock): int {
    match lock
    case Semaphore(value) => value
    case RwLock(readers, writing) => -(readers + if writing then 1 else 0)
  }

  ghost function Total(s: System): int {
    Slack(s.lock) + Holders(s.conns, Read) + Holders(s.conns, Write)
  }

  lemma {:induction false} StartMarked(s: System)
    requires Start(s)
    ensures Marked(s) && Accounted(s) && Holders(s.conns, Read) == Holders(s.conns, Write) == 0
  {
    NoHolders(s.conns, Read);
    NoHolders(s.conns, Write);
  }

  /** What the event does to the number of holders. */
  lemma {:induction false} NextHolders(s: System, e: Event, flag: Flag)
    requires Enabled(s, e)
    ensures var s' := Next(s, e);
            && |s'.conns| == |s.conns|
            && Holders(s'.conns, flag) - Weight(s'.conns[e.i], flag)
            == Holders(s.conns, flag) - Weight(s.conns[e.i], flag)
            && Holders(s.conns, flag) >= Weight(s.conns[e.i], flag)
  {
    var s' := Next(s, e);
    var c := s'.conns[e.i];
    assert s'.conns == s.conns[e.i := c];
    HoldersUpdate(s.conns, e.i, c, flag);
    HoldersAtLeast(s.conns, e.i, e.i, flag);
  }

  lemma NextMarked(s: System, e: Event)
    requires Marked(s) && Enabled(s, e)
    ensures Marked(Next(s, e)) && Next(s, e).lock.Semaphore? == s.lock.Semaphore? && |Next(s, e).conns| == |s.conns|
  {
  }

  lemma {:induction false} NextBalance(s: System, e: Event)
    requires Marked(s) && Enabled(s, e)
    ensures Total(Next(s, e)) == Total(s) + if Releases(s, e) then 1 else 0
  {
    hide Holders;
    NextHolders(s, e, Read);
    NextHolders(s, e, Write);
  }

  /** Under either lock, what it has to give and its holders together grow by one with every transaction path
      that releases it without having taken it, and by nothing else. */
  lemma {:induction false} Balance(s: System, run: seq<Event>)
    requires Marked(s) && Possible(s, run)
    ensures Marked(After(s, run)) && Total(After(s, run)) == Total(s) + Extra(s, run)
    ensures After(s, run).lock.Semaphore? == s.lock.Semaphore? && |After(s, run).conns| == |s.conns|
    decreases |run|
  {
    hide Marked;
    hide Total;
    if run != [] {
      NextMarked(s, run[0]);
      NextBalance(s, run[0]);
      Balance(Next(s, run[0]), run[1..]);
    }
  }

  /** The lock agrees with its holders. */
  ghost predicate Accounted(s: System) {
    var readers, writers := Holders(s.conns, Read), Holders(s.conns, Write);
    match s.lock
    case Semaphore(value) => value >= 0 && value + readers + writers == 1
    case RwLock(r, w) => r == readers && writers == (if w then 1 else 0) && (w ==> r == 0)
  }

  lemma {:induction false} NextAccounted(s: System, e: Event)
    requires Accounted(s) && Marked(s) && Enabled(s, e) && !Releases(s, e)
    ensures Accounted(Next(s, e))
  {
    hide Holders;
    NextHolders(s, e, Read);
    NextHolders(s, e, Write);
  }

  lemma {:induction false} RunAccounted(s: System, run: seq<Event>)
    requires Accounted(s) && Marked(s) && Possible(s, run) && Extra(s, run) == 0
    ensures Accounted(After(s, run)) && Marked(After(s, run))
    decreases |run|
  {
    hide Accounted;
    hide Marked;
    if run != [] {
      NextMarked(s, run[0]);
      NextAccounted(s, run[0]);
      RunAccounted(Next(s, run[0]), run[1..]);
    }
  }

  /** Two connections that both hold the lock are readers of a read-write lock. */
  lemma {:induction false} HoldersExclude(s: System, i: nat, j: nat)
    requires Accounted(s) && i < |s.conns| && j < |s.conns| && i != j
    requires s.conns[i].phase.Inside? && s.conns[i].phase.locked && s.conns[j].phase.Inside? && s.conns[j].phase.locked
    ensures s.lock.RwLock? && s.conns[i].phase.flag.Read? && s.conns[j].phase.flag.Read?
  {
    hide Holders;
    HoldersAtLeast(s.conns, i, j, Read);
    HoldersAtLeast(s.conns, i, j, Write);
    HoldersAtLeast(s.conns, j, j, Read);
  }

  /** Over every interleaving of any number of connections, with or without transactions: two are inside the engine
      together only as readers of a read-write lock, or because one of them has an open transaction, or because
      a transaction path has released the lock.  None calls the engine more than ten times. */
  lemma {:induction false} TogetherOnly(s: System, run: seq<Event>, i: nat, j: nat)
    requires Start(s) && Possible(s, run) && i < |After(s, run).conns| && j < |After(s, run).conns| && i != j
    ensures var s' := After(s, run); var p, q := s'.conns[i].phase, s'.conns[j].phase;
            && (p.Inside? && q.Inside? ==>
                  || (s'.lock.RwLock? && p.flag.Read? && q.flag.Read?)
                  || s'.conns[i].txn.num != 0 || s'.conns[j].txn.num != 0
                  || Extra(s, run) > 0)
            && (p.Inside? ==> p.calls <= 10)
  {
    var s' := After(s, run);
    StartMarked(s);
    Balance(s, run);
    if Extra(s, run) == 0 {
      RunAccounted(s, run);
      var p, q := s'.conns[i], s'.conns[j];
      if p.phase.Inside? && q.phase.Inside? && p.txn.num == 0 && q.txn.num == 0 {
        HoldersExclude(s', i, j);
      }
    }
  }

  // ---------------------------------------------------------------- runs without explicit transactions

  ghost predicate Plain(run: seq<Event>) {
    forall k :: 0 <= k < |run| ==> !run[k].Transact?
  }

  ghost predicate NoTransaction(s: System) {
    forall i :: 0 <= i < |s.conns| ==> s.conns[i].txn.num == 0
  }

  ghost predicate Outside(s: System) {
    forall i :: 0 <= i < |s.conns| ==> s.conns[i].phase.Idle?
  }

  lemma {:induction false} PlainRun(s: System, run: seq<Event>)
    requires NoTransaction(s) && Possible(s, run) && Plain(run)
    ensures NoTransaction(After(s, run)) && Extra(s, run) == 0
    decreases |run|
  {
    if run != [] {
      PlainRun(Next(s, run[0]), run[1..]);
    }
  }

  /** Over every interleaving of steps outside transactions, at most one connection is inside the engine under the
      semaphore, and under the read-write lock a writer is inside alone; none calls the engine more than ten times. */
  lemma {:induction false} Exclusion(s: System, run: seq<Event>, i: nat, j: nat)
    requires Start(s) && Possible(s, run) && Plain(run) && i < |After(s, run).conns| && j < |After(s, run).conns|
    requires i != j
    ensures var s' := After(s, run); var p, q := s'.conns[i].phase, s'.conns[j].phase;
            && (p.Inside? && q.Inside? ==> s'.lock.RwLock? && p.flag.Read? && q.flag.Read?)
            && (p.Inside? ==> p.calls <= 10)
  {
    PlainRun(s, run);
    TogetherOnly(s, run, i, j);
  }

  /** With everyone outside again and nothing released on a transaction path, the lock is what it was at the start:
      no step keeps what it took, and none releases it twice. */
  lemma {:induction false} NothingKept(s: System, run: seq<Event>)
    requires Start(s) && Possible(s, run) && Extra(s, run) == 0 && Outside(After(s, run))
    ensures After(s, run).lock == s.lock
  {
    StartMarked(s);
    RunAccounted(s, run);
    Balance(s, run);
    NoHolders(After(s, run).conns, Read);
    NoHolders(After(s, run).conns, Write);
  }

  /** No deadlock: whoever is inside can go on, and when no one is, anyone can enter. */
  lemma {:induction false} Progress(s: System, run: seq<Event>, i: nat, flag: Flag)
    requires Start(s) && Possible(s, run) && Extra(s, run) == 0 && i < |After(s, run).conns|
    ensures var s' := After(s, run);
            && (s'.conns[i].phase.Inside? ==> Enabled(s', Call(i, false)) || Enabled(s', Leave(i)))
            && (Outside(s') ==> Enabled(s', Enter(i, flag)))
  {
    if Outside(After(s, run)) {
      NothingKept(s, run);
    }
  }

  // ---------------------------------------------------------------- when two get in together

  lemma BothEnter(s: System, i: nat, j: nat, f: Flag, g: Flag)
    requires i < |s.conns| && j < |s.conns| && i != j && s.conns[i].phase.Idle? && s.conns[j].phase.Idle?
    ensures var s' := if Enabled(s, Enter(i, f)) then Next(s, Enter(i, f)) else s;
            Possible(s, [Enter(i, f), Enter(j, g)]) <==> Enabled(s, Enter(i, f)) && Enabled(s', Enter(j, g))
  {
    var both := [Enter(i, f), Enter(j, g)];
    assert both[1..] == [Enter(j, g)] && both[1..][1..] == [];
    if Enabled(s, both[0]) {
      assert Possible(Next(s, both[0]), both[1..]) <==> Enabled(Next(s, both[0]), Enter(j, g));
    }
  }

  /** With everyone outside, two connections can get inside together under the semaphore if and only if one of
      them has an open transaction or some transaction path released the semaphore on the way. */
  lemma {:induction false} SharedExactly(s: System, run: seq<Event>, i: nat, j: nat, f: Flag, g: Flag)
    requires Start(s) && s.lock == Semaphore(1) && Possible(s, run) && Outside(After(s, run))
    requires i < |After(s, run).conns| && j < |After(s, run).conns| && i != j
    ensures Possible(After(s, run), [Enter(i, f), Enter(j, g)]) <==>
            || Extra(s, run) > 0
            || After(s, run).conns[i].txn.num != 0 || After(s, run).conns[j].txn.num != 0
  {
    hide Possible;
    var s' := After(s, run);
    StartMarked(s);
    Balance(s, run);
    NoHolders(s'.conns, Read);
    NoHolders(s'.conns, Write);
    BothEnter(s', i, j, f, g);
  }

  /** Under the read-write lock, as long as no transaction path released it: if and only if both read or one of
      them has an open transaction. */
  lemma {:induction false} SharedReadersExactly(s: System, run: seq<Event>, i: nat, j: nat, f: Flag, g: Flag)
    requires Start(s) && s.lock == RwLock(0, false) && Possible(s, run) && Extra(s, run) == 0 && Outside(After(s, run))
    requires i < |After(s, run).conns| && j < |After(s, run).conns| && i != j
    ensures Possible(After(s, run), [Enter(i, f), Enter(j, g)]) <==>
            || (f.Read? && g.Read?)
            || After(s, run).conns[i].txn.num != 0 || After(s, run).conns[j].txn.num != 0
  {
    NothingKept(s, run);
    BothEnter(After(s, run), i, j, f, g);
  }

  ghost function Two(): System {
    System(Semaphore(1), [Conn(Transactions.FRESH, Idle), Conn(Transactions.FRESH, Idle)])
  }

  ghost function Good(i: nat, kind: Transactions.Kind): Event {
    Transact(i, Transactions.Call(kind, Transactions.Outcome(true, true, true)))
  }

  /** Two events in a row. */
  lemma PairRun(s: System, a: Event, b: Event)
    requires Enabled(s, a) && Enabled(Next(s, a), b)
    ensures Possible(s, [a, b]) && After(s, [a, b]) == Next(Next(s, a), b)
    ensures Extra(s, [a, b]) == (if Releases(s, a) then 1 else 0) + if Releases(Next(s, a), b) then 1 else 0
  {
    var run := [a, b];
    assert run[1..] == [b] && [b][1..] == [];
    var s1 := Next(s, a);
    assert Possible(Next(s1, b), []) && Extra(Next(s1, b), []) == 0;
    assert Possible(s1, [b]) && After(s1, [b]) == Next(s1, b) && Extra(s1, [b]) == if Releases(s1, b) then 1 else 0;
  }

  /** A begin and a commit or rollback leave the semaphore at 2. */
  lemma SharedExample(end: Transactions.Kind)
    requires !end.Begin?
    ensures var run := [Good(0, Transactions.Begin), Good(0, end)];
            Start(Two()) && Possible(Two(), run) && Extra(Two(), run) == 1 && After(Two(), run).lock == Semaphore(2)
  {
    PairRun(Two(), Good(0, Transactions.Begin), Good(0, end));
  }

  /** A begin alone lets two inside, although nothing was released. */
  lemma OpenExample()
    ensures var run := [Good(0, Transactions.Begin), Enter(0, Write), Enter(1, Write)];
            && Start(Two()) && Possible(Two(), run) && Extra(Two(), run) == 0
            && After(Two(), run).conns[0].phase.Inside? && After(Two(), run).conns[1].phase.Inside?
  {
    var run := [Good(0, Transactions.Begin), Enter(0, Write), Enter(1, Write)];
    assert run[1..] == [Enter(0, Write), Enter(1, Write)];
    PairRun(Next(Two(), run[0]), Enter(0, Write), Enter(1, Write));
  }
}
