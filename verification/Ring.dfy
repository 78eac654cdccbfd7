/** The circular doubly linked lists of quicklist.h and sorm.h.  A list is a ring through a
    head that carries no data; the ghost sequence is what it reads as, from head to head. */
module Rings {
  import opened Common

  class Node<T> {
    var next: Node?<T>
    var prev: Node?<T>
    var data: T

    constructor (data: T)
      ensures this.data == data
    {
      this.data := data;
      next, prev := null, null;
    }
  }

  /** The node at place `i` of the ring; the head is at place 0 and again at the end. */
  ghost function At<T>(head: Node<T>, s: seq<Node<T>>, i: nat): Node<T> {
    if 1 <= i <= |s| then s[i - 1] else head
  }

  /** next runs once through `s` and back, prev inverts it. */
  ghost predicate Ring<T>(head: Node<T>, s: seq<Node<T>>)
    reads head`next, head`prev, s`next, s`prev
  {
    && Distinct(s) && head !in s
    && head.next == (if s == [] then head else s[0])
    && head.prev == (if s == [] then head else s[|s| - 1])
    && (forall k {:trigger s[k].next} :: 0 <= k < |s| ==> s[k].next == if k + 1 < |s| then s[k + 1] else head)
    && (forall k {:trigger s[k].prev} :: 0 <= k < |s| ==> s[k].prev == if k == 0 then head else s[k - 1])
  }

  /** In a ring next and prev invert each other all around, and next runs through the sequence and back. */
  lemma RingLinks<T>(head: Node<T>, s: seq<Node<T>>)
    requires Ring(head, s)
    ensures s == [] ==> head.next == head == head.prev
    ensures s != [] ==> head.next == s[0] && s[0].prev == head && head.prev == s[|s| - 1] && s[|s| - 1].next == head
    ensures forall k :: 0 <= k < |s| - 1 ==> s[k].next == s[k + 1] && s[k + 1].prev == s[k]
    ensures head !in s && forall i, j :: 0 <= i < j < |s| ==> s[i] != s[j]
  {
  }

  /** INIT_QLIST_HEAD, INIT_LIST_HEAD */
  method Init<T>(head: Node<T>)
    modifies head`next, head`prev
    ensures Ring(head, [])
  {
    head.next := head;
    head.prev := head;
  }

  lemma InsertedAt<T>(s: seq<T>, k: nat, x: T)
    requires Distinct(s) && x !in s && k <= |s|
    ensures var s' := s[..k] + [x] + s[k..];
            && Distinct(s') && |s'| == |s| + 1
            && forall j :: 0 <= j < |s'| ==> s'[j] == if j < k then s[j] else if j == k then x else s[j - 1]
  {
  }

  lemma RemovedAt<T>(s: seq<T>, k: nat)
    requires Distinct(s) && k < |s|
    ensures var s' := s[..k] + s[k + 1..];
            && Distinct(s') && |s'| == |s| - 1
            && forall j :: 0 <= j < |s'| ==> s'[j] == if j < k then s[j] else s[j + 1]
  {
  }

  /** __qlist_add: `node` goes between two neighbours. */
  method LinkBetween<T>(node: Node<T>, prev: Node<T>, next: Node<T>, ghost head: Node<T>, ghost s: seq<Node<T>>,
                        ghost k: nat)
    requires Ring(head, s) && node != head && node !in s
    requires k <= |s| && prev == At(head, s, k) && next == At(head, s, k + 1)
    modifies node`next, node`prev, prev`next, next`prev
    ensures Ring(head, s[..k] + [node] + s[k..])
  {
    InsertedAt(s, k, node);
    next.prev := node;
    node.next := next;
    node.prev := prev;
    prev.next := node;
  }

  /** _list_add of sorm.h: the same by another order of assignments. */
  method ListLinkBetween<T>(node: Node<T>, prev: Node<T>, next: Node<T>, ghost head: Node<T>, ghost s: seq<Node<T>>,
                            ghost k: nat)
    requires Ring(head, s) && node != head && node !in s
    requires k <= |s| && prev == At(head, s, k) && next == At(head, s, k + 1)
    modifies node`next, node`prev, prev`next, next`prev
    ensures Ring(head, s[..k] + [node] + s[k..])
  {
    InsertedAt(s, k, node);
    node.next := prev.next;
    prev.next := node;
    node.prev := next.prev;
    next.prev := node;
  }

  method AddHead<T>(node: Node<T>, head: Node<T>, ghost s: seq<Node<T>>)
    requires Ring(head, s) && node != head && node !in s
    modifies node`next, node`prev, head`next, head`prev, s`prev
    ensures Ring(head, [node] + s)
  {
    LinkBetween(node, head, head.next, head, s, 0);
    assert s[..0] + [node] + s[0..] == [node] + s;
  }

  method AddTail<T>(node: Node<T>, head: Node<T>, ghost s: seq<Node<T>>)
    requires Ring(head, s) && node != head && node !in s
    modifies node`next, node`prev, head`next, head`prev, s`next
    ensures Ring(head, s + [node])
  {
    LinkBetween(node, head.prev, head, head, s, |s|);
    assert s[..|s|] + [node] + s[|s|..] == s + [node];
  }

  method ListAddTail<T>(node: Node<T>, head: Node<T>, ghost s: seq<Node<T>>)
    requires Ring(head, s) && node != head && node !in s
    modifies node`next, node`prev, head`next, head`prev, s`next
    ensures Ring(head, s + [node])
  {
    ListLinkBetween(node, head.prev, head, head, s, |s|);
    assert s[..|s|] + [node] + s[|s|..] == s + [node];
  }

  method ListAddHead<T>(node: Node<T>, head: Node<T>, ghost s: seq<Node<T>>)
    requires Ring(head, s) && node != head && node !in s
    modifies node`next, node`prev, head`next, head`prev, s`prev
    ensures Ring(head, [node] + s)
  {
    ListLinkBetween(node, head, head.next, head, s, 0);
    assert s[..0] + [node] + s[0..] == [node] + s;
  }

  /** qlist_del: the entry keeps its own links. */
  method Delete<T>(entry: Node<T>, ghost head: Node<T>, ghost s: seq<Node<T>>, ghost k: nat)
    requires Ring(head, s) && k < |s| && s[k] == entry
    modifies head`next, head`prev, s`next, s`prev
    ensures Ring(head, s[..k] + s[k + 1..])
    ensures entry.next == old(entry.next) && entry.prev == old(entry.prev)
  {
    RemovedAt(s, k);
    entry.next.prev := entry.prev;
    entry.prev.next := entry.next;
  }

  method DeleteInit<T>(entry: Node<T>, ghost head: Node<T>, ghost s: seq<Node<T>>, ghost k: nat)
    requires Ring(head, s) && k < |s| && s[k] == entry
    modifies head`next, head`prev, s`next, s`prev
    ensures Ring(head, s[..k] + s[k + 1..]) && Ring(entry, [])
  {
    Delete(entry, head, s, k);
    Init(entry);
  }

  method IsEmpty<T>(head: Node<T>, ghost s: seq<Node<T>>) returns (empty: bool)
    requires Ring(head, s)
    ensures empty <==> s == []
  {
    empty := head.next == head;
  }

  method Pop<T>(head: Node<T>, ghost s: seq<Node<T>>) returns (item: Node?<T>)
    requires Ring(head, s)
    modifies head`next, head`prev, s`next, s`prev
    ensures item == if s == [] then null else s[0]
    ensures Ring(head, if s == [] then [] else s[1..])
  {
    item := null;
    var empty := IsEmpty(head, s);
    if !empty {
      item := head.next;
      Delete(item, head, s, 0);
      assert s[..0] + s[1..] == s[1..];
    }
  }

  /** qlist_splice: the nodes of one list go to the front of another. */
  method Splice<T>(list: Node<T>, head: Node<T>, ghost a: seq<Node<T>>, ghost s: seq<Node<T>>)
    requires Ring(list, a) && Ring(head, s)
    requires list != head && list !in s && head !in a
    requires forall i, j :: 0 <= i < |a| && 0 <= j < |s| ==> a[i] != s[j]
    modifies head`next, head`prev, a`next, a`prev, s`prev
    ensures Ring(head, a + s)
  {
    var first := list.next;
    if first != list {
      var last := list.prev;
      var at := head.next;
      first.prev := head;
      head.next := first;
      last.next := at;
      at.prev := last;
    } else {
      assert a + s == s;
    }
  }

  // ---------------------------------------------------------------- reading

  method Exists<T>(list: Node<T>, qlink: Node<T>, ghost s: seq<Node<T>>) returns (found: bool)
    requires Ring(list, s)
    ensures found <==> qlink in s
  {
    var empty := IsEmpty(list, s);
    if empty {
      return false;
    }
    var pos := list.next;
    ghost var k := 0;
    while pos != list
      invariant k <= |s| && pos == At(list, s, k + 1) && qlink !in s[..k]
      decreases |s| - k
    {
      if pos == qlink {
        return true;
      }
      pos := pos.next;
      k := k + 1;
    }
    return false;
  }

  method Count<T>(list: Node<T>, ghost s: seq<Node<T>>) returns (count: nat)
    requires Ring(list, s)
    ensures count == |s|
  {
    count := 0;
    var pos := list.next;
    while pos != list
      invariant count <= |s| && pos == At(list, s, count + 1)
      decreases |s| - count
    {
      count := count + 1;
      pos := pos.next;
    }
  }

  /** The first node the comparison accepts. */
  method Find<T>(list: Node<T>, compare: T -> bool, ghost s: seq<Node<T>>) returns (found: Node?<T>, ghost k: nat)
    requires Ring(list, s)
    ensures k <= |s| && (forall i :: 0 <= i < k ==> !compare(s[i].data))
    ensures found == if k < |s| then s[k] else null
    ensures found != null ==> compare(found.data)
  {
    var pos := list.next;
    k := 0;
    while pos != list
      invariant k <= |s| && pos == At(list, s, k + 1) && forall i :: 0 <= i < k ==> !compare(s[i].data)
      decreases |s| - k
    {
      if compare(pos.data) {
        return pos, k;
      }
      pos := pos.next;
      k := k + 1;
    }
    return null, k;
  }

  // ---------------------------------------------------------------- whole runs

  datatype Command<T> = PushHead(x: T) | PushTail(x: T) | PopHead | Remove(k: nat) | SpliceIn(xs: seq<T>)

  /** The same on a plain sequence; removing at a place that is not there does nothing. */
  ghost function Step<T>(v: seq<T>, c: Command<T>): seq<T> {
    match c
    case PushHead(x) => [x] + v
    case PushTail(x) => v + [x]
    case PopHead => if v == [] then [] else v[1..]
    case Remove(k) => if k < |v| then v[..k] + v[k + 1..] else v
    case SpliceIn(xs) => xs + v
  }

  /** What each command does, place by place. */
  lemma StepMeaning<T>(v: seq<T>, c: Command<T>)
    ensures c.PushHead? ==> |Step(v, c)| == |v| + 1 && Step(v, c)[0] == c.x && Step(v, c)[1..] == v
    ensures c.PushTail? ==> |Step(v, c)| == |v| + 1 && Step(v, c)[|v|] == c.x && Step(v, c)[..|v|] == v
    ensures c.PopHead? ==> if v == [] then Step(v, c) == [] else [v[0]] + Step(v, c) == v
    ensures c.Remove? && c.k < |v| ==>
              && |Step(v, c)| == |v| - 1
              && forall i :: 0 <= i < |Step(v, c)| ==> Step(v, c)[i] == if i < c.k then v[i] else v[i + 1]
    ensures c.Remove? && c.k >= |v| ==> Step(v, c) == v
    ensures c.SpliceIn? ==>
              |Step(v, c)| == |c.xs| + |v| && Step(v, c)[..|c.xs|] == c.xs && Step(v, c)[|c.xs|..] == v
    ensures Popped(v, c) == if c.PopHead? && v != [] then [v[0]] else []
  {
  }

  ghost function Steps<T>(v: seq<T>, cs: seq<Command<T>>): seq<T>
    decreases |cs|
  {
    if cs == [] then v else Steps(Step(v, cs[0]), cs[1..])
  }

  /** The values popped on the way. */
  ghost function Popped<T>(v: seq<T>, c: Command<T>): seq<T> {
    if c.PopHead? && v != [] then [v[0]] else []
  }

  ghost function AllPopped<T>(v: seq<T>, cs: seq<Command<T>>): seq<T>
    decreases |cs|
  {
    if cs == [] then [] else Popped(v, cs[0]) + AllPopped(Step(v, cs[0]), cs[1..])
  }

  /** The list reads as `v`. */
  ghost predicate Reads<T>(head: Node<T>, s: seq<Node<T>>, v: seq<T>)
    reads head`next, head`prev, s
  {
    Ring(head, s) && |s| == |v| && forall i :: 0 <= i < |s| ==> s[i].data == v[i]
  }

  /** A new list of the given values. */
  method Build<T>(xs: seq<T>, filler: T) returns (list: Node<T>, ghost a: seq<Node<T>>)
    ensures fresh(list) && fresh(a) && Reads(list, a, xs)
  {
    hide Ring;
    list := new Node(filler);
    Init(list);
    a := [];
    for i := 0 to |xs|
      invariant fresh(list) && fresh(a) && Reads(list, a, xs[..i])
    {
      var node := new Node(xs[i]);
      AddTail(node, list, a);
      a := a + [node];
    }
    assert xs[..|xs|] == xs;
  }

  /** The node at place `k`, or the head. */
  method Nth<T>(head: Node<T>, k: nat, ghost s: seq<Node<T>>) returns (node: Node<T>)
    requires Ring(head, s)
    ensures if k < |s| then node == s[k] != head else node == head
  {
    node := head.next;
    var i := 0;
    while i < k && node != head
      invariant i <= |s| && i <= k && node == At(head, s, i + 1)
    {
      node := node.next;
      i := i + 1;
    }
  }

  ghost predicate Within<T>(s: seq<Node<T>>, nodes: set<Node<T>>) {
    forall i :: 0 <= i < |s| ==> s[i] in nodes
  }

  method ExecutePushHead<T>(head: Node<T>, x: T, ghost s: seq<Node<T>>, ghost v: seq<T>, ghost nodes: set<Node<T>>)
    returns (ghost s': seq<Node<T>>, ghost nodes': set<Node<T>>)
    requires Reads(head, s, v) && Within(s, nodes)
    modifies head`next, head`prev, nodes`next, nodes`prev
    ensures Reads(head, s', [x] + v) && Within(s', nodes')
    ensures nodes <= nodes' && fresh(nodes' - nodes)
  {
    hide Ring;
    var node := new Node(x);
    AddHead(node, head, s);
    s', nodes' := [node] + s, nodes + {node};
  }

  method ExecutePushTail<T>(head: Node<T>, x: T, ghost s: seq<Node<T>>, ghost v: seq<T>, ghost nodes: set<Node<T>>)
    returns (ghost s': seq<Node<T>>, ghost nodes': set<Node<T>>)
    requires Reads(head, s, v) && Within(s, nodes)
    modifies head`next, head`prev, nodes`next, nodes`prev
    ensures Reads(head, s', v + [x]) && Within(s', nodes')
    ensures nodes <= nodes' && fresh(nodes' - nodes)
  {
    hide Ring;
    var node := new Node(x);
    AddTail(node, head, s);
    s', nodes' := s + [node], nodes + {node};
  }

  method ExecutePop<T>(head: Node<T>, ghost s: seq<Node<T>>, ghost v: seq<T>, ghost nodes: set<Node<T>>)
    returns (popped: seq<T>, ghost s': seq<Node<T>>)
    requires Reads(head, s, v) && Within(s, nodes)
    modifies head`next, head`prev, nodes`next, nodes`prev
    ensures Reads(head, s', Step(v, PopHead)) && Within(s', nodes)
    ensures popped == Popped(v, PopHead)
  {
    hide Ring;
    var item := Pop(head, s);
    popped := if item == null then [] else [item.data];
    s' := if s == [] then [] else s[1..];
  }

  method Execute<T>(head: Node<T>, c: Command<T>, ghost s: seq<Node<T>>, ghost v: seq<T>, ghost nodes: set<Node<T>>)
    returns (popped: seq<T>, ghost s': seq<Node<T>>, ghost nodes': set<Node<T>>)
    requires Reads(head, s, v) && Within(s, nodes)
    modifies head`next, head`prev, nodes`next, nodes`prev
    ensures Reads(head, s', Step(v, c)) && Within(s', nodes') && popped == Popped(v, c)
    ensures nodes <= nodes' && fresh(nodes' - nodes)
  {
    hide Reads, Within;
    popped, nodes' := [], nodes;
    match c {
      case PushHead(x) =>
        s', nodes' := ExecutePushHead(head, x, s, v, nodes);
      case PushTail(x) =>
        s', nodes' := ExecutePushTail(head, x, s, v, nodes);
      case PopHead =>
        popped, s' := ExecutePop(head, s, v, nodes);
      case Remove(k) =>
        s' := ExecuteRemove(head, k, s, v, nodes);
      case SpliceIn(xs) =>
        s', nodes' := ExecuteSplice(head, xs, s, v, nodes);
    }
  }

  method ExecuteRemove<T>(head: Node<T>, k: nat, ghost s: seq<Node<T>>, ghost v: seq<T>, ghost nodes: set<Node<T>>)
    returns (ghost s': seq<Node<T>>)
    requires Reads(head, s, v) && Within(s, nodes)
    modifies head`next, head`prev, nodes`next, nodes`prev
    ensures Reads(head, s', Step(v, Remove(k))) && Within(s', nodes)
  {
    hide Ring;
    var node := Nth(head, k, s);
    s' := s;
    if node != head {
      Delete(node, head, s, k);
      s' := s[..k] + s[k + 1..];
    }
  }

  method ExecuteSplice<T>(head: Node<T>, xs: seq<T>, ghost s: seq<Node<T>>, ghost v: seq<T>, ghost nodes: set<Node<T>>)
    returns (ghost s': seq<Node<T>>, ghost nodes': set<Node<T>>)
    requires Reads(head, s, v) && Within(s, nodes)
    modifies head`next, head`prev, nodes`next, nodes`prev
    ensures Reads(head, s', xs + v) && Within(s', nodes')
    ensures nodes <= nodes' && fresh(nodes' - nodes)
  {
    hide Ring;
    ghost var a;
    var list;
    list, a := Build(xs, head.data);
    Splice(list, head, a, s);
    s', nodes' := a + s, nodes + set n | n in a;
  }

  /** Any run of the list operations leaves a ring that reads as the run on a plain sequence, and pops the same. */
  method Run<T>(head: Node<T>, cs: seq<Command<T>>, ghost s: seq<Node<T>>, ghost v: seq<T>, ghost nodes: set<Node<T>>)
    returns (popped: seq<T>, ghost s': seq<Node<T>>)
    requires Reads(head, s, v) && Within(s, nodes)
    modifies head`next, head`prev, nodes`next, nodes`prev
    ensures Reads(head, s', Steps(v, cs)) && popped == AllPopped(v, cs)
    decreases |cs|
  {
    hide Reads, Within, Step, Popped;
    if cs == [] {
      return [], s;
    }
    ghost var nodes';
    var first, rest;
    first, s', nodes' := Execute(head, cs[0], s, v, nodes);
    rest, s' := Run(head, cs[1..], s', Step(v, cs[0]), nodes');
    popped := first + rest;
  }
}
