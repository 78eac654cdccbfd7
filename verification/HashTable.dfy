/** The chained hash table of zc_hashtable.c.  Buckets are doubly linked chains of
    entries that carry their hash; the table doubles when an insertion finds it
    overloaded; a cursor walks it from the stored hash of the entry it stands on.

    The abstract value of a table is the finite map `contents`.  The ghost value
    `chains` names the entries of each bucket in link order. */
module HashTables {
  import opened Common

  type uint32 = n: nat | n < 0x1_0000_0000

  class Entry<K, V> {
    const hashKey: uint32
    const key: K    // put replaces the pointer by one to an equal key: as a value it never changes
    var value: V
    var prev: Entry?<K, V>
    var next: Entry?<K, V>

    constructor (hashKey: uint32, key: K, value: V)
      ensures this.hashKey == hashKey && this.key == key && this.value == value
      ensures prev == null && next == null
    {
      this.hashKey, this.key, this.value := hashKey, key, value;
      prev, next := null, null;
    }
  }

  // ---------------------------------------------------------------- the buckets

  /** `c` is the chain hanging off `head`: next follows the sequence, prev inverts next. */
  ghost predicate Linked<K, V>(head: Entry?<K, V>, c: seq<Entry<K, V>>)
    reads c`next, c`prev
  {
    && head == (if |c| == 0 then null else c[0])
    && (forall k {:trigger c[k].next} :: 0 <= k < |c| ==> c[k].next == if k + 1 < |c| then c[k + 1] else null)
    && (forall k {:trigger c[k].prev} :: 0 <= k < |c| ==> c[k].prev == if k == 0 then null else c[k - 1])
  }

  /** The entries of a bucket array: `chains[b]` holds, without repetition, those whose
      stored hash selects bucket `b`, and `entries` is the set of them all. */
  ghost predicate Bucketed<K, V>(chains: seq<seq<Entry<K, V>>>, entries: set<Entry<K, V>>) {
    && |chains| > 0
    && (forall b :: 0 <= b < |chains| ==> Distinct(chains[b]))
    && (forall b, k :: 0 <= b < |chains| && 0 <= k < |chains[b]| ==>
          chains[b][k] in entries && chains[b][k].hashKey % |chains| == b)
    && (forall e {:trigger InBucket(chains, e)} | e in entries :: InBucket(chains, e))
  }

  ghost predicate InBucket<K, V>(chains: seq<seq<Entry<K, V>>>, e: Entry<K, V>)
    requires |chains| > 0
  {
    exists k :: 0 <= k < |chains[e.hashKey % |chains|]| && chains[e.hashKey % |chains|][k] == e
  }

  /** The chains of a whole bucket array. */
  ghost predicate Buckets<K, V>(tab: array<Entry?<K, V>>, chains: seq<seq<Entry<K, V>>>, entries: set<Entry<K, V>>)
    reads tab, entries`next, entries`prev
  {
    && tab.Length == |chains|
    && Bucketed(chains, entries)
    && forall b :: 0 <= b < |chains| ==> Linked(tab[b], chains[b])
  }

  lemma PushedBucketed<K, V>(chains: seq<seq<Entry<K, V>>>, entries: set<Entry<K, V>>, j: nat, p: Entry<K, V>)
    requires Bucketed(chains, entries) && p !in entries
    requires j < |chains| && p.hashKey % |chains| == j
    ensures Bucketed(chains[j := [p] + chains[j]], entries + {p})
  {
    var after := chains[j := [p] + chains[j]];
    assert after[j][0] == p;
    forall e | e in entries
      ensures InBucket(after, e)
    {
      var b := e.hashKey % |chains|;
      assert InBucket(chains, e);
      var k :| 0 <= k < |chains[b]| && chains[b][k] == e;
      assert e == if b == j then after[b][k + 1] else after[b][k];
    }
  }

  /** Links `p` in front of bucket `j`. */
  method PushFront<K, V>(tab: array<Entry?<K, V>>, j: nat, p: Entry<K, V>,
                         ghost chains: seq<seq<Entry<K, V>>>, ghost entries: set<Entry<K, V>>)
    returns (ghost after: seq<seq<Entry<K, V>>>)
    requires Buckets(tab, chains, entries) && p !in entries
    requires j < tab.Length && p.hashKey % tab.Length == j
    requires p.prev == null && p.next == null
    modifies tab, p`next, entries`prev
    ensures Buckets(tab, after, entries + {p})
  {
    ghost var c := chains[j];
    if tab[j] != null {
      tab[j].prev := p;
      p.next := tab[j];
    }
    tab[j] := p;
    after := chains[j := [p] + c];
    assert Linked(tab[j], [p] + c);
    PushedBucketed(chains, entries, j, p);
  }

  method LinkNew<K, V>(tab: array<Entry?<K, V>>, hashKey: uint32, key: K, value: V,
                       ghost chains: seq<seq<Entry<K, V>>>, ghost entries: set<Entry<K, V>>)
    returns (ghost after: seq<seq<Entry<K, V>>>, ghost p: Entry<K, V>)
    requires Buckets(tab, chains, entries)
    modifies tab, entries`prev
    ensures Buckets(tab, after, entries + {p})
    ensures fresh(p) && p.hashKey == hashKey && p.key == key && p.value == value
  {
    var e := new Entry(hashKey, key, value);
    p := e;
    after := PushFront(tab, e.hashKey % tab.Length, e, chains, entries);
  }

  lemma UnlinkedBucketed<K, V>(chains: seq<seq<Entry<K, V>>>, entries: set<Entry<K, V>>, j: nat, k: nat)
    requires Bucketed(chains, entries)
    requires j < |chains| && k < |chains[j]|
    ensures Bucketed(chains[j := chains[j][..k] + chains[j][k + 1..]], entries - {chains[j][k]})
  {
    var c := chains[j];
    var after := chains[j := c[..k] + c[k + 1..]];
    forall e | e in entries && e != c[k]
      ensures InBucket(after, e)
    {
      var b := e.hashKey % |chains|;
      assert InBucket(chains, e);
      var i :| 0 <= i < |chains[b]| && chains[b][i] == e;
      assert e == if b == j && i > k then after[b][i - 1] else after[b][i];
    }
  }

  /** Takes `p` out of its chain by its own links; the bucket is named only when `p` is first. */
  method Unlink<K, V>(tab: array<Entry?<K, V>>, p: Entry<K, V>,
                      ghost chains: seq<seq<Entry<K, V>>>, ghost entries: set<Entry<K, V>>, ghost k: nat)
    returns (ghost after: seq<seq<Entry<K, V>>>)
    requires Buckets(tab, chains, entries)
    requires p in entries && k < |chains[p.hashKey % tab.Length]| && chains[p.hashKey % tab.Length][k] == p
    modifies tab, entries`next, entries`prev
    ensures Buckets(tab, after, entries - {p})
  {
    ghost var j := p.hashKey % tab.Length;
    ghost var c := chains[j];
    assert Linked(tab[j], c);
    if p.next != null {
      p.next.prev := p.prev;
    }
    if p.prev != null {
      p.prev.next := p.next;
    } else {
      var i := p.hashKey % tab.Length;
      tab[i] := p.next;
    }
    after := chains[j := c[..k] + c[k + 1..]];
    UnlinkedBucketed(chains, entries, j, k);
    assert Linked(tab[j], c[..k] + c[k + 1..]);
  }

  /** The state of a rehash that has moved all buckets below `i` and the first `k`
      entries of bucket `i`: the moved entries form the new buckets, the others still
      have their old next links. */
  ghost predicate Moving<K, V>(tab': array<Entry?<K, V>>, chains': seq<seq<Entry<K, V>>>, moved: set<Entry<K, V>>,
                               chains: seq<seq<Entry<K, V>>>, entries: set<Entry<K, V>>, i: int, k: int)
    requires Bucketed(chains, entries)
    reads tab', moved`next, moved`prev, entries`next
  {
    && Buckets(tab', chains', moved)
    && moved <= entries
    && (forall b, m :: 0 <= b < |chains| && 0 <= m < |chains[b]| ==>
          (chains[b][m] in moved <==> b < i || (b == i && m < k)))
    && (forall b, m :: 0 <= b < |chains| && 0 <= m < |chains[b]| && chains[b][m] !in moved ==>
          chains[b][m].next == if m + 1 < |chains[b]| then chains[b][m + 1] else null)
  }

  method MoveOne<K, V>(tab': array<Entry?<K, V>>, p: Entry<K, V>,
                       ghost before: seq<seq<Entry<K, V>>>, ghost moved: set<Entry<K, V>>,
                       ghost chains: seq<seq<Entry<K, V>>>, ghost entries: set<Entry<K, V>>, ghost i: nat, ghost k: nat)
    returns (q: Entry?<K, V>, ghost after: seq<seq<Entry<K, V>>>)
    requires Bucketed(chains, entries) && Moving(tab', before, moved, chains, entries, i, k)
    requires i < |chains| && k < |chains[i]| && p == chains[i][k]
    modifies tab', p`next, p`prev, moved`prev
    ensures Moving(tab', after, moved + {p}, chains, entries, i, k + 1)
    ensures q == if k + 1 < |chains[i]| then chains[i][k + 1] else null
  {
    q := p.next;
    p.next := null;
    p.prev := null;
    var j := p.hashKey % tab'.Length;
    after := PushFront(tab', j, p, before, moved);
  }

  /** Moves every entry of a bucket array to one twice as long, front first. */
  method Rehash<K, V>(tab: array<Entry?<K, V>>, ghost chains: seq<seq<Entry<K, V>>>, ghost entries: set<Entry<K, V>>)
    returns (tab': array<Entry?<K, V>>, ghost chains': seq<seq<Entry<K, V>>>)
    requires Buckets(tab, chains, entries)
    modifies entries`next, entries`prev
    ensures fresh(tab') && tab'.Length == 2 * tab.Length
    ensures Buckets(tab', chains', entries)
  {
    tab' := new Entry?<K, V>[2 * tab.Length](_ => null);
    chains' := seq(2 * tab.Length, _ => []);
    ghost var moved: set<Entry<K, V>> := {};
    for i := 0 to tab.Length
      invariant Moving(tab', chains', moved, chains, entries, i, 0)
      invariant fresh(tab') && tab'.Length == 2 * tab.Length
    {
      var p := tab[i];
      ghost var k := 0;
      while p != null
        invariant k <= |chains[i]| && p == (if k < |chains[i]| then chains[i][k] else null)
        invariant Moving(tab', chains', moved, chains, entries, i, k)
        invariant fresh(tab') && tab'.Length == 2 * tab.Length
        decreases |chains[i]| - k
      {
        ghost var e := p;
        p, chains' := MoveOne(tab', p, chains', moved, chains, entries, i, k);
        k, moved := k + 1, moved + {e};
      }
    }
    assert moved == entries by {
      assert forall e | e in entries :: InBucket(chains, e);
    }
  }

  // ---------------------------------------------------------------- the walk

  /** The entries of the first `b` buckets, in the order begin/next visits them. */
  ghost function FlatTo<T>(chains: seq<seq<T>>, b: nat): seq<T>
    requires b <= |chains|
  {
    if b == 0 then [] else FlatTo(chains, b - 1) + chains[b - 1]
  }

  ghost function Flat<T>(chains: seq<seq<T>>): seq<T> {
    FlatTo(chains, |chains|)
  }

  lemma {:induction false} FlatPrefix<T>(chains: seq<seq<T>>, b: nat, b': nat)
    requires b <= b' <= |chains|
    ensures FlatTo(chains, b) <= FlatTo(chains, b')
  {
    if b < b' {
      FlatPrefix(chains, b, b' - 1);
    }
  }

  lemma FlatAt<T>(chains: seq<seq<T>>, b: nat, k: nat)
    requires b < |chains| && k < |chains[b]|
    ensures |FlatTo(chains, b)| + k < |Flat(chains)|
    ensures Flat(chains)[|FlatTo(chains, b)| + k] == chains[b][k]
  {
    FlatPrefix(chains, b + 1, |chains|);
    assert FlatTo(chains, b + 1)[|FlatTo(chains, b)| + k] == chains[b][k];
  }

  lemma {:induction false} Locate<T>(chains: seq<seq<T>>, to: nat, pos: nat) returns (b: nat, k: nat)
    requires to <= |chains| && pos < |FlatTo(chains, to)|
    ensures b < to && k < |chains[b]| && pos == |FlatTo(chains, b)| + k
    ensures FlatTo(chains, to)[pos] == chains[b][k]
  {
    if pos < |FlatTo(chains, to - 1)| {
      b, k := Locate(chains, to - 1, pos);
    } else {
      b, k := to - 1, pos - |FlatTo(chains, to - 1)|;
    }
  }

  /** A walk in `Flat` order meets every entry once and nothing else. */
  lemma FlatVisitsOnce<K, V>(chains: seq<seq<Entry<K, V>>>, entries: set<Entry<K, V>>)
    requires Bucketed(chains, entries)
    ensures Distinct(Flat(chains))
    ensures forall i :: 0 <= i < |Flat(chains)| ==> Flat(chains)[i] in entries
    ensures forall e | e in entries :: e in Flat(chains)
  {
    forall i, j | 0 <= i < j < |Flat(chains)|
      ensures Flat(chains)[i] != Flat(chains)[j]
    {
      var b, k := Locate(chains, |chains|, i);
      var b', k' := Locate(chains, |chains|, j);
    }
    forall e | e in entries
      ensures e in Flat(chains)
    {
      assert InBucket(chains, e);
      var k :| 0 <= k < |chains[e.hashKey % |chains|]| && chains[e.hashKey % |chains|][k] == e;
      FlatAt(chains, e.hashKey % |chains|, k);
    }
    forall i | 0 <= i < |Flat(chains)|
      ensures Flat(chains)[i] in entries
    {
      var b, k := Locate(chains, |chains|, i);
    }
  }

  // ---------------------------------------------------------------- the table

  /** What a table stands for: its map, the entry that carries each key, and the
      entries of each bucket in link order. */
  datatype Model<K(==), V> =
    Model(contents: map<K, V>, at: map<K, Entry<K, V>>, chains: seq<seq<Entry<K, V>>>, entries: set<Entry<K, V>>)

  /** The entries hold exactly the pairs of `contents`, one entry for each key: the one `at` names. */
  ghost predicate Holds<K, V>(m: Model<K, V>, hash: K -> uint32)
    reads m.entries`value
  {
    && m.at.Keys == m.contents.Keys
    && (forall x | x in m.at ::
          m.at[x] in m.entries && m.at[x].key == x && m.at[x].value == m.contents[x] && m.at[x].hashKey == hash(x))
    && (forall e | e in m.entries :: e.key in m.at && m.at[e.key] == e)
  }

  lemma HoldsExtended<K, V>(m: Model<K, V>, hash: K -> uint32, p: Entry<K, V>, chains: seq<seq<Entry<K, V>>>)
    requires Holds(m, hash) && p !in m.entries && p.key !in m.contents && p.hashKey == hash(p.key)
    ensures Holds(Model(m.contents[p.key := p.value], m.at[p.key := p], chains, m.entries + {p}), hash)
  {
  }

  lemma HoldsReduced<K, V>(m: Model<K, V>, hash: K -> uint32, p: Entry<K, V>, chains: seq<seq<Entry<K, V>>>)
    returns (m': Model<K, V>)
    requires Holds(m, hash) && p in m.entries
    ensures m'.contents == m.contents - {p.key} && m'.entries == m.entries - {p} && m'.chains == chains
    ensures Holds(m', hash) && |m'.contents| == |m.contents| - 1
  {
    m' := Model(m.contents - {p.key}, m.at - {p.key}, chains, m.entries - {p});
    assert m'.contents.Keys == m.contents.Keys - {p.key};
  }

  class HashTable<K(==), V> {
    var nelem: nat
    var tab: array<Entry?<K, V>>
    const hash: K -> uint32

    ghost var m: Model<K, V>

    ghost function Repr(): set<object>
      reads this
    {
      {this, tab} + m.entries
    }

    ghost predicate Valid()
      reads Repr()
    {
      && tab.Length > 0
      && Buckets(tab, m.chains, m.entries)
      && Holds(m, hash)
      && nelem == |m.contents|
      && 10 * nelem <= 13 * tab.Length + 10
    }

    constructor (size: nat, hash: K -> uint32)
      requires size > 0
      ensures Valid() && fresh(Repr())
      ensures m.contents == map[] && this.hash == hash && tab.Length == size
    {
      tab := new Entry?<K, V>[size](_ => null);
      nelem := 0;
      this.hash := hash;
      m := Model(map[], map[], seq(size, _ => []), {});
    }

    method GetEntry(key: K) returns (p: Entry?<K, V>, ghost k: nat)
      requires Valid()
      ensures p == null <==> key !in m.contents
      ensures p != null ==>
                var c := m.chains[hash(key) % tab.Length];
                k < |c| && c[k] == p && p in m.entries && p.key == key && p.hashKey == hash(key)
    {
      var i := hash(key) % tab.Length;
      p, k := tab[i], 0;
      ghost var c := m.chains[i];
      while p != null
        invariant k <= |c| && p == (if k < |c| then c[k] else null)
        invariant forall j :: 0 <= j < k ==> c[j].key != key
        decreases |c| - k
      {
        if p.key == key {
          return;
        }
        p, k := p.next, k + 1;
      }
      assert key in m.at ==> InBucket(m.chains, m.at[key]);
    }

    method Get(key: K) returns (r: Option<V>)
      requires Valid()
      ensures r == if key in m.contents then Some(m.contents[key]) else None
    {
      var p, _ := GetEntry(key);
      r := if p == null then None else Some(p.value);
    }

    method Put(key: K, value: V)
      requires Valid()
      modifies Repr()
      ensures Valid() && (tab == old(tab) || fresh(tab)) && fresh(m.entries - old(m.entries))
      ensures m.contents == old(m.contents)[key := value]
    {
      hide Buckets;
      hide Holds;
      var p, _ := GetEntry(key);
      if p != null {
        Overwrite(p, key, value);
      } else {
        PutNew(key, value);
      }
    }

    method PutNew(key: K, value: V)
      requires Valid() && key !in m.contents
      modifies Repr()
      ensures Valid() && (tab == old(tab) || fresh(tab)) && fresh(m.entries - old(m.entries))
      ensures m.contents == old(m.contents)[key := value]
    {
      hide Buckets;
      hide Holds;
      if 10 * nelem > 13 * tab.Length {
        Grow();
      }
      Insert(key, value);
    }

    method Overwrite(p: Entry<K, V>, key: K, value: V)
      requires Valid() && p in m.entries && p.key == key
      modifies p`value, this`m
      ensures Valid() && m.entries == old(m.entries) && m.contents == old(m.contents)[key := value]
    {
      p.value := value;
      m := m.(contents := m.contents[key := value]);
    }

    method Grow()
      requires Valid()
      modifies this`tab, this`m, m.entries`next, m.entries`prev
      ensures Valid() && m.entries == old(m.entries) && fresh(tab)
      ensures m.contents == old(m.contents) && tab.Length == 2 * old(tab.Length) && nelem == old(nelem)
    {
      hide Buckets;
      var t;
      ghost var c;
      t, c := Rehash(tab, m.chains, m.entries);
      tab := t;
      m := m.(chains := c);
    }

    method Insert(key: K, value: V)
      requires Valid()
      requires key !in m.contents && 10 * nelem <= 13 * tab.Length
      modifies this`nelem, this`m, tab, m.entries`prev
      ensures Valid() && fresh(m.entries - old(m.entries))
      ensures m.contents == old(m.contents)[key := value]
    {
      hide Buckets;
      hide Holds;
      ghost var chains, p := LinkNew(tab, hash(key), key, value, m.chains, m.entries);
      HoldsExtended(m, hash, p, chains);
      m := Model(m.contents[key := value], m.at[key := p], chains, m.entries + {p});
      nelem := nelem + 1;
    }

    /** Removing an absent key only logs an error. */
    method Remove(key: K)
      requires Valid()
      modifies Repr()
      ensures Valid() && tab == old(tab) && m.entries <= old(m.entries)
      ensures m.contents == old(m.contents) - {key}
    {
      hide Buckets;
      hide Holds;
      var p, k := GetEntry(key);
      if p == null {
        return;
      }
      Detach(p, k);
    }

    method Detach(p: Entry<K, V>, ghost k: nat)
      requires Valid() && p in m.entries
      requires p.hashKey == hash(p.key)
      requires k < |m.chains[p.hashKey % tab.Length]| && m.chains[p.hashKey % tab.Length][k] == p
      modifies this`nelem, this`m, tab, m.entries`next, m.entries`prev
      ensures Valid() && m.entries <= old(m.entries) && m.contents == old(m.contents) - {p.key}
    {
      hide Buckets;
      hide Holds;
      ghost var chains := Unlink(tab, p, m.chains, m.entries, k);
      ghost var m' := HoldsReduced(m, hash, p, chains);
      nelem := nelem - 1;
      m := m';
    }

    method Clean()
      requires Valid()
      modifies this`nelem, this`m, tab
      ensures Valid() && m.entries == {} && m.contents == map[]
    {
      for i := 0 to tab.Length
        invariant forall b :: 0 <= b < i ==> tab[b] == null
        modifies tab
      {
        tab[i] := null;
      }
      nelem := 0;
      m := Model(map[], map[], seq(tab.Length, _ => []), {});
    }

    /** The order in which a cursor visits the entries. */
    ghost function Walk(): seq<Entry<K, V>>
      reads this
    {
      Flat(m.chains)
    }

    method Begin() returns (p: Entry?<K, V>)
      requires Valid()
      ensures p == if Walk() == [] then null else Walk()[0]
    {
      for i := 0 to tab.Length
        invariant FlatTo(m.chains, i) == []
      {
        assert Linked(tab[i], m.chains[i]);
        if tab[i] != null {
          FlatAt(m.chains, i, 0);
          return tab[i];
        }
      }
      return null;
    }

    /** The bucket to continue from is recovered from the stored hash of `e`. */
    method Next(e: Entry<K, V>, ghost pos: nat) returns (p: Entry?<K, V>)
      requires Valid() && pos < |Walk()| && Walk()[pos] == e
      ensures p == if pos + 1 < |Walk()| then Walk()[pos + 1] else null
    {
      ghost var b, k := Locate(m.chains, |m.chains|, pos);
      assert Linked(tab[b], m.chains[b]);
      if e.next != null {
        FlatAt(m.chains, b, k + 1);
        return e.next;
      }
      var i := e.hashKey % tab.Length;
      var j := i + 1;
      while j < tab.Length
        invariant i < j <= tab.Length && |FlatTo(m.chains, j)| == pos + 1
      {
        assert Linked(tab[j], m.chains[j]);
        if tab[j] != null {
          FlatAt(m.chains, j, 0);
          return tab[j];
        }
        j := j + 1;
      }
      return null;
    }

    /** The walk of zc_hashtable_foreach: every pair of the map, each key once. */
    method Foreach() returns (visited: seq<Entry<K, V>>)
      requires Valid()
      ensures visited == Walk() && |visited| == |m.contents|
      ensures forall i :: 0 <= i < |visited| ==>
                visited[i].key in m.contents && visited[i].value == m.contents[visited[i].key]
      ensures forall i, j :: 0 <= i < j < |visited| ==> visited[i].key != visited[j].key
    {
      visited := [];
      var e := Begin();
      while e != null
        invariant visited <= Walk()
        invariant e == if |visited| < |Walk()| then Walk()[|visited|] else null
        decreases |Walk()| - |visited|
      {
        ghost var pos := |visited|;
        visited := visited + [e];
        e := Next(e, pos);
      }
      WalkCounts(this);
    }
  }

  /** What a valid table is like, entry by entry: links that invert each other, the first of a bucket in the array,
      every entry in the bucket of its hash; its key and value are those of the map, and it is not overloaded. */
  lemma ValidMeaning<K, V>(t: HashTable<K, V>, e: Entry<K, V>)
    requires t.Valid() && e in t.m.entries
    ensures e.next != null ==> e.next in t.m.entries && e.next.prev == e
    ensures e.next != null ==> e.next.hashKey % t.tab.Length == e.hashKey % t.tab.Length
    ensures if e.prev != null then e.prev in t.m.entries && e.prev.next == e else t.tab[e.hashKey % t.tab.Length] == e
    ensures e.hashKey == t.hash(e.key) && e.key in t.m.contents && t.m.contents[e.key] == e.value
    ensures t.nelem == |t.m.contents| && 10 * t.nelem <= 13 * t.tab.Length + 10
  {
    var b := e.hashKey % t.tab.Length;
    assert InBucket(t.m.chains, e);
    var c := t.m.chains[b];
    var k :| 0 <= k < |c| && c[k] == e;
    assert Linked(t.tab[b], c);
    assert k + 1 < |c| ==> c[k + 1] in t.m.entries;
  }

  lemma {:induction false} AtCount<K, V>(w: seq<Entry<K, V>>, at: map<K, Entry<K, V>>)
    requires Distinct(w)
    requires forall i :: 0 <= i < |w| ==> w[i].key in at && at[w[i].key] == w[i]
    requires forall x | x in at :: at[x].key == x && at[x] in w
    ensures |w| == |at|
  {
    if w == [] {
      assert at.Keys == {};
    } else {
      var last := w[|w| - 1];
      var rest := w[..|w| - 1];
      assert w == rest + [last];
      assert (at - {last.key}).Keys == at.Keys - {last.key};
      AtCount(rest, at - {last.key});
    }
  }

  /** The walk has nelem entries and carries the pairs of the map, each key once. */
  lemma WalkCounts<K, V>(t: HashTable<K, V>)
    requires t.Valid()
    ensures |t.Walk()| == t.nelem == |t.m.contents|
    ensures forall i :: 0 <= i < |t.Walk()| ==>
              t.Walk()[i].key in t.m.contents && t.Walk()[i].value == t.m.contents[t.Walk()[i].key]
    ensures forall i, j :: 0 <= i < j < |t.Walk()| ==> t.Walk()[i].key != t.Walk()[j].key
  {
    FlatVisitsOnce(t.m.chains, t.m.entries);
    AtCount(t.Walk(), t.m.at);
    assert |t.m.at| == |t.m.at.Keys| == |t.m.contents.Keys| == |t.m.contents|;
  }

  // ---------------------------------------------------------------- whole runs

  datatype Command<K, V> = Put(key: K, value: V) | Get(key: K) | Remove(key: K) | Clean

  /** A plain finite map under the same commands. */
  ghost function After<K, V>(m: map<K, V>, c: Command<K, V>): map<K, V> {
    match c
    case Put(k, v) => m[k := v]
    case Get(_) => m
    case Remove(k) => m - {k}
    case Clean => map[]
  }

  /** What a command answers: a lookup its value, the others nothing. */
  ghost function Reply<K, V>(m: map<K, V>, c: Command<K, V>): seq<Option<V>> {
    if c.Get? then [if c.key in m then Some(m[c.key]) else None] else []
  }

  ghost function Replies<K, V>(m: map<K, V>, cs: seq<Command<K, V>>): seq<Option<V>>
    decreases |cs|
  {
    if cs == [] then [] else Reply(m, cs[0]) + Replies(After(m, cs[0]), cs[1..])
  }

  ghost function Final<K, V>(m: map<K, V>, cs: seq<Command<K, V>>): map<K, V>
    decreases |cs|
  {
    if cs == [] then m else Final(After(m, cs[0]), cs[1..])
  }

  /** What a lookup of `x` has to answer after the commands: as the last one that concerns `x` left it. */
  ghost function Lookup<K, V>(m: map<K, V>, cs: seq<Command<K, V>>, x: K): Option<V> {
    if cs == [] then (if x in m then Some(m[x]) else None)
    else
      var front := cs[..|cs| - 1];
      match cs[|cs| - 1]
      case Put(k, v) => if k == x then Some(v) else Lookup(m, front, x)
      case Remove(k) => if k == x then None else Lookup(m, front, x)
      case Clean => None
      case Get(_) => Lookup(m, front, x)
  }

  lemma {:induction false} FinalSnoc<K, V>(m: map<K, V>, cs: seq<Command<K, V>>)
    requires cs != []
    ensures Final(m, cs) == After(Final(m, cs[..|cs| - 1]), cs[|cs| - 1])
    ensures Replies(m, cs) == Replies(m, cs[..|cs| - 1]) + Reply(Final(m, cs[..|cs| - 1]), cs[|cs| - 1])
    decreases |cs|
  {
    hide After, Reply;
    if |cs| > 1 {
      FinalSnoc(After(m, cs[0]), cs[1..]);
      assert cs[..|cs| - 1][1..] == cs[1..][..|cs| - 2];
    } else {
      assert cs[..0] == [] && cs[1..] == [];
    }
  }

  /** The map after any commands holds of every key what the last command that concerns it left. */
  lemma {:induction false} FinalAt<K, V>(m: map<K, V>, cs: seq<Command<K, V>>, x: K)
    ensures (if x in Final(m, cs) then Some(Final(m, cs)[x]) else None) == Lookup(m, cs, x)
  {
    if cs != [] {
      FinalSnoc(m, cs);
      FinalAt(m, cs[..|cs| - 1], x);
    }
  }

  /** And every lookup on the way is answered so, in order; the other commands answer nothing. */
  lemma {:induction false} RepliesAt<K, V>(m: map<K, V>, cs: seq<Command<K, V>>)
    ensures Replies(m, []) == []
    ensures cs != [] ==>
              var front, last := cs[..|cs| - 1], cs[|cs| - 1];
              Replies(m, cs) == Replies(m, front) + if last.Get? then [Lookup(m, front, last.key)] else []
  {
    if cs != [] {
      FinalSnoc(m, cs);
      if cs[|cs| - 1].Get? {
        FinalAt(m, cs[..|cs| - 1], cs[|cs| - 1].key);
      }
    }
  }

  method Execute<K(==), V>(t: HashTable<K, V>, c: Command<K, V>) returns (reply: seq<Option<V>>)
    requires t.Valid()
    modifies t.Repr()
    ensures t.Valid() && (t.tab == old(t.tab) || fresh(t.tab)) && fresh(t.m.entries - old(t.m.entries))
    ensures t.m.contents == After(old(t.m.contents), c)
    ensures reply == Reply(old(t.m.contents), c)
  {
    hide Buckets;
    hide Holds;
    reply := [];
    match c {
      case Put(k, v) => t.Put(k, v);
      case Get(k) =>
        var r := t.Get(k);
        reply := [r];
      case Remove(k) => t.Remove(k);
      case Clean => t.Clean();
    }
  }

  /** Any run, from any valid table and whatever the hash function does, answers every
      lookup as the plain map does and ends with the same contents in a table that is still
      well linked and not overloaded; the rehashes it goes through cannot be observed. */
  method Run<K(==), V>(t: HashTable<K, V>, cs: seq<Command<K, V>>) returns (replies: seq<Option<V>>)
    requires t.Valid()
    modifies t.Repr()
    ensures t.Valid() && t.m.contents == Final(old(t.m.contents), cs)
    ensures replies == Replies(old(t.m.contents), cs)
    decreases |cs|
  {
    hide Buckets;
    hide Holds;
    if cs == [] {
      return [];
    }
    var reply := Execute(t, cs[0]);
    var rest := Run(t, cs[1..]);
    replies := reply + rest;
  }

  method RunFresh<K(==), V>(size: nat, hash: K -> uint32, cs: seq<Command<K, V>>) returns (replies: seq<Option<V>>)
    requires size > 0
    ensures replies == Replies(map[], cs)
  {
    var t := new HashTable<K, V>(size, hash);
    replies := Run(t, cs);
  }
}
