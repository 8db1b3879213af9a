/** The bounded thumbnail cache: a doubly linked recency list beside a key-to-node map. */
module ThumbCache {
  import opened Options
  import FiniteSets

  datatype Entry<V> = Entry(key: string, value: V)

  // ---------------------------------------------------------------- the abstract recency list

  function Find<V>(es: seq<Entry<V>>, key: string): Option<V> {
    if es == [] then None else if es[0].key == key then Some(es[0].value) else Find(es[1..], key)
  }

  function Without<V>(es: seq<Entry<V>>, key: string): seq<Entry<V>> {
    if es == [] then []
    else if es[0].key == key then Without(es[1..], key)
    else [es[0]] + Without(es[1..], key)
  }

  ghost predicate Distinct<V>(es: seq<Entry<V>>) {
    es != [] ==> Find(es[1..], es[0].key).None? && Distinct(es[1..])
  }

  function Take<V>(es: seq<Entry<V>>, n: nat): seq<Entry<V>> {
    if es == [] || n == 0 then [] else [es[0]] + Take(es[1..], n - 1)
  }

  /** A hit moves its entry to the front; a miss changes nothing. */
  function Touched<V>(es: seq<Entry<V>>, key: string): seq<Entry<V>> {
    match Find(es, key)
    case Some(v) => [Entry(key, v)] + Without(es, key)
    case None => es
  }

  /** The entry goes to the front, and only what then exceeds the capacity falls off the back. */
  function Stored<V>(es: seq<Entry<V>>, cap: nat, key: string, v: V): seq<Entry<V>> {
    Take([Entry(key, v)] + Without(es, key), cap)
  }

  lemma WithoutAbsent<V>(es: seq<Entry<V>>, key: string)
    requires Find(es, key).None?
    ensures Without(es, key) == es
  {
  }

  lemma FindWithout<V>(es: seq<Entry<V>>, key: string, k: string)
    ensures Find(Without(es, key), k) == if k == key then None else Find(es, k)
  {
  }

  lemma {:induction false} WithoutKeepsDistinct<V>(es: seq<Entry<V>>, key: string)
    requires Distinct(es)
    ensures Distinct(Without(es, key))
    ensures |Without(es, key)| == if Find(es, key).Some? then |es| - 1 else |es|
  {
    if es != [] {
      WithoutKeepsDistinct(es[1..], key);
      FindWithout(es[1..], key, es[0].key);
    }
  }

  lemma TakeAll<V>(es: seq<Entry<V>>, n: nat)
    ensures |es| <= n ==> Take(es, n) == es
    ensures |Take(es, n)| == if |es| <= n then |es| else n
  {
  }

  lemma FindTake<V>(es: seq<Entry<V>>, n: nat, key: string)
    ensures Find(Take(es, n), key).Some? ==> Find(Take(es, n), key) == Find(es, key)
  {
  }

  lemma {:induction false} TakeKeepsDistinct<V>(es: seq<Entry<V>>, n: nat)
    requires Distinct(es)
    ensures Distinct(Take(es, n))
  {
    if es != [] && n != 0 {
      TakeKeepsDistinct(es[1..], n - 1);
      FindTake(es[1..], n - 1, es[0].key);
    }
  }

  /** Removing a key and cutting to a length commute, one place being enough slack. */
  lemma {:induction false} CutWithout<V>(es: seq<Entry<V>>, n: nat, key: string)
    requires Distinct(es)
    ensures Take(Without(Take(es, n + 1), key), n) == Take(Without(es, key), n)
  {
    if es == [] {
    } else if es[0].key == key {
      FindTake(es[1..], n, key);
      WithoutAbsent(es[1..], key);
      WithoutAbsent(Take(es[1..], n), key);
      TakeTwice(es[1..], n);
    } else if n != 0 {
      CutWithout(es[1..], n - 1, key);
    }
  }

  lemma TakeTwice<V>(es: seq<Entry<V>>, n: nat)
    ensures Take(Take(es, n), n) == Take(es, n)
  {
    TakeAll(es, n);
    TakeAll(Take(es, n), n);
  }

  // ---------------------------------------------------------------- runs of Get and Put

  datatype Op<V> = Get(key: string) | Put(key: string, value: V)

  function Apply<V>(es: seq<Entry<V>>, cap: nat, op: Op<V>): seq<Entry<V>> {
    match op
    case Get(key) => Touched(es, key)
    case Put(key, v) => Stored(es, cap, key, v)
  }

  function Run<V>(ops: seq<Op<V>>, cap: nat): seq<Entry<V>> {
    if ops == [] then [] else Apply(Run(ops[..|ops| - 1], cap), cap, ops[|ops| - 1])
  }

  /** Reference without any capacity: every entry ever put, most recently used first. A Get counts as
      a use exactly when the bounded cache answers it. */
  function Recency<V>(ops: seq<Op<V>>, cap: nat): seq<Entry<V>> {
    if ops == [] then []
    else
      var before, op := Recency(ops[..|ops| - 1], cap), ops[|ops| - 1];
      match op
      case Get(key) => if Find(Run(ops[..|ops| - 1], cap), key).Some? then Touched(before, key) else before
      case Put(key, v) => [Entry(key, v)] + Without(before, key)
  }

  lemma FrontThenCut<V>(es: seq<Entry<V>>, cap: nat, e: Entry<V>)
    requires Distinct(es) && 0 < cap
    ensures Take([e] + Without(Take(es, cap), e.key), cap) == Take([e] + Without(es, e.key), cap)
    ensures Distinct([e] + Without(es, e.key))
  {
    CutWithout(es, cap - 1, e.key);
    WithoutKeepsDistinct(es, e.key);
    FindWithout(es, e.key, e.key);
    assert ([e] + Without(es, e.key))[1..] == Without(es, e.key);
    assert ([e] + Without(Take(es, cap), e.key))[1..] == Without(Take(es, cap), e.key);
  }

  /** Main result on histories. After any run of Get and Put the cache holds exactly the first `cap`
      entries of the unbounded recency order: what Put drops is always the least recently used. */
  lemma {:induction false} CacheIsRecencyPrefix<V>(ops: seq<Op<V>>, cap: nat)
    requires 0 < cap
    ensures Run(ops, cap) == Take(Recency(ops, cap), cap)
    ensures Distinct(Recency(ops, cap)) && Distinct(Run(ops, cap)) && |Run(ops, cap)| <= cap
  {
    if ops != [] {
      var init, op := ops[..|ops| - 1], ops[|ops| - 1];
      CacheIsRecencyPrefix(init, cap);
      var before, held := Recency(init, cap), Run(init, cap);
      if op.Put? {
        FrontThenCut(before, cap, Entry(op.key, op.value));
      } else if Find(held, op.key).Some? {
        FindTake(before, cap, op.key);
        var e := Entry(op.key, Find(held, op.key).value);
        FrontThenCut(before, cap, e);
        WithoutKeepsDistinct(held, op.key);
        TakeAll([e] + Without(held, op.key), cap);
      }
      TakeAll(Recency(ops, cap), cap);
      TakeKeepsDistinct(Recency(ops, cap), cap);
    }
  }

  lemma {:induction false} FindButLast<V>(es: seq<Entry<V>>, key: string)
    requires Distinct(es) && es != []
    ensures Find(Take(es, |es| - 1), key) == if es[|es| - 1].key == key then None else Find(es, key)
    ensures Find(es, es[|es| - 1].key).Some?
  {
    if |es| > 1 {
      FindButLast(es[1..], key);
      assert es[1..][|es| - 2] == es[|es| - 1];
    }
  }

  /** Evicting is exact: a Put loses another key only when the cache was full and the stored key new,
      and then it loses precisely the last entry. */
  lemma PutEvictsTheLast<V>(es: seq<Entry<V>>, cap: nat, key: string, v: V, lost: string)
    requires Distinct(es) && 0 < cap && |es| <= cap && lost != key
    ensures Find(es, lost).Some? && Find(Stored(es, cap, key, v), lost).None?
       <==> |es| == cap && Find(es, key).None? && es[|es| - 1].key == lost
  {
    var front := [Entry(key, v)] + Without(es, key);
    assert front[1..] == Without(es, key);
    WithoutKeepsDistinct(es, key);
    FindWithout(es, key, lost);
    if Find(es, key).Some? || |es| < cap {
      TakeAll(front, cap);
    } else {
      WithoutAbsent(es, key);
      FindButLast(es, lost);
      assert Take(front, cap)[1..] == Take(es, cap - 1);
    }
  }

  // ---------------------------------------------------------------- the linked implementation

  lemma {:induction false} SplitAt<V>(es: seq<Entry<V>>, k: nat)
    requires k < |es| && forall i, j :: 0 <= i < j < |es| ==> es[i].key != es[j].key
    ensures Without(es, es[k].key) == es[..k] + es[k + 1..]
    ensures Find(es, es[k].key) == Some(es[k].value)
  {
    if k == 0 {
      Absent(es[1..], es[0].key);
      WithoutAbsent(es[1..], es[0].key);
    } else {
      assert es[1..][k - 1] == es[k];
      SplitAt(es[1..], k - 1);
      assert es[..k] + es[k + 1..] == [es[0]] + (es[1..][..k - 1] + es[1..][k..]);
    }
  }

  lemma Absent<V>(es: seq<Entry<V>>, key: string)
    requires forall i :: 0 <= i < |es| ==> es[i].key != key
    ensures Find(es, key).None?
  {
  }

  lemma SameMembers<T>(s: seq<T>, k: nat)
    requires k < |s|
    ensures forall x :: x in [s[k]] + (s[..k] + s[k + 1..]) <==> x in s
  {
    forall x | x in s ensures x in [s[k]] + (s[..k] + s[k + 1..]) {
      var i :| 0 <= i < |s| && s[i] == x;
      assert i < k ==> s[..k][i] == x;
      assert i > k ==> s[k + 1..][i - k - 1] == x;
    }
  }

  class Node<V> {
    const key: string
    var value: V
    var prev: Node?<V>
    var next: Node?<V>

    constructor (key: string, value: V)
      ensures this.key == key && this.value == value && prev == null && next == null
    {
      this.key, this.value, prev, next := key, value, null, null;
    }
  }

  /** head, tail, prev and next spell out exactly this list: no cycle, prev and next inverse. */
  ghost predicate Links<V>(ns: seq<Node<V>>, head: Node?<V>, tail: Node?<V>)
    reads ns
  {
    && (forall i, j :: 0 <= i < j < |ns| ==> ns[i] != ns[j])
    && (ns == [] ==> head == null && tail == null)
    && (ns != [] ==>
          && head == ns[0] && ns[0].prev == null
          && tail == ns[|ns| - 1] && ns[|ns| - 1].next == null)
    && (forall i {:trigger ns[i].prev} :: 1 <= i < |ns| ==> ns[i].prev == ns[i - 1])
    && (forall i {:trigger ns[i].next} :: 0 <= i < |ns| - 1 ==> ns[i].next == ns[i + 1])
  }

  /** The nodes carry exactly these entries, in this order. */
  ghost predicate Mirrors<V>(ns: seq<Node<V>>, es: seq<Entry<V>>)
    reads ns`value
  {
    && |es| == |ns|
    && forall i :: 0 <= i < |ns| ==> es[i] == Entry(ns[i].key, ns[i].value)
  }

  /** The map indexes exactly the listed nodes: as many keys as nodes, each node under its own key. */
  ghost predicate Indexes<V>(ns: seq<Node<V>>, items: map<string, Node<V>>) {
    && |items| == |ns|
    && forall i :: 0 <= i < |ns| ==> ns[i].key in items && items[ns[i].key] == ns[i]
  }

  lemma FrontKeepsContents<V>(ns: seq<Node<V>>, es: seq<Entry<V>>, items: map<string, Node<V>>, k: nat)
    requires Mirrors(ns, es) && Indexes(ns, items) && k < |ns|
    ensures Mirrors([ns[k]] + (ns[..k] + ns[k + 1..]), [es[k]] + (es[..k] + es[k + 1..]))
    ensures Indexes([ns[k]] + (ns[..k] + ns[k + 1..]), items)
  {
  }

  lemma ConsKeepsContents<V>(node: Node<V>, ns: seq<Node<V>>, es: seq<Entry<V>>, items: map<string, Node<V>>)
    requires Mirrors(ns, es) && Indexes(ns, items) && node.key !in items
    ensures Mirrors([node] + ns, [Entry(node.key, node.value)] + es)
    ensures Indexes([node] + ns, items[node.key := node])
  {
  }

  lemma DropLastKeepsContents<V>(ns: seq<Node<V>>, es: seq<Entry<V>>, items: map<string, Node<V>>)
    requires Mirrors(ns, es) && Indexes(ns, items) && ns != []
    requires forall i :: 0 <= i < |ns| - 1 ==> ns[i] != ns[|ns| - 1]
    ensures Mirrors(ns[..|ns| - 1], es[..|ns| - 1])
    ensures Indexes(ns[..|ns| - 1], items - {ns[|ns| - 1].key})
  {
    var last := ns[|ns| - 1].key;
    assert (items - {last}).Keys == items.Keys - {last};
  }

  class ThumbLru<V> {
    const capacity: nat
    var items: map<string, Node<V>>
    var head: Node?<V>
    var tail: Node?<V>
    ghost var order: seq<Node<V>>
    /** The abstract recency list, most recent first. */
    ghost var entries: seq<Entry<V>>

    ghost predicate Linked()
      reads this, order
    {
      Links(order, head, tail)
    }

    ghost predicate Mirrored()
      reads this, order`value
    {
      Mirrors(order, entries)
    }

    ghost predicate Indexed()
      reads this
    {
      Indexes(order, items)
    }

    ghost predicate Valid()
      reads this, order
    {
      0 < capacity && Linked() && Mirrored() && Indexed() && |order| <= capacity
    }

    constructor (capacity: int)
      ensures Valid() && entries == [] && order == []
      ensures this.capacity == if capacity <= 0 then 200 else capacity
    {
      this.capacity := if capacity <= 0 then 200 else capacity;
      items, head, tail, order, entries := map[], null, null, [], [];
    }

    lemma KeysDiffer()
      requires Linked() && Mirrored() && Indexed()
      ensures forall i, j :: 0 <= i < j < |entries| ==> entries[i].key != entries[j].key
    {
      forall i, j | 0 <= i < j < |entries| ensures entries[i].key != entries[j].key {
        assert items[order[i].key] == order[i];
        assert items[order[j].key] == order[j];
      }
    }

    /** Counting argument: a key of the map is the key of some listed node. */
    lemma Locate(key: string) returns (k: nat)
      requires Linked() && Mirrored() && Indexed() && key in items
      ensures k < |order| && order[k] == items[key] && order[k].key == key
    {
      KeysDiffer();
      var es := entries;
      var keys := seq(|es|, i requires 0 <= i < |es| => es[i].key);
      FiniteSets.DistinctCount(keys);
      var listed := set x | x in keys;
      forall x | x in listed ensures x in items.Keys {
        var i :| 0 <= i < |keys| && keys[i] == x;
        assert order[i].key in items;
      }
      FiniteSets.LargeSubsetIsAll(listed, items.Keys);
      k :| 0 <= k < |keys| && keys[k] == key;
      assert items[order[k].key] == order[k];
    }

    lemma KeyAbsent(key: string)
      requires Mirrored() && Indexed() && key !in items
      ensures Find(entries, key).None?
    {
      Absent(entries, key);
    }

    /** Look a thumbnail up; a hit becomes the most recent. */
    method Get(key: string) returns (r: Option<V>)
      requires Valid()
      modifies this, order
      ensures Valid() && entries == Touched(old(entries), key)
      ensures r == Find(old(entries), key)
      ensures forall n :: n in order ==> n in old(order)
    {
      if key !in items {
        KeyAbsent(key);
        return None;
      }
      var node := items[key];
      ghost var k := Locate(key);
      KeysDiffer();
      SplitAt(entries, k);
      SameMembers(order, k);
      r := Some(node.value);
      MoveToHead(node, k);
    }

    /** Store a thumbnail as the most recent, evicting the least recent one when over capacity. */
    method Put(key: string, val: V)
      requires Valid()
      modifies this, order
      ensures Valid() && entries == Stored(old(entries), capacity, key, val)
      ensures forall n :: n in order ==> n in old(order) || fresh(n)
    {
      if key in items {
        PutKnown(key, val);
        return;
      }
      KeyAbsent(key);
      WithoutAbsent(entries, key);
      PutNew(key, val);
    }

    method PutKnown(key: string, val: V)
      requires Valid() && key in items
      modifies this, order
      ensures Valid() && entries == Stored(old(entries), capacity, key, val)
      ensures forall n :: n in order ==> n in old(order)
    {
      ghost var es := entries;
      var node := items[key];
      ghost var k := Locate(key);
      KeysDiffer();
      SplitAt(es, k);
      SameMembers(order, k);
      SetValue(node, k, val);
      assert entries[..k] == es[..k] && entries[k + 1..] == es[k + 1..];
      MoveToHead(node, k);
      TakeSlice(entries, capacity);
    }

    method SetValue(node: Node<V>, ghost k: nat, val: V)
      requires Valid() && k < |order| && order[k] == node
      modifies this`entries, node`value
      ensures Valid() && entries == old(entries)[k := Entry(node.key, val)]
    {
      node.value := val;
      entries := entries[k := Entry(node.key, val)];
    }

    method PutNew(key: string, val: V)
      requires Valid() && key !in items
      modifies this, order
      ensures Valid() && entries == Take([Entry(key, val)] + old(entries), capacity)
      ensures forall n :: n in order ==> n in old(order) || fresh(n)
    {
      var node := new Node(key, val);
      InsertNew(node);
      EvictOverflow();
    }

    method EvictOverflow()
      requires Linked() && Mirrored() && Indexed() && 0 < capacity && |order| <= capacity + 1
      modifies this, order`prev, order`next
      ensures Valid() && entries == Take(old(entries), capacity)
      ensures order <= old(order)
    {
      TakeSlice(entries, capacity);
      if |items| > capacity {
        RemoveTail();
      }
    }

    method InsertNew(node: Node<V>)
      requires Valid() && node !in order && node.key !in items
      modifies this`head, this`tail, this`order, this`items, this`entries, node`prev, node`next, order`prev
      ensures Linked() && Mirrored() && Indexed() && order == [node] + old(order)
      ensures entries == [Entry(node.key, node.value)] + old(entries)
    {
      ConsKeepsContents(node, order, entries, items);
      items := items[node.key := node];
      AddToHead(node);
      entries := [Entry(node.key, node.value)] + entries;
    }

    method AddToHead(node: Node<V>)
      requires Linked() && node !in order
      modifies this`head, this`tail, this`order, node`prev, node`next, order`prev
      ensures Linked() && order == [node] + old(order)
    {
      node.next := head;
      node.prev := null;
      if head != null {
        head.prev := node;
      }
      head := node;
      if tail == null {
        tail := node;
      }
      order := [node] + order;
    }

    method RemoveNode(node: Node<V>, ghost k: nat)
      requires Linked() && k < |order| && order[k] == node
      modifies this`head, this`tail, this`order, order`prev, order`next
      ensures Linked() && order == old(order)[..k] + old(order)[k + 1..]
    {
      assert node.prev == if k == 0 then null else order[k - 1];
      assert node.next == if k == |order| - 1 then null else order[k + 1];
      if node.prev != null {
        node.prev.next := node.next;
      } else {
        head := node.next;
      }
      if node.next != null {
        node.next.prev := node.prev;
      } else {
        tail := node.prev;
      }
      order := order[..k] + order[k + 1..];
    }

    method Relink(node: Node<V>, ghost k: nat)
      requires Linked() && k < |order| && order[k] == node
      modifies this`head, this`tail, this`order, order`prev, order`next
      ensures Linked() && order == [old(order)[k]] + (old(order)[..k] + old(order)[k + 1..])
    {
      RemoveNode(node, k);
      AddToHead(node);
    }

    method MoveToHead(node: Node<V>, ghost k: nat)
      requires Valid() && k < |order| && order[k] == node
      modifies this`head, this`tail, this`order, this`entries, order`prev, order`next
      ensures Valid() && order == [old(order)[k]] + (old(order)[..k] + old(order)[k + 1..])
      ensures entries == [old(entries)[k]] + (old(entries)[..k] + old(entries)[k + 1..])
    {
      FrontKeepsContents(order, entries, items, k);
      Relink(node, k);
      entries := [entries[k]] + (entries[..k] + entries[k + 1..]);
    }

    method RemoveTail()
      requires Linked() && Mirrored() && Indexed()
      modifies this, order`prev, order`next
      ensures Linked() && Mirrored() && Indexed()
      ensures entries == if old(entries) == [] then [] else old(entries)[..|old(entries)| - 1]
      ensures order == if old(order) == [] then [] else old(order)[..|old(order)| - 1]
    {
      if tail == null {
        return;
      }
      DropTail();
    }

    method DropTail()
      requires Linked() && Mirrored() && Indexed() && order != []
      modifies this`items, this`head, this`tail, this`order, this`entries, order`prev, order`next
      ensures Linked() && Mirrored() && Indexed()
      ensures entries == old(entries)[..|old(entries)| - 1] && order == old(order)[..|old(order)| - 1]
    {
      DropLastKeepsContents(order, entries, items);
      items := items - {tail.key};
      entries := entries[..|entries| - 1];
      UnlinkTail();
    }

    method UnlinkTail()
      requires Linked() && order != []
      modifies this`head, this`tail, this`order, order`prev, order`next
      ensures Linked() && order == old(order)[..|old(order)| - 1]
    {
      assert order[..|order| - 1] + order[|order|..] == order[..|order| - 1];
      RemoveNode(tail, |order| - 1);
    }
  }

  lemma TakeSlice<V>(es: seq<Entry<V>>, n: nat)
    ensures Take(es, n) == if |es| <= n then es else es[..n]
  {
  }
}
