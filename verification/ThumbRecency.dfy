/** What the thumbnail cache holds after any run, told from the history alone: which keys were used when. */
module ThumbRecency {
  import opened Options
  import opened ThumbCache

  // ---------------------------------------------------------------- the history

  /** Step i is a use of the key: it stores it, or asks for it and is answered. */
  predicate Uses<V>(ops: seq<Op<V>>, cap: nat, i: nat, key: string)
    requires i < |ops|
  {
    ops[i].key == key && (ops[i].Put? || Find(Run(ops[..i], cap), key).Some?)
  }

  lemma UsesOfInit<V>(ops: seq<Op<V>>, cap: nat, key: string)
    requires ops != []
    ensures forall i :: 0 <= i < |ops| - 1 ==> (Uses(ops, cap, i, key) <==> Uses(ops[..|ops| - 1], cap, i, key))
  {
    assert forall i :: 0 <= i < |ops| - 1 ==> ops[..|ops| - 1][..i] == ops[..i];
  }

  /** The position of the last use of a key, or -1. */
  function LastUse<V>(ops: seq<Op<V>>, cap: nat, key: string): (p: int)
    ensures -1 <= p < |ops|
    ensures p >= 0 ==> Uses(ops, cap, p, key)
    ensures forall i :: p < i < |ops| ==> !Uses(ops, cap, i, key)
  {
    if ops == [] then -1
    else
      var k := |ops| - 1;
      var p := LastUse(ops[..k], cap, key);
      UsesOfInit(ops, cap, key);
      if Uses(ops, cap, k, key) then k else p
  }

  /** The value the key was last stored with. */
  function LastPut<V>(ops: seq<Op<V>>, key: string): Option<V> {
    if ops == [] then None
    else
      var op := ops[|ops| - 1];
      if op.Put? && op.key == key then Some(op.value) else LastPut(ops[..|ops| - 1], key)
  }

  /** The keys used after the last use of this one. */
  ghost function Later<V>(ops: seq<Op<V>>, cap: nat, key: string): set<string> {
    set i | 0 <= i < |ops| && LastUse(ops, cap, ops[i].key) > LastUse(ops, cap, key) :: ops[i].key
  }

  // ---------------------------------------------------------------- lists ordered by a measure

  ghost predicate Ordered<V>(es: seq<Entry<V>>, f: string -> int) {
    forall i, j :: 0 <= i < j < |es| ==> f(es[i].key) > f(es[j].key)
  }

  lemma {:induction false} FoundAt<V>(es: seq<Entry<V>>, key: string) returns (i: nat)
    requires Find(es, key).Some?
    ensures i < |es| && es[i].key == key
  {
    if es[0].key == key {
      i := 0;
    } else {
      i := FoundAt(es[1..], key);
      i := i + 1;
    }
  }

  lemma {:induction false} EntryIsFound<V>(es: seq<Entry<V>>, i: nat)
    requires i < |es|
    ensures Find(es, es[i].key).Some?
  {
    if i > 0 {
      assert es[1..][i - 1] == es[i];
      EntryIsFound(es[1..], i - 1);
    }
  }

  /** Taking a key out leaves the others as they stand. */
  lemma {:induction false} WithoutKeepsOrder<V>(es: seq<Entry<V>>, key: string, f: string -> int)
    requires Ordered(es, f)
    ensures Ordered(Without(es, key), f)
    ensures forall i :: 0 <= i < |Without(es, key)| ==>
      Without(es, key)[i].key != key && Find(es, Without(es, key)[i].key).Some?
  {
    if es != [] {
      assert forall i :: 0 <= i < |es| - 1 ==> es[1..][i] == es[i + 1];
      WithoutKeepsOrder(es[1..], key, f);
      var rest := Without(es[1..], key);
      forall i | 0 <= i < |rest| ensures f(es[0].key) > f(rest[i].key) {
        var j := FoundAt(es[1..], rest[i].key);
        assert es[j + 1] == es[1..][j];
      }
    }
  }

  lemma FrontKeepsOrder<V>(es: seq<Entry<V>>, e: Entry<V>, f: string -> int, g: string -> int)
    requires Ordered(es, f)
    requires forall k :: k != e.key ==> g(k) == f(k) < g(e.key)
    ensures Ordered([e] + Without(es, e.key), g)
  {
    WithoutKeepsOrder(es, e.key, f);
    var rest := Without(es, e.key);
    var all := [e] + rest;
    assert forall i :: 0 < i < |all| ==> all[i] == rest[i - 1];
  }

  lemma {:induction false} TakeIsPrefix<V>(es: seq<Entry<V>>, n: nat)
    ensures Take(es, n) == if |es| <= n then es else es[..n]
  {
    if es != [] && n != 0 {
      TakeIsPrefix(es[1..], n - 1);
    }
  }

  // ---------------------------------------------------------------- the recency order is the order of last uses

  function UseOf<V>(ops: seq<Op<V>>, cap: nat): string -> int {
    k => LastUse(ops, cap, k)
  }

  ghost predicate ByUse<V>(es: seq<Entry<V>>, ops: seq<Op<V>>, cap: nat) {
    && Ordered(es, UseOf(ops, cap))
    && forall k :: Find(es, k) == LastPut(ops, k) && (Find(es, k).Some? <==> LastUse(ops, cap, k) >= 0)
  }

  lemma LastUseStep<V>(ops: seq<Op<V>>, cap: nat, k: string)
    requires ops != []
    ensures LastUse(ops, cap, k) ==
      if Uses(ops, cap, |ops| - 1, k) then |ops| - 1 else LastUse(ops[..|ops| - 1], cap, k)
  {
  }

  lemma FrontIsByUse<V>(es: seq<Entry<V>>, ops: seq<Op<V>>, cap: nat, e: Entry<V>)
    requires ops != [] && ByUse(es, ops[..|ops| - 1], cap)
    requires Uses(ops, cap, |ops| - 1, e.key) && LastPut(ops, e.key) == Some(e.value)
    ensures ByUse([e] + Without(es, e.key), ops, cap)
  {
    var init := ops[..|ops| - 1];
    var f, g := UseOf(init, cap), UseOf(ops, cap);
    FrontKeepsOrder(es, e, f, g);
    var all := [e] + Without(es, e.key);
    assert all[1..] == Without(es, e.key);
    forall k ensures Find(all, k) == LastPut(ops, k) && (Find(all, k).Some? <==> LastUse(ops, cap, k) >= 0) {
      FindWithout(es, e.key, k);
      LastUseStep(ops, cap, k);
      assert Find(es, k) == LastPut(init, k);
    }
  }

  lemma {:induction false} RecencyIsByUse<V>(ops: seq<Op<V>>, cap: nat)
    requires 0 < cap
    ensures ByUse(Recency(ops, cap), ops, cap)
  {
    if ops != [] {
      var init, op := ops[..|ops| - 1], ops[|ops| - 1];
      RecencyIsByUse(init, cap);
      var before := Recency(init, cap);
      if op.Put? {
        FrontIsByUse(before, ops, cap, Entry(op.key, op.value));
      } else if Find(Run(init, cap), op.key).Some? {
        CacheIsRecencyPrefix(init, cap);
        FindTake(before, cap, op.key);
        FrontIsByUse(before, ops, cap, Entry(op.key, Find(before, op.key).value));
      } else {
        forall k ensures LastUse(ops, cap, k) == LastUse(init, cap, k) && LastPut(ops, k) == LastPut(init, k) {
          LastUseStep(ops, cap, k);
        }
        assert forall k :: UseOf(ops, cap)(k) == UseOf(init, cap)(k);
      }
    }
  }

  // ---------------------------------------------------------------- what is held

  /** Main result. After any run the held entries stand in strictly decreasing order of last use, and each holds
      the value its key was last stored with. */
  lemma HeldInOrderOfUse<V>(ops: seq<Op<V>>, cap: nat)
    requires 0 < cap
    ensures var held := Run(ops, cap);
      && (forall i, j :: 0 <= i < j < |held| ==>
            LastUse(ops, cap, held[i].key) > LastUse(ops, cap, held[j].key) >= 0)
      && (forall i :: 0 <= i < |held| ==> LastPut(ops, held[i].key) == Some(held[i].value))
  {
    var all, held := Recency(ops, cap), Run(ops, cap);
    RecencyIsByUse(ops, cap);
    CacheIsRecencyPrefix(ops, cap);
    TakeIsPrefix(all, cap);
    forall i, j | 0 <= i < j < |held|
      ensures LastUse(ops, cap, held[i].key) > LastUse(ops, cap, held[j].key) >= 0
    {
      assert UseOf(ops, cap)(all[i].key) > UseOf(ops, cap)(all[j].key);
      EntryIsFound(all, j);
    }
    forall i | 0 <= i < |held| ensures LastPut(ops, held[i].key) == Some(held[i].value) {
      OrderedFinds(all, UseOf(ops, cap), i);
    }
  }

  lemma {:induction false} OrderedFinds<V>(es: seq<Entry<V>>, f: string -> int, i: nat)
    requires Ordered(es, f) && i < |es|
    ensures Find(es, es[i].key) == Some(es[i].value)
  {
    if i > 0 {
      assert f(es[0].key) > f(es[i].key);
      assert forall j :: 0 <= j < |es| - 1 ==> es[1..][j] == es[j + 1];
      OrderedFinds(es[1..], f, i - 1);
    }
  }

  lemma OrderedIndex<V>(es: seq<Entry<V>>, f: string -> int, i: nat, j: nat)
    requires Ordered(es, f) && i < |es| && j < |es|
    ensures f(es[i].key) > f(es[j].key) <==> i < j
  {
  }

  lemma OrderedAbsent<V>(es: seq<Entry<V>>, f: string -> int, n: nat, cut: nat)
    requires Ordered(es, f) && cut <= n < |es|
    ensures Find(es[..cut], es[n].key).None?
  {
    forall i | 0 <= i < cut ensures es[i].key != es[n].key {
      assert f(es[i].key) > f(es[n].key);
    }
    Absent(es[..cut], es[n].key);
  }

  /** The keys of the first n entries. */
  ghost function KeysBefore<V>(es: seq<Entry<V>>, n: nat): set<string>
    requires n <= |es|
  {
    set i | 0 <= i < n :: es[i].key
  }

  lemma {:induction false} KeysBeforeCount<V>(es: seq<Entry<V>>, f: string -> int, n: nat)
    requires Ordered(es, f) && n <= |es|
    ensures |KeysBefore(es, n)| == n
  {
    if n > 0 {
      KeysBeforeCount(es, f, n - 1);
      assert KeysBefore(es, n) == KeysBefore(es, n - 1) + {es[n - 1].key};
      forall i | 0 <= i < n - 1 ensures es[i].key != es[n - 1].key {
        assert f(es[i].key) > f(es[n - 1].key);
      }
    }
  }

  lemma LastUseOccurs<V>(ops: seq<Op<V>>, cap: nat, k: string)
    requires LastUse(ops, cap, k) >= 0
    ensures exists i :: 0 <= i < |ops| && ops[i].key == k
  {
    assert Uses(ops, cap, LastUse(ops, cap, k), k);
  }

  /** The entry at position n of the recency order has exactly the n keys before it used later. */
  lemma LaterAreBefore<V>(ops: seq<Op<V>>, cap: nat, n: nat)
    requires 0 < cap && n < |Recency(ops, cap)|
    ensures |Later(ops, cap, Recency(ops, cap)[n].key)| == n
  {
    var all, f := Recency(ops, cap), UseOf(ops, cap);
    RecencyIsByUse(ops, cap);
    KeysBeforeCount(all, f, n);
    var later, before := Later(ops, cap, all[n].key), KeysBefore(all, n);
    forall k | k in later ensures k in before {
      assert Find(all, k).Some?;
      var i := FoundAt(all, k);
      OrderedIndex(all, f, i, n);
    }
    forall k | k in before ensures k in later {
      var i :| 0 <= i < n && all[i].key == k;
      assert f(all[i].key) > f(all[n].key);
      LastUseOccurs(ops, cap, k);
    }
    assert later == before;
  }

  /** Main result. After any run a key is held exactly when it was stored at some time and fewer than `cap` other
      keys have been used since its own last use; it is then held with the value it was last stored with. */
  lemma HeldExactly<V>(ops: seq<Op<V>>, cap: nat, key: string)
    requires 0 < cap
    ensures Find(Run(ops, cap), key) ==
      if |Later(ops, cap, key)| < cap then LastPut(ops, key) else None
    ensures LastPut(ops, key).Some? <==> LastUse(ops, cap, key) >= 0
  {
    var all := Recency(ops, cap);
    RecencyIsByUse(ops, cap);
    CacheIsRecencyPrefix(ops, cap);
    TakeIsPrefix(all, cap);
    FindTake(all, cap, key);
    assert Find(all, key) == LastPut(ops, key);
    if Find(all, key).Some? {
      var n := FoundAt(all, key);
      LaterAreBefore(ops, cap, n);
      if n < cap {
        assert Take(all, cap)[n] == all[n];
        EntryIsFound(Take(all, cap), n);
      } else {
        OrderedAbsent(all, UseOf(ops, cap), n, cap);
      }
    }
  }

  /** One answered Get: its key comes first, the others keep their order and their values. */
  lemma HitComesFirst<V>(es: seq<Entry<V>>, key: string, n: nat)
    requires forall i, j :: 0 <= i < j < |es| ==> es[i].key != es[j].key
    requires n < |es| && es[n].key == key
    ensures Touched(es, key) == [es[n]] + es[..n] + es[n + 1..]
  {
    SplitAt(es, n);
  }
}
