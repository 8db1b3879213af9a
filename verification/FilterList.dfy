/** The per-app notification filter list: cleaned, without repeats, capped, and sorted in place. */
module FilterList {
  import FiniteSets
  import opened Seqs

  const MAX_APPS: nat := 100

  /** Go's order on strings, byte by byte. */
  predicate LexLess(a: string, b: string) {
    b != "" && (a == "" || a[0] < b[0] || (a[0] == b[0] && LexLess(a[1..], b[1..])))
  }

  lemma {:induction false} LexIrreflexive(a: string)
    ensures !LexLess(a, a)
  {
    if a != "" {
      LexIrreflexive(a[1..]);
    }
  }

  lemma {:induction false} LexTransitive(a: string, b: string, c: string)
    requires LexLess(a, b) && LexLess(b, c)
    ensures LexLess(a, c)
  {
    if a != "" && a[0] == b[0] == c[0] {
      LexTransitive(a[1..], b[1..], c[1..]);
    }
  }

  lemma {:induction false} LexTotal(a: string, b: string)
    ensures a == b || LexLess(a, b) || LexLess(b, a)
  {
    if a != "" && b != "" && a[0] == b[0] {
      LexTotal(a[1..], b[1..]);
      assert a == [a[0]] + a[1..] && b == [b[0]] + b[1..];
    }
  }

  ghost predicate StrictlySorted(s: seq<string>) {
    forall i, j :: 0 <= i < j < |s| ==> LexLess(s[i], s[j])
  }

  // ---------------------------------------------------------------- collecting

  /** The first hundred different cleaned names, in order of appearance; a name that cleans to nothing is dropped. */
  function Collect(clean: string -> string, names: seq<string>, out: seq<string>): seq<string>
    decreases |names|
  {
    if names == [] || |out| >= MAX_APPS then out
    else
      var p := clean(names[0]);
      Collect(clean, names[1..], if p == "" || p in out then out else out + [p])
  }

  /** Insert x behind the entries that are not greater. */
  function Insert(s: seq<string>, x: string): seq<string> {
    if s == [] || !LexLess(x, s[|s| - 1]) then s + [x] else Insert(s[..|s| - 1], x) + [s[|s| - 1]]
  }

  function Sorted(s: seq<string>): (r: seq<string>)
    ensures |r| == |s|
  {
    if s == [] then [] else InsertLength(Sorted(s[..|s| - 1]), s[|s| - 1]); Insert(Sorted(s[..|s| - 1]), s[|s| - 1])
  }

  lemma {:induction false} InsertLength(s: seq<string>, x: string)
    ensures |Insert(s, x)| == |s| + 1
  {
    if s != [] && LexLess(x, s[|s| - 1]) {
      InsertLength(s[..|s| - 1], x);
    }
  }

  /** SanitizeNotifFilterList */
  function Sanitize(clean: string -> string, names: seq<string>): seq<string> {
    Sorted(Collect(clean, names, []))
  }

  method SanitizeList(clean: string -> string, names: seq<string>) returns (r: seq<string>)
    ensures r == Sanitize(clean, names)
  {
    var seen: set<string> := {};
    var out: seq<string> := [];
    var i := 0;
    while i < |names| && |out| < MAX_APPS
      invariant 0 <= i <= |names|
      invariant forall p :: p in seen <==> p in out
      invariant Collect(clean, names[i..], out) == Collect(clean, names, [])
    {
      assert names[i..][0] == names[i] && names[i..][1..] == names[i + 1..];
      var pkg := clean(names[i]);
      if pkg != "" && pkg !in seen {
        seen := seen + {pkg};
        out := out + [pkg];
      }
      i := i + 1;
    }
    assert out == Collect(clean, names, []);
    var a := new string[|out|](k requires 0 <= k < |out| => out[k]);
    assert a[..] == out;
    InsertionSort(a);
    r := a[..];
  }

  /** The insertion sort, in place. */
  method InsertionSort(a: array<string>)
    modifies a
    ensures a[..] == Sorted(old(a[..]))
  {
    ghost var was := a[..];
    var i := 0;
    while i < a.Length
      invariant 0 <= i <= a.Length
      invariant a[..i] == Sorted(was[..i])
      invariant forall k :: i <= k < a.Length ==> a[k] == was[k]
    {
      ghost var before := a[..i];
      SinkInto(a, i);
      SortedGrows(was, i, before, a[..i + 1]);
      i := i + 1;
    }
    assert a[..][..i] == a[..i];
    SortedAll(was, i, a[..]);
  }

  lemma SortedGrows(was: seq<string>, i: nat, before: seq<string>, after: seq<string>)
    requires i < |was| && before == Sorted(was[..i]) && after == Insert(before, was[i])
    ensures after == Sorted(was[..i + 1])
  {
    assert was[..i + 1][..i] == was[..i] && was[..i + 1][i] == was[i];
  }

  lemma SortedAll(was: seq<string>, i: nat, t: seq<string>)
    requires i == |was| == |t| && t[..i] == Sorted(was[..i])
    ensures t == Sorted(was)
  {
    assert t[..i] == t && was[..i] == was;
  }

  /** x = o[i] has been swapped down to position j; everything between has moved up by one. */
  ghost predicate Sunk(t: seq<string>, o: seq<string>, i: nat, j: nat) {
    && |t| == |o| && j <= i < |o| && t[j] == o[i]
    && (forall k :: 0 <= k < j ==> t[k] == o[k])
    && (forall k :: j < k <= i ==> t[k] == o[k - 1])
    && (forall k :: i < k < |o| ==> t[k] == o[k])
  }

  lemma SwapSinks(t: seq<string>, o: seq<string>, i: nat, j: nat)
    requires Sunk(t, o, i, j) && j > 0
    ensures Sunk(t[j := t[j - 1]][j - 1 := t[j]], o, i, j - 1)
  {
  }

  /** Sinking x below s[j - 1], which is greater, is a step of its insertion. */
  lemma {:induction false} InsertPasses(s: seq<string>, x: string, j: nat)
    requires j <= |s| && forall k :: j <= k < |s| ==> LexLess(x, s[k])
    ensures Insert(s, x) == Insert(s[..j], x) + s[j..]
    decreases |s| - j
  {
    if j == |s| {
      assert s[..j] == s && s[j..] == [];
    } else {
      InsertPasses(s, x, j + 1);
      assert s[..j + 1][..j] == s[..j] && s[..j + 1][j] == s[j];
      assert s[j..] == [s[j]] + s[j + 1..];
    }
  }

  /** Once it stands right behind an entry that is not greater, the insertion is done. */
  lemma SunkIsInserted(t: seq<string>, o: seq<string>, i: nat, j: nat)
    requires Sunk(t, o, i, j) && (j > 0 ==> !LexLess(o[i], o[j - 1]))
    requires forall k :: j <= k < i ==> LexLess(o[i], o[k])
    ensures t[..i + 1] == Insert(o[..i], o[i])
  {
    var s, x := o[..i], o[i];
    InsertPasses(s, x, j);
    assert j > 0 ==> s[..j][j - 1] == o[j - 1];
    assert Insert(s[..j], x) == s[..j] + [x];
    assert t[..i + 1] == s[..j] + [x] + s[j..];
  }

  /** Swap a[i] down to its place among the entries before it. */
  method SinkInto(a: array<string>, i: nat)
    requires i < a.Length
    modifies a
    ensures a[..i + 1] == Insert(old(a[..i]), old(a[i]))
    ensures forall k :: i < k < a.Length ==> a[k] == old(a[k])
  {
    ghost var o := a[..];
    var j: nat := i;
    while j > 0 && LexLess(a[j], a[j - 1])
      invariant 0 <= j <= i && Sunk(a[..], o, i, j)
      invariant forall k :: j <= k < i ==> LexLess(o[i], o[k])
    {
      SwapSinks(a[..], o, i, j);
      ghost var t := a[..];
      a[j], a[j - 1] := a[j - 1], a[j];
      assert a[..] == t[j := t[j - 1]][j - 1 := t[j]];
      j := j - 1;
    }
    SunkIsInserted(a[..], o, i, j);
    assert o[..i] == old(a[..i]) && a[..][..i + 1] == a[..i + 1];
  }

  // ---------------------------------------------------------------- the list is a canonical form

  function Names(s: seq<string>): set<string> {
    set p | p in s
  }

  lemma NamesOfSnoc(s: seq<string>, x: string)
    ensures Names(s + [x]) == Names(s) + {x}
  {
    assert forall p :: p in s + [x] <==> p in s || p == x;
  }

  lemma {:induction false} InsertSorts(s: seq<string>, x: string)
    requires StrictlySorted(s) && x !in s
    ensures StrictlySorted(Insert(s, x)) && Names(Insert(s, x)) == Names(s) + {x}
  {
    if s == [] {
    } else {
      var k := |s| - 1;
      LexTotal(x, s[k]);
      assert s == s[..k] + [s[k]];
      if LexLess(x, s[k]) {
        InsertSorts(s[..k], x);
        NamesOfSnoc(s[..k], s[k]);
        NamesOfSnoc(Insert(s[..k], x), s[k]);
        SnocSorted(Insert(s[..k], x), s[k], s, x);
      } else {
        NamesOfSnoc(s, x);
        forall i | 0 <= i < |s| ensures LexLess(s[i], x) {
          if i < k {
            LexTransitive(s[i], s[k], x);
          }
        }
      }
    }
  }

  lemma SnocSorted(t: seq<string>, y: string, s: seq<string>, x: string)
    requires StrictlySorted(t) && StrictlySorted(s) && s != [] && y == s[|s| - 1] && LexLess(x, y)
    requires Names(t) == Names(s[..|s| - 1]) + {x}
    ensures StrictlySorted(t + [y])
  {
    forall i | 0 <= i < |t| ensures LexLess(t[i], y) {
      assert t[i] in Names(t);
      if t[i] != x {
        assert t[i] in s[..|s| - 1];
        var j :| 0 <= j < |s| - 1 && s[j] == t[i];
      }
    }
  }

  lemma {:induction false} SortedFacts(s: seq<string>)
    requires Distinct(s)
    ensures StrictlySorted(Sorted(s)) && Names(Sorted(s)) == Names(s)
  {
    if s != [] {
      var k := |s| - 1;
      assert s == s[..k] + [s[k]];
      SortedFacts(s[..k]);
      NamesOfSnoc(s[..k], s[k]);
      assert s[k] !in s[..k];
      assert s[k] !in Names(Sorted(s[..k]));
      InsertSorts(Sorted(s[..k]), s[k]);
    }
  }

  /** What is collected: different names, at most a hundred, all of them cleaned entries. */
  lemma {:induction false} CollectFacts(clean: string -> string, names: seq<string>, out: seq<string>)
    requires Distinct(out) && |out| <= MAX_APPS && "" !in out
    ensures var r := Collect(clean, names, out);
      && Distinct(r) && |r| <= MAX_APPS && "" !in r && out <= r
      && Names(r) <= Names(out) + Cleaned(clean, names)
      && (|r| < MAX_APPS ==> Names(r) == Names(out) + Cleaned(clean, names))
    decreases |names|
  {
    if names != [] && |out| < MAX_APPS {
      var p := clean(names[0]);
      var next := if p == "" || p in out then out else out + [p];
      NamesOfSnoc(out, p);
      CleanedCons(clean, names);
      CollectFacts(clean, names[1..], next);
    }
  }

  /** The non-empty cleaned names. */
  function Cleaned(clean: string -> string, names: seq<string>): set<string> {
    set n | n in names && clean(n) != "" :: clean(n)
  }

  lemma CleanedCons(clean: string -> string, names: seq<string>)
    requires names != []
    ensures Cleaned(clean, names) ==
            Cleaned(clean, names[1..]) + if clean(names[0]) == "" then {} else {clean(names[0])}
  {
    assert names == [names[0]] + names[1..];
    assert forall n :: n in names <==> n == names[0] || n in names[1..];
  }

  lemma {:induction false} SortedListIsUnique(a: seq<string>, b: seq<string>)
    requires StrictlySorted(a) && StrictlySorted(b) && Names(a) == Names(b)
    ensures a == b
  {
    NoNames(a);
    NoNames(b);
    if a != [] {
      SameFirst(a, b);
      TailNames(a);
      TailNames(b);
      SortedListIsUnique(a[1..], b[1..]);
      assert a == [a[0]] + a[1..] && b == [b[0]] + b[1..];
    }
  }

  lemma NoNames(s: seq<string>)
    ensures Names(s) == {} <==> s == []
  {
    if s != [] {
      assert s[0] in Names(s);
    }
  }

  lemma SameFirst(a: seq<string>, b: seq<string>)
    requires StrictlySorted(a) && StrictlySorted(b) && Names(a) == Names(b) && a != [] && b != []
    ensures a[0] == b[0]
  {
    assert a[0] in Names(b) && b[0] in Names(a);
    var i :| 0 <= i < |b| && b[i] == a[0];
    var j :| 0 <= j < |a| && a[j] == b[0];
    if i > 0 && j > 0 {
      LexTransitive(a[0], b[0], a[0]);
      LexIrreflexive(a[0]);
    }
  }

  lemma TailNames(s: seq<string>)
    requires StrictlySorted(s) && s != []
    ensures Names(s[1..]) == Names(s) - {s[0]}
  {
    assert s == [s[0]] + s[1..];
    forall i | 0 < i < |s| ensures s[i] != s[0] {
      LexIrreflexive(s[0]);
    }
  }

  /** Main result. A sanitized list is strictly sorted, holds at most a hundred cleaned names, and all of them unless
      there are more than a hundred. */
  lemma SanitizedIsCanonical(clean: string -> string, names: seq<string>)
    ensures var r := Sanitize(clean, names);
      && StrictlySorted(r) && |r| <= MAX_APPS && "" !in r && Names(r) <= Cleaned(clean, names)
      && (|Cleaned(clean, names)| <= MAX_APPS ==> Names(r) == Cleaned(clean, names))
  {
    var c := Collect(clean, names, []);
    CollectFacts(clean, names, []);
    SortedFacts(c);
    FiniteSets.DistinctCount(c);
    assert Names(c) == set x | x in c;
    assert forall p :: p in Sanitize(clean, names) <==> p in Names(Sanitize(clean, names));
    if |c| == MAX_APPS && |Cleaned(clean, names)| <= MAX_APPS {
      FiniteSets.LargeSubsetIsAll(Names(c), Cleaned(clean, names));
    }
  }

  /** Two lists naming the same apps (at most a hundred) sanitize to the very same list, whatever their order,
      repeats and spelling. */
  lemma SameAppsSameList(clean: string -> string, a: seq<string>, b: seq<string>)
    requires Cleaned(clean, a) == Cleaned(clean, b) && |Cleaned(clean, a)| <= MAX_APPS
    ensures Sanitize(clean, a) == Sanitize(clean, b)
  {
    SanitizedIsCanonical(clean, a);
    SanitizedIsCanonical(clean, b);
    SortedListIsUnique(Sanitize(clean, a), Sanitize(clean, b));
  }

  /** Collecting from cleaned, different names takes them all. */
  lemma {:induction false} CollectAll(clean: string -> string, names: seq<string>, out: seq<string>)
    requires Distinct(out + names) && |out| + |names| <= MAX_APPS && "" !in names
    requires forall i :: 0 <= i < |names| ==> clean(names[i]) == names[i]
    ensures Collect(clean, names, out) == out + names
    decreases |names|
  {
    if names == [] {
      assert out + names == out;
    } else {
      assert (out + names)[|out|] == names[0];
      assert forall i :: 0 <= i < |out| ==> (out + names)[i] == out[i];
      assert names[0] !in out;
      assert out + [names[0]] + names[1..] == out + names;
      CollectAll(clean, names[1..], out + [names[0]]);
    }
  }

  /** Sanitizing twice changes nothing more, provided cleaning twice does not. */
  lemma SanitizeIsIdempotent(clean: string -> string, names: seq<string>)
    requires forall n :: clean(clean(n)) == clean(n)
    ensures Sanitize(clean, Sanitize(clean, names)) == Sanitize(clean, names)
  {
    var r := Sanitize(clean, names);
    SanitizedIsCanonical(clean, names);
    forall i | 0 <= i < |r| ensures clean(r[i]) == r[i] {
      assert r[i] in Names(r);
      assert r[i] in Cleaned(clean, names);
    }
    SortedIsDistinct(r);
    assert [] + r == r;
    CollectAll(clean, r, []);
    SortedFacts(r);
    SortedListIsUnique(Sorted(r), r);
  }

  lemma SortedIsDistinct(s: seq<string>)
    requires StrictlySorted(s)
    ensures Distinct(s)
  {
    forall i, j | 0 <= i < j < |s| ensures s[i] != s[j] {
      LexIrreflexive(s[i]);
    }
  }
}
