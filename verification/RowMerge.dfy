/** Merging a page of rows into a cache, keyed by row id. */
module RowMerge {
  import opened Options
  import opened SmsPush

  /** The keys of the rows; a row without a key is never a duplicate. */
  function KeySet<R, K>(rows: seq<R>, key: R -> Option<K>): set<K> {
    set i | 0 <= i < |rows| && key(rows[i]).Some? :: key(rows[i]).value
  }

  /** The rows whose key was not seen before, first occurrences only, in order. */
  function Unseen<R, K(==)>(seen: set<K>, src: seq<R>, key: R -> Option<K>): seq<R>
    decreases |src|
  {
    if src == [] then []
    else if key(src[0]).None? then [src[0]] + Unseen(seen, src[1..], key)
    else if key(src[0]).value in seen then Unseen(seen, src[1..], key)
    else [src[0]] + Unseen(seen + {key(src[0]).value}, src[1..], key)
  }

  /** mergeSMSThreads, mergeContactEntries; mergeSMSMessages before its sort. */
  function Merged<R, K(==)>(dst: seq<R>, src: seq<R>, key: R -> Option<K>): seq<R> {
    if dst == [] then src else dst + Unseen(KeySet(dst, key), src, key)
  }

  method MergeRows<R, K(==)>(dst: seq<R>, src: seq<R>, key: R -> Option<K>) returns (out: seq<R>)
    ensures out == Merged(dst, src, key)
  {
    if |dst| == 0 {
      return src;
    }
    var seen: set<K> := {};
    for i := 0 to |dst|
      invariant seen == KeySet(dst[..i], key)
    {
      KeySetSnoc(dst[..i], dst[i], key);
      assert dst[..i] + [dst[i]] == dst[..i + 1];
      seen := seen + if key(dst[i]).Some? then {key(dst[i]).value} else {};
    }
    assert dst[..|dst|] == dst;
    out := dst;
    for i := 0 to |src|
      invariant out + Unseen(seen, src[i..], key) == Merged(dst, src, key)
    {
      assert src[i..][0] == src[i] && src[i..][1..] == src[i + 1..];
      ghost var rest := Unseen(seen, src[i..], key);
      if key(src[i]).Some? {
        if key(src[i]).value in seen {
          continue;
        }
        seen := seen + {key(src[i]).value};
      }
      assert rest == [src[i]] + Unseen(seen, src[i + 1..], key);
      out := out + [src[i]];
    }
    assert out + [] == out;
  }

  lemma KeySetSnoc<R, K>(rows: seq<R>, x: R, key: R -> Option<K>)
    ensures KeySet(rows + [x], key) == KeySet(rows, key) + if key(x).Some? then {key(x).value} else {}
  {
    var all := rows + [x];
    assert all[|rows|] == x;
    assert forall i :: 0 <= i < |rows| ==> all[i] == rows[i];
  }

  /** No two rows share a key. */
  ghost predicate DistinctKeys<R, K>(rows: seq<R>, key: R -> Option<K>) {
    forall i, j :: 0 <= i < j < |rows| && key(rows[i]).Some? ==> key(rows[i]) != key(rows[j])
  }

  /** Key k belongs to none of the rows. */
  ghost predicate Lacks<R, K>(rows: seq<R>, k: K, key: R -> Option<K>) {
    forall i :: 0 <= i < |rows| ==> key(rows[i]) != Some(k)
  }

  lemma {:induction false} UnseenIsDistinct<R, K(!new)>(seen: set<K>, src: seq<R>, key: R -> Option<K>)
    ensures DistinctKeys(Unseen(seen, src, key), key)
    ensures forall k :: k in seen ==> Lacks(Unseen(seen, src, key), k, key)
    decreases |src|
  {
    if src != [] {
      var s := if key(src[0]).Some? then seen + {key(src[0]).value} else seen;
      UnseenIsDistinct(s, src[1..], key);
      UnseenIsDistinct(seen, src[1..], key);
    }
  }

  /** A merge never brings a key in twice, except that an empty cache takes the page as it is: so the result is
      free of duplicates exactly when the cache was, and either it was non-empty or the page was free of them. */
  lemma MergedIsDistinctExactly<R, K(!new)>(dst: seq<R>, src: seq<R>, key: R -> Option<K>)
    ensures DistinctKeys(Merged(dst, src, key), key) <==>
            DistinctKeys(dst, key) && (dst != [] || DistinctKeys(src, key))
  {
    if dst != [] {
      UnseenIsDistinct(KeySet(dst, key), src, key);
      var extra := Unseen(KeySet(dst, key), src, key);
      DistinctAppend(dst, extra, key);
    }
  }

  lemma DistinctAppend<R, K(!new)>(a: seq<R>, b: seq<R>, key: R -> Option<K>)
    requires DistinctKeys(b, key) && forall k :: k in KeySet(a, key) ==> Lacks(b, k, key)
    ensures DistinctKeys(a + b, key) <==> DistinctKeys(a, key)
  {
    var ab := a + b;
    assert forall i :: 0 <= i < |a| ==> ab[i] == a[i];
    if DistinctKeys(a, key) {
      forall i, j | 0 <= i < j < |ab| && key(ab[i]).Some? ensures key(ab[i]) != key(ab[j]) {
        if i < |a| <= j {
          assert key(a[i]).value in KeySet(a, key);
          assert Lacks(b, key(a[i]).value, key);
          assert ab[j] == b[j - |a|];
        } else if |a| <= i {
          assert ab[i] == b[i - |a|] && ab[j] == b[j - |a|];
        }
      }
    }
    if DistinctKeys(ab, key) {
      forall i, j | 0 <= i < j < |a| && key(a[i]).Some? ensures key(a[i]) != key(a[j]) {
        assert key(ab[i]) != key(ab[j]);
      }
    }
  }

  /** Nothing is lost from the cache, and nothing is invented: every row comes from one of the two. */
  lemma {:induction false} UnseenIsFromPage<R, K>(seen: set<K>, src: seq<R>, key: R -> Option<K>)
    ensures forall r :: r in Unseen(seen, src, key) ==> r in src
    decreases |src|
  {
    if src != [] {
      var s := if key(src[0]).Some? then seen + {key(src[0]).value} else seen;
      UnseenIsFromPage(s, src[1..], key);
      UnseenIsFromPage(seen, src[1..], key);
    }
  }

  lemma MergedKeepsAndAdds<R, K>(dst: seq<R>, src: seq<R>, key: R -> Option<K>)
    ensures dst <= Merged(dst, src, key)
    ensures forall r :: r in Merged(dst, src, key) ==> r in dst || r in src
  {
    UnseenIsFromPage(KeySet(dst, key), src, key);
  }

  /** Row i of a page is news to the cache: it has no key, or one that neither a cached row nor an earlier row of the
      page has. */
  ghost predicate IsNews<R, K>(dst: seq<R>, src: seq<R>, key: R -> Option<K>, i: nat)
    requires i < |src|
  {
    key(src[i]).Some? ==>
      && (forall j :: 0 <= j < |dst| ==> key(dst[j]) != key(src[i]))
      && (forall j :: 0 <= j < i ==> key(src[j]) != key(src[i]))
  }

  /** The news among the first n rows, in order. */
  ghost function News<R, K>(dst: seq<R>, src: seq<R>, key: R -> Option<K>, n: nat): seq<R>
    requires n <= |src|
  {
    if n == 0 then []
    else News(dst, src, key, n - 1) + if IsNews(dst, src, key, n - 1) then [src[n - 1]] else []
  }

  /** The keys of the cache and of the first n rows. */
  ghost function SeenBefore<R, K>(dst: seq<R>, src: seq<R>, key: R -> Option<K>, n: nat): set<K>
    requires n <= |src|
  {
    KeySet(dst, key) + KeySet(src[..n], key)
  }

  lemma NewsIsUnseen<R, K>(dst: seq<R>, src: seq<R>, key: R -> Option<K>, n: nat)
    requires n < |src|
    ensures IsNews(dst, src, key, n) <==>
            key(src[n]).None? || key(src[n]).value !in SeenBefore(dst, src, key, n)
  {
    if key(src[n]).Some? && key(src[n]).value !in SeenBefore(dst, src, key, n) {
      forall j | 0 <= j < |dst| ensures key(dst[j]) != key(src[n]) {
        assert key(dst[j]).Some? ==> key(dst[j]).value in KeySet(dst, key);
      }
      forall j | 0 <= j < n ensures key(src[j]) != key(src[n]) {
        assert src[..n][j] == src[j];
        assert key(src[j]).Some? ==> key(src[j]).value in KeySet(src[..n], key);
      }
    }
  }

  lemma {:induction false} UnseenIsNews<R, K(!new)>(dst: seq<R>, src: seq<R>, key: R -> Option<K>, n: nat)
    requires n <= |src|
    ensures News(dst, src, key, n) + Unseen(SeenBefore(dst, src, key, n), src[n..], key) ==
            Unseen(KeySet(dst, key), src, key)
  {
    if n == 0 {
      assert src[0..] == src && SeenBefore(dst, src, key, 0) == KeySet(dst, key);
    } else {
      UnseenIsNews(dst, src, key, n - 1);
      NewsIsUnseen(dst, src, key, n - 1);
      UnseenStep(dst, src, key, n - 1);
    }
  }

  lemma UnseenStep<R, K>(dst: seq<R>, src: seq<R>, key: R -> Option<K>, n: nat)
    requires n < |src|
    ensures Unseen(SeenBefore(dst, src, key, n), src[n..], key) ==
      (if key(src[n]).None? || key(src[n]).value !in SeenBefore(dst, src, key, n) then [src[n]] else [])
      + Unseen(SeenBefore(dst, src, key, n + 1), src[n + 1..], key)
  {
    assert src[n..][1..] == src[n + 1..];
    assert src[..n + 1] == src[..n] + [src[n]];
    KeySetSnoc(src[..n], src[n], key);
    var seen, next := SeenBefore(dst, src, key, n), SeenBefore(dst, src, key, n + 1);
    assert next == seen + if key(src[n]).Some? then {key(src[n]).value} else {};
    if key(src[n]).None? || key(src[n]).value in seen {
      assert next == seen;
    }
  }

  /** Main result. A merge into a cache that is not empty appends exactly the news of the page, in the page's order;
      an empty cache takes the page as it is. */
  lemma MergedIsExactlyTheNews<R, K(!new)>(dst: seq<R>, src: seq<R>, key: R -> Option<K>)
    ensures Merged(dst, src, key) == if dst == [] then src else dst + News(dst, src, key, |src|)
  {
    UnseenIsNews(dst, src, key, |src|);
    assert src[|src|..] == [];
    assert Unseen(SeenBefore(dst, src, key, |src|), [], key) == [];
  }

  lemma {:induction false} AllNews<R, K>(dst: seq<R>, src: seq<R>, key: R -> Option<K>, n: nat)
    requires n <= |src| && DistinctKeys(dst + src, key)
    ensures News(dst, src, key, n) == src[..n]
  {
    if n > 0 {
      AllNews(dst, src, key, n - 1);
      var all, i := dst + src, n - 1;
      assert all[|dst| + i] == src[i];
      forall j | 0 <= j < |dst| && key(src[i]).Some? ensures key(dst[j]) != key(src[i]) {
        assert all[j] == dst[j];
        assert key(dst[j]).Some? ==> key(all[j]) != key(all[|dst| + i]);
      }
      forall j | 0 <= j < i && key(src[i]).Some? ensures key(src[j]) != key(src[i]) {
        assert all[|dst| + j] == src[j];
        assert key(src[j]).Some? ==> key(all[|dst| + j]) != key(all[|dst| + i]);
      }
      assert src[..n] == src[..n - 1] + [src[n - 1]];
    }
  }

  /** Rows with different keys are all appended. */
  lemma MergedOfDistinct<R, K(!new)>(dst: seq<R>, src: seq<R>, key: R -> Option<K>)
    requires DistinctKeys(dst + src, key)
    ensures Merged(dst, src, key) == dst + src
  {
    MergedIsExactlyTheNews(dst, src, key);
    AllNews(dst, src, key, |src|);
    assert src[..|src|] == src;
    assert dst == [] ==> dst + src == src;
  }

  // ---------------------------------------------------------------- message transcripts

  function MessageKey(m: Message): Option<int> {
    if m.id == 0 then None else Some(m.id)
  }

  predicate NotAfter(a: Message, b: Message) {
    a.date < b.date || (a.date == b.date && a.id <= b.id)
  }

  function InsertSorted(m: Message, s: seq<Message>): seq<Message> {
    if s == [] || NotAfter(m, s[0]) then [m] + s else [s[0]] + InsertSorted(m, s[1..])
  }

  /** The sort by (date, id). */
  function SortMessages(s: seq<Message>): seq<Message> {
    if s == [] then [] else InsertSorted(s[0], SortMessages(s[1..]))
  }

  /** mergeSMSMessages */
  function MergedMessages(dst: seq<Message>, src: seq<Message>): seq<Message> {
    SortMessages(Merged(dst, src, MessageKey))
  }

  ghost predicate Chronological(s: seq<Message>) {
    forall i, j :: 0 <= i < j < |s| ==> NotAfter(s[i], s[j])
  }

  lemma {:induction false} InsertKeepsOrder(m: Message, s: seq<Message>)
    requires Chronological(s)
    ensures Chronological(InsertSorted(m, s)) && multiset(InsertSorted(m, s)) == multiset(s) + multiset{m}
  {
    if s != [] && !NotAfter(m, s[0]) {
      assert s == [s[0]] + s[1..];
      InsertKeepsOrder(m, s[1..]);
      var r := InsertSorted(m, s[1..]);
      forall i | 0 <= i < |r| ensures NotAfter(s[0], r[i]) {
        assert r[i] in multiset(r);
        assert r[i] == m || r[i] in s[1..];
      }
    }
  }

  /** A merged transcript is in order, and holds exactly the merged rows. */
  lemma {:induction false} SortIsOrderedPermutation(s: seq<Message>)
    ensures Chronological(SortMessages(s)) && multiset(SortMessages(s)) == multiset(s)
  {
    if s != [] {
      SortIsOrderedPermutation(s[1..]);
      InsertKeepsOrder(s[0], SortMessages(s[1..]));
      assert s == [s[0]] + s[1..];
    }
  }

  lemma MergedMessagesComeFrom(dst: seq<Message>, src: seq<Message>)
    ensures Chronological(MergedMessages(dst, src))
    ensures forall m :: m in MergedMessages(dst, src) ==> m in dst || m in src
    ensures forall m :: m in dst ==> m in MergedMessages(dst, src)
  {
    MergedKeepsAndAdds(dst, src, MessageKey);
    var merged := Merged(dst, src, MessageKey);
    SortIsOrderedPermutation(merged);
    assert forall m :: m in SortMessages(merged) <==> m in multiset(SortMessages(merged));
    assert forall m :: m in merged <==> m in multiset(merged);
    assert forall m :: m in dst ==> m in merged;
  }
}
