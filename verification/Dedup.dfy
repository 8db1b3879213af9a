/** The bounded seen-set behind at-least-once delivery. */
module Dedup {
  import opened Seqs

  const DEFAULT_CAP: nat := 500

  function Keys<T>(s: seq<T>): set<T> {
    set k | k in s
  }

  lemma KeysOfSnoc<T>(s: seq<T>, key: T)
    requires Distinct(s) && key !in s
    ensures Distinct(s + [key]) && Keys(s + [key]) == Keys(s) + {key}
  {
    assert forall k :: k in s + [key] <==> k in s || k == key;
  }

  lemma KeysOfTail<T>(s: seq<T>, i: nat)
    requires Distinct(s) && i < |s|
    ensures Keys(s[i + 1..]) == Keys(s[i..]) - {s[i]}
  {
    assert s[i..] == [s[i]] + s[i + 1..];
    assert s[i] !in s[i + 1..];
  }

  lemma HistoryGrows<T>(h: seq<T>, cap: nat, key: T)
    requires History(h, cap) && key !in Last(h, cap)
    ensures History(h + [key], cap)
  {
    var g := h + [key];
    forall q | 0 <= q < |g| ensures g[q] !in Last(g[..q], cap) {
      assert g[..q] == h[..q];
      assert h[..|h|] == h;
    }
  }

  /** Dropping the overflow of one more entry is taking the last of the longer history. */
  lemma LastOfSnoc<T>(h: seq<T>, cap: nat, key: T)
    requires cap > 0
    ensures var w := Last(h, cap) + [key];
      Last(h + [key], cap) == if |w| > cap then w[|w| - cap..] else w
  {
  }

  class DedupCache {
    const cap: nat
    var seen: set<string>
    var ord: seq<string>
    /** Every key ever accepted, oldest first. */
    ghost var accepted: seq<string>

    ghost predicate Valid()
      reads this
    {
      cap > 0 && ord == Last(accepted, cap) && Distinct(ord) && seen == Keys(ord) && History(accepted, cap)
    }

    constructor (cap: int)
      ensures Valid() && accepted == [] && this.cap == if cap <= 0 then DEFAULT_CAP else cap
    {
      this.cap := if cap <= 0 then DEFAULT_CAP else cap;
      seen, ord, accepted := {}, [], [];
    }

    method Seen(key: string) returns (r: bool)
      requires Valid()
      ensures r <==> key != "" && key in Last(accepted, cap)
    {
      if key == "" {
        return false;
      }
      r := key in seen;
    }

    /** Accept a key exactly when it is neither empty nor among the last `cap` accepted ones. */
    method Mark(key: string) returns (isNew: bool)
      requires Valid()
      modifies this
      ensures Valid()
      ensures isNew <==> key != "" && key !in Last(old(accepted), cap)
      ensures accepted == if isNew then old(accepted) + [key] else old(accepted)
    {
      if key == "" || key in seen {
        return false;
      }
      KeysOfSnoc(ord, key);
      LastOfSnoc(accepted, cap, key);
      HistoryGrows(accepted, cap, key);
      seen := seen + {key};
      ord := ord + [key];
      accepted := accepted + [key];
      if |ord| > cap {
        Evict();
      }
      isNew := true;
    }

    /** Forget the oldest keys beyond the capacity. */
    method Evict()
      requires |ord| > cap && Distinct(ord) && seen == Keys(ord)
      modifies this`seen, this`ord
      ensures ord == old(ord)[|old(ord)| - cap..] && Distinct(ord) && seen == Keys(ord)
    {
      var overflow := |ord| - cap;
      var i := 0;
      assert ord[0..] == ord;
      while i < overflow
        invariant 0 <= i <= overflow
        invariant seen == Keys(ord[i..])
        modifies this`seen
      {
        KeysOfTail(ord, i);
        seen := seen - {ord[i]};
        i := i + 1;
      }
      ord := ord[overflow..];
    }
  }

  // ---------------------------------------------------------------- what the window means for a history

  /** A history that the cache can produce: nothing is accepted while the window still holds it. */
  ghost predicate History<T>(h: seq<T>, cap: nat) {
    forall q :: 0 <= q < |h| ==> h[q] !in Last(h[..q], cap)
  }

  /** So two accepts of one key are more than `cap` accepts apart. */
  lemma RepeatsAreFarApart<T>(h: seq<T>, cap: nat, p: nat, q: nat)
    requires History(h, cap) && p < q < |h|
    ensures h[p] == h[q] ==> q - p > cap
  {
    var w := Last(h[..q], cap);
    var base := q - |w|;
    assert forall i :: 0 <= i < |w| ==> w[i] != h[q];
    assert p >= base ==> w[p - base] == h[p];
  }

  /** A key is still refused exactly while fewer than `cap` others were accepted after it. */
  lemma RefusedExactly<T>(h: seq<T>, cap: nat, p: nat)
    requires p < |h| && forall q :: p < q < |h| ==> h[q] != h[p]
    ensures h[p] in Last(h, cap) <==> |h| - p <= cap
  {
    var w := Last(h, cap);
    var base := |h| - |w|;
    if |h| - p <= cap {
      assert w[p - base] == h[p];
    } else {
      forall i | 0 <= i < |w| ensures w[i] != h[p] {
        assert w[i] == h[base + i];
      }
    }
  }
}
