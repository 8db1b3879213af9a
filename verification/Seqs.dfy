/** Sequences: the last entries, freedom from repeats, membership. */
module Seqs {

  /** The last min(n, |s|) entries. */
  function Last<T>(s: seq<T>, n: nat): (w: seq<T>)
    ensures |w| == if |s| < n then |s| else n
  {
    if |s| <= n then s else s[|s| - n..]
  }

  ghost predicate Distinct<T>(s: seq<T>) {
    forall i, j :: 0 <= i < j < |s| ==> s[i] != s[j]
  }

  lemma InSnoc<T>(s: seq<T>, x: T)
    requires s != []
    ensures x in s <==> x in s[..|s| - 1] || x == s[|s| - 1]
  {
    assert s == s[..|s| - 1] + [s[|s| - 1]];
  }

  lemma KeptInTail<T>(s: seq<T>, x: T)
    requires x in s && x != s[0]
    ensures x in s[1..]
  {
    var i :| 0 <= i < |s| && s[i] == x;
    assert s[1..][i - 1] == x;
  }

  lemma KeptInUpdate<T>(s: seq<T>, x: T, i: nat, y: T)
    requires i < |s| && x in s && x != s[i]
    ensures x in s[i := y] && x in s[..i] + s[i + 1..]
  {
    var k :| 0 <= k < |s| && s[k] == x;
    assert s[i := y][k] == x;
    assert (s[..i] + s[i + 1..])[if k < i then k else k - 1] == x;
  }
}
