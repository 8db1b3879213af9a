/** Adding up a number per entry of a sequence. */
module Sums {

  function Total<T>(s: seq<T>, f: T -> nat): nat {
    if s == [] then 0 else f(s[0]) + Total(s[1..], f)
  }

  lemma {:induction false} TotalSnoc<T>(s: seq<T>, x: T, f: T -> nat)
    ensures Total(s + [x], f) == Total(s, f) + f(x)
  {
    if s == [] {
      assert s + [x] == [x];
    } else {
      assert (s + [x])[1..] == s[1..] + [x];
      TotalSnoc(s[1..], x, f);
    }
  }

  /** Replacing an entry, or dropping it, changes the sum by that entry alone. */
  lemma {:induction false} TotalUpdate<T>(s: seq<T>, i: nat, x: T, f: T -> nat)
    requires i < |s|
    ensures Total(s[i := x], f) + f(s[i]) == Total(s, f) + f(x)
    ensures Total(s[..i] + s[i + 1..], f) + f(s[i]) == Total(s, f)
  {
    if i == 0 {
      assert s[..0] + s[1..] == s[1..];
      assert s[0 := x][1..] == s[1..];
    } else {
      TotalUpdate(s[1..], i - 1, x, f);
      assert s[i := x][1..] == s[1..][i - 1 := x];
      assert (s[..i] + s[i + 1..])[1..] == s[1..][..i - 1] + s[1..][i..];
    }
  }

  /** No entry exceeds the sum. */
  lemma {:induction false} EntryWithinTotal<T>(s: seq<T>, i: nat, f: T -> nat)
    requires i < |s|
    ensures f(s[i]) <= Total(s, f)
  {
    if i > 0 {
      EntryWithinTotal(s[1..], i - 1, f);
    }
  }

  /** A positive sum has a positive entry. */
  lemma {:induction false} PositiveTotal<T>(s: seq<T>, f: T -> nat) returns (i: nat)
    requires Total(s, f) > 0
    ensures i < |s| && f(s[i]) > 0
  {
    if f(s[0]) > 0 {
      i := 0;
    } else {
      i := PositiveTotal(s[1..], f);
      i := i + 1;
    }
  }
}
