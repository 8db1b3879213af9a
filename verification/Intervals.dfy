/** The interval set that remembers which bytes of a sparse part file have arrived. */
module Intervals {
  import opened Ints

  /** The half-open span [lo, hi). */
  datatype Interval = Interval(lo: int, hi: int)

  predicate Spans(r: Interval, b: int) {
    r.lo <= b < r.hi
  }

  /** Every span is non-empty, spans ascend, and neighbours are separated by at least one byte. */
  ghost predicate Canonical(rs: seq<Interval>) {
    && (forall i :: 0 <= i < |rs| ==> rs[i].lo < rs[i].hi)
    && (forall i, j :: 0 <= i < j < |rs| ==> rs[i].hi < rs[j].lo)
  }

  /** Byte b has arrived. */
  ghost predicate Holds(rs: seq<Interval>, b: int) {
    exists i :: 0 <= i < |rs| && Spans(rs[i], b)
  }

  /** All bytes that have arrived. */
  ghost function Arrived(rs: seq<Interval>): set<int> {
    if rs == [] then {} else Span(rs[0].lo, rs[0].hi) + Arrived(rs[1..])
  }

  ghost function Span(lo: int, hi: int): set<int> {
    set b | lo <= b < hi && Spans(Interval(lo, hi), b)
  }

  /** Recursive reference for inserting [lo, hi): skip, stop, or absorb. */
  function Insert(rs: seq<Interval>, lo: int, hi: int): seq<Interval> {
    if rs == [] then [Interval(lo, hi)]
    else if rs[0].hi < lo then [rs[0]] + Insert(rs[1..], lo, hi)
    else if hi < rs[0].lo then [Interval(lo, hi)] + rs
    else Insert(rs[1..], Min(lo, rs[0].lo), Max(hi, rs[0].hi))
  }

  /** What rangeAdd computes; a non-positive length changes nothing. */
  function Added(rs: seq<Interval>, off: int, ln: int): seq<Interval> {
    if ln <= 0 then rs else Insert(rs, off, off + ln)
  }

  /** What rangeCovered computes: some single span encloses the query. */
  predicate Covered(rs: seq<Interval>, off: int, ln: int) {
    ln <= 0 || exists i :: 0 <= i < |rs| && rs[i].lo <= off && off + ln <= rs[i].hi
  }

  lemma HoldsSplit(rs: seq<Interval>, b: int)
    requires rs != []
    ensures Holds(rs, b) <==> Spans(rs[0], b) || Holds(rs[1..], b)
  {
    if Holds(rs, b) && !Spans(rs[0], b) {
      var i :| 0 <= i < |rs| && Spans(rs[i], b);
      assert rs[1..][i - 1] == rs[i];
    }
    if Holds(rs[1..], b) {
      var i :| 0 <= i < |rs[1..]| && Spans(rs[1..][i], b);
      assert rs[i + 1] == rs[1..][i];
    }
  }

  lemma HoldsConcat(xs: seq<Interval>, ys: seq<Interval>, b: int)
    ensures Holds(xs + ys, b) <==> Holds(xs, b) || Holds(ys, b)
  {
    if Holds(xs, b) {
      var i :| 0 <= i < |xs| && Spans(xs[i], b);
      assert (xs + ys)[i] == xs[i];
    }
    if Holds(ys, b) {
      var i :| 0 <= i < |ys| && Spans(ys[i], b);
      assert (xs + ys)[|xs| + i] == ys[i];
    }
  }

  /** Inserting denotes exactly the union, for lists in any shape. */
  lemma {:induction false} InsertIsUnion(rs: seq<Interval>, lo: int, hi: int, b: int)
    requires lo < hi
    ensures Holds(Insert(rs, lo, hi), b) <==> Holds(rs, b) || lo <= b < hi
  {
    if rs == [] {
      assert Insert(rs, lo, hi)[0] == Interval(lo, hi);
    } else if rs[0].hi < lo {
      InsertIsUnion(rs[1..], lo, hi, b);
      HoldsSplit(rs, b);
      HoldsConcat([rs[0]], Insert(rs[1..], lo, hi), b);
      HoldsSplit([rs[0]], b);
    } else if hi < rs[0].lo {
      HoldsConcat([Interval(lo, hi)], rs, b);
      HoldsSplit([Interval(lo, hi)], b);
    } else {
      InsertIsUnion(rs[1..], Min(lo, rs[0].lo), Max(hi, rs[0].hi), b);
      HoldsSplit(rs, b);
    }
  }

  lemma ConsIsCanonical(r: Interval, rs: seq<Interval>)
    requires Canonical(rs) && r.lo < r.hi
    requires rs != [] ==> r.hi < rs[0].lo
    ensures Canonical([r] + rs)
  {
    assert forall j :: 0 < j < |rs| ==> rs[0].hi < rs[j].lo;
  }

  /** Inserting keeps the list canonical and never reaches below what was already lowest. */
  lemma {:induction false} InsertIsCanonical(rs: seq<Interval>, lo: int, hi: int, floor: int)
    requires Canonical(rs) && lo < hi && floor < lo
    requires rs != [] ==> floor < rs[0].lo
    ensures Canonical(Insert(rs, lo, hi))
    ensures Insert(rs, lo, hi) != [] && floor < Insert(rs, lo, hi)[0].lo
  {
    if rs == [] {
    } else if rs[0].hi < lo {
      InsertIsCanonical(rs[1..], lo, hi, rs[0].hi);
      ConsIsCanonical(rs[0], Insert(rs[1..], lo, hi));
    } else if hi < rs[0].lo {
      ConsIsCanonical(Interval(lo, hi), rs);
    } else {
      InsertIsCanonical(rs[1..], Min(lo, rs[0].lo), Max(hi, rs[0].hi), floor);
    }
  }

  /** rangeAdd, main result: the set stays canonical and becomes exactly the union. */
  lemma AddedIsCanonicalUnion(rs: seq<Interval>, off: int, ln: int)
    requires Canonical(rs)
    ensures Canonical(Added(rs, off, ln))
    ensures forall b :: Holds(Added(rs, off, ln), b) <==> Holds(rs, b) || off <= b < off + ln
  {
    if ln > 0 {
      InsertIsCanonical(rs, off, off + ln, Min(off, if rs == [] then off else rs[0].lo) - 1);
      forall b ensures Holds(Added(rs, off, ln), b) <==> Holds(rs, b) || off <= b < off + ln {
        InsertIsUnion(rs, off, off + ln, b);
      }
    }
  }

  lemma GapAfter(rs: seq<Interval>, i: nat)
    requires Canonical(rs) && i < |rs|
    ensures !Holds(rs, rs[i].hi)
  {
  }

  /** rangeCovered, main result: on a canonical set it answers "has every queried byte arrived?" exactly. */
  lemma CoveredIsExact(rs: seq<Interval>, off: int, ln: int)
    requires Canonical(rs)
    ensures Covered(rs, off, ln) <==> forall b :: off <= b < off + ln ==> Holds(rs, b)
  {
    if ln > 0 {
      if Covered(rs, off, ln) {
        var i :| 0 <= i < |rs| && rs[i].lo <= off && off + ln <= rs[i].hi;
        assert forall b :: off <= b < off + ln ==> Spans(rs[i], b);
      }
      if forall b :: off <= b < off + ln ==> Holds(rs, b) {
        assert Holds(rs, off);
        var i :| 0 <= i < |rs| && Spans(rs[i], off);
        GapAfter(rs, i);
      }
    }
  }

  /** A canonical set is determined by the bytes it denotes, so arrival order leaves no trace in it. */
  lemma {:induction false} CanonicalIsUnique(xs: seq<Interval>, ys: seq<Interval>)
    requires Canonical(xs) && Canonical(ys)
    requires forall b :: Holds(xs, b) <==> Holds(ys, b)
    ensures xs == ys
  {
    FirstIsLeast(xs);
    FirstIsLeast(ys);
    if xs != [] {
      SameFirstEnd(xs, ys);
      SameFirstEnd(ys, xs);
      SameTail(xs, ys);
      CanonicalIsUnique(xs[1..], ys[1..]);
      assert xs == [xs[0]] + xs[1..] && ys == [ys[0]] + ys[1..];
    }
  }

  lemma SameTail(xs: seq<Interval>, ys: seq<Interval>)
    requires Canonical(xs) && Canonical(ys) && xs != [] && ys != [] && xs[0] == ys[0]
    requires forall b :: Holds(xs, b) <==> Holds(ys, b)
    ensures Canonical(xs[1..]) && Canonical(ys[1..])
    ensures forall b :: Holds(xs[1..], b) <==> Holds(ys[1..], b)
  {
    forall b ensures Holds(xs[1..], b) <==> Holds(ys[1..], b) {
      HoldsSplit(xs, b);
      HoldsSplit(ys, b);
      TailIsAbove(xs, b);
      TailIsAbove(ys, b);
    }
  }

  lemma FirstIsLeast(rs: seq<Interval>)
    requires Canonical(rs)
    ensures rs != [] ==> Holds(rs, rs[0].lo)
    ensures forall b :: Holds(rs, b) ==> rs != [] && rs[0].lo <= b
  {
    if rs != [] {
      assert Spans(rs[0], rs[0].lo);
    }
  }

  lemma TailIsAbove(rs: seq<Interval>, b: int)
    requires Canonical(rs) && rs != []
    ensures Holds(rs[1..], b) ==> rs[0].hi < b
  {
    if Holds(rs[1..], b) {
      var i :| 0 <= i < |rs[1..]| && Spans(rs[1..][i], b);
      assert rs[1..][i] == rs[i + 1];
    }
  }

  lemma SameFirstEnd(xs: seq<Interval>, ys: seq<Interval>)
    requires Canonical(xs) && Canonical(ys) && xs != [] && ys != []
    requires xs[0].lo == ys[0].lo
    requires forall b :: Holds(xs, b) <==> Holds(ys, b)
    ensures xs[0].hi <= ys[0].hi
  {
    if ys[0].hi < xs[0].hi {
      assert Spans(xs[0], ys[0].hi);
      assert Holds(xs, ys[0].hi);
      HoldsSplit(ys, ys[0].hi);
      TailIsAbove(ys, ys[0].hi);
      assert false;
    }
  }

  /** Two chunks may arrive in either order: the recorded set is the same. */
  lemma AddCommutes(rs: seq<Interval>, off1: int, ln1: int, off2: int, ln2: int)
    requires Canonical(rs)
    ensures Added(Added(rs, off1, ln1), off2, ln2) == Added(Added(rs, off2, ln2), off1, ln1)
  {
    AddedIsCanonicalUnion(rs, off1, ln1);
    AddedIsCanonicalUnion(rs, off2, ln2);
    AddedIsCanonicalUnion(Added(rs, off1, ln1), off2, ln2);
    AddedIsCanonicalUnion(Added(rs, off2, ln2), off1, ln1);
    CanonicalIsUnique(Added(Added(rs, off1, ln1), off2, ln2), Added(Added(rs, off2, ln2), off1, ln1));
  }

  lemma AppendShifts(out: seq<Interval>, r: Interval, rest: seq<Interval>)
    ensures (out + [r]) + rest == out + ([r] + rest)
  {
  }

  lemma InsertUnfolds(rs: seq<Interval>, k: nat, lo: int, hi: int)
    requires k < |rs|
    ensures rs[k..] == [rs[k]] + rs[k + 1..]
    ensures rs[k].hi < lo ==> Insert(rs[k..], lo, hi) == [rs[k]] + Insert(rs[k + 1..], lo, hi)
    ensures rs[k].hi >= lo && hi < rs[k].lo ==> Insert(rs[k..], lo, hi) == [Interval(lo, hi)] + rs[k..]
    ensures rs[k].hi >= lo && hi >= rs[k].lo ==>
              Insert(rs[k..], lo, hi) == Insert(rs[k + 1..], Min(lo, rs[k].lo), Max(hi, rs[k].hi))
  {
    assert rs[k..][1..] == rs[k + 1..];
  }

  /** Insert [off, off+ln) in one pass, merging every span it overlaps or touches. */
  method RangeAdd(ranges: seq<Interval>, off: int, ln: int) returns (out: seq<Interval>)
    requires Canonical(ranges)
    ensures out == Added(ranges, off, ln)
    ensures Canonical(out)
    ensures forall b :: Holds(out, b) <==> Holds(ranges, b) || off <= b < off + ln
  {
    if ln <= 0 {
      return ranges;
    }
    var start, end := off, off + ln;
    out := [];
    var inserted := false;
    for k := 0 to |ranges|
      invariant start < end
      invariant !inserted ==> out + Insert(ranges[k..], start, end) == Added(ranges, off, ln)
      invariant inserted ==> out + ranges[k..] == Added(ranges, off, ln)
      invariant inserted ==> forall i :: k <= i < |ranges| ==> end < ranges[i].lo
    {
      var r := ranges[k];
      InsertUnfolds(ranges, k, start, end);
      assert r.lo < r.hi;
      if r.hi < start {
        AppendShifts(out, r, Insert(ranges[k + 1..], start, end));
        out := out + [r];
        continue;
      }
      if r.lo > end {
        if !inserted {
          AppendShifts(out, Interval(start, end), ranges[k..]);
          out := out + [Interval(start, end)];
          inserted := true;
        }
        AppendShifts(out, r, ranges[k + 1..]);
        out := out + [r];
        continue;
      }
      start := Min(start, r.lo);
      end := Max(end, r.hi);
    }
    assert ranges[|ranges|..] == [];
    if !inserted {
      out := out + [Interval(start, end)];
    }
    assert out == Added(ranges, off, ln);
    AddedIsCanonicalUnion(ranges, off, ln);
  }

  lemma SpanSize(lo: int, hi: int)
    requires lo <= hi
    ensures |Span(lo, hi)| == hi - lo
    decreases hi - lo
  {
    if lo < hi {
      SpanSize(lo + 1, hi);
      assert Span(lo, hi) == {lo} + Span(lo + 1, hi);
    } else {
      assert Span(lo, hi) == {};
    }
  }

  lemma {:induction false} ArrivedIsHolds(rs: seq<Interval>, b: int)
    ensures b in Arrived(rs) <==> Holds(rs, b)
  {
    if rs != [] {
      ArrivedIsHolds(rs[1..], b);
      HoldsSplit(rs, b);
    }
  }

  lemma ArrivedSnoc(rs: seq<Interval>, k: nat)
    requires Canonical(rs) && k < |rs|
    ensures |Arrived(rs[..k + 1])| == |Arrived(rs[..k])| + rs[k].hi - rs[k].lo
  {
    var before, after := Arrived(rs[..k]), Arrived(rs[..k + 1]);
    forall b ensures b in after <==> b in before || b in Span(rs[k].lo, rs[k].hi) {
      ArrivedIsHolds(rs[..k], b);
      ArrivedIsHolds(rs[..k + 1], b);
      assert rs[..k + 1] == rs[..k] + [rs[k]];
      HoldsConcat(rs[..k], [rs[k]], b);
      HoldsSplit([rs[k]], b);
    }
    assert after == before + Span(rs[k].lo, rs[k].hi);
    forall b | b in before ensures b < rs[k].lo {
      ArrivedIsHolds(rs[..k], b);
      var i :| 0 <= i < |rs[..k]| && Spans(rs[..k][i], b);
      assert rs[..k][i] == rs[i];
    }
    assert before !! Span(rs[k].lo, rs[k].hi);
    SpanSize(rs[k].lo, rs[k].hi);
  }

  /** The progress figure is the number of distinct bytes received. */
  method RangeBytes(ranges: seq<Interval>) returns (n: int)
    requires Canonical(ranges)
    ensures n == |Arrived(ranges)|
    ensures forall b :: b in Arrived(ranges) <==> Holds(ranges, b)
  {
    n := 0;
    for k := 0 to |ranges|
      invariant n == |Arrived(ranges[..k])|
    {
      ArrivedSnoc(ranges, k);
      n := n + (ranges[k].hi - ranges[k].lo);
    }
    assert ranges[..|ranges|] == ranges;
    forall b ensures b in Arrived(ranges) <==> Holds(ranges, b) {
      ArrivedIsHolds(ranges, b);
    }
  }

  /** Has [off, off+ln) fully arrived? */
  method RangeCovered(ranges: seq<Interval>, off: int, ln: int) returns (ok: bool)
    requires Canonical(ranges)
    ensures ok <==> forall b :: off <= b < off + ln ==> Holds(ranges, b)
    ensures ok == Covered(ranges, off, ln)
  {
    CoveredIsExact(ranges, off, ln);
    if ln <= 0 {
      return true;
    }
    var end := off + ln;
    for k := 0 to |ranges|
      invariant forall i :: 0 <= i < k ==> !(ranges[i].lo <= off && end <= ranges[i].hi)
    {
      if ranges[k].lo <= off && ranges[k].hi >= end {
        return true;
      }
    }
    return false;
  }
}
