/** Following cursors, for any listing that serves slices of one fixed sequence. */
module KeysetWalk {

  const DEFAULT_LIMIT := 50
  const MAX_LIMIT := 100

  /** Served locally, rejected, or left to the phone. */
  datatype Answer<T> = Page(messages: seq<T>, nextCursor: string) | Rejected | AskPhone

  predicate LimitOk(limit: int) {
    0 <= limit <= MAX_LIMIT
  }

  function Effective(limit: int): int {
    if limit == 0 then DEFAULT_LIMIT else limit
  }

  ghost predicate SuffixOf<T>(s: seq<T>, t: seq<T>) {
    |s| <= |t| && s == t[|t| - |s|..]
  }

  /** The page of at most n rows that ends just before position k; cursorAt names positions. */
  function SliceBefore<T>(t: seq<T>, cursorAt: nat -> string, k: nat, n: int): Answer<T>
    requires k < |t|
  {
    if k == 0 || n <= 0 then AskPhone
    else if k < n then Page(t[..k], "")
    else Page(t[k - n..k], cursorAt(k - n))
  }

  /** A first answer: some newest part of t, which reaches back to position `top` at least, and its cursor. */
  ghost predicate StartsAt<T>(t: seq<T>, cursorAt: nat -> string, top: nat, a: Answer<T>) {
    if t == [] then a == AskPhone
    else
      && a.Page? && a.messages != [] && SuffixOf(a.messages, t)
      && |t| - |a.messages| <= top && a.nextCursor == cursorAt(|t| - |a.messages|)
  }

  lemma TailStarts<T>(older: seq<T>, page: seq<T>, cursorAt: nat -> string, top: nat)
    requires page != [] && |older| <= top
    ensures StartsAt(older + page, cursorAt, top, Page(page, cursorAt(|older|)))
  {
    assert (older + page)[|older|..] == page;
  }

  /** The cursor at position k is good for the slices behind it. */
  ghost predicate Continues<T(!new)>(t: seq<T>, cursorAt: nat -> string, serve: (string, int) -> Answer<T>, k: nat)
    requires k < |t|
  {
    && cursorAt(k) != ""
    && forall limit :: LimitOk(limit) ==> serve(cursorAt(k), limit) == SliceBefore(t, cursorAt, k, Effective(limit))
  }

  /** serve answers as a keyset listing of t. */
  ghost predicate Serves<T(!new)>(t: seq<T>, cursorAt: nat -> string, top: nat, serve: (string, int) -> Answer<T>) {
    && (forall limit :: LimitOk(limit) ==> StartsAt(t, cursorAt, top, serve("", limit)))
    && (forall k: nat :: k <= top && k < |t| ==> Continues(t, cursorAt, serve, k))
  }

  /** Pages obtained one after another, each behind the cursor of the one before, with any limits. */
  datatype Walk = First(limit: int) | Then(before: Walk, limit: int)

  function NextCursor<T>(a: Answer<T>): string {
    if a.Page? then a.nextCursor else ""
  }

  /** The answer to the walk's last request. */
  function Latest<T>(serve: (string, int) -> Answer<T>, w: Walk): Answer<T> {
    match w
    case First(limit) => serve("", limit)
    case Then(before, limit) => serve(NextCursor(Latest(serve, before)), limit)
  }

  /** Every request was legal, answered by a page, and made with a cursor that page before it gave out. */
  ghost predicate IsWalk<T>(serve: (string, int) -> Answer<T>, w: Walk) {
    && LimitOk(w.limit) && Latest(serve, w).Page?
    && (w.Then? ==> IsWalk(serve, w.before) && Latest(serve, w.before).nextCursor != "")
  }

  function Size(w: Walk): nat {
    match w
    case First(_) => 1
    case Then(before, _) => Size(before) + 1
  }

  /** Everything received so far, oldest first: each page goes in front of the ones before it. */
  ghost function Gathered<T>(serve: (string, int) -> Answer<T>, w: Walk): seq<T>
    requires IsWalk(serve, w)
  {
    match w
    case First(_) => Latest(serve, w).messages
    case Then(before, _) => Latest(serve, w).messages + Gathered(serve, before)
  }

  /** g is the newest part of t, and the cursor in hand names its oldest row or says nothing is left. */
  ghost predicate Reached<T>(t: seq<T>, cursorAt: nat -> string, top: nat, g: seq<T>, cursor: string) {
    && g != [] && SuffixOf(g, t) && |t| - |g| <= top
    && (cursor == "" ==> g == t)
    && (cursor != "" ==> cursor == cursorAt(|t| - |g|))
  }

  lemma ReachedStep<T>(t: seq<T>, cursorAt: nat -> string, top: nat, k: nat, n: int)
    requires k < |t| && k <= top && 0 < n && SliceBefore(t, cursorAt, k, n).Page?
    requires n <= k ==> cursorAt(k - n) != ""
    ensures var a := SliceBefore(t, cursorAt, k, n);
      Reached(t, cursorAt, top, a.messages + t[k..], a.nextCursor) && a.messages != []
  {
    if k < n {
      assert t[..k] + t[k..] == t;
    } else {
      assert t[k - n..k] + t[k..] == t[k - n..];
    }
  }

  lemma FirstReached<T(!new)>(t: seq<T>, cursorAt: nat -> string, top: nat, serve: (string, int) -> Answer<T>,
                              limit: int)
    requires Serves(t, cursorAt, top, serve) && LimitOk(limit) && serve("", limit).Page?
    ensures Reached(t, cursorAt, top, serve("", limit).messages, serve("", limit).nextCursor)
  {
    assert StartsAt(t, cursorAt, top, serve("", limit));
    assert Continues(t, cursorAt, serve, |t| - |serve("", limit).messages|);
  }

  lemma NextReached<T(!new)>(t: seq<T>, cursorAt: nat -> string, top: nat, serve: (string, int) -> Answer<T>,
                             g: seq<T>, cursor: string, limit: int)
    requires Serves(t, cursorAt, top, serve) && LimitOk(limit) && Reached(t, cursorAt, top, g, cursor)
    requires cursor != "" && serve(cursor, limit).Page?
    ensures Reached(t, cursorAt, top, serve(cursor, limit).messages + g, serve(cursor, limit).nextCursor)
    ensures serve(cursor, limit).messages != []
  {
    var k, n := |t| - |g|, Effective(limit);
    assert Continues(t, cursorAt, serve, k);
    assert serve(cursorAt(k), limit) == SliceBefore(t, cursorAt, k, n);
    assert n <= k ==> Continues(t, cursorAt, serve, k - n);
    ReachedStep(t, cursorAt, top, k, n);
  }

  lemma {:induction false} WalkInvariant<T(!new)>(t: seq<T>, cursorAt: nat -> string, top: nat,
                                                  serve: (string, int) -> Answer<T>, w: Walk)
    requires Serves(t, cursorAt, top, serve) && IsWalk(serve, w)
    ensures Reached(t, cursorAt, top, Gathered(serve, w), Latest(serve, w).nextCursor)
    ensures Size(w) <= |Gathered(serve, w)|
  {
    match w
    case First(limit) =>
      FirstReached(t, cursorAt, top, serve, limit);
    case Then(before, limit) =>
      WalkInvariant(t, cursorAt, top, serve, before);
      var cursor := Latest(serve, before).nextCursor;
      assert Latest(serve, w) == serve(cursor, limit);
      NextReached(t, cursorAt, top, serve, Gathered(serve, before), cursor, limit);
  }

  /** Following the cursors of such a listing, with any limits, gathers exactly t: what has been received is
      always t's newest part, the walk can go on unless it has all of t, and it ends within |t| pages. */
  lemma WalkIsComplete<T(!new)>(t: seq<T>, cursorAt: nat -> string, top: nat, serve: (string, int) -> Answer<T>,
                                w: Walk, limit: int)
    requires Serves(t, cursorAt, top, serve) && IsWalk(serve, w) && LimitOk(limit)
    ensures var g := Gathered(serve, w); var cursor := Latest(serve, w).nextCursor;
      && SuffixOf(g, t) && Size(w) <= |t|
      && (g == t <==> cursor == "" || serve(cursor, limit) == AskPhone)
      && (g != t ==> IsWalk(serve, Then(w, limit)))
  {
    WalkInvariant(t, cursorAt, top, serve, w);
    AtEndExactly(t, cursorAt, top, serve, Gathered(serve, w), Latest(serve, w).nextCursor, limit);
  }

  /** There is nothing more to fetch exactly when everything is gathered. */
  lemma AtEndExactly<T(!new)>(t: seq<T>, cursorAt: nat -> string, top: nat, serve: (string, int) -> Answer<T>,
                              g: seq<T>, cursor: string, limit: int)
    requires Serves(t, cursorAt, top, serve) && LimitOk(limit) && Reached(t, cursorAt, top, g, cursor)
    ensures g == t <==> cursor == "" || serve(cursor, limit) == AskPhone
    ensures g != t ==> cursor != "" && serve(cursor, limit).Page?
  {
    if cursor != "" {
      var k := |t| - |g|;
      assert Continues(t, cursorAt, serve, k);
      assert serve(cursorAt(k), limit) == SliceBefore(t, cursorAt, k, Effective(limit));
      assert k == 0 ==> t[0..] == t;
    }
  }
}
