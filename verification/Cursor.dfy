/** The keyset paging cursor: an opaque (sort key, row id) pair, and the lenient legacy forms. */
module Cursor {
  import opened Options
  import opened GoText
  import opened Decimal
  import Base64Url

  const MAX_CURSOR_LEN := 256
  const PREFIX := "v2."

  datatype Pair = Pair(sortKey: string, rowId: int)

  /** EncodeKeysetCursor; a negative row id counts as 0. */
  function Encode(sortKey: string, rowId: int): string
    requires IsBytes(sortKey)
  {
    PREFIX + Base64Url.Encode(sortKey) + "." + Format(if rowId < 0 then 0 else rowId)
  }

  /** splitCursorPair: split at the last separator; the tail must be a non-negative int64. */
  function Split(s: string, sep: char): Option<Pair> {
    var i := LastIndex(s, sep);
    if i < 0 then None
    else
      match Parse(TrimSpace(s[i + 1..]))
      case Some(id) => if id < 0 then None else Some(Pair(s[..i], id))
      case None => None
  }

  /** decodeKeysetV2: strict, by re-encoding what was decoded. */
  function DecodeV2(cursor: string): (r: Option<Pair>)
    requires HasPrefix(cursor, PREFIX)
    ensures r.Some? ==> IsBytes(r.value.sortKey)
  {
    match Split(cursor[|PREFIX|..], '.')
    case None => None
    case Some(p) =>
      match Base64Url.Decode(p.sortKey)
      case None => None
      case Some(raw) =>
        if Encode(raw, p.rowId) != TrimSpace(cursor) then None else Some(Pair(raw, p.rowId))
  }

  /** DecodeKeysetCursor: canonical cursors strictly, legacy ones leniently. */
  function Decode(cursor: string): Option<Pair> {
    var t := TrimSpace(cursor);
    if t == "" then Some(Pair("", 0))
    else if |t| > MAX_CURSOR_LEN then None
    else if HasPrefix(t, PREFIX) then DecodeV2(t)
    else
      match Split(t, ':')
      case Some(p) => Some(if p.sortKey != "" && AllDigits(p.sortKey) then p else Pair(t, 0))
      case None =>
        if AllDigits(t) then Some(Pair(t, 0))
        else
          match Split(t, '.')
          case Some(p) =>
            (match Base64Url.Decode(p.sortKey)
             case Some(raw) => Some(Pair(raw, p.rowId))
             case None => Some(Pair(t, 0)))
          case None => Some(Pair(t, 0))
  }

  /** ValidateKeysetCursor */
  predicate Valid(cursor: string) {
    var t := TrimSpace(cursor);
    t == "" || (|t| <= MAX_CURSOR_LEN && (HasPrefix(t, PREFIX) ==> Decode(t).Some?))
  }

  /** A canonical cursor carries no white space at either end. */
  lemma EncodedIsPlain(sortKey: string, rowId: int)
    requires IsBytes(sortKey)
    ensures TrimSpace(Encode(sortKey, rowId)) == Encode(sortKey, rowId)
    ensures HasPrefix(Encode(sortKey, rowId), PREFIX)
  {
    var s := Encode(sortKey, rowId);
    assert s[0] == 'v';
    assert s[|s| - 1] == Format(if rowId < 0 then 0 else rowId)[|Format(if rowId < 0 then 0 else rowId)| - 1];
    TrimSpaceOfPlain(s);
  }

  lemma FormatIsPlain(n: nat)
    ensures TrimSpace(Format(n)) == Format(n) && AllDigits(Format(n))
  {
    TrimSpaceOfPlain(Format(n));
  }

  lemma FormatIsBytes(n: int)
    ensures IsBytes(Format(n))
  {
  }

  lemma TailParses(id: int)
    requires 0 <= id <= MAX_INT64
    ensures Parse(TrimSpace(Format(id))) == Some(id)
  {
    FormatIsPlain(id);
    ParseOfFormat(id);
  }

  lemma FormatLacks(id: nat, sep: char)
    requires !IsDigit(sep)
    ensures sep !in Format(id)
  {
    FormatIsPlain(id);
  }

  lemma SplitOfJoin(left: string, sep: char, id: int)
    requires 0 <= id <= MAX_INT64 && !IsDigit(sep)
    ensures Split(left + [sep] + Format(id), sep) == Some(Pair(left, id))
  {
    var tail := Format(id);
    FormatLacks(id, sep);
    TailParses(id);
    SplitAtLast(left, sep, tail, id);
  }

  lemma SplitAtLast(left: string, sep: char, tail: string, id: int)
    requires sep !in tail && Parse(TrimSpace(tail)) == Some(id) && 0 <= id
    ensures Split(left + [sep] + tail, sep) == Some(Pair(left, id))
  {
    var s := left + [sep] + tail;
    LastIndexOfJoin(left, sep, tail);
    assert s[|left| + 1..] == tail && s[..|left|] == left;
  }

  /** The strict decoder accepts every canonical cursor and returns what went in. */
  lemma DecodeV2OfEncode(sortKey: string, rowId: int)
    requires IsBytes(sortKey) && 0 <= rowId <= MAX_INT64
    ensures HasPrefix(Encode(sortKey, rowId), PREFIX)
    ensures DecodeV2(Encode(sortKey, rowId)) == Some(Pair(sortKey, rowId))
  {
    var s := Encode(sortKey, rowId);
    EncodedIsPlain(sortKey, rowId);
    assert s[|PREFIX|..] == Base64Url.Encode(sortKey) + ['.'] + Format(rowId);
    SplitOfJoin(Base64Url.Encode(sortKey), '.', rowId);
    Base64Url.DecodeOfEncode(sortKey);
  }

  /** Round trip: every pair comes back, the row id clamped at zero, as long as the cursor fits. */
  lemma DecodeOfEncode(sortKey: string, rowId: int)
    requires IsBytes(sortKey) && rowId <= MAX_INT64
    ensures Decode(Encode(sortKey, rowId)) ==
      if |Encode(sortKey, rowId)| <= MAX_CURSOR_LEN then Some(Pair(sortKey, if rowId < 0 then 0 else rowId)) else None
  {
    EncodedIsPlain(sortKey, rowId);
    DecodeV2OfEncode(sortKey, if rowId < 0 then 0 else rowId);
  }

  /** Exact inverse, both directions: a cursor that trims to something tagged v2 decodes to a pair if and
      only if, trimmed, it is that pair's encoding (and short enough, with an id in range). */
  lemma V2DecodesExactly(cursor: string, p: Pair)
    requires HasPrefix(TrimSpace(cursor), PREFIX)
    ensures Decode(cursor) == Some(p) <==>
      && IsBytes(p.sortKey) && 0 <= p.rowId <= MAX_INT64
      && TrimSpace(cursor) == Encode(p.sortKey, p.rowId) && |TrimSpace(cursor)| <= MAX_CURSOR_LEN
  {
    var t := TrimSpace(cursor);
    TrimSpaceIsIdempotent(cursor);
    if IsBytes(p.sortKey) && 0 <= p.rowId <= MAX_INT64 && t == Encode(p.sortKey, p.rowId) {
      DecodeV2OfEncode(p.sortKey, p.rowId);
    }
  }

  /** Hence different pairs never share a cursor. */
  lemma EncodeIsInjective(k1: string, id1: int, k2: string, id2: int)
    requires IsBytes(k1) && IsBytes(k2) && 0 <= id1 <= MAX_INT64 && 0 <= id2 <= MAX_INT64
    requires Encode(k1, id1) == Encode(k2, id2)
    ensures k1 == k2 && id1 == id2
  {
    DecodeV2OfEncode(k1, id1);
    DecodeV2OfEncode(k2, id2);
  }

  lemma DigitJoinIsPlain(date: nat, id: nat)
    requires id <= MAX_INT64 && date <= MAX_INT64
    ensures var s := Format(date) + [':'] + Format(id);
      TrimSpace(s) == s && s != "" && |s| <= MAX_CURSOR_LEN && !HasPrefix(s, PREFIX)
  {
    var s := Format(date) + [':'] + Format(id);
    FormatIsPlain(date);
    assert s[0] == Format(date)[0] && IsDigit(s[0]);
    assert s[|s| - 1] == Format(id)[|Format(id)| - 1];
    TrimSpaceOfPlain(s);
    Int64HasNineteenDigits(date);
    Int64HasNineteenDigits(id);
  }

  /** A legacy SMS cursor "date:id" still decodes to its pair. */
  lemma LegacySmsCursor(date: nat, id: nat)
    requires id <= MAX_INT64 && date <= MAX_INT64
    ensures Decode(Format(date) + [':'] + Format(id)) == Some(Pair(Format(date), id))
  {
    DigitJoinIsPlain(date, id);
    SplitOfJoin(Format(date), ':', id);
    FormatIsPlain(date);
  }

  /** The cursors that message paging emits always fit, so they always decode. */
  lemma MessageCursorRoundTrip(date: nat, id: int)
    requires date <= MAX_INT64 && 0 <= id <= MAX_INT64
    ensures IsBytes(Format(date))
    ensures |Encode(Format(date), id)| <= MAX_CURSOR_LEN && Valid(Encode(Format(date), id))
    ensures Decode(Encode(Format(date), id)) == Some(Pair(Format(date), id))
    ensures Encode(Format(date), id) != ""
  {
    FormatIsBytes(date);
    Int64HasNineteenDigits(date);
    Int64HasNineteenDigits(id);
    DecodeOfEncode(Format(date), id);
    EncodedIsPlain(Format(date), id);
  }

  lemma DateIsPlain(date: nat)
    requires date <= MAX_INT64
    ensures var s := Format(date); TrimSpace(s) == s && s != "" && |s| <= MAX_CURSOR_LEN && !HasPrefix(s, PREFIX)
    ensures ':' !in Format(date) && AllDigits(Format(date))
  {
    FormatIsPlain(date);
    FormatLacks(date, ':');
    Int64HasNineteenDigits(date);
    assert IsDigit(Format(date)[0]);
  }

  /** An older cursor that is only a date decodes to it, without a row. */
  lemma LegacyDateCursor(date: nat)
    requires date <= MAX_INT64
    ensures Decode(Format(date)) == Some(Pair(Format(date), 0))
  {
    DateIsPlain(date);
  }

  lemma UntaggedIsPlain(sortKey: string, id: int, t: string)
    requires IsBytes(sortKey) && 0 <= id <= MAX_INT64 && t == Base64Url.Encode(sortKey) + ['.'] + Format(id)
    ensures TrimSpace(t) == t && ':' !in t && !AllDigits(t)
  {
    var code := Base64Url.Encode(sortKey);
    FormatIsPlain(id);
    FormatLacks(id, ':');
    assert t[|code|] == '.';
    assert t[0] == if code == "" then '.' else code[0];
    assert t[|t| - 1] == Format(id)[|Format(id)| - 1];
    assert code != "" ==> Base64Url.IsSymbol(code[0]);
    TrimSpaceOfPlain(t);
  }

  lemma UntaggedDecodes(t: string, p: Pair, raw: string)
    requires TrimSpace(t) == t && t != "" && |t| <= MAX_CURSOR_LEN && !HasPrefix(t, PREFIX)
    requires ':' !in t && !AllDigits(t) && Split(t, '.') == Some(p) && Base64Url.Decode(p.sortKey) == Some(raw)
    ensures Decode(t) == Some(Pair(raw, p.rowId))
  {
  }

  /** So does the untagged form of today's cursor, unless its encoded key happens to read "v2". */
  lemma LegacyKeysetCursor(sortKey: string, id: int, t: string)
    requires IsBytes(sortKey) && 0 <= id <= MAX_INT64 && t == Base64Url.Encode(sortKey) + ['.'] + Format(id)
    requires |t| <= MAX_CURSOR_LEN && !HasPrefix(t, PREFIX)
    ensures Decode(t) == Some(Pair(sortKey, id))
  {
    UntaggedIsPlain(sortKey, id, t);
    SplitOfJoin(Base64Url.Encode(sortKey), '.', id);
    Base64Url.DecodeOfEncode(sortKey);
    UntaggedDecodes(t, Pair(Base64Url.Encode(sortKey), id), sortKey);
  }
}
