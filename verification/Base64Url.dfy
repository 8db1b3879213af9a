/** base64.RawURLEncoding: the URL-safe alphabet of section 5 of RFC 4648, unpadded as in section 3.2. */
module Base64Url {
  import opened Options
  import opened GoText

  // ---------------------------------------------------------------- the alphabet

  type Six = v: int | 0 <= v < 64

  function Symbol(v: Six): (c: char)
    ensures IsSymbol(c) && SixBits(c) == v
  {
    if v < 26 then ('A' as int + v) as char
    else if v < 52 then ('a' as int + (v - 26)) as char
    else if v < 62 then ('0' as int + (v - 52)) as char
    else if v == 62 then '-' else '_'
  }

  predicate IsSymbol(c: char) {
    'A' <= c <= 'Z' || 'a' <= c <= 'z' || '0' <= c <= '9' || c == '-' || c == '_'
  }

  function SixBits(c: char): Six
    requires IsSymbol(c)
  {
    if 'A' <= c <= 'Z' then c as int - 'A' as int
    else if 'a' <= c <= 'z' then c as int - 'a' as int + 26
    else if '0' <= c <= '9' then c as int - '0' as int + 52
    else if c == '-' then 62 else 63
  }

  predicate AllSymbols(s: string) {
    forall i :: 0 <= i < |s| ==> IsSymbol(s[i])
  }

  function Symbols(vs: seq<Six>): (t: string)
    ensures |t| == |vs| && AllSymbols(t)
    ensures SixBitsOf(t) == vs
  {
    seq(|vs|, i requires 0 <= i < |vs| => Symbol(vs[i]))
  }

  function SixBitsOf(t: string): (vs: seq<Six>)
    requires AllSymbols(t)
    ensures |vs| == |t|
  {
    seq(|t|, i requires 0 <= i < |t| => SixBits(t[i]))
  }

  // ---------------------------------------------------------------- regrouping eight bits into six

  type Octet = v: int | 0 <= v < 256

  // The four six-bit values of a group of three bytes, and the three bytes of a group of four values.

  function Six0(a: Octet): Six { a as int / 4 }

  function Six1(a: Octet, b: Octet): Six { a as int % 4 * 16 + b as int / 16 }

  function Six2(b: Octet, c: Octet): Six { b as int % 16 * 4 + c as int / 64 }

  function Six3(c: Octet): Six { c as int % 64 }

  function Octet0(p: Six, q: Six): Octet { p as int * 4 + q as int / 16 }

  function Octet1(q: Six, r: Six): Octet { q as int % 16 * 16 + r as int / 4 }

  function Octet2(r: Six, t: Six): Octet { r as int % 4 * 64 + t as int }

  /** Three bytes become four six-bit values; a rest of one or two bytes becomes two or three. */
  function ToSixes(s: seq<Octet>): (vs: seq<Six>)
    ensures 3 * |vs| <= 4 * |s| + 2
  {
    if |s| == 0 then []
    else if |s| == 1 then [Six0(s[0]), Six1(s[0], 0)]
    else if |s| == 2 then [Six0(s[0]), Six1(s[0], s[1]), Six2(s[1], 0)]
    else [Six0(s[0]), Six1(s[0], s[1]), Six2(s[1], s[2]), Six3(s[2])] + ToSixes(s[3..])
  }

  /** One leftover value is an error; of two or three leftover values the bits beyond whole bytes are
      ignored (the decoder is not the strict one). */
  function FromSixes(vs: seq<Six>): Option<seq<Octet>> {
    if |vs| == 0 then Some([])
    else if |vs| == 1 then None
    else if |vs| == 2 then Some([Octet0(vs[0], vs[1])])
    else if |vs| == 3 then Some([Octet0(vs[0], vs[1]), Octet1(vs[1], vs[2])])
    else
      match FromSixes(vs[4..])
      case Some(rest) => Some([Octet0(vs[0], vs[1]), Octet1(vs[1], vs[2]), Octet2(vs[2], vs[3])] + rest)
      case None => None
  }

  lemma GroupRoundTrip(a: Octet, b: Octet, c: Octet)
    ensures Octet0(Six0(a), Six1(a, b)) == a
    ensures Octet1(Six1(a, b), Six2(b, c)) == b
    ensures Octet2(Six2(b, c), Six3(c)) == c
  {
  }

  lemma FirstRoundTrip(a: Octet, b: Octet)
    ensures Octet0(Six0(a), Six1(a, b)) == a
  {
  }

  lemma OneRoundTrip(a: Octet)
    ensures FromSixes([Six0(a), Six1(a, 0)]) == Some([a])
  {
    FirstRoundTrip(a, 0);
  }

  lemma TwoRoundTrip(a: Octet, b: Octet)
    ensures FromSixes([Six0(a), Six1(a, b), Six2(b, 0)]) == Some([a, b])
  {
    GroupRoundTrip(a, b, 0);
  }

  lemma ThreeRoundTrip(a: Octet, b: Octet, c: Octet, vs: seq<Six>, s: seq<Octet>)
    requires FromSixes(vs) == Some(s)
    ensures FromSixes([Six0(a), Six1(a, b), Six2(b, c), Six3(c)] + vs) == Some([a, b, c] + s)
  {
    GroupRoundTrip(a, b, c);
    assert ([Six0(a), Six1(a, b), Six2(b, c), Six3(c)] + vs)[4..] == vs;
  }

  lemma {:induction false} RegroupingRoundTrip(s: seq<Octet>)
    ensures FromSixes(ToSixes(s)) == Some(s)
  {
    if |s| >= 3 {
      RegroupingRoundTrip(s[3..]);
      ThreeRoundTrip(s[0], s[1], s[2], ToSixes(s[3..]), s[3..]);
      assert s == [s[0], s[1], s[2]] + s[3..];
    } else if |s| == 2 {
      TwoRoundTrip(s[0], s[1]);
      assert s == [s[0], s[1]];
    } else if |s| == 1 {
      OneRoundTrip(s[0]);
      assert s == [s[0]];
    }
  }

  // ---------------------------------------------------------------- byte strings

  function Octets(s: string): (o: seq<Octet>)
    requires IsBytes(s)
    ensures |o| == |s|
  {
    seq(|s|, i requires 0 <= i < |s| => s[i] as int)
  }

  function Text(o: seq<Octet>): (s: string)
    ensures IsBytes(s) && Octets(s) == o
  {
    seq(|o|, i requires 0 <= i < |o| => o[i] as char)
  }

  /** RawURLEncoding.EncodeToString */
  function Encode(s: string): (t: string)
    requires IsBytes(s)
    ensures AllSymbols(t) && 3 * |t| <= 4 * |s| + 2
  {
    Symbols(ToSixes(Octets(s)))
  }

  /** The decoder skips carriage returns and line feeds wherever they stand. */
  function WithoutLineBreaks(t: string): string {
    if t == "" then ""
    else if t[0] == '\n' || t[0] == '\r' then WithoutLineBreaks(t[1..])
    else [t[0]] + WithoutLineBreaks(t[1..])
  }

  /** RawURLEncoding.DecodeString */
  function Decode(t: string): (r: Option<string>)
    ensures r.Some? ==> IsBytes(r.value)
  {
    var symbols := WithoutLineBreaks(t);
    if !AllSymbols(symbols) then None
    else
      match FromSixes(SixBitsOf(symbols))
      case Some(o) => Some(Text(o))
      case None => None
  }

  lemma SymbolsHaveNoLineBreaks(t: string)
    requires AllSymbols(t)
    ensures WithoutLineBreaks(t) == t
  {
    if t != "" {
      SymbolsHaveNoLineBreaks(t[1..]);
    }
  }

  lemma TextOfOctets(s: string)
    requires IsBytes(s)
    ensures Text(Octets(s)) == s
  {
  }

  /** Decoding undoes encoding on every byte string. */
  lemma DecodeOfEncode(s: string)
    requires IsBytes(s)
    ensures Decode(Encode(s)) == Some(s)
  {
    SymbolsHaveNoLineBreaks(Encode(s));
    RegroupingRoundTrip(Octets(s));
    TextOfOctets(s);
  }

  // ---------------------------------------------------------------- against the standard's own wording

  /** Table 2 of RFC 4648: the letters in order, the digits in order, minus and underline. */
  lemma SymbolsAreInOrder(v: Six)
    ensures Symbol(0) == 'A' && Symbol(25) == 'Z' && Symbol(26) == 'a' && Symbol(51) == 'z'
    ensures Symbol(52) == '0' && Symbol(61) == '9' && Symbol(62) == '-' && Symbol(63) == '_'
    ensures v < 61 && v != 25 && v != 51 ==> Symbol(v + 1) as int == Symbol(v) as int + 1
  {
  }

  /** The four values are the base-64 digits, highest first, of the 24-bit number that the three bytes make. */
  ghost predicate AreDigitsOf(a: Octet, b: Octet, c: Octet, p: Six, q: Six, r: Six, t: Six) {
    a as int * 0x10000 + b as int * 0x100 + c as int ==
    p as int * 0x40000 + q as int * 0x1000 + r as int * 0x40 + t as int
  }

  lemma GroupNumber(a: Octet, b: Octet, c: Octet)
    ensures AreDigitsOf(a, b, c, Six0(a), Six1(a, b), Six2(b, c), Six3(c))
  {
    var x, y, z := a as int, b as int, c as int;
    assert x == x / 4 * 4 + x % 4 && y == y / 16 * 16 + y % 16 && z == z / 64 * 64 + z % 64;
  }

  /** Section 4: each three bytes come out as such digits, and then the rest follows. */
  lemma GroupComesFirst(s: seq<Octet>)
    requires |s| >= 3
    ensures var vs := ToSixes(s);
      && |vs| >= 4 && vs[4..] == ToSixes(s[3..])
      && AreDigitsOf(s[0], s[1], s[2], vs[0], vs[1], vs[2], vs[3])
  {
    GroupNumber(s[0], s[1], s[2]);
  }
}
