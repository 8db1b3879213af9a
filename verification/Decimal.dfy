/** Decimal text: strconv.FormatInt, strconv.ParseInt and the hand-written itoa. */
module Decimal {
  import opened Options

  const MAX_INT64: int := 0x7FFF_FFFF_FFFF_FFFF
  const MIN_INT64: int := -0x8000_0000_0000_0000

  predicate IsDigit(c: char) {
    '0' <= c <= '9'
  }

  /** strings of ASCII digits, possibly empty */
  predicate AllDigits(s: string) {
    forall i :: 0 <= i < |s| ==> IsDigit(s[i])
  }

  function DigitChar(d: int): (c: char)
    requires 0 <= d < 10
    ensures IsDigit(c) && DigitValue(c) == d
  {
    ('0' as int + d) as char
  }

  function DigitValue(c: char): (d: int)
    requires IsDigit(c)
    ensures 0 <= d < 10
  {
    c as int - '0' as int
  }

  /** The digits of n with no leading zero; no digits at all for zero. */
  function Digits(n: nat): (s: string)
    ensures AllDigits(s) && (n == 0 <==> s == "")
  {
    if n == 0 then "" else Digits(n / 10) + [DigitChar(n % 10)]
  }

  /** strconv.FormatInt(n, 10) */
  function Format(n: int): (s: string)
    ensures s != "" && IsDigit(s[|s| - 1])
  {
    if n == 0 then "0" else if n > 0 then Digits(n) else "-" + Digits(-n)
  }

  /** The number that a digit string denotes, leading zeros and all. */
  function Value(s: string): (n: nat)
    requires AllDigits(s)
  {
    if s == "" then 0 else 10 * Value(s[..|s| - 1]) + DigitValue(s[|s| - 1])
  }

  /** strconv.ParseInt(s, 10, 64): an optional sign, at least one digit, and a value in range. */
  function Parse(s: string): Option<int> {
    var negative := s != "" && s[0] == '-';
    var body := if s != "" && (s[0] == '-' || s[0] == '+') then s[1..] else s;
    if body == "" || !AllDigits(body) then None
    else
      var n := if negative then 0 - Value(body) else Value(body);
      if MIN_INT64 <= n <= MAX_INT64 then Some(n) else None
  }

  lemma {:induction false} ValueOfDigits(n: nat)
    ensures Value(Digits(n)) == n
  {
    if n != 0 {
      ValueOfDigits(n / 10);
      var s := Digits(n);
      assert s[..|s| - 1] == Digits(n / 10);
    }
  }

  /** Printing then parsing an int64 gives it back. */
  lemma ParseOfFormat(n: int)
    requires MIN_INT64 <= n <= MAX_INT64
    ensures Parse(Format(n)) == Some(n)
  {
    ValueOfDigits(if n < 0 then -n else n);
    if n < 0 {
      assert Format(n)[1..] == Digits(-n);
    }
  }

  /** Different numbers print differently. */
  lemma FormatIsInjective(a: int, b: int)
    ensures Format(a) == Format(b) <==> a == b
  {
    UnsignedFormat(a);
    UnsignedFormat(b);
  }

  /** The sign, and the value of what follows it, can be read off the text. */
  lemma UnsignedFormat(n: int)
    ensures var s := Format(n);
      if n < 0 then s[0] == '-' && AllDigits(s[1..]) && Value(s[1..]) == -n
      else s[0] != '-' && AllDigits(s) && Value(s) == n
  {
    ValueOfDigits(if n < 0 then -n else n);
    if n < 0 {
      assert Format(n)[1..] == Digits(-n);
    } else if n == 0 {
      assert Value("0") == 0;
    } else {
      assert Format(n)[0] in Digits(n);
    }
  }

  function Pow10(k: nat): nat {
    if k == 0 then 1 else 10 * Pow10(k - 1)
  }

  lemma {:induction false} DigitsLength(n: nat, k: nat)
    requires n < Pow10(k)
    ensures |Digits(n)| <= k
  {
    if n != 0 {
      DigitsLength(n / 10, k - 1);
    }
  }

  lemma Int64HasNineteenDigits(n: int)
    requires 0 <= n <= MAX_INT64
    ensures |Format(n)| <= 19
  {
    Pow10Of19();
    DigitsLength(n, 19);
  }

  lemma Pow10Of19()
    ensures Pow10(19) == 10_000_000_000_000_000_000
  {
    assert Pow10(5) == 100_000;
    assert Pow10(10) == 10_000_000_000;
    assert Pow10(15) == 1_000_000_000_000_000;
  }

  /** itoa: digits are written right to left into a 20-byte buffer. The one value whose negation
      overflows prints as a bare sign. */
  method Itoa(i: int) returns (s: string)
    requires MIN_INT64 <= i <= MAX_INT64
    ensures i != MIN_INT64 ==> s == Format(i)
    ensures i == MIN_INT64 ==> s == "-"
  {
    if i == 0 {
      return "0";
    }
    var neg := i < 0;
    var n := i;
    if neg {
      n := if i == MIN_INT64 then MIN_INT64 else -i;  // two's-complement negation
    }
    var buf := new char[20];
    var pos := 20;
    ghost var n0 := if n < 0 then 0 else n;
    Pow10Of19();
    while n > 0
      invariant 1 <= pos <= 20
      invariant n < Pow10(pos - 1)
      invariant n <= 0 ==> buf[pos..] == Digits(n0)
      invariant n > 0 ==> Digits(n) + buf[pos..] == Digits(n0)
    {
      assert pos >= 2;
      pos := pos - 1;
      buf[pos] := DigitChar(n % 10);
      assert buf[pos..] == [DigitChar(n % 10)] + buf[pos + 1..];
      n := n / 10;
    }
    if neg {
      pos := pos - 1;
      buf[pos] := '-';
      assert buf[pos..] == "-" + buf[pos + 1..];
    }
    s := buf[pos..];
  }

  /** The text place by place: a single digit is itself, and every further place is appended. */
  lemma FormatByPlaces(n: nat)
    ensures n < 10 ==> Format(n) == ["0123456789"[n]]
    ensures n >= 10 ==> Format(n) == Format(n / 10) + ["0123456789"[n % 10]]
    ensures n > 0 ==> Format(0 - n as int) == "-" + Format(n)
  {
    if n < 10 {
      assert n > 0 ==> Digits(n / 10) == "";
    }
    DigitInOrder(n % 10);
  }

  lemma DigitInOrder(d: int)
    requires 0 <= d < 10
    ensures DigitChar(d) == "0123456789"[d]
  {
  }
}
