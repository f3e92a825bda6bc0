/** Character-level helpers shared by the codec and the command handlers:
    decimal formatting (`format!("{i}")`), Rust's `str::parse` for `usize`
    and `i64`, `str::trim` and `str::to_uppercase`. A `char` stands for one
    byte of the wire. */
module Text {
  import opened Wrappers

  const MinI64: int := -0x8000_0000_0000_0000
  const MaxI64: int := 0x7FFF_FFFF_FFFF_FFFF
  const MaxUsize: int := 0xFFFF_FFFF_FFFF_FFFF
  const CRLF: string := "\r\n"

  predicate IsDigit(c: char) { '0' <= c <= '9' }

  predicate AllDigits(s: string) { forall i :: 0 <= i < |s| ==> IsDigit(s[i]) }

  function DigitValue(c: char): (d: nat)
    requires IsDigit(c)
    ensures d < 10
  {
    c as int - '0' as int
  }

  function DigitChar(d: nat): (c: char)
    requires d < 10
    ensures IsDigit(c) && DigitValue(c) == d
  {
    ('0' as int + d) as char
  }

  /** The number a run of decimal digits denotes, most significant first. */
  function DigitsValue(s: string): nat
    requires AllDigits(s)
    decreases |s|
  {
    if s == [] then 0 else DigitsValue(s[..|s| - 1]) * 10 + DigitValue(s[|s| - 1])
  }

  /** The decimal digits of `n`, most significant first, without leading zeros. */
  function NatDigits(n: nat): (s: string)
    ensures |s| > 0 && AllDigits(s)
    ensures DigitsValue(s) == n
    ensures n > 0 ==> s[0] != '0'
  {
    if n < 10 then [DigitChar(n)]
    else
      var p := NatDigits(n / 10);
      var s := p + [DigitChar(n % 10)];
      assert s[..|s| - 1] == p;
      s
  }

  /** `format!("{i}")`: an optional minus sign, then the digits of `|i|`. */
  function Decimal(i: int): (s: string)
    ensures |s| > 0 && '\n' !in s && s[|s| - 1] != '\r' && s[|s| - 1] != '\n'
  {
    if i < 0 then "-" + NatDigits(-i) else NatDigits(i)
  }

  /** `str::parse::<usize>()` on a 64-bit target: an optional `+`, then at
      least one digit, and a value that fits in 64 bits. */
  function ParseUnsigned(s: string): Option<nat>
  {
    var digits := if |s| > 0 && s[0] == '+' then s[1..] else s;
    if |digits| > 0 && AllDigits(digits) && DigitsValue(digits) <= MaxUsize
    then Some(DigitsValue(digits))
    else None
  }

  /** `str::parse::<i64>()`: an optional sign, then at least one digit, and a
      value within the signed 64-bit range. */
  function ParseI64(s: string): (r: Option<int>)
    ensures r.Some? ==> MinI64 <= r.value <= MaxI64
  {
    var negative := |s| > 0 && s[0] == '-';
    var digits := if |s| > 0 && (s[0] == '+' || s[0] == '-') then s[1..] else s;
    if |digits| > 0 && AllDigits(digits) then
      var v: int := if negative then 0 - DigitsValue(digits) as int else DigitsValue(digits) as int;
      if MinI64 <= v <= MaxI64 then Some(v) else None
    else None
  }

  lemma ParseUnsignedOfDigits(n: nat)
    requires n <= MaxUsize
    ensures ParseUnsigned(NatDigits(n)) == Some(n)
  {
    var s := NatDigits(n);
    assert IsDigit(s[0]);
  }

  lemma ParseI64OfDecimal(i: int)
    requires MinI64 <= i <= MaxI64
    ensures ParseI64(Decimal(i)) == Some(i)
  {
    if i < 0 {
      var d := NatDigits(-i);
      assert ("-" + d)[1..] == d;
    } else {
      var d := NatDigits(i);
      assert IsDigit(d[0]);
    }
  }

  /** The ASCII characters with Unicode's White_Space property. */
  predicate IsWhitespace(c: char)
  {
    c == ' ' || c == '\t' || c == '\n' || c == '\r' || c as int == 0x0B || c as int == 0x0C
  }

  function TrimStart(s: string): (r: string)
    ensures |r| <= |s|
  {
    if |s| > 0 && IsWhitespace(s[0]) then TrimStart(s[1..]) else s
  }

  function TrimEnd(s: string): (r: string)
    ensures |r| <= |s|
  {
    if |s| > 0 && IsWhitespace(s[|s| - 1]) then TrimEnd(s[..|s| - 1]) else s
  }

  /** `str::trim`: leading and trailing white space removed. */
  function Trim(s: string): string
  {
    TrimEnd(TrimStart(s))
  }

  /** A token that neither starts nor ends with white space, followed by
      line-ending white space, trims back to the token. */
  lemma {:induction false} TrimToken(d: string, ws: string)
    requires |d| > 0 && !IsWhitespace(d[0]) && !IsWhitespace(d[|d| - 1])
    requires forall i :: 0 <= i < |ws| ==> IsWhitespace(ws[i])
    ensures Trim(d + ws) == d
    decreases |ws|
  {
    assert TrimStart(d + ws) == d + ws;
    if ws == [] {
      assert d + ws == d;
    } else {
      var shorter := ws[..|ws| - 1];
      assert (d + ws)[..|d + ws| - 1] == d + shorter;
      TrimToken(d, shorter);
      assert TrimStart(d + shorter) == d + shorter;
    }
  }

  lemma TrimDecimalLine(i: int)
    ensures Trim(Decimal(i) + CRLF) == Decimal(i)
  {
    var d := Decimal(i);
    if i < 0 {
      assert d[0] == '-';
      assert IsDigit(NatDigits(-i)[|NatDigits(-i)| - 1]);
    } else {
      assert IsDigit(d[0]);
    }
    assert IsDigit(d[|d| - 1]);
    TrimToken(d, CRLF);
  }

  /** `char::to_uppercase` restricted to ASCII letters. */
  function UpperChar(c: char): char
  {
    if 'a' <= c <= 'z' then (c as int - 32) as char else c
  }

  /** `str::to_uppercase` on ASCII text: no lower-case letter is left, each
      lower-case letter becomes the capital of the same letter, and every
      other character is kept in place. */
  function Upper(s: string): (r: string)
    ensures |r| == |s|
    ensures forall i :: 0 <= i < |r| ==> !('a' <= r[i] <= 'z')
    ensures forall i :: 0 <= i < |s| && 'a' <= s[i] <= 'z' ==>
      'A' <= r[i] <= 'Z' && r[i] as int - 'A' as int == s[i] as int - 'a' as int
    ensures forall i :: 0 <= i < |s| && !('a' <= s[i] <= 'z') ==> r[i] == s[i]
  {
    seq(|s|, i requires 0 <= i < |s| => UpperChar(s[i]))
  }

  /** Uppercasing is idempotent, so names already in upper case are found as
      they are, and any spelling of a name is found under the same key. */
  lemma UpperIdempotent(s: string)
    ensures Upper(Upper(s)) == Upper(s)
  {
  }

  /** Two names that differ only in the case of ASCII letters have the same
      upper-case form. */
  lemma UpperIgnoresCase(s: string, t: string)
    requires |s| == |t|
    requires forall i :: 0 <= i < |s| ==> UpperChar(s[i]) == UpperChar(t[i])
    ensures Upper(s) == Upper(t)
  {
  }
}
