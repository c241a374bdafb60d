/** JavaScript's global `parseInt(string)` with no radix argument, and the
    decimal rendering of an integer that it inverts. NaN is `None`. */
module JsNumber {
  import opened Wrappers
  import opened JsString

  /** The digit value of a character in any radix up to 36; 36 for a
      character that is no digit at all. */
  function DigitValue(c: char): (v: nat)
    ensures v <= 36
    ensures v < 10 <==> '0' <= c <= '9'
  {
    if '0' <= c <= '9' then c as int - '0' as int
    else if 'a' <= c <= 'z' then c as int - 'a' as int + 10
    else if 'A' <= c <= 'Z' then c as int - 'A' as int + 10
    else 36
  }

  predicate IsDigit(c: char, radix: nat)
  {
    DigitValue(c) < radix
  }

  /** The longest prefix of `s` made of radix digits. */
  function DigitPrefix(s: string, radix: nat): (z: string)
    ensures |z| <= |s| && z == s[..|z|]
    ensures forall k :: 0 <= k < |z| ==> IsDigit(z[k], radix)
    ensures |z| == |s| || !IsDigit(s[|z|], radix)
  {
    if |s| > 0 && IsDigit(s[0], radix) then [s[0]] + DigitPrefix(s[1..], radix) else []
  }

  /** The number a string of digits denotes, most significant digit first. */
  function DigitsValue(z: string, radix: nat): nat
  {
    if |z| == 0 then 0 else DigitsValue(z[..|z| - 1], radix) * radix + DigitValue(z[|z| - 1])
  }

  /** The part of `parseInt` after the sign: drop a `0x`/`0X` prefix
      (switching to radix 16) and read the longest run of digits. A number
      comes out exactly when that run is not empty. */
  function ParseUnsigned(u: string): (r: Option<nat>)
    ensures r.Some? <==>
      if |u| >= 2 && u[0] == '0' && (u[1] == 'x' || u[1] == 'X') then |u| > 2 && IsDigit(u[2], 16)
      else |u| > 0 && IsDigit(u[0], 10)
  {
    var hex := |u| >= 2 && u[0] == '0' && (u[1] == 'x' || u[1] == 'X');
    var radix := if hex then 16 else 10;
    var z := DigitPrefix(if hex then u[2..] else u, radix);
    if |z| == 0 then None else Some(DigitsValue(z, radix))
  }

  /** `parseInt(s)`: skip leading white space, take an optional sign, then
      read the digits. NaN is `None`; minus zero is returned as 0, which the
      callers treat alike. */
  function ParseInt(s: string): (r: Option<int>)
    ensures r.None? <==> ParseUnsigned(SignlessPart(TrimStart(s))).None?
    ensures r.Some? && r.value < 0 ==> TrimStart(s)[0] == '-'
  {
    var t := TrimStart(s);
    match ParseUnsigned(SignlessPart(t))
    case None => None
    case Some(v) => Some(if |t| > 0 && t[0] == '-' then -(v as int) else v)
  }

  function SignlessPart(t: string): string
  {
    if |t| > 0 && (t[0] == '+' || t[0] == '-') then t[1..] else t
  }

  function DigitChar(d: nat): (c: char)
    requires d < 10
    ensures DigitValue(c) == d
  {
    ('0' as int + d) as char
  }

  /** The decimal digits of a natural number, no leading zeros. */
  function NatToString(n: nat): (s: string)
    ensures |s| >= 1
    ensures forall k :: 0 <= k < |s| ==> '0' <= s[k] <= '9'
  {
    if n < 10 then [DigitChar(n)] else NatToString(n / 10) + [DigitChar(n % 10)]
  }

  /** `String(n)` for an integer `n`. */
  function IntToString(n: int): string
  {
    if n < 0 then "-" + NatToString(-n) else NatToString(n)
  }

  /** A string of decimal digits denotes the number it was rendered from. */
  lemma {:induction false} NatToStringValue(n: nat)
    ensures DigitsValue(NatToString(n), 10) == n
  {
    if n >= 10 {
      var s := NatToString(n);
      assert s[..|s| - 1] == NatToString(n / 10);
      NatToStringValue(n / 10);
    }
  }

  /** A rendering of a natural number reads back as that number. */
  lemma ParseUnsignedDigits(m: nat)
    ensures ParseUnsigned(NatToString(m)) == Some(m)
  {
    var u := NatToString(m);
    assert !(|u| >= 2 && u[0] == '0' && (u[1] == 'x' || u[1] == 'X')) by {
      if |u| >= 2 { assert '0' <= u[1] <= '9'; }
    }
    assert DigitPrefix(u, 10) == u;
    NatToStringValue(m);
  }

  /** `parseInt` reads back every integer from its decimal rendering. */
  lemma ParseIntString(n: int)
    ensures ParseInt(IntToString(n)) == Some(n)
  {
    var m: nat := if n < 0 then -n else n;
    var s := IntToString(n);
    assert !IsWhiteSpace(s[0]);
    assert TrimStart(s) == s;
    assert SignlessPart(s) == NatToString(m);
    ParseUnsignedDigits(m);
  }

  /** Digits followed by a non-digit (or nothing) are read up to that
      non-digit. */
  lemma {:induction false} DigitPrefixStops(z: string, rest: string, radix: nat)
    requires forall k :: 0 <= k < |z| ==> IsDigit(z[k], radix)
    requires rest == [] || !IsDigit(rest[0], radix)
    ensures DigitPrefix(z + rest, radix) == z
  {
    if z != [] {
      assert (z + rest)[1..] == z[1..] + rest;
      DigitPrefixStops(z[1..], rest, radix);
    }
  }

  /** Leading white space in front of a non-blank start is skipped whole. */
  lemma {:induction false} TrimStartPadded(ws: string, t: string)
    requires forall k :: 0 <= k < |ws| ==> IsWhiteSpace(ws[k])
    requires t == [] || !IsWhiteSpace(t[0])
    ensures TrimStart(ws + t) == t
  {
    if ws != [] {
      assert (ws + t)[1..] == ws[1..] + t;
      TrimStartPadded(ws[1..], t);
    }
  }

  /** A rendered natural number followed by text that cannot continue it
      reads back as that number. */
  lemma ParseUnsignedStops(m: nat, rest: string)
    requires rest == [] || (!IsDigit(rest[0], 10) && rest[0] != 'x' && rest[0] != 'X')
    ensures ParseUnsigned(NatToString(m) + rest) == Some(m)
  {
    var d := NatToString(m);
    var u := d + rest;
    assert !(|u| >= 2 && u[0] == '0' && (u[1] == 'x' || u[1] == 'X')) by {
      if |u| >= 2 && |d| >= 2 { assert u[1] == d[1]; }
    }
    DigitPrefixStops(d, rest, 10);
    NatToStringValue(m);
  }

  /** `parseInt` skips leading white space and stops at the first character
      that cannot continue the number: a rendered integer with white space
      before it and any text after it that does not start with a decimal
      digit or an `x`/`X` (which would turn "0" into a hexadecimal prefix)
      reads back as that integer, as in `parseInt(" 50")` and
      `parseInt("50abc")`. */
  lemma ParseIntPadded(ws: string, n: int, rest: string)
    requires forall k :: 0 <= k < |ws| ==> IsWhiteSpace(ws[k])
    requires rest == [] || (!IsDigit(rest[0], 10) && rest[0] != 'x' && rest[0] != 'X')
    ensures ParseInt(ws + IntToString(n) + rest) == Some(n)
  {
    var t := IntToString(n) + rest;
    assert ws + IntToString(n) + rest == ws + t;
    SignedShape(n, rest);
    TrimStartPadded(ws, t);
    ParseUnsignedStops(if n < 0 then -n else n, rest);
  }

  /** A rendered integer starts with a minus exactly when it is negative, and
      without its sign it is the rendering of the magnitude. */
  lemma SignedShape(n: int, rest: string)
    ensures var t := IntToString(n) + rest;
      && |t| > 0 && !IsWhiteSpace(t[0])
      && (t[0] == '-' <==> n < 0)
      && SignlessPart(t) == NatToString(if n < 0 then -n else n) + rest
  {
    var d := NatToString(if n < 0 then -n else n);
    assert '0' <= d[0] <= '9';
    if n < 0 {
      assert IntToString(n) + rest == ['-'] + (d + rest);
    } else {
      assert IntToString(n) + rest == d + rest;
    }
  }
}
