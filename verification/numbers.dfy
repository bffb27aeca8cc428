/**
 * Decimal rendering of numbers and JavaScript's `parseInt(string)` with no radix
 * argument (ECMAScript section 19.2.5): leading white space is skipped, one sign is
 * read, a `0x`/`0X` prefix switches to base 16, and the longest run of digits that
 * follows is the value; with no digit the result is NaN, modelled as None.
 */
module Numbers {
  import opened Wrappers
  import opened Text

  predicate IsDecimalDigit(c: char) {
    '0' <= c <= '9'
  }

  predicate IsHexDigit(c: char) {
    IsDecimalDigit(c) || 'a' <= c <= 'f' || 'A' <= c <= 'F'
  }

  /** Digits of base 10 or of base 16. */
  predicate IsRadixDigit(c: char, hex: bool) {
    IsDecimalDigit(c) || (hex && ('a' <= c <= 'f' || 'A' <= c <= 'F'))
  }

  function DigitValue(c: char): (v: nat)
    requires IsHexDigit(c)
    ensures v < 16
    ensures IsDecimalDigit(c) ==> v < 10
  {
    if IsDecimalDigit(c) then c as int - '0' as int
    else if 'a' <= c <= 'f' then c as int - 'a' as int + 10
    else c as int - 'A' as int + 10
  }

  function Radix(hex: bool): nat {
    if hex then 16 else 10
  }

  /** The value of a digit string, most significant digit first. */
  function DigitsValue(ds: string, hex: bool): nat
    requires forall k :: 0 <= k < |ds| ==> IsRadixDigit(ds[k], hex)
  {
    if |ds| == 0 then 0
    else
      assert IsRadixDigit(ds[|ds| - 1], hex);
      DigitsValue(ds[..|ds| - 1], hex) * Radix(hex) + DigitValue(ds[|ds| - 1])
  }

  /** Length of the longest prefix of s made of digits. */
  function DigitRun(s: string, hex: bool): (n: nat)
    ensures n <= |s|
    ensures forall k :: 0 <= k < n ==> IsRadixDigit(s[k], hex)
    ensures n == |s| || !IsRadixDigit(s[n], hex)
  {
    if |s| > 0 && IsRadixDigit(s[0], hex) then 1 + DigitRun(s[1..], hex) else 0
  }

  function DecimalChar(d: nat): (c: char)
    requires d < 10
    ensures IsDecimalDigit(c) && DigitValue(c) == d
  {
    ('0' as int + d) as char
  }

  /** Decimal rendering of a natural number, as JavaScript prints small integers. */
  function NatToString(n: nat): (r: string)
    ensures |r| >= 1
    ensures forall k :: 0 <= k < |r| ==> IsDecimalDigit(r[k])
    ensures r[0] == '0' ==> n == 0 && |r| == 1
  {
    if n < 10 then [DecimalChar(n)] else NatToString(n / 10) + [DecimalChar(n % 10)]
  }

  function IntToString(n: int): (r: string)
    ensures n >= 0 ==> r == NatToString(n)
    ensures n < 0 ==> r == "-" + NatToString(-n)
  {
    if n < 0 then "-" + NatToString(-n) else NatToString(n)
  }

  /** Reading back the digits of NatToString(n) gives n. */
  lemma {:induction false} NatToStringValue(n: nat)
    ensures DigitsValue(NatToString(n), false) == n
  {
    var r := NatToString(n);
    if n >= 10 {
      NatToStringValue(n / 10);
      assert r[..|r| - 1] == NatToString(n / 10);
    }
  }

  /** parseInt with no radix argument; None stands for NaN. -0 reads as 0. */
  function ParseInt(s: string): Option<int> {
    var t := TrimStart(s);
    match ParseUnsigned(Unsigned(t))
    case None => None
    case Some(v) => var m: int := v; Some(if |t| > 0 && t[0] == '-' then -m else m)
  }

  /** The magnitude read after the sign: a `0x` prefix selects base 16, then the
      longest run of digits is the value, and no digit at all is NaN. */
  function ParseUnsigned(u: string): Option<nat> {
    var hex := HasHexPrefix(u);
    var body := Digits(u);
    var n := DigitRun(body, hex);
    if n == 0 then None else Some(DigitsValue(body[..n], hex))
  }

  /** The text after one optional leading sign. */
  function Unsigned(t: string): (u: string)
    ensures |u| <= |t|
  {
    if |t| > 0 && (t[0] == '-' || t[0] == '+') then t[1..] else t
  }

  predicate HasHexPrefix(u: string) {
    |u| >= 2 && u[0] == '0' && (u[1] == 'x' || u[1] == 'X')
  }

  /** The text after the `0x` prefix, when there is one. */
  function Digits(u: string): string {
    if HasHexPrefix(u) then u[2..] else u
  }

  /** Digits of a rendered number followed by a non-digit read back as that number. */
  lemma {:induction false} ParseUnsignedOfNatToString(n: nat, rest: string, s: string)
    requires rest == [] || (!IsDecimalDigit(rest[0]) && (n != 0 || (rest[0] != 'x' && rest[0] != 'X')))
    requires s == NatToString(n) + rest
    ensures ParseUnsigned(s) == Some(n)
  {
    var d := NatToString(n);
    assert !HasHexPrefix(s);
    DigitRunOfDigits(d, rest);
    assert s[..|d|] == d;
    NatToStringValue(n);
  }

  /** A number rendered in decimal and followed by anything that does not extend
      the digits parses back to itself; only a lone `0` must not be followed by
      `x`, which would make a `0x` prefix. */
  lemma {:induction false} ParseIntOfIntToString(n: int, rest: string)
    requires rest == [] || (!IsDecimalDigit(rest[0]) && (n != 0 || (rest[0] != 'x' && rest[0] != 'X')))
    ensures ParseInt(IntToString(n) + rest) == Some(n)
  {
    if n >= 0 {
      ParseIntOfNatToString(n, rest);
    } else {
      ParseIntOfNegative(n, rest);
    }
  }

  lemma {:induction false} ParseIntOfNegative(n: int, rest: string)
    requires n < 0
    requires rest == [] || (!IsDecimalDigit(rest[0]) && (n != 0 || (rest[0] != 'x' && rest[0] != 'X')))
    ensures ParseInt(IntToString(n) + rest) == Some(n)
  {
    var m: nat := -n;
    var s := "-" + (NatToString(m) + rest);
    assert IntToString(n) + rest == s;
    ParseIntOfNegated(m, rest);
    assert ParseInt(s) == Some(n);
  }

  lemma {:induction false} ParseIntOfNatToString(n: nat, rest: string)
    requires rest == [] || (!IsDecimalDigit(rest[0]) && (n != 0 || (rest[0] != 'x' && rest[0] != 'X')))
    ensures ParseInt(NatToString(n) + rest) == Some(n)
  {
    var s := NatToString(n) + rest;
    assert IsDecimalDigit(s[0]);
    NoSpaceTrimStart(s);
    assert Unsigned(s) == s;
    ParseUnsignedOfNatToString(n, rest, s);
  }

  lemma {:induction false} ParseIntOfNegated(m: nat, rest: string)
    requires rest == [] || (!IsDecimalDigit(rest[0]) && (m != 0 || (rest[0] != 'x' && rest[0] != 'X')))
    ensures ParseInt("-" + (NatToString(m) + rest)) == Some(-(m as int))
  {
    var s := "-" + (NatToString(m) + rest);
    NoSpaceTrimStart(s);
    ParseUnsignedOfNatToString(m, rest, Unsigned(s));
  }

  lemma NoSpaceTrimStart(s: string)
    requires |s| > 0 && (s[0] == '-' || IsDecimalDigit(s[0]))
    ensures TrimStart(s) == s
  {
    assert !IsSpace(s[0]);
  }

  lemma {:induction false} DigitRunOfDigits(d: string, rest: string)
    requires forall k :: 0 <= k < |d| ==> IsDecimalDigit(d[k])
    requires rest == [] || !IsDecimalDigit(rest[0])
    ensures DigitRun(d + rest, false) == |d|
  {
    if |d| > 0 {
      assert (d + rest)[1..] == d[1..] + rest;
      DigitRunOfDigits(d[1..], rest);
    } else {
      assert d + rest == rest;
    }
  }
}
