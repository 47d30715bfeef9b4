/**
 * JavaScript's global `parseInt(string)` with no radix argument, as the
 * handlers apply it to path and query parameters: leading white space is
 * skipped, one sign is read, a `0x`/`0X` prefix switches to base 16, and the
 * longest run of digits that follows is the value. No digits at all is `NaN`,
 * here `None`. The result is the exact integer (see README on rounding).
 */
module JsParseInt {
  import opened Wrappers

  /** The WhiteSpace and LineTerminator code points that parseInt skips
      (ECMAScript, sections 12.2 and 12.3: TAB, VT, FF, ZWNBSP, the Zs
      category, LF, CR, LS and PS). */
  predicate IsJsSpace(c: char)
  {
    var n := c as int;
    n == 0x09 || n == 0x0B || n == 0x0C || n == 0xFEFF
    || n == 0x0A || n == 0x0D || n == 0x2028 || n == 0x2029
    || n == 0x20 || n == 0xA0 || n == 0x1680 || (0x2000 <= n <= 0x200A)
    || n == 0x202F || n == 0x205F || n == 0x3000
  }

  /** The value of a digit character in bases up to 36; 36 for anything else. */
  function DigitOf(c: char): (d: nat)
    ensures d <= 36
  {
    if '0' <= c <= '9' then c as int - '0' as int
    else if 'a' <= c <= 'z' then c as int - 'a' as int + 10
    else if 'A' <= c <= 'Z' then c as int - 'A' as int + 10
    else 36
  }

  predicate IsDigit(c: char, radix: nat)
  {
    DigitOf(c) < radix
  }

  /** The input with its leading white space removed. */
  function TrimStart(s: string): (r: string)
    ensures |r| <= |s| && r == s[|s| - |r|..]
    ensures r == [] || !IsJsSpace(r[0])
  {
    if s != [] && IsJsSpace(s[0]) then TrimStart(s[1..]) else s
  }

  /** The longest prefix of `s` made of digits of the given base. */
  function DigitPrefix(s: string, radix: nat): (r: string)
    ensures |r| <= |s| && r == s[..|r|]
    ensures forall i :: 0 <= i < |r| ==> IsDigit(r[i], radix)
    ensures |r| < |s| ==> !IsDigit(s[|r|], radix)
  {
    if s != [] && IsDigit(s[0], radix) then [s[0]] + DigitPrefix(s[1..], radix) else []
  }

  /** The number a digit string denotes in the given base. */
  function Value(ds: string, radix: nat): nat
  {
    if ds == [] then 0 else Value(ds[..|ds| - 1], radix) * radix + DigitOf(ds[|ds| - 1])
  }

  /** The digits after the sign: a `0x`/`0X` prefix selects base 16, and no
      digits at all is `NaN`. */
  function ParseUnsigned(u: string): Option<nat>
  {
    var hex := |u| >= 2 && u[0] == '0' && (u[1] == 'x' || u[1] == 'X');
    var radix := if hex then 16 else 10;
    var z := DigitPrefix(if hex then u[2..] else u, radix);
    if z == [] then None else Some(Value(z, radix))
  }

  /** `parseInt(input)`: `None` stands for `NaN`. After the white space and
      the sign, the result is `NaN` exactly when no decimal digit follows, or
      when `0x`/`0X` is followed by no hexadecimal digit; a minus sign gives a
      result that is not positive, any other start one that is not negative. */
  function ParseInt(input: string): (r: Option<int>)
    ensures var s := TrimStart(input);
            var u := if s != [] && (s[0] == '-' || s[0] == '+') then s[1..] else s;
            r.None? <==>
              (u == [] || !IsDigit(u[0], 10)
               || (|u| >= 2 && u[0] == '0' && (u[1] == 'x' || u[1] == 'X') && (|u| == 2 || !IsDigit(u[2], 16))))
    ensures var s := TrimStart(input);
            r.Some? ==> if s != [] && s[0] == '-' then r.value <= 0 else r.value >= 0
  {
    ParseSigned(TrimStart(input))
  }

  /** parseInt once the leading white space is gone: one optional sign, then
      the unsigned part. */
  function ParseSigned(s: string): Option<int>
  {
    var negative := s != [] && s[0] == '-';
    match ParseUnsigned(if s != [] && (s[0] == '-' || s[0] == '+') then s[1..] else s)
    case None => None
    case Some(v) =>
      var k: int := v;
      Some(if negative then -k else k)
  }

  /** The character of a decimal digit. */
  function DigitChar(d: nat): (c: char)
    requires d < 10
    ensures IsDigit(c, 10) && DigitOf(c) == d
  {
    ('0' as int + d) as char
  }

  /** The canonical decimal text of a natural number, as `String(n)` writes it. */
  function NatDecimal(n: nat): string
  {
    if n < 10 then [DigitChar(n)] else NatDecimal(n / 10) + [DigitChar(n % 10)]
  }

  /** The canonical decimal text of an integer, as `String(n)` writes it. */
  function Decimal(n: int): string
  {
    if n < 0 then "-" + NatDecimal(-n) else NatDecimal(n)
  }

  /** NatDecimal writes only decimal digits, starts with `0` only for zero,
      and reads back as the number it was made from. */
  lemma {:induction false} NatDecimalReadsBack(n: nat)
    ensures NatDecimal(n) != []
    ensures forall i :: 0 <= i < |NatDecimal(n)| ==> IsDigit(NatDecimal(n)[i], 10)
    ensures NatDecimal(n)[0] == '0' ==> n == 0
    ensures Value(NatDecimal(n), 10) == n
  {
    if n >= 10 {
      NatDecimalReadsBack(n / 10);
      var ds := NatDecimal(n);
      assert ds[..|ds| - 1] == NatDecimal(n / 10);
    }
  }

  /** A run of digits followed by a non-digit is exactly what DigitPrefix takes. */
  lemma {:induction false} DigitPrefixOf(ds: string, rest: string, radix: nat)
    requires forall i :: 0 <= i < |ds| ==> IsDigit(ds[i], radix)
    requires rest == [] || !IsDigit(rest[0], radix)
    ensures DigitPrefix(ds + rest, radix) == ds
  {
    if ds != [] {
      assert (ds + rest)[1..] == ds[1..] + rest;
      DigitPrefixOf(ds[1..], rest, radix);
    }
  }

  /** TrimStart removes exactly a leading run of white space. */
  lemma {:induction false} TrimStartOf(ws: string, t: string)
    requires forall i :: 0 <= i < |ws| ==> IsJsSpace(ws[i])
    requires t == [] || !IsJsSpace(t[0])
    ensures TrimStart(ws + t) == t
  {
    if ws != [] {
      assert (ws + t)[1..] == ws[1..] + t;
      TrimStartOf(ws[1..], t);
    }
  }

  /** The unsigned part of parseInt reads back NatDecimal. */
  lemma ParseUnsignedDecimal(m: nat, rest: string)
    requires rest == [] || !IsDigit(rest[0], 10)
    requires m == 0 && rest != [] ==> rest[0] != 'x' && rest[0] != 'X'
    ensures ParseUnsigned(NatDecimal(m) + rest) == Some(m)
  {
    var ds := NatDecimal(m);
    NatDecimalReadsBack(m);
    DigitPrefixOf(ds, rest, 10);
    var u := ds + rest;
    if |u| >= 2 && u[0] == '0' {
      assert ds[0] == '0';
      assert ds == "0";
      assert u[1] == rest[0];
    }
  }

  /** A minus sign followed by the decimal text of a positive number. */
  lemma ParseSignedNegative(m: nat, rest: string)
    requires m > 0
    requires rest == [] || !IsDigit(rest[0], 10)
    ensures ParseSigned("-" + NatDecimal(m) + rest) == Some(0 - m)
  {
    var u := NatDecimal(m) + rest;
    var t := "-" + u;
    assert "-" + NatDecimal(m) + rest == t;
    assert t[0] == '-' && t[1..] == u;
    ParseUnsignedDecimal(m, rest);
    assert ParseUnsigned(t[1..]) == Some(m);
  }

  /** The decimal text of a natural number, with no sign. */
  lemma ParseSignedNatural(m: nat, rest: string)
    requires rest == [] || !IsDigit(rest[0], 10)
    requires m == 0 && rest != [] ==> rest[0] != 'x' && rest[0] != 'X'
    ensures ParseSigned(NatDecimal(m) + rest) == Some(m)
  {
    NatDecimalReadsBack(m);
    ParseUnsignedDecimal(m, rest);
    assert (NatDecimal(m) + rest)[0] == NatDecimal(m)[0];
  }

  /** The sign handling of parseInt reads back Decimal. */
  lemma ParseSignedDecimal(n: int, rest: string)
    requires rest == [] || !IsDigit(rest[0], 10)
    requires n == 0 && rest != [] ==> rest[0] != 'x' && rest[0] != 'X'
    ensures ParseSigned(Decimal(n) + rest) == Some(n)
  {
    if n < 0 {
      ParseSignedNegative(-n, rest);
    } else {
      ParseSignedNatural(n, rest);
    }
  }

  /** parseInt reads back the decimal text of an integer followed by text that
      does not continue the number. */
  lemma ParseIntDecimalText(n: int, rest: string)
    requires rest == [] || !IsDigit(rest[0], 10)
    requires n == 0 && rest != [] ==> rest[0] != 'x' && rest[0] != 'X'
    ensures ParseInt(Decimal(n) + rest) == Some(n)
  {
    var t := Decimal(n) + rest;
    NatDecimalReadsBack(if n < 0 then -n else n);
    assert t[0] == '-' || IsDigit(t[0], 10);
    TrimStartOf([], t);
    assert [] + t == t;
    ParseSignedDecimal(n, rest);
  }

  /** Leading white space does not change what parseInt reads. */
  lemma ParseIntSkipsSpace(ws: string, t: string)
    requires forall i :: 0 <= i < |ws| ==> IsJsSpace(ws[i])
    requires t == [] || !IsJsSpace(t[0])
    ensures ParseInt(ws + t) == ParseInt(t)
  {
    TrimStartOf(ws, t);
    TrimStartOf([], t);
    assert [] + t == t;
  }

  /** The decimal text of an integer starts with a minus sign or a digit. */
  lemma DecimalStartsWithSignOrDigit(n: int)
    ensures Decimal(n) != [] && !IsJsSpace(Decimal(n)[0])
  {
    NatDecimalReadsBack(if n < 0 then -n else n);
  }

  /** parseInt reads back the decimal text of every integer, after any leading
      white space and before any trailing text that does not continue the
      number (a digit would, and so would an `x` right after a lone `0`). */
  lemma ParseIntDecimal(ws: string, n: int, rest: string)
    requires forall i :: 0 <= i < |ws| ==> IsJsSpace(ws[i])
    requires rest == [] || !IsDigit(rest[0], 10)
    requires n == 0 && rest != [] ==> rest[0] != 'x' && rest[0] != 'X'
    ensures ParseInt(ws + Decimal(n) + rest) == Some(n)
  {
    var t := Decimal(n) + rest;
    assert ws + Decimal(n) + rest == ws + t;
    DecimalStartsWithSignOrDigit(n);
    assert t[0] == Decimal(n)[0];
    ParseIntSkipsSpace(ws, t);
    ParseIntDecimalText(n, rest);
  }

  /** Text that, after white space and at most one sign, does not start
      with a digit is `NaN`. */
  lemma NoDigitsIsNaN(ws: string, sign: string, t: string)
    requires forall i :: 0 <= i < |ws| ==> IsJsSpace(ws[i])
    requires sign == "" || sign == "-" || sign == "+"
    requires sign == "" && t != [] ==> !IsJsSpace(t[0]) && t[0] != '-' && t[0] != '+'
    requires t == [] || !IsDigit(t[0], 10)
    ensures ParseInt(ws + sign + t) == None
  {
    var st := sign + t;
    assert ws + sign + t == ws + st;
    assert st == [] || !IsJsSpace(st[0]);
    TrimStartOf(ws, st);
    if sign != "" {
      assert st[1..] == t;
    } else {
      assert st == t;
    }
  }
}
