/** JavaScript's global `parseInt(string)` called without a radix: skip
    leading whitespace, read an optional sign, read a `0x`/`0X` prefix as
    radix 16 (otherwise radix 10), then the longest run of digits of that
    radix. No digit gives NaN, modelled as `None`. */
module JsParseInt {
  import opened Wrappers
  import opened JsText

  predicate IsDigit(c: char) {
    '0' <= c <= '9'
  }

  predicate IsRadixDigit(c: char, hex: bool) {
    IsDigit(c) || (hex && ('a' <= c <= 'f' || 'A' <= c <= 'F'))
  }

  /** The value of a digit; 0 for any other character. */
  function DigitValue(c: char): (d: nat)
    ensures d < 16
    ensures IsDigit(c) ==> d < 10
  {
    if IsDigit(c) then c as nat - '0' as nat
    else if 'a' <= c <= 'f' then c as nat - 'a' as nat + 10
    else if 'A' <= c <= 'F' then c as nat - 'A' as nat + 10
    else 0
  }

  /** The length of the run of radix digits at the start of `s`. */
  function DigitRun(s: string, hex: bool): (n: nat)
    ensures n <= |s|
    ensures forall i :: 0 <= i < n ==> IsRadixDigit(s[i], hex)
    ensures n < |s| ==> !IsRadixDigit(s[n], hex)
  {
    if |s| > 0 && IsRadixDigit(s[0], hex) then 1 + DigitRun(s[1..], hex) else 0
  }

  predicate AllDigits(ds: string, hex: bool) {
    forall i :: 0 <= i < |ds| ==> IsRadixDigit(ds[i], hex)
  }

  /** The number a digit string denotes, most significant digit first. */
  function ValueOf(ds: string, hex: bool): nat {
    if ds == [] then 0
    else ValueOf(ds[..|ds| - 1], hex) * (if hex then 16 else 10) + DigitValue(ds[|ds| - 1])
  }


  /** What follows the leading whitespace and the optional sign of `s`. */
  function Unsigned(s: string): string {
    var t := TrimStart(s);
    if |t| > 0 && (t[0] == '-' || t[0] == '+') then t[1..] else t
  }

  /** There is nothing for `parseInt` to read in `s`: after the whitespace
      and the sign comes no decimal digit, or a `0x` prefix that no
      hexadecimal digit follows. */
  predicate NoDigits(s: string) {
    var u := Unsigned(s);
    || u == [] || !IsDigit(u[0])
    || (|u| >= 2 && u[0] == '0' && (u[1] == 'x' || u[1] == 'X')
        && (|u| == 2 || !IsRadixDigit(u[2], true)))
  }

  /** `parseInt(s)`; `None` stands for NaN, which it is exactly when there
      is no digit to read. */
  function ParseInt(s: string): (r: Option<int>)
    ensures r == None <==> NoDigits(s)
  {
    var t := TrimStart(s);
    var negative := |t| > 0 && t[0] == '-';
    var u := Unsigned(s);
    var hex := |u| >= 2 && u[0] == '0' && (u[1] == 'x' || u[1] == 'X');
    var ds := if hex then u[2..] else u;
    var n := DigitRun(ds, hex);
    if n == 0 then None
    else
      var v: int := ValueOf(ds[..n], hex);
      Some(if negative then -v else v)
  }

  function DigitChar(d: nat): (c: char)
    requires d < 10
    ensures IsDigit(c) && DigitValue(c) == d
  {
    ('0' as nat + d) as char
  }

  /** The decimal numeral of `n`, as JavaScript's `String(n)` writes it. */
  function DecimalString(n: nat): (s: string)
    ensures |s| >= 1 && AllDigits(s, false)
    ensures s[0] == '0' ==> n == 0
  {
    if n < 10 then [DigitChar(n)] else DecimalString(n / 10) + [DigitChar(n % 10)]
  }

  function IntToString(n: int): string {
    if n < 0 then "-" + DecimalString(-n) else DecimalString(n)
  }

  /** A numeral denotes the number it was written from. */
  lemma {:induction false} ValueOfDecimalString(n: nat)
    ensures ValueOf(DecimalString(n), false) == n
  {
    if n >= 10 {
      var s := DecimalString(n);
      ValueOfDecimalString(n / 10);
      assert s[..|s| - 1] == DecimalString(n / 10);
    }
  }

  lemma {:induction false} DigitRunAppend(ds: string, rest: string, hex: bool)
    requires AllDigits(ds, hex)
    ensures DigitRun(ds + rest, hex) == |ds| + DigitRun(rest, hex)
  {
    if ds != [] {
      assert (ds + rest)[1..] == ds[1..] + rest;
      DigitRunAppend(ds[1..], rest, hex);
    } else {
      assert ds + rest == rest;
    }
  }

  /** `parseInt` reads back a decimal numeral followed by any text that does
      not continue it: it is a prefix parse. */
  lemma ParseIntOfNumeral(n: int, rest: string)
    requires rest == [] || !IsDigit(rest[0])
    requires n == 0 && rest != [] ==> rest[0] != 'x' && rest[0] != 'X'
    ensures ParseInt(IntToString(n) + rest) == Some(n)
  {
    var m := if n < 0 then -n else n;
    var sign := if n < 0 then "-" else "";
    NumeralParts(n, rest);
    ParseIntOfDigits([], sign, DecimalString(m), rest);
    ValueOfDecimalString(m);
  }

  /** The numeral of an integer is its sign followed by the numeral of its
      magnitude, which is "0" only for 0. */
  lemma NumeralParts(n: int, rest: string)
    ensures var m := if n < 0 then -n else n;
      var sign := if n < 0 then "-" else "";
      && IntToString(n) + rest == [] + sign + DecimalString(m) + rest
      && (DecimalString(m) == "0" ==> n == 0)
  {
    var m := if n < 0 then -n else n;
    if DecimalString(m) == "0" {
      assert DecimalString(m)[0] == '0';
    }
  }

  /** Whitespace and a sign in front of a digit are what `parseInt` skips;
      the sign is a minus exactly when it is written as one. */
  lemma UnsignedOfSigned(w: string, sign: string, ds: string, rest: string)
    requires AllWhitespace(w)
    requires sign == "" || sign == "+" || sign == "-"
    requires ds != [] && IsDigit(ds[0])
    ensures var t := TrimStart(w + sign + ds + rest);
      && Unsigned(w + sign + ds + rest) == ds + rest
      && ((|t| > 0 && t[0] == '-') <==> sign == "-")
  {
    var u := ds + rest;
    assert w + sign + ds + rest == w + (sign + u);
    TrimStartAppend(w, sign + u);
    assert !IsWhitespace((sign + u)[0]);
    assert TrimStart(sign + u) == sign + u;
    if sign != "" {
      assert (sign + u)[1..] == u;
    }
  }

  /** What `parseInt` reads from the text after the whitespace and sign,
      when that text is a run of decimal digits followed by a text that does
      not continue it. */
  lemma ReadDecimalDigits(s: string, ds: string, rest: string)
    requires Unsigned(s) == ds + rest
    requires |ds| >= 1 && AllDigits(ds, false)
    requires rest == [] || !IsDigit(rest[0])
    requires ds == "0" && rest != [] ==> rest[0] != 'x' && rest[0] != 'X'
    ensures var t := TrimStart(s);
      ParseInt(s) == Some(if |t| > 0 && t[0] == '-' then -(ValueOf(ds, false) as int) else ValueOf(ds, false))
  {
    NoHexPrefix(ds, rest);
    DecimalRun(ds, rest);
  }

  /** Decimal digits followed by a text that does not continue them do not
      start with `0x` or `0X`. */
  lemma NoHexPrefix(ds: string, rest: string)
    requires |ds| >= 1 && AllDigits(ds, false)
    requires ds == "0" && rest != [] ==> rest[0] != 'x' && rest[0] != 'X'
    ensures var u := ds + rest;
      !(|u| >= 2 && u[0] == '0' && (u[1] == 'x' || u[1] == 'X'))
  {
    var u := ds + rest;
    if |u| >= 2 && u[0] == '0' {
      if |ds| == 1 {
        assert u[1] == rest[0];
      } else {
        assert u[1] == ds[1];
      }
    }
  }

  /** The decimal digit run of such a text is exactly the digits. */
  lemma DecimalRun(ds: string, rest: string)
    requires |ds| >= 1 && AllDigits(ds, false)
    requires rest == [] || !IsDigit(rest[0])
    ensures var u := ds + rest;
      DigitRun(u, false) == |ds| && u[..DigitRun(u, false)] == ds
  {
    DigitRunAppend(ds, rest, false);
    assert (ds + rest)[..|ds|] == ds;
  }

  /** `parseInt` of a field made of whitespace, an optional sign and a run
      of decimal digits (leading zeros allowed), followed by any text that
      does not continue the run: the signed value of the digits. */
  lemma ParseIntOfDigits(w: string, sign: string, ds: string, rest: string)
    requires AllWhitespace(w)
    requires sign == "" || sign == "+" || sign == "-"
    requires |ds| >= 1 && AllDigits(ds, false)
    requires rest == [] || !IsDigit(rest[0])
    requires ds == "0" && rest != [] ==> rest[0] != 'x' && rest[0] != 'X'
    ensures ParseInt(w + sign + ds + rest)
         == Some(if sign == "-" then -(ValueOf(ds, false) as int) else ValueOf(ds, false))
  {
    UnsignedOfSigned(w, sign, ds, rest);
    ReadDecimalDigits(w + sign + ds + rest, ds, rest);
  }
}
