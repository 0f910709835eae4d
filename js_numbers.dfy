/**
  `parseInt(s, 10)` of JavaScript, on whole numbers: skip leading whitespace,
  take one optional sign, then the longest run of decimal digits; with no
  digit the result is `NaN`.
 */
module JsNumbers {
  import opened JsStrings

  /** A JavaScript number as the query helpers can produce it: an integer or `NaN`. */
  datatype Number = Finite(value: int) | NaN

  predicate IsDigit(c: char) {
    '0' <= c <= '9'
  }

  function DigitValue(c: char): (d: nat)
    requires IsDigit(c)
    ensures d < 10
  {
    (c as int) - ('0' as int)
  }

  function DigitChar(d: nat): (c: char)
    requires d < 10
    ensures IsDigit(c) && DigitValue(c) == d
  {
    (('0' as int) + d) as char
  }

  predicate AllDigits(s: string) {
    forall i :: 0 <= i < |s| ==> IsDigit(s[i])
  }

  /** The longest prefix of `s` made of decimal digits. */
  function LeadingDigits(s: string): (d: string)
    ensures |d| <= |s| && d == s[..|d|]
    ensures AllDigits(d)
    ensures |d| == |s| || !IsDigit(s[|d|])
  {
    if s != [] && IsDigit(s[0]) then [s[0]] + LeadingDigits(s[1..]) else []
  }

  /** The value of a string of decimal digits, most significant first. */
  function DigitsValue(d: string): nat
    requires AllDigits(d)
  {
    if d == [] then 0 else 10 * DigitsValue(d[..|d| - 1]) + DigitValue(d[|d| - 1])
  }

  /** `parseInt(s, 10)`: leading whitespace is skipped, then a signed digit run is read. */
  function ParseInt(s: string): Number
  {
    ParseSigned(TrimStart(s))
  }

  /** One optional `-` or `+`, then a digit run. */
  function ParseSigned(t: string): Number
  {
    if t != [] && t[0] == '-' then Negate(ParseDigits(t[1..]))
    else if t != [] && t[0] == '+' then ParseDigits(t[1..])
    else ParseDigits(t)
  }

  /** The value of the leading digit run of `u`, or `NaN` when `u` does not start with a digit. */
  function ParseDigits(u: string): Number
  {
    var digits := LeadingDigits(u);
    if digits == [] then NaN else Finite(DigitsValue(digits))
  }

  function Negate(x: Number): Number
  {
    match x
    case NaN => NaN
    case Finite(v) => Finite(-v)
  }

  /** The canonical decimal spelling of a natural number: digits only, no leading zero. */
  function NatDecimal(n: nat): (s: string)
    ensures |s| >= 1 && AllDigits(s)
    ensures s[0] == '0' ==> n == 0
  {
    if n < 10 then [DigitChar(n)] else NatDecimal(n / 10) + [DigitChar(n % 10)]
  }

  /** `String(n)` for an integer: its decimal spelling, with `-` when negative. */
  function Decimal(n: int): (s: string)
    ensures |s| >= 1 && !IsWhitespace(s[0])
  {
    if n < 0 then "-" + NatDecimal(-n) else NatDecimal(n)
  }

  /** Reading back the decimal spelling of a natural number gives that number. */
  lemma {:induction false} NatDecimalValue(n: nat)
    ensures DigitsValue(NatDecimal(n)) == n
  {
    if n >= 10 {
      NatDecimalValue(n / 10);
      var s := NatDecimal(n);
      assert s[..|s| - 1] == NatDecimal(n / 10);
    }
  }

  /** The digit run of digits followed by a non-digit is exactly those digits. */
  lemma {:induction false} LeadingDigitsStop(d: string, rest: string)
    requires AllDigits(d)
    requires rest == [] || !IsDigit(rest[0])
    ensures LeadingDigits(d + rest) == d
    decreases |d|
  {
    if d != [] {
      assert (d + rest)[1..] == d[1..] + rest;
      LeadingDigitsStop(d[1..], rest);
    } else {
      assert d + rest == rest;
    }
  }

  /**
    `parseInt` reads the value of the first digit run, negated after a `-`,
    whatever whitespace precedes it and whatever non-digit text follows it.
   */
  lemma ParseIntDigits(ws: string, sign: string, d: string, rest: string)
    requires forall i :: 0 <= i < |ws| ==> IsWhitespace(ws[i])
    requires sign == "" || sign == "-" || sign == "+"
    requires d != [] && AllDigits(d)
    requires rest == [] || !IsDigit(rest[0])
    ensures ParseInt(ws + sign + d + rest) == Finite(if sign == "-" then -(DigitsValue(d) as int) else DigitsValue(d))
  {
    var u := d + rest;
    var t := sign + u;
    assert ws + sign + d + rest == ws + t by {
      Associative(ws, sign, d, rest);
    }
    assert TrimStart(ws + t) == t by {
      TrimStartSkips(ws, t);
    }
    assert ParseDigits(u) == Finite(DigitsValue(d)) by {
      LeadingDigitsStop(d, rest);
    }
    ParseSignedSign(sign, u);
  }

  /**
    Regrouping a four-part concatenation. Kept as a lemma so that the
    regrouping does not enter the context of ParseIntDigits.
   */
  lemma Associative<T>(a: seq<T>, b: seq<T>, c: seq<T>, d: seq<T>)
    ensures a + b + c + d == a + (b + (c + d))
  {
  }

  /** A sign in front of a digit is read as such. */
  lemma ParseSignedSign(sign: string, u: string)
    requires sign == "" || sign == "-" || sign == "+"
    requires u != [] && IsDigit(u[0])
    ensures ParseSigned(sign + u) == if sign == "-" then Negate(ParseDigits(u)) else ParseDigits(u)
  {
    if sign == "" {
      assert sign + u == u;
    } else {
      assert (sign + u)[1..] == u;
    }
  }

  /** `parseInt` reads back any integer written in decimal, with the same padding as ParseIntDigits. */
  lemma ParseIntDecimal(ws: string, n: int, rest: string)
    requires forall i :: 0 <= i < |ws| ==> IsWhitespace(ws[i])
    requires rest == [] || !IsDigit(rest[0])
    ensures ParseInt(ws + Decimal(n) + rest) == Finite(n)
  {
    var sign := if n < 0 then "-" else "";
    var m: nat := if n < 0 then -n else n;
    assert ws + Decimal(n) + rest == ws + sign + NatDecimal(m) + rest by {
      assert Decimal(n) == sign + NatDecimal(m);
    }
    assert ParseInt(ws + sign + NatDecimal(m) + rest) == Finite(n) by {
      NatDecimalValue(m);
      ParseIntDigits(ws, sign, NatDecimal(m), rest);
    }
  }

  /**
    `parseInt` gives `NaN` when no digit follows the leading whitespace and
    the optional sign. After a sign, `rest` may start with anything but a
    digit. Without a sign it may not start with another sign or with
    whitespace, which would belong to `ws` or `sign`.
   */
  lemma ParseIntNaN(ws: string, sign: string, rest: string)
    requires forall i :: 0 <= i < |ws| ==> IsWhitespace(ws[i])
    requires sign == "" || sign == "-" || sign == "+"
    requires rest == [] || !(IsDigit(rest[0]) || (sign == "" && (rest[0] == '-' || rest[0] == '+' || IsWhitespace(rest[0]))))
    ensures ParseInt(ws + sign + rest) == NaN
  {
    var t := sign + rest;
    assert ws + sign + rest == ws + t;
    assert TrimStart(ws + t) == t by {
      TrimStartSkips(ws, t);
    }
    if sign == "" {
      assert t == rest;
    } else {
      assert t[1..] == rest;
    }
  }

}
