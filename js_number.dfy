/**
 * JavaScript numbers as the growth calculator uses them, over exact reals: a finite
 * value or NaN. Also the two number grammars the parser relies on: the decimal
 * `-?\d+(\.\d+)?` of its range pattern, and the longest-prefix reading of
 * `parseFloat`.
 */
module JsNumber {
  import opened Wrappers
  import opened JsString

  /** A number: a finite value or NaN (what `parseFloat` yields for text that is not a number). */
  datatype Num = Finite(value: real) | NaN

  /** JavaScript `*`: NaN when either side is NaN. */
  function Mul(a: Num, b: Num): Num
  {
    if a.Finite? && b.Finite? then Finite(a.value * b.value) else NaN
  }

  /** `m` times 10 to the power `e`, for any integer `e`. */
  function Scale(m: real, e: int): real
    decreases if e >= 0 then e else -e
  {
    if e == 0 then m else if e > 0 then 10.0 * Scale(m, e - 1) else Scale(m, e + 1) / 10.0
  }

  function DigitValue(c: char): nat
    requires IsDigit(c)
  {
    (c - '0') as nat
  }

  /** The value of a string of decimal digits, most significant first. */
  function DigitsValue(d: string): nat
    requires AllDigits(d)
  {
    if d == [] then 0 else 10 * DigitsValue(d[..|d| - 1]) + DigitValue(d[|d| - 1])
  }

  /** The text of an unsigned literal: the whole digits, then the fraction digits after a point if any. */
  function UnsignedText(whole: string, fraction: string): string
  {
    whole + (if fraction == [] then [] else ['.'] + fraction)
  }

  /** The value of the digits after a decimal point: `.25` is 0.25. */
  function FractionValue(fraction: string): real
    requires AllDigits(fraction)
  {
    if fraction == [] then 0.0 else (DigitValue(fraction[0]) as real + FractionValue(fraction[1..])) / 10.0
  }

  function UnsignedValue(whole: string, fraction: string): real
    requires AllDigits(whole) && AllDigits(fraction)
  {
    DigitsValue(whole) as real + FractionValue(fraction)
  }

  /**
   * A literal of the grammar `-?\d+(\.\d+)?`: an optional minus sign, the whole digits
   * and the fraction digits (no fraction when `fraction` is empty).
   */
  datatype Decimal = Decimal(negative: bool, whole: string, fraction: string) {
    predicate Valid() {
      |whole| > 0 && AllDigits(whole) && AllDigits(fraction)
    }

    function Text(): string {
      if negative then ['-'] + UnsignedText(whole, fraction) else UnsignedText(whole, fraction)
    }

    function Value(): real
      requires Valid()
    {
      var m := UnsignedValue(whole, fraction);
      if negative then -m else m
    }
  }

  /**
   * The longest `\d+(\.\d+)?` at the front of `u`: its whole digits, its fraction digits
   * and its length; None when `u` does not start with a digit.
   */
  function ScanUnsigned(u: string): (r: Option<(string, string, nat)>)
    ensures r.Some? ==> |r.value.0| > 0 && AllDigits(r.value.0) && AllDigits(r.value.1)
  {
    var w := LeadingDigits(u);
    if w == 0 then None
    else
      var after := u[w..];
      var f := if after != [] && after[0] == '.' then LeadingDigits(after[1..]) else 0;
      if f == 0 then Some((u[..w], [], w)) else Some((u[..w], after[1..][..f], w + 1 + f))
  }

  /**
   * The longest literal `-?\d+(\.\d+)?` at the front of `s`, with its length; None when
   * no digit follows the optional minus sign.
   */
  function ScanDecimal(s: string): (r: Option<(Decimal, nat)>)
    ensures r.Some? ==> r.value.0.Valid()
  {
    var negative := s != [] && s[0] == '-';
    match ScanUnsigned(if negative then s[1..] else s)
    case None => None
    case Some((whole, fraction, n)) =>
      Some((Decimal(negative, whole, fraction), if negative then n + 1 else n))
  }

  lemma {:induction false} ScanUnsignedSound(u: string)
    ensures ScanUnsigned(u).None? <==> LeadingDigits(u) == 0
    ensures ScanUnsigned(u).Some? ==>
      var (whole, fraction, e) := ScanUnsigned(u).value;
      |whole| > 0 && AllDigits(whole) && AllDigits(fraction)
      && e <= |u| && u[..e] == UnsignedText(whole, fraction)
      && (e < |u| ==> !IsDigit(u[e]))
      && (fraction == [] && e + 1 < |u| ==> !(u[e] == '.' && IsDigit(u[e + 1])))
  {
    var w := LeadingDigits(u);
    if w > 0 {
      var after := u[w..];
      assert u == u[..w] + after;
      if after != [] && after[0] == '.' {
        var f := LeadingDigits(after[1..]);
        assert after == ['.'] + after[1..][..f] + after[1..][f..];
        if f > 0 {
          assert u[..w + 1 + f] == u[..w] + (['.'] + after[1..][..f]);
          if w + 1 + f < |u| {
            assert u[w + 1 + f] == after[1..][f];
          }
        } else if w + 1 < |u| {
          assert u[w + 1] == after[1..][0];
        }
      }
    }
  }

  /**
   * What the scanner finds is a literal of the grammar, it is the text it consumed, and
   * it is the longest one: what follows is not a digit, nor, when there is no fraction, a
   * point before a digit.
   */
  lemma {:induction false} ScanDecimalSound(s: string)
    ensures ScanDecimal(s).None? <==> LeadingDigits(if s != [] && s[0] == '-' then s[1..] else s) == 0
    ensures ScanDecimal(s).Some? ==>
      var (d, e) := ScanDecimal(s).value;
      d.Valid() && 0 < e <= |s| && s[..e] == d.Text()
      && (e < |s| ==> !IsDigit(s[e]))
      && (d.fraction == [] && e + 1 < |s| ==> !(s[e] == '.' && IsDigit(s[e + 1])))
  {
    var negative := s != [] && s[0] == '-';
    var u := if negative then s[1..] else s;
    ScanUnsignedSound(u);
    if ScanUnsigned(u).Some? {
      var (whole, fraction, e) := ScanUnsigned(u).value;
      if negative {
        ScanMinus(s, whole, fraction, e);
        MinusFacts(s, whole, fraction, e);
      } else {
        ScanPlain(s, whole, fraction, e);
      }
    }
  }

  /** What follows an unsigned literal after a minus sign is what follows the signed one. */
  lemma MinusFacts(s: string, whole: string, fraction: string, e: nat)
    requires s != [] && s[0] == '-'
    requires e <= |s[1..]| && s[1..][..e] == UnsignedText(whole, fraction)
    requires e < |s[1..]| ==> !IsDigit(s[1..][e])
    requires fraction == [] && e + 1 < |s[1..]| ==> !(s[1..][e] == '.' && IsDigit(s[1..][e + 1]))
    ensures e + 1 <= |s| && s[..e + 1] == ['-'] + UnsignedText(whole, fraction)
    ensures e + 1 < |s| ==> !IsDigit(s[e + 1])
    ensures fraction == [] && e + 2 < |s| ==> !(s[e + 1] == '.' && IsDigit(s[e + 2]))
  {
    assert s[..e + 1] == ['-'] + s[1..][..e];
  }

  lemma {:induction false} ScanUnsignedText(whole: string, fraction: string, rest: string)
    requires |whole| > 0 && AllDigits(whole) && AllDigits(fraction)
    requires rest == [] || (!IsDigit(rest[0]) && rest[0] != '.')
    ensures ScanUnsigned(UnsignedText(whole, fraction) + rest)
      == Some((whole, fraction, |UnsignedText(whole, fraction)|))
  {
    if fraction == [] {
      assert UnsignedText(whole, fraction) + rest == whole + rest;
      ScanWholeOnly(whole, rest);
    } else {
      var tail := ['.'] + (fraction + rest);
      assert UnsignedText(whole, fraction) + rest == whole + tail;
      ScanWithFraction(whole, fraction, rest, tail);
    }
  }

  /** Digits followed by neither a digit nor a decimal point scan as a whole number. */
  lemma {:induction false} ScanWholeOnly(whole: string, rest: string)
    requires |whole| > 0 && AllDigits(whole)
    requires rest == [] || (!IsDigit(rest[0]) && rest[0] != '.')
    ensures ScanUnsigned(whole + rest) == Some((whole, [], |whole|))
  {
    var u := whole + rest;
    LeadingDigitsExact(whole, rest);
    assert u[..|whole|] == whole && u[|whole|..] == rest;
  }

  /** Digits, a decimal point and digits, followed by what cannot extend them, scan whole. */
  lemma {:induction false} ScanWithFraction(whole: string, fraction: string, rest: string, tail: string)
    requires |whole| > 0 && AllDigits(whole) && |fraction| > 0 && AllDigits(fraction)
    requires rest == [] || (!IsDigit(rest[0]) && rest[0] != '.')
    requires tail == ['.'] + (fraction + rest)
    ensures ScanUnsigned(whole + tail) == Some((whole, fraction, |whole| + 1 + |fraction|))
  {
    var u := whole + tail;
    LeadingDigitsExact(whole, tail);
    assert u[..|whole|] == whole && u[|whole|..] == tail;
    assert tail[1..] == fraction + rest;
    LeadingDigitsExact(fraction, rest);
    assert tail[1..][..|fraction|] == fraction;
  }

  /**
   * Scanning the text of a literal gives that literal back, as long as what follows
   * cannot extend it.
   */
  lemma {:induction false} ScanDecimalText(d: Decimal, rest: string)
    requires d.Valid()
    requires rest == [] || (!IsDigit(rest[0]) && rest[0] != '.')
    ensures ScanDecimal(d.Text() + rest) == Some((d, |d.Text()|))
  {
    var text := UnsignedText(d.whole, d.fraction);
    ScanUnsignedText(d.whole, d.fraction, rest);
    if d.negative {
      Cons('-', text, rest);
      ScanMinus(['-'] + (text + rest), d.whole, d.fraction, |text|);
    } else {
      assert (text + rest)[0] == d.whole[0];
      ScanPlain(text + rest, d.whole, d.fraction, |text|);
    }
  }

  /** A minus sign before an unsigned literal makes a negative literal one longer. */
  lemma ScanMinus(s: string, whole: string, fraction: string, n: nat)
    requires s != [] && s[0] == '-' && ScanUnsigned(s[1..]) == Some((whole, fraction, n))
    ensures ScanDecimal(s) == Some((Decimal(true, whole, fraction), n + 1))
  {
  }

  /** An unsigned literal not after a minus sign is a non-negative literal. */
  lemma ScanPlain(s: string, whole: string, fraction: string, n: nat)
    requires (s == [] || s[0] != '-') && ScanUnsigned(s) == Some((whole, fraction, n))
    ensures ScanDecimal(s) == Some((Decimal(false, whole, fraction), n))
  {
  }

  lemma Cons(c: char, x: string, rest: string)
    ensures ([c] + x) + rest == [c] + (x + rest)
    ensures ([c] + (x + rest))[0] == c && ([c] + (x + rest))[1..] == x + rest
  {
  }

  /** The run of leading digits of digits followed by a non-digit is exactly those digits. */
  lemma {:induction false} LeadingDigitsExact(digits: string, rest: string)
    requires AllDigits(digits)
    requires rest == [] || !IsDigit(rest[0])
    ensures LeadingDigits(digits + rest) == |digits|
  {
    if digits != [] {
      assert (digits + rest)[1..] == digits[1..] + rest;
      LeadingDigitsExact(digits[1..], rest);
    } else {
      assert digits + rest == rest;
    }
  }

  /** The exponent `[eE][+-]?\d+` at the front of `t`, or 0 when there is none there. */
  function Exponent(t: string): int
  {
    if t != [] && (t[0] == 'e' || t[0] == 'E') then
      var e := t[1..];
      var signed := e != [] && (e[0] == '+' || e[0] == '-');
      var digits := if signed then e[1..] else e;
      var n := LeadingDigits(digits);
      var v: int := DigitsValue(digits[..n]);
      if n == 0 then 0 else if signed && e[0] == '-' then -v else v
    else 0
  }

  /**
   * The value of the longest `(\d+(\.\d*)?|\.\d+)([eE][+-]?\d+)?` at the front of `v`;
   * None when there is none.
   */
  function ParseUnsigned(v: string): Option<real>
  {
    var w := LeadingDigits(v);
    var after := v[w..];
    var point := after != [] && after[0] == '.';
    var f := if point then LeadingDigits(after[1..]) else 0;
    if w == 0 && f == 0 then None
    else
      var fraction := if point then after[1..][..f] else [];
      var tail := if point then after[1..][f..] else after;
      Some(Scale(UnsignedValue(v[..w], fraction), Exponent(tail)))
  }

  /**
   * `parseFloat(s)`: leading white space is skipped, then an optional sign and the longest
   * unsigned literal are read; NaN when there is none.
   */
  function ParseFloat(s: string): Num
  {
    var u := TrimStart(s);
    var negative := u != [] && u[0] == '-';
    match ParseUnsigned(if u != [] && (u[0] == '-' || u[0] == '+') then u[1..] else u)
    case None => NaN
    case Some(x) => Finite(if negative then -x else x)
  }

  /** The digits, fraction and exponent that `ParseUnsigned` reads from an unsigned literal. */
  lemma {:induction false} ParseUnsignedParts(whole: string, fraction: string, rest: string)
    requires |whole| > 0 && AllDigits(whole) && AllDigits(fraction)
    requires rest == [] || !(IsDigit(rest[0]) || rest[0] == '.')
    ensures ParseUnsigned(UnsignedText(whole, fraction) + rest)
      == Some(Scale(UnsignedValue(whole, fraction), Exponent(rest)))
  {
    if fraction == [] {
      var u := whole + rest;
      assert UnsignedText(whole, fraction) + rest == u;
      LeadingDigitsExact(whole, rest);
      assert u[..|whole|] == whole && u[|whole|..] == rest;
      assert !(rest != [] && rest[0] == '.');
      assert ParseUnsigned(u) == Some(Scale(UnsignedValue(whole, []), Exponent(rest)));
    } else {
      var tail := ['.'] + (fraction + rest);
      var u := whole + tail;
      assert UnsignedText(whole, fraction) + rest == u;
      LeadingDigitsExact(whole, tail);
      assert u[..|whole|] == whole && u[|whole|..] == tail;
      assert tail[1..] == fraction + rest;
      LeadingDigitsExact(fraction, rest);
      assert tail[1..][..|fraction|] == fraction && tail[1..][|fraction|..] == rest;
      var after := u[|whole|..];
      assert LeadingDigits(u) == |whole|;
      assert after != [] && after[0] == '.';
      assert LeadingDigits(after[1..]) == |fraction|;
      assert after[1..][..|fraction|] == fraction;
      assert after[1..][|fraction|..] == rest;
      assert u[..|whole|] == whole;
      assert ParseUnsigned(u) == Some(Scale(UnsignedValue(whole, fraction), Exponent(rest)));
    }
  }

  /** The sign in front of an unsigned number is applied to its value. */
  lemma {:induction false} ParseFloatSigned(t: string, negative: bool, v: string, x: real)
    requires ParseUnsigned(v) == Some(x) && v != [] && IsDigit(v[0])
    requires t == if negative then ['-'] + v else v
    ensures ParseFloat(t) == Finite(if negative then -x else x)
  {
    assert t[0] == '-' || IsDigit(t[0]);
    assert TrimStart(t) == t;
    assert negative ==> t[1..] == v;
  }

  /**
   * `parseFloat` reads a literal of the range pattern's grammar as its exact value, and
   * ignores whatever follows it that cannot continue a number (`parseFloat("5abc")` is 5).
   */
  lemma {:induction false} ParseFloatPrefix(d: Decimal, rest: string)
    requires d.Valid()
    requires rest == [] || !(IsDigit(rest[0]) || rest[0] in ".eE")
    ensures ParseFloat(d.Text() + rest) == Finite(d.Value())
  {
    var v := UnsignedText(d.whole, d.fraction) + rest;
    var x := UnsignedValue(d.whole, d.fraction);
    var t := d.Text() + rest;
    ParseUnsignedPrefix(d.whole, d.fraction, rest);
    assert v[0] == d.whole[0];
    assert t == if d.negative then ['-'] + v else v by {
      if d.negative {
        Cons('-', UnsignedText(d.whole, d.fraction), rest);
      }
    }
    ParseFloatSigned(t, d.negative, v, x);
    assert d.Value() == if d.negative then -x else x;
  }

  /** An unsigned literal followed by something that cannot continue it reads as its value. */
  lemma {:induction false} ParseUnsignedPrefix(whole: string, fraction: string, rest: string)
    requires |whole| > 0 && AllDigits(whole) && AllDigits(fraction)
    requires rest == [] || !(IsDigit(rest[0]) || rest[0] in ".eE")
    ensures ParseUnsigned(UnsignedText(whole, fraction) + rest) == Some(UnsignedValue(whole, fraction))
  {
    ParseUnsignedParts(whole, fraction, rest);
    assert Exponent(rest) == 0;
  }

  /** Text that does not start (after white space) with a digit, a sign or a point is NaN. */
  lemma {:induction false} ParseFloatNotANumber(s: string)
    requires var u := TrimStart(s); u == [] || !(IsDigit(u[0]) || u[0] in "+-.")
    ensures ParseFloat(s) == NaN
  {
  }
}
