/**
 * The two conversions of Go's strconv package that the asset server relies on:
 * Atoi parses a directory index or a width, Itoa renders a root index or a
 * Content-Length. Go's int is taken to be 64 bits wide.
 */
module Strconv {
  import opened Wrappers

  /** The range of Go's int on a 64-bit platform. */
  const IntMin: int := -0x8000_0000_0000_0000
  const IntMax: int := 0x7FFF_FFFF_FFFF_FFFF

  predicate IsDigit(c: char) {
    '0' <= c <= '9'
  }

  predicate AllDigits(s: string) {
    forall k :: 0 <= k < |s| ==> IsDigit(s[k])
  }

  function DigitValue(c: char): nat
    requires IsDigit(c)
  {
    (c as int) - ('0' as int)
  }

  function DigitChar(d: nat): (c: char)
    requires d < 10
    ensures IsDigit(c) && DigitValue(c) == d
  {
    (('0' as int) + d) as char
  }

  /** The value of a string of decimal digits, most significant digit first. */
  function DigitsValue(s: string): nat
    requires AllDigits(s)
  {
    if s == [] then 0 else DigitsValue(s[..|s| - 1]) * 10 + DigitValue(s[|s| - 1])
  }

  /** The decimal digits of n, most significant digit first. */
  function Digits(n: nat): (s: string)
    ensures |s| > 0 && AllDigits(s)
  {
    if n < 10 then [DigitChar(n)] else Digits(n / 10) + [DigitChar(n % 10)]
  }

  /** Digits gives decimal digits of value n, with no leading zero unless n is 0. */
  lemma {:induction false} DigitsCorrect(n: nat)
    ensures AllDigits(Digits(n))
    ensures DigitsValue(Digits(n)) == n
    ensures Digits(n)[0] == '0' ==> Digits(n) == "0"
  {
    var s := Digits(n);
    if n < 10 {
      assert s[..0] == [];
    } else {
      DigitsCorrect(n / 10);
      assert s[..|s| - 1] == Digits(n / 10);
    }
  }

  /** The text after an optional leading '+' or '-'. */
  function Magnitude(s: string): (m: string)
    requires |s| > 0
    ensures m == s || m == s[1..]
  {
    if s[0] == '+' || s[0] == '-' then s[1..] else s
  }

  /**
   * strconv.Atoi: an optional '+' or '-', then one or more decimal digits
   * (leading zeros allowed), whose value must fit in int. Anything else is
   * an error, modelled as None.
   */
  function Atoi(s: string): (r: Option<int>)
    ensures r.Some? <==>
      && |s| > 0 && Magnitude(s) != [] && AllDigits(Magnitude(s))
      && DigitsValue(Magnitude(s)) <= (if s[0] == '-' then IntMax + 1 else IntMax)
    ensures r.Some? ==> IntMin <= r.value <= IntMax
    ensures r.Some? ==>
      r.value == if s[0] == '-' then 0 - DigitsValue(Magnitude(s)) as int else DigitsValue(Magnitude(s))
  {
    if s == [] then None
    else
      var digits := Magnitude(s);
      if digits == [] || !AllDigits(digits) then None
      else
        var v: int := if s[0] == '-' then 0 - DigitsValue(digits) as int else DigitsValue(digits);
        if IntMin <= v <= IntMax then Some(v) else None
  }

  /** A leading zero does not change the value of a digit string. */
  lemma {:induction false} LeadingZeroValue(d: string)
    requires AllDigits(d)
    ensures AllDigits("0" + d) && DigitsValue("0" + d) == DigitsValue(d)
  {
    var s := "0" + d;
    if d == [] {
      assert s[..0] == [];
    } else {
      assert s[..|s| - 1] == "0" + d[..|d| - 1];
      LeadingZeroValue(d[..|d| - 1]);
    }
  }

  /**
   * Atoi accepts more than Itoa prints: a '+' sign or a leading zero leaves
   * the result unchanged, so "007", "+7" and "7" all read as 7, and "-0" as 0.
   */
  lemma AtoiPadding(d: string)
    requires d != [] && AllDigits(d)
    ensures Atoi("+" + d) == Atoi(d)
    ensures Atoi("0" + d) == Atoi(d)
    ensures Atoi("-0" + d) == Atoi("-" + d)
  {
    LeadingZeroValue(d);
    AtoiSigned("+", d);
    AtoiSigned("-", d);
    AtoiSigned("-", "0" + d);
    assert "-" + ("0" + d) == "-0" + d;
  }

  /** A sign followed by digits: Atoi reads the digits, negated after a '-'. */
  lemma AtoiSigned(sign: string, d: string)
    requires sign == "+" || sign == "-"
    requires d != [] && AllDigits(d)
    ensures Magnitude(sign + d) == d && (sign + d)[0] == sign[0]
  {
    assert (sign + d)[1..] == d;
  }

  /** strconv.Itoa: the shortest decimal rendering, with '-' for negatives. */
  function Itoa(n: int): (s: string)
    ensures |s| > 0
    ensures s[0] == '-' <==> n < 0
    ensures AllDigits(if n < 0 then s[1..] else s)
  {
    if n < 0 then "-" + Digits(-n) else Digits(n)
  }

  /** Itoa prints the canonical form: no '+', no leading zero, no "-0". */
  lemma ItoaCanonical(n: int)
    ensures Canonical(Itoa(n))
  {
    var m := if n < 0 then -n else n;
    DigitsCorrect(m);
    if n < 0 {
      assert Itoa(n)[1..] == Digits(m);
    }
  }

  /** Every int that Itoa renders, Atoi parses back. */
  lemma AtoiItoa(n: int)
    requires IntMin <= n <= IntMax
    ensures Atoi(Itoa(n)) == Some(n)
  {
    var s := Itoa(n);
    if n < 0 {
      DigitsCorrect(-n);
      assert s[1..] == Digits(-n);
    } else {
      DigitsCorrect(n);
    }
  }

  /**
   * The text Itoa produces: no '+' sign, no leading zero, and no "-0".
   */
  predicate Canonical(s: string) {
    && |s| > 0
    && s[0] != '+'
    && var digits := if s[0] == '-' then s[1..] else s;
    && |digits| > 0
    && (digits[0] == '0' ==> s == "0")
  }

  /** Conversely, a canonical text that Atoi accepts is exactly what Itoa prints. */
  lemma ItoaAtoi(s: string)
    requires Atoi(s).Some? && Canonical(s)
    ensures Itoa(Atoi(s).value) == s
  {
    var digits := if s[0] == '-' then s[1..] else s;
    DigitsOfValue(digits);
    DigitsCorrect(DigitsValue(digits));
    if s[0] == '-' {
      assert DigitsValue(digits) > 0 by { PositiveValue(digits); }
      assert s == "-" + digits;
    }
  }

  /** Digits with a non-zero leading digit have a positive value. */
  lemma {:induction false} PositiveValue(s: string)
    requires |s| > 0 && AllDigits(s) && s[0] != '0'
    ensures DigitsValue(s) > 0
  {
    if |s| > 1 {
      PositiveValue(s[..|s| - 1]);
    }
  }

  /** Rendering the value of a digit string without leading zeros gives it back. */
  lemma {:induction false} DigitsOfValue(s: string)
    requires |s| > 0 && AllDigits(s) && (s[0] == '0' ==> s == "0")
    ensures Digits(DigitsValue(s)) == s
  {
    var n := DigitsValue(s);
    var init := s[..|s| - 1];
    if |s| == 1 {
      assert init == [] && DigitsValue(init) == 0;
      assert n == DigitValue(s[0]);
      assert n < 10;
      assert [DigitChar(n)] == s;
    } else {
      PositiveValue(init);
      DigitsOfValue(init);
      assert n / 10 == DigitsValue(init);
      assert n % 10 == DigitValue(s[|s| - 1]);
      assert s == init + [s[|s| - 1]];
    }
  }
}
