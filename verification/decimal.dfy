/**
 The fixed-point string that `price.toFixed(2)` produces, with the price taken as
 a whole number of cents (the float rounding of `toFixed` is not modelled), and a
 parser that reads such a string back.
 */
module Decimal {
  import opened Text

  datatype Option<T> = None | Some(value: T)

  /** The character of a decimal digit value. */
  function DigitChar(v: nat): (ch: char)
    requires v < 10
    ensures IsDigit(ch)
    ensures ch as int - '0' as int == v
  {
    ('0' as int + v) as char
  }

  /** The value of a decimal digit character. */
  function DigitValue(ch: char): (v: nat)
    requires IsDigit(ch)
    ensures v < 10
    ensures DigitChar(v) == ch
  {
    (ch - '0') as nat
  }

  /** The value of a string of decimal digits, most significant first. */
  function Value(s: string): nat
    requires AllDigits(s)
  {
    if |s| == 0 then 0 else 10 * Value(s[..|s| - 1]) + DigitValue(s[|s| - 1])
  }

  /** Canonical decimal digits: no leading zero except for "0" itself. */
  predicate Canonical(s: string) {
    |s| >= 1 && AllDigits(s) && (s[0] == '0' ==> |s| == 1)
  }

  /** The decimal digits of `n` as `toFixed` writes the integer part. */
  function Show(n: nat): (s: string)
    ensures Canonical(s)
  {
    if n < 10 then [DigitChar(n)] else Show(n / 10) + [DigitChar(n % 10)]
  }

  /** Writing a number and reading the digits back gives the number. */
  lemma {:induction false} ValueOfShow(n: nat)
    ensures Value(Show(n)) == n
  {
    var s := Show(n);
    if n < 10 {
      assert s[..0] == [];
    } else {
      assert s[..|s| - 1] == Show(n / 10);
      ValueOfShow(n / 10);
    }
  }

  /** Exactly two digits, with a leading zero below ten, as `toFixed(2)` writes the fraction. */
  function TwoDigits(k: nat): (s: string)
    requires k < 100
    ensures |s| == 2 && AllDigits(s)
  {
    [DigitChar(k / 10), DigitChar(k % 10)]
  }

  /** The two fraction digits read back as the number of cents they were written for. */
  lemma ValueOfTwoDigits(k: nat)
    requires k < 100
    ensures Value(TwoDigits(k)) == k
  {
    var s := TwoDigits(k);
    TwoDigitsValue(s);
    assert DigitValue(s[0]) == k / 10 && DigitValue(s[1]) == k % 10;
  }

  /** The sign `toFixed` writes in front of a negative amount. */
  function SignOf(cents: int): string {
    if cents < 0 then "-" else ""
  }

  /** The magnitude of the amount, as the fixed-point string writes it after any sign. */
  function Magnitude(cents: int): nat {
    if cents < 0 then -cents else cents
  }

  /** `price.toFixed(2)` for a price of `cents` hundredths. */
  function Fixed(cents: int): string {
    SignOf(cents) + Show(Magnitude(cents) / 100) + "." + TwoDigits(Magnitude(cents) % 100)
  }

  /** Reads "[-]D+.DD" back into cents; None for anything else. */
  function ParseFixed(s: string): Option<int> {
    if |s| > 0 && s[0] == '-' then
      match ParseUnsigned(s[1..])
      case Some(v) => Some(-v)
      case None => None
    else ParseUnsigned(s)
  }

  /** Reads "D+.DD" into cents; None for anything else. */
  function ParseUnsigned(s: string): Option<int> {
    if |s| >= 4 && s[|s| - 3] == '.' && AllDigits(s[..|s| - 3]) && AllDigits(s[|s| - 2..]) then
      Some(100 * Value(s[..|s| - 3]) + Value(s[|s| - 2..]))
    else None
  }

  /** Removing and recovering the last decimal digit. */
  lemma DivMod10(a: nat, d: nat)
    requires d < 10
    ensures (10 * a + d) / 10 == a
    ensures (10 * a + d) % 10 == d
  {
  }

  /** The amount reaches a fourth integer digit exactly from one thousand on. */
  lemma {:induction false} ShowLength(n: nat)
    ensures |Show(n)| <= 3 <==> n < 1000
  {
    if n >= 10 {
      ShowLength(n / 10);
    }
  }

  /** Reading canonical digits and writing them again gives the same digits. */
  lemma {:induction false} ShowValue(s: string)
    requires Canonical(s)
    ensures Show(Value(s)) == s
    decreases |s|
  {
    if |s| > 1 {
      var p := s[..|s| - 1];
      var d := DigitValue(s[|s| - 1]);
      assert Canonical(p);
      ValuePositive(p);
      ShowValue(p);
      DivMod10(Value(p), d);
      assert Value(s) == 10 * Value(p) + d;
      assert s == p + [s[|s| - 1]];
    } else {
      assert s == [s[0]];
    }
  }

  /** Digits without a leading zero have a positive value. */
  lemma {:induction false} ValuePositive(s: string)
    requires AllDigits(s) && |s| >= 1 && s[0] != '0'
    ensures Value(s) >= 1
    decreases |s|
  {
    if |s| > 1 {
      ValuePositive(s[..|s| - 1]);
    } else {
      assert Value(s) == 10 * Value(s[..0]) + DigitValue(s[0]);
    }
  }

  /** The value of two digits. */
  lemma TwoDigitsValue(s: string)
    requires |s| == 2 && AllDigits(s)
    ensures Value(s) == 10 * DigitValue(s[0]) + DigitValue(s[1])
  {
    var p := s[..1];
    assert p[..0] == [];
    assert Value(p) == 10 * Value(p[..0]) + DigitValue(p[0]);
    assert Value(s) == 10 * Value(p) + DigitValue(s[1]);
  }

  /** A fixed-point string as `toFixed(2)` writes it: an optional minus sign, then canonical
      integer digits, a point and two fraction digits; no minus sign on zero. */
  predicate WellFormedFixed(s: string) {
    if |s| > 0 && s[0] == '-' then WellFormedUnsigned(s[1..]) && ParseUnsigned(s[1..]) != Some(0)
    else WellFormedUnsigned(s)
  }

  /** The part after any sign: canonical integer digits, a point, two digits. */
  predicate WellFormedUnsigned(u: string) {
    |u| >= 4 && u[|u| - 3] == '.' && Canonical(u[..|u| - 3]) && AllDigits(u[|u| - 2..])
  }

  /** Unsigned part of a fixed-point string: integer digits, point, two digits. */
  lemma UnsignedRoundTrip(a: nat, b: nat)
    requires b < 100
    ensures WellFormedUnsigned(Show(a) + "." + TwoDigits(b))
    ensures ParseUnsigned(Show(a) + "." + TwoDigits(b)) == Some(100 * a + b)
  {
    var ip, fp := Show(a), TwoDigits(b);
    var u := ip + "." + fp;
    assert u[..|u| - 3] == ip && u[|u| - 2..] == fp;
    assert Value(ip) == a by {
      ValueOfShow(a);
    }
    assert Value(fp) == b by {
      ValueOfTwoDigits(b);
    }
  }

  /** The fixed-point string is well formed and reads back as the amount it was written for. */
  lemma FixedRoundTrip(cents: int)
    ensures WellFormedFixed(Fixed(cents))
    ensures ParseFixed(Fixed(cents)) == Some(cents)
  {
    var m := Magnitude(cents);
    var a, b := m / 100, m % 100;
    var u := Show(a) + "." + TwoDigits(b);
    assert WellFormedUnsigned(u) && ParseUnsigned(u) == Some(m) by {
      assert m == 100 * a + b;
      UnsignedRoundTrip(a, b);
    }
    assert Fixed(cents) == SignOf(cents) + u;
    if cents < 0 {
      assert Fixed(cents)[1..] == u;
    } else {
      assert Fixed(cents) == u;
      assert u[0] == Show(a)[0] && IsDigit(u[0]);
    }
  }

  /** Splitting cents into whole units and hundredths. */
  lemma DivMod100(a: nat, b: nat)
    requires b < 100
    ensures (100 * a + b) / 100 == a
    ensures (100 * a + b) % 100 == b
  {
  }

  /** The unsigned part of a well-formed string is written back unchanged. */
  lemma UnsignedParseRoundTrip(u: string)
    requires WellFormedUnsigned(u)
    ensures ParseUnsigned(u).Some? && ParseUnsigned(u).value >= 0
    ensures Show(ParseUnsigned(u).value / 100) + "." + TwoDigits(ParseUnsigned(u).value % 100) == u
  {
    var ip := u[..|u| - 3];
    var fp := u[|u| - 2..];
    var a := Value(ip);
    var b := Value(fp);
    assert b < 100 && TwoDigits(b) == fp by {
      TwoDigitsOfValue(fp);
    }
    assert ParseUnsigned(u) == Some(100 * a + b);
    assert (100 * a + b) / 100 == a && (100 * a + b) % 100 == b by {
      DivMod100(a, b);
    }
    assert Show(a) == ip by {
      ShowValue(ip);
    }
    assert u == ip + "." + fp;
  }

  /** Two digits read and written again are the same two digits. */
  lemma TwoDigitsOfValue(fp: string)
    requires |fp| == 2 && AllDigits(fp)
    ensures Value(fp) < 100
    ensures TwoDigits(Value(fp)) == fp
  {
    TwoDigitsValue(fp);
    var t := TwoDigits(Value(fp));
    TwoDigitsValue(t);
    DivMod10(DigitValue(fp[0]), DigitValue(fp[1]));
  }

  /** The fixed-point string of a magnitude, with and without the minus sign. */
  lemma FixedOfUnsigned(m: nat, u: string)
    requires u == Show(m / 100) + "." + TwoDigits(m % 100)
    ensures Fixed(m) == u
    ensures m > 0 ==> Fixed(-(m as int)) == "-" + u
  {
  }

  /** Conversely every well-formed fixed-point string is the one written for the amount it reads as. */
  lemma ParseFixedRoundTrip(s: string)
    requires WellFormedFixed(s)
    ensures ParseFixed(s).Some?
    ensures Fixed(ParseFixed(s).value) == s
  {
    var neg := |s| > 0 && s[0] == '-';
    var u := if neg then s[1..] else s;
    UnsignedParseRoundTrip(u);
    var m := ParseUnsigned(u).value;
    FixedOfUnsigned(m, u);
    if neg {
      assert m > 0;
      assert s == "-" + u;
    }
  }
}
