/**
 The helpers module of the example application: the coupon-code fixture and
 `formatPrice`, which writes a price as "$" followed by its two-decimal fixed-point
 string with a comma between groups of three integer digits.

 The price is taken as a whole number of cents; a negative amount keeps the minus
 sign that the fixed-point string carries, which the separator pattern does not touch.
 */
module Helpers {
  import opened Text
  import opened Decimal
  import Grouping
  import SeparatorRegex

  /** The read-only list of coupon codes, in order. */
  const CouponCodes: seq<string> := ["BLACKFRIDAY", "FREESHIP", "HOHOHO"]

  /** An upper-case ASCII letter. */
  predicate IsUpper(ch: char) {
    'A' <= ch <= 'Z'
  }

  /** formatPrice: "$" and the fixed-point string with thousands separators inserted. */
  function FormatPrice(cents: int): string {
    "$" + SeparatorRegex.InsertSeparators(Fixed(cents))
  }

  /** Reads a formatted price back: a "$", then a fixed-point string once commas are removed. */
  function ParsePrice(s: string): Option<int> {
    if |s| > 0 && s[0] == '$' then ParseFixed(Without(s[1..], ',')) else None
  }

  /** What comes before the digits: the "$" and, for a negative amount, the minus sign. */
  function Prefix(cents: int): string {
    "$" + SignOf(cents)
  }

  /** The integer digits of the fixed-point string. */
  function IntegerDigits(cents: int): string {
    Show(Magnitude(cents) / 100)
  }

  /** The two fraction digits of the fixed-point string. */
  function FractionDigits(cents: int): string {
    TwoDigits(Magnitude(cents) % 100)
  }

  /** A prefix holding no digit, comma or point. */
  predicate Plain(p: string) {
    forall i :: 0 <= i < |p| ==> !IsDigit(p[i]) && p[i] != ',' && p[i] != '.'
  }

  /** The formatted price is "$", the sign, the integer digits grouped in threes from the
      right, the point and the two fraction digits. */
  lemma FormatPriceGrouped(cents: int)
    ensures FormatPrice(cents) ==
      Prefix(cents) + Grouping.Group(IntegerDigits(cents)) + "." + FractionDigits(cents)
  {
    ReplaceOnSigned(cents);
    Regroup("$", SignOf(cents), Grouping.Group(IntegerDigits(cents)), ".", FractionDigits(cents));
  }

  /** Re-associating a five-part concatenation. */
  lemma Regroup(p: string, s: string, g: string, dot: string, f: string)
    ensures p + s + g + dot + f == p + (s + (g + dot + f))
  {
  }

  /** The replace on the whole fixed-point string: the sign is copied, the integer digits are grouped. */
  lemma ReplaceOnSigned(cents: int)
    ensures SeparatorRegex.InsertSeparators(Fixed(cents)) ==
      SignOf(cents) + (Grouping.Group(IntegerDigits(cents)) + "." + FractionDigits(cents))
  {
    var d, f := IntegerDigits(cents), FractionDigits(cents);
    var sign := SignOf(cents);
    var u := d + "." + f;
    assert Fixed(cents) == sign + u;
    SeparatorRegex.ReplaceGroupsThousands(d, f);
    SeparatorRegex.NonDigitPrefix(sign, u);
  }

  /** Removing the commas after the "$" gives back exactly the fixed-point string:
      the digits, the sign and the point are kept in order and nothing else is added. */
  lemma FormatPriceOnlyInsertsCommas(cents: int)
    ensures |FormatPrice(cents)| > 0 && FormatPrice(cents)[0] == '$'
    ensures Without(FormatPrice(cents)[1..], ',') == Fixed(cents)
  {
    var s := Fixed(cents);
    assert FormatPrice(cents)[1..] == SeparatorRegex.InsertSeparators(s);
    assert Without(SeparatorRegex.InsertSeparators(s), ',') == Without(s, ',') by {
      SeparatorRegex.ReplaceOnlyInsertsCommas(s);
    }
    assert Without(s, ',') == s by {
      var d, f := IntegerDigits(cents), FractionDigits(cents);
      assert s == SignOf(cents) + d + "." + f;
      assert forall i :: 0 <= i < |s| ==> s[i] != ',';
      WithoutAbsent(s, ',');
    }
  }

  /** The formatted price reads back as the amount it was written for. */
  lemma FormatParseRoundTrip(cents: int)
    ensures ParsePrice(FormatPrice(cents)) == Some(cents)
  {
    FormatPriceOnlyInsertsCommas(cents);
    FixedRoundTrip(cents);
  }

  /** The fraction is exactly two digits after the only point of the output, with no comma. */
  lemma FormatPriceFraction(cents: int)
    ensures |FormatPrice(cents)| >= 5
    ensures FormatPrice(cents)[|FormatPrice(cents)| - 3] == '.'
    ensures FormatPrice(cents)[|FormatPrice(cents)| - 2..] == FractionDigits(cents)
    ensures AllDigits(FormatPrice(cents)[|FormatPrice(cents)| - 2..])
    ensures Count(FormatPrice(cents), '.') == 1
  {
    FormatPriceGrouped(cents);
    LayoutFraction(Prefix(cents), IntegerDigits(cents), FractionDigits(cents));
  }

  /** One comma per full group of three integer digits after the first group. */
  lemma FormatPriceCommaCount(cents: int)
    ensures Count(FormatPrice(cents), ',') == (|IntegerDigits(cents)| - 1) / 3
  {
    FormatPriceGrouped(cents);
    LayoutCommaCount(Prefix(cents), IntegerDigits(cents), FractionDigits(cents));
  }

  /** The output differs from "$" and the fixed-point string exactly when the magnitude
      reaches 1000.00, that is, when the integer part has more than three digits. */
  lemma FormatPriceShortUnchanged(cents: int)
    ensures FormatPrice(cents) == "$" + Fixed(cents) <==> Magnitude(cents) < 100000
  {
    var d, f := IntegerDigits(cents), FractionDigits(cents);
    var pre := Prefix(cents);
    assert "$" + Fixed(cents) == pre + d + "." + f by {
      PrefixedFixed(cents);
    }
    assert FormatPrice(cents) == pre + Grouping.Group(d) + "." + f by {
      FormatPriceGrouped(cents);
    }
    assert |d| <= 3 <==> Magnitude(cents) < 100000 by {
      ShowLength(Magnitude(cents) / 100);
    }
    assert pre + Grouping.Group(d) + "." + f == pre + d + "." + f <==> |d| <= 3 by {
      LayoutShort(pre, d, f);
    }
  }

  /** "$" and the fixed-point string, cut into prefix, integer digits, point and fraction. */
  lemma PrefixedFixed(cents: int)
    ensures "$" + Fixed(cents) == Prefix(cents) + IntegerDigits(cents) + "." + FractionDigits(cents)
  {
    var d, f := IntegerDigits(cents), FractionDigits(cents);
    assert Fixed(cents) == SignOf(cents) + d + "." + f;
  }

  /** Every comma of the output sits between two digits: none right after "$" or the sign,
      none right before the point, never two in a row, none in the fraction. */
  lemma FormatPriceCommasBetweenDigits(cents: int)
    ensures forall k :: 0 <= k < |FormatPrice(cents)| && FormatPrice(cents)[k] == ',' ==>
      0 < k < |FormatPrice(cents)| - 1 &&
      IsDigit(FormatPrice(cents)[k - 1]) && IsDigit(FormatPrice(cents)[k + 1])
  {
    FormatPriceGrouped(cents);
    LayoutCommasBetweenDigits(Prefix(cents), IntegerDigits(cents), FractionDigits(cents));
  }

  /** The fraction facts for any plain prefix, grouped digits, point and two digits. */
  lemma LayoutFraction(pre: string, d: string, f: string)
    requires Plain(pre) && AllDigits(d) && |d| > 0 && AllDigits(f) && |f| == 2
    ensures var r := pre + Grouping.Group(d) + "." + f;
      && |r| >= |pre| + 4
      && r[|r| - 3] == '.'
      && r[|r| - 2..] == f
      && Count(r, '.') == 1
  {
    var g := Grouping.Group(d);
    var r := pre + g + "." + f;
    Grouping.GroupOnlyInsertsCommas(d);
    assert |g| >= |Without(g, ',')|;
    assert r[|r| - 2..] == f;
    assert '.' !in pre + g by {
      assert forall i :: 0 <= i < |pre + g| ==> (pre + g)[i] != '.';
    }
    assert '.' !in f;
    CountAppend(pre + g + ".", f, '.');
    CountAppend(pre + g, ".", '.');
    assert Count(".", '.') == 1;
  }

  /** Grouping leaves the layout unchanged exactly when there are at most three digits. */
  lemma LayoutShort(pre: string, d: string, f: string)
    requires AllDigits(d) && |d| > 0
    ensures pre + Grouping.Group(d) + "." + f == pre + d + "." + f <==> |d| <= 3
  {
    var g := Grouping.Group(d);
    assert |d| <= 3 <==> g == d by {
      Grouping.GroupCommaCount(d);
    }
    if pre + g + "." + f == pre + d + "." + f {
      MiddleEqual(pre, g, d, f);
    }
  }

  /** Equal strings with the same prefix and the same point-and-fraction tail have the same middle. */
  lemma MiddleEqual(pre: string, a: string, b: string, f: string)
    requires pre + a + "." + f == pre + b + "." + f
    ensures a == b
  {
    var r := pre + a + "." + f;
    assert |a| == |b|;
    assert a == r[|pre|..|pre| + |a|];
  }

  /** The commas of the layout are those of the grouped digits. */
  lemma LayoutCommaCount(pre: string, d: string, f: string)
    requires Plain(pre) && AllDigits(d) && |d| > 0 && AllDigits(f)
    ensures Count(pre + Grouping.Group(d) + "." + f, ',') == (|d| - 1) / 3
  {
    var g := Grouping.Group(d);
    Grouping.GroupCommaCount(d);
    CountAppend(pre + g, "." + f, ',');
    CountAppend(pre, g, ',');
    assert ',' !in pre;
    assert ',' !in "." + f;
    assert pre + g + "." + f == (pre + g) + ("." + f);
  }

  /** The commas of the layout all lie inside the grouped digits, between two digits. */
  lemma LayoutCommasBetweenDigits(pre: string, d: string, f: string)
    requires Plain(pre) && AllDigits(d) && |d| > 0 && AllDigits(f)
    ensures var r := pre + Grouping.Group(d) + "." + f;
      forall k :: 0 <= k < |r| && r[k] == ',' ==> 0 < k < |r| - 1 && IsDigit(r[k - 1]) && IsDigit(r[k + 1])
  {
    var g := Grouping.Group(d);
    var tail := "." + f;
    var r := pre + g + tail;
    assert r == pre + g + "." + f;
    Grouping.CommasBetweenDigits(d);
    assert forall i :: 0 <= i < |tail| ==> tail[i] != ',';
    var p := |pre|;
    forall k | 0 <= k < |r| && r[k] == ','
      ensures 0 < k < |r| - 1 && IsDigit(r[k - 1]) && IsDigit(r[k + 1])
    {
      ConcatIndex(pre, g, tail, k);
      assert p <= k < p + |g|;
      ConcatIndex(pre, g, tail, k - 1);
      ConcatIndex(pre, g, tail, k + 1);
    }
  }

  /** Where an index of a three-part concatenation lands. */
  lemma ConcatIndex(a: string, b: string, c: string, k: int)
    requires 0 <= k < |a + b + c|
    ensures (a + b + c)[k] == if k < |a| then a[k] else if k < |a| + |b| then b[k - |a|] else c[k - |a| - |b|]
  {
  }

  /** The amount the demo page formats, 5000 (500000 cents). */
  lemma FormatPriceDemo(cents: int)
    requires cents == 500000
    ensures FormatPrice(cents) == "$5,000.00"
  {
    DemoParts(cents);
    GroupFour();
    FormatPriceFromParts(cents, "", "5000", "5,000", "00");
  }

  /** The pieces of the fixed-point string of 5000.00. */
  lemma DemoParts(cents: int)
    requires cents == 500000
    ensures Prefix(cents) == "$" && IntegerDigits(cents) == "5000" && FractionDigits(cents) == "00"
  {
    ShowDigits(5, 0, 0, 0);
  }

  /** Zero: an integer part of a single digit and no separator. */
  lemma FormatPriceZero(cents: int)
    requires cents == 0
    ensures FormatPrice(cents) == "$0.00"
  {
    FormatPriceFromParts(cents, "", "0", "0", "00");
  }

  /** The largest whole amount with two groups: one separator, none next to the point. */
  lemma FormatPriceTwoGroups(cents: int)
    requires cents == 99999900
    ensures FormatPrice(cents) == "$999,999.00"
  {
    TwoGroupsParts(cents);
    GroupSix();
    FormatPriceFromParts(cents, "", "999999", "999,999", "00");
  }

  /** The pieces of the fixed-point string of 999999.00. */
  lemma TwoGroupsParts(cents: int)
    requires cents == 99999900
    ensures Prefix(cents) == "$" && IntegerDigits(cents) == "999999" && FractionDigits(cents) == "00"
  {
    ShowDigits(9, 9, 9, 9);
    ShowDigits(999, 9, 9, 9);
  }

  /** A negative amount: the minus sign stays in front of the grouped digits. */
  lemma FormatPriceNegative(cents: int)
    requires cents == -500050
    ensures FormatPrice(cents) == "$-5,000.50"
  {
    NegativeParts(cents);
    GroupFour();
    FormatPriceFromParts(cents, "-", "5000", "5,000", "50");
  }

  /** The pieces of the fixed-point string of -5000.50. */
  lemma NegativeParts(cents: int)
    requires cents == -500050
    ensures Prefix(cents) == "$-" && IntegerDigits(cents) == "5000" && FractionDigits(cents) == "50"
  {
    ShowDigits(5, 0, 0, 0);
  }

  /** The formatted price assembled from known pieces of the fixed-point string. */
  lemma FormatPriceFromParts(cents: int, sign: string, d: string, g: string, f: string)
    requires Prefix(cents) == "$" + sign && IntegerDigits(cents) == d && FractionDigits(cents) == f
    requires Grouping.Group(d) == g
    ensures FormatPrice(cents) == "$" + sign + g + "." + f
  {
    FormatPriceGrouped(cents);
  }

  /** Six digits form two groups. */
  lemma GroupSix()
    ensures Grouping.Group("999999") == "999,999"
  {
    assert "999999"[..3] == "999" && "999999"[3..] == "999";
  }

  /** Four digits form a group of one and a group of three. */
  lemma GroupFour()
    ensures Grouping.Group("5000") == "5,000"
  {
    assert "5000"[..1] == "5" && "5000"[1..] == "000";
  }

  /** Three more decimal digits after a number. */
  lemma ShowDigits(n: nat, x: nat, y: nat, z: nat)
    requires 0 < n && x < 10 && y < 10 && z < 10
    ensures Show(1000 * n + 100 * x + 10 * y + z) == Show(n) + [DigitChar(x), DigitChar(y), DigitChar(z)]
  {
    var a := 10 * n + x;
    var b := 10 * a + y;
    assert Show(a) == Show(n) + [DigitChar(x)] by {
      DivMod10(n, x);
    }
    assert Show(b) == Show(a) + [DigitChar(y)] by {
      DivMod10(a, y);
    }
    assert Show(10 * b + z) == Show(b) + [DigitChar(z)] by {
      DivMod10(b, z);
    }
    assert 1000 * n + 100 * x + 10 * y + z == 10 * b + z;
  }

  /** The coupon codes are three distinct non-empty upper-case words. */
  lemma CouponCodesFixture()
    ensures |CouponCodes| == 3
    ensures CouponCodes[0] == "BLACKFRIDAY" && CouponCodes[1] == "FREESHIP" && CouponCodes[2] == "HOHOHO"
    ensures forall i, j :: 0 <= i < j < |CouponCodes| ==> CouponCodes[i] != CouponCodes[j]
    ensures forall i :: 0 <= i < |CouponCodes| ==> |CouponCodes[i]| > 0
    ensures forall i, k :: 0 <= i < |CouponCodes| && 0 <= k < |CouponCodes[i]| ==> IsUpper(CouponCodes[i][k])
  {
  }
}
