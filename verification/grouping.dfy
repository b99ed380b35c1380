/**
 Thousands grouping of the integer digits of a price, defined twice: `Group` takes
 the last three digits off and recurses on the rest, and `GroupByPosition` walks the
 digits from the left and puts a comma after a digit exactly when the number of
 digits after it is a positive multiple of three. The two are proved equal, and the
 shape of the grouped string is stated here.
 */
module Grouping {
  import opened Text

  /** The separator text that follows a digit with `after` digits to its right. */
  function CommaFor(after: nat): string {
    if after > 0 && after % 3 == 0 then "," else ""
  }

  /** Groups of three from the right: the last three digits, a comma, and the rest grouped. */
  function Group(d: string): string
    decreases |d|
  {
    if |d| <= 3 then d else Group(d[..|d| - 3]) + "," + d[|d| - 3..]
  }

  /** Left to right: each digit, then a comma when a positive multiple of three digits follows it. */
  function GroupByPosition(d: string): string
    decreases |d|
  {
    if |d| == 0 then [] else [d[0]] + CommaFor(|d| - 1) + GroupByPosition(d[1..])
  }

  /** Taking a digit off the front of the right-to-left grouping. */
  lemma {:induction false} GroupCons(x: char, d: string)
    ensures Group([x] + d) == [x] + CommaFor(|d|) + Group(d)
    decreases |d|
  {
    var xd := [x] + d;
    if |d| < 3 {
      assert Group(xd) == xd && Group(d) == d && CommaFor(|d|) == "";
    } else if |d| == 3 {
      assert xd[..|xd| - 3] == [x];
      assert xd[|xd| - 3..] == d;
      assert Group(xd) == [x] + "," + d;
    } else {
      var p := d[..|d| - 3];
      var t := d[|d| - 3..];
      ConsSlices(x, d);
      GroupCons(x, p);
      CommaForSkipsGroup(|d|);
      calc {
        Group(xd);
        Group([x] + p) + "," + t;
        [x] + CommaFor(|d|) + Group(p) + "," + t;
        [x] + CommaFor(|d|) + (Group(p) + "," + t);
        [x] + CommaFor(|d|) + Group(d);
      }
    }
  }

  /** Putting one character in front does not move the last three characters. */
  lemma ConsSlices(x: char, d: string)
    requires |d| >= 3
    ensures ([x] + d)[..|d| - 2] == [x] + d[..|d| - 3]
    ensures ([x] + d)[|d| - 2..] == d[|d| - 3..]
  {
  }

  /** Three digits more to the right do not change whether a comma is due. */
  lemma CommaForSkipsGroup(n: nat)
    requires n > 3
    ensures CommaFor(n - 3) == CommaFor(n)
  {
  }

  /** The two definitions of grouping agree. */
  lemma {:induction false} GroupIsPositional(d: string)
    ensures Group(d) == GroupByPosition(d)
    decreases |d|
  {
    if |d| > 0 {
      GroupCons(d[0], d[1..]);
      assert d == [d[0]] + d[1..];
      GroupIsPositional(d[1..]);
    }
  }

  /** Grouping only inserts commas: its output holds digits and commas, and dropping
      the commas gives back the digits in their order. */
  lemma {:induction false} GroupOnlyInsertsCommas(d: string)
    requires AllDigits(d)
    ensures Without(Group(d), ',') == d
    ensures forall k :: 0 <= k < |Group(d)| ==> IsDigit(Group(d)[k]) || Group(d)[k] == ','
    ensures DigitCount(Group(d)) == |d|
    ensures |d| > 0 ==> IsDigit(Group(d)[0]) && IsDigit(Group(d)[|Group(d)| - 1])
    decreases |d|
  {
    GroupIsPositional(d);
    PositionalOnlyInsertsCommas(d);
  }

  /** The facts of PositionalKeepsDigits and PositionalAlphabet together. */
  lemma PositionalOnlyInsertsCommas(d: string)
    requires AllDigits(d)
    ensures Without(GroupByPosition(d), ',') == d
    ensures forall k :: 0 <= k < |GroupByPosition(d)| ==>
      IsDigit(GroupByPosition(d)[k]) || GroupByPosition(d)[k] == ','
    ensures DigitCount(GroupByPosition(d)) == |d|
    ensures |d| > 0 ==> IsDigit(GroupByPosition(d)[0])
    ensures |d| > 0 ==> IsDigit(GroupByPosition(d)[|GroupByPosition(d)| - 1])
  {
    PositionalKeepsDigits(d);
    PositionalAlphabet(d);
  }

  /** Positional grouping keeps the digits in order and adds no digit. */
  lemma {:induction false} PositionalKeepsDigits(d: string)
    requires AllDigits(d)
    ensures Without(GroupByPosition(d), ',') == d
    ensures DigitCount(GroupByPosition(d)) == |d|
    decreases |d|
  {
    if |d| > 0 {
      var c := CommaFor(|d| - 1);
      var g' := GroupByPosition(d[1..]);
      assert GroupByPosition(d) == [d[0]] + c + g';
      PositionalKeepsDigits(d[1..]);
      WithoutAppend([d[0]] + c, g', ',');
      WithoutAppend([d[0]], c, ',');
      DigitCountAppend([d[0]] + c, g');
      DigitCountAppend([d[0]], c);
      assert d == [d[0]] + d[1..];
    }
  }

  /** Positional grouping writes only digits and commas, with a digit at each end. */
  lemma {:induction false} PositionalAlphabet(d: string)
    requires AllDigits(d)
    ensures forall k :: 0 <= k < |GroupByPosition(d)| ==>
      IsDigit(GroupByPosition(d)[k]) || GroupByPosition(d)[k] == ','
    ensures |d| > 0 ==> IsDigit(GroupByPosition(d)[0])
    ensures |d| > 0 ==> IsDigit(GroupByPosition(d)[|GroupByPosition(d)| - 1])
    decreases |d|
  {
    if |d| > 0 {
      var c := CommaFor(|d| - 1);
      var g' := GroupByPosition(d[1..]);
      var g := GroupByPosition(d);
      assert g == [d[0]] + c + g';
      PositionalAlphabet(d[1..]);
      forall k | 0 <= k < |g|
        ensures IsDigit(g[k]) || g[k] == ','
      {
        if k >= 1 + |c| {
          assert g[k] == g'[k - 1 - |c|];
        }
      }
      if |d| == 1 {
        assert g == [d[0]];
      } else {
        assert g[|g| - 1] == g'[|g'| - 1];
      }
    }
  }

  /** The number of commas is one for every full group of three after the first group. */
  lemma {:induction false} GroupCommaCount(d: string)
    requires AllDigits(d) && |d| > 0
    ensures Count(Group(d), ',') == (|d| - 1) / 3
    ensures |d| <= 3 <==> Group(d) == d
    decreases |d|
  {
    GroupIsPositional(d);
    PositionalCommaCount(d);
    assert ',' !in d;
    if |d| > 3 {
      assert ',' in Group(d);
    }
  }

  /** Positional grouping adds one comma per full group of three after the first. */
  lemma {:induction false} PositionalCommaCount(d: string)
    requires |d| > 0
    ensures Count(GroupByPosition(d), ',') == (|d| - 1) / 3 + Count(d, ',')
    decreases |d|
  {
    var c := CommaFor(|d| - 1);
    var g' := GroupByPosition(d[1..]);
    CountAppend([d[0]] + c, g', ',');
    CountAppend([d[0]], c, ',');
    CountAppend([d[0]], d[1..], ',');
    assert d == [d[0]] + d[1..];
    if |d| > 1 {
      PositionalCommaCount(d[1..]);
    }
  }

  /** The separator rule at position `k` of a grouped string: when `g[k]` is a digit, a
      comma follows it exactly when the digits after it number a positive multiple of three. */
  predicate SeparatorRuleAt(g: string, k: nat)
    requires k < |g|
  {
    IsDigit(g[k]) ==>
      ((k + 1 < |g| && g[k + 1] == ',') <==>
       (DigitCount(g[k + 1..]) > 0 && DigitCount(g[k + 1..]) % 3 == 0))
  }

  /** The grouped string obeys the separator rule at every position. */
  lemma CommaAfterDigitIff(d: string)
    requires AllDigits(d)
    ensures forall k :: 0 <= k < |Group(d)| ==> SeparatorRuleAt(Group(d), k)
  {
    GroupIsPositional(d);
    PositionalCommaAfterDigitIff(d);
  }

  /** The separator rule for positional grouping, one position at a time. */
  lemma {:induction false} PositionalCommaAfterDigitIff(d: string)
    requires AllDigits(d)
    ensures forall k :: 0 <= k < |GroupByPosition(d)| ==> SeparatorRuleAt(GroupByPosition(d), k)
    decreases |d|
  {
    if |d| > 0 {
      var c := CommaFor(|d| - 1);
      var g' := GroupByPosition(d[1..]);
      var g := GroupByPosition(d);
      assert g == [d[0]] + c + g';
      PositionalCommaAfterDigitIff(d[1..]);
      forall k | 0 <= k < |g|
        ensures SeparatorRuleAt(g, k)
      {
        if k == 0 {
          assert DigitCount(g[1..]) == |d| - 1 by {
            assert g[1..] == c + g';
            DigitCountAppend(c, g');
            PositionalKeepsDigits(d[1..]);
          }
          if c == "" && |g'| > 0 {
            assert g[1] == g'[0];
            PositionalAlphabet(d[1..]);
          }
        } else if k >= 1 + |c| {
          var k' := k - 1 - |c|;
          assert SeparatorRuleAt(g', k');
          assert g[k] == g'[k'];
          assert g[k + 1..] == g'[k' + 1..];
          if k + 1 < |g| {
            assert g[k + 1] == g'[k' + 1];
          }
        } else {
          assert g[k] == ',';
        }
      }
    }
  }

  /** Every comma sits between two digits: no leading or trailing comma and no two commas in a row. */
  lemma {:induction false} CommasBetweenDigits(d: string)
    requires AllDigits(d)
    ensures forall k :: 0 <= k < |Group(d)| && Group(d)[k] == ',' ==>
      0 < k < |Group(d)| - 1 && IsDigit(Group(d)[k - 1]) && IsDigit(Group(d)[k + 1])
  {
    GroupIsPositional(d);
    PositionalCommasBetweenDigits(d);
  }

  /** Every comma of positional grouping has a digit on each side. */
  lemma {:induction false} PositionalCommasBetweenDigits(d: string)
    requires AllDigits(d)
    ensures forall k :: 0 <= k < |GroupByPosition(d)| && GroupByPosition(d)[k] == ',' ==>
      0 < k < |GroupByPosition(d)| - 1 &&
      IsDigit(GroupByPosition(d)[k - 1]) && IsDigit(GroupByPosition(d)[k + 1])
    decreases |d|
  {
    if |d| > 0 {
      var c := CommaFor(|d| - 1);
      var g' := GroupByPosition(d[1..]);
      var g := GroupByPosition(d);
      assert g == [d[0]] + c + g';
      PositionalCommasBetweenDigits(d[1..]);
      PositionalOnlyInsertsCommas(d[1..]);
      forall k | 0 <= k < |g| && g[k] == ','
        ensures 0 < k < |g| - 1 && IsDigit(g[k - 1]) && IsDigit(g[k + 1])
      {
        if k == 1 && c == "," {
          assert g[2] == g'[0];
        } else {
          var k' := k - 1 - |c|;
          assert g[k] == g'[k'];
          assert g[k + 1] == g'[k' + 1];
          if k' > 0 {
            assert g[k - 1] == g'[k' - 1];
          }
        }
      }
    }
  }

  /** Split at the commas, the grouped digits form a first group of one to three digits
      followed by groups of exactly three, and the groups spell the digits in order. */
  lemma {:induction false} GroupSizes(d: string)
    requires AllDigits(d) && |d| > 0
    ensures |SplitOn(Group(d), ',')| == (|d| - 1) / 3 + 1
    ensures |SplitOn(Group(d), ',')[0]| == (|d| - 1) % 3 + 1
    ensures forall j :: 1 <= j < |SplitOn(Group(d), ',')| ==> |SplitOn(Group(d), ',')[j]| == 3
    ensures Flatten(SplitOn(Group(d), ',')) == d
  {
    GroupIsPositional(d);
    PositionalGroupSizes(d);
    FlattenSplit(Group(d), ',');
    GroupOnlyInsertsCommas(d);
  }

  /** The pieces between the commas of positional grouping and their sizes. */
  lemma {:induction false} PositionalGroupSizes(d: string)
    requires AllDigits(d) && |d| > 0
    ensures |SplitOn(GroupByPosition(d), ',')| == (|d| - 1) / 3 + 1
    ensures |SplitOn(GroupByPosition(d), ',')[0]| == (|d| - 1) % 3 + 1
    ensures forall j :: 1 <= j < |SplitOn(GroupByPosition(d), ',')| ==>
      |SplitOn(GroupByPosition(d), ',')[j]| == 3
    decreases |d|
  {
    var c := CommaFor(|d| - 1);
    var g' := GroupByPosition(d[1..]);
    var g := GroupByPosition(d);
    assert g == [d[0]] + (c + g');
    if |d| == 1 {
      assert SplitOn(g, ',') == [[d[0]]] by {
        assert g == [d[0]] + [];
        SplitCons(d[0], [], ',');
      }
    } else {
      PositionalGroupSizes(d[1..]);
      var rest := SplitOn(g', ',');
      if c == "," {
        assert SplitOn(g, ',') == [[d[0]]] + rest by {
          SplitSeparatorCons(g', ',');
          SplitCons(d[0], [','] + g', ',');
          assert [d[0]] + [] == [d[0]];
          assert ([[]] + rest)[1..] == rest;
        }
      } else {
        assert SplitOn(g, ',') == [[d[0]] + rest[0]] + rest[1..] by {
          assert g == [d[0]] + g';
          SplitCons(d[0], g', ',');
        }
      }
    }
  }
}
