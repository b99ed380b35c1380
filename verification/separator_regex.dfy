/**
 The global replacement `s.replace(/(\d)(?=(\d{3})+\.)/g, '$1,')` that formatPrice
 applies to the fixed-point string.

 Each match consumes exactly one character (the digit captured by `(\d)`); the
 lookahead consumes nothing. A global replace with one-character matches therefore
 tests every position of the original string once, left to right, and writes the
 character followed by a comma where the pattern matches. The lookahead reads only
 characters after the position, so testing position i of s is testing the start of
 the suffix s[i..]; the model recurses on suffixes.
 */
module SeparatorRegex {
  import opened Text
  import Grouping

  /** The lookahead body `(\d{3})+\.` matches at the start of `t`: one or more runs of
      three digits, then a point. */
  predicate GroupsThenDot(t: string)
    decreases |t|
  {
    && |t| >= 4
    && IsDigit(t[0]) && IsDigit(t[1]) && IsDigit(t[2])
    && (t[3] == '.' || GroupsThenDot(t[3..]))
  }

  /** The whole pattern `(\d)(?=(\d{3})+\.)` matches at the start of `t`. */
  predicate MatchesAt(t: string) {
    |t| >= 1 && IsDigit(t[0]) && GroupsThenDot(t[1..])
  }

  /** The result of the global replace: every matched digit is followed by a comma. */
  function InsertSeparators(s: string): string
    decreases |s|
  {
    if |s| == 0 then []
    else [s[0]] + (if MatchesAt(s) then "," else "") + InsertSeparators(s[1..])
  }

  /** The lookahead needs a point: it never matches in a string that has none. */
  lemma {:induction false} NoDotNoLookahead(t: string)
    requires '.' !in t
    ensures !GroupsThenDot(t)
    decreases |t|
  {
    if |t| >= 4 {
      assert t[3] != '.';
      assert '.' !in t[3..];
      NoDotNoLookahead(t[3..]);
    }
  }

  /** With no point in the string, the replace leaves it unchanged (the fraction digits). */
  lemma {:induction false} NoDotUnchanged(t: string)
    requires '.' !in t
    ensures InsertSeparators(t) == t
    decreases |t|
  {
    if |t| > 0 {
      assert '.' !in t[1..];
      assert !MatchesAt(t) by {
        NoDotNoLookahead(t[1..]);
      }
      assert InsertSeparators(t[1..]) == t[1..] by {
        NoDotUnchanged(t[1..]);
      }
      assert t == [t[0]] + t[1..];
    }
  }

  /** On integer digits followed by the point and the fraction digits, the lookahead
      matches exactly when the count of integer digits ahead is a positive multiple of three. */
  lemma {:induction false} LookaheadCountsDigits(d: string, f: string)
    requires AllDigits(d) && AllDigits(f)
    ensures GroupsThenDot(d + "." + f) <==> |d| > 0 && |d| % 3 == 0
    decreases |d|
  {
    var t := d + "." + f;
    assert t[|d|] == '.';
    if |d| > 3 {
      assert t[3..] == d[3..] + "." + f;
      LookaheadCountsDigits(d[3..], f);
    }
  }

  /** The replace on a fixed-point string: the integer digits come out grouped by position,
      the point and the fraction digits are untouched. */
  lemma {:induction false} ReplaceOnFixed(d: string, f: string)
    requires AllDigits(d) && AllDigits(f)
    ensures InsertSeparators(d + "." + f) == Grouping.GroupByPosition(d) + "." + f
    decreases |d|
  {
    var t := d + "." + f;
    if |d| == 0 {
      assert t == "." + f;
      assert t[1..] == f;
      NoDotUnchanged(f);
    } else {
      assert t[1..] == d[1..] + "." + f;
      assert MatchesAt(t) <==> Grouping.CommaFor(|d| - 1) == "," by {
        LookaheadCountsDigits(d[1..], f);
      }
      assert InsertSeparators(t[1..]) == Grouping.GroupByPosition(d[1..]) + "." + f by {
        ReplaceOnFixed(d[1..], f);
      }
    }
  }

  /** The same with the thousands grouping defined from the right. */
  lemma ReplaceGroupsThousands(d: string, f: string)
    requires AllDigits(d) && AllDigits(f)
    ensures InsertSeparators(d + "." + f) == Grouping.Group(d) + "." + f
  {
    ReplaceOnFixed(d, f);
    Grouping.GroupIsPositional(d);
  }

  /** A prefix without digits (the minus sign) is copied and changes nothing after it. */
  lemma {:induction false} NonDigitPrefix(p: string, s: string)
    requires forall i :: 0 <= i < |p| ==> !IsDigit(p[i])
    ensures InsertSeparators(p + s) == p + InsertSeparators(s)
    decreases |p|
  {
    if |p| > 0 {
      assert (p + s)[1..] == p[1..] + s;
      NonDigitPrefix(p[1..], s);
      assert p == [p[0]] + p[1..];
    } else {
      assert p + s == s;
    }
  }

  /** On any string at all, the replace only inserts commas: removing the commas from
      its output gives the input with its own commas removed. */
  lemma {:induction false} ReplaceOnlyInsertsCommas(s: string)
    ensures Without(InsertSeparators(s), ',') == Without(s, ',')
    decreases |s|
  {
    if |s| > 0 {
      var c := if MatchesAt(s) then "," else "";
      ReplaceOnlyInsertsCommas(s[1..]);
      WithoutAppend([s[0]] + c, InsertSeparators(s[1..]), ',');
      WithoutAppend([s[0]], c, ',');
      WithoutAppend([s[0]], s[1..], ',');
      assert s == [s[0]] + s[1..];
    }
  }
}
