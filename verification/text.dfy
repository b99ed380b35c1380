/**
 Characters and strings as the price formatter sees them: the regular-expression
 class `\d`, removal and counting of one character, and splitting on a separator.
 Strings are `seq<char>`; `\d` matches the ASCII digits only.
 */
module Text {

  /** The regular-expression class `\d`: '0' to '9'. */
  predicate IsDigit(ch: char) {
    '0' <= ch <= '9'
  }

  predicate AllDigits(s: string) {
    forall i :: 0 <= i < |s| ==> IsDigit(s[i])
  }

  /** `s` with every occurrence of `ch` removed, the rest kept in order. */
  function Without(s: string, ch: char): (r: string)
    ensures ch !in r
    ensures |r| <= |s|
    ensures forall x :: x in r ==> x in s
  {
    if |s| == 0 then []
    else (if s[0] == ch then [] else [s[0]]) + Without(s[1..], ch)
  }

  /** Number of occurrences of `ch` in `s`. */
  function Count(s: string, ch: char): (n: nat)
    ensures n <= |s|
    ensures n == 0 <==> ch !in s
  {
    if |s| == 0 then 0
    else (if s[0] == ch then 1 else 0) + Count(s[1..], ch)
  }

  /** Number of `\d` characters in `s`. */
  function DigitCount(s: string): (n: nat)
    ensures n <= |s|
  {
    if |s| == 0 then 0
    else (if IsDigit(s[0]) then 1 else 0) + DigitCount(s[1..])
  }

  /** The pieces of `s` between occurrences of `sep`; always at least one piece. */
  function SplitOn(s: string, sep: char): (parts: seq<string>)
    ensures |parts| >= 1
    ensures forall j :: 0 <= j < |parts| ==> sep !in parts[j]
  {
    if |s| == 0 then [[]]
    else
      var rest := SplitOn(s[1..], sep);
      if s[0] == sep then [[]] + rest
      else [[s[0]] + rest[0]] + rest[1..]
  }

  /** The pieces concatenated with nothing between them. */
  function Flatten(parts: seq<string>): string {
    if |parts| == 0 then [] else parts[0] + Flatten(parts[1..])
  }

  lemma {:induction false} WithoutAppend(a: string, b: string, ch: char)
    ensures Without(a + b, ch) == Without(a, ch) + Without(b, ch)
    decreases |a|
  {
    if |a| > 0 {
      assert (a + b)[1..] == a[1..] + b;
      WithoutAppend(a[1..], b, ch);
    } else {
      assert a + b == b;
    }
  }

  lemma {:induction false} WithoutAbsent(s: string, ch: char)
    requires ch !in s
    ensures Without(s, ch) == s
    decreases |s|
  {
    if |s| > 0 {
      assert ch !in s[1..];
      WithoutAbsent(s[1..], ch);
      assert s == [s[0]] + s[1..];
    }
  }

  lemma {:induction false} CountAppend(a: string, b: string, ch: char)
    ensures Count(a + b, ch) == Count(a, ch) + Count(b, ch)
    decreases |a|
  {
    if |a| > 0 {
      assert (a + b)[1..] == a[1..] + b;
      CountAppend(a[1..], b, ch);
    } else {
      assert a + b == b;
    }
  }

  lemma {:induction false} DigitCountAppend(a: string, b: string)
    ensures DigitCount(a + b) == DigitCount(a) + DigitCount(b)
    decreases |a|
  {
    if |a| > 0 {
      assert (a + b)[1..] == a[1..] + b;
      DigitCountAppend(a[1..], b);
    } else {
      assert a + b == b;
    }
  }

  /** Splitting and flattening again loses exactly the separators. */
  lemma {:induction false} FlattenSplit(s: string, sep: char)
    ensures Flatten(SplitOn(s, sep)) == Without(s, sep)
    ensures |SplitOn(s, sep)| == Count(s, sep) + 1
    decreases |s|
  {
    if |s| > 0 {
      var rest := SplitOn(s[1..], sep);
      FlattenSplit(s[1..], sep);
      if s[0] == sep {
        assert SplitOn(s, sep) == [[]] + rest;
        assert ([[]] + rest)[1..] == rest;
      } else {
        var parts := [[s[0]] + rest[0]] + rest[1..];
        assert SplitOn(s, sep) == parts;
        assert parts[1..] == rest[1..];
        assert rest == [rest[0]] + rest[1..];
        assert Flatten(rest) == rest[0] + Flatten(rest[1..]);
      }
    }
  }

  /** Splitting a string that starts with a non-separator extends the first piece. */
  lemma SplitCons(x: char, t: string, sep: char)
    requires x != sep
    ensures SplitOn([x] + t, sep) == [[x] + SplitOn(t, sep)[0]] + SplitOn(t, sep)[1..]
  {
    assert ([x] + t)[1..] == t;
  }

  /** Splitting a string that starts with the separator begins with an empty piece. */
  lemma SplitSeparatorCons(t: string, sep: char)
    ensures SplitOn([sep] + t, sep) == [[]] + SplitOn(t, sep)
  {
    assert ([sep] + t)[1..] == t;
  }
}
