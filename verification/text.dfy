/**
  The few string operations the queries and pattern demos rely on: ordinal
  `string.Contains`, `string.StartsWith(char)` and the invariant-culture
  rendering of an `int`.
 */
module Text {

  /** `hay.Contains(needle)`: ordinal substring search; the empty needle is always found. */
  predicate Contains(hay: string, needle: string) {
    exists i | 0 <= i <= |hay| - |needle| :: OccursAt(hay, needle, i)
  }

  /** `needle` is the slice of `hay` that starts at position `i`. */
  predicate OccursAt(hay: string, needle: string, i: int) {
    0 <= i <= |hay| - |needle| && hay[i..i + |needle|] == needle
  }

  /** `s.StartsWith(c)`: false for the empty string. */
  predicate StartsWith(s: string, c: char) {
    |s| > 0 && s[0] == c
  }

  function DigitChar(d: int): char
    requires 0 <= d < 10
  {
    "0123456789"[d]
  }

  function DigitValue(c: char): int {
    if '0' <= c <= '9' then c as int - '0' as int else -1
  }

  /** Decimal digits of `n`, most significant first, with no leading zero. */
  function NatToString(n: nat): (s: string)
    ensures |s| > 0
    ensures forall i :: 0 <= i < |s| ==> '0' <= s[i] <= '9'
    ensures |s| > 1 ==> s[0] != '0'
    decreases n
  {
    if n < 10 then [DigitChar(n)] else NatToString(n / 10) + [DigitChar(n % 10)]
  }

  /** `n.ToString()`: a minus sign before the digits of a negative number. */
  function IntToString(n: int): string {
    if n < 0 then "-" + NatToString(-n) else NatToString(n)
  }

  /**
    An amount held in hundredths, written with two fractional digits after the
    given decimal separator, as a `decimal` of scale 2 prints.
   */
  function HundredthsToString(h: int, separator: char): string {
    var m := if h < 0 then -h else h;
    (if h < 0 then "-" else "") + NatToString(m / 100) + [separator, DigitChar(m % 100 / 10), DigitChar(m % 10)]
  }

  /** Reads back a string of decimal digits. */
  function DigitsValue(s: string): int
    decreases |s|
  {
    if |s| == 0 then 0 else DigitsValue(s[..|s| - 1]) * 10 + DigitValue(s[|s| - 1])
  }

  /** Reads back what `IntToString` writes. */
  function ParseInt(s: string): int {
    if |s| > 0 && s[0] == '-' then -DigitsValue(s[1..]) else DigitsValue(s)
  }

  lemma {:induction false} DigitsValueOfNat(n: nat)
    ensures DigitsValue(NatToString(n)) == n
    decreases n
  {
    var s := NatToString(n);
    if n >= 10 {
      DigitsValueOfNat(n / 10);
      assert s[..|s| - 1] == NatToString(n / 10);
    }
  }

  /** Rendering an integer loses nothing: parsing it back gives the number. */
  lemma IntToStringRoundTrip(n: int)
    ensures ParseInt(IntToString(n)) == n
  {
    if n < 0 {
      var digits := NatToString(-n);
      assert IntToString(n) == "-" + digits;
      ParseNegative(-n, digits);
    } else {
      DigitsValueOfNat(n);
      ParseUnsigned(NatToString(n));
    }
  }

  /** A character `IntToString` can write: a decimal digit or the minus sign. */
  predicate NumberChar(c: char) {
    '0' <= c <= '9' || c == '-'
  }

  lemma IntToStringChars(n: int)
    ensures forall i :: 0 <= i < |IntToString(n)| ==> NumberChar(IntToString(n)[i])
  {
    if n < 0 {
      var digits := NatToString(-n);
      var s := "-" + digits;
      assert IntToString(n) == s;
      forall i | 0 <= i < |s|
        ensures NumberChar(s[i])
      {
        if i > 0 {
          assert s[i] == digits[i - 1];
        }
      }
    }
  }

  /** The length of the run of number characters `s` starts with. */
  function NumberRun(s: string): (n: nat)
    ensures n <= |s|
    decreases |s|
  {
    if |s| == 0 || !NumberChar(s[0]) then 0 else 1 + NumberRun(s[1..])
  }

  /** Number characters followed by a character that is none: the run ends exactly there. */
  lemma {:induction false} NumberRunEnds(a: string, s: string)
    requires forall i :: 0 <= i < |a| ==> NumberChar(a[i])
    requires |s| > 0 && !NumberChar(s[0])
    ensures NumberRun(a + s) == |a|
    decreases |a|
  {
    if |a| > 0 {
      assert (a + s)[1..] == a[1..] + s;
      NumberRunEnds(a[1..], s);
    } else {
      assert a + s == s;
    }
  }

  /**
    A rendered number followed by text that starts with a character no number
    contains can be taken apart again: the number and the text are both determined.
   */
  lemma NumberThenText(m: int, n: int, s: string, t: string)
    requires |s| > 0 && |t| > 0 && !NumberChar(s[0]) && !NumberChar(t[0])
    requires IntToString(m) + s == IntToString(n) + t
    ensures m == n && s == t
  {
    var a, b := IntToString(m), IntToString(n);
    IntToStringChars(m);
    IntToStringChars(n);
    NumberRunEnds(a, s);
    NumberRunEnds(b, t);
    assert a == (a + s)[..|a|] == (b + t)[..|b|] == b;
    assert s == (a + s)[|a|..] == (b + t)[|b|..] == t;
    IntToStringRoundTrip(m);
    IntToStringRoundTrip(n);
  }

  lemma ParseNegative(m: nat, digits: string)
    requires digits == NatToString(m)
    ensures ParseInt("-" + digits) == -(m as int)
  {
    DigitsValueOfNat(m);
    assert ("-" + digits)[1..] == digits;
  }

  lemma ParseUnsigned(digits: string)
    requires |digits| > 0 && '0' <= digits[0] <= '9'
    ensures ParseInt(digits) == DigitsValue(digits)
  {
  }
}
