/** The few Python string built-ins the modelled code relies on: case mapping,
    whitespace splitting, slice-index resolution, str.find, and str(int). */
module PyStr {

  /** str.upper() on one character, as far as the model observes it: ASCII letters,
      plus the two non-ASCII characters whose upper case is an ASCII letter
      (U+0131 dotless i becomes 'I', U+017F long s becomes 'S'). Every other
      character is returned as it is. */
  function UpperChar(c: char): char
  {
    if 'a' <= c <= 'z' then (c as int - 32) as char
    else if c == '\U{0131}' then 'I'
    else if c == '\U{017F}' then 'S'
    else c
  }

  /** str.upper() applied character by character. */
  function Upper(s: string): (r: string)
    ensures |r| == |s|
    ensures forall i :: 0 <= i < |s| ==> r[i] == UpperChar(s[i])
  {
    seq(|s|, i requires 0 <= i < |s| => UpperChar(s[i]))
  }

  /** str.lower() on one character, ASCII letters only. */
  function LowerChar(c: char): char
  {
    if 'A' <= c <= 'Z' then (c as int + 32) as char else c
  }

  function Lower(s: string): (r: string)
    ensures |r| == |s|
    ensures forall i :: 0 <= i < |s| ==> r[i] == LowerChar(s[i])
  {
    seq(|s|, i requires 0 <= i < |s| => LowerChar(s[i]))
  }

  /** The characters str.split() with no argument splits on (str.isspace()). */
  predicate IsSpace(c: char)
  {
    || c == ' ' || c == '\t' || c == '\n' || c == '\r' || c == '\U{000B}' || c == '\U{000C}'
    || ('\U{001C}' <= c <= '\U{001F}') || c == '\U{0085}' || c == '\U{00A0}' || c == '\U{1680}'
    || ('\U{2000}' <= c <= '\U{200A}') || c == '\U{2028}' || c == '\U{2029}' || c == '\U{202F}'
    || c == '\U{205F}' || c == '\U{3000}'
  }

  /** "".join(s.split()): every whitespace character removed, the rest kept in order. */
  function RemoveWhitespace(s: string): (r: string)
    ensures |r| <= |s|
    ensures forall i :: 0 <= i < |r| ==> !IsSpace(r[i])
    ensures (forall i :: 0 <= i < |s| ==> !IsSpace(s[i])) ==> r == s
    ensures (forall i :: 0 <= i < |s| ==> IsSpace(s[i])) ==> r == []
  {
    if s == [] then []
    else if IsSpace(s[0]) then RemoveWhitespace(s[1..])
    else
      assert s == [s[0]] + s[1..];
      [s[0]] + RemoveWhitespace(s[1..])
  }

  /** Removing whitespace works piece by piece, so the kept characters stay in their
      order: the result for a + b is the result for a followed by the result for b. */
  lemma {:induction false} RemoveWhitespaceAppend(a: string, b: string)
    ensures RemoveWhitespace(a + b) == RemoveWhitespace(a) + RemoveWhitespace(b)
    decreases |a|
  {
    if a == [] {
      assert a + b == b;
    } else {
      assert (a + b)[0] == a[0] && (a + b)[1..] == a[1..] + b;
      RemoveWhitespaceAppend(a[1..], b);
    }
  }

  /** The index at which s[:p] ends and s[p:] starts, for a string of length n:
      a negative p counts from the end, and the result is clamped into [0, n]. */
  function SliceIndex(p: int, n: nat): (c: nat)
    ensures c <= n
    ensures 0 <= p <= n ==> c == p
    ensures p > n ==> c == n
    ensures p < 0 ==> c == if n + p < 0 then 0 else n + p
  {
    if p < 0 then (if n + p < 0 then 0 else n + p)
    else if p > n then n
    else p
  }

  /** needle occurs in hay starting at index i. */
  predicate OccursAt(hay: string, needle: string, i: int)
  {
    0 <= i && i + |needle| <= |hay| && hay[i..i + |needle|] == needle
  }

  /** Python's `needle in hay`. */
  predicate Contains(hay: string, needle: string)
  {
    exists i | 0 <= i <= |hay| :: OccursAt(hay, needle, i)
  }

  function FindFrom(hay: string, needle: string, k: nat): (r: int)
    decreases |hay| + 1 - k
    ensures r == -1 || (k <= r && OccursAt(hay, needle, r))
    ensures r == -1 <==> forall i :: k <= i ==> !OccursAt(hay, needle, i)
    ensures r >= 0 ==> forall i :: k <= i < r ==> !OccursAt(hay, needle, i)
  {
    if k + |needle| > |hay| then -1
    else if hay[k..k + |needle|] == needle then k
    else FindFrom(hay, needle, k + 1)
  }

  /** str.find: the leftmost index where needle occurs in hay, or -1. */
  function Find(hay: string, needle: string): (r: int)
    ensures r == -1 || OccursAt(hay, needle, r)
    ensures r == -1 <==> !Contains(hay, needle)
    ensures r >= 0 ==> forall i :: 0 <= i < r ==> !OccursAt(hay, needle, i)
  {
    FindFrom(hay, needle, 0)
  }

  predicate IsDigit(c: char)
  {
    '0' <= c <= '9'
  }

  function DigitChar(d: nat): (c: char)
    requires d < 10
    ensures IsDigit(c)
  {
    (48 + d) as char
  }

  /** The decimal digits of n, most significant first, without leading zeros. */
  function DecimalDigits(n: nat): (r: string)
    decreases n
  {
    if n < 10 then [DigitChar(n)] else DecimalDigits(n / 10) + [DigitChar(n % 10)]
  }

  /** The value of a string of decimal digits. */
  function DigitsValue(s: string): int
    requires forall i :: 0 <= i < |s| ==> IsDigit(s[i])
  {
    if s == [] then 0 else 10 * DigitsValue(s[..|s| - 1]) + (s[|s| - 1] as int - 48)
  }

  lemma {:induction false} DecimalDigitsShape(n: nat)
    ensures |DecimalDigits(n)| >= 1
    ensures forall i :: 0 <= i < |DecimalDigits(n)| ==> IsDigit(DecimalDigits(n)[i])
    decreases n
  {
    if n >= 10 {
      DecimalDigitsShape(n / 10);
    }
  }

  /** Reading the digits back gives the number: DecimalDigits has a left inverse. */
  lemma {:induction false} DecimalDigitsRoundTrip(n: nat)
    ensures forall i :: 0 <= i < |DecimalDigits(n)| ==> IsDigit(DecimalDigits(n)[i])
    ensures DigitsValue(DecimalDigits(n)) == n
    decreases n
  {
    DecimalDigitsShape(n);
    if n >= 10 {
      DecimalDigitsRoundTrip(n / 10);
      var s := DecimalDigits(n);
      assert s[..|s| - 1] == DecimalDigits(n / 10);
    }
  }

  /** str(n) for a Python int: an optional minus sign, then the decimal digits. */
  function IntToString(n: int): string
  {
    if n < 0 then "-" + DecimalDigits(-n) else DecimalDigits(n)
  }

  lemma IntToStringHasNoDot(n: int)
    ensures |IntToString(n)| >= 1
    ensures forall i :: 0 <= i < |IntToString(n)| ==> IntToString(n)[i] != '.'
  {
    DecimalDigitsShape(if n < 0 then -n else n);
  }

  lemma IntToStringSign(n: int)
    ensures |IntToString(n)| >= 1
    ensures IntToString(n)[0] == '-' <==> n < 0
  {
    DecimalDigitsShape(if n < 0 then -n else n);
  }

  /** Different integers print differently. */
  lemma IntToStringInjective(a: int, b: int)
    requires IntToString(a) == IntToString(b)
    ensures a == b
  {
    DecimalDigitsRoundTrip(if a < 0 then -a else a);
    DecimalDigitsRoundTrip(if b < 0 then -b else b);
    IntToStringSign(a);
    IntToStringSign(b);
    if a < 0 && b < 0 {
      assert DecimalDigits(-a) == IntToString(a)[1..];
    }
  }

  /** The text "a..b" that the code writes for a 1-based inclusive interval. */
  function RangeText(a: int, b: int): string
  {
    IntToString(a) + ".." + IntToString(b)
  }

  /** The first '.' of a range text ends its lower bound. */
  lemma RangeTextFirstDot(a: int, b: int)
    ensures |RangeText(a, b)| > |IntToString(a)|
    ensures RangeText(a, b)[|IntToString(a)|] == '.'
    ensures forall i :: 0 <= i < |IntToString(a)| ==> RangeText(a, b)[i] != '.'
  {
    IntToStringHasNoDot(a);
  }

  /** A range text determines both of its bounds. */
  lemma RangeTextInjective(a: int, b: int, c: int, d: int)
    requires RangeText(a, b) == RangeText(c, d)
    ensures a == c && b == d
  {
    var x, y := IntToString(a), IntToString(c);
    var s := RangeText(a, b);
    RangeTextFirstDot(a, b);
    RangeTextFirstDot(c, d);
    if |x| == |y| {
      assert x == s[..|x|] == y;
      IntToStringInjective(a, c);
      assert IntToString(b) == s[|x| + 2..] == IntToString(d);
      IntToStringInjective(b, d);
    }
  }
}
