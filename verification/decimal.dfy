/**
 * How the page list is printed: every page number in decimal (Python's
 * `str` on a non-negative int) and the numbers joined by ", ". A parser for
 * that text is given as the inverse, so that the listing is shown to carry
 * exactly the page numbers it was made from, in order.
 */
module Decimal {

  predicate IsDigit(c: char) {
    '0' <= c <= '9'
  }

  predicate AllDigits(s: string) {
    forall i :: 0 <= i < |s| ==> IsDigit(s[i])
  }

  function DigitChar(d: nat): char
    requires d < 10
  {
    ('0' as int + d) as char
  }

  function DigitValue(c: char): nat
    requires IsDigit(c)
  {
    c as int - '0' as int
  }

  /** `str(n)`: at least one digit, only digits, and no leading zero unless n is 0. */
  function NatToDecimal(n: nat): (s: string)
    ensures |s| >= 1 && AllDigits(s)
    ensures s[0] == '0' ==> n == 0
    decreases n
  {
    if n < 10 then [DigitChar(n)] else NatToDecimal(n / 10) + [DigitChar(n % 10)]
  }

  /** The number a string of digits denotes, most significant digit first. */
  function DecimalValue(s: string): nat
    requires AllDigits(s)
    decreases |s|
  {
    if s == [] then 0 else 10 * DecimalValue(s[..|s| - 1]) + DigitValue(s[|s| - 1])
  }

  /** Reading back the digits `str(n)` printed gives n. */
  lemma {:induction false} DecimalRoundTrip(n: nat)
    ensures DecimalValue(NatToDecimal(n)) == n
    decreases n
  {
    if n >= 10 {
      var s := NatToDecimal(n);
      assert s[..|s| - 1] == NatToDecimal(n / 10);
      DecimalRoundTrip(n / 10);
    }
  }

  /** `", ".join(map(str, ps))`. */
  function JoinPages(ps: seq<nat>): string
    decreases |ps|
  {
    if |ps| == 0 then ""
    else if |ps| == 1 then NatToDecimal(ps[0])
    else NatToDecimal(ps[0]) + ", " + JoinPages(ps[1..])
  }

  /** The length of the longest prefix of `s` made of digits. */
  function LeadingDigits(s: string): (k: nat)
    ensures k <= |s| && AllDigits(s[..k])
    ensures k < |s| ==> !IsDigit(s[k])
    decreases |s|
  {
    if s == [] || !IsDigit(s[0]) then 0 else 1 + LeadingDigits(s[1..])
  }

  /** Reads a ", "-separated list of decimal numbers, stopping at the first malformed part. */
  function ParsePageList(s: string): seq<nat>
    decreases |s|
  {
    var k := LeadingDigits(s);
    if k == 0 then []
    else if k + 2 <= |s| && s[k] == ',' && s[k + 1] == ' ' then
      [DecimalValue(s[..k])] + ParsePageList(s[k + 2..])
    else [DecimalValue(s[..k])]
  }

  /** A run of digits followed by a non-digit (or nothing) is read up to its end. */
  lemma {:induction false} LeadingDigitsOfNumber(d: string, rest: string)
    requires AllDigits(d)
    requires rest == [] || !IsDigit(rest[0])
    ensures LeadingDigits(d + rest) == |d|
    decreases |d|
  {
    if d != [] {
      assert (d + rest)[1..] == d[1..] + rest;
      LeadingDigitsOfNumber(d[1..], rest);
    }
  }

  /** A lone number reads back as itself. */
  lemma ParseOneNumber(d: string)
    requires |d| >= 1 && AllDigits(d)
    ensures ParsePageList(d) == [DecimalValue(d)]
  {
    assert d + [] == d;
    LeadingDigitsOfNumber(d, []);
    assert d[..|d|] == d;
  }

  /** A number followed by ", " reads back as that number, then whatever the rest reads as. */
  lemma ParseNumberThenRest(d: string, rest: string)
    requires |d| >= 1 && AllDigits(d)
    ensures ParsePageList(d + ", " + rest) == [DecimalValue(d)] + ParsePageList(rest)
  {
    var s := d + ", " + rest;
    assert s == d + (", " + rest);
    LeadingDigitsOfNumber(d, ", " + rest);
    assert s[..|d|] == d;
    assert s[|d| + 2..] == rest;
  }

  /** The printed page list reads back as the very list of page numbers. */
  lemma {:induction false} JoinPagesRoundTrip(ps: seq<nat>)
    ensures ParsePageList(JoinPages(ps)) == ps
    decreases |ps|
  {
    if |ps| == 1 {
      ParseOneNumber(NatToDecimal(ps[0]));
      DecimalRoundTrip(ps[0]);
    } else if |ps| > 1 {
      ParseNumberThenRest(NatToDecimal(ps[0]), JoinPages(ps[1..]));
      DecimalRoundTrip(ps[0]);
      JoinPagesRoundTrip(ps[1..]);
    }
  }
}
