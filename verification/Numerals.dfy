/** What a reader makes of the text of a number, and what the nearest number is. */
module Numerals {
  import opened Powers

  ghost predicate Plain(s: seq<char>) {
    forall i :: 0 <= i < |s| ==> '0' <= s[i] <= '9'
  }

  /** The number that decimal digits stand for, the highest first. */
  ghost function Read(s: seq<char>): nat
    requires Plain(s)
  {
    if s == [] then 0 else (s[0] as int - '0' as int) * Pow(10, |s| - 1) + Read(s[1..])
  }

  /** Digits, and with a dot more digits behind it; the integer part has a digit, and no zero before
      another one. */
  ghost predicate ReadsAs(s: seq<char>, dot: bool, whole: seq<char>, frac: seq<char>) {
    && Plain(whole) && Plain(frac) && Plain(whole + frac) && |whole| > 0 && (|whole| > 1 ==> whole[0] != '0')
    && if dot then s == whole + ['.'] + frac else s == whole && frac == []
  }

  /** `m` is the integer nearest to v / f, the upper one of two. */
  ghost predicate Nearest(m: nat, v: nat, f: nat) {
    2 * v - f < 2 * (m * f) <= 2 * v + f
  }

  /** The text has `places` digits behind the dot, if there is one, and reads as the number nearest to
      n / f with that many. */
  ghost predicate SaysDecimal(s: seq<char>, n: nat, f: nat, places: nat, dot: bool) {
    exists whole, frac ::
      ReadsAs(s, dot, whole, frac) && |frac| == places && Nearest(Read(whole + frac), n * Pow(10, places), f)
  }

  /** The same with an exponent: m * 10^-e is nearest to n / f. */
  ghost predicate NearestAt(m: nat, n: nat, f: nat, e: int) {
    if e >= 0 then Nearest(m, n * Pow(10, e), f) else Nearest(m, n, f * Pow(10, -e))
  }

  /** A sign and at least two digits, no zero before two others. */
  ghost predicate SaysExponent(s: seq<char>, x: int) {
    && |s| >= 3 && Plain(s[1..]) && (|s| > 3 ==> s[1] != '0')
    && if s[0] == '-' then x + Read(s[1..]) == 0 && x < 0 else s[0] == '+' && x == Read(s[1..])
  }

  /** One digit that is not 0, a dot and `places` digits, a letter and an exponent, and together they read
      as the number nearest to n / f with that many digits. */
  ghost predicate SaysScientific(s: seq<char>, n: nat, f: nat, places: nat, dot: bool, letter: char, x: int) {
    exists text, whole, frac, es ::
      && ReadsAs(text, dot, whole, frac) && |whole| == 1 && whole[0] != '0' && |frac| == places
      && SaysExponent(es, x) && s == text + [letter] + es && NearestAt(Read(whole + frac), n, f, places - x)
  }

  lemma {:induction false} ReadLast(s: seq<char>, c: char)
    requires Plain(s) && '0' <= c <= '9'
    ensures Plain(s + [c]) && Read(s + [c]) == 10 * Read(s) + (c as int - '0' as int)
    decreases |s|
  {
    var t := s + [c];
    if s == [] {
      assert t[1..] == [] && Pow(10, 0) == 1;
    } else {
      assert t[1..] == s[1..] + [c];
      ReadLast(s[1..], c);
      var d, p := s[0] as int - '0' as int, Pow(10, |s| - 1);
      assert Pow(10, |s|) == 10 * p;
      assert d * (10 * p) == 10 * (d * p);
    }
  }
}
