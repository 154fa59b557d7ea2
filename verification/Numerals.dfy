/** Numbers written in a radix, told from printed tables of digits. */
module Numerals {
  import opened Arith

  const LOWER: string := "0123456789abcdef"
  const UPPER: string := "0123456789ABCDEF"

  /** The character c stands for d in one of the tables. */
  predicate StandsFor(c: char, d: nat) {
    d < 16 && (c == LOWER[d] || c == UPPER[d])
  }

  lemma OneMeaning(c: char, d: nat, e: nat)
    requires StandsFor(c, d) && StandsFor(c, e)
    ensures d == e
  {
  }

  /** The character is a digit below top. */
  ghost predicate IsBelow(c: char, top: nat) {
    exists d: nat :: d < top && StandsFor(c, d)
  }

  /** s consists of digits below top and is worth v in the radix: without its last digit it is worth what
      remains of v after that digit is taken off, divided by the radix. */
  ghost predicate IsNumeral(s: string, v: nat, radix: nat, top: nat)
    requires radix > 0
    decreases |s|, 1
  {
    if |s| == 0 then v == 0 else exists d: nat :: EndsIn(s, d, v, radix, top)
  }

  ghost predicate EndsIn(s: string, d: nat, v: nat, radix: nat, top: nat)
    requires radix > 0 && |s| > 0
    decreases |s|, 0
  {
    d < top && StandsFor(s[|s| - 1], d) && d <= v && (v - d) % radix == 0
    && IsNumeral(s[..|s| - 1], (v - d) / radix, radix, top)
  }

  /** A further digit at the end. */
  lemma NumeralSnoc(s: string, c: char, d: nat, v: nat, radix: nat, top: nat)
    requires radix > 0 && d < top && StandsFor(c, d) && IsNumeral(s, v, radix, top)
    ensures v * radix + d >= 0 && IsNumeral(s + [c], v * radix + d, radix, top)
  {
    assert (s + [c])[..|s|] == s;
    var w := NatProduct(v, radix);
    ModMultiple(v, radix);
    assert EndsIn(s + [c], d, w + d, radix, top);
  }

  /** Taken the other way round: the last character is a digit d, and what stands before it is worth u. */
  lemma NumeralLast(s: string, v: nat, radix: nat, top: nat) returns (d: nat, u: nat)
    requires radix > 0 && |s| > 0 && IsNumeral(s, v, radix, top)
    ensures d < top && StandsFor(s[|s| - 1], d) && v == u * radix + d && IsNumeral(s[..|s| - 1], u, radix, top)
  {
    d :| EndsIn(s, d, v, radix, top);
    u := (v - d) / radix;
    DivExact(v - d, radix);
  }

  /** A string is worth at most one number. */
  lemma {:induction false} OneValue(s: string, v: nat, w: nat, radix: nat, top: nat)
    requires radix > 0 && IsNumeral(s, v, radix, top) && IsNumeral(s, w, radix, top)
    ensures v == w
  {
    if |s| > 0 {
      var d, u := NumeralLast(s, v, radix, top);
      var e, t := NumeralLast(s, w, radix, top);
      OneMeaning(s[|s| - 1], d, e);
      OneValue(s[..|s| - 1], u, t, radix, top);
    }
  }

  /** Every character of a numeral is a digit. */
  lemma {:induction false} NumeralDigits(s: string, v: nat, radix: nat, top: nat)
    requires radix > 0 && IsNumeral(s, v, radix, top)
    ensures forall k :: 0 <= k < |s| ==> IsBelow(s[k], top)
  {
    if |s| > 0 {
      var d, u := NumeralLast(s, v, radix, top);
      NumeralDigits(s[..|s| - 1], u, radix, top);
      forall k | 0 <= k < |s| ensures IsBelow(s[k], top) {
        if k < |s| - 1 {
          assert s[k] == s[..|s| - 1][k];
        }
      }
    }
  }

  /** Which digits are allowed matters only for the characters that occur. */
  lemma {:induction false} OtherTop(s: string, v: nat, radix: nat, top: nat, newTop: nat)
    requires radix > 0 && IsNumeral(s, v, radix, top) && forall k :: 0 <= k < |s| ==> IsBelow(s[k], newTop)
    ensures IsNumeral(s, v, radix, newTop)
  {
    if |s| > 0 {
      var pre, c := s[..|s| - 1], s[|s| - 1];
      var d, u := NumeralLast(s, v, radix, top);
      var e: nat :| e < newTop && StandsFor(c, e);
      OneMeaning(c, d, e);
      assert forall k :: 0 <= k < |pre| ==> pre[k] == s[k];
      OtherTop(pre, u, radix, top, newTop);
      NumeralSnoc(pre, c, d, u, radix, newTop);
      assert s == pre + [c];
    }
  }

  // ----- Printing -----

  /** v printed with one of the tables, without leading zeros. */
  function Numeral(v: nat, radix: nat, upper: bool): (s: string)
    requires 2 <= radix <= 16
    ensures |s| > 0
  {
    var last := if upper then UPPER[v % radix] else LOWER[v % radix];
    if v < radix then [last] else QuotientSmaller(v, radix); Numeral(v / radix, radix, upper) + [last]
  }

  lemma QuotientSmaller(v: nat, radix: nat)
    requires 2 <= radix <= v
    ensures 0 < v / radix < v && v == v / radix * radix + v % radix
  {
    var q := v / radix;
    MulMono(2, radix, q);
  }

  /** Every printed number is worth that number, in each radix and with either table. */
  lemma {:induction false} Printed(v: nat, radix: nat, upper: bool)
    requires 2 <= radix <= 16
    ensures IsNumeral(Numeral(v, radix, upper), v, radix, radix)
    ensures Numeral(v, radix, upper)[0] == '0' <==> v == 0
    decreases v
  {
    var s := Numeral(v, radix, upper);
    var d := v % radix;
    var c := if upper then UPPER[d] else LOWER[d];
    assert StandsFor(c, d);
    if v < radix {
      DivModUnique(v, radix, 0, v);
      NumeralSnoc("", c, v, 0, radix, radix);
      assert s == "" + [c];
    } else {
      QuotientSmaller(v, radix);
      Printed(v / radix, radix, upper);
      NumeralSnoc(Numeral(v / radix, radix, upper), c, d, v / radix, radix, radix);
    }
  }
}
