/**
 * Decimal digit strings: their value, the shortest and the zero-padded
 * rendering of a natural number, and how `compareTo` orders digit strings.
 */
module Decimal {
  import opened JavaStrings

  predicate IsDigit(c: char)
  {
    '0' <= c <= '9'
  }

  predicate AllDigits(s: String)
  {
    forall i :: 0 <= i < |s| ==> IsDigit(s[i])
  }

  function DigitValue(c: char): nat
    requires IsDigit(c)
  {
    c as int - '0' as int
  }

  function DigitChar(n: nat): (c: char)
    requires n < 10
    ensures IsDigit(c) && DigitValue(c) == n
  {
    ('0' as int + n) as char
  }

  function Pow10(k: nat): (p: nat)
    ensures p >= 1
  {
    if k == 0 then 1 else 10 * Pow10(k - 1)
  }

  /** The number a digit string denotes, most significant digit first. */
  function Value(s: String): nat
    requires AllDigits(s)
  {
    if s == [] then 0 else 10 * Value(s[..|s| - 1]) + DigitValue(s[|s| - 1])
  }

  /** Integer.toString of a natural number: its digits, without leading zeros. */
  function NatText(n: nat): (s: String)
    ensures AllDigits(s) && |s| >= 1
    ensures s[0] != '0' || n == 0
  {
    if n < 10 then [DigitChar(n)] else NatText(n / 10) + [DigitChar(n % 10)]
  }

  /** The last `width` decimal digits of `n`, zero-padded on the left. */
  function Padded(n: nat, width: nat): (s: String)
    ensures AllDigits(s) && |s| == width
  {
    if width == 0 then [] else Padded(n / 10, width - 1) + [DigitChar(n % 10)]
  }

  lemma {:induction false} ValueOfNatText(n: nat)
    ensures Value(NatText(n)) == n
  {
    if n >= 10 {
      ValueOfNatText(n / 10);
      var s := NatText(n);
      assert s[..|s| - 1] == NatText(n / 10);
    }
  }

  lemma {:induction false} ValueOfPadded(n: nat, width: nat)
    requires n < Pow10(width)
    ensures Value(Padded(n, width)) == n
  {
    if width > 0 {
      ValueOfPadded(n / 10, width - 1);
      var s := Padded(n, width);
      assert s[..|s| - 1] == Padded(n / 10, width - 1);
    }
  }

  /** A digit string is the padded rendering of its own value. */
  lemma {:induction false} PaddedOfValue(s: String)
    requires AllDigits(s)
    ensures Padded(Value(s), |s|) == s
  {
    if s != [] {
      var init := s[..|s| - 1];
      PaddedOfValue(init);
      var v := Value(s);
      assert v / 10 == Value(init) && v % 10 == DigitValue(s[|s| - 1]);
      assert s == init + [s[|s| - 1]];
    }
  }

  lemma {:induction false} ValueBound(s: String)
    requires AllDigits(s)
    ensures Value(s) < Pow10(|s|)
  {
    if s != [] {
      ValueBound(s[..|s| - 1]);
    }
  }

  /** The value seen from the most significant digit. */
  lemma {:induction false} ValueFront(s: String)
    requires AllDigits(s) && s != []
    ensures Value(s) == DigitValue(s[0]) * Pow10(|s| - 1) + Value(s[1..])
  {
    if |s| > 1 {
      var init := s[..|s| - 1];
      ValueFront(init);
      assert init[1..] == s[1..][..|s| - 2];
      assert init[0] == s[0];
      assert Value(s[1..]) == 10 * Value(init[1..]) + DigitValue(s[|s| - 1]);
      ShiftDigit(DigitValue(s[0]), Pow10(|s| - 2), Value(init[1..]), DigitValue(s[|s| - 1]));
    } else {
      assert s[1..] == [];
    }
  }

  lemma ShiftDigit(d: nat, p: nat, v: nat, last: nat)
    ensures 10 * (d * p + v) + last == d * (10 * p) + (10 * v + last)
  {
    assert 10 * (d * p) == d * (10 * p);
  }

  /** The sign of an integer, as -1, 0 or 1. */
  function Sign(x: int): int
  {
    if x < 0 then -1 else if x == 0 then 0 else 1
  }

  /** A smaller leading digit outweighs whatever the lower digits hold. */
  lemma LeadingDigitDecides(da: nat, db: nat, p: nat, x: nat, y: nat)
    requires da < db && x < p && y < p
    ensures da * p + x < db * p + y
  {
    var k: nat := db - da - 1;
    calc {
      db * p;
      (da + 1 + k) * p;
      da * p + p + k * p;
    }
  }

  /**
   * Between digit strings of the same width, `compareTo` orders by value:
   * the sign of the comparison is the sign of the difference of the values.
   */
  lemma {:induction false} CompareDigits(a: String, b: String)
    requires AllDigits(a) && AllDigits(b) && |a| == |b|
    ensures Sign(CompareTo(a, b)) == Sign(Value(a) - Value(b))
  {
    if a != [] {
      ValueFront(a);
      ValueFront(b);
      var p := Pow10(|a| - 1);
      var da, db := DigitValue(a[0]), DigitValue(b[0]);
      var x, y := Value(a[1..]), Value(b[1..]);
      if a[0] == b[0] {
        CompareDigits(a[1..], b[1..]);
      } else {
        ValueBound(a[1..]);
        ValueBound(b[1..]);
        assert CompareTo(a, b) == a[0] as int - b[0] as int;
        if da < db {
          LeadingDigitDecides(da, db, p, x, y);
        } else {
          LeadingDigitDecides(db, da, p, y, x);
        }
      }
    }
  }

  /**
   * Two strings that begin with zero-padded numbers of one width compare by
   * those numbers first, and by what follows them when the numbers are equal.
   */
  lemma ComparePaddedBlocks(m: nat, r: String, n: nat, q: String, width: nat)
    requires m < Pow10(width) && n < Pow10(width)
    ensures Sign(CompareTo(Padded(m, width) + r, Padded(n, width) + q))
         == if m == n then Sign(CompareTo(r, q)) else Sign(m - n)
  {
    var a, b := Padded(m, width), Padded(n, width);
    CompareToBlocks(a, r, b, q);
    ValueOfPadded(m, width);
    ValueOfPadded(n, width);
    CompareDigits(a, b);
  }
}
