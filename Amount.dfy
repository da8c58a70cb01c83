/**
 * Amounts of money. The source keeps a `double`; the model keeps a whole
 * number of cents, positive for a deposit and negative for a payment, and
 * renders and reads it the way String.valueOf, String.format("%.2f") and
 * Double.parseDouble do for such values.
 */
module Amounts {
  import opened Wrappers
  import opened JavaStrings
  import opened Decimal

  function Abs(x: int): nat
  {
    if x < 0 then -x else x
  }

  function SignText(cents: int): String
  {
    if cents < 0 then "-" else ""
  }

  /** The fraction digits of String.valueOf: at least one, no trailing zero. */
  function FractionText(f: nat): String
    requires f < 100
  {
    if f % 10 == 0 then [DigitChar(f / 10)] else Padded(f, 2)
  }

  /** String.valueOf(amount): "150.0", "12.5", "-3.05". */
  function AmountText(cents: int): String
  {
    SignText(cents) + NatText(Abs(cents) / 100) + "." + FractionText(Abs(cents) % 100)
  }

  /** String.format("%.2f", amount): "150.00", "12.50", "-3.05". */
  function FixedText(cents: int): String
  {
    SignText(cents) + NatText(Abs(cents) / 100) + "." + Padded(Abs(cents) % 100, 2)
  }

  /** The cents written by zero to two fraction digits. */
  function FractionValue(f: String): nat
    requires AllDigits(f) && |f| <= 2
  {
    if |f| == 0 then 0 else if |f| == 1 then 10 * Value(f) else Value(f)
  }

  /**
   * An unsigned decimal: digits, optionally a point and at most two more
   * digits, with at least one digit in all ("5", "5.", ".5", "5.25").
   */
  function ParseUnsigned(s: String): Option<nat>
  {
    var parts := Pieces('.', s);
    var whole := parts[0];
    var fraction := if |parts| == 2 then parts[1] else [];
    if |parts| <= 2 && AllDigits(whole) && AllDigits(fraction) && |fraction| <= 2
       && |whole| + |fraction| > 0
    then Some(100 * Value(whole) + FractionValue(fraction))
    else None
  }

  /** Double.parseDouble: surrounding blanks are ignored, a sign is optional. */
  function ParseAmount(text: String): Option<int>
  {
    var s := Trim(text);
    if s != [] && (s[0] == '-' || s[0] == '+') then
      match ParseUnsigned(s[1..])
      case None => None
      case Some(v) => Some(if s[0] == '-' then -(v as int) else v as int)
    else ParseUnsigned(s)
  }

  lemma DigitsHaveNoPoint(s: String)
    requires AllDigits(s)
    ensures '.' !in s && '|' !in s
  {
  }

  /** Reading back the unsigned part of a rendering gives the cents back. */
  lemma ParseUnsignedOfText(w: nat, fraction: String, f: nat)
    requires AllDigits(fraction) && 1 <= |fraction| <= 2 && FractionValue(fraction) == f
    ensures ParseUnsigned(NatText(w) + "." + fraction) == Some(100 * w + f)
  {
    var whole := NatText(w);
    DigitsHaveNoPoint(whole);
    DigitsHaveNoPoint(fraction);
    PiecesAt('.', whole, fraction);
    PiecesOfFree('.', whole);
    PiecesOfFree('.', fraction);
    ValueOfNatText(w);
  }

  lemma FractionTextValue(f: nat)
    requires f < 100
    ensures AllDigits(FractionText(f)) && 1 <= |FractionText(f)| <= 2
    ensures FractionValue(FractionText(f)) == f
  {
    if f % 10 == 0 {
      var c := DigitChar(f / 10);
      assert [c][..0] == [];
      assert Value([c]) == DigitValue(c);
    } else {
      assert Pow10(2) == 100;
      ValueOfPadded(f, 2);
    }
  }

  /** What ParseUnsigned accepts is non-empty and made of digits and points only. */
  lemma UnsignedChars(unsigned: String, v: nat)
    requires ParseUnsigned(unsigned) == Some(v)
    ensures unsigned != []
    ensures forall i :: 0 <= i < |unsigned| ==> IsDigit(unsigned[i]) || unsigned[i] == '.'
  {
    var parts := Pieces('.', unsigned);
    JoinOfPieces('.', unsigned);
    if |parts| == 2 {
      assert parts[1..] == [parts[1]];
      assert unsigned == parts[0] + "." + parts[1];
    }
  }

  /** How ParseAmount treats an optional minus sign before an unsigned decimal. */
  lemma ParseAmountOfSigned(sign: String, unsigned: String, v: nat)
    requires sign == "-" || sign == ""
    requires ParseUnsigned(unsigned) == Some(v)
    ensures ParseAmount(sign + unsigned) == Some(if sign == "-" then -(v as int) else v as int)
  {
    UnsignedChars(unsigned, v);
    SignedIsTrimmed(sign, unsigned);
    if sign == "-" {
      ParseAmountOfNegative(unsigned, v);
    } else {
      assert sign + unsigned == unsigned;
      ParseAmountOfUnsigned(unsigned, v);
    }
  }

  lemma ParseAmountOfNegative(unsigned: String, v: nat)
    requires Trim("-" + unsigned) == "-" + unsigned && ParseUnsigned(unsigned) == Some(v)
    ensures ParseAmount("-" + unsigned) == Some(-(v as int))
  {
    AfterSign(unsigned);
  }

  lemma ParseAmountOfUnsigned(unsigned: String, v: nat)
    requires Trim(unsigned) == unsigned && unsigned != [] && unsigned[0] != '-' && unsigned[0] != '+'
    requires ParseUnsigned(unsigned) == Some(v)
    ensures ParseAmount(unsigned) == Some(v as int)
  {
  }

  /** A signed decimal starts with '-', a digit or a point and ends with a digit or a point, so trim keeps it. */
  lemma SignedIsTrimmed(sign: String, unsigned: String)
    requires sign == "-" || sign == ""
    requires unsigned != []
    requires forall i :: 0 <= i < |unsigned| ==> IsDigit(unsigned[i]) || unsigned[i] == '.'
    ensures Trim(sign + unsigned) == sign + unsigned
  {
    var text := sign + unsigned;
    assert text[|text| - 1] == unsigned[|unsigned| - 1];
    assert text[0] == '-' || text[0] == unsigned[0];
    TrimOfTrimmed(text);
  }

  lemma ParseAmountOfRendering(cents: int, fraction: String)
    requires AllDigits(fraction) && 1 <= |fraction| <= 2
    requires FractionValue(fraction) == Abs(cents) % 100
    ensures ParseAmount(SignText(cents) + NatText(Abs(cents) / 100) + "." + fraction) == Some(cents)
  {
    SignedValue(cents);
    Cents(Abs(cents));
    ParseAmountOfParts(SignText(cents), Abs(cents) / 100, fraction, Abs(cents) % 100, Abs(cents));
  }

  /** An optional minus sign, whole digits, a point and fraction digits. */
  lemma ParseAmountOfParts(sign: String, w: nat, fraction: String, f: nat, v: nat)
    requires sign == "-" || sign == ""
    requires AllDigits(fraction) && 1 <= |fraction| <= 2 && FractionValue(fraction) == f
    requires v == 100 * w + f
    ensures ParseAmount(sign + NatText(w) + "." + fraction) == Some(if sign == "-" then -(v as int) else v as int)
  {
    var unsigned := NatText(w) + "." + fraction;
    ParseUnsignedOfText(w, fraction, f);
    RegroupRendering(sign, NatText(w), ".", fraction);
    ParseAmountOfSigned(sign, unsigned, v);
  }

  lemma SignedValue(cents: int)
    ensures (if SignText(cents) == "-" then -(Abs(cents) as int) else Abs(cents) as int) == cents
    ensures SignText(cents) == "-" || SignText(cents) == ""
  {
  }

  lemma AfterSign(u: String)
    ensures ("-" + u)[0] == '-' && ("-" + u)[1..] == u
  {
  }

  /** Whole units and the cents left over make up the amount. */
  lemma Cents(n: nat)
    ensures 100 * (n / 100) + n % 100 == n
  {
  }

  lemma RegroupRendering(a: String, b: String, c: String, d: String)
    ensures a + b + c + d == a + (b + c + d)
    ensures b != [] ==> (a + b + c + d)[|a|] == b[0]
  {
  }

  /** The storage text of an amount reads back as the same amount. */
  lemma AmountTextRoundTrip(cents: int)
    ensures ParseAmount(AmountText(cents)) == Some(cents)
  {
    FractionTextValue(Abs(cents) % 100);
    ParseAmountOfRendering(cents, FractionText(Abs(cents) % 100));
  }

  /** The displayed text of an amount reads back as the same amount. */
  lemma FixedTextRoundTrip(cents: int)
    ensures ParseAmount(FixedText(cents)) == Some(cents)
  {
    ValueOfPadded(Abs(cents) % 100, 2);
    ParseAmountOfRendering(cents, Padded(Abs(cents) % 100, 2));
  }

  /** The storage text is never empty and never holds the field delimiter. */
  lemma FixedTextIsField(cents: int)
    ensures FixedText(cents) != [] && '|' !in FixedText(cents)
  {
    var whole, fraction := NatText(Abs(cents) / 100), Padded(Abs(cents) % 100, 2);
    DigitsHaveNoPoint(whole);
    DigitsHaveNoPoint(fraction);
    assert FixedText(cents) == SignText(cents) + whole + "." + fraction;
  }

  lemma AmountTextIsField(cents: int)
    ensures AmountText(cents) != [] && '|' !in AmountText(cents)
    ensures '\n' !in AmountText(cents) && '\r' !in AmountText(cents)
  {
    var whole, fraction := NatText(Abs(cents) / 100), FractionText(Abs(cents) % 100);
    DigitsHaveNoPoint(whole);
    FractionTextValue(Abs(cents) % 100);
    DigitsHaveNoPoint(fraction);
    assert AmountText(cents) == SignText(cents) + whole + "." + fraction;
  }
}
