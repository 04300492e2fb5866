/** The per-card command id `${categoryIndex}-${cmdIndex}`. */
module Ids {
  import opened Strings

  predicate IsDigit(c: char) {
    '0' <= c <= '9'
  }

  predicate AllDigits(s: string) {
    forall i :: 0 <= i < |s| ==> IsDigit(s[i])
  }

  function DigitChar(d: nat): (c: char)
    requires d < 10
    ensures IsDigit(c)
  {
    ('0' as int + d) as char
  }

  /** The decimal text JavaScript gives a non-negative integer index. */
  function Decimal(n: nat): (r: string)
    ensures |r| > 0
    ensures AllDigits(r)
    decreases n
  {
    if n < 10 then [DigitChar(n)] else Decimal(n / 10) + [DigitChar(n % 10)]
  }

  /** The number a digit string denotes. */
  function DigitsValue(s: string): nat
    requires AllDigits(s)
    decreases |s|
  {
    if |s| == 0 then 0
    else DigitsValue(s[..|s| - 1]) * 10 + (s[|s| - 1] as int - '0' as int)
  }

  /** Reading back the decimal text of `n` gives `n`. */
  lemma {:induction false} DecimalRoundTrip(n: nat)
    ensures DigitsValue(Decimal(n)) == n
    decreases n
  {
    if n >= 10 {
      DecimalRoundTrip(n / 10);
      var d := Decimal(n);
      assert d[..|d| - 1] == Decimal(n / 10);
    }
  }

  /** The id of the card at `item` in category `category` of the shown list. */
  function CommandId(category: nat, item: nat): (r: string)
    ensures Split(r, '-') == [Decimal(category), Decimal(item)]
  {
    assert '-' !in Decimal(category) by { assert !IsDigit('-'); }
    assert '-' !in Decimal(item) by { assert !IsDigit('-'); }
    SplitAfterSep(Decimal(category), Decimal(item), '-');
    SplitNoSep(Decimal(item), '-');
    Decimal(category) + "-" + Decimal(item)
  }

  /** Distinct positions get distinct ids. */
  lemma CommandIdInjective(c1: nat, i1: nat, c2: nat, i2: nat)
    ensures CommandId(c1, i1) == CommandId(c2, i2) ==> c1 == c2 && i1 == i2
  {
    if CommandId(c1, i1) == CommandId(c2, i2) {
      DecimalRoundTrip(c1);
      DecimalRoundTrip(c2);
      DecimalRoundTrip(i1);
      DecimalRoundTrip(i2);
    }
  }
}
