/** Decimal numerals, printed and read. */
module Decimals {
  predicate IsDigit(c: char) {
    '0' <= c <= '9'
  }

  function DigitValue(c: char): nat
    requires IsDigit(c)
  {
    c as int - '0' as int
  }

  function DigitsValue(s: string): nat
    requires forall i :: 0 <= i < |s| ==> IsDigit(s[i])
  {
    if s == [] then 0 else 10 * DigitsValue(s[..|s| - 1]) + DigitValue(s[|s| - 1])
  }

  function Digit(d: nat): (c: char)
    requires d < 10
    ensures IsDigit(c) && DigitValue(c) == d && c as int == 48 + d
  {
    "0123456789"[d]
  }

  /** A number as the writer prints it. */
  function Decimal(n: nat): (s: string)
    ensures s != [] && forall i :: 0 <= i < |s| ==> IsDigit(s[i])
  {
    if n < 10 then [Digit(n)] else Decimal(n / 10) + [Digit(n % 10)]
  }

  lemma {:induction false} DecimalValue(n: nat)
    ensures DigitsValue(Decimal(n)) == n
  {
    var s := Decimal(n);
    if n >= 10 {
      DecimalValue(n / 10);
      assert s[..|s| - 1] == Decimal(n / 10);
    } else {
      assert DigitsValue(s[..0]) == 0;
    }
  }

  /** The printed number is the only text of digits with that value and no needless zero in front. */
  lemma {:induction false} DecimalIsOnly(s: string)
    requires s != [] && forall i :: 0 <= i < |s| ==> IsDigit(s[i])
    ensures s == Decimal(DigitsValue(s)) <==> |s| == 1 || s[0] != '0'
  {
    if |s| == 1 {
      assert s[..0] == [] && s == [s[0]];
    } else {
      var init, last := s[..|s| - 1], DigitValue(s[|s| - 1]);
      DecimalIsOnly(init);
      assert DigitsValue(s) / 10 == DigitsValue(init) && DigitsValue(s) % 10 == last;
      if DigitsValue(s) < 10 {
        assert DigitsValue(init) == 0 && |Decimal(DigitsValue(s))| == 1;
        AllZeros(init);
      } else {
        assert Decimal(DigitsValue(s)) == Decimal(DigitsValue(init)) + [Digit(last)];
        assert s == init + [Digit(last)];
      }
    }
  }

  lemma {:induction false} AllZeros(s: string)
    requires s != [] && (forall i :: 0 <= i < |s| ==> IsDigit(s[i])) && DigitsValue(s) == 0
    ensures s[0] == '0'
  {
    if |s| > 1 {
      AllZeros(s[..|s| - 1]);
    }
  }
}
