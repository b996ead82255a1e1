/** Numbers as runs of decimal digits. */
module Decimals {
  import opened Order

  predicate IsDigit(c: char) {
    '0' <= c <= '9'
  }

  predicate Digits(text: string) {
    forall c :: c in text ==> IsDigit(c)
  }

  /** The number a run of digits denotes. */
  function DigitsValue(digits: string): int {
    if digits == "" then 0
    else DigitsValue(digits[..|digits| - 1]) * 10 + (digits[|digits| - 1] as int - '0' as int)
  }

  function DecimalDigits(n: nat): string {
    if n < 10 then [DigitOf(n)] else DecimalDigits(n / 10) + [DigitOf(n % 10)]
  }

  function DigitOf(n: nat): char
    requires n < 10
  {
    ('0' as int + n) as char
  }

  function Decimal(n: int): string {
    if n < 0 then "-" + DecimalDigits(-n) else DecimalDigits(n)
  }

  lemma {:induction false} DecimalIsDigits(n: nat)
    ensures DecimalDigits(n) != "" && Digits(DecimalDigits(n))
    ensures DigitsValue(DecimalDigits(n)) == n
    ensures DecimalDigits(n)[0] == '0' <==> n == 0
    ensures n < 10 ==> |DecimalDigits(n)| == 1
  {
    var digits := DecimalDigits(n);
    if n < 10 {
      assert digits[..0] == "" && DigitsValue("") == 0;
    } else {
      DecimalIsDigits(n / 10);
      assert digits[..|digits| - 1] == DecimalDigits(n / 10);
      assert digits[0] == DecimalDigits(n / 10)[0];
    }
  }

  /** The first digits count for ten of each of the digits after them. */
  lemma {:induction false} PlaceValue(digits: string, more: string)
    ensures DigitsValue(digits + more) == DigitsValue(digits) * Power(|more|) + DigitsValue(more)
    decreases |more|
  {
    if more == "" {
      assert digits + more == digits;
    } else {
      var before := more[..|more| - 1];
      assert (digits + more)[..|digits + more| - 1] == digits + before;
      PlaceValue(digits, before);
      assert DigitsValue(digits) * Power(|more|) == DigitsValue(digits) * Power(|before|) * 10;
    }
  }

  /** And a digit for its place in the row of ten. */
  lemma DigitValue(n: nat)
    requires n < 10
    ensures DigitsValue(["0123456789"[n]]) == n
  {
    var digits := "0123456789";
    assert digits[0] == '0' && digits[1] == '1' && digits[2] == '2' && digits[3] == '3' && digits[4] == '4';
    assert digits[5] == '5' && digits[6] == '6' && digits[7] == '7' && digits[8] == '8' && digits[9] == '9';
    assert [digits[n]][..0] == "" && DigitsValue("") == 0;
  }

  // ---- filled with zeros ---------------------------------------------------------------------

  /** At least `width` digits. */
  function Padded(n: nat, width: nat): string {
    if width <= 1 then DecimalDigits(n) else Padded(n / 10, width - 1) + [DigitOf(n % 10)]
  }

  function Power(width: nat): nat {
    if width == 0 then 1 else 10 * Power(width - 1)
  }

  lemma Tenth(n: nat, p: nat)
    ensures n / 10 < p <==> n < 10 * p
  {
  }

  /** A number is a tenth of it and a last digit, and so is its text. */
  lemma LastDigit(n: nat, width: nat) returns (tenth: nat, digit: nat)
    requires width > 1
    ensures n == 10 * tenth + digit && digit < 10
    ensures Padded(n, width) == Padded(tenth, width - 1) + [DigitOf(digit)]
    ensures n < Power(width) <==> tenth < Power(width - 1)
  {
    tenth, digit := n / 10, n % 10;
    Tenth(n, Power(width - 1));
  }

  lemma {:induction false} PaddedIsDigits(n: nat, width: nat)
    requires width >= 1
    ensures Digits(Padded(n, width)) && DigitsValue(Padded(n, width)) == n
    ensures |Padded(n, width)| >= width
    ensures |Padded(n, width)| == width <==> n < Power(width)
  {
    var digits := Padded(n, width);
    if width == 1 {
      DecimalIsDigits(n);
      if n >= 10 {
        DecimalIsDigits(n / 10);
      }
    } else {
      var tenth, digit := LastDigit(n, width);
      PaddedIsDigits(tenth, width - 1);
      assert digits[..|digits| - 1] == Padded(tenth, width - 1);
    }
  }

  lemma LastDigitInOrder(m: nat, n: nat)
    requires m < n < 10
    ensures Precedes([DigitOf(m)], [DigitOf(n)])
  {
    assert Codes([DigitOf(m)])[0] < Codes([DigitOf(n)])[0];
  }

  /** Texts of one width are in the order of their numbers. */
  lemma {:induction false} PaddedInOrder(m: nat, n: nat, width: nat)
    requires width >= 1 && m < n < Power(width)
    ensures Precedes(Padded(m, width), Padded(n, width))
  {
    if width == 1 {
      assert Power(1) == 10 * Power(0);
      LastDigitInOrder(m, n);
    } else {
      var a, d := LastDigit(m, width);
      var b, e := LastDigit(n, width);
      if a == b {
        LastDigitInOrder(d, e);
        SameStart(Padded(a, width - 1), [DigitOf(d)], [DigitOf(e)]);
      } else {
        PaddedInOrder(a, b, width - 1);
        SameWidth(a, b, width - 1);
        StartDecides(Padded(a, width - 1), Padded(b, width - 1), [DigitOf(d)], [DigitOf(e)]);
      }
    }
  }

  lemma SameWidth(m: nat, n: nat, width: nat)
    requires width >= 1 && m < Power(width) && n < Power(width)
    ensures |Padded(m, width)| == |Padded(n, width)|
  {
    PaddedIsDigits(m, width);
    PaddedIsDigits(n, width);
  }

  /** One text of digits for each width and number. */
  lemma {:induction false} OneNumeral(digits: string, width: nat)
    requires width >= 1 && |digits| == width && Digits(digits)
    ensures IsNumeral(digits, width)
  {
    var start, last := digits[..width - 1], digits[width - 1];
    assert digits == start + [last];
    assert last in digits && forall c :: c in start ==> c in digits;
    if width == 1 {
      OneDigit(last);
    } else {
      OneNumeral(start, width - 1);
      LongerNumeral(start, last, width);
    }
  }

  /** The text of its own number. */
  predicate IsNumeral(digits: string, width: nat) {
    0 <= DigitsValue(digits) < Power(width) && Padded(DigitsValue(digits), width) == digits
  }

  lemma OneDigit(last: char)
    requires IsDigit(last)
    ensures IsNumeral([last], 1)
  {
    assert [last][..0] == "" && Power(1) == 10 * Power(0);
  }

  lemma LongerNumeral(start: string, last: char, width: nat)
    requires width > 1 && IsDigit(last) && IsNumeral(start, width - 1)
    ensures IsNumeral(start + [last], width)
  {
    var digits, digit := start + [last], last as int - '0' as int;
    assert digits[..|digits| - 1] == start;
    var value, n: nat := DigitsValue(start), DigitsValue(digits);
    assert n == value * 10 + digit;
    var tenth, rest := LastDigit(n, width);
    assert tenth == value && rest == digit;
  }
}
