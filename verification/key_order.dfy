/** JavaScript text as UTF-16 code units, its comparison, and the order in which an object enumerates its keys. */
module KeyOrder {
  type CodeUnit = n: int | 0 <= n < 0x1_0000
  type Text = seq<CodeUnit>

  /** `left < right` on strings: code unit by code unit, a proper prefix first. */
  predicate TextLess(a: Text, b: Text) {
    b != [] && (a == [] || a[0] < b[0] || (a[0] == b[0] && TextLess(a[1..], b[1..])))
  }

  predicate IsDigit(c: CodeUnit) { 48 <= c <= 57 }

  /** A canonical array index: a decimal without leading zero below 4294967295. */
  predicate IsArrayIndex(key: Text) {
    && key != [] && (forall c | c in key :: IsDigit(c)) && (key[0] == 48 ==> |key| == 1)
    && (|key| < 10 || (|key| == 10 && TextLess(key, [52, 50, 57, 52, 57, 54, 55, 50, 57, 53])))
  }

  /** Array indices come first in numeric order, which for decimals without leading zeros is shorter first. */
  predicate IndexLess(a: Text, b: Text) { |a| < |b| || (|a| == |b| && TextLess(a, b)) }

  /** The enumeration order of an object built from entries in text order. */
  predicate EnumLess(a: Text, b: Text) {
    if IsArrayIndex(a) then !IsArrayIndex(b) || IndexLess(a, b) else !IsArrayIndex(b) && TextLess(a, b)
  }

  function Number(digits: Text): int {
    if digits == [] then 0 else 10 * Number(digits[..|digits| - 1]) + digits[|digits| - 1] - 48
  }

  function Power(n: nat): nat { if n == 0 then 1 else 10 * Power(n - 1) }

  lemma {:induction false} NumberBounds(digits: Text)
    requires forall c | c in digits :: IsDigit(c)
    ensures 0 <= Number(digits) < Power(|digits|)
    ensures digits != [] && digits[0] != 48 ==> Number(digits) >= Power(|digits| - 1)
  {
    if digits != [] {
      var front := digits[..|digits| - 1];
      assert digits[|digits| - 1] in digits;
      assert forall c | c in front :: c in digits;
      NumberBounds(front);
      if front != [] {
        assert front[0] == digits[0];
      }
    }
  }

  lemma {:induction false} SameLengthByText(a: Text, b: Text)
    requires |a| == |b| && (forall c | c in a :: IsDigit(c)) && (forall c | c in b :: IsDigit(c))
    ensures TextLess(a, b) <==> Number(a) < Number(b)
    ensures a == b <==> Number(a) == Number(b)
  {
    if a != [] {
      var n := |a| - 1;
      var fa, fb := a[..n], b[..n];
      assert a[n] in a && b[n] in b;
      assert (forall c | c in fa :: c in a) && (forall c | c in fb :: c in b);
      SameLengthByText(fa, fb);
      LessByFront(a, b);
      assert a == fa + [a[n]] && b == fb + [b[n]];
    }
  }

  lemma {:induction false} LessByFront(a: Text, b: Text)
    requires |a| == |b| > 0
    ensures var n := |a| - 1; TextLess(a, b) <==> TextLess(a[..n], b[..n]) || (a[..n] == b[..n] && a[n] < b[n])
  {
    var n := |a| - 1;
    if n > 0 {
      LessByFront(a[1..], b[1..]);
      assert a[1..][..n - 1] == a[..n][1..] && b[1..][..n - 1] == b[..n][1..];
      assert a[..n] == [a[0]] + a[..n][1..] && b[..n] == [b[0]] + b[..n][1..];
    }
  }

  lemma {:induction false} PowerGrows(m: nat, n: nat)
    requires m <= n
    ensures Power(m) <= Power(n)
  {
    if m < n {
      PowerGrows(m, n - 1);
    }
  }

  /** For array indices the shorter-first order is the numeric order. */
  lemma IndexOrderIsNumeric(a: Text, b: Text)
    requires IsArrayIndex(a) && IsArrayIndex(b)
    ensures IndexLess(a, b) <==> Number(a) < Number(b)
  {
    NumberBounds(a);
    NumberBounds(b);
    if |a| < |b| {
      PowerGrows(|a|, |b| - 1);
    } else if |b| < |a| {
      PowerGrows(|b|, |a| - 1);
    } else {
      SameLengthByText(a, b);
    }
  }

  // ----- which keys are array indices

  /** The decimal that JavaScript prints a whole number as. */
  function Decimal(n: nat): Text { (if n < 10 then [] else Decimal(n / 10)) + [48 + n % 10] }

  lemma {:induction false} DecimalReadsBack(n: nat)
    ensures var d := Decimal(n);
            && d != [] && (forall c | c in d :: '0' as int <= c <= '9' as int) && Number(d) == n
            && (d[0] == '0' as int ==> n == 0) && (n == 0 ==> |d| == 1)
  {
    var d := Decimal(n);
    if n >= 10 {
      DecimalReadsBack(n / 10);
      assert d[..|d| - 1] == Decimal(n / 10) && d[0] == Decimal(n / 10)[0];
    } else {
      assert d == [48 + n] && d[..0] == [];
    }
  }

  lemma DecimalStep(n: nat, d: nat)
    requires d < 10
    ensures Decimal(d) == [48 + d] && (n > 0 ==> Decimal(10 * n + d) == Decimal(n) + [48 + d])
  {
    var m := 10 * n + d;
    assert m / 10 == n && m % 10 == d;
    var none: Text := [];
    assert none + [48 + d] == [48 + d];
  }

  /** Decimal digits without a leading zero. */
  ghost predicate IsNumeral(key: Text) {
    key != [] && (forall c | c in key :: '0' as int <= c <= '9' as int) && (key[0] == '0' as int ==> |key| == 1)
  }

  lemma FrontIsNumeral(key: Text)
    requires IsNumeral(key) && |key| > 1
    ensures IsNumeral(key[..|key| - 1]) && key[..|key| - 1][0] != 48
  {
    var front := key[..|key| - 1];
    assert front[0] == key[0] && forall c | c in front :: c in key;
  }

  lemma NumeralIsPositive(key: Text)
    requires IsNumeral(key) && key[0] != 48
    ensures Number(key) > 0
  {
    hide Number;
    NumberBounds(key);
    PowerGrows(0, |key| - 1);
  }

  /** The last digit of a numeral and its number. */
  lemma LastDigit(key: Text) returns (d: nat)
    requires IsNumeral(key)
    ensures d < 10 && key != [] && key[|key| - 1] == 48 + d && Number(key) == 10 * Number(key[..|key| - 1]) + d
    ensures Number([]) == 0
  {
    var last: int := key[|key| - 1];
    assert key[|key| - 1] in key;
    d := last - 48;
  }

  lemma SplitLast(key: Text)
    requires key != []
    ensures key == key[..|key| - 1] + [key[|key| - 1]]
  {
  }

  /** A numeral is the decimal of its number. */
  lemma {:induction false} NumeralIsDecimal(key: Text)
    requires IsNumeral(key)
    ensures Number(key) >= 0 && key == Decimal(Number(key))
    decreases |key|
  {
    hide Decimal, Number, IsNumeral;
    var d := LastDigit(key);
    SplitLast(key);
    var front := key[..|key| - 1];
    if |key| == 1 {
      assert front == [];
      DecimalStep(0, d);
    } else {
      FrontIsNumeral(key);
      NumeralIsPositive(front);
      NumeralIsDecimal(front);
      DecimalStep(Number(front), d);
    }
  }

  lemma NumberOfPrefix(digits: Text, n: nat)
    requires n < |digits|
    ensures Number(digits[..0]) == 0
    ensures Number(digits[..n + 1]) == 10 * Number(digits[..n]) + digits[n] - 48
  {
    assert digits[..n + 1][..n] == digits[..n];
  }

  lemma MaximalIndex()
    ensures var max: Text := [52, 50, 57, 52, 57, 54, 55, 50, 57, 53];
            Number(max) == 0xFFFF_FFFF && forall c | c in max :: IsDigit(c)
    ensures Power(9) == 1_000_000_000 && Power(10) == 10_000_000_000
  {
    assert Power(5) == 100_000;
    var max: Text := [52, 50, 57, 52, 57, 54, 55, 50, 57, 53];
    hide Number;
    NumberOfPrefix(max, 0);
    NumberOfPrefix(max, 1);
    NumberOfPrefix(max, 2);
    NumberOfPrefix(max, 3);
    NumberOfPrefix(max, 4);
    NumberOfPrefix(max, 5);
    NumberOfPrefix(max, 6);
    NumberOfPrefix(max, 7);
    NumberOfPrefix(max, 8);
    NumberOfPrefix(max, 9);
    assert max[..10] == max;
  }

  /** The array indices are the decimals of the whole numbers below 2^32 - 1. */
  lemma ArrayIndexExactlyWhen(key: Text)
    ensures IsArrayIndex(key) <==> exists n: nat :: n < 0xFFFF_FFFF && key == Decimal(n)
  {
    MaximalIndex();
    if exists n: nat :: n < 0xFFFF_FFFF && key == Decimal(n) {
      var n: nat :| n < 0xFFFF_FFFF && key == Decimal(n);
      DecimalReadsBack(n);
    }
    if key != [] && (forall c | c in key :: IsDigit(c)) && (key[0] == 48 ==> |key| == 1) {
      NumeralIsDecimal(key);
      NumberBounds(key);
      if |key| < 10 {
        PowerGrows(|key|, 9);
      } else if |key| == 10 {
        SameLengthByText(key, [52, 50, 57, 52, 57, 54, 55, 50, 57, 53]);
      } else {
        PowerGrows(10, |key| - 1);
      }
    }
  }

  // ----- both orders are strict and total

  lemma {:induction false} TextLessTotal(a: Text, b: Text)
    ensures TextLess(a, b) || a == b || TextLess(b, a)
    ensures !(TextLess(a, b) && TextLess(b, a)) && !TextLess(a, a)
    decreases |a| + |b|
  {
    if a != [] && b != [] && a[0] == b[0] {
      TextLessTotal(a[1..], b[1..]);
      assert a == [a[0]] + a[1..] && b == [b[0]] + b[1..];
    }
    if a != [] {
      TextLessIrreflexive(a);
    }
  }

  lemma {:induction false} TextLessIrreflexive(a: Text)
    ensures !TextLess(a, a)
  {
    if a != [] {
      TextLessIrreflexive(a[1..]);
    }
  }

  lemma {:induction false} TextLessTransitive(a: Text, b: Text, c: Text)
    requires TextLess(a, b) && TextLess(b, c)
    ensures TextLess(a, c)
  {
    if a != [] && a[0] == b[0] == c[0] {
      TextLessTransitive(a[1..], b[1..], c[1..]);
    }
  }

  lemma EnumLessTotal(a: Text, b: Text)
    ensures EnumLess(a, b) || a == b || EnumLess(b, a)
    ensures !(EnumLess(a, b) && EnumLess(b, a)) && !EnumLess(a, a)
  {
    hide TextLess, IsArrayIndex;
    TextLessTotal(a, b);
  }

  lemma EnumLessTransitive(a: Text, b: Text, c: Text)
    requires EnumLess(a, b) && EnumLess(b, c)
    ensures EnumLess(a, c)
  {
    hide TextLess, IsArrayIndex;
    if TextLess(a, b) && TextLess(b, c) {
      TextLessTransitive(a, b, c);
    }
  }
}
