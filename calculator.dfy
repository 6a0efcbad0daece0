/** The calculator's public operations: `sum`, and `getRomanNumeral` with
    its default of formatting the result; and the round trip between
    reading and writing. */
module RomanCalculator {
  import opened Strings
  import opened RomanSymbols
  import opened RomanParsing
  import opened RomanRendering

  /** `getRomanNumeral(for: value)` with its default `formatResult: true`:
      the formatted numeral of `value`, which `GetRomanNumeral(value, true)`
      returns by its postcondition. */
  function Render(value: int): string {
    Format(Additive(value))
  }

  // ---------------------------------------------------------------------
  // Reading the classical numeral back
  // ---------------------------------------------------------------------

  /** `k` copies of one symbol read as `k` times its value. */
  lemma {:induction false} RepeatValue(c: char, k: nat)
    ensures SubtractiveValue(Repeat([c], k)) == k * CharValue(c)
  {
    if k > 0 {
      var v, rest := CharValue(c), Repeat([c], k - 1);
      RepeatValue(c, k - 1);
      assert Repeat([c], k) == [c] + rest;
      SubtractiveValueConcat([c], rest);
      assert SubtractiveValue([c]) == v;
      assert k * v == v + (k - 1) * v;
    }
  }

  /** Up to three copies of I, X or C (or of M) are well formed. */
  lemma {:induction false} RepeatWellFormed(c: char, k: nat)
    requires c !in "VLD" && (k <= 3 || c == 'M')
    ensures WellFormed(Repeat([c], k))
  {
    if k > 0 {
      RepeatWellFormed(c, k - 1);
      var rest := Repeat([c], k - 1);
      assert Repeat([c], k) == [c] + rest;
      if k > 1 {
        assert rest == [c] + Repeat([c], k - 2);
      }
    }
  }

  /** Two well-formed numerals side by side are well formed when the first
      ends with a larger symbol than the one the second starts with. */
  lemma {:induction false} WellFormedConcat(x: string, y: string)
    requires WellFormed(x) && WellFormed(y)
    requires x != [] && y != [] ==> CharValue(x[|x| - 1]) > CharValue(y[0]) > 0
    ensures WellFormed(x + y)
    decreases |x|
  {
    if x == [] {
      assert x + y == y;
    } else if y == [] {
      assert x + y == x;
    } else {
      var s := x + y;
      assert s[1..] == x[1..] + y;
      WellFormedConcat(x[1..], y);
      if |x| == 1 {
        assert s[1] == y[0];
      } else {
        assert s[1] == x[1];
        if |x| < 4 && |s| >= 4 {
          // a run of four would have to cross from x into y
          assert s[|x| - 1] == x[|x| - 1] && s[|x|] == y[0];
        } else if |x| >= 4 {
          assert s[..4] == x[..4];
        }
      }
    }
  }

  /** The relations between the three symbols of a decimal place. */
  predicate PlaceSymbols(one: char, five: char, ten: char) {
    CharValue(one) > 0 && CharValue(five) == 5 * CharValue(one) && CharValue(ten) == 10 * CharValue(one)
    && one !in "VLD" && [one, five] in SubtractivePairs && [one, ten] in SubtractivePairs
  }

  /** A fives symbol followed by `k` ones symbols reads as `5 + k` units. */
  lemma FiveAndOnesValue(one: char, five: char, k: nat)
    requires 0 < CharValue(one) && CharValue(five) == 5 * CharValue(one)
    ensures SubtractiveValue([five] + Repeat([one], k)) == (5 + k) * CharValue(one)
  {
    var u := CharValue(one);
    var ones := Repeat([one], k);
    RepeatValue(one, k);
    if ones != [] {
      assert ones[0] == one by {
        assert ones[0] in ones;
      }
    }
    SubtractiveValueConcat([five], ones);
    assert SubtractiveValue([five]) == 5 * u;
    assert (5 + k) * u == 5 * u + k * u;
  }

  /** The classical form of a digit reads as the digit times the place's
      unit. */
  lemma ClassicalDigitValue(one: char, five: char, ten: char, d: nat)
    requires PlaceSymbols(one, five, ten) && d <= 9
    ensures SubtractiveValue(ClassicalDigit(one, five, ten, d)) == d * CharValue(one)
  {
    if d == 4 {
      assert SubtractiveValue([one, five]) == 4 * CharValue(one);
    } else if d == 9 {
      assert SubtractiveValue([one, ten]) == 9 * CharValue(one);
    } else if d < 5 {
      RepeatValue(one, d);
      assert ClassicalDigit(one, five, ten, d) == Repeat([one], d);
    } else {
      FiveAndOnesValue(one, five, d - 5);
      assert Repeat([five], 1) == [five];
      assert ClassicalDigit(one, five, ten, d) == [five] + Repeat([one], d - 5);
    }
  }

  /** The classical form of a digit is well formed. */
  lemma ClassicalDigitWellFormed(one: char, five: char, ten: char, d: nat)
    requires PlaceSymbols(one, five, ten) && d <= 9
    ensures WellFormed(ClassicalDigit(one, five, ten, d))
  {
    var ones := Repeat([one], d % 5);
    if d == 4 || d == 9 {
    } else if d < 5 {
      RepeatWellFormed(one, d % 5);
      assert ClassicalDigit(one, five, ten, d) == ones;
    } else {
      RepeatWellFormed(one, d % 5);
      assert Repeat([five], 1) == [five];
      assert ClassicalDigit(one, five, ten, d) == [five] + ones;
      if ones != [] {
        assert ones[0] in ones;
      }
      WellFormedConcat([five], ones);
    }
  }

  /** A place's group starts with a symbol of at most five units and ends
      with one of at least one unit. */
  lemma ClassicalDigitBounds(one: char, five: char, ten: char, d: nat)
    requires PlaceSymbols(one, five, ten) && d <= 9
    ensures var g := ClassicalDigit(one, five, ten, d);
      g != [] ==> CharValue(one) <= CharValue(g[0]) <= 5 * CharValue(one) && CharValue(g[|g| - 1]) >= CharValue(one)
  {
    var g := ClassicalDigit(one, five, ten, d);
    if g != [] {
      assert g[|g| - 1] in g;
      if d != 4 && d != 9 {
        var ones := Repeat([one], d % 5);
        if ones != [] {
          assert ones == [one] + Repeat([one], d % 5 - 1);
        }
        if d >= 5 {
          assert Repeat([five], 1) == [five];
          assert g == [five] + ones;
        }
      }
    }
  }

  /** A place's group before the groups of the lower places: the values
      add up, the whole stays well formed, and it starts with a symbol of at
      most five of the place's units. */
  lemma PlaceBeforeLower(one: char, five: char, ten: char, d: nat, lower: string)
    requires PlaceSymbols(one, five, ten) && d <= 9
    requires WellFormed(lower) && (lower != [] ==> 0 < CharValue(lower[0]) < CharValue(one))
    ensures var s := ClassicalDigit(one, five, ten, d) + lower;
      SubtractiveValue(s) == d * CharValue(one) + SubtractiveValue(lower) && WellFormed(s) &&
      (s != [] ==> 0 < CharValue(s[0]) <= 5 * CharValue(one))
  {
    var g := ClassicalDigit(one, five, ten, d);
    ClassicalDigitValue(one, five, ten, d);
    ClassicalDigitWellFormed(one, five, ten, d);
    ClassicalDigitBounds(one, five, ten, d);
    SubtractiveValueConcat(g, lower);
    WellFormedConcat(g, lower);
    if g == [] {
      assert g + lower == lower;
    } else {
      assert (g + lower)[0] == g[0];
    }
  }

  /** The units group alone. */
  lemma UnitsRead(o: nat)
    requires o <= 9
    ensures var s := ClassicalDigit('I', 'V', 'X', o);
      SubtractiveValue(s) == o && WellFormed(s) && (s != [] ==> 0 < CharValue(s[0]) <= 5)
  {
    assert PlaceSymbols('I', 'V', 'X');
    PlaceBeforeLower('I', 'V', 'X', o, []);
    assert ClassicalDigit('I', 'V', 'X', o) + [] == ClassicalDigit('I', 'V', 'X', o);
  }

  /** Reading the tens and units groups side by side. */
  lemma TensAndUnitsRead(t: nat, o: nat)
    requires t <= 9 && o <= 9
    ensures var s := ClassicalDigit('X', 'L', 'C', t) + ClassicalDigit('I', 'V', 'X', o);
      SubtractiveValue(s) == 10 * t + o && WellFormed(s) &&
      (s != [] ==> 0 < CharValue(s[0]) <= 50)
  {
    assert PlaceSymbols('X', 'L', 'C');
    UnitsRead(o);
    PlaceBeforeLower('X', 'L', 'C', t, ClassicalDigit('I', 'V', 'X', o));
  }

  /** Reading the hundreds group before the lower places. */
  lemma BelowThousandRead(h: nat, t: nat, o: nat)
    requires h <= 9 && t <= 9 && o <= 9
    ensures var s := ClassicalDigit('C', 'D', 'M', h) + (ClassicalDigit('X', 'L', 'C', t) + ClassicalDigit('I', 'V', 'X', o));
      SubtractiveValue(s) == 100 * h + 10 * t + o && WellFormed(s) &&
      (s != [] ==> 0 < CharValue(s[0]) <= 500)
  {
    assert PlaceSymbols('C', 'D', 'M');
    TensAndUnitsRead(t, o);
    PlaceBeforeLower('C', 'D', 'M', h, ClassicalDigit('X', 'L', 'C', t) + ClassicalDigit('I', 'V', 'X', o));
  }

  /** The thousands, written as repeated M, read as 1000 times their number
      and are well formed. */
  lemma ThousandsRead(a: nat)
    ensures var ms := Repeat("M", a);
      SubtractiveValue(ms) == 1000 * a && WellFormed(ms) && (ms != [] ==> CharValue(ms[|ms| - 1]) == 1000)
  {
    var ms := Repeat("M", a);
    assert "M" == ['M'];
    RepeatValue('M', a);
    assert CharValue('M') == 1000;
    RepeatWellFormed('M', a);
    if ms != [] {
      assert ms[|ms| - 1] in ms;
    }
  }

  /** The thousands before the lower places. */
  lemma ThousandsBeforeLower(a: nat, lower: string)
    requires WellFormed(lower) && (lower != [] ==> 0 < CharValue(lower[0]) < 1000)
    ensures SubtractiveValue(Repeat("M", a) + lower) == 1000 * a + SubtractiveValue(lower)
    ensures WellFormed(Repeat("M", a) + lower)
  {
    ThousandsRead(a);
    SubtractiveValueConcat(Repeat("M", a), lower);
    WellFormedConcat(Repeat("M", a), lower);
  }

  /** The classical numeral of given digits reads back as the number and
      satisfies the composition rules. */
  lemma ClassicalDigitsRead(a: nat, h: nat, t: nat, o: nat)
    requires h <= 9 && t <= 9 && o <= 9
    ensures SubtractiveValue(ClassicalDigits(a, h, t, o)) == 1000 * a + 100 * h + 10 * t + o
    ensures WellFormed(ClassicalDigits(a, h, t, o))
  {
    var ms, hundreds, tens, units := Repeat("M", a), ClassicalDigit('C', 'D', 'M', h), ClassicalDigit('X', 'L', 'C', t), ClassicalDigit('I', 'V', 'X', o);
    var lower := hundreds + (tens + units);
    ConcatAssociative(hundreds, tens, units);
    ConcatAssociative(ms, hundreds + tens, units);
    ConcatAssociative(ms, hundreds, tens);
    assert ClassicalDigits(a, h, t, o) == ms + lower;
    BelowThousandRead(h, t, o);
    ThousandsBeforeLower(a, lower);
  }

  /** The formatted numeral of a negative value or zero is empty. */
  lemma RenderNonPositive(value: int)
    requires value <= 0
    ensures Render(value) == ""
  {
    FormatUnfolds("");
  }

  /** The round trip: for every positive number, the formatted numeral
      satisfies the composition rules and reads back as the number. It
      holds for all positive numbers, the thousands being written as
      repeated M. */
  lemma RoundTrip(n: int)
    requires n >= 1
    ensures |Render(n)| > 1 ==> IsValidComposition(Render(n))
    ensures NumericValue(Render(n)) == n
  {
    FormatAdditiveIsClassical(n);
    DecimalDigits(n);
    ClassicalDigitsRead(n / 1000, n / 100 % 10, n / 10 % 10, n % 10);
    ValidCompositionIffWellFormed(Render(n));
  }

  // ---------------------------------------------------------------------
  // sum
  // ---------------------------------------------------------------------

  /** `sum`: read both numerals, add the values, write the total as a
      formatted numeral. A total of zero (both operands unreadable or
      empty) gives the empty string; any other total reads back as itself. */
  method Sum(romanNumeral1: string, romanNumeral2: string) returns (result: string)
    ensures result == Render(NumericValue(romanNumeral1) + NumericValue(romanNumeral2))
    ensures NumericValue(romanNumeral1) + NumericValue(romanNumeral2) == 0 ==> result == ""
    ensures NumericValue(romanNumeral1) + NumericValue(romanNumeral2) > 0 ==>
      NumericValue(result) == NumericValue(romanNumeral1) + NumericValue(romanNumeral2)
  {
    var value1 := GetNumericValue(romanNumeral1);
    var value2 := GetNumericValue(romanNumeral2);
    var total := value1 + value2;
    result := GetRomanNumeral(total, true);
    if total > 0 {
      RoundTrip(total);
    } else {
      RenderNonPositive(total);
    }
  }

  // ---------------------------------------------------------------------
  // The source's examples
  // ---------------------------------------------------------------------

  /** The classical numeral of a number below one hundred is its tens group
      followed by its units group. */
  lemma BelowHundredClassical(n: nat)
    requires n < 100
    ensures ClassicalNumeral(n) == ClassicalDigit('X', 'L', 'C', n / 10) + ClassicalDigit('I', 'V', 'X', n % 10)
  {
    var t, o := n / 10, n % 10;
    assert n / 1000 == 0 && n / 100 == 0 && t < 10 by {
      assert n == 10 * t + o;
    }
    assert n / 100 % 10 == 0 && t % 10 == t;
    var tens, units := ClassicalDigit('X', 'L', 'C', t), ClassicalDigit('I', 'V', 'X', o);
    assert Repeat("M", 0) == [];
    assert ClassicalDigit('C', 'D', 'M', 0) == [];
    assert ClassicalNumeral(n) == [] + [] + tens + units;
    assert [] + [] + tens + units == tens + units;
  }

  /** A number below one hundred is rendered as its tens group and its units
      group. */
  lemma BelowHundredRendered(n: int)
    requires 0 <= n < 100
    ensures Render(n) == ClassicalDigit('X', 'L', 'C', n / 10) + ClassicalDigit('I', 'V', 'X', n % 10)
  {
    FormatAdditiveIsClassical(n);
    BelowHundredClassical(n);
  }

  /** The single-digit numerals the source's tests expect: I, IV, V and IX. */
  lemma RenderDigitExamples()
    ensures Render(1) == "I" && Render(4) == "IV" && Render(5) == "V" && Render(9) == "IX"
  {
    assert ClassicalDigit('X', 'L', 'C', 0) == [];
    BelowHundredRendered(1);
    assert ClassicalDigit('I', 'V', 'X', 1) == "I";
    BelowHundredRendered(4);
    BelowHundredRendered(5);
    assert ClassicalDigit('I', 'V', 'X', 5) == "V" by {
      assert Repeat("V", 1) == "V";
    }
    BelowHundredRendered(9);
  }

  /** Thirty is XXX. */
  lemma RenderThirty()
    ensures Render(30) == "XXX"
  {
    BelowHundredRendered(30);
    assert ClassicalDigit('I', 'V', 'X', 0) == [];
    assert ClassicalDigit('X', 'L', 'C', 3) == "XXX" by {
      assert Repeat("X", 3) == "XXX";
    }
  }

  /** I + I is II. */
  lemma SumExampleOnes()
    ensures Render(NumericValue("I") + NumericValue("I")) == "II"
  {
    assert NumericValue("I") + NumericValue("I") == 2;
    BelowHundredRendered(2);
    assert ClassicalDigit('X', 'L', 'C', 0) == [];
    assert ClassicalDigit('I', 'V', 'X', 2) == "II" by {
      assert Repeat("I", 2) == "II";
    }
  }

  /** IV + V is IX. */
  lemma SumExampleNine()
    ensures Render(NumericValue("IV") + NumericValue("V")) == "IX"
  {
    CompositeExamples();
    assert NumericValue("IV") + NumericValue("V") == 9;
    BelowHundredRendered(9);
    assert ClassicalDigit('X', 'L', 'C', 0) == [];
  }

  /** The first operand of the third sum example reads as 14. */
  lemma FourteenOperand()
    ensures NumericValue("XIV") == 14
  {
    ValidCompositionIffWellFormed("XIV");
  }

  /** The second operand of the third sum example reads as 60. */
  lemma SixtyOperand()
    ensures NumericValue("LX") == 60
  {
    ValidCompositionIffWellFormed("LX");
  }

  /** XIV + LX is LXXIV. */
  lemma SumExampleSeventyFour()
    ensures Render(NumericValue("XIV") + NumericValue("LX")) == "LXXIV"
  {
    FourteenOperand();
    SixtyOperand();
    BelowHundredRendered(74);
    assert ClassicalDigit('X', 'L', 'C', 7) == "LXX" by {
      assert Repeat("L", 1) == "L" && Repeat("X", 2) == "XX";
    }
  }
}
