/** Writing a number as a Roman numeral: the greedy additive decomposition of
    `getRomanNumeral` and the rewrite pipeline of `formatRomanNumeral`. */
module RomanRendering {
  import opened Strings
  import opened RomanSymbols

  // ---------------------------------------------------------------------
  // The greedy decomposition
  // ---------------------------------------------------------------------

  /** The sum of the symbol values of `s`, each counted positively. */
  function SymbolSum(s: string): int
    decreases |s|
  {
    if s == [] then 0 else CharValue(s[0]) + SymbolSum(s[1..])
  }

  /** The unformatted numeral (`getRomanNumeral(for:formatResult: false)`):
      the largest symbol that fits, followed by the numeral of what remains;
      a value of 0 or less gives the empty string. The symbols are tried in
      the table's descending order (`AdditiveUnfold` ties this to the
      table). */
  function Additive(value: int): (r: string)
    ensures value <= 0 ==> r == ""
    decreases value
  {
    if value <= 0 then ""
    else if value >= 1000 then "M" + Additive(value - 1000)
    else if value >= 500 then "D" + Additive(value - 500)
    else if value >= 100 then "C" + Additive(value - 100)
    else if value >= 50 then "L" + Additive(value - 50)
    else if value >= 10 then "X" + Additive(value - 10)
    else if value >= 5 then "V" + Additive(value - 5)
    else "I" + Additive(value - 1)
  }

  /** Entry `k` of the sorted table is the one the decomposition picks for
      `m` when its value fits and the value of the entry before it does not:
      the numeral is that entry's symbol followed by the numeral of what
      remains. */
  lemma AdditiveUnfold(m: int, k: nat)
    requires k < |SortedRomanValues| && SortedRomanValues[k].1 <= m
    requires k == 0 || m < SortedRomanValues[k - 1].1
    ensures Additive(m) == SortedRomanValues[k].0 + Additive(m - SortedRomanValues[k].1)
  {
    if k == 0 { assert SortedRomanValues[0] == ("M", 1000); }
    else if k == 1 { assert SortedRomanValues[0].1 == 1000 && SortedRomanValues[1] == ("D", 500); }
    else if k == 2 { assert SortedRomanValues[1].1 == 500 && SortedRomanValues[2] == ("C", 100); }
    else if k == 3 { assert SortedRomanValues[2].1 == 100 && SortedRomanValues[3] == ("L", 50); }
    else if k == 4 { assert SortedRomanValues[3].1 == 50 && SortedRomanValues[4] == ("X", 10); }
    else if k == 5 { assert SortedRomanValues[4].1 == 10 && SortedRomanValues[5] == ("V", 5); }
    else { assert SortedRomanValues[5].1 == 5 && SortedRomanValues[6] == ("I", 1); }
  }

  /** The numeral of a positive value starts with a symbol that fits, and
      the rest is the numeral of what remains. */
  lemma AdditiveHead(value: int)
    requires value > 0
    ensures Additive(value) != []
    ensures 0 < CharValue(Additive(value)[0]) <= value
    ensures Additive(value)[1..] == Additive(value - CharValue(Additive(value)[0]))
  {
  }

  /** No symbol that fits is larger than the one the numeral starts with. */
  lemma LargestFitting(value: int, c: char)
    requires 0 < CharValue(c) <= value
    ensures CharValue(c) <= CharValue(Additive(value)[0])
  {
  }

  /** The symbols of the unformatted numeral add up to the value. */
  lemma {:induction false} AdditiveSymbolSum(value: int)
    ensures SymbolSum(Additive(value)) == if value <= 0 then 0 else value
    decreases value
  {
    if value > 0 {
      AdditiveHead(value);
      AdditiveSymbolSum(value - CharValue(Additive(value)[0]));
    }
  }

  /** Every symbol of the unformatted numeral is a table symbol no larger
      than the value. */
  lemma {:induction false} AdditiveBounded(value: int)
    ensures forall i | 0 <= i < |Additive(value)| :: 0 < CharValue(Additive(value)[i]) <= value
    decreases value
  {
    if value > 0 {
      var r := Additive(value);
      AdditiveHead(value);
      var rest := value - CharValue(r[0]);
      AdditiveBounded(rest);
      forall i | 0 < i < |r| ensures 0 < CharValue(r[i]) <= value {
        assert r[i] == Additive(rest)[i - 1];
      }
    }
  }

  /** The symbols of the unformatted numeral never increase from left to
      right. */
  lemma {:induction false} AdditiveNonIncreasing(value: int)
    ensures forall i | 0 < i < |Additive(value)| :: CharValue(Additive(value)[i - 1]) >= CharValue(Additive(value)[i])
    decreases value
  {
    if value > 0 {
      var r := Additive(value);
      AdditiveHead(value);
      var rest := value - CharValue(r[0]);
      AdditiveNonIncreasing(rest);
      if |r| > 1 {
        AdditiveBounded(rest);
        assert r[1] == Additive(rest)[0];
        LargestFitting(value, r[1]);
      }
      forall i | 1 < i < |r| ensures CharValue(r[i - 1]) >= CharValue(r[i]) {
        assert r[i] == Additive(rest)[i - 1] && r[i - 1] == Additive(rest)[i - 2];
      }
    }
  }

  /** The symbols of one decimal place, unformatted: `five` once for a digit
      of five or more, then `one` for what is left. */
  function AdditiveDigit(one: char, five: char, d: nat): (r: string)
    ensures forall c | c in r :: c == one || c == five
  {
    Repeat([five], d / 5) + Repeat([one], d % 5)
  }

  /** The unformatted numeral of the number with `a` thousands and the
      digits `h`, `t`, `o`: the thousands as M, then one group per decimal
      place. */
  function DigitsNumeral(a: nat, h: nat, t: nat, o: nat): string {
    Repeat("M", a) + AdditiveDigit('C', 'D', h) + AdditiveDigit('X', 'L', t) + AdditiveDigit('I', 'V', o)
  }

  /** The unformatted numeral of `n` by its thousands and decimal digits. */
  function AdditiveNumeral(n: nat): string {
    DigitsNumeral(n / 1000, n / 100 % 10, n / 10 % 10, n % 10)
  }

  /** Dividing by ten twice is dividing by a hundred. */
  lemma DivideByTenTwice(n: nat)
    ensures n / 10 / 10 == n / 100
  {
    var q1 := n / 10;
    var q2 := q1 / 10;
    assert n == 10 * q1 + n % 10 && q1 == 10 * q2 + q1 % 10;
    assert n == 100 * q2 + (10 * (q1 % 10) + n % 10);
  }

  /** Dividing by a hundred and then by ten is dividing by a thousand. */
  lemma DivideByHundredThenTen(n: nat)
    ensures n / 100 / 10 == n / 1000
  {
    var q2 := n / 100;
    var q3 := q2 / 10;
    assert n == 100 * q2 + n % 100 && q2 == 10 * q3 + q2 % 10;
    assert n == 1000 * q3 + (100 * (q2 % 10) + n % 100);
  }

  /** `n` in thousands and three decimal digits. */
  lemma DecimalDigits(n: nat)
    ensures n == 1000 * (n / 1000) + 100 * (n / 100 % 10) + 10 * (n / 10 % 10) + n % 10
  {
    var q1, q2, q3 := n / 10, n / 100, n / 1000;
    DivideByTenTwice(n);
    DivideByHundredThenTen(n);
    assert n == 10 * q1 + n % 10;
    assert q1 == 10 * q2 + q1 % 10;
    assert q2 == 10 * q3 + q2 % 10;
  }

  /** Taking the largest symbol off a group leaves the group of the digit
      that remains. */
  lemma AdditiveDigitStep(one: char, five: char, d: nat)
    requires 1 <= d <= 9
    ensures AdditiveDigit(one, five, d) ==
      if d >= 5 then [five] + AdditiveDigit(one, five, d - 5) else [one] + AdditiveDigit(one, five, d - 1)
  {
    if d >= 5 {
      assert Repeat([five], 1) == [five] + Repeat([five], 0);
      assert d % 5 == (d - 5) % 5;
    } else {
      assert Repeat([one], d) == [one] + Repeat([one], d - 1);
    }
  }

  /** With thousands left, an M comes off the front of `DigitsNumeral`. */
  lemma DigitsNumeralThousands(a: nat, h: nat, t: nat, o: nat)
    requires a > 0
    ensures DigitsNumeral(a, h, t, o) == "M" + DigitsNumeral(a - 1, h, t, o)
  {
    assert Repeat("M", a) == "M" + Repeat("M", a - 1);
  }

  /** Below a thousand, D or C comes off the front. */
  lemma DigitsNumeralHundreds(h: nat, t: nat, o: nat)
    requires 1 <= h <= 9
    ensures DigitsNumeral(0, h, t, o) ==
      if h >= 5 then "D" + DigitsNumeral(0, h - 5, t, o) else "C" + DigitsNumeral(0, h - 1, t, o)
  {
    AdditiveDigitStep('C', 'D', h);
  }

  /** Below a hundred, L or X comes off the front. */
  lemma DigitsNumeralTens(t: nat, o: nat)
    requires 1 <= t <= 9
    ensures DigitsNumeral(0, 0, t, o) ==
      if t >= 5 then "L" + DigitsNumeral(0, 0, t - 5, o) else "X" + DigitsNumeral(0, 0, t - 1, o)
  {
    AdditiveDigitStep('X', 'L', t);
  }

  /** Below ten, V or I comes off the front. */
  lemma DigitsNumeralUnits(o: nat)
    requires 1 <= o <= 9
    ensures DigitsNumeral(0, 0, 0, o) ==
      if o >= 5 then "V" + DigitsNumeral(0, 0, 0, o - 5) else "I" + DigitsNumeral(0, 0, 0, o - 1)
  {
    AdditiveDigitStep('I', 'V', o);
  }

  /** One step of the decomposition below ten: V or I comes off the front
      of both sides. */
  lemma UnitsStepV(o: nat)
    requires 5 <= o <= 9 && Additive(o - 5) == DigitsNumeral(0, 0, 0, o - 5)
    ensures Additive(o) == DigitsNumeral(0, 0, 0, o)
  {
    DigitsNumeralUnits(o);
  }

  lemma UnitsStepI(o: nat)
    requires 1 <= o <= 4 && Additive(o - 1) == DigitsNumeral(0, 0, 0, o - 1)
    ensures Additive(o) == DigitsNumeral(0, 0, 0, o)
  {
    DigitsNumeralUnits(o);
  }

  /** Below ten, the decomposition is the units group. */
  lemma {:induction false} UnitsDecomposition(o: nat)
    requires o <= 9
    ensures Additive(o) == DigitsNumeral(0, 0, 0, o)
    decreases o
  {
    if o >= 5 {
      UnitsDecomposition(o - 5);
      UnitsStepV(o);
    } else if o > 0 {
      UnitsDecomposition(o - 1);
      UnitsStepI(o);
    }
  }

  /** One step of the decomposition below a hundred: L or X comes off the
      front of both sides. */
  lemma TensStepL(t: nat, o: nat)
    requires 5 <= t <= 9 && o <= 9
    requires Additive(10 * (t - 5) + o) == DigitsNumeral(0, 0, t - 5, o)
    ensures Additive(10 * t + o) == DigitsNumeral(0, 0, t, o)
  {
    DigitsNumeralTens(t, o);
  }

  lemma TensStepX(t: nat, o: nat)
    requires 1 <= t <= 4 && o <= 9
    requires Additive(10 * (t - 1) + o) == DigitsNumeral(0, 0, t - 1, o)
    ensures Additive(10 * t + o) == DigitsNumeral(0, 0, t, o)
  {
    DigitsNumeralTens(t, o);
  }

  /** Below a hundred, the decomposition is the tens group followed by the
      units group. */
  lemma {:induction false} TensDecomposition(t: nat, o: nat)
    requires t <= 9 && o <= 9
    ensures Additive(10 * t + o) == DigitsNumeral(0, 0, t, o)
    decreases t
  {
    if t == 0 {
      assert 10 * t + o == o;
      UnitsDecomposition(o);
    } else if t >= 5 {
      TensDecomposition(t - 5, o);
      TensStepL(t, o);
    } else {
      TensDecomposition(t - 1, o);
      TensStepX(t, o);
    }
  }

  /** One step of the decomposition below a thousand: D or C comes off the
      front of both sides. */
  lemma HundredsStepD(h: nat, t: nat, o: nat)
    requires 5 <= h <= 9 && t <= 9 && o <= 9
    requires Additive(100 * (h - 5) + 10 * t + o) == DigitsNumeral(0, h - 5, t, o)
    ensures Additive(100 * h + 10 * t + o) == DigitsNumeral(0, h, t, o)
  {
    DigitsNumeralHundreds(h, t, o);
  }

  lemma HundredsStepC(h: nat, t: nat, o: nat)
    requires 1 <= h <= 4 && t <= 9 && o <= 9
    requires Additive(100 * (h - 1) + 10 * t + o) == DigitsNumeral(0, h - 1, t, o)
    ensures Additive(100 * h + 10 * t + o) == DigitsNumeral(0, h, t, o)
  {
    DigitsNumeralHundreds(h, t, o);
  }

  /** Below a thousand, the decomposition is one group per decimal place. */
  lemma {:induction false} HundredsDecomposition(h: nat, t: nat, o: nat)
    requires h <= 9 && t <= 9 && o <= 9
    ensures Additive(100 * h + 10 * t + o) == DigitsNumeral(0, h, t, o)
    decreases h
  {
    if h == 0 {
      assert 100 * h + 10 * t + o == 10 * t + o;
      TensDecomposition(t, o);
    } else if h >= 5 {
      HundredsDecomposition(h - 5, t, o);
      HundredsStepD(h, t, o);
    } else {
      HundredsDecomposition(h - 1, t, o);
      HundredsStepC(h, t, o);
    }
  }

  /** One step of the decomposition with thousands left: M comes off the
      front of both sides. */
  lemma ThousandsStepM(a: nat, h: nat, t: nat, o: nat)
    requires a >= 1 && h <= 9 && t <= 9 && o <= 9
    requires Additive(1000 * (a - 1) + 100 * h + 10 * t + o) == DigitsNumeral(a - 1, h, t, o)
    ensures Additive(1000 * a + 100 * h + 10 * t + o) == DigitsNumeral(a, h, t, o)
  {
    DigitsNumeralThousands(a, h, t, o);
  }

  /** The decomposition of a number given by its thousands and digits is
      `DigitsNumeral` of them. */
  lemma {:induction false} DigitsDecomposition(a: nat, h: nat, t: nat, o: nat)
    requires h <= 9 && t <= 9 && o <= 9
    ensures Additive(1000 * a + 100 * h + 10 * t + o) == DigitsNumeral(a, h, t, o)
    decreases a
  {
    if a == 0 {
      assert 1000 * a + 100 * h + 10 * t + o == 100 * h + 10 * t + o;
      HundredsDecomposition(h, t, o);
    } else {
      DigitsDecomposition(a - 1, h, t, o);
      ThousandsStepM(a, h, t, o);
    }
  }

  /** The greedy decomposition has the closed form `AdditiveNumeral`. */
  lemma AdditiveClosedForm(n: nat)
    ensures Additive(n) == AdditiveNumeral(n)
  {
    DecimalDigits(n);
    DigitsDecomposition(n / 1000, n / 100 % 10, n / 10 % 10, n % 10);
  }

  /** How many times `c` occurs among `k` copies of `[s]`. */
  lemma {:induction false} RepeatCount(s: char, k: nat, c: char)
    ensures multiset(Repeat([s], k))[c] == if c == s then k else 0
  {
    if k > 0 {
      RepeatCount(s, k - 1, c);
    }
  }

  /** How many times `c` occurs in the group of one decimal place. */
  lemma DigitCount(one: char, five: char, d: nat, c: char)
    requires one != five
    ensures multiset(AdditiveDigit(one, five, d))[c] ==
      (if c == five then d / 5 else 0) + (if c == one then d % 5 else 0)
  {
    RepeatCount(five, d / 5, c);
    RepeatCount(one, d % 5, c);
  }

  /** How many times `c` occurs in `DigitsNumeral`. */
  lemma DigitsNumeralCount(a: nat, h: nat, t: nat, o: nat, c: char)
    ensures multiset(DigitsNumeral(a, h, t, o))[c] ==
      if c == 'M' then a
      else if c == 'D' then h / 5 else if c == 'C' then h % 5
      else if c == 'L' then t / 5 else if c == 'X' then t % 5
      else if c == 'V' then o / 5 else if c == 'I' then o % 5
      else 0
  {
    RepeatCount('M', a, c);
    DigitCount('C', 'D', h, c);
    DigitCount('X', 'L', t, c);
    DigitCount('I', 'V', o, c);
  }

  /** The unformatted numeral of `n` holds one M per thousand and, for each
      decimal digit, its fives symbol `digit / 5` times and its ones symbol
      `digit % 5` times. */
  lemma AdditiveSymbolCounts(n: nat, c: char)
    ensures multiset(Additive(n))[c] ==
      if c == 'M' then n / 1000
      else if c == 'D' then n / 100 % 10 / 5 else if c == 'C' then n / 100 % 10 % 5
      else if c == 'L' then n / 10 % 10 / 5 else if c == 'X' then n / 10 % 10 % 5
      else if c == 'V' then n % 10 / 5 else if c == 'I' then n % 10 % 5
      else 0
  {
    AdditiveClosedForm(n);
    DigitsNumeralCount(n / 1000, n / 100 % 10, n / 10 % 10, n % 10, c);
  }

  /** At most four of each of I, X and C and at most one of each of V, L and
      D: only M repeats without bound. */
  lemma AdditiveSymbolBounds(n: nat, c: char)
    ensures c in "IXC" ==> multiset(Additive(n))[c] <= 4
    ensures c in "VLD" ==> multiset(Additive(n))[c] <= 1
  {
    AdditiveSymbolCounts(n, c);
  }

  /** `getRomanNumeral(for:formatResult:)`: scan the sorted table for the
      first symbol that fits, emit it, render the remainder unformatted, and
      format the whole when asked to. */
  method GetRomanNumeral(value: int, formatResult: bool) returns (romanNumeral: string)
    ensures romanNumeral == if formatResult then Format(Additive(value)) else Additive(value)
    decreases if value > 0 then value else 0
  {
    romanNumeral := "";
    var remainingValue := value;
    for i := 0 to |SortedRomanValues|
      invariant forall j | 0 <= j < i :: SortedRomanValues[j].1 > value
      invariant romanNumeral == "" && remainingValue == value
    {
      var (romanValue, numericValue) := SortedRomanValues[i];
      if value >= numericValue {
        TableEntry(i);
        AdditiveUnfold(value, i);
        romanNumeral := romanNumeral + romanValue;
        remainingValue := remainingValue - numericValue;
        if remainingValue > 0 {
          var rest := GetRomanNumeral(remainingValue, false);
          romanNumeral := romanNumeral + rest;
        } else {
          assert romanNumeral == romanValue + Additive(remainingValue);
        }
        assert romanNumeral == Additive(value) && romanNumeral != "";
        break;
      }
    }
    if romanNumeral == "" {
      assert SortedRomanValues[6].1 > value;
      assert romanNumeral == Additive(value);
    }
    assert romanNumeral == Additive(value);
    if formatResult {
      romanNumeral := FormatRomanNumeral(romanNumeral);
    }
  }

  // ---------------------------------------------------------------------
  // Subtractive formatting
  // ---------------------------------------------------------------------

  /** The additive runs the formatter rewrites ... */
  const WrongPattern: seq<string> := ["IIII", "VIIII", "XXXX", "LXXXX", "CCCC", "DCCCC"]

  /** ... and what each becomes. */
  const CorrectPattern: seq<string> := ["IV", "IX", "XL", "XC", "CD", "CM"]

  /** Applies the rules with index `k - 1` down to 0, in that order. Each
      rule replaces a run by something shorter, so the text never grows. */
  function ApplyRules(s: string, k: nat): (t: string)
    requires k <= |WrongPattern|
    ensures |t| <= |s|
    decreases k
  {
    if k == 0 then s
    else
      assert |WrongPattern[k - 1]| >= 4;
      ApplyRules(ReplaceAll(s, WrongPattern[k - 1], CorrectPattern[k - 1]), k - 1)
  }

  /** `formatRomanNumeral`: every rule, from the last to the first. */
  function Format(romanNumeral: string): (formatted: string)
    ensures |formatted| <= |romanNumeral|
  {
    ApplyRules(romanNumeral, |WrongPattern|)
  }

  /** The order in which the rules run. */
  lemma FormatUnfolds(s: string)
    ensures Format(s) ==
      ReplaceAll(ReplaceAll(ReplaceAll(ReplaceAll(ReplaceAll(ReplaceAll(s,
        "DCCCC", "CM"), "CCCC", "CD"), "LXXXX", "XC"), "XXXX", "XL"), "VIIII", "IX"), "IIII", "IV")
  {
    var s1 := ReplaceAll(s, "DCCCC", "CM");
    var s2 := ReplaceAll(s1, "CCCC", "CD");
    var s3 := ReplaceAll(s2, "LXXXX", "XC");
    var s4 := ReplaceAll(s3, "XXXX", "XL");
    var s5 := ReplaceAll(s4, "VIIII", "IX");
    assert ApplyRules(s, 6) == ApplyRules(s1, 5);
    assert ApplyRules(s1, 5) == ApplyRules(s2, 4);
    assert ApplyRules(s2, 4) == ApplyRules(s3, 3);
    assert ApplyRules(s3, 3) == ApplyRules(s4, 2);
    assert ApplyRules(s4, 2) == ApplyRules(s5, 1);
  }

  /** The formatter's loop: the rules from the last index down to the first,
      each a replace-all over the current text. */
  method FormatRomanNumeral(romanNumeral: string) returns (formattedValue: string)
    ensures formattedValue == Format(romanNumeral)
  {
    formattedValue := romanNumeral;
    var index := |WrongPattern| - 1;
    while index >= 0
      invariant -1 <= index < |WrongPattern|
      invariant ApplyRules(formattedValue, index + 1) == Format(romanNumeral)
    {
      assert |WrongPattern[index]| >= 4;
      formattedValue := ReplaceAll(formattedValue, WrongPattern[index], CorrectPattern[index]);
      index := index - 1;
    }
  }

  /** The longer run is rewritten first, so DCCCC becomes CM; rewriting CCCC
      first would have left DCD. */
  lemma LongerRunFirst()
    ensures Format("DCCCC") == "CM"
    ensures ReplaceAll("DCCCC", "CCCC", "CD") == "DCD"
  {
    FormatUnfolds("DCCCC");
  }

  // ---------------------------------------------------------------------
  // The classical numeral
  // ---------------------------------------------------------------------

  /** One decimal place written classically: four and nine are subtractive
      pairs, every other digit is written additively. */
  function ClassicalDigit(one: char, five: char, ten: char, d: nat): (r: string)
    ensures forall c | c in r :: c == one || c == five || c == ten
  {
    if d == 4 then [one, five]
    else if d == 9 then [one, ten]
    else AdditiveDigit(one, five, d)
  }

  /** The classical numeral of the number with `a` thousands and the digits
      `h`, `t`, `o`, place by place. */
  function ClassicalDigits(a: nat, h: nat, t: nat, o: nat): string {
    Repeat("M", a) + ClassicalDigit('C', 'D', 'M', h) + ClassicalDigit('X', 'L', 'C', t) + ClassicalDigit('I', 'V', 'X', o)
  }

  /** The classical numeral of `n`: a table-driven encoder independent of the
      rewrite pipeline. */
  function ClassicalNumeral(n: nat): string {
    ClassicalDigits(n / 1000, n / 100 % 10, n / 10 % 10, n % 10)
  }

  /** `k` copies of a single character have length `k`. */
  lemma {:induction false} RepeatLength(c: char, k: nat)
    ensures |Repeat([c], k)| == k
  {
    if k > 0 {
      RepeatLength(c, k - 1);
    }
  }

  /** The two rules of one decimal place, the nines rule and then the fours
      rule, turn its additive group into its classical form. */
  lemma PlaceRewrites(one: char, five: char, ten: char, d: nat)
    requires one != five && d <= 9
    ensures ReplaceAll(ReplaceAll(AdditiveDigit(one, five, d), [five, one, one, one, one], [one, ten]), [one, one, one, one], [one, five])
      == ClassicalDigit(one, five, ten, d)
  {
    var nines, fours := [five, one, one, one, one], [one, one, one, one];
    var ones := Repeat([one], d % 5);
    RepeatLength(one, d % 5);
    if d < 4 {
      assert AdditiveDigit(one, five, d) == ones;
    } else if d == 4 {
      RepeatFour(one);
      assert AdditiveDigit(one, five, d) == fours;
      assert ReplaceAll(fours, fours, [one, five]) == [one, five] + ReplaceAll([], fours, [one, five]);
    } else if d < 9 {
      assert Repeat([five], 1) == [five];
      assert AdditiveDigit(one, five, d) == [five] + ones;
      ReplaceAllSkips([five], ones, fours, [one, five]);
    } else {
      RepeatFour(one);
      assert Repeat([five], 1) == [five];
      assert AdditiveDigit(one, five, d) == nines;
      assert ReplaceAll(nines, nines, [one, ten]) == [one, ten] + ReplaceAll([], nines, [one, ten]);
    }
  }

  /** Four copies of a character. */
  lemma RepeatFour(c: char)
    ensures Repeat([c], 4) == [c, c, c, c]
  {
    assert Repeat([c], 2) == [c, c] by {
      assert Repeat([c], 1) == [c];
    }
    assert Repeat([c], 3) == [c] + [c, c];
  }

  /** The rules of one place act on its group alone, given the symbols
      around it. */
  lemma PlaceFormats(x: string, one: char, five: char, ten: char, d: nat, y: string)
    requires one != five && d <= 9
    requires one !in x && five !in x
    requires forall c | c in y :: c != one && c != five
    ensures ReplaceAll(ReplaceAll(x + AdditiveDigit(one, five, d) + y, [five, one, one, one, one], [one, ten]), [one, one, one, one], [one, five])
      == x + ClassicalDigit(one, five, ten, d) + y
  {
    var nines, fours := [five, one, one, one, one], [one, one, one, one];
    var m := AdditiveDigit(one, five, d);
    ReplaceAllWithin(x, m, y, nines, [one, ten]);
    ReplaceAllWithin(x, ReplaceAll(m, nines, [one, ten]), y, fours, [one, five]);
    PlaceRewrites(one, five, ten, d);
  }

  /** The hundreds rules rewrite the hundreds group alone. */
  lemma FormatHundreds(a: nat, h: nat, t: nat, o: nat)
    requires h <= 9
    ensures ReplaceAll(ReplaceAll(DigitsNumeral(a, h, t, o), "DCCCC", "CM"), "CCCC", "CD") ==
      Repeat("M", a) + ClassicalDigit('C', 'D', 'M', h) + (AdditiveDigit('X', 'L', t) + AdditiveDigit('I', 'V', o))
  {
    var ms, tens, units := Repeat("M", a), AdditiveDigit('X', 'L', t), AdditiveDigit('I', 'V', o);
    assert DigitsNumeral(a, h, t, o) == ms + AdditiveDigit('C', 'D', h) + (tens + units);
    PlaceFormats(ms, 'C', 'D', 'M', h, tens + units);
  }

  /** The tens rules rewrite the tens group alone. */
  lemma FormatTens(x: string, t: nat, o: nat)
    requires t <= 9 && 'X' !in x && 'L' !in x
    ensures ReplaceAll(ReplaceAll(x + (AdditiveDigit('X', 'L', t) + AdditiveDigit('I', 'V', o)), "LXXXX", "XC"), "XXXX", "XL") ==
      x + ClassicalDigit('X', 'L', 'C', t) + AdditiveDigit('I', 'V', o)
  {
    var units := AdditiveDigit('I', 'V', o);
    assert x + (AdditiveDigit('X', 'L', t) + units) == x + AdditiveDigit('X', 'L', t) + units;
    PlaceFormats(x, 'X', 'L', 'C', t, units);
  }

  /** The units rules rewrite the units group alone. */
  lemma FormatUnits(x: string, o: nat)
    requires o <= 9 && 'I' !in x && 'V' !in x
    ensures ReplaceAll(ReplaceAll(x + AdditiveDigit('I', 'V', o), "VIIII", "IX"), "IIII", "IV") ==
      x + ClassicalDigit('I', 'V', 'X', o)
  {
    var units := AdditiveDigit('I', 'V', o);
    assert x + units == x + units + "";
    PlaceFormats(x, 'I', 'V', 'X', o, "");
    assert x + ClassicalDigit('I', 'V', 'X', o) + "" == x + ClassicalDigit('I', 'V', 'X', o);
  }

  /** The rewrite pipeline turns the unformatted numeral of given digits
      into the classical one: each pair of rules acts only on the decimal
      place whose symbols it spells. */
  lemma FormatDigits(a: nat, h: nat, t: nat, o: nat)
    requires h <= 9 && t <= 9 && o <= 9
    ensures Format(DigitsNumeral(a, h, t, o)) == ClassicalDigits(a, h, t, o)
  {
    var ms := Repeat("M", a);
    var hundreds', tens' := ClassicalDigit('C', 'D', 'M', h), ClassicalDigit('X', 'L', 'C', t);
    FormatUnfolds(DigitsNumeral(a, h, t, o));
    FormatHundreds(a, h, t, o);
    FormatTens(ms + hundreds', t, o);
    FormatUnits(ms + hundreds' + tens', o);
  }

  /** The formatted numeral of every value is its classical numeral. */
  lemma FormatAdditiveIsClassical(n: nat)
    ensures Format(Additive(n)) == ClassicalNumeral(n)
  {
    AdditiveClosedForm(n);
    FormatDigits(n / 1000, n / 100 % 10, n / 10 % 10, n % 10);
  }
}
