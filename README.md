# Roman calculator

A model of the `RomanCalculator` class of the Roman calculator kata, a Swift
playground. The calculator adds two numbers written as Roman numerals:

1. It reads each operand into an integer. A string of one character (or
   none) is looked up in the symbol table. A longer string is first checked
   against a pattern of forbidden runs and pairs, and returns 0 if one
   occurs. Otherwise it is accumulated left to right, and a symbol larger
   than the one before it subtracts that one twice.
2. It adds the two values.
3. It writes the total back as a numeral. A greedy decomposition takes the
   largest symbol that fits and recurses on the remainder. This gives an
   additive numeral such as `VIIII`. A pipeline of six rewrite rules then
   turns it into the subtractive form (`IX`).

The class has no mutable state. Its table is a constant, and each operation
is a function of its arguments. So the model has no class. It has one module
per concern:

- `Strings`: literal substring search, and the leftmost non-overlapping
  replace-all that a literal regular expression performs.
- `RomanSymbols`: the symbol table, and its sorted form.
- `RomanParsing`: `getNumericValue`, `parseCompositeValue` and
  `isValidComposition`.
- `RomanRendering`: `getRomanNumeral` and `formatRomanNumeral`.
- `RomanCalculator`: `sum`, the round trip, and the examples the source's
  tests check.

The source's three loops are methods with loop invariants:

- the accumulation of `parseCompositeValue`;
- the table walk of `getRomanNumeral`;
- the rule loop of `formatRomanNumeral`.

Each method is proved equal to a specification function (`Accumulated`,
`Additive`, `Format`), and the properties are proved about those functions.

Two independent reference definitions anchor the properties:

- `SubtractiveValue`: the classical reading, in which a symbol counts
  negatively when the next one is larger.
- `ClassicalNumeral`: the classical table-driven encoder, one group per
  decimal place.

The main results are:

- the validation pattern accepts exactly the strings that keep the local
  pairing and run rules: every adjacent pair is allowed, and no I, X or C
  occurs four times in a row. It does not limit repeats or order across the
  whole numeral, so VIV, IXX and XCL pass and read as 9, 19 and 140;
- the accumulation is the classical reading;
- the rewrite pipeline applied to the greedy numeral is the classical
  encoder;
- so `getNumericValue(getRomanNumeral(n)) == n` for every `n >= 1`, and
  `sum` returns the numeral of the sum of the two readings.

Some facts about the code that the model keeps:

- Malformed input reads as 0 (`Contents.swift` lines 48 and 52-53). It is
  not a typed error.
- The subtractive form comes from the six rewrite rules (lines 106-117), as
  written. `FormatAdditiveIsClassical` proves that applying them to the
  greedy numeral gives the same result as a place-by-place encoder.
- `getRomanNumeral` compares each table value with `value` rather than with
  `remainingValue`. The two are equal at every comparison, because the loop
  stops at the first match.

In the model, the round trip holds for every positive number, also above
3999: thousands are written as repeated `M`, and no rule limits the number
of `M`s.

## Model

| member | source | states |
|---|---|---|
| RomanSymbols.Lookup | RomanCalculatorKata.playground/Contents.swift:48 | a dictionary lookup that gives 0 for a missing key: the result is positive exactly when the key is one of the seven symbols |
| RomanSymbols.CharValue | RomanCalculatorKata.playground/Contents.swift:26-32 | a character's value is its table entry, positive exactly for I, V, X, L, C, D and M |
| RomanSymbols.SortedTableIsTheDictionary | RomanCalculatorKata.playground/Contents.swift:90 | the sorted list holds exactly the dictionary's entries, in strictly descending order of value |
| RomanParsing.IsValidComposition | RomanCalculatorKata.playground/Contents.swift:78-84 | definition: no forbidden alternative of the expression (the runs IIII, XXXX, CCCC, VV, LL, DD and the fifteen pairs) occurs anywhere in the string |
| RomanParsing.PairAllowedIff | RomanCalculatorKata.playground/Contents.swift:79 | two adjacent characters spell a forbidden two-character alternative exactly when they break the pairing rules: V, L or D doubled, or a smaller symbol before a larger one outside IV, IX, XL, XC, CD, CM |
| RomanParsing.NoMatchAtStartIff | RomanCalculatorKata.playground/Contents.swift:79-83 | no alternative matches at the first position exactly when the first pair is allowed and the string does not start with IIII, XXXX or CCCC |
| RomanParsing.ValidCompositionIffWellFormed | RomanCalculatorKata.playground/Contents.swift:78-84 | the rejecting expression finds no match in a string exactly when every adjacent pair is allowed and no I, X or C occurs four times in a row (both directions) |
| RomanParsing.Contribution | RomanCalculatorKata.playground/Contents.swift:62-70 | a character adds its value minus twice the previous value when it is larger than the previous one, and its own value otherwise; a previous value of 0 therefore always adds the character's own value, so the `previousValue > 0` guard changes nothing |
| RomanParsing.Accumulated | RomanCalculatorKata.playground/Contents.swift:56-75 | the running amount is never negative |
| RomanParsing.AccumulatedIsSubtractive | RomanCalculatorKata.playground/Contents.swift:56-75 | the left-to-right accumulation, with its correction of twice the previous value, equals the classical reading in which a symbol before a larger one counts negatively |
| RomanParsing.SubtractiveValueConcat | RomanCalculatorKata.playground/Contents.swift:62-70 | the reading of two numerals side by side is the sum of their readings when the first does not end below where the second starts |
| RomanParsing.NumericValue | RomanCalculatorKata.playground/Contents.swift:42-49 | the value read is 0 for a string longer than one character that breaks the composition rules, and the classical reading otherwise (a table lookup for one character, 0 for other single characters and for the empty string) |
| RomanParsing.GetNumericValue | RomanCalculatorKata.playground/Contents.swift:42-49 | returns `NumericValue` of its argument |
| RomanParsing.ParseCompositeValue | RomanCalculatorKata.playground/Contents.swift:51-76 | returns 0 when the composition check fails, and otherwise the left-to-right accumulation over all characters (loop invariant: the amount and previous value after each prefix) |
| RomanParsing.RepeatedFiveAccepted | RomanCalculatorKata.playground/Contents.swift:21-22 | VIV passes the composition check and reads as 9, although the rules allow at most one V, because the check looks only at adjacent symbols |
| RomanParsing.TenAfterNineAccepted | RomanCalculatorKata.playground/Contents.swift:79-83 | IXX passes the composition check and reads as 19: no forbidden pair or run of four occurs |
| RomanParsing.FiftyAfterNinetyAccepted | RomanCalculatorKata.playground/Contents.swift:79-83 | XCL passes the composition check and reads as 140: no forbidden pair or run of four occurs |
| RomanParsing.SingleSymbolValues | RomanCalculatorKata.playground/Contents.swift:134-155 | every table symbol reads as its value; the empty string and every other single character read as 0 |
| RomanParsing.CompositeExamples | RomanCalculatorKata.playground/Contents.swift:157-167 | IV reads as 4, IX as 9, XXX as 30 |
| RomanParsing.RejectedRuns | RomanCalculatorKata.playground/Contents.swift:169-176 | IIII, XXXXX and CCCC read as 0 |
| RomanParsing.RejectedPairs | RomanCalculatorKata.playground/Contents.swift:178-183 | XM and IM read as 0 |
| RomanRendering.Additive | RomanCalculatorKata.playground/Contents.swift:86-101 | the unformatted numeral: empty for a value of 0 or less, and otherwise the largest symbol not above the value followed by the numeral of the remainder |
| RomanRendering.AdditiveUnfold | RomanCalculatorKata.playground/Contents.swift:90-100 | when table entry k is the first whose value fits, the unformatted numeral is that entry's symbol followed by the numeral of the remainder |
| RomanRendering.AdditiveHead | RomanCalculatorKata.playground/Contents.swift:91-97 | the numeral of a positive value is non-empty, starts with a symbol that fits, and continues with the numeral of what remains |
| RomanRendering.LargestFitting | RomanCalculatorKata.playground/Contents.swift:90-91 | no symbol that fits is larger than the one the numeral starts with |
| RomanRendering.AdditiveSymbolSum | RomanCalculatorKata.playground/Contents.swift:86-101 | the symbols of the unformatted numeral add up to the value (0 for a value of 0 or less) |
| RomanRendering.AdditiveBounded | RomanCalculatorKata.playground/Contents.swift:90-100 | every symbol of the unformatted numeral is a table symbol no larger than the value |
| RomanRendering.AdditiveNonIncreasing | RomanCalculatorKata.playground/Contents.swift:90-100 | the symbols of the unformatted numeral never increase from left to right |
| RomanRendering.AdditiveClosedForm | RomanCalculatorKata.playground/Contents.swift:86-101 | the greedy numeral is M once per thousand, then per place the fives symbol for a digit of five or more and the ones symbol for the rest |
| RomanRendering.AdditiveSymbolCounts | RomanCalculatorKata.playground/Contents.swift:86-101 | exact symbol counts of the unformatted numeral: M is the thousands; D, L, V are digit / 5 and C, X, I are digit % 5 of their place |
| RomanRendering.AdditiveSymbolBounds | RomanCalculatorKata.playground/Contents.swift:86-101 | the unformatted numeral holds at most four of each of I, X, C and at most one of each of V, L, D |
| RomanRendering.GetRomanNumeral | RomanCalculatorKata.playground/Contents.swift:86-104 | returns the greedy numeral of the value, formatted when `formatResult` is true (loop invariant: every entry passed over is larger than the value) |
| RomanRendering.ApplyRules | RomanCalculatorKata.playground/Contents.swift:111-114 | running the rules with index k - 1 down to 0, each a replace-all of its wrong pattern by its correct one; the text never grows, since each replacement is shorter than its pattern |
| RomanRendering.Format | RomanCalculatorKata.playground/Contents.swift:106-117 | all six rules, from the last to the first; the formatted numeral is never longer than the unformatted one |
| RomanRendering.FormatUnfolds | RomanCalculatorKata.playground/Contents.swift:107-114 | the rules run from the last index to the first: DCCCC, CCCC, LXXXX, XXXX, VIIII, IIII, each a replace-all over the current text |
| RomanRendering.FormatRomanNumeral | RomanCalculatorKata.playground/Contents.swift:106-117 | the loop's result is the rules from the last to the first applied in turn (loop invariant: the rules still to run turn the current text into the final one) |
| RomanRendering.LongerRunFirst | RomanCalculatorKata.playground/Contents.swift:107-111 | DCCCC is formatted as CM, whereas running the CCCC rule first would have left DCD |
| RomanRendering.FormatDigits | RomanCalculatorKata.playground/Contents.swift:111-114 | each pair of rules rewrites only the decimal place whose symbols it spells, so the pipeline turns the greedy numeral of given digits into the classical one |
| RomanRendering.FormatAdditiveIsClassical | RomanCalculatorKata.playground/Contents.swift:103 | the formatted numeral of every value is the classical numeral written place by place (4 as IV, 9 as IX, and so on) |
| Strings.ReplaceAll | RomanCalculatorKata.playground/Contents.swift:112-113 | the leftmost, non-overlapping replace-all of a literal pattern; when the replacement is no longer than the pattern, the result is no longer than the text |
| Strings.ReplaceAllWithin | RomanCalculatorKata.playground/Contents.swift:112-113 | a replace-all changes only the part of the text where the pattern can match, and leaves the text before and after it as it was |
| RomanCalculator.Render | RomanCalculatorKata.playground/Contents.swift:86 | `getRomanNumeral(for:)` with its default `formatResult: true`: the formatted greedy numeral, which `GetRomanNumeral(value, true)` returns by its postcondition |
| RomanCalculator.ClassicalDigitsRead | RomanCalculatorKata.playground/Contents.swift:56-84 | the classical numeral of given digits satisfies the composition rules and reads back as 1000 a + 100 h + 10 t + o |
| RomanCalculator.RenderNonPositive | RomanCalculatorKata.playground/Contents.swift:87-103 | a value of 0 or less is written as the empty string |
| RomanCalculator.RoundTrip | RomanCalculatorKata.playground/Contents.swift:42-104 | for every n >= 1, the formatted numeral of n passes the composition check and reads back as n |
| RomanCalculator.Sum | RomanCalculatorKata.playground/Contents.swift:34-40 | returns the formatted numeral of the sum of the two readings: the empty string when that sum is 0, and otherwise a numeral that reads back as the sum |
| RomanCalculator.BelowHundredRendered | RomanCalculatorKata.playground/Contents.swift:86-104 | a number below one hundred is written as its tens group followed by its units group |
| RomanCalculator.RenderDigitExamples | RomanCalculatorKata.playground/Contents.swift:185-203 | 1, 4, 5 and 9 are written I, IV, V and IX |
| RomanCalculator.RenderThirty | RomanCalculatorKata.playground/Contents.swift:205-208 | 30 is written XXX |
| RomanCalculator.SumExampleOnes | RomanCalculatorKata.playground/Contents.swift:210-212 | I + I is II |
| RomanCalculator.SumExampleNine | RomanCalculatorKata.playground/Contents.swift:214-215 | IV + V is IX |
| RomanCalculator.SumExampleSeventyFour | RomanCalculatorKata.playground/Contents.swift:4 | XIV + LX is LXXIV |

## Left out

- The XCTest harness, the `UIKit` import and the playground's call to run the suite are left out. The test cases appear as the example lemmas instead.
- The regular-expression engine is not modelled. Both patterns are constant and made only of literals, alternatives and a trailing `+`. So a match exists exactly when one of the literals occurs (`Contains`), and a replace-all is the leftmost, non-overlapping scan `ReplaceAll`.
- `try!` is not modelled: the patterns are constant and valid, so it never fails.
- FormatRomanNumeral: matches case-sensitively, whereas the source's `.caseInsensitive` option would also rewrite lower-case runs. The formatter is private and only ever receives the upper-case output of the decomposition, where the two agree.
- Swift's `Int` overflow traps are not modelled: integers are unbounded. Sums of two readable numerals are far below the 64-bit range.
- Strings are sequences of characters. Swift's grapheme-cluster `count` and the UTF-16 lengths given to `NSRange` are not modelled. They agree with the character count for the Latin letters the calculator handles.
- The default argument `formatResult: true` is written out. `Render(value)` is `Format(Additive(value))`, which equals `GetRomanNumeral(value, true)` by that method's postcondition.
- The recursion depth of `getRomanNumeral` is not modelled. It recurses once per symbol after the first (lines 95-96), so a large value could exhaust the stack; the model's integers are unbounded and it has no stack.
- The dictionary's iteration order is not needed: the source sorts it before the walk. The sorted list is a constant, proved to hold exactly the dictionary's entries in descending order.
