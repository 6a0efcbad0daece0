/** Reading a Roman numeral: the composition check and the left-to-right
    accumulation of `getNumericValue` and `parseCompositeValue`. */
module RomanParsing {
  import opened Strings
  import opened RomanSymbols

  // ---------------------------------------------------------------------
  // Composition rules
  // ---------------------------------------------------------------------

  /** The runs the rejecting regular expression forbids. `IIII+` matches
      somewhere exactly when `IIII` occurs, so each run is searched as a
      literal. */
  const ForbiddenRuns: seq<string> := ["IIII", "XXXX", "CCCC"]

  /** The two-character alternatives of the rejecting expression (`VV+`
      matches exactly when `VV` occurs, and likewise for `LL+` and `DD+`). */
  const ForbiddenPairs: seq<string> :=
    ["VV", "LL", "DD", "IL", "IC", "ID", "IM", "VX", "VL", "VC", "VD", "VM", "XD", "XM", "LC", "LD", "LM", "DM"]

  /** All alternatives: the expression finds a match exactly when one of
      these literals occurs. */
  const ForbiddenPatterns: seq<string> := ForbiddenRuns + ForbiddenPairs

  /** `isValidComposition`: the rejecting expression finds no match. */
  predicate IsValidComposition(composition: string) {
    forall p | p in ForbiddenPatterns :: !Contains(composition, p)
  }

  /** The six pairs in which a smaller symbol may stand before a larger one. */
  const SubtractivePairs: seq<string> := ["IV", "IX", "XL", "XC", "CD", "CM"]

  /** The classical rules for two adjacent characters: V, L and D are never
      doubled, and a symbol stands before a larger symbol only in one of the
      six subtractive pairs. */
  predicate PairAllowed(a: char, b: char) {
    (a == b ==> a !in "VLD") &&
    (0 < CharValue(a) < CharValue(b) ==> [a, b] in SubtractivePairs)
  }

  /** `s` starts with I, X or C four times in a row. */
  predicate FourInARowAtStart(s: string) {
    |s| >= 4 && s[0] in "IXC" && s[1] == s[0] && s[2] == s[0] && s[3] == s[0]
  }

  /** The local pairing and run rules, read position by position: every
      adjacent pair is allowed and no I, X or C appears four times in a row.
      They do not limit repeats or order across the whole numeral: a V may
      occur twice if something stands between the two
      (`RepeatedFiveAccepted`). */
  predicate WellFormed(s: string)
    decreases |s|
  {
    |s| < 2 || (PairAllowed(s[0], s[1]) && !FourInARowAtStart(s) && WellFormed(s[1..]))
  }

  /** The forbidden pairs that start with a given character: what follows it
      in them. */
  lemma ForbiddenAfter(a: char, b: char)
    ensures a == b ==> ([a, b] in ForbiddenPairs <==> a in "VLD")
    ensures a != b && a == 'I' ==> ([a, b] in ForbiddenPairs <==> b in "LCDM")
    ensures a != b && a == 'V' ==> ([a, b] in ForbiddenPairs <==> b in "XLCDM")
  {
  }

  lemma ForbiddenAfterLarger(a: char, b: char)
    ensures a != b && a == 'X' ==> ([a, b] in ForbiddenPairs <==> b in "DM")
    ensures a != b && a == 'L' ==> ([a, b] in ForbiddenPairs <==> b in "CDM")
    ensures a != b && a == 'D' ==> ([a, b] in ForbiddenPairs <==> b == 'M')
    ensures a != b && a !in "IVXLD" ==> [a, b] !in ForbiddenPairs
  {
  }

  /** Two adjacent characters break the pairing rules exactly when they spell
      one of the two-character forbidden patterns. */
  lemma PairAllowedIff(a: char, b: char)
    ensures PairAllowed(a, b) <==> [a, b] !in ForbiddenPairs
  {
    ForbiddenAfter(a, b);
    ForbiddenAfterLarger(a, b);
  }

  /** At the first position, the forbidden patterns and the classical rules
      agree. */
  lemma {:induction false} NoMatchAtStartIff(s: string)
    requires |s| >= 2
    ensures (forall p | p in ForbiddenPatterns :: !OccursAt(s, p, 0))
        <==> PairAllowed(s[0], s[1]) && !FourInARowAtStart(s)
  {
    assert s[..2] == [s[0], s[1]];
    forall p | p in ForbiddenPairs
      ensures OccursAt(s, p, 0) <==> p == [s[0], s[1]]
    {
      assert |p| == 2;
    }
    PairAllowedIff(s[0], s[1]);
    if |s| >= 4 {
      assert s[..4] == [s[0], s[1], s[2], s[3]];
    }
    forall p | p in ForbiddenRuns
      ensures OccursAt(s, p, 0) <==> FourInARowAtStart(s) && s[0] == p[0]
    {
      assert |p| == 4;
    }
  }

  /** The forbidden-pattern check is exactly the local pairing and run
      rules: no I, X or C four times in a row, no V, L or D twice in a row,
      and a smaller symbol before a larger one only as IV, IX, XL, XC, CD or
      CM. */
  lemma {:induction false} ValidCompositionIffWellFormed(s: string)
    ensures IsValidComposition(s) <==> WellFormed(s)
    decreases |s|
  {
    if |s| < 2 {
      forall p | p in ForbiddenPatterns ensures !Contains(s, p) {
        assert |p| >= 2;
      }
    } else {
      forall p | p in ForbiddenPatterns
        ensures Contains(s, p) <==> OccursAt(s, p, 0) || Contains(s[1..], p)
      {
        ContainsUncons(s, p);
      }
      NoMatchAtStartIff(s);
      ValidCompositionIffWellFormed(s[1..]);
    }
  }

  // ---------------------------------------------------------------------
  // Accumulation
  // ---------------------------------------------------------------------

  /** What one character adds to the running amount, given the value of the
      character before it (0 before the first character or after an unknown
      one): its own value, or, when it is larger than its predecessor, its
      value minus twice the predecessor's, which turns the predecessor's
      earlier addition into a subtraction. */
  function Contribution(previousValue: nat, numericValue: nat): (r: int)
    ensures r == if previousValue < numericValue then numericValue - 2 * previousValue else numericValue
  {
    if previousValue > 0 then
      (if previousValue >= numericValue then numericValue else numericValue - 2 * previousValue)
    else numericValue
  }

  /** The value of the last character read (`previousValue` after `s`). */
  function LastValue(s: string): nat {
    if s == [] then 0 else CharValue(s[|s| - 1])
  }

  /** The amount after reading `s` from left to right. It is never negative:
      among the table's values a larger symbol is always at least twice the
      smaller one before it. */
  function Accumulated(s: string): (amount: int)
    ensures amount >= 0
    decreases |s|
  {
    if s == [] then 0
    else
      var prefix := s[..|s| - 1];
      Accumulated(prefix) + Contribution(LastValue(prefix), CharValue(s[|s| - 1]))
  }

  /** The classical reading of a numeral, independent of the parser: every
      symbol counts with its value, negated when the next symbol is larger. */
  function SubtractiveValue(s: string): int
    decreases |s|
  {
    if s == [] then 0
    else
      var v: int := CharValue(s[0]);
      (if |s| > 1 && v < CharValue(s[1]) then -v else v) + SubtractiveValue(s[1..])
  }

  /** Appending a character to the classical reading. */
  lemma {:induction false} SubtractiveValueSnoc(p: string, c: char)
    ensures SubtractiveValue(p + [c]) == SubtractiveValue(p) + Contribution(LastValue(p), CharValue(c))
    decreases |p|
  {
    if p == [] {
      assert p + [c] == [c];
    } else {
      assert (p + [c])[1..] == p[1..] + [c];
      SubtractiveValueSnoc(p[1..], c);
      if |p| > 1 {
        assert LastValue(p[1..]) == LastValue(p);
      }
    }
  }

  /** The single left-to-right pass computes the classical reading. */
  lemma {:induction false} AccumulatedIsSubtractive(s: string)
    ensures Accumulated(s) == SubtractiveValue(s)
    decreases |s|
  {
    if s != [] {
      var prefix := s[..|s| - 1];
      assert s == prefix + [s[|s| - 1]];
      AccumulatedIsSubtractive(prefix);
      SubtractiveValueSnoc(prefix, s[|s| - 1]);
    }
  }

  /** The classical reading of two numerals put side by side is the sum of
      their readings when the first does not end below where the second
      starts. */
  lemma {:induction false} SubtractiveValueConcat(x: string, y: string)
    requires x == [] || y == [] || CharValue(x[|x| - 1]) >= CharValue(y[0])
    ensures SubtractiveValue(x + y) == SubtractiveValue(x) + SubtractiveValue(y)
    decreases |x|
  {
    if x == [] {
      assert x + y == y;
    } else if y == [] {
      assert x + y == x;
    } else {
      assert (x + y)[1..] == x[1..] + y;
      SubtractiveValueConcat(x[1..], y);
    }
  }

  // ---------------------------------------------------------------------
  // getNumericValue and parseCompositeValue
  // ---------------------------------------------------------------------

  /** The value `getNumericValue` yields for `romanValue`: 0 for a string
      longer than one character that breaks the composition rules, the
      classical reading for any other string. */
  function NumericValue(romanValue: string): (value: nat)
    ensures |romanValue| > 1 && !IsValidComposition(romanValue) ==> value == 0
    ensures |romanValue| <= 1 || IsValidComposition(romanValue) ==> value == SubtractiveValue(romanValue)
  {
    AccumulatedIsSubtractive(romanValue);
    if |romanValue| > 1 then
      (if IsValidComposition(romanValue) then Accumulated(romanValue) else 0)
    else
      assert |romanValue| == 1 ==> romanValue == [romanValue[0]];
      Lookup(romanValue)
  }

  /** `getNumericValue`: a string of one character (or none) is looked up in
      the table; a longer one is parsed as a composition. */
  method GetNumericValue(romanValue: string) returns (value: int)
    ensures value == NumericValue(romanValue)
    decreases if |romanValue| > 1 then 2 else 0
  {
    if |romanValue| > 1 {
      value := ParseCompositeValue(romanValue);
      return;
    }
    value := Lookup(romanValue);
  }

  /** `parseCompositeValue`: 0 for a string that breaks the composition
      rules, otherwise the left-to-right accumulation over its characters. */
  method ParseCompositeValue(romanValue: string) returns (amount: int)
    ensures amount == if IsValidComposition(romanValue) then Accumulated(romanValue) else 0
    decreases 1
  {
    if !IsValidComposition(romanValue) {
      return 0;
    }
    amount := 0;
    var previousValue := 0;
    for i := 0 to |romanValue|
      invariant amount == Accumulated(romanValue[..i])
      invariant previousValue == LastValue(romanValue[..i])
    {
      var numericValue := GetNumericValue([romanValue[i]]);
      if previousValue > 0 {
        if previousValue >= numericValue {
          amount := amount + numericValue;
        } else {
          amount := amount + numericValue - 2 * previousValue;
        }
      } else {
        amount := amount + numericValue;
      }
      previousValue := numericValue;
      assert romanValue[..i + 1][..i] == romanValue[..i];
    }
    assert romanValue[..|romanValue|] == romanValue;
  }

  /** A single symbol reads as its table value; the empty string and any
      other single character read as 0. */
  lemma SingleSymbolValues()
    ensures forall i | 0 <= i < |SortedRomanValues| :: NumericValue(SortedRomanValues[i].0) == SortedRomanValues[i].1
    ensures NumericValue("") == 0
    ensures forall c :: c !in "IVXLCDM" ==> NumericValue([c]) == 0
  {
    SortedTableIsTheDictionary();
  }

  /** Compositions the source's tests read. */
  lemma CompositeExamples()
    ensures NumericValue("IV") == 4 && NumericValue("IX") == 9 && NumericValue("XXX") == 30
  {
    ValidCompositionIffWellFormed("IV");
    ValidCompositionIffWellFormed("IX");
    ValidCompositionIffWellFormed("XXX");
  }

  /** VIV passes the check although V repeats, and reads as 9. */
  lemma RepeatedFiveAccepted()
    ensures IsValidComposition("VIV") && NumericValue("VIV") == 9
  {
    ValidCompositionIffWellFormed("VIV");
  }

  /** IXX passes the check although X follows a subtraction from X, and
      reads as 19. */
  lemma TenAfterNineAccepted()
    ensures IsValidComposition("IXX") && NumericValue("IXX") == 19
  {
    ValidCompositionIffWellFormed("IXX");
  }

  /** XCL passes the check although L follows a subtraction from C, and
      reads as 140. */
  lemma FiftyAfterNinetyAccepted()
    ensures IsValidComposition("XCL") && NumericValue("XCL") == 140
  {
    ValidCompositionIffWellFormed("XCL");
  }

  /** Compositions the source's tests reject for too many repeats. */
  lemma RejectedRuns()
    ensures NumericValue("IIII") == 0 && NumericValue("XXXXX") == 0 && NumericValue("CCCC") == 0
  {
    ValidCompositionIffWellFormed("IIII");
    ValidCompositionIffWellFormed("XXXXX");
    ValidCompositionIffWellFormed("CCCC");
  }

  /** Compositions the source's tests reject for a smaller symbol before a
      much larger one. */
  lemma RejectedPairs()
    ensures NumericValue("XM") == 0 && NumericValue("IM") == 0
  {
    ValidCompositionIffWellFormed("XM");
    ValidCompositionIffWellFormed("IM");
  }
}
