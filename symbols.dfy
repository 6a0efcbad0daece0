/** The symbol table of the calculator (`romanValues`): seven one-character
    symbols and their values, a constant that no call changes. */
module RomanSymbols {

  /** The dictionary from symbol to value. */
  const RomanValues: map<string, nat> :=
    map["I" := 1, "V" := 5, "X" := 10, "L" := 50, "C" := 100, "D" := 500, "M" := 1000]

  /** The dictionary's entries sorted by descending value, as the renderer
      walks them. */
  const SortedRomanValues: seq<(string, nat)> :=
    [("M", 1000), ("D", 500), ("C", 100), ("L", 50), ("X", 10), ("V", 5), ("I", 1)]

  /** A dictionary lookup that falls back to 0 for a key not in the table,
      including the empty string and every string longer than one character. */
  function Lookup(key: string): (v: nat)
    ensures v > 0 <==> key in RomanValues
  {
    if key in RomanValues then RomanValues[key] else 0
  }

  /** The value of a single character: the table entry of the one-character
      string it forms, 0 for a character outside the alphabet. */
  function CharValue(c: char): (v: nat)
    ensures v == Lookup([c])
    ensures v > 0 <==> c in "IVXLCDM"
  {
    assert [c] in RomanValues <==> c in "IVXLCDM" by {
      assert [c] == "I" <==> c == 'I';
      assert [c] == "V" <==> c == 'V';
      assert [c] == "X" <==> c == 'X';
      assert [c] == "L" <==> c == 'L';
      assert [c] == "C" <==> c == 'C';
      assert [c] == "D" <==> c == 'D';
      assert [c] == "M" <==> c == 'M';
    }
    match c
    case 'I' => 1
    case 'V' => 5
    case 'X' => 10
    case 'L' => 50
    case 'C' => 100
    case 'D' => 500
    case 'M' => 1000
    case _ => 0
  }

  /** Entry `k` of the sorted list is a one-character symbol with its
      dictionary value, which is positive. */
  lemma TableEntry(k: nat)
    requires k < |SortedRomanValues|
    ensures |SortedRomanValues[k].0| == 1 && SortedRomanValues[k].1 > 0
    ensures SortedRomanValues[k].0 in RomanValues && RomanValues[SortedRomanValues[k].0] == SortedRomanValues[k].1
    ensures CharValue(SortedRomanValues[k].0[0]) == SortedRomanValues[k].1
  {
    if k == 0 { assert SortedRomanValues[k] == ("M", 1000); }
    else if k == 1 { assert SortedRomanValues[k] == ("D", 500); }
    else if k == 2 { assert SortedRomanValues[k] == ("C", 100); }
    else if k == 3 { assert SortedRomanValues[k] == ("L", 50); }
    else if k == 4 { assert SortedRomanValues[k] == ("X", 10); }
    else if k == 5 { assert SortedRomanValues[k] == ("V", 5); }
    else { assert SortedRomanValues[k] == ("I", 1); }
  }

  /** The sorted list is strictly descending in value. */
  lemma TableDescending(i: nat, j: nat)
    requires i < j < |SortedRomanValues|
    ensures SortedRomanValues[i].1 > SortedRomanValues[j].1
  {
    assert SortedRomanValues[i].1 >= SortedRomanValues[j - 1].1 by {
      if j - 1 > i { TableDescending(i, j - 1); }
    }
    var k := j - 1;
    if k == 0 { assert SortedRomanValues[1].1 == 500; }
    else if k == 1 { assert SortedRomanValues[2].1 == 100; }
    else if k == 2 { assert SortedRomanValues[3].1 == 50; }
    else if k == 3 { assert SortedRomanValues[4].1 == 10; }
    else if k == 4 { assert SortedRomanValues[5].1 == 5; }
    else { assert SortedRomanValues[6].1 == 1; }
  }

  /** The sorted list holds exactly the dictionary's entries, in strictly
      descending order of value. */
  lemma SortedTableIsTheDictionary()
    ensures forall i | 0 <= i < |SortedRomanValues| ::
      SortedRomanValues[i].0 in RomanValues && RomanValues[SortedRomanValues[i].0] == SortedRomanValues[i].1
    ensures forall key | key in RomanValues ::
      exists i | 0 <= i < |SortedRomanValues| :: SortedRomanValues[i].0 == key
    ensures forall i, j | 0 <= i < j < |SortedRomanValues| :: SortedRomanValues[i].1 > SortedRomanValues[j].1
  {
    forall i | 0 <= i < |SortedRomanValues|
      ensures SortedRomanValues[i].0 in RomanValues && RomanValues[SortedRomanValues[i].0] == SortedRomanValues[i].1
    {
      TableEntry(i);
    }
    forall key | key in RomanValues
      ensures exists i | 0 <= i < |SortedRomanValues| :: SortedRomanValues[i].0 == key
    {
      var i := if key == "M" then 0 else if key == "D" then 1 else if key == "C" then 2
        else if key == "L" then 3 else if key == "X" then 4 else if key == "V" then 5 else 6;
      assert SortedRomanValues[i].0 == key;
    }
    forall i, j | 0 <= i < j < |SortedRomanValues|
      ensures SortedRomanValues[i].1 > SortedRomanValues[j].1
    {
      TableDescending(i, j);
    }
  }
}
