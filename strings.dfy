/** String operations the calculator takes from the platform: literal
    substring search (a regular expression made only of literals and
    alternatives) and replace-all of a literal pattern. */
module Strings {

  /** `p` occurs in `s` starting at index `i`. */
  predicate OccursAt(s: string, p: string, i: nat) {
    i + |p| <= |s| && s[i..i + |p|] == p
  }

  /** `p` occurs somewhere in `s` (a search for `p` finds a first match). */
  predicate Contains(s: string, p: string) {
    exists i: nat | i <= |s| :: OccursAt(s, p, i)
  }

  /** `s` repeated `k` times. */
  function Repeat(s: string, k: nat): (r: string)
    ensures forall c :: c in r ==> c in s
  {
    if k == 0 then "" else s + Repeat(s, k - 1)
  }

  /** Replaces every occurrence of `p` in `s` by `r`, scanning left to right
      and never letting two replaced occurrences overlap; this is what a
      replace-all with a literal pattern does. */
  function ReplaceAll(s: string, p: string, r: string): (t: string)
    requires |p| > 0
    ensures |r| <= |p| ==> |t| <= |s|
    decreases |s|
  {
    if |s| < |p| then s
    else if s[..|p|] == p then r + ReplaceAll(s[|p|..], p, r)
    else [s[0]] + ReplaceAll(s[1..], p, r)
  }

  /** Whether a match exists can be decided one position at a time. */
  lemma {:induction false} ContainsUncons(s: string, p: string)
    requires |s| > 0
    ensures Contains(s, p) <==> OccursAt(s, p, 0) || Contains(s[1..], p)
  {
    if Contains(s, p) && !OccursAt(s, p, 0) {
      var i: nat :| i <= |s| && OccursAt(s, p, i);
      assert i > 0;
      assert s[1..][i - 1..i - 1 + |p|] == s[i..i + |p|];
      assert OccursAt(s[1..], p, i - 1);
    }
    if Contains(s[1..], p) {
      var i: nat :| i <= |s[1..]| && OccursAt(s[1..], p, i);
      assert i + 1 + |p| <= |s|;
      assert s[i + 1..i + 1 + |p|] == s[1..][i..i + |p|];
      assert OccursAt(s, p, i + 1);
    }
  }

  /** A string that does not even contain the first character of `p` is
      followed unchanged by the leftmost scan, and the scan then continues
      on what comes after it. */
  lemma {:induction false} ReplaceAllSkips(x: string, z: string, p: string, r: string)
    requires |p| > 0 && p[0] !in x
    ensures ReplaceAll(x + z, p, r) == x + ReplaceAll(z, p, r)
  {
    if x == [] {
      assert x + z == z;
    } else if |x + z| < |p| {
      assert |z| < |p|;
    } else {
      assert (x + z)[0] == x[0] != p[0];
      assert (x + z)[..|p|] != p;
      assert (x + z)[1..] == x[1..] + z;
      ReplaceAllSkips(x[1..], z, p, r);
    }
  }

  /** When `m` starts with the pattern, both replace-alls start with a
      replacement. */
  lemma ReplaceAllMatchStep(m: string, y: string, p: string, r: string)
    requires |p| > 0 && |m| >= |p| && m[..|p|] == p
    ensures ReplaceAll(m + y, p, r) == r + ReplaceAll(m[|p|..] + y, p, r)
    ensures ReplaceAll(m, p, r) == r + ReplaceAll(m[|p|..], p, r)
  {
    assert (m + y)[..|p|] == p;
    assert (m + y)[|p|..] == m[|p|..] + y;
  }

  /** When `m` does not start with the pattern and the pattern cannot reach
      into `y`, both replace-alls keep the first character. */
  lemma ReplaceAllSkipStep(m: string, y: string, p: string, r: string)
    requires |p| > 0 && m != [] && |m + y| >= |p|
    requires !(|m| >= |p| && m[..|p|] == p)
    requires forall c :: c in y ==> c !in p
    ensures ReplaceAll(m + y, p, r) == [m[0]] + ReplaceAll(m[1..] + y, p, r)
    ensures ReplaceAll(m, p, r) == [m[0]] + ReplaceAll(m[1..], p, r)
  {
    if |m| < |p| {
      // an occurrence at the start would have to reach into y
      assert (m + y)[..|p|] != p by {
        assert (m + y)[..|p|][|m|] == y[0] && y[0] in y;
      }
    } else {
      assert (m + y)[..|p|] == m[..|p|];
    }
    assert (m + y)[1..] == m[1..] + y;
  }

  /** Concatenation is associative. */
  lemma ConcatAssociative(a: string, b: string, c: string)
    ensures a + (b + c) == (a + b) + c
  {
  }

  /** No occurrence of `p` can reach into a string none of whose
      characters occurs in `p`. */
  lemma {:induction false} ReplaceAllKeeps(m: string, y: string, p: string, r: string)
    requires |p| > 0
    requires forall c :: c in y ==> c !in p
    ensures ReplaceAll(m + y, p, r) == ReplaceAll(m, p, r) + y
  {
    if m == [] {
      assert m + y == y + [];
      assert p[0] !in y by { assert p[0] in p; }
      ReplaceAllSkips(y, [], p, r);
    } else if |m + y| < |p| {
    } else if |m| >= |p| && m[..|p|] == p {
      ReplaceAllMatchStep(m, y, p, r);
      ReplaceAllKeeps(m[|p|..], y, p, r);
      ConcatAssociative(r, ReplaceAll(m[|p|..], p, r), y);
    } else {
      ReplaceAllSkipStep(m, y, p, r);
      ReplaceAllKeeps(m[1..], y, p, r);
      ConcatAssociative([m[0]], ReplaceAll(m[1..], p, r), y);
    }
  }

  /** A replace-all touches only the part of the text where the pattern can
      match: the part before it lacks the pattern's first character and the
      part after it shares no character with the pattern. */
  lemma ReplaceAllWithin(x: string, m: string, y: string, p: string, r: string)
    requires |p| > 0 && p[0] !in x
    requires forall c :: c in y ==> c !in p
    ensures ReplaceAll(x + m + y, p, r) == x + ReplaceAll(m, p, r) + y
  {
    assert x + m + y == x + (m + y);
    ReplaceAllSkips(x, m + y, p, r);
    ReplaceAllKeeps(m, y, p, r);
  }
}
