/**
 * The two Foundation string operations the item query relies on:
 * the case-insensitive substring test behind `CONTAINS[c]`, and the
 * string comparison an ascending `NSSortDescriptor` on a string key
 * performs. Case folding is ASCII only; characters compare by code point,
 * without Unicode canonical equivalence.
 */
module FoundationText {

  /** The three-way result of a comparison (`ComparisonResult`). */
  datatype Ordering = Less | Same | Greater {
    function Flip(): Ordering
    {
      match this
      case Less => Greater
      case Same => Same
      case Greater => Less
    }
  }

  // ----- case-insensitive containment -----

  /** ASCII lower-casing of one character. */
  function Lower(c: char): (l: char)
    ensures !('A' <= l <= 'Z')
    ensures 'A' <= c <= 'Z' ==> l as int == c as int - 'A' as int + 'a' as int
    ensures 'A' <= c <= 'Z' || l == c
  {
    if 'A' <= c <= 'Z' then (c as int - 'A' as int + 'a' as int) as char else c
  }

  /**
   * Two characters match ignoring case: they are equal, or they are the
   * capital and the small form of one ASCII letter.
   */
  predicate SameIgnoringCase(a: char, b: char)
  {
    || a == b
    || ('A' <= a <= 'Z' && b as int == a as int + ('a' as int - 'A' as int))
    || ('A' <= b <= 'Z' && a as int == b as int + ('a' as int - 'A' as int))
  }

  /** Two characters fold alike exactly when they match ignoring case. */
  lemma LowerMatches(a: char, b: char)
    ensures Lower(a) == Lower(b) <==> SameIgnoringCase(a, b)
  {
  }

  /** Case folding of a whole string, character by character. */
  function Fold(s: string): (r: string)
    ensures |r| == |s|
    ensures forall i :: 0 <= i < |s| ==> SameIgnoringCase(r[i], s[i]) && !('A' <= r[i] <= 'Z')
  {
    seq(|s|, i requires 0 <= i < |s| => Lower(s[i]))
  }

  /** `p` occurs in `s` starting at index `i`. */
  predicate OccursAt(p: string, s: string, i: nat)
  {
    i + |p| <= |s| && s[i..i + |p|] == p
  }

  /** Away from index 0, the occurrences of `p` in `s` are those in `s[1..]`, shifted by one. */
  lemma {:induction false} OccursShift(p: string, s: string)
    requires |s| > 0 && !(p <= s)
    ensures (exists i: nat :: OccursAt(p, s, i)) <==> (exists i: nat :: OccursAt(p, s[1..], i))
  {
    if i: nat :| OccursAt(p, s[1..], i) {
      var window := s[i + 1..i + 1 + |p|];
      assert forall j :: 0 <= j < |p| ==> window[j] == p[j];
      assert OccursAt(p, s, i + 1);
    }
    if i: nat :| OccursAt(p, s, i) {
      assert i > 0;
      assert s[1..][i - 1..i - 1 + |p|] == s[i..i + |p|];
      assert OccursAt(p, s[1..], i - 1);
    }
  }

  /** `p` occurs somewhere in `s`, found by scanning `s` from the left. */
  predicate IsSubstring(p: string, s: string): (b: bool)
    ensures b <==> exists i: nat :: OccursAt(p, s, i)
    decreases |s|
  {
    if p <= s then
      assert OccursAt(p, s, 0);
      true
    else if |s| == 0 then
      assert |p| > 0;
      assert forall i: nat :: !OccursAt(p, s, i);
      false
    else
      OccursShift(p, s);
      IsSubstring(p, s[1..])
  }

  /** `p` matches `s` ignoring case, character by character, from index `i` on. */
  predicate MatchesIgnoringCaseAt(s: string, p: string, i: nat)
  {
    i + |p| <= |s| && forall j :: 0 <= j < |p| ==> SameIgnoringCase(s[i + j], p[j])
  }

  /** An occurrence of the folded text in the folded name is a match ignoring case, and back. */
  lemma FoldedOccurrence(s: string, p: string, i: nat)
    ensures OccursAt(Fold(p), Fold(s), i) <==> MatchesIgnoringCaseAt(s, p, i)
  {
    if i + |p| <= |s| {
      var window := Fold(s)[i..i + |p|];
      forall j | 0 <= j < |p|
        ensures window[j] == Fold(p)[j] <==> SameIgnoringCase(s[i + j], p[j])
      {
        assert window[j] == Lower(s[i + j]) && Fold(p)[j] == Lower(p[j]);
        LowerMatches(s[i + j], p[j]);
      }
      if MatchesIgnoringCaseAt(s, p, i) {
        assert window == Fold(p);
      }
    }
  }

  /** `s CONTAINS[c] p`: `p` occurs in `s` once both are case-folded. */
  predicate ContainsIgnoringCase(s: string, p: string): (b: bool)
    ensures b <==> exists i: nat :: MatchesIgnoringCaseAt(s, p, i)
  {
    forall i: nat ensures OccursAt(Fold(p), Fold(s), i) <==> MatchesIgnoringCaseAt(s, p, i) {
      FoldedOccurrence(s, p, i);
    }
    IsSubstring(Fold(p), Fold(s))
  }

  /** "Alpha" CONTAINS[c] "ALP": the search text matches a name in another case. */
  lemma ContainsIgnoringCaseExample()
    ensures ContainsIgnoringCase("Alpha", "ALP")
    ensures !ContainsIgnoringCase("Alpha", "ALB")
  {
    assert MatchesIgnoringCaseAt("Alpha", "ALP", 0);
    forall i: nat ensures !MatchesIgnoringCaseAt("Alpha", "ALB", i) {
      if i <= 2 {
        var c := "Alpha"[i + 2];
        assert c == 'p' || c == 'h' || c == 'a';
        assert !SameIgnoringCase(c, "ALB"[2]);
      }
    }
  }

  /** Folding twice is folding once. */
  lemma FoldIdempotent(s: string)
    ensures Fold(Fold(s)) == Fold(s)
  {
  }

  /** A name that contains the text exactly also contains it ignoring case. */
  lemma ExactContainsIgnoringCase(s: string, p: string)
    requires IsSubstring(p, s)
    ensures ContainsIgnoringCase(s, p)
  {
    var i: nat :| OccursAt(p, s, i);
    assert forall j :: 0 <= j < |p| ==> s[i..i + |p|][j] == p[j];
    assert MatchesIgnoringCaseAt(s, p, i);
  }

  /** The test does not see the case of either side. */
  lemma ContainsIgnoringCaseIgnoresCase(s: string, p: string)
    ensures ContainsIgnoringCase(Fold(s), p) == ContainsIgnoringCase(s, p)
    ensures ContainsIgnoringCase(s, Fold(p)) == ContainsIgnoringCase(s, p)
  {
    FoldIdempotent(s);
    FoldIdempotent(p);
  }

  // ----- ordering of names -----

  /** `NSString.compare(_:)`, taken as lexicographic order by code point. */
  function CompareStrings(a: string, b: string): (r: Ordering)
    ensures r == Same <==> a == b
    decreases |a|
  {
    if a == [] then (if b == [] then Same else Less)
    else if b == [] then Greater
    else if a[0] < b[0] then Less
    else if b[0] < a[0] then Greater
    else
      assert a == [a[0]] + a[1..] && b == [b[0]] + b[1..];
      CompareStrings(a[1..], b[1..])
  }

  /**
   * Lexicographic order, stated independently of `CompareStrings`: `a` is a
   * prefix of `b`, or the first position where they differ holds a smaller
   * character in `a`.
   */
  ghost predicate LexLeq(a: string, b: string)
  {
    a <= b || exists k :: 0 <= k < |a| && k < |b| && a[..k] == b[..k] && a[k] < b[k]
  }

  /** Swapping the arguments flips the comparison. */
  lemma {:induction false} CompareStringsFlip(a: string, b: string)
    ensures CompareStrings(b, a) == CompareStrings(a, b).Flip()
    decreases |a|
  {
    if a != [] && b != [] && a[0] == b[0] {
      CompareStringsFlip(a[1..], b[1..]);
    }
  }

  /** Strictly-less is transitive. */
  lemma {:induction false} CompareStringsLessTransitive(a: string, b: string, c: string)
    requires CompareStrings(a, b) == Less && CompareStrings(b, c) == Less
    ensures CompareStrings(a, c) == Less
    decreases |a|
  {
    if a != [] && b != [] && c != [] && a[0] == b[0] && b[0] == c[0] {
      CompareStringsLessTransitive(a[1..], b[1..], c[1..]);
    }
  }

  /** Names that start with different characters are ordered by those characters. */
  lemma LexLeqDifferentHeads(a: string, b: string)
    requires a != [] && b != [] && a[0] != b[0]
    ensures LexLeq(a, b) <==> a[0] < b[0]
  {
    assert !(a <= b);
    if a[0] < b[0] {
      assert a[..0] == b[..0];
    } else {
      forall k | 0 < k < |a| && k < |b|
        ensures a[..k] != b[..k]
      {
        assert a[..k][0] != b[..k][0];
      }
    }
  }

  /** Names that start with the same character are ordered by the rest. */
  lemma LexLeqSameHeads(a: string, b: string)
    requires a != [] && b != [] && a[0] == b[0]
    ensures LexLeq(a, b) <==> LexLeq(a[1..], b[1..])
  {
    var a', b' := a[1..], b[1..];
    assert a == [a[0]] + a' && b == [b[0]] + b';
    if LexLeq(a', b') && !(a' <= b') {
      var k :| 0 <= k < |a'| && k < |b'| && a'[..k] == b'[..k] && a'[k] < b'[k];
      assert a[..k + 1] == [a[0]] + a'[..k];
      assert b[..k + 1] == [b[0]] + b'[..k];
      assert a[k + 1] < b[k + 1];
    }
    if LexLeq(a, b) && !(a <= b) {
      var k :| 0 <= k < |a| && k < |b| && a[..k] == b[..k] && a[k] < b[k];
      assert k > 0;
      assert a'[..k - 1] == a[1..k] && b'[..k - 1] == b[1..k];
      assert a[1..k] == a[..k][1..] && b[1..k] == b[..k][1..];
      assert a'[k - 1] < b'[k - 1];
    }
  }

  /** The comparison agrees with the lexicographic order. */
  lemma {:induction false} CompareStringsIsLexLeq(a: string, b: string)
    ensures CompareStrings(a, b) != Greater <==> LexLeq(a, b)
    decreases |a|
  {
    if a == [] {
      assert a <= b;
    } else if b == [] {
      assert !(a <= b);
    } else if a[0] != b[0] {
      LexLeqDifferentHeads(a, b);
    } else {
      CompareStringsIsLexLeq(a[1..], b[1..]);
      LexLeqSameHeads(a, b);
    }
  }
}
