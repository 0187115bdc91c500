/** Ordinal string comparison, with and without case folding.

    `StringComparison.Ordinal` is plain equality of `seq<char>`.
    `StringComparison.OrdinalIgnoreCase` is modelled with ASCII case folding:
    two strings are equal ignoring case when they have the same length and
    agree character by character once both characters are folded. */
module Text {

  predicate IsUpper(c: char) {
    'A' <= c <= 'Z'
  }

  predicate IsLower(c: char) {
    'a' <= c <= 'z'
  }

  /** Folds one character: an ASCII upper-case letter becomes its lower-case
      partner, every other character is left alone. */
  function FoldChar(c: char): (f: char)
    ensures !IsUpper(f)
    ensures f == c <==> !IsUpper(c)
    ensures IsUpper(c) ==> IsLower(f) && f as int - c as int == 32
    ensures !IsLower(c) && !IsUpper(c) ==> f == c
  {
    if IsUpper(c) then (c as int + 32) as char else c
  }

  /** Folds every character of a string. */
  function Fold(s: string): string {
    seq(|s|, i requires 0 <= i < |s| => FoldChar(s[i]))
  }

  /** `String.Equals(a, b, StringComparison.OrdinalIgnoreCase)` on ASCII. */
  predicate EqualsIgnoreCase(a: string, b: string)
    ensures a == b ==> EqualsIgnoreCase(a, b)
    ensures EqualsIgnoreCase(a, b) ==> |a| == |b| && Fold(a) == Fold(b)
  {
    |a| == |b| && forall i :: 0 <= i < |a| ==> FoldChar(a[i]) == FoldChar(b[i])
  }

  /** Comparing ignoring case is comparing the folded strings. */
  lemma EqualsIgnoreCaseIsFoldedEquality(a: string, b: string)
    ensures EqualsIgnoreCase(a, b) <==> Fold(a) == Fold(b)
  {
    if Fold(a) == Fold(b) {
      assert |a| == |Fold(a)| == |Fold(b)| == |b|;
      forall i | 0 <= i < |a|
        ensures FoldChar(a[i]) == FoldChar(b[i])
      {
        assert Fold(a)[i] == Fold(b)[i];
      }
    }
  }

  /** Equality ignoring case is an equivalence relation. */
  lemma EqualsIgnoreCaseIsEquivalence(a: string, b: string, c: string)
    ensures EqualsIgnoreCase(a, a)
    ensures EqualsIgnoreCase(a, b) ==> EqualsIgnoreCase(b, a)
    ensures EqualsIgnoreCase(a, b) && EqualsIgnoreCase(b, c) ==> EqualsIgnoreCase(a, c)
  {
  }

  /** A character that is not a letter is only equal, ignoring case, to
      itself: a string that contains it never equals ignoring case a string
      that does not. */
  lemma NonLetterSeparates(a: string, b: string, c: char)
    requires !IsUpper(c) && !IsLower(c)
    requires c !in a && c in b
    ensures !EqualsIgnoreCase(a, b)
  {
  }
}
