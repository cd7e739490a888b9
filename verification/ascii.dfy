/** Character case for the two places the source uses it: `string.ToUpper()` in
    the attendee initials and `StringComparison.OrdinalIgnoreCase` in the e-mail
    lookup. Both are approximated by ASCII case folding: only 'a'..'z' and
    'A'..'Z' have a case. */
module Ascii {

  predicate IsLower(c: char) { 'a' <= c <= 'z' }

  predicate IsUpper(c: char) { 'A' <= c <= 'Z' }

  function ToUpperChar(c: char): (u: char)
    ensures IsLower(c) ==> IsUpper(u) && u as int == c as int - 32
    ensures !IsLower(c) ==> u == c
  {
    if IsLower(c) then (c as int - 32) as char else c
  }

  function ToLowerChar(c: char): (l: char)
    ensures IsUpper(c) ==> IsLower(l) && l as int == c as int + 32
    ensures !IsUpper(c) ==> l == c
  {
    if IsUpper(c) then (c as int + 32) as char else c
  }

  /** `ToUpper()` on a string: character by character. */
  function ToUpper(s: string): (r: string)
    ensures |r| == |s|
    ensures forall i | 0 <= i < |s| :: r[i] == ToUpperChar(s[i])
  {
    seq(|s|, i requires 0 <= i < |s| => ToUpperChar(s[i]))
  }

  /** Two characters are equal ignoring case. */
  predicate SameLetterIgnoringCase(a: char, b: char)
  {
    a == b || ToLowerChar(a) == ToLowerChar(b)
  }

  /** `a.Equals(b, StringComparison.OrdinalIgnoreCase)`. */
  predicate EqualsIgnoreCase(a: string, b: string)
  {
    ToUpper(a) == ToUpper(b)
  }

  /** Upper-casing a character and lower-casing it are two views of one folding. */
  lemma FoldAgree(a: char, b: char)
    ensures ToUpperChar(a) == ToUpperChar(b) <==> SameLetterIgnoringCase(a, b)
  {
  }

  /** Ignoring case, two strings are equal exactly when they have the same length
      and agree position by position up to the case of letters. */
  lemma EqualsIgnoreCaseCharwise(a: string, b: string)
    ensures EqualsIgnoreCase(a, b)
        <==> |a| == |b| && forall i | 0 <= i < |a| :: SameLetterIgnoringCase(a[i], b[i])
  {
    if |a| == |b| && forall i | 0 <= i < |a| :: SameLetterIgnoringCase(a[i], b[i]) {
      forall i | 0 <= i < |a|
        ensures ToUpper(a)[i] == ToUpper(b)[i]
      {
        FoldAgree(a[i], b[i]);
      }
    }
    if EqualsIgnoreCase(a, b) {
      forall i | 0 <= i < |a|
        ensures SameLetterIgnoringCase(a[i], b[i])
      {
        assert ToUpper(a)[i] == ToUpper(b)[i];
        FoldAgree(a[i], b[i]);
      }
    }
  }
}
