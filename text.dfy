/**
  Character classes and lower-casing used by the scorer.

  Python's `str.lower`, `str.isalpha` and `str.isdigit` are Unicode-aware;
  this model restricts them to ASCII: only 'A'..'Z' change under lower-casing,
  and only ASCII letters and digits are letters and digits.
 */
module Text {

  predicate IsUpper(c: char) { 'A' <= c <= 'Z' }

  predicate IsAlpha(c: char) { 'a' <= c <= 'z' || 'A' <= c <= 'Z' }

  predicate IsDigit(c: char) { '0' <= c <= '9' }

  /** A character of the correct answer that the player must fill in. */
  predicate IsGuessable(c: char) { IsAlpha(c) || IsDigit(c) }

  /** Lower-casing of one character. */
  function Lower(c: char): (r: char)
    ensures !IsUpper(r)
    ensures r != c ==> IsUpper(c)
    ensures IsUpper(c) ==> 'a' <= r <= 'z' && r as int - 'a' as int == c as int - 'A' as int
    ensures IsGuessable(r) == IsGuessable(c)
  {
    if IsUpper(c) then (c as int - 'A' as int + 'a' as int) as char else c
  }

  /** The string lower-cased and split into its characters. */
  function Normalize(s: string): (r: seq<char>)
    ensures |r| == |s|
    ensures forall i :: 0 <= i < |r| ==> r[i] == Lower(s[i])
    ensures forall i :: 0 <= i < |r| ==> !IsUpper(r[i]) && IsGuessable(r[i]) == IsGuessable(s[i])
  {
    seq(|s|, i requires 0 <= i < |s| => Lower(s[i]))
  }

  /** Two characters that are equal, or are the same letter in upper and lower case. */
  predicate SameUpToCase(c: char, d: char)
  {
    c == d || (IsAlpha(c) && IsAlpha(d) && (c as int - d as int == 32 || d as int - c as int == 32))
  }

  /** Two strings that differ at most in the letter case of their characters. */
  predicate EqualIgnoringCase(s: string, t: string)
  {
    |s| == |t| && forall i :: 0 <= i < |s| ==> SameUpToCase(s[i], t[i])
  }

  /** Lower-casing identifies exactly the characters that differ only in letter case. */
  lemma LowerEqualIffSameUpToCase(c: char, d: char)
    ensures Lower(c) == Lower(d) <==> SameUpToCase(c, d)
  {
  }

  /** Lower-casing twice is lower-casing once. */
  lemma NormalizeIdempotent(s: string)
    ensures Normalize(Normalize(s)) == Normalize(s)
  {
  }

  /** Normalizing identifies exactly the strings that differ only in letter case. */
  lemma NormalizeEqualIffEqualIgnoringCase(s: string, t: string)
    ensures Normalize(s) == Normalize(t) <==> EqualIgnoringCase(s, t)
  {
  }
}
