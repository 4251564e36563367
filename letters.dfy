/**
 * The two string built-ins the game relies on, restricted to ASCII:
 * str.isalpha (here IsAlpha) and str.lower (here ToLower / LowerString).
 */
module Letters {

  predicate IsUpper(c: char) { 'A' <= c <= 'Z' }

  predicate IsLowerLetter(c: char) { 'a' <= c <= 'z' }

  /** An ASCII letter, either case. */
  predicate IsLetter(c: char) { IsLowerLetter(c) || IsUpper(c) }

  /** str.isalpha: a non-empty string made only of letters. */
  predicate IsAlpha(s: string)
  {
    |s| > 0 && forall i :: 0 <= i < |s| ==> IsLetter(s[i])
  }

  /** Lower-cases one character: upper-case letters map to their lower-case
      counterpart, everything else is left alone. */
  function ToLower(c: char): (r: char)
    ensures IsLetter(r) <==> IsLetter(c)
    ensures IsLetter(c) ==> IsLowerLetter(r)
    ensures !IsUpper(r)
    ensures !IsUpper(c) ==> r == c
    ensures IsUpper(c) ==> r as int - 'a' as int == c as int - 'A' as int
  {
    if IsUpper(c) then (c as int - 'A' as int + 'a' as int) as char else c
  }

  /** str.lower, one character at a time. */
  function LowerString(s: string): (r: string)
    ensures |r| == |s|
    ensures forall i :: 0 <= i < |s| ==> r[i] == ToLower(s[i])
    ensures forall i :: 0 <= i < |r| ==> !IsUpper(r[i])
  {
    if s == [] then [] else [ToLower(s[0])] + LowerString(s[1..])
  }

  /** Lower-casing twice is lower-casing once. */
  lemma LowerStringIdempotent(s: string)
    ensures LowerString(LowerString(s)) == LowerString(s)
  {
    var once := LowerString(s);
    assert forall i :: 0 <= i < |once| ==> ToLower(once[i]) == once[i];
  }

  /** Lower-casing does not change whether a string is alphabetic. */
  lemma LowerStringKeepsAlpha(s: string)
    ensures IsAlpha(LowerString(s)) <==> IsAlpha(s)
  {
    var low := LowerString(s);
    assert forall i :: 0 <= i < |s| ==> (IsLetter(low[i]) <==> IsLetter(s[i]));
  }
}
