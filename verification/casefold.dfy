/**
 * Lower-casing as the search uses it (Python's `str.lower`), modelled on
 * ASCII: 'A'..'Z' map to 'a'..'z' and every other character is unchanged.
 */
module CaseFold {

  predicate IsUpper(c: char) {
    'A' <= c <= 'Z'
  }

  /** One character lower-cased. */
  function Lower(c: char): char {
    if IsUpper(c) then (c as int + 32) as char else c
  }

  /** A whole string lower-cased, character by character. */
  function LowerStr(s: string): string {
    seq(|s|, i requires 0 <= i < |s| => Lower(s[i]))
  }

  /** Lower-casing commutes with taking a slice. */
  lemma LowerStrSlice(s: string, i: int, j: int)
    requires 0 <= i <= j <= |s|
    ensures LowerStr(s)[i..j] == LowerStr(s[i..j])
  {
  }

  /** A lower-cased string holds no upper-case letter. */
  lemma LowerStrHasNoUpper(s: string)
    ensures forall i :: 0 <= i < |LowerStr(s)| ==> !IsUpper(LowerStr(s)[i])
  {
  }

  /** Lower-casing twice is lower-casing once. */
  lemma LowerStrIdempotent(s: string)
    ensures LowerStr(LowerStr(s)) == LowerStr(s)
  {
    LowerStrHasNoUpper(s);
    LowerStrOfLowerIsIdentity(LowerStr(s));
  }

  /** A string without upper-case letters (digits, for one) is its own lower case. */
  lemma LowerStrOfLowerIsIdentity(s: string)
    requires forall i :: 0 <= i < |s| ==> !IsUpper(s[i])
    ensures LowerStr(s) == s
  {
  }
}
