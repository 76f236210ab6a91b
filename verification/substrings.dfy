/**
 * Substring containment, the `needle in hay` test of Python on strings, given
 * both as the executable scan the search evaluates and as the declarative
 * "there is a position where the needle occurs", and proved equal.
 */
module Substrings {

  import opened CaseFold

  /** `needle` occurs in `hay` starting at position `i`. */
  predicate OccursAt(needle: string, hay: string, i: nat) {
    i + |needle| <= |hay| && hay[i..i + |needle|] == needle
  }

  /** `needle` occurs somewhere in `hay`. */
  ghost predicate IsSubstring(needle: string, hay: string) {
    exists i: nat :: OccursAt(needle, hay, i)
  }

  /** `needle in hay`: try every start position from the left. */
  function Contains(hay: string, needle: string): bool
    decreases |hay|
  {
    if |hay| < |needle| then false
    else if hay[..|needle|] == needle then true
    else Contains(hay[1..], needle)
  }

  /** The scan answers yes exactly when the needle occurs somewhere. */
  lemma {:induction false} ContainsIff(hay: string, needle: string)
    ensures Contains(hay, needle) <==> IsSubstring(needle, hay)
    decreases |hay|
  {
    if |hay| < |needle| {
    } else if hay[..|needle|] == needle {
      assert OccursAt(needle, hay, 0);
    } else {
      var tail := hay[1..];
      ContainsIff(tail, needle);
      if IsSubstring(needle, tail) {
        var i: nat :| OccursAt(needle, tail, i);
        assert hay[i + 1..i + 1 + |needle|] == tail[i..i + |needle|];
        assert OccursAt(needle, hay, i + 1);
      }
      if IsSubstring(needle, hay) {
        var i: nat :| OccursAt(needle, hay, i);
        assert i != 0;
        assert tail[i - 1..i - 1 + |needle|] == hay[i..i + |needle|];
        assert OccursAt(needle, tail, i - 1);
      }
    }
  }

  /** The empty needle is in every string, as in Python. */
  lemma EmptyNeedleIsContained(hay: string)
    ensures Contains(hay, "")
  {
  }

  /**
   * Lower-casing both sides never loses an occurrence: whatever is found
   * case-sensitively is also found after lower-casing.
   */
  lemma ContainsSurvivesLowering(hay: string, needle: string)
    requires Contains(hay, needle)
    ensures Contains(LowerStr(hay), LowerStr(needle))
  {
    ContainsIff(hay, needle);
    var i: nat :| OccursAt(needle, hay, i);
    LowerStrSlice(hay, i, i + |needle|);
    assert OccursAt(LowerStr(needle), LowerStr(hay), i);
    ContainsIff(LowerStr(hay), LowerStr(needle));
  }
}
