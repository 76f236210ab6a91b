/**
 * The page scan of the search button: given the recognised text of every
 * page in order, collect the 1-based numbers of the pages that match the
 * query. `MatchingPages` is the specification (the filtered, ascending list
 * of page numbers); `ScanPages` is the append loop that computes it.
 */
module PageScan {

  import opened CaseFold
  import opened Substrings

  /**
   * The match test on one page. With `exact` set both sides are lower-cased
   * before the containment test; without it the test is case-sensitive. The
   * flag named "exact" thus selects the case-insensitive comparison.
   */
  predicate Matches(query: string, text: string, exact: bool) {
    if exact then Contains(LowerStr(text), LowerStr(query)) else Contains(text, query)
  }

  /** What a match means: an occurrence of the (lower-cased, if exact) query in the (lower-cased, if exact) text. */
  lemma MatchesMeaning(query: string, text: string, exact: bool)
    ensures exact ==> (Matches(query, text, exact) <==> IsSubstring(LowerStr(query), LowerStr(text)))
    ensures !exact ==> (Matches(query, text, exact) <==> IsSubstring(query, text))
  {
    if exact {
      ContainsIff(LowerStr(text), LowerStr(query));
    } else {
      ContainsIff(text, query);
    }
  }

  /** A page that matches case-sensitively also matches in "exact" mode. */
  lemma LooseMatchImpliesExactMatch(query: string, text: string)
    ensures Matches(query, text, false) ==> Matches(query, text, true)
  {
    if Contains(text, query) {
      ContainsSurvivesLowering(text, query);
    }
  }

  /** In "exact" mode only the lower-cased query and text matter: changing the case of either changes nothing. */
  lemma ExactMatchIgnoresCase(query: string, text: string)
    ensures Matches(query, text, true) == Matches(LowerStr(query), LowerStr(text), true)
  {
    LowerStrIdempotent(query);
    LowerStrIdempotent(text);
  }

  /** The numbers of the matching pages among `texts`, in page order. */
  function MatchingPages(texts: seq<string>, query: string, exact: bool): seq<nat>
    decreases |texts|
  {
    if texts == [] then []
    else
      var n := |texts|;
      MatchingPages(texts[..n - 1], query, exact) + (if Matches(query, texts[n - 1], exact) then [n] else [])
  }

  predicate StrictlyIncreasing(s: seq<int>) {
    forall i, j :: 0 <= i < j < |s| ==> s[i] < s[j]
  }

  /** Every reported page number is a page of the document, and there are at most as many as pages. */
  lemma {:induction false} MatchingPagesInRange(texts: seq<string>, query: string, exact: bool)
    ensures |MatchingPages(texts, query, exact)| <= |texts|
    ensures forall j :: 0 <= j < |MatchingPages(texts, query, exact)| ==>
              1 <= MatchingPages(texts, query, exact)[j] <= |texts|
    decreases |texts|
  {
    if texts != [] {
      MatchingPagesInRange(texts[..|texts| - 1], query, exact);
    }
  }

  /** Page numbers come out in strictly ascending order. */
  lemma {:induction false} MatchingPagesIncreasing(texts: seq<string>, query: string, exact: bool)
    ensures StrictlyIncreasing(MatchingPages(texts, query, exact))
    decreases |texts|
  {
    if texts != [] {
      var front := texts[..|texts| - 1];
      MatchingPagesIncreasing(front, query, exact);
      MatchingPagesInRange(front, query, exact);
    }
  }

  /** Page k is reported exactly when it exists and its text matches. */
  lemma {:induction false} MatchingPagesHas(texts: seq<string>, query: string, exact: bool, k: int)
    ensures k in MatchingPages(texts, query, exact) <==> 1 <= k <= |texts| && Matches(query, texts[k - 1], exact)
    decreases |texts|
  {
    if texts != [] {
      var n := |texts|;
      var front := texts[..n - 1];
      MatchingPagesHas(front, query, exact, k);
      MatchingPagesInRange(front, query, exact);
      if 1 <= k < n {
        assert front[k - 1] == texts[k - 1];
      }
    }
  }

  /** Dropping the last element of an ascending sequence removes exactly that value. */
  lemma DropLastOfIncreasing(s: seq<int>, x: int)
    requires StrictlyIncreasing(s) && s != []
    ensures x in s[..|s| - 1] <==> x in s && x != s[|s| - 1]
  {
    if x in s[..|s| - 1] {
      var i :| 0 <= i < |s| - 1 && s[i] == x;
      assert s[i] < s[|s| - 1];
    }
    if x in s && x != s[|s| - 1] {
      var i :| 0 <= i < |s| && s[i] == x;
      assert s[..|s| - 1][i] == x;
    }
  }

  /** Ascending sequences with the same elements are both empty or both not. */
  lemma SameElementsBothEmpty(a: seq<int>, b: seq<int>)
    requires forall x :: x in a <==> x in b
    ensures a == [] <==> b == []
  {
    if a != [] {
      var x := a[0];
      assert x in a;
    }
    if b != [] {
      var x := b[0];
      assert x in b;
    }
  }

  /** Non-empty ascending sequences with the same elements end with the same element. */
  lemma SameElementsSameLast(a: seq<int>, b: seq<int>)
    requires StrictlyIncreasing(a) && StrictlyIncreasing(b) && a != [] && b != []
    requires forall x :: x in a <==> x in b
    ensures a[|a| - 1] == b[|b| - 1]
  {
    var m, p := |a| - 1, |b| - 1;
    assert a[m] in a && b[p] in b;
    LastIsLargest(b, a[m]);
    LastIsLargest(a, b[p]);
  }

  /** The last element of an ascending sequence is its largest. */
  lemma LastIsLargest(s: seq<int>, x: int)
    requires StrictlyIncreasing(s) && x in s
    ensures x <= s[|s| - 1]
  {
  }

  /** Removing that common last element leaves sequences with the same elements. */
  lemma SameElementsDropLast(a: seq<int>, b: seq<int>, a': seq<int>, b': seq<int>)
    requires StrictlyIncreasing(a) && StrictlyIncreasing(b) && a != [] && b != []
    requires forall x :: x in a <==> x in b
    requires a[|a| - 1] == b[|b| - 1]
    requires a' == a[..|a| - 1] && b' == b[..|b| - 1]
    ensures forall x :: x in a' <==> x in b'
  {
    forall x
      ensures x in a' <==> x in b'
    {
      DropLastOfIncreasing(a, x);
      DropLastOfIncreasing(b, x);
    }
  }

  /**
   * Without the input guard an empty query would report every page: the
   * empty string is contained in every text, in either mode.
   */
  lemma {:induction false} EmptyQueryReportsEveryPage(texts: seq<string>, exact: bool)
    ensures |MatchingPages(texts, "", exact)| == |texts|
    ensures forall j :: 0 <= j < |texts| ==> MatchingPages(texts, "", exact)[j] == j + 1
    decreases |texts|
  {
    if texts != [] {
      var n := |texts|;
      EmptyQueryReportsEveryPage(texts[..n - 1], exact);
      EmptyNeedleIsContained(texts[n - 1]);
      EmptyNeedleIsContained(LowerStr(texts[n - 1]));
      assert LowerStr("") == "";
      assert Matches("", texts[n - 1], exact);
    }
  }

  /** Two ascending sequences with the same elements are the same sequence. */
  lemma {:induction false} IncreasingDeterminedByElements(a: seq<int>, b: seq<int>)
    requires StrictlyIncreasing(a) && StrictlyIncreasing(b)
    requires forall x :: x in a <==> x in b
    ensures a == b
    decreases |a|
  {
    SameElementsBothEmpty(a, b);
    if a != [] {
      var m, p := |a| - 1, |b| - 1;
      SameElementsSameLast(a, b);
      var a', b' := a[..m], b[..p];
      SameElementsDropLast(a, b, a', b');
      IncreasingDeterminedByElements(a', b');
      assert a == a' + [a[m]] && b == b' + [b[p]];
    }
  }

  /**
   * The result is the only ascending list holding exactly the numbers of the
   * matching pages: any such list is MatchingPages.
   */
  lemma MatchingPagesCharacterised(texts: seq<string>, query: string, exact: bool, r: seq<int>)
    requires StrictlyIncreasing(r)
    requires forall k :: k in r <==> 1 <= k <= |texts| && Matches(query, texts[k - 1], exact)
    ensures r == MatchingPages(texts, query, exact)
  {
    var m := MatchingPages(texts, query, exact);
    MatchingPagesIncreasing(texts, query, exact);
    forall k
      ensures k in r <==> k in m
    {
      MatchingPagesHas(texts, query, exact, k);
    }
    IncreasingDeterminedByElements(r, m);
  }

  /**
   * `a` is a subsequence of `b`: `a` is obtained from `b` by deleting
   * elements. Decided by matching from the back, which is exact for this
   * relation.
   */
  predicate IsSubsequence(a: seq<int>, b: seq<int>)
    decreases |b|
  {
    if b == [] then a == []
    else if a != [] && a[|a| - 1] == b[|b| - 1] then IsSubsequence(a[..|a| - 1], b[..|b| - 1])
    else IsSubsequence(a, b[..|b| - 1])
  }

  /** Appending the same element to both sides keeps a subsequence. */
  lemma SubsequenceAppendBoth(a: seq<int>, b: seq<int>, x: int)
    requires IsSubsequence(a, b)
    ensures IsSubsequence(a + [x], b + [x])
  {
    assert (a + [x])[..|a|] == a && (b + [x])[..|b|] == b;
  }

  /** Appending to the longer side an element the shorter side does not end with keeps a subsequence. */
  lemma SubsequenceAppendRight(a: seq<int>, b: seq<int>, x: int)
    requires IsSubsequence(a, b)
    requires a == [] || a[|a| - 1] != x
    ensures IsSubsequence(a, b + [x])
  {
    assert (b + [x])[..|b|] == b;
  }

  /** One more page: the result grows by that page number exactly when the page matches. */
  lemma MatchingPagesStep(texts: seq<string>, query: string, exact: bool)
    requires texts != []
    ensures MatchingPages(texts, query, exact) ==
              MatchingPages(texts[..|texts| - 1], query, exact) +
              (if Matches(query, texts[|texts| - 1], exact) then [|texts|] else [])
  {
  }

  /**
   * The pages found case-sensitively are a subsequence of those found in
   * "exact" (case-insensitive) mode.
   */
  lemma {:induction false} LooseIsSubsequenceOfExact(texts: seq<string>, query: string)
    ensures IsSubsequence(MatchingPages(texts, query, false), MatchingPages(texts, query, true))
    decreases |texts|
  {
    if texts != [] {
      var n := |texts|;
      var front := texts[..n - 1];
      var loose, exact := MatchingPages(front, query, false), MatchingPages(front, query, true);
      LooseIsSubsequenceOfExact(front, query);
      LooseMatchImpliesExactMatch(query, texts[n - 1]);
      MatchingPagesStep(texts, query, false);
      MatchingPagesStep(texts, query, true);
      if Matches(query, texts[n - 1], false) {
        SubsequenceAppendBoth(loose, exact, n);
      } else if Matches(query, texts[n - 1], true) {
        MatchingPagesInRange(front, query, false);
        SubsequenceAppendRight(loose, exact, n);
        assert loose + [] == loose;
      } else {
        assert loose + [] == loose && exact + [] == exact;
      }
    }
  }

  /**
   * The loop of the search button: walk the pages in order and append the
   * 1-based number `i + 1` of every page whose text matches.
   */
  method ScanPages(texts: seq<string>, query: string, exact: bool) returns (resultados: seq<nat>)
    ensures resultados == MatchingPages(texts, query, exact)
    ensures |resultados| <= |texts|
    ensures StrictlyIncreasing(resultados)
    ensures forall j :: 0 <= j < |resultados| ==> 1 <= resultados[j] <= |texts|
    ensures forall k :: k in resultados <==> 1 <= k <= |texts| && Matches(query, texts[k - 1], exact)
  {
    resultados := [];
    for i := 0 to |texts|
      invariant resultados == MatchingPages(texts[..i], query, exact)
    {
      assert texts[..i + 1][..i] == texts[..i];
      var textoPagina := texts[i];
      if exact {
        if Contains(LowerStr(textoPagina), LowerStr(query)) {
          resultados := resultados + [i + 1];
        }
      } else {
        if Contains(textoPagina, query) {
          resultados := resultados + [i + 1];
        }
      }
    }
    assert texts[..|texts|] == texts;
    MatchingPagesInRange(texts, query, exact);
    MatchingPagesIncreasing(texts, query, exact);
    forall k
      ensures k in resultados <==> 1 <= k <= |texts| && Matches(query, texts[k - 1], exact)
    {
      MatchingPagesHas(texts, query, exact, k);
    }
  }
}
