/**
 * Concrete documents worked through the model: one where only the second page
 * holds the number searched for, one where OCR failed on the middle page, and
 * the OCR error text itself as a page text.
 */
module Scenarios {

  import opened CaseFold
  import opened Substrings
  import opened PageScan
  import opened SearchButton

  /** `q` occurs in `t` at position `i` in both comparison modes, so `t` matches either way. */
  lemma MatchesBothWaysAt(q: string, t: string, i: nat)
    requires OccursAt(q, t, i)
    requires forall j :: 0 <= j < |q| ==> !IsUpper(q[j])
    ensures Matches(q, t, false) && Matches(q, t, true)
  {
    ContainsIff(t, q);
    LowerStrOfLowerIsIdentity(q);
    LowerStrSlice(t, i, i + |q|);
    assert OccursAt(q, LowerStr(t), i);
    ContainsIff(LowerStr(t), q);
  }

  /** A text lacking the first character of the query does not match it case-sensitively. */
  lemma FirstCharAbsent(q: string, t: string)
    requires |q| > 0 && q[0] !in t
    ensures !Matches(q, t, false)
  {
    forall i: nat
      ensures !OccursAt(q, t, i)
    {
      if i + |q| <= |t| {
        assert t[i..i + |q|][0] == t[i];
      }
    }
    ContainsIff(t, q);
  }

  /** Three pages, only the second contains the number: the result is page 2 alone, reported as "2". */
  lemma ScenarioOnlySecondPage(exact: bool)
    ensures MatchingPages(["Factura", "CC 1014217372", "Firma"], "1014217372", exact) == [2]
    ensures Report(MatchingPages(["Factura", "CC 1014217372", "Firma"], "1014217372", exact)) == Found(1, "2")
  {
    var q, t := "1014217372", "CC 1014217372";
    var texts := ["Factura", t, "Firma"];
    assert OccursAt(q, t, 3);
    MatchesBothWaysAt(q, t, 3);
    assert !Matches(q, "Factura", exact) && !Matches(q, "Firma", exact);
    assert texts[..2][..1] == ["Factura"];
    assert texts[..2] == ["Factura", t];
    assert MatchingPages(["Factura"], q, exact) == [];
    assert MatchingPages(texts[..2], q, exact) == [2];
  }

  /** With three pages of which only the middle one fails to match, pages 1 and 3 are reported. */
  lemma MiddlePageSkipped(t1: string, t2: string, t3: string, q: string, exact: bool)
    requires Matches(q, t1, exact) && !Matches(q, t2, exact) && Matches(q, t3, exact)
    ensures MatchingPages([t1, t2, t3], q, exact) == [1, 3]
  {
    var texts := [t1, t2, t3];
    assert texts[..2][..1] == [t1];
    assert texts[..2] == [t1, t2];
    assert MatchingPages([t1], q, exact) == [1];
    assert MatchingPages(texts[..2], q, exact) == [1];
  }

  /** OCR failed on page 2 of 3, pages 1 and 3 hold the query: the scan goes on and reports pages 1 and 3. */
  lemma ScenarioOcrErrorOnMiddlePage()
    ensures MatchingPages(["total 42", "Error en OCR: timeout", "pago 42"], "42", false) == [1, 3]
  {
    var q, t1, t2, t3 := "42", "total 42", "Error en OCR: timeout", "pago 42";
    assert OccursAt(q, t1, 6);
    assert OccursAt(q, t3, 5);
    ContainsIff(t1, q);
    ContainsIff(t3, q);
    assert '4' !in t2;
    FirstCharAbsent(q, t2);
    MiddlePageSkipped(t1, t2, t3, q, false);
  }

  /** The text put in place of a page whose OCR failed is searched like any other, so it can match. */
  lemma OcrErrorTextCanMatch()
    ensures Matches("OCR", "Error en OCR: timeout", false)
  {
    assert OccursAt("OCR", "Error en OCR: timeout", 9);
    ContainsIff("Error en OCR: timeout", "OCR");
  }
}
