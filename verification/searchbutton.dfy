/**
 * The handler of the search button: the input guard, the scan over the
 * recognised page texts and the reported outcome.
 *
 * Rasterisation and OCR are not modelled: `pages` stands for what they
 * produce, `None` when the PDF could not be converted, otherwise the text of
 * every page in order (possibly an "Error en OCR: ..." text, which is
 * matched like any other text).
 */
module SearchButton {

  import opened PageScan
  import opened Decimal

  datatype Option<T> = None | Some(value: T)

  /** What the user gets to see after pressing the button. */
  datatype Outcome =
    | MissingFile                          // warning: upload a PDF first
    | MissingQuery                         // warning: type what to search for
    | NoPages                              // conversion gave no pages: no result is shown
    | Found(count: nat, listing: string)   // success with the count, then the page list
    | NotFound                             // error: text not found

  /** The input guard: a warning when there is no file or the query is empty. */
  function InputWarning(uploaded: bool, query: string): Option<Outcome> {
    if !uploaded then Some(MissingFile)
    else if query == "" then Some(MissingQuery)
    else None
  }

  /**
   * The result report: a non-empty result is a success carrying the number
   * of pages and the page numbers printed as a ", "-separated list; an empty
   * one is "not found".
   */
  function Report(resultados: seq<nat>): (o: Outcome)
    ensures o.Found? <==> resultados != []
    ensures o.NotFound? <==> resultados == []
    ensures o.Found? ==> o.count == |resultados| && ParsePageList(o.listing) == resultados
  {
    JoinPagesRoundTrip(resultados);
    if resultados != [] then Found(|resultados|, JoinPages(resultados)) else NotFound
  }

  /** One press of the search button. */
  method HandleSearch(uploaded: bool, query: string, exact: bool, pages: Option<seq<string>>)
    returns (o: Outcome)
    ensures !uploaded ==> o == MissingFile
    ensures uploaded && query == "" ==> o == MissingQuery
    ensures uploaded && query != "" && (pages == None || pages == Some([])) ==> o == NoPages
    ensures uploaded && query != "" && pages.Some? && pages.value != [] ==>
              o == Report(MatchingPages(pages.value, query, exact))
    ensures o.Found? ==>
              && pages.Some?
              && 1 <= o.count <= |pages.value|
              && StrictlyIncreasing(ParsePageList(o.listing))
              && (forall k :: k in ParsePageList(o.listing) <==>
                    1 <= k <= |pages.value| && Matches(query, pages.value[k - 1], exact))
    ensures o.NotFound? ==>
              pages.Some? && forall i :: 0 <= i < |pages.value| ==> !Matches(query, pages.value[i], exact)
  {
    var warning := InputWarning(uploaded, query);
    if warning.Some? {
      return warning.value;
    }
    if pages.None? || pages.value == [] {
      return NoPages;
    }
    var resultados := ScanPages(pages.value, query, exact);
    o := Report(resultados);
    if o.NotFound? {
      forall i | 0 <= i < |pages.value|
        ensures !Matches(query, pages.value[i], exact)
      {
        assert i + 1 !in resultados;
      }
    }
  }
}
