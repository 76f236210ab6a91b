# Scanned-PDF page search: a Dafny model

`mi_buscador.py` is a Streamlit page. The user uploads a scanned PDF and types a
search text. On "INICIAR BÚSQUEDA" the page renders every PDF page to an image
and runs OCR on it. It then reports the 1-based numbers of the pages whose text
contains the search text. This project models the logic of that button handler
(`mi_buscador.py:73-116`):

- **Input guard.** With no uploaded file, or with an empty search text, the
  handler only shows a warning.
- **Match test.** When `busqueda_exacta` ("exact search", on by default) is set,
  both the query and the page text are lower-cased before the substring test.
  When it is off, the test is case-sensitive. So the flag called "exact"
  selects the case-insensitive comparison. The model keeps this as written.
- **Page scan.** A loop over the pages in order appends `i + 1` to
  `resultados` for every page `i` that matches.
- **Report.** A non-empty result gives a success message with the number of
  pages. It is followed by the page numbers in decimal, joined by `", "`. An
  empty result gives "not found". If conversion gave no pages (`None` or an
  empty list), neither message is shown.

Modules, one file each:

- `casefold.dfy` (`CaseFold`): `str.lower` modelled on ASCII.
- `substrings.dfy` (`Substrings`): Python's `needle in hay` on strings. It is
  given as an executable left-to-right scan (`Contains`) and as "occurs at
  some position" (`IsSubstring`), and the two are proved equal.
- `pagescan.dfy` (`PageScan`): the match predicate, the specification
  `MatchingPages` (the ascending list of matching page numbers), the loop
  `ScanPages`, and the lemmas about them.
- `decimal.dfy` (`Decimal`): `str(n)` and `", ".join(...)`. It also has a
  parser for the printed list, used only to state that the listing reads back
  as the page numbers it was printed from.
- `searchbutton.dfy` (`SearchButton`): the guard, the outcome and one press of
  the button (`HandleSearch`).
- `scenarios.dfy` (`Scenarios`): concrete documents worked through the model.

The page texts are an input. `HandleSearch` takes `pages: Option<seq<string>>`:
`None` when PDF conversion failed, otherwise the OCR text of each page in
order. When OCR fails on a page, `extraer_texto` returns the text
`"Error en OCR: ..."` in its place (`mi_buscador.py:69-70`), and the loop
searches that text like any other. A page whose OCR failed is therefore not
skipped: its `"Error en OCR: ..."` text matches whenever it contains the query
(`Scenarios.OcrErrorTextCanMatch`).

## Model

| member | source | states |
|---|---|---|
| `CaseFold.LowerStrIdempotent` | mi_buscador.py:101 | lower-casing an already lower-cased string changes nothing |
| `CaseFold.LowerStrHasNoUpper` | mi_buscador.py:101 | a lower-cased string has no character in 'A'..'Z' |
| `CaseFold.LowerStrSlice` | mi_buscador.py:101 | lower-casing a slice gives the same slice of the lower-cased string |
| `Substrings.ContainsIff` | mi_buscador.py:101-104 | the executable `in` scan answers yes exactly when the needle occurs at some position of the text (both directions) |
| `Substrings.EmptyNeedleIsContained` | mi_buscador.py:76-77 | the empty string is in every text; this is why the guard must reject an empty query |
| `PageScan.EmptyQueryReportsEveryPage` | mi_buscador.py:76-77 | an empty query matches every page in either mode, so without the guard the result would be [1, ..., N] |
| `PageScan.ExactMatchIgnoresCase` | mi_buscador.py:100-101 | in `busqueda_exacta` mode the match depends only on the lower-cased query and text |
| `Substrings.ContainsSurvivesLowering` | mi_buscador.py:100-105 | an occurrence found case-sensitively is still found after both sides are lower-cased |
| `PageScan.MatchesMeaning` | mi_buscador.py:100-105 | with `busqueda_exacta`, a page matches iff the lower-cased query occurs in the lower-cased text; without it, iff the query occurs in the text as it is |
| `PageScan.LooseMatchImpliesExactMatch` | mi_buscador.py:100-105 | a page matched in case-sensitive mode is also matched in `busqueda_exacta` mode |
| `PageScan.MatchingPagesInRange` | mi_buscador.py:93-105 | every reported page number lies in 1..N and there are at most N of them, for N pages |
| `PageScan.MatchingPagesIncreasing` | mi_buscador.py:93-105 | the reported page numbers are strictly ascending |
| `PageScan.MatchingPagesHas` | mi_buscador.py:93-105 | page k is reported iff 1 <= k <= N and the text of page k (index k-1) matches |
| `PageScan.MatchingPagesCharacterised` | mi_buscador.py:85-105 | any strictly ascending list holding exactly the matching page numbers equals the result |
| `PageScan.IncreasingDeterminedByElements` | mi_buscador.py:85-105 | two strictly ascending lists with the same elements are equal, so the result is fixed by which pages match |
| `PageScan.LooseIsSubsequenceOfExact` | mi_buscador.py:100-105 | the case-sensitive result is a subsequence of the `busqueda_exacta` result |
| `PageScan.ScanPages` | mi_buscador.py:85-105 | the append loop returns exactly `MatchingPages`: at most N entries, each in 1..N, strictly ascending, and holding page k iff page k matches |
| `Decimal.NatToDecimal` | mi_buscador.py:113 | `str(n)` is a non-empty string of digits with no leading zero unless n is 0 |
| `Decimal.DecimalRoundTrip` | mi_buscador.py:113 | the digits `str(n)` prints read back as n |
| `Decimal.JoinPagesRoundTrip` | mi_buscador.py:113 | the `", "`-joined listing reads back as the same page numbers in the same order |
| `SearchButton.Report` | mi_buscador.py:111-116 | success iff the result is non-empty; the success carries count = length of the result and a listing that reads back as the result; "not found" iff the result is empty |
| `SearchButton.HandleSearch` | mi_buscador.py:73-116 | no file gives the missing-file warning; an empty query gives the missing-query warning; `None` or no pages gives neither success nor not-found; otherwise the outcome is the report of the scan; a success has 1 <= count <= N and lists, ascending, exactly the matching pages; "not found" means no page matched |
| `Scenarios.ScenarioOnlySecondPage` | mi_buscador.py:93-113 | three pages with "1014217372" only on page 2 give the result [2] in either mode, reported as one page with listing "2" |
| `Scenarios.MiddlePageSkipped` | mi_buscador.py:93-105 | of three pages, if the first and last match and the middle one does not, the result is [1, 3] |
| `Scenarios.ScenarioOcrErrorOnMiddlePage` | mi_buscador.py:93-105 | an OCR error text on page 2 does not stop the scan: pages 1 and 3 are still reported |
| `Scenarios.OcrErrorTextCanMatch` | mi_buscador.py:69-70 | the `"Error en OCR: ..."` text is searched like page text and can match a query |

## Left out

- Streamlit widgets: the title, sidebar, uploader, text box, slider, checkbox,
  button, spinner, progress bar and status text (`mi_buscador.py:11-35`, `79`,
  `89-95`, `108-109`, `123-124`). This is UI. The progress value is a float
  division and is not modelled.
- The literal message texts (emoji, Markdown, Spanish wording). Each message is
  modelled by its `Outcome` constructor. For a success, the outcome carries
  the count and the page listing that the two messages show.
- `procesar_pdf` (`mi_buscador.py:38-51`): the temporary file and the
  pdf2image/poppler rasteriser at the chosen DPI (`calidad`). Its result is the
  `pages` input, with `None` for a failed conversion. Its own error message is
  not modelled.
- `extraer_texto` (`mi_buscador.py:54-70`): the OpenCV grayscale conversion, the
  threshold at 150 and the Tesseract call. Every page text, including the OCR
  error text, is an arbitrary input string.
- The uploaded file's bytes. Only whether a file was uploaded matters to the
  logic, so it is the boolean `uploaded`.
- The catch-all exception handlers (`mi_buscador.py:46-48`, `118-120`). They only
  display library error messages.
- CaseFold.LowerStr: models `str.lower` on ASCII letters only. Python lower-cases
  all of Unicode, and that can change a string's length (for example 'İ'
  becomes two characters). The lemmas about `busqueda_exacta` mode hold for
  this ASCII model only: `Substrings.ContainsSurvivesLowering`,
  `PageScan.LooseMatchImpliesExactMatch` and `PageScan.LooseIsSubsequenceOfExact`
  are false for Python's real `str.lower`. Python lower-cases 'Σ' according to
  its context (final sigma): `'Σ' in 'ΟΔΟΣ'` is true but `'σ' in 'οδος'` is
  false, so Python can miss in "exact" mode a page that the case-sensitive mode
  finds.
