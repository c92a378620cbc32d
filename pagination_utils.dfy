/** frontend/src/utils/paginationUtils.ts: the window of page buttons the pagination bar
    shows, and the number of pages for a result count. */
module PaginationUtils {
  import opened Wrappers
  import JsText
  import JsValues

  const DEFAULT_MAX_VISIBLE := 5

  /** The buttons startPage .. endPage, and whether an ellipsis stands before or after them. */
  datatype PaginationRange = PaginationRange(
    startPage: int, endPage: int, showStartEllipsis: bool, showEndEllipsis: bool)

  function Max(a: int, b: int): int { if a >= b then a else b }
  function Min(a: int, b: int): int { if a <= b then a else b }

  /** calculatePaginationRange: a window of at most maxVisible pages centred on the current
      page, moved left when it would run past the last page. Math.floor(maxVisible / 2) is
      Dafny's `/`, which rounds down for the divisor 2. */
  function CalculatePaginationRange(currentPage: int, totalPages: int, maxVisible: int := DEFAULT_MAX_VISIBLE): (r: PaginationRange)
    ensures r.startPage >= 1 && r.endPage <= totalPages
    ensures r.endPage - r.startPage + 1 <= maxVisible
    ensures 1 <= maxVisible <= totalPages && 1 <= currentPage <= totalPages ==>
      r.endPage - r.startPage + 1 == maxVisible && r.startPage <= currentPage <= r.endPage
    ensures totalPages < maxVisible ==> r.startPage == 1 && r.endPage == totalPages
    ensures r.showStartEllipsis <==> r.startPage > 2
    ensures r.showEndEllipsis <==> r.endPage < totalPages - 1
  {
    var halfVisible := maxVisible / 2;
    var firstStart := Max(1, currentPage - halfVisible);
    var end := Min(totalPages, firstStart + maxVisible - 1);
    var start := if end - firstStart + 1 < maxVisible then Max(1, end - maxVisible + 1) else firstStart;
    PaginationRange(start, end, start > 2, end < totalPages - 1)
  }

  /** The cases of paginationUtils.test.ts. */
  lemma PaginationRangeExamples()
    ensures CalculatePaginationRange(1, 10) == PaginationRange(1, 5, false, true)
    ensures CalculatePaginationRange(5, 10) == PaginationRange(3, 7, true, true)
    ensures CalculatePaginationRange(10, 10) == PaginationRange(6, 10, true, false)
    ensures CalculatePaginationRange(1, 3) == PaginationRange(1, 3, false, false)
    ensures var r := CalculatePaginationRange(5, 20, 7); r.endPage - r.startPage + 1 <= 7
  {
  }

  /** The result count as the frontend receives it: the text OMDb sends, or a number. */
  datatype TotalResults = Text(text: string) | Number(value: JsValues.JsNumber)

  /** The number a count stands for: parseInt(text, 10) for text (NaN when no digits). */
  function TotalOf(totalResults: TotalResults): JsValues.JsNumber {
    match totalResults
    case Text(s) => (match JsText.ParseInt(s) case Some(v) => JsValues.Int(v) case None => JsValues.NaN)
    case Number(x) => x
  }

  /** calculateTotalPages: 0 for a count that is NaN or not positive, otherwise the ceiling
      of count / pageSize. The source divides by whatever pageSize it is given; its callers
      pass the page size 10, and this model asks for a positive one. */
  function CalculateTotalPages(totalResults: TotalResults, pageSize: int): (r: int)
    requires pageSize >= 1
    ensures r >= 0
    ensures r == 0 <==> TotalOf(totalResults).NaN? || JsValues.AtMost(TotalOf(totalResults), 0)
    ensures TotalOf(totalResults).Int? && TotalOf(totalResults).value > 0 ==>
      (r - 1) * pageSize < TotalOf(totalResults).value <= r * pageSize
    ensures TotalOf(totalResults).Frac? && TotalOf(totalResults).floor >= 0 ==>
      (r - 1) * pageSize <= TotalOf(totalResults).floor < r * pageSize
  {
    var total := TotalOf(totalResults);
    if total.NaN? || JsValues.AtMost(total, 0) then 0
    else
      var q := JsValues.CeilDivNumber(total, pageSize);
      assert q >= 1 by {
        if q <= 0 {
          NonPositiveProduct(q, pageSize);
        }
      }
      q
  }

  /** Proof helper: nonlinear arithmetic the solver does not find alone. */
  lemma NonPositiveProduct(q: int, d: int)
    requires q <= 0 && d >= 1
    ensures q * d <= 0
  {
  }

  /** A count sent as the decimal text of n gives as many pages as the number n. */
  lemma TextAndNumberAgree(n: int, pageSize: int)
    requires pageSize >= 1
    ensures CalculateTotalPages(Text(JsText.IntToString(n)), pageSize) == CalculateTotalPages(Number(JsValues.Int(n)), pageSize)
  {
    JsText.ParseIntRoundTrip(n);
  }

  /** The cases of paginationUtils.test.ts. */
  lemma TotalPagesOfHundred()
    ensures CalculateTotalPages(Number(JsValues.Int(100)), 10) == 10
  {
  }

  lemma TotalPagesRoundUp()
    ensures CalculateTotalPages(Number(JsValues.Int(95)), 10) == 10
  {
  }

  lemma TotalPagesSinglePage()
    ensures CalculateTotalPages(Number(JsValues.Int(5)), 10) == 1
  {
  }

  lemma TotalPagesOfNothing()
    ensures CalculateTotalPages(Number(JsValues.NaN), 10) == 0
    ensures CalculateTotalPages(Number(JsValues.Int(0)), 10) == 0
    ensures CalculateTotalPages(Number(JsValues.Int(-10)), 10) == 0
  {
  }

  lemma TotalPagesOfText()
    ensures CalculateTotalPages(Text("100"), 10) == 10
  {
    TextAndNumberAgree(100, 10);
    assert JsText.IntToString(100) == "100";
    TotalPagesOfHundred();
  }

  lemma TotalPagesOfWord()
    ensures CalculateTotalPages(Text("invalid"), 10) == 0
  {
    assert JsText.ParseInt("invalid").None? by {
      assert JsText.TrimStart("invalid") == "invalid";
    }
  }
}
