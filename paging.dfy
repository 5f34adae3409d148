/**
 Page arithmetic of the lazily paginated table: a fixed page size, the
 paginator's `first` offset, the 1-based page index it stands for, the global
 ordinal of a row, and the clamp applied to a requested bulk count.
 */
module Paging {

  /** Rows per page. */
  const ROWS: int := 12

  /** The offset of the first row of 1-based page `page`, as the paginator reports it in `first`. */
  function FirstOfPage(page: int): int
  {
    (page - 1) * ROWS
  }

  /**
   The 1-based page index of the view whose first row is at offset `first`.
   The source divides in floating point; the result is a page index only when
   `first` is a multiple of the page size.
   */
  function CurrentPage(first: int): (page: int)
    requires first % ROWS == 0
    ensures FirstOfPage(page) == first
    ensures page >= 1 <==> first >= 0
  {
    first / ROWS + 1
  }

  /** The global 1-based ordinal of the first row of page `page`. */
  function PageStart(page: int): int
  {
    FirstOfPage(page) + 1
  }

  /** The global 1-based ordinal of row `index` of page `page`. */
  function GlobalOrdinal(page: int, index: int): int
  {
    PageStart(page) + index
  }

  /** Going from a page to its offset and back gives the page again, and the other way round. */
  lemma PageRoundTrip(page: int, first: int)
    ensures CurrentPage(FirstOfPage(page)) == page
    ensures first % ROWS == 0 ==> FirstOfPage(CurrentPage(first)) == first
  {
  }

  /**
   The requested bulk count, first raised to zero when negative, then lowered
   to the known total when above it.
   */
  function ClampCount(count: int, total: int): (clamped: int)
    ensures clamped <= total
    ensures total >= 0 ==> 0 <= clamped
    ensures 0 <= count <= total ==> clamped == count
    ensures count < 0 && total >= 0 ==> clamped == 0
    ensures count > total ==> clamped == total
    ensures total < 0 ==> clamped == total
  {
    var raised := if count < 0 then 0 else count;
    if raised > total then total else raised
  }
}
