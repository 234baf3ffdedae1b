/** The page block of paginated listings. */
module Pagination {
  import opened Wrappers

  /** Python's `a // b`, rounding toward negative infinity. */
  function FloorDiv(a: int, b: int): (q: int)
    requires b != 0
    ensures b > 0 ==> q * b <= a < q * b + b
    ensures b < 0 ==> q * b >= a > q * b + b
  {
    if b > 0 then a / b else (-a) / (-b)
  }

  /** `ceil(a / b)`, without the float rounding of the division. */
  function CeilDiv(a: int, b: int): int
    requires b != 0
  {
    -FloorDiv(-a, b)
  }

  /** For a positive divisor the ceiling is the least q with a <= q * b. */
  lemma CeilDivBounds(a: int, b: int)
    requires b > 0
    ensures (CeilDiv(a, b) - 1) * b < a <= CeilDiv(a, b) * b
  {
  }

  datatype Page = Page(size: int, totalElements: int, totalPages: int, number: int)

  datatype PaginatedResponse<C> = PaginatedResponse(page: Page, content: seq<C>)

  function TotalPages(size: int, totalElements: int): int
    requires size != 0
  {
    var pages := CeilDiv(totalElements, size);
    if pages < 1 then 1 else pages
  }

  /** `build_paginated_response`; a zero size divides by zero. */
  function BuildPaginatedResponse<C>(size: int, totalElements: int, number: int, content: seq<C>)
    : (r: Result<PaginatedResponse<C>>)
    ensures r.Err? <==> size == 0
    ensures r.Err? ==> r.error == ZeroDivisionError
    ensures r.Ok? ==> r.value.page.size == size && r.value.page.totalElements == totalElements
                      && r.value.page.number == number && r.value.content == content
                      && r.value.page.totalPages == TotalPages(size, totalElements)
  {
    if size == 0 then Err(ZeroDivisionError)
    else Ok(PaginatedResponse(Page(size, totalElements, TotalPages(size, totalElements), number), content))
  }

  /** There is always at least one page; no elements make exactly one; otherwise, for a
      positive size, the pages are the fewest that hold every element. */
  lemma TotalPagesBounds(size: int, totalElements: int)
    requires size > 0
    ensures TotalPages(size, totalElements) >= 1
    ensures totalElements <= 0 ==> TotalPages(size, totalElements) == 1
    ensures totalElements > 0 ==>
      (TotalPages(size, totalElements) - 1) * size < totalElements <= TotalPages(size, totalElements) * size
  {
  }

  /** 95 elements at 30 a page take 4 pages; 90 take 3. */
  lemma TotalPagesExamples()
    ensures TotalPages(30, 95) == 4 && TotalPages(30, 90) == 3 && TotalPages(30, 0) == 1
  {
  }
}
