/** Page parameters of the highlight and note listings. */
module MarkWeb {
  import opened Wrappers

  const DefaultPageSize := 30

  /** The page sizes a listing accepts. */
  const PageSizes: set<int> := {1, 5, 10, 30, 50, 100}

  /** `request.args.get("size", default=30, type=int)`: an absent or non-integer value gives 30. */
  function PageSizeArgument(arg: Option<int>): (r: int)
    ensures arg.None? ==> r == DefaultPageSize
    ensures arg.Some? ==> r == arg.value
  {
    if arg.None? then DefaultPageSize else arg.value
  }

  /** `validate_page_size`. */
  function ValidatePageSize(size: int): (r: Outcome)
    ensures r.Pass? <==> size in PageSizes
    ensures r.Fail? ==> r.error == ValueError("Invalid page size as pagination parameter")
  {
    if size !in PageSizes then Fail(ValueError("Invalid page size as pagination parameter")) else Pass
  }

  /** The zero-based page number: `max(1, page) - 1`, the page defaulting to 1. */
  function PageNumber(page: Option<int>): (r: int)
  {
    var p := if page.None? then 1 else page.value;
    (if p < 1 then 1 else p) - 1
  }

  /** The page number shown to the user. */
  function DisplayedPage(number: int): int
  {
    number + 1
  }

  /** The zero-based page number is never negative, every request for page 1 or below (or
      no page) gives 0, a larger page p gives p - 1, and the displayed page is at least 1 and
      is the requested page whenever that was at least 1. */
  lemma PageNumberRange(page: Option<int>)
    ensures PageNumber(page) >= 0
    ensures page.None? || page.value <= 1 ==> PageNumber(page) == 0
    ensures page.Some? && page.value >= 1 ==> PageNumber(page) == page.value - 1
                                              && DisplayedPage(PageNumber(page)) == page.value
    ensures DisplayedPage(PageNumber(page)) >= 1
  {
  }

  /** The parameters a listing works with: the checked size and the zero-based page number. */
  function PageRequest(size: Option<int>, page: Option<int>): (r: Result<(int, int)>)
    ensures r.Ok? <==> PageSizeArgument(size) in PageSizes
    ensures r.Err? ==> r.error == ValueError("Invalid page size as pagination parameter")
    ensures r.Ok? ==> r.value.0 == PageSizeArgument(size) && r.value.0 > 0 && r.value.1 == PageNumber(page)
  {
    var s := PageSizeArgument(size);
    var check := ValidatePageSize(s);
    if check.Fail? then Err(check.error) else Ok((s, PageNumber(page)))
  }

  /** The default size passes the check; sizes outside the list, such as 0 or 20, do not. */
  lemma PageSizeExamples()
    ensures PageRequest(None, None) == Ok((30, 0))
    ensures PageRequest(Some(20), None).Err? && PageRequest(Some(0), Some(3)).Err?
    ensures PageRequest(Some(100), Some(-4)) == Ok((100, 0))
  {
  }
}
