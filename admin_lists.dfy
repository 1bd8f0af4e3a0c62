/** What the two list pages of the admin area, admin/users.php and
    admin/messages.php, have in common: the sign-in guard, the
    `$success`/`$error` pair an action leaves for the page, and the
    pagination (ten rows a page, the offset `($page - 1) * $per_page` with no
    clamping of the page number, and `ceil($total / $per_page)` pages). */
module AdminLists {
  import opened PhpBuiltins

  /** The message an action leaves in `$success` or `$error`; at most one is set. */
  datatype Flash = NoFlash | Success(message: string) | Failure(message: string)

  datatype PageOutcome =
    | RedirectToLogin          // no administrator signed in: nothing else runs
    | Shown(flash: Flash)

  const PER_PAGE: nat := 10

  /** `(int)$_GET['page']`, defaulting to 1 when absent. */
  function PageNumber(param: Option<int>): int {
    if param.Some? then param.value else 1
  }

  /** The OFFSET of a page; page 1 starts at row 0. */
  function PageOffset(page: int): int {
    (page - 1) * PER_PAGE
  }

  /** The number of pages the view links to. */
  function TotalPages(total: nat): nat {
    CeilDiv(total, PER_PAGE)
  }

  /** No page when there is nothing to list; otherwise exactly enough pages
      of ten for every row, and not one more. */
  lemma TotalPagesSpec(total: nat)
    ensures TotalPages(total) == 0 <==> total == 0
    ensures TotalPages(total) * PER_PAGE >= total
    ensures total > 0 ==> (TotalPages(total) - 1) * PER_PAGE < total
  {
  }

  /** Each page 1..TotalPages(total) starts inside the result, consecutive
      pages are ten rows apart, and the last page holds between 1 and 10 rows. */
  lemma PagesCoverRows(total: nat, page: int)
    requires 1 <= page <= TotalPages(total)
    ensures 0 <= PageOffset(page) < total
    ensures PageOffset(page + 1) == PageOffset(page) + PER_PAGE
    ensures page == TotalPages(total) ==> 0 < total - PageOffset(page) <= PER_PAGE
  {
    TotalPagesSpec(total);
    assert PageOffset(page) <= PageOffset(TotalPages(total));
  }

  /** The page number is not clamped: page 0 or below gives a negative
      offset, and a page past the last starts beyond the last row. */
  lemma UnclampedPages(total: nat, page: int)
    ensures page <= 0 ==> PageOffset(page) < 0
    ensures page > TotalPages(total) ==> PageOffset(page) >= total
  {
    TotalPagesSpec(total);
    if page > TotalPages(total) {
      assert (page - 1) * PER_PAGE >= TotalPages(total) * PER_PAGE;
    }
  }
}
