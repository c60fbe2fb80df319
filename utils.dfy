/** `extractPaginationParameters` (utils.ts). The raw `page` and `pageSize`
    query strings are taken already parsed: `None` when the query parameter is
    absent or empty, `Some(n)` for the number it parses to. */
module Utils {
  import opened Tables

  datatype Pagination = Pagination(page: int, pageSize: int, offset: int)

  const DefaultPage := 1
  const DefaultPageSize := 1000

  function ExtractPaginationParameters(page: Option<nat>, pageSize: Option<nat>): (r: Pagination)
    ensures r.page == (if page.Some? then page.value else DefaultPage)
    ensures r.pageSize == (if pageSize.Some? then pageSize.value else DefaultPageSize)
    ensures r.offset == (r.page - 1) * r.pageSize
  {
    var p := if page.Some? then page.value else DefaultPage;
    var n := if pageSize.Some? then pageSize.value else DefaultPageSize;
    Pagination(p, n, (p - 1) * n)
  }

  /** With neither parameter the first page of 1000 rows is requested. */
  lemma Defaults()
    ensures ExtractPaginationParameters(None, None) == Pagination(1, 1000, 0)
  {
  }

  /** From page 1 on the offset is never negative, and page `p + 1` starts
      exactly where page `p` ends. */
  lemma {:induction false} ConsecutivePagesTile(page: nat, pageSize: nat)
    requires page >= 1
    ensures ExtractPaginationParameters(Some(page), Some(pageSize)).offset >= 0
    ensures ExtractPaginationParameters(Some(page + 1), Some(pageSize)).offset
         == ExtractPaginationParameters(Some(page), Some(pageSize)).offset + pageSize
  {
    assert page * pageSize == (page - 1) * pageSize + pageSize;
  }
}
