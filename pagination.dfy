/** Pagination of list endpoints: the query parameters accepted at the boundary
    (`PaginationDto`) and the metadata returned with every page (`PaginationMeta`). */
module Pagination {
  import opened Common

  datatype SortOrder = Asc | Desc

  /** A validated list query, after defaults have been applied. */
  datatype Query = Query(page: int, limit: int, search: Option<string>,
                         sortBy: Option<string>, sortOrder: SortOrder)

  /** The page metadata returned with each list result. */
  datatype Meta = Meta(total: int, page: int, limit: int,
                       totalPages: int, hasNextPage: bool, hasPrevPage: bool)

  /** Validation and defaults of the query parameters: `page` is an integer of at least 1
      (default 1), `limit` an integer from 1 to 100 (default 10), the sort order defaults
      to descending; `search` and `sortBy` are optional and unchecked. */
  function ParseQuery(page: Option<int>, limit: Option<int>, search: Option<string>,
                      sortBy: Option<string>, sortOrder: Option<SortOrder>): (r: Result<Query>)
    ensures r.Ok? <==> (page.Some? ==> page.value >= 1) && (limit.Some? ==> 1 <= limit.value <= 100)
    ensures r.Ok? ==> 1 <= r.value.page && 1 <= r.value.limit <= 100
    ensures r.Ok? ==> r.value.page == (if page.Some? then page.value else 1)
    ensures r.Ok? ==> r.value.limit == (if limit.Some? then limit.value else 10)
    ensures r.Ok? ==> r.value.sortOrder == (if sortOrder.Some? then sortOrder.value else Desc)
    ensures r.Ok? ==> r.value.search == search && r.value.sortBy == sortBy
    ensures r.Err? ==> Kind(r.error) == BadRequest
  {
    if page.Some? && page.value < 1 then Err(InvalidPage)
    else if limit.Some? && !(1 <= limit.value <= 100) then Err(InvalidLimit)
    else
      Ok(Query(if page.Some? then page.value else 1,
               if limit.Some? then limit.value else 10,
               search, sortBy,
               if sortOrder.Some? then sortOrder.value else Desc))
  }

  /** The `PaginationMeta` constructor: the inputs are kept, `totalPages` is the least
      number of pages of `limit` items that hold `total` items, there is a next page exactly
      when the items of the pages up to and including `page` do not cover `total`, and a
      previous page exactly when `page` is past the first. */
  function NewMeta(total: int, page: int, limit: int): (m: Meta)
    requires total >= 0 && limit >= 1
    ensures m.total == total && m.page == page && m.limit == limit
    ensures m.totalPages >= 0
    ensures (m.totalPages - 1) * limit < total <= m.totalPages * limit
    ensures m.hasNextPage <==> page * limit < total
    ensures m.hasPrevPage <==> page >= 2
  {
    var totalPages := CeilDiv(total, limit);
    NextPageIffItemsRemain(total, page, limit, totalPages);
    Meta(total, page, limit, totalPages, page < totalPages, page > 1)
  }

  /** For the ceiling `tp` of `total / limit`, `page < tp` holds exactly when the first
      `page` pages leave items over. */
  lemma NextPageIffItemsRemain(total: int, page: int, limit: int, tp: int)
    requires limit >= 1 && (tp - 1) * limit < total <= tp * limit
    ensures page < tp <==> page * limit < total
  {
    if page < tp {
      assert page <= tp - 1;
      assert page * limit <= (tp - 1) * limit by {
        MulMonotone(page, tp - 1, limit);
      }
    } else {
      MulMonotone(tp, page, limit);
    }
  }

  lemma MulMonotone(a: int, b: int, c: int)
    requires a <= b && c >= 0
    ensures a * c <= b * c
  {
    assert b * c - a * c == (b - a) * c;
  }
}
