/**
 * The pagination metadata the listing handlers return next to a page of rows
 * (all enrollments, one student's enrollments, all progress rows, all users):
 * rows are skipped by (page - 1) * limit, and the metadata reports the page
 * count and whether a next or previous page exists.
 */
module Pagination {

  datatype PageInfo = PageInfo(totalPages: int, hasNextPage: bool, hasPrevPage: bool)

  /** `Math.ceil(total / limit)`: the fewest pages of `limit` rows that hold `total` rows. */
  function TotalPages(total: nat, limit: int): (n: nat)
    requires limit >= 1
    ensures n * limit >= total
    ensures n == 0 || (n - 1) * limit < total
    ensures n == 0 <==> total == 0
  {
    var n := (total + limit - 1) / limit;
    assert n * limit + (total + limit - 1) % limit == total + limit - 1;
    n
  }

  /** The number of rows skipped before the requested page. */
  function Offset(page: int, limit: int): (o: int)
    ensures page >= 1 && limit >= 0 ==> o >= 0
    ensures o + limit == page * limit
  {
    (page - 1) * limit
  }

  /** The metadata for page `page` of `total` rows, `limit` rows per page. */
  function Paginate(total: nat, page: int, limit: int): (p: PageInfo)
    requires limit >= 1
    ensures p.totalPages == TotalPages(total, limit)
    ensures p.hasNextPage <==> page < p.totalPages
    ensures p.hasPrevPage <==> page > 1
  {
    var n := TotalPages(total, limit);
    PageInfo(n, page < n, page > 1)
  }

  /**
   * A next page is reported exactly when rows remain after the requested
   * page's window, whatever page number was asked for.
   */
  lemma {:induction false} NextPageMeansMoreRows(total: nat, page: int, limit: int)
    requires limit >= 1
    ensures Paginate(total, page, limit).hasNextPage <==> Offset(page, limit) + limit < total
  {
    var n: int := TotalPages(total, limit);
    if page < n {
      MulMonotone(page, n - 1, limit);
    } else {
      MulMonotone(n, page, limit);
    }
  }

  /**
   * The requested page's window overlaps the rows exactly when the page
   * number is between 1 and the page count.
   */
  lemma {:induction false} PageInRange(total: nat, page: int, limit: int)
    requires limit >= 1
    ensures (Offset(page, limit) < total && Offset(page, limit) + limit > 0)
        <==> 1 <= page <= Paginate(total, page, limit).totalPages
  {
    var n: int := TotalPages(total, limit);
    if page > n {
      MulMonotone(n, page - 1, limit);
    } else if page >= 1 {
      MulMonotone(page - 1, n - 1, limit);
    } else {
      MulMonotone(page, 0, limit);
    }
  }

  lemma MulMonotone(a: int, b: int, k: int)
    requires a <= b && k >= 0
    ensures a * k <= b * k
  {
    assert b * k - a * k == (b - a) * k;
  }
}
