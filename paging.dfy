/** The arithmetic of the pagination route and the rows that `LIMIT ? OFFSET ?` selects. */
module Paging {

  /** Python's `a // b`: the quotient rounded towards minus infinity. */
  function FloorDiv(a: int, b: int): (q: int)
    requires b != 0
    ensures b > 0 ==> q * b <= a < q * b + b
    ensures b < 0 ==> q * b + b < a <= q * b
  {
    if b > 0 then a / b else (-a) / (-b)
  }

  /** `offset = (page - 1) * limit` */
  function Offset(page: int, limit: int): int
  {
    (page - 1) * limit
  }

  /** `total_pages = (total_users + limit - 1) // limit`; Python raises for a zero limit. */
  function TotalPages(total: int, limit: int): int
    requires limit != 0
  {
    FloorDiv(total + limit - 1, limit)
  }

  /** The rows `LIMIT limit OFFSET offset` selects, in table order. SQLite
      reads a negative offset as zero and a negative limit as no bound. */
  function Window<T>(rows: seq<T>, limit: int, offset: int): seq<T>
  {
    var start := if offset <= 0 then 0 else if offset >= |rows| then |rows| else offset;
    var stop := if limit < 0 || limit >= |rows| - start then |rows| else start + limit;
    rows[start..stop]
  }

  /** For a positive limit the page count is the ceiling of total / limit:
      the least count of pages of `limit` rows that holds every row. */
  lemma TotalPagesIsCeiling(total: nat, limit: int)
    requires limit >= 1
    ensures TotalPages(total, limit) >= 0
    ensures total <= TotalPages(total, limit) * limit
    ensures TotalPages(total, limit) == 0 || (TotalPages(total, limit) - 1) * limit < total
  {
    var q := TotalPages(total, limit);
    assert q * limit <= total + limit - 1 < q * limit + limit;
    assert (q - 1) * limit == q * limit - limit;
    assert (q + 1) * limit == q * limit + limit;
    if q < 0 {
      MulMonotone(-1, q + 1, limit);
    }
  }

  lemma MulMonotone(a: int, b: int, c: int)
    requires a <= b && c >= 0
    ensures a * c <= b * c
  {
    assert b * c - a * c == (b - a) * c;
  }

  /** A window with a non-negative offset and limit holds at most `limit` rows,
      and they are the rows from position `offset` on. */
  lemma WindowContents<T>(rows: seq<T>, limit: int, offset: int)
    requires offset >= 0 && limit >= 0
    ensures |Window(rows, limit, offset)| <= limit
    ensures offset <= |rows| ==> |Window(rows, limit, offset)| == if offset + limit <= |rows| then limit else |rows| - offset
    ensures offset >= |rows| ==> Window(rows, limit, offset) == []
    ensures forall i :: 0 <= i < |Window(rows, limit, offset)| ==> Window(rows, limit, offset)[i] == rows[offset + i]
  {
  }

  /** Page `page` of size `limit` holds the rows at positions
      `[(page-1)*limit, (page-1)*limit + limit)` that exist, so at most `limit` rows. */
  lemma PageContents<T>(rows: seq<T>, page: int, limit: int)
    requires page >= 1 && limit >= 1
    ensures |Window(rows, limit, Offset(page, limit))| <= limit
    ensures |Window(rows, limit, Offset(page, limit))| ==
      if Offset(page, limit) >= |rows| then 0
      else if Offset(page, limit) + limit <= |rows| then limit
      else |rows| - Offset(page, limit)
    ensures forall i :: 0 <= i < |Window(rows, limit, Offset(page, limit))| ==>
      Window(rows, limit, Offset(page, limit))[i] == rows[(page - 1) * limit + i]
  {
    MulMonotone(0, page - 1, limit);
    WindowContents(rows, limit, Offset(page, limit));
  }

  /** A page past the last one is empty, not an error. */
  lemma PastLastPage<T>(rows: seq<T>, page: int, limit: int)
    requires page >= 1 && limit >= 1
    requires page > TotalPages(|rows|, limit)
    ensures Window(rows, limit, Offset(page, limit)) == []
  {
    TotalPagesIsCeiling(|rows|, limit);
    MulMonotone(TotalPages(|rows|, limit), page - 1, limit);
  }

  /** Every row lies on one of the pages 1..total_pages: row `i` is entry
      `i % limit` of page `i / limit + 1`. */
  lemma RowOnPage<T>(rows: seq<T>, limit: int, i: int)
    requires limit >= 1 && 0 <= i < |rows|
    ensures 1 <= i / limit + 1 <= TotalPages(|rows|, limit)
    ensures i % limit < |Window(rows, limit, Offset(i / limit + 1, limit))|
    ensures Window(rows, limit, Offset(i / limit + 1, limit))[i % limit] == rows[i]
  {
    var p := i / limit + 1;
    assert Offset(p, limit) == (i / limit) * limit;
    assert (i / limit) * limit + i % limit == i;
    TotalPagesIsCeiling(|rows|, limit);
    var tp := TotalPages(|rows|, limit);
    if p > tp {
      MulMonotone(tp, p - 1, limit);
    }
    WindowContents(rows, limit, Offset(p, limit));
  }

  /** 25 rows in pages of 10: three pages, the third holds 5 rows and the fourth none. */
  lemma TwentyFiveRowsByTen<T>(rows: seq<T>)
    requires |rows| == 25
    ensures TotalPages(|rows|, 10) == 3
    ensures |Window(rows, 10, Offset(3, 10))| == 5
    ensures Window(rows, 10, Offset(4, 10)) == []
  {
  }
}
