/** Page windows: sanitized parameters, page counts and LIMIT/OFFSET. */
module Pagination {
  import opened Arithmetic

  const DEFAULT_LIMIT := 20
  const MAX_LIMIT := 100

  /** A query parameter: missing, the empty string, or something that casts to a number. */
  datatype Parameter = Missing | Empty | Given(n: int)

  function AsInt(p: Parameter): int {
    if p.Given? then p.n else 0
  }

  method Sanitize(page: Parameter, limit: Parameter, default: int := DEFAULT_LIMIT, max: int := MAX_LIMIT)
    returns (pageNumber: int, limitNumber: int)
    ensures pageNumber == (if page.Given? && page.n > 1 then page.n else 1)
    ensures 1 <= limitNumber <==> 1 <= max && ((limit.Given? && limit.n > 0) || default >= 1)
    ensures var wanted := if limit.Given? && limit.n > 0 then limit.n else default;
            limitNumber == if wanted > max then max else wanted
  {
    pageNumber := if page.Missing? then 1 else AsInt(page);
    if pageNumber < 1 {
      pageNumber := 1;
    }
    if limit.Missing? || limit.Empty? || AsInt(limit) <= 0 {
      limitNumber := default;
    } else {
      limitNumber := AsInt(limit);
    }
    if limitNumber < 1 {
      limitNumber := default;
    }
    if limitNumber > max {
      limitNumber := max;
    }
  }

  /** What a list request makes of its query: pages from 1 on, of 20 rows if no positive number is
      asked for, and of 100 at most. */
  method FromQuery(page: Parameter, limit: Parameter) returns (pageNumber: int, limitNumber: int)
    ensures pageNumber == if page.Given? && page.n >= 1 then page.n else 1
    ensures limitNumber == if !limit.Given? || limit.n <= 0 then 20 else if limit.n >= 100 then 100 else limit.n
  {
    pageNumber, limitNumber := Sanitize(page, limit);
  }

  function Least(a: int, b: int): int {
    if a < b then a else b
  }

  function Greatest(a: int, b: int): int {
    if a < b then b else a
  }

  /** `(int)`: truncation toward zero. */
  function Truncate(x: real): (n: int)
    ensures if x >= 0.0 then n as real <= x < (n + 1) as real else (n - 1) as real < x <= n as real
  {
    if x >= 0.0 then x.Floor else -((-x).Floor)
  }

  function TotalPages(totalData: int, perPage: int): int {
    if totalData <= 0 || perPage <= 0 then 0 else Truncate((totalData - 1) as real / perPage as real + 1.0)
  }

  function Offset(page: int, limit: int): int {
    limit * page - limit
  }

  function Clamp(limit: int, max: int): int {
    Least(max, Greatest(1, limit))
  }

  class QueryBuilder {
    var limit: int
    var offset: int
  }

  method Apply(query: QueryBuilder, page: int, limit: int, max: int := MAX_LIMIT) returns (effective: int)
    modifies query
    ensures query.limit == effective
    ensures effective == if max < 1 || limit > max then max else if limit < 1 then 1 else limit
    ensures query.offset == effective * ((if page > 1 then page else 1) - 1)
    ensures max >= 1 ==> query.offset >= 0
  {
    effective := Clamp(limit, max);
    var from := Greatest(1, page);
    query.limit := effective;
    query.offset := Offset(from, effective);
    assert effective * from == effective * (from - 1) + effective;
    if max >= 1 {
      Product(effective, from - 1);
    }
  }

  lemma Product(a: int, b: int)
    requires a >= 0 && b >= 0
    ensures a * b >= 0
  {
  }

  /** A sanitized page and limit pass through unchanged exactly if the limit came from a positive
      number, or the default is no smaller than the maximum. */
  method SanitizeThenApply(query: QueryBuilder, page: Parameter, limit: Parameter, default: int, max: int)
    returns (pageNumber: int, limitNumber: int, effective: int)
    modifies query
    ensures query.limit == effective && query.offset == effective * (pageNumber - 1)
    ensures effective == limitNumber <==> AsInt(limit) > 0 || default >= 1 || max <= default
  {
    pageNumber, limitNumber := Sanitize(page, limit, default, max);
    effective := Apply(query, pageNumber, limitNumber, max);
  }

  // ----- The windows of a result sequence -----

  /** The rows LIMIT and OFFSET select. */
  function Window<T>(rows: seq<T>, offset: nat, limit: nat): seq<T> {
    var from := if offset < |rows| then offset else |rows|;
    var to := if offset + limit < |rows| then offset + limit else |rows|;
    rows[from..to]
  }

  function Page<T>(rows: seq<T>, page: int, limit: int): seq<T>
    requires page >= 1 && limit >= 1
  {
    Product(limit, page - 1);
    assert Offset(page, limit) == limit * (page - 1);
    Window(rows, Offset(page, limit), limit)
  }

  /** Pages 1 to n, one after the other. */
  function Pages<T>(rows: seq<T>, n: nat, limit: int): seq<T>
    requires limit >= 1
  {
    if n == 0 then [] else Pages(rows, n - 1, limit) + Page(rows, n, limit)
  }

  lemma OffsetIsProduct(page: int, limit: int)
    requires page >= 1 && limit >= 1
    ensures Offset(page, limit) == limit * (page - 1) >= 0
  {
    Product(limit, page - 1);
  }

  lemma {:induction false} PagesArePrefix<T>(rows: seq<T>, n: nat, limit: int)
    requires limit >= 1
    ensures limit * n >= 0
    ensures Pages(rows, n, limit) == Window(rows, 0, limit * n)
  {
    if n > 0 {
      PagesArePrefix(rows, n - 1, limit);
      OffsetIsProduct(n, limit);
      assert limit * n == limit * (n - 1) + limit;
    }
  }

  /** No rows, or a page size that is not positive: no pages. */
  lemma NoPages(total: int, limit: int)
    ensures TotalPages(total, limit) >= 1 <==> total >= 1 && limit >= 1
    ensures total <= 0 || limit <= 0 ==> TotalPages(total, limit) == 0
  {
    if total >= 1 && limit >= 1 {
      TotalPagesCovers(total, limit);
    }
  }

  /** The page count is the number of pages needed: no fewer cover the rows, no more are needed. */
  lemma TotalPagesCovers(total: int, limit: int)
    requires total >= 1 && limit >= 1
    ensures var n := TotalPages(total, limit);
            n >= 1 && limit * (n - 1) < total <= limit * n
  {
    var q := (total - 1) as real / limit as real;
    var n := (q + 1.0).Floor;
    assert n >= 1 && (n - 1) as real <= q < n as real;
    QuotientTimes((total - 1) as real, limit as real);
    Below(q, n, total, limit);
    Above(q, n - 1, total, limit);
  }

  lemma QuotientTimes(a: real, b: real)
    requires b > 0.0
    ensures a / b * b == a
  {
  }

  lemma Below(q: real, n: int, total: int, limit: int)
    requires limit >= 1 && q < n as real && q * limit as real == (total - 1) as real
    ensures total <= limit * n
  {
    RealProduct(n as real, q, limit as real);
    assert n as real * limit as real == (limit * n) as real;
  }

  lemma Above(q: real, n: int, total: int, limit: int)
    requires limit >= 1 && n as real <= q && q * limit as real == (total - 1) as real
    ensures limit * n < total
  {
    RealProduct(q, n as real, limit as real);
    assert n as real * limit as real == (limit * n) as real;
  }

  lemma RealProduct(a: real, b: real, c: real)
    requires c > 0.0
    ensures a >= b ==> a * c >= b * c
    ensures a > b ==> a * c > b * c
  {
  }

  /** The windows of all pages make up the result, in order, without overlap or gap; each is
      non-empty, and later pages are empty. */
  lemma PagesPartition<T>(rows: seq<T>, limit: int)
    requires limit >= 1
    ensures TotalPages(|rows|, limit) >= 0 && Pages(rows, TotalPages(|rows|, limit), limit) == rows
    ensures forall page :: page >= 1 ==> (Page(rows, page, limit) != [] <==> page <= TotalPages(|rows|, limit))
  {
    var n := TotalPages(|rows|, limit);
    if rows != [] {
      TotalPagesCovers(|rows|, limit);
      PagesArePrefix(rows, n, limit);
    }
    forall page | page >= 1
      ensures Page(rows, page, limit) != [] <==> page <= n
    {
      PageIsEmptyBeyond(rows, page, limit);
    }
  }

  lemma PageIsEmptyBeyond<T>(rows: seq<T>, page: int, limit: int)
    requires page >= 1 && limit >= 1
    ensures Page(rows, page, limit) != [] <==> page <= TotalPages(|rows|, limit)
  {
    OffsetIsProduct(page, limit);
    var n := TotalPages(|rows|, limit);
    if rows != [] {
      TotalPagesCovers(|rows|, limit);
      if page <= n {
        if page < n {
          MulLess(limit, page - 1, n - 1);
        }
      } else if page - 1 > n {
        MulLess(limit, n, page - 1);
      }
    }
  }
}
