/** The pagination arithmetic of `getTasks` (controllers/taskController.js):
    defaults `page = 1`, `limit = 5`, both clamped to at least 1, the skip
    count, the `.skip(skip).limit(limit)` window over the matches, and the
    page count `ceil(total / limit)`. Parameters are integers here. */
module Pagination {
  import opened Common

  const DefaultPage: int := 1
  const DefaultLimit: int := 5

  /** The `pagination` object of the reply. */
  datatype PageInfo = PageInfo(page: int, limit: int, total: int, pages: int)

  /** `Math.max(n, 1)`. */
  function AtLeastOne(n: int): (r: int)
    ensures r >= 1 && r >= n
    ensures r == n || r == 1
  {
    if n >= 1 then n else 1
  }

  /** `Math.ceil(total / limit)` for a positive limit: the fewest pages of
      `limit` items that hold `total` items. */
  function PageCount(total: nat, limit: int): (r: nat)
    requires limit >= 1
    ensures r * limit >= total
    ensures r > 0 ==> (r - 1) * limit < total
    ensures r == 0 <==> total == 0
  {
    (total + limit - 1) / limit
  }

  /** `.skip(skip).limit(limit)`: at most `limit` items, starting at `skip`,
      in order; nothing when `skip` is past the end. */
  function Window<T>(items: seq<T>, skip: nat, limit: nat): (r: seq<T>)
    ensures |r| <= limit
    ensures skip >= |items| ==> r == []
    ensures skip < |items| ==> |r| == if |items| - skip < limit then |items| - skip else limit
    ensures forall k :: 0 <= k < |r| ==> skip + k < |items| && r[k] == items[skip + k]
  {
    if skip >= |items| then []
    else if |items| - skip < limit then items[skip..]
    else items[skip..skip + limit]
  }

  /** `skip = (pageNum - 1) * limitNum`: the number of matches on the pages
      before `page`. */
  function Offset(page: int, limit: int): nat
    requires page >= 1 && limit >= 1
  {
    ProductNonNegative(page - 1, limit);
    (page - 1) * limit
  }

  /** One page of `matches` for the raw `page` and `limit` parameters. */
  function Paginate<T>(matches: seq<T>, page: Option<int>, limit: Option<int>): (r: (seq<T>, PageInfo))
    ensures r.1.page >= 1 && r.1.limit >= 1
    ensures r.1.page == AtLeastOne(if page.Some? then page.value else DefaultPage)
    ensures r.1.limit == AtLeastOne(if limit.Some? then limit.value else DefaultLimit)
    ensures r.1.total == |matches|
    ensures r.1.pages * r.1.limit >= r.1.total
    ensures r.1.pages > 0 ==> (r.1.pages - 1) * r.1.limit < r.1.total
    ensures |r.0| <= r.1.limit
    ensures var skip := Offset(r.1.page, r.1.limit);
            |r.0| == if skip >= |matches| then 0
                     else if |matches| - skip < r.1.limit then |matches| - skip
                     else r.1.limit
    ensures forall k :: 0 <= k < |r.0| ==>
              Offset(r.1.page, r.1.limit) + k < |matches| && r.0[k] == matches[Offset(r.1.page, r.1.limit) + k]
  {
    var pageNum := AtLeastOne(if page.Some? then page.value else DefaultPage);
    var limitNum := AtLeastOne(if limit.Some? then limit.value else DefaultLimit);
    var skip := Offset(pageNum, limitNum);
    (Window(matches, skip, limitNum), PageInfo(pageNum, limitNum, |matches|, PageCount(|matches|, limitNum)))
  }

  /** A non-positive page is served exactly as page 1, and a non-positive
      limit exactly as limit 1. */
  lemma ClampedParameters<T>(matches: seq<T>, page: int, limit: int)
    ensures page < 1 ==> Paginate(matches, Some(page), Some(limit)) == Paginate(matches, Some(1), Some(limit))
    ensures limit < 1 ==> Paginate(matches, Some(page), Some(limit)) == Paginate(matches, Some(page), Some(1))
  {
  }

  /** Every match appears on exactly the page its position says, and that
      page is one of the `pages` the reply announces: no match is lost
      between pages. */
  lemma EveryMatchOnItsPage<T>(matches: seq<T>, limit: int, i: int)
    requires limit >= 1 && 0 <= i < |matches|
    ensures var page := i / limit + 1;
            var r := Paginate(matches, Some(page), Some(limit));
            && 1 <= page <= r.1.pages
            && i % limit < |r.0|
            && r.0[i % limit] == matches[i]
  {
    var page := i / limit + 1;
    var q := i / limit;
    var m := i % limit;
    assert i == q * limit + m;
    assert (page - 1) * limit == q * limit;
    var n := PageCount(|matches|, limit);
    assert q * limit < n * limit;
    ProductCancel(q, n, limit);
    var skip := q * limit;
    assert skip + m == i;
    assert |Window(matches, skip, limit)| > m;
  }

  lemma ProductNonNegative(a: int, b: int)
    requires a >= 0 && b >= 0
    ensures a * b >= 0
  {
  }

  lemma ProductCancel(a: int, b: int, c: int)
    requires c > 0 && a * c < b * c
    ensures a < b
  {
  }
}
