/**
 * The pagination arithmetic shared by the listing routes: `page || 1`,
 * `limit || 100`, `offset = (page - 1) * limit`, `LIMIT … OFFSET …` and
 * `totalPages = Math.ceil(count / limit)`.
 */
module Pagination {
  import opened Common
  import opened Ordering

  const DefaultPage: int := 1
  const DefaultLimit: int := 100

  function Min(a: int, b: int): int { if a <= b then a else b }

  /** `parsed || fallback` on a parsed number: NaN (None) and 0 are falsy. */
  function OrDefault(parsed: Option<int>, fallback: int): (v: int)
    ensures parsed.Some? && parsed.value != 0 ==> v == parsed.value
    ensures parsed.None? || parsed.value == 0 ==> v == fallback
    ensures fallback != 0 ==> v != 0
  {
    if parsed.Some? && parsed.value != 0 then parsed.value else fallback
  }

  /** `(page - 1) * limit`. */
  function Offset(page: int, limit: int): int
  {
    (page - 1) * limit
  }

  /** `Math.ceil(count / limit)`: the least integer t with t >= count / limit. */
  function TotalPages(count: nat, limit: int): (t: int)
    requires limit != 0
    ensures limit > 0 ==> t >= 0 && t * limit >= count && (t - 1) * limit < count
    ensures limit < 0 ==> t <= 0 && t * limit <= count && (t - 1) * limit > count
  {
    if limit > 0 then (count + limit - 1) / limit else -(count / -limit)
  }

  /**
   * `LIMIT limit OFFSET offset` over the ordered rows. MySQL refuses a negative
   * value, which ends in the route's 500 answer.
   */
  function Window<T>(rows: seq<T>, limit: int, offset: int): (r: Response<seq<T>>)
    ensures r.Fail? <==> limit < 0 || offset < 0
    ensures r.Fail? ==> r.status == 500
    ensures r.Ok? ==> && |r.body| == (if offset >= |rows| then 0 else Min(limit, |rows| - offset))
                      && forall i :: 0 <= i < |r.body| ==> r.body[i] == rows[offset + i]
  {
    if limit < 0 || offset < 0 then Fail(500)
    else if offset >= |rows| then Ok([])
    else Ok(rows[offset..Min(offset + limit, |rows|)])
  }

  /** The rows the search matches, id descending: the listing before it is cut into pages. */
  function Ordered<T(!new)>(table: seq<T>, matches: T -> bool, id: T -> int): (r: seq<T>)
    ensures |r| == |Filter(table, matches)|
    ensures multiset(r) == multiset(Filter(table, matches))
    ensures SortedDesc(r, id)
  {
    var same := (x: T) => x;
    ProjectIdentity(Filter(table, matches), same);
    Select(table, matches, same, id)
  }

  /** Projecting every row to itself changes nothing. */
  lemma ProjectIdentity<T>(s: seq<T>, same: T -> T)
    requires forall x :: same(x) == x
    ensures Project(s, same) == s
  {
  }

  /** One page of a listing and the number of pages. */
  datatype Page<T> = Page(rows: seq<T>, totalPages: int)

  /**
   * A listing route: the rows satisfying the search (`LIKE`, left abstract as
   * `matches`), ordered by id descending, cut to the requested page; the total
   * is counted with the same search. `page` and `limit` are the parsed query
   * values, None standing for NaN.
   */
  function ListPage<T(!new)>(table: seq<T>, matches: T -> bool, id: T -> int, page: Option<int>, limit: Option<int>)
    : (r: Response<Page<T>>)
    ensures r.Fail? ==> r.status == 500
    ensures var p, l := OrDefault(page, DefaultPage), OrDefault(limit, DefaultLimit);
            r.Fail? <==> l < 0 || Offset(p, l) < 0
    ensures r.Ok? ==> && SortedDesc(r.body.rows, id)
                      && |r.body.rows| <= OrDefault(limit, DefaultLimit)
                      && forall x :: x in r.body.rows ==> x in table && matches(x)
    ensures r.Ok? ==> var p, l := OrDefault(page, DefaultPage), OrDefault(limit, DefaultLimit);
                      r.body == Page(Window(Ordered(table, matches, id), l, Offset(p, l)).body,
                                     TotalPages(|Filter(table, matches)|, l))
  {
    var p := OrDefault(page, DefaultPage);
    var l := OrDefault(limit, DefaultLimit);
    var ordered := Ordered(table, matches, id);
    var w := Window(ordered, l, Offset(p, l));
    if w.Fail? then Fail(500)
    else
      assert SortedDesc(w.body, id) by {
        forall i, j | 0 <= i < j < |w.body| ensures id(w.body[i]) >= id(w.body[j]) {
          assert w.body[i] == ordered[Offset(p, l) + i] && w.body[j] == ordered[Offset(p, l) + j];
        }
      }
      assert forall x :: x in w.body ==> x in table && matches(x) by {
        forall x | x in w.body ensures x in table && matches(x) {
          var i :| 0 <= i < |w.body| && w.body[i] == x;
          assert x == ordered[Offset(p, l) + i];
          SelectMembers(table, matches, (x: T) => x, id, x);
        }
      }
      Ok(Page(w.body, TotalPages(|ordered|, l)))
  }

  /**
   * The registration listing checks its parameters first: a limit or an offset
   * below range is answered with 400 before any query runs.
   */
  function CheckedListPage<T(!new)>(table: seq<T>, matches: T -> bool, id: T -> int, page: Option<int>, limit: Option<int>)
    : (r: Response<Page<T>>)
    ensures r.Fail? ==> r.status == 400
    ensures r.Fail? <==> var l := OrDefault(limit, DefaultLimit); l <= 0 || Offset(OrDefault(page, DefaultPage), l) < 0
    ensures r.Ok? ==> r == ListPage(table, matches, id, page, limit)
  {
    var l := OrDefault(limit, DefaultLimit);
    if l <= 0 || Offset(OrDefault(page, DefaultPage), l) < 0 then Fail(400)
    else ListPage(table, matches, id, page, limit)
  }

  /** Row i of the ordered listing is at position i % limit of page i / limit + 1, within the page count. */
  lemma RowOnItsPage<T>(ordered: seq<T>, limit: int, i: int)
    requires limit > 0 && 0 <= i < |ordered|
    ensures var p := i / limit + 1;
            && 1 <= p <= TotalPages(|ordered|, limit)
            && Window(ordered, limit, Offset(p, limit)).Ok?
            && i % limit < |Window(ordered, limit, Offset(p, limit)).body|
            && Window(ordered, limit, Offset(p, limit)).body[i % limit] == ordered[i]
  {
    PageOfRow(|ordered|, limit, i);
    RowInWindow(ordered, limit, i / limit, i % limit);
  }

  /** The page holding row i exists: 1 <= i / limit + 1 <= the page count, and its offset is i / limit * limit. */
  lemma PageOfRow(count: nat, limit: int, i: int)
    requires limit > 0 && 0 <= i < count
    ensures 1 <= i / limit + 1 <= TotalPages(count, limit)
    ensures Offset(i / limit + 1, limit) == i / limit * limit
    ensures i == i / limit * limit + i % limit && 0 <= i % limit < limit
  {
    var q := i / limit;
    var t := TotalPages(count, limit);
    assert q * limit <= i;
    MulStrict(q, t, limit);
  }

  /** Row q * limit + r, for r < limit, sits at index r of the window at offset q * limit. */
  lemma RowInWindow<T>(ordered: seq<T>, limit: int, q: int, r: int)
    requires limit > 0 && q >= 0 && 0 <= r < limit && q * limit + r < |ordered|
    ensures Window(ordered, limit, q * limit).Ok?
    ensures r < |Window(ordered, limit, q * limit).body|
    ensures Window(ordered, limit, q * limit).body[r] == ordered[q * limit + r]
  {
    MulMonotone(0, q, limit);
  }

  lemma MulStrict(a: int, b: int, c: int)
    requires c > 0 && a * c < b * c
    ensures a < b
  {
    if a >= b {
      MulMonotone(b, a, c);
      assert false;
    }
  }

  lemma MulMonotone(a: int, b: int, c: int)
    requires a <= b && c >= 0
    ensures a * c <= b * c
  {
  }

  /** A page past the last one is empty, not an error. */
  lemma PagesPastTheEndAreEmpty<T>(ordered: seq<T>, limit: int, p: int)
    requires limit > 0 && p > TotalPages(|ordered|, limit)
    ensures Window(ordered, limit, Offset(p, limit)) == Ok([])
  {
    var t := TotalPages(|ordered|, limit);
    MulMonotone(t, p - 1, limit);
  }

  /** Every page before the last is full. */
  lemma PagesBeforeTheLastAreFull<T>(ordered: seq<T>, limit: int, p: int)
    requires limit > 0 && 1 <= p < TotalPages(|ordered|, limit)
    ensures Window(ordered, limit, Offset(p, limit)).Ok?
    ensures |Window(ordered, limit, Offset(p, limit)).body| == limit
  {
    var t := TotalPages(|ordered|, limit);
    MulMonotone(p, t - 1, limit);
    assert Offset(p, limit) + limit == p * limit;
  }

  /** Through the route: the listing's row i is row i % limit of page i / limit + 1, a page that exists. */
  lemma ListedRowOnItsPage<T(!new)>(table: seq<T>, matches: T -> bool, id: T -> int, limit: int, i: int)
    requires limit > 0 && 0 <= i < |Filter(table, matches)|
    ensures var r := ListPage(table, matches, id, Some(i / limit + 1), Some(limit));
            && r.Ok? && i / limit + 1 <= r.body.totalPages
            && i % limit < |r.body.rows| && r.body.rows[i % limit] == Ordered(table, matches, id)[i]
  {
    RowOnItsPage(Ordered(table, matches, id), limit, i);
  }

  /** Through the route: a page after the last one is an empty page with the same page count. */
  lemma ListedPastTheEndIsEmpty<T(!new)>(table: seq<T>, matches: T -> bool, id: T -> int, limit: int, p: int)
    requires limit > 0 && p > TotalPages(|Filter(table, matches)|, limit)
    ensures ListPage(table, matches, id, Some(p), Some(limit)) == Ok(Page([], TotalPages(|Filter(table, matches)|, limit)))
  {
    PagesPastTheEndAreEmpty(Ordered(table, matches, id), limit, p);
  }
}
