/** The pagination arithmetic of `getAll`: which slice of the ordered,
    filtered movie list a request sees, and the page counts reported with
    it. */
module Paging {
  import opened Outcomes

  /** What `getAll` reports besides the movies, and the `skip`/`take` it
      sends to the query. `take` is `None` when the whole list is asked
      for. */
  datatype Pagination = Pagination(skip: nat, take: Option<nat>, page: int, limit: int, pages: int)

  /** The page and limit a validated query may carry: a page is at least 1,
      a limit lies in [1, 100]. */
  predicate ValidPaging(page: Option<int>, limit: Option<int>) {
    && (page.Some? ==> page.value >= 1)
    && (limit.Some? ==> 1 <= limit.value <= 100)
  }

  /** `Math.ceil(total / limit)` for a positive limit. */
  function CeilDiv(total: nat, limit: int): (q: nat)
    requires limit >= 1
    ensures q * limit >= total
    ensures q == 0 || (q - 1) * limit < total
  {
    (total + limit - 1) / limit
  }

  /** `getAll`'s pagination: without page and limit the whole list is one
      page whose limit is the total; otherwise page defaults to 1 and limit
      to 20, the query skips the earlier pages, and the page count is the
      total divided by the limit, rounded up. */
  function Paginate(total: nat, page: Option<int>, limit: Option<int>): (r: Pagination)
    requires ValidPaging(page, limit)
    ensures page.None? && limit.None? ==> r == Pagination(0, None, 1, total, 1)
    ensures page.Some? || limit.Some? ==>
      && r.take == Some(r.limit)
      && r.page == (if page.Some? then page.value else 1)
      && r.limit == (if limit.Some? then limit.value else 20)
      && r.skip == (r.page - 1) * r.limit
      && r.pages * r.limit >= total
      && (r.pages == 0 || (r.pages - 1) * r.limit < total)
  {
    if page.None? && limit.None? then Pagination(0, None, 1, total, 1)
    else
      var p := if page.Some? then page.value else 1;
      var l := if limit.Some? then limit.value else 20;
      Pagination((p - 1) * l, Some(l), p, l, CeilDiv(total, l))
  }

  /** The rows a query with `skip` and `take` returns from the ordered list
      `xs`. */
  function Window<T>(xs: seq<T>, skip: nat, take: Option<nat>): (w: seq<T>)
    ensures |w| <= |xs|
    ensures take.Some? ==> |w| <= take.value
  {
    var lo := if skip <= |xs| then skip else |xs|;
    var hi := if take.None? || lo + take.value > |xs| then |xs| else lo + take.value;
    xs[lo..hi]
  }

  /** The rows of pages 1 to `n`, one after the other. */
  function PagesUpTo<T>(xs: seq<T>, limit: nat, n: nat): seq<T>
    requires limit >= 1
  {
    if n == 0 then [] else PagesUpTo(xs, limit, n - 1) + Window(xs, (n - 1) * limit, Some(limit))
  }

  lemma {:induction false} PagesUpToPrefix<T>(xs: seq<T>, limit: nat, n: nat)
    requires limit >= 1
    ensures PagesUpTo(xs, limit, n) == xs[..if n * limit <= |xs| then n * limit else |xs|]
  {
    if n > 0 {
      PagesUpToPrefix(xs, limit, n - 1);
      var lo := (n - 1) * limit;
      assert n * limit == lo + limit;
      var a := if lo <= |xs| then lo else |xs|;
      var b := if n * limit <= |xs| then n * limit else |xs|;
      assert Window(xs, lo, Some(limit)) == xs[a..b];
      assert xs[..a] + xs[a..b] == xs[..b];
    }
  }

  /** Walking through the pages `getAll` reports, with the same limit,
      returns every row exactly once and in order. */
  lemma PagesPartitionList<T>(xs: seq<T>, page: Option<int>, limit: Option<int>)
    requires ValidPaging(page, limit) && (page.Some? || limit.Some?)
    ensures var r := Paginate(|xs|, page, limit);
      PagesUpTo(xs, r.limit, r.pages) == xs
  {
    var r := Paginate(|xs|, page, limit);
    PagesUpToPrefix(xs, r.limit, r.pages);
  }

  lemma MulMono(a: int, b: int, l: int)
    requires a <= b && l >= 0
    ensures a * l <= b * l
  {
    assert b * l - a * l == (b - a) * l;
  }

  /** The quotient brackets the dividend. */
  lemma DivBounds(a: int, l: int)
    requires l >= 1
    ensures (a / l) * l <= a < (a / l + 1) * l
  {
    assert a == (a / l) * l + a % l;
    assert (a / l + 1) * l == (a / l) * l + l;
  }

  lemma DivMono(a: nat, b: nat, l: int)
    requires a <= b && l >= 1
    ensures a / l <= b / l
  {
    DivBounds(a, l);
    DivBounds(b, l);
    if a / l > b / l {
      MulMono(b / l + 1, a / l, l);
    }
  }

  /** Row `i` is on page `i / limit + 1`, which is one of the reported
      pages. */
  lemma RowPageExists(total: nat, limit: int, i: nat)
    requires 1 <= limit && i < total
    ensures i / limit + 1 <= CeilDiv(total, limit)
  {
    DivMono(i + limit, total + limit - 1, limit);
    DivBounds(i, limit);
    DivBounds(i + limit, limit);
    var q := i / limit;
    var q' := (i + limit) / limit;
    if q' < q + 1 {
      MulMono(q', q, limit);
    } else if q' > q + 1 {
      MulMono(q + 2, q', limit);
    }
  }

  /** Each row of the list is on exactly one page: row `i` is on page
      `i / limit + 1`, and on no other. */
  lemma RowOnOnePage(limit: int, i: nat, p: int)
    requires 1 <= limit && 1 <= p
    ensures (p - 1) * limit <= i < p * limit <==> p == i / limit + 1
  {
    var q := i / limit;
    DivBounds(i, limit);
    if p <= q {
      MulMono(p, q, limit);
    } else if p >= q + 2 {
      MulMono(q + 1, p - 1, limit);
    }
  }
}
