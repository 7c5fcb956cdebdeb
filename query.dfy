/** The shared shape of every list query: filter, order newest first
    (`ORDER BY created_at DESC, id DESC`), cut one page out with
    `LIMIT limit OFFSET (page - 1) * limit`, and report the total number of
    matching rows alongside. */
module Query {
  import opened Tables
  import opened Schema

  /** `a` sorts before `b` under `created_at DESC, id DESC`. */
  predicate Newer<T>(a: Row<T>, b: Row<T>)
  {
    a.createdAt > b.createdAt || (a.createdAt == b.createdAt && a.id > b.id)
  }

  predicate NewestFirstOrder<T>(s: seq<Row<T>>)
  {
    forall i, j | 0 <= i < j < |s| :: Newer(s[i], s[j])
  }

  function Reverse<T>(s: seq<T>): (r: seq<T>)
    ensures |r| == |s|
    ensures forall i | 0 <= i < |s| :: r[i] == s[|s| - 1 - i]
  {
    if s == [] then [] else Reverse(s[1..]) + [s[0]]
  }

  /** Rows kept in insertion order come out newest first when read backwards:
      the result is sorted by (created_at, id) descending and holds exactly
      the same rows. */
  function NewestFirst<T(==)>(s: seq<Row<T>>): (r: seq<Row<T>>)
    requires Chrono(s)
    ensures NewestFirstOrder(r)
    ensures |r| == |s|
    ensures forall x | x in r :: x in s
    ensures forall x | x in s :: x in r
    ensures forall i | 0 <= i < |s| :: r[i] == s[|s| - 1 - i]
  {
    var r := Reverse(s);
    forall i, j | 0 <= i < j < |r| ensures Newer(r[i], r[j]) {
      assert Precedes(s[|s| - 1 - j], s[|s| - 1 - i]);
    }
    forall x | x in s ensures x in r {
      var k :| 0 <= k < |s| && s[k] == x;
      assert r[|s| - 1 - k] == x;
    }
    r
  }

  /** The first `n` rows (`LIMIT n`). */
  function Take<T>(s: seq<T>, n: nat): (r: seq<T>)
    ensures |r| == if n < |s| then n else |s|
    ensures r == s[..|r|]
  {
    if n < |s| then s[..n] else s
  }

  function Offset(pg: Pagination): (o: nat)
  {
    assert (pg.page - 1) * pg.limit >= 0 by {
      assert pg.page - 1 >= 0 && pg.limit >= 1;
    }
    (pg.page - 1) * pg.limit
  }

  /** The rows of one page: at most `limit` of them, those at positions
      `Offset(pg)` onwards, and none when the offset is past the end. */
  function Page<T>(s: seq<T>, pg: Pagination): (r: seq<T>)
    ensures |r| <= pg.limit
    ensures |r| == if Offset(pg) >= |s| then 0 else Min(pg.limit, |s| - Offset(pg))
    ensures forall k | 0 <= k < |r| :: Offset(pg) + k < |s| && r[k] == s[Offset(pg) + k]
  {
    var o := Offset(pg);
    if o >= |s| then [] else s[o..o + Min(pg.limit, |s| - o)]
  }

  function Min(a: int, b: int): int
  {
    if a < b then a else b
  }

  /** What a paginated list handler returns: the page, the number of
      matching rows over all pages, and the page and limit echoed back. */
  datatype ListResult<T> = ListResult(data: seq<Row<T>>, total: nat, page: int, limit: int)

  function NewerThan<T>(x: Row<T>): Row<T> -> bool
  {
    (y: Row<T>) => Newer(y, x)
  }

  /** How many rows satisfying `keep` sort before `x`: the position, counted
      from 0, that `x` takes in the newest-first list of matches. */
  function RankAmong<T(==)>(rows: seq<Row<T>>, keep: Row<T> -> bool, x: Row<T>): nat
  {
    CountWhere(Where(rows, keep), NewerThan(x))
  }

  /** `data` is page `pg` of the rows satisfying `keep`, newest first: it has
      the page's size, and its `k`-th row is the match with exactly
      `Offset(pg) + k` newer matches. */
  predicate HoldsPage<T(==)>(rows: seq<Row<T>>, keep: Row<T> -> bool, pg: Pagination, data: seq<Row<T>>)
  {
    var total := CountWhere(rows, keep);
    && |data| == (if total <= Offset(pg) then 0 else Min(pg.limit, total - Offset(pg)))
    && forall k | 0 <= k < |data| :: data[k] in rows && keep(data[k]) && RankAmong(rows, keep, data[k]) == Offset(pg) + k
  }

  lemma {:induction false} WhereEverything<T>(s: seq<Row<T>>, p: Row<T> -> bool)
    requires forall x | x in s :: p(x)
    ensures Where(s, p) == s
  {
    if s != [] {
      assert forall x | x in s[1..] :: x in s;
      WhereEverything(s[1..], p);
    }
  }

  /** In insertion order, the rows newer than the one at position `j` are
      exactly the rows after it. */
  lemma {:induction false} NewerAreAfter<T>(s: seq<Row<T>>, j: nat)
    requires Chrono(s) && j < |s|
    ensures Where(s, NewerThan(s[j])) == s[j + 1..]
  {
    assert Chrono(s[1..]) by {
      forall a, b | 0 <= a < b < |s[1..]| ensures Precedes(s[1..][a], s[1..][b]) {
        assert s[1..][a] == s[a + 1] && s[1..][b] == s[b + 1];
      }
    }
    if j == 0 {
      forall x | x in s[1..] ensures NewerThan(s[0])(x) {
        var k :| 0 <= k < |s[1..]| && s[1..][k] == x;
        assert Precedes(s[0], s[k + 1]);
      }
      WhereEverything(s[1..], NewerThan(s[0]));
    } else {
      assert Precedes(s[0], s[j]);
      assert s[1..][j - 1] == s[j];
      NewerAreAfter(s[1..], j - 1);
      assert s[1..][j..] == s[j + 1..];
    }
  }

  /** A match's rank is its distance from the end of the matches kept in
      insertion order. */
  lemma RankOfMatch<T>(rows: seq<Row<T>>, keep: Row<T> -> bool, j: nat)
    requires Chrono(rows) && j < |Where(rows, keep)|
    ensures RankAmong(rows, keep, Where(rows, keep)[j]) == |Where(rows, keep)| - 1 - j
  {
    NewerAreAfter(Where(rows, keep), j);
  }

  /** Filter by `keep`, order newest first and cut out the requested page.
      `total` counts all matching rows, so it does not depend on the page. */
  function ListPage<T(==)>(rows: seq<Row<T>>, keep: Row<T> -> bool, pg: Pagination): (r: ListResult<T>)
    requires Chrono(rows)
    ensures r.page == pg.page && r.limit == pg.limit
    ensures r.total == CountWhere(rows, keep)
    ensures |r.data| <= pg.limit
    ensures r.total <= Offset(pg) ==> r.data == []
    ensures forall x | x in r.data :: x in rows && keep(x)
    ensures NewestFirstOrder(r.data)
    ensures HoldsPage(rows, keep, pg, r.data)
  {
    var matching := Where(rows, keep);
    var ordered := NewestFirst(matching);
    var data := Page(ordered, pg);
    assert forall x | x in data :: x in ordered;
    assert NewestFirstOrder(data) by {
      forall i, j | 0 <= i < j < |data| ensures Newer(data[i], data[j]) {
        assert data[i] == ordered[Offset(pg) + i] && data[j] == ordered[Offset(pg) + j];
      }
    }
    PageOfMatches(rows, keep, pg);
    ListResult(data, |matching|, pg.page, pg.limit)
  }

  /** Cutting a page out of the newest-first matches holds that page. */
  lemma PageOfMatches<T>(rows: seq<Row<T>>, keep: Row<T> -> bool, pg: Pagination)
    requires Chrono(rows)
    ensures HoldsPage(rows, keep, pg, Page(NewestFirst(Where(rows, keep)), pg))
  {
    var data := Page(NewestFirst(Where(rows, keep)), pg);
    forall k | 0 <= k < |data|
      ensures data[k] in rows && keep(data[k]) && RankAmong(rows, keep, data[k]) == Offset(pg) + k
    {
      PageRowRank(rows, keep, pg, k, data[k], Offset(pg) + k);
    }
  }

  /** The `k`-th row of a page, at position `i == Offset(pg) + k` of the
      newest-first matches, has `i` newer matches. */
  lemma PageRowRank<T>(rows: seq<Row<T>>, keep: Row<T> -> bool, pg: Pagination, k: nat, x: Row<T>, i: nat)
    requires Chrono(rows) && k < |Page(NewestFirst(Where(rows, keep)), pg)|
    requires x == Page(NewestFirst(Where(rows, keep)), pg)[k] && i == Offset(pg) + k
    ensures x in Where(rows, keep) && RankAmong(rows, keep, x) == i
  {
    PageRank(Where(rows, keep), pg, k, x, i);
  }

  /** The same, for the newest-first reading of any sequence in insertion
      order. */
  lemma PageRank<T>(m: seq<Row<T>>, pg: Pagination, k: nat, x: Row<T>, i: nat)
    requires Chrono(m) && k < |Page(NewestFirst(m), pg)|
    requires x == Page(NewestFirst(m), pg)[k] && i == Offset(pg) + k
    ensures x in m && |Where(m, NewerThan(x))| == i
  {
    NewestFirstIsReverse(m);
    assert Page(Reverse(m), pg)[k] == Reverse(m)[i];
    ReversedRank(m, i);
  }

  /** In insertion order, newest first is read backwards. */
  lemma NewestFirstIsReverse<T>(s: seq<Row<T>>)
    requires Chrono(s)
    ensures NewestFirst(s) == Reverse(s)
  {
  }

  /** Read backwards, the row at position `i` has exactly `i` newer rows. */
  lemma ReversedRank<T>(m: seq<Row<T>>, i: nat)
    requires Chrono(m) && i < |m|
    ensures Reverse(m)[i] in m
    ensures |Where(m, NewerThan(Reverse(m)[i]))| == i
  {
    var j := |m| - 1 - i;
    assert Reverse(m)[i] == m[j];
    NewerAreAfter(m, j);
  }

  /** The `n` newest rows satisfying `keep` (`ORDER BY created_at DESC
      LIMIT n`): as many as there are, up to `n`; every one newer than each
      matching row left out; all of them when there are no more than `n`. */
  function Latest<T(==)>(rows: seq<Row<T>>, keep: Row<T> -> bool, n: nat): (r: seq<Row<T>>)
    requires Chrono(rows)
    ensures |r| == Min(n, CountWhere(rows, keep))
    ensures forall x | x in r :: x in rows && keep(x)
    ensures NewestFirstOrder(r)
    ensures forall x, y | x in r && y in rows && keep(y) && y !in r :: Newer(x, y)
    ensures CountWhere(rows, keep) <= n ==> forall y | y in rows && keep(y) :: y in r
  {
    var ordered := NewestFirst(Where(rows, keep));
    var r := Take(ordered, n);
    forall x, y | x in r && y in rows && keep(y) && y !in r ensures Newer(x, y) {
      var i :| 0 <= i < |r| && r[i] == x;
      var j :| 0 <= j < |ordered| && ordered[j] == y;
    }
    r
  }

  /** Two matches with the same rank are the same row. */
  lemma RankPins<T>(rows: seq<Row<T>>, keep: Row<T> -> bool, x: Row<T>, y: Row<T>)
    requires Chrono(rows) && x in rows && keep(x) && y in rows && keep(y)
    requires RankAmong(rows, keep, x) == RankAmong(rows, keep, y)
    ensures x == y
  {
    var m := Where(rows, keep);
    var i :| 0 <= i < |m| && m[i] == x;
    var j :| 0 <= j < |m| && m[j] == y;
    RankOfMatch(rows, keep, i);
    RankOfMatch(rows, keep, j);
  }

  /** The page a list handler must return is fully determined: two lists
      that both hold page `pg` of the same matches are equal. */
  lemma PagesAreDetermined<T>(rows: seq<Row<T>>, keep: Row<T> -> bool, pg: Pagination, d1: seq<Row<T>>, d2: seq<Row<T>>)
    requires Chrono(rows) && HoldsPage(rows, keep, pg, d1) && HoldsPage(rows, keep, pg, d2)
    ensures d1 == d2
  {
    forall k | 0 <= k < |d1| ensures d1[k] == d2[k] {
      RankPins(rows, keep, d1[k], d2[k]);
    }
  }

  /** The page position `k` (counted from 0) falls on. */
  function HomePage(k: nat, limit: PageLimit): PageNumber
  {
    k / limit + 1
  }

  /** Position `k` of a list is on its home page. */
  lemma PositionOnHomePage<T>(s: seq<T>, limit: PageLimit, k: nat)
    requires k < |s|
    ensures s[k] in Page(s, Pagination(HomePage(k, limit), limit))
  {
    var home := Pagination(HomePage(k, limit), limit);
    DivBounds(k, limit);
    assert Offset(home) == (k / limit) * limit;
    assert Page(s, home)[k - Offset(home)] == s[k];
  }

  /** Pages do not overlap: position `k` lies on its home page and on no
      other page. */
  lemma PositionOnOnePage(limit: PageLimit, k: nat, page: PageNumber)
    ensures Offset(Pagination(page, limit)) <= k < Offset(Pagination(page, limit)) + limit
      <==> page == HomePage(k, limit)
  {
    assert Offset(Pagination(page, limit)) == (page - 1) * limit;
    DivBounds(k, limit);
    if (page - 1) * limit <= k < (page - 1) * limit + limit {
      DivUnique(k, limit, page - 1);
    }
  }

  /** `k / limit` is the number of whole pages before position `k`. */
  lemma DivBounds(k: nat, limit: PageLimit)
    ensures (k / limit) * limit <= k < (k / limit) * limit + limit
  {
  }

  /** The page a position is on is unique. */
  lemma DivUnique(k: nat, limit: PageLimit, m: int)
    requires m * limit <= k < m * limit + limit
    ensures m == k / limit
  {
    var q := k / limit;
    DivBounds(k, limit);
    if m < q {
      MulMonotone(m + 1, q, limit);
      MulSucc(m, limit);
    } else if m > q {
      MulMonotone(q + 1, m, limit);
      MulSucc(q, limit);
    }
  }

  lemma MulSucc(a: int, c: int)
    ensures (a + 1) * c == a * c + c
  {
  }

  lemma MulMonotone(a: int, b: int, c: nat)
    requires a <= b
    ensures a * c <= b * c
  {
  }

  /** Rows on pages 1..n together. */
  function RowsOnPages(total: nat, limit: PageLimit, n: nat): nat
  {
    if n == 0 then 0
    else
      var pg := Pagination(n, limit);
      RowsOnPages(total, limit, n - 1) + (if Offset(pg) >= total then 0 else Min(limit, total - Offset(pg)))
  }

  /** Paging through the first `n` pages returns `min(n * limit, total)`
      rows, so paging until the end returns every matching row exactly once
      in count: page sizes sum to `total`. */
  lemma {:induction false} PageSizesSum(total: nat, limit: PageLimit, n: nat)
    ensures RowsOnPages(total, limit, n) == Min(n * limit, total)
  {
    if n > 0 {
      PageSizesSum(total, limit, n - 1);
      assert (n - 1) * limit + limit == n * limit;
      assert Offset(Pagination(n, limit)) == (n - 1) * limit;
    }
  }

  /** Enough pages to hold every row: their sizes add up to `total`. */
  lemma LastPageReached(total: nat, limit: PageLimit)
    ensures RowsOnPages(total, limit, total / limit + 1) == total
  {
    PageSizesSum(total, limit, total / limit + 1);
    BelowNextMultiple(total, limit);
  }

  lemma BelowNextMultiple(total: nat, limit: PageLimit)
    ensures total < (total / limit + 1) * limit
  {
    assert (total / limit + 1) * limit == (total / limit) * limit + limit;
  }

  /** One page of a list result is exactly the page-sized cut of the
      matching rows; its size is what `RowsOnPages` counts for that page. */
  lemma ListPageSize<T>(rows: seq<Row<T>>, keep: Row<T> -> bool, pg: Pagination)
    requires Chrono(rows)
    ensures var r := ListPage(rows, keep, pg);
      |r.data| == RowsOnPages(r.total, pg.limit, pg.page) - RowsOnPages(r.total, pg.limit, pg.page - 1)
  {
  }

  /** No matching row is lost by paging: each one is on some page. */
  lemma EveryMatchOnSomePage<T>(rows: seq<Row<T>>, keep: Row<T> -> bool, limit: PageLimit, x: Row<T>)
    requires Chrono(rows) && x in rows && keep(x)
    ensures exists page: PageNumber :: x in ListPage(rows, keep, Pagination(page, limit)).data
  {
    var ordered := NewestFirst(Where(rows, keep));
    var k :| 0 <= k < |ordered| && ordered[k] == x;
    var home := Pagination(HomePage(k, limit), limit);
    PositionOnHomePage(ordered, limit, k);
    assert ListPage(rows, keep, home).data == Page(ordered, home);
  }
}
