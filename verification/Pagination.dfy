/** Cursor pagination of the decisions list (internal/adminapi/handlers_analytics.go).  The cursor
    is the page's oldest creation time, printed in whole seconds.  Times are in microseconds. */
module Pagination {
  import opened Text

  datatype Row = Row(id: nat, created: int)

  const MICROS_PER_SECOND := 1_000_000

  /** RFC 3339 without fractions drops what is below a second. */
  function Floor(t: int): int { t - t % MICROS_PER_SECOND }

  /** ORDER BY created_at DESC, id DESC */
  predicate Before(a: Row, b: Row) { a.created > b.created || (a.created == b.created && a.id > b.id) }

  predicate Ordered(rows: seq<Row>) {
    forall i, j :: 0 <= i < j < |rows| ==> Before(rows[i], rows[j])
  }

  predicate Matches(r: Row, after: Option<int>) { after.Some? ==> r.created < after.value }

  /** WHERE created_at < after, when there is a cursor */
  function Where(rows: seq<Row>, after: Option<int>): seq<Row> {
    if rows == [] then [] else (if Matches(rows[0], after) then [rows[0]] else []) + Where(rows[1..], after)
  }

  /** The limit parameter: 1 to 500, else 100 */
  function LimitOf(param: Option<int>): (n: nat)
    ensures 0 < n <= 500
  {
    if param.Some? && 0 < param.value <= 500 then param.value else 100
  }

  function Take(rows: seq<Row>, n: nat): seq<Row> { if |rows| <= n then rows else rows[..n] }

  function Page(rows: seq<Row>, after: Option<int>, limit: nat): seq<Row> { Take(Where(rows, after), limit) }

  /** The oldest creation time of a page */
  function Oldest(page: seq<Row>): Option<int> {
    if page == [] then None
    else
      var rest := Oldest(page[..|page| - 1]);
      var c := page[|page| - 1].created;
      if rest.None? || c < rest.value then Some(c) else rest
  }

  function Cursor(page: seq<Row>): Option<int> {
    match Oldest(page) case Some(t) => Some(Floor(t)) case None => None
  }

  /** `listDecisions` on a table in the query's order; no cursor means an empty `next_after`. */
  method ListDecisions(rows: seq<Row>, after: Option<int>, param: Option<int>)
    returns (out: seq<Row>, next: Option<int>)
    ensures out == Page(rows, after, LimitOf(param)) && next == Cursor(out)
  {
    hide Where;
    var result := Page(rows, after, LimitOf(param));
    out := [];
    var last: Option<int> := None;
    var i := 0;
    while i < |result|
      invariant 0 <= i <= |result|
      invariant out == result[..i] && last == Oldest(out)
    {
      assert result[..i + 1][..i] == result[..i];
      out := out + [result[i]];
      if last.None? || result[i].created < last.value {
        last := Some(result[i].created);
      }
      i := i + 1;
    }
    next := if last.Some? then Some(Floor(last.value)) else None;
  }

  // ---------------------------------------------------------------- facts about one page

  lemma {:induction false} WhereMember(rows: seq<Row>, after: Option<int>, x: Row)
    ensures x in Where(rows, after) <==> x in rows && Matches(x, after)
  {
    if rows != [] {
      WhereMember(rows[1..], after, x);
      assert rows == [rows[0]] + rows[1..];
    }
  }

  lemma {:induction false} WhereOrdered(rows: seq<Row>, after: Option<int>)
    requires Ordered(rows)
    ensures Ordered(Where(rows, after))
  {
    if rows != [] {
      assert Ordered(rows[1..]) by { assert forall i :: 0 <= i < |rows| - 1 ==> rows[1..][i] == rows[i + 1]; }
      WhereOrdered(rows[1..], after);
      var w := Where(rows[1..], after);
      forall i | 0 <= i < |w| ensures Before(rows[0], w[i]) {
        WhereMember(rows[1..], after, w[i]);
        var j :| 0 <= j < |rows| - 1 && rows[1..][j] == w[i];
        assert rows[j + 1] == w[i];
      }
    }
  }

  lemma {:induction false} WhereShrinks(rows: seq<Row>, after: Option<int>, later: Option<int>, x: Row)
    requires forall r :: Matches(r, later) ==> Matches(r, after)
    requires x in rows && Matches(x, after) && !Matches(x, later)
    ensures |Where(rows, later)| < |Where(rows, after)|
  {
    hide Matches;
    if x == rows[0] {
      WhereNoLonger(rows[1..], after, later);
    } else {
      assert rows == [rows[0]] + rows[1..];
      WhereShrinks(rows[1..], after, later, x);
    }
  }

  lemma {:induction false} WhereNoLonger(rows: seq<Row>, after: Option<int>, later: Option<int>)
    requires forall r :: Matches(r, later) ==> Matches(r, after)
    ensures |Where(rows, later)| <= |Where(rows, after)|
  {
    hide Matches;
    if rows != [] {
      WhereNoLonger(rows[1..], after, later);
    }
  }

  /** In an ordered page the oldest row is the last one. */
  lemma {:induction false} OldestIsLast(page: seq<Row>)
    requires Ordered(page) && page != []
    ensures Oldest(page) == Some(page[|page| - 1].created)
  {
    if |page| > 1 {
      var n := |page| - 1;
      assert Ordered(page[..n]);
      OldestIsLast(page[..n]);
      assert Before(page[n - 1], page[n]);
    }
  }

  lemma NextPageShrinks(rows: seq<Row>, after: Option<int>, limit: nat)
    requires Ordered(rows) && limit > 0 && Page(rows, after, limit) != []
    ensures var page := Page(rows, after, limit);
            && Ordered(page) && Cursor(page) == Some(Floor(page[|page| - 1].created))
            && |Where(rows, Cursor(page))| < |Where(rows, after)|
            && (forall r :: Matches(r, Cursor(page)) ==> Matches(r, after))
  {
    hide Where;
    WhereOrdered(rows, after);
    var page := Page(rows, after, limit);
    OldestIsLast(page);
    var last := page[|page| - 1];
    assert last in Where(rows, after);
    WhereMember(rows, after, last);
    WhereShrinks(rows, after, Cursor(page), last);
  }

  lemma FloorExactly(t: int)
    ensures Floor(t) % 1_000_000 == 0 && Floor(t) <= t < Floor(t) + 1_000_000
  {
  }

  lemma PageRows(rows: seq<Row>, after: Option<int>, limit: nat)
    requires Ordered(rows) && limit > 0
    ensures var page := Page(rows, after, limit);
            && |page| <= limit
            && (forall i :: 0 <= i < |page| ==> page[i] in rows && Matches(page[i], after))
            && (forall i, j :: 0 <= i < j < |page| ==> Before(page[i], page[j]))
            && (forall x :: x in rows && Matches(x, after) ==>
                  x in page || (|page| == limit && forall i :: 0 <= i < |page| ==> Before(page[i], x)))
  {
    var q, page := Where(rows, after), Page(rows, after, limit);
    WhereOrdered(rows, after);
    hide Where, Before, Matches;
    assert forall i :: 0 <= i < |page| ==> page[i] == q[i];
    forall i | 0 <= i < |page| ensures page[i] in rows && Matches(page[i], after) {
      WhereMember(rows, after, q[i]);
    }
    forall x | x in rows && Matches(x, after) && x !in page
      ensures |page| == limit && forall i :: 0 <= i < |page| ==> Before(page[i], x) {
      WhereMember(rows, after, x);
      var k :| 0 <= k < |q| && q[k] == x;
    }
  }

  /** One page: the newest rows created before the cursor, the greater id first among equals, as many as
      the limit, which is the parameter if that is from 1 to 500 and 100 otherwise. */
  lemma PageExactly(rows: seq<Row>, after: Option<int>, param: Option<int>)
    requires Ordered(rows)
    ensures var page := Page(rows, after, LimitOf(param));
            var limit := if param.Some? && 1 <= param.value <= 500 then param.value else 100;
            && |page| <= limit
            && (forall i :: 0 <= i < |page| ==> page[i] in rows && (after.Some? ==> page[i].created < after.value))
            && (forall i, j :: 0 <= i < j < |page| ==>
                  page[i].created > page[j].created || (page[i].created == page[j].created && page[i].id > page[j].id))
            && (forall x :: x in rows && (after.Some? ==> x.created < after.value) ==>
                  x in page || (|page| == limit && forall i :: 0 <= i < |page| ==>
                    page[i].created > x.created || (page[i].created == x.created && page[i].id > x.id)))
  {
    PageRows(rows, after, LimitOf(param));
    hide Page, Ordered;
  }

  /** The next cursor is the whole second that the page's last row was created in, and none after an
      empty page. */
  lemma CursorExactly(rows: seq<Row>, after: Option<int>, param: Option<int>)
    requires Ordered(rows)
    ensures var page := Page(rows, after, LimitOf(param));
            && (Cursor(page).None? <==> page == [])
            && (page != [] ==> var next := Cursor(page).value;
                  next % 1_000_000 == 0 && next <= page[|page| - 1].created < next + 1_000_000)
  {
    var page := Page(rows, after, LimitOf(param));
    if page != [] {
      NextPageShrinks(rows, after, LimitOf(param));
      FloorExactly(page[|page| - 1].created);
    }
  }

  // ---------------------------------------------------------------- a whole run

  /** Following `next_after` until a page is empty */
  function Pages(rows: seq<Row>, after: Option<int>, limit: nat): seq<seq<Row>>
    requires Ordered(rows) && limit > 0
    decreases |Where(rows, after)|
  {
    var page := Page(rows, after, limit);
    if page == [] then []
    else NextPageShrinks(rows, after, limit); [page] + Pages(rows, Cursor(page), limit)
  }

  function Flatten(pages: seq<seq<Row>>): seq<Row> {
    if pages == [] then [] else pages[0] + Flatten(pages[1..])
  }

  function Last(page: seq<Row>): Row
    requires page != []
  {
    page[|page| - 1]
  }

  /** Rows after a page's last row within that row's second */
  predicate CutOff(page: seq<Row>, x: Row) {
    page != [] && Before(Last(page), x) && Floor(x.created) == Floor(Last(page).created)
  }

  predicate Omitted(pages: seq<seq<Row>>, x: Row) {
    exists k :: 0 <= k < |pages| && CutOff(pages[k], x)
  }

  lemma PageOrNot(rows: seq<Row>, after: Option<int>, limit: nat, x: Row)
    requires Ordered(rows) && limit > 0 && Page(rows, after, limit) != []
    requires x in rows && Matches(x, after)
    ensures var page := Page(rows, after, limit);
            && (x in page <==> !Before(Last(page), x))
            && (x in page ==> !Matches(x, Cursor(page)))
            && (x !in page ==> (CutOff(page, x) <==> !Matches(x, Cursor(page))))
  {
    hide Where;
    NextPageShrinks(rows, after, limit);
    WhereOrdered(rows, after);
    WhereMember(rows, after, x);
    var q, page := Where(rows, after), Page(rows, after, limit);
    var i :| 0 <= i < |q| && q[i] == x;
    if i < |page| {
      assert page[i] == x;
      assert i < |page| - 1 ==> Before(x, Last(page));
    } else {
      assert Before(q[|page| - 1], q[i]);
      assert Last(page) == q[|page| - 1];
    }
  }

  /** Every row that comes back matches the cursor the run started from. */
  lemma {:induction false} PagesWithin(rows: seq<Row>, after: Option<int>, limit: nat, x: Row)
    requires Ordered(rows) && limit > 0 && x in Flatten(Pages(rows, after, limit))
    ensures x in rows && Matches(x, after)
    decreases |Where(rows, after)|
  {
    hide Where, Page, Cursor;
    var page := Page(rows, after, limit);
    if page != [] {
      NextPageShrinks(rows, after, limit);
      var pages := Pages(rows, after, limit);
      assert pages[0] == page && pages[1..] == Pages(rows, Cursor(page), limit);
      if x in page {
        InPage(rows, after, limit, x);
      } else {
        PagesWithin(rows, Cursor(page), limit, x);
      }
    }
  }

  lemma InPage(rows: seq<Row>, after: Option<int>, limit: nat, x: Row)
    requires x in Page(rows, after, limit)
    ensures x in rows && Matches(x, after)
  {
    hide Where;
    WhereMember(rows, after, x);
  }

  lemma ConcatOrdered(a: seq<Row>, b: seq<Row>)
    requires Ordered(a) && Ordered(b) && forall x, y :: x in a && y in b ==> Before(x, y)
    ensures Ordered(a + b)
  {
    hide Before;
    var c := a + b;
    forall i, j | 0 <= i < j < |c| ensures Before(c[i], c[j]) {
      if i < |a| <= j {
        assert c[i] in a && c[j] in b;
      }
    }
  }

  /** Over a fixed table a run ends, and what it returns is in descending order across all its
      pages: no decision comes back twice. */
  lemma {:induction false} RunIsOrdered(rows: seq<Row>, after: Option<int>, limit: nat)
    requires Ordered(rows) && limit > 0
    ensures Ordered(Flatten(Pages(rows, after, limit)))
    decreases |Where(rows, after)|
  {
    hide Where, Page, Ordered, Before, Cursor;
    var page := Page(rows, after, limit);
    if page == [] {
      EmptyOrdered();
    } else {
      NextPageShrinks(rows, after, limit);
      var next := Cursor(page);
      RunIsOrdered(rows, next, limit);
      var rest := Flatten(Pages(rows, next, limit));
      assert Pages(rows, after, limit)[1..] == Pages(rows, next, limit);
      forall x, y | x in page && y in rest ensures Before(x, y) {
        PagesWithin(rows, next, limit, y);
        LaterPageIsAfter(rows, after, limit, x, y);
      }
      ConcatOrdered(page, rest);
    }
  }

  lemma EmptyOrdered()
    ensures Ordered([])
  {
  }

  lemma LaterPageIsAfter(rows: seq<Row>, after: Option<int>, limit: nat, x: Row, y: Row)
    requires Ordered(rows) && limit > 0 && x in Page(rows, after, limit)
    requires Matches(y, Cursor(Page(rows, after, limit)))
    ensures Before(x, y)
  {
    hide Page, Where;
    var page := Page(rows, after, limit);
    NextPageShrinks(rows, after, limit);
    var i :| 0 <= i < |page| && page[i] == x;
    assert i < |page| - 1 ==> Before(page[i], Last(page));
  }

  lemma NoLongerCutOff(rows: seq<Row>, after: Option<int>, limit: nat, x: Row)
    requires Ordered(rows) && limit > 0 && !Matches(x, after)
    ensures !Omitted(Pages(rows, after, limit), x)
  {
    hide Where, Page, Cursor;
    var pages := Pages(rows, after, limit);
    forall k | 0 <= k < |pages| ensures !CutOff(pages[k], x) {
      if pages[k] != [] {
        var l := Last(pages[k]);
        InFlatten(pages, k, l);
        PagesWithin(rows, after, limit, l);
      }
    }
  }

  lemma {:induction false} InFlatten(pages: seq<seq<Row>>, k: nat, x: Row)
    requires k < |pages| && x in pages[k]
    ensures x in Flatten(pages)
  {
    if k > 0 {
      InFlatten(pages[1..], k - 1, x);
    }
  }

  lemma OmittedStep(page: seq<Row>, pages: seq<seq<Row>>, x: Row)
    ensures Omitted([page] + pages, x) <==> CutOff(page, x) || Omitted(pages, x)
  {
    hide CutOff;
    var all := [page] + pages;
    assert all[0] == page && forall k :: 0 <= k < |pages| ==> all[k + 1] == pages[k];
    if Omitted(all, x) && !CutOff(page, x) {
      var k :| 0 <= k < |all| && CutOff(all[k], x);
      assert CutOff(pages[k - 1], x);
    }
  }

  /** The decisions a run leaves out are exactly those ordered after some page's last row but
      created within that row's second. */
  lemma {:induction false} OmittedExactly(rows: seq<Row>, after: Option<int>, limit: nat, x: Row)
    requires Ordered(rows) && limit > 0 && x in rows && Matches(x, after)
    ensures x in Flatten(Pages(rows, after, limit)) <==> !Omitted(Pages(rows, after, limit), x)
    decreases |Where(rows, after)|
  {
    hide Where, Ordered, Before, Floor, Omitted, Matches;
    WhereMember(rows, after, x);
    NonEmptyPage(rows, after, limit, x);
    var page := Page(rows, after, limit);
    hide Page;
    NextPageShrinks(rows, after, limit);
    var next := Cursor(page);
    hide Cursor;
    var rest := Pages(rows, next, limit);
    assert Pages(rows, after, limit) == [page] + rest && ([page] + rest)[1..] == rest;
    OmittedStep(page, rest, x);
    PageOrNot(rows, after, limit, x);
    if Matches(x, next) {
      OmittedExactly(rows, next, limit, x);
    } else {
      NoLongerCutOff(rows, next, limit, x);
      if x in Flatten(rest) {
        PagesWithin(rows, next, limit, x);
      }
    }
  }

  lemma NonEmptyPage(rows: seq<Row>, after: Option<int>, limit: nat, x: Row)
    requires limit > 0 && x in Where(rows, after)
    ensures Page(rows, after, limit) != []
  {
  }

  /** A run lists the whole table when no two decisions were created in the same second. */
  lemma DistinctSecondsLoseNothing(rows: seq<Row>, limit: nat, x: Row)
    requires Ordered(rows) && limit > 0 && x in rows
    requires DistinctSeconds(rows)
    ensures x in Flatten(Pages(rows, None, limit))
  {
    hide Where, Page, Cursor, Floor, Pages;
    OmittedExactly(rows, None, limit, x);
    var pages := Pages(rows, None, limit);
    forall k | 0 <= k < |pages| ensures !CutOff(pages[k], x) {
      if pages[k] != [] {
        InFlatten(pages, k, Last(pages[k]));
        PagesWithin(rows, None, limit, Last(pages[k]));
      }
    }
  }

  predicate DistinctSeconds(rows: seq<Row>) {
    forall a, b :: a in rows && b in rows && Floor(a.created) == Floor(b.created) ==> a == b
  }

  ghost predicate ListsAll(rows: seq<Row>, limit: nat)
    requires Ordered(rows) && limit > 0
  {
    forall x :: x in rows ==> x in Flatten(Pages(rows, None, limit))
  }

  /** Pages of one row each: a row comes back only as the last row of its own page. */
  lemma {:induction false} SingleRowPages(rows: seq<Row>, after: Option<int>, x: Row)
    requires Ordered(rows) && x in Flatten(Pages(rows, after, 1))
    ensures [x] in Pages(rows, after, 1)
    decreases |Where(rows, after)|
  {
    var page := Page(rows, after, 1);
    hide Where, Page, Cursor, Ordered;
    if page != [] {
      NextPageShrinks(rows, after, 1);
      var rest := Pages(rows, Cursor(page), 1);
      assert Pages(rows, after, 1) == [page] + rest && ([page] + rest)[1..] == rest;
      if x !in page {
        SingleRowPages(rows, Cursor(page), x);
      } else {
        assert page == [x];
      }
    }
  }

  /** With a page size of one, of two decisions of one second the older never comes back after the newer. */
  lemma SharedSecondLosesOne(rows: seq<Row>, a: Row, b: Row)
    requires Ordered(rows) && a in rows && b in rows && Before(a, b) && Floor(a.created) == Floor(b.created)
    ensures a in Flatten(Pages(rows, None, 1)) ==> b !in Flatten(Pages(rows, None, 1))
  {
    hide Where, Page, Cursor, Floor, Pages, Before;
    if a in Flatten(Pages(rows, None, 1)) {
      SingleRowPages(rows, None, a);
      var pages := Pages(rows, None, 1);
      var k :| 0 <= k < |pages| && pages[k] == [a];
      assert CutOff(pages[k], b);
      OmittedExactly(rows, None, 1, b);
    }
  }

  /** Every page size lists the whole table if and only if no two decisions share a second. */
  lemma EveryPageSizeListsAllIff(rows: seq<Row>)
    requires Ordered(rows)
    ensures (forall limit: nat :: limit > 0 ==> ListsAll(rows, limit)) <==> DistinctSeconds(rows)
  {
    hide Where, Page, Cursor, Floor, Pages;
    if DistinctSeconds(rows) {
      forall limit: nat, x | limit > 0 && x in rows ensures x in Flatten(Pages(rows, None, limit)) {
        DistinctSecondsLoseNothing(rows, limit, x);
      }
    } else {
      var a, b :| a in rows && b in rows && Floor(a.created) == Floor(b.created) && a != b;
      var i :| 0 <= i < |rows| && rows[i] == a;
      var j :| 0 <= j < |rows| && rows[j] == b;
      if i < j {
        SharedSecondLosesOne(rows, a, b);
      } else {
        SharedSecondLosesOne(rows, b, a);
      }
      assert !ListsAll(rows, 1);
    }
  }

  /** Two decisions of one second and a page size of one: the second is never listed. */
  lemma OneSecondTwoRows()
    ensures var rows := [Row(1, 500_000), Row(0, 400_000)];
            Ordered(rows) && Row(0, 400_000) !in Flatten(Pages(rows, None, 1))
  {
    var a, b := Row(1, 500_000), Row(0, 400_000);
    var rows := [a, b];
    assert Ordered(rows);
    assert rows[1..] == [b] && [b][1..] == [];
    assert Where([b], None) == [b];
    assert Where(rows, None) == [a] + [b];
    var page := Page(rows, None, 1);
    assert page == [a];
    var pages := Pages(rows, None, 1);
    assert pages[0] == page;
    assert CutOff(pages[0], b);
    OmittedExactly(rows, None, 1, b);
  }
}
