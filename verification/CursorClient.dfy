/** A client that reads the links of one response and sends them with the next request, as text. */
module CursorClient {
  import opened Prelude
  import opened Ordering
  import opened ColumnOrder
  import opened CursorLinks
  import opened CursorPages
  import opened CursorTraversal
  import opened CursorWalks
  import opened CursorPaginator
  import LimitOffset
  import Wire = CursorText

  /** The cursor parameter of a request stands for the cursor. */
  ghost predicate Carries(link: Option<string>, cursor: Option<Cursor>, cutoff: nat) {
    if cursor.None? then link.None?
    else link.Some? && Wire.StandsFor(link.value, cutoff, cursor.value)
  }

  /** One request, served by a paginator of its own. */
  method Fetch(rows: seq<Row>, link: Option<string>, ghost cursor: Option<Cursor>, pageSize: nat, cutoff: nat,
               ordering: seq<string>)
    returns (paginator: CursorPagination, page: seq<Row>)
    requires ordering != [] && pageSize > 0 && Carries(link, cursor, cutoff)
    ensures fresh(paginator) && paginator.ordering == ordering && paginator.pageSize == pageSize
    ensures var response := Paginate(rows, cursor, pageSize, ordering);
      page == response.rows && paginator.Attributes() == response.view && Readable(response.view)
  {
    hide Paginate, Wire.StandsFor, Wire.Refused, Wire.Misplaced;
    paginator := new CursorPagination(ordering, pageSize, cutoff, false, 0);
    var outcome := paginator.PaginateQueryset(rows, Request(link, None));
    page := outcome.rows;
  }

  /** A link read back as the cursor of the next request. */
  lemma CarriesLink(link: Cursor, cutoff: nat)
    ensures Carries(Some(Wire.EncodeCursor(link)), Some(Clamp(link, cutoff)), cutoff)
  {
    hide Wire.EncodeCursor, Wire.DecodeCursor, Wire.StandsFor;
    Wire.FollowEncoded(link, cutoff);
    Wire.DecodeCursorExact(Wire.EncodeCursor(link), cutoff);
  }

  // ----- following next links -----

  lemma VisitBound(rows: seq<Row>, pageSize: nat, cutoff: nat, ordering: seq<string>, k: nat)
    requires WellOrdered(rows, ordering) && pageSize > 0
    requires RunsPassable(Positions(OrderBy(rows, ordering), ordering), pageSize, cutoff)
    ensures Visit(rows, pageSize, cutoff, ordering, k).Some? ==> k <= |rows|
  {
    hide OrderBy, Positions, Visit, ChainStart, Total, RunsPassable;
    OrderByKeeps(rows, ordering);
    assert |multiset(OrderBy(rows, ordering))| == |OrderBy(rows, ordering)| && |multiset(rows)| == |rows|;
    VisitRows(rows, pageSize, cutoff, ordering, k);
    StartsAdvance(Positions(OrderBy(rows, ordering), ordering), pageSize, cutoff, k);
  }

  lemma {:induction false} VisitsBefore(rows: seq<Row>, pageSize: nat, cutoff: nat, ordering: seq<string>,
                                        j: nat, k: nat)
    requires ordering != [] && Visit(rows, pageSize, cutoff, ordering, j).None? && j <= k
    ensures Visit(rows, pageSize, cutoff, ordering, k).None?
  {
    hide Paginate, NextLink;
    if j < k { VisitsBefore(rows, pageSize, cutoff, ordering, j, k - 1); }
  }

  lemma {:induction false} ShownHolds(rows: seq<Row>, pageSize: nat, cutoff: nat, ordering: seq<string>, row: Row,
                                      k: nat, m: nat)
    requires ordering != [] && k < m && ShownAt(rows, pageSize, cutoff, ordering, row, k)
    ensures row in Shown(rows, pageSize, cutoff, ordering, m)
  {
    hide Visit;
    if k < m - 1 { ShownHolds(rows, pageSize, cutoff, ordering, row, k, m - 1); }
  }

  lemma ShownVisit(rows: seq<Row>, pageSize: nat, cutoff: nat, ordering: seq<string>, row: Row, k: nat)
    requires ordering != [] && ShownAt(rows, pageSize, cutoff, ordering, row, k)
    ensures Visit(rows, pageSize, cutoff, ordering, k).Some?
  {
    hide Visit;
  }

  /** What the chain has shown when it has ended. */
  lemma EndOfChain(rows: seq<Row>, pageSize: nat, cutoff: nat, ordering: seq<string>, m: nat)
    requires WellOrdered(rows, ordering) && pageSize > 0 && 0 < m
    requires Visit(rows, pageSize, cutoff, ordering, m - 1).Some? && Visit(rows, pageSize, cutoff, ordering, m).None?
    ensures forall row :: row in rows ==> row in Shown(rows, pageSize, cutoff, ordering, m)
    ensures ClampFree(Positions(OrderBy(rows, ordering), ordering), pageSize, cutoff) ==>
      && Shown(rows, pageSize, cutoff, ordering, m) == OrderBy(rows, ordering)
      && m == Max(1, LimitOffset.DivideWithCeil(|rows|, pageSize))
  {
    hide OrderBy, Positions, Visit, Shown, Total, ClampFree, ShownAt, LimitOffset.DivideWithCeil;
    assert ChainEnds(rows, pageSize, cutoff, ordering);
    forall row | row in rows
      ensures row in Shown(rows, pageSize, cutoff, ordering, m)
    {
      EndedShowsAll(rows, pageSize, cutoff, ordering, row);
      var k: nat :| ShownAt(rows, pageSize, cutoff, ordering, row, k);
      ShownVisit(rows, pageSize, cutoff, ordering, row, k);
      if k >= m { VisitsBefore(rows, pageSize, cutoff, ordering, m, k); }
      ShownHolds(rows, pageSize, cutoff, ordering, row, k, m);
    }
    if ClampFree(Positions(OrderBy(rows, ordering), ordering), pageSize, cutoff) {
      FullTraversal(rows, pageSize, cutoff, ordering);
    }
  }

  lemma AllColumnOrders(rows: seq<Row>, ordering: seq<string>)
    ensures forall columns :: AllListed(rows, columns) && Items(columns) == ordering ==>
      AllListed(OrderBy(rows, ordering), columns) && InColumnOrder(OrderBy(rows, ordering), columns)
  {
    hide OrderBy, Items, NotAfter;
    forall columns | AllListed(rows, columns) && Items(columns) == ordering
      ensures AllListed(OrderBy(rows, ordering), columns) && InColumnOrder(OrderBy(rows, ordering), columns)
    {
      OrderByColumns(rows, columns);
    }
  }

  /** Follow the next links until there is none.  The client sees every row; with a clamp that never
      fires it sees the table itself, in the order of the columns asked for and in as few requests as
      there are pages. */
  method FetchAll(rows: seq<Row>, pageSize: nat, cutoff: nat, ordering: seq<string>)
    returns (shown: seq<Row>, requests: nat)
    requires WellOrdered(rows, ordering) && pageSize > 0
    requires RunsPassable(Positions(OrderBy(rows, ordering), ordering), pageSize, cutoff)
    ensures forall row :: row in rows ==> row in shown
    ensures ClampFree(Positions(OrderBy(rows, ordering), ordering), pageSize, cutoff) ==>
      && shown == OrderBy(rows, ordering) && requests == Max(1, LimitOffset.DivideWithCeil(|rows|, pageSize))
      && forall columns :: AllListed(rows, columns) && Items(columns) == ordering ==>
           AllListed(shown, columns) && InColumnOrder(shown, columns)
  {
    AllColumnOrders(rows, ordering);
    shown, requests := [], 0;
    var link: Option<string> := None;
    ghost var cursor: Option<Cursor> := None;
    assert Visit(rows, pageSize, cutoff, ordering, 0) == Some(Paginate(rows, cursor, pageSize, ordering));
    hide OrderBy, Paginate, Positions, NextLink, RunsPassable, ClampFree, Total, Wire.EncodeCursor;
    hide LimitOffset.DivideWithCeil, AllListed, InColumnOrder, Items;
    while true
      invariant Carries(link, cursor, cutoff)
      invariant Visit(rows, pageSize, cutoff, ordering, requests) == Some(Paginate(rows, cursor, pageSize, ordering))
      invariant shown == Shown(rows, pageSize, cutoff, ordering, requests)
      decreases |rows| + 1 - requests
    {
      VisitBound(rows, pageSize, cutoff, ordering, requests);
      var paginator, page := Fetch(rows, link, cursor, pageSize, cutoff, ordering);
      ghost var next := NextLink(paginator.Attributes(), pageSize);
      shown := shown + page;
      requests := requests + 1;
      link := paginator.GetNextLink();
      if link.None? {
        EndOfChain(rows, pageSize, cutoff, ordering, requests);
        return;
      }
      CarriesLink(next.value, cutoff);
      cursor := Some(Clamp(next.value, cutoff));
    }
  }

  // ----- walking to and fro -----

  /** The slice of the page counter after the moves. */
  function CounterPage(q: seq<Row>, pageSize: nat, moves: seq<Move>): Option<seq<Row>> {
    var k := Counter(|q|, pageSize, moves);
    if k.Some? then Some(Slice(q, k.value * pageSize, k.value * pageSize + pageSize)) else None
  }

  lemma BrowsedPage(rows: seq<Row>, pageSize: nat, cutoff: nat, ordering: seq<string>, moves: seq<Move>)
    requires WellOrdered(rows, ordering) && pageSize > 0
    requires Navigable(Positions(OrderBy(rows, ordering), ordering), pageSize, cutoff)
    ensures var walk := Walk(rows, pageSize, cutoff, ordering, moves);
      CounterPage(OrderBy(rows, ordering), pageSize, moves) == if walk.Some? then Some(walk.value.rows) else None
  {
    hide OrderBy, Positions, Navigable, Counter, Walk, Total, Slice, PageStart;
    WalksRefineCounter(rows, pageSize, cutoff, ordering, moves);
  }

  lemma {:induction false} WalkStops(rows: seq<Row>, pageSize: nat, cutoff: nat, ordering: seq<string>,
                                     moves: seq<Move>, i: nat)
    requires ordering != [] && i <= |moves| && Walk(rows, pageSize, cutoff, ordering, moves[..i]).None?
    ensures Walk(rows, pageSize, cutoff, ordering, moves).None?
    decreases |moves|
  {
    hide Paginate, NextLink, PreviousLink;
    if i == |moves| {
      assert moves[..i] == moves;
    } else {
      var init := moves[..|moves| - 1];
      assert init[..i] == moves[..i];
      WalkStops(rows, pageSize, cutoff, ordering, init, i);
    }
  }

  /** Follow next and previous links as the moves say; no page if some link is missing.  The page is
      the one of the specified walk, and so, on a navigable table, the one of the page counter. */
  method Browse(rows: seq<Row>, pageSize: nat, cutoff: nat, ordering: seq<string>, moves: seq<Move>)
    returns (page: Option<seq<Row>>)
    requires WellOrdered(rows, ordering) && pageSize > 0
    ensures var walk := Walk(rows, pageSize, cutoff, ordering, moves);
      page == if walk.Some? then Some(walk.value.rows) else None
    ensures Navigable(Positions(OrderBy(rows, ordering), ordering), pageSize, cutoff) ==>
      page == CounterPage(OrderBy(rows, ordering), pageSize, moves)
  {
    hide OrderBy, Paginate, Positions, NextLink, PreviousLink, Navigable, CounterPage, Total, Wire.EncodeCursor;
    if Navigable(Positions(OrderBy(rows, ordering), ordering), pageSize, cutoff) {
      BrowsedPage(rows, pageSize, cutoff, ordering, moves);
    }
    var paginator, rowsShown := Fetch(rows, None, None, pageSize, cutoff, ordering);
    ghost var response := Paginate(rows, None, pageSize, ordering);
    for i := 0 to |moves|
      invariant fresh(paginator) && paginator.ordering == ordering && paginator.pageSize == pageSize
      invariant Walk(rows, pageSize, cutoff, ordering, moves[..i]) == Some(response)
      invariant rowsShown == response.rows && paginator.Attributes() == response.view && Readable(response.view)
    {
      ghost var next := LinkOf(response.view, moves[i], pageSize);
      assert moves[..i + 1][..i] == moves[..i];
      var link: Option<string>;
      if moves[i] == Forth {
        link := paginator.GetNextLink();
      } else {
        link := paginator.GetPreviousLink();
      }
      if link.None? {
        WalkStops(rows, pageSize, cutoff, ordering, moves, i + 1);
        return None;
      }
      CarriesLink(next.value, cutoff);
      paginator, rowsShown := Fetch(rows, link, Some(Clamp(next.value, cutoff)), pageSize, cutoff, ordering);
      response := Paginate(rows, Some(Clamp(next.value, cutoff)), pageSize, ordering);
    }
    assert moves[..|moves|] == moves;
    page := Some(rowsShown);
  }
}
