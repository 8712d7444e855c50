/** One request of `CursorPagination`: the query, the rows it returns and the state it leaves. */
module CursorPages {
  import opened Prelude
  import opened Ordering
  import opened CursorLinks
  import opened CursorWindows

  /** What a request gives back: the rows shown, and the paginator's attributes. */
  datatype Response = Response(rows: seq<Row>, view: View)

  /** `_get_position_from_instance` */
  function Key(row: Row, ordering: seq<string>): int
    requires ordering != []
  {
    Attr(row, FieldOf(ordering[0]))
  }

  function Positions(rows: seq<Row>, ordering: seq<string>): (ks: seq<int>)
    requires ordering != []
    ensures |ks| == |rows|
  {
    seq(|rows|, i requires 0 <= i < |rows| => Key(rows[i], ordering))
  }

  /** The `__lt` or `__gt` filter on the position. */
  predicate Passes(row: Row, position: int, reverse: bool, ordering: seq<string>)
    requires ordering != []
  {
    if reverse != Descends(ordering[0]) then Key(row, ordering) < position
    else Key(row, ordering) > position
  }

  function Filter(rows: seq<Row>, position: int, reverse: bool, ordering: seq<string>): seq<Row>
    requires ordering != []
  {
    if rows == [] then []
    else if Passes(rows[0], position, reverse, ordering)
    then [rows[0]] + Filter(rows[1..], position, reverse, ordering)
    else Filter(rows[1..], position, reverse, ordering)
  }

  function Query(rows: seq<Row>, c: Cursor, ordering: seq<string>): seq<Row>
    requires ordering != []
  {
    var sorted := OrderBy(rows, if c.reverse then ReverseOrdering(ordering) else ordering);
    if c.position.Some? then Filter(sorted, c.position.value, c.reverse, ordering) else sorted
  }

  /** One row more than the page holds, to see whether another page follows. */
  function Fetch(rows: seq<Row>, c: Cursor, pageSize: nat, ordering: seq<string>): seq<Row>
    requires ordering != []
  {
    Slice(Query(rows, c, ordering), c.offset, c.offset + pageSize + 1)
  }

  function Paginate(rows: seq<Row>, cursor: Option<Cursor>, pageSize: nat, ordering: seq<string>): Response
    requires ordering != []
  {
    var c := Effective(cursor);
    var results := Fetch(rows, c, pageSize, ordering);
    var page := Slice(results, 0, pageSize);
    Response(if c.reverse then Reverse(page) else page,
             Assemble(cursor, Positions(results, ordering), pageSize))
  }

  /** A table the database orders without freedom, under a well-formed ordering tuple. */
  ghost predicate WellOrdered(rows: seq<Row>, ordering: seq<string>) {
    ordering != [] && Simple(ordering) && Total(rows, ordering)
  }

  // ----- the filter keeps what lies strictly after the position in the active query order -----

  lemma OrderedPositions(q: seq<Row>, ordering: seq<string>)
    requires ordering != [] && Ordered(q, ordering)
    ensures Sorted(Positions(q, ordering), Descends(ordering[0]))
    ensures forall i, j :: 0 <= i < j < |q| ==> q[i] != q[j]
  {
    var ks, desc := Positions(q, ordering), Descends(ordering[0]);
    forall i, j | 0 <= i < j < |q|
      ensures !After(ks[i], ks[j], desc) && q[i] != q[j]
    {
      assert Precedes(q[i], q[j], ordering);
      PrecedesAsymmetric(q[i], q[j], ordering);
    }
  }

  /** `desc` is the direction of the active query: flipped by the ordering and by the cursor. */
  lemma {:induction false} FilterAll(rows: seq<Row>, position: int, reverse: bool, ordering: seq<string>)
    requires ordering != []
    requires forall i :: 0 <= i < |rows| ==> Passes(rows[i], position, reverse, ordering)
    ensures Filter(rows, position, reverse, ordering) == rows
  {
    if rows != [] { FilterAll(rows[1..], position, reverse, ordering); }
  }

  lemma {:induction false} FilterIsSuffix(rows: seq<Row>, position: int, reverse: bool, ordering: seq<string>)
    requires ordering != []
    requires Sorted(Positions(rows, ordering), reverse != Descends(ordering[0]))
    ensures Filter(rows, position, reverse, ordering)
         == rows[Base(Positions(rows, ordering), position, reverse != Descends(ordering[0]))..]
  {
    if rows != [] {
      var ks, desc := Positions(rows, ordering), reverse != Descends(ordering[0]);
      if After(ks[0], position, desc) {
        forall i | 0 <= i < |rows|
          ensures Passes(rows[i], position, reverse, ordering)
        {
          SortedAt(ks, 0, i, desc);
        }
        FilterAll(rows, position, reverse, ordering);
      } else {
        assert ks[1..] == Positions(rows[1..], ordering);
        forall i, j | 0 <= i < j < |ks[1..]|
          ensures !After(ks[1..][i], ks[1..][j], desc)
        {
          SortedAt(ks, i + 1, j + 1, desc);
        }
        FilterIsSuffix(rows[1..], position, reverse, ordering);
      }
    }
  }

  // ----- a request shows a window of the ordered table -----

  lemma QueryForward(rows: seq<Row>, c: Cursor, ordering: seq<string>)
    requires WellOrdered(rows, ordering) && !c.reverse
    ensures var q := OrderBy(rows, ordering);
      Query(rows, c, ordering) == q[Start(Positions(q, ordering), c, Descends(ordering[0])) - c.offset..]
  {
    hide OrderBy, Filter, Base;
    if c.position.Some? {
      OrderByOrdered(rows, ordering);
      OrderedPositions(OrderBy(rows, ordering), ordering);
      FilterIsSuffix(OrderBy(rows, ordering), c.position.value, false, ordering);
    }
  }

  lemma ReversedPositions(q: seq<Row>, ordering: seq<string>)
    requires ordering != []
    ensures Positions(Reverse(q), ordering) == Reverse(Positions(q, ordering))
  {
  }

  lemma QueryReverse(rows: seq<Row>, c: Cursor, ordering: seq<string>)
    requires WellOrdered(rows, ordering) && c.reverse
    ensures var q := OrderBy(rows, ordering);
      var ks, desc := Positions(q, ordering), Descends(ordering[0]);
      && End(ks, c, desc) <= |q|
      && Query(rows, c, ordering) == Reverse(q)[|q| - End(ks, c, desc) - c.offset..]
  {
    hide OrderBy, Filter, Base, Before, Positions;
    var q := OrderBy(rows, ordering);
    var ks, desc := Positions(q, ordering), Descends(ordering[0]);
    ReversedOrderBy(rows, ordering);
    OrderByOrdered(rows, ordering);
    OrderedPositions(q, ordering);
    if c.position.Some? {
      MirrorSorted(ks, desc);
      ReversedPositions(q, ordering);
      FilterIsSuffix(Reverse(q), c.position.value, true, ordering);
      MirrorBase(ks, c.position.value, desc);
    }
  }

  lemma SliceOfSuffix<T>(q: seq<T>, base: nat, offset: nat, size: nat)
    requires base <= |q|
    ensures Slice(q[base..], offset, offset + size) == Slice(q, base + offset, base + offset + size)
  {
  }

  lemma SlicedPositions(q: seq<Row>, s: nat, size: nat, ordering: seq<string>)
    requires ordering != []
    ensures Positions(Slice(q, s, s + size), ordering) == Slice(Positions(q, ordering), s, s + size)
  {
  }

  lemma FetchForward(rows: seq<Row>, c: Cursor, pageSize: nat, ordering: seq<string>)
    requires WellOrdered(rows, ordering) && !c.reverse
    ensures var q := OrderBy(rows, ordering);
      var s := Start(Positions(q, ordering), c, Descends(ordering[0]));
      Fetch(rows, c, pageSize, ordering) == Slice(q, s, s + pageSize + 1)
  {
    hide OrderBy, Query, Base, Slice, Positions;
    var q := OrderBy(rows, ordering);
    var base := Start(Positions(q, ordering), c, Descends(ordering[0])) - c.offset;
    QueryForward(rows, c, ordering);
    SliceOfSuffix(q, base, c.offset, pageSize + 1);
  }

  lemma FetchReverse(rows: seq<Row>, c: Cursor, pageSize: nat, ordering: seq<string>)
    requires WellOrdered(rows, ordering) && c.reverse
    ensures var q := OrderBy(rows, ordering);
      var e := End(Positions(q, ordering), c, Descends(ordering[0]));
      e <= |q| && Fetch(rows, c, pageSize, ordering) == Slice(Reverse(q), |q| - e, |q| - e + pageSize + 1)
  {
    hide OrderBy, Query, Before, Slice, Positions;
    var q := OrderBy(rows, ordering);
    QueryReverse(rows, c, ordering);
    var base := |q| - End(Positions(q, ordering), c, Descends(ordering[0])) - c.offset;
    SliceOfSuffix(Reverse(q), base, c.offset, pageSize + 1);
  }

  lemma ForwardResponse(rows: seq<Row>, cursor: Option<Cursor>, pageSize: nat, ordering: seq<string>)
    requires WellOrdered(rows, ordering) && !Effective(cursor).reverse
    ensures var q := OrderBy(rows, ordering);
      var ks, desc := Positions(q, ordering), Descends(ordering[0]);
      var s := Start(ks, Effective(cursor), desc);
      Paginate(rows, cursor, pageSize, ordering)
      == Response(Slice(q, s, s + pageSize), ForwardView(ks, cursor, pageSize, desc))
  {
    hide OrderBy, Fetch, Base, Slice, Positions, Assemble, ForwardView;
    var q := OrderBy(rows, ordering);
    var ks, desc := Positions(q, ordering), Descends(ordering[0]);
    var s := Start(ks, Effective(cursor), desc);
    FetchForward(rows, Effective(cursor), pageSize, ordering);
    SliceFetch(q, s, pageSize);
    SlicedPositions(q, s, pageSize + 1, ordering);
    AssembleForward(ks, cursor, pageSize, desc);
  }

  lemma ReverseResponse(rows: seq<Row>, c: Cursor, pageSize: nat, ordering: seq<string>)
    requires WellOrdered(rows, ordering) && c.reverse
    ensures var q := OrderBy(rows, ordering);
      var ks, desc := Positions(q, ordering), Descends(ordering[0]);
      var e := End(ks, c, desc);
      && e <= |q|
      && Paginate(rows, Some(c), pageSize, ordering)
         == Response(Slice(q, Max(0, e - pageSize), Max(0, e)), ReverseView(ks, c, pageSize, desc))
  {
    hide OrderBy, Fetch, Before, Slice, Positions, Assemble, ReverseView, Total, Reverse;
    var q := OrderBy(rows, ordering);
    var ks, desc := Positions(q, ordering), Descends(ordering[0]);
    FetchReverse(rows, c, pageSize, ordering);
    var s := |q| - End(ks, c, desc);
    SliceFetch(Reverse(q), s, pageSize);
    MirrorSlice(q, s, pageSize);
    ReversedPositions(q, ordering);
    SlicedPositions(Reverse(q), s, pageSize + 1, ordering);
    AssembleReverse(ks, c, pageSize, desc);
  }

  /** Every request, whatever its cursor, shows a window of the ordered table and sets the
      attributes from what lies around that window. */
  lemma PaginateShows(rows: seq<Row>, cursor: Option<Cursor>, pageSize: nat, ordering: seq<string>)
    requires WellOrdered(rows, ordering)
    ensures var q := OrderBy(rows, ordering);
      var ks, desc := Positions(q, ordering), Descends(ordering[0]);
      var (lo, hi) := WindowOf(ks, Effective(cursor), pageSize, desc);
      Paginate(rows, cursor, pageSize, ordering) == Response(q[lo..hi], ViewOf(ks, cursor, pageSize, desc))
  {
    hide OrderBy, Paginate, ForwardView, ReverseView, Base, Before, Positions;
    if Effective(cursor).reverse {
      ReverseResponse(rows, cursor.value, pageSize, ordering);
    } else {
      ForwardResponse(rows, cursor, pageSize, ordering);
    }
  }

  ghost predicate DistinctPositions(rows: seq<Row>, ordering: seq<string>)
    requires ordering != []
  {
    AllDistinct(Positions(rows, ordering))
  }

  /** Distinct positions leave the database no freedom. */
  lemma DistinctIsTotal(rows: seq<Row>, ordering: seq<string>)
    requires ordering != [] && DistinctPositions(rows, ordering)
    ensures Total(rows, ordering)
  {
    forall i, j | 0 <= i < j < |rows|
      ensures Precedes(rows[i], rows[j], ordering) || Precedes(rows[j], rows[i], ordering)
    {
      var ks := Positions(rows, ordering);
      assert ks[i] != ks[j];
    }
  }

  lemma DistinctSorted(rows: seq<Row>, ordering: seq<string>)
    requires WellOrdered(rows, ordering) && DistinctPositions(rows, ordering)
    ensures AllDistinct(Positions(OrderBy(rows, ordering), ordering))
  {
    hide OrderBy, Total, Key;
    var q := OrderBy(rows, ordering);
    OrderByKeeps(rows, ordering);
    OrderByOrdered(rows, ordering);
    OrderedPositions(q, ordering);
    forall i, j | 0 <= i < j < |q|
      ensures Key(q[i], ordering) != Key(q[j], ordering)
    {
      assert q[i] in multiset(rows) && q[j] in multiset(rows);
      var a :| 0 <= a < |rows| && rows[a] == q[i];
      var b :| 0 <= b < |rows| && rows[b] == q[j];
      var ks := Positions(rows, ordering);
      assert ks[a] != ks[b];
    }
  }
}
