/** Following `next` links while rows are inserted and deleted between the requests. */
module CursorChanges {
  import opened Prelude
  import opened Ordering
  import opened CursorLinks
  import opened CursorWindows
  import opened CursorPages
  import opened CursorTraversal

  /** A table as some request finds it: each position occurs once. */
  ghost predicate Snapshot(rows: seq<Row>, ordering: seq<string>) {
    ordering != [] && Simple(ordering) && DistinctPositions(rows, ordering)
  }

  /** The cursor of a chain over distinct positions: no offset, and the last position seen. */
  predicate Plain(cursor: Option<Cursor>) {
    cursor.Some? ==> !cursor.value.reverse && cursor.value.offset == 0 && cursor.value.position.Some?
  }

  /** The row lies beyond what the cursor has seen. */
  predicate Beyond(row: Row, cursor: Option<Cursor>, ordering: seq<string>)
    requires ordering != [] && Plain(cursor)
  {
    cursor.Some? ==> After(Key(row, ordering), cursor.value.position.value, Descends(ordering[0]))
  }

  /** The chain of responses, the `k`-th taken from the `k`-th snapshot. */
  function Chain(snaps: seq<seq<Row>>, pageSize: nat, cutoff: nat, ordering: seq<string>, k: nat): (r: Option<Response>)
    requires ordering != [] && k < |snaps|
    ensures r.Some? ==> Readable(r.value.view)
  {
    if k == 0 then Some(Paginate(snaps[0], None, pageSize, ordering))
    else
      var before := Chain(snaps, pageSize, cutoff, ordering, k - 1);
      if before.None? then None
      else Follow(snaps[k], NextLink(before.value.view, pageSize), pageSize, cutoff, ordering)
  }

  ghost predicate Strict(ks: seq<int>, desc: bool) {
    forall i, j :: 0 <= i < j < |ks| ==> After(ks[j], ks[i], desc)
  }

  lemma StrictlySorted(ks: seq<int>, desc: bool)
    requires Sorted(ks, desc) && AllDistinct(ks)
    ensures Strict(ks, desc)
  {
    forall i, j | 0 <= i < j < |ks|
      ensures After(ks[j], ks[i], desc)
    {
      SortedAt(ks, i, j, desc);
    }
  }

  lemma SnapshotOrdered(rows: seq<Row>, ordering: seq<string>)
    requires Snapshot(rows, ordering)
    ensures WellOrdered(rows, ordering)
    ensures var ks := Positions(OrderBy(rows, ordering), ordering);
      Sorted(ks, Descends(ordering[0])) && Strict(ks, Descends(ordering[0]))
  {
    hide OrderBy, Total, DistinctPositions, Positions;
    DistinctIsTotal(rows, ordering);
    DistinctSorted(rows, ordering);
    OrderByOrdered(rows, ordering);
    OrderedPositions(OrderBy(rows, ordering), ordering);
    StrictlySorted(Positions(OrderBy(rows, ordering), ordering), Descends(ordering[0]));
  }

  /** On distinct positions the next cursor is just the last position of the page. */
  lemma PlainLink(ks: seq<int>, cursor: Option<Cursor>, pageSize: nat, desc: bool)
    requires pageSize > 0 && Plain(cursor) && Strict(ks, desc)
    requires Start(ks, Effective(cursor), desc) + pageSize < |ks|
    ensures NextLink(ForwardView(ks, cursor, pageSize, desc), pageSize)
         == Some(Cursor(0, false, Some(ks[Start(ks, Effective(cursor), desc) + pageSize - 1])))
  {
    hide Base, NextLink;
    ForwardNextLink(ks, cursor, pageSize, desc);
    var e := Start(ks, Effective(cursor), desc) + pageSize;
    assert After(ks[e], ks[e - 1], desc);
  }

  ghost predicate InOrder(page: seq<Row>, ordering: seq<string>)
    requires ordering != []
  {
    forall i, j :: 0 <= i < j < |page| ==> After(Key(page[j], ordering), Key(page[i], ordering), Descends(ordering[0]))
  }

  /** The page shows rows of the table beyond the cursor, and leaves out only rows beyond its end. */
  ghost predicate Covers(rows: seq<Row>, page: seq<Row>, more: bool, cursor: Option<Cursor>, ordering: seq<string>)
    requires ordering != [] && Plain(cursor)
  {
    && (forall row :: row in page ==> row in rows && Beyond(row, cursor, ordering))
    && (forall row :: row in rows && Beyond(row, cursor, ordering) ==>
          || row in page
          || (more && page != [] && After(Key(row, ordering), Key(page[|page| - 1], ordering), Descends(ordering[0]))))
  }

  /** The response: the first rows beyond the cursor, and the cursor for what remains. */
  ghost predicate Serves(rows: seq<Row>, r: Response, cursor: Option<Cursor>, pageSize: nat, ordering: seq<string>)
    requires ordering != [] && Plain(cursor)
  {
    && Readable(r.view)
    && InOrder(r.rows, ordering)
    && (r.view.hasNext ==> r.rows != [])
    && Covers(rows, r.rows, r.view.hasNext, cursor, ordering)
    && NextLink(r.view, pageSize)
       == if r.view.hasNext then Some(Cursor(0, false, Some(Key(r.rows[|r.rows| - 1], ordering)))) else None
  }

  lemma RowsBeyond(q: seq<Row>, cursor: Option<Cursor>, ordering: seq<string>, i: nat)
    requires ordering != [] && Plain(cursor) && i < |q|
    requires Strict(Positions(q, ordering), Descends(ordering[0]))
    ensures Beyond(q[i], cursor, ordering)
        <==> i >= Start(Positions(q, ordering), Effective(cursor), Descends(ordering[0]))
  {
    hide Base;
    var ks, desc := Positions(q, ordering), Descends(ordering[0]);
    if cursor.Some? {
      var s := Start(ks, Effective(cursor), desc);
      BaseBoundary(ks, cursor.value.position.value, desc);
      assert ks[i] == Key(q[i], ordering);
      if i > s { assert After(ks[i], ks[s], desc); }
      if i + 1 < s { assert After(ks[s - 1], ks[i], desc); }
    }
  }

  lemma WindowInOrder(q: seq<Row>, s: nat, pageSize: nat, ordering: seq<string>)
    requires ordering != [] && Strict(Positions(q, ordering), Descends(ordering[0]))
    ensures InOrder(Slice(q, s, s + pageSize), ordering)
  {
    var page, ks, desc := Slice(q, s, s + pageSize), Positions(q, ordering), Descends(ordering[0]);
    forall i, j | 0 <= i < j < |page|
      ensures After(Key(page[j], ordering), Key(page[i], ordering), desc)
    {
      assert page[i] == q[s + i] && page[j] == q[s + j];
      assert After(ks[s + j], ks[s + i], desc);
    }
  }

  lemma WindowRow(q: seq<Row>, s: nat, pageSize: nat, i: nat)
    requires i < pageSize
    ensures i < |Slice(q, s, s + pageSize)| <==> s + i < |q|
    ensures s + i < |q| ==> Slice(q, s, s + pageSize)[i] == q[s + i]
  {
  }

  lemma WindowCovers(rows: seq<Row>, q: seq<Row>, s: nat, pageSize: nat, cursor: Option<Cursor>, ordering: seq<string>)
    requires ordering != [] && Plain(cursor) && pageSize > 0 && multiset(rows) == multiset(q)
    requires Strict(Positions(q, ordering), Descends(ordering[0]))
    requires s == Start(Positions(q, ordering), Effective(cursor), Descends(ordering[0]))
    ensures Covers(rows, Slice(q, s, s + pageSize), s + pageSize < |q|, cursor, ordering)
  {
    hide Base, Beyond, Start;
    var page, ks, desc := Slice(q, s, s + pageSize), Positions(q, ordering), Descends(ordering[0]);
    forall row | row in page
      ensures row in rows && Beyond(row, cursor, ordering)
    {
      var i :| 0 <= i < |page| && page[i] == row;
      WindowRow(q, s, pageSize, i);
      assert row in multiset(q);
      RowsBeyond(q, cursor, ordering, s + i);
    }
    forall row | row in rows && Beyond(row, cursor, ordering)
      ensures row in page || (s + pageSize < |q| && After(Key(row, ordering), Key(page[|page| - 1], ordering), desc))
    {
      assert row in multiset(q);
      var i :| 0 <= i < |q| && q[i] == row;
      RowsBeyond(q, cursor, ordering, i);
      if i < s + pageSize {
        WindowRow(q, s, pageSize, i - s);
      } else {
        WindowRow(q, s, pageSize, pageSize - 1);
        assert After(ks[i], ks[s + pageSize - 1], desc);
      }
    }
  }

  lemma WindowLink(q: seq<Row>, s: nat, pageSize: nat, cursor: Option<Cursor>, ordering: seq<string>)
    requires ordering != [] && Plain(cursor) && pageSize > 0
    requires Strict(Positions(q, ordering), Descends(ordering[0]))
    requires s == Start(Positions(q, ordering), Effective(cursor), Descends(ordering[0]))
    ensures var page := Slice(q, s, s + pageSize);
      var v := ForwardView(Positions(q, ordering), cursor, pageSize, Descends(ordering[0]));
      && Readable(v)
      && (v.hasNext <==> s + pageSize < |q|)
      && (v.hasNext ==> page != [])
      && NextLink(v, pageSize)
         == if v.hasNext then Some(Cursor(0, false, Some(Key(page[|page| - 1], ordering)))) else None
  {
    hide Base;
    var ks := Positions(q, ordering);
    if s + pageSize < |q| {
      PlainLink(ks, cursor, pageSize, Descends(ordering[0]));
      assert Slice(q, s, s + pageSize)[pageSize - 1] == q[s + pageSize - 1];
    }
  }

  /** One request of the chain. */
  lemma RequestServes(rows: seq<Row>, cursor: Option<Cursor>, pageSize: nat, ordering: seq<string>)
    requires Snapshot(rows, ordering) && Plain(cursor) && pageSize > 0
    ensures Serves(rows, Paginate(rows, cursor, pageSize, ordering), cursor, pageSize, ordering)
  {
    hide OrderBy, Paginate, Base, Positions, NextLink, Total, DistinctPositions, Simple, Covers, InOrder, Strict;
    hide Sorted;
    var q, desc := OrderBy(rows, ordering), Descends(ordering[0]);
    var ks := Positions(q, ordering);
    var s := Start(ks, Effective(cursor), desc);
    SnapshotOrdered(rows, ordering);
    OrderByKeeps(rows, ordering);
    ForwardResponse(rows, cursor, pageSize, ordering);
    WindowInOrder(q, s, pageSize, ordering);
    WindowCovers(rows, q, s, pageSize, cursor, ordering);
    WindowLink(q, s, pageSize, cursor, ordering);
  }

  // ----- the whole chain -----

  /** The cursor the `k`-th request of the chain carries. */
  function Carried(snaps: seq<seq<Row>>, pageSize: nat, cutoff: nat, ordering: seq<string>, k: nat): Option<Cursor>
    requires ordering != [] && k < |snaps|
  {
    var r := Chain(snaps, pageSize, cutoff, ordering, k);
    if r.Some? then r.value.view.cursor else None
  }

  ghost predicate Snapshots(snaps: seq<seq<Row>>, ordering: seq<string>) {
    forall i :: 0 <= i < |snaps| ==> Snapshot(snaps[i], ordering)
  }

  lemma PaginateCursor(rows: seq<Row>, cursor: Option<Cursor>, pageSize: nat, ordering: seq<string>)
    requires ordering != []
    ensures Paginate(rows, cursor, pageSize, ordering).view.cursor == cursor
  {
  }

  lemma {:induction false} ChainServes(snaps: seq<seq<Row>>, pageSize: nat, cutoff: nat, ordering: seq<string>, k: nat)
    requires ordering != [] && Snapshots(snaps, ordering) && pageSize > 0 && k < |snaps|
    ensures var r, cursor := Chain(snaps, pageSize, cutoff, ordering, k), Carried(snaps, pageSize, cutoff, ordering, k);
      && Plain(cursor)
      && (r.Some? ==> Serves(snaps[k], r.value, cursor, pageSize, ordering) && (cursor.None? <==> k == 0))
      && (r.Some? && k > 0 ==>
            var before := Chain(snaps, pageSize, cutoff, ordering, k - 1);
            before.Some? && before.value.view.hasNext && before.value.rows != []
            && cursor == Some(Cursor(0, false, Some(Key(before.value.rows[|before.value.rows| - 1], ordering)))))
  {
    hide Paginate, NextLink, InOrder, Covers, Snapshot, Key;
    if k == 0 {
      RequestServes(snaps[0], None, pageSize, ordering);
      PaginateCursor(snaps[0], None, pageSize, ordering);
    } else {
      ChainServes(snaps, pageSize, cutoff, ordering, k - 1);
      var before := Chain(snaps, pageSize, cutoff, ordering, k - 1);
      if before.Some? {
        var link := NextLink(before.value.view, pageSize);
        if link.Some? {
          assert Clamp(link.value, cutoff) == link.value;
          RequestServes(snaps[k], link, pageSize, ordering);
          PaginateCursor(snaps[k], link, pageSize, ordering);
        }
      }
    }
  }

  function Last(r: Response): Row
    requires r.rows != []
  {
    r.rows[|r.rows| - 1]
  }

  lemma AfterLast(page: seq<Row>, a: Row, b: Row, ordering: seq<string>)
    requires ordering != [] && InOrder(page, ordering) && a in page
    requires After(Key(b, ordering), Key(page[|page| - 1], ordering), Descends(ordering[0]))
    ensures After(Key(b, ordering), Key(a, ordering), Descends(ordering[0]))
  {
    var i :| 0 <= i < |page| && page[i] == a;
    if i < |page| - 1 {
      assert After(Key(page[|page| - 1], ordering), Key(page[i], ordering), Descends(ordering[0]));
    }
  }

  /** However the table changes between the requests, a later page continues strictly after every
      earlier one: no position is ever returned twice. */
  lemma {:induction false} NothingTwice(snaps: seq<seq<Row>>, pageSize: nat, cutoff: nat, ordering: seq<string>,
                                        i: nat, j: nat, a: Row, b: Row)
    requires ordering != [] && Snapshots(snaps, ordering) && pageSize > 0 && i < j < |snaps|
    ensures var earlier := Chain(snaps, pageSize, cutoff, ordering, i);
      var later := Chain(snaps, pageSize, cutoff, ordering, j);
      later.Some? ==>
        && earlier.Some?
        && (a in earlier.value.rows && b in later.value.rows
            ==> After(Key(b, ordering), Key(a, ordering), Descends(ordering[0])))
    decreases j
  {
    hide Chain, NextLink, InOrder, Snapshots, Key;
    ChainServes(snaps, pageSize, cutoff, ordering, j);
    ChainServes(snaps, pageSize, cutoff, ordering, j - 1);
    var later := Chain(snaps, pageSize, cutoff, ordering, j);
    if later.Some? {
      var before := Chain(snaps, pageSize, cutoff, ordering, j - 1).value;
      if i < j - 1 {
        NothingTwice(snaps, pageSize, cutoff, ordering, i, j - 1, a, Last(before));
      } else if a in before.rows && b in later.value.rows {
        assert Beyond(b, Carried(snaps, pageSize, cutoff, ordering, j), ordering);
        AfterLast(before.rows, a, b, ordering);
      }
    }
  }

  /** The chain goes on for as long as there is a next page. */
  lemma ChainGoesOn(snaps: seq<seq<Row>>, pageSize: nat, cutoff: nat, ordering: seq<string>, k: nat)
    requires ordering != [] && pageSize > 0 && 0 < k < |snaps|
    ensures Chain(snaps, pageSize, cutoff, ordering, 0).Some?
    ensures var before := Chain(snaps, pageSize, cutoff, ordering, k - 1);
      Chain(snaps, pageSize, cutoff, ordering, k).Some? <==> before.Some? && before.value.view.hasNext
  {
    hide Paginate;
    var before := Chain(snaps, pageSize, cutoff, ordering, k - 1);
    if before.Some? { LinkExists(before.value.view, pageSize); }
  }

  /** Rows of one page have distinct positions as well. */
  lemma NothingTwiceOnAPage(snaps: seq<seq<Row>>, pageSize: nat, cutoff: nat, ordering: seq<string>,
                            k: nat, x: nat, y: nat)
    requires ordering != [] && Snapshots(snaps, ordering) && pageSize > 0 && k < |snaps|
    ensures var r := Chain(snaps, pageSize, cutoff, ordering, k);
      r.Some? && x < y < |r.value.rows| ==>
        After(Key(r.value.rows[y], ordering), Key(r.value.rows[x], ordering), Descends(ordering[0]))
  {
    hide Chain, NextLink, Snapshots, Key, Covers;
    ChainServes(snaps, pageSize, cutoff, ordering, k);
  }

  ghost predicate Returned(snaps: seq<seq<Row>>, pageSize: nat, cutoff: nat, ordering: seq<string>, k: nat, row: Row)
    requires ordering != [] && k < |snaps|
  {
    exists i: nat :: i <= k && (var r := Chain(snaps, pageSize, cutoff, ordering, i); r.Some? && row in r.value.rows)
  }

  /** A row present in every snapshot so far has been returned or is still ahead. */
  lemma {:induction false} ReturnedOrAhead(snaps: seq<seq<Row>>, pageSize: nat, cutoff: nat, ordering: seq<string>,
                                           k: nat, row: Row)
    requires ordering != [] && Snapshots(snaps, ordering) && pageSize > 0 && k < |snaps|
    requires forall i :: 0 <= i <= k ==> row in snaps[i]
    ensures var r := Chain(snaps, pageSize, cutoff, ordering, k);
      r.Some? ==>
        || Returned(snaps, pageSize, cutoff, ordering, k, row)
        || (r.value.view.hasNext && r.value.rows != []
            && After(Key(row, ordering), Key(Last(r.value), ordering), Descends(ordering[0])))
  {
    hide Chain, NextLink, InOrder, Snapshots, Key;
    ChainServes(snaps, pageSize, cutoff, ordering, k);
    var r := Chain(snaps, pageSize, cutoff, ordering, k);
    var cursor := Carried(snaps, pageSize, cutoff, ordering, k);
    assert row in snaps[k];
    if r.Some? {
      if k > 0 {
        ReturnedOrAhead(snaps, pageSize, cutoff, ordering, k - 1, row);
      }
      if Beyond(row, cursor, ordering) {
        if row in r.value.rows { assert Returned(snaps, pageSize, cutoff, ordering, k, row); }
      } else {
        assert Returned(snaps, pageSize, cutoff, ordering, k - 1, row);
      }
    }
  }

  /** When the chain ends, every row that was there throughout has been returned. */
  lemma NothingMissed(snaps: seq<seq<Row>>, pageSize: nat, cutoff: nat, ordering: seq<string>, k: nat, row: Row)
    requires ordering != [] && Snapshots(snaps, ordering) && pageSize > 0 && k < |snaps|
    requires forall i :: 0 <= i <= k ==> row in snaps[i]
    ensures var r := Chain(snaps, pageSize, cutoff, ordering, k);
      r.Some? && NextLink(r.value.view, pageSize).None? ==> Returned(snaps, pageSize, cutoff, ordering, k, row)
  {
    hide Chain, NextLink, InOrder, Snapshots, Key, Covers, Returned;
    ChainServes(snaps, pageSize, cutoff, ordering, k);
    ReturnedOrAhead(snaps, pageSize, cutoff, ordering, k, row);
  }
}
