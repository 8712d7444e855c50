/** What an ordering tuple means for the columns of the rows that a query returns. */
module ColumnOrder {
  import opened Prelude
  import opened Ordering
  import opened CursorLinks
  import opened CursorWindows
  import opened CursorPages

  /** A column to order by, and its direction. */
  datatype Column = Column(name: string, descending: bool)

  /** The item of an ordering tuple that asks for the column. */
  function Item(column: Column): string {
    if column.descending then "-" + column.name else column.name
  }

  function Items(columns: seq<Column>): (r: seq<string>)
    ensures |r| == |columns|
    ensures forall i :: 0 <= i < |columns| ==> r[i] == Item(columns[i])
  {
    if columns == [] then [] else [Item(columns[0])] + Items(columns[1..])
  }

  /** Column names are not empty and have no leading minus sign, and every row has all the columns. */
  predicate Listed(row: Row, columns: seq<Column>) {
    forall i :: 0 <= i < |columns| ==> columns[i].name in row.columns
  }

  predicate Named(columns: seq<Column>) {
    forall i :: 0 <= i < |columns| ==> columns[i].name != "" && columns[i].name[0] != '-'
  }

  ghost predicate AllListed(rows: seq<Row>, columns: seq<Column>) {
    Named(columns) && forall row :: row in rows ==> Listed(row, columns)
  }

  ghost predicate DecidesAt(a: Row, b: Row, columns: seq<Column>, m: nat)
    requires Listed(a, columns) && Listed(b, columns) && m < |columns|
  {
    && (forall l :: 0 <= l < m ==> a.columns[columns[l].name] == b.columns[columns[l].name])
    && (if columns[m].descending then a.columns[columns[m].name] > b.columns[columns[m].name]
        else a.columns[columns[m].name] < b.columns[columns[m].name])
  }

  /** The first column in which the rows differ decides: there `a` has the smaller value, or the
      greater one in a descending column.  Rows that differ in none are equal in all. */
  ghost predicate NotAfter(a: Row, b: Row, columns: seq<Column>)
    requires Listed(a, columns) && Listed(b, columns)
  {
    || (forall l :: 0 <= l < |columns| ==> a.columns[columns[l].name] == b.columns[columns[l].name])
    || exists m :: 0 <= m < |columns| && DecidesAt(a, b, columns, m)
  }

  /** The rows are sorted by the columns. */
  ghost predicate InColumnOrder(rows: seq<Row>, columns: seq<Column>)
    requires AllListed(rows, columns)
  {
    forall i, j :: 0 <= i < j < |rows| ==> NotAfter(rows[i], rows[j], columns)
  }

  lemma ItemReads(column: Column, row: Row)
    requires column.name != "" && column.name[0] != '-' && column.name in row.columns
    ensures Attr(row, FieldOf(Item(column))) == row.columns[column.name]
    ensures Descends(Item(column)) <==> column.descending
  {
    if column.descending { assert Item(column)[1..] == column.name; }
  }

  lemma ShiftDecides(a: Row, b: Row, columns: seq<Column>, m: nat)
    requires columns != [] && Listed(a, columns) && Listed(b, columns) && m < |columns[1..]|
    requires a.columns[columns[0].name] == b.columns[columns[0].name]
    ensures DecidesAt(a, b, columns[1..], m) <==> DecidesAt(a, b, columns, m + 1)
  {
    var rest := columns[1..];
    assert forall l :: 0 <= l < |rest| ==> rest[l] == columns[l + 1];
    assert forall l :: 0 < l < |columns| ==> columns[l] == rest[l - 1];
  }

  lemma {:induction false} PrecedesDecides(a: Row, b: Row, columns: seq<Column>)
    requires Named(columns) && Listed(a, columns) && Listed(b, columns)
    ensures Precedes(a, b, Items(columns)) <==> exists m :: 0 <= m < |columns| && DecidesAt(a, b, columns, m)
  {
    if columns != [] {
      ItemReads(columns[0], a);
      ItemReads(columns[0], b);
      var name, rest := columns[0].name, columns[1..];
      PrecedesDecides(a, b, rest);
      assert Items(columns)[1..] == Items(rest);
      if a.columns[name] == b.columns[name] {
        forall m | 0 <= m < |rest|
          ensures DecidesAt(a, b, rest, m) <==> DecidesAt(a, b, columns, m + 1)
        {
          ShiftDecides(a, b, columns, m);
        }
        if m :| 0 <= m < |rest| && DecidesAt(a, b, rest, m) { assert DecidesAt(a, b, columns, m + 1); }
        if m :| 0 <= m < |columns| && DecidesAt(a, b, columns, m) { assert m > 0 && DecidesAt(a, b, rest, m - 1); }
      } else if columns[0].descending == (a.columns[name] > b.columns[name]) {
        assert DecidesAt(a, b, columns, 0);
      } else {
        assert forall m :: 0 <= m < |columns| ==> !DecidesAt(a, b, columns, m);
      }
    }
  }

  lemma {:induction false} FirstDifference(a: Row, b: Row, columns: seq<Column>, l: nat) returns (m: nat)
    requires Listed(a, columns) && Listed(b, columns) && l < |columns|
    requires a.columns[columns[l].name] != b.columns[columns[l].name]
    ensures m <= l && a.columns[columns[m].name] != b.columns[columns[m].name]
    ensures forall k :: 0 <= k < m ==> a.columns[columns[k].name] == b.columns[columns[k].name]
  {
    if k :| 0 <= k < l && a.columns[columns[k].name] != b.columns[columns[k].name] {
      m := FirstDifference(a, b, columns, k);
    } else {
      m := l;
    }
  }

  /** Whichever of two rows comes first, neither is after the other only if they are equal. */
  lemma {:induction false} OneDecides(a: Row, b: Row, columns: seq<Column>)
    requires Listed(a, columns) && Listed(b, columns)
    requires !exists m :: 0 <= m < |columns| && DecidesAt(b, a, columns, m)
    ensures NotAfter(a, b, columns)
  {
    if l :| 0 <= l < |columns| && a.columns[columns[l].name] != b.columns[columns[l].name] {
      var m := FirstDifference(a, b, columns, l);
      assert !DecidesAt(b, a, columns, m);
      assert DecidesAt(a, b, columns, m);
    }
  }

  lemma OrderByLists(rows: seq<Row>, ordering: seq<string>, columns: seq<Column>)
    requires AllListed(rows, columns)
    ensures AllListed(OrderBy(rows, ordering), columns)
  {
    var q := OrderBy(rows, ordering);
    OrderByKeeps(rows, ordering);
    forall row | row in q
      ensures Listed(row, columns)
    {
      assert row in multiset(q);
      assert row in rows;
    }
  }

  /** `order_by`: the rows come in the order of the named columns, the first item deciding and each
      further one only between rows that are equal so far. */
  lemma OrderByColumns(rows: seq<Row>, columns: seq<Column>)
    requires AllListed(rows, columns)
    ensures AllListed(OrderBy(rows, Items(columns)), columns)
    ensures InColumnOrder(OrderBy(rows, Items(columns)), columns)
  {
    hide OrderBy, Items, DecidesAt, NotAfter, Precedes;
    var q := OrderBy(rows, Items(columns));
    OrderByLists(rows, Items(columns), columns);
    OrderByNeverBack(rows, Items(columns));
    forall i, j | 0 <= i < j < |q|
      ensures NotAfter(q[i], q[j], columns)
    {
      PrecedesDecides(q[j], q[i], columns);
      OneDecides(q[i], q[j], columns);
    }
  }

  /** In a column the values never fall, or in a descending one never rise. */
  ghost predicate Monotone(a: Row, b: Row, column: Column) {
    && column.name in a.columns && column.name in b.columns
    && if column.descending then a.columns[column.name] >= b.columns[column.name]
       else a.columns[column.name] <= b.columns[column.name]
  }

  lemma FirstColumnSorted(rows: seq<Row>, columns: seq<Column>)
    requires AllListed(rows, columns) && columns != []
    ensures var q := OrderBy(rows, Items(columns));
      forall i, j :: 0 <= i < j < |q| ==> Monotone(q[i], q[j], columns[0])
  {
    hide OrderBy, Items;
    var q := OrderBy(rows, Items(columns));
    OrderByColumns(rows, columns);
    forall i, j | 0 <= i < j < |q|
      ensures Monotone(q[i], q[j], columns[0])
    {
      assert NotAfter(q[i], q[j], columns);
    }
  }

  /** Every page a request returns, forward or reverse, is a contiguous part of the table in column
      order. */
  lemma PageInColumnOrder(rows: seq<Row>, cursor: Option<Cursor>, pageSize: nat, columns: seq<Column>)
    requires AllListed(rows, columns) && WellOrdered(rows, Items(columns))
    ensures var page := Paginate(rows, cursor, pageSize, Items(columns)).rows;
      && AllListed(page, columns) && InColumnOrder(page, columns)
      && forall row :: row in page ==> row in rows
  {
    hide OrderBy, Items, Paginate, NotAfter, Total, WindowOf, ViewOf, Positions, Listed;
    var ordering := Items(columns);
    var q := OrderBy(rows, ordering);
    OrderByColumns(rows, columns);
    OrderByKeeps(rows, ordering);
    PaginateShows(rows, cursor, pageSize, ordering);
    var (lo, hi) := WindowOf(Positions(q, ordering), Effective(cursor), pageSize, Descends(ordering[0]));
    var page := q[lo..hi];
    forall row | row in page
      ensures row in q && row in rows
    {
      assert row in multiset(q);
    }
    forall i, j | 0 <= i < j < |page|
      ensures NotAfter(page[i], page[j], columns)
    {
      assert page[i] == q[lo + i] && page[j] == q[lo + j];
    }
  }

  lemma ReversedIn(page: seq<Row>, row: Row)
    ensures row in Reverse(page) <==> row in page
  {
    ReverseMultiset(page);
    assert row in multiset(Reverse(page)) <==> row in multiset(page);
  }

  lemma PageFromQuery(rows: seq<Row>, c: Cursor, pageSize: nat, ordering: seq<string>, row: Row)
    requires ordering != [] && row in Paginate(rows, Some(c), pageSize, ordering).rows
    ensures row in Query(rows, c, ordering)
  {
    hide Query, Assemble, Reverse;
    var results := Fetch(rows, c, pageSize, ordering);
    var page := Slice(results, 0, pageSize);
    ReversedIn(page, row);
    assert row in page;
    assert row in results;
  }

  lemma {:induction false} FilterPasses(rows: seq<Row>, position: int, reverse: bool, ordering: seq<string>, row: Row)
    requires ordering != [] && row in Filter(rows, position, reverse, ordering)
    ensures row in rows && Passes(row, position, reverse, ordering)
  {
    hide Passes;
    if row in Filter(rows[1..], position, reverse, ordering) {
      FilterPasses(rows[1..], position, reverse, ordering, row);
    }
  }

  /** A page behind a position holds only rows strictly beyond it in the first column: greater ones for
      a forward cursor and an ascending column, smaller ones if either is turned around. */
  lemma PageBeyondPosition(rows: seq<Row>, c: Cursor, pageSize: nat, columns: seq<Column>, row: Row)
    requires AllListed(rows, columns) && columns != [] && c.position.Some?
    requires row in Paginate(rows, Some(c), pageSize, Items(columns)).rows
    ensures row in rows && columns[0].name in row.columns
    ensures if c.reverse == columns[0].descending then row.columns[columns[0].name] > c.position.value
            else row.columns[columns[0].name] < c.position.value
  {
    hide OrderBy, Items, Assemble, Filter;
    var ordering := Items(columns);
    var sorted := OrderBy(rows, if c.reverse then ReverseOrdering(ordering) else ordering);
    var filtered := Filter(sorted, c.position.value, c.reverse, ordering);
    assert row in filtered by { PageFromQuery(rows, c, pageSize, ordering, row); }
    FilterPasses(sorted, c.position.value, c.reverse, ordering, row);
    OrderByKeeps(rows, if c.reverse then ReverseOrdering(ordering) else ordering);
    assert row in multiset(sorted);
    assert row in rows && Listed(row, columns);
    ItemReads(columns[0], row);
  }
}
