/** `order_by` with the ordering tuples of the paginator, and `_reverse_ordering`. */
module Ordering {
  import opened Prelude

  /** A table row: its columns.  A column the row does not list reads as 0. */
  datatype Row = Row(columns: map<string, int>)

  function Attr(row: Row, field: string): int {
    if field in row.columns then row.columns[field] else 0
  }

  predicate Descends(item: string) {
    item != "" && item[0] == '-'
  }

  /** `item.lstrip('-')` */
  function FieldOf(item: string): string {
    if Descends(item) then FieldOf(item[1..]) else item
  }

  function Invert(item: string): string {
    if Descends(item) then item[1..] else "-" + item
  }

  function ReverseOrdering(ordering: seq<string>): (r: seq<string>)
    ensures |r| == |ordering|
    ensures ordering != [] ==> r[0] == Invert(ordering[0])
  {
    if ordering == [] then [] else [Invert(ordering[0])] + ReverseOrdering(ordering[1..])
  }

  /** Every item names a field with at most one leading minus sign. */
  predicate Simple(ordering: seq<string>) {
    forall i :: 0 <= i < |ordering| ==> Descends(ordering[i]) ==> !Descends(ordering[i][1..])
  }

  /** `a` comes strictly before `b` in the given ordering. */
  predicate Precedes(a: Row, b: Row, ordering: seq<string>) {
    ordering != [] &&
    var x, y := Attr(a, FieldOf(ordering[0])), Attr(b, FieldOf(ordering[0]));
    if x != y then (if Descends(ordering[0]) then x > y else x < y)
    else Precedes(a, b, ordering[1..])
  }

  /** No two rows tie on the whole ordering, so the database has no freedom left. */
  ghost predicate Total(rows: seq<Row>, ordering: seq<string>) {
    forall i, j {:trigger Precedes(rows[i], rows[j], ordering)} :: 0 <= i < j < |rows| ==>
      Precedes(rows[i], rows[j], ordering) || Precedes(rows[j], rows[i], ordering)
  }

  ghost predicate Ordered(rows: seq<Row>, ordering: seq<string>) {
    forall i, j {:trigger Precedes(rows[i], rows[j], ordering)} ::
      0 <= i < j < |rows| ==> Precedes(rows[i], rows[j], ordering)
  }

  function Insert(row: Row, rows: seq<Row>, ordering: seq<string>): seq<Row> {
    if rows == [] || !Precedes(rows[0], row, ordering) then [row] + rows
    else [rows[0]] + Insert(row, rows[1..], ordering)
  }

  /** The rows of a table in the order the query asks for. */
  function OrderBy(rows: seq<Row>, ordering: seq<string>): seq<Row> {
    if rows == [] then [] else Insert(rows[0], OrderBy(rows[1..], ordering), ordering)
  }

  lemma {:induction false} InsertKeeps(row: Row, rows: seq<Row>, ordering: seq<string>)
    ensures multiset(Insert(row, rows, ordering)) == multiset(rows) + multiset{row}
  {
    if rows != [] && Precedes(rows[0], row, ordering) {
      InsertKeeps(row, rows[1..], ordering);
      assert rows == [rows[0]] + rows[1..];
    }
  }

  /** Sorting loses and duplicates nothing. */
  lemma {:induction false} OrderByKeeps(rows: seq<Row>, ordering: seq<string>)
    ensures multiset(OrderBy(rows, ordering)) == multiset(rows)
  {
    if rows != [] {
      OrderByKeeps(rows[1..], ordering);
      InsertKeeps(rows[0], OrderBy(rows[1..], ordering), ordering);
      assert rows == [rows[0]] + rows[1..];
    }
  }

  lemma {:induction false} PrecedesTransitive(a: Row, b: Row, c: Row, ordering: seq<string>)
    requires Precedes(a, b, ordering) && Precedes(b, c, ordering)
    ensures Precedes(a, c, ordering)
  {
    var f := FieldOf(ordering[0]);
    if Attr(a, f) == Attr(b, f) && Attr(b, f) == Attr(c, f) {
      PrecedesTransitive(a, b, c, ordering[1..]);
    }
  }

  lemma {:induction false} PrecedesAsymmetric(a: Row, b: Row, ordering: seq<string>)
    requires Precedes(a, b, ordering)
    ensures !Precedes(b, a, ordering) && a != b
  {
    if Attr(a, FieldOf(ordering[0])) == Attr(b, FieldOf(ordering[0])) {
      PrecedesAsymmetric(a, b, ordering[1..]);
    }
  }

  lemma {:induction false} PrecedesNegative(a: Row, b: Row, c: Row, ordering: seq<string>)
    requires Precedes(c, a, ordering)
    ensures Precedes(b, a, ordering) || Precedes(c, b, ordering)
  {
    var f := FieldOf(ordering[0]);
    if Attr(a, f) == Attr(b, f) && Attr(b, f) == Attr(c, f) {
      PrecedesNegative(a, b, c, ordering[1..]);
    }
  }

  /** No row comes before one that precedes it; rows that tie may stand in any order. */
  ghost predicate NeverBack(rows: seq<Row>, ordering: seq<string>) {
    forall i, j {:trigger Precedes(rows[j], rows[i], ordering)} ::
      0 <= i < j < |rows| ==> !Precedes(rows[j], rows[i], ordering)
  }

  lemma {:induction false} InsertNeverBack(row: Row, rows: seq<Row>, ordering: seq<string>)
    requires NeverBack(rows, ordering)
    ensures NeverBack(Insert(row, rows, ordering), ordering)
  {
    hide Precedes;
    if rows == [] {
    } else if !Precedes(rows[0], row, ordering) {
      forall i | 0 < i < |rows|
        ensures !Precedes(rows[i], row, ordering)
      {
        if Precedes(rows[i], row, ordering) { PrecedesNegative(row, rows[0], rows[i], ordering); }
      }
    } else {
      InsertNeverBack(row, rows[1..], ordering);
      var r := Insert(row, rows[1..], ordering);
      forall i | 0 <= i < |r|
        ensures !Precedes(r[i], rows[0], ordering)
      {
        InsertKeeps(row, rows[1..], ordering);
        assert r[i] in multiset(r);
        if r[i] == row {
          if Precedes(row, rows[0], ordering) { PrecedesAsymmetric(row, rows[0], ordering); }
        } else {
          assert r[i] in rows[1..];
        }
      }
    }
  }

  /** Sorting needs no total order. */
  lemma {:induction false} OrderByNeverBack(rows: seq<Row>, ordering: seq<string>)
    ensures NeverBack(OrderBy(rows, ordering), ordering)
  {
    hide Precedes;
    if rows != [] {
      OrderByNeverBack(rows[1..], ordering);
      InsertNeverBack(rows[0], OrderBy(rows[1..], ordering), ordering);
    }
  }

  /** Inverting every item of the tuple inverts the order relation. */
  lemma {:induction false} ReversedPrecedes(a: Row, b: Row, ordering: seq<string>)
    requires Simple(ordering)
    ensures Precedes(a, b, ReverseOrdering(ordering)) == Precedes(b, a, ordering)
  {
    if ordering != [] {
      var item := ordering[0];
      assert FieldOf(Invert(item)) == FieldOf(item) by {
        if !Descends(item) { assert Invert(item)[1..] == item; }
      }
      assert Descends(Invert(item)) == !Descends(item);
      ReversedPrecedes(a, b, ordering[1..]);
      assert ReverseOrdering(ordering)[1..] == ReverseOrdering(ordering[1..]);
    }
  }

  lemma {:induction false} ReverseOrderingTwice(ordering: seq<string>)
    requires Simple(ordering)
    ensures Simple(ReverseOrdering(ordering))
    ensures ReverseOrdering(ReverseOrdering(ordering)) == ordering
  {
    if ordering != [] {
      ReverseOrderingTwice(ordering[1..]);
      var item, r := ordering[0], ReverseOrdering(ordering);
      assert r[1..] == ReverseOrdering(ordering[1..]);
      if Descends(item) {
        assert "-" + item[1..] == item;
      } else {
        assert Invert(item)[1..] == item;
      }
      forall i | 0 <= i < |r| && Descends(r[i])
        ensures !Descends(r[i][1..])
      {
        if i > 0 { assert r[i] == r[1..][i - 1]; }
      }
    }
  }

  lemma {:induction false} InsertOrdered(row: Row, rows: seq<Row>, ordering: seq<string>)
    requires Ordered(rows, ordering)
    requires forall i :: 0 <= i < |rows| ==> Precedes(row, rows[i], ordering) || Precedes(rows[i], row, ordering)
    ensures Ordered(Insert(row, rows, ordering), ordering)
  {
    if rows == [] {
    } else if !Precedes(rows[0], row, ordering) {
      forall i | 0 < i < |rows|
        ensures Precedes(row, rows[i], ordering)
      {
        PrecedesTransitive(row, rows[0], rows[i], ordering);
      }
    } else {
      InsertOrdered(row, rows[1..], ordering);
      var r := Insert(row, rows[1..], ordering);
      forall i | 0 <= i < |r|
        ensures Precedes(rows[0], r[i], ordering)
      {
        InsertKeeps(row, rows[1..], ordering);
        assert r[i] in multiset(r);
        if r[i] != row { assert r[i] in rows[1..]; }
      }
    }
  }

  lemma {:induction false} OrderByOrdered(rows: seq<Row>, ordering: seq<string>)
    requires Total(rows, ordering)
    ensures Ordered(OrderBy(rows, ordering), ordering)
  {
    if rows != [] {
      OrderByOrdered(rows[1..], ordering);
      var r := OrderBy(rows[1..], ordering);
      forall i | 0 <= i < |r|
        ensures Precedes(rows[0], r[i], ordering) || Precedes(r[i], rows[0], ordering)
      {
        OrderByKeeps(rows[1..], ordering);
        assert r[i] in multiset(r);
        var k :| 0 <= k < |rows[1..]| && rows[1..][k] == r[i];
        assert rows[k + 1] == r[i];
      }
      InsertOrdered(rows[0], r, ordering);
    }
  }

  lemma OrderedHead(s: seq<Row>, t: seq<Row>, ordering: seq<string>)
    requires Ordered(s, ordering) && Ordered(t, ordering)
    requires s != [] && t != [] && s[0] in t && t[0] in s
    ensures s[0] == t[0]
  {
    var i :| 0 <= i < |t| && t[i] == s[0];
    var j :| 0 <= j < |s| && s[j] == t[0];
    if i > 0 && j > 0 { PrecedesAsymmetric(s[0], t[0], ordering); }
  }

  lemma MultisetTail<T>(s: seq<T>)
    requires s != []
    ensures multiset(s[1..]) == multiset(s) - multiset{s[0]}
  {
    assert s == [s[0]] + s[1..];
  }

  /** A strictly ordered sequence is determined by its elements. */
  lemma {:induction false} OrderedUnique(s: seq<Row>, t: seq<Row>, ordering: seq<string>)
    requires Ordered(s, ordering) && Ordered(t, ordering)
    requires multiset(s) == multiset(t)
    ensures s == t
  {
    if s == [] || t == [] {
      assert |multiset(s)| == |s| && |multiset(t)| == |t|;
    } else {
      assert s[0] in multiset(t) && t[0] in multiset(s);
      OrderedHead(s, t, ordering);
      MultisetTail(s);
      MultisetTail(t);
      OrderedUnique(s[1..], t[1..], ordering);
    }
  }

  /** Asking for the reversed ordering returns exactly the reverse of the rows. */
  lemma ReversedOrderBy(rows: seq<Row>, ordering: seq<string>)
    requires Simple(ordering) && Total(rows, ordering)
    ensures Total(rows, ReverseOrdering(ordering))
    ensures OrderBy(rows, ReverseOrdering(ordering)) == Reverse(OrderBy(rows, ordering))
  {
    var back, q := ReverseOrdering(ordering), OrderBy(rows, ordering);
    forall i, j | 0 <= i < j < |rows|
      ensures Precedes(rows[i], rows[j], back) || Precedes(rows[j], rows[i], back)
    {
      ReversedPrecedes(rows[i], rows[j], ordering);
      ReversedPrecedes(rows[j], rows[i], ordering);
    }
    OrderByOrdered(rows, ordering);
    OrderByOrdered(rows, back);
    var r := Reverse(q);
    forall i, j | 0 <= i < j < |r|
      ensures Precedes(r[i], r[j], back)
    {
      ReversedPrecedes(r[i], r[j], ordering);
    }
    ReverseMultiset(q);
    OrderByKeeps(rows, ordering);
    OrderByKeeps(rows, back);
    OrderedUnique(OrderBy(rows, back), r, back);
  }
}
