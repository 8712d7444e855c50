/** Changing direction: where the previous link of a forward page, and the next link of a reverse
    page, lead when rows share positions. */
module CursorTurns {
  import opened Prelude
  import opened Ordering
  import opened CursorLinks
  import opened CursorWindows
  import opened CursorPages
  import opened CursorTraversal

  /** What is left of an offset after decoding. */
  function Cap(offset: nat, cutoff: nat): nat {
    if cutoff > 0 then Min(offset, cutoff) else offset
  }

  /** Where the page behind a turn ends, for a forward page starting at row `s`. */
  function TurnedEnd(q: seq<int>, s: nat, offset: nat, pageSize: nat, cutoff: nat): int
    requires s < |q|
  {
    var e := Min(s + pageSize, |q|);
    var t := TiesAfter(q, s) + 1;
    if offset == 0 then s
    else if s + t < e then s + t - Cap(t, cutoff)
    else if e == |q| then |q| - Cap(pageSize, cutoff)
    else e - TiesBefore(q, e)
  }

  /** The turn is exact when the cursor has no offset; or the page shows two positions and the
      ties at its edge fit the cutoff; or the page is all tied and either it is the final page and
      as long as the offset the link gives, or its ties start with the page and continue past it. */
  predicate TurnsExactly(q: seq<int>, s: nat, offset: nat, pageSize: nat, cutoff: nat)
    requires s < |q|
  {
    var e := Min(s + pageSize, |q|);
    var t := TiesAfter(q, s) + 1;
    || offset == 0
    || (s + t < e && WithinCutoff(t, cutoff))
    || (s + t >= e && e == |q| && e - s == Cap(pageSize, cutoff))
    || (s + t >= e && e < |q| && TiesBefore(q, e) == e - s)
  }

  lemma TurnedEndExact(q: seq<int>, s: nat, offset: nat, pageSize: nat, cutoff: nat)
    requires s < |q|
    ensures TurnsExactly(q, s, offset, pageSize, cutoff) <==> TurnedEnd(q, s, offset, pageSize, cutoff) == s
  {
  }

  /** The previous link of a forward page `q[s..e]`. */
  lemma PreviousLinkOfWindow(q: seq<int>, s: nat, e: nat, v: View, pageSize: nat)
    requires s < e <= |q| && Readable(v) && v.hasPrevious && !Effective(v.cursor).reverse
    requires v.page == q[s..e] && (v.hasNext <==> e < |q|) && (v.hasNext ==> v.next == Held(Some(q[e])))
    requires v.cursor.value.offset == 0 ==> v.previous.position != Some(q[s])
    ensures var t := TiesAfter(q, s) + 1;
      PreviousLink(v, pageSize)
      == Some(if v.cursor.value.offset == 0 then Cursor(0, true, Some(q[s]))
              else if s + t < e then Cursor(t, true, Some(q[s + t]))
              else if e == |q| then Cursor(pageSize, true, None)
              else Cursor(0, true, Some(q[e])))
  {
    hide TiesAfter;
    ScanFrontFinds(q, s, e);
  }

  lemma ClampedEnd(q: seq<int>, c: Cursor, cutoff: nat, desc: bool)
    ensures End(q, Clamp(c, cutoff), desc) == End(q, c, desc) + c.offset - Cap(c.offset, cutoff)
  {
  }

  lemma BeforeFresh(q: seq<int>, i: nat, desc: bool)
    requires Sorted(q, desc) && i < |q| && (i > 0 ==> q[i - 1] != q[i])
    ensures Before(q, q[i], desc) == i
  {
    BeforeAt(q, i, desc);
  }

  /** Where each kind of previous link ends its page. */
  lemma TurnedLinkEnd(q: seq<int>, s: nat, offset: nat, pageSize: nat, cutoff: nat, link: Cursor, desc: bool)
    requires Sorted(q, desc) && pageSize > 0 && s < |q|
    requires offset == 0 ==> (s > 0 ==> q[s - 1] != q[s])
    requires var e, t := Min(s + pageSize, |q|), TiesAfter(q, s) + 1;
      link == if offset == 0 then Cursor(0, true, Some(q[s]))
              else if s + t < e then Cursor(t, true, Some(q[s + t]))
              else if e == |q| then Cursor(pageSize, true, None)
              else Cursor(0, true, Some(q[e]))
    ensures End(q, Clamp(link, cutoff), desc) == TurnedEnd(q, s, offset, pageSize, cutoff)
  {
    hide Before, TiesBefore, TiesAfter, Sorted;
    var e, t := Min(s + pageSize, |q|), TiesAfter(q, s) + 1;
    ClampedEnd(q, link, cutoff, desc);
    if offset == 0 {
      BeforeFresh(q, s, desc);
    } else if s + t < e {
      TiesAfterBoundary(q, s);
      BeforeFresh(q, s + t, desc);
    } else if e < |q| {
      BeforeAt(q, e, desc);
    }
  }

  lemma ForwardViewFacts(q: seq<int>, cursor: Option<Cursor>, pageSize: nat, desc: bool)
    requires Start(q, Effective(cursor), desc) < |q|
    ensures var s, v := Start(q, Effective(cursor), desc), ForwardView(q, cursor, pageSize, desc);
      var e := Min(s + pageSize, |q|);
      && v.cursor == cursor && v.page == q[s..e]
      && (v.hasNext <==> e < |q|) && (v.hasNext ==> v.next == Held(Some(q[e])))
      && (v.hasPrevious <==> Turned(Effective(cursor)))
      && (v.hasPrevious ==> v.previous == Held(Effective(cursor).position))
  {
    hide Base;
  }

  lemma StartBeyond(q: seq<int>, c: Cursor, desc: bool)
    requires c.offset == 0 && Start(q, c, desc) < |q|
    ensures c.position != Some(q[Start(q, c, desc)])
  {
    if c.position.Some? { BaseBoundary(q, c.position.value, desc); }
  }

  lemma ForwardPreviousLink(q: seq<int>, c: Cursor, pageSize: nat, desc: bool)
    requires pageSize > 0 && !c.reverse && Turned(c) && Start(q, c, desc) < |q|
    ensures var s, v := Start(q, c, desc), ForwardView(q, Some(c), pageSize, desc);
      var e, t := Min(s + pageSize, |q|), TiesAfter(q, s) + 1;
      PreviousLink(v, pageSize)
      == Some(if c.offset == 0 then Cursor(0, true, Some(q[s]))
              else if s + t < e then Cursor(t, true, Some(q[s + t]))
              else if e == |q| then Cursor(pageSize, true, None)
              else Cursor(0, true, Some(q[e])))
  {
    hide Base, TiesAfter, PreviousLink, ForwardView;
    var s := Start(q, c, desc);
    if c.offset == 0 { StartBeyond(q, c, desc); }
    ForwardViewReadable(q, Some(c), pageSize, desc);
    ForwardViewFacts(q, Some(c), pageSize, desc);
    PreviousLinkOfWindow(q, s, Min(s + pageSize, |q|), ForwardView(q, Some(c), pageSize, desc), pageSize);
  }

  lemma StartIsFresh(q: seq<int>, c: Cursor, desc: bool)
    requires c.offset == 0 && Start(q, c, desc) < |q|
    ensures var s := Start(q, c, desc); s > 0 ==> q[s - 1] != q[s]
  {
    if c.position.Some? { BaseBoundary(q, c.position.value, desc); }
  }

  /** The previous link of a forward page, decoded, ends its page at `TurnedEnd`. */
  lemma TurnBack(q: seq<int>, c: Cursor, pageSize: nat, cutoff: nat, desc: bool)
    requires Sorted(q, desc) && pageSize > 0 && !c.reverse && Turned(c)
    requires Start(q, c, desc) < |q|
    ensures var s, v := Start(q, c, desc), ForwardView(q, Some(c), pageSize, desc);
      var link := PreviousLink(v, pageSize);
      && link.Some? && link.value.reverse
      && End(q, Clamp(link.value, cutoff), desc) == TurnedEnd(q, s, c.offset, pageSize, cutoff)
  {
    hide Base, Before, TiesBefore, TiesAfter, Sorted, PreviousLink, ForwardView, TurnedEnd, End, Clamp;
    var s := Start(q, c, desc);
    ForwardViewReadable(q, Some(c), pageSize, desc);
    ForwardPreviousLink(q, c, pageSize, desc);
    if c.offset == 0 { StartIsFresh(q, c, desc); }
    TurnedLinkEnd(q, s, c.offset, pageSize, cutoff,
                  PreviousLink(ForwardView(q, Some(c), pageSize, desc), pageSize).value, desc);
  }

  lemma ForwardViewCursor(q: seq<int>, cursor: Option<Cursor>, pageSize: nat, desc: bool)
    ensures ForwardView(q, cursor, pageSize, desc).cursor == cursor
  {
  }

  /** The next link of a reverse page is the mirror image of the turn above. */
  lemma TurnForward(q: seq<int>, c: Cursor, pageSize: nat, cutoff: nat, desc: bool)
    requires Sorted(q, desc) && pageSize > 0 && c.reverse && Turned(c)
    requires 0 < End(q, c, desc)
    ensures var e, v := End(q, c, desc), ReverseView(q, c, pageSize, desc);
      && e <= |q| && Readable(v)
      && var link := NextLink(v, pageSize);
         && link.Some? && !link.value.reverse
         && Start(q, Clamp(link.value, cutoff), desc)
            == |q| - TurnedEnd(Reverse(q), |q| - e, c.offset, pageSize, cutoff)
  {
    hide Base, Before, TiesBefore, TiesAfter, Sorted, PreviousLink, NextLink, ForwardView, ReverseView, TurnedEnd;
    var r, m := Reverse(q), MirrorCursor(c);
    var f := ForwardView(r, Some(m), pageSize, !desc);
    MirrorSorted(q, desc);
    MirrorStart(q, c, desc);
    MirrorForwardView(q, c, pageSize, desc);
    ForwardViewReadable(r, Some(m), pageSize, !desc);
    TurnBack(r, m, pageSize, cutoff, !desc);
    ForwardViewCursor(r, Some(m), pageSize, !desc);
    MirrorPreviousLink(f, pageSize);
    var link := PreviousLink(f, pageSize).value;
    MirrorStart(r, Clamp(link, cutoff), !desc);
    ReverseTwice(q);
  }

  // ----- the pages behind a turn -----

  lemma DistinctWindows(q: seq<Row>, s: nat, e: int, pageSize: nat)
    requires 0 < pageSize && 0 < s <= |q| && e <= |q| && e != s
    requires forall i, j :: 0 <= i < j < |q| ==> q[i] != q[j]
    ensures Slice(q, Max(0, e - pageSize), Max(0, e)) != Slice(q, Max(0, s - pageSize), s)
  {
    var a, b := Slice(q, Max(0, e - pageSize), Max(0, e)), Slice(q, Max(0, s - pageSize), s);
    assert b[|b| - 1] == q[s - 1];
    if e > 0 { assert a[|a| - 1] == q[e - 1]; }
  }

  lemma DistinctStarts(q: seq<Row>, s: nat, e: nat, pageSize: nat)
    requires 0 < pageSize && s != e && e < |q|
    requires forall i, j :: 0 <= i < j < |q| ==> q[i] != q[j]
    ensures Slice(q, s, s + pageSize) != Slice(q, e, e + pageSize)
  {
    var a, b := Slice(q, s, s + pageSize), Slice(q, e, e + pageSize);
    assert b[0] == q[e];
    if s < |q| { assert a[0] == q[s]; }
  }

  /** The rows shown behind a turn from a forward page. */
  lemma TurnedRows(rows: seq<Row>, c: Cursor, pageSize: nat, cutoff: nat, ordering: seq<string>)
    requires WellOrdered(rows, ordering) && pageSize > 0 && !c.reverse && Turned(c)
    requires Start(Positions(OrderBy(rows, ordering), ordering), c, Descends(ordering[0])) < |OrderBy(rows, ordering)|
    ensures var q, r := OrderBy(rows, ordering), Paginate(rows, Some(c), pageSize, ordering);
      var ks := Positions(q, ordering);
      var s := Start(ks, c, Descends(ordering[0]));
      var e := TurnedEnd(ks, s, c.offset, pageSize, cutoff);
      && r.rows == Slice(q, s, s + pageSize) && Readable(r.view)
      && var back := Follow(rows, PreviousLink(r.view, pageSize), pageSize, cutoff, ordering);
         back.Some? && e <= |q| && back.value.rows == Slice(q, Max(0, e - pageSize), Max(0, e))
  {
    hide OrderBy, Paginate, Positions, Base, Sorted, PreviousLink, ForwardView, ReverseView, TurnedEnd, End, Slice;
    hide Total;
    var q := OrderBy(rows, ordering);
    var ks, desc := Positions(q, ordering), Descends(ordering[0]);
    OrderByOrdered(rows, ordering);
    OrderedPositions(q, ordering);
    ForwardResponse(rows, Some(c), pageSize, ordering);
    ForwardViewReadable(ks, Some(c), pageSize, desc);
    TurnBack(ks, c, pageSize, cutoff, desc);
    var link := Clamp(PreviousLink(ForwardView(ks, Some(c), pageSize, desc), pageSize).value, cutoff);
    ReverseResponse(rows, link, pageSize, ordering);
  }

  lemma ShownStart(rows: seq<Row>, c: Cursor, pageSize: nat, ordering: seq<string>)
    requires WellOrdered(rows, ordering) && !c.reverse
    requires Paginate(rows, Some(c), pageSize, ordering).rows != []
    ensures Start(Positions(OrderBy(rows, ordering), ordering), c, Descends(ordering[0])) < |OrderBy(rows, ordering)|
  {
    hide OrderBy, Paginate, Positions, Base, ForwardView, Total;
    ForwardResponse(rows, Some(c), pageSize, ordering);
  }

  /** A page that starts at the first row has no offset to be wrong about. */
  lemma StartPositive(ks: seq<int>, c: Cursor, pageSize: nat, cutoff: nat, desc: bool)
    requires Start(ks, c, desc) < |ks|
    ensures Start(ks, c, desc) == 0 ==> TurnedEnd(ks, 0, c.offset, pageSize, cutoff) == 0
  {
  }

  /** From a forward page with rows on it, the previous link shows the rows that end exactly where
      the page starts if and only if `TurnsExactly`. */
  lemma PreviousPageIff(rows: seq<Row>, c: Cursor, pageSize: nat, cutoff: nat, ordering: seq<string>)
    requires WellOrdered(rows, ordering) && pageSize > 0 && !c.reverse && Turned(c)
    requires Paginate(rows, Some(c), pageSize, ordering).rows != []
    ensures var q, r := OrderBy(rows, ordering), Paginate(rows, Some(c), pageSize, ordering);
      var ks := Positions(q, ordering);
      var s := Start(ks, c, Descends(ordering[0]));
      && s < |q| && r.rows == Slice(q, s, s + pageSize) && Readable(r.view)
      && var back := Follow(rows, PreviousLink(r.view, pageSize), pageSize, cutoff, ordering);
         && back.Some?
         && (back.value.rows == Slice(q, Max(0, s - pageSize), s)
             <==> TurnsExactly(ks, s, c.offset, pageSize, cutoff))
  {
    hide OrderBy, Paginate, Positions, Start, PreviousLink, TurnsExactly, TurnedEnd, Slice, Total;
    var q := OrderBy(rows, ordering);
    var ks, desc := Positions(q, ordering), Descends(ordering[0]);
    var s := Start(ks, c, desc);
    ShownStart(rows, c, pageSize, ordering);
    TurnedRows(rows, c, pageSize, cutoff, ordering);
    TurnedEndExact(ks, s, c.offset, pageSize, cutoff);
    var e := TurnedEnd(ks, s, c.offset, pageSize, cutoff);
    if e != s {
      StartPositive(ks, c, pageSize, cutoff, desc);
      RowsDistinct(rows, ordering);
      DistinctWindows(q, s, e, pageSize);
    }
  }

  lemma StartsDiffer(q: seq<Row>, s: nat, e: nat, pageSize: nat)
    requires 0 < pageSize && s != e <= |q| && (e == |q| ==> s < e)
    requires forall i, j :: 0 <= i < j < |q| ==> q[i] != q[j]
    ensures Slice(q, s, s + pageSize) != Slice(q, e, e + pageSize)
  {
    if e < |q| {
      DistinctStarts(q, s, e, pageSize);
    } else {
      assert Slice(q, s, s + pageSize) != [];
    }
  }

  lemma EndShort(ks: seq<int>, c: Cursor, pageSize: nat, cutoff: nat, desc: bool)
    requires End(ks, c, desc) == |ks| && |ks| > 0
    ensures TurnedEnd(Reverse(ks), 0, c.offset, pageSize, cutoff) == 0
  {
  }

  /** The rows shown behind a turn from a reverse page. */
  lemma TurnedRowsForward(rows: seq<Row>, c: Cursor, pageSize: nat, cutoff: nat, ordering: seq<string>)
    requires WellOrdered(rows, ordering) && pageSize > 0 && c.reverse && Turned(c)
    requires 0 < End(Positions(OrderBy(rows, ordering), ordering), c, Descends(ordering[0]))
    ensures var q, r := OrderBy(rows, ordering), Paginate(rows, Some(c), pageSize, ordering);
      var ks := Positions(q, ordering);
      var e := End(ks, c, Descends(ordering[0]));
      && e <= |q| && r.rows == Slice(q, Max(0, e - pageSize), e) && Readable(r.view)
      && var s := |q| - TurnedEnd(Reverse(ks), |q| - e, c.offset, pageSize, cutoff);
         var forth := Follow(rows, NextLink(r.view, pageSize), pageSize, cutoff, ordering);
         forth.Some? && s >= 0 && forth.value.rows == Slice(q, s, s + pageSize)
  {
    hide OrderBy, Paginate, Positions, Before, Base, Sorted, NextLink, ReverseView, ForwardView, TurnedEnd, Start;
    hide Slice, Total;
    var q := OrderBy(rows, ordering);
    var ks, desc := Positions(q, ordering), Descends(ordering[0]);
    OrderByOrdered(rows, ordering);
    OrderedPositions(q, ordering);
    ReverseResponse(rows, c, pageSize, ordering);
    TurnForward(ks, c, pageSize, cutoff, desc);
    var link := Clamp(NextLink(ReverseView(ks, c, pageSize, desc), pageSize).value, cutoff);
    ForwardResponse(rows, Some(link), pageSize, ordering);
  }

  lemma ShownEnd(rows: seq<Row>, c: Cursor, pageSize: nat, ordering: seq<string>)
    requires WellOrdered(rows, ordering) && c.reverse
    requires Paginate(rows, Some(c), pageSize, ordering).rows != []
    ensures 0 < End(Positions(OrderBy(rows, ordering), ordering), c, Descends(ordering[0]))
  {
    hide OrderBy, Paginate, Positions, Before, ReverseView, Total;
    ReverseResponse(rows, c, pageSize, ordering);
  }

  /** From a reverse page with rows on it, the next link shows the rows that start exactly where
      the page ends if and only if the same condition holds, read from the other end. */
  lemma NextPageIff(rows: seq<Row>, c: Cursor, pageSize: nat, cutoff: nat, ordering: seq<string>)
    requires WellOrdered(rows, ordering) && pageSize > 0 && c.reverse && Turned(c)
    requires Paginate(rows, Some(c), pageSize, ordering).rows != []
    ensures var q, r := OrderBy(rows, ordering), Paginate(rows, Some(c), pageSize, ordering);
      var ks := Positions(q, ordering);
      var e := End(ks, c, Descends(ordering[0]));
      && 0 < e <= |q| && r.rows == Slice(q, Max(0, e - pageSize), e) && Readable(r.view)
      && var forth := Follow(rows, NextLink(r.view, pageSize), pageSize, cutoff, ordering);
         && forth.Some?
         && (forth.value.rows == Slice(q, e, e + pageSize)
             <==> TurnsExactly(Reverse(ks), |q| - e, c.offset, pageSize, cutoff))
  {
    hide OrderBy, Paginate, Positions, End, NextLink, TurnsExactly, TurnedEnd, Slice, Total;
    var q := OrderBy(rows, ordering);
    var ks, desc := Positions(q, ordering), Descends(ordering[0]);
    var e := End(ks, c, desc);
    ShownEnd(rows, c, pageSize, ordering);
    TurnedRowsForward(rows, c, pageSize, cutoff, ordering);
    TurnedEndExact(Reverse(ks), |q| - e, c.offset, pageSize, cutoff);
    var s := |q| - TurnedEnd(Reverse(ks), |q| - e, c.offset, pageSize, cutoff);
    if s != e {
      if e == |q| {
        EndShort(ks, c, pageSize, cutoff, desc);
      }
      RowsDistinct(rows, ordering);
      StartsDiffer(q, s, e, pageSize);
    }
  }

  // ----- turning around on an empty page -----

  /** The first `n` rows lie strictly in front of the position, and no other rows do. */
  ghost predicate InFront(ks: seq<int>, position: int, desc: bool, n: nat) {
    && n <= |ks|
    && (forall i :: 0 <= i < n ==> After(position, ks[i], desc))
    && (forall i :: n <= i < |ks| ==> !After(position, ks[i], desc))
  }

  /** All rows from the `n`-th on lie strictly behind the position, and no other rows do. */
  ghost predicate Behind(ks: seq<int>, position: int, desc: bool, n: nat) {
    && n <= |ks|
    && (forall i :: 0 <= i < n ==> !After(ks[i], position, desc))
    && (forall i :: n <= i < |ks| ==> After(ks[i], position, desc))
  }

  lemma BeforeIsInFront(ks: seq<int>, position: int, desc: bool)
    requires Sorted(ks, desc)
    ensures InFront(ks, position, desc, Before(ks, position, desc))
  {
    var n := Before(ks, position, desc);
    BeforeBoundary(ks, position, desc);
    forall i | 0 <= i < |ks|
      ensures After(position, ks[i], desc) <==> i < n
    {
      if i < n { SortedAt(ks, i, n - 1, desc); } else { SortedAt(ks, n, i, desc); }
    }
  }

  lemma BaseIsBehind(ks: seq<int>, position: int, desc: bool)
    requires Sorted(ks, desc)
    ensures Behind(ks, position, desc, Base(ks, position, desc))
  {
    var n := Base(ks, position, desc);
    BaseBoundary(ks, position, desc);
    forall i | 0 <= i < |ks|
      ensures After(ks[i], position, desc) <==> i >= n
    {
      if i < n { SortedAt(ks, i, n - 1, desc); } else { SortedAt(ks, n, i, desc); }
    }
  }

  lemma EmptyPrevious(ks: seq<int>, c: Cursor, pageSize: nat, desc: bool)
    requires !c.reverse && Turned(c) && |ks| <= Start(ks, c, desc)
    ensures var v := ForwardView(ks, Some(c), pageSize, desc);
      Readable(v) && PreviousLink(v, pageSize) == Some(Cursor(0, true, c.position))
  {
    hide Base;
  }

  lemma EmptyNext(ks: seq<int>, c: Cursor, pageSize: nat, desc: bool)
    requires c.reverse && Turned(c) && End(ks, c, desc) <= 0
    ensures var v := ReverseView(ks, c, pageSize, desc);
      Readable(v) && NextLink(v, pageSize) == Some(Cursor(0, false, c.position))
  {
    hide Before;
  }

  /** From an empty forward page behind a position, the previous link shows the last rows strictly in
      front of the position; without a position it shows the last rows of the table. */
  lemma EmptyPageBack(rows: seq<Row>, c: Cursor, pageSize: nat, cutoff: nat, ordering: seq<string>) returns (n: nat)
    requires WellOrdered(rows, ordering) && pageSize > 0 && !c.reverse && Turned(c)
    requires Paginate(rows, Some(c), pageSize, ordering).rows == []
    ensures var q, r := OrderBy(rows, ordering), Paginate(rows, Some(c), pageSize, ordering);
      var ks := Positions(q, ordering);
      && (if c.position.Some? then InFront(ks, c.position.value, Descends(ordering[0]), n) else n == |q|)
      && n <= |q| && Readable(r.view)
      && var back := Follow(rows, PreviousLink(r.view, pageSize), pageSize, cutoff, ordering);
         back.Some? && back.value.rows == Slice(q, Max(0, n - pageSize), n)
  {
    hide OrderBy, Paginate, Positions, Base, Before, Sorted, PreviousLink, ForwardView, ReverseView, Total, InFront;
    var q := OrderBy(rows, ordering);
    var ks, desc := Positions(q, ordering), Descends(ordering[0]);
    var link := Cursor(0, true, c.position);
    OrderByOrdered(rows, ordering);
    OrderedPositions(q, ordering);
    ForwardResponse(rows, Some(c), pageSize, ordering);
    EmptyPrevious(ks, c, pageSize, desc);
    assert Clamp(link, cutoff) == link;
    ReverseResponse(rows, link, pageSize, ordering);
    n := End(ks, link, desc);
    if c.position.Some? { BeforeIsInFront(ks, c.position.value, desc); }
  }

  /** From an empty reverse page, the next link shows the first rows strictly behind the position, or
      the first rows of the table. */
  lemma EmptyPageForth(rows: seq<Row>, c: Cursor, pageSize: nat, cutoff: nat, ordering: seq<string>) returns (n: nat)
    requires WellOrdered(rows, ordering) && pageSize > 0 && c.reverse && Turned(c)
    requires Paginate(rows, Some(c), pageSize, ordering).rows == []
    ensures var q, r := OrderBy(rows, ordering), Paginate(rows, Some(c), pageSize, ordering);
      var ks := Positions(q, ordering);
      && (if c.position.Some? then Behind(ks, c.position.value, Descends(ordering[0]), n) else n == 0)
      && Readable(r.view)
      && var forth := Follow(rows, NextLink(r.view, pageSize), pageSize, cutoff, ordering);
         forth.Some? && forth.value.rows == Slice(q, n, n + pageSize)
  {
    hide OrderBy, Paginate, Positions, Base, Before, Sorted, NextLink, ForwardView, ReverseView, Total, Behind;
    var q := OrderBy(rows, ordering);
    var ks, desc := Positions(q, ordering), Descends(ordering[0]);
    var link := Cursor(0, false, c.position);
    OrderByOrdered(rows, ordering);
    OrderedPositions(q, ordering);
    ReverseResponse(rows, c, pageSize, ordering);
    EmptyNext(ks, c, pageSize, desc);
    assert Clamp(link, cutoff) == link;
    ForwardResponse(rows, Some(link), pageSize, ordering);
    n := Start(ks, link, desc);
    if c.position.Some? { BaseIsBehind(ks, c.position.value, desc); }
  }

  /** The turn can go wrong: over three tied rows, the second page of two shows the last row, and its
      previous link shows the first row alone and skips the row between. */
  lemma TurnSkipsRow()
    ensures var rows, ordering := TiedRows(3), CREATED_THEN_ID;
      var q, r := OrderBy(rows, ordering), Visit(rows, 2, 0, ordering, 1);
      && |q| == 3 && r.Some? && r.value.rows == [q[2]]
      && var back := Follow(rows, PreviousLink(r.value.view, 2), 2, 0, ordering);
         back.Some? && back.value.rows == [q[0]]
  {
    hide OrderBy, Paginate, PreviousLink, NextLink, Positions, Total, Visit, Base;
    var rows, ordering := TiedRows(3), CREATED_THEN_ID;
    var q := OrderBy(rows, ordering);
    var ks := Positions(q, ordering);
    TiedRowsAreOrdered(3);
    TiedPositions(3);
    assert ks[0] == ks[1] == ks[2];
    assert TiesBefore(ks, 2) == 1 + TiesBefore(ks, 1) == 2;
    assert ChainStart(ks, 2, 0, 1) == NextStart(ks, 2, 0, 0) == Some(2);
    VisitStarts(rows, 2, 0, ordering, 1);
    var r := Visit(rows, 2, 0, ordering, 1).value;
    var c := r.view.cursor.value;
    VisitIsPage(rows, 2, 0, ordering, 1);
    TurnedRows(rows, c, 2, 0, ordering);
    assert TurnedEnd(ks, 2, 2, 2, 0) == 1;
  }
}
