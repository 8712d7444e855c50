/** Any interleaving of `next` and `previous` links behaves like a page counter. */
module CursorWalks {
  import opened Prelude
  import opened Ordering
  import opened CursorLinks
  import opened CursorWindows
  import opened CursorPages
  import opened CursorTraversal
  import opened CursorTurns

  // ----- crossing one page boundary, in positions -----

  /** Rows on both sides of boundary `b` share a position. */
  predicate Straddles(q: seq<int>, b: nat) {
    0 < b < |q| && q[b - 1] == q[b]
  }

  lemma {:induction false} TiesAfterPrevious(q: seq<int>, b: nat)
    requires Straddles(q, b)
    ensures TiesAfter(q, b - 1) == TiesAfter(q, b) + 1
  {
  }

  lemma {:induction false} TiedAfterRow(q: seq<int>, b: nat, t: nat)
    requires b < |q| && t <= TiesAfter(q, b)
    ensures b + t < |q| && q[b + t] == q[b]
    decreases t
  {
    if t > 0 { TiedAfterRow(q, b + 1, t - 1); }
  }

  /** Next from a forward page: exact when the page before the boundary shows two positions or no
      tie straddles the boundary. */
  lemma ForwardNext(q: seq<int>, cursor: Option<Cursor>, pageSize: nat, cutoff: nat, desc: bool)
    requires Sorted(q, desc) && pageSize > 0 && !Effective(cursor).reverse
    requires var s := Start(q, Effective(cursor), desc);
      var e := s + pageSize;
      e < |q| && (Straddles(q, e) ==> q[s] != q[e - 1] && WithinCutoff(TiesBefore(q, e), cutoff))
    ensures var e := Start(q, Effective(cursor), desc) + pageSize;
      var link := NextLink(ForwardView(q, cursor, pageSize, desc), pageSize);
      && link.Some?
      && var c := Clamp(link.value, cutoff);
         && !c.reverse && Turned(c) && Start(q, c, desc) == e
         && (c.offset != 0 ==> Straddles(q, e))
  {
    hide Base, NextLink, ForwardView, Sorted;
    var s := Start(q, Effective(cursor), desc);
    var e := s + pageSize;
    ForwardViewReadable(q, cursor, pageSize, desc);
    AdvanceForward(q, cursor, pageSize, desc);
    ForwardNextLink(q, cursor, pageSize, desc);
    if TiesBefore(q, e) >= pageSize {
      TiedRow(q, e, pageSize);
      TiedRow(q, e, 1);
    }
    ClampedStart(q, NextLink(ForwardView(q, cursor, pageSize, desc), pageSize).value, cutoff, desc);
  }

  /** Previous from a forward page: exact when the page after the boundary shows two positions or
      no tie straddles the boundary. */
  lemma ForwardPrevious(q: seq<int>, c: Cursor, pageSize: nat, cutoff: nat, desc: bool)
    requires Sorted(q, desc) && pageSize > 0 && !c.reverse && Turned(c)
    requires var s := Start(q, c, desc);
      && s < |q|
      && (c.offset != 0 ==>
            && Straddles(q, s) && q[s] != q[Min(s + pageSize, |q|) - 1]
            && WithinCutoff(TiesAfter(q, s - 1), cutoff))
    ensures var s := Start(q, c, desc);
      var link := PreviousLink(ForwardView(q, Some(c), pageSize, desc), pageSize);
      && link.Some?
      && var l := Clamp(link.value, cutoff);
         && l.reverse && Turned(l) && End(q, l, desc) == s
         && (l.offset != 0 ==> Straddles(q, s))
  {
    hide Base, Before, PreviousLink, ForwardView, Sorted, TiesAfter, TiesBefore;
    var s := Start(q, c, desc);
    var e := Min(s + pageSize, |q|);
    ForwardViewReadable(q, Some(c), pageSize, desc);
    if c.offset != 0 {
      if s + TiesAfter(q, s) >= e - 1 { TiedAfterRow(q, s, e - 1 - s); }
      TiesAfterPrevious(q, s);
    }
    TurnBack(q, c, pageSize, cutoff, desc);
    ForwardPreviousLink(q, c, pageSize, desc);
  }

  /** The rows at the edges of a page that ends at `e`, seen from the other end of the table. */
  lemma MirrorEdges(q: seq<int>, e: nat, pageSize: nat)
    requires 0 < e <= |q| && 0 < pageSize
    ensures Reverse(q)[|q| - e] == q[e - 1]
    ensures Reverse(q)[Min(|q| - e + pageSize, |q|) - 1] == q[Max(0, e - pageSize)]
  {
  }

  lemma MirrorStraddles(q: seq<int>, b: nat)
    requires b <= |q|
    ensures Straddles(Reverse(q), |q| - b) <==> Straddles(q, b)
  {
  }

  /** A forward start, seen from the other end of the table, is a reverse end. */
  lemma MirrorEnd(q: seq<int>, c: Cursor, desc: bool)
    requires Sorted(q, desc)
    ensures End(Reverse(q), MirrorCursor(c), !desc) == |q| - Start(q, c, desc)
  {
    hide Base, Before, Sorted, Start, End, Reverse;
    MirrorSorted(q, desc);
    MirrorStart(Reverse(q), MirrorCursor(c), !desc);
    ReverseTwice(q);
    assert MirrorCursor(MirrorCursor(c)) == c;
  }

  /** Previous from a reverse page, the mirror image of `ForwardNext`. */
  lemma ReversePrevious(q: seq<int>, c: Cursor, pageSize: nat, cutoff: nat, desc: bool)
    requires Sorted(q, desc) && pageSize > 0 && c.reverse
    requires var e := End(q, c, desc);
      var s := e - pageSize;
      0 < s && e <= |q| && (Straddles(q, s) ==> q[s] != q[e - 1] && WithinCutoff(TiesAfter(q, s - 1), cutoff))
    ensures var s := End(q, c, desc) - pageSize;
      var v := ReverseView(q, c, pageSize, desc);
      && Readable(v)
      && var link := PreviousLink(v, pageSize);
         && link.Some?
         && var l := Clamp(link.value, cutoff);
            && l.reverse && Turned(l) && End(q, l, desc) == s
            && (l.offset != 0 ==> Straddles(q, s))
  {
    hide Base, Before, PreviousLink, NextLink, ForwardView, ReverseView, Sorted, TiesAfter, TiesBefore;
    var r, m := Reverse(q), MirrorCursor(c);
    var e := End(q, c, desc);
    var s := e - pageSize;
    var f := ForwardView(r, Some(m), pageSize, !desc);
    MirrorSorted(q, desc);
    MirrorStart(q, c, desc);
    MirrorForwardView(q, c, pageSize, desc);
    ForwardViewReadable(r, Some(m), pageSize, !desc);
    ForwardViewCursor(r, Some(m), pageSize, !desc);
    MirrorStraddles(q, s);
    MirrorTiesAfter(q, s - 1);
    ForwardNext(r, Some(m), pageSize, cutoff, !desc);
    MirrorNextLink(f, pageSize);
    var back := Clamp(NextLink(f, pageSize).value, cutoff);
    MirrorEnd(r, back, !desc);
    ReverseTwice(q);
  }

  lemma StraddleTies(q: seq<int>, e: nat)
    requires Straddles(q, e)
    ensures e < |q| && TiesAfter(Reverse(q), |q| - e - 1) == TiesBefore(q, e)
  {
    MirrorTiesBefore(q, e);
  }

  /** Next from a reverse page, the mirror image of `ForwardPrevious`. */
  lemma ReverseNext(q: seq<int>, c: Cursor, pageSize: nat, cutoff: nat, desc: bool)
    requires Sorted(q, desc) && pageSize > 0 && c.reverse && Turned(c)
    requires var e := End(q, c, desc);
      && 0 < e <= |q|
      && (c.offset != 0 ==>
            && Straddles(q, e) && q[Max(0, e - pageSize)] != q[e - 1]
            && WithinCutoff(TiesBefore(q, e), cutoff))
    ensures var e := End(q, c, desc);
      var v := ReverseView(q, c, pageSize, desc);
      && Readable(v)
      && var link := NextLink(v, pageSize);
         && link.Some?
         && var l := Clamp(link.value, cutoff);
            && !l.reverse && Turned(l) && Start(q, l, desc) == e
            && (l.offset != 0 ==> Straddles(q, e))
  {
    hide Base, Before, PreviousLink, NextLink, ForwardView, ReverseView, Sorted, TiesAfter, TiesBefore, Straddles;
    hide Reverse;
    var r, m := Reverse(q), MirrorCursor(c);
    var e := End(q, c, desc);
    var f := ForwardView(r, Some(m), pageSize, !desc);
    MirrorSorted(q, desc);
    MirrorStart(q, c, desc);
    MirrorForwardView(q, c, pageSize, desc);
    ForwardViewReadable(r, Some(m), pageSize, !desc);
    ForwardViewCursor(r, Some(m), pageSize, !desc);
    MirrorStraddles(q, e);
    MirrorEdges(q, e, pageSize);
    if c.offset != 0 { StraddleTies(q, e); }
    ForwardPrevious(r, m, pageSize, cutoff, !desc);
    MirrorPreviousLink(f, pageSize);
    var back := Clamp(PreviousLink(f, pageSize).value, cutoff);
    MirrorStart(r, back, !desc);
    ReverseTwice(q);
  }

  // ----- the page counter -----

  /** Wherever a tie straddles a page boundary, the pages on both sides show two positions and the
      tied rows on either side fit the cutoff.  Distinct positions are the special case. */
  predicate Fits(ks: seq<int>, pageSize: nat, cutoff: nat, k: nat)
    requires 0 < k && 0 < pageSize
  {
    var a, b := PageStart(k - 1, pageSize), PageStart(k, pageSize);
    Straddles(ks, b) ==>
      && ks[a] != ks[b - 1] && ks[b] != ks[Min(b + pageSize, |ks|) - 1]
      && WithinCutoff(TiesBefore(ks, b), cutoff) && WithinCutoff(TiesAfter(ks, b - 1), cutoff)
  }

  ghost predicate Navigable(ks: seq<int>, pageSize: nat, cutoff: nat)
    requires 0 < pageSize
  {
    forall k: nat :: 0 < k ==> Fits(ks, pageSize, cutoff, k)
  }

  lemma DistinctIsNavigable(ks: seq<int>, pageSize: nat, cutoff: nat)
    requires 0 < pageSize && AllDistinct(ks)
    ensures Navigable(ks, pageSize, cutoff)
  {
  }

  /** The attributes are those of page `k`, reached in either direction. */
  ghost predicate Showing(ks: seq<int>, v: View, pageSize: nat, desc: bool, k: nat) {
    var c := Effective(v.cursor);
    && v == ViewOf(ks, v.cursor, pageSize, desc)
    && if c.reverse then
         && Turned(c) && End(ks, c, desc) == PageStart(k + 1, pageSize) < |ks|
         && (c.offset != 0 ==> Straddles(ks, PageStart(k + 1, pageSize)))
       else
         && Start(ks, c, desc) == PageStart(k, pageSize)
         && (Turned(c) <==> k > 0) && (k > 0 ==> PageStart(k, pageSize) < |ks|)
         && (c.offset != 0 ==> Straddles(ks, PageStart(k, pageSize)))
  }

  datatype Move = Forth | Back

  function LinkOf(v: View, move: Move, pageSize: nat): Option<Cursor>
    requires Readable(v)
  {
    if move == Forth then NextLink(v, pageSize) else PreviousLink(v, pageSize)
  }

  /** A page counter: the page a move leads to, if there is one. */
  function Turn(n: nat, pageSize: nat, k: nat, move: Move): Option<nat> {
    match move
    case Forth => if PageStart(k + 1, pageSize) < n then Some(k + 1) else None
    case Back => if k > 0 then Some(k - 1) else None
  }

  /** The link exists exactly if the counter can move, and leads to the page the counter names. */
  ghost predicate Leads(ks: seq<int>, link: Option<Cursor>, to: Option<nat>, pageSize: nat, cutoff: nat, desc: bool) {
    && (link.Some? <==> to.Some?)
    && (to.Some? ==> Showing(ks, ViewOf(ks, Some(Clamp(link.value, cutoff)), pageSize, desc), pageSize, desc, to.value))
  }

  lemma PageStartPositive(k: nat, pageSize: nat)
    requires 0 < pageSize
    ensures PageStart(k, pageSize) > 0 <==> k > 0
  {
  }

  lemma ForwardForth(ks: seq<int>, v: View, pageSize: nat, cutoff: nat, desc: bool, k: nat)
    requires 0 < pageSize && Sorted(ks, desc) && Fits(ks, pageSize, cutoff, k + 1)
    requires Readable(v) && Showing(ks, v, pageSize, desc, k) && !Effective(v.cursor).reverse
    ensures Leads(ks, NextLink(v, pageSize), Turn(|ks|, pageSize, k, Forth), pageSize, cutoff, desc)
  {
    hide Base, Before, NextLink, PreviousLink, TiesAfter, TiesBefore, Sorted;
    LinkExists(v, pageSize);
    if PageStart(k + 1, pageSize) < |ks| { ForwardNext(ks, v.cursor, pageSize, cutoff, desc); }
  }

  lemma ForwardBack(ks: seq<int>, v: View, pageSize: nat, cutoff: nat, desc: bool, k: nat)
    requires 0 < pageSize && Sorted(ks, desc) && (k > 0 ==> Fits(ks, pageSize, cutoff, k))
    requires Readable(v) && Showing(ks, v, pageSize, desc, k) && !Effective(v.cursor).reverse
    ensures Leads(ks, PreviousLink(v, pageSize), Turn(|ks|, pageSize, k, Back), pageSize, cutoff, desc)
  {
    hide Base, Before, NextLink, PreviousLink, TiesAfter, TiesBefore, Sorted;
    LinkExists(v, pageSize);
    if k > 0 { ForwardPrevious(ks, v.cursor.value, pageSize, cutoff, desc); }
  }

  lemma ReverseForth(ks: seq<int>, v: View, pageSize: nat, cutoff: nat, desc: bool, k: nat)
    requires 0 < pageSize && Sorted(ks, desc) && Fits(ks, pageSize, cutoff, k + 1)
    requires Readable(v) && Showing(ks, v, pageSize, desc, k) && Effective(v.cursor).reverse
    ensures Leads(ks, NextLink(v, pageSize), Turn(|ks|, pageSize, k, Forth), pageSize, cutoff, desc)
  {
    hide Base, Before, NextLink, PreviousLink, TiesAfter, TiesBefore, Sorted;
    ReverseNext(ks, v.cursor.value, pageSize, cutoff, desc);
  }

  lemma ReverseBack(ks: seq<int>, v: View, pageSize: nat, cutoff: nat, desc: bool, k: nat)
    requires 0 < pageSize && Sorted(ks, desc) && (k > 0 ==> Fits(ks, pageSize, cutoff, k))
    requires Readable(v) && Showing(ks, v, pageSize, desc, k) && Effective(v.cursor).reverse
    ensures Leads(ks, PreviousLink(v, pageSize), Turn(|ks|, pageSize, k, Back), pageSize, cutoff, desc)
  {
    hide Base, Before, NextLink, PreviousLink, TiesAfter, TiesBefore, Sorted;
    PageStartPositive(k, pageSize);
    LinkExists(v, pageSize);
    if k > 0 { ReversePrevious(ks, v.cursor.value, pageSize, cutoff, desc); }
  }

  /** One move, from a page reached in either direction, does what the page counter does. */
  lemma AnyMove(ks: seq<int>, v: View, pageSize: nat, cutoff: nat, desc: bool, k: nat, move: Move)
    requires 0 < pageSize && Sorted(ks, desc) && Navigable(ks, pageSize, cutoff)
    requires Readable(v) && Showing(ks, v, pageSize, desc, k)
    ensures Leads(ks, LinkOf(v, move, pageSize), Turn(|ks|, pageSize, k, move), pageSize, cutoff, desc)
  {
    hide Fits, Showing, Leads, Turn, NextLink, PreviousLink, Sorted;
    assert Fits(ks, pageSize, cutoff, k + 1) && (k > 0 ==> Fits(ks, pageSize, cutoff, k));
    match (Effective(v.cursor).reverse, move) {
      case (false, Forth) => ForwardForth(ks, v, pageSize, cutoff, desc, k);
      case (false, Back) => ForwardBack(ks, v, pageSize, cutoff, desc, k);
      case (true, Forth) => ReverseForth(ks, v, pageSize, cutoff, desc, k);
      case (true, Back) => ReverseBack(ks, v, pageSize, cutoff, desc, k);
    }
  }

  // ----- walks over the table -----

  /** The response after following the links of a walk from the first page, if each exists. */
  function Walk(rows: seq<Row>, pageSize: nat, cutoff: nat, ordering: seq<string>,
                moves: seq<Move>): (r: Option<Response>)
    requires ordering != []
    ensures r.Some? ==> Readable(r.value.view)
  {
    if moves == [] then Some(Paginate(rows, None, pageSize, ordering))
    else
      var before := Walk(rows, pageSize, cutoff, ordering, moves[..|moves| - 1]);
      if before.None? then None
      else Follow(rows, LinkOf(before.value.view, moves[|moves| - 1], pageSize), pageSize, cutoff, ordering)
  }

  function Counter(n: nat, pageSize: nat, moves: seq<Move>): Option<nat> {
    if moves == [] then Some(0)
    else
      var before := Counter(n, pageSize, moves[..|moves| - 1]);
      if before.None? then None else Turn(n, pageSize, before.value, moves[|moves| - 1])
  }

  lemma ShowingWindow(ks: seq<int>, cursor: Option<Cursor>, pageSize: nat, desc: bool, k: nat)
    requires Showing(ks, ViewOf(ks, cursor, pageSize, desc), pageSize, desc, k)
    requires ViewOf(ks, cursor, pageSize, desc).cursor == cursor
    ensures WindowOf(ks, Effective(cursor), pageSize, desc)
         == (Min(PageStart(k, pageSize), |ks|), Min(PageStart(k, pageSize) + pageSize, |ks|))
  {
    hide Base, Before;
  }

  ghost predicate OnPage(rows: seq<Row>, r: Response, pageSize: nat, ordering: seq<string>, k: nat)
    requires ordering != []
  {
    var q := OrderBy(rows, ordering);
    && r.rows == Slice(q, PageStart(k, pageSize), PageStart(k, pageSize) + pageSize)
    && Showing(Positions(q, ordering), r.view, pageSize, Descends(ordering[0]), k)
  }

  lemma ArriveOnPage(rows: seq<Row>, cursor: Option<Cursor>, pageSize: nat, ordering: seq<string>, k: nat)
    requires WellOrdered(rows, ordering)
    requires var ks, desc := Positions(OrderBy(rows, ordering), ordering), Descends(ordering[0]);
      Showing(ks, ViewOf(ks, cursor, pageSize, desc), pageSize, desc, k)
    ensures OnPage(rows, Paginate(rows, cursor, pageSize, ordering), pageSize, ordering, k)
  {
    hide OrderBy, Paginate, Positions, Showing;
    var q := OrderBy(rows, ordering);
    var ks, desc := Positions(q, ordering), Descends(ordering[0]);
    PaginateShows(rows, cursor, pageSize, ordering);
    assert ViewOf(ks, cursor, pageSize, desc).cursor == cursor;
    ShowingWindow(ks, cursor, pageSize, desc, k);
  }

  lemma OnPageShowing(rows: seq<Row>, r: Response, pageSize: nat, ordering: seq<string>, k: nat)
    requires ordering != [] && OnPage(rows, r, pageSize, ordering, k)
    ensures Showing(Positions(OrderBy(rows, ordering), ordering), r.view, pageSize, Descends(ordering[0]), k)
  {
  }

  lemma MoveOnPage(rows: seq<Row>, r: Response, pageSize: nat, cutoff: nat, ordering: seq<string>, k: nat, move: Move)
    requires WellOrdered(rows, ordering) && 0 < pageSize
    requires Navigable(Positions(OrderBy(rows, ordering), ordering), pageSize, cutoff)
    requires OnPage(rows, r, pageSize, ordering, k) && Readable(r.view)
    ensures var next := Follow(rows, LinkOf(r.view, move, pageSize), pageSize, cutoff, ordering);
      var to := Turn(|OrderBy(rows, ordering)|, pageSize, k, move);
      && (next.Some? <==> to.Some?)
      && (next.Some? ==> OnPage(rows, next.value, pageSize, ordering, to.value))
  {
    hide OrderBy, Paginate, Positions, Showing, NextLink, PreviousLink, Sorted, Navigable, Turn, OnPage;
    var q := OrderBy(rows, ordering);
    var ks, desc := Positions(q, ordering), Descends(ordering[0]);
    OrderByOrdered(rows, ordering);
    OrderedPositions(q, ordering);
    OnPageShowing(rows, r, pageSize, ordering, k);
    AnyMove(ks, r.view, pageSize, cutoff, desc, k, move);
    var link, to := LinkOf(r.view, move, pageSize), Turn(|ks|, pageSize, k, move);
    if to.Some? {
      ArriveOnPage(rows, Some(Clamp(link.value, cutoff)), pageSize, ordering, to.value);
    }
  }

  lemma StartOnPage(rows: seq<Row>, pageSize: nat, ordering: seq<string>)
    requires WellOrdered(rows, ordering) && 0 < pageSize
    ensures OnPage(rows, Paginate(rows, None, pageSize, ordering), pageSize, ordering, 0)
  {
    hide OrderBy, Paginate, Positions, OnPage;
    ArriveOnPage(rows, None, pageSize, ordering, 0);
  }

  lemma {:induction false} WalkOnPage(rows: seq<Row>, pageSize: nat, cutoff: nat, ordering: seq<string>,
                                      moves: seq<Move>)
    requires WellOrdered(rows, ordering) && 0 < pageSize
    requires Navigable(Positions(OrderBy(rows, ordering), ordering), pageSize, cutoff)
    ensures var r := Walk(rows, pageSize, cutoff, ordering, moves);
      var k := Counter(|OrderBy(rows, ordering)|, pageSize, moves);
      && (r.Some? <==> k.Some?)
      && (r.Some? ==> OnPage(rows, r.value, pageSize, ordering, k.value))
  {
    hide OrderBy, Paginate, Positions, OnPage, NextLink, PreviousLink, Navigable, Turn;
    if moves == [] {
      StartOnPage(rows, pageSize, ordering);
    } else {
      var init := moves[..|moves| - 1];
      WalkOnPage(rows, pageSize, cutoff, ordering, init);
      var before := Walk(rows, pageSize, cutoff, ordering, init);
      if before.Some? {
        MoveOnPage(rows, before.value, pageSize, cutoff, ordering,
                   Counter(|OrderBy(rows, ordering)|, pageSize, init).value, moves[|moves| - 1]);
      }
    }
  }

  lemma OnPageFacts(rows: seq<Row>, r: Response, pageSize: nat, ordering: seq<string>, k: nat)
    requires ordering != [] && 0 < pageSize && OnPage(rows, r, pageSize, ordering, k)
    ensures r.rows == Slice(OrderBy(rows, ordering), PageStart(k, pageSize), PageStart(k, pageSize) + pageSize)
    ensures r.view.hasNext <==> PageStart(k + 1, pageSize) < |OrderBy(rows, ordering)|
    ensures r.view.hasPrevious <==> k > 0
  {
    hide OrderBy, Base, Before;
    PageStartPositive(k, pageSize);
  }

  /** Any interleaving of next and previous links, from the first page, refines the page counter:
      it exists exactly when the counter stays in range, and shows exactly the counter's slice,
      with both flags exact. */
  lemma WalksRefineCounter(rows: seq<Row>, pageSize: nat, cutoff: nat, ordering: seq<string>, moves: seq<Move>)
    requires WellOrdered(rows, ordering) && 0 < pageSize
    requires Navigable(Positions(OrderBy(rows, ordering), ordering), pageSize, cutoff)
    ensures var q := OrderBy(rows, ordering);
      var r, k := Walk(rows, pageSize, cutoff, ordering, moves), Counter(|q|, pageSize, moves);
      && (r.Some? <==> k.Some?)
      && (r.Some? ==>
            var s := PageStart(k.value, pageSize);
            && s == k.value * pageSize
            && r.value.rows == Slice(q, s, s + pageSize)
            && (r.value.view.hasNext <==> s + pageSize < |q|)
            && (r.value.view.hasPrevious <==> k.value > 0))
  {
    hide OrderBy, Positions, OnPage, Walk, Counter, Navigable;
    WalkOnPage(rows, pageSize, cutoff, ordering, moves);
    var r, k := Walk(rows, pageSize, cutoff, ordering, moves), Counter(|OrderBy(rows, ordering)|, pageSize, moves);
    if r.Some? {
      OnPageFacts(rows, r.value, pageSize, ordering, k.value);
      PageStartIsProduct(k.value, pageSize);
    }
  }

  /** Distinct positions are always navigable, whatever the cutoff. */
  lemma DistinctRowsAreNavigable(rows: seq<Row>, pageSize: nat, cutoff: nat, ordering: seq<string>)
    requires WellOrdered(rows, ordering) && 0 < pageSize
    requires DistinctPositions(rows, ordering)
    ensures Navigable(Positions(OrderBy(rows, ordering), ordering), pageSize, cutoff)
  {
    hide OrderBy, Total;
    DistinctSorted(rows, ordering);
    DistinctIsNavigable(Positions(OrderBy(rows, ordering), ordering), pageSize, cutoff);
  }
}
