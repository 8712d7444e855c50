/** Following `next` links over an unchanging table, ties included. */
module CursorTraversal {
  import opened Prelude
  import opened Ordering
  import opened CursorLinks
  import opened CursorWindows
  import opened CursorPages
  import LimitOffset

  // ----- page boundaries and ties -----

  /** Where the `k`-th page of a table starts: `k * pageSize`. */
  function PageStart(k: nat, pageSize: nat): nat {
    if k == 0 then 0 else PageStart(k - 1, pageSize) + pageSize
  }

  lemma {:induction false} PageStartIsProduct(k: nat, pageSize: nat)
    ensures PageStart(k, pageSize) == k * pageSize
  {
    if k > 0 { PageStartIsProduct(k - 1, pageSize); }
  }

  lemma {:induction false} PageStartMonotone(j: nat, k: nat, pageSize: nat)
    ensures j <= k ==> PageStart(j, pageSize) <= PageStart(k, pageSize)
  {
    if j < k { PageStartMonotone(j, k - 1, pageSize); }
  }

  /** The ties in front of the `k`-th page fit the cutoff. */
  predicate TiesFit(ks: seq<int>, pageSize: nat, cutoff: nat, k: nat) {
    PageStart(k, pageSize) < |ks| ==> WithinCutoff(TiesBefore(ks, PageStart(k, pageSize)), cutoff)
  }

  /** At no page boundary do more rows tie than the cutoff allows to skip. */
  ghost predicate ClampFree(ks: seq<int>, pageSize: nat, cutoff: nat) {
    forall k: nat :: 0 < k ==> TiesFit(ks, pageSize, cutoff, k)
  }

  /** No `length + 1` consecutive rows share a position. */
  ghost predicate TieRunsAtMost(ks: seq<int>, length: nat) {
    forall i, j :: 0 <= i && i + length == j < |ks| ==> ks[i] != ks[j]
  }

  lemma {:induction false} TiedRow(q: seq<int>, b: nat, t: nat)
    requires b < |q| && t <= TiesBefore(q, b)
    ensures q[b - t] == q[b]
  {
    if t > 0 { TiedRow(q, b - 1, t - 1); }
  }

  /** In a sorted table, all rows between two equal positions tie. */
  lemma {:induction false} TiedRun(q: seq<int>, b: nat, e: nat, desc: bool)
    requires Sorted(q, desc) && b <= e < |q| && q[b] == q[e]
    ensures TiesBefore(q, e) >= e - b
  {
    if b < e {
      SortedAt(q, b, e - 1, desc);
      SortedAt(q, e - 1, e, desc);
      TiedRun(q, b, e - 1, desc);
    }
  }

  /** Without a cutoff, or with tie runs of at most `cutoff + 1` rows, the clamp never fires. */
  lemma ShortTiesAreClampFree(ks: seq<int>, pageSize: nat, cutoff: nat)
    requires cutoff == 0 || TieRunsAtMost(ks, cutoff + 1)
    ensures ClampFree(ks, pageSize, cutoff)
  {
    forall k: nat | 0 < k
      ensures TiesFit(ks, pageSize, cutoff, k)
    {
      var b := PageStart(k, pageSize);
      if cutoff > 0 && b < |ks| && TiesBefore(ks, b) > cutoff { TiedRow(ks, b, cutoff + 1); }
    }
  }

  // ----- one link -----

  /** Where the page after the one at row `s` starts, once its link has been decoded: the clamp moves
      it back into the ties in front of the boundary. */
  function NextStart(ks: seq<int>, pageSize: nat, cutoff: nat, s: nat): (next: Option<nat>)
    ensures next.Some? <==> s + pageSize < |ks|
    ensures next.Some? ==> next.value <= s + pageSize
  {
    var e := s + pageSize;
    if e >= |ks| then None
    else
      var ties := TiesBefore(ks, e);
      Some(if WithinCutoff(ties, cutoff) then e else e - ties + cutoff)
  }

  /** The view shows the rows from row `s` on, and its offset counts the ties before that row. */
  ghost predicate AtRow(ks: seq<int>, v: View, pageSize: nat, desc: bool, s: nat) {
    var c := Effective(v.cursor);
    && !c.reverse
    && v == ForwardView(ks, v.cursor, pageSize, desc)
    && Start(ks, c, desc) == s
    && (s < |ks| ==> c.offset == TiesBefore(ks, s))
  }

  /** The clamp moves the start of a forward cursor back by what it cuts off the offset. */
  lemma ClampedStart(ks: seq<int>, c: Cursor, cutoff: nat, desc: bool)
    ensures Start(ks, Clamp(c, cutoff), desc)
         == Start(ks, c, desc) - (if WithinCutoff(c.offset, cutoff) then 0 else c.offset - cutoff)
  {
  }

  /** A link of the chain leads where `NextStart` says, and its clamped offset counts the ties there. */
  lemma StepFromRow(ks: seq<int>, v: View, pageSize: nat, cutoff: nat, desc: bool, s: nat)
    requires pageSize > 0 && Sorted(ks, desc) && AtRow(ks, v, pageSize, desc, s)
    requires s + pageSize < |ks|
    ensures Readable(v)
    ensures var link, next := NextLink(v, pageSize), NextStart(ks, pageSize, cutoff, s).value;
      && link.Some?
      && var c := Clamp(link.value, cutoff);
         !c.reverse && Start(ks, c, desc) == next && c.offset == TiesBefore(ks, next)
  {
    hide Base, TiesBefore, NextLink, ForwardView, Sorted;
    ForwardViewReadable(ks, v.cursor, pageSize, desc);
    AdvanceForward(ks, v.cursor, pageSize, desc);
    ClampedStart(ks, NextLink(v, pageSize).value, cutoff, desc);
    var e := s + pageSize;
    if !WithinCutoff(TiesBefore(ks, e), cutoff) { TiesShift(ks, e, TiesBefore(ks, e) - cutoff); }
  }

  // ----- chains of requests -----

  /** The request a link stands for once its cursor has been decoded again. */
  function Follow(rows: seq<Row>, link: Option<Cursor>, pageSize: nat, cutoff: nat,
                  ordering: seq<string>): Option<Response>
    requires ordering != []
  {
    if link.None? then None else Some(Paginate(rows, Some(Clamp(link.value, cutoff)), pageSize, ordering))
  }

  /** The response a chain of `next` links gives after `k` steps, if the chain is that long. */
  function Visit(rows: seq<Row>, pageSize: nat, cutoff: nat, ordering: seq<string>, k: nat): (r: Option<Response>)
    requires ordering != []
    ensures r.Some? ==> Readable(r.value.view)
  {
    if k == 0 then Some(Paginate(rows, None, pageSize, ordering))
    else
      var before := Visit(rows, pageSize, cutoff, ordering, k - 1);
      if before.None? then None
      else Follow(rows, NextLink(before.value.view, pageSize), pageSize, cutoff, ordering)
  }

  /** The first row of the `k`-th page of the chain, if the chain is that long. */
  function ChainStart(ks: seq<int>, pageSize: nat, cutoff: nat, k: nat): Option<nat> {
    if k == 0 then Some(0)
    else
      var before := ChainStart(ks, pageSize, cutoff, k - 1);
      if before.None? then None else NextStart(ks, pageSize, cutoff, before.value)
  }

  /** The response shows the rows of the ordered table from row `s` on. */
  ghost predicate ShowsFrom(rows: seq<Row>, r: Response, pageSize: nat, ordering: seq<string>, s: nat)
    requires ordering != []
  {
    var q := OrderBy(rows, ordering);
    && r.rows == Slice(q, s, s + pageSize)
    && AtRow(Positions(q, ordering), r.view, pageSize, Descends(ordering[0]), s)
  }

  lemma FirstPage(rows: seq<Row>, pageSize: nat, ordering: seq<string>)
    requires WellOrdered(rows, ordering)
    ensures ShowsFrom(rows, Paginate(rows, None, pageSize, ordering), pageSize, ordering, 0)
  {
    hide OrderBy, Paginate, Positions, Base, Slice;
    ForwardResponse(rows, None, pageSize, ordering);
  }

  lemma NextPage(rows: seq<Row>, r: Response, pageSize: nat, cutoff: nat, ordering: seq<string>, s: nat)
    requires WellOrdered(rows, ordering) && pageSize > 0 && ShowsFrom(rows, r, pageSize, ordering, s)
    ensures Readable(r.view)
    ensures var response := Follow(rows, NextLink(r.view, pageSize), pageSize, cutoff, ordering);
      var next := NextStart(Positions(OrderBy(rows, ordering), ordering), pageSize, cutoff, s);
      && (response.Some? <==> next.Some?)
      && (response.Some? ==> ShowsFrom(rows, response.value, pageSize, ordering, next.value))
  {
    hide OrderBy, Paginate, Positions, Base, Slice, TiesBefore, Sorted;
    var q := OrderBy(rows, ordering);
    var ks, desc := Positions(q, ordering), Descends(ordering[0]);
    if s + pageSize < |ks| {
      OrderByOrdered(rows, ordering);
      OrderedPositions(q, ordering);
      StepFromRow(ks, r.view, pageSize, cutoff, desc, s);
      ForwardResponse(rows, Some(Clamp(NextLink(r.view, pageSize).value, cutoff)), pageSize, ordering);
    }
  }

  /** The chain of responses is the chain of starts. */
  lemma {:induction false} VisitStarts(rows: seq<Row>, pageSize: nat, cutoff: nat, ordering: seq<string>, k: nat)
    requires WellOrdered(rows, ordering) && pageSize > 0
    ensures var r := Visit(rows, pageSize, cutoff, ordering, k);
      var s := ChainStart(Positions(OrderBy(rows, ordering), ordering), pageSize, cutoff, k);
      && (r.Some? <==> s.Some?)
      && (r.Some? ==> ShowsFrom(rows, r.value, pageSize, ordering, s.value))
  {
    hide OrderBy, Paginate, Positions, ShowsFrom, NextLink, NextStart;
    if k == 0 {
      FirstPage(rows, pageSize, ordering);
    } else {
      VisitStarts(rows, pageSize, cutoff, ordering, k - 1);
      var before := Visit(rows, pageSize, cutoff, ordering, k - 1);
      if before.Some? {
        NextPage(rows, before.value, pageSize, cutoff, ordering,
                 ChainStart(Positions(OrderBy(rows, ordering), ordering), pageSize, cutoff, k - 1).value);
      }
    }
  }

  /** Every response of the chain is the page of its own cursor. */
  lemma VisitIsPage(rows: seq<Row>, pageSize: nat, cutoff: nat, ordering: seq<string>, k: nat)
    requires ordering != []
    ensures var r := Visit(rows, pageSize, cutoff, ordering, k);
      r.Some? ==> r.value == Paginate(rows, r.value.view.cursor, pageSize, ordering)
  {
    hide NextLink, OrderBy;
  }

  /** What `VisitStarts` says of the rows alone. */
  lemma VisitRows(rows: seq<Row>, pageSize: nat, cutoff: nat, ordering: seq<string>, k: nat)
    requires WellOrdered(rows, ordering) && pageSize > 0
    ensures var r, q := Visit(rows, pageSize, cutoff, ordering, k), OrderBy(rows, ordering);
      var s := ChainStart(Positions(q, ordering), pageSize, cutoff, k);
      && (r.Some? <==> s.Some?)
      && (r.Some? ==> r.value.rows == Slice(q, s.value, s.value + pageSize))
  {
    hide OrderBy, Positions, Visit, ChainStart, AtRow, Slice;
    VisitStarts(rows, pageSize, cutoff, ordering, k);
  }

  // ----- when every page is the next window of the table -----

  /** As long as the clamp has not fired, the chain consists of consecutive windows, and then ends. */
  lemma {:induction false} ExactStarts(ks: seq<int>, pageSize: nat, cutoff: nat, k: nat)
    requires pageSize > 0 && forall j: nat :: 0 < j <= k ==> TiesFit(ks, pageSize, cutoff, j)
    ensures ChainStart(ks, pageSize, cutoff, k)
         == if k == 0 || PageStart(k, pageSize) < |ks| then Some(PageStart(k, pageSize)) else None
  {
    hide TiesBefore;
    if k > 0 {
      ExactStarts(ks, pageSize, cutoff, k - 1);
      assert TiesFit(ks, pageSize, cutoff, k);
    }
  }

  /** The first boundary at which the clamp fires. */
  lemma {:induction false} FirstClamp(ks: seq<int>, pageSize: nat, cutoff: nat, k: nat) returns (m: nat)
    requires 0 < k && !TiesFit(ks, pageSize, cutoff, k)
    ensures 0 < m <= k && !TiesFit(ks, pageSize, cutoff, m)
    ensures forall j: nat :: 0 < j < m ==> TiesFit(ks, pageSize, cutoff, j)
  {
    hide TiesFit;
    if j: nat :| 0 < j < k && !TiesFit(ks, pageSize, cutoff, j) {
      m := FirstClamp(ks, pageSize, cutoff, j);
    } else {
      m := k;
    }
  }

  lemma ClampedEarlier(ks: seq<int>, pageSize: nat, cutoff: nat, m: nat)
    requires pageSize > 0 && 0 < m && !TiesFit(ks, pageSize, cutoff, m)
    requires forall j: nat :: 0 < j < m ==> TiesFit(ks, pageSize, cutoff, j)
    ensures PageStart(m, pageSize) < |ks|
    ensures var s := ChainStart(ks, pageSize, cutoff, m); s.Some? && s.value < PageStart(m, pageSize)
  {
    ExactStarts(ks, pageSize, cutoff, m - 1);
  }

  /** The first time the clamp fires, the page begins with a row the client has already seen. */
  lemma ClampRepeatsRow(rows: seq<Row>, pageSize: nat, cutoff: nat, ordering: seq<string>, m: nat)
    requires WellOrdered(rows, ordering) && pageSize > 0 && 0 < m
    requires var ks := Positions(OrderBy(rows, ordering), ordering);
      !TiesFit(ks, pageSize, cutoff, m) && forall j: nat :: 0 < j < m ==> TiesFit(ks, pageSize, cutoff, j)
    ensures PageStart(m, pageSize) < |OrderBy(rows, ordering)|
    ensures var r := Visit(rows, pageSize, cutoff, ordering, m);
      r.Some? && r.value.rows != [] && r.value.rows[0] in OrderBy(rows, ordering)[..PageStart(m, pageSize)]
  {
    hide OrderBy, Positions, Visit, ChainStart, TiesFit, Total;
    var q := OrderBy(rows, ordering);
    ClampedEarlier(Positions(q, ordering), pageSize, cutoff, m);
    VisitRows(rows, pageSize, cutoff, ordering, m);
    var s := ChainStart(Positions(q, ordering), pageSize, cutoff, m).value;
    assert Slice(q, s, s + pageSize)[0] == q[s] == q[..PageStart(m, pageSize)][s];
  }

  /** The `k`-th step of the chain shows the `k`-th window, and there is no step beyond the rows. */
  ghost predicate VisitsWindow(rows: seq<Row>, pageSize: nat, cutoff: nat, ordering: seq<string>, k: nat)
    requires ordering != []
  {
    var q, r := OrderBy(rows, ordering), Visit(rows, pageSize, cutoff, ordering, k);
    if k == 0 || PageStart(k, pageSize) < |q|
    then r.Some? && r.value.rows == Slice(q, PageStart(k, pageSize), PageStart(k, pageSize) + pageSize)
    else r.None?
  }

  ghost predicate TraversesAll(rows: seq<Row>, pageSize: nat, cutoff: nat, ordering: seq<string>)
    requires ordering != []
  {
    forall k: nat :: VisitsWindow(rows, pageSize, cutoff, ordering, k)
  }

  lemma ClampFreeTraverses(rows: seq<Row>, pageSize: nat, cutoff: nat, ordering: seq<string>, k: nat)
    requires WellOrdered(rows, ordering) && pageSize > 0
    requires ClampFree(Positions(OrderBy(rows, ordering), ordering), pageSize, cutoff)
    ensures VisitsWindow(rows, pageSize, cutoff, ordering, k)
  {
    hide OrderBy, Positions, Visit, ChainStart, TiesFit, PageStart, Slice, Total;
    ExactStarts(Positions(OrderBy(rows, ordering), ordering), pageSize, cutoff, k);
    VisitRows(rows, pageSize, cutoff, ordering, k);
  }

  /** No row of a well-ordered table occurs twice. */
  lemma RowsDistinct(rows: seq<Row>, ordering: seq<string>)
    requires WellOrdered(rows, ordering)
    ensures var q := OrderBy(rows, ordering); forall i, j :: 0 <= i < j < |q| ==> q[i] != q[j]
  {
    hide OrderBy, Total;
    OrderByOrdered(rows, ordering);
    OrderedPositions(OrderBy(rows, ordering), ordering);
  }

  lemma ClampBreaksTraversal(rows: seq<Row>, pageSize: nat, cutoff: nat, ordering: seq<string>, k: nat)
    requires WellOrdered(rows, ordering) && pageSize > 0
    requires 0 < k && !TiesFit(Positions(OrderBy(rows, ordering), ordering), pageSize, cutoff, k)
    ensures exists m: nat :: !VisitsWindow(rows, pageSize, cutoff, ordering, m)
  {
    hide OrderBy, TiesFit, Visit, Positions, PageStart, Total;
    var m := FirstClamp(Positions(OrderBy(rows, ordering), ordering), pageSize, cutoff, k);
    ClampRepeatsRow(rows, pageSize, cutoff, ordering, m);
    var q, b := OrderBy(rows, ordering), PageStart(m, pageSize);
    RowsDistinct(rows, ordering);
    assert Slice(q, b, b + pageSize)[0] == q[b];
    assert q[b] !in q[..b];
    assert !VisitsWindow(rows, pageSize, cutoff, ordering, m);
  }

  /** Ties or not, the traversal is exact if and only if no page boundary has more ties in front of
      it than the cutoff. */
  lemma TraversalIffClampFree(rows: seq<Row>, pageSize: nat, cutoff: nat, ordering: seq<string>)
    requires WellOrdered(rows, ordering) && pageSize > 0
    ensures TraversesAll(rows, pageSize, cutoff, ordering)
       <==> ClampFree(Positions(OrderBy(rows, ordering), ordering), pageSize, cutoff)
  {
    hide OrderBy, TiesFit, Positions, VisitsWindow, PageStart, Total;
    var ks := Positions(OrderBy(rows, ordering), ordering);
    if ClampFree(ks, pageSize, cutoff) {
      forall k: nat
        ensures VisitsWindow(rows, pageSize, cutoff, ordering, k)
      {
        ClampFreeTraverses(rows, pageSize, cutoff, ordering, k);
      }
    } else {
      var k: nat :| 0 < k && !TiesFit(ks, pageSize, cutoff, k);
      ClampBreaksTraversal(rows, pageSize, cutoff, ordering, k);
    }
  }

  /** All the rows shown by the first `k` responses of the chain, in the order shown. */
  function Shown(rows: seq<Row>, pageSize: nat, cutoff: nat, ordering: seq<string>, k: nat): seq<Row>
    requires ordering != []
  {
    if k == 0 then []
    else
      var r := Visit(rows, pageSize, cutoff, ordering, k - 1);
      Shown(rows, pageSize, cutoff, ordering, k - 1) + (if r.Some? then r.value.rows else [])
  }

  lemma {:induction false} ShownIsPrefix(rows: seq<Row>, pageSize: nat, cutoff: nat, ordering: seq<string>, k: nat)
    requires ordering != [] && TraversesAll(rows, pageSize, cutoff, ordering)
    ensures Shown(rows, pageSize, cutoff, ordering, k) == Slice(OrderBy(rows, ordering), 0, PageStart(k, pageSize))
  {
    hide OrderBy, Visit;
    if k > 0 {
      ShownIsPrefix(rows, pageSize, cutoff, ordering, k - 1);
      assert VisitsWindow(rows, pageSize, cutoff, ordering, k - 1);
    }
  }

  /** The number of requests a full traversal takes: `max(1, ceil(n / pageSize))`. */
  function Requests(n: nat, pageSize: nat): nat
    requires pageSize > 0
  {
    if n <= pageSize then 1 else 1 + Requests(n - pageSize, pageSize)
  }

  lemma {:induction false} RequestsCover(n: nat, pageSize: nat)
    requires pageSize > 0
    ensures var m := Requests(n, pageSize);
      && PageStart(m, pageSize) >= n
      && PageStart(m - 1, pageSize) == PageStart(m, pageSize) - pageSize
      && (m > 1 ==> PageStart(m - 1, pageSize) < n)
  {
    if n > pageSize { RequestsCover(n - pageSize, pageSize); }
  }

  lemma OnlyCeiling(m: nat, c: int, n: nat, pageSize: nat)
    requires 1 <= m && n <= m * pageSize && (m > 1 ==> (m - 1) * pageSize < n)
    requires (c - 1) * pageSize < n <= c * pageSize
    ensures m == Max(1, c)
  {
    LimitOffset.Monotone(m, c - 1, pageSize);
    LimitOffset.Monotone(c, m - 1, pageSize);
  }

  lemma RequestsIsCeiling(n: nat, pageSize: nat)
    requires pageSize > 0
    ensures Requests(n, pageSize) == Max(1, LimitOffset.DivideWithCeil(n, pageSize))
  {
    var m := Requests(n, pageSize);
    assert m >= 1;
    hide Requests, LimitOffset.DivideWithCeil, PageStart;
    RequestsCover(n, pageSize);
    PageStartIsProduct(m, pageSize);
    PageStartIsProduct(m - 1, pageSize);
    LimitOffset.CeilBounds(n, pageSize);
    OnlyCeiling(m, LimitOffset.DivideWithCeil(n, pageSize), n, pageSize);
  }

  /** With a clamp that never fires, following next links returns every row exactly once, in order,
      and takes `max(1, ceil(n / pageSize))` requests. */
  lemma FullTraversal(rows: seq<Row>, pageSize: nat, cutoff: nat, ordering: seq<string>)
    requires WellOrdered(rows, ordering) && pageSize > 0
    requires ClampFree(Positions(OrderBy(rows, ordering), ordering), pageSize, cutoff)
    ensures var m := Max(1, LimitOffset.DivideWithCeil(|rows|, pageSize));
      && Shown(rows, pageSize, cutoff, ordering, m) == OrderBy(rows, ordering)
      && (forall k: nat :: Visit(rows, pageSize, cutoff, ordering, k).Some? <==> k < m)
  {
    hide OrderBy, TiesFit, Positions, Visit, Total, Requests, Shown, LimitOffset.DivideWithCeil;
    RequestsIsCeiling(|rows|, pageSize);
    var q, m := OrderBy(rows, ordering), Requests(|rows|, pageSize);
    OrderByKeeps(rows, ordering);
    assert |multiset(q)| == |q| && |multiset(rows)| == |rows|;
    TraversalIffClampFree(rows, pageSize, cutoff, ordering);
    ShownIsPrefix(rows, pageSize, cutoff, ordering, m);
    RequestsCover(|rows|, pageSize);
    forall k: nat
      ensures Visit(rows, pageSize, cutoff, ordering, k).Some? <==> k < m
    {
      assert VisitsWindow(rows, pageSize, cutoff, ordering, k);
      PageStartMonotone(k, m - 1, pageSize);
      PageStartMonotone(m, k, pageSize);
    }
  }

  /** The same for tables whose tie runs have at most `cutoff + 1` rows, and for any table without
      a cutoff. */
  lemma ShortTiesTraversal(rows: seq<Row>, pageSize: nat, cutoff: nat, ordering: seq<string>)
    requires WellOrdered(rows, ordering) && pageSize > 0
    requires cutoff == 0 || TieRunsAtMost(Positions(OrderBy(rows, ordering), ordering), cutoff + 1)
    ensures var m := Max(1, LimitOffset.DivideWithCeil(|rows|, pageSize));
      && Shown(rows, pageSize, cutoff, ordering, m) == OrderBy(rows, ordering)
      && (forall k: nat :: Visit(rows, pageSize, cutoff, ordering, k).Some? <==> k < m)
  {
    hide OrderBy, Positions, Visit, Shown, ClampFree, TieRunsAtMost, Total, LimitOffset.DivideWithCeil;
    ShortTiesAreClampFree(Positions(OrderBy(rows, ordering), ordering), pageSize, cutoff);
    FullTraversal(rows, pageSize, cutoff, ordering);
  }

  // ----- when the chain ends at all -----

  /** The chain never leaves the first `cutoff` rows of a run that reaches a whole page beyond them. */
  lemma {:induction false} StuckInRun(ks: seq<int>, pageSize: nat, cutoff: nat, desc: bool, b: nat, k: nat)
    requires Sorted(ks, desc) && cutoff > 0
    requires b + cutoff + pageSize < |ks| && ks[b] == ks[b + cutoff + pageSize]
    ensures var s := ChainStart(ks, pageSize, cutoff, k); s.Some? && s.value <= b + cutoff
  {
    hide TiesBefore, Sorted;
    if k > 0 {
      StuckInRun(ks, pageSize, cutoff, desc, b, k - 1);
      var e := ChainStart(ks, pageSize, cutoff, k - 1).value + pageSize;
      if e > b + cutoff {
        SortedAt(ks, b, e, desc);
        SortedAt(ks, e, b + cutoff + pageSize, desc);
        TiedRun(ks, b, e, desc);
      }
    }
  }

  /** No run is that long, or there is no cutoff. */
  ghost predicate RunsPassable(ks: seq<int>, pageSize: nat, cutoff: nat) {
    cutoff == 0 || TieRunsAtMost(ks, cutoff + pageSize)
  }

  /** Then every link makes progress. */
  lemma {:induction false} StartsAdvance(ks: seq<int>, pageSize: nat, cutoff: nat, k: nat)
    requires pageSize > 0 && RunsPassable(ks, pageSize, cutoff)
    ensures var s := ChainStart(ks, pageSize, cutoff, k);
      s.Some? ==> s.value >= k && (k > 0 ==> s.value < |ks|)
  {
    hide TiesBefore;
    if k > 0 {
      StartsAdvance(ks, pageSize, cutoff, k - 1);
      var before := ChainStart(ks, pageSize, cutoff, k - 1);
      if before.Some? {
        var e := before.value + pageSize;
        if cutoff > 0 && e < |ks| && TiesBefore(ks, e) >= cutoff + pageSize { TiedRow(ks, e, cutoff + pageSize); }
      }
    }
  }

  predicate CoversRow(start: Option<nat>, pageSize: nat, i: nat) {
    start.Some? && start.value <= i < start.value + pageSize
  }

  /** Some page of the chain, up to the `k`-th, covers row `i`. */
  ghost predicate Covered(ks: seq<int>, pageSize: nat, cutoff: nat, k: nat, i: nat) {
    exists j: nat :: j <= k && CoversRow(ChainStart(ks, pageSize, cutoff, j), pageSize, i)
  }

  /** The chain leaves no gaps, since a page never starts beyond the end of the one before. */
  lemma {:induction false} NoGaps(ks: seq<int>, pageSize: nat, cutoff: nat, k: nat, i: nat)
    requires ChainStart(ks, pageSize, cutoff, k).Some?
    requires i < ChainStart(ks, pageSize, cutoff, k).value + pageSize
    ensures Covered(ks, pageSize, cutoff, k, i)
  {
    hide NextStart;
    var s := ChainStart(ks, pageSize, cutoff, k);
    if CoversRow(s, pageSize, i) {
    } else {
      NoGaps(ks, pageSize, cutoff, k - 1, i);
      var j: nat :| j <= k - 1 && CoversRow(ChainStart(ks, pageSize, cutoff, j), pageSize, i);
    }
  }

  predicate ShownAt(rows: seq<Row>, pageSize: nat, cutoff: nat, ordering: seq<string>, row: Row, k: nat)
    requires ordering != []
  {
    var r := Visit(rows, pageSize, cutoff, ordering, k);
    r.Some? && row in r.value.rows
  }

  /** Some response of the chain shows the row. */
  ghost predicate EverShown(rows: seq<Row>, pageSize: nat, cutoff: nat, ordering: seq<string>, row: Row)
    requires ordering != []
  {
    exists k: nat :: ShownAt(rows, pageSize, cutoff, ordering, row, k)
  }

  ghost predicate ChainEnds(rows: seq<Row>, pageSize: nat, cutoff: nat, ordering: seq<string>)
    requires ordering != []
  {
    exists k: nat :: Visit(rows, pageSize, cutoff, ordering, k).None?
  }

  lemma {:induction false} LastStart(ks: seq<int>, pageSize: nat, cutoff: nat, k: nat) returns (m: nat)
    requires ChainStart(ks, pageSize, cutoff, k).None?
    ensures ChainStart(ks, pageSize, cutoff, m).Some?
    ensures ChainStart(ks, pageSize, cutoff, m).value + pageSize >= |ks|
  {
    hide NextStart;
    if ChainStart(ks, pageSize, cutoff, k - 1).None? {
      m := LastStart(ks, pageSize, cutoff, k - 1);
    } else {
      m := k - 1;
    }
  }

  lemma InSlice(q: seq<Row>, s: nat, size: nat, i: nat)
    requires s <= i < s + size && i < |q|
    ensures q[i] in Slice(q, s, s + size)
  {
    assert Slice(q, s, s + size)[i - s] == q[i];
  }

  lemma EndedShowsAll(rows: seq<Row>, pageSize: nat, cutoff: nat, ordering: seq<string>, row: Row)
    requires WellOrdered(rows, ordering) && pageSize > 0
    requires ChainEnds(rows, pageSize, cutoff, ordering) && row in rows
    ensures EverShown(rows, pageSize, cutoff, ordering, row)
  {
    hide OrderBy, Positions, Visit, ChainStart, Total;
    var q := OrderBy(rows, ordering);
    var ks := Positions(q, ordering);
    OrderByKeeps(rows, ordering);
    assert row in multiset(rows);
    var i: nat :| i < |q| && q[i] == row;
    var k: nat :| Visit(rows, pageSize, cutoff, ordering, k).None?;
    VisitRows(rows, pageSize, cutoff, ordering, k);
    var m := LastStart(ks, pageSize, cutoff, k);
    NoGaps(ks, pageSize, cutoff, m, i);
    var j: nat :| j <= m && CoversRow(ChainStart(ks, pageSize, cutoff, j), pageSize, i);
    VisitRows(rows, pageSize, cutoff, ordering, j);
    var s := ChainStart(ks, pageSize, cutoff, j).value;
    InSlice(q, s, pageSize, i);
    assert ShownAt(rows, pageSize, cutoff, ordering, row, j);
  }

  lemma NotInSlice(q: seq<Row>, s: nat, size: nat, i: nat)
    requires s + size <= i < |q|
    requires forall i, j :: 0 <= i < j < |q| ==> q[i] != q[j]
    ensures q[i] !in Slice(q, s, s + size)
  {
  }

  /** In a longer run the chain goes on forever, and the row a page beyond the cutoff is never shown. */
  lemma StuckHidesRow(rows: seq<Row>, pageSize: nat, cutoff: nat, ordering: seq<string>, b: nat, k: nat)
    requires WellOrdered(rows, ordering) && pageSize > 0 && cutoff > 0
    requires var ks := Positions(OrderBy(rows, ordering), ordering);
      b + cutoff + pageSize < |ks| && ks[b] == ks[b + cutoff + pageSize]
    ensures Visit(rows, pageSize, cutoff, ordering, k).Some?
    ensures !ShownAt(rows, pageSize, cutoff, ordering, OrderBy(rows, ordering)[b + cutoff + pageSize], k)
  {
    hide OrderBy, Positions, Visit, ChainStart, Total;
    var q := OrderBy(rows, ordering);
    var ks := Positions(q, ordering);
    OrderByOrdered(rows, ordering);
    OrderedPositions(q, ordering);
    StuckInRun(ks, pageSize, cutoff, Descends(ordering[0]), b, k);
    VisitRows(rows, pageSize, cutoff, ordering, k);
    var s := ChainStart(ks, pageSize, cutoff, k).value;
    NotInSlice(q, s, pageSize, b + cutoff + pageSize);
  }

  lemma PassableEnds(rows: seq<Row>, pageSize: nat, cutoff: nat, ordering: seq<string>)
    requires WellOrdered(rows, ordering) && pageSize > 0
    requires RunsPassable(Positions(OrderBy(rows, ordering), ordering), pageSize, cutoff)
    ensures Visit(rows, pageSize, cutoff, ordering, |rows| + 1).None?
  {
    hide OrderBy, Positions, Visit, ChainStart, Total, RunsPassable;
    OrderByKeeps(rows, ordering);
    assert |multiset(OrderBy(rows, ordering))| == |OrderBy(rows, ordering)| && |multiset(rows)| == |rows|;
    VisitRows(rows, pageSize, cutoff, ordering, |rows| + 1);
    StartsAdvance(Positions(OrderBy(rows, ordering), ordering), pageSize, cutoff, |rows| + 1);
  }

  lemma LongRun(ks: seq<int>, length: nat) returns (b: nat)
    requires !TieRunsAtMost(ks, length)
    ensures b + length < |ks| && ks[b] == ks[b + length]
  {
    var i, j :| 0 <= i && i + length == j < |ks| && ks[i] == ks[j];
    b := i;
  }

  /** With a cutoff, a client following next links comes to an end if and only if no tie run is
      longer than the cutoff and a page together; and it sees every row under the same condition. */
  lemma TraversalEndsIff(rows: seq<Row>, pageSize: nat, cutoff: nat, ordering: seq<string>)
    requires WellOrdered(rows, ordering) && pageSize > 0
    ensures ChainEnds(rows, pageSize, cutoff, ordering)
       <==> RunsPassable(Positions(OrderBy(rows, ordering), ordering), pageSize, cutoff)
    ensures ChainEnds(rows, pageSize, cutoff, ordering)
       <==> forall row :: row in rows ==> EverShown(rows, pageSize, cutoff, ordering, row)
  {
    hide OrderBy, Positions, Visit, ShownAt, Total, TieRunsAtMost;
    var q := OrderBy(rows, ordering);
    var ks := Positions(q, ordering);
    if RunsPassable(ks, pageSize, cutoff) {
      PassableEnds(rows, pageSize, cutoff, ordering);
      forall row | row in rows
        ensures EverShown(rows, pageSize, cutoff, ordering, row)
      {
        EndedShowsAll(rows, pageSize, cutoff, ordering, row);
      }
    } else {
      var b := LongRun(ks, cutoff + pageSize);
      var row := q[b + cutoff + pageSize];
      forall k: nat
        ensures Visit(rows, pageSize, cutoff, ordering, k).Some?
      {
        StuckHidesRow(rows, pageSize, cutoff, ordering, b, k);
      }
      forall k: nat
        ensures !ShownAt(rows, pageSize, cutoff, ordering, row, k)
      {
        StuckHidesRow(rows, pageSize, cutoff, ordering, b, k);
      }
      OrderByKeeps(rows, ordering);
      assert row in multiset(q);
      assert row in rows && !EverShown(rows, pageSize, cutoff, ordering, row);
    }
  }

  // ----- tied rows -----

  const CREATED_THEN_ID: seq<string> := ["created", "id"]

  /** Rows created at the same time. */
  function TiedRows(n: nat): seq<Row> {
    seq(n, i => Row(map["created" := 0, "id" := i]))
  }

  lemma TiedRowsAreOrdered(n: nat)
    ensures WellOrdered(TiedRows(n), CREATED_THEN_ID)
  {
    var rows, ordering := TiedRows(n), CREATED_THEN_ID;
    assert FieldOf(ordering[0]) == "created" && ordering[1..] == ["id"] && FieldOf(ordering[1..][0]) == "id";
    forall i, j | 0 <= i < j < n
      ensures Precedes(rows[i], rows[j], ordering)
    {
      assert Attr(rows[i], "created") == Attr(rows[j], "created");
      assert Precedes(rows[i], rows[j], ordering[1..]);
    }
  }

  lemma TiedPositions(n: nat)
    ensures var ks := Positions(OrderBy(TiedRows(n), CREATED_THEN_ID), CREATED_THEN_ID);
      |ks| == n && forall i :: 0 <= i < n ==> ks[i] == 0
  {
    hide OrderBy;
    var rows, ordering := TiedRows(n), CREATED_THEN_ID;
    var q := OrderBy(rows, ordering);
    OrderByKeeps(rows, ordering);
    assert |multiset(q)| == |q| && |multiset(rows)| == |rows|;
    forall i | 0 <= i < |q|
      ensures Key(q[i], ordering) == 0
    {
      assert q[i] in multiset(q);
      assert q[i] in rows;
      assert FieldOf(ordering[0]) == "created";
    }
  }

  /** Both failures are real: over three tied rows, with pages and a cutoff of one row, the client is
      sent back to the second row forever. */
  lemma ThreeTiedRowsNeverEnd()
    ensures TiedRows(3) == [Row(map["created" := 0, "id" := 0]), Row(map["created" := 0, "id" := 1]),
                            Row(map["created" := 0, "id" := 2])]
    ensures WellOrdered(TiedRows(3), CREATED_THEN_ID)
    ensures !TraversesAll(TiedRows(3), 1, 1, CREATED_THEN_ID) && !ChainEnds(TiedRows(3), 1, 1, CREATED_THEN_ID)
  {
    TiedRowsAreOrdered(3);
    TiedPositions(3);
    var ks := Positions(OrderBy(TiedRows(3), CREATED_THEN_ID), CREATED_THEN_ID);
    assert ks[1] == ks[2] == ks[0];
    assert PageStart(2, 1) == PageStart(1, 1) + 1 == 2;
    assert TiesBefore(ks, 2) == 1 + TiesBefore(ks, 1) == 2;
    assert !TiesFit(ks, 1, 1, 2);
    TraversalIffClampFree(TiedRows(3), 1, 1, CREATED_THEN_ID);
    assert !TieRunsAtMost(ks, 2);
    TraversalEndsIff(TiedRows(3), 1, 1, CREATED_THEN_ID);
  }
}
