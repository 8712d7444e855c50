/** Which window of the ordered table a cursor's page covers, and where its links lead.
    The table appears as the sequence of its positions in forward query order. */
module CursorWindows {
  import opened Prelude
  import opened CursorLinks

  /** The filter `__gt` or `__lt`: strictly after the position in the active order. */
  predicate After(k: int, position: int, desc: bool) {
    if desc then k < position else k > position
  }

  ghost predicate Sorted(q: seq<int>, desc: bool) {
    forall i, j {:trigger After(q[i], q[j], desc)} :: 0 <= i < j < |q| ==> !After(q[i], q[j], desc)
  }

  ghost predicate AllDistinct(q: seq<int>) {
    forall i, j :: 0 <= i < j < |q| ==> q[i] != q[j]
  }

  /** How many positions come at or before the given one. */
  function Base(q: seq<int>, position: int, desc: bool): (n: nat)
    ensures n <= |q|
  {
    if q == [] || After(q[0], position, desc) then 0 else 1 + Base(q[1..], position, desc)
  }

  /** How many positions come strictly before the given one. */
  function Before(q: seq<int>, position: int, desc: bool): (n: nat)
    ensures n <= |q|
  {
    if q == [] || !After(position, q[0], desc) then 0 else 1 + Before(q[1..], position, desc)
  }

  lemma {:induction false} BaseBoundary(q: seq<int>, position: int, desc: bool)
    ensures var n := Base(q, position, desc);
      && (n > 0 ==> !After(q[n - 1], position, desc))
      && (n < |q| ==> After(q[n], position, desc))
  {
    if q != [] && !After(q[0], position, desc) { BaseBoundary(q[1..], position, desc); }
  }

  lemma {:induction false} BeforeBoundary(q: seq<int>, position: int, desc: bool)
    ensures var n := Before(q, position, desc);
      && (n > 0 ==> After(position, q[n - 1], desc))
      && (n < |q| ==> !After(position, q[n], desc))
  {
    if q != [] && After(position, q[0], desc) { BeforeBoundary(q[1..], position, desc); }
  }

  lemma SortedAt(q: seq<int>, i: nat, j: nat, desc: bool)
    requires Sorted(q, desc) && i <= j < |q|
    ensures !After(q[i], q[j], desc)
  {
  }

  lemma BaseIs(q: seq<int>, position: int, n: nat, desc: bool)
    requires Sorted(q, desc) && n <= |q|
    requires n > 0 ==> !After(q[n - 1], position, desc)
    requires n < |q| ==> After(q[n], position, desc)
    ensures Base(q, position, desc) == n
  {
    var m := Base(q, position, desc);
    BaseBoundary(q, position, desc);
    if m < n { SortedAt(q, m, n - 1, desc); }
    if n < m { SortedAt(q, n, m - 1, desc); }
  }

  lemma BeforeIs(q: seq<int>, position: int, n: nat, desc: bool)
    requires Sorted(q, desc) && n <= |q|
    requires n > 0 ==> After(position, q[n - 1], desc)
    requires n < |q| ==> !After(position, q[n], desc)
    ensures Before(q, position, desc) == n
  {
    var m := Before(q, position, desc);
    BeforeBoundary(q, position, desc);
    if m < n { SortedAt(q, m, n - 1, desc); }
    if n < m { SortedAt(q, n, m - 1, desc); }
  }

  /** Index of the first row of a forward cursor's page. */
  function Start(q: seq<int>, c: Cursor, desc: bool): nat {
    (if c.position.Some? then Base(q, c.position.value, desc) else 0) + c.offset
  }

  /** Index just past the last row of a reverse cursor's page. */
  function End(q: seq<int>, c: Cursor, desc: bool): int {
    (if c.position.Some? then Before(q, c.position.value, desc) else |q|) - c.offset
  }

  predicate Turned(c: Cursor) { c.position.Some? || c.offset > 0 }

  /** The state after a forward request, in terms of the ordered table. */
  function ForwardView(q: seq<int>, cursor: Option<Cursor>, pageSize: nat, desc: bool): View {
    var c := Effective(cursor);
    var s := Start(q, c, desc);
    View(cursor, Slice(q, s, s + pageSize), s + pageSize < |q|, Turned(c),
         if s + pageSize < |q| then Held(Some(q[s + pageSize])) else Unset,
         if Turned(c) then Held(c.position) else Unset)
  }

  /** The state after a reverse request, in terms of the ordered table. */
  function ReverseView(q: seq<int>, c: Cursor, pageSize: nat, desc: bool): View {
    var e := Min(End(q, c, desc), |q|);
    View(Some(c), Slice(q, Max(0, e - pageSize), Max(0, e)), Turned(c), e > pageSize,
         if Turned(c) then Held(c.position) else Unset,
         if e > pageSize then Held(Some(q[e - pageSize - 1])) else Unset)
  }

  lemma ForwardViewReadable(q: seq<int>, cursor: Option<Cursor>, pageSize: nat, desc: bool)
    ensures Readable(ForwardView(q, cursor, pageSize, desc))
  {
  }

  function ViewOf(q: seq<int>, cursor: Option<Cursor>, pageSize: nat, desc: bool): View {
    if Effective(cursor).reverse then ReverseView(q, cursor.value, pageSize, desc)
    else ForwardView(q, cursor, pageSize, desc)
  }

  /** The rows of the table from which the page is taken: first index, and index past the last. */
  function WindowOf(q: seq<int>, c: Cursor, pageSize: nat, desc: bool): (w: (nat, nat))
    ensures w.0 <= w.1 <= |q|
  {
    if c.reverse then
      var e := Min(End(q, c, desc), |q|);
      (Max(0, e - pageSize), Max(0, e))
    else
      var s := Start(q, c, desc);
      (Min(s, |q|), Min(s + pageSize, |q|))
  }

  lemma AssembleForward(q: seq<int>, cursor: Option<Cursor>, pageSize: nat, desc: bool)
    requires !Effective(cursor).reverse
    ensures var s := Start(q, Effective(cursor), desc);
      Assemble(cursor, Slice(q, s, s + pageSize + 1), pageSize) == ForwardView(q, cursor, pageSize, desc)
  {
    hide Slice;
    SliceFetch(q, Start(q, Effective(cursor), desc), pageSize);
  }

  // ----- mirror images -----

  lemma MirrorSorted(q: seq<int>, desc: bool)
    requires Sorted(q, desc)
    ensures Sorted(Reverse(q), !desc)
  {
    var r := Reverse(q);
    forall i, j | 0 <= i < j < |r|
      ensures !After(r[i], r[j], !desc)
    {
      assert !After(q[|q| - 1 - j], q[|q| - 1 - i], desc);
    }
  }

  lemma MirrorBase(q: seq<int>, position: int, desc: bool)
    requires Sorted(q, desc)
    ensures Base(Reverse(q), position, !desc) == |q| - Before(q, position, desc)
  {
    BeforeBoundary(q, position, desc);
    MirrorSorted(q, desc);
    BaseIs(Reverse(q), position, |q| - Before(q, position, desc), !desc);
  }

  lemma MirrorStart(q: seq<int>, c: Cursor, desc: bool)
    requires Sorted(q, desc)
    ensures Start(Reverse(q), MirrorCursor(c), !desc) == |q| - End(q, c, desc)
  {
    if c.position.Some? { MirrorBase(q, c.position.value, desc); }
  }

  lemma MirrorForwardView(q: seq<int>, c: Cursor, pageSize: nat, desc: bool)
    requires Sorted(q, desc)
    ensures MirrorView(ForwardView(Reverse(q), Some(MirrorCursor(c)), pageSize, !desc))
        == ReverseView(q, c, pageSize, desc)
  {
    hide Base, Before, Slice;
    MirrorStart(q, c, desc);
    MirrorSlice(q, Start(Reverse(q), MirrorCursor(c), !desc), pageSize);
  }

  /** What a reverse request leaves behind, from the rows it fetched in reversed order. */
  lemma AssembleReverse(q: seq<int>, c: Cursor, pageSize: nat, desc: bool)
    requires End(q, c, desc) <= |q| && c.reverse
    ensures var s := |q| - End(q, c, desc);
      Assemble(Some(c), Slice(Reverse(q), s, s + pageSize + 1), pageSize) == ReverseView(q, c, pageSize, desc)
  {
    hide Slice, Before;
    var s := |q| - End(q, c, desc);
    MirrorSlice(q, s, pageSize);
    SliceFetch(Reverse(q), s, pageSize);
  }

  // ----- ties -----

  /** How many rows directly before row `b` share its position. */
  function TiesBefore(q: seq<int>, b: nat): (t: nat)
    requires b < |q|
    ensures t <= b
  {
    if b == 0 || q[b - 1] != q[b] then 0 else 1 + TiesBefore(q, b - 1)
  }

  /** How many rows directly after row `b` share its position. */
  function TiesAfter(q: seq<int>, b: nat): (t: nat)
    requires b < |q|
    ensures b + t < |q|
    decreases |q| - b
  {
    if b + 1 == |q| || q[b + 1] != q[b] then 0 else 1 + TiesAfter(q, b + 1)
  }

  /** The tied rows share the position, and the row beyond them differs. */
  lemma {:induction false} TiesBeforeBoundary(q: seq<int>, b: nat)
    requires b < |q|
    ensures var t := TiesBefore(q, b);
      q[b - t] == q[b] && (t < b ==> q[b - t - 1] != q[b])
  {
    if b > 0 && q[b - 1] == q[b] { TiesBeforeBoundary(q, b - 1); }
  }

  lemma {:induction false} TiesAfterBoundary(q: seq<int>, b: nat)
    requires b < |q|
    ensures var t := TiesAfter(q, b);
      q[b + t] == q[b] && (b + t + 1 < |q| ==> q[b + t + 1] != q[b])
    decreases |q| - b
  {
    if b + 1 < |q| && q[b + 1] == q[b] { TiesAfterBoundary(q, b + 1); }
  }

  lemma {:induction false} MirrorTiesBefore(q: seq<int>, b: nat)
    requires b < |q|
    ensures TiesAfter(Reverse(q), |q| - 1 - b) == TiesBefore(q, b)
  {
    if b > 0 && q[b - 1] == q[b] { MirrorTiesBefore(q, b - 1); }
  }

  lemma {:induction false} MirrorTiesAfter(q: seq<int>, b: nat)
    requires b < |q|
    ensures TiesBefore(Reverse(q), |q| - 1 - b) == TiesAfter(q, b)
    decreases |q| - b
  {
    if b + 1 < |q| && q[b + 1] == q[b] { MirrorTiesAfter(q, b + 1); }
  }

  lemma {:induction false} TiesShift(q: seq<int>, e: nat, k: nat)
    requires e < |q| && k <= TiesBefore(q, e)
    ensures TiesBefore(q, e) == k + TiesBefore(q, e - k)
  {
    if k > 0 { TiesShift(q, e - 1, k - 1); }
  }

  /** The backward scan finds the row in front of the ties of the following row. */
  lemma {:induction false} ScanBackFinds(q: seq<int>, s: nat, e: nat)
    requires s <= e < |q|
    ensures var t := TiesBefore(q, e);
      ScanBack(q[s..e], Some(q[e])) == if t < e - s then Marker(t, q[e - t - 1]) else NoMarker
  {
    if s < e {
      assert q[s..e][..e - s - 1] == q[s..e - 1];
      if q[e - 1] == q[e] { ScanBackFinds(q, s, e - 1); }
    }
  }

  /** The forward scan, started on its own first row, finds the row behind that row's ties. */
  lemma {:induction false} ScanFrontFinds(q: seq<int>, s: nat, e: nat)
    requires s < e <= |q|
    ensures var t := TiesAfter(q, s) + 1;
      ScanFront(q[s..e], Some(q[s])) == if s + t < e then Marker(t, q[s + t]) else NoMarker
    decreases e - s
  {
    assert q[s..e][1..] == q[s + 1..e];
    if s + 1 < e && q[s + 1] == q[s] { ScanFrontFinds(q, s + 1, e); }
  }

  lemma BaseAt(q: seq<int>, i: nat, desc: bool)
    requires Sorted(q, desc) && i + 1 < |q| && q[i] != q[i + 1]
    ensures Base(q, q[i], desc) == i + 1
  {
    SortedAt(q, i, i + 1, desc);
    BaseIs(q, q[i], i + 1, desc);
  }

  lemma BeforeAt(q: seq<int>, i: nat, desc: bool)
    requires Sorted(q, desc) && i < |q|
    ensures Before(q, q[i], desc) == i - TiesBefore(q, i)
  {
    hide Before, TiesBefore;
    var t := TiesBefore(q, i);
    TiesBeforeBoundary(q, i);
    if t < i { SortedAt(q, i - t - 1, i, desc); }
    BeforeIs(q, q[i], i - t, desc);
  }

  // ----- links of a forward page -----

  /** The three ways the next link of a forward page `q[s..e]` comes about. */
  lemma NextLinkOfWindow(q: seq<int>, s: nat, e: nat, v: View, pageSize: nat)
    requires s < e < |q| && Readable(v) && !Effective(v.cursor).reverse
    requires v.page == q[s..e] && v.hasNext && v.next == Held(Some(q[e]))
    ensures var t := TiesBefore(q, e);
      NextLink(v, pageSize)
      == Some(if t < e - s then Cursor(t, false, Some(q[e - t - 1]))
              else if v.hasPrevious then Cursor(v.cursor.value.offset + pageSize, false, v.previous.position)
              else Cursor(pageSize, false, None))
  {
    hide TiesBefore, ScanBack;
    ScanBackFinds(q, s, e);
  }

  lemma ForwardNextLink(q: seq<int>, cursor: Option<Cursor>, pageSize: nat, desc: bool)
    requires pageSize > 0 && !Effective(cursor).reverse
    requires Start(q, Effective(cursor), desc) + pageSize < |q|
    ensures var c := Effective(cursor);
      var e := Start(q, c, desc) + pageSize;
      var t := TiesBefore(q, e);
      NextLink(ForwardView(q, cursor, pageSize, desc), pageSize)
      == Some(if t < pageSize then Cursor(t, false, Some(q[e - t - 1]))
              else if Turned(c) then Cursor(c.offset + pageSize, false, c.position)
              else Cursor(pageSize, false, None))
  {
    hide Base, TiesBefore, ScanBack, NextLink;
    ForwardViewReadable(q, cursor, pageSize, desc);
    var s := Start(q, Effective(cursor), desc);
    NextLinkOfWindow(q, s, s + pageSize, ForwardView(q, cursor, pageSize, desc), pageSize);
  }

  /** The next link of a forward page, before it is decoded again, starts exactly where the page
      ends.  If the page's own offset counts the ties in front of it, so does the link's. */
  lemma AdvanceForward(q: seq<int>, cursor: Option<Cursor>, pageSize: nat, desc: bool)
    requires Sorted(q, desc) && pageSize > 0 && !Effective(cursor).reverse
    requires Start(q, Effective(cursor), desc) + pageSize < |q|
    ensures var c := Effective(cursor);
      var s := Start(q, c, desc);
      var link := NextLink(ForwardView(q, cursor, pageSize, desc), pageSize);
      && link.Some? && !link.value.reverse
      && Start(q, link.value, desc) == s + pageSize
      && (c.offset == TiesBefore(q, s) ==> link.value.offset == TiesBefore(q, s + pageSize))
  {
    hide Base, TiesBefore, NextLink, ForwardView;
    ForwardNextLink(q, cursor, pageSize, desc);
    var e := Start(q, Effective(cursor), desc) + pageSize;
    var t := TiesBefore(q, e);
    if t < pageSize {
      TiesBeforeBoundary(q, e);
      BaseAt(q, e - t - 1, desc);
    } else {
      TiesShift(q, e, pageSize);
    }
  }
}
