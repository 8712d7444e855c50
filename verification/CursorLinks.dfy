/** The links of `CursorPagination`, as functions of the state `paginate_queryset` leaves behind.
    Only the positions of the rows on the page matter to them. */
module CursorLinks {
  import opened Prelude

  /** Positions stand for `str(attr)` of the first ordering field. */
  datatype Cursor = Cursor(offset: nat, reverse: bool, position: Option<int>)

  /** A position attribute, which `paginate_queryset` may leave unset. */
  datatype Slot = Unset | Held(position: Option<int>)

  datatype View = View(
    cursor: Option<Cursor>,
    page: seq<int>,
    hasNext: bool,
    hasPrevious: bool,
    next: Slot,
    previous: Slot)

  /** A request without a cursor reads like this cursor. */
  const START := Cursor(0, false, None)

  function Effective(cursor: Option<Cursor>): Cursor {
    if cursor.Some? then cursor.value else START
  }

  /** The state after a request that fetched `results` in query order. */
  function Assemble(cursor: Option<Cursor>, results: seq<int>, pageSize: nat): View {
    var c := Effective(cursor);
    var page := Slice(results, 0, pageSize);
    var more := |results| > |page|;
    var following := if more then Held(Some(results[|results| - 1])) else Unset;
    var turned := c.position.Some? || c.offset > 0;
    var current := if turned then Held(c.position) else Unset;
    if c.reverse then View(cursor, Reverse(page), turned, more, current, following)
    else View(cursor, page, more, turned, following, current)
  }

  /** The links read a position, or the cursor, only where the request has set it. */
  ghost predicate Readable(v: View) {
    && (v.hasNext ==> v.next.Held?)
    && (v.hasPrevious ==> v.previous.Held? && v.cursor.Some?)
  }

  lemma AssembleReadable(cursor: Option<Cursor>, results: seq<int>, pageSize: nat)
    ensures Readable(Assemble(cursor, results, pageSize))
  {
  }

  datatype Scan = NoMarker | Marker(offset: nat, position: int)

  /** Seek from the end of the page for a row whose position differs from its successor's. */
  function ScanBack(page: seq<int>, compare: Option<int>): Scan {
    if page == [] then NoMarker
    else
      var position := page[|page| - 1];
      if Some(position) != compare then Marker(0, position)
      else
        var rest := ScanBack(page[..|page| - 1], Some(position));
        if rest.Marker? then Marker(rest.offset + 1, rest.position) else NoMarker
  }

  function ScanFront(page: seq<int>, compare: Option<int>): Scan {
    if page == [] then NoMarker
    else
      var position := page[0];
      if Some(position) != compare then Marker(0, position)
      else
        var rest := ScanFront(page[1..], Some(position));
        if rest.Marker? then Marker(rest.offset + 1, rest.position) else NoMarker
  }

  /** If the direction is reversed and the cursor has an offset, the first position found cannot
      be the marker, so the scan starts by comparing the edge of the page with itself. */
  function NextCompare(v: View): Option<int>
    requires Readable(v) && v.hasNext && v.page != []
  {
    if v.cursor.Some? && v.cursor.value.reverse && v.cursor.value.offset != 0
    then Some(v.page[|v.page| - 1]) else v.next.position
  }

  /** The next cursor when no row of the page has a position of its own. */
  function NextFallback(v: View, pageSize: nat): Cursor
    requires Readable(v)
  {
    if !v.hasPrevious then Cursor(pageSize, false, None)
    else if v.cursor.value.reverse then Cursor(0, false, v.previous.position)
    else Cursor(v.cursor.value.offset + pageSize, false, v.previous.position)
  }

  function NextLink(v: View, pageSize: nat): Option<Cursor>
    requires Readable(v)
  {
    if !v.hasNext then None
    else if v.page == [] then Some(Cursor(0, false, v.next.position))
    else match ScanBack(v.page, NextCompare(v))
      case Marker(offset, position) => Some(Cursor(offset, false, Some(position)))
      case NoMarker => Some(NextFallback(v, pageSize))
  }

  function PreviousCompare(v: View): Option<int>
    requires Readable(v) && v.hasPrevious && v.page != []
  {
    if v.cursor.Some? && !v.cursor.value.reverse && v.cursor.value.offset != 0
    then Some(v.page[0]) else v.previous.position
  }

  function PreviousFallback(v: View, pageSize: nat): Cursor
    requires Readable(v) && v.cursor.Some?
  {
    if !v.hasNext then Cursor(pageSize, true, None)
    else if v.cursor.value.reverse then Cursor(v.cursor.value.offset + pageSize, true, v.next.position)
    else Cursor(0, true, v.next.position)
  }

  function PreviousLink(v: View, pageSize: nat): Option<Cursor>
    requires Readable(v)
  {
    if !v.hasPrevious then None
    else if v.page == [] then Some(Cursor(0, true, v.previous.position))
    else match ScanFront(v.page, PreviousCompare(v))
      case Marker(offset, position) => Some(Cursor(offset, true, Some(position)))
      case NoMarker => Some(PreviousFallback(v, pageSize))
  }

  /** There is a link exactly if there is a page. */
  lemma LinkExists(v: View, pageSize: nat)
    requires Readable(v)
    ensures NextLink(v, pageSize).Some? <==> v.hasNext
    ensures PreviousLink(v, pageSize).Some? <==> v.hasPrevious
  {
  }

  /** Decoding caps the offset; a cutoff of 0 stands for no cutoff. */
  function Clamp(c: Cursor, cutoff: nat): Cursor {
    if cutoff > 0 then c.(offset := Min(c.offset, cutoff)) else c
  }

  predicate WithinCutoff(offset: nat, cutoff: nat) {
    cutoff == 0 || offset <= cutoff
  }

  // ----- the mirror: a reverse cursor is a forward cursor on the reversed table -----

  function MirrorCursor(c: Cursor): Cursor { c.(reverse := !c.reverse) }

  function MirrorOption(c: Option<Cursor>): Option<Cursor> {
    if c.Some? then Some(MirrorCursor(c.value)) else None
  }

  function MirrorView(v: View): View {
    View(MirrorOption(v.cursor), Reverse(v.page), v.hasPrevious, v.hasNext, v.previous, v.next)
  }

  lemma {:induction false} MirrorScan(page: seq<int>, compare: Option<int>)
    ensures ScanBack(Reverse(page), compare) == ScanFront(page, compare)
  {
    if page != [] {
      var r := Reverse(page);
      assert r[..|r| - 1] == Reverse(page[1..]);
      MirrorScan(page[1..], Some(page[0]));
    }
  }

  lemma MirrorTwice(v: View)
    ensures MirrorView(MirrorView(v)) == v
  {
    ReverseTwice(v.page);
  }

  /** The two link methods are mirror images of each other. */
  lemma MirrorPreviousLink(v: View, pageSize: nat)
    requires Readable(v) && v.cursor.Some?
    ensures NextLink(MirrorView(v), pageSize) == MirrorOption(PreviousLink(v, pageSize))
  {
    if v.page != [] && v.hasPrevious {
      MirrorScan(v.page, PreviousCompare(v));
      assert NextCompare(MirrorView(v)) == PreviousCompare(v);
      assert NextFallback(MirrorView(v), pageSize) == MirrorCursor(PreviousFallback(v, pageSize));
    }
  }

  lemma MirrorNextLink(v: View, pageSize: nat)
    requires Readable(v) && v.cursor.Some?
    ensures PreviousLink(MirrorView(v), pageSize) == MirrorOption(NextLink(v, pageSize))
  {
    MirrorTwice(v);
    MirrorPreviousLink(MirrorView(v), pageSize);
  }
}
