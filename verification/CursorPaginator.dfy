/** The paginator object: one instance serves a request and then builds its links. */
module CursorPaginator {
  import opened Prelude
  import opened Ordering
  import opened CursorLinks
  import opened CursorPages
  import opened Text
  import Wire = CursorText

  /** The query parameters the paginator reads. */
  datatype Request = Request(cursor: Option<string>, pageSize: Option<string>)

  datatype Outcome =
    | NotPaginated            // no page size: `paginate_queryset` returns None
    | Page(rows: seq<Row>)
    | NotFound                // invalid cursor
    | BadPosition             // the position does not fit the ordering field

  /** The marker found after `offset` further rows have been passed. */
  function Passed(offset: nat, scan: Scan): Scan {
    if scan.Marker? then Marker(offset + scan.offset, scan.position) else NoMarker
  }

  class CursorPagination {
    const ordering: seq<string>
    const offsetCutoff: nat      // 0 stands for no cutoff
    const sizeFromClient: bool   // `page_size_query_param` is set
    const maxPageSize: nat       // 0 stands for no maximum

    var pageSize: nat            // 0 stands for None
    var cursor: Option<Cursor>
    var page: seq<Row>
    var hasNext: bool
    var hasPrevious: bool
    var nextPosition: Slot
    var previousPosition: Slot

    /** What the links may read: a position counts only where its flag says it has been set. */
    ghost function Attributes(): View
      requires ordering != []
      reads this
    {
      View(cursor, Positions(page, ordering), hasNext, hasPrevious,
           if hasNext then nextPosition else Unset, if hasPrevious then previousPosition else Unset)
    }

    constructor (ordering: seq<string>, pageSize: nat, offsetCutoff: nat, sizeFromClient: bool, maxPageSize: nat)
      requires ordering != []
      ensures this.ordering == ordering && this.pageSize == pageSize && this.offsetCutoff == offsetCutoff
      ensures this.sizeFromClient == sizeFromClient && this.maxPageSize == maxPageSize
      ensures Attributes() == View(None, [], false, false, Unset, Unset)
    {
      this.ordering, this.pageSize, this.offsetCutoff := ordering, pageSize, offsetCutoff;
      this.sizeFromClient, this.maxPageSize := sizeFromClient, maxPageSize;
      cursor, page, hasNext, hasPrevious := None, [], false, false;
      nextPosition, previousPosition := Unset, Unset;
    }

    /** `get_page_size`: the client's number if it is positive, capped, or else the size configured. */
    function GetPageSize(request: Request): (size: nat)
      reads this
      ensures var asked := if sizeFromClient && request.pageSize.Some? then Int(request.pageSize.value) else None;
        if asked.Some? && asked.value > 0
        then
          && 0 < size <= asked.value && (maxPageSize > 0 ==> size <= maxPageSize)
          && (size == asked.value || size == maxPageSize)
        else size == pageSize
    {
      if sizeFromClient && request.pageSize.Some? then
        match Wire.PositiveInt(request.pageSize.value, true, maxPageSize)
        case Some(size) => size
        case None => pageSize
      else pageSize
    }

    /** What the specified state after a fetch is, in terms of the rows. */
    lemma Assembled(results: seq<Row>)
      requires ordering != []
      ensures var taken, c := Slice(results, 0, pageSize), Effective(cursor);
        var more, turned := |results| > |taken|, c.position.Some? || c.offset > 0;
        var following := if more then Held(Some(Key(results[|results| - 1], ordering))) else Unset;
        var current := if turned then Held(c.position) else Unset;
        Assemble(cursor, Positions(results, ordering), pageSize)
        == if c.reverse then View(cursor, Positions(Reverse(taken), ordering), turned, more, current, following)
           else View(cursor, Positions(taken, ordering), more, turned, following, current)
    {
      SlicedPositions(results, 0, pageSize, ordering);
      ReversedPositions(Slice(results, 0, pageSize), ordering);
    }

    /** Set the attributes around the page, the last of the results telling what follows it. */
    method Distribute(results: seq<Row>)
      requires ordering != []
      modifies `page, `hasNext, `hasPrevious, `nextPosition, `previousPosition
      ensures var taken := Slice(results, 0, pageSize);
        page == if Effective(cursor).reverse then Reverse(taken) else taken
      ensures Attributes() == Assemble(cursor, Positions(results, ordering), pageSize)
    {
      hide Slice, OrderBy, Filter, Positions, Key, Reverse, Assemble;
      Assembled(results);
      var offset, reverse, currentPosition := 0, false, None;
      if cursor.Some? {
        offset, reverse, currentPosition := cursor.value.offset, cursor.value.reverse, cursor.value.position;
      }
      var taken := Slice(results, 0, pageSize);

      var hasFollowingPosition, followingPosition := false, None;
      if |results| > |taken| {
        hasFollowingPosition := true;
        followingPosition := Some(Key(results[|results| - 1], ordering));
      }

      var turned := currentPosition.Some? || offset > 0;
      if reverse {
        page, hasNext, hasPrevious := Reverse(taken), turned, hasFollowingPosition;
        nextPosition := if hasNext then Held(currentPosition) else nextPosition;
        previousPosition := if hasPrevious then Held(followingPosition) else previousPosition;
      } else {
        page, hasNext, hasPrevious := taken, hasFollowingPosition, turned;
        nextPosition := if hasNext then Held(followingPosition) else nextPosition;
        previousPosition := if hasPrevious then Held(currentPosition) else previousPosition;
      }
    }

    /** Fetch the page of the current cursor, and one row more. */
    method Load(rows: seq<Row>)
      requires ordering != [] && pageSize > 0
      modifies `page, `hasNext, `hasPrevious, `nextPosition, `previousPosition
      ensures var response := Paginate(rows, cursor, pageSize, ordering);
        page == response.rows && Attributes() == response.view && Readable(Attributes())
    {
      hide OrderBy, Filter, Slice, Positions, Assemble, Reverse, Key, Readable;
      var c := if cursor.Some? then cursor.value else START;
      var queryset := OrderBy(rows, if c.reverse then ReverseOrdering(ordering) else ordering);
      if c.position.Some? {
        queryset := Filter(queryset, c.position.value, c.reverse, ordering);
      }
      var results := Slice(queryset, c.offset, c.offset + pageSize + 1);
      AssembleReadable(cursor, Positions(results, ordering), pageSize);
      Distribute(results);
    }

    method PaginateQueryset(rows: seq<Row>, request: Request) returns (outcome: Outcome)
      requires ordering != []
      modifies this
      ensures pageSize == old(GetPageSize(request))
      ensures pageSize == 0 <==> outcome.NotPaginated?
      ensures pageSize > 0 && request.cursor.None? ==>
        var response := Paginate(rows, None, pageSize, ordering);
        outcome == Page(response.rows) && Attributes() == response.view
      ensures pageSize > 0 && request.cursor.Some? ==>
        && (outcome.NotFound? <==> Wire.Refused(request.cursor.value))
        && (outcome.BadPosition? <==> Wire.Misplaced(request.cursor.value))
        && forall c :: Wire.StandsFor(request.cursor.value, offsetCutoff, c) ==>
             var response := Paginate(rows, Some(c), pageSize, ordering);
             outcome == Page(response.rows) && Attributes() == response.view
      ensures outcome.Page? ==> outcome.rows == page && Readable(Attributes())
      ensures !outcome.Page? ==> Attributes() == old(Attributes())
    {
      hide Wire.DecodeCursor, Wire.Refused, Wire.Misplaced, Wire.StandsFor, Paginate;
      pageSize := GetPageSize(request);
      if pageSize == 0 {
        return NotPaginated;
      }
      if request.cursor.Some? {
        Wire.DecodeCursorExact(request.cursor.value, offsetCutoff);
        var decoded := Wire.DecodeCursor(request.cursor.value, offsetCutoff);
        match decoded {
          case NotFound => return NotFound;
          case BadPosition => return BadPosition;
          case Decoded(c) => cursor := Some(c);
        }
      } else {
        cursor := None;
      }
      Load(rows);
      outcome := Page(page);
    }

    /** Seek back from the end of the page for a row that differs from the one after it. */
    method SeekBack(start: Option<int>) returns (hasItemWithUniquePosition: bool, offset: nat, position: Option<int>)
      requires ordering != []
      ensures var scan := ScanBack(Positions(page, ordering), start);
        if hasItemWithUniquePosition then position.Some? && scan == Marker(offset, position.value)
        else scan == NoMarker && offset == |page|
    {
      ghost var keys := Positions(page, ordering);
      var compare := start;
      offset, position, hasItemWithUniquePosition := 0, None, false;

      var i := |page|;
      assert keys[..i] == keys;
      while i > 0 && !hasItemWithUniquePosition
        invariant 0 <= i <= |page|
        invariant !hasItemWithUniquePosition ==>
          offset == |page| - i && ScanBack(keys, start) == Passed(offset, ScanBack(keys[..i], compare))
        invariant hasItemWithUniquePosition ==>
          position.Some? && page != [] && ScanBack(keys, start) == Marker(offset, position.value)
        decreases i, !hasItemWithUniquePosition
      {
        position := Some(Key(page[i - 1], ordering));
        if position != compare {
          hasItemWithUniquePosition := true;
        } else {
          assert keys[..i][..i - 1] == keys[..i - 1];
          compare := position;
          offset := offset + 1;
          i := i - 1;
        }
      }
    }

    /** The next cursor, or None: the link is its encoding. */
    method GetNextLink() returns (link: Option<string>)
      requires ordering != [] && Readable(Attributes())
      ensures var next := NextLink(Attributes(), pageSize);
        link == if next.Some? then Some(Wire.EncodeCursor(next.value)) else None
    {
      hide Wire.EncodeCursor;
      if !hasNext {
        return None;
      }
      var compare := nextPosition.position;
      if page != [] && cursor.Some? && cursor.value.reverse && cursor.value.offset != 0 {
        compare := Some(Key(page[|page| - 1], ordering));
      }
      var hasItemWithUniquePosition, offset, position := SeekBack(compare);
      if page != [] && !hasItemWithUniquePosition {
        if !hasPrevious {
          offset, position := pageSize, None;
        } else if cursor.value.reverse {
          offset, position := 0, previousPosition.position;
        } else {
          offset, position := cursor.value.offset + pageSize, previousPosition.position;
        }
      }
      if page == [] {
        position := nextPosition.position;
      }
      link := Some(Wire.EncodeCursor(Cursor(offset, false, position)));
    }

    /** Seek from the start of the page for a row that differs from the one before it. */
    method SeekFront(start: Option<int>) returns (hasItemWithUniquePosition: bool, offset: nat, position: Option<int>)
      requires ordering != []
      ensures var scan := ScanFront(Positions(page, ordering), start);
        if hasItemWithUniquePosition then position.Some? && scan == Marker(offset, position.value)
        else scan == NoMarker && offset == |page|
    {
      ghost var keys := Positions(page, ordering);
      var compare := start;
      offset, position, hasItemWithUniquePosition := 0, None, false;

      var i := 0;
      assert keys[i..] == keys;
      while i < |page| && !hasItemWithUniquePosition
        invariant 0 <= i <= |page|
        invariant !hasItemWithUniquePosition ==>
          offset == i && ScanFront(keys, start) == Passed(offset, ScanFront(keys[i..], compare))
        invariant hasItemWithUniquePosition ==>
          position.Some? && page != [] && ScanFront(keys, start) == Marker(offset, position.value)
        decreases |page| - i, !hasItemWithUniquePosition
      {
        position := Some(Key(page[i], ordering));
        if position != compare {
          hasItemWithUniquePosition := true;
        } else {
          assert keys[i..][1..] == keys[i + 1..];
          compare := position;
          offset := offset + 1;
          i := i + 1;
        }
      }
    }

    /** The previous cursor, or None: the link is its encoding. */
    method GetPreviousLink() returns (link: Option<string>)
      requires ordering != [] && Readable(Attributes())
      ensures var previous := PreviousLink(Attributes(), pageSize);
        link == if previous.Some? then Some(Wire.EncodeCursor(previous.value)) else None
    {
      hide Wire.EncodeCursor;
      if !hasPrevious {
        return None;
      }
      var compare := previousPosition.position;
      if page != [] && cursor.Some? && !cursor.value.reverse && cursor.value.offset != 0 {
        compare := Some(Key(page[0], ordering));
      }
      var hasItemWithUniquePosition, offset, position := SeekFront(compare);
      if page != [] && !hasItemWithUniquePosition {
        if !hasNext {
          offset, position := pageSize, None;
        } else if cursor.value.reverse {
          offset, position := cursor.value.offset + pageSize, nextPosition.position;
        } else {
          offset, position := 0, nextPosition.position;
        }
      }
      if page == [] {
        position := previousPosition.position;
      }
      link := Some(Wire.EncodeCursor(Cursor(offset, true, position)));
    }
  }
}
