/** `LimitOffsetPagination`: links, page numbers and their ceiling arithmetic. */
module LimitOffset {
  import opened Prelude
  import opened Text
  import Wire = CursorText

  /** `a % b` and `a // b` for positive `b` agree with Python's on negative `a` as well. */
  function DivideWithCeil(a: int, b: int): int
    requires b > 0
  {
    if a % b != 0 then a / b + 1 else a / b
  }

  /** The defining property of the ceiling. */
  lemma CeilBounds(a: int, b: int)
    requires b > 0
    ensures var c := DivideWithCeil(a, b); (c - 1) * b < a <= c * b
  {
    var c := DivideWithCeil(a, b);
    assert a == a / b * b + a % b;
    assert (c - 1) * b == c * b - b;
    if a % b != 0 { assert (a / b + 1) * b == a / b * b + b; }
  }

  /** The page numbers and where each of them links to; no offset stands for the removed parameter. */
  datatype PageNumbers = PageNumbers(current: int, final: int)

  function Numbers(count: nat, limit: nat, offset: nat): PageNumbers {
    if limit == 0 then PageNumbers(1, 1)
    else
      var current := DivideWithCeil(offset, limit) + 1;
      var final := Max(DivideWithCeil(count - offset, limit) + DivideWithCeil(offset, limit), 1);
      PageNumbers(if current > final then final else current, final)
  }

  /** The offset a page number links to. */
  function PageOffset(number: int, count: nat, limit: nat, offset: nat): Option<int> {
    if number == 1 then None
    else Some(offset + (number - Numbers(count, limit, offset).current) * limit)
  }

  /** The offset the next request reads: a missing parameter counts as 0. */
  function LandsAt(link: Option<int>): int {
    if link.Some? then link.value else 0
  }

  lemma Negative(c: int, limit: nat)
    requires limit > 0 && c < 0
    ensures c * limit < 0
  {
  }

  /** The assertions `_get_displayed_page_numbers` makes about its arguments hold for every request. */
  lemma NumbersInRange(count: nat, limit: nat, offset: nat)
    ensures var n := Numbers(count, limit, offset); n.final >= n.current >= 1
  {
    if limit > 0 {
      CeilBounds(offset, limit);
      if DivideWithCeil(offset, limit) < 0 {
        Negative(DivideWithCeil(offset, limit), limit);
      }
    }
  }

  lemma Monotone(a: int, b: int, limit: nat)
    ensures a <= b ==> a * limit <= b * limit
  {
    if a <= b { assert b * limit - a * limit == (b - a) * limit; }
  }

  /** For an offset inside the table the clamp on `current` does not fire. */
  lemma NumbersInside(count: nat, limit: nat, offset: nat)
    requires limit >= 1 && offset < count
    ensures var n := Numbers(count, limit, offset);
      && n.current == DivideWithCeil(offset, limit) + 1
      && n.final == DivideWithCeil(count - offset, limit) + DivideWithCeil(offset, limit)
      && n.final >= n.current >= 1
  {
    CeilBounds(offset, limit);
    CeilBounds(count - offset, limit);
    var a, b := DivideWithCeil(count - offset, limit), DivideWithCeil(offset, limit);
    Monotone(a, 0, limit);
    if b < 0 { Negative(b, limit); }
  }

  /** Behind the end of the list the last page number is current, and it is the number of pages or one
      more.  Without a limit there is one page. */
  lemma NumbersBehind(count: nat, limit: nat, offset: nat)
    requires limit == 0 || offset >= count
    ensures var n := Numbers(count, limit, offset);
      && n.current == n.final
      && (limit == 0 ==> n.final == 1)
      && (limit > 0 ==> count <= n.final * limit && (n.final > 1 ==> (n.final - 2) * limit < count))
  {
    if limit > 0 {
      CeilBounds(offset, limit);
      CeilBounds(count - offset, limit);
      var a, b := DivideWithCeil(count - offset, limit), DivideWithCeil(offset, limit);
      hide DivideWithCeil;
      assert a * limit + b * limit == (a + b) * limit && (a - 1) * limit + (b - 1) * limit == (a + b - 2) * limit;
      Monotone(1, a, limit);
      Monotone(b, -1, limit);
      Monotone(a + b, 1, limit);
    }
  }

  function Destination(number: int, count: nat, limit: nat, offset: nat): int {
    LandsAt(PageOffset(number, count, limit, offset))
  }

  lemma CurrentLinksBack(count: nat, limit: nat, offset: nat)
    requires limit >= 1 && offset < count
    ensures Destination(Numbers(count, limit, offset).current, count, limit, offset) == offset
  {
    NumbersInside(count, limit, offset);
    CeilBounds(offset, limit);
  }

  lemma LaterPageInside(count: nat, limit: nat, offset: nat, number: int)
    requires limit >= 1 && offset < count
    requires 2 <= number <= Numbers(count, limit, offset).final
    ensures 0 < Destination(number, count, limit, offset) < count
  {
    NumbersInside(count, limit, offset);
    CeilBounds(offset, limit);
    CeilBounds(count - offset, limit);
    var c, d := DivideWithCeil(offset, limit), DivideWithCeil(count - offset, limit);
    hide DivideWithCeil;
    Monotone(1 - c, number - 1 - c, limit);
    Monotone(number - 1 - c, d - 1, limit);
    assert (1 - c) * limit == -((c - 1) * limit);
  }

  lemma PagesConsecutive(count: nat, limit: nat, offset: nat, number: int)
    requires limit >= 1 && offset < count
    requires 2 <= number < Numbers(count, limit, offset).final
    ensures Destination(number + 1, count, limit, offset) == Destination(number, count, limit, offset) + limit
  {
    var steps := number - Numbers(count, limit, offset).current;
    hide Numbers;
    assert (steps + 1) * limit == steps * limit + limit;
  }

  lemma OnlyPage(count: nat, limit: nat, offset: nat, c: int, d: int)
    requires limit >= 1 && offset < count && c + d == 1
    requires (c - 1) * limit < offset <= c * limit && (d - 1) * limit < count - offset <= d * limit
    ensures c == 0 && d == 1 && count <= limit
  {
    Monotone(c, -1, limit);
    Monotone(d, 0, limit);
  }

  lemma FinalPageReachesEnd(count: nat, limit: nat, offset: nat)
    requires limit >= 1 && offset < count
    ensures count <= Destination(Numbers(count, limit, offset).final, count, limit, offset) + limit
  {
    NumbersInside(count, limit, offset);
    CeilBounds(offset, limit);
    CeilBounds(count - offset, limit);
    var c, d := DivideWithCeil(offset, limit), DivideWithCeil(count - offset, limit);
    hide DivideWithCeil;
    assert (d - 1) * limit == d * limit - limit;
    if c + d == 1 { OnlyPage(count, limit, offset, c, d); }
  }

  lemma FirstPageCovers(count: nat, limit: nat, offset: nat)
    requires limit >= 1 && offset < count && Numbers(count, limit, offset).final >= 2
    ensures Destination(1, count, limit, offset) == 0
    ensures Destination(2, count, limit, offset) <= limit
  {
    NumbersInside(count, limit, offset);
    CeilBounds(offset, limit);
    var c := DivideWithCeil(offset, limit);
    hide DivideWithCeil;
    assert (1 - c) * limit == limit - c * limit;
  }

  /** The page numbers tile the list: the current number links back to the current offset, every
      later page starts inside the list and exactly one limit after the one before, the final page
      reaches the end, and page 1 covers everything in front of page 2. */
  lemma PagesTile(count: nat, limit: nat, offset: nat, number: int)
    requires limit >= 1 && offset < count
    requires 1 <= number <= Numbers(count, limit, offset).final
    ensures var n := Numbers(count, limit, offset);
      var at := Destination(number, count, limit, offset);
      && Destination(n.current, count, limit, offset) == offset
      && (number == 1 ==> at == 0)
      && (number >= 2 ==> 0 < at < count)
      && (2 <= number < n.final ==> Destination(number + 1, count, limit, offset) == at + limit)
      && (number == n.final ==> count <= at + limit)
      && (number == 2 ==> at <= limit)
  {
    CurrentLinksBack(count, limit, offset);
    FinalPageReachesEnd(count, limit, offset);
    if number >= 2 {
      LaterPageInside(count, limit, offset, number);
      FirstPageCovers(count, limit, offset);
      if number < Numbers(count, limit, offset).final { PagesConsecutive(count, limit, offset, number); }
    }
    hide Numbers;
  }

  // ----- next and previous -----

  /** `get_next_link`, as the offset it carries */
  function NextOffset(count: nat, limit: nat, offset: nat): Option<int> {
    if offset + limit >= count then None else Some(offset + limit)
  }

  /** `get_previous_link`: no link, or a link with or without an offset */
  function PreviousOffset(limit: nat, offset: nat): Option<Option<int>> {
    if offset <= 0 then None
    else if offset - limit <= 0 then Some(None)
    else Some(Some(offset - limit))
  }

  /** Next and then previous always returns; previous and then next returns exactly when a whole
      page lies in front, since a shorter step back is cut off at the start of the list. */
  lemma LinksInvert(count: nat, limit: nat, offset: nat)
    requires limit >= 1 && offset < count
    ensures NextOffset(count, limit, offset).Some? ==>
      var there := NextOffset(count, limit, offset).value;
      var back := PreviousOffset(limit, there);
      back.Some? && LandsAt(back.value) == offset
    ensures PreviousOffset(limit, offset).Some? ==>
      var there := LandsAt(PreviousOffset(limit, offset).value);
      && 0 <= there < count
      && (NextOffset(count, limit, there) == Some(offset) <==> offset >= limit)
  {
  }

  /** There is a next link exactly if rows follow the page, and its page continues right behind it.
      There is a previous link exactly if rows come before the page; its page begins a limit before it,
      or at the start of the list, without an offset, if no more than that come before. */
  lemma LinksLead<T>(rows: seq<T>, limit: nat, offset: nat)
    requires limit >= 1
    ensures var next := NextOffset(|rows|, limit, offset);
      && (next.Some? <==> Slice(rows, offset + limit, offset + limit + 1) != [])
      && (next.Some? ==> next.value >= 0)
      && (next.Some? ==>
            Slice(rows, offset, offset + limit) + Slice(rows, next.value, next.value + limit)
            == Slice(rows, offset, offset + 2 * limit))
    ensures var previous := PreviousOffset(limit, offset);
      && (previous.Some? <==> offset > 0)
      && (previous.Some? ==> LandsAt(previous.value) == Max(0, offset - limit))
      && (previous.Some? ==> (previous.value == None <==> offset <= limit))
  {
  }

  /** The cut-off is real: of ten rows in steps of five, going back from row 3 and on again leads to
      row 5. */
  lemma ShortStepBack()
    ensures PreviousOffset(5, 3) == Some(None) && LandsAt(None) == 0
    ensures NextOffset(10, 5, 0) == Some(5)
  {
  }

  class LimitOffsetPagination<T> {
    const defaultLimit: nat  // 0 stands for None
    const maxLimit: nat      // 0 stands for None

    var limit: nat
    var count: nat
    var offset: nat

    constructor (defaultLimit: nat, maxLimit: nat)
      ensures this.defaultLimit == defaultLimit && this.maxLimit == maxLimit
    {
      this.defaultLimit, this.maxLimit := defaultLimit, maxLimit;
      limit, count, offset := 0, 0, 0;
    }

    /** The client's number if it is positive, capped, or else the default. */
    function GetLimit(text: Option<string>): (limit: nat)
      ensures var asked := if text.Some? then Int(text.value) else None;
        if asked.Some? && asked.value > 0
        then
          && 0 < limit <= asked.value && (maxLimit > 0 ==> limit <= maxLimit)
          && (limit == asked.value || limit == maxLimit)
        else limit == defaultLimit
    {
      if text.None? then defaultLimit
      else match Wire.PositiveInt(text.value, true, maxLimit)
        case Some(n) => n
        case None => defaultLimit
    }

    /** The client's number unless it is negative, or else 0. */
    function GetOffset(text: Option<string>): (offset: nat)
      ensures text.Some? && Int(text.value).Some? && Int(text.value).value >= 0 ==> offset == Int(text.value).value
      ensures text.None? || Int(text.value).None? || Int(text.value).value < 0 ==> offset == 0
    {
      if text.None? then 0
      else match Wire.PositiveInt(text.value, false, 0)
        case Some(n) => n
        case None => 0
    }

    method PaginateQueryset(rows: seq<T>, limitText: Option<string>, offsetText: Option<string>)
      returns (page: Option<seq<T>>)
      modifies this
      ensures limit == GetLimit(limitText)
      ensures limit == 0 ==> page == None && count == old(count) && offset == old(offset)
      ensures limit > 0 ==>
        count == |rows| && offset == GetOffset(offsetText) && page == Some(Slice(rows, offset, offset + limit))
    {
      limit := GetLimit(limitText);
      if limit == 0 {
        return None;
      }
      count := |rows|;
      offset := GetOffset(offsetText);
      if count == 0 || offset > count {
        assert Slice(rows, offset, offset + limit) == [];
        return Some([]);
      }
      page := Some(Slice(rows, offset, offset + limit));
    }
  }
}
