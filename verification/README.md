# A verified model of Django REST framework's core algorithms

The project models the parts of Django REST framework whose correctness cannot be read off a single
body, and proves what they promise over every input, every run or every reachable state:

* **Cursor pagination.** One request is a query on an ordered table that leaves attributes behind
  (`CursorPages`; `ColumnOrder` says what the order means for the columns); the links are functions of
  those attributes (`CursorLinks`); the class `CursorPagination` does the same step by step, with the
  loops of the source. A reverse cursor is shown to be a forward cursor on the reversed table, so every
  fact about one direction carries over to the other. The results are about whole runs: following
  `next` with ties (`CursorTraversal`), turning around (`CursorTurns`), arbitrary walks (`CursorWalks`),
  and following `next` while rows come and go (`CursorChanges`). `CursorClient` runs the class itself: a
  client that sends the links back as text sees what those results say. `CursorText` and `Base64` prove
  that a cursor survives being printed, form-encoded, base64-encoded and read back, and say exactly
  which texts are refused.
* **Limit and offset.** The page numbers tile the list (`LimitOffset`).
* **Throttling.** The trimmed history in an expiring cache makes exactly the decisions of the log of
  accepted requests (`Throttling`).
* **Serializers.** Trees of serializers, list fields, dictionary fields and leaves (`FieldTrees`): what
  validation and representation of every kind come to, branch by branch (`FieldContracts`), and that
  they are inverse (`ParsePrint`); batch errors stay aligned (`BatchValidation`); the loops and the
  in-place writes into nested dictionaries compute what the trees specify (`SerializerLoops`,
  `NestedDictionaries`). `Decimals` covers precision and quantization, `UniqueTogether` the validator as
  the guard of a table invariant.
* **Schemas and negotiation.** The link tree (`LinkTree`), the common path prefix (`CommonPaths`),
  nested sorts of the endpoints (`Endpoints`) and the choice of a renderer (`Negotiation`).

Code that changes things step by step is imperative here as well, and each such method is proved
against a specification function or a stated property; the lemmas are about those.

Conventions: a page size, cutoff or maximum of 0 stands for "not set", as both are falsy in the
source. An exception is a constructor of the result. A table is a sequence of rows; `OrderBy` sorts
it, and a table is well ordered when no two rows tie on the whole ordering tuple, so that the
database has no freedom left. The position of a row is the integer in its first ordering column,
standing for the text `str(attr)`; ties are rows with equal positions.

## Where the code does less than one might expect

Each of these is a lemma with a concrete input, or an exact condition:

* The capped offset of a decoded cursor makes a traversal repeat rows as soon as more rows than the
  cutoff tie in front of some page boundary; otherwise the traversal is exact
  (`CursorTraversal.TraversalIffClampFree`, `ClampRepeatsRow`). If more rows tie than the cutoff and a
  page together, the traversal never ends and part of the table is never shown; otherwise it ends and
  shows every row (`TraversalEndsIff`). Three tied rows are enough (`ThreeTiedRowsNeverEnd`).
* Turning around on a page with ties is exact if and only if a condition on the page and its edge
  holds (`CursorTurns.PreviousPageIff`, `NextPageIff`); the paging artifacts the source mentions are
  what that condition shuts out. From the last page of three tied rows, the previous link skips a row
  (`TurnSkipsRow`).
* With a rate of 0 no request is ever allowed, and yet the recommended wait is one duration
  (`Throttling.ZeroRateWait`).
* `UniqueTogetherValidator` turns down some updates that would keep the table unique: the row keeps a
  NULL in one constrained column and changes another, while a second row agrees with it, NULL
  matching NULL. The comment in the source says that validation is ignored if any field is None; the
  code looks only at the changed ones (`UniqueTogether.OverRejectionHappens`, `UpdateExact`).
* With a conditional constraint the same validator accepts an update that makes a row meet the
  condition, without changing its constrained values, next to a row that holds the same values
  (`UniqueTogether.SlipHappens`); an accepted update breaks the table in no other case
  (`UpdateSafeIff`).
* A batch drops an item without a trace when the item fails with an empty dictionary of errors
  (`BatchValidation.EmptyErrorsVanish`, `BatchExact`).
* A validator that raises a ValidationError with an empty list does not fail validation
  (`SerializerLoops.EmptyListPasses`, `AllMessagesRaised`).
* No schema is generated when every link belongs at the root of the link tree, since a node without
  children is an empty dictionary and counts as false (`LinkTree.GetSchema`, `RootLinkAlone`).
* Going to the previous page and then to the next one returns to the same offset only from offsets
  of at least one limit (`LimitOffset.LinksInvert`, `ShortStepBack`).

## Model

| member | source | states |
|---|---|---|
| Ordering.ReverseOrderingTwice | rest_framework/pagination.py:119-127 | Reversing an ordering tuple twice gives the tuple back, and reversal keeps it well formed. |
| Ordering.ReversedOrderBy | rest_framework/pagination.py:627-630 | On a table without ties on the whole tuple, the reversed ordering returns exactly the reverse of the rows. |
| Ordering.OrderByKeeps | rest_framework/pagination.py:627-630 | Sorting loses and duplicates no row. |
| ColumnOrder.OrderByColumns | rest_framework/pagination.py:627-630 | For columns named without a leading minus, ascending or descending: of any two sorted rows, the first column in which they differ has the smaller value first, or the greater one if it is descending. |
| ColumnOrder.FirstColumnSorted | rest_framework/pagination.py:627-630 | The values of the first column never fall, or never rise if it is descending. |
| ColumnOrder.PageInColumnOrder | rest_framework/pagination.py:611-658 | The rows of every page, forward or reverse, are rows of the table and sorted by the columns in the same way. |
| ColumnOrder.PageBeyondPosition | rest_framework/pagination.py:633-644 | A page behind a position holds only rows whose value in the first column lies strictly beyond it: greater or smaller as the directions of cursor and column say. |
| CursorPages.FilterIsSuffix | rest_framework/pagination.py:633-644 | For all four combinations of ascending or descending ordering and forward or reverse cursor, the position filter keeps exactly the rows strictly after the position in the active query order. |
| CursorPages.PaginateShows | rest_framework/pagination.py:611-679 | Whatever its cursor, a request shows a contiguous window of the ordered table, and its flags and positions are those of the rows around that window; what the order means for the columns is `ColumnOrder.OrderByColumns`. |
| CursorLinks.AssembleReadable | rest_framework/pagination.py:660-679 | The position attributes a link method may read have been set by the request, for every cursor and every result. |
| CursorLinks.MirrorPreviousLink | rest_framework/pagination.py:698-802 | The previous link of the mirrored state is the mirror of the next link: the two methods are one algorithm read from both ends. |
| CursorLinks.MirrorNextLink | rest_framework/pagination.py:698-802 | The same for the next link of the mirrored state. |
| CursorWindows.ForwardNextLink | rest_framework/pagination.py:698-749 | The next link of any forward page in closed form: the marker row and the number of ties skipped, or the old position with the offset moved on by a page. |
| CursorWindows.AdvanceForward | rest_framework/pagination.py:698-749 | Before it is clamped, the next link of a forward page starts exactly where the page ends, ties or not; an offset that counts the ties in front of the page keeps doing so. |
| CursorTraversal.ShortTiesAreClampFree | rest_framework/pagination.py:605-609 | Tie runs of at most cutoff + 1 rows, and any table without a cutoff, never make the clamp fire. |
| CursorTraversal.TraversalIffClampFree | rest_framework/pagination.py:611-749 | Following next links shows the consecutive pages of the table and then ends, if and only if no page boundary has more ties in front of it than the cutoff. |
| CursorTraversal.ClampRepeatsRow | rest_framework/pagination.py:846-869 | The first time the clamp fires, the page begins with a row already shown. |
| CursorTraversal.FullTraversal | rest_framework/pagination.py:611-749 | If no page boundary has more ties in front of it than the cutoff, following next links returns every row exactly once, in order, in exactly max(1, ceil(n / page size)) requests. |
| CursorTraversal.ShortTiesTraversal | rest_framework/pagination.py:605-749 | The same for tie runs of at most cutoff + 1 rows, and for every table without a cutoff. |
| CursorTraversal.TraversalEndsIff | rest_framework/pagination.py:611-869 | Following next links comes to an end if and only if there is no cutoff or no run of ties is longer than the cutoff and a page together; and every row is shown at some time under exactly the same condition. |
| CursorTraversal.ThreeTiedRowsNeverEnd | rest_framework/pagination.py:611-869 | Over three tied rows, with pages and a cutoff of one row, the traversal is not exact and never ends. |
| CursorTraversal.RequestsIsCeiling | rest_framework/pagination.py:38-45 | The number of requests is the ceiling the source computes for page counts. |
| CursorTurns.TurnBack | rest_framework/pagination.py:751-802 | Where the page behind the previous link of a forward page ends, for all four ways the link comes about, clamp included. |
| CursorTurns.TurnForward | rest_framework/pagination.py:698-749 | The same for the next link of a reverse page. |
| CursorTurns.PreviousPageIff | rest_framework/pagination.py:751-802 | From a forward page with rows, the previous link shows exactly the rows in front of the page if and only if the cursor has no offset, or the page shows two positions and its edge ties fit the cutoff, or one of two conditions on all-tied pages holds. |
| CursorTurns.NextPageIff | rest_framework/pagination.py:698-749 | The same for the next link of a reverse page. |
| CursorTurns.TurnSkipsRow | rest_framework/pagination.py:779-786 | Over three tied rows, the second page of two shows the last row, and its previous link shows the first row alone. |
| CursorTurns.EmptyPageBack | rest_framework/pagination.py:798-802 | From an empty forward page behind a position, the previous link shows the last page of rows strictly in front of the position; without a position, the last rows of the table. |
| CursorTurns.EmptyPageForth | rest_framework/pagination.py:745-749 | From an empty reverse page, the next link shows the first page of rows strictly behind the position, or the first rows of the table. |
| CursorWalks.AnyMove | rest_framework/pagination.py:698-802 | One next or previous link, from a page reached in either direction, leads where the page counter goes, and exists exactly when the counter stays in range. |
| CursorWalks.WalksRefineCounter | rest_framework/pagination.py:660-802 | Any interleaving of next and previous links from the first page shows exactly the slice of the page counter, with both flags exact. |
| CursorWalks.DistinctRowsAreNavigable | rest_framework/pagination.py:660-802 | Tables with distinct positions meet the condition of the walk theorem for every page size and cutoff. |
| CursorChanges.NothingTwice | rest_framework/pagination.py:633-749 | However rows are inserted and deleted between requests, a later page continues strictly after every earlier one. |
| CursorChanges.NothingTwiceOnAPage | rest_framework/pagination.py:633-658 | The rows of one page are strictly ordered as well, so no position is returned twice. |
| CursorChanges.ChainGoesOn | rest_framework/pagination.py:698-749 | The chain goes on for exactly as long as the page shown says that there is a next one. |
| CursorChanges.ReturnedOrAhead | rest_framework/pagination.py:633-749 | The invariant of such a chain: a row present in every snapshot has been returned or lies after the last page. |
| CursorChanges.NothingMissed | rest_framework/pagination.py:633-749 | When the chain ends, every row present throughout has been returned. |
| CursorPaginator.CursorPagination.PaginateQueryset | rest_framework/pagination.py:611-686 | A cursor parameter is answered with NotFound if and only if it is not ASCII, is no base64, decodes to text that is not ASCII, or its first `o` is no natural number or its first `r` no integer. Otherwise page and attributes are those of the request for the capped first `o`, the first `r` and the first `p`, with 0, 0 and none for absent fields. Without a page, no attribute changes; the links may be read after a page. |
| CursorPaginator.CursorPagination.Load | rest_framework/pagination.py:624-658 | Ordering, filtering and fetching one row more give the page and attributes of the request function. |
| CursorPaginator.CursorPagination.Distribute | rest_framework/pagination.py:648-679 | The branches on direction set page, flags and positions as the specification says. |
| CursorPaginator.CursorPagination.GetPageSize | rest_framework/pagination.py:688-696 | A positive number of the client's wins, cut down to the maximum; without one the size is the configured one. |
| CursorPaginator.CursorPagination.SeekBack | rest_framework/pagination.py:708-724 | The loop finds the last row that differs from the one after it, and how many rows it passed. |
| CursorPaginator.CursorPagination.SeekFront | rest_framework/pagination.py:761-777 | The mirrored loop from the start of the page. |
| CursorPaginator.CursorPagination.GetNextLink | rest_framework/pagination.py:698-749 | The scan and its fallbacks compute the encoding of the specified next cursor. |
| CursorPaginator.CursorPagination.GetPreviousLink | rest_framework/pagination.py:751-802 | The same for the previous cursor. |
| CursorClient.FetchAll | rest_framework/pagination.py:611-885 | A client that sends the text of each next link back, to a new paginator each time, sees every row; if the clamp never fires it sees the ordered table itself, sorted by the columns the ordering names, in as many requests as there are pages. |
| CursorClient.Browse | rest_framework/pagination.py:611-885 | The same for any walk of next and previous links: it shows the page of the specified walk, and on a navigable table the slice of the page counter. |
| Text.IntOfStr | rest_framework/pagination.py:26-35 | Reading a printed integer gives it back, negative ones included. |
| Text.IntReads | rest_framework/pagination.py:26-35 | Blanks, a sign and digits with single underscores between them are read as the number of the digits. |
| Text.IntOnlyReads | rest_framework/pagination.py:26-35 | Nothing else is read as an integer. |
| Text.StrIsDigits | rest_framework/pagination.py:874-882 | A printed number consists of digits, without a zero in front of others. |
| CursorText.UnquoteQuote | rest_framework/pagination.py:871-885 | Form quoting loses nothing. |
| CursorText.QuoteOne | rest_framework/pagination.py:883-883 | Letters, digits and four other characters are quoted as they are, a blank as a plus sign, every other byte as two upper-case hexadecimal digits. |
| CursorText.QuoteEach | rest_framework/pagination.py:883-883 | Characters are quoted one by one. |
| CursorText.UnquoteSpelt | rest_framework/pagination.py:857-857 | However a text is spelt, with plus signs and escapes in either case, unquoting gives what is meant. |
| CursorText.StrayPercent | rest_framework/pagination.py:857-857 | A percent sign without two hexadecimal digits behind it stays as it is. |
| CursorText.ParseUrlEncoded | rest_framework/pagination.py:856-885 | Parsing an encoded query string gives its fields back, blank values included. |
| CursorText.ParseSpelt | rest_framework/pagination.py:857-857 | Any query string of empty items, bare names and pairs, however spelt, is read as the fields it means, in order. |
| CursorText.FirstIsFirst | rest_framework/pagination.py:859-865 | The value taken for a name is that of the first field of that name, and there is none exactly if no field has the name. |
| Base64.DecodeEncode | rest_framework/pagination.py:856-885 | Decoding encoded bytes gives them back (section 4 of RFC 4648). |
| Base64.EncodeThree | rest_framework/pagination.py:884-884 | Three bytes are encoded as the four letters of the alphabet that hold the same bits. |
| Base64.EncodeOne | rest_framework/pagination.py:884-884 | A single byte at the end is filled up with zero bits and padded with two characters. |
| Base64.EncodeTwo | rest_framework/pagination.py:884-884 | Two bytes at the end are filled up with zero bits and padded with one character. |
| Base64.ValueIsPlace | rest_framework/pagination.py:856-856 | A character stands for its place in the alphabet, and no other character for anything. |
| Base64.DecodeFour | rest_framework/pagination.py:856-856 | Any four letters are decoded as the three bytes that hold the same bits. |
| Base64.DecodeTwoLetters | rest_framework/pagination.py:856-856 | Two letters and two padding characters are one byte, left-over bits dropped, and nothing behind them is read. |
| Base64.DecodeThreeLetters | rest_framework/pagination.py:856-856 | Three letters and a padding character are two bytes, left-over bits dropped, and nothing behind them is read. |
| Base64.DecodeFails | rest_framework/pagination.py:856-867 | A text is no base64 if and only if its letters end within a group of four and no padding completes a group before. |
| Base64.DecodeIgnoresJunk | rest_framework/pagination.py:856-856 | A character outside the alphabet makes no difference, wherever it stands. |
| CursorText.DecodeEncode | rest_framework/pagination.py:846-885 | Decoding an encoded cursor returns its direction and its position, absent and blank kept apart, and its offset capped by the cutoff. |
| CursorText.DecodeExact | rest_framework/pagination.py:846-869 | Exactly which parameters are refused, and for the others the cursor in terms of the first fields `o`, `r` and `p` of the query string they carry. |
| CursorText.DecodeCursorExact | rest_framework/pagination.py:846-869 | The same with the position read as an integer: refused, misplaced, or the cursor the parameter stands for. |
| CursorText.FollowEncoded | rest_framework/pagination.py:846-885 | For integer positions, following a link is following its clamped cursor. |
| LimitOffset.CeilBounds | rest_framework/pagination.py:38-45 | The defining inequality of the ceiling, also for negative dividends. |
| LimitOffset.NumbersInRange | rest_framework/pagination.py:479-501 | For every count, limit and offset the assertions final >= current >= 1 hold. |
| LimitOffset.NumbersBehind | rest_framework/pagination.py:479-501 | At or behind the end of the list the final number is current, and it is the number of pages or one more; with a limit of 0 there is one page. |
| LimitOffset.PagesTile | rest_framework/pagination.py:479-511 | The current number links back to the current offset, each later page starts inside the list one limit after the one before, the final one reaches the end, and page 1 covers everything in front of page 2. |
| LimitOffset.LinksInvert | rest_framework/pagination.py:456-477 | Next then previous returns; previous then next returns if and only if a whole page lies in front. |
| LimitOffset.LinksLead | rest_framework/pagination.py:456-477 | There is a next link if and only if rows follow the page, and it continues right behind the page. There is a previous link if and only if the offset is positive; it leads one limit back, or to the start of the list, and carries no offset then. |
| LimitOffset.ShortStepBack | rest_framework/pagination.py:456-477 | Of ten rows in steps of five, going back from row 3 and on again leads to row 5. |
| LimitOffset.LimitOffsetPagination.PaginateQueryset | rest_framework/pagination.py:388-401 | The page is the slice at the offset read from the request, and nothing without a limit. |
| LimitOffset.LimitOffsetPagination.GetLimit | rest_framework/pagination.py:438-446 | The limit is the number of the client if it is positive, cut down to the maximum, and otherwise the default, for text that is no number as well. |
| LimitOffset.LimitOffsetPagination.GetOffset | rest_framework/pagination.py:448-454 | The offset is the number of the client if it is not negative, and otherwise 0. |
| Throttling.TrimIsWindow | rest_framework/throttling.py:126-129 | Popping only the tail of the history leaves exactly the accepted requests of the window, whatever older part of the log has been forgotten. |
| Throttling.WindowHolds | rest_framework/throttling.py:126-129 | The window holds each time of the log less than one duration ago, as often as the log does, and no other. |
| Throttling.WindowBounded | rest_framework/throttling.py:109-132 | No window of one duration, ending at any time, holds more accepted requests than the rate. |
| Throttling.ReadIsWindow | rest_framework/throttling.py:123-129 | An entry that expired and vanished makes no difference to what is read. |
| Throttling.WaitIsExact | rest_framework/throttling.py:149-162 | After a rejection the wait is positive and at most one duration, and a later request is accepted if and only if it does not come before now + wait. |
| Throttling.ZeroRateWait | rest_framework/throttling.py:149-162 | With a rate of 0 nothing is ever allowed, and yet a wait of one duration is recommended. |
| Throttling.RetryAfterIsEnough | rest_framework/exceptions.py:233-243 | The whole seconds reported are never too few, and less than one second too many. |
| Throttling.SimpleRateThrottle.AllowRequest | rest_framework/throttling.py:109-147 | The decision is that of the log of accepted requests, the log grows exactly by an accepted request, and the cache keeps remembering enough for every key; after a rejection the wait the object reports is honest. |
| Throttling.SimpleRateThrottle.RejectedWait | rest_framework/throttling.py:143-162 | Honest means: positive, at most one duration, and a later request on the key is allowed if and only if it does not come before now + wait. |
| Throttling.SimpleRateThrottle.Success | rest_framework/throttling.py:134-141 | Writing the history back keeps the cache invariant for every key. |
| Throttling.RateNeverExceeded | rest_framework/throttling.py:109-141 | In every reachable state of the shared cache, no window of any key ever held more than the rate. |
| NestedValues.GetAttribute | rest_framework/fields.py:92-116 | The loop reads along the path through mappings and objects, calls what is callable, turns a missing related object into None and a failing call into another exception. |
| NestedValues.ReadAlongTrail | rest_framework/fields.py:92-116 | What it reads, declared by the values met on the way: each is the entry or attribute found, or the result of calling it, up to the last attribute or to where a related object is missing, nothing is found, or a call fails. |
| NestedValues.ReadAlongIsLookup | rest_framework/fields.py:92-116 | On plain data that is the lookup along the path, failing exactly where a key is missing. |
| NestedValues.SetSucceeds | rest_framework/serializers.py:345-363 | Writing at a path fails if and only if a value on the way is no dictionary. |
| NestedValues.GetAfterSet | rest_framework/serializers.py:345-363 | What was written at a path is read back there. |
| NestedValues.SetElsewhere | rest_framework/serializers.py:345-363 | Writing at a path leaves every path alone that neither extends it nor is extended by it. |
| NestedValues.SettableElsewhere | rest_framework/serializers.py:345-363 | Writing at a path does not make such another path unwritable. |
| NestedDictionaries.Dictionary.SetValue | rest_framework/serializers.py:345-363 | The mutation of nested dictionary objects has the effect of the write on values, keeps them a tree, and changes nothing when it fails. |
| SerializerLoops.GatherFields | rest_framework/serializers.py:493-516 | The loop over the fields, writing into one nested dictionary, gathers what the field tree specifies. |
| SerializerLoops.ValidateField | rest_framework/serializers.py:498-505 | One field's validation, and if it succeeds the serializer's own method for that field: its value replaces the validated one, what it raises is the error. |
| SerializerLoops.FieldsToRepresentation | rest_framework/serializers.py:518-542 | The representation loop builds what the field tree specifies, skips and crashes included. |
| SerializerLoops.CollectValidatorErrors | rest_framework/fields.py:542-564 | The loop collects the messages of all validators, except that a dictionary of errors is raised at once. |
| SerializerLoops.FirstDictionaryWins | rest_framework/fields.py:549-562 | The first dictionary of errors is raised, whatever messages were collected before it or would follow. |
| SerializerLoops.AllMessagesRaised | rest_framework/fields.py:542-564 | Without a dictionary, exactly the messages of all validators are raised, in their order, and validation passes if and only if there are none. |
| SerializerLoops.EmptyListPasses | rest_framework/fields.py:542-564 | A validator that raises an empty list raises, and validation passes. |
| SerializerLoops.RunChildValidation | rest_framework/fields.py:1710-1724 | The list loop returns one value per item, or the errors of exactly the failing items by index. |
| SerializerLoops.BatchToInternalValue | rest_framework/serializers.py:690-705 | The batch loop returns the collected values, or one error entry per item if any of them is truthy. |
| FieldContracts.FieldValidated | rest_framework/fields.py:523-564 | A given value of a field that is no serializer is accepted if and only if its kind parses it and no validator raises a dictionary or a message for the parsed value. The parsed value is returned; what is raised is the error of the parser, the first dictionary, or else all the messages. |
| FieldContracts.SerializerValidated | rest_framework/serializers.py:434-455 | For serializers and batches `.validate()` must produce a value as well, and that value is returned; the errors of validators and of `.validate()` come as a dictionary, messages under one key and every entry a list or a dictionary. |
| FieldContracts.NotGiven | rest_framework/fields.py:487-521 | A field that was not given is skipped in a partial update, else an error if required, else its default, else skipped. |
| FieldContracts.NullGiven | rest_framework/fields.py:510-521 | A null is returned as it is if the field allows it, and is an error if not, whatever kind, validators and default say. |
| FieldContracts.LeafParses | rest_framework/fields.py:538-538 | A leaf is what its parser makes of the value, a lone message coming as a list. |
| FieldContracts.ListParses | rest_framework/fields.py:1692-1724 | A list field accepts exactly the lists whose items its child accepts, not empty unless allowed, and returns their values in order; otherwise each failing item, and no other, has its error under its index. |
| FieldContracts.DictParses | rest_framework/fields.py:1755-1788 | The same for a dictionary field and the keys of its entries. |
| FieldContracts.BatchParses | rest_framework/serializers.py:661-707 | A batch checks for a list, for emptiness, for its greatest and then its least length; it reports one error for each item if some item fails with a detail that is not empty, and otherwise returns the values of the accepted items, in order. |
| FieldContracts.SerializerParses | rest_framework/serializers.py:481-516 | A serializer accepts a dictionary if and only if every declared field is accepted or skipped and every value can be set at its source, one after the other; otherwise the errors are those of the failing fields under their names. |
| FieldContracts.ErrorOfField | rest_framework/serializers.py:499-509 | With one field for each name, the error under a name is that of its field. |
| FieldContracts.AttributeRead | rest_framework/fields.py:449-467 | A field reads the value at its source, else its default, which is skipped in a partial update, else null if it allows that; if none of these is there it is skipped unless it is required. |
| FieldContracts.ListPrints | rest_framework/fields.py:1704-1708 | A list prints item by item, or not at all; a list field lets nulls through, a batch does not. |
| FieldContracts.DictPrints | rest_framework/fields.py:1768-1772 | A dictionary field prints entry by entry, nulls let through. |
| FieldContracts.FieldsFail | rest_framework/serializers.py:518-542 | Printing a serializer fails if and only if some field that is not skipped has nothing to read or cannot print it. |
| FieldContracts.FieldKeys | rest_framework/serializers.py:518-542 | The printed keys are exactly the names of the fields that are not skipped. |
| FieldContracts.FieldPrints | rest_framework/serializers.py:518-542 | Each of them holds what its field prints, null for null. |
| ParsePrint.GatherReadsBack | rest_framework/serializers.py:481-516 | With prefix-free sources, after each round of the loop every field handled can be read back at its source and every other source is still free. |
| ParsePrint.ParseThenPrint | rest_framework/serializers.py:434-542 | For any nesting of serializers, lists, dictionaries and leaves with prefix-free sources, whatever validation makes of canonical data prints as that data again. |
| ParsePrint.FieldsParsePrint | rest_framework/serializers.py:481-542 | The same law for the declared fields of one serializer. |
| ParsePrint.ItemsParsePrint | rest_framework/fields.py:1704-1724 | The same law for the items of both list kinds. |
| ParsePrint.EntriesParsePrint | rest_framework/fields.py:1768-1788 | The same law for the entries of a dictionary field. |
| BatchValidation.FailuresAreTruthy | rest_framework/serializers.py:314-337 | If custom code raises no empty details, no ValidationError of the whole tree has an empty detail. |
| BatchValidation.BatchAligned | rest_framework/serializers.py:690-705 | Then a batch raises if and only if some item fails, its error list has the length of the input and is empty exactly at valid items, and success returns one result per item, in order. |
| BatchValidation.BatchExact | rest_framework/serializers.py:690-705 | Without that assumption: a batch raises if and only if some item fails with a detail that is not empty, and is complete if and only if nothing failed. |
| BatchValidation.EmptyErrorsVanish | rest_framework/serializers.py:690-705 | A serializer that fails with an empty dictionary of errors disappears from a batch. |
| UniqueTogether.Call | rest_framework/validators.py:173-203 | The validator reports missing fields on a create, and otherwise rejects exactly on the stated condition over the row as it will be stored, the constraint's own condition included. |
| UniqueTogether.EnforceRequiredFields | rest_framework/validators.py:124-138 | On a create, exactly the constrained and condition fields whose source is missing are reported, in order; on an update none. |
| UniqueTogether.MissingPositions | rest_framework/validators.py:124-138 | The fields reported stand at increasing positions of the list of constrained and then condition fields, and are exactly those whose source was not given. |
| UniqueTogether.FillAttrs | rest_framework/validators.py:140-162 | On an update every constrained attribute ends up as it will be stored, and nothing provided changes. |
| UniqueTogether.QuerysetHoldsTwins | rest_framework/validators.py:158-171 | The filtered rows without the instance are exactly the other rows that agree, NULL matching NULL. |
| UniqueTogether.CheckedValues | rest_framework/validators.py:179-191 | The checked values are exactly the values of all constrained columns on a create and of the changed ones on an update. |
| UniqueTogether.CreateExact | rest_framework/validators.py:124-203 | A create is accepted if and only if every constrained field and condition field is given and the table with the new row is unique. |
| UniqueTogether.UpdateSafeIff | rest_framework/validators.py:140-203 | An accepted update keeps the table unique, despite the values it skips, if and only if it does not make the row meet the condition, with its constrained values unchanged, next to a row that holds the same values. |
| UniqueTogether.UpdateExact | rest_framework/validators.py:140-203 | An update is accepted exactly if the table stays unique, except in that case and in the over-rejected one. |
| UniqueTogether.PlainUpdateExact | rest_framework/validators.py:140-203 | An update that leaves no NULL in the constrained columns and does not make the row meet the condition anew is accepted if and only if the table stays unique. |
| UniqueTogether.OverRejectionHappens | rest_framework/validators.py:182-200 | A concrete update that is turned down although the table would stay unique. |
| UniqueTogether.SlipHappens | rest_framework/validators.py:182-200 | A concrete update under a conditional constraint that is accepted although two rows then share a code. |
| UniqueTogether.WritesWhatStaysUnique | rest_framework/validators.py:124-203 | A create is written if and only if it is complete and keeps the table unique; so is an update that leaves no NULL and does not make the row meet the condition anew. |
| UniqueTogether.RunEndsWith | rest_framework/validators.py:173-203 | A run applies its operations one after the other, each validated against the table left by those before it. |
| UniqueTogether.RunStaysUnique | rest_framework/validators.py:173-203 | Over any run of creates and partial updates that leave the condition's fields alone, as all do without a condition, no two rows come to share all constrained values with none of them NULL. |
| Decimals.PrecisionExact | rest_framework/fields.py:1071-1104 | With both options set, the branches amount to two inequalities on exponent and digits. |
| Decimals.PrecisionReports | rest_framework/fields.py:1071-1104 | Which of the three errors is raised, in every combination of options: the digits in front of and behind the point count together, then those behind it, then those in front where both options are set. |
| Decimals.AcceptedInRange | rest_framework/fields.py:1071-1104 | An accepted decimal is a whole number of units of the last place and below the power of ten the options leave. |
| Decimals.AcceptedUnaltered | rest_framework/fields.py:1130-1144 | Quantizing an accepted decimal succeeds under every rounding mode, changes neither value nor sign, and passes the check again. |
| Decimals.QuantizeIsClose | rest_framework/fields.py:1130-1144 | Any decimal moves by less than one unit of the last place, by at most half a unit when rounding to the nearest. |
| Decimals.RescaleExact | rest_framework/fields.py:1130-1144 | The new coefficient: exact when there is nothing to round; otherwise each of the eight rounding modes keeps its promise on direction, distance and ties. |
| Decimals.QuantizeExact | rest_framework/fields.py:1130-1144 | The result has the configured places and keeps its sign; it fails if and only if it has more digits than `max_digits`, or than 28 without one. |
| Decimals.NoPlacesNoChange | rest_framework/fields.py:1134-1135 | Without decimal places nothing changes. |
| LinkTree.NumberedInjective | rest_framework/schemas/coreapi.py:71-71 | Different counter values give different keys. |
| LinkTree.LinkNode.GetAvailableKey | rest_framework/schemas/coreapi.py:63-73 | The preferred key if free; otherwise the first free key numbered from the counter on, and the counter of that key, and no other, stands behind it afterwards. |
| LinkTree.LinkNode.InsertInto | rest_framework/schemas/coreapi.py:76-98 | Insertion creates the missing nodes, appends one link at the path and changes nothing else in the tree; it fails exactly if a placed link stands in the way, and has then changed nothing. |
| LinkTree.LinkNode.DistributeLinks | rest_framework/schemas/coreapi.py:35-41 | Every node places each of its links under one key, no child node loses its key, and no link list changes. |
| LinkTree.LinkNode.TreeIsReal | rest_framework/schemas/coreapi.py:57-98 | The paths of the tree value of the contracts are exactly those at which walking finds a node; in each node the placed links stand under distinct keys, and no other links do. |
| LinkTree.GetLinks | rest_framework/schemas/coreapi.py:128-150 | After any sequence of insertions each node holds exactly the links inserted under its path, in order. |
| LinkTree.GetSchema | rest_framework/schemas/coreapi.py:152-170 | For every insertion, walking its path finds a node with that link under the preferred key or one numbered after it; each node has placed exactly the links of its path; there is no schema if and only if all links belong at the root. |
| LinkTree.RootLinkAlone | rest_framework/schemas/coreapi.py:152-170 | A single link at the root yields no schema. |
| CommonPaths.Between | rest_framework/schemas/coreapi.py:17-26 | A list between two others in the order shares every prefix the two share. |
| CommonPaths.NeverPastTheEnd | rest_framework/schemas/coreapi.py:22-23 | The comparison never indexes past the end of the greatest list. |
| CommonPaths.CommonParts | rest_framework/schemas/coreapi.py:17-26 | Comparing only the least and the greatest list finds the longest prefix common to all. |
| CommonPaths.CommonPath | rest_framework/schemas/coreapi.py:17-26 | The path returned is that prefix, joined. |
| CommonPaths.InitialComponents | rest_framework/schemas/coreapi.py:239-243 | The loop stops in front of the first path parameter. |
| CommonPaths.ComponentsExact | rest_framework/schemas/coreapi.py:238-238 | The components of a path are the texts between its slashes, slashes at either end not counting. |
| CommonPaths.AllowedExact | rest_framework/schemas/coreapi.py:239-244 | What may count as prefix of a path: components that begin it, with at least one more behind them, and no parameter among them or right behind them. |
| CommonPaths.DeterminePathPrefix | rest_framework/schemas/coreapi.py:221-250 | The early return happens exactly if some path allows no prefix; otherwise the prefix is the longest common one of what the paths allow. For paths without doubled slashes it consists of the longest run of components that may count as prefix of every path; every path that begins with a single slash begins with it. |
| CommonPaths.PrefixIsLongestAllowed | rest_framework/schemas/coreapi.py:221-250 | For paths without doubled slashes the components of the prefix, and what begins them, are exactly the components that begin every path in front of its last component and of the one before its first parameter. |
| CommonPaths.PrefixStartsEveryPath | rest_framework/schemas/coreapi.py:146-146 | The prefix cut off a path is really its beginning, for every path that begins with a single slash, doubled slashes further on or not. |
| Endpoints.StableSortIsStable | rest_framework/schemas/generators.py:36-45 | Sorting by method priority is a sort and keeps the order within each priority; what that means for the verbs is `SortedVerbs`. |
| Endpoints.StableSortUnique | rest_framework/schemas/generators.py:98-98 | These two facts determine the list. |
| Endpoints.SortedVerbs | rest_framework/schemas/generators.py:36-45 | In a sorted list every GET comes before every POST, those before every PUT, then PATCH, DELETE, and all other verbs. |
| Endpoints.DepthFirstHolds | rest_framework/schemas/generators.py:72-145 | The depth-first list holds exactly the endpoints that some pattern of the tree contributes: an API view with a schema, at a path without format suffix, one for each of its methods other than OPTIONS and HEAD. |
| Endpoints.AllowedInOrder | rest_framework/schemas/generators.py:132-145 | The allowed methods are those of the view without OPTIONS and HEAD, in their order. |
| Endpoints.GetApiEndpoints | rest_framework/schemas/generators.py:72-98 | Sorting at every level of the recursion gives the one stable sort of the depth-first list: GET before POST before PUT before PATCH before DELETE before all other verbs, the endpoints of each verb in depth-first order, and exactly those that some pattern of the tree contributes. |
| Negotiation.OrderByPrecedence | rest_framework/utils/mediatypes.py:27-41 | The four groups hold exactly the entries of their precedence, the highest first; what the precedence means is `PrecedenceExact`. |
| Negotiation.MatchExact | rest_framework/utils/mediatypes.py:50-62 | A media type satisfies another if and only if type and subtype are equal or one of them is a wildcard, and the other repeats all its parameters but the quality value. |
| Negotiation.PrecedenceExact | rest_framework/utils/mediatypes.py:64-75 | A concrete type with a parameter other than the quality value has precedence over other concrete ones, these over types with any subtype, and these over any type. |
| Negotiation.OfFormatInOrder | rest_framework/negotiation.py:80-89 | Filtering by format keeps exactly the renderers of the format, in their order. |
| Negotiation.SelectRenderer | rest_framework/negotiation.py:35-78 | Http404 exactly if the format leaves no renderer. Otherwise the renderer selected satisfies some entry, no renderer satisfies a more specific entry, and none before it satisfies an entry as specific; NotAcceptable exactly if no renderer satisfies any entry. The entry is reported as it is, or completed from a renderer that is more specific. |
| Negotiation.BestIsUnique | rest_framework/negotiation.py:53-56 | At most one renderer, at one precedence, is best. |
| Negotiation.OrderInsensitive | rest_framework/negotiation.py:53-78 | Order and repetition of the entries, and the order in which sets are walked, do not change the renderer chosen. |
| Negotiation.QualityNeverWeighs | rest_framework/utils/mediatypes.py:50-75 | Quality values (section 5.3.2 of RFC 7231) have no influence on the choice. |

## Left out

- The database: querysets are sequences. Collation, NULL ordering values (whose position text would be "None") and orderings the database leaves partly free are not modelled.
- Positions other than integers: `CursorText.DecodeEncode` is about any text, but the pagination results use integers for the position texts, so that the filter and the ordering agree by construction.
- Ordering items with more than one leading minus sign: `lstrip` would remove them all while the reversal removes one.
- UTF-8: text outside ASCII stands for its bytes in the form encoding. `int()` is modelled without non-ASCII digits and without the limit on the number of digits.
- Link URLs: a link is the encoded cursor or the offset it carries; building and replacing query parameters is not part of this model.
- Displayed page numbers and their breaks (`_get_displayed_page_numbers`): only its two assertions are covered. Page-number pagination, response bodies and schemas are left out.
- CursorPaginator.CursorPagination.PaginateQueryset: positions are integers here, so a cursor whose position is none cannot be stored; the source stores it before its query fails.
- CursorTurns.PreviousPageIff: covers pages with rows; empty pages link back by their position alone (`CursorTurns.EmptyPageBack`).
- CursorWalks.WalksRefineCounter: with ties it requires that both links fit at every page boundary; distinct positions always meet that.
- Rates: parsing a rate, changing it between requests, clocks that go backwards, identification of clients, and two requests on one key interleaving between reading and writing the cache. Times are real numbers, not floats.
- The read-only defaults a serializer adds before it runs the validators of a unique constraint; values are integers or NULL, conditions are true or false, never unknown, and database errors in a query do not occur.
- Fields: read-only and write-only fields, callable defaults, `source='*'`, HTML form input, and instances of Django's own ValidationError. Representation reads plain data, not objects. Error codes and translated texts are not modelled.
- ParsePrint.ParseThenPrint: about full, not partial, updates; data is canonical when leaves print as they were given, no undeclared key is given, a missing key belongs to an optional field without default and null, and batch items are not null.
- NestedDictionaries.Dictionary.SetValue: walks by recursion where the source reassigns a local variable; values are stored as objects apart from the dictionary.
- SerializerLoops.GatherFields: a nested value is allocated when it is stored; the source allocates it in the child's own loop.
- FieldTrees: the entry loop of a dictionary field and the recursion from a field into its children are functions; only the loops in `SerializerLoops` are imperative.
- Decimals: context limits on exponents, NaN and infinities, text parsing, localization and the normalizing of output.
- LinkTree.LinkNode.InsertInto: walks by recursion where the source reassigns a local variable; which exception is raised when a link stands in the way is not modelled, as it depends on the link's class.
- LinkTree.LinkNode.DistributeLinks: about a tree that has not been distributed before, as in the source.
- How keys, links and views are made in a schema, and which views the client may see.
- Endpoints.GetApiEndpoints: turning a regular expression into a path is a parameter; what the enumerator asks of a callback is a record.
- Negotiation.SelectRenderer: the header parser is a parameter, and the text of a completed media type is kept as its parts.
- Authentication, permissions, routers, parsers, renderers, views, filters, the browsable API, OpenAPI and all JavaScript: outside the algorithms above.
