/** `encode_cursor` and `decode_cursor`: query string and base64, with the library codecs. */
module CursorText {
  import opened Prelude
  import opened Text
  import opened CursorLinks
  import Base64

  // ----- urllib: quoting, urlencode and parse_qs.  Text stands for its UTF-8 bytes. -----

  predicate IsSafe(c: char) {
    'a' <= c <= 'z' || 'A' <= c <= 'Z' || '0' <= c <= '9' || c == '_' || c == '.' || c == '-' || c == '~'
  }

  function HexDigit(d: nat): char
    requires d < 16
  {
    if d < 10 then '0' + d as char else 'A' + (d - 10) as char
  }

  function HexValue(c: char): Option<nat> {
    if '0' <= c <= '9' then Some(c as int - '0' as int)
    else if 'A' <= c <= 'F' then Some(c as int - 'A' as int + 10)
    else if 'a' <= c <= 'f' then Some(c as int - 'a' as int + 10)
    else None
  }

  /** `quote_plus` */
  function Quote(s: string): string
    requires IsBytes(s)
  {
    if s == "" then ""
    else
      (if IsSafe(s[0]) then [s[0]]
       else if s[0] == ' ' then "+"
       else ['%', HexDigit(s[0] as int / 16), HexDigit(s[0] as int % 16)])
      + Quote(s[1..])
  }

  /** `unquote(s.replace('+', ' '))`: an escape that is not two hexadecimal digits stays as it is. */
  function Unquote(s: string): string {
    if s == "" then ""
    else if s[0] == '%' && |s| >= 3 && HexValue(s[1]).Some? && HexValue(s[2]).Some?
    then [(HexValue(s[1]).value * 16 + HexValue(s[2]).value) as char] + Unquote(s[3..])
    else [if s[0] == '+' then ' ' else s[0]] + Unquote(s[1..])
  }

  datatype Field = Field(name: string, value: string)

  predicate FieldsAreBytes(fields: seq<Field>) {
    forall i :: 0 <= i < |fields| ==> IsBytes(fields[i].name) && IsBytes(fields[i].value)
  }

  function QuotedFields(fields: seq<Field>): (parts: seq<string>)
    requires FieldsAreBytes(fields)
    ensures |parts| == |fields|
  {
    if fields == [] then []
    else [Quote(fields[0].name) + "=" + Quote(fields[0].value)] + QuotedFields(fields[1..])
  }

  /** `parse.urlencode` */
  function UrlEncode(fields: seq<Field>): string
    requires FieldsAreBytes(fields)
  {
    Join(QuotedFields(fields), '&')
  }

  /** One `name=value` item; without an equals sign the value is blank. */
  function ParseItem(item: string): Field {
    var parts := Split(item, '=');
    Field(Unquote(parts[0]), Unquote(Join(parts[1..], '=')))
  }

  function ParseItems(items: seq<string>): seq<Field> {
    if items == [] then []
    else if items[0] == "" then ParseItems(items[1..])
    else [ParseItem(items[0])] + ParseItems(items[1..])
  }

  /** `parse.parse_qs(..., keep_blank_values=True)`, as the list of items in order */
  function ParseQs(s: string): seq<Field> {
    ParseItems(Split(s, '&'))
  }

  /** `tokens.get(name, [default])[0]` */
  function First(fields: seq<Field>, name: string): Option<string> {
    if fields == [] then None
    else if fields[0].name == name then Some(fields[0].value)
    else First(fields[1..], name)
  }

  const UNQUOTED: string := Base64.ALPHABET[..62] + "_.-~"

  lemma UnquotedAreSafe(c: char)
    ensures IsSafe(c) <==> c in UNQUOTED
  {
    var letters := Base64.ALPHABET[..62];
    Base64.LetterOfAlphabet(0);
    assert "_.-~"[0] == '_' && "_.-~"[1] == '.' && "_.-~"[2] == '-' && "_.-~"[3] == '~';
    Base64.LetterOfValue(c);
    var v := Base64.LetterValue(c);
    if v.Some? {
      Base64.LetterOfAlphabet(v.value);
      if v.value < 62 { assert letters[v.value] == c; }
    }
    if c in letters {
      var n :| 0 <= n < 62 && letters[n] == c;
      Base64.LetterOfAlphabet(n);
    }
  }

  lemma HexDigits(d: nat)
    requires d < 16
    ensures HexDigit(d) == "0123456789ABCDEF"[d]
  {
  }

  /** Characters are quoted one by one: letters, digits and four others as they are, a blank as a plus
      sign, and everything else as two upper-case hexadecimal digits. */
  lemma QuoteOne(c: char)
    requires c as int < 256
    ensures var hex := "0123456789ABCDEF";
      Quote([c]) == if c in UNQUOTED then [c]
                    else if c == ' ' then "+" else ['%', hex[c as int / 16], hex[c as int % 16]]
  {
    UnquotedAreSafe(c);
    hide UNQUOTED, IsSafe;
    HexDigits(c as int / 16);
    HexDigits(c as int % 16);
    assert [c][1..] == "" && Quote("") == "";
  }

  lemma {:induction false} QuoteEach(s: string, t: string)
    requires IsBytes(s) && IsBytes(t)
    ensures Quote(s + t) == Quote(s) + Quote(t)
  {
    if s == "" {
      assert s + t == t;
    } else {
      assert (s + t)[1..] == s[1..] + t;
      QuoteEach(s[1..], t);
    }
  }

  lemma {:induction false} QuoteIsPlain(s: string)
    requires IsBytes(s)
    ensures IsAscii(Quote(s)) && '&' !in Quote(s) && '=' !in Quote(s)
  {
    if s != "" { QuoteIsPlain(s[1..]); }
  }

  lemma HexRoundTrip(c: char)
    requires c as int < 256
    ensures HexValue(HexDigit(c as int / 16)) == Some(c as int / 16)
    ensures HexValue(HexDigit(c as int % 16)) == Some(c as int % 16)
  {
  }

  /** Quoting loses nothing. */
  lemma {:induction false} UnquoteQuote(s: string)
    requires IsBytes(s)
    ensures Unquote(Quote(s)) == s
  {
    if s != "" {
      UnquoteQuote(s[1..]);
      HexRoundTrip(s[0]);
      var q := Quote(s);
      if IsSafe(s[0]) || s[0] == ' ' {
        assert q[1..] == Quote(s[1..]);
      } else {
        assert q[3..] == Quote(s[1..]);
        assert (s[0] as int / 16) * 16 + s[0] as int % 16 == s[0] as int;
      }
    }
  }

  lemma ParseItemQuoted(field: Field)
    requires IsBytes(field.name) && IsBytes(field.value)
    ensures ParseItem(Quote(field.name) + "=" + Quote(field.value)) == field
  {
    var n, v := Quote(field.name), Quote(field.value);
    QuoteIsPlain(field.name);
    QuoteIsPlain(field.value);
    SplitFirst(n, v, '=');
    SplitWithout(v, '=');
    assert Split(n + "=" + v, '=')[1..] == [v];
    UnquoteQuote(field.name);
    UnquoteQuote(field.value);
  }

  lemma {:induction false} ParseQuotedFields(fields: seq<Field>)
    requires FieldsAreBytes(fields)
    ensures ParseItems(QuotedFields(fields)) == fields
  {
    hide ParseItem, Quote;
    if fields != [] {
      ParseQuotedFields(fields[1..]);
      ParseItemQuoted(fields[0]);
      assert QuotedFields(fields)[1..] == QuotedFields(fields[1..]);
    }
  }

  lemma {:induction false} QuotedFieldsPlain(fields: seq<Field>, i: nat)
    requires FieldsAreBytes(fields) && i < |fields|
    ensures IsAscii(QuotedFields(fields)[i]) && '&' !in QuotedFields(fields)[i]
  {
    hide Quote;
    if i == 0 {
      QuoteIsPlain(fields[0].name);
      QuoteIsPlain(fields[0].value);
    } else {
      QuotedFieldsPlain(fields[1..], i - 1);
    }
  }

  lemma {:induction false} JoinIsAscii(parts: seq<string>)
    requires forall i :: 0 <= i < |parts| ==> IsAscii(parts[i])
    ensures IsAscii(Join(parts, '&'))
  {
    if |parts| > 1 { JoinIsAscii(parts[1..]); }
  }

  lemma EmptyQuery()
    ensures ParseItems(Split("", '&')) == []
  {
    assert Split("", '&') == [""];
  }

  /** Parsing an encoded query string gives the fields back, blank values included. */
  lemma ParseUrlEncoded(fields: seq<Field>)
    requires FieldsAreBytes(fields)
    ensures IsAscii(UrlEncode(fields))
    ensures ParseQs(UrlEncode(fields)) == fields
  {
    hide ParseItems, Quote;
    ParseQuotedFields(fields);
    var parts := QuotedFields(fields);
    forall i | 0 <= i < |parts|
      ensures IsAscii(parts[i]) && '&' !in parts[i]
    {
      QuotedFieldsPlain(fields, i);
    }
    JoinIsAscii(parts);
    if fields == [] {
      EmptyQuery();
    } else {
      SplitJoin(parts, '&');
    }
  }

  // ----- whatever a client may send -----

  /** A way to spell one character in a query string: itself, a plus sign for a blank, or an escape
      with two hexadecimal digits in either case. */
  datatype Spelling =
    | Plain(c: char)
    | Plus
    | Escape(high: nat, highLower: bool, low: nat, lowLower: bool)

  predicate Spells(spelling: Spelling) {
    match spelling
    case Plain(c) => c != '%' && c != '+' && c != '&' && c != '='
    case Plus => true
    case Escape(high, _, low, _) => high < 16 && low < 16
  }

  predicate AllSpell(spellings: seq<Spelling>) {
    forall i :: 0 <= i < |spellings| ==> Spells(spellings[i])
  }

  /** A hexadecimal digit in upper or lower case. */
  function HexText(n: nat, lower: bool): char
    requires n < 16
  {
    if n < 10 then '0' + n as char else (if lower then 'a' else 'A') + (n - 10) as char
  }

  function Spelt(spellings: seq<Spelling>): string
    requires AllSpell(spellings)
  {
    if spellings == [] then ""
    else
      (match spellings[0]
       case Plain(c) => [c]
       case Plus => "+"
       case Escape(high, highLower, low, lowLower) => ['%', HexText(high, highLower), HexText(low, lowLower)])
      + Spelt(spellings[1..])
  }

  function Meant(spellings: seq<Spelling>): string
    requires AllSpell(spellings)
  {
    if spellings == [] then ""
    else
      [match spellings[0]
       case Plain(c) => c
       case Plus => ' '
       case Escape(high, _, low, _) => (high * 16 + low) as char]
      + Meant(spellings[1..])
  }

  lemma HexTextValue(n: nat, lower: bool)
    requires n < 16
    ensures HexValue(HexText(n, lower)) == Some(n)
    ensures HexText(n, lower) != '&' && HexText(n, lower) != '='
  {
  }

  /** However the characters are spelt, unquoting gives what is meant. */
  lemma {:induction false} UnquoteSpelt(spellings: seq<Spelling>)
    requires AllSpell(spellings)
    ensures Unquote(Spelt(spellings)) == Meant(spellings)
    ensures '&' !in Spelt(spellings) && '=' !in Spelt(spellings)
  {
    if spellings != [] {
      UnquoteSpelt(spellings[1..]);
      var s := Spelt(spellings);
      match spellings[0] {
        case Escape(high, highLower, low, lowLower) =>
          HexTextValue(high, highLower);
          HexTextValue(low, lowLower);
          assert s[3..] == Spelt(spellings[1..]);
        case _ => assert s[1..] == Spelt(spellings[1..]);
      }
    }
  }

  lemma HexOf(c: char)
    requires HexValue(c).Some?
    ensures HexValue(c).value < 16 && c == HexText(HexValue(c).value, 'a' <= c <= 'f')
  {
  }

  /** The text goes on with two hexadecimal digits. */
  ghost predicate Escapes(rest: string) {
    exists m: nat, n: nat, a, b :: m < 16 && n < 16 && [HexText(m, a), HexText(n, b)] <= rest
  }

  lemma HexPair(rest: string)
    requires |rest| >= 2 && HexValue(rest[0]).Some? && HexValue(rest[1]).Some?
    ensures Escapes(rest)
  {
    HexOf(rest[0]);
    HexOf(rest[1]);
    var m, n := HexValue(rest[0]).value, HexValue(rest[1]).value;
    assert [HexText(m, 'a' <= rest[0] <= 'f'), HexText(n, 'a' <= rest[1] <= 'f')] <= rest;
  }

  /** A percent sign without two hexadecimal digits behind it stays what it is. */
  lemma StrayPercent(rest: string)
    requires !Escapes(rest)
    ensures Unquote("%" + rest) == "%" + Unquote(rest)
  {
    hide Escapes;
    assert ("%" + rest)[1..] == rest;
    if |rest| >= 2 && HexValue(rest[0]).Some? && HexValue(rest[1]).Some? { HexPair(rest); }
  }

  /** An item of a query string: nothing at all, a bare name, or a name and a value. */
  datatype QueryItem =
    | Nothing
    | Bare(name: seq<Spelling>)
    | Pair(name: seq<Spelling>, value: seq<Spelling>)

  predicate ItemSpells(item: QueryItem) {
    match item
    case Nothing => true
    case Bare(name) => AllSpell(name) && name != []
    case Pair(name, value) => AllSpell(name) && AllSpell(value)
  }

  function ItemText(item: QueryItem): string
    requires ItemSpells(item)
  {
    match item
    case Nothing => ""
    case Bare(name) => Spelt(name)
    case Pair(name, value) => Spelt(name) + "=" + Spelt(value)
  }

  function ItemTexts(items: seq<QueryItem>): (texts: seq<string>)
    requires forall i :: 0 <= i < |items| ==> ItemSpells(items[i])
    ensures |texts| == |items|
  {
    if items == [] then [] else [ItemText(items[0])] + ItemTexts(items[1..])
  }

  /** The field meant: a bare name has a blank value, and an empty item is none. */
  function ItemField(item: QueryItem): seq<Field>
    requires ItemSpells(item)
  {
    match item
    case Nothing => []
    case Bare(name) => [Field(Meant(name), "")]
    case Pair(name, value) => [Field(Meant(name), Meant(value))]
  }

  function ItemFields(items: seq<QueryItem>): seq<Field>
    requires forall i :: 0 <= i < |items| ==> ItemSpells(items[i])
  {
    if items == [] then [] else ItemField(items[0]) + ItemFields(items[1..])
  }

  lemma SpeltLength(spellings: seq<Spelling>)
    requires AllSpell(spellings) && spellings != []
    ensures Spelt(spellings) != ""
  {
  }

  lemma UnquoteEmpty()
    ensures Unquote("") == ""
  {
  }

  lemma ParseItemSpelt(item: QueryItem)
    requires ItemSpells(item)
    ensures '&' !in ItemText(item)
    ensures item.Nothing? <==> ItemText(item) == ""
    ensures item.Bare? ==> ParseItem(ItemText(item)) == Field(Meant(item.name), "")
    ensures item.Pair? ==> ParseItem(ItemText(item)) == Field(Meant(item.name), Meant(item.value))
  {
    hide Spelt, Meant, Unquote;
    match item {
      case Nothing =>
      case Bare(name) =>
        UnquoteSpelt(name);
        SplitWithout(Spelt(name), '=');
        SpeltLength(name);
        UnquoteEmpty();
      case Pair(name, value) =>
        UnquoteSpelt(name);
        UnquoteSpelt(value);
        SplitFirst(Spelt(name), Spelt(value), '=');
        SplitWithout(Spelt(value), '=');
        assert Split(ItemText(item), '=')[1..] == [Spelt(value)];
    }
  }

  lemma {:induction false} ParseItemsSpelt(items: seq<QueryItem>)
    requires forall i :: 0 <= i < |items| ==> ItemSpells(items[i])
    ensures ParseItems(ItemTexts(items)) == ItemFields(items)
    ensures forall i :: 0 <= i < |items| ==> '&' !in ItemTexts(items)[i]
  {
    hide ParseItem, ItemText, Spelt, Meant;
    if items != [] {
      ParseItemsSpelt(items[1..]);
      ParseItemSpelt(items[0]);
      assert ItemTexts(items)[1..] == ItemTexts(items[1..]);
    }
  }

  /** `parse_qs` reads every query string as it is meant, however it is spelt, the fields in order. */
  lemma ParseSpelt(items: seq<QueryItem>)
    requires items != [] && forall i :: 0 <= i < |items| ==> ItemSpells(items[i])
    ensures ParseQs(Join(ItemTexts(items), '&')) == ItemFields(items)
  {
    hide ParseItems, ItemTexts, ItemFields, Join;
    ParseItemsSpelt(items);
    SplitJoin(ItemTexts(items), '&');
  }

  /** `First` is the first field of the name, and None if there is none. */
  lemma {:induction false} FirstIsFirst(fields: seq<Field>, name: string)
    ensures First(fields, name).None? <==> forall i :: 0 <= i < |fields| ==> fields[i].name != name
    ensures First(fields, name).Some? ==>
      exists i :: 0 <= i < |fields| && fields[i] == Field(name, First(fields, name).value)
                  && forall j :: 0 <= j < i ==> fields[j].name != name
  {
    if fields != [] && fields[0].name != name {
      var rest := fields[1..];
      FirstIsFirst(rest, name);
      assert forall i :: 0 <= i < |rest| ==> rest[i] == fields[i + 1];
      assert forall i :: 0 < i < |fields| ==> fields[i] == rest[i - 1];
      if First(fields, name).Some? {
        var i :| 0 <= i < |rest| && rest[i] == Field(name, First(rest, name).value)
                 && forall j :: 0 <= j < i ==> rest[j].name != name;
        assert fields[i + 1] == rest[i];
      }
    }
  }

  // ----- the cursor on the wire -----

  /** A cursor with its position as text. */
  datatype WireCursor = WireCursor(offset: nat, reverse: bool, position: Option<string>)

  /** `_positive_int` on an integer text; `None` stands for ValueError. */
  function PositiveInt(text: string, strict: bool, cutoff: nat): (r: Option<nat>)
    ensures r.Some? && cutoff > 0 ==> r.value <= cutoff
  {
    match Int(text)
    case None => None
    case Some(n) =>
      if n < 0 || (n == 0 && strict) then None
      else if cutoff > 0 then Some(Min(n, cutoff)) else Some(n)
  }

  function Tokens(c: WireCursor): seq<Field> {
    (if c.offset != 0 then [Field("o", Str(c.offset))] else [])
    + (if c.reverse then [Field("r", "1")] else [])
    + (if c.position.Some? then [Field("p", c.position.value)] else [])
  }

  lemma TokensAreBytes(c: WireCursor)
    requires c.position.Some? ==> IsBytes(c.position.value)
    ensures FieldsAreBytes(Tokens(c))
  {
    StrIsDigits(c.offset);
    forall i | 0 <= i < |Tokens(c)|
      ensures IsBytes(Tokens(c)[i].name) && IsBytes(Tokens(c)[i].value)
    {
      if Tokens(c)[i].name == "o" { assert IsBytes(Str(c.offset)); }
    }
  }

  /** The cursor parameter `encode_cursor` puts into the link. */
  function Encode(c: WireCursor): string
    requires c.position.Some? ==> IsBytes(c.position.value)
  {
    TokensAreBytes(c);
    ParseUrlEncoded(Tokens(c));
    Base64.Encode(UrlEncode(Tokens(c)))
  }

  function GetOr(value: Option<string>, default: string): string {
    if value.Some? then value.value else default
  }

  /** `decode_cursor` on the cursor parameter; `None` stands for NotFound. */
  function Decode(encoded: string, cutoff: nat): Option<WireCursor> {
    if !IsAscii(encoded) then None
    else match Base64.Decode(encoded)
      case None => None
      case Some(query) =>
        if !IsAscii(query) then None
        else
          var tokens := ParseQs(query);
          var offset := PositiveInt(GetOr(First(tokens, "o"), "0"), false, cutoff);
          var reverse := Int(GetOr(First(tokens, "r"), "0"));
          if offset.None? || reverse.None? then None
          else Some(WireCursor(offset.value, reverse.value != 0, First(tokens, "p")))
  }

  lemma {:induction false} FirstAppend(a: seq<Field>, b: seq<Field>, name: string)
    ensures First(a + b, name) == if First(a, name).Some? then First(a, name) else First(b, name)
  {
    if a == [] {
      assert a + b == b;
    } else {
      assert (a + b)[1..] == a[1..] + b;
      FirstAppend(a[1..], b, name);
    }
  }

  lemma FirstTokens(c: WireCursor)
    ensures First(Tokens(c), "o") == if c.offset != 0 then Some(Str(c.offset)) else None
    ensures First(Tokens(c), "r") == if c.reverse then Some("1") else None
    ensures First(Tokens(c), "p") == c.position
  {
    var o, r, p := (if c.offset != 0 then [Field("o", Str(c.offset))] else []),
                   (if c.reverse then [Field("r", "1")] else []),
                   (if c.position.Some? then [Field("p", c.position.value)] else []);
    FirstAppend(o, r + p, "o"); FirstAppend(o, r + p, "r"); FirstAppend(o, r + p, "p");
    FirstAppend(r, p, "o"); FirstAppend(r, p, "r"); FirstAppend(r, p, "p");
    assert Tokens(c) == o + (r + p);
    assert "o" != "r" && "o" != "p" && "r" != "p";
  }

  lemma IntOfFlags()
    ensures Int("0") == Some(0) && Int("1") == Some(1)
  {
    IntOfStr(0);
    IntOfStr(1);
    assert StrInt(0) == "0" && StrInt(1) == "1";
  }

  /** Decoding an encoded cursor returns its direction and position, absent and blank positions
      kept apart, and its offset capped by the cutoff. */
  lemma DecodeEncode(c: WireCursor, cutoff: nat)
    requires c.position.Some? ==> IsBytes(c.position.value)
    ensures Decode(Encode(c), cutoff)
         == Some(c.(offset := if cutoff > 0 then Min(c.offset, cutoff) else c.offset))
  {
    hide Str, Int, UrlEncode, ParseQs, First, Tokens, IsAscii;
    TokensAreBytes(c);
    var query := UrlEncode(Tokens(c));
    ParseUrlEncoded(Tokens(c));
    AsciiIsBytes(query);
    Base64.DecodeEncode(query);
    Base64.EncodeIsAscii(query);
    FirstTokens(c);
    IntOfStr(c.offset);
    IntOfFlags();
  }

  // ----- integer positions -----

  lemma PositionIsBytes(c: Cursor)
    ensures c.position.Some? ==> IsBytes(StrInt(c.position.value))
  {
    if c.position.Some? {
      var n := c.position.value;
      StrIsDigits(if n < 0 then -n else n);
    }
  }

  /** `str(attr)` of an integer attribute, put on the wire. */
  function EncodeCursor(c: Cursor): string {
    var text := if c.position.Some? then Some(StrInt(c.position.value)) else None;
    PositionIsBytes(c);
    Encode(WireCursor(c.offset, c.reverse, text))
  }

  datatype Decoded =
    | NotFound                  // malformed cursor
    | BadPosition               // the position is no value of the ordering field: the query raises ValueError
    | Decoded(cursor: Cursor)

  function DecodeCursor(encoded: string, cutoff: nat): Decoded {
    match Decode(encoded, cutoff)
    case None => NotFound
    case Some(w) =>
      if w.position.None? then Decoded(Cursor(w.offset, w.reverse, None))
      else match Int(w.position.value)
        case None => BadPosition
        case Some(n) => Decoded(Cursor(w.offset, w.reverse, Some(n)))
  }

  /** Following a link is decoding what was encoded: only the clamp changes the cursor. */
  lemma FollowEncoded(c: Cursor, cutoff: nat)
    ensures DecodeCursor(EncodeCursor(c), cutoff) == Decoded(Clamp(c, cutoff))
  {
    hide Encode, Decode, Int, StrInt;
    PositionIsBytes(c);
    var text := if c.position.Some? then Some(StrInt(c.position.value)) else None;
    DecodeEncode(WireCursor(c.offset, c.reverse, text), cutoff);
    if c.position.Some? { IntOfStr(c.position.value); }
  }

  // ----- exactly which cursors are refused -----

  /** The field stands for the integer: its text does, or it is absent and the integer is 0. */
  predicate Stands(field: Option<string>, n: int) {
    if field.None? then n == 0 else Int(field.value) == Some(n)
  }

  /** The query string inside a cursor parameter, both of them ASCII. */
  predicate Carries(text: string, query: string) {
    && Base64.Decode(text) == Some(query)
    && (forall i :: 0 <= i < |text| ==> text[i] < '\U{0080}')
    && (forall i :: 0 <= i < |query| ==> query[i] < '\U{0080}')
  }

  /** The parameter carries a query string whose first offset is a natural number and whose first
      direction is an integer. */
  ghost predicate Acceptable(text: string, offset: nat, direction: int, position: Option<string>) {
    exists query ::
      && Carries(text, query)
      && Stands(First(ParseQs(query), "o"), offset)
      && Stands(First(ParseQs(query), "r"), direction)
      && First(ParseQs(query), "p") == position
  }

  /** A cursor parameter is refused exactly if it is not acceptable; otherwise the cursor has the first
      offset, capped, the first direction and the first position. */
  lemma DecodeExact(text: string, cutoff: nat)
    ensures Decode(text, cutoff).None? <==> forall n: nat, r, p :: !Acceptable(text, n, r, p)
    ensures forall n: nat, r, p :: Acceptable(text, n, r, p) ==>
      Decode(text, cutoff) == Some(WireCursor(if cutoff > 0 && n > cutoff then cutoff else n, r != 0, p))
  {
    hide ParseQs, First, Int;
    IntOfFlags();
    if Decode(text, cutoff).Some? {
      var query := Base64.Decode(text).value;
      var fields := ParseQs(query);
      assert Carries(text, query);
      var n := Int(GetOr(First(fields, "o"), "0")).value;
      var r := Int(GetOr(First(fields, "r"), "0")).value;
      assert Stands(First(fields, "o"), n) && Stands(First(fields, "r"), r);
      assert n >= 0 && Acceptable(text, n, r, First(fields, "p"));
    }
  }

  /** No reading of the parameter is acceptable. */
  ghost predicate Refused(text: string) {
    forall n: nat, r, p :: !Acceptable(text, n, r, p)
  }

  /** The parameter is acceptable, but its position is no integer. */
  ghost predicate Misplaced(text: string) {
    exists n: nat, r, p :: Acceptable(text, n, r, Some(p)) && Int(p).None?
  }

  predicate IsCursor(n: nat, r: int, p: Option<string>, cutoff: nat, c: Cursor) {
    && c.offset == (if cutoff > 0 && n > cutoff then cutoff else n)
    && c.reverse == (r != 0)
    && (if p.None? then c.position.None? else c.position.Some? && Int(p.value) == c.position)
  }

  /** The parameter stands for the cursor: its offset capped, any direction but 0 reversed. */
  ghost predicate StandsFor(text: string, cutoff: nat, c: Cursor) {
    exists n: nat, r, p :: Acceptable(text, n, r, p) && IsCursor(n, r, p, cutoff, c)
  }

  /** The three answers to a cursor parameter. */
  lemma DecodeCursorExact(text: string, cutoff: nat)
    ensures DecodeCursor(text, cutoff).NotFound? <==> Refused(text)
    ensures DecodeCursor(text, cutoff).BadPosition? <==> Misplaced(text)
    ensures forall c :: DecodeCursor(text, cutoff) == Decoded(c) <==> StandsFor(text, cutoff, c)
  {
    hide Decode, Int, Acceptable;
    DecodeExact(text, cutoff);
    if Decode(text, cutoff).Some? {
      var n: nat, r, p :| Acceptable(text, n, r, p);
      if DecodeCursor(text, cutoff).BadPosition? { assert Acceptable(text, n, r, Some(p.value)); }
      forall c
        ensures DecodeCursor(text, cutoff) == Decoded(c) <==> StandsFor(text, cutoff, c)
      {
        if DecodeCursor(text, cutoff) == Decoded(c) { assert IsCursor(n, r, p, cutoff, c); }
      }
    }
  }
}
