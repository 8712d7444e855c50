/** The Python text primitives the modelled code relies on. */
module Text {
  import opened Prelude

  /** Bytes are characters below 256. */
  predicate IsBytes(s: string) {
    forall i :: 0 <= i < |s| ==> s[i] as int < 256
  }

  predicate IsAscii(s: string) {
    forall i :: 0 <= i < |s| ==> s[i] as int < 128
  }

  lemma AsciiIsBytes(s: string)
    requires IsAscii(s)
    ensures IsBytes(s)
  {
  }

  // ----- str.split and str.join on one separator character -----

  /** `s.split(sep)` */
  function Split(s: string, sep: char): (parts: seq<string>)
    ensures parts != []
  {
    if s == "" then [""]
    else if s[0] == sep then [""] + Split(s[1..], sep)
    else
      var rest := Split(s[1..], sep);
      [[s[0]] + rest[0]] + rest[1..]
  }

  /** `sep.join(parts)` */
  function Join(parts: seq<string>, sep: char): string {
    if parts == [] then ""
    else if |parts| == 1 then parts[0]
    else parts[0] + [sep] + Join(parts[1..], sep)
  }

  lemma {:induction false} SplitWithout(s: string, sep: char)
    requires sep !in s
    ensures Split(s, sep) == [s]
  {
    if s != "" {
      SplitWithout(s[1..], sep);
      assert [s[0]] + s[1..] == s;
    }
  }

  lemma {:induction false} SplitFirst(s: string, rest: string, sep: char)
    requires sep !in s
    ensures Split(s + [sep] + rest, sep) == [s] + Split(rest, sep)
  {
    var t := s + [sep] + rest;
    if s == "" {
      assert t[1..] == rest;
    } else {
      assert t[1..] == s[1..] + [sep] + rest;
      SplitFirst(s[1..], rest, sep);
      assert [s[0]] + s[1..] == s;
    }
  }

  /** Splitting what was joined gives the parts back, provided none contains the separator. */
  lemma {:induction false} SplitJoin(parts: seq<string>, sep: char)
    requires parts != [] && forall i :: 0 <= i < |parts| ==> sep !in parts[i]
    ensures Split(Join(parts, sep), sep) == parts
  {
    if |parts| == 1 {
      SplitWithout(parts[0], sep);
    } else {
      SplitFirst(parts[0], Join(parts[1..], sep), sep);
      SplitJoin(parts[1..], sep);
    }
  }

  /** Joining what was split gives the text back. */
  lemma {:induction false} JoinSplit(s: string, sep: char)
    ensures Join(Split(s, sep), sep) == s
  {
    if s != "" {
      JoinSplit(s[1..], sep);
      var rest := Split(s[1..], sep);
      if s[0] == sep {
        assert Split(s, sep)[1..] == rest;
        assert "" + [sep] + s[1..] == s;
      } else {
        assert Split(s, sep)[1..] == rest[1..];
        if |rest| > 1 {
          assert [s[0]] + rest[0] + [sep] + Join(rest[1..], sep) == [s[0]] + (rest[0] + [sep] + Join(rest[1..], sep));
        }
        assert [s[0]] + s[1..] == s;
      }
    }
  }

  /** No part of a split contains the separator. */
  lemma {:induction false} SplitParts(s: string, sep: char)
    ensures forall i :: 0 <= i < |Split(s, sep)| ==> sep !in Split(s, sep)[i]
  {
    if s != "" { SplitParts(s[1..], sep); }
  }

  // ----- str(int) and int(str) -----

  function Digit(d: nat): char
    requires d < 10
  {
    '0' + d as char
  }

  predicate IsDigit(c: char) { '0' <= c <= '9' }

  /** `str(n)` for a natural number */
  function Str(n: nat): string {
    if n < 10 then [Digit(n)] else Str(n / 10) + [Digit(n % 10)]
  }

  function StrInt(n: int): string {
    if n < 0 then "-" + Str(-n) else Str(n)
  }

  predicate IsSpace(c: char) {
    c == ' ' || '\t' <= c <= '\r'
  }

  function StripLeft(s: string): string {
    if s != "" && IsSpace(s[0]) then StripLeft(s[1..]) else s
  }

  function StripRight(s: string): string {
    if s != "" && IsSpace(s[|s| - 1]) then StripRight(s[..|s| - 1]) else s
  }

  /** Digits with single underscores between them; `ready` says a digit came just before. */
  function Digits(s: string, value: nat, ready: bool): Option<nat> {
    if s == "" then (if ready then Some(value) else None)
    else if IsDigit(s[0]) then Digits(s[1..], value * 10 + (s[0] as int - '0' as int), true)
    else if s[0] == '_' && ready then Digits(s[1..], value, false)
    else None
  }

  /** `int(s)`; `None` stands for ValueError */
  function Int(s: string): Option<int> {
    var t := StripRight(StripLeft(s));
    if t != "" && t[0] == '-' then
      (match Digits(t[1..], 0, false) case Some(n) => Some(0 - n as int) case None => None)
    else if t != "" && t[0] == '+' then Digits(t[1..], 0, false)
    else Digits(t, 0, false)
  }

  /** Digits only, and no zero in front of other digits. */
  lemma {:induction false} StrIsDigits(n: nat)
    ensures Str(n) != "" && forall i :: 0 <= i < |Str(n)| ==> IsDigit(Str(n)[i])
    ensures Str(n)[0] == '0' <==> n == 0
  {
    if n >= 10 { StrIsDigits(n / 10); }
  }

  lemma {:induction false} DigitsOfStr(n: nat, rest: string, ready: bool)
    ensures Digits(Str(n) + rest, 0, ready) == Digits(rest, n, true)
  {
    if n < 10 {
      assert (Str(n) + rest)[1..] == rest;
    } else {
      var d := [Digit(n % 10)];
      assert Str(n) + rest == Str(n / 10) + (d + rest);
      DigitsOfStr(n / 10, d + rest, ready);
      assert (d + rest)[1..] == rest;
    }
  }

  lemma StripStr(s: string)
    requires s != "" && !IsSpace(s[0]) && !IsSpace(s[|s| - 1])
    ensures StripRight(StripLeft(s)) == s
  {
  }

  /** `int(str(n)) == n` */
  lemma IntOfStr(n: int)
    ensures Int(StrInt(n)) == Some(n)
  {
    var m := if n < 0 then -n else n;
    StrIsDigits(m);
    StripStr(StrInt(n));
    DigitsOfStr(m, "", false);
    assert Str(m) + "" == Str(m);
    if n < 0 { assert StrInt(n)[1..] == Str(m); }
  }

  /** Different numbers have different texts. */
  lemma StrIntInjective(m: int, n: int)
    requires StrInt(m) == StrInt(n)
    ensures m == n
  {
    IntOfStr(m);
    IntOfStr(n);
  }

  // ----- exactly which texts are integers -----

  /** The characters around an integer that do not matter. */
  const BLANKS: string := " \t\n\U{000B}\U{000C}\r"

  predicate Blank(s: string) {
    forall i :: 0 <= i < |s| ==> s[i] in BLANKS
  }

  lemma SpacesAreBlanks(c: char)
    ensures IsSpace(c) <==> c in BLANKS
  {
    assert BLANKS[0] == ' ' && BLANKS[1] == '\t' && BLANKS[2] == '\n' && BLANKS[5] == '\r';
    assert BLANKS[3] as int == 11 && BLANKS[4] as int == 12;
  }

  /** Digits in which single underscores may stand between two digits. */
  ghost predicate DigitGroups(s: string) {
    && s != "" && IsDigit(s[0]) && IsDigit(s[|s| - 1])
    && (forall i :: 0 <= i < |s| ==> IsDigit(s[i]) || s[i] == '_')
    && (forall i, j :: 0 <= i && i + 1 == j < |s| ==> IsDigit(s[i]) || IsDigit(s[j]))
  }

  function WithoutUnderscores(s: string): string {
    if s == "" then "" else WithoutUnderscores(s[..|s| - 1]) + (if s[|s| - 1] == '_' then "" else [s[|s| - 1]])
  }

  /** The decimal place value of a text of digits. */
  function NumberOf(digits: string): int {
    if digits == "" then 0
    else NumberOf(digits[..|digits| - 1]) * 10 + (digits[|digits| - 1] as int - '0' as int)
  }

  /** What is left of digit groups, `ready` if a digit came just before. */
  ghost predicate GroupsAfter(s: string, ready: bool) {
    if s == "" then ready
    else
      && (IsDigit(s[0]) || ready) && IsDigit(s[|s| - 1])
      && (forall i :: 0 <= i < |s| ==> IsDigit(s[i]) || s[i] == '_')
      && (forall i, j :: 0 <= i && i + 1 == j < |s| ==> IsDigit(s[i]) || IsDigit(s[j]))
  }

  lemma GroupsTail(s: string, ready: bool)
    requires s != ""
    ensures GroupsAfter(s, ready)
       <==> (IsDigit(s[0]) && GroupsAfter(s[1..], true)) || (s[0] == '_' && ready && GroupsAfter(s[1..], false))
  {
    var t := s[1..];
    assert forall i :: 0 <= i < |t| ==> t[i] == s[i + 1];
    assert forall i :: 0 < i < |s| ==> s[i] == t[i - 1];
  }

  function ValueFrom(value: int, s: string): int
    decreases s
  {
    if s == "" then value
    else if s[0] == '_' then ValueFrom(value, s[1..])
    else ValueFrom(value * 10 + (s[0] as int - '0' as int), s[1..])
  }

  lemma {:induction false} DigitsExact(s: string, value: nat, ready: bool)
    ensures GroupsAfter(s, ready) ==> ValueFrom(value, s) >= 0 && Digits(s, value, ready) == Some(ValueFrom(value, s))
    ensures !GroupsAfter(s, ready) ==> Digits(s, value, ready) == None
  {
    if s != "" {
      GroupsTail(s, ready);
      hide GroupsAfter;
      if IsDigit(s[0]) {
        DigitsExact(s[1..], value * 10 + (s[0] as int - '0' as int), true);
      } else if s[0] == '_' && ready {
        DigitsExact(s[1..], value, false);
      }
    }
  }

  lemma {:induction false} ValueAppend(value: int, s: string, c: char)
    ensures ValueFrom(value, s + [c])
         == if c == '_' then ValueFrom(value, s) else ValueFrom(value, s) * 10 + (c as int - '0' as int)
    decreases s
  {
    if s == "" {
      assert s + [c] == [c] && [c][1..] == "";
    } else {
      assert (s + [c])[1..] == s[1..] + [c];
      ValueAppend(if s[0] == '_' then value else value * 10 + (s[0] as int - '0' as int), s[1..], c);
    }
  }

  lemma {:induction false} ValueIsNumber(s: string)
    ensures ValueFrom(0, s) == NumberOf(WithoutUnderscores(s))
  {
    if s != "" {
      var init, c := s[..|s| - 1], s[|s| - 1];
      assert s == init + [c];
      ValueAppend(0, init, c);
      ValueIsNumber(init);
      if c != '_' {
        var digits := WithoutUnderscores(s);
        assert digits[..|digits| - 1] == WithoutUnderscores(init);
      } else {
        assert WithoutUnderscores(s) == WithoutUnderscores(init);
      }
    }
  }

  lemma {:induction false} StripBefore(before: string, s: string)
    requires Blank(before) && s != "" && !IsSpace(s[0])
    ensures StripLeft(before + s) == s
  {
    if before == "" {
      assert before + s == s;
    } else {
      SpacesAreBlanks(before[0]);
      hide IsSpace;
      assert (before + s)[1..] == before[1..] + s;
      StripBefore(before[1..], s);
    }
  }

  lemma {:induction false} StripAfter(s: string, after: string)
    requires Blank(after) && s != "" && !IsSpace(s[|s| - 1])
    ensures StripRight(s + after) == s
  {
    if after == "" {
      assert s + after == s;
    } else {
      var init := after[..|after| - 1];
      SpacesAreBlanks(after[|after| - 1]);
      hide IsSpace;
      assert (s + after)[..|s + after| - 1] == s + init;
      StripAfter(s, init);
    }
  }

  /** Every spelling of an integer is read: blanks, a sign, and digits with single underscores. */
  lemma IntReads(before: string, sign: string, groups: string, after: string)
    requires Blank(before) && Blank(after) && sign in {"", "+", "-"} && DigitGroups(groups)
    ensures var n := NumberOf(WithoutUnderscores(groups));
      n >= 0 && Int(before + sign + groups + after) == Some(if sign == "-" then 0 - n else n)
  {
    hide Digits, WithoutUnderscores, NumberOf;
    var s := sign + groups;
    assert before + sign + groups + after == before + (s + after);
    assert s[|s| - 1] == groups[|groups| - 1] && (s + after)[0] == s[0];
    StripBefore(before, s + after);
    StripAfter(s, after);
    DigitsExact(groups, 0, false);
    ValueIsNumber(groups);
    if sign == "" { assert s == groups; } else { assert s[1..] == groups; }
  }

  lemma {:induction false} StripRightParts(s: string) returns (after: string)
    ensures Blank(after) && s == StripRight(s) + after
  {
    if s != "" && IsSpace(s[|s| - 1]) {
      SpacesAreBlanks(s[|s| - 1]);
      after := StripRightParts(s[..|s| - 1]);
      after := after + [s[|s| - 1]];
    } else {
      after := "";
    }
  }

  lemma {:induction false} StripParts(s: string) returns (before: string, after: string)
    ensures Blank(before) && Blank(after) && s == before + StripRight(StripLeft(s)) + after
  {
    if s != "" && IsSpace(s[0]) {
      SpacesAreBlanks(s[0]);
      before, after := StripParts(s[1..]);
      before := [s[0]] + before;
    } else {
      before := "";
      after := StripRightParts(s);
      assert s == before + StripRight(s) + after;
    }
  }

  lemma SignedParts(t: string) returns (sign: string, groups: string)
    requires if t != "" && (t[0] == '-' || t[0] == '+') then Digits(t[1..], 0, false).Some?
        else Digits(t, 0, false).Some?
    ensures sign in {"", "+", "-"} && DigitGroups(groups) && t == sign + groups
  {
    hide Digits;
    sign := if t != "" && (t[0] == '-' || t[0] == '+') then [t[0]] else "";
    groups := t[|sign|..];
    DigitsExact(groups, 0, false);
  }

  /** And nothing else is read as an integer. */
  lemma IntOnlyReads(s: string) returns (before: string, sign: string, groups: string, after: string)
    requires Int(s).Some?
    ensures Blank(before) && Blank(after) && sign in {"", "+", "-"} && DigitGroups(groups)
    ensures s == before + sign + groups + after
  {
    hide Digits, StripLeft, StripRight, DigitGroups;
    before, after := StripParts(s);
    sign, groups := SignedParts(StripRight(StripLeft(s)));
  }
}
