/** Base64 (section 4 of RFC 4648): `b64encode`, and `b64decode` as the library reads it, skipping
    characters outside the alphabet.  Bytes and text are both sequences of characters. */
module Base64 {
  import opened Prelude
  import opened Text

  /** The base64 alphabet: A-Z, a-z, 0-9, plus and slash. */
  function Letter(n: nat): char
    requires n < 64
  {
    if n < 26 then 'A' + n as char
    else if n < 52 then 'a' + (n - 26) as char
    else if n < 62 then '0' + (n - 52) as char
    else if n == 62 then '+' else '/'
  }

  function LetterValue(c: char): (v: Option<nat>)
    ensures v.Some? ==> v.value < 64
  {
    if 'A' <= c <= 'Z' then Some(c as int - 'A' as int)
    else if 'a' <= c <= 'z' then Some(c as int - 'a' as int + 26)
    else if '0' <= c <= '9' then Some(c as int - '0' as int + 52)
    else if c == '+' then Some(62)
    else if c == '/' then Some(63)
    else None
  }

  function Quad(x: nat, y: nat, z: nat): string
    requires x < 256 && y < 256 && z < 256
  {
    [Letter(x / 4), Letter(x % 4 * 16 + y / 16), Letter(y % 16 * 4 + z / 64), Letter(z % 64)]
  }

  /** `b64encode` */
  function Encode(s: string): string
    requires IsBytes(s)
  {
    if s == "" then ""
    else if |s| == 1 then
      var x := s[0] as int;
      [Letter(x / 4), Letter(x % 4 * 16)] + "=="
    else if |s| == 2 then
      var x, y := s[0] as int, s[1] as int;
      [Letter(x / 4), Letter(x % 4 * 16 + y / 16), Letter(y % 16 * 4)] + "="
    else Quad(s[0] as int, s[1] as int, s[2] as int) + Encode(s[3..])
  }

  function Prepend(c: char, rest: Option<string>): Option<string> {
    if rest.Some? then Some([c] + rest.value) else None
  }

  /** The decoder's loop: `quad` characters of the current group read, `left` the bits they leave
      over, `pads` padding characters since.  `None` stands for binascii.Error. */
  function DecodeFrom(s: string, quad: nat, left: nat, pads: nat): Option<string>
    requires quad < 4 && left < 64 && (quad == 2 ==> left < 16) && (quad == 3 ==> left < 4)
  {
    if s == "" then (if quad == 0 then Some("") else None)
    else if s[0] == '=' then
      if quad >= 2 && quad + pads + 1 >= 4 then Some("")
      else DecodeFrom(s[1..], quad, left, if quad >= 2 then pads + 1 else pads)
    else match LetterValue(s[0])
      case None => DecodeFrom(s[1..], quad, left, pads)
      case Some(v) =>
        if quad == 0 then DecodeFrom(s[1..], 1, v, 0)
        else if quad == 1 then Prepend((left * 4 + v / 16) as char, DecodeFrom(s[1..], 2, v % 16, 0))
        else if quad == 2 then Prepend((left * 16 + v / 4) as char, DecodeFrom(s[1..], 3, v % 4, 0))
        else Prepend((left * 64 + v) as char, DecodeFrom(s[1..], 0, 0, 0))
  }

  /** `b64decode` of ASCII text */
  function Decode(s: string): Option<string> {
    DecodeFrom(s, 0, 0, 0)
  }

  lemma LetterRoundTrip(n: nat)
    requires n < 64
    ensures LetterValue(Letter(n)) == Some(n) && Letter(n) != '=' && Letter(n) as int < 128
  {
  }

  // ----- what a letter and a group of letters stand for -----

  const ALPHABET: string := "ABCDEFGHIJKLMNOPQRSTUVWXYZ" + "abcdefghijklmnopqrstuvwxyz" + "0123456789" + "+/"

  lemma Ranges(n: nat)
    ensures n < 26 ==> "ABCDEFGHIJKLMNOPQRSTUVWXYZ"[n] == 'A' + n as char
    ensures n < 26 ==> "abcdefghijklmnopqrstuvwxyz"[n] == 'a' + n as char
    ensures n < 10 ==> "0123456789"[n] == '0' + n as char
  {
  }

  lemma LetterOfAlphabet(n: nat)
    requires n < 64
    ensures |ALPHABET| == 64 && Letter(n) == ALPHABET[n]
  {
    if n < 26 { Ranges(n); } else if n < 52 { Ranges(n - 26); } else if n < 62 { Ranges(n - 52); }
  }

  lemma LetterOfValue(c: char)
    ensures LetterValue(c).Some? ==> Letter(LetterValue(c).value) == c
  {
  }

  /** A character stands for its place in the alphabet, and no other character for anything. */
  lemma ValueIsPlace(c: char, n: nat)
    ensures LetterValue(c) == Some(n) <==> n < |ALPHABET| && ALPHABET[n] == c
  {
    LetterOfAlphabet(0);
    if n < 64 {
      LetterOfAlphabet(n);
      LetterRoundTrip(n);
      LetterOfValue(c);
    }
  }

  /** Four letters of six bits hold three bytes. */
  lemma SameBits(x: nat, y: nat, z: nat) returns (a: nat, b: nat, c: nat, d: nat)
    requires x < 256 && y < 256 && z < 256
    ensures a < 64 && b < 64 && c < 64 && d < 64
    ensures ((a * 64 + b) * 64 + c) * 64 + d == (x * 256 + y) * 256 + z
    ensures Quad(x, y, z) == [Letter(a), Letter(b), Letter(c), Letter(d)]
  {
    hide Letter;
    a, b, c, d := x / 4, x % 4 * 16 + y / 16, y % 16 * 4 + z / 64, z % 64;
  }

  /** Each three bytes are encoded as the four letters that hold the same bits. */
  lemma EncodeThree(s: string) returns (a: nat, b: nat, c: nat, d: nat)
    requires IsBytes(s) && |s| >= 3
    ensures |ALPHABET| == 64 && a < 64 && b < 64 && c < 64 && d < 64
    ensures ((a * 64 + b) * 64 + c) * 64 + d == (s[0] as int * 256 + s[1] as int) * 256 + s[2] as int
    ensures Encode(s) == [ALPHABET[a], ALPHABET[b], ALPHABET[c], ALPHABET[d]] + Encode(s[3..])
  {
    hide Quad, Letter, ALPHABET;
    a, b, c, d := SameBits(s[0] as int, s[1] as int, s[2] as int);
    LetterOfAlphabet(a);
    LetterOfAlphabet(b);
    LetterOfAlphabet(c);
    LetterOfAlphabet(d);
  }

  lemma EncodeAsQuad(s: string)
    requires IsBytes(s) && |s| == 3
    ensures Encode(s) == Quad(s[0] as int, s[1] as int, s[2] as int)
  {
    hide Quad, Letter;
    assert s[3..] == "" && Encode("") == "";
  }

  /** One or two bytes at the end are filled up with zero bits, and the letters left out are padded. */
  lemma EncodeOne(s: string)
    requires IsBytes(s) && |s| == 1
    ensures var full := s + [0 as char, 0 as char];
      IsBytes(full) && |Encode(full)| == 4 && Encode(s) == Encode(full)[..2] + "=="
  {
    hide Letter;
    EncodeAsQuad(s + [0 as char, 0 as char]);
  }

  lemma EncodeTwo(s: string)
    requires IsBytes(s) && |s| == 2
    ensures var full := s + [0 as char];
      IsBytes(full) && |Encode(full)| == 4 && Encode(s) == Encode(full)[..3] + "="
  {
    hide Letter;
    EncodeAsQuad(s + [0 as char]);
  }

  // ----- decoding -----

  /** One letter read, in any state of the decoder. */
  lemma DecodeLetter(n: nat, rest: string, quad: nat, left: nat)
    requires n < 64 && quad < 4 && left < 64 && (quad == 2 ==> left < 16) && (quad == 3 ==> left < 4)
    ensures DecodeFrom([Letter(n)] + rest, quad, left, 0)
         == if quad == 0 then DecodeFrom(rest, 1, n, 0)
            else if quad == 1 then Prepend((left * 4 + n / 16) as char, DecodeFrom(rest, 2, n % 16, 0))
            else if quad == 2 then Prepend((left * 16 + n / 4) as char, DecodeFrom(rest, 3, n % 4, 0))
            else Prepend((left * 64 + n) as char, DecodeFrom(rest, 0, 0, 0))
  {
    LetterRoundTrip(n);
    assert ([Letter(n)] + rest)[1..] == rest;
  }

  /** Any four letters are decoded as the three bytes that hold the same bits. */
  lemma DecodeFour(a: nat, b: nat, c: nat, d: nat, rest: string) returns (x: nat, y: nat, z: nat)
    requires a < 64 && b < 64 && c < 64 && d < 64
    ensures x < 256 && y < 256 && z < 256
    ensures (x * 256 + y) * 256 + z == ((a * 64 + b) * 64 + c) * 64 + d
    ensures Decode([Letter(a), Letter(b), Letter(c), Letter(d)] + rest)
         == Prepend(x as char, Prepend(y as char, Prepend(z as char, Decode(rest))))
  {
    hide DecodeFrom, Letter, Prepend;
    x, y, z := a * 4 + b / 16, b % 16 * 16 + c / 4, c % 4 * 64 + d;
    assert [Letter(a), Letter(b), Letter(c), Letter(d)] + rest
        == [Letter(a)] + ([Letter(b)] + ([Letter(c)] + ([Letter(d)] + rest)));
    DecodeLetter(a, [Letter(b)] + ([Letter(c)] + ([Letter(d)] + rest)), 0, 0);
    DecodeLetter(b, [Letter(c)] + ([Letter(d)] + rest), 1, a);
    DecodeLetter(c, [Letter(d)] + rest, 2, b % 16);
    DecodeLetter(d, rest, 3, c % 4);
  }

  lemma DecodeCompleted(rest: string, left: nat)
    requires left < 16
    ensures DecodeFrom("==" + rest, 2, left, 0) == Some("")
    ensures left < 4 ==> DecodeFrom("=" + rest, 3, left, 0) == Some("")
  {
    assert ("==" + rest)[1..] == "=" + rest;
  }

  /** A padded group of two or three letters stands for one or two bytes, the bits left over being
      dropped, and whatever follows the padding is not read. */
  lemma DecodeTwoLetters(a: nat, b: nat, rest: string)
    requires a < 64 && b < 64
    ensures (a * 64 + b) / 16 < 256
    ensures Decode([Letter(a), Letter(b)] + ("==" + rest)) == Some([((a * 64 + b) / 16) as char])
  {
    hide DecodeFrom, Letter;
    assert [Letter(a), Letter(b)] + ("==" + rest) == [Letter(a)] + ([Letter(b)] + ("==" + rest));
    DecodeLetter(a, [Letter(b)] + ("==" + rest), 0, 0);
    DecodeLetter(b, "==" + rest, 1, a);
    DecodeCompleted(rest, b % 16);
    var x := (a * 64 + b) / 16;
    assert x == a * 4 + b / 16 && [x as char] + "" == [x as char];
  }

  lemma DecodeThreeLetters(a: nat, b: nat, c: nat, rest: string) returns (x: nat, y: nat)
    requires a < 64 && b < 64 && c < 64
    ensures x < 256 && y < 256 && x * 256 + y == ((a * 64 + b) * 64 + c) / 4
    ensures Decode([Letter(a), Letter(b), Letter(c)] + ("=" + rest)) == Some([x as char, y as char])
  {
    hide DecodeFrom, Letter;
    x, y := a * 4 + b / 16, b % 16 * 16 + c / 4;
    assert [Letter(a), Letter(b), Letter(c)] + ("=" + rest)
        == [Letter(a)] + ([Letter(b)] + ([Letter(c)] + ("=" + rest)));
    DecodeLetter(a, [Letter(b)] + ([Letter(c)] + ("=" + rest)), 0, 0);
    DecodeLetter(b, [Letter(c)] + ("=" + rest), 1, a);
    DecodeLetter(c, "=" + rest, 2, b % 16);
    DecodeCompleted(rest, c % 4);
    assert [x as char] + ([y as char] + "") == [x as char, y as char];
  }

  lemma SameBytes(x: nat, y: nat, z: nat, u: nat, v: nat, w: nat)
    requires x < 256 && y < 256 && z < 256 && u < 256 && v < 256 && w < 256
    requires (x * 256 + y) * 256 + z == (u * 256 + v) * 256 + w
    ensures x == u && y == v && z == w
  {
    assert x * 256 + y == u * 256 + v;
  }

  lemma DecodeQuad(x: nat, y: nat, z: nat, rest: string)
    requires x < 256 && y < 256 && z < 256
    ensures DecodeFrom(Quad(x, y, z) + rest, 0, 0, 0)
         == Prepend(x as char, Prepend(y as char, Prepend(z as char, DecodeFrom(rest, 0, 0, 0))))
  {
    hide DecodeFrom, Letter, Prepend, Quad;
    var a, b, c, d := SameBits(x, y, z);
    var u, v, w := DecodeFour(a, b, c, d, rest);
    SameBytes(x, y, z, u, v, w);
  }

  lemma DecodeOne(x: nat)
    requires x < 256
    ensures DecodeFrom([Letter(x / 4), Letter(x % 4 * 16)] + "==", 0, 0, 0) == Some([x as char])
  {
    hide DecodeFrom, Letter;
    DecodeTwoLetters(x / 4, x % 4 * 16, "");
    assert "==" + "" == "==";
  }

  lemma DecodeTwo(x: nat, y: nat)
    requires x < 256 && y < 256
    ensures DecodeFrom([Letter(x / 4), Letter(x % 4 * 16 + y / 16), Letter(y % 16 * 4)] + "=", 0, 0, 0)
         == Some([x as char, y as char])
  {
    hide DecodeFrom, Letter;
    var u, v := DecodeThreeLetters(x / 4, x % 4 * 16 + y / 16, y % 16 * 4, "");
    assert "=" + "" == "=";
  }

  lemma DecodeEmpty()
    ensures DecodeFrom("", 0, 0, 0) == Some("")
  {
  }

  /** Decoding what was encoded gives the bytes back. */
  lemma {:induction false} DecodeEncode(s: string)
    requires IsBytes(s)
    ensures Decode(Encode(s)) == Some(s)
  {
    hide DecodeFrom, Letter, Quad;
    if s == "" {
      DecodeEmpty();
    } else if |s| == 1 {
      DecodeOne(s[0] as int);
      assert [s[0]] == s;
    } else if |s| == 2 {
      DecodeTwo(s[0] as int, s[1] as int);
      assert [s[0], s[1]] == s;
    } else {
      DecodeEncode(s[3..]);
      DecodeQuad(s[0] as int, s[1] as int, s[2] as int, Encode(s[3..]));
      assert [s[0]] + ([s[1]] + ([s[2]] + s[3..])) == s;
    }
  }

  /** The encoding is ASCII. */
  lemma {:induction false} EncodeIsAscii(s: string)
    requires IsBytes(s)
    ensures IsAscii(Encode(s))
  {
    if |s| >= 3 { EncodeIsAscii(s[3..]); }
  }

  // ----- exactly which texts are base64 -----

  /** The number of letters of the alphabet. */
  function Letters(s: string): nat {
    if s == "" then 0 else (if LetterValue(s[0]).Some? then 1 else 0) + Letters(s[1..])
  }

  /** The number of padding characters since the last letter, after `pads` earlier ones. */
  function PadsSince(s: string, pads: nat): nat {
    if s == "" then pads
    else PadsSince(s[1..], if LetterValue(s[0]).Some? then 0 else if s[0] == '=' then pads + 1 else pads)
  }

  /** The padding character at `c` completes a group of two or three letters. */
  predicate CompletesAt(s: string, c: nat, quad: nat, pads: nat)
    requires c < |s|
  {
    var letters := (quad + Letters(s[..c])) % 4;
    s[c] == '=' && letters >= 2 && letters + PadsSince(s[..c], pads) + 1 >= 4
  }

  /** The text ends within a group of letters, and no padding has completed a group before. */
  ghost predicate Incomplete(s: string, quad: nat, pads: nat) {
    (quad + Letters(s)) % 4 != 0 && forall c :: 0 <= c < |s| ==> !CompletesAt(s, c, quad, pads)
  }

  lemma PadsStep(s: string, pads: nat)
    requires s != ""
    ensures PadsSince(s, pads)
         == PadsSince(s[1..], if LetterValue(s[0]).Some? then 0 else if s[0] == '=' then pads + 1 else pads)
  {
  }

  lemma LettersStep(s: string)
    requires s != ""
    ensures Letters(s) == (if LetterValue(s[0]).Some? then 1 else 0) + Letters(s[1..])
  {
  }

  lemma CompletesLater(s: string, c: nat, quad: nat, pads: nat)
    requires c + 1 < |s|
    ensures var letter := LetterValue(s[0]).Some?;
      CompletesAt(s, c + 1, quad, pads)
      <==> CompletesAt(s[1..], c, if letter then quad + 1 else quad,
                       if letter then 0 else if s[0] == '=' then pads + 1 else pads)
  {
    assert s[..c + 1][1..] == s[1..][..c];
    assert s[1..][c] == s[c + 1];
    hide PadsSince, Letters;
    PadsStep(s[..c + 1], pads);
    LettersStep(s[..c + 1]);
  }

  lemma IncompleteStep(s: string, quad: nat, pads: nat)
    requires s != ""
    ensures var letter := LetterValue(s[0]).Some?;
      Incomplete(s, quad, pads)
      <==> !CompletesAt(s, 0, quad, pads)
           && Incomplete(s[1..], if letter then quad + 1 else quad,
                         if letter then 0 else if s[0] == '=' then pads + 1 else pads)
  {
    hide CompletesAt, LetterValue, Letters;
    LettersStep(s);
    var letter := LetterValue(s[0]).Some?;
    var q, p := if letter then quad + 1 else quad, if letter then 0 else if s[0] == '=' then pads + 1 else pads;
    forall c: nat | c + 1 < |s|
      ensures CompletesAt(s, c + 1, quad, pads) <==> CompletesAt(s[1..], c, q, p)
    {
      CompletesLater(s, c, quad, pads);
    }
    if forall c :: 0 <= c < |s[1..]| ==> !CompletesAt(s[1..], c, q, p) {
      forall c | 1 <= c < |s|
        ensures !CompletesAt(s, c, quad, pads)
      {
        assert !CompletesAt(s[1..], c - 1, q, p);
      }
    }
    if forall c :: 0 <= c < |s| ==> !CompletesAt(s, c, quad, pads) {
      forall c | 0 <= c < |s[1..]|
        ensures !CompletesAt(s[1..], c, q, p)
      {
        assert !CompletesAt(s, c + 1, quad, pads);
      }
    }
  }

  lemma CompletesFirst(s: string, quad: nat, pads: nat)
    requires s != ""
    ensures CompletesAt(s, 0, quad, pads) <==> s[0] == '=' && quad % 4 >= 2 && quad % 4 + pads + 1 >= 4
  {
    assert s[..0] == "" && Letters("") == 0;
  }

  /** Only the position within the group counts. */
  lemma IncompleteWraps(s: string, q: nat, quad: nat, pads: nat)
    requires q == quad + 4
    ensures Incomplete(s, q, pads) <==> Incomplete(s, quad, pads)
  {
    assert (q + Letters(s)) % 4 == (quad + Letters(s)) % 4;
    forall c | 0 <= c < |s|
      ensures CompletesAt(s, c, q, pads) <==> CompletesAt(s, c, quad, pads)
    {
      assert (q + Letters(s[..c])) % 4 == (quad + Letters(s[..c])) % 4;
    }
  }

  /** Before the second letter of a group the padding does not count. */
  lemma {:induction false} IncompletePads(s: string, quad: nat, p: nat, pads: nat)
    requires quad < 2
    ensures Incomplete(s, quad, p) <==> Incomplete(s, quad, pads)
  {
    if s == "" {
      assert Incomplete(s, quad, p) <==> Incomplete(s, quad, pads);
    } else {
      hide Incomplete, CompletesAt, LetterValue;
      IncompleteStep(s, quad, p);
      IncompleteStep(s, quad, pads);
      CompletesFirst(s, quad, p);
      CompletesFirst(s, quad, pads);
      if LetterValue(s[0]).None? {
        var q, padding := if s[0] == '=' then p + 1 else p, if s[0] == '=' then pads + 1 else pads;
        IncompletePads(s[1..], quad, q, padding);
      }
    }
  }

  lemma {:induction false} DecodeFromFails(s: string, quad: nat, left: nat, pads: nat)
    requires quad < 4 && left < 64 && (quad == 2 ==> left < 16) && (quad == 3 ==> left < 4)
    ensures DecodeFrom(s, quad, left, pads).None? <==> Incomplete(s, quad, pads)
  {
    if s != "" {
      IncompleteStep(s, quad, pads);
      CompletesFirst(s, quad, pads);
      hide Incomplete, Letters, PadsSince, CompletesAt;
      if s[0] == '=' {
        if !(quad >= 2 && quad + pads + 1 >= 4) {
          DecodeFromFails(s[1..], quad, left, if quad >= 2 then pads + 1 else pads);
          if quad < 2 { IncompletePads(s[1..], quad, pads, pads + 1); }
        }
      } else if LetterValue(s[0]).None? {
        DecodeFromFails(s[1..], quad, left, pads);
      } else {
        var v := LetterValue(s[0]).value;
        IncompleteWraps(s[1..], 4, 0, 0);
        if quad == 0 { DecodeFromFails(s[1..], 1, v, 0); }
        else if quad == 1 { DecodeFromFails(s[1..], 2, v % 16, 0); }
        else if quad == 2 { DecodeFromFails(s[1..], 3, v % 4, 0); }
        else { DecodeFromFails(s[1..], 0, 0, 0); }
      }
    }
  }

  /** A text is no base64 exactly if it ends within a group of four letters and no padding has completed
      a group of two or three before; characters outside the alphabet do not count. */
  lemma DecodeFails(s: string)
    ensures Decode(s).None? <==>
      && Letters(s) % 4 != 0
      && forall c :: 0 <= c < |s| ==> !CompletesAt(s, c, 0, 0)
  {
    DecodeFromFails(s, 0, 0, 0);
  }

  /** A character outside the alphabet makes no difference wherever it stands. */
  lemma {:induction false} JunkIgnored(a: string, junk: char, b: string, quad: nat, left: nat, pads: nat)
    requires LetterValue(junk).None? && junk != '='
    requires quad < 4 && left < 64 && (quad == 2 ==> left < 16) && (quad == 3 ==> left < 4)
    ensures DecodeFrom(a + [junk] + b, quad, left, pads) == DecodeFrom(a + b, quad, left, pads)
  {
    hide LetterValue;
    var s := a + [junk] + b;
    if a == "" {
      assert s[1..] == b && a + b == b;
    } else {
      assert s[1..] == a[1..] + [junk] + b && (a + b)[1..] == a[1..] + b;
      if a[0] == '=' {
        JunkIgnored(a[1..], junk, b, quad, left, if quad >= 2 then pads + 1 else pads);
      } else if LetterValue(a[0]).None? {
        JunkIgnored(a[1..], junk, b, quad, left, pads);
      } else {
        var v := LetterValue(a[0]).value;
        var next := if quad == 0 then v else if quad == 1 then v % 16 else if quad == 2 then v % 4 else 0;
        JunkIgnored(a[1..], junk, b, (quad + 1) % 4, next, 0);
      }
    }
  }

  /** Texts with and without such a character decode alike. */
  lemma DecodeIgnoresJunk(a: string, junk: char, b: string)
    requires LetterValue(junk).None? && junk != '='
    ensures Decode(a + [junk] + b) == Decode(a + b)
  {
    JunkIgnored(a, junk, b, 0, 0, 0);
  }
}
