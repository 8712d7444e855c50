/** `DefaultContentNegotiation.select_renderer` and the precedence of media types. */
module Negotiation {
  import opened Prelude

  /** A parsed media type. */
  datatype MediaType = MediaType(mainType: string, subType: string, params: map<string, string>) {
    /** True if this media type satisfies the other one. */
    predicate Match(other: MediaType) {
      && (forall key :: key in params && key != "q" ==> key in other.params && other.params[key] == params[key])
      && !(subType != "*" && other.subType != "*" && other.subType != subType)
      && !(mainType != "*" && other.mainType != "*" && other.mainType != mainType)
    }

    /** How specific the media type is: 0 for any type up to 3 with parameters. */
    function Precedence(): (p: nat)
      ensures p <= 3
    {
      if mainType == "*" then 0
      else if subType == "*" then 1
      else if params == map[] || params.Keys == {"q"} then 2
      else 3
    }
  }

  // ----- what matching and specificity mean -----

  predicate SameOrAny(a: string, b: string) {
    a == b || a == "*" || b == "*"
  }

  /** A renderer's media type satisfies an accepted one: type and subtype are the same or one of them is
      a wildcard, and the accepted one repeats all its parameters except the quality value. */
  predicate Satisfies(m: MediaType, accepted: MediaType) {
    && SameOrAny(m.mainType, accepted.mainType) && SameOrAny(m.subType, accepted.subType)
    && forall key :: key in m.params ==> key == "q" || (key in accepted.params && accepted.params[key] == m.params[key])
  }

  lemma MatchExact(m: MediaType, accepted: MediaType)
    ensures m.Match(accepted) <==> Satisfies(m, accepted)
  {
  }

  predicate AnyType(m: MediaType) { m.mainType == "*" }

  predicate AnySubtype(m: MediaType) { m.mainType != "*" && m.subType == "*" }

  predicate Concrete(m: MediaType) { m.mainType != "*" && m.subType != "*" }

  /** A concrete type with a parameter other than the quality value. */
  predicate Detailed(m: MediaType) {
    Concrete(m) && exists key :: key in m.params && key != "q"
  }

  /** Detailed types come before the other concrete ones, these before types with any subtype, and these
      before any type. */
  predicate MoreSpecific(m: MediaType, n: MediaType) {
    || (Detailed(m) && !Detailed(n))
    || (Concrete(m) && !Concrete(n))
    || (AnySubtype(m) && AnyType(n))
  }

  lemma ParamsAre(m: MediaType)
    ensures (m.params == map[] || m.params.Keys == {"q"}) <==> forall key :: key in m.params ==> key == "q"
  {
    if forall key :: key in m.params ==> key == "q" {
      if m.params != map[] {
        var key :| key in m.params;
        assert m.params.Keys == {"q"};
      }
    } else {
      var key :| key in m.params && key != "q";
      assert key in m.params.Keys;
    }
  }

  lemma PrecedenceExact(m: MediaType, n: MediaType)
    ensures m.Precedence() > n.Precedence() <==> MoreSpecific(m, n)
  {
    ParamsAre(m);
    ParamsAre(n);
  }

  datatype Renderer = Renderer(name: string, mediaType: string, format: string)

  /** The accepted media type reported with the renderer. */
  datatype Accepted =
    | AsRequested(text: string)
    | Completed(mediaType: string, params: map<string, string>)

  datatype Selection = Selected(renderer: Renderer, accepted: Accepted) | NotAcceptable | NotFound

  /** `media_type_matches` on texts, with the library's header parser as a parameter. */
  predicate Matches(renderer: Renderer, text: string, parse: string -> MediaType) {
    parse(renderer.mediaType).Match(parse(text))
  }

  // ----- grouping by precedence -----

  ghost predicate IsLevel(level: set<string>, accepts: seq<string>, p: nat, parse: string -> MediaType) {
    forall text :: text in level <==> text in accepts && parse(text).Precedence() == p
  }

  /** `order_by_precedence` before empty sets are dropped: the most specific group first. */
  method OrderByPrecedence(accepts: seq<string>, parse: string -> MediaType) returns (ret: seq<set<string>>)
    ensures |ret| == 4
    ensures forall k :: 0 <= k < 4 ==> IsLevel(ret[k], accepts, 3 - k, parse)
  {
    ret := [{}, {}, {}, {}];
    var i := 0;
    while i < |accepts|
      invariant 0 <= i <= |accepts| && |ret| == 4
      invariant forall k :: 0 <= k < 4 ==> IsLevel(ret[k], accepts[..i], 3 - k, parse)
    {
      assert accepts[..i + 1] == accepts[..i] + [accepts[i]];
      var slot := 3 - parse(accepts[i]).Precedence();
      ret := ret[slot := ret[slot] + {accepts[i]}];
      i := i + 1;
    }
    assert accepts[..i] == accepts;
  }

  // ----- the choice -----

  /** Renderer `i` is the earliest that matches an entry of precedence `p`, and no renderer matches
      an entry of a higher precedence. */
  ghost predicate IsBest(renderers: seq<Renderer>, accepts: seq<string>, parse: string -> MediaType, i: nat, p: nat) {
    && i < |renderers|
    && (exists text :: text in accepts && parse(text).Precedence() == p && Matches(renderers[i], text, parse))
    && (forall j, text :: 0 <= j < |renderers| && text in accepts && Matches(renderers[j], text, parse) ==>
          parse(text).Precedence() < p || (parse(text).Precedence() == p && i <= j))
  }

  ghost predicate NothingMatches(renderers: seq<Renderer>, accepts: seq<string>, parse: string -> MediaType) {
    forall j, text :: 0 <= j < |renderers| && text in accepts ==> !Matches(renderers[j], text, parse)
  }

  function Report(renderer: Renderer, text: string, parse: string -> MediaType): Accepted {
    if parse(renderer.mediaType).Precedence() > parse(text).Precedence()
    then Completed(renderer.mediaType, parse(text).params) else AsRequested(text)
  }

  /** `filter_renderers` */
  function OfFormat(renderers: seq<Renderer>, format: string): seq<Renderer> {
    if renderers == [] then []
    else (if renderers[0].format == format then [renderers[0]] else []) + OfFormat(renderers[1..], format)
  }

  lemma {:induction false} OfFormatHolds(renderers: seq<Renderer>, format: string)
    ensures forall x :: x in OfFormat(renderers, format) <==> x in renderers && x.format == format
  {
    if renderers != [] {
      OfFormatHolds(renderers[1..], format);
      assert renderers == [renderers[0]] + renderers[1..];
    }
  }

  /** Filtering keeps the order. */
  lemma {:induction false} OfFormatInOrder(a: seq<Renderer>, b: seq<Renderer>, format: string)
    ensures OfFormat(a + b, format) == OfFormat(a, format) + OfFormat(b, format)
    ensures |a| == 1 ==> OfFormat(a, format) == if a[0].format == format then a else []
  {
    if a == [] {
      assert a + b == b;
    } else {
      assert (a + b)[1..] == a[1..] + b;
      OfFormatInOrder(a[1..], b, format);
    }
  }

  /** The outcome is as promised: the best renderer, with an entry of the winning precedence it
      matches; or no renderer at all when nothing matches. */
  ghost predicate Correct(s: Selection, renderers: seq<Renderer>, accepts: seq<string>, parse: string -> MediaType) {
    match s
    case Selected(renderer, accepted) =>
      exists i, text :: 0 <= i < |renderers| && text in accepts
        && IsBest(renderers, accepts, parse, i, parse(text).Precedence())
        && renderer == renderers[i] && Matches(renderer, text, parse)
        && accepted == Report(renderer, text, parse)
    case NotAcceptable => NothingMatches(renderers, accepts, parse)
    case NotFound => false
  }

  ghost predicate IsChoice(renderers: seq<Renderer>, accepts: seq<string>, parse: string -> MediaType,
                           i: nat, text: string)
    requires i < |renderers|
  {
    && Satisfies(parse(renderers[i].mediaType), parse(text))
    && forall j, other ::
         (0 <= j < |renderers| && other in accepts && Satisfies(parse(renderers[j].mediaType), parse(other))) ==>
           !MoreSpecific(parse(other), parse(text)) && (MoreSpecific(parse(text), parse(other)) || i <= j)
  }

  /** What a client may rely on: the renderer selected satisfies some entry; no renderer satisfies a more
      specific entry; and none before it satisfies an entry as specific as that.  Without a renderer,
      none satisfies any entry. */
  ghost predicate Chosen(s: Selection, renderers: seq<Renderer>, accepts: seq<string>, parse: string -> MediaType) {
    match s
    case Selected(renderer, accepted) =>
      exists i, text :: 0 <= i < |renderers| && text in accepts && IsChoice(renderers, accepts, parse, i, text)
        && renderer == renderers[i]
        && accepted == if MoreSpecific(parse(renderer.mediaType), parse(text))
                       then Completed(renderer.mediaType, parse(text).params) else AsRequested(text)
    case NotAcceptable =>
      forall j, text :: 0 <= j < |renderers| && text in accepts ==>
        !Satisfies(parse(renderers[j].mediaType), parse(text))
    case NotFound => false
  }

  lemma CorrectIsFound(s: Selection, renderers: seq<Renderer>, accepts: seq<string>, parse: string -> MediaType)
    requires Correct(s, renderers, accepts, parse)
    ensures s != NotFound
  {
  }

  lemma CorrectIsChosen(s: Selection, renderers: seq<Renderer>, accepts: seq<string>, parse: string -> MediaType)
    requires Correct(s, renderers, accepts, parse)
    ensures Chosen(s, renderers, accepts, parse)
  {
    hide Satisfies, MoreSpecific;
    forall j, text | 0 <= j < |renderers| && text in accepts
      ensures Matches(renderers[j], text, parse) <==> Satisfies(parse(renderers[j].mediaType), parse(text))
    {
      MatchExact(parse(renderers[j].mediaType), parse(text));
    }
    if s.Selected? {
      var i, text :| 0 <= i < |renderers| && text in accepts
        && IsBest(renderers, accepts, parse, i, parse(text).Precedence())
        && s.renderer == renderers[i] && Matches(s.renderer, text, parse)
        && s.accepted == Report(s.renderer, text, parse);
      PrecedenceExact(parse(s.renderer.mediaType), parse(text));
      forall j, other | 0 <= j < |renderers| && other in accepts
        && Satisfies(parse(renderers[j].mediaType), parse(other))
        ensures !MoreSpecific(parse(other), parse(text)) && (MoreSpecific(parse(text), parse(other)) || i <= j)
      {
        assert Matches(renderers[j], other, parse);
        PrecedenceExact(parse(other), parse(text));
        PrecedenceExact(parse(text), parse(other));
      }
      assert IsChoice(renderers, accepts, parse, i, text);
    }
  }

  /** The three loops: groups of entries, renderers, entries of the group. */
  method TryRenderers(candidates: seq<Renderer>, accepts: seq<string>, parse: string -> MediaType)
    returns (s: Selection)
    ensures Correct(s, candidates, accepts, parse)
  {
    hide Matches, Report;
    var levels := OrderByPrecedence(accepts, parse);
    var k := 0;
    while k < |levels|
      invariant 0 <= k <= |levels|
      invariant forall j, text :: 0 <= j < |candidates| && text in accepts && parse(text).Precedence() > 3 - k ==>
        !Matches(candidates[j], text, parse)
    {
      assert IsLevel(levels[k], accepts, 3 - k, parse);
      var j := 0;
      while j < |candidates|
        invariant 0 <= j <= |candidates|
        invariant forall i, text :: 0 <= i < j && text in levels[k] ==> !Matches(candidates[i], text, parse)
      {
        var remaining := levels[k];
        while remaining != {}
          invariant remaining <= levels[k]
          invariant forall text :: text in levels[k] && text !in remaining ==> !Matches(candidates[j], text, parse)
          decreases remaining
        {
          var text :| text in remaining;
          if Matches(candidates[j], text, parse) {
            assert IsBest(candidates, accepts, parse, j, 3 - k);
            return Selected(candidates[j], Report(candidates[j], text, parse));
          }
          remaining := remaining - {text};
        }
        j := j + 1;
      }
      k := k + 1;
    }
    s := NotAcceptable;
  }

  method SelectRenderer(renderers: seq<Renderer>, accepts: seq<string>, format: string, parse: string -> MediaType)
    returns (s: Selection)
    ensures s == NotFound <==> format != "" && forall r :: r in renderers ==> r.format != format
    ensures s != NotFound ==>
      var candidates := if format == "" then renderers else OfFormat(renderers, format);
      Correct(s, candidates, accepts, parse) && Chosen(s, candidates, accepts, parse)
  {
    hide Correct, Chosen;
    var candidates := renderers;
    if format != "" {
      candidates := OfFormat(renderers, format);
      OfFormatHolds(renderers, format);
      if candidates == [] {
        return NotFound;
      }
      assert candidates[0] in candidates;
    }
    s := TryRenderers(candidates, accepts, parse);
    CorrectIsFound(s, candidates, accepts, parse);
    CorrectIsChosen(s, candidates, accepts, parse);
  }

  // ----- what the choice does not depend on -----

  /** At most one renderer, at one precedence, is best. */
  lemma BestIsUnique(renderers: seq<Renderer>, accepts: seq<string>, parse: string -> MediaType, i: nat, p: nat,
                     j: nat, q: nat)
    requires IsBest(renderers, accepts, parse, i, p) && IsBest(renderers, accepts, parse, j, q)
    ensures i == j && p == q
  {
    var a :| a in accepts && parse(a).Precedence() == p && Matches(renderers[i], a, parse);
    var b :| b in accepts && parse(b).Precedence() == q && Matches(renderers[j], b, parse);
  }

  lemma SameEntries(renderers: seq<Renderer>, accepts: seq<string>, others: seq<string>, parse: string -> MediaType,
                    i: nat, p: nat)
    requires forall text :: text in accepts <==> text in others
    requires IsBest(renderers, others, parse, i, p)
    ensures IsBest(renderers, accepts, parse, i, p)
  {
  }

  /** Order and repetition of the Accept entries, and the order in which sets are walked, make no
      difference to the renderer chosen or to whether one is chosen. */
  lemma OrderInsensitive(renderers: seq<Renderer>, accepts: seq<string>, others: seq<string>,
                         parse: string -> MediaType, s: Selection, t: Selection)
    requires forall text :: text in accepts <==> text in others
    requires Correct(s, renderers, accepts, parse) && Correct(t, renderers, others, parse)
    ensures s.NotAcceptable? <==> t.NotAcceptable?
    ensures s.Selected? ==> s.renderer == t.renderer
  {
    if s.Selected? {
      var i, a :| 0 <= i < |renderers| && a in accepts
        && IsBest(renderers, accepts, parse, i, parse(a).Precedence())
        && s.renderer == renderers[i] && Matches(s.renderer, a, parse)
        && s.accepted == Report(s.renderer, a, parse);
      assert Matches(renderers[i], a, parse);
      if t.Selected? {
        var j, b :| 0 <= j < |renderers| && b in others
          && IsBest(renderers, others, parse, j, parse(b).Precedence())
          && t.renderer == renderers[j] && Matches(t.renderer, b, parse)
          && t.accepted == Report(t.renderer, b, parse);
        SameEntries(renderers, accepts, others, parse, j, parse(b).Precedence());
        BestIsUnique(renderers, accepts, parse, i, parse(a).Precedence(), j, parse(b).Precedence());
      }
    }
  }

  /** The media type without its quality value. */
  function WithoutQuality(m: MediaType): MediaType {
    m.(params := map key | key in m.params && key != "q" :: m.params[key])
  }

  lemma QualityIgnored(m: MediaType, other: MediaType)
    ensures m.Match(other) <==> m.Match(WithoutQuality(other))
    ensures WithoutQuality(m).Precedence() == m.Precedence()
  {
    var bare := WithoutQuality(m);
    if bare.params == map[] {
      forall key | key in m.params.Keys
        ensures key == "q"
      {
        assert key != "q" ==> key in bare.params;
      }
      if m.params != map[] {
        var key :| key in m.params;
        assert m.params.Keys == {"q"};
      }
    } else {
      var key :| key in bare.params;
      assert key in m.params.Keys && key != "q";
      assert "q" !in bare.params.Keys;
    }
  }

  /** There is no q-weighting: reading the Accept entries without their quality values leads to the
      same best renderer at the same precedence. */
  lemma QualityNeverWeighs(renderers: seq<Renderer>, accepts: seq<string>, parse: string -> MediaType,
                           bare: string -> MediaType, i: nat, p: nat)
    requires forall text :: text in accepts ==> bare(text) == WithoutQuality(parse(text))
    requires forall j :: 0 <= j < |renderers| ==> bare(renderers[j].mediaType) == parse(renderers[j].mediaType)
    ensures IsBest(renderers, accepts, bare, i, p) <==> IsBest(renderers, accepts, parse, i, p)
  {
    forall j, text | 0 <= j < |renderers| && text in accepts
      ensures Matches(renderers[j], text, bare) <==> Matches(renderers[j], text, parse)
      ensures bare(text).Precedence() == parse(text).Precedence()
    {
      QualityIgnored(parse(renderers[j].mediaType), parse(text));
      QualityIgnored(parse(text), parse(text));
    }
  }
}
