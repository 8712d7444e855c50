/** `EndpointEnumerator.get_api_endpoints`: nested stable sorts of the endpoints of a URL tree. */
module Endpoints {
  /** What the enumerator asks of a view callback. */
  datatype Callback = Callback(isApiView: bool, hasSchema: bool, hasInitSchema: bool, methods: seq<string>)

  datatype Pattern =
    | URLPattern(regex: string, callback: Callback)
    | URLResolver(regex: string, patterns: seq<Pattern>)

  datatype Endpoint = Endpoint(path: string, verb: string, callback: Callback)

  /** `endpoint_ordering` */
  function Priority(e: Endpoint): nat {
    if e.verb == "GET" then 0
    else if e.verb == "POST" then 1
    else if e.verb == "PUT" then 2
    else if e.verb == "PATCH" then 3
    else if e.verb == "DELETE" then 4
    else 5
  }

  // ----- stable sorting by priority -----

  ghost predicate Sorted(s: seq<Endpoint>) {
    forall i, j :: 0 <= i < j < |s| ==> Priority(s[i]) <= Priority(s[j])
  }

  function Insert(e: Endpoint, s: seq<Endpoint>): seq<Endpoint> {
    if s == [] || Priority(e) <= Priority(s[0]) then [e] + s else [s[0]] + Insert(e, s[1..])
  }

  /** `sorted(s, key=endpoint_ordering)`, which keeps the order of equal keys. */
  function StableSort(s: seq<Endpoint>): seq<Endpoint> {
    if s == [] then [] else Insert(s[0], StableSort(s[1..]))
  }

  /** The endpoints of one priority, in their order. */
  function Of(s: seq<Endpoint>, p: nat): seq<Endpoint> {
    if s == [] then []
    else if Priority(s[0]) == p then [s[0]] + Of(s[1..], p)
    else Of(s[1..], p)
  }

  /** Both lists hold the same endpoints in the same order within each priority. */
  ghost predicate SameOrder(s: seq<Endpoint>, t: seq<Endpoint>) {
    forall p: nat :: Of(s, p) == Of(t, p)
  }

  lemma {:induction false} OfAppend(s: seq<Endpoint>, t: seq<Endpoint>, p: nat)
    ensures Of(s + t, p) == Of(s, p) + Of(t, p)
  {
    hide Priority;
    if s == [] {
      assert s + t == t;
    } else {
      assert (s + t)[1..] == s[1..] + t;
      OfAppend(s[1..], t, p);
    }
  }

  lemma {:induction false} OfInsert(e: Endpoint, s: seq<Endpoint>, p: nat)
    ensures Of(Insert(e, s), p) == if Priority(e) == p then [e] + Of(s, p) else Of(s, p)
  {
    hide Priority;
    if s == [] || Priority(e) <= Priority(s[0]) {
      assert ([e] + s)[1..] == s;
    } else {
      OfInsert(e, s[1..], p);
      assert Insert(e, s)[1..] == Insert(e, s[1..]);
    }
  }

  lemma {:induction false} InsertSorted(e: Endpoint, s: seq<Endpoint>)
    requires Sorted(s)
    ensures Sorted(Insert(e, s))
    ensures forall x :: x in Insert(e, s) ==> x == e || x in s
  {
    hide Priority;
    if s != [] && Priority(e) > Priority(s[0]) {
      InsertSorted(e, s[1..]);
      var r := Insert(e, s[1..]);
      forall i | 0 <= i < |r|
        ensures Priority(s[0]) <= Priority(r[i])
      {
        assert r[i] in r;
        if r[i] != e {
          var j :| 0 <= j < |s[1..]| && s[1..][j] == r[i];
          assert s[j + 1] == r[i];
        }
      }
    }
  }

  /** The sort is a sort, and stable. */
  lemma {:induction false} StableSortIsStable(s: seq<Endpoint>)
    ensures Sorted(StableSort(s)) && SameOrder(StableSort(s), s)
  {
    hide Priority;
    if s != [] {
      StableSortIsStable(s[1..]);
      InsertSorted(s[0], StableSort(s[1..]));
      forall p: nat
        ensures Of(StableSort(s), p) == Of(s, p)
      {
        OfInsert(s[0], StableSort(s[1..]), p);
      }
    }
  }

  lemma {:induction false} OfMember(s: seq<Endpoint>, p: nat)
    requires Of(s, p) != []
    ensures exists i :: 0 <= i < |s| && Priority(s[i]) == p
  {
    hide Priority;
    if Priority(s[0]) != p {
      OfMember(s[1..], p);
      var i :| 0 <= i < |s[1..]| && Priority(s[1..][i]) == p;
      assert Priority(s[i + 1]) == p;
    }
  }

  lemma HeadPriority(s: seq<Endpoint>, t: seq<Endpoint>)
    requires s != [] && t != [] && Sorted(t) && SameOrder(s, t)
    ensures Priority(t[0]) <= Priority(s[0])
  {
    hide Priority;
    var p := Priority(s[0]);
    assert Of(s, p) == Of(t, p);
    OfMember(t, p);
    var i :| 0 <= i < |t| && Priority(t[i]) == p;
  }

  /** Sortedness and the order within each priority determine the list. */
  lemma {:induction false} StableSortUnique(s: seq<Endpoint>, t: seq<Endpoint>)
    requires Sorted(s) && Sorted(t) && SameOrder(s, t)
    ensures s == t
  {
    hide Priority;
    if s != [] { assert Of(s, Priority(s[0])) == Of(t, Priority(s[0])); }
    if t != [] { assert Of(s, Priority(t[0])) == Of(t, Priority(t[0])); }
    if s != [] && t != [] {
      HeadPriority(s, t);
      HeadPriority(t, s);
      var p := Priority(s[0]);
      assert Of(s, p) == Of(t, p);
      assert s[0] == Of(s, p)[0] == Of(t, p)[0] == t[0];
      forall q: nat
        ensures Of(s[1..], q) == Of(t[1..], q)
      {
        assert Of(s, q) == Of(t, q);
        if q == p {
          assert Of(s, q)[1..] == Of(s[1..], q) && Of(t, q)[1..] == Of(t[1..], q);
        }
      }
      StableSortUnique(s[1..], t[1..]);
    }
  }

  lemma {:induction false} InsertKeeps(e: Endpoint, s: seq<Endpoint>)
    ensures multiset(Insert(e, s)) == multiset(s) + multiset{e}
  {
    hide Priority;
    if s != [] && Priority(e) > Priority(s[0]) {
      InsertKeeps(e, s[1..]);
      assert s == [s[0]] + s[1..];
    }
  }

  lemma {:induction false} StableSortKeeps(s: seq<Endpoint>)
    ensures multiset(StableSort(s)) == multiset(s)
  {
    if s != [] {
      StableSortKeeps(s[1..]);
      InsertKeeps(s[0], StableSort(s[1..]));
      assert s == [s[0]] + s[1..];
    }
  }

  // ----- the URL tree -----

  predicate EndsWith(s: string, suffix: string) {
    |suffix| <= |s| && s[|s| - |suffix|..] == suffix
  }

  /** `should_include_endpoint` */
  predicate ShouldInclude(path: string, callback: Callback) {
    callback.isApiView && callback.hasSchema && callback.hasInitSchema
    && !EndsWith(path, ".{format}") && !EndsWith(path, ".{format}/")
  }

  /** `get_allowed_methods` on the view's method list */
  function AllowedMethods(methods: seq<string>): seq<string> {
    if methods == [] then []
    else (if methods[0] != "OPTIONS" && methods[0] != "HEAD" then [methods[0]] else []) + AllowedMethods(methods[1..])
  }

  function EndpointsFor(path: string, verbs: seq<string>, callback: Callback): seq<Endpoint> {
    if verbs == [] then [] else [Endpoint(path, verbs[0], callback)] + EndpointsFor(path, verbs[1..], callback)
  }

  function LeafEndpoints(regex: string, callback: Callback, pathOf: string -> string): seq<Endpoint> {
    if ShouldInclude(pathOf(regex), callback)
    then EndpointsFor(pathOf(regex), AllowedMethods(callback.methods), callback) else []
  }

  /** The included endpoints of the whole tree, depth first, unsorted. */
  function DepthFirst(patterns: seq<Pattern>, prefix: string, pathOf: string -> string): seq<Endpoint> {
    if patterns == [] then []
    else
      (if patterns[0].URLPattern? then LeafEndpoints(prefix + patterns[0].regex, patterns[0].callback, pathOf)
       else DepthFirst(patterns[0].patterns, prefix + patterns[0].regex, pathOf))
      + DepthFirst(patterns[1..], prefix, pathOf)
  }

  lemma {:induction false} DepthFirstAppend(a: seq<Pattern>, b: seq<Pattern>, prefix: string, pathOf: string -> string)
    ensures DepthFirst(a + b, prefix, pathOf) == DepthFirst(a, prefix, pathOf) + DepthFirst(b, prefix, pathOf)
  {
    if a == [] {
      assert a + b == b;
    } else {
      assert (a + b)[1..] == a[1..] + b;
      DepthFirstAppend(a[1..], b, prefix, pathOf);
    }
  }

  lemma DepthFirstOne(pattern: Pattern, prefix: string, pathOf: string -> string)
    ensures DepthFirst([pattern], prefix, pathOf)
         == if pattern.URLPattern? then LeafEndpoints(prefix + pattern.regex, pattern.callback, pathOf)
            else DepthFirst(pattern.patterns, prefix + pattern.regex, pathOf)
  {
    assert DepthFirst([pattern][1..], prefix, pathOf) == [];
  }

  // ----- what the list means for verbs and callbacks -----

  const VERBS: seq<string> := ["GET", "POST", "PUT", "PATCH", "DELETE"]

  function WithVerb(s: seq<Endpoint>, verb: string): seq<Endpoint> {
    if s == [] then [] else (if s[0].verb == verb then [s[0]] else []) + WithVerb(s[1..], verb)
  }

  /** The endpoints with any other verb. */
  function WithOthers(s: seq<Endpoint>): seq<Endpoint> {
    if s == [] then [] else (if s[0].verb !in VERBS then [s[0]] else []) + WithOthers(s[1..])
  }

  ghost predicate VerbNotAfter(first: string, second: string) {
    && (first !in VERBS ==> second !in VERBS)
    && forall a, b :: 0 <= a < b < |VERBS| ==> !(first == VERBS[b] && second == VERBS[a])
  }

  /** The listed verbs come in their order, and all other verbs after them. */
  ghost predicate VerbsInOrder(s: seq<Endpoint>) {
    forall i, j :: 0 <= i < j < |s| ==> VerbNotAfter(s[i].verb, s[j].verb)
  }

  lemma PriorityIsRank(e: Endpoint)
    ensures Priority(e) < |VERBS| <==> e.verb in VERBS
    ensures Priority(e) < |VERBS| ==> e.verb == VERBS[Priority(e)]
    ensures forall a :: 0 <= a < |VERBS| && e.verb == VERBS[a] ==> a == Priority(e)
    ensures Priority(e) <= |VERBS|
  {
    assert VERBS[0] == "GET" && VERBS[1] == "POST" && VERBS[2] == "PUT" && VERBS[3] == "PATCH" && VERBS[4] == "DELETE";
  }

  lemma SortedVerbs(s: seq<Endpoint>)
    requires Sorted(s)
    ensures VerbsInOrder(s)
  {
    hide Priority;
    forall i, j | 0 <= i < j < |s|
      ensures VerbNotAfter(s[i].verb, s[j].verb)
    {
      PriorityIsRank(s[i]);
      PriorityIsRank(s[j]);
    }
  }

  lemma {:induction false} OfIsWithVerb(s: seq<Endpoint>, p: nat)
    ensures p < |VERBS| ==> Of(s, p) == WithVerb(s, VERBS[p])
    ensures p == |VERBS| ==> Of(s, p) == WithOthers(s)
  {
    hide Priority;
    if s != [] {
      PriorityIsRank(s[0]);
      OfIsWithVerb(s[1..], p);
    }
  }

  /** Each verb's endpoints, and the others, come in the same order in both lists. */
  ghost predicate SameVerbs(s: seq<Endpoint>, t: seq<Endpoint>) {
    && (forall p :: 0 <= p < |VERBS| ==> WithVerb(s, VERBS[p]) == WithVerb(t, VERBS[p]))
    && WithOthers(s) == WithOthers(t)
  }

  lemma SameOrderVerbs(s: seq<Endpoint>, t: seq<Endpoint>)
    requires SameOrder(s, t)
    ensures SameVerbs(s, t)
  {
    forall p | 0 <= p < |VERBS|
      ensures WithVerb(s, VERBS[p]) == WithVerb(t, VERBS[p])
    {
      assert Of(s, p) == Of(t, p);
      OfIsWithVerb(s, p);
      OfIsWithVerb(t, p);
    }
    assert Of(s, |VERBS|) == Of(t, |VERBS|);
    OfIsWithVerb(s, |VERBS|);
    OfIsWithVerb(t, |VERBS|);
  }

  /** The allowed methods are those of the view in their order, without two. */
  lemma {:induction false} AllowedInOrder(a: seq<string>, b: seq<string>)
    ensures AllowedMethods(a + b) == AllowedMethods(a) + AllowedMethods(b)
    ensures |a| == 1 ==> AllowedMethods(a) == if a[0] in {"OPTIONS", "HEAD"} then [] else a
  {
    if a == [] {
      assert a + b == b;
    } else {
      assert (a + b)[1..] == a[1..] + b;
      AllowedInOrder(a[1..], b);
    }
  }

  lemma {:induction false} AllowedHolds(methods: seq<string>, verb: string)
    ensures verb in AllowedMethods(methods) <==> verb in methods && verb != "OPTIONS" && verb != "HEAD"
  {
    if methods != [] {
      AllowedHolds(methods[1..], verb);
      assert methods == [methods[0]] + methods[1..];
    }
  }

  /** The path is for a format suffix. */
  ghost predicate Suffixed(path: string) {
    exists start :: path == start + ".{format}" || path == start + ".{format}/"
  }

  lemma EndsWithExact(s: string, suffix: string)
    ensures EndsWith(s, suffix) <==> exists start :: s == start + suffix
  {
    if EndsWith(s, suffix) { assert s == s[..|s| - |suffix|] + suffix; }
  }

  /** An API view with a schema contributes an endpoint for each of its methods but OPTIONS and HEAD. */
  ghost predicate Contributes(e: Endpoint, path: string, callback: Callback) {
    && e.path == path && e.callback == callback && !Suffixed(path)
    && callback.isApiView && callback.hasSchema && callback.hasInitSchema
    && e.verb in callback.methods && e.verb != "OPTIONS" && e.verb != "HEAD"
  }

  lemma {:induction false} EndpointsForHold(path: string, verbs: seq<string>, callback: Callback, e: Endpoint)
    ensures e in EndpointsFor(path, verbs, callback) <==> e.path == path && e.callback == callback && e.verb in verbs
  {
    if verbs != [] {
      EndpointsForHold(path, verbs[1..], callback, e);
      assert verbs == [verbs[0]] + verbs[1..];
    }
  }

  lemma LeafHolds(regex: string, callback: Callback, pathOf: string -> string, e: Endpoint)
    ensures e in LeafEndpoints(regex, callback, pathOf) <==> Contributes(e, pathOf(regex), callback)
  {
    hide AllowedMethods, EndpointsFor, EndsWith;
    EndpointsForHold(pathOf(regex), AllowedMethods(callback.methods), callback, e);
    AllowedHolds(callback.methods, e.verb);
    EndsWithExact(pathOf(regex), ".{format}");
    EndsWithExact(pathOf(regex), ".{format}/");
  }

  /** The steps are indices into the patterns and the patterns nested in them. */
  predicate LeadsToLeaf(patterns: seq<Pattern>, steps: seq<nat>)
    decreases |steps|
  {
    && steps != [] && steps[0] < |patterns|
    && if patterns[steps[0]].URLPattern? then |steps| == 1 else LeadsToLeaf(patterns[steps[0]].patterns, steps[1..])
  }

  /** The pattern the steps lead to: the accumulated regular expression and the callback. */
  function LeafAt(patterns: seq<Pattern>, prefix: string, steps: seq<nat>): (r: (string, Callback))
    requires LeadsToLeaf(patterns, steps)
    decreases |steps|
  {
    var p := patterns[steps[0]];
    if p.URLPattern? then (prefix + p.regex, p.callback) else LeafAt(p.patterns, prefix + p.regex, steps[1..])
  }

  ghost predicate ContributedAt(e: Endpoint, patterns: seq<Pattern>, prefix: string, pathOf: string -> string,
                                steps: seq<nat>)
  {
    && LeadsToLeaf(patterns, steps)
    && var (regex, callback) := LeafAt(patterns, prefix, steps); Contributes(e, pathOf(regex), callback)
  }

  /** Some pattern of the tree contributes the endpoint. */
  ghost predicate Contributed(e: Endpoint, patterns: seq<Pattern>, prefix: string, pathOf: string -> string) {
    exists steps :: ContributedAt(e, patterns, prefix, pathOf, steps)
  }

  lemma ContributedByFirst(e: Endpoint, patterns: seq<Pattern>, prefix: string, pathOf: string -> string,
                           steps: seq<nat>)
    requires patterns != []
    ensures patterns[0].URLPattern? ==>
      (ContributedAt(e, patterns, prefix, pathOf, [0] + steps)
       <==> steps == [] && Contributes(e, pathOf(prefix + patterns[0].regex), patterns[0].callback))
    ensures patterns[0].URLResolver? ==>
      (ContributedAt(e, patterns, prefix, pathOf, [0] + steps)
       <==> ContributedAt(e, patterns[0].patterns, prefix + patterns[0].regex, pathOf, steps))
  {
    assert ([0] + steps)[1..] == steps;
    hide Contributes;
  }

  lemma ContributedByRest(e: Endpoint, patterns: seq<Pattern>, prefix: string, pathOf: string -> string,
                          n: nat, steps: seq<nat>)
    requires patterns != []
    ensures ContributedAt(e, patterns, prefix, pathOf, [n + 1] + steps)
       <==> ContributedAt(e, patterns[1..], prefix, pathOf, [n] + steps)
  {
    assert ([n + 1] + steps)[1..] == steps == ([n] + steps)[1..];
    hide Contributes;
  }

  lemma NothingContributed(e: Endpoint, prefix: string, pathOf: string -> string)
    ensures !Contributed(e, [], prefix, pathOf)
  {
  }

  lemma StepsSplit(e: Endpoint, patterns: seq<Pattern>, prefix: string, pathOf: string -> string, steps: seq<nat>)
    requires ContributedAt(e, patterns, prefix, pathOf, steps)
    ensures steps != [] && steps == [steps[0]] + steps[1..]
  {
  }

  /** The depth-first list holds exactly the endpoints that some pattern of the tree contributes. */
  lemma {:induction false} DepthFirstHolds(patterns: seq<Pattern>, prefix: string, pathOf: string -> string,
                                           e: Endpoint)
    ensures e in DepthFirst(patterns, prefix, pathOf) <==> Contributed(e, patterns, prefix, pathOf)
  {
    hide LeafEndpoints, Contributes, ContributedAt;
    if patterns == [] {
      NothingContributed(e, prefix, pathOf);
    } else {
      var first, rest, regex := patterns[0], patterns[1..], prefix + patterns[0].regex;
      DepthFirstHolds(rest, prefix, pathOf, e);
      if first.URLPattern? {
        LeafHolds(regex, first.callback, pathOf, e);
        ContributedByFirst(e, patterns, prefix, pathOf, []);
      } else {
        DepthFirstHolds(first.patterns, regex, pathOf, e);
        if steps :| ContributedAt(e, first.patterns, regex, pathOf, steps) {
          ContributedByFirst(e, patterns, prefix, pathOf, steps);
        }
      }
      if steps :| ContributedAt(e, rest, prefix, pathOf, steps) {
        StepsSplit(e, rest, prefix, pathOf, steps);
        ContributedByRest(e, patterns, prefix, pathOf, steps[0], steps[1..]);
      }
      if steps :| ContributedAt(e, patterns, prefix, pathOf, steps) {
        StepsSplit(e, patterns, prefix, pathOf, steps);
        if steps[0] == 0 {
          ContributedByFirst(e, patterns, prefix, pathOf, steps[1..]);
        } else {
          ContributedByRest(e, patterns, prefix, pathOf, steps[0] - 1, steps[1..]);
        }
      }
    }
  }

  lemma SameMembers(s: seq<Endpoint>, t: seq<Endpoint>)
    requires multiset(s) == multiset(t)
    ensures forall e :: e in s <==> e in t
  {
    forall e
      ensures e in s <==> e in t
    {
      assert e in multiset(s) <==> e in multiset(t);
    }
  }

  lemma EmptySameOrder(prefix: string, pathOf: string -> string)
    ensures SameOrder([], DepthFirst([], prefix, pathOf))
  {
  }

  lemma SameOrderSelf(a: seq<Endpoint>)
    ensures SameOrder(a, a)
  {
  }

  lemma SameOrderTrans(a: seq<Endpoint>, b: seq<Endpoint>, c: seq<Endpoint>, d: seq<Endpoint>)
    requires SameOrder(a, b) && SameOrder(b, c) && SameOrder(d, c)
    ensures SameOrder(a, d)
  {
    forall p: nat
      ensures Of(a, p) == Of(d, p)
    {
      assert Of(a, p) == Of(b, p) && Of(b, p) == Of(c, p) && Of(d, p) == Of(c, p);
    }
  }

  lemma StillSameOrder(a: seq<Endpoint>, b: seq<Endpoint>, s: seq<Endpoint>, t: seq<Endpoint>)
    requires SameOrder(a, b) && SameOrder(s, t)
    ensures SameOrder(a + s, b + t)
  {
    forall p: nat
      ensures Of(a + s, p) == Of(b + t, p)
    {
      OfAppend(a, s, p);
      OfAppend(b, t, p);
      assert Of(a, p) == Of(b, p) && Of(s, p) == Of(t, p);
    }
  }

  /** One stable sort at the end undoes what the sorts inside did to the order. */
  lemma OneSortIsEnough(s: seq<Endpoint>, patterns: seq<Pattern>, prefix: string, pathOf: string -> string)
    requires SameOrder(s, DepthFirst(patterns, prefix, pathOf))
    ensures StableSort(s) == StableSort(DepthFirst(patterns, prefix, pathOf))
    ensures multiset(StableSort(s)) == multiset(DepthFirst(patterns, prefix, pathOf))
    ensures VerbsInOrder(StableSort(s)) && SameVerbs(StableSort(s), DepthFirst(patterns, prefix, pathOf))
    ensures forall e :: e in StableSort(s) <==> Contributed(e, patterns, prefix, pathOf)
  {
    hide Priority, StableSort, Of, Sorted, SameOrder, DepthFirst, VerbsInOrder, SameVerbs, Contributed;
    var all := DepthFirst(patterns, prefix, pathOf);
    StableSortIsStable(s);
    StableSortIsStable(all);
    SameOrderTrans(StableSort(s), s, all, StableSort(all));
    StableSortUnique(StableSort(s), StableSort(all));
    StableSortKeeps(all);
    SortedVerbs(StableSort(all));
    SameOrderVerbs(StableSort(all), all);
    SameMembers(StableSort(all), all);
    forall e
      ensures e in StableSort(s) <==> Contributed(e, patterns, prefix, pathOf)
    {
      DepthFirstHolds(patterns, prefix, pathOf, e);
    }
  }

  /** Sorting at every level of the recursion gives the one stable sort of the depth-first list. */
  method GetApiEndpoints(patterns: seq<Pattern>, prefix: string, pathOf: string -> string)
    returns (endpoints: seq<Endpoint>)
    ensures endpoints == StableSort(DepthFirst(patterns, prefix, pathOf))
    ensures multiset(endpoints) == multiset(DepthFirst(patterns, prefix, pathOf))
    ensures VerbsInOrder(endpoints) && SameVerbs(endpoints, DepthFirst(patterns, prefix, pathOf))
    ensures forall e :: e in endpoints <==> Contributed(e, patterns, prefix, pathOf)
    decreases patterns
  {
    hide Priority, StableSort, Of, Sorted, SameOrder, DepthFirst, VerbsInOrder, SameVerbs, Contributed;
    var apiEndpoints := [];
    var i := 0;
    EmptySameOrder(prefix, pathOf);
    assert patterns[..i] == [];
    while i < |patterns|
      invariant 0 <= i <= |patterns|
      invariant SameOrder(apiEndpoints, DepthFirst(patterns[..i], prefix, pathOf))
    {
      var pattern := patterns[i];
      var pathRegex := prefix + pattern.regex;
      ghost var before := apiEndpoints;
      DepthFirstOne(pattern, prefix, pathOf);
      ghost var added := DepthFirst([pattern], prefix, pathOf);
      match pattern {
        case URLPattern(_, callback) =>
          var path := pathOf(pathRegex);
          if ShouldInclude(path, callback) {
            var methods := AllowedMethods(callback.methods);
            var k := 0;
            assert methods[k..] == methods;
            while k < |methods|
              invariant 0 <= k <= |methods|
              invariant apiEndpoints + EndpointsFor(path, methods[k..], callback)
                  == before + EndpointsFor(path, methods, callback)
            {
              var endpoint := Endpoint(path, methods[k], callback);
              assert methods[k..][1..] == methods[k + 1..];
              assert apiEndpoints + ([endpoint] + EndpointsFor(path, methods[k + 1..], callback))
                  == (apiEndpoints + [endpoint]) + EndpointsFor(path, methods[k + 1..], callback);
              apiEndpoints := apiEndpoints + [endpoint];
              k := k + 1;
            }
            assert apiEndpoints == before + added;
            assert apiEndpoints[|before|..] == added;
          } else {
            assert apiEndpoints[|before|..] == added;
          }
          SameOrderSelf(added);
        case URLResolver(_, nested) =>
          var nestedEndpoints := GetApiEndpoints(nested, pathRegex, pathOf);
          StableSortIsStable(DepthFirst(nested, pathRegex, pathOf));
          apiEndpoints := apiEndpoints + nestedEndpoints;
          assert apiEndpoints[|before|..] == nestedEndpoints;
      }
      StillSameOrder(before, DepthFirst(patterns[..i], prefix, pathOf), apiEndpoints[|before|..], added);
      assert before + apiEndpoints[|before|..] == apiEndpoints;
      DepthFirstAppend(patterns[..i], [pattern], prefix, pathOf);
      assert patterns[..i + 1] == patterns[..i] + [pattern];
      i := i + 1;
    }
    assert patterns[..i] == patterns;
    endpoints := StableSort(apiEndpoints);
    OneSortIsEnough(apiEndpoints, patterns, prefix, pathOf);
  }
}
