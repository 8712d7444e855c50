/** `common_path` and `determine_path_prefix`: the prefix shared by all URL paths of a schema. */
module CommonPaths {
  import opened Text

  // ----- lexicographic comparison of strings and of lists of strings -----

  predicate StrLeq(a: string, b: string) {
    a == "" || (b != "" && (a[0] < b[0] || (a[0] == b[0] && StrLeq(a[1..], b[1..]))))
  }

  predicate ListLeq(a: seq<string>, b: seq<string>) {
    a == [] || (b != [] && (if a[0] != b[0] then StrLeq(a[0], b[0]) else ListLeq(a[1..], b[1..])))
  }

  lemma {:induction false} StrLeqTotal(a: string, b: string)
    ensures StrLeq(a, b) || StrLeq(b, a)
    ensures StrLeq(a, b) && StrLeq(b, a) ==> a == b
  {
    if a != "" && b != "" {
      StrLeqTotal(a[1..], b[1..]);
      assert a == [a[0]] + a[1..] && b == [b[0]] + b[1..];
    }
  }

  lemma {:induction false} StrLeqTransitive(a: string, b: string, c: string)
    requires StrLeq(a, b) && StrLeq(b, c)
    ensures StrLeq(a, c)
  {
    if a != "" && a[0] == b[0] && b[0] == c[0] { StrLeqTransitive(a[1..], b[1..], c[1..]); }
  }

  lemma {:induction false} ListLeqTotal(a: seq<string>, b: seq<string>)
    ensures ListLeq(a, b) || ListLeq(b, a)
  {
    if a != [] && b != [] {
      StrLeqTotal(a[0], b[0]);
      ListLeqTotal(a[1..], b[1..]);
    }
  }

  lemma {:induction false} ListLeqTransitive(a: seq<string>, b: seq<string>, c: seq<string>)
    requires ListLeq(a, b) && ListLeq(b, c)
    ensures ListLeq(a, c)
  {
    if a != [] {
      if a[0] == b[0] && b[0] == c[0] {
        ListLeqTransitive(a[1..], b[1..], c[1..]);
      } else if a[0] != b[0] && b[0] != c[0] {
        StrLeqTransitive(a[0], b[0], c[0]);
        StrLeqTotal(a[0], b[0]);
      }
    }
  }

  /** `min(lists)` */
  function Least(lists: seq<seq<string>>): seq<string>
    requires lists != []
  {
    if |lists| == 1 then lists[0]
    else if ListLeq(lists[0], Least(lists[1..])) then lists[0] else Least(lists[1..])
  }

  /** `max(lists)` */
  function Greatest(lists: seq<seq<string>>): seq<string>
    requires lists != []
  {
    if |lists| == 1 then lists[0]
    else if ListLeq(Greatest(lists[1..]), lists[0]) then lists[0] else Greatest(lists[1..])
  }

  lemma {:induction false} Extremes(lists: seq<seq<string>>)
    requires lists != []
    ensures Least(lists) in lists && Greatest(lists) in lists
    ensures forall i :: 0 <= i < |lists| ==> ListLeq(Least(lists), lists[i]) && ListLeq(lists[i], Greatest(lists))
  {
    ListLeqTotal(lists[0], lists[0]);
    if |lists| > 1 {
      Extremes(lists[1..]);
      var lo, hi := Least(lists[1..]), Greatest(lists[1..]);
      ListLeqTotal(lists[0], lo);
      ListLeqTotal(lists[0], hi);
      forall i | 0 <= i < |lists|
        ensures ListLeq(Least(lists), lists[i]) && ListLeq(lists[i], Greatest(lists))
      {
        if i > 0 {
          assert lists[i] == lists[1..][i - 1];
          if ListLeq(lists[0], lo) { ListLeqTransitive(lists[0], lo, lists[i]); }
          if ListLeq(hi, lists[0]) { ListLeqTransitive(lists[i], hi, lists[0]); }
        }
      }
    }
  }

  /** Whatever lies between two lists in the order shares every prefix the two share. */
  lemma {:induction false} Between(a: seq<string>, x: seq<string>, b: seq<string>, p: seq<string>)
    requires ListLeq(a, x) && ListLeq(x, b) && p <= a && p <= b
    ensures p <= x
  {
    if p != [] {
      assert a[0] == p[0] == b[0];
      if x[0] != p[0] { StrLeqTotal(x[0], p[0]); }
      Between(a[1..], x[1..], b[1..], p[1..]);
      assert x == [x[0]] + x[1..] && p == [p[0]] + p[1..];
    }
  }

  /** The smaller list never runs on where the greater one has ended. */
  lemma {:induction false} NeverPastTheEnd(a: seq<string>, b: seq<string>, i: nat)
    requires ListLeq(a, b) && i < |a| && i <= |b| && a[..i] == b[..i]
    ensures i < |b|
  {
    if i > 0 {
      assert a[0] == a[..i][0] == b[..i][0] == b[0];
      assert a[1..][..i - 1] == a[..i][1..] == b[..i][1..] == b[1..][..i - 1];
      NeverPastTheEnd(a[1..], b[1..], i - 1);
    }
  }

  // ----- the common prefix -----

  ghost predicate CommonPrefix(p: seq<string>, lists: seq<seq<string>>) {
    forall i :: 0 <= i < |lists| ==> p <= lists[i]
  }

  ghost predicate LongestCommonPrefix(p: seq<string>, lists: seq<seq<string>>) {
    CommonPrefix(p, lists) && forall d :: CommonPrefix(d, lists) ==> d <= p
  }

  function StripLeft(s: string, c: char): string {
    if s != "" && s[0] == c then StripLeft(s[1..], c) else s
  }

  function StripRight(s: string, c: char): string {
    if s != "" && s[|s| - 1] == c then StripRight(s[..|s| - 1], c) else s
  }

  /** `path.strip('/').split('/')` */
  function Components(path: string): seq<string> {
    Split(StripRight(StripLeft(path, '/'), '/'), '/')
  }

  function ComponentLists(paths: seq<string>): (lists: seq<seq<string>>)
    ensures |lists| == |paths|
    ensures forall i :: 0 <= i < |paths| ==> lists[i] == Components(paths[i])
  {
    seq(|paths|, i requires 0 <= i < |paths| => Components(paths[i]))
  }

  lemma PrefixesAgree(d: seq<string>, a: seq<string>, b: seq<string>, i: nat)
    requires d <= a && d <= b && i < |d|
    ensures a[i] == b[i]
  {
  }

  lemma SharedIsLongest(lists: seq<seq<string>>, common: seq<string>, i: nat)
    requires lists != []
    requires var s1, s2 := Least(lists), Greatest(lists);
      && i <= |s1| && i <= |s2| && common == s1[..i] == s2[..i]
      && (i < |s1| ==> i < |s2| && s1[i] != s2[i])
    ensures LongestCommonPrefix(common, lists)
  {
    var s1, s2 := Least(lists), Greatest(lists);
    Extremes(lists);
    forall j | 0 <= j < |lists|
      ensures common <= lists[j]
    {
      Between(s1, lists[j], s2, common);
    }
    forall d | CommonPrefix(d, lists)
      ensures d <= common
    {
      assert d <= s1 && d <= s2;
      if |d| > i { PrefixesAgree(d, s1, s2, i); }
    }
  }

  /** Only the least and the greatest list are compared, and that is enough. */
  method CommonParts(paths: seq<string>) returns (common: seq<string>)
    requires paths != []
    ensures LongestCommonPrefix(common, ComponentLists(paths))
  {
    hide Least, Greatest, ListLeq, Components, LongestCommonPrefix;
    var splitPaths := ComponentLists(paths);
    var s1, s2 := Least(splitPaths), Greatest(splitPaths);
    Extremes(splitPaths);
    var k :| 0 <= k < |splitPaths| && splitPaths[k] == s1;
    common := s1;
    var i := 0;
    while i < |s1|
      invariant 0 <= i <= |s1| && i <= |s2| && s1[..i] == s2[..i] && common == s1
    {
      assert ListLeq(s1, s2) by { ListLeqTransitive(s1, splitPaths[k], s2); }
      NeverPastTheEnd(s1, s2, i);
      if s1[i] != s2[i] {
        common := s1[..i];
        break;
      }
      assert s1[..i + 1] == s1[..i] + [s1[i]] && s2[..i + 1] == s2[..i] + [s2[i]];
      i := i + 1;
    }
    SharedIsLongest(splitPaths, common, i);
  }

  method CommonPath(paths: seq<string>) returns (path: string)
    requires paths != []
    ensures exists common :: LongestCommonPrefix(common, ComponentLists(paths)) && path == "/" + Join(common, '/')
  {
    var common := CommonParts(paths);
    path := "/" + Join(common, '/');
  }

  // ----- the path prefix of a schema -----

  /** The components in front of the first path parameter. */
  function Initial(components: seq<string>): (r: seq<string>)
    ensures r <= components
  {
    if components == [] || '{' in components[0] then [] else [components[0]] + Initial(components[1..])
  }

  /** Python's `s[:-1]` */
  function DropLast(s: seq<string>): (r: seq<string>)
    ensures r <= s
  {
    if s == [] then [] else s[..|s| - 1]
  }

  /** What may count as prefix: neither the last component nor the one in front of a parameter. */
  function Allowed(path: string): seq<string> {
    DropLast(Initial(Components(path)))
  }

  function Wrapped(path: string): string {
    "/" + Join(Allowed(path), '/') + "/"
  }

  function AllWrapped(paths: seq<string>): (r: seq<string>)
    ensures |r| == |paths| && forall i :: 0 <= i < |paths| ==> r[i] == Wrapped(paths[i])
  {
    seq(|paths|, i requires 0 <= i < |paths| => Wrapped(paths[i]))
  }

  lemma NextInitial(components: seq<string>, i: nat)
    requires i < |components|
    ensures Initial(components[i..])
         == if '{' in components[i] then [] else [components[i]] + Initial(components[i + 1..])
  {
    assert components[i..][1..] == components[i + 1..];
  }

  method InitialComponents(components: seq<string>) returns (initial: seq<string>)
    ensures initial == Initial(components)
  {
    hide Initial;
    initial := [];
    var i := 0;
    assert components[i..] == components;
    while i < |components|
      invariant 0 <= i <= |components|
      invariant initial + Initial(components[i..]) == Initial(components)
    {
      NextInitial(components, i);
      if '{' in components[i] {
        return;
      }
      initial := initial + [components[i]];
      i := i + 1;
    }
  }

  /** The components of the prefix: none if some path allows no prefix, or else the longest ones
      common to what the paths allow. */
  ghost predicate PrefixParts(common: seq<string>, paths: seq<string>) {
    if exists i :: 0 <= i < |paths| && Join(Allowed(paths[i]), '/') == "" then common == []
    else LongestCommonPrefix(common, ComponentLists(AllWrapped(paths)))
  }

  /** No component is empty: the path has no doubled slashes. */
  predicate Tidy(path: string) {
    forall i :: 0 <= i < |Components(path)| ==> Components(path)[i] != ""
  }

  lemma {:induction false} JoinEnd(parts: seq<string>)
    requires parts != [] && parts[|parts| - 1] != "" && '/' !in parts[|parts| - 1]
    ensures var j := Join(parts, '/'); j != "" && j[|j| - 1] != '/'
  {
    if |parts| > 1 { JoinEnd(parts[1..]); }
  }

  lemma {:induction false} JoinEdges(parts: seq<string>)
    requires parts != [] && forall i :: 0 <= i < |parts| ==> '/' !in parts[i]
    requires parts[0] != "" && parts[|parts| - 1] != ""
    ensures var j := Join(parts, '/'); j != "" && j[0] != '/' && j[|j| - 1] != '/'
  {
    JoinEnd(parts);
    assert parts[0][0] in parts[0];
  }

  ghost predicate Slashes(s: string) {
    forall i :: 0 <= i < |s| ==> s[i] == '/'
  }

  lemma {:induction false} StripSlashesLeft(slashes: string, s: string)
    requires Slashes(slashes) && (s == "" || s[0] != '/')
    ensures StripLeft(slashes + s, '/') == s
  {
    if slashes == "" {
      assert slashes + s == s;
    } else {
      assert (slashes + s)[1..] == slashes[1..] + s;
      StripSlashesLeft(slashes[1..], s);
    }
  }

  lemma {:induction false} StripSlashesRight(s: string, slashes: string)
    requires Slashes(slashes) && (s == "" || s[|s| - 1] != '/')
    ensures StripRight(s + slashes, '/') == s
  {
    if slashes == "" {
      assert s + slashes == s;
    } else {
      var init := slashes[..|slashes| - 1];
      assert (s + slashes)[..|s + slashes| - 1] == s + init;
      StripSlashesRight(s, init);
    }
  }

  /** The components of a path are the texts between its slashes, where slashes at either end do not
      count. */
  lemma ComponentsExact(before: string, parts: seq<string>, after: string)
    requires Slashes(before) && Slashes(after)
    requires parts != [] && forall i :: 0 <= i < |parts| ==> '/' !in parts[i]
    requires parts == [""] || (parts[0] != "" && parts[|parts| - 1] != "")
    ensures Components(before + Join(parts, '/') + after) == parts
  {
    var text := Join(parts, '/');
    if text == "" {
      assert before + text + after == before + after + "";
      StripSlashesLeft(before + after, "");
      if parts != [""] { JoinEdges(parts); }
    } else {
      JoinEdges(parts);
      assert before + text + after == before + (text + after);
      StripSlashesLeft(before, text + after);
      StripSlashesRight(text, after);
    }
    SplitJoin(parts, '/');
  }

  /** Wrapping and splitting again gives the allowed components back. */
  lemma WrappedComponents(path: string)
    requires Tidy(path) && Allowed(path) != []
    ensures Components(Wrapped(path)) == Allowed(path)
  {
    var parts := Allowed(path);
    SplitParts(StripRight(StripLeft(path, '/'), '/'), '/');
    forall i | 0 <= i < |parts|
      ensures parts[i] != "" && '/' !in parts[i]
    {
      assert parts[i] == Components(path)[i];
    }
    ComponentsExact("/", parts, "/");
  }

  /** The components may count as prefix of the path: they begin it, at least one more follows, and
      none of them nor the one that follows is a parameter. */
  ghost predicate MayPrefix(p: seq<string>, path: string) {
    var components := Components(path);
    && p <= components
    && (p != [] ==> |p| < |components| && forall i :: 0 <= i <= |p| ==> '{' !in components[i])
  }

  lemma {:induction false} InitialExact(components: seq<string>, p: seq<string>)
    requires p <= components
    ensures p <= Initial(components) <==> forall i :: 0 <= i < |p| ==> '{' !in components[i]
  {
    if p != [] {
      InitialExact(components[1..], p[1..]);
      if '{' !in components[0] {
        var initial := Initial(components);
        assert initial[1..] == Initial(components[1..]);
        assert forall i :: 0 <= i < |p[1..]| ==> components[1..][i] == components[i + 1];
        assert forall i :: 0 < i < |p| ==> components[i] == components[1..][i - 1];
      }
    }
  }

  lemma AllowedExact(path: string, p: seq<string>)
    ensures p <= Allowed(path) <==> MayPrefix(p, path)
  {
    hide Components, Initial;
    var components, n := Components(path), |p|;
    if p != [] && p <= components && n < |components| {
      InitialExact(components, components[..n + 1]);
      assert components[..n] == p;
    }
    if p != [] && p <= Allowed(path) {
      assert n < |Initial(components)| && Initial(components) <= components;
      assert components[..n + 1] == Initial(components)[..n + 1];
    }
  }

  lemma AllowedText(path: string)
    requires Tidy(path) && Allowed(path) != []
    ensures Join(Allowed(path), '/') != ""
  {
    assert Allowed(path)[0] == Components(path)[0];
  }

  ghost predicate AllTidy(paths: seq<string>) {
    forall i :: 0 <= i < |paths| ==> Tidy(paths[i])
  }

  ghost predicate MayPrefixAll(p: seq<string>, paths: seq<string>) {
    forall i :: 0 <= i < |paths| ==> MayPrefix(p, paths[i])
  }

  /** The components and what begins them are just what may count as prefix of every path. */
  ghost predicate LongestShared(common: seq<string>, paths: seq<string>) {
    forall p :: p <= common <==> MayPrefixAll(p, paths)
  }

  lemma PrefixesAllowed(paths: seq<string>, allowed: seq<seq<string>>, common: seq<string>, p: seq<string>)
    requires |allowed| == |paths| && forall i :: 0 <= i < |paths| ==> allowed[i] == Allowed(paths[i])
    requires LongestCommonPrefix(common, allowed)
    ensures p <= common <==> MayPrefixAll(p, paths)
  {
    hide MayPrefix, Allowed;
    forall i | 0 <= i < |paths|
      ensures MayPrefix(p, paths[i]) <==> p <= allowed[i]
    {
      AllowedExact(paths[i], p);
    }
    if p <= common {
      forall i | 0 <= i < |paths|
        ensures p <= allowed[i]
      {
        assert common <= allowed[i];
      }
    }
    if MayPrefixAll(p, paths) { assert CommonPrefix(p, allowed); }
  }

  lemma CommonIsAllowed(paths: seq<string>, common: seq<string>)
    requires paths != [] && AllTidy(paths) && PrefixParts(common, paths)
    ensures LongestCommonPrefix(common, seq(|paths|, i requires 0 <= i < |paths| => Allowed(paths[i])))
  {
    var allowed := seq(|paths|, i requires 0 <= i < |paths| => Allowed(paths[i]));
    if i :| 0 <= i < |paths| && Join(Allowed(paths[i]), '/') == "" {
      if Allowed(paths[i]) != [] { AllowedText(paths[i]); }
      assert allowed[i] == [];
    } else {
      forall i | 0 <= i < |paths|
        ensures ComponentLists(AllWrapped(paths))[i] == allowed[i]
      {
        assert Allowed(paths[i]) != [];
        WrappedComponents(paths[i]);
      }
      assert ComponentLists(AllWrapped(paths)) == allowed;
    }
  }

  /** For tidy paths the prefix is the longest run of components all paths share in front of their
      last component and of their first parameter. */
  lemma PrefixIsLongestAllowed(paths: seq<string>, common: seq<string>)
    requires paths != [] && AllTidy(paths) && PrefixParts(common, paths)
    ensures LongestShared(common, paths)
  {
    hide MayPrefix, Allowed, Tidy, PrefixParts;
    CommonIsAllowed(paths, common);
    var allowed := seq(|paths|, i requires 0 <= i < |paths| => Allowed(paths[i]));
    forall p
      ensures p <= common <==> MayPrefixAll(p, paths)
    {
      PrefixesAllowed(paths, allowed, common, p);
    }
  }

  lemma {:induction false} JoinPrefix(p: seq<string>, parts: seq<string>)
    requires p <= parts
    ensures Join(p, '/') <= Join(parts, '/')
  {
    if |p| == 1 {
      if |parts| > 1 { assert parts[0] == p[0]; }
    } else if |p| > 1 {
      JoinPrefix(p[1..], parts[1..]);
    }
  }

  /** The path begins with a single slash. */
  predicate Rooted(path: string) {
    path != "" && path[0] == '/' && (|path| > 1 ==> path[1] != '/')
  }

  lemma {:induction false} StripRightPrefix(s: string, c: char)
    ensures StripRight(s, c) <= s
  {
    if s != "" && s[|s| - 1] == c { StripRightPrefix(s[..|s| - 1], c); }
  }

  lemma {:induction false} SplitTrailing(s: string, sep: char)
    ensures Split(s + [sep], sep) == Split(s, sep) + [""]
  {
    if s == "" {
      assert [sep][1..] == "";
      assert Split([sep], sep) == [""] + Split("", sep);
    } else {
      assert (s + [sep])[1..] == s[1..] + [sep];
      SplitTrailing(s[1..], sep);
    }
  }

  /** Stripping separators from the end removes components from the end. */
  lemma {:induction false} SplitStripped(s: string, sep: char)
    ensures Split(StripRight(s, sep), sep) <= Split(s, sep)
  {
    if s != "" && s[|s| - 1] == sep {
      var t := s[..|s| - 1];
      assert s == t + [sep];
      SplitStripped(t, sep);
      SplitTrailing(t, sep);
    }
  }

  lemma {:induction false} StripLeftStart(s: string, c: char)
    ensures StripLeft(s, c) != "" ==> StripLeft(s, c)[0] != c
  {
    if s != "" && s[0] == c { StripLeftStart(s[1..], c); }
  }

  /** The first component of a path is empty only if it is the only one. */
  lemma FirstComponent(path: string)
    ensures Components(path)[0] != "" || Components(path) == [""]
  {
    var left := StripLeft(path, '/');
    StripLeftStart(path, '/');
    StripRightPrefix(left, '/');
    var s := StripRight(left, '/');
    if s != "" { assert s[0] == left[0] != '/'; }
  }

  /** Wrapping and splitting again gives no other components than the allowed ones. */
  lemma WrappedPrefix(path: string)
    requires Join(Allowed(path), '/') != ""
    ensures Components(Wrapped(path)) <= Allowed(path)
  {
    hide Initial;
    var parts, x := Allowed(path), Join(Allowed(path), '/');
    FirstComponent(path);
    assert parts[0] == Components(path)[0] != "";
    SplitParts(StripRight(StripLeft(path, '/'), '/'), '/');
    forall i | 0 <= i < |parts|
      ensures '/' !in parts[i]
    {
      assert parts[i] == Components(path)[i];
    }
    SplitJoin(parts, '/');
    assert x[0] == parts[0][0] && parts[0][0] in parts[0];
    var t := "/" + x + "/";
    assert t[1..] == x + "/" && (x + "/")[..|x|] == x;
    assert StripLeft(t, '/') == x + "/";
    assert StripRight(x + "/", '/') == StripRight(x, '/');
    SplitStripped(x, '/');
  }

  lemma {:induction false} StripRooted(path: string)
    requires Rooted(path)
    ensures "/" + StripRight(StripLeft(path, '/'), '/') <= path
  {
    var rest := path[1..];
    assert StripLeft(path, '/') == rest by {
      if rest != "" { assert rest[0] == path[1]; }
    }
    StripRightPrefix(rest, '/');
    assert path == "/" + rest;
  }

  /** The prefix cut off the paths of a schema really is the beginning of each of them. */
  lemma PrefixStartsPath(common: seq<string>, path: string)
    requires common <= Components(path) && Rooted(path)
    ensures "/" + Join(common, '/') <= path
  {
    JoinPrefix(common, Components(path));
    JoinSplit(StripRight(StripLeft(path, '/'), '/'), '/');
    StripRooted(path);
  }

  lemma AllowedComponents(path: string)
    ensures Allowed(path) <= Components(path)
  {
  }

  lemma PrefixStartsEveryPath(common: seq<string>, paths: seq<string>)
    requires PrefixParts(common, paths)
    ensures forall i :: 0 <= i < |paths| && Rooted(paths[i]) ==> "/" + Join(common, '/') <= paths[i]
  {
    hide Components, Allowed, Wrapped, Rooted, Join;
    forall i | 0 <= i < |paths| && Rooted(paths[i])
      ensures "/" + Join(common, '/') <= paths[i]
    {
      if common != [] {
        WrappedPrefix(paths[i]);
        assert common <= ComponentLists(AllWrapped(paths))[i];
      }
      AllowedComponents(paths[i]);
      PrefixStartsPath(common, paths[i]);
    }
  }

  /** The components a method has found serve every purpose of the prefix. */
  lemma PrefixFound(common: seq<string>, paths: seq<string>)
    requires paths != [] && PrefixParts(common, paths)
    ensures AllTidy(paths) ==> LongestShared(common, paths)
    ensures forall i :: 0 <= i < |paths| && Rooted(paths[i]) ==> "/" + Join(common, '/') <= paths[i]
  {
    hide PrefixParts, AllTidy, LongestShared, Join;
    PrefixStartsEveryPath(common, paths);
    if AllTidy(paths) { PrefixIsLongestAllowed(paths, common); }
  }

  method DeterminePathPrefix(paths: seq<string>) returns (prefix: string)
    requires paths != []
    ensures exists common :: PrefixParts(common, paths) && prefix == "/" + Join(common, '/')
    ensures AllTidy(paths) ==> exists common :: LongestShared(common, paths) && prefix == "/" + Join(common, '/')
    ensures forall i :: 0 <= i < |paths| && Rooted(paths[i]) ==> prefix <= paths[i]
  {
    hide Components, Initial, Rooted, LongestCommonPrefix, AllTidy, LongestShared;
    var prefixes: seq<string>, i := [], 0;
    while i < |paths|
      invariant 0 <= i <= |paths| && |prefixes| == i
      invariant forall j :: 0 <= j < i ==> Join(Allowed(paths[j]), '/') != "" && prefixes[j] == Wrapped(paths[j])
    {
      var initial := InitialComponents(Components(paths[i]));
      var prefix := Join(DropLast(initial), '/');
      if prefix == "" {
        assert PrefixParts([], paths);
        PrefixFound([], paths);
        return "/";
      }
      prefixes := prefixes + ["/" + prefix + "/"];
      i := i + 1;
    }
    assert prefixes == AllWrapped(paths);
    prefix := CommonPath(prefixes);
    ghost var common :| LongestCommonPrefix(common, ComponentLists(prefixes)) && prefix == "/" + Join(common, '/');
    assert PrefixParts(common, paths);
    PrefixFound(common, paths);
  }
}
