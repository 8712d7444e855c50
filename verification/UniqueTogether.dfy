/** `UniqueTogetherValidator` as the guard of a table invariant. */
module UniqueTogether {
  import opened Prelude

  datatype Value = Null | Of(v: int)

  /** A row, or validated data: values by model attribute (the `source` of a serializer field). */
  type Attrs = map<string, Value>

  type Table = map<nat, Attrs>

  /** `getattr(instance, source)`; an attribute never set is NULL. */
  function Column(row: Attrs, source: string): Value {
    if source in row then row[source] else Null
  }

  datatype Instance = Instance(pk: nat, row: Attrs)

  datatype Verdict = Accepted | Required(missing: seq<string>) | NotUnique

  predicate Agrees(row: Attrs, values: Attrs, sources: seq<string>) {
    forall s :: s in sources ==> Column(row, s) == Column(values, s)
  }

  /** The fields of the constraint and of its condition, with the source each of them maps to.  A
      constraint without a condition has one that always holds and no condition fields. */
  datatype Constraint = Constraint(
    fields: seq<string>,
    conditionFields: seq<string>,
    source: map<string, string>,
    condition: Attrs -> bool)
  {
    predicate Named() {
      && (forall i :: 0 <= i < |fields| ==> fields[i] in source)
      && (forall i :: 0 <= i < |conditionFields| ==> conditionFields[i] in source)
    }

    function Sources(): (s: seq<string>)
      requires Named()
      ensures |s| == |fields| && forall i :: 0 <= i < |fields| ==> s[i] == source[fields[i]]
    {
      seq(|fields|, i requires 0 <= i < |fields| => source[fields[i]])
    }

    function ConditionSources(): (s: seq<string>)
      requires Named()
      ensures |s| == |conditionFields| && forall i :: 0 <= i < |conditionFields| ==> s[i] == source[conditionFields[i]]
    {
      seq(|conditionFields|, i requires 0 <= i < |conditionFields| => source[conditionFields[i]])
    }

    /** The condition looks at nothing but its fields. */
    ghost predicate Valid() {
      && Named()
      && forall a, b {:trigger condition(a), condition(b)} ::
           Agrees(a, b, ConditionSources()) ==> condition(a) == condition(b)
    }

    /** The fields a create may not leave out, in the order they are reported. */
    function Enforced(): seq<string> {
      fields + conditionFields
    }
  }

  predicate NoNulls(row: Attrs, sources: seq<string>) {
    forall s :: s in sources ==> Column(row, s) != Null
  }

  // ----- the invariant -----

  /** Both rows meet the condition and hold the same non-NULL values in every constrained column. */
  ghost predicate Clash(a: Attrs, b: Attrs, c: Constraint)
    requires c.Named()
  {
    c.condition(a) && c.condition(b) && Agrees(a, b, c.Sources()) && NoNulls(b, c.Sources())
  }

  ghost predicate Unique(table: Table, c: Constraint)
    requires c.Named()
  {
    forall p, q :: p in table && q in table && p != q ==> !Clash(table[p], table[q], c)
  }

  // ----- the decision -----

  /** Another row that meets the condition agrees with `values` on every constrained column, NULL
      matching NULL. */
  ghost predicate Twin(table: Table, values: Attrs, except: Option<nat>, c: Constraint)
    requires c.Named()
  {
    exists p :: p in table && Some(p) != except && Agrees(table[p], values, c.Sources()) && c.condition(table[p])
  }

  /** The values the validator looks at for NULL: on an update only those that change. */
  ghost predicate Checks(values: Attrs, instance: Option<Instance>, source: string) {
    instance.None? || Column(values, source) != Column(instance.value.row, source)
  }

  ghost predicate IsChecked(v: Value, values: Attrs, instance: Option<Instance>, sources: seq<string>) {
    exists s :: s in sources && Checks(values, instance, s) && Column(values, s) == v
  }

  function KeyOf(instance: Option<Instance>): Option<nat> {
    if instance.Some? then Some(instance.value.pk) else None
  }

  ghost predicate Rejects(table: Table, values: Attrs, instance: Option<Instance>, c: Constraint)
    requires c.Named()
  {
    && (exists s :: s in c.Sources() && Checks(values, instance, s))
    && (forall s :: s in c.Sources() && Checks(values, instance, s) ==> Column(values, s) != Null)
    && c.condition(values)
    && Twin(table, values, KeyOf(instance), c)
  }

  /** The row as it will be stored: provided values over the existing ones. */
  function Stored(attrs: Attrs, instance: Option<Instance>): Attrs {
    if instance.Some? then instance.value.row + attrs else attrs
  }

  /** Of the first `n` enforced fields, those whose source was not given. */
  function Missing(c: Constraint, attrs: Attrs, n: nat): (m: seq<string>)
    requires c.Named() && n <= |c.Enforced()|
    ensures m == [] <==> forall j :: 0 <= j < n ==> c.source[c.Enforced()[j]] in attrs
  {
    if n == 0 then []
    else
      var field := c.Enforced()[n - 1];
      Missing(c, attrs, n - 1) + (if c.source[field] !in attrs then [field] else [])
  }

  method EnforceRequiredFields(c: Constraint, attrs: Attrs, instance: Option<Instance>) returns (missing: seq<string>)
    requires c.Named()
    ensures missing == if instance.Some? then [] else Missing(c, attrs, |c.Enforced()|)
  {
    missing := [];
    if instance.Some? {
      return;
    }
    var fields, i := c.Enforced(), 0;
    while i < |fields|
      invariant 0 <= i <= |fields|
      invariant missing == Missing(c, attrs, i)
    {
      if c.source[fields[i]] !in attrs {
        missing := missing + [fields[i]];
      }
      i := i + 1;
    }
  }

  lemma NextMissing(c: Constraint, attrs: Attrs, n: nat)
    requires c.Named() && 0 < n <= |c.Enforced()|
    ensures var field := c.Enforced()[n - 1];
      Missing(c, attrs, n) == Missing(c, attrs, n - 1) + (if c.source[field] !in attrs then [field] else [])
  {
  }

  predicate IsGiven(c: Constraint, attrs: Attrs, name: string) {
    name in c.source && c.source[name] in attrs
  }

  /** The names at the positions: increasing, of names whose source was not given, and of all of these. */
  ghost predicate ReportedAt(c: Constraint, attrs: Attrs, names: seq<string>, missing: seq<string>, at: seq<nat>) {
    && |at| == |missing|
    && (forall k :: 0 <= k < |at| ==> at[k] < |names| && missing[k] == names[at[k]])
    && (forall k, l :: 0 <= k < l < |at| ==> at[k] < at[l])
    && (forall j :: 0 <= j < |names| ==> (j in at <==> !IsGiven(c, attrs, names[j])))
  }

  lemma NextReported(c: Constraint, attrs: Attrs, names: seq<string>, missing: seq<string>, at: seq<nat>, name: string)
    requires ReportedAt(c, attrs, names, missing, at)
    ensures if IsGiven(c, attrs, name) then ReportedAt(c, attrs, names + [name], missing, at)
            else ReportedAt(c, attrs, names + [name], missing + [name], at + [|names|])
  {
    hide IsGiven;
    assert forall k :: 0 <= k < |at| ==> at[k] != |names|;
  }

  lemma EnforcedAt(c: Constraint, n: nat)
    requires c.Named() && 0 < n <= |c.Enforced()|
    ensures c.Enforced() == c.fields + c.conditionFields && c.Enforced()[n - 1] in c.source
    ensures c.Enforced()[..n] == c.Enforced()[..n - 1] + [c.Enforced()[n - 1]]
  {
  }

  /** Exactly the fields whose source was not given are reported, in their order, those of the constraint
      before those of its condition. */
  lemma {:induction false} MissingPositions(c: Constraint, attrs: Attrs, n: nat) returns (at: seq<nat>)
    requires c.Named() && n <= |c.Enforced()|
    ensures c.Enforced() == c.fields + c.conditionFields
    ensures ReportedAt(c, attrs, c.Enforced()[..n], Missing(c, attrs, n), at)
  {
    if n == 0 {
      at := [];
    } else {
      hide ReportedAt, Missing;
      at := MissingPositions(c, attrs, n - 1);
      NextMissing(c, attrs, n);
      EnforcedAt(c, n);
      var name := c.Enforced()[n - 1];
      NextReported(c, attrs, c.Enforced()[..n - 1], Missing(c, attrs, n - 1), at, name);
      if !IsGiven(c, attrs, name) { at := at + [n - 1]; }
    }
  }

  /** Fill in, on an update, every constrained attribute that was not provided. */
  method FillAttrs(attrs: Attrs, instance: Option<Instance>, sources: seq<string>) returns (filled: Attrs)
    requires instance.None? ==> forall s :: s in sources ==> s in attrs
    ensures forall s :: s in sources ==> s in filled && filled[s] == Column(Stored(attrs, instance), s)
    ensures forall s :: s in attrs ==> s in filled && filled[s] == attrs[s]
    ensures filled.Keys <= attrs.Keys + set s | s in sources
  {
    filled := attrs;
    if instance.Some? {
      var i := 0;
      while i < |sources|
        invariant 0 <= i <= |sources|
        invariant forall s :: s in sources[..i] ==> s in filled
        invariant forall s :: s in filled ==>
            (if s in attrs then filled[s] == attrs[s] else filled[s] == Column(instance.value.row, s))
        invariant attrs.Keys <= filled.Keys <= attrs.Keys + set s | s in sources
      {
        if sources[i] !in filled {
          filled := filled[sources[i] := Column(instance.value.row, sources[i])];
        }
        i := i + 1;
      }
      assert sources[..i] == sources;
    }
  }

  /** The rows matching the filled-in values, without the instance itself. */
  function Queryset(table: Table, filled: Attrs, instance: Option<Instance>, sources: seq<string>): Table {
    map p | p in table && Agrees(table[p], filled, sources) && Some(p) != KeyOf(instance) :: table[p]
  }

  /** `qs_exists_with_condition` */
  predicate ExistsWithCondition(queryset: Table, condition: Attrs -> bool, against: Attrs) {
    condition(against) && exists p :: p in queryset && condition(queryset[p])
  }

  lemma QuerysetHoldsTwins(table: Table, filled: Attrs, values: Attrs, instance: Option<Instance>, c: Constraint)
    requires c.Named() && forall s :: s in c.Sources() ==> Column(filled, s) == Column(values, s)
    ensures var queryset := Queryset(table, filled, instance, c.Sources());
      (exists p :: p in queryset && c.condition(queryset[p])) <==> Twin(table, values, KeyOf(instance), c)
  {
    var queryset := Queryset(table, filled, instance, c.Sources());
    if p :| p in queryset && c.condition(queryset[p]) {
      assert Agrees(table[p], values, c.Sources()) && Some(p) != KeyOf(instance);
    }
    if Twin(table, values, KeyOf(instance), c) {
      var p :| p in table && Some(p) != KeyOf(instance) && Agrees(table[p], values, c.Sources())
        && c.condition(table[p]);
      assert Agrees(table[p], filled, c.Sources());
      assert p in queryset;
    }
  }

  /** All the values on a create, only the changed ones on an update. */
  method CheckedValues(filled: Attrs, attrs: Attrs, instance: Option<Instance>, sources: seq<string>)
    returns (checkedValues: seq<Value>)
    requires forall s :: s in sources ==> s in filled && filled[s] == Column(Stored(attrs, instance), s)
    ensures forall v :: v in checkedValues <==> IsChecked(v, Stored(attrs, instance), instance, sources)
  {
    checkedValues := [];
    ghost var values := Stored(attrs, instance);
    var i := 0;
    while i < |sources|
      invariant 0 <= i <= |sources|
      invariant forall v :: v in checkedValues <==> IsChecked(v, values, instance, sources[..i])
    {
      assert sources[..i + 1] == sources[..i] + [sources[i]];
      var value := filled[sources[i]];
      if instance.None? || value != Column(instance.value.row, sources[i]) {
        assert Checks(values, instance, sources[i]);
        assert IsChecked(value, values, instance, sources[..i + 1]);
        checkedValues := checkedValues + [value];
      }
      i := i + 1;
    }
    assert sources[..i] == sources;
  }

  /** The values of the condition's fields. */
  function ConditionKwargs(attrs: Attrs, instance: Option<Instance>, sources: seq<string>): (r: Attrs)
    ensures Agrees(r, Stored(attrs, instance), sources)
  {
    map s | s in sources ::
      if s in attrs then attrs[s] else if instance.Some? then Column(instance.value.row, s) else Null
  }

  lemma AllGiven(names: seq<string>, sources: seq<string>, source: map<string, string>, attrs: Attrs)
    requires |sources| == |names| && forall i :: 0 <= i < |names| ==>
        names[i] in source && sources[i] == source[names[i]]
    ensures (forall s :: s in sources ==> s in attrs) <==> forall i :: 0 <= i < |names| ==> source[names[i]] in attrs
  {
    forall i | 0 <= i < |names|
      ensures sources[i] in sources
    {
    }
  }

  lemma NothingMissing(c: Constraint, attrs: Attrs)
    requires c.Named()
    ensures Missing(c, attrs, |c.Enforced()|) == []
       <==> (forall s :: s in c.Sources() ==> s in attrs) && (forall s :: s in c.ConditionSources() ==> s in attrs)
  {
    hide Missing;
    AllGiven(c.fields, c.Sources(), c.source, attrs);
    AllGiven(c.conditionFields, c.ConditionSources(), c.source, attrs);
    var enforced, n := c.Enforced(), |c.fields|;
    forall i | 0 <= i < n
      ensures enforced[i] == c.fields[i]
    {
    }
    forall i | 0 <= i < |c.conditionFields|
      ensures enforced[n + i] == c.conditionFields[i]
    {
    }
  }

  lemma CheckedAre(checkedValues: seq<Value>, values: Attrs, instance: Option<Instance>, sources: seq<string>)
    requires forall v :: v in checkedValues <==> IsChecked(v, values, instance, sources)
    ensures checkedValues != [] <==> exists s :: s in sources && Checks(values, instance, s)
    ensures Null in checkedValues
        <==> exists s :: s in sources && Checks(values, instance, s) && Column(values, s) == Null
  {
    if checkedValues != [] { assert checkedValues[0] in checkedValues; }
    if s :| s in sources && Checks(values, instance, s) {
      assert IsChecked(Column(values, s), values, instance, sources);
    }
  }

  /** The final test of the validator, on what its steps have computed. */
  lemma TestIsRejection(table: Table, filled: Attrs, attrs: Attrs, checkedValues: seq<Value>,
                        instance: Option<Instance>, c: Constraint)
    requires c.Valid() && forall s :: s in c.Sources() ==> Column(filled, s) == Column(Stored(attrs, instance), s)
    requires forall v :: v in checkedValues <==> IsChecked(v, Stored(attrs, instance), instance, c.Sources())
    ensures var queryset := Queryset(table, filled, instance, c.Sources());
      var against := ConditionKwargs(attrs, instance, c.ConditionSources());
      checkedValues != [] && Null !in checkedValues && ExistsWithCondition(queryset, c.condition, against)
      <==> Rejects(table, Stored(attrs, instance), instance, c)
  {
    var values := Stored(attrs, instance);
    QuerysetHoldsTwins(table, filled, values, instance, c);
    CheckedAre(checkedValues, values, instance, c.Sources());
    assert c.condition(ConditionKwargs(attrs, instance, c.ConditionSources())) == c.condition(values);
    hide Stored, Queryset, IsChecked, Twin, ConditionKwargs, Agrees, Checks;
  }

  /** The validator called with the validated data. */
  method Call(c: Constraint, attrs: Attrs, instance: Option<Instance>, table: Table) returns (verdict: Verdict)
    requires c.Valid()
    ensures var missing := if instance.Some? then [] else Missing(c, attrs, |c.Enforced()|);
      if missing != [] then verdict == Required(missing)
      else verdict == if Rejects(table, Stored(attrs, instance), instance, c) then NotUnique else Accepted
  {
    hide Rejects, Missing, Queryset, ExistsWithCondition, IsChecked, Agrees, Stored;
    var missing := EnforceRequiredFields(c, attrs, instance);
    if missing != [] {
      return Required(missing);
    }
    if instance.None? { NothingMissing(c, attrs); }
    var sources := c.Sources();
    var filled := FillAttrs(attrs, instance, sources);
    var queryset := Queryset(table, filled, instance, sources);
    var checkedValues := CheckedValues(filled, attrs, instance, sources);
    var against := ConditionKwargs(attrs, instance, c.ConditionSources());
    TestIsRejection(table, filled, attrs, checkedValues, instance, c);
    if checkedValues != [] && Null !in checkedValues && ExistsWithCondition(queryset, c.condition, against) {
      verdict := NotUnique;
    } else {
      verdict := Accepted;
    }
  }

  // ----- what the guard is for -----

  /** The validator's answer, as a function. */
  ghost predicate Accepts(c: Constraint, attrs: Attrs, instance: Option<Instance>, table: Table)
    requires c.Named()
  {
    && (instance.None? ==> Missing(c, attrs, |c.Enforced()|) == [])
    && !Rejects(table, Stored(attrs, instance), instance, c)
  }

  /** Clashing is symmetric. */
  lemma ClashBothWays(a: Attrs, b: Attrs, c: Constraint)
    requires c.Named()
    ensures Clash(a, b, c) <==> Clash(b, a, c)
  {
  }

  /** A table stays unique exactly if the new contents of a row clash with no other row. */
  lemma UniqueWith(table: Table, pk: nat, values: Attrs, c: Constraint)
    requires c.Named() && Unique(table, c)
    ensures Unique(table[pk := values], c)
       <==> forall r :: r in table && r != pk ==> !Clash(table[r], values, c)
  {
    hide Clash;
    var next := table[pk := values];
    if Unique(next, c) {
      forall r | r in table && r != pk
        ensures !Clash(table[r], values, c)
      {
        assert !Clash(next[r], next[pk], c);
      }
    }
    if forall r :: r in table && r != pk ==> !Clash(table[r], values, c) {
      forall p, q | p in next && q in next && p != q
        ensures !Clash(next[p], next[q], c)
      {
        ClashBothWays(next[p], next[q], c);
        if p != pk && q != pk { assert !Clash(table[p], table[q], c); }
      }
    }
  }

  /** A create is accepted exactly if every constrained field and every condition field is given and
      the table with the new row is still unique. */
  lemma CreateExact(c: Constraint, attrs: Attrs, table: Table, pk: nat)
    requires c.Named() && c.fields != [] && pk !in table && Unique(table, c)
    ensures Accepts(c, attrs, None, table)
       <==> && (forall s :: s in c.Sources() ==> s in attrs) && (forall s :: s in c.ConditionSources() ==> s in attrs)
            && Unique(table[pk := attrs], c)
  {
    hide Missing;
    NothingMissing(c, attrs);
    UniqueWith(table, pk, attrs, c);
    var sources := c.Sources();
    assert sources[0] in sources && Checks(attrs, None, sources[0]);
    assert forall s :: s in sources ==> Checks(attrs, None, s);
  }

  /** The row changes in no constrained column, but comes to meet the condition, and another row that
      meets it holds the same non-NULL values. */
  ghost predicate Slips(table: Table, values: Attrs, instance: Instance, c: Constraint)
    requires c.Named()
  {
    && Agrees(instance.row, values, c.Sources())
    && !c.condition(instance.row)
    && exists r :: r in table && r != instance.pk && Clash(table[r], values, c)
  }

  /** An accepted update keeps the table unique, despite the values it skips, unless it slips. */
  lemma UpdateSafeIff(c: Constraint, attrs: Attrs, table: Table, pk: nat)
    requires c.Named() && pk in table && Unique(table, c)
    requires Accepts(c, attrs, Some(Instance(pk, table[pk])), table)
    ensures var instance := Instance(pk, table[pk]);
      Unique(table[pk := table[pk] + attrs], c) <==> !Slips(table, Stored(attrs, Some(instance)), instance, c)
  {
    var instance := Instance(pk, table[pk]);
    var values := Stored(attrs, Some(instance));
    UniqueWith(table, pk, values, c);
    forall r | r in table && r != pk && Clash(table[r], values, c)
      ensures Slips(table, values, instance, c)
    {
      assert !Clash(table[pk], table[r], c);
      if exists s :: s in c.Sources() && Checks(values, Some(instance), s) {
        assert Twin(table, values, Some(pk), c);
        assert Rejects(table, values, Some(instance), c);
      }
    }
  }

  /** An update turned down although the table would stay unique: it keeps a NULL, changes other
      values to non-NULL ones, and another row agrees with it, NULL matching NULL. */
  ghost predicate OverRejects(table: Table, values: Attrs, instance: Instance, c: Constraint)
    requires c.Named()
  {
    var sources := c.Sources();
    && (exists s :: s in sources && Column(values, s) == Column(instance.row, s) == Null)
    && (exists s :: s in sources && Column(values, s) != Column(instance.row, s))
    && (forall s :: s in sources && Column(values, s) != Column(instance.row, s) ==> Column(values, s) != Null)
    && c.condition(values)
    && exists r :: r in table && r != instance.pk && Agrees(table[r], values, sources) && c.condition(table[r])
  }

  lemma OverRejectsAre(table: Table, values: Attrs, instance: Instance, c: Constraint)
    requires c.Named()
    ensures OverRejects(table, values, instance, c)
       <==> Rejects(table, values, Some(instance), c) && !NoNulls(values, c.Sources())
  {
    var sources := c.Sources();
    if Rejects(table, values, Some(instance), c) && !NoNulls(values, sources) {
      var s :| s in sources && Column(values, s) == Null;
      assert !Checks(values, Some(instance), s);
      var t :| t in sources && Checks(values, Some(instance), t);
      assert Column(values, t) != Column(instance.row, t);
      forall u | u in sources && Column(values, u) != Column(instance.row, u)
        ensures Column(values, u) != Null
      {
        assert Checks(values, Some(instance), u);
      }
    }
    if OverRejects(table, values, instance, c) {
      var t :| t in sources && Column(values, t) != Column(instance.row, t);
      assert Checks(values, Some(instance), t);
      assert Twin(table, values, KeyOf(Some(instance)), c);
    }
  }

  /** A rejected update would break the table, unless it keeps a NULL. */
  lemma RejectedBreaks(c: Constraint, values: Attrs, table: Table, pk: nat)
    requires c.Named() && pk in table && Unique(table, c)
    requires Rejects(table, values, Some(Instance(pk, table[pk])), c)
    ensures Unique(table[pk := values], c) <==> !NoNulls(values, c.Sources())
  {
    UniqueWith(table, pk, values, c);
    if NoNulls(values, c.Sources()) {
      var r :| r in table && Some(r) != Some(pk) && Agrees(table[r], values, c.Sources()) && c.condition(table[r]);
      assert Clash(table[r], values, c);
    }
  }

  lemma RejectedNeverSlips(c: Constraint, values: Attrs, table: Table, instance: Instance)
    requires c.Named() && Rejects(table, values, Some(instance), c)
    ensures !Slips(table, values, instance, c)
  {
  }

  /** An update is accepted exactly if the table stays unique, except in those two cases. */
  lemma UpdateExact(c: Constraint, attrs: Attrs, table: Table, pk: nat)
    requires c.Named() && pk in table && Unique(table, c)
    ensures var instance := Instance(pk, table[pk]);
      var values := Stored(attrs, Some(instance));
      (Accepts(c, attrs, Some(instance), table) <==> Unique(table[pk := table[pk] + attrs], c))
      <==> !OverRejects(table, values, instance, c) && !Slips(table, values, instance, c)
  {
    hide OverRejects, Slips, Unique, NoNulls, Rejects;
    var instance := Instance(pk, table[pk]);
    var values := Stored(attrs, Some(instance));
    OverRejectsAre(table, values, instance, c);
    if Rejects(table, values, Some(instance), c) {
      RejectedBreaks(c, values, table, pk);
      RejectedNeverSlips(c, values, table, instance);
    } else {
      UpdateSafeIff(c, attrs, table, pk);
    }
  }

  /** What a caller can check beforehand: an update that leaves no NULL in the constrained columns and
      does not make the row meet the condition anew is accepted exactly if the table stays unique. */
  lemma PlainUpdateExact(c: Constraint, attrs: Attrs, table: Table, pk: nat)
    requires c.Named() && pk in table && Unique(table, c)
    requires NoNulls(table[pk] + attrs, c.Sources())
    requires c.condition(table[pk] + attrs) ==> c.condition(table[pk])
    ensures Accepts(c, attrs, Some(Instance(pk, table[pk])), table) <==> Unique(table[pk := table[pk] + attrs], c)
  {
    hide Unique, Accepts, Rejects;
    UpdateExact(c, attrs, table, pk);
  }

  /** The first case is real: rows (NULL, 1) and (NULL, 2); setting the second column of the first row
      to 2 is turned down, though NULLs never clash. */
  lemma OverRejectionHappens()
    ensures var c := Constraint(["a", "b"], [], map["a" := "a", "b" := "b"], (row: Attrs) => true);
      var table: Table := map[1 := map["a" := Null, "b" := Of(1)], 2 := map["a" := Null, "b" := Of(2)]];
      var attrs: Attrs := map["b" := Of(2)];
      && c.Valid() && Unique(table, c) && Unique(table[1 := table[1] + attrs], c)
      && !Accepts(c, attrs, Some(Instance(1, table[1])), table)
  {
    var c := Constraint(["a", "b"], [], map["a" := "a", "b" := "b"], (row: Attrs) => true);
    var table: Table := map[1 := map["a" := Null, "b" := Of(1)], 2 := map["a" := Null, "b" := Of(2)]];
    var values := table[1] + map["b" := Of(2)];
    var sources := c.Sources();
    assert sources[0] == "a" && sources[1] == "b";
    assert Column(table[1], "a") == Null && Column(table[2], "a") == Null && Column(values, "a") == Null;
    assert "a" in sources && "b" in sources;
    assert Agrees(table[2], values, sources);
    assert Checks(values, Some(Instance(1, table[1])), "b");
    assert Rejects(table, values, Some(Instance(1, table[1])), c);
  }

  /** The second case is real: codes must be unique among active rows; an inactive row with the code
      of an active one is activated, and accepted since its code has not changed. */
  lemma SlipHappens()
    ensures var c := Constraint(["code"], ["active"], map["code" := "code", "active" := "active"],
                                (row: Attrs) => Column(row, "active") == Of(1));
      var table: Table := map[1 := map["code" := Of(7), "active" := Of(0)],
                              2 := map["code" := Of(7), "active" := Of(1)]];
      var attrs: Attrs := map["active" := Of(1)];
      && c.Valid() && Unique(table, c) && Accepts(c, attrs, Some(Instance(1, table[1])), table)
      && !Unique(table[1 := table[1] + attrs], c)
  {
    var c := Constraint(["code"], ["active"], map["code" := "code", "active" := "active"],
                        (row: Attrs) => Column(row, "active") == Of(1));
    var table: Table := map[1 := map["code" := Of(7), "active" := Of(0)], 2 := map["code" := Of(7), "active" := Of(1)]];
    var values := table[1] + map["active" := Of(1)];
    assert c.Sources() == ["code"] && c.ConditionSources() == ["active"];
    assert "active" in c.ConditionSources();
    assert Clash(values, table[2], c);
    var next := table[1 := values];
    assert next[2] == table[2] && next[1] == values;
  }

  // ----- runs -----

  datatype Operation = Create(pk: nat, attrs: Attrs) | Update(pk: nat, attrs: Attrs)

  /** One write, validated against the current table and applied if it is accepted. */
  ghost function Apply(c: Constraint, table: Table, op: Operation): Table
    requires c.Named()
  {
    match op
    case Create(pk, attrs) =>
      if pk !in table && Accepts(c, attrs, None, table) then table[pk := attrs] else table
    case Update(pk, attrs) =>
      if pk in table && Accepts(c, attrs, Some(Instance(pk, table[pk])), table)
      then table[pk := table[pk] + attrs] else table
  }

  ghost function Run(c: Constraint, table: Table, ops: seq<Operation>): Table
    requires c.Named()
    decreases |ops|
  {
    if ops == [] then table else Run(c, Apply(c, table, ops[0]), ops[1..])
  }

  /** A create is written exactly if it is complete and keeps the table unique, and so is an update
      that leaves no NULL and does not make the row meet the condition anew; otherwise nothing changes. */
  lemma WritesWhatStaysUnique(c: Constraint, table: Table, op: Operation)
    requires c.Valid() && c.fields != [] && Unique(table, c)
    ensures op.Create? ==>
      var complete := forall s :: s in c.Sources() + c.ConditionSources() ==> s in op.attrs;
      Apply(c, table, op)
      == if op.pk !in table && complete && Unique(table[op.pk := op.attrs], c) then table[op.pk := op.attrs] else table
    ensures op.Update? && op.pk !in table ==> Apply(c, table, op) == table
    ensures op.Update? && op.pk in table ==>
      var next := table[op.pk] + op.attrs;
      NoNulls(next, c.Sources()) && (c.condition(next) ==> c.condition(table[op.pk])) ==>
        Apply(c, table, op) == if Unique(table[op.pk := next], c) then table[op.pk := next] else table
  {
    hide Unique, Accepts, NoNulls;
    match op {
      case Create(pk, attrs) =>
        if pk !in table { CreateExact(c, attrs, table, pk); }
      case Update(pk, attrs) =>
        if pk in table && NoNulls(table[pk] + attrs, c.Sources())
           && (c.condition(table[pk] + attrs) ==> c.condition(table[pk])) {
          PlainUpdateExact(c, attrs, table, pk);
        }
    }
  }

  /** A run applies its operations one after the other. */
  lemma {:induction false} RunEndsWith(c: Constraint, table: Table, ops: seq<Operation>, op: Operation)
    requires c.Named()
    ensures Run(c, table, []) == table
    ensures Run(c, table, ops + [op]) == Apply(c, Run(c, table, ops), op)
    decreases |ops|
  {
    hide Apply;
    if ops == [] {
      assert ([] + [op])[1..] == [];
    } else {
      assert (ops + [op])[1..] == ops[1..] + [op];
      RunEndsWith(c, Apply(c, table, ops[0]), ops[1..], op);
    }
  }

  /** No update writes a field of the condition; without a condition that is always so. */
  ghost predicate KeepsConditions(c: Constraint, ops: seq<Operation>)
    requires c.Named()
  {
    forall i, s :: 0 <= i < |ops| && ops[i].Update? && s in c.ConditionSources() ==> s !in ops[i].attrs
  }

  lemma ConditionKept(c: Constraint, row: Attrs, attrs: Attrs)
    requires c.Valid() && forall s :: s in c.ConditionSources() ==> s !in attrs
    ensures c.condition(row + attrs) == c.condition(row)
  {
    assert Agrees(row + attrs, row, c.ConditionSources());
  }

  lemma UpdateStaysUnique(c: Constraint, attrs: Attrs, table: Table, pk: nat)
    requires c.Valid() && pk in table && Unique(table, c)
    requires Accepts(c, attrs, Some(Instance(pk, table[pk])), table)
    requires forall s :: s in c.ConditionSources() ==> s !in attrs
    ensures Unique(table[pk := table[pk] + attrs], c)
  {
    hide Unique, Accepts;
    ConditionKept(c, table[pk], attrs);
    UpdateSafeIff(c, attrs, table, pk);
  }

  /** Over any run of creates and partial updates that leave the fields of the condition alone, no two
      rows ever come to share all constrained values with none of them NULL. */
  lemma {:induction false} RunStaysUnique(c: Constraint, table: Table, ops: seq<Operation>)
    requires c.Valid() && c.fields != [] && Unique(table, c) && KeepsConditions(c, ops)
    ensures Unique(Run(c, table, ops), c)
    decreases |ops|
  {
    hide Unique, Accepts;
    if ops != [] {
      match ops[0] {
        case Create(pk, attrs) =>
          if pk !in table { CreateExact(c, attrs, table, pk); }
        case Update(pk, attrs) =>
          if pk in table && Accepts(c, attrs, Some(Instance(pk, table[pk])), table) {
            UpdateStaysUnique(c, attrs, table, pk);
          }
      }
      assert forall i :: 0 <= i < |ops[1..]| ==> ops[1..][i] == ops[i + 1];
      RunStaysUnique(c, Apply(c, table, ops[0]), ops[1..]);
    }
  }
}
