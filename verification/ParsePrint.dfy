/** `to_representation`, and its being the inverse of validation on canonical data. */
module ParsePrint {
  import opened Prelude
  import opened NestedValues
  import opened FieldTrees
  import opened BatchValidation

  // ----- representation; None stands for an exception -----

  datatype Attribute = Found(value: Value) | Skipped | Missing

  /** `Field.get_attribute` */
  function FieldAttribute(f: Field, instance: Value, source: seq<string>, partial: bool): Attribute {
    match Lookup(instance, source)
    case Some(v) => Found(v)
    case None =>
      if f.default.Some? then (if partial then Skipped else Found(f.default.value))
      else if f.allowNull then Found(Null)
      else if !f.required then Skipped
      else Missing
  }

  /** A value with the null check that serializers, lists and dictionaries make. */
  function RepresentItem(f: Field, value: Value, partial: bool): Option<Value>
    decreases f, 1
  {
    if value == Null then Some(Null) else Represent(f.kind, value, partial)
  }

  function Represent(kind: Kind, value: Value, partial: bool): Option<Value>
    decreases kind, 0
  {
    match kind
    case Leaf(_, show) => Some(show(value))
    case ListField(child, _) =>
      if !value.List? then None else RepresentAll(child, value.items, true, partial)
    case DictField(child, _) =>
      if !value.Dict? then None else RepresentEntries(child, value.entries, partial)
    case Serializer(fields, _) =>
      (match RepresentFields(fields, value, partial) case Some(ret) => Some(Dict(ret)) case None => None)
    case ListSerializer(child, _, _, _, _) =>
      if !value.List? then None else RepresentAll(child, value.items, false, partial)
  }

  /** The list comprehensions of both list kinds; only `ListField` lets null items through. */
  function RepresentAll(child: Field, items: seq<Value>, nullCheck: bool, partial: bool): Option<Value>
    decreases child, 2
  {
    var parts := seq(|items|, i requires 0 <= i < |items| =>
      if nullCheck then RepresentItem(child, items[i], partial) else Represent(child.kind, items[i], partial));
    if exists i :: 0 <= i < |parts| && parts[i].None? then None
    else Some(List(seq(|parts|, i requires 0 <= i < |parts| => if parts[i].Some? then parts[i].value else Null)))
  }

  function RepresentEntries(child: Field, entries: Entries, partial: bool): Option<Value>
    decreases child, 2
  {
    var parts := map k | k in entries :: RepresentItem(child, entries[k], partial);
    if exists k :: k in parts && parts[k].None? then None
    else Some(Dict(map k | k in parts :: if parts[k].Some? then parts[k].value else Null))
  }

  /** `Serializer.to_representation` */
  function RepresentFields(fields: seq<Decl>, instance: Value, partial: bool): Option<Entries>
    decreases fields, 0
  {
    if fields == [] then Some(map[])
    else
      var before := RepresentFields(fields[..|fields| - 1], instance, partial);
      var d := fields[|fields| - 1];
      if before.None? then None
      else match FieldAttribute(d.field, instance, d.source, partial)
        case Skipped => before
        case Missing => None
        case Found(value) =>
          match RepresentItem(d.field, value, partial)
          case None => None
          case Some(part) => Some(before.value[d.name := part])
  }

  // ----- when printing undoes parsing -----

  ghost predicate KeepsValues(validate: Parser) {
    forall v :: validate(v).Produced? ==> validate(v).value == v
  }

  ghost predicate ApartSources(fields: seq<Decl>) {
    && (forall i :: 0 <= i < |fields| ==> fields[i].source != [])
    && (forall i, j :: 0 <= i < j < |fields| ==> Apart(fields[i].source, fields[j].source))
  }

  /** Sources are prefix-free at every serializer, `.validate()` and the hooks of fields only check, and a
      batch does not lose items to empty errors. */
  ghost predicate Reversible(kind: Kind)
    decreases kind, 0
  {
    match kind
    case Leaf(_, _) => true
    case ListField(child, _) => Reversible(child.kind)
    case DictField(child, _) => Reversible(child.kind)
    case Serializer(fields, validate) => ApartSources(fields) && KeepsValues(validate) && ReversibleFields(fields)
    case ListSerializer(child, _, _, _, validate) => KeepsValues(validate) && Loud(child) && Reversible(child.kind)
  }

  ghost predicate KeepsHooked(d: Decl) {
    d.hook.Some? ==> KeepsValues(d.hook.value)
  }

  ghost predicate ReversibleFields(fields: seq<Decl>)
    decreases fields, 0
  {
    forall i :: 0 <= i < |fields| ==> Reversible(fields[i].field.kind) && KeepsHooked(fields[i])
  }

  ghost predicate Declared(fields: seq<Decl>, name: string) {
    exists i :: 0 <= i < |fields| && fields[i].name == name
  }

  /** The leaves of the data print as they were given, no key is undeclared, a missing key is one
      that also prints as missing, and the items of a list serializer are not null. */
  ghost predicate Canonical(f: Field, data: Value)
    decreases f, 0
  {
    data != Null ==>
      match f.kind
      case Leaf(parse, show) =>
        parse(data).Produced? ==> parse(data).value != Null && show(parse(data).value) == data
      case ListField(child, _) => data.List? ==> forall i :: 0 <= i < |data.items| ==> Canonical(child, data.items[i])
      case DictField(child, _) => data.Dict? ==> forall k :: k in data.entries ==> Canonical(child, data.entries[k])
      case Serializer(fields, _) =>
        data.Dict? ==>
          && (forall k :: k in data.entries ==> Declared(fields, k))
          && (forall i :: 0 <= i < |fields| ==> CanonicalEntry(fields[i], data.entries))
      case ListSerializer(child, _, _, _, _) =>
        data.List? ==> forall i :: 0 <= i < |data.items| ==> data.items[i] != Null && Canonical(child, data.items[i])
  }

  ghost predicate CanonicalEntry(d: Decl, entries: Entries)
    decreases d
  {
    if d.name in entries then Canonical(d.field, entries[d.name])
    else d.field.default.None? && !d.field.allowNull
  }

  // ----- the serializer loop -----

  /** What the loop has done for field `i`: its value can be read back at its source, or there is
      nothing to read because the field was not given. */
  ghost predicate Readback(d: Decl, data: Entries, ret: Entries) {
    if d.name in data then
      var o := FieldOutcome(d, data, false);
      o.Ok? && Lookup(Dict(ret), d.source) == Some(o.value)
    else !d.field.required && Lookup(Dict(ret), d.source).None?
  }

  lemma {:induction false} NeverSkips(kind: Kind, data: Value, partial: bool)
    ensures !ToInternalValue(kind, data, partial).Skip?
  {
    hide Gather;
  }

  /** Only a value that was not given can be skipped. */
  lemma {:induction false} GivenNeverSkips(f: Field, data: Value, partial: bool)
    ensures !RunValidation(f, Some(data), partial).Skip?
  {
    hide RunValidators, CollectList, CollectDict, CollectBatch, Gather;
    if data != Null { NeverSkips(f.kind, data, partial); }
  }

  lemma {:induction false} MissingOutcome(f: Field)
    requires f.default.None?
    ensures RunValidation(f, None, false) == if f.required then Error("required") else Skip
  {
  }

  lemma {:induction false} OnlyMissingSkips(d: Decl, data: Entries)
    requires CanonicalEntry(d, data)
    ensures FieldOutcome(d, data, false).Skip? ==> d.name !in data && !d.field.required
    ensures FieldOutcome(d, data, false).Ok? ==> d.name in data
  {
    hide Canonical;
    if d.name in data {
      GivenNeverSkips(d.field, data[d.name], false);
    } else {
      MissingOutcome(d.field);
    }
    hide RunValidation;
  }

  lemma {:induction false} ErrorsGrow(errors: map<Key, Detail>, key: Key, detail: Detail)
    ensures errors[key := detail] != map[]
  {
    assert key in errors[key := detail];
  }

  lemma {:induction false} StepReadsBack(fields: seq<Decl>, data: Entries, n: nat, before: Gathered, after: Gathered)
    requires 0 < n <= |fields| && ApartSources(fields)
    requires before == Gather(fields[..n - 1], data, false) && after == Gather(fields[..n], data, false)
    requires before.Gathered? && after.Gathered? && after.errors == map[]
    requires CanonicalEntry(fields[n - 1], data)
    requires forall i :: 0 <= i < n - 1 ==> Readback(fields[i], data, before.ret)
    requires forall i :: n - 1 <= i < |fields| ==>
        Lookup(Dict(before.ret), fields[i].source).None? && Settable(before.ret, fields[i].source)
    ensures forall i :: 0 <= i < n ==> Readback(fields[i], data, after.ret)
    ensures forall i :: n <= i < |fields| ==>
        Lookup(Dict(after.ret), fields[i].source).None? && Settable(after.ret, fields[i].source)
  {
    hide Canonical, FieldOutcome;
    var d := fields[n - 1];
    assert fields[..n][..n - 1] == fields[..n - 1] && fields[..n][n - 1] == d;
    var o := FieldOutcome(d, data, false);
    OnlyMissingSkips(d, data);
    if o.Fail? { ErrorsGrow(before.errors, Name(d.name), o.detail); }
    if o.Ok? {
      SetSucceeds(before.ret, d.source, o.value);
      GetAfterSet(before.ret, d.source, o.value);
      forall i | 0 <= i < |fields| && i != n - 1
        ensures Lookup(Dict(after.ret), fields[i].source) == Lookup(Dict(before.ret), fields[i].source)
        ensures Settable(before.ret, fields[i].source) ==> Settable(after.ret, fields[i].source)
      {
        assert Apart(d.source, fields[i].source);
        SetElsewhere(before.ret, d.source, o.value, fields[i].source);
        if Settable(before.ret, fields[i].source) {
          SettableElsewhere(before.ret, d.source, o.value, fields[i].source);
        }
      }
    }
  }

  lemma {:induction false} GatherReadsBack(fields: seq<Decl>, data: Entries, n: nat)
    requires n <= |fields| && ApartSources(fields)
    requires forall i :: 0 <= i < n ==> CanonicalEntry(fields[i], data)
    requires var g := Gather(fields[..n], data, false); g.Gathered? && g.errors == map[]
    ensures var ret := Gather(fields[..n], data, false).ret;
      && (forall i :: 0 <= i < n ==> Readback(fields[i], data, ret))
      && (forall i :: n <= i < |fields| ==>
           Lookup(Dict(ret), fields[i].source).None? && Settable(ret, fields[i].source))
  {
    hide Canonical, FieldOutcome;
    if n == 0 {
      forall i | 0 <= i < |fields|
        ensures Settable(map[], fields[i].source)
      {
        EmptySettable(fields[i].source);
      }
    } else {
      assert fields[..n][..n - 1] == fields[..n - 1];
      GatherReadsBack(fields, data, n - 1);
      StepReadsBack(fields, data, n, Gather(fields[..n - 1], data, false), Gather(fields[..n], data, false));
    }
  }

  /** A hook that only checks leaves the field's outcome as it is. */
  lemma {:induction false} HookKeeps(d: Decl, data: Entries)
    requires KeepsHooked(d) && d.name in data && FieldOutcome(d, data, false).Ok?
    ensures RunValidation(d.field, Some(data[d.name]), false) == FieldOutcome(d, data, false)
  {
    hide RunValidation;
  }

  // ----- the inverse law -----

  /** Validators and `.validate()` leave the parsed value as it is. */
  lemma {:induction false} FinishKeeps(f: Field, data: Value)
    requires Reversible(f.kind) && data != Null && RunValidation(f, Some(data), false).Ok?
    ensures ToInternalValue(f.kind, data, false) == RunValidation(f, Some(data), false)
  {
    hide RunValidators, ToInternalValue;
  }

  /** For canonical data, whatever validation makes of it prints as the data again. */
  lemma {:induction false} ParseThenPrint(f: Field, data: Value)
    requires Reversible(f.kind) && Canonical(f, data)
    requires RunValidation(f, Some(data), false).Ok?
    ensures var v := RunValidation(f, Some(data), false).value;
      RepresentItem(f, v, false) == Some(data) && (v == Null <==> data == Null)
    decreases f, 1
  {
    if data != Null {
      FinishKeeps(f, data);
      KindParsePrint(f, data);
    }
  }

  /** With a loud child, a batch that succeeds has collected every item. */
  lemma {:induction false} BatchIsList(child: Field, items: seq<Value>)
    requires Loud(child) && CollectBatch(ItemOutcomes(child, items, false)).Ok?
    ensures CollectBatch(ItemOutcomes(child, items, false)) == CollectList(ItemOutcomes(child, items, false))
  {
    hide RunValidation, BatchErrors, BatchValues, Loud;
    var outcomes := ItemOutcomes(child, items, false);
    assert Orderly(outcomes);
    hide CollectBatch;
    BatchAligned(child, items, false);
  }

  lemma {:induction false} KindParsePrint(f: Field, data: Value)
    requires Reversible(f.kind) && Canonical(f, data) && data != Null
    requires ToInternalValue(f.kind, data, false).Ok?
    ensures var v := ToInternalValue(f.kind, data, false).value;
      v != Null && Represent(f.kind, v, false) == Some(data)
    decreases f, 0
  {
    match f.kind {
      case Leaf(_, _) =>
      case ListField(child, _) =>
        ItemsParsePrint(child, data.items, true);
      case DictField(child, _) =>
        EntriesParsePrint(child, data.entries);
      case Serializer(fields, _) =>
        FieldsParsePrint(fields, data.entries);
      case ListSerializer(child, _, _, _, _) =>
        BatchIsList(child, data.items);
        ItemsParsePrint(child, data.items, false);
    }
  }

  lemma {:induction false} CollectedList(outcomes: seq<Outcome>)
    requires CollectList(outcomes).Ok?
    ensures CollectList(outcomes).value.List? && |CollectList(outcomes).value.items| == |outcomes|
    ensures forall i :: 0 <= i < |outcomes| ==> outcomes[i] == Ok(CollectList(outcomes).value.items[i])
  {
    forall i: nat | i < |outcomes|
      ensures !outcomes[i].Fail?
    {
      assert outcomes[i].Fail? ==> Index(i) in ListErrors(outcomes);
    }
  }

  lemma {:induction false} CollectedDict(outcomes: map<string, Outcome>)
    requires CollectDict(outcomes).Ok?
    ensures CollectDict(outcomes).value.Dict? && CollectDict(outcomes).value.entries.Keys == outcomes.Keys
    ensures forall k :: k in outcomes ==> outcomes[k] == Ok(CollectDict(outcomes).value.entries[k])
  {
    forall k | k in outcomes
      ensures !outcomes[k].Fail?
    {
      assert outcomes[k].Fail? ==> Name(k) in DictErrors(outcomes);
    }
  }

  lemma {:induction false} AllRepresented(child: Field, values: seq<Value>, items: seq<Value>, nullCheck: bool)
    requires |values| == |items|
    requires forall i :: 0 <= i < |items| ==> RepresentItem(child, values[i], false) == Some(items[i])
    requires nullCheck || forall i :: 0 <= i < |items| ==> values[i] != Null
    ensures RepresentAll(child, values, nullCheck, false) == Some(List(items))
  {
    hide Represent;
    var parts := seq(|values|, i requires 0 <= i < |values| =>
      if nullCheck then RepresentItem(child, values[i], false) else Represent(child.kind, values[i], false));
    forall i | 0 <= i < |parts|
      ensures parts[i] == Some(items[i])
    {
      assert RepresentItem(child, values[i], false) == Some(items[i]);
    }
    assert seq(|parts|, i requires 0 <= i < |parts| => if parts[i].Some? then parts[i].value else Null) == items;
  }

  lemma {:induction false} EveryRepresented(child: Field, values: Entries, entries: Entries)
    requires values.Keys == entries.Keys
    requires forall k :: k in entries ==> RepresentItem(child, values[k], false) == Some(entries[k])
    ensures RepresentEntries(child, values, false) == Some(Dict(entries))
  {
    hide RepresentItem;
    var parts := map k | k in values :: RepresentItem(child, values[k], false);
    assert (map k | k in parts :: if parts[k].Some? then parts[k].value else Null) == entries;
  }

  lemma {:induction false} ItemsParsePrint(child: Field, items: seq<Value>, nullCheck: bool)
    requires Reversible(child.kind)
    requires forall i :: 0 <= i < |items| ==> Canonical(child, items[i]) && (nullCheck || items[i] != Null)
    requires CollectList(ItemOutcomes(child, items, false)).Ok?
    ensures var v := CollectList(ItemOutcomes(child, items, false)).value;
      v.List? && RepresentAll(child, v.items, nullCheck, false) == Some(List(items))
    decreases child, 2
  {
    hide RunValidation, RepresentItem, RepresentAll, Canonical, Reversible, CollectList;
    CollectedList(ItemOutcomes(child, items, false));
    var values := CollectList(ItemOutcomes(child, items, false)).value.items;
    forall i | 0 <= i < |items|
      ensures RepresentItem(child, values[i], false) == Some(items[i]) && (values[i] == Null <==> items[i] == Null)
    {
      ParseThenPrint(child, items[i]);
    }
    AllRepresented(child, values, items, nullCheck);
  }

  lemma {:induction false} EntriesParsePrint(child: Field, entries: Entries)
    requires Reversible(child.kind) && forall k :: k in entries ==> Canonical(child, entries[k])
    requires CollectDict(EntryOutcomes(child, entries, false)).Ok?
    ensures var v := CollectDict(EntryOutcomes(child, entries, false)).value;
      v.Dict? && RepresentEntries(child, v.entries, false) == Some(Dict(entries))
    decreases child, 2
  {
    hide RunValidation, RepresentItem, RepresentEntries, Canonical, Reversible, CollectDict;
    CollectedDict(EntryOutcomes(child, entries, false));
    var values := CollectDict(EntryOutcomes(child, entries, false)).value.entries;
    forall k | k in entries
      ensures RepresentItem(child, values[k], false) == Some(entries[k])
    {
      ParseThenPrint(child, entries[k]);
    }
    EveryRepresented(child, values, entries);
  }

  /** The field prints as it was given, or is skipped as it was missing. */
  ghost predicate PrintsBack(d: Decl, data: Entries, instance: Value) {
    var attribute := FieldAttribute(d.field, instance, d.source, false);
    if d.name in data then attribute.Found? && RepresentItem(d.field, attribute.value, false) == Some(data[d.name])
    else attribute == Skipped
  }

  /** The entries of the data that the fields declare. */
  ghost function Restricted(fields: seq<Decl>, data: Entries): Entries {
    map k | k in data && Declared(fields, k) :: data[k]
  }

  lemma {:induction false} DeclaredNext(fields: seq<Decl>, d: Decl, name: string)
    ensures Declared(fields + [d], name) <==> Declared(fields, name) || name == d.name
  {
    var more := fields + [d];
    assert more[|fields|] == d;
    if Declared(fields, name) {
      var i :| 0 <= i < |fields| && fields[i].name == name;
      assert more[i] == fields[i];
    }
  }

  lemma {:induction false} RestrictedNext(fields: seq<Decl>, d: Decl, data: Entries)
    ensures Restricted(fields + [d], data)
      == if d.name in data then Restricted(fields, data)[d.name := data[d.name]] else Restricted(fields, data)
  {
    hide Declared;
    forall k | k in data
      ensures Declared(fields + [d], k) <==> Declared(fields, k) || k == d.name
    {
      DeclaredNext(fields, d, k);
    }
  }

  lemma {:induction false} PrefixPrints(fields: seq<Decl>, data: Entries, instance: Value)
    requires forall i :: 0 <= i < |fields| ==> PrintsBack(fields[i], data, instance)
    ensures RepresentFields(fields, instance, false) == Some(Restricted(fields, data))
  {
    hide RepresentItem, FieldAttribute;
    if fields == [] {
      assert Restricted(fields, data) == map[];
    } else {
      hide Restricted;
      var init, d := fields[..|fields| - 1], fields[|fields| - 1];
      assert fields == init + [d];
      PrefixPrints(init, data, instance);
      RestrictedNext(init, d, data);
      assert PrintsBack(d, data, instance);
    }
  }

  lemma {:induction false} FieldsParsePrint(fields: seq<Decl>, data: Entries)
    requires ApartSources(fields) && ReversibleFields(fields)
    requires forall k :: k in data ==> Declared(fields, k)
    requires forall i :: 0 <= i < |fields| ==> CanonicalEntry(fields[i], data)
    requires var g := Gather(fields, data, false); g.Gathered? && g.errors == map[]
    ensures RepresentFields(fields, Dict(Gather(fields, data, false).ret), false) == Some(data)
    decreases fields, 0
  {
    hide Canonical, Reversible, RunValidation, FieldOutcome, Represent, RepresentFields, Gather, ApartSources, Declared;
    hide KeepsHooked;
    var n := |fields|;
    assert fields[..n] == fields;
    GatherReadsBack(fields, data, n);
    var instance := Dict(Gather(fields, data, false).ret);
    forall i | 0 <= i < n
      ensures PrintsBack(fields[i], data, instance)
    {
      var d := fields[i];
      assert Readback(d, data, instance.entries) && CanonicalEntry(d, data);
      if d.name in data {
        HookKeeps(d, data);
        ParseThenPrint(d.field, data[d.name]);
      }
    }
    PrefixPrints(fields, data, instance);
    assert Restricted(fields, data) == data;
  }
}
