/** What validation of every kind of field comes to, branch by branch. */
module FieldContracts {
  import opened Prelude
  import opened NestedValues
  import opened FieldTrees
  import opened BatchValidation
  import opened ParsePrint
  import opened SerializerLoops

  // ----- Field.run_validation and Serializer.run_validation -----

  /** The field was not given: it is skipped in a partial update, else reported if it is required,
      else replaced by its default, else skipped. */
  lemma {:induction false} NotGiven(f: Field, partial: bool)
    ensures var o := RunValidation(f, None, partial);
      && (o == Skip <==> partial || (!f.required && f.default == None))
      && (o.Fail? <==> !partial && f.required)
      && (o.Fail? ==> o.detail == Messages([Message("required")]))
      && (o.Ok? <==> !partial && !f.required && f.default.Some?)
      && (o.Ok? ==> f.default == Some(o.value))
  {
  }

  /** A null is returned as it is if the field allows it, and reported if not, whatever the kind, the
      validators and the default. */
  lemma {:induction false} NullGiven(f: Field, partial: bool)
    ensures RunValidation(f, Some(Null), partial)
         == if f.allowNull then Ok(Null) else Fail(Messages([Message("null")]))
  {
  }

  /** No validator raises a dictionary or a message for the value. */
  ghost predicate Passes(validators: seq<Validator>, value: Value) {
    forall i :: 0 <= i < |validators| ==>
      !RaisesDictionary(validators[i], value) && MessagesOf(validators[i], value) == []
  }

  ghost predicate FirstDictionary(validators: seq<Validator>, value: Value, i: nat)
    requires i < |validators|
  {
    RaisesDictionary(validators[i], value) && forall j :: 0 <= j < i ==> !RaisesDictionary(validators[j], value)
  }

  /** The validators raise the detail: the first dictionary, or else all messages in their order. */
  ghost predicate Raises(validators: seq<Validator>, value: Value, detail: Detail) {
    || (exists i ::
          0 <= i < |validators| && FirstDictionary(validators, value, i) && validators[i](value) == Raise(detail))
    || ((forall i :: 0 <= i < |validators| ==> !RaisesDictionary(validators[i], value))
        && AllMessages(validators, value) != [] && detail == Messages(AllMessages(validators, value)))
  }

  lemma {:induction false} DictionaryComesFirst(validators: seq<Validator>, value: Value, i: nat)
    requires i < |validators| && RaisesDictionary(validators[i], value)
    ensures exists j :: 0 <= j < |validators| && FirstDictionary(validators, value, j)
    decreases i
  {
    if j :| 0 <= j < i && RaisesDictionary(validators[j], value) {
      DictionaryComesFirst(validators, value, j);
    } else {
      assert FirstDictionary(validators, value, i);
    }
  }

  /** What is raised is raised by the validators, and nothing is raised exactly if all of them pass. */
  lemma {:induction false} ValidatorsDecide(validators: seq<Validator>, value: Value)
    ensures var raised := RunValidators(validators, value, []);
      && (raised.None? <==> Passes(validators, value))
      && (raised.Some? ==> Raises(validators, value, raised.value))
  {
    hide MessagesOf, AllMessages, RunValidators;
    if i :| 0 <= i < |validators| && RaisesDictionary(validators[i], value) {
      DictionaryComesFirst(validators, value, i);
      var j :| 0 <= j < |validators| && FirstDictionary(validators, value, j);
      FirstDictionaryWins(validators, value, [], j);
    } else {
      AllMessagesRaised(validators, value, []);
      NoMessages(validators, value);
      assert [] + AllMessages(validators, value) == AllMessages(validators, value);
    }
  }

  /** A lone message stands in a list of its own; anything else is left as it is. */
  ghost predicate Listed(detail: Detail, list: Detail) {
    if detail.Message? then list == Messages([detail]) else list == detail
  }

  /** The errors as a dictionary: messages under one key, and every entry of a dictionary a list or
      a dictionary. */
  ghost predicate Keyed(detail: Detail, entries: map<Key, Detail>) {
    if detail.ByKey? then
      && entries.Keys == detail.entries.Keys
      && forall k :: k in entries ==> Listed(detail.entries[k], entries[k])
    else
      exists list :: Listed(detail, list) && entries == map[Name("non_field_errors") := list]
  }

  lemma {:induction false} KeyedDetail(detail: Detail)
    ensures AsSerializerError(detail).ByKey? && Keyed(detail, AsSerializerError(detail).entries)
    ensures AsSerializerError(Coerced(detail)) == AsSerializerError(detail)
  {
    if !detail.ByKey? {
      assert Listed(detail, Coerced(detail));
    }
  }

  ghost predicate IsSerializer(kind: Kind) {
    kind.Serializer? || kind.ListSerializer?
  }

  /** A given value of a field that is no serializer: parsed, then run past the validators. */
  lemma {:induction false} FieldValidated(f: Field, data: Value, partial: bool)
    requires data != Null && !IsSerializer(f.kind)
    ensures var o := RunValidation(f, Some(data), partial);
      var parsed := ToInternalValue(f.kind, data, partial);
      && (o.Ok? <==> parsed.Ok? && Passes(f.validators, parsed.value))
      && (o.Ok? ==> o.value == parsed.value)
      && (!parsed.Ok? ==> o == parsed)
      && (parsed.Ok? && !Passes(f.validators, parsed.value) ==>
            o.Fail? && Raises(f.validators, parsed.value, o.detail))
  {
    hide Passes, Raises, RunValidators, ToInternalValue;
    var parsed := ToInternalValue(f.kind, data, partial);
    if parsed.Ok? { ValidatorsDecide(f.validators, parsed.value); }
  }

  ghost predicate SerializerFinishes(validators: seq<Validator>, validate: Parser, value: Value, o: Outcome) {
    if !Passes(validators, value) then
      && o.Fail? && o.detail.ByKey?
      && exists detail :: Raises(validators, value, detail) && Keyed(detail, o.detail.entries)
    else if validate(value).Invalid? then
      o.Fail? && o.detail.ByKey? && Keyed(validate(value).detail, o.detail.entries)
    else o == Ok(validate(value).value)
  }

  /** A given value of a serializer: parsed, run past the validators, then given to `.validate()`,
      with the errors of either as a dictionary. */
  lemma {:induction false} SerializerValidated(f: Field, data: Value, partial: bool)
    requires data != Null && IsSerializer(f.kind)
    ensures var o := RunValidation(f, Some(data), partial);
      var parsed := ToInternalValue(f.kind, data, partial);
      if !parsed.Ok? then o == parsed
      else SerializerFinishes(f.validators, f.kind.validate, parsed.value, o)
  {
    hide Passes, Raises, Keyed, RunValidators, ToInternalValue, AsSerializerError, Coerced;
    var parsed := ToInternalValue(f.kind, data, partial);
    if parsed.Ok? {
      ValidatorsDecide(f.validators, parsed.value);
      var raised := RunValidators(f.validators, parsed.value, []);
      if raised.Some? {
        KeyedDetail(raised.value);
      } else {
        var validated := f.kind.validate(parsed.value);
        if validated.Invalid? { KeyedDetail(validated.detail); }
      }
    }
  }

  // ----- to_internal_value of each kind -----

  /** A leaf is what its parser makes of the value. */
  lemma {:induction false} LeafParses(kind: Kind, data: Value, partial: bool)
    requires kind.Leaf?
    ensures HookDecides(kind.parse, data, ToInternalValue(kind, data, partial))
  {
  }

  /** The child's validation of one item. */
  function Item(child: Field, item: Value, partial: bool): Outcome {
    RunValidation(child, Some(item), partial)
  }

  /** The errors are those of the items that fail, each under its index. */
  ghost predicate ErrorsByIndex(child: Field, items: seq<Value>, partial: bool, errors: map<Key, Detail>) {
    && (forall i: nat :: Index(i) in errors <==> i < |items| && Item(child, items[i], partial).Fail?)
    && (forall i: nat :: Index(i) in errors ==> Item(child, items[i], partial) == Fail(errors[Index(i)]))
    && forall k :: k in errors ==> k.Index?
  }

  ghost predicate ListParsed(child: Field, items: seq<Value>, partial: bool, o: Outcome) {
    if exists i :: 0 <= i < |items| && Item(child, items[i], partial).Crash? then o == Crash
    else if exists i :: 0 <= i < |items| && Item(child, items[i], partial).Fail? then
      o.Fail? && o.detail.ByKey? && ErrorsByIndex(child, items, partial, o.detail.entries)
    else
      && o.Ok? && o.value.List? && |o.value.items| == |items|
      && forall i :: 0 <= i < |items| ==> Item(child, items[i], partial) == Ok(o.value.items[i])
  }

  lemma {:induction false} ItemsCollected(child: Field, items: seq<Value>, partial: bool)
    ensures ListParsed(child, items, partial, CollectList(ItemOutcomes(child, items, partial)))
  {
    hide RunValidation;
    var outcomes := ItemOutcomes(child, items, partial);
    forall i | 0 <= i < |items|
      ensures outcomes[i] == Item(child, items[i], partial) && !outcomes[i].Skip?
    {
      GivenNeverSkips(child, items[i], partial);
    }
    forall i: nat | i < |items|
      ensures outcomes[i].Fail? <==> Index(i) in ListErrors(outcomes)
    {
    }
  }

  /** A list field accepts a list, not empty unless that is allowed, of items its child accepts, and
      returns their values in order; otherwise it reports what is wrong with it or with its items. */
  lemma {:induction false} ListParses(child: Field, allowEmpty: bool, data: Value, partial: bool)
    ensures var o := ToInternalValue(ListField(child, allowEmpty), data, partial);
      if !data.List? then o == Fail(Messages([Message("not_a_list")]))
      else if data.items == [] && !allowEmpty then o == Fail(Messages([Message("empty")]))
      else ListParsed(child, data.items, partial, o)
  {
    hide CollectList, ItemOutcomes, ListParsed;
    if data.List? { ItemsCollected(child, data.items, partial); }
  }

  ghost predicate ErrorsByName(child: Field, entries: Entries, partial: bool, errors: map<Key, Detail>) {
    && (forall k :: Name(k) in errors <==> k in entries && Item(child, entries[k], partial).Fail?)
    && (forall k :: Name(k) in errors ==> Item(child, entries[k], partial) == Fail(errors[Name(k)]))
    && forall k :: k in errors ==> k.Name?
  }

  ghost predicate DictParsed(child: Field, entries: Entries, partial: bool, o: Outcome) {
    if exists k :: k in entries && Item(child, entries[k], partial).Crash? then o == Crash
    else if exists k :: k in entries && Item(child, entries[k], partial).Fail? then
      o.Fail? && o.detail.ByKey? && ErrorsByName(child, entries, partial, o.detail.entries)
    else
      && o.Ok? && o.value.Dict? && o.value.entries.Keys == entries.Keys
      && forall k :: k in entries ==> Item(child, entries[k], partial) == Ok(o.value.entries[k])
  }

  lemma {:induction false} EntriesCollected(child: Field, entries: Entries, partial: bool)
    ensures DictParsed(child, entries, partial, CollectDict(EntryOutcomes(child, entries, partial)))
  {
    hide RunValidation;
    var outcomes := EntryOutcomes(child, entries, partial);
    forall k | k in entries
      ensures outcomes[k] == Item(child, entries[k], partial) && !outcomes[k].Skip?
    {
      GivenNeverSkips(child, entries[k], partial);
    }
    forall k | k in entries
      ensures outcomes[k].Fail? <==> Name(k) in DictErrors(outcomes)
    {
    }
  }

  /** The same for a dictionary field, with the errors under the keys of the entries. */
  lemma {:induction false} DictParses(child: Field, allowEmpty: bool, data: Value, partial: bool)
    ensures var o := ToInternalValue(DictField(child, allowEmpty), data, partial);
      if !data.Dict? then o == Fail(Messages([Message("not_a_dict")]))
      else if data.entries == map[] && !allowEmpty then o == Fail(Messages([Message("empty")]))
      else DictParsed(child, data.entries, partial, o)
  {
    hide CollectDict, EntryOutcomes, DictParsed;
    if data.Dict? { EntriesCollected(child, data.entries, partial); }
  }

  ghost predicate WholeError(o: Outcome, text: string) {
    o == Fail(ByKey(map[Name("non_field_errors") := Messages([Message(text)])]))
  }

  ghost predicate FailsLoudly(o: Outcome) {
    o.Fail? && o.detail != Message("") && o.detail != Messages([]) && o.detail != ByKey(map[])
  }

  /** The values of the items that the child accepts, in their order. */
  ghost function Accepted(child: Field, items: seq<Value>, partial: bool): seq<Value> {
    if items == [] then []
    else
      var first := Item(child, items[0], partial);
      (if first.Ok? then [first.value] else []) + Accepted(child, items[1..], partial)
  }

  /** One error for each item, empty for those that do not fail, if some error is not empty; else
      the values of the items that do not fail. */
  ghost predicate BatchParsed(child: Field, items: seq<Value>, partial: bool, o: Outcome) {
    if exists i :: 0 <= i < |items| && Item(child, items[i], partial).Crash? then o == Crash
    else if exists i :: 0 <= i < |items| && FailsLoudly(Item(child, items[i], partial)) then
      && o.Fail? && o.detail.Messages? && |o.detail.items| == |items|
      && forall i :: 0 <= i < |items| ==>
           Item(child, items[i], partial) == Fail(o.detail.items[i])
           || (Item(child, items[i], partial).Ok? && o.detail.items[i] == ByKey(map[]))
    else o == Ok(List(Accepted(child, items, partial)))
  }

  lemma {:induction false} Disorderly(outcomes: seq<Outcome>)
    requires !Orderly(outcomes)
    ensures CollectBatch(outcomes) == Crash
  {
  }

  lemma {:induction false} AcceptedNext(child: Field, items: seq<Value>, partial: bool, last: Value)
    ensures Accepted(child, items + [last], partial) == Accepted(child, items, partial)
      + (if Item(child, last, partial).Ok? then [Item(child, last, partial).value] else [])
  {
    hide Item;
    if items == [] {
      assert (items + [last])[1..] == [];
    } else {
      assert (items + [last])[1..] == items[1..] + [last];
      AcceptedNext(child, items[1..], partial, last);
    }
  }

  lemma {:induction false} AcceptedAre(child: Field, items: seq<Value>, partial: bool, n: nat)
    requires n <= |items|
    ensures BatchValues(ItemOutcomes(child, items, partial)[..n]) == Accepted(child, items[..n], partial)
  {
    if n > 0 {
      hide BatchValues, Accepted, RunValidation;
      AcceptedAre(child, items, partial, n - 1);
      NextItem(ItemOutcomes(child, items, partial), n - 1);
      AcceptedNext(child, items[..n - 1], partial, items[n - 1]);
      assert items[..n] == items[..n - 1] + [items[n - 1]];
    }
  }

  lemma {:induction false} BatchCollected(child: Field, items: seq<Value>, partial: bool)
    ensures BatchParsed(child, items, partial, CollectBatch(ItemOutcomes(child, items, partial)))
  {
    hide RunValidation, Accepted, BatchValues;
    var outcomes := ItemOutcomes(child, items, partial);
    forall i | 0 <= i < |items|
      ensures outcomes[i] == Item(child, items[i], partial) && !outcomes[i].Skip?
    {
      GivenNeverSkips(child, items[i], partial);
    }
    AcceptedAre(child, items, partial, |items|);
    assert items[..|items|] == items && outcomes[..|items|] == outcomes;
    hide Item, ItemOutcomes, CollectBatch;
    if Orderly(outcomes) {
      BatchExact(outcomes);
    } else {
      Disorderly(outcomes);
    }
  }

  /** A batch reports what is wrong with it as a whole, the greatest length before the least, or runs
      its child over the items. */
  lemma {:induction false} BatchParses(kind: Kind, data: Value, partial: bool)
    requires kind.ListSerializer?
    ensures var o := ToInternalValue(kind, data, partial);
      if !data.List? then WholeError(o, "not_a_list")
      else if data.items == [] && !kind.allowEmpty then WholeError(o, "empty")
      else if exists n :: kind.maxLength == Some(n) && n < |data.items| then WholeError(o, "max_length")
      else if exists n :: kind.minLength == Some(n) && n > |data.items| then WholeError(o, "min_length")
      else BatchParsed(kind.child, data.items, partial, o)
  {
    hide CollectBatch, ItemOutcomes, BatchParsed;
    if data.List? { BatchCollected(kind.child, data.items, partial); }
  }

  // ----- the fields of a serializer -----

  ghost predicate Sets(d: Decl, data: Entries, partial: bool, before: Entries, after: Entries) {
    var o := FieldOutcome(d, data, partial);
    && !o.Crash?
    && if o.Ok? then d.source != [] && SetValue(before, d.source, o.value) == Some(after) else after == before
  }

  /** The validated data after each field: values of accepted fields are set at their sources, other
      fields change nothing, and no exception ends the loop. */
  ghost predicate Trace(fields: seq<Decl>, data: Entries, partial: bool, rets: seq<Entries>) {
    && |rets| == |fields| + 1 && rets[0] == map[]
    && forall i :: 0 <= i < |fields| ==> Sets(fields[i], data, partial, rets[i], rets[i + 1])
  }

  ghost predicate Fails(d: Decl, data: Entries, partial: bool) {
    FieldOutcome(d, data, partial).Fail?
  }

  /** The error of the last failing field with the name. */
  ghost function ErrorOf(fields: seq<Decl>, data: Entries, partial: bool, name: string): Option<Detail> {
    if fields == [] then None
    else
      var d := fields[|fields| - 1];
      if d.name == name && Fails(d, data, partial) then Some(FieldOutcome(d, data, partial).detail)
      else ErrorOf(fields[..|fields| - 1], data, partial, name)
  }

  lemma {:induction false} NoErrorOf(fields: seq<Decl>, data: Entries, partial: bool, name: string)
    ensures ErrorOf(fields, data, partial, name).None?
       <==> forall i :: 0 <= i < |fields| && fields[i].name == name ==> !Fails(fields[i], data, partial)
  {
    hide Fails;
    if fields != [] { NoErrorOf(fields[..|fields| - 1], data, partial, name); }
  }

  /** With one field for each name, a name's error is that of its field. */
  lemma {:induction false} ErrorOfField(fields: seq<Decl>, data: Entries, partial: bool, i: nat)
    requires i < |fields| && forall j, k :: 0 <= j < k < |fields| ==> fields[j].name != fields[k].name
    ensures ErrorOf(fields, data, partial, fields[i].name)
         == if Fails(fields[i], data, partial) then Some(FieldOutcome(fields[i], data, partial).detail) else None
    decreases |fields|
  {
    hide FieldOutcome, Fails;
    if i < |fields| - 1 {
      ErrorOfField(fields[..|fields| - 1], data, partial, i);
    } else {
      NoErrorOf(fields[..i], data, partial, fields[i].name);
    }
  }

  /** The errors are those of the fields that fail, each under its name. */
  ghost predicate FieldErrors(fields: seq<Decl>, data: Entries, partial: bool, errors: map<Key, Detail>) {
    && (forall k :: k in errors ==> k.Name?)
    && forall name :: ErrorOf(fields, data, partial, name)
         == if Name(name) in errors then Some(errors[Name(name)]) else None
  }

  lemma {:induction false} NextErrors(fields: seq<Decl>, d: Decl, data: Entries, partial: bool, errors: map<Key,
                                      Detail>)
    requires FieldErrors(fields, data, partial, errors)
    ensures var o := FieldOutcome(d, data, partial);
      FieldErrors(fields + [d], data, partial, if o.Fail? then errors[Name(d.name) := o.detail] else errors)
  {
    hide FieldOutcome;
    assert (fields + [d])[..|fields|] == fields;
  }

  lemma {:induction false} TraceInit(fields: seq<Decl>, data: Entries, partial: bool, rets: seq<Entries>)
    requires fields != [] && Trace(fields, data, partial, rets)
    ensures Trace(fields[..|fields| - 1], data, partial, rets[..|fields|])
  {
    hide Sets;
  }

  /** A loop that ends without an exception has a trace. */
  lemma {:induction false} GatherTraced(fields: seq<Decl>, data: Entries, partial: bool)
    requires Gather(fields, data, partial).Gathered?
    ensures exists rets :: Trace(fields, data, partial, rets) && rets[|fields|] == Gather(fields, data, partial).ret
    decreases |fields|
  {
    hide FieldOutcome, SetValue;
    if fields == [] {
      assert Trace(fields, data, partial, [map[]]);
    } else {
      var n := |fields| - 1;
      GatherTraced(fields[..n], data, partial);
      var before, after := Gather(fields[..n], data, partial).ret, Gather(fields, data, partial).ret;
      var rets :| Trace(fields[..n], data, partial, rets) && rets[n] == before;
      assert Sets(fields[n], data, partial, before, after);
      assert Trace(fields, data, partial, rets + [after]);
    }
  }

  lemma {:induction false} NoErrors(data: Entries, partial: bool)
    ensures FieldErrors([], data, partial, map[])
  {
  }

  /** With a trace the loop ends with its last data and the errors of the fields that fail. */
  lemma {:induction false} TraceGathers(fields: seq<Decl>, data: Entries, partial: bool, rets: seq<Entries>)
    requires Trace(fields, data, partial, rets)
    ensures var g := Gather(fields, data, partial);
      g.Gathered? && g.ret == rets[|fields|] && FieldErrors(fields, data, partial, g.errors)
    decreases |fields|
  {
    hide FieldOutcome, SetValue, FieldErrors;
    if fields == [] {
      NoErrors(data, partial);
    } else {
      var n := |fields| - 1;
      TraceInit(fields, data, partial, rets);
      TraceGathers(fields[..n], data, partial, rets[..|fields|]);
      assert Sets(fields[n], data, partial, rets[n], rets[n + 1]);
      NextErrors(fields[..n], fields[n], data, partial, Gather(fields[..n], data, partial).errors);
      assert fields[..n] + [fields[n]] == fields;
    }
  }

  ghost predicate FieldsParsed(fields: seq<Decl>, data: Entries, partial: bool, o: Outcome) {
    if !exists rets :: Trace(fields, data, partial, rets) then o == Crash
    else if exists i :: 0 <= i < |fields| && Fails(fields[i], data, partial) then
      o.Fail? && o.detail.ByKey? && FieldErrors(fields, data, partial, o.detail.entries)
    else exists rets :: Trace(fields, data, partial, rets) && o == Ok(Dict(rets[|fields|]))
  }

  lemma {:induction false} FailsSomewhere(fields: seq<Decl>, data: Entries, partial: bool, errors: map<Key, Detail>)
    requires FieldErrors(fields, data, partial, errors)
    ensures errors != map[] <==> exists i :: 0 <= i < |fields| && Fails(fields[i], data, partial)
  {
    hide Fails, ErrorOf;
    if errors != map[] {
      var k :| k in errors;
      NoErrorOf(fields, data, partial, k.name);
    }
    if i :| 0 <= i < |fields| && Fails(fields[i], data, partial) {
      NoErrorOf(fields, data, partial, fields[i].name);
    }
  }

  lemma {:induction false} FieldsGathered(fields: seq<Decl>, data: Entries, partial: bool)
    ensures var g := Gather(fields, data, partial);
      FieldsParsed(fields, data, partial,
        if g.Broken? then Crash else if g.errors != map[] then Fail(ByKey(g.errors)) else Ok(Dict(g.ret)))
  {
    hide Gather, Trace, Fails, FieldOutcome;
    var g := Gather(fields, data, partial);
    if g.Gathered? { GatherTraced(fields, data, partial); }
    if rets :| Trace(fields, data, partial, rets) {
      TraceGathers(fields, data, partial, rets);
      FailsSomewhere(fields, data, partial, g.errors);
    }
  }

  /** A serializer accepts a dictionary whose fields all are accepted or skipped, with their values
      set at their sources one after the other; otherwise it reports the fields that fail. */
  lemma {:induction false} SerializerParses(fields: seq<Decl>, validate: Parser, data: Value, partial: bool)
    ensures var o := ToInternalValue(Serializer(fields, validate), data, partial);
      if !data.Dict? then WholeError(o, "invalid") else FieldsParsed(fields, data.entries, partial, o)
  {
    hide Gather, FieldsParsed;
    if data.Dict? { FieldsGathered(fields, data.entries, partial); }
  }

  // ----- to_representation -----

  /** What a field reads: the value at its source, else its default, which is skipped in a partial
      update, else null if it allows that; else the field is skipped unless it is required. */
  lemma {:induction false} AttributeRead(f: Field, instance: Value, source: seq<string>, partial: bool)
    ensures var attribute, there := FieldAttribute(f, instance, source, partial), Lookup(instance, source);
      && (there.Some? ==> attribute == Found(there.value))
      && (there.None? && f.default.Some? ==> attribute == if partial then Skipped else Found(f.default.value))
      && (there.None? && f.default.None? ==>
            && (attribute == Found(Null) <==> f.allowNull)
            && (attribute == Skipped <==> !f.allowNull && !f.required)
            && (attribute == Missing <==> !f.allowNull && f.required))
  {
  }

  /** The value prints as the part: a null as itself where nulls are let through. */
  ghost predicate Prints(f: Field, value: Value, nullCheck: bool, part: Option<Value>, partial: bool) {
    part == if nullCheck && value == Null then Some(Null) else Represent(f.kind, value, partial)
  }

  lemma {:induction false} ItemsPrint(child: Field, items: seq<Value>, nullCheck: bool, parts: seq<Option<Value>>,
                                      partial: bool)
    requires |parts| == |items| && forall i :: 0 <= i < |items| ==>
        Prints(child, items[i], nullCheck, parts[i], partial)
    ensures var r := RepresentAll(child, items, nullCheck, partial);
      if exists i :: 0 <= i < |parts| && parts[i].None? then r.None?
      else
        && r.Some? && r.value.List? && |r.value.items| == |parts|
        && forall i :: 0 <= i < |parts| ==> parts[i] == Some(r.value.items[i])
  {
    hide Represent;
    assert parts == seq(|items|, i requires 0 <= i < |items| =>
      if nullCheck then RepresentItem(child, items[i], partial) else Represent(child.kind, items[i], partial));
  }

  /** A list prints item by item, or not at all; a list field lets nulls through, a batch does not. */
  lemma {:induction false} ListPrints(kind: Kind, data: Value, parts: seq<Option<Value>>, partial: bool)
    requires (kind.ListField? || kind.ListSerializer?) && (data.List? ==> |parts| == |data.items|)
    requires data.List? ==>
        forall i :: 0 <= i < |parts| ==> Prints(kind.child, data.items[i], kind.ListField?, parts[i], partial)
    ensures var r := Represent(kind, data, partial);
      if !data.List? || exists i :: 0 <= i < |parts| && parts[i].None? then r.None?
      else
        && r.Some? && r.value.List? && |r.value.items| == |parts|
        && forall i :: 0 <= i < |parts| ==> parts[i] == Some(r.value.items[i])
  {
    if data.List? { ItemsPrint(kind.child, data.items, kind.ListField?, parts, partial); }
    hide RepresentAll;
  }

  lemma {:induction false} EntriesPrint(child: Field, entries: Entries, parts: map<string, Option<Value>>,
                                        partial: bool)
    requires parts.Keys == entries.Keys && forall k :: k in parts ==> Prints(child, entries[k], true, parts[k], partial)
    ensures var r := RepresentEntries(child, entries, partial);
      if exists k :: k in parts && parts[k].None? then r.None?
      else
        && r.Some? && r.value.Dict? && r.value.entries.Keys == parts.Keys
        && forall k :: k in parts ==> parts[k] == Some(r.value.entries[k])
  {
    hide Represent;
    assert parts == map k | k in entries :: RepresentItem(child, entries[k], partial);
  }

  lemma {:induction false} DictPrints(kind: Kind, data: Value, parts: map<string, Option<Value>>, partial: bool)
    requires kind.DictField? && (data.Dict? ==> parts.Keys == data.entries.Keys)
    requires data.Dict? ==> forall k :: k in parts ==> Prints(kind.child, data.entries[k], true, parts[k], partial)
    ensures var r := Represent(kind, data, partial);
      if !data.Dict? || exists k :: k in parts && parts[k].None? then r.None?
      else
        && r.Some? && r.value.Dict? && r.value.entries.Keys == parts.Keys
        && forall k :: k in parts ==> parts[k] == Some(r.value.entries[k])
  {
    if data.Dict? { EntriesPrint(kind.child, data.entries, parts, partial); }
    hide RepresentEntries;
  }

  /** What a field of a serializer prints, if anything. */
  ghost predicate Shows(d: Decl, instance: Value, part: Option<Value>, partial: bool) {
    var attribute := FieldAttribute(d.field, instance, d.source, partial);
    attribute.Found? && Prints(d.field, attribute.value, true, part, partial)
  }

  ghost predicate NotShown(d: Decl, instance: Value, partial: bool) {
    FieldAttribute(d.field, instance, d.source, partial) == Missing || Shows(d, instance, None, partial)
  }

  /** Printing a serializer fails exactly if some field has nothing to read or fails to print it. */
  lemma {:induction false} FieldsFail(fields: seq<Decl>, instance: Value, partial: bool)
    ensures RepresentFields(fields, instance, partial).None?
        <==> exists i :: 0 <= i < |fields| && NotShown(fields[i], instance, partial)
    decreases |fields|
  {
    hide FieldAttribute, Represent;
    if fields != [] { FieldsFail(fields[..|fields| - 1], instance, partial); }
  }

  /** The keys are the names of the fields that are not skipped. */
  lemma {:induction false} FieldKeys(fields: seq<Decl>, instance: Value, name: string, partial: bool)
    requires RepresentFields(fields, instance, partial).Some?
    ensures name in RepresentFields(fields, instance, partial).value
       <==> exists i :: 0 <= i < |fields| && fields[i].name == name
                        && FieldAttribute(fields[i].field, instance, fields[i].source, partial) != Skipped
    decreases |fields|
  {
    hide FieldAttribute, Represent;
    if fields != [] { FieldKeys(fields[..|fields| - 1], instance, name, partial); }
  }

  /** With one field for each name, each name holds what its field prints. */
  lemma {:induction false} FieldPrints(fields: seq<Decl>, instance: Value, i: nat, partial: bool)
    requires RepresentFields(fields, instance, partial).Some?
    requires i < |fields| && forall j :: i < j < |fields| ==> fields[j].name != fields[i].name
    requires FieldAttribute(fields[i].field, instance, fields[i].source, partial) != Skipped
    ensures var r := RepresentFields(fields, instance, partial).value;
      fields[i].name in r && Shows(fields[i], instance, Some(r[fields[i].name]), partial)
    decreases |fields|
  {
    hide FieldAttribute, Represent;
    if i < |fields| - 1 { FieldPrints(fields[..|fields| - 1], instance, i, partial); }
  }
}
