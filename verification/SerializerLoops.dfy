/** The loops of the serializers and fields, each computing what the field trees specify. */
module SerializerLoops {
  import opened Prelude
  import opened NestedDictionaries
  import opened NestedValues
  import opened FieldTrees
  import opened BatchValidation
  import opened ParsePrint

  /** `Field.run_validators` */
  method CollectValidatorErrors(validators: seq<Validator>, value: Value) returns (raised: Option<Detail>)
    ensures raised == RunValidators(validators, value, [])
  {
    var errors, i := [], 0;
    assert validators[0..] == validators;
    while i < |validators|
      invariant 0 <= i <= |validators|
      invariant RunValidators(validators[i..], value, errors) == RunValidators(validators, value, [])
    {
      var check := validators[i](value);
      assert validators[i..][0] == validators[i] && validators[i..][1..] == validators[i + 1..];
      if check.Raise? {
        if check.detail.ByKey? {
          return Some(check.detail);
        }
        errors := errors + Coerced(check.detail).items;
      }
      i := i + 1;
    }
    raised := if errors == [] then None else Some(Messages(errors));
  }

  predicate RaisesDictionary(validator: Validator, value: Value) {
    validator(value).Raise? && validator(value).detail.ByKey?
  }

  /** The messages a validator raises for a value. */
  function MessagesOf(validator: Validator, value: Value): seq<Detail> {
    match validator(value)
    case Raise(Message(text)) => [Message(text)]
    case Raise(Messages(items)) => items
    case _ => []
  }

  /** The messages of all validators, in their order. */
  function AllMessages(validators: seq<Validator>, value: Value): seq<Detail> {
    if validators == [] then [] else MessagesOf(validators[0], value) + AllMessages(validators[1..], value)
  }

  /** The first dictionary of errors is raised, whatever messages have been collected. */
  lemma {:induction false} FirstDictionaryWins(validators: seq<Validator>, value: Value, errors: seq<Detail>, i: nat)
    requires i < |validators| && RaisesDictionary(validators[i], value)
    requires forall j :: 0 <= j < i ==> !RaisesDictionary(validators[j], value)
    ensures RunValidators(validators, value, errors) == Some(validators[i](value).detail)
    decreases |validators|
  {
    if i > 0 {
      FirstDictionaryWins(validators[1..], value, errors + MessagesOf(validators[0], value), i - 1);
      assert errors + [] == errors;
    }
  }

  /** Without a dictionary, the messages of all validators are raised in their order, and no others;
      validation passes exactly if there are none, even if a validator has raised an empty list. */
  lemma {:induction false} AllMessagesRaised(validators: seq<Validator>, value: Value, errors: seq<Detail>)
    requires forall i :: 0 <= i < |validators| ==> !RaisesDictionary(validators[i], value)
    ensures var messages := errors + AllMessages(validators, value);
      RunValidators(validators, value, errors) == if messages == [] then None else Some(Messages(messages))
    decreases |validators|
  {
    if validators == [] {
      assert errors + [] == errors;
    } else {
      var first, rest := MessagesOf(validators[0], value), validators[1..];
      assert forall i :: 0 <= i < |rest| ==> rest[i] == validators[i + 1];
      AllMessagesRaised(rest, value, errors + first);
      assert errors + first + AllMessages(rest, value) == errors + AllMessages(validators, value);
      assert errors + [] == errors;
    }
  }

  /** There are no messages exactly if no validator raises one. */
  lemma {:induction false} NoMessages(validators: seq<Validator>, value: Value)
    ensures AllMessages(validators, value) == []
       <==> forall i :: 0 <= i < |validators| ==> MessagesOf(validators[i], value) == []
  {
    hide MessagesOf;
    if validators != [] {
      NoMessages(validators[1..], value);
      assert forall i :: 0 <= i < |validators[1..]| ==> validators[1..][i] == validators[i + 1];
      assert forall i :: 0 < i < |validators| ==> validators[i] == validators[1..][i - 1];
    }
  }

  /** A validator that raises an empty list: it raises, and validation passes. */
  lemma {:induction false} EmptyListPasses(value: Value)
    ensures var quiet: Validator := (v: Value) => Raise(Messages([]));
      quiet(value).Raise? && RunValidators([quiet], value, []) == None
  {
    var quiet: Validator := (v: Value) => Raise(Messages([]));
    AllMessagesRaised([quiet], value, []);
    NoMessages([quiet], value);
  }

  /** What the list loop has collected when it ends. */
  lemma {:induction false} LoopCollects(outcomes: seq<Outcome>)
    ensures CollectList(outcomes) ==
      if !Orderly(outcomes) then Crash
      else if ListErrors(outcomes) != map[] then Fail(ByKey(ListErrors(outcomes)))
      else Ok(List(BatchValues(outcomes)))
  {
    hide BatchValues;
    if Orderly(outcomes) && ListErrors(outcomes) == map[] {
      forall i: nat | i < |outcomes|
        ensures outcomes[i].Ok?
      {
        assert outcomes[i].Fail? ==> Index(i) in ListErrors(outcomes);
      }
      AllValues(outcomes);
      assert BatchValues(outcomes)
        == seq(|outcomes|, i requires 0 <= i < |outcomes| => if outcomes[i].Ok? then outcomes[i].value else Null);
    }
  }

  /** What one more item adds to the state of either list loop. */
  lemma {:induction false} NextItem(outcomes: seq<Outcome>, i: nat)
    requires i < |outcomes|
    ensures ListErrors(outcomes[..i + 1]) ==
      if outcomes[i].Fail? then ListErrors(outcomes[..i])[Index(i) := outcomes[i].detail] else ListErrors(outcomes[..i])
    ensures BatchValues(outcomes[..i + 1])
        == BatchValues(outcomes[..i]) + (if outcomes[i].Ok? then [outcomes[i].value] else [])
    ensures Orderly(outcomes[..i + 1]) <==> Orderly(outcomes[..i]) && (outcomes[i].Ok? || outcomes[i].Fail?)
    ensures !Orderly(outcomes[..i + 1]) ==> !Orderly(outcomes)
  {
    assert outcomes[..i + 1][..i] == outcomes[..i];
  }

  /** `ListField.run_child_validation` */
  method RunChildValidation(child: Field, data: seq<Value>, partial: bool) returns (outcome: Outcome)
    ensures outcome == CollectList(ItemOutcomes(child, data, partial))
  {
    ghost var outcomes := ItemOutcomes(child, data, partial);
    assert ListErrors(outcomes[..0]) == map[] && BatchValues(outcomes[..0]) == [] && Orderly(outcomes[..0]);
    hide RunValidation, ListErrors, BatchValues, Orderly, CollectList;
    LoopCollects(outcomes);
    var result: seq<Value>, errors: map<Key, Detail> := [], map[];
    for idx := 0 to |data|
      invariant Orderly(outcomes[..idx])
      invariant result == BatchValues(outcomes[..idx])
      invariant errors == ListErrors(outcomes[..idx])
    {
      var item := RunValidation(child, Some(data[idx]), partial);
      assert outcomes[idx] == item;
      NextItem(outcomes, idx);
      match item {
        case Ok(value) => result := result + [value];
        case Fail(detail) => errors := errors[Index(idx) := detail];
        case _ => return Crash;
      }
    }
    assert outcomes[..|data|] == outcomes;
    outcome := if errors == map[] then Ok(List(result)) else Fail(ByKey(errors));
  }

  /** `ListSerializer.to_internal_value` after its length checks */
  method BatchToInternalValue(child: Field, data: seq<Value>, partial: bool) returns (outcome: Outcome)
    ensures outcome == CollectBatch(ItemOutcomes(child, data, partial))
  {
    hide RunValidation;
    ghost var outcomes := ItemOutcomes(child, data, partial);
    var ret: seq<Value>, errors: seq<Detail> := [], [];
    for i := 0 to |data|
      invariant Orderly(outcomes[..i])
      invariant ret == BatchValues(outcomes[..i])
      invariant errors == BatchErrors(outcomes)[..i]
    {
      var item := RunValidation(child, Some(data[i]), partial);
      assert outcomes[i] == item;
      NextItem(outcomes, i);
      match item {
        case Ok(value) =>
          ret := ret + [value];
          errors := errors + [ByKey(map[])];
        case Fail(detail) => errors := errors + [detail];
        case _ => return Crash;
      }
    }
    assert outcomes[..|data|] == outcomes && errors == BatchErrors(outcomes);
    if exists i :: 0 <= i < |errors| && Truthy(errors[i]) {
      return Fail(Messages(errors));
    }
    outcome := Ok(List(ret));
  }

  /** An exception in either serializer loop ends it. */
  lemma {:induction false} StaysBroken(fields: seq<Decl>, data: Entries, partial: bool, instance: Value, n: nat)
    requires n <= |fields|
    ensures Gather(fields[..n], data, partial).Broken? ==> Gather(fields, data, partial).Broken?
    ensures RepresentFields(fields[..n], instance, partial).None? ==> RepresentFields(fields, instance, partial).None?
    decreases |fields|
  {
    hide FieldOutcome, FieldAttribute, RepresentItem;
    if n == |fields| {
      assert fields[..n] == fields;
    } else {
      var init := fields[..|fields| - 1];
      assert init[..n] == fields[..n];
      StaysBroken(init, data, partial, instance, n);
    }
  }

  /** A validated value as it is stored: dictionaries are objects of their own. */
  method Allocate(value: Value) returns (binding: Binding)
    ensures binding.Nested? ==> binding.dictionary.Valid() && fresh(binding.dictionary.Repr)
    ensures binding.Plain? ==> !binding.value.Dict?
    ensures Stored(binding) == value
    decreases value, 0
  {
    if !value.Dict? {
      return Plain(value);
    }
    var dictionary := new Dictionary();
    var todo := value.entries.Keys;
    while todo != {}
      invariant todo <= value.entries.Keys
      invariant dictionary.Valid() && fresh(dictionary.Repr)
      invariant dictionary.contents == value.entries - todo
      decreases todo
    {
      var key :| key in todo;
      StoreValue(dictionary, key, value.entries[key]);
      todo := todo - {key};
    }
    binding := Nested(dictionary);
  }

  method StoreValue(dictionary: Dictionary, key: string, value: Value)
    requires dictionary.Valid()
    modifies dictionary
    ensures dictionary.Valid() && fresh(dictionary.Repr - old(dictionary.Repr))
    ensures dictionary.contents == old(dictionary.contents)[key := value]
    decreases value, 1
  {
    var binding := Allocate(value);
    dictionary.Store(key, binding);
  }

  /** The hook's value replaces the validated one, or what it raises is the field's error. */
  ghost predicate HookDecides(hook: Parser, value: Value, outcome: Outcome) {
    match hook(value)
    case Produced(v) => outcome == Ok(v)
    case Invalid(Message(text)) => outcome == Fail(Messages([Message(text)]))
    case Invalid(detail) => outcome == Fail(detail)
  }

  /** The body of the loop's `try`: the field's validation, then the hook's. */
  method ValidateField(field: Decl, data: NestedValues.Entries, partial: bool) returns (validated: Outcome)
    ensures validated == FieldOutcome(field, data, partial)
    ensures var own := RunValidation(field.field, GetValue(data, field.name), partial);
      if own.Ok? && field.hook.Some? then HookDecides(field.hook.value, own.value, validated) else validated == own
  {
    hide RunValidation;
    validated := RunValidation(field.field, GetValue(data, field.name), partial);
    if validated.Ok? && field.hook.Some? {
      match field.hook.value(validated.value) {
        case Produced(value) => validated := Ok(value);
        case Invalid(detail) => validated := Fail(Coerced(detail));
      }
    }
  }

  lemma {:induction false} NextField(fields: seq<Decl>, data: Entries, partial: bool, i: nat)
    requires i < |fields| && Gather(fields[..i], data, partial).Gathered?
    ensures var before := Gather(fields[..i], data, partial);
      var d := fields[i];
      var o := FieldOutcome(d, data, partial);
      Gather(fields[..i + 1], data, partial) ==
        if o.Crash? || (o.Ok? && (d.source == [] || NestedValues.SetValue(before.ret, d.source, o.value).None?))
          then Broken
        else if o.Skip? then before
        else if o.Fail? then before.(errors := before.errors[Name(d.name) := o.detail])
        else before.(ret := NestedValues.SetValue(before.ret, d.source, o.value).value)
  {
    hide FieldOutcome, NestedValues.SetValue;
    assert fields[..i + 1][..i] == fields[..i] && fields[..i + 1][i] == fields[i];
  }

  /** The loop of `Serializer.to_internal_value`, writing into one nested dictionary. */
  method GatherFields(fields: seq<Decl>, data: Entries, partial: bool)
    returns (ret: Dictionary, errors: map<Key, Detail>, crashed: bool)
    ensures ret.Valid() && fresh(ret.Repr)
    ensures Gather(fields, data, partial) == if crashed then Broken else Gathered(ret.contents, errors)
  {
    hide FieldOutcome, NestedValues.SetValue;
    ret := new Dictionary();
    errors, crashed := map[], false;
    for i := 0 to |fields|
      invariant ret.Valid() && fresh(ret.Repr)
      invariant Gather(fields[..i], data, partial) == Gathered(ret.contents, errors)
    {
      StaysBroken(fields, data, partial, Null, i + 1);
      NextField(fields, data, partial, i);
      var field := fields[i];
      var validated := ValidateField(field, data, partial);
      match validated {
        case Skip =>
        case Fail(detail) => errors := errors[Name(field.name) := detail];
        case Ok(value) =>
          var stored := false;
          if field.source != [] {
            var binding := Allocate(value);
            stored := ret.SetValue(field.source, binding);
          }
          if !stored {
            return ret, errors, true;
          }
        case Crash => return ret, errors, true;
      }
    }
    assert fields[..|fields|] == fields;
  }

  /** `Serializer.to_representation` */
  method FieldsToRepresentation(fields: seq<Decl>, instance: Value, partial: bool) returns (r: Option<Entries>)
    ensures r == RepresentFields(fields, instance, partial)
  {
    hide FieldAttribute, Represent;
    var ret: NestedValues.Entries := map[];
    for i := 0 to |fields|
      invariant RepresentFields(fields[..i], instance, partial) == Some(ret)
    {
      var field := fields[i];
      assert fields[..i + 1][..i] == fields[..i];
      StaysBroken(fields, map[], partial, instance, i + 1);
      var attribute := FieldAttribute(field.field, instance, field.source, partial);
      match attribute {
        case Skipped =>
        case Missing =>
          assert RepresentFields(fields[..i + 1], instance, partial).None?;
          return None;
        case Found(value) =>
          if value == Null {
            ret := ret[field.name := Null];
          } else {
            var part := Represent(field.field.kind, value, partial);
            assert RepresentItem(field.field, value, partial) == part;
            if part.None? {
              assert RepresentFields(fields[..i + 1], instance, partial).None?;
              return None;
            }
            ret := ret[field.name := part.value];
          }
      }
    }
    assert fields[..|fields|] == fields;
    r := Some(ret);
  }
}
