/** Batch validation: errors stay aligned with the items, and whether a failure can be dropped. */
module BatchValidation {
  import opened Prelude
  import opened NestedValues
  import opened FieldTrees

  predicate EmptyDict(d: Detail) {
    d.ByKey? && d.entries == map[]
  }

  /** Custom code of the field itself never raises an empty detail where that would stay empty. */
  ghost predicate Loud(f: Field) {
    && (forall i, v {:trigger f.validators[i](v)} :: 0 <= i < |f.validators| && f.validators[i](v).Raise? ==>
         !EmptyDict(f.validators[i](v).detail))
    && match f.kind
       case Leaf(parse, _) => forall v :: parse(v).Invalid? ==> Truthy(Coerced(parse(v).detail))
       case Serializer(_, validate) => forall v :: validate(v).Invalid? ==> !EmptyDict(validate(v).detail)
       case ListSerializer(_, _, _, _, validate) => forall v :: validate(v).Invalid? ==> !EmptyDict(validate(v).detail)
       case _ => true
  }

  lemma {:induction false} ValidatorsTruthy(validators: seq<Validator>, value: Value, errors: seq<Detail>)
    requires forall i :: 0 <= i < |validators| && validators[i](value).Raise? ==>
        !EmptyDict(validators[i](value).detail)
    ensures var r := RunValidators(validators, value, errors); r.Some? ==> Truthy(r.value)
    decreases |validators|
  {
    if validators != [] {
      var check := validators[0](value);
      forall i | 0 <= i < |validators[1..]| && validators[1..][i](value).Raise?
        ensures !EmptyDict(validators[1..][i](value).detail)
      {
        assert validators[1..][i] == validators[i + 1];
      }
      ValidatorsTruthy(validators[1..], value, errors);
      if check.Raise? && !check.detail.ByKey? {
        ValidatorsTruthy(validators[1..], value, errors + Coerced(check.detail).items);
      }
    }
  }

  lemma {:induction false} NonFieldErrorTruthy(text: string)
    ensures Truthy(NonFieldError(text).detail)
  {
    assert NON_FIELD_ERRORS in map[NON_FIELD_ERRORS := Messages([Message(text)])];
  }

  lemma {:induction false} ListTruthy(outcomes: seq<Outcome>)
    ensures CollectList(outcomes).Fail? ==> Truthy(CollectList(outcomes).detail)
  {
    hide ListErrors;
  }

  lemma {:induction false} DictTruthy(outcomes: map<string, Outcome>)
    ensures CollectDict(outcomes).Fail? ==> Truthy(CollectDict(outcomes).detail)
  {
    hide DictErrors;
  }

  lemma {:induction false} BatchTruthy(outcomes: seq<Outcome>)
    ensures CollectBatch(outcomes).Fail? ==> Truthy(CollectBatch(outcomes).detail)
  {
    hide BatchValues;
  }

  lemma {:induction false} KindTruthy(f: Field, data: Value, partial: bool)
    requires Loud(f)
    ensures var o := ToInternalValue(f.kind, data, partial); o.Fail? ==> Truthy(o.detail)
  {
    hide Gather, RunValidators, CollectList, CollectDict, CollectBatch, NonFieldError;
    match f.kind {
      case Leaf(_, _) =>
      case ListField(child, _) =>
        if data.List? { ListTruthy(ItemOutcomes(child, data.items, partial)); }
      case DictField(child, _) =>
        if data.Dict? { DictTruthy(EntryOutcomes(child, data.entries, partial)); }
      case Serializer(_, _) =>
        NonFieldErrorTruthy("invalid");
      case ListSerializer(child, _, _, _, _) =>
        NonFieldErrorTruthy("not_a_list");
        NonFieldErrorTruthy("empty");
        NonFieldErrorTruthy("max_length");
        NonFieldErrorTruthy("min_length");
        if data.List? { BatchTruthy(ItemOutcomes(child, data.items, partial)); }
    }
  }

  /** Every ValidationError a loud field raises has a detail that is not empty. */
  lemma {:induction false} FailuresAreTruthy(f: Field, data: Option<Value>, partial: bool)
    requires Loud(f)
    ensures var o := RunValidation(f, data, partial); o.Fail? ==> Truthy(o.detail)
  {
    hide RunValidators, ToInternalValue;
    if ValidateEmptyValues(f, data, partial).None? {
      KindTruthy(f, data.value, partial);
      var parsed := ToInternalValue(f.kind, data.value, partial);
      if parsed.Ok? { ValidatorsTruthy(f.validators, parsed.value, []); }
    }
  }

  /** No item raises anything but a ValidationError. */
  ghost predicate Orderly(outcomes: seq<Outcome>) {
    forall i :: 0 <= i < |outcomes| ==> outcomes[i].Ok? || outcomes[i].Fail?
  }

  lemma {:induction false} AllValues(outcomes: seq<Outcome>)
    requires forall i :: 0 <= i < |outcomes| ==> outcomes[i].Ok?
    ensures |BatchValues(outcomes)| == |outcomes|
    ensures forall i :: 0 <= i < |outcomes| ==> BatchValues(outcomes)[i] == outcomes[i].value
  {
    if outcomes != [] { AllValues(outcomes[..|outcomes| - 1]); }
  }

  lemma {:induction false} FewerValues(outcomes: seq<Outcome>)
    ensures |BatchValues(outcomes)| <= |outcomes|
    ensures (exists i :: 0 <= i < |outcomes| && !outcomes[i].Ok?) ==> |BatchValues(outcomes)| < |outcomes|
  {
    if outcomes != [] {
      var init := outcomes[..|outcomes| - 1];
      FewerValues(init);
      if i :| 0 <= i < |outcomes| && !outcomes[i].Ok? {
        if i < |init| { assert init[i] == outcomes[i]; }
      }
    }
  }

  /** A batch raises exactly if some item fails with a detail that is not empty; its error list then
      lines up with the items.  Otherwise the failing items, all with empty details, are dropped
      without a trace: the result is complete exactly if nothing failed. */
  lemma {:induction false} BatchExact(outcomes: seq<Outcome>)
    requires Orderly(outcomes)
    ensures var batch := CollectBatch(outcomes);
      && (batch.Fail? <==> exists i :: 0 <= i < |outcomes| && outcomes[i].Fail? && Truthy(outcomes[i].detail))
      && (batch.Fail? ==> batch.detail == Messages(BatchErrors(outcomes)))
      && (!batch.Fail? ==> batch == Ok(List(BatchValues(outcomes))))
      && (|BatchValues(outcomes)| == |outcomes| <==> forall i :: 0 <= i < |outcomes| ==> outcomes[i].Ok?)
  {
    FewerValues(outcomes);
    if forall i :: 0 <= i < |outcomes| ==> outcomes[i].Ok? { AllValues(outcomes); }
    if i :| 0 <= i < |outcomes| && outcomes[i].Fail? && Truthy(outcomes[i].detail) {
      assert Truthy(BatchErrors(outcomes)[i]);
    }
  }

  /** With a loud child no failure is dropped: the batch raises exactly if some item fails, its error
      list has the length of the input and is empty exactly at the valid items, and success returns
      one result per item, in order. */
  lemma {:induction false} BatchAligned(child: Field, items: seq<Value>, partial: bool)
    requires Loud(child) && Orderly(ItemOutcomes(child, items, partial))
    ensures var outcomes := ItemOutcomes(child, items, partial);
      var batch := CollectBatch(outcomes);
      && (batch.Fail? <==> exists i :: 0 <= i < |items| && outcomes[i].Fail?)
      && (batch.Fail? ==>
            && batch.detail.Messages? && |batch.detail.items| == |items|
            && forall i :: 0 <= i < |items| ==>
                 && (EmptyDict(batch.detail.items[i]) <==> outcomes[i].Ok?)
                 && (outcomes[i].Fail? ==> batch.detail.items[i] == outcomes[i].detail))
      && (!batch.Fail? ==>
            && batch.Ok? && batch.value.List? && |batch.value.items| == |items|
            && forall i :: 0 <= i < |items| ==> outcomes[i] == Ok(batch.value.items[i]))
  {
    hide RunValidation, CollectBatch, BatchValues;
    var outcomes := ItemOutcomes(child, items, partial);
    forall i | 0 <= i < |items|
      ensures outcomes[i].Fail? ==> Truthy(outcomes[i].detail)
    {
      FailuresAreTruthy(child, Some(items[i]), partial);
    }
    BatchExact(outcomes);
    if forall i :: 0 <= i < |items| ==> outcomes[i].Ok? { AllValues(outcomes); }
  }

  /** The drop is real: a serializer whose `.validate()` raises an empty dictionary of errors fails
      on its own, but in a batch the item just disappears from the result. */
  lemma {:induction false} EmptyErrorsVanish()
    ensures var child := Field(true, false, None, [], Serializer([], (v: Value) => Invalid(ByKey(map[]))));
      var item := Dict(map[]);
      && RunValidation(child, Some(item), false) == Fail(ByKey(map[]))
      && ToInternalValue(ListSerializer(child, true, None, None, (v: Value) => Produced(v)), List([item]), false)
           == Ok(List([]))
  {
    var child := Field(true, false, None, [], Serializer([], (v: Value) => Invalid(ByKey(map[]))));
    var item := Dict(map[]);
    assert AsSerializerError(ByKey(map[])) == ByKey(map[]);
    assert RunValidation(child, Some(item), false) == Fail(ByKey(map[]));
    var outcomes := ItemOutcomes(child, [item], false);
    assert outcomes == [Fail(ByKey(map[]))];
    assert BatchErrors(outcomes) == [ByKey(map[])];
    assert BatchValues(outcomes) == [];
  }
}
