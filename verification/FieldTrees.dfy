/** Trees of serializers, list fields, dictionary fields and leaves: validation and representation. */
module FieldTrees {
  import opened Prelude
  import opened NestedValues

  // ----- errors -----

  datatype Key = Name(name: string) | Index(index: nat)

  /** The detail of a ValidationError. */
  datatype Detail =
    | Message(text: string)
    | Messages(items: seq<Detail>)
    | ByKey(entries: map<Key, Detail>)

  const NON_FIELD_ERRORS := Name("non_field_errors")

  /** Python's truth value of a detail */
  predicate Truthy(d: Detail) {
    match d
    case Message(text) => text != ""
    case Messages(items) => items != []
    case ByKey(entries) => entries != map[]
  }

  /** `ValidationError(detail).detail`: a lone message becomes a list. */
  function Coerced(d: Detail): (r: Detail)
    ensures r.Messages? || r.ByKey?
    ensures d.Message? ==> Truthy(r)
  {
    if d.Message? then Messages([d]) else d
  }

  /** `as_serializer_error` of a ValidationError */
  function AsSerializerError(d: Detail): (r: Detail)
    ensures r.ByKey?
    ensures Truthy(r) <==> !(d.ByKey? && d.entries == map[])
  {
    match d
    case ByKey(entries) =>
      var r := map key | key in entries :: if entries[key].Message? then Messages([entries[key]]) else entries[key];
      assert entries != map[] ==> r != map[] by {
        if entries != map[] {
          var key :| key in entries;
          assert key in r;
        }
      }
      ByKey(r)
    case Messages(_) =>
      assert NON_FIELD_ERRORS in map[NON_FIELD_ERRORS := d];
      ByKey(map[NON_FIELD_ERRORS := d])
    case Message(_) =>
      assert NON_FIELD_ERRORS in map[NON_FIELD_ERRORS := Messages([d])];
      ByKey(map[NON_FIELD_ERRORS := Messages([d])])
  }

  // ----- fields -----

  /** A validator passes or raises a ValidationError made from the detail. */
  datatype Check = Pass | Raise(detail: Detail)

  /** `.validate()` or a parser: a value, or a ValidationError made from the detail. */
  datatype Parsed = Produced(value: Value) | Invalid(detail: Detail)

  type Validator = Value -> Check

  type Parser = Value -> Parsed

  type Printer = Value -> Value

  datatype Field = Field(
    required: bool,
    allowNull: bool,
    default: Option<Value>,
    validators: seq<Validator>,
    kind: Kind)

  datatype Kind =
    | Leaf(parse: Parser, show: Printer)
    | ListField(child: Field, allowEmpty: bool)
    | DictField(child: Field, allowEmpty: bool)
    | Serializer(fields: seq<Decl>, validate: Parser)
    | ListSerializer(child: Field, allowEmpty: bool, minLength: Option<nat>, maxLength: Option<nat>, validate: Parser)

  /** A declared field of a serializer, with its dotted source as a path, and the serializer's
      `validate_<name>` method if it has one. */
  datatype Decl = Decl(name: string, source: seq<string>, field: Field, hook: Option<Parser>)

  datatype Outcome =
    | Ok(value: Value)
    | Fail(detail: Detail)
    | Skip                  // SkipField
    | Crash                 // any other exception

  function Error(text: string): Outcome {
    Fail(Messages([Message(text)]))
  }

  function NonFieldError(text: string): Outcome {
    Fail(ByKey(map[NON_FIELD_ERRORS := Messages([Message(text)])]))
  }

  /** `get_default`; under a partial update there is none. */
  function GetDefault(f: Field, partial: bool): Outcome {
    if f.default.None? || partial then Skip else Ok(f.default.value)
  }

  /** `validate_empty_values`; `data` is None when nothing was given.  None: validate as normal. */
  function ValidateEmptyValues(f: Field, data: Option<Value>, partial: bool): Option<Outcome> {
    if data.None? then
      Some(if partial then Skip else if f.required then Error("required") else GetDefault(f, partial))
    else if data.value == Null then Some(if f.allowNull then Ok(Null) else Error("null"))
    else None
  }

  /** `run_validators`: collected messages; a dictionary of errors is raised at once. */
  function RunValidators(validators: seq<Validator>, value: Value, errors: seq<Detail>): Option<Detail> {
    if validators == [] then (if errors == [] then None else Some(Messages(errors)))
    else match validators[0](value)
      case Pass => RunValidators(validators[1..], value, errors)
      case Raise(detail) =>
        if detail.ByKey? then Some(detail)
        else RunValidators(validators[1..], value, errors + Coerced(detail).items)
  }

  /** Validators, then `.validate()`, errors of either coerced to a dictionary. */
  function Finish(f: Field, value: Value, validate: Parser): Outcome {
    match RunValidators(f.validators, value, [])
    case Some(detail) => Fail(AsSerializerError(detail))
    case None =>
      match validate(value)
      case Produced(v) => Ok(v)
      case Invalid(detail) => Fail(AsSerializerError(Coerced(detail)))
  }

  function RunValidation(f: Field, data: Option<Value>, partial: bool): Outcome
    decreases f, 1
  {
    match ValidateEmptyValues(f, data, partial)
    case Some(outcome) => outcome
    case None =>
      var parsed := ToInternalValue(f.kind, data.value, partial);
      if !parsed.Ok? then parsed
      else if f.kind.Serializer? || f.kind.ListSerializer? then Finish(f, parsed.value, f.kind.validate)
      else match RunValidators(f.validators, parsed.value, [])
        case Some(detail) => Fail(detail)
        case None => parsed
  }

  /** The outcomes of a child on each item of a list. */
  function ItemOutcomes(child: Field, items: seq<Value>, partial: bool): (r: seq<Outcome>)
    ensures |r| == |items|
    ensures forall i :: 0 <= i < |items| ==> r[i] == RunValidation(child, Some(items[i]), partial)
    decreases child, 2
  {
    seq(|items|, i requires 0 <= i < |items| => RunValidation(child, Some(items[i]), partial))
  }

  function EntryOutcomes(child: Field, entries: Entries, partial: bool): (r: map<string, Outcome>)
    ensures r.Keys == entries.Keys
    ensures forall k :: k in entries ==> r[k] == RunValidation(child, Some(entries[k]), partial)
    decreases child, 2
  {
    map k | k in entries :: RunValidation(child, Some(entries[k]), partial)
  }

  /** The errors of the failed items, by index. */
  function ListErrors(outcomes: seq<Outcome>): map<Key, Detail> {
    map i: nat | i < |outcomes| && outcomes[i].Fail? :: Index(i) := outcomes[i].detail
  }

  function DictErrors(outcomes: map<string, Outcome>): map<Key, Detail> {
    map k | k in outcomes && outcomes[k].Fail? :: Name(k) := outcomes[k].detail
  }

  /** `ListField.run_child_validation`: the values, or the errors by index. */
  function CollectList(outcomes: seq<Outcome>): Outcome {
    if exists i :: 0 <= i < |outcomes| && (outcomes[i].Crash? || outcomes[i].Skip?) then Crash
    else
      var errors := ListErrors(outcomes);
      if errors != map[] then Fail(ByKey(errors))
      else Ok(List(seq(|outcomes|, i requires 0 <= i < |outcomes| =>
        if outcomes[i].Ok? then outcomes[i].value else Null)))
  }

  /** `DictField.run_child_validation` */
  function CollectDict(outcomes: map<string, Outcome>): Outcome {
    if exists k :: k in outcomes && (outcomes[k].Crash? || outcomes[k].Skip?) then Crash
    else
      var errors := DictErrors(outcomes);
      if errors != map[] then Fail(ByKey(errors))
      else Ok(Dict(map k | k in outcomes :: if outcomes[k].Ok? then outcomes[k].value else Null))
  }

  /** The errors of a batch: one entry an item, empty for the valid ones. */
  function BatchErrors(outcomes: seq<Outcome>): (errors: seq<Detail>)
    ensures |errors| == |outcomes|
    ensures forall i :: 0 <= i < |outcomes| ==>
        errors[i] == if outcomes[i].Fail? then outcomes[i].detail else ByKey(map[])
  {
    seq(|outcomes|, i requires 0 <= i < |outcomes| => if outcomes[i].Fail? then outcomes[i].detail else ByKey(map[]))
  }

  /** The values of the items that did not fail. */
  function BatchValues(outcomes: seq<Outcome>): seq<Value> {
    if outcomes == [] then []
    else
      var last := outcomes[|outcomes| - 1];
      BatchValues(outcomes[..|outcomes| - 1]) + (if last.Ok? then [last.value] else [])
  }

  /** `ListSerializer.to_internal_value` after the length checks: it raises if any error is truthy. */
  function CollectBatch(outcomes: seq<Outcome>): Outcome {
    if exists i :: 0 <= i < |outcomes| && (outcomes[i].Crash? || outcomes[i].Skip?) then Crash
    else
      var errors := BatchErrors(outcomes);
      if exists i :: 0 <= i < |errors| && Truthy(errors[i]) then Fail(Messages(errors))
      else Ok(List(BatchValues(outcomes)))
  }

  /** The state of `Serializer.to_internal_value`'s loop. */
  datatype Gathered = Gathered(ret: Entries, errors: map<Key, Detail>) | Broken

  /** The given value of a declared field, if any. */
  function GetValue(data: Entries, name: string): (given: Option<Value>)
    ensures given.Some? <==> name in data
    ensures given.Some? ==> given.value == data[name]
  {
    if name in data then Some(data[name]) else None
  }

  /** One round of the loop, up to what is stored: the field's validation, then the hook's. */
  function FieldOutcome(d: Decl, data: Entries, partial: bool): Outcome
    decreases d, 0
  {
    var outcome := RunValidation(d.field, GetValue(data, d.name), partial);
    if !outcome.Ok? || d.hook.None? then outcome
    else match d.hook.value(outcome.value)
      case Produced(v) => Ok(v)
      case Invalid(detail) => Fail(Coerced(detail))
  }

  function Gather(fields: seq<Decl>, data: Entries, partial: bool): Gathered
    decreases fields, 0
  {
    if fields == [] then Gathered(map[], map[])
    else
      var before := Gather(fields[..|fields| - 1], data, partial);
      var d := fields[|fields| - 1];
      if before.Broken? then Broken
      else match FieldOutcome(d, data, partial)
        case Crash => Broken
        case Skip => before
        case Fail(detail) => before.(errors := before.errors[Name(d.name) := detail])
        case Ok(value) =>
          if d.source == [] then Broken
          else match SetValue(before.ret, d.source, value)
            case None => Broken
            case Some(ret) => before.(ret := ret)
  }

  function ToInternalValue(kind: Kind, data: Value, partial: bool): Outcome
    decreases kind, 0
  {
    match kind
    case Leaf(parse, _) =>
      (match parse(data) case Produced(v) => Ok(v) case Invalid(detail) => Fail(Coerced(detail)))
    case ListField(child, allowEmpty) =>
      if !data.List? then Error("not_a_list")
      else if !allowEmpty && data.items == [] then Error("empty")
      else CollectList(ItemOutcomes(child, data.items, partial))
    case DictField(child, allowEmpty) =>
      if !data.Dict? then Error("not_a_dict")
      else if !allowEmpty && data.entries == map[] then Error("empty")
      else CollectDict(EntryOutcomes(child, data.entries, partial))
    case Serializer(fields, _) =>
      if !data.Dict? then NonFieldError("invalid")
      else
        var g := Gather(fields, data.entries, partial);
        if g.Broken? then Crash
        else if g.errors != map[] then Fail(ByKey(g.errors))
        else Ok(Dict(g.ret))
    case ListSerializer(child, allowEmpty, minLength, maxLength, _) =>
      if !data.List? then NonFieldError("not_a_list")
      else if !allowEmpty && data.items == [] then NonFieldError("empty")
      else if maxLength.Some? && |data.items| > maxLength.value then NonFieldError("max_length")
      else if minLength.Some? && |data.items| < minLength.value then NonFieldError("min_length")
      else CollectBatch(ItemOutcomes(child, data.items, partial))
  }
}
