/** Nested dictionaries: writing with `set_value` and reading with `get_attribute`. */
module NestedValues {
  import opened Prelude

  /** Primitive data and native values alike. */
  datatype Value =
    | Null
    | Text(text: string)
    | Number(n: int)
    | Native(kind: string, text: string)
    | List(items: seq<Value>)
    | Dict(entries: map<string, Value>)

  type Entries = map<string, Value>

  /** `set_value`: None stands for the TypeError of writing into something that is no dictionary. */
  function SetValue(dictionary: Entries, keys: seq<string>, value: Value): Option<Entries>
    requires keys != []
    decreases |keys|
  {
    if |keys| == 1 then Some(dictionary[keys[0] := value])
    else
      var inner := if keys[0] in dictionary then dictionary[keys[0]] else Dict(map[]);
      if !inner.Dict? then None
      else match SetValue(inner.entries, keys[1..], value)
        case None => None
        case Some(changed) => Some(dictionary[keys[0] := Dict(changed)])
  }

  /** Reading along a path of plain data: None stands for the KeyError of a missing key. */
  function Lookup(instance: Value, attrs: seq<string>): Option<Value> {
    if attrs == [] then Some(instance)
    else if instance.Dict? && attrs[0] in instance.entries then Lookup(instance.entries[attrs[0]], attrs[1..])
    else None
  }

  // ----- get_attribute on objects -----

  /** `getattr`: the attribute, an AttributeError, or the ObjectDoesNotExist of a missing related object. */
  datatype Access = Got(value: Value) | Absent | NotExist

  /** Calling a simple callable. */
  datatype Called = Returned(value: Value) | Raised

  /** What the host language does with values that are no mappings: None is no simple callable. */
  datatype Host = Host(getattr: (Value, string) -> Access, call: Value -> Option<Called>)

  /** The result of `get_attribute`: a value; a KeyError or AttributeError; or another exception. */
  datatype Reading = Reads(value: Value) | Lacks | Breaks

  function Step(instance: Value, attr: string, host: Host): Access {
    if !instance.Dict? then host.getattr(instance, attr)
    else if attr in instance.entries then Got(instance.entries[attr])
    else Absent
  }

  function ReadAlong(instance: Value, attrs: seq<string>, host: Host): Reading
    decreases |attrs|
  {
    if attrs == [] then Reads(instance)
    else match Step(instance, attrs[0], host)
      case NotExist => Reads(Null)
      case Absent => Lacks
      case Got(value) =>
        match host.call(value)
        case None => ReadAlong(value, attrs[1..], host)
        case Some(Returned(result)) => ReadAlong(result, attrs[1..], host)
        case Some(Raised) => Breaks
  }

  /** The loop of `get_attribute` */
  method GetAttribute(instance: Value, attrs: seq<string>, host: Host) returns (r: Reading)
    ensures r == ReadAlong(instance, attrs, host)
  {
    var current, i := instance, 0;
    assert attrs[i..] == attrs;
    while i < |attrs|
      invariant 0 <= i <= |attrs| && ReadAlong(current, attrs[i..], host) == ReadAlong(instance, attrs, host)
    {
      assert attrs[i..][1..] == attrs[i + 1..];
      var access := Step(current, attrs[i], host);
      match access {
        case NotExist => return Reads(Null);
        case Absent => return Lacks;
        case Got(value) => current := value;
      }
      var called := host.call(current);
      match called {
        case None =>
        case Some(Returned(result)) => current := result;
        case Some(Raised) => return Breaks;
      }
      i := i + 1;
    }
    r := Reads(current);
  }

  /** Under the attribute stands the value: the entry of a mapping, or the attribute of an object. */
  ghost predicate Stands(instance: Value, attr: string, host: Host, value: Value) {
    if instance.Dict? then attr in instance.entries && value == instance.entries[attr]
    else host.getattr(instance, attr) == Got(value)
  }

  /** One move: what stands under the attribute, or the result of calling it if it can be called. */
  ghost predicate Moves(from: Value, attr: string, host: Host, to: Value) {
    exists found :: Stands(from, attr, host, found)
      && ((host.call(found) == None && to == found) || host.call(found) == Some(Returned(to)))
  }

  /** The values met on the way along the attributes. */
  ghost predicate Trail(instance: Value, attrs: seq<string>, host: Host, values: seq<Value>) {
    && |values| == |attrs| + 1 && values[0] == instance
    && forall i :: 0 <= i < |attrs| ==> Moves(values[i], attrs[i], host, values[i + 1])
  }

  /** No move is possible, with this outcome: a related object that does not exist counts as None. */
  ghost predicate Stops(from: Value, attr: string, host: Host, r: Reading) {
    || (r == Reads(Null) && !from.Dict? && host.getattr(from, attr) == NotExist)
    || (r == Lacks && if from.Dict? then attr !in from.entries else host.getattr(from, attr) == Absent)
    || (r == Breaks && exists found :: Stands(from, attr, host, found) && host.call(found) == Some(Raised))
  }

  /** Reading ends with the last value of the trail through all attributes, or as the trail stops. */
  ghost predicate ReadTo(instance: Value, attrs: seq<string>, host: Host, values: seq<Value>, r: Reading) {
    || (Trail(instance, attrs, host, values) && r == Reads(values[|attrs|]))
    || exists n :: 0 <= n < |attrs| && Trail(instance, attrs[..n], host, values) && Stops(values[n], attrs[n], host, r)
  }

  lemma TrailGrows(instance: Value, attrs: seq<string>, host: Host, values: seq<Value>)
    requires attrs != [] && values != [] && Moves(instance, attrs[0], host, values[0])
    requires Trail(values[0], attrs[1..], host, values)
    ensures Trail(instance, attrs, host, [instance] + values)
  {
    hide Moves;
    var all := [instance] + values;
    forall i | 0 <= i < |attrs|
      ensures Moves(all[i], attrs[i], host, all[i + 1])
    {
      if i > 0 { assert all[i] == values[i - 1] && attrs[i] == attrs[1..][i - 1]; }
    }
  }

  lemma FirstMove(instance: Value, attrs: seq<string>, host: Host, next: Value, values: seq<Value>, r: Reading)
    requires attrs != [] && Moves(instance, attrs[0], host, next) && ReadTo(next, attrs[1..], host, values, r)
    ensures ReadTo(instance, attrs, host, [instance] + values, r)
  {
    var rest, all := attrs[1..], [instance] + values;
    if Trail(next, rest, host, values) && r == Reads(values[|rest|]) {
      TrailGrows(instance, attrs, host, values);
    } else {
      var n :| 0 <= n < |rest| && Trail(next, rest[..n], host, values) && Stops(values[n], rest[n], host, r);
      hide Moves, Stops;
      assert attrs[..n + 1][1..] == rest[..n] && attrs[n + 1] == rest[n] && all[n + 1] == values[n];
      TrailGrows(instance, attrs[..n + 1], host, values);
    }
  }

  lemma AtOnce(instance: Value, attrs: seq<string>, host: Host, r: Reading)
    requires if attrs == [] then r == Reads(instance) else Stops(instance, attrs[0], host, r)
    ensures ReadTo(instance, attrs, host, [instance], r)
  {
    if attrs != [] { assert attrs[..0] == []; }
  }

  /** Reading goes along a trail, to its end or to where it stops. */
  lemma {:induction false} ReadAlongTrail(instance: Value, attrs: seq<string>, host: Host) returns (values: seq<Value>)
    ensures ReadTo(instance, attrs, host, values, ReadAlong(instance, attrs, host))
    decreases |attrs|
  {
    hide ReadTo;
    var r := ReadAlong(instance, attrs, host);
    if attrs == [] {
      values := [instance];
      AtOnce(instance, attrs, host, r);
    } else {
      var access := Step(instance, attrs[0], host);
      if access.Got? && (host.call(access.value).None? || host.call(access.value).value.Returned?) {
        var called := host.call(access.value);
        var next := if called.None? then access.value else called.value.value;
        assert Stands(instance, attrs[0], host, access.value);
        values := ReadAlongTrail(next, attrs[1..], host);
        FirstMove(instance, attrs, host, next, values, r);
        values := [instance] + values;
      } else {
        if access.Got? { assert Stands(instance, attrs[0], host, access.value); }
        values := [instance];
        AtOnce(instance, attrs, host, r);
      }
    }
  }

  /** On plain data, where nothing is callable and only mappings have something to look up, this is
      the lookup along the path. */
  lemma {:induction false} ReadAlongIsLookup(instance: Value, attrs: seq<string>, host: Host)
    requires forall v, attr :: host.getattr(v, attr) == Absent
    requires forall v :: host.call(v) == None
    ensures ReadAlong(instance, attrs, host)
         == if Lookup(instance, attrs).Some? then Reads(Lookup(instance, attrs).value) else Lacks
  {
    if attrs != [] && instance.Dict? && attrs[0] in instance.entries {
      ReadAlongIsLookup(instance.entries[attrs[0]], attrs[1..], host);
    }
  }

  /** Neither path leads through the end of the other. */
  predicate Apart(a: seq<string>, b: seq<string>) {
    !(a <= b) && !(b <= a)
  }

  /** Writing at the path meets no value that is not a dictionary. */
  predicate Settable(dictionary: Entries, keys: seq<string>)
    requires keys != []
    decreases |keys|
  {
    |keys| == 1 || keys[0] !in dictionary
    || (dictionary[keys[0]].Dict? && Settable(dictionary[keys[0]].entries, keys[1..]))
  }

  lemma {:induction false} EmptySettable(keys: seq<string>)
    requires keys != []
    ensures Settable(map[], keys)
  {
  }

  lemma {:induction false} SetSucceeds(dictionary: Entries, keys: seq<string>, value: Value)
    requires keys != []
    ensures SetValue(dictionary, keys, value).Some? <==> Settable(dictionary, keys)
    decreases |keys|
  {
    if |keys| > 1 {
      var inner := if keys[0] in dictionary then dictionary[keys[0]] else Dict(map[]);
      if inner.Dict? { SetSucceeds(inner.entries, keys[1..], value); }
      EmptySettable(keys[1..]);
    }
  }

  /** What was written is read back. */
  lemma {:induction false} GetAfterSet(dictionary: Entries, keys: seq<string>, value: Value)
    requires keys != [] && SetValue(dictionary, keys, value).Some?
    ensures Lookup(Dict(SetValue(dictionary, keys, value).value), keys) == Some(value)
    decreases |keys|
  {
    if |keys| > 1 {
      var inner := if keys[0] in dictionary then dictionary[keys[0]] else Dict(map[]);
      GetAfterSet(inner.entries, keys[1..], value);
    }
  }

  lemma ApartTails(a: seq<string>, b: seq<string>)
    requires a != [] && b != [] && a[0] == b[0] && Apart(a, b)
    ensures a[1..] != [] && b[1..] != [] && Apart(a[1..], b[1..])
  {
    assert a == [a[0]] + a[1..] && b == [b[0]] + b[1..];
  }

  /** Writing at one path leaves what is read at another path alone. */
  lemma {:induction false} SetElsewhere(dictionary: Entries, keys: seq<string>, value: Value, attrs: seq<string>)
    requires keys != [] && SetValue(dictionary, keys, value).Some? && Apart(keys, attrs)
    ensures Lookup(Dict(SetValue(dictionary, keys, value).value), attrs) == Lookup(Dict(dictionary), attrs)
    decreases |keys|
  {
    if keys[0] == attrs[0] {
      ApartTails(keys, attrs);
      var inner := if keys[0] in dictionary then dictionary[keys[0]] else Dict(map[]);
      SetElsewhere(inner.entries, keys[1..], value, attrs[1..]);
    }
  }

  lemma {:induction false} SettableElsewhere(dictionary: Entries, keys: seq<string>, value: Value, others: seq<string>)
    requires keys != [] && others != [] && SetValue(dictionary, keys, value).Some? && Apart(keys, others)
    requires Settable(dictionary, others)
    ensures Settable(SetValue(dictionary, keys, value).value, others)
    decreases |keys|
  {
    if keys[0] == others[0] {
      ApartTails(keys, others);
      var inner := if keys[0] in dictionary then dictionary[keys[0]] else Dict(map[]);
      EmptySettable(others[1..]);
      SettableElsewhere(inner.entries, keys[1..], value, others[1..]);
    }
  }
}
