/** Nested dictionaries as the objects `set_value` mutates. */
module NestedDictionaries {
  import opened Prelude
  import opened NestedValues

  datatype Binding = Plain(value: Value) | Nested(dictionary: Dictionary)

  /** Storing an empty dictionary on the way first makes no difference. */
  lemma CreatedFirst(dictionary: NestedValues.Entries, keys: seq<string>, value: Value)
    requires |keys| >= 2 && keys[0] !in dictionary
    ensures NestedValues.SetValue(dictionary, keys, value).Some?
    ensures NestedValues.SetValue(dictionary[keys[0] := Dict(map[])], keys, value)
        == NestedValues.SetValue(dictionary, keys, value)
  {
    EmptySettable(keys[1..]);
    SetSucceeds(map[], keys[1..], value);
    var changed := NestedValues.SetValue(map[], keys[1..], value).value;
    assert dictionary[keys[0] := Dict(map[])][keys[0] := Dict(changed)] == dictionary[keys[0] := Dict(changed)];
  }

  lemma SetInner(dictionary: NestedValues.Entries, keys: seq<string>, value: Value)
    requires |keys| >= 2 && keys[0] in dictionary && dictionary[keys[0]].Dict?
    ensures var inner := NestedValues.SetValue(dictionary[keys[0]].entries, keys[1..], value);
      NestedValues.SetValue(dictionary, keys, value)
      == if inner.Some? then Some(dictionary[keys[0] := Dict(inner.value)]) else None
  {
  }

  class Dictionary {
    var entries: map<string, Binding>
    ghost var contents: NestedValues.Entries  // the whole dictionary as a value
    ghost var Repr: set<Dictionary>

    ghost predicate Valid()
      reads this, Repr
      decreases Repr
    {
      && this in Repr
      && contents.Keys == entries.Keys
      && (forall k :: k in entries && entries[k].Plain? ==> !entries[k].value.Dict? && contents[k] == entries[k].value)
      && (forall k :: k in entries && entries[k].Nested? ==>
            && entries[k].dictionary in Repr && entries[k].dictionary.Repr <= Repr
            && this !in entries[k].dictionary.Repr
            && entries[k].dictionary.Valid()
            && contents[k] == Dict(entries[k].dictionary.contents))
      && (forall j, k :: j in entries && k in entries && j != k && entries[j].Nested? && entries[k].Nested? ==>
            entries[j].dictionary.Repr !! entries[k].dictionary.Repr)
    }

    constructor ()
      ensures Valid() && fresh(Repr) && contents == map[]
    {
      entries, contents, Repr := map[], map[], {this};
    }

    /** A value to be stored: a dictionary is an object of its own, apart from this one. */
    ghost predicate Storable(binding: Binding)
      reads this, if binding.Nested? then {binding.dictionary} + binding.dictionary.Repr else {}
    {
      if binding.Nested? then binding.dictionary.Valid() && binding.dictionary.Repr !! Repr else !binding.value.Dict?
    }

    /** `dictionary[key] = value` */
    method Store(key: string, binding: Binding)
      requires Valid() && Storable(binding)
      modifies this
      ensures Valid()
      ensures Repr == old(Repr) + if binding.Nested? then binding.dictionary.Repr else {}
      ensures contents == old(contents)[key := Stored(binding)] && entries == old(entries)[key := binding]
    {
      entries := entries[key := binding];
      contents := contents[key := Stored(binding)];
      Repr := Repr + if binding.Nested? then binding.dictionary.Repr else {};
    }

    /** `set_value`: create the dictionaries that are missing on the way, and store the value.  It
        raises exactly if a value on the way is no dictionary, and has then changed nothing. */
    method SetValue(keys: seq<string>, binding: Binding) returns (ok: bool)
      requires Valid() && keys != [] && Storable(binding)
      modifies Repr
      ensures Valid()
      ensures fresh(Repr - old(Repr) - if binding.Nested? then binding.dictionary.Repr else {})
      ensures ok <==> NestedValues.SetValue(old(contents), keys, Stored(binding)).Some?
      ensures contents == if ok then NestedValues.SetValue(old(contents), keys, Stored(binding)).value
          else old(contents)
      decreases |keys|, 1
    {
      if |keys| == 1 {
        Store(keys[0], binding);
        return true;
      }
      if keys[0] !in entries {
        CreatedFirst(contents, keys, Stored(binding));
        var inner := new Dictionary();
        Store(keys[0], Nested(inner));
      }
      if entries[keys[0]].Plain? {
        return false;
      }
      ok := SetBelow(keys, binding);
    }

    /** Bookkeeping once a nested dictionary has changed. */
    ghost method Rejoin(key: string)
      requires this in Repr && contents.Keys == entries.Keys && key in entries && entries[key].Nested?
      requires forall k :: k in entries && entries[k].Plain? ==>
          !entries[k].value.Dict? && contents[k] == entries[k].value
      requires forall k :: k in entries && entries[k].Nested? ==>
          entries[k].dictionary.Valid() && this !in entries[k].dictionary.Repr
      requires forall k :: k in entries && entries[k].Nested? && k != key ==>
        && entries[k].dictionary in Repr && entries[k].dictionary.Repr <= Repr
        && contents[k] == Dict(entries[k].dictionary.contents)
      requires forall j, k :: j in entries && k in entries && j != k && entries[j].Nested? && entries[k].Nested? ==>
            entries[j].dictionary.Repr !! entries[k].dictionary.Repr
      modifies `Repr, `contents
      ensures Valid() && Repr == old(Repr) + entries[key].dictionary.Repr
      ensures contents == old(contents)[key := Dict(entries[key].dictionary.contents)]
    {
      Repr := Repr + entries[key].dictionary.Repr;
      contents := contents[key := Dict(entries[key].dictionary.contents)];
    }

    method SetBelow(keys: seq<string>, binding: Binding) returns (ok: bool)
      requires Valid() && |keys| >= 2 && keys[0] in entries && entries[keys[0]].Nested? && Storable(binding)
      modifies Repr
      ensures Valid()
      ensures fresh(Repr - old(Repr) - if binding.Nested? then binding.dictionary.Repr else {})
      ensures ok <==> NestedValues.SetValue(old(contents), keys, Stored(binding)).Some?
      ensures contents == if ok then NestedValues.SetValue(old(contents), keys, Stored(binding)).value
          else old(contents)
      decreases |keys|, 0
    {
      hide NestedValues.SetValue;
      var inner := entries[keys[0]].dictionary;
      SetInner(contents, keys, Stored(binding));
      ok := inner.SetValue(keys[1..], binding);
      forall k | k in entries && entries[k].Nested? && k != keys[0]
        ensures entries[k].dictionary.Valid() && contents[k] == Dict(entries[k].dictionary.contents)
        ensures entries[k].dictionary.Repr !! inner.Repr
      {
        assert unchanged(entries[k].dictionary.Repr);
        Untouched(entries[k].dictionary);
      }
      Rejoin(keys[0]);
    }
  }

  /** A dictionary none of whose objects has changed is still valid. */
  twostate lemma Untouched(d: Dictionary)
    requires old(d.Valid()) && unchanged(d) && unchanged(d.Repr)
    ensures d.Valid()
  {
  }

  ghost function Stored(binding: Binding): Value
    reads if binding.Nested? then {binding.dictionary} else {}
  {
    if binding.Nested? then Dict(binding.dictionary.contents) else binding.value
  }
}
