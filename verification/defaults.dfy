/**
 * The methods of `Defaults` in ext/typeexpr/defaults.go, step by step: the
 * loops that build the element slice, the entry map, the filled map, the
 * type list, the sorted key list and the converted elements. Each is proved
 * against its specification function; where Go walks a map, the key taken
 * next is an arbitrary remaining one, as Go's randomised iteration order allows.
 */
module TypeExpr {
  import opened Cty
  import opened Sort
  import opened DefaultsTree
  import opened DefaultsSpec
  import opened DefaultsProperties

  /**
   * Apply: defaults applied, reassembly by unification. Go panics on an error
   * here; none can occur, so the panic is unreachable.
   */
  method Apply(lib: Lib, d: Defaults, val: Value) returns (applied: Value)
    requires Fits(d, val)
    ensures Applied(lib, d, val, false) == Done(applied)
    ensures applied.marks == val.marks
  {
    var result := ApplyWith(lib, d, val, false);
    applied := result.value;
  }

  /** ApplyAndConvert: defaults applied, each container converted to its node's declared type. */
  method ApplyAndConvert(lib: Lib, d: Defaults, val: Value) returns (r: Result<Value>)
    requires Fits(d, val)
    ensures Allows(Applied(lib, d, val, true), r)
    ensures r.Ok? ==> val.marks <= r.value.marks
    ensures r.Err? ==> r.error.want in DeclaredTypes(d)
  {
    r := ApplyWith(lib, d, val, true);
    FailureNamesNode(lib, d, val, true);
  }

  /** apply(v, concrete). */
  method ApplyWith(lib: Lib, d: Defaults, v: Value, concrete: bool) returns (r: Result<Value>)
    requires Fits(d, v)
    ensures Allows(Applied(lib, d, v, concrete), r)
    ensures !v.IsKnown() || v.IsNull() || d.NoDefaults() || v.shape.Primitive? ==> r == Ok(v)
    ensures !concrete ==> r.Ok? && r.value.marks == v.marks
    ensures r.Ok? ==> v.marks <= r.value.marks
    decreases d, 2
  {
    if !concrete {
      NonExactNeverFails(lib, d, v);
    }
    if !v.IsKnown() || v.IsNull() {
      return Ok(v);
    }
    if d.NoDefaults() {
      return Ok(v);
    }
    var bare, marks := v.Unmark(), v.marks;
    var result := bare;
    if bare.shape.IsSequence() {
      var values :- ApplyAsSlice(lib, d, bare, concrete);
      if concrete {
        var converted := lib.convert(TupleVal(values), d.ty);
        if converted.Unconvertible? {
          return Err(Mismatch(converted.got, d.ty));
        }
        result := converted.value;
      } else {
        result := UnifyFromSlice(lib, TypeOf(bare), values);
      }
    } else if bare.shape.IsKeyed() {
      var entries :- ApplyAsMap(lib, d, bare, concrete);
      var values :- FillDefaults(lib, d, entries, concrete);
      if concrete {
        var converted := lib.convert(ObjectVal(values), d.ty);
        if converted.Unconvertible? {
          return Err(Mismatch(converted.got, d.ty));
        }
        result := converted.value;
      } else {
        result := UnifyFromMap(lib, TypeOf(bare), values);
      }
    }
    if v.shape.Primitive? {
      assert result.WithMarks(marks) == v;
    }
    return Ok(result.WithMarks(marks));
  }

  /** applyAsSlice: each element through its child node, if any, in order. */
  method ApplyAsSlice(lib: Lib, d: Defaults, value: Value, concrete: bool) returns (r: Result<seq<Value>>)
    requires value.shape.IsSequence() && ElementsFit(d, value.shape.elems)
    ensures Allows(SliceFrom(lib, d, value.shape.elems, 0, concrete), r)
    decreases d, 1
  {
    var es := value.shape.elems;
    var elements: seq<Value> := [];
    PrependNothing(SliceFrom(lib, d, es, 0, concrete));
    for ix := 0 to |es|
      invariant SliceFrom(lib, d, es, 0, concrete) == Prepend(elements, SliceFrom(lib, d, es, ix, concrete))
    {
      var element := es[ix];
      var childDefaults := GetChild(d, Index(ix));
      if childDefaults.Some? {
        element :- ApplyWith(lib, childDefaults.value, es[ix], concrete);
      }
      PrependTwice(elements, [element], SliceFrom(lib, d, es, ix + 1, concrete));
      elements := elements + [element];
    }
    assert Prepend(elements, Done([])) == Done(elements + []);
    assert elements + [] == elements;
    return Ok(elements);
  }

  /** applyAsMap: each entry through its child node, if any, in Go's map order. */
  method ApplyAsMap(lib: Lib, d: Defaults, value: Value, concrete: bool) returns (r: Result<map<string, Value>>)
    requires value.shape.IsKeyed() && EntriesFit(d, value.shape.entries)
    ensures Allows(MapApplied(lib, d, value.shape.entries, concrete), r)
    decreases d, 1
  {
    var m := value.shape.entries;
    var elements: map<string, Value> := map[];
    var pending := m.Keys;
    while pending != {}
      invariant pending <= m.Keys
      invariant elements.Keys == m.Keys - pending
      invariant forall k :: k in elements ==> EntryApplied(lib, d, m, k, concrete) == Done(elements[k])
      decreases pending
    {
      var key :| key in pending;
      var childDefaults := GetChild(d, Attribute(key));
      if childDefaults.Some? {
        var element := ApplyWith(lib, childDefaults.value, m[key], concrete);
        if element.Err? {
          assert EntryApplied(lib, d, m, key, concrete).Fails?;
          return Err(element.error);
        }
        elements := elements[key := element.value];
      } else {
        elements := elements[key := m[key]];
      }
      pending := pending - {key};
    }
    assert forall k :: k in m ==> EntryApplied(lib, d, m, k, concrete).Done?;
    assert elements == map k | k in m :: EntryApplied(lib, d, m, k, concrete).value;
    return Ok(elements);
  }

  /** The loop over DefaultValues in apply: missing or null attributes get their default. */
  method FillDefaults(lib: Lib, d: Defaults, entries: map<string, Value>, concrete: bool) returns (r: Result<map<string, Value>>)
    requires DefaultsFit(d)
    ensures Allows(Filled(lib, d, entries, concrete), r)
    decreases d, 1
  {
    var values := entries;
    var pending := d.defaultValues.Keys;
    FillNothing(lib, d, entries, concrete);
    assert d.defaultValues.Keys - pending == {};
    while pending != {}
      invariant pending <= d.defaultValues.Keys
      invariant FilledOn(lib, d, entries, d.defaultValues.Keys - pending, concrete) == Done(values)
      decreases pending
    {
      var key :| key in pending;
      ghost var done := d.defaultValues.Keys - pending;
      FillTest(lib, d, entries, done, key, concrete);
      var defaultValue := d.defaultValues[key];
      if key !in values || values[key].IsNull() {
        if key in d.children {
          var filled := ApplyWith(lib, d.children[key], defaultValue, concrete);
          if filled.Err? {
            FillFailure(lib, d, entries, d.defaultValues.Keys, key, concrete);
            return Err(filled.error);
          }
          FillStep(lib, d, entries, done, key, concrete);
          values := values[key := filled.value];
        } else {
          FillStep(lib, d, entries, done, key, concrete);
          values := values[key := defaultValue];
        }
      } else {
        FillStep(lib, d, entries, done, key, concrete);
      }
      assert done + {key} == d.defaultValues.Keys - (pending - {key});
      pending := pending - {key};
    }
    assert d.defaultValues.Keys - pending == d.defaultValues.Keys;
    return Ok(values);
  }

  /** unifyFromSlice: a homogeneous list or set when the element types unify, else a tuple. */
  method UnifyFromSlice(lib: Lib, target: Type, values: seq<Value>) returns (r: Value)
    ensures r == UnifiedFromSlice(lib, target, values)
  {
    if target.TupleType? {
      return TupleVal(values);
    }
    var types: seq<Type> := [];
    for ix := 0 to |values|
      invariant types == TypesOf(values[..ix])
    {
      types := types + [TypeOf(values[ix])];
    }
    assert values[..|values|] == values;
    var u := lib.unifyUnsafe(types);
    if u.unified == NilType {
      return TupleVal(values);
    }
    var converts: seq<Value> := [];
    for ix := 0 to |u.conversions|
      invariant |converts| == ix
      invariant forall i :: 0 <= i < ix ==> Run(u.conversions[i], values[i]) == Converted(converts[i])
    {
      match u.conversions[ix] {
        case None =>
          converts := converts + [values[ix]];
        case Some(conversion) =>
          var converted := conversion(values[ix]);
          if converted.Unconvertible? {
            assert Run(u.conversions[ix], values[ix]).Unconvertible?;
            return TupleVal(values);
          }
          converts := converts + [converted.value];
      }
    }
    assert !AnySlotFails(u.conversions, values);
    assert converts == seq(|values|, i requires 0 <= i < |values| => Run(u.conversions[i], values[i]).value);
    if target.SetType? {
      r := SetVal(u.unified, converts);
    } else {
      r := ListVal(u.unified, converts);
    }
  }

  /** The keys of a map, gathered into a slice in Go's map order. */
  method KeysOf(values: map<string, Value>) returns (keys: seq<string>)
    ensures Distinct(keys)
    ensures (set k | k in keys) == values.Keys
  {
    keys := [];
    var pending := values.Keys;
    while pending != {}
      invariant pending <= values.Keys
      invariant Distinct(keys)
      invariant forall k :: k in keys <==> k in values.Keys - pending
      decreases pending
    {
      var key :| key in pending;
      assert key !in keys;
      keys := keys + [key];
      pending := pending - {key};
    }
  }

  /** The types of the map's values, in the order of `keys`. */
  method TypesInOrder(keys: seq<string>, values: map<string, Value>) returns (types: seq<Type>)
    requires forall k :: k in keys ==> k in values
    ensures types == TypesOf(ValuesInOrder(keys, values))
  {
    types := [];
    for ix := 0 to |keys|
      invariant |types| == ix
      invariant forall i :: 0 <= i < ix ==> types[i] == TypeOf(values[keys[i]])
    {
      types := types + [TypeOf(values[keys[ix]])];
    }
  }

  /**
   * The conversion loop of unifyFromMap: slot i converts the value under
   * `keys[i]`; None as soon as one conversion fails.
   */
  method ConvertEntries(keys: seq<string>, values: map<string, Value>, conversions: seq<Option<Conversion>>)
    returns (converts: Option<map<string, Value>>)
    requires Distinct(keys) && |conversions| == |keys|
    requires forall k :: k in keys ==> k in values
    ensures converts.None? <==> AnySlotFails(conversions, ValuesInOrder(keys, values))
    ensures converts.Some? ==> converts.value == ConvertedInOrder(keys, ValuesInOrder(keys, values), conversions)
  {
    ghost var ordered := ValuesInOrder(keys, values);
    var done: map<string, Value> := map[];
    for ix := 0 to |keys|
      invariant forall k :: k in done <==> k in keys[..ix]
      invariant forall i :: 0 <= i < ix ==> Run(conversions[i], values[keys[i]]) == Converted(done[keys[i]])
    {
      var key := keys[ix];
      match conversions[ix] {
        case None =>
          done := done[key := values[key]];
        case Some(conversion) =>
          var converted := conversion(values[key]);
          if converted.Unconvertible? {
            assert Run(conversions[ix], ordered[ix]).Unconvertible?;
            return None;
          }
          done := done[key := converted.value];
      }
    }
    assert keys[..|keys|] == keys;
    AllConverted(keys, values, conversions, done);
    return Some(done);
  }

  /** After the conversion loop runs to the end, no slot failed and the map holds every converted value. */
  lemma AllConverted(keys: seq<string>, values: map<string, Value>, conversions: seq<Option<Conversion>>, done: map<string, Value>)
    requires Distinct(keys) && |conversions| == |keys|
    requires forall k :: k in keys ==> k in values
    requires forall k :: k in done <==> k in keys
    requires forall i :: 0 <= i < |keys| ==> Run(conversions[i], values[keys[i]]) == Converted(done[keys[i]])
    ensures !AnySlotFails(conversions, ValuesInOrder(keys, values))
    ensures done == ConvertedInOrder(keys, ValuesInOrder(keys, values), conversions)
  {
    var ordered := ValuesInOrder(keys, values);
    var expected := ConvertedInOrder(keys, ordered, conversions);
    forall k | k in done
      ensures k in expected && expected[k] == done[k]
    {
      var i :| 0 <= i < |keys| && keys[i] == k;
      assert ordered[i] == values[k];
    }
  }

  /** unifyFromMap: a homogeneous map when the entry types unify, else an object. */
  method UnifyFromMap(lib: Lib, target: Type, values: map<string, Value>) returns (r: Value)
    ensures r == UnifiedFromMap(lib, target, values)
  {
    if target.ObjectType? {
      return ObjectVal(values);
    }
    var keys := KeysOf(values);
    keys := SortStrings(keys);
    StrictlySortedIsDistinct(keys);
    r := UnifyInOrder(lib, keys, values);
  }

  /** The part of unifyFromMap after the keys are sorted. */
  method UnifyInOrder(lib: Lib, keys: seq<string>, values: map<string, Value>) returns (r: Value)
    requires Distinct(keys) && forall k :: k in keys ==> k in values
    ensures r == UnifiedInOrder(lib, keys, values)
  {
    var types := TypesInOrder(keys, values);
    var u := lib.unifyUnsafe(types);
    if u.unified == NilType {
      return ObjectVal(values);
    }
    assert |u.conversions| == |keys|;
    ghost var ordered := ValuesInOrder(keys, values);
    var converts := ConvertEntries(keys, values, u.conversions);
    if converts.None? {
      assert AnySlotFails(u.conversions, ordered);
      return ObjectVal(values);
    }
    assert !AnySlotFails(u.conversions, ordered);
    r := MapVal(u.unified, converts.value);
  }
}
