/**
 * Properties of the applier, proved about the specification functions:
 * the plain entry point never meets an error, marks survive, element and
 * entry passes keep positions and keys, the fill loop fills exactly the
 * missing or null defaults in any order, child keys, and the shapes that
 * unification can produce.
 */
module DefaultsProperties {
  import opened Cty
  import opened Strconv
  import opened Sort
  import opened DefaultsTree
  import opened DefaultsSpec

  // ---------------------------------------------------------------------
  // Non-exact mode: no error can arise, so Apply's panic is unreachable,
  // and the result carries exactly the input's marks.
  // ---------------------------------------------------------------------

  lemma {:induction false} NonExactNeverFails(lib: Lib, d: Defaults, v: Value)
    requires Fits(d, v)
    ensures Applied(lib, d, v, false).Done?
    ensures Applied(lib, d, v, false).value.marks == v.marks
    decreases d, 2, 0
  {
    if !v.IsKnown() || v.IsNull() || d.NoDefaults() {
      return;
    }
    var bare := v.Unmark();
    if bare.shape.IsSequence() {
      SliceNeverFails(lib, d, bare.shape.elems, 0);
    } else if bare.shape.IsKeyed() {
      EntriesNeverFail(lib, d, bare.shape.entries);
      FillNeverFails(lib, d, MapApplied(lib, d, bare.shape.entries, false).value, d.defaultValues.Keys);
    }
  }

  lemma {:induction false} SliceNeverFails(lib: Lib, d: Defaults, es: seq<Value>, from: nat)
    requires from <= |es| && ElementsFit(d, es)
    ensures SliceFrom(lib, d, es, from, false).Done?
    decreases d, 1, |es| - from
  {
    if from < |es| {
      match GetChild(d, Index(from)) {
        case Some(child) => NonExactNeverFails(lib, child, es[from]);
        case None =>
      }
      SliceNeverFails(lib, d, es, from + 1);
    }
  }

  lemma {:induction false} EntriesNeverFail(lib: Lib, d: Defaults, m: map<string, Value>)
    requires EntriesFit(d, m)
    ensures MapApplied(lib, d, m, false).Done?
    decreases d, 1, 0
  {
    forall k | k in m
      ensures EntryApplied(lib, d, m, k, false).Done?
    {
      match GetChild(d, Attribute(k)) {
        case Some(child) => NonExactNeverFails(lib, child, m[k]);
        case None =>
      }
    }
  }

  lemma {:induction false} FillNeverFails(lib: Lib, d: Defaults, values: map<string, Value>, done: set<string>)
    requires done <= d.defaultValues.Keys && DefaultsFit(d)
    ensures FilledOn(lib, d, values, done, false).Done?
    decreases d, 1, 0
  {
    forall k | k in values.Keys + done
      ensures Filling(lib, d, values, done, k, false).Done?
    {
      if k in done && NeedsDefault(d, values, k) && k in d.children {
        NonExactNeverFails(lib, d.children[k], d.defaultValues[k]);
      }
    }
  }

  // ---------------------------------------------------------------------
  // The element pass, one position at a time.
  // ---------------------------------------------------------------------

  lemma PrependNothing<T>(o: Outcome<seq<T>>)
    ensures Prepend([], o) == o
  {
    if o.Done? {
      assert [] + o.value == o.value;
    }
  }

  lemma PrependTwice<T>(a: seq<T>, b: seq<T>, o: Outcome<seq<T>>)
    ensures Prepend(a, Prepend(b, o)) == Prepend(a + b, o)
  {
    if o.Done? {
      assert a + (b + o.value) == (a + b) + o.value;
    }
  }

  // ---------------------------------------------------------------------
  // The fill loop, one key at a time.
  // ---------------------------------------------------------------------

  /** Before any default key is handled, the map is the input. */
  lemma FillNothing(lib: Lib, d: Defaults, values: map<string, Value>, concrete: bool)
    requires DefaultsFit(d)
    ensures FilledOn(lib, d, values, {}, concrete) == Done(values)
  {
    assert values.Keys + {} == values.Keys;
    assert forall k :: k in values ==> Filling(lib, d, values, {}, k, concrete) == Done(values[k]);
    assert (map k | k in values.Keys :: Filling(lib, d, values, {}, k, concrete).value) == values;
  }

  /** Handling one more default key leaves every other key as it was. */
  lemma FillingOtherKey(lib: Lib, d: Defaults, values: map<string, Value>, done: set<string>, key: string, k: string, concrete: bool)
    requires DefaultsFit(d) && done <= d.defaultValues.Keys && key in d.defaultValues
    requires k in values.Keys + done && k != key
    ensures Filling(lib, d, values, done + {key}, k, concrete) == Filling(lib, d, values, done, k, concrete)
  {
  }

  /** The fill loop's condition on `key` reads the same from the partly filled map as from the input. */
  lemma FillTest(lib: Lib, d: Defaults, values: map<string, Value>, done: set<string>, key: string, concrete: bool)
    requires DefaultsFit(d) && done <= d.defaultValues.Keys
    requires key in d.defaultValues && key !in done
    requires FilledOn(lib, d, values, done, concrete).Done?
    ensures var filled := FilledOn(lib, d, values, done, concrete).value;
      NeedsDefault(d, values, key) <==> key !in filled || filled[key].IsNull()
  {
    var keys := values.Keys + done;
    if key in values {
      assert Filling(lib, d, values, done, key, concrete) == Done(values[key]);
    }
  }

  /** Handling one more default key changes at most that key: to its default when it needs one. */
  lemma FillStep(lib: Lib, d: Defaults, values: map<string, Value>, done: set<string>, key: string, concrete: bool)
    requires DefaultsFit(d) && done <= d.defaultValues.Keys
    requires key in d.defaultValues && key !in done
    requires FilledOn(lib, d, values, done, concrete).Done?
    requires NeedsDefault(d, values, key) ==> DefaultFor(lib, d, key, concrete).Done?
    ensures FilledOn(lib, d, values, done + {key}, concrete) ==
      var filled := FilledOn(lib, d, values, done, concrete).value;
      if NeedsDefault(d, values, key) then Done(filled[key := DefaultFor(lib, d, key, concrete).value])
      else Done(filled)
  {
    var filled := FilledOn(lib, d, values, done, concrete).value;
    var more := done + {key};
    var keys := values.Keys + done;
    var keys' := values.Keys + more;
    var step := if NeedsDefault(d, values, key) then DefaultFor(lib, d, key, concrete).value else values[key];
    assert Filling(lib, d, values, more, key, concrete) == Done(step);
    assert forall k :: k in keys ==> Filling(lib, d, values, done, k, concrete).Done?;
    assert filled == map k | k in keys :: Filling(lib, d, values, done, k, concrete).value;
    assert !NeedsDefault(d, values, key) ==> key in values && filled[key] == values[key];
    forall k | k in keys'
      ensures Filling(lib, d, values, more, k, concrete).Done?
      ensures Filling(lib, d, values, more, k, concrete).value == filled[key := step][k]
    {
      if k != key {
        FillingOtherKey(lib, d, values, done, key, k, concrete);
      }
    }
    var after := map k | k in keys' :: Filling(lib, d, values, more, k, concrete).value;
    assert FilledOn(lib, d, values, more, concrete) == Done(after);
    assert after == filled[key := step];
    assert !NeedsDefault(d, values, key) ==> filled[key := step] == filled;
  }

  /** A default that is needed and fails makes the whole fill fail, with its errors among the possible ones. */
  lemma FillFailure(lib: Lib, d: Defaults, values: map<string, Value>, done: set<string>, key: string, concrete: bool)
    requires DefaultsFit(d) && done <= d.defaultValues.Keys && key in done
    requires NeedsDefault(d, values, key) && DefaultFor(lib, d, key, concrete).Fails?
    ensures FilledOn(lib, d, values, done, concrete).Fails?
    ensures DefaultFor(lib, d, key, concrete).errors <= FilledOn(lib, d, values, done, concrete).errors
  {
    assert Filling(lib, d, values, done, key, concrete) == DefaultFor(lib, d, key, concrete);
  }

  // ---------------------------------------------------------------------
  // What the element and entry passes produce.
  // ---------------------------------------------------------------------

  /** Every element from position `from` on comes through its child node without error. */
  ghost predicate EveryElementApplies(lib: Lib, d: Defaults, es: seq<Value>, from: nat, concrete: bool)
    requires from <= |es| && ElementsFit(d, es)
  {
    forall i :: from <= i < |es| ==> ElementApplied(lib, d, es, i, concrete).Done?
  }

  /**
   * applyAsSlice succeeds exactly when every element does, and then keeps
   * length and order: position i holds element i after its child node, or
   * element i itself when the lookup finds no child.
   */
  lemma {:induction false} SliceElementwise(lib: Lib, d: Defaults, es: seq<Value>, from: nat, concrete: bool)
    requires from <= |es| && ElementsFit(d, es)
    ensures SliceFrom(lib, d, es, from, concrete).Done? <==> EveryElementApplies(lib, d, es, from, concrete)
    ensures SliceFrom(lib, d, es, from, concrete).Done? ==>
      var out := SliceFrom(lib, d, es, from, concrete).value;
      |out| == |es| - from &&
      (forall i :: from <= i < |es| ==> out[i - from] == ElementApplied(lib, d, es, i, concrete).value) &&
      (forall i :: from <= i < |es| && GetChild(d, Index(i)).None? ==> out[i - from] == es[i])
    decreases |es| - from
  {
    if from < |es| {
      SliceElementwise(lib, d, es, from + 1, concrete);
      var head := ElementApplied(lib, d, es, from, concrete);
      var tail := SliceFrom(lib, d, es, from + 1, concrete);
      if head.Fails? {
        assert SliceFrom(lib, d, es, from, concrete).Fails?;
        assert !EveryElementApplies(lib, d, es, from, concrete);
      } else if tail.Fails? {
        assert SliceFrom(lib, d, es, from, concrete).Fails?;
      } else {
        var out := [head.value] + tail.value;
        assert SliceFrom(lib, d, es, from, concrete) == Done(out);
        assert forall j :: 1 <= j < |out| ==> out[j] == tail.value[j - 1];
      }
    }
  }

  /** Element `i` fails and none between `from` and it does. */
  ghost predicate FirstFailure(lib: Lib, d: Defaults, es: seq<Value>, from: nat, i: nat, concrete: bool)
    requires from <= i < |es| && ElementsFit(d, es)
  {
    ElementApplied(lib, d, es, i, concrete).Fails? &&
    forall j :: from <= j < i ==> ElementApplied(lib, d, es, j, concrete).Done?
  }

  /** A failing element aborts applyAsSlice with that element's errors: the first one that fails. */
  lemma {:induction false} SliceFirstFailure(lib: Lib, d: Defaults, es: seq<Value>, from: nat, concrete: bool)
    requires from <= |es| && ElementsFit(d, es)
    requires SliceFrom(lib, d, es, from, concrete).Fails?
    ensures exists i :: (from <= i < |es| && FirstFailure(lib, d, es, from, i, concrete) &&
      ElementApplied(lib, d, es, i, concrete).errors == SliceFrom(lib, d, es, from, concrete).errors)
    decreases |es| - from
  {
    if ElementApplied(lib, d, es, from, concrete).Done? {
      SliceFirstFailure(lib, d, es, from + 1, concrete);
      var i :| from + 1 <= i < |es| && FirstFailure(lib, d, es, from + 1, i, concrete) &&
        ElementApplied(lib, d, es, i, concrete).errors == SliceFrom(lib, d, es, from + 1, concrete).errors;
      assert FirstFailure(lib, d, es, from, i, concrete);
    } else {
      assert FirstFailure(lib, d, es, from, from, concrete);
    }
  }

  /**
   * applyAsMap succeeds exactly when every entry does, and then keeps the key
   * set; each entry is the child's result, or the entry itself without a
   * child. A failure carries the errors of a failing entry.
   */
  lemma EntriesKept(lib: Lib, d: Defaults, m: map<string, Value>, concrete: bool)
    requires EntriesFit(d, m)
    ensures MapApplied(lib, d, m, concrete).Done? <==>
      forall k :: k in m ==> EntryApplied(lib, d, m, k, concrete).Done?
    ensures MapApplied(lib, d, m, concrete).Done? ==>
      var out := MapApplied(lib, d, m, concrete).value;
      out.Keys == m.Keys &&
      (forall k :: k in m ==> out[k] == EntryApplied(lib, d, m, k, concrete).value) &&
      (forall k :: k in m && GetChild(d, Attribute(k)).None? ==> out[k] == m[k])
    ensures MapApplied(lib, d, m, concrete).Fails? ==>
      exists k :: k in m && EntryApplied(lib, d, m, k, concrete).Fails? &&
        EntryApplied(lib, d, m, k, concrete).errors <= MapApplied(lib, d, m, concrete).errors
  {
  }

  // ---------------------------------------------------------------------
  // What the fill loop produces, and that its order does not matter.
  // ---------------------------------------------------------------------

  /**
   * The fill succeeds exactly when every needed default does. It then yields
   * every input key and every default key; a key that was absent or null gets
   * its default (through its child node when there is one), and every other
   * key keeps its input value.
   */
  lemma FilledContents(lib: Lib, d: Defaults, values: map<string, Value>, concrete: bool)
    requires DefaultsFit(d)
    ensures Filled(lib, d, values, concrete).Done? <==>
      forall k :: NeedsDefault(d, values, k) ==> DefaultFor(lib, d, k, concrete).Done?
    ensures Filled(lib, d, values, concrete).Done? ==>
      var out := Filled(lib, d, values, concrete).value;
      out.Keys == values.Keys + d.defaultValues.Keys &&
      (forall k :: NeedsDefault(d, values, k) ==> out[k] == DefaultFor(lib, d, k, concrete).value) &&
      (forall k :: k in values && !NeedsDefault(d, values, k) ==> out[k] == values[k])
  {
    var keys := values.Keys + d.defaultValues.Keys;
    forall k | k in keys
      ensures Filling(lib, d, values, d.defaultValues.Keys, k, concrete) ==
        if NeedsDefault(d, values, k) then DefaultFor(lib, d, k, concrete) else Done(values[k])
    {
    }
  }

  /** The Go loop's outcome is one the fill allows: the same map, or errors the fill also names. */
  ghost predicate Within<T>(run: Outcome<T>, spec: Outcome<T>)
  {
    match run
    case Done(x) => spec == Done(x)
    case Fails(errs) => spec.Fails? && errs <= spec.errors
  }

  /**
   * Running the loop along `order` from a partly filled map continues the
   * fill over the keys of `order`.
   */
  lemma {:induction false} FillAlongContinues(lib: Lib, d: Defaults, values: map<string, Value>, done: set<string>,
                                              current: map<string, Value>, order: seq<string>, concrete: bool)
    requires DefaultsFit(d) && done <= d.defaultValues.Keys
    requires Distinct(order) && forall k :: k in order ==> k in d.defaultValues && k !in done
    requires FilledOn(lib, d, values, done, concrete) == Done(current)
    ensures Within(FillAlong(lib, d, current, order, concrete),
                   FilledOn(lib, d, values, done + (set k | k in order), concrete))
    decreases |order|
  {
    var all := done + (set k | k in order);
    if order == [] {
      assert all == done;
      return;
    }
    var key := order[0];
    var rest := order[1..];
    assert all == (done + {key}) + (set k | k in rest);
    assert Distinct(rest) && forall k :: k in rest ==> k != key;
    FillTest(lib, d, values, done, key, concrete);
    var needed := NeedsDefault(d, values, key);
    if needed && DefaultFor(lib, d, key, concrete).Fails? {
      FillFailure(lib, d, values, all, key, concrete);
      return;
    }
    FillStep(lib, d, values, done, key, concrete);
    var next := if needed then current[key := DefaultFor(lib, d, key, concrete).value] else current;
    FillAlongContinues(lib, d, values, done + {key}, next, rest, concrete);
  }

  /** Go's loop along any iteration order of DefaultValues ends as the fill allows. */
  lemma FillAlongAnyOrder(lib: Lib, d: Defaults, values: map<string, Value>, order: seq<string>, concrete: bool)
    requires DefaultsFit(d)
    requires Distinct(order) && (set k | k in order) == d.defaultValues.Keys
    ensures Within(FillAlong(lib, d, values, order, concrete), Filled(lib, d, values, concrete))
  {
    FillNothing(lib, d, values, concrete);
    assert {} + (set k | k in order) == d.defaultValues.Keys;
    FillAlongContinues(lib, d, values, {}, values, order, concrete);
  }

  /** Two iteration orders of DefaultValues succeed together, and then with the same map. */
  lemma FillOrderIrrelevant(lib: Lib, d: Defaults, values: map<string, Value>, order1: seq<string>, order2: seq<string>, concrete: bool)
    requires DefaultsFit(d)
    requires Distinct(order1) && (set k | k in order1) == d.defaultValues.Keys
    requires Distinct(order2) && (set k | k in order2) == d.defaultValues.Keys
    ensures FillAlong(lib, d, values, order1, concrete).Done? <==> FillAlong(lib, d, values, order2, concrete).Done?
    ensures FillAlong(lib, d, values, order1, concrete).Done? ==>
      FillAlong(lib, d, values, order1, concrete) == FillAlong(lib, d, values, order2, concrete)
  {
    FillAlongAnyOrder(lib, d, values, order1, concrete);
    FillAlongAnyOrder(lib, d, values, order2, concrete);
  }

  // ---------------------------------------------------------------------
  // Errors: a failure always has an error to report, and it names a type
  // declared somewhere in the tree.
  // ---------------------------------------------------------------------

  ghost predicate ReportsDeclared<T>(o: Outcome<T>, d: Defaults)
  {
    o.Fails? ==> o.errors != {} && forall e :: e in o.errors ==> e.want in DeclaredTypes(d)
  }

  lemma ChildTypesDeclared(d: Defaults, c: Defaults)
    requires c in d.children.Values
    ensures DeclaredTypes(c) <= DeclaredTypes(d)
  {
  }

  lemma {:induction false} FailureNamesNode(lib: Lib, d: Defaults, v: Value, concrete: bool)
    requires Fits(d, v)
    ensures ReportsDeclared(Applied(lib, d, v, concrete), d)
    decreases d, 2, 0
  {
    if !v.IsKnown() || v.IsNull() || d.NoDefaults() {
      return;
    }
    var bare := v.Unmark();
    if bare.shape.IsSequence() {
      SliceFailureNamesNode(lib, d, bare.shape.elems, 0, concrete);
    } else if bare.shape.IsKeyed() {
      EntriesFailureNamesNode(lib, d, bare.shape.entries, concrete);
      var entries := MapApplied(lib, d, bare.shape.entries, concrete);
      if entries.Done? {
        FillFailureNamesNode(lib, d, entries.value, d.defaultValues.Keys, concrete);
      }
    }
  }

  lemma {:induction false} ElementFailureNamesNode(lib: Lib, d: Defaults, es: seq<Value>, i: nat, concrete: bool)
    requires i < |es| && ElementsFit(d, es)
    ensures ReportsDeclared(ElementApplied(lib, d, es, i, concrete), d)
    decreases d, 0, 0
  {
    match GetChild(d, Index(i)) {
      case None =>
      case Some(child) =>
        FailureNamesNode(lib, child, es[i], concrete);
        ChildTypesDeclared(d, child);
    }
  }

  lemma {:induction false} SliceFailureNamesNode(lib: Lib, d: Defaults, es: seq<Value>, from: nat, concrete: bool)
    requires from <= |es| && ElementsFit(d, es)
    ensures ReportsDeclared(SliceFrom(lib, d, es, from, concrete), d)
    decreases d, 1, |es| - from
  {
    if from < |es| {
      ElementFailureNamesNode(lib, d, es, from, concrete);
      SliceFailureNamesNode(lib, d, es, from + 1, concrete);
    }
  }

  lemma {:induction false} EntriesFailureNamesNode(lib: Lib, d: Defaults, m: map<string, Value>, concrete: bool)
    requires EntriesFit(d, m)
    ensures ReportsDeclared(MapApplied(lib, d, m, concrete), d)
    decreases d, 1, 0
  {
    forall k | k in m
      ensures ReportsDeclared(EntryApplied(lib, d, m, k, concrete), d)
    {
      match GetChild(d, Attribute(k)) {
        case None =>
        case Some(child) =>
          FailureNamesNode(lib, child, m[k], concrete);
          ChildTypesDeclared(d, child);
      }
    }
    var o := MapApplied(lib, d, m, concrete);
    if o.Fails? {
      var k :| k in m && EntryApplied(lib, d, m, k, concrete).Fails?;
      var e :| e in EntryApplied(lib, d, m, k, concrete).errors;
      assert e in o.errors;
    }
  }

  lemma {:induction false} FillFailureNamesNode(lib: Lib, d: Defaults, values: map<string, Value>, done: set<string>, concrete: bool)
    requires done <= d.defaultValues.Keys && DefaultsFit(d)
    ensures ReportsDeclared(FilledOn(lib, d, values, done, concrete), d)
    decreases d, 1, 0
  {
    var keys := values.Keys + done;
    forall k | k in keys
      ensures ReportsDeclared(Filling(lib, d, values, done, k, concrete), d)
    {
      if k in done && NeedsDefault(d, values, k) && k in d.children {
        FailureNamesNode(lib, d.children[k], d.defaultValues[k], concrete);
        ChildTypesDeclared(d, d.children[k]);
      }
    }
    var o := FilledOn(lib, d, values, done, concrete);
    if o.Fails? {
      var k :| k in keys && Filling(lib, d, values, done, k, concrete).Fails?;
      var e :| e in Filling(lib, d, values, done, k, concrete).errors;
      assert e in o.errors;
    }
  }

  // ---------------------------------------------------------------------
  // getChild's key scheme.
  // ---------------------------------------------------------------------

  /**
   * List, set and map nodes hand every element the child under ""; tuple
   * nodes look up position i under its decimal rendering, which reads back
   * as i, so distinct positions never share a child; object nodes look up
   * the attribute name; any other node has no children to offer.
   */
  lemma ChildKeyScheme(d: Defaults, key: ChildKey, other: ChildKey)
    requires KeyFits(d.ty, key) && KeyFits(d.ty, other)
    ensures d.ty.ListType? || d.ty.SetType? || d.ty.MapType? ==>
      GetChild(d, key) == GetChild(d, other) == Lookup(d.children, "")
    ensures d.ty.TupleType? ==>
      GetChild(d, key) == Lookup(d.children, Itoa(key.i)) && Atoi(Itoa(key.i)) == key.i &&
      (key.i != other.i ==> Itoa(key.i) != Itoa(other.i))
    ensures d.ty.ObjectType? ==> GetChild(d, key) == Lookup(d.children, key.name)
    ensures !(d.ty.ListType? || d.ty.SetType? || d.ty.MapType? || d.ty.TupleType? || d.ty.ObjectType?) ==>
      GetChild(d, key) == None
  {
    if d.ty.TupleType? {
      AtoiItoa(key.i);
      ItoaInjective(key.i, other.i);
    }
  }

  // ---------------------------------------------------------------------
  // The shapes unification can produce.
  // ---------------------------------------------------------------------

  /**
   * unifyFromSlice falls back to a tuple of the unchanged values exactly when
   * the target is a tuple, no common type exists, or a slot fails; otherwise
   * it builds a set when the target is a set and a list else, of the unified
   * type, whose element i is slot i applied to value i.
   */
  lemma SliceUnificationShape(lib: Lib, target: Type, values: seq<Value>)
    ensures var r := UnifiedFromSlice(lib, target, values);
      var u := lib.unifyUnsafe(TypesOf(values));
      (r.shape.Tuple? <==> target.TupleType? || u.unified == NilType || AnySlotFails(u.conversions, values)) &&
      (r.shape.Tuple? ==> r == TupleVal(values)) &&
      (!r.shape.Tuple? ==>
        (r.shape.Set? <==> target.SetType?) && (r.shape.List? <==> !target.SetType?) &&
        r.shape.elemType == u.unified && |r.shape.elems| == |values| &&
        forall i :: 0 <= i < |values| ==> Run(u.conversions[i], values[i]) == Converted(r.shape.elems[i]))
  {
  }

  /** The converted map has exactly the given keys, and the key at position i holds slot i's conversion. */
  lemma ConvertedInOrderEntries(keys: seq<string>, ordered: seq<Value>, conversions: seq<Option<Conversion>>)
    requires Distinct(keys) && |ordered| == |keys| && |conversions| == |keys|
    requires !AnySlotFails(conversions, ordered)
    ensures ConvertedInOrder(keys, ordered, conversions).Keys == set k | k in keys
    ensures forall i :: 0 <= i < |keys| ==>
      Run(conversions[i], ordered[i]) == Converted(ConvertedInOrder(keys, ordered, conversions)[keys[i]])
  {
    var out := ConvertedInOrder(keys, ordered, conversions);
    forall k | k in keys
      ensures k in out
    {
      var i :| 0 <= i < |keys| && keys[i] == k;
    }
    forall i | 0 <= i < |keys|
      ensures Run(conversions[i], ordered[i]) == Converted(out[keys[i]])
    {
      assert keys[i] in out;
    }
  }

  /** unifyFromMap's outcome once its keys are in some order that covers the map. */
  lemma InOrderShape(lib: Lib, keys: seq<string>, values: map<string, Value>)
    requires Distinct(keys) && (set k | k in keys) == values.Keys
    ensures var r := UnifiedInOrder(lib, keys, values);
      var ordered := ValuesInOrder(keys, values);
      var u := lib.unifyUnsafe(TypesOf(ordered));
      (r.shape.Object? <==> u.unified == NilType || AnySlotFails(u.conversions, ordered)) &&
      (r.shape.Object? ==> r == ObjectVal(values)) &&
      (!r.shape.Object? ==>
        r.shape.Map? && r.shape.elemType == u.unified && r.shape.entries.Keys == values.Keys &&
        forall i :: 0 <= i < |keys| ==> Run(u.conversions[i], values[keys[i]]) == Converted(r.shape.entries[keys[i]]))
  {
    var ordered := ValuesInOrder(keys, values);
    var u := lib.unifyUnsafe(TypesOf(ordered));
    if u.unified != NilType && !AnySlotFails(u.conversions, ordered) {
      ConvertedInOrderEntries(keys, ordered, u.conversions);
    }
  }

  /**
   * unifyFromMap falls back to an object of the unchanged values exactly when
   * the target is an object, no common type exists, or a slot fails; otherwise
   * it builds a map of the unified type over the same keys, in which the
   * entry under the i-th smallest key is slot i applied to that key's value.
   */
  lemma MapUnificationShape(lib: Lib, target: Type, values: map<string, Value>)
    ensures var r := UnifiedFromMap(lib, target, values);
      var keys := SortedKeys(values.Keys);
      var ordered := ValuesInOrder(keys, values);
      var u := lib.unifyUnsafe(TypesOf(ordered));
      (r.shape.Object? <==> target.ObjectType? || u.unified == NilType || AnySlotFails(u.conversions, ordered)) &&
      (r.shape.Object? ==> r == ObjectVal(values)) &&
      (!r.shape.Object? ==>
        r.shape.Map? && r.shape.elemType == u.unified && r.shape.entries.Keys == values.Keys &&
        forall i :: 0 <= i < |keys| ==> Run(u.conversions[i], values[keys[i]]) == Converted(r.shape.entries[keys[i]]))
  {
    if !target.ObjectType? {
      var keys := SortedKeys(values.Keys);
      StrictlySortedIsDistinct(keys);
      assert (set k | k in keys) == values.Keys;
      InOrderShape(lib, keys, values);
    }
  }

  /**
   * In the plain mode an empty list or set given to a node with defaults comes
   * back from unifying no types: as an empty tuple when that finds no common
   * type, and as an empty list or set of the found type otherwise. Either way
   * the input's marks are kept.
   */
  lemma EmptyCollectionUnified(lib: Lib, d: Defaults, v: Value)
    requires (v.shape.List? || v.shape.Set?) && v.shape.elems == [] && !d.NoDefaults()
    ensures Fits(d, v)
    ensures var u := lib.unifyUnsafe([]);
      Applied(lib, d, v, false) ==
        if u.unified == NilType then Done(TupleVal([]).WithMarks(v.marks))
        else if v.shape.Set? then Done(SetVal(u.unified, []).WithMarks(v.marks))
        else Done(ListVal(u.unified, []).WithMarks(v.marks))
  {
    assert TypesOf([]) == [];
    var u := lib.unifyUnsafe([]);
    if u.unified != NilType {
      assert !AnySlotFails(u.conversions, []);
    }
  }
}
