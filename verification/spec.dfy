/**
 * What applying a defaults tree means, as functions over values: the
 * recursive walk, the element and entry passes, the default fill, and the
 * reassembly by unification. Map iteration order does not enter: where the
 * source walks a map, these functions describe every key at once and, on
 * failure, the set of errors one of the orders would meet first.
 */
module DefaultsSpec {
  import opened Cty
  import opened Sort
  import opened DefaultsTree

  /** `apply(v, concrete)` on node `d`. */
  ghost function Applied(lib: Lib, d: Defaults, v: Value, concrete: bool): Outcome<Value>
    requires Fits(d, v)
    decreases d, 2, 0
  {
    if !v.IsKnown() || v.IsNull() || d.NoDefaults() then Done(v)
    else
      var bare := v.Unmark();
      if bare.shape.IsSequence() then
        match SliceFrom(lib, d, bare.shape.elems, 0, concrete)
        case Fails(errs) => Fails(errs)
        case Done(values) =>
          if concrete then Reattach(ConvertExactly(lib, TupleVal(values), d.ty), v.marks)
          else Done(UnifiedFromSlice(lib, TypeOf(bare), values).WithMarks(v.marks))
      else if bare.shape.IsKeyed() then
        match MapApplied(lib, d, bare.shape.entries, concrete)
        case Fails(errs) => Fails(errs)
        case Done(entries) =>
          match Filled(lib, d, entries, concrete)
          case Fails(errs) => Fails(errs)
          case Done(values) =>
            if concrete then Reattach(ConvertExactly(lib, ObjectVal(values), d.ty), v.marks)
            else Done(UnifiedFromMap(lib, TypeOf(bare), values).WithMarks(v.marks))
      else Done(bare.WithMarks(v.marks))
  }

  /** convert.Convert to the node's type, a failure reported as a mismatch. */
  function ConvertExactly(lib: Lib, v: Value, want: Type): Outcome<Value>
  {
    match lib.convert(v, want)
    case Converted(c) => Done(c)
    case Unconvertible(got) => Fails({Mismatch(got, want)})
  }

  function Reattach(o: Outcome<Value>, marks: set<Mark>): Outcome<Value>
  {
    match o
    case Done(c) => Done(c.WithMarks(marks))
    case Fails(errs) => Fails(errs)
  }

  function Prepend<T>(prefix: seq<T>, o: Outcome<seq<T>>): Outcome<seq<T>>
  {
    match o
    case Done(rest) => Done(prefix + rest)
    case Fails(errs) => Fails(errs)
  }

  /** The element at position `i` after its child node, if any, is applied. */
  ghost function ElementApplied(lib: Lib, d: Defaults, es: seq<Value>, i: nat, concrete: bool): Outcome<Value>
    requires i < |es| && ElementsFit(d, es)
    decreases d, 0, 0
  {
    match GetChild(d, Index(i))
    case None => Done(es[i])
    case Some(child) => Applied(lib, child, es[i], concrete)
  }

  /** applyAsSlice on the elements from position `from` on, stopping at the first failure. */
  ghost function SliceFrom(lib: Lib, d: Defaults, es: seq<Value>, from: nat, concrete: bool): Outcome<seq<Value>>
    requires from <= |es| && ElementsFit(d, es)
    decreases d, 1, |es| - from
  {
    if from == |es| then Done([])
    else
      match ElementApplied(lib, d, es, from, concrete)
      case Fails(errs) => Fails(errs)
      case Done(x) => Prepend([x], SliceFrom(lib, d, es, from + 1, concrete))
  }

  /** The entry under `k` after its child node, if any, is applied. */
  ghost function EntryApplied(lib: Lib, d: Defaults, m: map<string, Value>, k: string, concrete: bool): Outcome<Value>
    requires k in m && EntriesFit(d, m)
    decreases d, 0, 0
  {
    match GetChild(d, Attribute(k))
    case None => Done(m[k])
    case Some(child) => Applied(lib, child, m[k], concrete)
  }

  /** applyAsMap: every entry processed, or the errors of the failing entries. */
  ghost function MapApplied(lib: Lib, d: Defaults, m: map<string, Value>, concrete: bool): Outcome<map<string, Value>>
    requires EntriesFit(d, m)
    decreases d, 1, 0
  {
    if forall k :: k in m ==> EntryApplied(lib, d, m, k, concrete).Done? then
      Done(map k | k in m :: EntryApplied(lib, d, m, k, concrete).value)
    else
      Fails(set k, e | k in m && EntryApplied(lib, d, m, k, concrete).Fails? &&
                       e in EntryApplied(lib, d, m, k, concrete).errors :: e)
  }

  /** The attribute `k` has a default and is absent from `values` or null there. */
  ghost predicate NeedsDefault(d: Defaults, values: map<string, Value>, k: string)
  {
    k in d.defaultValues && (k !in values || values[k].IsNull())
  }

  /** The default for `k`, run through the child node of the same name when there is one. */
  ghost function DefaultFor(lib: Lib, d: Defaults, k: string, concrete: bool): Outcome<Value>
    requires k in d.defaultValues && DefaultsFit(d)
    decreases d, 0, 0
  {
    if k in d.children then Applied(lib, d.children[k], d.defaultValues[k], concrete)
    else Done(d.defaultValues[k])
  }

  /** The value the fill leaves under `k` once the default keys in `done` are handled. */
  ghost function Filling(lib: Lib, d: Defaults, values: map<string, Value>, done: set<string>, k: string, concrete: bool): Outcome<Value>
    requires done <= d.defaultValues.Keys && DefaultsFit(d) && k in values.Keys + done
    decreases d, 0, 1
  {
    if k in done && NeedsDefault(d, values, k) then DefaultFor(lib, d, k, concrete)
    else Done(values[k])
  }

  /** The fill loop run over the default keys in `done`, in no particular order. */
  ghost function FilledOn(lib: Lib, d: Defaults, values: map<string, Value>, done: set<string>, concrete: bool): Outcome<map<string, Value>>
    requires done <= d.defaultValues.Keys && DefaultsFit(d)
    decreases d, 1, 0
  {
    var keys := values.Keys + done;
    if forall k :: k in keys ==> Filling(lib, d, values, done, k, concrete).Done? then
      Done(map k | k in keys :: Filling(lib, d, values, done, k, concrete).value)
    else
      Fails(set k, e | k in keys && Filling(lib, d, values, done, k, concrete).Fails? &&
                       e in Filling(lib, d, values, done, k, concrete).errors :: e)
  }

  /** The whole fill loop over `DefaultValues`. */
  ghost function Filled(lib: Lib, d: Defaults, values: map<string, Value>, concrete: bool): Outcome<map<string, Value>>
    requires DefaultsFit(d)
    decreases d, 1, 1
  {
    FilledOn(lib, d, values, d.defaultValues.Keys, concrete)
  }

  /**
   * The fill loop as Go runs it along one iteration order of `DefaultValues`:
   * the test reads the map as filled so far, and the first failing default
   * ends the loop with its errors.
   */
  ghost function FillAlong(lib: Lib, d: Defaults, current: map<string, Value>, order: seq<string>, concrete: bool): (r: Outcome<map<string, Value>>)
    requires DefaultsFit(d) && forall k :: k in order ==> k in d.defaultValues
    ensures r.Done? ==> r.value.Keys == current.Keys + (set k | k in order)
    ensures r.Done? ==> forall k :: k in current && k !in order ==> r.value[k] == current[k]
    decreases |order|
  {
    if order == [] then Done(current)
    else
      var key := order[0];
      if key !in current || current[key].IsNull() then
        if key in d.children then
          match Applied(lib, d.children[key], d.defaultValues[key], concrete)
          case Fails(errs) => Fails(errs)
          case Done(x) => FillAlong(lib, d, current[key := x], order[1..], concrete)
        else FillAlong(lib, d, current[key := d.defaultValues[key]], order[1..], concrete)
      else FillAlong(lib, d, current, order[1..], concrete)
  }

  /** Some slot's conversion of the value at its position fails. */
  ghost predicate AnySlotFails(conversions: seq<Option<Conversion>>, values: seq<Value>)
    requires |conversions| == |values|
  {
    exists i :: 0 <= i < |values| && Run(conversions[i], values[i]).Unconvertible?
  }

  /** unifyFromSlice: `target` is the type of the value the elements came from. */
  ghost function UnifiedFromSlice(lib: Lib, target: Type, values: seq<Value>): Value
  {
    if target.TupleType? then TupleVal(values)
    else
      var u := lib.unifyUnsafe(TypesOf(values));
      if u.unified == NilType || AnySlotFails(u.conversions, values) then TupleVal(values)
      else
        var converts := seq(|values|, i requires 0 <= i < |values| => Run(u.conversions[i], values[i]).value);
        if target.SetType? then SetVal(u.unified, converts) else ListVal(u.unified, converts)
  }

  /** The map's values in ascending key order. */
  ghost function ValuesInOrder(keys: seq<string>, values: map<string, Value>): (vs: seq<Value>)
    requires forall k :: k in keys ==> k in values
    ensures |vs| == |keys|
  {
    seq(|keys|, i requires 0 <= i < |keys| => values[keys[i]])
  }

  /** unifyFromMap: keys are sorted first, so slot i belongs to the i-th smallest key. */
  ghost function UnifiedFromMap(lib: Lib, target: Type, values: map<string, Value>): Value
  {
    if target.ObjectType? then ObjectVal(values)
    else
      var keys := SortedKeys(values.Keys);
      StrictlySortedIsDistinct(keys);
      UnifiedInOrder(lib, keys, values)
  }

  /** Unification of the entries taken in the order of `keys`. */
  ghost function UnifiedInOrder(lib: Lib, keys: seq<string>, values: map<string, Value>): Value
    requires Distinct(keys) && forall k :: k in keys ==> k in values
  {
    var ordered := ValuesInOrder(keys, values);
    var u := lib.unifyUnsafe(TypesOf(ordered));
    if u.unified == NilType || AnySlotFails(u.conversions, ordered) then ObjectVal(values)
    else MapVal(u.unified, ConvertedInOrder(keys, ordered, u.conversions))
  }

  /** The map from each key to the conversion of its value by the slot at the key's position. */
  ghost function ConvertedInOrder(keys: seq<string>, ordered: seq<Value>, conversions: seq<Option<Conversion>>): map<string, Value>
    requires Distinct(keys) && |ordered| == |keys| && |conversions| == |keys|
    requires !AnySlotFails(conversions, ordered)
  {
    map i | 0 <= i < |keys| :: keys[i] := Run(conversions[i], ordered[i]).value
  }
}
