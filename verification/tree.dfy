/**
 * The defaults tree: one node per type that carries or contains defaults,
 * the child lookup by key, and the shape agreement between a node and a value
 * that the lookup's type assertions rely on.
 */
module DefaultsTree {
  import opened Cty
  import opened Strconv

  /**
   * A node of the tree. `children` is keyed by "" for the element of a list,
   * set or map, by the decimal index for a tuple position and by the
   * attribute name for an object attribute.
   */
  datatype Defaults = Defaults(
    ty: Type,
    defaultValues: map<string, Value>,
    children: map<string, Defaults>)
  {
    /** A node with nothing to apply, which the applier skips. */
    predicate NoDefaults() { |defaultValues| == 0 && |children| == 0 }
  }

  /** The key getChild receives: an index from a sequence, a name from a keyed value. */
  datatype ChildKey = Index(i: nat) | Attribute(name: string)

  /**
   * getChild asserts the key to an int on a tuple node and to a string on
   * an object node; any other combination panics.
   */
  predicate KeyFits(ty: Type, key: ChildKey)
  {
    (ty.TupleType? ==> key.Index?) && (ty.ObjectType? ==> key.Attribute?)
  }

  function Lookup(children: map<string, Defaults>, name: string): Option<Defaults>
  {
    if name in children then Some(children[name]) else None
  }

  /** The child node that governs the element found under `key`, if any. */
  function GetChild(d: Defaults, key: ChildKey): (child: Option<Defaults>)
    requires KeyFits(d.ty, key)
    ensures child.Some? ==> child.value in d.children.Values
  {
    if d.ty.MapType? || d.ty.SetType? || d.ty.ListType? then Lookup(d.children, "")
    else if d.ty.TupleType? then Lookup(d.children, Itoa(key.i))
    else if d.ty.ObjectType? then Lookup(d.children, key.name)
    else None
  }

  /**
   * `v` reaches no failing type assertion in getChild when `d` is applied to
   * it: wherever the applier looks up a child for an element, the key kind
   * fits the node, recursively through every child it descends into.
   */
  ghost predicate Fits(d: Defaults, v: Value): (f: bool)
    ensures f && v.IsKnown() && !v.IsNull() && !d.NoDefaults() ==>
      (d.ty.ObjectType? && v.shape.IsSequence() ==> v.shape.elems == []) &&
      (d.ty.TupleType? && v.shape.IsKeyed() ==> v.shape.entries == map[])
    ensures v.shape.IsSequence() && v.shape.elems == [] ==> f
    ensures v.shape.IsKeyed() && v.shape.entries == map[] && DefaultsFit(d) ==> f
    decreases d, 1
  {
    assert v.shape.IsSequence() && |v.shape.elems| > 0 && ElementsFit(d, v.shape.elems) ==> KeyFits(d.ty, Index(0));
    !v.IsKnown() || v.IsNull() || d.NoDefaults() ||
    (match v.shape
     case List(_, es) => ElementsFit(d, es)
     case Set(_, es) => ElementsFit(d, es)
     case Tuple(es) => ElementsFit(d, es)
     case Object(m) => EntriesFit(d, m) && DefaultsFit(d)
     case Map(_, m) => EntriesFit(d, m) && DefaultsFit(d)
     case _ => true)
  }

  ghost predicate ElementsFit(d: Defaults, es: seq<Value>)
    decreases d, 0
  {
    forall i :: 0 <= i < |es| ==>
      KeyFits(d.ty, Index(i)) &&
      var child := GetChild(d, Index(i));
      child.Some? ==> Fits(child.value, es[i])
  }

  ghost predicate EntriesFit(d: Defaults, m: map<string, Value>)
    decreases d, 0
  {
    forall k :: k in m ==>
      KeyFits(d.ty, Attribute(k)) &&
      var child := GetChild(d, Attribute(k));
      child.Some? ==> Fits(child.value, m[k])
  }

  /** Every default that has a child node of its own fits that node. */
  ghost predicate DefaultsFit(d: Defaults)
    decreases d, 0
  {
    forall k :: k in d.defaultValues && k in d.children ==> Fits(d.children[k], d.defaultValues[k])
  }

  /** The types declared by `d` and every node below it. */
  ghost function DeclaredTypes(d: Defaults): set<Type>
    decreases d
  {
    {d.ty} + (set c, t | c in d.children.Values && t in DeclaredTypes(c) :: t)
  }

  /** The error apply reports: the type it got and the type the node declares. */
  datatype Mismatch = Mismatch(got: Type, want: Type)

  /** What one call returns: a value, or the one error it met. */
  datatype Result<+T> = Ok(value: T) | Err(error: Mismatch)
  {
    predicate IsFailure() { Err? }

    function PropagateFailure<U>(): Result<U>
      requires Err?
    {
      Err(error)
    }

    function Extract(): T
      requires Ok?
    {
      value
    }
  }

  /**
   * What a call may return, over every iteration order of the Go maps it
   * walks: the one value, or the set of errors some order would meet first.
   */
  datatype Outcome<+T> = Done(value: T) | Fails(errors: set<Mismatch>)

  ghost predicate Allows<T>(o: Outcome<T>, r: Result<T>)
  {
    match r
    case Ok(x) => o == Done(x)
    case Err(e) => o.Fails? && e in o.errors
  }
}
