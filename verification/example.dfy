/**
 * A worked instance of the applier: a schema
 *   object{a: optional(number, default 0),
 *          b: optional(list(object{c: optional(bool, default true)}), default [])}
 * applied by the plain entry point to {a: null, b: [{c: null}]}, under a
 * library in which identical types unify to themselves with nothing to convert.
 */
module Example {
  import opened Cty
  import opened DefaultsTree
  import opened DefaultsSpec
  import opened DefaultsProperties

  /** Identical types unify to that type, with every slot nil; anything else has no common type. */
  function SameTypeUnify(ts: seq<Type>): (u: Unification)
    ensures |u.conversions| == |ts|
  {
    if |ts| > 0 && forall i :: 0 <= i < |ts| ==> ts[i] == ts[0] then Unification(ts[0], seq(|ts|, _ => None))
    else Unification(NilType, seq(|ts|, _ => None))
  }

  const Plain: Lib := Library((v, t) => Converted(v), SameTypeUnify)

  const Zero := Value(Primitive(Number, "0"), {})
  const True := Value(Primitive(Bool, "true"), {})

  const ObjC := ObjectType(map["c" := PrimitiveType(Bool)])
  const ObjAB := ObjectType(map["a" := PrimitiveType(Number), "b" := ListType(ObjC)])

  const InnerNode := Defaults(ObjC, map["c" := True], map[])
  const ListNode := Defaults(ListType(ObjC), map[], map["" := InnerNode])
  const Root := Defaults(ObjAB, map["a" := Zero, "b" := ListVal(ObjC, [])], map["b" := ListNode])

  const InnerInput := ObjectVal(map["c" := Value(Null(PrimitiveType(Bool)), {})])
  const ListInput := ListVal(ObjC, [InnerInput])
  const Input := ObjectVal(map["a" := Value(Null(PrimitiveType(Number)), {}), "b" := ListInput])

  const InnerOutput := ObjectVal(map["c" := True])
  const ListOutput := ListVal(ObjC, [InnerOutput])
  const Output := ObjectVal(map["a" := Zero, "b" := ListOutput])

  /** Inside the list element, the null c takes its default. */
  lemma InnerObject()
    ensures Fits(InnerNode, InnerInput)
    ensures Applied(Plain, InnerNode, InnerInput, false) == Done(InnerOutput)
  {
    var inner := InnerInput.shape.entries;
    assert inner.Keys == {"c"};
    assert GetChild(InnerNode, Attribute("c")) == None;
    assert EntriesFit(InnerNode, inner);
    assert EntryApplied(Plain, InnerNode, inner, "c", false) == Done(inner["c"]);
    EntriesKept(Plain, InnerNode, inner, false);
    var applied := MapApplied(Plain, InnerNode, inner, false).value;
    assert applied.Keys == inner.Keys;
    assert applied == inner;
    FilledContents(Plain, InnerNode, inner, false);
    assert NeedsDefault(InnerNode, inner, "c");
    assert DefaultFor(Plain, InnerNode, "c", false) == Done(True);
    var filled := Filled(Plain, InnerNode, inner, false).value;
    assert filled.Keys == {"c"};
    assert filled == InnerOutput.shape.entries;
  }

  /** The list's one element goes through the child under "", and the results unify to a list again. */
  lemma ListOfObjects()
    ensures Fits(ListNode, ListInput)
    ensures Applied(Plain, ListNode, ListInput, false) == Done(ListOutput)
  {
    InnerObject();
    assert GetChild(ListNode, Index(0)) == Some(InnerNode);
    assert Fits(ListNode, ListInput);
    assert ListInput.shape.elems == [InnerInput];
    assert ElementApplied(Plain, ListNode, [InnerInput], 0, false) == Done(InnerOutput);
    assert SliceFrom(Plain, ListNode, [InnerInput], 1, false) == Done([]);
    assert SliceFrom(Plain, ListNode, [InnerInput], 0, false) == Done([InnerOutput] + []);
    assert [InnerOutput] + [] == [InnerOutput];
    ListUnifies();
  }

  /** One object element unifies with itself: the list is rebuilt as it was. */
  lemma ListUnifies()
    ensures UnifiedFromSlice(Plain, ListType(ObjC), [InnerOutput]) == ListOutput
  {
    assert InnerOutput.shape.entries.Keys == {"c"};
    assert TypeOf(InnerOutput) == ObjC;
    assert TypesOf([InnerOutput]) == [ObjC];
    var u := Plain.unifyUnsafe([ObjC]);
    assert u == Unification(ObjC, [None]);
    assert !AnySlotFails(u.conversions, [InnerOutput]);
    var r := UnifiedFromSlice(Plain, ListType(ObjC), [InnerOutput]);
    assert r.shape.List? && r.shape.elemType == ObjC;
    assert |r.shape.elems| == 1 && r.shape.elems[0] == InnerOutput;
    assert r.shape.elems == [InnerOutput];
  }

  /** The input agrees with the tree's shapes, as getChild's type assertions need. */
  lemma RootFits()
    ensures Fits(Root, Input)
  {
    ListOfObjects();
    var given := Input.shape.entries;
    assert given.Keys == {"a", "b"};
    assert Fits(ListNode, ListVal(ObjC, []));
    assert DefaultsFit(Root);
    assert GetChild(Root, Attribute("a")) == None;
    assert GetChild(Root, Attribute("b")) == Some(ListNode);
    assert EntriesFit(Root, given);
  }

  /** At the root, a has no child node and b goes through the list node. */
  lemma RootEntries()
    ensures EntriesFit(Root, Input.shape.entries)
    ensures MapApplied(Plain, Root, Input.shape.entries, false) ==
      Done(map["a" := Value(Null(PrimitiveType(Number)), {}), "b" := ListOutput])
  {
    RootFits();
    ListOfObjects();
    var given := Input.shape.entries;
    assert given.Keys == {"a", "b"};
    var entries := map["a" := given["a"], "b" := ListOutput];
    assert EntryApplied(Plain, Root, given, "a", false) == Done(given["a"]);
    assert EntryApplied(Plain, Root, given, "b", false) == Done(ListOutput);
    EntriesKept(Plain, Root, given, false);
    var applied := MapApplied(Plain, Root, given, false).value;
    assert applied.Keys == entries.Keys;
    assert applied == entries;
  }

  /** The null attribute a gets 0, and inside b's one element the null c gets true. */
  lemma ConcreteScenario()
    ensures Fits(Root, Input)
    ensures Applied(Plain, Root, Input, false) == Done(Output)
  {
    RootFits();
    RootEntries();
    var entries := map["a" := Value(Null(PrimitiveType(Number)), {}), "b" := ListOutput];
    FilledContents(Plain, Root, entries, false);
    assert NeedsDefault(Root, entries, "a") && !NeedsDefault(Root, entries, "b");
    assert DefaultFor(Plain, Root, "a", false) == Done(Zero);
    var filled := Filled(Plain, Root, entries, false).value;
    assert filled.Keys == {"a", "b"};
    assert filled == Output.shape.entries;
  }

  /** Unifying no types finds no common type here, so an empty list of objects comes back as an empty tuple. */
  lemma EmptyListBecomesTuple()
    ensures Applied(Plain, ListNode, ListVal(ObjC, []), false) == Done(TupleVal([]))
  {
    assert Plain.unifyUnsafe([]).unified == NilType;
    EmptyCollectionUnified(Plain, ListNode, ListVal(ObjC, []));
  }
}
