/**
 * The slice of the go-cty value system that the defaults applier consumes:
 * types, dynamic values with their marks, and the two conversion primitives
 * (exact conversion and unsafe unification), which the applier receives as a
 * `Lib` record of functions and never looks inside.
 */
module Cty {

  datatype Option<+T> = None | Some(value: T)

  datatype PrimitiveKind = String | Number | Bool

  /**
   * cty.Type. `NilType` is the zero type: UnifyUnsafe answers with it when the
   * given types have no common type, and a failed conversion may hand back a
   * value of that type.
   */
  datatype Type =
    | NilType
    | DynamicPseudoType
    | PrimitiveType(kind: PrimitiveKind)
    | ListType(elem: Type)
    | SetType(elem: Type)
    | MapType(elem: Type)
    | TupleType(elems: seq<Type>)
    | ObjectType(attrs: map<string, Type>)

  /** A mark is opaque metadata ("sensitive", ...) carried beside a value. */
  type Mark = string

  /** A dynamic value: its shape and the marks attached at its top level. */
  datatype Value = Value(shape: Shape, marks: set<Mark>)
  {
    predicate IsKnown() { !shape.Unknown? }

    predicate IsNull() { shape.Null? }

    /** The bare value of `Unmark`; the stripped marks are `marks`. */
    function Unmark(): Value
    {
      Value(shape, {})
    }

    /** Adds marks to those already present, as cty's WithMarks does. */
    function WithMarks(extra: set<Mark>): Value
    {
      Value(shape, marks + extra)
    }
  }

  /**
   * The shapes of a value. Sequences (list, set, tuple) hold their elements
   * in the order AsValueSlice yields them; keyed values (object, map) hold
   * the entries AsValueMap yields.
   */
  datatype Shape =
    | Unknown(ty: Type)
    | Null(ty: Type)
    | Primitive(kind: PrimitiveKind, literal: string)
    | List(elemType: Type, elems: seq<Value>)
    | Set(elemType: Type, elems: seq<Value>)
    | Tuple(elems: seq<Value>)
    | Object(entries: map<string, Value>)
    | Map(elemType: Type, entries: map<string, Value>)
  {
    predicate IsSequence() { List? || Set? || Tuple? }

    predicate IsKeyed() { Object? || Map? }
  }

  /** cty's `Value.Type()`: marks play no part in a value's type. */
  function TypeOf(v: Value): Type
  {
    match v.shape
    case Unknown(t) => t
    case Null(t) => t
    case Primitive(k, _) => PrimitiveType(k)
    case List(t, _) => ListType(t)
    case Set(t, _) => SetType(t)
    case Map(t, _) => MapType(t)
    case Tuple(es) => TupleType(seq(|es|, i requires 0 <= i < |es| => TypeOf(es[i])))
    case Object(m) => ObjectType(map k | k in m :: TypeOf(m[k]))
  }

  /** The types of a sequence of values, position by position. */
  function TypesOf(values: seq<Value>): (ts: seq<Type>)
    ensures |ts| == |values|
    ensures forall i :: 0 <= i < |values| ==> ts[i] == TypeOf(values[i])
  {
    seq(|values|, i requires 0 <= i < |values| => TypeOf(values[i]))
  }

  // The value constructors the applier uses, all unmarked.

  function TupleVal(values: seq<Value>): Value { Value(Tuple(values), {}) }

  function ListVal(elemType: Type, values: seq<Value>): Value { Value(List(elemType, values), {}) }

  function SetVal(elemType: Type, values: seq<Value>): Value { Value(Set(elemType, values), {}) }

  function ObjectVal(entries: map<string, Value>): Value { Value(Object(entries), {}) }

  function MapVal(elemType: Type, entries: map<string, Value>): Value { Value(Map(elemType, entries), {}) }

  /**
   * The outcome of a conversion: the converted value, or a failure together
   * with the type of the value the library hands back beside its error.
   */
  datatype Converted = Converted(value: Value) | Unconvertible(got: Type)

  /** A per-element conversion closure returned by UnifyUnsafe. */
  type Conversion = Value -> Converted

  /** UnifyUnsafe's answer: the unified type (or NilType) and one slot per input type. */
  datatype Unification = Unification(unified: Type, conversions: seq<Option<Conversion>>)

  /** convert.Convert and convert.UnifyUnsafe, as uninterpreted functions. */
  datatype Library = Library(
    convert: (Value, Type) -> Converted,
    unifyUnsafe: seq<Type> -> Unification)

  /** The one thing assumed of UnifyUnsafe: when it finds a common type, a conversion slot (possibly nil) per input type. */
  ghost predicate OneSlotPerType(lib: Library)
  {
    forall ts :: lib.unifyUnsafe(ts).unified != NilType ==> |lib.unifyUnsafe(ts).conversions| == |ts|
  }

  type Lib = lib: Library | OneSlotPerType(lib)
    witness Library((v, t) => Unconvertible(t), ts => Unification(NilType, seq(|ts|, _ => None)))

  /** Runs one conversion slot: a nil slot keeps the value as it is. */
  function Run(slot: Option<Conversion>, v: Value): Converted
  {
    match slot
    case None => Converted(v)
    case Some(f) => f(v)
  }
}
