# Nested defaults for HCL type expressions, in Dafny

This project models the nested-defaults applier of the HCL `typeexpr`
extension (`ext/typeexpr/defaults.go`) and proves what it does.

A `Defaults` node is an immutable tree. Each node holds:
- a declared type;
- default values for optional object attributes;
- child nodes. These are keyed by `""` for the element of a list, set or map, by the decimal index for a tuple position, and by the attribute name for an object attribute.

`apply` walks a dynamic value alongside this tree:
- Unknown and null values are returned unchanged, and so is every value when the node carries nothing.
- Otherwise it strips the value's marks.
- It runs each element of a list, set or tuple, and each entry of an object or map, through its child node.
- It fills attributes that are absent or null with their defaults. A default first goes through its own child node when there is one.
- It reassembles the container and reattaches the marks.

Reassembly depends on the mode:
- In the plain mode (`Apply`), `unifyFromSlice` / `unifyFromMap` rebuild a homogeneous list, set or map when the element types unify. They fall back to a tuple or object when they do not. The map variant sorts its keys first.
- In the exact mode (`ApplyAndConvert`), the tuple or object is converted to the node's declared type, and a failure is reported as a mismatch.

The project has seven modules and a worked example:
- `Cty` (cty.dfy) is the part of go-cty that the applier uses:
  - types and values with their top-level marks;
  - the value constructors;
  - `convert.Convert` and `convert.UnifyUnsafe` as a `Lib` record of functions. It is passed in and never looked inside. The one thing assumed of it is that unification, when it finds a common type, returns one conversion slot per input type. The source reads the slots only in that case.
- `Strconv` (strconv.dfy): `strconv.Itoa` on indices, and the decimal reading that inverts it.
- `Sort` (sort.dfy): Go's `<` on strings, the ascending arrangement of a key set, and a selection sort standing in for `sort.Strings`.
- `DefaultsTree` (tree.dfy):
  - the tree and `getChild`;
  - `Fits`, which is the agreement between a node and a value that `getChild`'s type assertions need;
  - the `Mismatch` error, `Result`, and `Outcome`. `Outcome` is what a call may return over every iteration order of the Go maps it walks.
- `DefaultsSpec` (spec.dfy): what applying means, as ghost functions. Where Go walks a map, these describe every key at once. On failure they give the set of errors that some order would meet first. `FillAlong` is the Go fill loop along one given order.
- `DefaultsProperties` (properties.dfy): the properties, as lemmas over those functions.
- `TypeExpr` (defaults.dfy): the Go functions as methods with their loops. Where Go ranges over a map, the next key is an arbitrary remaining one. Each method is proved against its specification function.
- `Example` (example.dfy): the three-level scenario of an object holding a list of objects, filled at two depths.

## Model

| member | source | states |
|---|---|---|
| `TypeExpr.Apply` | ext/typeexpr/defaults.go:42-50 | The plain application always yields a value: the panic on an error is unreachable. The result is the one the specification gives and carries exactly the input's marks. |
| `TypeExpr.ApplyAndConvert` | ext/typeexpr/defaults.go:52-54 | The exact application returns a value or error that some map iteration order produces. On success the input's marks are kept. An error names, as its wanted type, a type declared somewhere in the tree. |
| `TypeExpr.ApplyWith` | ext/typeexpr/defaults.go:56-116 | The outcome is one the specification allows over all map orders. Unknown, null and scalar inputs come back unchanged, and so does any input when the node has neither defaults nor children. The plain mode never fails and keeps exactly the input's marks. Every success keeps the input's marks. |
| `TypeExpr.ApplyAsSlice` | ext/typeexpr/defaults.go:118-132 | The loop's result, or its first error, is the element pass of the specification. |
| `TypeExpr.ApplyAsMap` | ext/typeexpr/defaults.go:134-147 | Whatever order the entries are visited in, the result is the entry pass of the specification, or an error it allows. |
| `TypeExpr.FillDefaults` | ext/typeexpr/defaults.go:92-103 | Whatever order `DefaultValues` is visited in, the filled map is the specification's fill, or an error it allows. |
| `TypeExpr.UnifyFromSlice` | ext/typeexpr/defaults.go:162-195 | The rebuilt value is the specification's unification of the elements. |
| `TypeExpr.KeysOf` | ext/typeexpr/defaults.go:202-205 | The collected keys are distinct and are exactly the map's keys. |
| `Sort.Below` | ext/typeexpr/defaults.go:206 | Go's `<` on the keys that `sort.Strings` compares: no string is below itself, and a proper prefix is below every longer string that starts with it. |
| `Sort.SortStrings` | ext/typeexpr/defaults.go:206 | The sorted slice is the ascending arrangement of the same keys, with the same length. |
| `Sort.SortedKeys` | ext/typeexpr/defaults.go:206 | The ascending arrangement is strictly increasing, holds exactly the keys of the set, and has one position per key. |
| `Sort.SelectLeast` | ext/typeexpr/defaults.go:206 | Moving the least remaining key to the end of the sorted prefix keeps the whole arrangement. |
| `TypeExpr.TypesInOrder` | ext/typeexpr/defaults.go:208-211 | The type list is the types of the map's values in key order. |
| `TypeExpr.ConvertEntries` | ext/typeexpr/defaults.go:217-228 | The loop gives up exactly when some slot's conversion fails. Otherwise it maps each key to the conversion its slot makes. |
| `TypeExpr.AllConverted` | ext/typeexpr/defaults.go:217-228 | Once the conversion loop has run to the end, no slot failed and the map holds every converted value. |
| `TypeExpr.UnifyInOrder` | ext/typeexpr/defaults.go:208-229 | With the keys in a given order, the result is the specification's unification in that order. |
| `TypeExpr.UnifyFromMap` | ext/typeexpr/defaults.go:197-230 | The rebuilt value is the specification's unification, with the keys sorted first. |
| `DefaultsTree.Fits` | ext/typeexpr/defaults.go:149-160 | On a known, non-null value at a node that carries something, a value that fits never hands `getChild` a key of the wrong kind. An object node is never given a non-empty list, set or tuple, which would panic at `key.(string)`. A tuple node is never given a non-empty object or map, which would panic at `key.(int)`. An empty list, set or tuple always fits. An empty object or map fits when the node's defaults fit their children. |
| `DefaultsTree.GetChild` | ext/typeexpr/defaults.go:149-160 | A child that is found is one of the node's own children, which is what makes the recursion terminate. |
| `DefaultsProperties.ChildKeyScheme` | ext/typeexpr/defaults.go:149-160 | List, set and map nodes give every element the child under `""`. Tuple nodes look up position i under its decimal rendering, which reads back as i, and distinct positions never share a key. Object nodes look up the attribute name. Every other node yields none. |
| `Strconv.Itoa` | ext/typeexpr/defaults.go:154 | The rendering is a non-empty run of decimal digits with no leading zero. |
| `Strconv.AtoiItoa` | ext/typeexpr/defaults.go:154 | Reading the rendering of n back gives n. |
| `Strconv.ItoaInjective` | ext/typeexpr/defaults.go:154 | Distinct indices render as distinct child keys. |
| `DefaultsProperties.NonExactNeverFails` | ext/typeexpr/defaults.go:42-48 | In the plain mode no error can arise at any depth, and the result carries exactly the input's marks. |
| `DefaultsProperties.SliceElementwise` | ext/typeexpr/defaults.go:118-132 | The element pass succeeds exactly when every element does. It then keeps length and order. Position i is element i after its child node, or element i itself when there is no child. |
| `DefaultsProperties.SliceFirstFailure` | ext/typeexpr/defaults.go:120-125 | A failing pass carries the errors of its first failing element. |
| `DefaultsProperties.EntriesKept` | ext/typeexpr/defaults.go:134-147 | The entry pass succeeds exactly when every entry does. It then keeps the key set, and each entry is its child's result, or itself without a child. A failure carries a failing entry's errors. |
| `DefaultsProperties.FilledContents` | ext/typeexpr/defaults.go:92-103 | The fill succeeds exactly when every needed default does. It yields every input key and every default key. A key that was absent or null gets its default, through the child of that name when there is one. Every other key keeps its value. |
| `DefaultsProperties.FillTest` | ext/typeexpr/defaults.go:93 | The loop's absent-or-null test reads the same from the partly filled map as from the map the loop started with. |
| `DefaultsProperties.FillStep` | ext/typeexpr/defaults.go:92-103 | One more iteration of the fill loop changes at most its own key, and only when that key needs its default. |
| `DefaultsProperties.FillFailure` | ext/typeexpr/defaults.go:94-98 | A needed default whose child application fails makes the fill fail, with that error among the possible ones. |
| `DefaultsProperties.FillNothing` | ext/typeexpr/defaults.go:92 | Before any default key is handled, the map is the loop's input. |
| `DefaultsSpec.FillAlong` | ext/typeexpr/defaults.go:92-103 | The Go fill loop along one iteration order: when it succeeds, it ends with the keys it started with plus every key of the order, and every key outside the order keeps its value. |
| `DefaultsProperties.FillAlongContinues` | ext/typeexpr/defaults.go:92-103 | Running the Go loop along an order from a partly filled map continues the fill over that order's keys. |
| `DefaultsProperties.FillAlongAnyOrder` | ext/typeexpr/defaults.go:92-103 | The Go loop along any iteration order of `DefaultValues` ends with the specification's map, or with errors the specification names. |
| `DefaultsProperties.FillOrderIrrelevant` | ext/typeexpr/defaults.go:92-103 | Two iteration orders succeed together, and then they produce the same map. |
| `DefaultsProperties.FailureNamesNode` | ext/typeexpr/defaults.go:56-116 | A failure always reports at least one error. Every reported error wants a type that is declared by the node or by a node below it. |
| `DefaultsProperties.SliceUnificationShape` | ext/typeexpr/defaults.go:162-195 | The result is a tuple of the unchanged values exactly when the target is a tuple, no common type exists, or a slot fails. Otherwise it is a set if the target is a set and a list if not, of the unified type, with element i equal to slot i applied to value i. |
| `DefaultsProperties.InOrderShape` | ext/typeexpr/defaults.go:212-229 | With the keys in a given order, the result is an object of the unchanged values exactly when no common type exists or a slot fails. Otherwise it is a map of the unified type over the same keys. |
| `DefaultsProperties.MapUnificationShape` | ext/typeexpr/defaults.go:197-230 | The result is an object of the unchanged values exactly when the target is an object, no common type exists, or a slot fails. Otherwise it is a map of the unified type over the same keys, in which the i-th smallest key holds slot i applied to its value. |
| `DefaultsProperties.EmptyCollectionUnified` | ext/typeexpr/defaults.go:162-195 | In the plain mode (line 84) an empty list or set at a node that carries something comes back as an empty tuple when unifying no types finds no common type, and otherwise as an empty list or set of the type found. The input's marks are kept either way. |
| `DefaultsProperties.ConvertedInOrderEntries` | ext/typeexpr/defaults.go:217-229 | The converted map has exactly the given keys, and the key at position i holds slot i's conversion. |
| `Example.EmptyListBecomesTuple` | ext/typeexpr/defaults.go:162-175 | With unification that finds no common type for an empty type list, an empty list of objects given to the list node comes back as an empty tuple. |
| `Example.ConcreteScenario` | ext/typeexpr/defaults.go:56-116 | For `object{a = 0, b = [] of list(object{c = true})}` applied to `{a: null, b: [{c: null}]}` with unification that keeps identical types, the result is `{a: 0, b: [{c: true}]}`. |

## Left out

- The internals of go-cty are not modelled: its value and type representation, nested marks, `AsValueSlice`/`AsValueMap`, and the type predicates. Values carry their marks at the top level, and `Unmark`/`WithMarks` act there only.
- `convert.Convert`, `convert.UnifyUnsafe` and the conversion closures are left uninterpreted. Their source is not part of this model. Three consequences:
  - Idempotence (applying twice equals applying once) cannot be proved, because it depends on what conversion does.
  - The fallback for element types `{string, number}` depends on the library answering "no common type".
  - The degenerate unification of an empty type list is not assumed either. So in the plain mode an empty list or set given to a node that carries something comes back as an empty tuple whenever unifying no types answers "no common type" (`DefaultsProperties.EmptyCollectionUnified`, `Example.EmptyListBecomesTuple`).
- The cty value constructors are taken as plain constructors. `SetVal` does not merge equal elements. `ListVal`/`SetVal`/`MapVal` do not panic on empty or mixed input. `ListVal`/`SetVal`/`MapVal` take the unified type as their element type.
- The text of `convert.MismatchMessage` and the `errors.New` plumbing are not modelled. An error is `Mismatch(got, want)`. `got` is the type of the value the failed conversion handed back, because lines 79 and 106 overwrite `v` before the message is built. The value Go returns beside an error is dropped.
- Go map iteration order is not fixed by the model:
  - Methods take the next key as an arbitrary remaining one.
  - The specification covers every order.
  - When several entries or defaults fail, which of their errors a given run reports is left open. It is one of a set.
- `sort.Strings` is modelled on a slice of distinct keys (map keys are). Strings are sequences of code points, and code-point order is the byte order of their UTF-8 encodings.
- `TypeExpr.ApplyWith` and every member below it require `Fits`. This excludes the panics of `getChild`'s `key.(int)` / `key.(string)` assertions on a tuple node given a keyed value, or an object node given a sequence. `Fits` also asks that every default with a same-named child fits that child, even when the default is never used because the attribute is present. That is stronger than the source needs.
- `TypeExpr.ApplyAndConvert` promises only that the input's marks are among the result's marks, not exactly equal to them. The converted value comes from the uninterpreted `convert.Convert`, which may carry marks of its own. In the plain mode the marks are proved exactly equal.
- The construction of `Defaults` trees from type expressions is not part of this model. Trees are finite by construction as datatypes.
- Lines 84 and 111 of `ext/typeexpr/defaults.go` pass the input value's own type as the unification target, not the node's declared type. So the choice between list and set, and whether a tuple or object target is taken as is, depends on the value's shape.
