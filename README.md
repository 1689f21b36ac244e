# deepswap in Dafny

`DeepSwap(src, old, new)` (deepswap.go) copies a Go value of any shape. It
replaces the scalar leaves that match `old` with `new`. It dispatches on the
reflected kind of the value:

- a scalar is replaced or returned;
- a pointer is re-allocated around the swapped referent;
- a value in an interface-typed slot is swapped and stored back into the slot;
- a map is rebuilt with the same keys and swapped values;
- a slice is rebuilt with the same length and capacity;
- an array is rebuilt with the same length (a zero-length array is returned as is);
- a struct is rebuilt field by field, by name;
- channels and functions are returned untouched.

Nil pointers, maps and slices are returned as they are; a nil interface panics at line 8 (finding 2).

The model has these parts:

- `Values` (values.dfy) is the closed set of shapes, as a datatype. A scalar
  carries its exact Go type: kind plus defined-type name. Composites carry
  their elements, and each nilable kind has its own nil constructor. The module
  also defines three predicates:
  - `WellFormed`: what Go's typing guarantees of a value;
  - `SameShape`: two values have the same structure;
  - `HasLeaf`: the scalar leaves that the swap visits. Map keys are not visited.
- `Swapping` (swapping.dfy) holds the recursive function `Swap`, which says what
  `DeepSwap` returns. The match test is a parameter `Policy`:
  - `AsWritten` is the code: type equality only;
  - `ValueEquality` is the evident intent.
- `Copier` (copier.dfy) is `DeepSwap` done the way the source does it. It is a
  recursive method whose map, slice, array and struct branches allocate a new
  container and fill it in a loop. It is proved to return exactly `Swap`.
- `SwapLemmas` (swap_lemmas.dfy) proves:
  - one lemma per branch;
  - that shape and well-formedness are preserved;
  - an exact description of the leaves of the result;
  - identity when nothing matches;
  - identity under a no-op replacement;
  - that swapping twice changes nothing more than swapping once;
  - when the two policies agree.
- `Scenarios` (scenarios.dfy) restates each case of deepswap_test.go about the model.
- `Findings` (findings.dfy) models two defects as written (see below).
- `Wrappers` (wrappers.dfy) holds `Option`.

The source itself shows two places where the code does not do what it evidently
means to do. The model keeps each one as written and beside it the corrected
behaviour:

- The match test at deepswap.go:12-14 first requires the scalar's exact type
  to be `old`'s type (line 12). There is no conversion between widths:
  `int8(1)`, `int(1)` and a defined `type ID int` are three different types.
  The test then compares `old`, cast to `V`, with `old` (lines 13-14), not the
  scalar itself. So the value of the scalar is never compared (finding 1). The
  name `typecastSrc` shows that the scalar `src`, cast to `V`, was meant to be
  compared with `old`.
- deepswap.go:28-29 returns a nil interface unchanged, but that branch is never
  reached (finding 2). `Swap` returns the nil interface unchanged, which is the
  corrected behaviour.

How interfaces are represented: reflect.ValueOf always looks through an
interface (deepswap.go:7), so the source never sees an interface kind. The
argument `src` is therefore modelled by the value it holds. `1` and
`toInterface(1)` (helpers.go:7-9 returns its argument) are the same argument,
`Leaf(1)`. A nil argument is `NilIface`. Inside a value, an interface-typed slot
is `Iface(x)`; such slots are a field, element, map value or referent whose
static type is an interface. The recursive calls at lines 25, 39, 49, 59 and 66
pass the slot's dynamic value `x`. The `Set` that follows stores the swapped
value back into the slot, so `Iface(x)` becomes `Iface(Swap(x))`. A nil slot,
`NilIface`, is the case of finding 2.

## Model

| member | source | states |
|---|---|---|
| `Swapping.Matches` | deepswap.go:12-14 | The target itself always matches, and only a scalar of the target's exact type can match. As written this is the whole test. |
| `Swapping.Swap` | deepswap.go:5-85 | A scalar stays a scalar, and no other value becomes one. A scalar is kept or becomes the replacement. A leaf equal to the target always becomes the replacement. Its other properties are the `SwapLemmas` below. |
| `Copier.DeepSwap` | deepswap.go:5-85 | The dispatch and its loops return exactly `Swap(src, target, replacement, policy)`. The map loop takes the keys in any order. The slice, array and struct loops each fill a fresh buffer by index. |
| `SwapLemmas.OtherTypeScalarKept` | deepswap.go:11-18 | A scalar whose type is not the target's type comes back unchanged, under either policy. No width conversion takes place. |
| `SwapLemmas.SameTypeScalarReplaced` | deepswap.go:12-15 | As written, a scalar of the target's type becomes the replacement whether or not it equals the target. |
| `SwapLemmas.EqualScalarReplaced` | deepswap.go:12-18 | Under the intended policy, a scalar becomes the replacement exactly when it equals the target (or already is the replacement). Any other scalar is unchanged. |
| `SwapLemmas.AbsentAndOpaqueKept` | deepswap.go:19-73 | These come back unchanged: nil pointer (20-21), nil interface (28-29, the corrected behaviour of finding 2), nil map (33-34), nil slice (44-45), zero-length array (54-55), channel and function (70-73). |
| `SwapLemmas.PointerCopied` | deepswap.go:24-26 | A non-nil pointer gives a non-nil pointer whose referent is the swap of the original referent. |
| `SwapLemmas.InterfaceCopied` | deepswap.go:5-8 | A non-nil interface slot holds the swap of its dynamic value. `ValueOf` at line 7 looks through the slot's interface, and the `Set` calls at lines 25, 40, 50, 60 and 67 store the swapped value back into the slot. |
| `SwapLemmas.MapCopied` | deepswap.go:32-42 | A non-nil map gives a map with exactly the same key set. Keys are not swapped. Each key maps to the swap of its original value. |
| `SwapLemmas.SliceCopied` | deepswap.go:43-52 | A non-nil slice gives a slice with the same length and capacity. Element i is the swap of source element i. |
| `SwapLemmas.ArrayCopied` | deepswap.go:53-62 | An array gives an array of the same length. Element i is the swap of source element i. |
| `SwapLemmas.StructCopied` | deepswap.go:63-69 | A struct gives a struct with the same field names in the same order, still distinct. Each field holds the swap of the same-named source field. |
| `SwapLemmas.SwapKeepsShape` | deepswap.go:19-69 | When target and replacement share a type, the result has the shape of the input at every depth: same kinds, nil-ness, lengths, capacity, map keys, field names and scalar types. Channel and function values are identical. |
| `SwapLemmas.SwapKeepsWellFormed` | deepswap.go:24-68 | When the replacement is a well-formed scalar, a well-formed value swaps to a well-formed value: scalars stay in range, slices within capacity, field names distinct, and interface slots hold concrete values. |
| `SwapLemmas.LeavesAfterSwap` | deepswap.go:11-69 | For any scalar l, these two are equivalent: (a) l is a leaf of the result; (b) either l is an unmatched leaf of the input, or l is the replacement and some leaf of the input matched. |
| `SwapLemmas.NoTargetLeft` | deepswap.go:12-15 | Under the intended policy, with a replacement different from the target, no leaf of the result equals the target. |
| `SwapLemmas.AsWrittenTargetTypeLeavesAreReplacement` | deepswap.go:12-15 | As written, every leaf of the result that has the target's type is the replacement. |
| `SwapLemmas.NoMatchIsIdentity` | deepswap.go:11-73 | A value with no matched leaf is copied to an equal value. |
| `SwapLemmas.NoOpSwapIsIdentity` | deepswap.go:12-15 | Under the intended policy, replacing the target with itself returns an equal value. |
| `SwapLemmas.SwapTwiceIsSwapOnce` | deepswap.go:11-73 | A second swap leaves the first swap's result unchanged, under either policy. |
| `SwapLemmas.PoliciesAgree` | deepswap_test.go:9-158 | If every leaf of the target's type is the target or the replacement, both policies give the same result. Every case of the test table is such a value: its int leaves are 1 or 2, for example the map value `2` at deepswap_test.go:67. |
| `Scenarios.ScalarScenario` | deepswap_test.go:16-23 | `DeepSwap(1, 1, 2)` is 2. |
| `Scenarios.PointerScenarios` | deepswap_test.go:24-47 | `&1` becomes `&2`. A pointer to a nil pointer keeps its nil referent. `&&1` becomes `&&2`. |
| `Scenarios.InterfaceScenarios` | deepswap_test.go:48-63 | `toInterface(1)` becomes `2`, and `toInterface(&1)` becomes `&2`. The argument is the value it holds, so these are the arguments `1` and `&1`. |
| `Scenarios.MapScenario` | deepswap_test.go:64-76 | `map{1:1, 2:2, 4:1}` becomes `map{1:2, 2:2, 4:2}`, with the keys unchanged. |
| `Scenarios.SliceAndArrayScenarios` | deepswap_test.go:77-94 | `[]int{1,1,1}` becomes `[]int{2,2,2}` with the same capacity, and `[3]int{1,1,1}` becomes `[3]int{2,2,2}`. |
| `Scenarios.IntFieldScenario` | deepswap_test.go:95-103 | `struct{X int}{1}` becomes `{2}`. |
| `Scenarios.PointerFieldScenario` | deepswap_test.go:104-112 | `struct{X *int}{&1}` becomes `{&2}`. |
| `Scenarios.SliceFieldScenario` | deepswap_test.go:113-123 | `toInterface(struct{X []int}{[1,1]})` becomes `struct{X []int}{[2,2]}`. |
| `Scenarios.RecordScenario` | deepswap_test.go:124-150 | In `{A:"x", B:1, C:&1, D:[1,1], E:nil}`, A stays "x", B, C and D become 2, and E stays a nil map. This holds under both policies. |
| `Findings.AsWrittenReplacesUnequalScalar` | deepswap.go:12-15 | As written, int 5 becomes 2 when swapping 1 for 2, and a swap of 1 for 1 still rewrites it. Under the intended policy it is left alone in both cases. |
| `Findings.Reflected` | deepswap.go:7-10 | The entry of the function. A nil interface argument makes `Type()` panic (`None`). Any other interface is seen as its dynamic value, so on a well-formed value the Interface case is never selected. |
| `Findings.Panics` | deepswap.go:7-8 | As written, a nil interface panics at line 8. A scalar, a nil pointer, map or slice, a channel and a function do not. A composite panics when a value passed on at lines 25, 39, 49, 59 or 66 does. |
| `Findings.NilInterfaceInsideValuePanics` | deepswap.go:7-8 | As written, a struct with a nil `any` field, or a slice holding a nil `any`, panics. `Swap` instead returns both unchanged. |

## Findings

| source | as written | input that shows it | evidently intended | confidence | as-written member | corrected member |
|---|---|---|---|---|---|---|
| deepswap.go:12-14 | Line 13 converts `old` instead of `src`, then compares it with `old`. The test is always true, so every scalar of `old`'s type is replaced. | `DeepSwap(5, 1, 2)` returns 2. `DeepSwap(v, t, t)` is not `v` when v holds a scalar of t's type other than t. | Replace only the scalars equal to `old` | high; not executed | `Findings.AsWrittenReplacesUnequalScalar` | `SwapLemmas.NoOpSwapIsIdentity` |
| deepswap.go:7-8 | Passing a nil interface (as an argument, or as a field, element, map value or referent passed on at lines 25, 39, 49, 59 or 66) gives `reflect.ValueOf(nil)`, the zero Value. `Type()` panics on it. So the nil check at lines 28-29 is never reached. | `DeepSwap(struct{ X any }{}, 1, 2)` | Return the nil interface unchanged | medium; not executed | `Findings.NilInterfaceInsideValuePanics` | `SwapLemmas.AbsentAndOpaqueKept` |

Everywhere else the model uses the corrected behaviour. `Swap` returns nil
interfaces unchanged. The `ValueEquality` policy gives the intended match,
and `AsWritten` keeps the code's match. Every structural lemma holds for both.

## Left out

- Floating-point and complex scalar kinds (`Float32`, `Float64`, `Complex64`, `Complex128`) are left out. Their equality is floating-point semantics, including NaN never equal to itself.
- The `UnsafePointer` branch (deepswap.go:74-80) is left out. Calling `Elem()` on an unsafe pointer type is runtime-specific behaviour.
- The `default` panic (deepswap.go:81-83) cannot be reached with a closed datatype.
- The `reflect` machinery itself (`StructOf`, `VisibleFields`, `MakeMapWithSize`, `MakeSlice`, `New`, `Set`) is modelled only by its effect.
- A named struct type comes back as the unnamed type that `StructOf` builds (deepswap.go:64,69). This happens at top level and in every interface-typed slot, since the `Set` at lines 25, 40, 50, 60 and 67 stores the unnamed value there. So `[]any{S{X: 1}}` comes back holding `struct{X int}{2}`, and a later `.(S)` fails. A named pointer type likewise comes back as `*Elem`, because line 24 allocates `reflect.New(srcType.Elem())`. The model does not track struct or pointer type names.
- Embedded and promoted fields are out of scope.
- Unexported fields are out of scope: `Interface()` panics on them.
- The static types of containers are not represented: element types, map key and value types, and the type of a nil container. Only scalar types are compared by the source, so only they are tracked.
- Map keys are opaque values. They are never visited and not constrained.
- Slice capacity is kept as a number. The zero-valued slots between length and capacity are not modelled.
- Map iteration order is not modelled: `DeepSwap` picks the next key arbitrarily.
- Allocation identity and aliasing are not modelled. Values are immutable datatypes, so "a fresh container" is not observable in the model.
- Cyclic values are not modelled: datatypes are finite and acyclic, so the unbounded recursion the source has on them cannot arise.
- The model takes target and replacement to be scalars. A non-scalar `old` never equals a scalar leaf's type, so the source replaces nothing in that case. When `V` is an interface type, Go also accepts a non-scalar or nil `new`. With `new == nil`, line 15 returns a nil interface, whose reflected value is the zero Value. `SetMapIndex` at line 40 then deletes the matched key, and the `Set` calls at lines 25, 50, 60 and 67 panic on it. A non-scalar or nil replacement is not modelled.
- SwapLemmas.SwapKeepsShape requires target and replacement to share a type. Otherwise a replaced scalar changes type, so the shape is not kept. The source guarantees a shared type when `V` is a concrete type. When `V` is an interface type whose dynamic types differ, a nested `Set` into a slot of the leaf's own scalar type would panic, while an interface-typed slot accepts it. Slot types are not modelled, so that panic is not either.
- Panics other than the nil interface of finding 2 are not modelled: a mismatched `Set`, and `Interface()` on unexported fields.
- `int`, `uint` and `uintptr` are taken at 64 bits. This matters only for `WellFormedScalar`.
- helpers.go (`toPointer`, `toInterface`) only builds test inputs. In the scenarios `toPointer(x)` is `Ptr(x)`, and `toInterface(x)` is `x` itself, because the argument is modelled by the value it holds.
