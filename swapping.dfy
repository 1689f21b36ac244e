/** The value DeepSwap (deepswap.go:5-85) returns, as a recursive function over
    the shape of its argument. */
module Swapping {
  import opened Values

  /** How a scalar leaf is matched against the target (Go's `old`).
      AsWritten is deepswap.go:12-14: the leaf's type must be the target's
      type, and the equality test that follows converts the target, not the
      leaf, and compares it with itself, so it always holds. ValueEquality is
      the evident intent: the leaf must equal the target. */
  datatype Policy = AsWritten | ValueEquality

  predicate Matches(leaf: Scalar, target: Scalar, policy: Policy): (r: bool)
    // the target itself always matches
    ensures leaf == target ==> r
    // only a scalar of the target's exact type can match (deepswap.go:12)
    ensures r ==> leaf.ty == target.ty
  {
    match policy
    case AsWritten => leaf.ty == target.ty
    case ValueEquality => leaf == target
  }

  /** Some leaf visited by the swap is matched. */
  ghost predicate HasMatch(v: Value, target: Scalar, policy: Policy)
  {
    exists l :: HasLeaf(v, l) && Matches(l, target, policy)
  }

  /** The copy of `v` in which every matched scalar leaf is the replacement
      (Go's `new`). Nil pointers,
      nil interfaces, nil maps, nil slices, zero-length arrays, channels and
      functions come back as they are; map keys are kept and only map values
      are swapped. */
  function Swap(v: Value, target: Scalar, replacement: Scalar, policy: Policy): (r: Value)
    // a scalar stays a scalar, and nothing else becomes one
    ensures r.Leaf? <==> v.Leaf?
    // a scalar is either kept or is the replacement; the target never survives
    ensures v.Leaf? ==> r == v || r == Leaf(replacement)
    ensures v == Leaf(target) ==> r == Leaf(replacement)
    decreases v
  {
    match v
    case Leaf(s) => if Matches(s, target, policy) then Leaf(replacement) else v
    case NilPtr => v
    case Ptr(x) => Ptr(Swap(x, target, replacement, policy))
    case NilIface => v
    case Iface(x) => Iface(Swap(x, target, replacement, policy))
    case NilMap => v
    case Map(m) => Map(map k | k in m :: Swap(m[k], target, replacement, policy))
    case NilSlice => v
    case Slice(c, es) => Slice(c, seq(|es|, i requires 0 <= i < |es| => Swap(es[i], target, replacement, policy)))
    case Array(es) =>
      if |es| == 0 then v
      else Array(seq(|es|, i requires 0 <= i < |es| => Swap(es[i], target, replacement, policy)))
    case Struct(fs) =>
      Struct(seq(|fs|, i requires 0 <= i < |fs| => Field(fs[i].name, Swap(fs[i].val, target, replacement, policy))))
    case Chan(_) => v
    case Func(_) => v
  }
}
