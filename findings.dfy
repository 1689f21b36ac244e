/** Two places where deepswap.go does not do what its own code evidently
    means to do (the name `typecastSrc` at line 13, the nil check at lines
    28-29), each modelled as written beside the corrected behaviour that
    `Swap` gives. */
module Findings {
  import opened Wrappers
  import opened Values
  import opened Swapping
  import opened Scenarios

  // ---- 1. the match test compares the target with itself (deepswap.go:12-14) ----

  /** As written, an int leaf 5 is replaced when swapping 1 for 2, and
      replacing 1 by itself still rewrites it; under the intended policy both
      leave it alone. */
  lemma AsWrittenReplacesUnequalScalar()
    ensures Swap(IntLeaf(5), IntOf(1), IntOf(2), AsWritten) == IntLeaf(2)
    ensures Swap(IntLeaf(5), IntOf(1), IntOf(1), AsWritten) != IntLeaf(5)
    ensures Swap(IntLeaf(5), IntOf(1), IntOf(2), ValueEquality) == IntLeaf(5)
    ensures Swap(IntLeaf(5), IntOf(1), IntOf(1), ValueEquality) == IntLeaf(5)
  {
  }

  // ---- 2. a nil interface never reaches its branch (deepswap.go:7-8, 27-31) ----

  /** deepswap.go:7-8: every argument reaches DeepSwap as a Go interface value,
      and reflect.ValueOf looks through it. A nil interface gives the zero
      reflect.Value, on which Type() panics (None); any other argument is seen
      as the concrete value it holds, so the Interface case at deepswap.go:27
      is never selected. */
  function Reflected(v: Value): (r: Option<Value>)
    ensures r.None? <==> v.NilIface?
    ensures WellFormed(v) && r.Some? ==> !r.value.Iface? && !r.value.NilIface? && WellFormed(r.value)
  {
    match v
    case NilIface => None
    case Iface(x) => Some(x)
    case _ => Some(v)
  }

  /** As written, DeepSwap panics on `v`: the argument itself, or a value the
      traversal passes to the recursive call, is a nil interface. */
  predicate Panics(v: Value): (r: bool)
    // a nil interface panics at deepswap.go:8
    ensures v.NilIface? ==> r
    // a scalar, a nil pointer, map or slice, a channel or a function does not
    ensures v.Leaf? || v.NilPtr? || v.NilMap? || v.NilSlice? || v.Chan? || v.Func? ==> !r
    decreases v
  {
    match Reflected(v)
    case None => true
    case Some(_) =>
      match v
      case Ptr(x) => Panics(x)
      case Iface(x) => Panics(x)
      case Map(m) => exists k | k in m :: Panics(m[k])
      case Slice(_, es) => exists i | 0 <= i < |es| :: Panics(es[i])
      case Array(es) => exists i | 0 <= i < |es| :: Panics(es[i])
      case Struct(fs) => exists i | 0 <= i < |fs| :: Panics(fs[i].val)
      case _ => false
  }

  /** A struct with a nil `any` field, or a slice holding a nil `any`, makes
      the code as written panic, where the nil check at deepswap.go:28-29
      evidently meant to return the nil interface unchanged, as `Swap` does. */
  lemma NilInterfaceInsideValuePanics(target: Scalar, replacement: Scalar, policy: Policy)
    ensures Panics(Struct([Field("X", NilIface)]))
    ensures Swap(Struct([Field("X", NilIface)]), target, replacement, policy) == Struct([Field("X", NilIface)])
    ensures Panics(Slice(1, [NilIface]))
    ensures Swap(Slice(1, [NilIface]), target, replacement, policy) == Slice(1, [NilIface])
  {
    var s := Struct([Field("X", NilIface)]);
    assert Panics(s.fields[0].val);
    assert Swap(s, target, replacement, policy).fields == s.fields;
    var sl := Slice(1, [NilIface]);
    assert Panics(sl.elems[0]);
    assert Swap(Slice(1, [NilIface]), target, replacement, policy).elems == [NilIface];
  }
}
