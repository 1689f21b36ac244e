/** The shapes of Go values that DeepSwap dispatches on (deepswap.go:10-73), as a
    closed datatype. Composite values carry their elements; the static element
    types of Go containers are not represented, only the exact type of each
    scalar, which is all the swap ever compares. */
module Values {

  /** The scalar kinds of the scalar branch (deepswap.go:11), floating-point and
      complex kinds excluded. */
  datatype ScalarKind =
    | Bool | String
    | Int | Int8 | Int16 | Int32 | Int64
    | Uint | Uint8 | Uint16 | Uint32 | Uint64 | Uintptr

  /** A Go scalar type. `name` is "" for the predeclared type of `kind` and the
      type's name for a defined type such as `type Celsius int`; two scalar
      types are identical exactly when kind and name agree, so `int`, `int64`
      and `Celsius` are three different types. */
  datatype ScalarType = ScalarType(kind: ScalarKind, name: string)

  datatype Payload = BoolVal(b: bool) | StrVal(s: string) | IntVal(i: int)

  /** A scalar value together with its dynamic type. */
  datatype Scalar = Scalar(ty: ScalarType, val: Payload)

  /** One named field of a struct value. */
  datatype Field = Field(name: string, val: Value)

  /** A Go value. A pointer, an interface slot, a map and a slice each have a
      nil form of their own. `Iface` is a non-nil value held in an
      interface-typed slot inside a value: a field, element, map value or
      referent of interface type. An argument passed to DeepSwap is the value
      it holds, since reflect.ValueOf looks through it; a nil argument is
      `NilIface`. Channel and function values are opaque and identified by
      an id. */
  datatype Value =
    | Leaf(s: Scalar)
    | NilPtr
    | Ptr(elem: Value)
    | NilIface
    | Iface(elem: Value)
    | NilMap
    | Map(entries: map<Value, Value>)
    | NilSlice
    | Slice(cap: nat, elems: seq<Value>)
    | Array(elems: seq<Value>)
    | Struct(fields: seq<Field>)
    | Chan(id: nat)
    | Func(id: nat)

  /** Smallest value of an integer kind; `int`, `uint` and `uintptr` are taken
      at 64 bits. */
  function MinOf(k: ScalarKind): int
  {
    match k
    case Int8 => -0x80
    case Int16 => -0x8000
    case Int32 => -0x8000_0000
    case Int | Int64 => -0x8000_0000_0000_0000
    case _ => 0
  }

  /** Largest value of an integer kind. */
  function MaxOf(k: ScalarKind): int
  {
    match k
    case Int8 => 0x7f
    case Int16 => 0x7fff
    case Int32 => 0x7fff_ffff
    case Int | Int64 => 0x7fff_ffff_ffff_ffff
    case Uint8 => 0xff
    case Uint16 => 0xffff
    case Uint32 => 0xffff_ffff
    case _ => 0xffff_ffff_ffff_ffff
  }

  /** The payload has the form the type's kind calls for and, for integers, lies
      in the kind's range. */
  predicate WellFormedScalar(s: Scalar)
  {
    match s.ty.kind
    case Bool => s.val.BoolVal?
    case String => s.val.StrVal?
    case _ => s.val.IntVal? && MinOf(s.ty.kind) <= s.val.i <= MaxOf(s.ty.kind)
  }

  predicate DistinctNames(fs: seq<Field>)
  {
    forall i, j | 0 <= i < j < |fs| :: fs[i].name != fs[j].name
  }

  /** What Go's type system guarantees of a value: scalars fit their type, a
      slice's length is at most its capacity, a struct's field names are
      distinct, and an interface slot holds a concrete value (never another
      interface). Map keys are never looked into and are not constrained. */
  predicate WellFormed(v: Value)
    decreases v
  {
    match v
    case Leaf(s) => WellFormedScalar(s)
    case Ptr(x) => WellFormed(x)
    case Iface(x) => !x.Iface? && !x.NilIface? && WellFormed(x)
    case Map(m) => forall k | k in m :: WellFormed(m[k])
    case Slice(c, es) => |es| <= c && forall i | 0 <= i < |es| :: WellFormed(es[i])
    case Array(es) => forall i | 0 <= i < |es| :: WellFormed(es[i])
    case Struct(fs) => DistinctNames(fs) && forall i | 0 <= i < |fs| :: WellFormed(fs[i].val)
    case _ => true
  }

  /** `w` has the same shape as `v`: the same constructor at every position,
      scalars of the same type, the same nil-ness, slice capacity, lengths, map
      key set and field names, and the very same channel and function values. */
  predicate SameShape(v: Value, w: Value)
    decreases v
  {
    match v
    case Leaf(s) => w.Leaf? && w.s.ty == s.ty
    case NilPtr => w.NilPtr?
    case Ptr(x) => w.Ptr? && SameShape(x, w.elem)
    case NilIface => w.NilIface?
    case Iface(x) => w.Iface? && SameShape(x, w.elem)
    case NilMap => w.NilMap?
    case Map(m) =>
      && w.Map? && w.entries.Keys == m.Keys
      && forall k | k in m :: SameShape(m[k], w.entries[k])
    case NilSlice => w.NilSlice?
    case Slice(c, es) =>
      && w.Slice? && w.cap == c && |w.elems| == |es|
      && forall i | 0 <= i < |es| :: SameShape(es[i], w.elems[i])
    case Array(es) =>
      && w.Array? && |w.elems| == |es|
      && forall i | 0 <= i < |es| :: SameShape(es[i], w.elems[i])
    case Struct(fs) =>
      && w.Struct? && |w.fields| == |fs|
      && forall i | 0 <= i < |fs| :: w.fields[i].name == fs[i].name && SameShape(fs[i].val, w.fields[i].val)
    case Chan(_) => w == v
    case Func(_) => w == v
  }

  /** `l` is a scalar leaf of `v` at a position the swap visits: anywhere except
      inside a map key. */
  predicate HasLeaf(v: Value, l: Scalar)
    decreases v
  {
    match v
    case Leaf(s) => s == l
    case Ptr(x) => HasLeaf(x, l)
    case Iface(x) => HasLeaf(x, l)
    case Map(m) => exists k | k in m :: HasLeaf(m[k], l)
    case Slice(_, es) => exists i | 0 <= i < |es| :: HasLeaf(es[i], l)
    case Array(es) => exists i | 0 <= i < |es| :: HasLeaf(es[i], l)
    case Struct(fs) => exists i | 0 <= i < |fs| :: HasLeaf(fs[i].val, l)
    case _ => false
  }
}
