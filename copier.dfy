/** DeepSwap (deepswap.go:5-85) as the step-by-step copy the source performs:
    the kind dispatch, and for maps, slices, arrays and structs a freshly
    allocated container filled by a loop, one recursive call per element. */
module Copier {
  import opened Values
  import opened Swapping

  /** Copies `src`, replacing every leaf matched by `policy` with
      `replacement`; the result is the one `Swap` specifies. */
  method DeepSwap(src: Value, target: Scalar, replacement: Scalar, policy: Policy) returns (r: Value)
    ensures r == Swap(src, target, replacement, policy)
    decreases src
  {
    match src {
      case Leaf(s) =>
        if Matches(s, target, policy) {
          r := Leaf(replacement);
        } else {
          r := src;
        }
      case NilPtr =>
        r := src;
      case Ptr(x) =>
        // a new pointer whose referent is the swapped referent
        var elem := DeepSwap(x, target, replacement, policy);
        r := Ptr(elem);
      case NilIface =>
        r := src;
      case Iface(x) =>
        var elem := DeepSwap(x, target, replacement, policy);
        r := Iface(elem);
      case NilMap =>
        r := src;
      case Map(m) =>
        // MapKeys is visited in no particular order: pick any key not yet copied
        var copy: map<Value, Value> := map[];
        var pending := m.Keys;
        while pending != {}
          invariant pending <= m.Keys
          invariant copy.Keys == m.Keys - pending
          invariant forall k | k in copy :: copy[k] == Swap(m[k], target, replacement, policy)
          decreases pending
        {
          var k :| k in pending;
          var value := DeepSwap(m[k], target, replacement, policy);
          copy := copy[k := value];
          pending := pending - {k};
        }
        assert copy == map k | k in m :: Swap(m[k], target, replacement, policy);
        r := Map(copy);
      case NilSlice =>
        r := src;
      case Slice(c, es) =>
        // a new backing array of the same length; the capacity is carried over
        var buf := new Value[|es|];
        var i := 0;
        while i < |es|
          invariant 0 <= i <= |es|
          invariant forall j | 0 <= j < i :: buf[j] == Swap(es[j], target, replacement, policy)
        {
          var elem := DeepSwap(es[i], target, replacement, policy);
          buf[i] := elem;
          i := i + 1;
        }
        assert buf[..] == seq(|es|, j requires 0 <= j < |es| => Swap(es[j], target, replacement, policy));
        r := Slice(c, buf[..]);
      case Array(es) =>
        if |es| == 0 {
          r := src;
        } else {
          var buf := new Value[|es|];
          var i := 0;
          while i < |es|
            invariant 0 <= i <= |es|
            invariant forall j | 0 <= j < i :: buf[j] == Swap(es[j], target, replacement, policy)
          {
            var elem := DeepSwap(es[i], target, replacement, policy);
            buf[i] := elem;
            i := i + 1;
          }
          assert buf[..] == seq(|es|, j requires 0 <= j < |es| => Swap(es[j], target, replacement, policy));
          r := Array(buf[..]);
        }
      case Struct(fs) =>
        // a new struct of the same layout, each field set by its name
        var buf := new Field[|fs|];
        var i := 0;
        while i < |fs|
          invariant 0 <= i <= |fs|
          invariant forall j | 0 <= j < i :: buf[j] == Field(fs[j].name, Swap(fs[j].val, target, replacement, policy))
        {
          var val := DeepSwap(fs[i].val, target, replacement, policy);
          buf[i] := Field(fs[i].name, val);
          i := i + 1;
        }
        assert buf[..] == seq(|fs|, j requires 0 <= j < |fs| => Field(fs[j].name, Swap(fs[j].val, target, replacement, policy)));
        r := Struct(buf[..]);
      case Chan(_) =>
        r := src;
      case Func(_) =>
        r := src;
    }
  }
}
