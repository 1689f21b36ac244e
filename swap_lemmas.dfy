/** What DeepSwap promises, branch by branch and over whole values, stated and
    proved about `Swap`. */
module SwapLemmas {
  import opened Values
  import opened Swapping

  // ---- the branches of deepswap.go, one lemma each ----

  /** A scalar whose type is not the target's type is never replaced, under
      either policy (deepswap.go:12,18). */
  lemma OtherTypeScalarKept(s: Scalar, target: Scalar, replacement: Scalar, policy: Policy)
    requires s.ty != target.ty
    ensures Swap(Leaf(s), target, replacement, policy) == Leaf(s)
  {
  }

  /** As written, every scalar of the target's type is replaced, equal to the
      target or not (deepswap.go:12-15). */
  lemma SameTypeScalarReplaced(s: Scalar, target: Scalar, replacement: Scalar)
    requires s.ty == target.ty
    ensures Swap(Leaf(s), target, replacement, AsWritten) == Leaf(replacement)
  {
  }

  /** As intended, a scalar is replaced exactly when it equals the target. */
  lemma EqualScalarReplaced(s: Scalar, target: Scalar, replacement: Scalar)
    ensures Swap(Leaf(s), target, replacement, ValueEquality) == Leaf(replacement) <==> s == target || s == replacement
    ensures s != target ==> Swap(Leaf(s), target, replacement, ValueEquality) == Leaf(s)
  {
  }

  /** Nil pointers, nil interfaces, nil maps, nil slices, zero-length arrays,
      channels and functions are returned as they are
      (deepswap.go:20-21,28-29,33-34,44-45,54-55,70-73). */
  lemma AbsentAndOpaqueKept(v: Value, target: Scalar, replacement: Scalar, policy: Policy)
    requires v.NilPtr? || v.NilIface? || v.NilMap? || v.NilSlice? || v.Chan? || v.Func? || (v.Array? && |v.elems| == 0)
    ensures Swap(v, target, replacement, policy) == v
  {
  }

  /** A non-nil pointer gives a new non-nil pointer to the swapped referent
      (deepswap.go:24-26). */
  lemma PointerCopied(v: Value, target: Scalar, replacement: Scalar, policy: Policy)
    requires v.Ptr?
    ensures var r := Swap(v, target, replacement, policy);
      r.Ptr? && r.elem == Swap(v.elem, target, replacement, policy)
  {
  }

  /** A non-nil interface slot holds the swapped dynamic value: ValueOf looks
      through the slot (deepswap.go:7) and the Set calls at deepswap.go:25, 40,
      50, 60 and 67 store the swapped value back into it. */
  lemma InterfaceCopied(v: Value, target: Scalar, replacement: Scalar, policy: Policy)
    requires v.Iface?
    ensures var r := Swap(v, target, replacement, policy);
      r.Iface? && r.elem == Swap(v.elem, target, replacement, policy)
  {
  }

  /** A non-nil map gives a new map with exactly the same keys, none of them
      swapped, each holding the swap of its original value (deepswap.go:36-41). */
  lemma MapCopied(v: Value, target: Scalar, replacement: Scalar, policy: Policy)
    requires v.Map?
    ensures var r := Swap(v, target, replacement, policy);
      && r.Map? && r.entries.Keys == v.entries.Keys
      && forall k | k in v.entries :: r.entries[k] == Swap(v.entries[k], target, replacement, policy)
  {
  }

  /** A non-nil slice gives a new slice of the same length and capacity whose
      element i is the swap of element i (deepswap.go:47-51). */
  lemma SliceCopied(v: Value, target: Scalar, replacement: Scalar, policy: Policy)
    requires v.Slice?
    ensures var r := Swap(v, target, replacement, policy);
      && r.Slice? && r.cap == v.cap && |r.elems| == |v.elems|
      && forall i | 0 <= i < |v.elems| :: r.elems[i] == Swap(v.elems[i], target, replacement, policy)
  {
  }

  /** An array gives an array of the same length whose element i is the swap
      of element i (deepswap.go:54-61). */
  lemma ArrayCopied(v: Value, target: Scalar, replacement: Scalar, policy: Policy)
    requires v.Array?
    ensures var r := Swap(v, target, replacement, policy);
      && r.Array? && |r.elems| == |v.elems|
      && forall i | 0 <= i < |v.elems| :: r.elems[i] == Swap(v.elems[i], target, replacement, policy)
  {
  }

  /** A struct gives a struct with the same field names in the same order, each
      field holding the swap of the same-named source field
      (deepswap.go:64-68). */
  lemma StructCopied(v: Value, target: Scalar, replacement: Scalar, policy: Policy)
    requires v.Struct? && DistinctNames(v.fields)
    ensures var r := Swap(v, target, replacement, policy);
      && r.Struct? && |r.fields| == |v.fields| && DistinctNames(r.fields)
      && forall i | 0 <= i < |v.fields| ::
           r.fields[i].name == v.fields[i].name
           && r.fields[i].val == Swap(v.fields[i].val, target, replacement, policy)
  {
  }

  // ---- whole values ----

  /** Shape preservation: when target and replacement share a type, the result
      has the shape of `v` (same kinds, nil-ness, lengths, capacities, map keys
      and field names, scalar types). */
  lemma {:induction false} SwapKeepsShape(v: Value, target: Scalar, replacement: Scalar, policy: Policy)
    requires replacement.ty == target.ty
    ensures SameShape(v, Swap(v, target, replacement, policy))
    decreases v
  {
    match v
    case Ptr(x) =>
      SwapKeepsShape(x, target, replacement, policy);
    case Iface(x) =>
      SwapKeepsShape(x, target, replacement, policy);
    case Map(m) =>
      forall k | k in m {
        SwapKeepsShape(m[k], target, replacement, policy);
      }
    case Slice(_, es) =>
      forall i | 0 <= i < |es| {
        SwapKeepsShape(es[i], target, replacement, policy);
      }
    case Array(es) =>
      forall i | 0 <= i < |es| {
        SwapKeepsShape(es[i], target, replacement, policy);
      }
    case Struct(fs) =>
      forall i | 0 <= i < |fs| {
        SwapKeepsShape(fs[i].val, target, replacement, policy);
      }
    case _ =>
  }

  /** Swapping keeps a value well formed when the replacement is a well-formed
      scalar. */
  lemma {:induction false} SwapKeepsWellFormed(v: Value, target: Scalar, replacement: Scalar, policy: Policy)
    requires WellFormedScalar(replacement) && WellFormed(v)
    ensures WellFormed(Swap(v, target, replacement, policy))
    decreases v
  {
    match v
    case Ptr(x) =>
      SwapKeepsWellFormed(x, target, replacement, policy);
    case Iface(x) =>
      SwapKeepsWellFormed(x, target, replacement, policy);
    case Map(m) =>
      forall k | k in m {
        SwapKeepsWellFormed(m[k], target, replacement, policy);
      }
    case Slice(_, es) =>
      forall i | 0 <= i < |es| {
        SwapKeepsWellFormed(es[i], target, replacement, policy);
      }
    case Array(es) =>
      forall i | 0 <= i < |es| {
        SwapKeepsWellFormed(es[i], target, replacement, policy);
      }
    case Struct(fs) =>
      forall i | 0 <= i < |fs| {
        SwapKeepsWellFormed(fs[i].val, target, replacement, policy);
      }
    case _ =>
  }

  /** A value has a matched leaf exactly when it is a matched scalar or one of
      the children the swap visits has one. */
  lemma HasMatchUnfold(v: Value, target: Scalar, policy: Policy)
    ensures v.Leaf? ==> (HasMatch(v, target, policy) <==> Matches(v.s, target, policy))
    ensures v.Ptr? || v.Iface? ==> (HasMatch(v, target, policy) <==> HasMatch(v.elem, target, policy))
    ensures v.Map? ==>
      (HasMatch(v, target, policy) <==> exists k | k in v.entries :: HasMatch(v.entries[k], target, policy))
    ensures v.Slice? || v.Array? ==>
      (HasMatch(v, target, policy) <==> exists i | 0 <= i < |v.elems| :: HasMatch(v.elems[i], target, policy))
    ensures v.Struct? ==>
      (HasMatch(v, target, policy) <==> exists i | 0 <= i < |v.fields| :: HasMatch(v.fields[i].val, target, policy))
    ensures v.NilPtr? || v.NilIface? || v.NilMap? || v.NilSlice? || v.Chan? || v.Func? ==> !HasMatch(v, target, policy)
  {
  }

  /** The leaves of the result are exactly the unmatched leaves of `v`, plus
      the replacement when some leaf of `v` was matched. */
  lemma {:induction false} LeavesAfterSwap(v: Value, target: Scalar, replacement: Scalar, policy: Policy, l: Scalar)
    ensures HasLeaf(Swap(v, target, replacement, policy), l)
        <==> (HasLeaf(v, l) && !Matches(l, target, policy)) || (l == replacement && HasMatch(v, target, policy))
    decreases v
  {
    var r := Swap(v, target, replacement, policy);
    HasMatchUnfold(v, target, policy);
    match v
    case Ptr(x) =>
      LeavesAfterSwap(x, target, replacement, policy, l);
    case Iface(x) =>
      LeavesAfterSwap(x, target, replacement, policy, l);
    case Map(m) =>
      forall k | k in m
        ensures HasLeaf(r.entries[k], l) <==>
          ((HasLeaf(m[k], l) && !Matches(l, target, policy)) || (l == replacement && HasMatch(m[k], target, policy)))
      {
        LeavesAfterSwap(m[k], target, replacement, policy, l);
      }
      EntryLeaves(m, r.entries, target, replacement, policy, l);
    case Slice(_, es) =>
      forall i | 0 <= i < |es|
        ensures HasLeaf(r.elems[i], l) <==>
          ((HasLeaf(es[i], l) && !Matches(l, target, policy)) || (l == replacement && HasMatch(es[i], target, policy)))
      {
        LeavesAfterSwap(es[i], target, replacement, policy, l);
      }
      ElementLeaves(es, r.elems, target, replacement, policy, l);
    case Array(es) =>
      forall i | 0 <= i < |es|
        ensures HasLeaf(r.elems[i], l) <==>
          ((HasLeaf(es[i], l) && !Matches(l, target, policy)) || (l == replacement && HasMatch(es[i], target, policy)))
      {
        LeavesAfterSwap(es[i], target, replacement, policy, l);
      }
      ElementLeaves(es, r.elems, target, replacement, policy, l);
    case Struct(fs) =>
      forall i | 0 <= i < |fs|
        ensures HasLeaf(r.fields[i].val, l) <==>
          ((HasLeaf(fs[i].val, l) && !Matches(l, target, policy)) || (l == replacement && HasMatch(fs[i].val, target, policy)))
      {
        LeavesAfterSwap(fs[i].val, target, replacement, policy, l);
      }
      FieldLeaves(fs, r.fields, target, replacement, policy, l);
    case _ =>
  }

  /** LeavesAfterSwap lifted from each element of a sequence to the sequence. */
  lemma ElementLeaves(es: seq<Value>, rs: seq<Value>, target: Scalar, replacement: Scalar, policy: Policy, l: Scalar)
    requires |rs| == |es|
    requires forall i | 0 <= i < |es| ::
      HasLeaf(rs[i], l) <==>
        ((HasLeaf(es[i], l) && !Matches(l, target, policy)) || (l == replacement && HasMatch(es[i], target, policy)))
    ensures (exists i | 0 <= i < |rs| :: HasLeaf(rs[i], l))
        <==> ((exists i | 0 <= i < |es| :: HasLeaf(es[i], l)) && !Matches(l, target, policy))
             || (l == replacement && exists i | 0 <= i < |es| :: HasMatch(es[i], target, policy))
  {
  }

  /** LeavesAfterSwap lifted from each value of a map to the map. */
  lemma EntryLeaves(m: map<Value, Value>, rm: map<Value, Value>, target: Scalar, replacement: Scalar, policy: Policy, l: Scalar)
    requires rm.Keys == m.Keys
    requires forall k | k in m ::
      HasLeaf(rm[k], l) <==>
        ((HasLeaf(m[k], l) && !Matches(l, target, policy)) || (l == replacement && HasMatch(m[k], target, policy)))
    ensures (exists k | k in rm :: HasLeaf(rm[k], l))
        <==> ((exists k | k in m :: HasLeaf(m[k], l)) && !Matches(l, target, policy))
             || (l == replacement && exists k | k in m :: HasMatch(m[k], target, policy))
  {
  }

  /** LeavesAfterSwap lifted from each field of a struct to the struct. */
  lemma FieldLeaves(fs: seq<Field>, rfs: seq<Field>, target: Scalar, replacement: Scalar, policy: Policy, l: Scalar)
    requires |rfs| == |fs|
    requires forall i | 0 <= i < |fs| ::
      HasLeaf(rfs[i].val, l) <==>
        ((HasLeaf(fs[i].val, l) && !Matches(l, target, policy)) || (l == replacement && HasMatch(fs[i].val, target, policy)))
    ensures (exists i | 0 <= i < |rfs| :: HasLeaf(rfs[i].val, l))
        <==> ((exists i | 0 <= i < |fs| :: HasLeaf(fs[i].val, l)) && !Matches(l, target, policy))
             || (l == replacement && exists i | 0 <= i < |fs| :: HasMatch(fs[i].val, target, policy))
  {
  }

  /** Full replacement, as intended: when the replacement differs from the
      target, no leaf of the result equals the target. */
  lemma NoTargetLeft(v: Value, target: Scalar, replacement: Scalar)
    requires replacement != target
    ensures !HasLeaf(Swap(v, target, replacement, ValueEquality), target)
  {
    LeavesAfterSwap(v, target, replacement, ValueEquality, target);
  }

  /** Full replacement, as written: every leaf of the result whose type is the
      target's type is the replacement. */
  lemma AsWrittenTargetTypeLeavesAreReplacement(v: Value, target: Scalar, replacement: Scalar, l: Scalar)
    requires HasLeaf(Swap(v, target, replacement, AsWritten), l) && l.ty == target.ty
    ensures l == replacement
  {
    LeavesAfterSwap(v, target, replacement, AsWritten, l);
  }

  /** Identity on non-match: a value with no matched leaf is copied unchanged. */
  lemma {:induction false} NoMatchIsIdentity(v: Value, target: Scalar, replacement: Scalar, policy: Policy)
    requires !HasMatch(v, target, policy)
    ensures Swap(v, target, replacement, policy) == v
    decreases v
  {
    HasMatchUnfold(v, target, policy);
    match v
    case Leaf(_) =>
    case Ptr(x) =>
      NoMatchIsIdentity(x, target, replacement, policy);
    case Iface(x) =>
      NoMatchIsIdentity(x, target, replacement, policy);
    case Map(m) =>
      forall k | k in m ensures Swap(m[k], target, replacement, policy) == m[k] {
        NoMatchIsIdentity(m[k], target, replacement, policy);
      }
      assert (map k | k in m :: Swap(m[k], target, replacement, policy)) == m;
    case Slice(_, es) =>
      forall i | 0 <= i < |es| ensures Swap(es[i], target, replacement, policy) == es[i] {
        NoMatchIsIdentity(es[i], target, replacement, policy);
      }
      assert seq(|es|, i requires 0 <= i < |es| => Swap(es[i], target, replacement, policy)) == es;
    case Array(es) =>
      forall i | 0 <= i < |es| ensures Swap(es[i], target, replacement, policy) == es[i] {
        NoMatchIsIdentity(es[i], target, replacement, policy);
      }
      assert seq(|es|, i requires 0 <= i < |es| => Swap(es[i], target, replacement, policy)) == es;
    case Struct(fs) =>
      forall i | 0 <= i < |fs| ensures Swap(fs[i].val, target, replacement, policy) == fs[i].val {
        NoMatchIsIdentity(fs[i].val, target, replacement, policy);
      }
      assert seq(|fs|, i requires 0 <= i < |fs| => Field(fs[i].name, Swap(fs[i].val, target, replacement, policy))) == fs;
    case _ =>
  }

  /** Replacing a value by itself changes nothing, as intended. */
  lemma {:induction false} NoOpSwapIsIdentity(v: Value, target: Scalar)
    ensures Swap(v, target, target, ValueEquality) == v
    decreases v
  {
    match v
    case Leaf(_) =>
    case Ptr(x) =>
      NoOpSwapIsIdentity(x, target);
    case Iface(x) =>
      NoOpSwapIsIdentity(x, target);
    case Map(m) =>
      forall k | k in m ensures Swap(m[k], target, target, ValueEquality) == m[k] {
        NoOpSwapIsIdentity(m[k], target);
      }
      assert (map k | k in m :: Swap(m[k], target, target, ValueEquality)) == m;
    case Slice(_, es) =>
      forall i | 0 <= i < |es| ensures Swap(es[i], target, target, ValueEquality) == es[i] {
        NoOpSwapIsIdentity(es[i], target);
      }
      assert seq(|es|, i requires 0 <= i < |es| => Swap(es[i], target, target, ValueEquality)) == es;
    case Array(es) =>
      forall i | 0 <= i < |es| ensures Swap(es[i], target, target, ValueEquality) == es[i] {
        NoOpSwapIsIdentity(es[i], target);
      }
      assert seq(|es|, i requires 0 <= i < |es| => Swap(es[i], target, target, ValueEquality)) == es;
    case Struct(fs) =>
      forall i | 0 <= i < |fs| ensures Swap(fs[i].val, target, target, ValueEquality) == fs[i].val {
        NoOpSwapIsIdentity(fs[i].val, target);
      }
      assert seq(|fs|, i requires 0 <= i < |fs| => Field(fs[i].name, Swap(fs[i].val, target, target, ValueEquality))) == fs;
    case _ =>
  }

  /** Swapping a second time changes nothing more, under either policy. */
  lemma {:induction false} SwapTwiceIsSwapOnce(v: Value, target: Scalar, replacement: Scalar, policy: Policy)
    ensures var once := Swap(v, target, replacement, policy);
      Swap(once, target, replacement, policy) == once
    decreases v
  {
    var once := Swap(v, target, replacement, policy);
    match v
    case Leaf(_) =>
    case Ptr(x) =>
      SwapTwiceIsSwapOnce(x, target, replacement, policy);
    case Iface(x) =>
      SwapTwiceIsSwapOnce(x, target, replacement, policy);
    case Map(m) =>
      forall k | k in m ensures Swap(once.entries[k], target, replacement, policy) == once.entries[k] {
        SwapTwiceIsSwapOnce(m[k], target, replacement, policy);
      }
      assert (map k | k in once.entries :: Swap(once.entries[k], target, replacement, policy)) == once.entries;
    case Slice(_, es) =>
      forall i | 0 <= i < |es| ensures Swap(once.elems[i], target, replacement, policy) == once.elems[i] {
        SwapTwiceIsSwapOnce(es[i], target, replacement, policy);
      }
      assert seq(|es|, i requires 0 <= i < |es| => Swap(once.elems[i], target, replacement, policy)) == once.elems;
    case Array(es) =>
      forall i | 0 <= i < |es| ensures Swap(once.elems[i], target, replacement, policy) == once.elems[i] {
        SwapTwiceIsSwapOnce(es[i], target, replacement, policy);
      }
      assert seq(|es|, i requires 0 <= i < |es| => Swap(once.elems[i], target, replacement, policy)) == once.elems;
    case Struct(fs) =>
      forall i | 0 <= i < |fs| ensures Swap(once.fields[i].val, target, replacement, policy) == once.fields[i].val {
        SwapTwiceIsSwapOnce(fs[i].val, target, replacement, policy);
      }
      assert seq(|fs|, i requires 0 <= i < |fs| =>
        Field(once.fields[i].name, Swap(once.fields[i].val, target, replacement, policy))) == once.fields;
    case _ =>
  }

  /** The two policies give the same result on a value whose leaves of the
      target's type are all the target or the replacement, which is why
      deepswap_test.go does not tell them apart. */
  lemma {:induction false} PoliciesAgree(v: Value, target: Scalar, replacement: Scalar)
    requires forall l | HasLeaf(v, l) && l.ty == target.ty :: l == target || l == replacement
    ensures Swap(v, target, replacement, AsWritten) == Swap(v, target, replacement, ValueEquality)
    decreases v
  {
    match v
    case Leaf(s) =>
      assert HasLeaf(v, s);
    case Ptr(x) =>
      PoliciesAgree(x, target, replacement);
    case Iface(x) =>
      PoliciesAgree(x, target, replacement);
    case Map(m) =>
      forall k | k in m
        ensures Swap(m[k], target, replacement, AsWritten) == Swap(m[k], target, replacement, ValueEquality)
      {
        forall l | HasLeaf(m[k], l) && l.ty == target.ty ensures l == target || l == replacement {
          assert HasLeaf(v, l);
        }
        PoliciesAgree(m[k], target, replacement);
      }
    case Slice(_, es) =>
      forall i | 0 <= i < |es|
        ensures Swap(es[i], target, replacement, AsWritten) == Swap(es[i], target, replacement, ValueEquality)
      {
        forall l | HasLeaf(es[i], l) && l.ty == target.ty ensures l == target || l == replacement {
          assert HasLeaf(v, l);
        }
        PoliciesAgree(es[i], target, replacement);
      }
    case Array(es) =>
      forall i | 0 <= i < |es|
        ensures Swap(es[i], target, replacement, AsWritten) == Swap(es[i], target, replacement, ValueEquality)
      {
        forall l | HasLeaf(es[i], l) && l.ty == target.ty ensures l == target || l == replacement {
          assert HasLeaf(v, l);
        }
        PoliciesAgree(es[i], target, replacement);
      }
    case Struct(fs) =>
      forall i | 0 <= i < |fs|
        ensures Swap(fs[i].val, target, replacement, AsWritten) == Swap(fs[i].val, target, replacement, ValueEquality)
      {
        forall l | HasLeaf(fs[i].val, l) && l.ty == target.ty ensures l == target || l == replacement {
          assert HasLeaf(v, l);
        }
        PoliciesAgree(fs[i].val, target, replacement);
      }
    case _ =>
  }
}
