/** The cases of deepswap_test.go:16-150, each a call DeepSwap(src, 1, 2) with
    `int` target and replacement, stated about the model. The argument is the
    value it holds: `toInterface(x)` (helpers.go:7-9) returns `x` as an `any`,
    which reflect.ValueOf looks through, so it is modelled as `x` itself. */
module Scenarios {
  import opened Values
  import opened Swapping
  import opened SwapLemmas

  const IntType := ScalarType(Int, "")
  const StringType := ScalarType(String, "")

  function IntOf(n: int): Scalar { Scalar(IntType, IntVal(n)) }
  function IntLeaf(n: int): Value { Leaf(IntOf(n)) }

  /** The call every test case makes, as written. */
  function SwapOneForTwo(v: Value): Value { Swap(v, IntOf(1), IntOf(2), AsWritten) }

  /** deepswap_test.go:16-23 */
  lemma ScalarScenario()
    ensures SwapOneForTwo(IntLeaf(1)) == IntLeaf(2)
  {
  }

  /** deepswap_test.go:24-47: a pointer, a pointer to a nil pointer, and a
      pointer to a pointer. */
  lemma PointerScenarios()
    ensures SwapOneForTwo(Ptr(IntLeaf(1))) == Ptr(IntLeaf(2))
    ensures SwapOneForTwo(Ptr(NilPtr)) == Ptr(NilPtr)
    ensures SwapOneForTwo(Ptr(Ptr(IntLeaf(1)))) == Ptr(Ptr(IntLeaf(2)))
  {
  }

  /** deepswap_test.go:48-63: `toInterface(1)` and `toInterface(toPointer(1))`
      are the arguments `1` and `&1`, and come back as `2` and `&2`. */
  lemma InterfaceScenarios()
    ensures SwapOneForTwo(IntLeaf(1)) == IntLeaf(2)
    ensures SwapOneForTwo(Ptr(IntLeaf(1))) == Ptr(IntLeaf(2))
  {
  }

  /** deepswap_test.go:64-76: keys 1, 2 and 4 are kept; every value becomes 2. */
  lemma MapScenario()
    ensures SwapOneForTwo(Map(map[IntLeaf(1) := IntLeaf(1), IntLeaf(2) := IntLeaf(2), IntLeaf(4) := IntLeaf(1)]))
         == Map(map[IntLeaf(1) := IntLeaf(2), IntLeaf(2) := IntLeaf(2), IntLeaf(4) := IntLeaf(2)])
  {
    var m := map[IntLeaf(1) := IntLeaf(1), IntLeaf(2) := IntLeaf(2), IntLeaf(4) := IntLeaf(1)];
    assert (map k | k in m :: SwapOneForTwo(m[k]))
        == map[IntLeaf(1) := IntLeaf(2), IntLeaf(2) := IntLeaf(2), IntLeaf(4) := IntLeaf(2)];
  }

  /** deepswap_test.go:77-94: the slice []int{1, 1, 1} and the array [...]int{1, 1, 1}. */
  lemma SliceAndArrayScenarios()
    ensures SwapOneForTwo(Slice(3, [IntLeaf(1), IntLeaf(1), IntLeaf(1)])) == Slice(3, [IntLeaf(2), IntLeaf(2), IntLeaf(2)])
    ensures SwapOneForTwo(Array([IntLeaf(1), IntLeaf(1), IntLeaf(1)])) == Array([IntLeaf(2), IntLeaf(2), IntLeaf(2)])
  {
  }

  /** A struct whose fields swap to the given values swaps to the struct of
      those values under the same names. */
  lemma StructSwapsTo(fs: seq<Field>, policy: Policy, expected: seq<Field>)
    requires |expected| == |fs|
    requires forall i | 0 <= i < |fs| ::
      expected[i].name == fs[i].name && Swap(fs[i].val, IntOf(1), IntOf(2), policy) == expected[i].val
    ensures Swap(Struct(fs), IntOf(1), IntOf(2), policy) == Struct(expected)
  {
    var r := Swap(Struct(fs), IntOf(1), IntOf(2), policy);
    assert |r.fields| == |fs|;
    forall i | 0 <= i < |fs| ensures r.fields[i] == expected[i] {
      assert r.fields[i] == Field(fs[i].name, Swap(fs[i].val, IntOf(1), IntOf(2), policy));
    }
    assert r.fields == expected;
  }

  /** deepswap_test.go:95-103: struct{ X int } */
  lemma IntFieldScenario()
    ensures SwapOneForTwo(Struct([Field("X", IntLeaf(1))])) == Struct([Field("X", IntLeaf(2))])
  {
    assert SwapOneForTwo(IntLeaf(1)) == IntLeaf(2);
    StructSwapsTo([Field("X", IntLeaf(1))], AsWritten, [Field("X", IntLeaf(2))]);
  }

  /** deepswap_test.go:104-112: struct{ X *int } */
  lemma PointerFieldScenario()
    ensures SwapOneForTwo(Struct([Field("X", Ptr(IntLeaf(1)))])) == Struct([Field("X", Ptr(IntLeaf(2)))])
  {
    assert SwapOneForTwo(Ptr(IntLeaf(1))) == Ptr(IntLeaf(2));
    StructSwapsTo([Field("X", Ptr(IntLeaf(1)))], AsWritten, [Field("X", Ptr(IntLeaf(2)))]);
  }

  /** deepswap_test.go:113-123: struct{ X []int }, passed through toInterface */
  lemma SliceFieldScenario()
    ensures SwapOneForTwo(Struct([Field("X", Slice(2, [IntLeaf(1), IntLeaf(1)]))]))
         == Struct([Field("X", Slice(2, [IntLeaf(2), IntLeaf(2)]))])
  {
    assert SwapOneForTwo(Slice(2, [IntLeaf(1), IntLeaf(1)])) == Slice(2, [IntLeaf(2), IntLeaf(2)]);
    StructSwapsTo([Field("X", Slice(2, [IntLeaf(1), IntLeaf(1)]))], AsWritten, [Field("X", Slice(2, [IntLeaf(2), IntLeaf(2)]))]);
  }

  /** The struct value of deepswap_test.go:124-137, with `A` a string, `B` an
      int, `C` a pointer, `D` a slice and `E` a nil map. */
  function Record(a: string, b: Value, c: Value, d: Value): Value
  {
    Struct([
      Field("A", Leaf(Scalar(StringType, StrVal(a)))),
      Field("B", b), Field("C", c), Field("D", d),
      Field("E", NilMap)])
  }

  /** deepswap_test.go:124-150: the string field survives, every int becomes 2,
      the nil map stays nil, under either policy. */
  lemma RecordScenario(policy: Policy)
    ensures Swap(Record("x", IntLeaf(1), Ptr(IntLeaf(1)), Slice(2, [IntLeaf(1), IntLeaf(1)])), IntOf(1), IntOf(2), policy)
         == Record("x", IntLeaf(2), Ptr(IntLeaf(2)), Slice(2, [IntLeaf(2), IntLeaf(2)]))
  {
    var before := Record("x", IntLeaf(1), Ptr(IntLeaf(1)), Slice(2, [IntLeaf(1), IntLeaf(1)]));
    var after := Record("x", IntLeaf(2), Ptr(IntLeaf(2)), Slice(2, [IntLeaf(2), IntLeaf(2)]));
    OtherTypeScalarKept(Scalar(StringType, StrVal("x")), IntOf(1), IntOf(2), policy);
    assert Swap(IntLeaf(1), IntOf(1), IntOf(2), policy) == IntLeaf(2);
    assert Swap(Ptr(IntLeaf(1)), IntOf(1), IntOf(2), policy) == Ptr(IntLeaf(2));
    assert Swap(Slice(2, [IntLeaf(1), IntLeaf(1)]), IntOf(1), IntOf(2), policy) == Slice(2, [IntLeaf(2), IntLeaf(2)]);
    assert Swap(NilMap, IntOf(1), IntOf(2), policy) == NilMap;
    StructSwapsTo(before.fields, policy, after.fields);
  }
}
