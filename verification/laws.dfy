/**
  Algebraic laws of the engine: how `+`, `*`, scalar promotion and `log`
  act on whole values, stated against the per-index derivative rules.
 */
module Laws {
  import opened IndexSet
  import opened Variables
  import opened Operators

  /** Two valid values tracking the same indices have the same index set. */
  lemma SameIndexSet(r: Var, s: Var)
    requires Valid(r) && Valid(s)
    requires forall K :: Has(r.idx, K) <==> Has(s.idx, K)
    ensures r.idx == s.idx
  {
    forall x
      ensures x in r.idx <==> x in s.idx
    {
      assert Has(r.idx, x) <==> Has(s.idx, x);
    }
    AscendingUnique(r.idx, s.idx);
  }

  // ------------------------------------------------------------------
  // Sum

  /** `a + b` and `b + a` are the same value: same union, same primal, same slots. */
  lemma AddCommutes(a: Var, b: Var)
    requires WellFormed(a) && WellFormed(b)
    ensures Add(a, b) == Add(b, a)
  {
    var r, s := Add(a, b), Add(b, a);
    SameIndexSet(r, s);
    ValidExtensionality(r, s);
  }

  /** Sums regroup freely. */
  lemma AddAssociates(a: Var, b: Var, c: Var)
    requires WellFormed(a) && WellFormed(b) && WellFormed(c)
    ensures Add(Add(a, b), c) == Add(a, Add(b, c))
  {
    var r, s := Add(Add(a, b), c), Add(a, Add(b, c));
    SameIndexSet(r, s);
    ValidExtensionality(r, s);
  }

  /** Adding a plain scalar to a valid value changes only the primal. */
  lemma AddScalarKeepsSlots(a: Var, c: real)
    requires Valid(a)
    ensures AddScalar(a, c) == a.(x := a.x + c)
    ensures ScalarAdd(c, a) == a.(x := c + a.x)
  {
    var r, s := AddScalar(a, c), ScalarAdd(c, a);
    SameIndexSet(r, a);
    SameIndexSet(s, a);
    ValidExtensionality(r, a.(x := a.x + c));
    ValidExtensionality(s, a.(x := c + a.x));
  }

  /**
    Promoting a plain scalar adds no index: a valid value combined with a
    scalar keeps exactly its own index set, under either operator and from
    either side.
   */
  lemma ScalarKeepsIndexSet(a: Var, c: real)
    requires Valid(a)
    ensures AddScalar(a, c).idx == a.idx && ScalarAdd(c, a).idx == a.idx
    ensures MulScalar(a, c).idx == a.idx && ScalarMul(c, a).idx == a.idx
  {
    SameIndexSet(AddScalar(a, c), a);
    SameIndexSet(ScalarAdd(c, a), a);
    SameIndexSet(MulScalar(a, c), a);
    SameIndexSet(ScalarMul(c, a), a);
  }

  // ------------------------------------------------------------------
  // Product

  /** The product rule: `d(a * b) = da * b + db * a` for every index, tracked or not. */
  lemma ProductRule(a: Var, b: Var, K: nat)
    requires WellFormed(a) && WellFormed(b)
    ensures DerivativeOf(Mul(a, b), K) == DerivativeOf(a, K) * b.x + DerivativeOf(b, K) * a.x
  {
    ProductSlotRule(a, b, K);
  }

  lemma ProductSlotRule(a: Var, b: Var, K: nat)
    requires WellFormed(a) && WellFormed(b)
    ensures ProductSlot(a, b, K) == DerivativeOf(a, K) * b.x + DerivativeOf(b, K) * a.x
  {
  }

  /** `a * b` and `b * a` are the same value. */
  lemma MulCommutes(a: Var, b: Var)
    requires WellFormed(a) && WellFormed(b)
    ensures Mul(a, b) == Mul(b, a)
  {
    var r, s := Mul(a, b), Mul(b, a);
    SameIndexSet(r, s);
    ValidExtensionality(r, s);
  }

  // ------------------------------------------------------------------
  // log

  /** `log` of a valid value divides every slot by the primal, in place. */
  lemma LogDividesSlots(a: Var, ln: real -> real)
    requires Valid(a) && a.x != 0.0
    ensures forall p :: 0 <= p < |a.d| ==> Log(a, ln).d[p] == a.d[p] / a.x
  {
    var r := Log(a, ln);
    LogSlotsFollowDerivatives(a, r);
  }

  lemma LogSlotsFollowDerivatives(a: Var, r: Var)
    requires Valid(a) && WellFormed(r) && r.idx == a.idx && a.x != 0.0
    requires forall K :: DerivativeOf(r, K) == DerivativeOf(a, K) / a.x
    ensures forall p :: 0 <= p < |a.d| ==> r.d[p] == a.d[p] / a.x
  {
    forall p | 0 <= p < |a.d|
      ensures r.d[p] == a.d[p] / a.x
    {
      GetReadsPosition(a, a.idx[p], p);
      GetReadsPosition(r, a.idx[p], p);
      assert DerivativeOf(r, a.idx[p]) == DerivativeOf(a, a.idx[p]) / a.x;
    }
  }

  /**
    `log` of a hand-written `var<T, k, k>`: both visits of `k` add into the
    first slot, and the second slot keeps its default zero.
   */
  lemma LogRepeatedPack(k: nat, x: real, d0: real, d1: real, ln: real -> real)
    requires x != 0.0
    ensures Log(Var(x, [k, k], [d0, d1]), ln).d == [d0 / x + d0 / x, 0.0]
  {
    var a := Var(x, [k, k], [d0, d1]);
    var r := Log(a, ln);
    CountLessNoneBelow(a.idx, k);
    assert Has(a.idx, k) && Index(a.idx, k) == 0;
    assert multiset(a.idx)[k] == 2;
    assert Repeat(1, d0 / x) == d0 / x;
    assert Repeat(2, d0 / x) == d0 / x + d0 / x;
    assert r.d[0] == DerivativeOf(r, k);
    assert forall K :: K in a.idx ==> Index(a.idx, K) != 1;
  }
}
