/**
  The worked cases of the test driver: `x = var<double,0>(3)` and
  `y = var<double,1>(5)`, their product, and the two expressions built on it.
 */
module DriverCases {
  import opened IndexSet
  import opened Variables
  import opened Operators
  import opened Laws

  /** Merging `{0, 2}` with `{1, 2}` sorts the union and drops the repeated `2`. */
  lemma MergeExample()
    ensures Merge([0, 2], [1, 2]) == [0, 1, 2]
    ensures Merge([1, 2], [0, 2]) == [0, 1, 2]
  {
    var e: seq<nat> := [0, 1, 2];
    assert forall x :: x in e <==> x in [0, 2] || x in [1, 2];
    AscendingUnique(Merge([0, 2], [1, 2]), e);
    MergeCommutes([0, 2], [1, 2]);
  }

  /** A product of two seeds tracks the two indices in order. */
  lemma SeedProductIndices(p: real, q: real, i: nat, j: nat)
    requires i < j
    ensures Mul(Seed(p, i), Seed(q, j)).idx == [i, j]
  {
    var r, e := Mul(Seed(p, i), Seed(q, j)), Var(0.0, [i, j], [0.0, 0.0]);
    assert forall K :: Has(e.idx, K) <==> K == i || K == j;
    SameIndexSet(r, e);
  }

  /** Each seed contributes the other's primal as its derivative. */
  lemma SeedProductDerivative(p: real, q: real, i: nat, j: nat, K: nat)
    requires i < j
    ensures DerivativeOf(Mul(Seed(p, i), Seed(q, j)), K)
            == (if K == i then q else if K == j then p else 0.0)
  {
    ProductRule(Seed(p, i), Seed(q, j), K);
  }

  /** `x * y` at `x = 3`, `y = 5` tracks `{0, 1}` with gradient `(5, 3)`. */
  lemma ProductExample()
    ensures Mul(Seed(3.0, 0), Seed(5.0, 1)).idx == [0, 1]
    ensures DerivativeOf(Mul(Seed(3.0, 0), Seed(5.0, 1)), 0) == 5.0
    ensures DerivativeOf(Mul(Seed(3.0, 0), Seed(5.0, 1)), 1) == 3.0
  {
    SeedProductIndices(3.0, 5.0, 0, 1);
    SeedProductDerivative(3.0, 5.0, 0, 1, 0);
    SeedProductDerivative(3.0, 5.0, 0, 1, 1);
  }

  /** `(x * y) + y` at `x = 3`, `y = 5`: gradient `(5, 3 + 1)`. */
  lemma ProductPlusExample()
    ensures Add(Mul(Seed(3.0, 0), Seed(5.0, 1)), Seed(5.0, 1)).idx == [0, 1]
    ensures DerivativeOf(Add(Mul(Seed(3.0, 0), Seed(5.0, 1)), Seed(5.0, 1)), 0) == 5.0
    ensures DerivativeOf(Add(Mul(Seed(3.0, 0), Seed(5.0, 1)), Seed(5.0, 1)), 1) == 4.0
  {
    var xy, y := Mul(Seed(3.0, 0), Seed(5.0, 1)), Seed(5.0, 1);
    var r := Add(xy, y);
    SeedProductIndices(3.0, 5.0, 0, 1);
    SeedProductDerivative(3.0, 5.0, 0, 1, 0);
    SeedProductDerivative(3.0, 5.0, 0, 1, 1);
    var e := Var(0.0, [0, 1], [0.0, 0.0]);
    assert forall K :: Has(e.idx, K) <==> K == 0 || K == 1;
    SameIndexSet(r, e);
  }

  /** A value whose only non-zero derivative is a unit one with respect to `i`. */
  ghost predicate UnitAt(v: Var, i: nat)
    requires WellFormed(v)
  {
    forall K :: DerivativeOf(v, K) == (if K == i then 1.0 else 0.0)
  }

  /**
    The product of two values that each depend with unit slope on one
    distinct index: each index receives the other factor's primal.
   */
  lemma UnitProduct(a: Var, b: Var, i: nat, j: nat, K: nat)
    requires WellFormed(a) && WellFormed(b) && i != j
    requires UnitAt(a, i) && UnitAt(b, j)
    ensures DerivativeOf(Mul(a, b), K) == (if K == i then b.x else if K == j then a.x else 0.0)
  {
    ProductRule(a, b, K);
  }

  /** Shifting the first seed by a constant moves only the derivative with respect to the second. */
  lemma ShiftedSeedProduct(p: real, c: real, q: real, i: nat, j: nat, K: nat)
    requires i < j
    ensures DerivativeOf(Mul(AddScalar(Seed(p, i), c), Seed(q, j)), K)
            == (if K == i then q else if K == j then p + c else 0.0)
  {
    ShiftedSeedIsUnit(p, c, i);
    SeedIsUnit(q, j);
    UnitProduct(AddScalar(Seed(p, i), c), Seed(q, j), i, j, K);
  }

  lemma SeedIsUnit(p: real, i: nat)
    ensures UnitAt(Seed(p, i), i)
  {
  }

  /** `x + c` still depends with unit slope on `x`'s index, at primal `p + c`. */
  lemma ShiftedSeedIsUnit(p: real, c: real, i: nat)
    ensures WellFormed(AddScalar(Seed(p, i), c)) && AddScalar(Seed(p, i), c).x == p + c
    ensures UnitAt(AddScalar(Seed(p, i), c), i)
  {
  }

  /** `(x + 1) * y` at `x = 3`, `y = 5`: gradient `(5, 3 + 1)`. */
  lemma ShiftedProductExample()
    ensures DerivativeOf(Mul(AddScalar(Seed(3.0, 0), 1.0), Seed(5.0, 1)), 0) == 5.0
    ensures DerivativeOf(Mul(AddScalar(Seed(3.0, 0), 1.0), Seed(5.0, 1)), 1) == 4.0
  {
    ShiftedSeedProduct(3.0, 1.0, 5.0, 0, 1, 0);
    ShiftedSeedProduct(3.0, 1.0, 5.0, 0, 1, 1);
  }
}
