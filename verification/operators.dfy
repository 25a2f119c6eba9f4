/**
  The operator engines: `operator+` and `operator*` on two values or a value
  and a plain scalar, and `log` of a value.

  A binary operator builds a default value over the merged index set, sets
  its primal, and lets `compute_derivatives` add into each slot the
  contribution of every operand that tracks that index. A scalar operand is
  promoted to a value with no tracked indices first.
 */
module Operators {
  import opened IndexSet
  import opened Variables

  // ------------------------------------------------------------------
  // The per-index updates each operator hands to compute_derivatives

  /** `operator+`: `v.get<K>() += a.get<K>()` and `+= b.get<K>()`, each only when that operand tracks `K`. */
  function SumSlot(a: Var, b: Var, K: nat): real
    requires WellFormed(a) && WellFormed(b)
  {
    (if Has(a.idx, K) then Get(a, K) else 0.0) + (if Has(b.idx, K) then Get(b, K) else 0.0)
  }

  /** `operator*`: `a.get<K>() * b.x` and `b.get<K>() * a.x`, each only when that operand tracks `K`. */
  function ProductSlot(a: Var, b: Var, K: nat): real
    requires WellFormed(a) && WellFormed(b)
  {
    (if Has(a.idx, K) then Get(a, K) * b.x else 0.0) + (if Has(b.idx, K) then Get(b, K) * a.x else 0.0)
  }

  /** `log`: `a.get<K>() / a.x`; the pack of the result is `a`'s, so `K` is always tracked. */
  function LogSlot(a: Var, K: nat): real
    requires WellFormed(a) && a.x != 0.0
  {
    if Has(a.idx, K) then Get(a, K) / a.x else 0.0
  }

  // ------------------------------------------------------------------
  // operator+

  /** `operator+(var, var)`: the sum rule, slot by slot over the union of the index sets. */
  function Add(a: Var, b: Var): (r: Var)
    requires WellFormed(a) && WellFormed(b)
    ensures Valid(r)
    ensures forall K :: Has(r.idx, K) <==> Has(a.idx, K) || Has(b.idx, K)
    ensures r.x == a.x + b.x
    ensures forall K :: DerivativeOf(r, K) == DerivativeOf(a, K) + DerivativeOf(b, K)
  {
    var v := MergeVarTypes(a, b).(x := a.x + b.x);
    var f := (K: nat) => SumSlot(a, b, K);
    ComputeDerivativesOnce(v, f);
    ComputeDerivatives(v, f)
  }

  /** `operator+(var, B)`: the scalar is promoted through `var(b)`. */
  function AddScalar(a: Var, c: real): (r: Var)
    requires WellFormed(a)
    ensures Valid(r) && r.x == a.x + c
    ensures forall K :: Has(r.idx, K) <==> Has(a.idx, K)
    ensures forall K :: DerivativeOf(r, K) == DerivativeOf(a, K)
  {
    Add(a, Constant(c))
  }

  /** `operator+(A, var)`: the scalar is promoted through `var(a)`. */
  function ScalarAdd(c: real, b: Var): (r: Var)
    requires WellFormed(b)
    ensures Valid(r) && r.x == c + b.x
    ensures forall K :: Has(r.idx, K) <==> Has(b.idx, K)
    ensures forall K :: DerivativeOf(r, K) == DerivativeOf(b, K)
  {
    Add(Constant(c), b)
  }

  // ------------------------------------------------------------------
  // operator*

  /**
    `operator*(var, var)`: each slot of the merged set receives
    `[K in a] * da_K * b.x + [K in b] * db_K * a.x`.
   */
  function Mul(a: Var, b: Var): (r: Var)
    requires WellFormed(a) && WellFormed(b)
    ensures Valid(r)
    ensures forall K :: Has(r.idx, K) <==> Has(a.idx, K) || Has(b.idx, K)
    ensures r.x == a.x * b.x
    ensures forall K :: DerivativeOf(r, K) == ProductSlot(a, b, K)
  {
    var v := MergeVarTypes(a, b).(x := a.x * b.x);
    var f := (K: nat) => ProductSlot(a, b, K);
    ComputeDerivativesOnce(v, f);
    ComputeDerivatives(v, f)
  }

  /** A factor that tracks nothing scales the other factor's contribution by its primal. */
  lemma ScaledSlot(a: Var, k: Var, c: real, K: nat)
    requires WellFormed(a) && k.idx == [] && k.d == [] && k.x == c
    ensures ProductSlot(a, k, K) == DerivativeOf(a, K) * c
    ensures ProductSlot(k, a, K) == DerivativeOf(a, K) * c
  {
  }

  /** `operator*(var, B)`: the scalar is promoted through `var(b)`. */
  function MulScalar(a: Var, c: real): (r: Var)
    requires WellFormed(a)
    ensures Valid(r) && r.x == a.x * c
    ensures forall K :: Has(r.idx, K) <==> Has(a.idx, K)
    ensures forall K :: DerivativeOf(r, K) == DerivativeOf(a, K) * c
  {
    var k := Constant(c);
    forall K
      ensures DerivativeOf(Mul(a, k), K) == DerivativeOf(a, K) * c
    {
      ScaledSlot(a, k, c, K);
    }
    Mul(a, k)
  }

  /** `operator*(A, var)`: the scalar is promoted through `var(a)`. */
  function ScalarMul(c: real, b: Var): (r: Var)
    requires WellFormed(b)
    ensures Valid(r) && r.x == c * b.x
    ensures forall K :: Has(r.idx, K) <==> Has(b.idx, K)
    ensures forall K :: DerivativeOf(r, K) == DerivativeOf(b, K) * c
  {
    var k := Constant(c);
    forall K
      ensures DerivativeOf(Mul(k, b), K) == DerivativeOf(b, K) * c
    {
      ScaledSlot(b, k, c, K);
    }
    Mul(k, b)
  }

  // ------------------------------------------------------------------
  // log

  /**
    `log(var)`: the index set is kept as it is and each slot is divided by
    the primal. The primal itself is the caller-supplied natural logarithm
    `ln`. A tracked index that occurs more than once in a hand-written pack
    is visited once per occurrence, and the surplus slots of such a pack,
    which no index ranks to, keep their default zero.
   */
  function Log(a: Var, ln: real -> real): (r: Var)
    requires WellFormed(a) && a.x != 0.0
    ensures WellFormed(r) && r.idx == a.idx && r.x == ln(a.x)
    ensures forall K :: DerivativeOf(r, K) == Repeat(multiset(a.idx)[K], DerivativeOf(a, K) / a.x)
    ensures StrictlyAscending(a.idx) ==> forall K :: DerivativeOf(r, K) == DerivativeOf(a, K) / a.x
    ensures forall p :: 0 <= p < |r.d| && (forall K :: K in a.idx ==> Index(a.idx, K) != p) ==> r.d[p] == 0.0
  {
    var v := Default(a.idx).(x := ln(a.x));
    var f := (K: nat) => LogSlot(a, K);
    ComputeDerivativesRule(v, f);
    ComputeDerivativesUntouched(v, f);
    var r := ComputeDerivatives(v, f);
    forall K
      ensures DerivativeOf(r, K) == Repeat(multiset(a.idx)[K], DerivativeOf(a, K) / a.x)
      ensures StrictlyAscending(a.idx) ==> DerivativeOf(r, K) == DerivativeOf(a, K) / a.x
    {
      assert f(K) == LogSlot(a, K) == DerivativeOf(a, K) / a.x;
      assert DerivativeOf(v, K) == 0.0;
      if StrictlyAscending(a.idx) {
        if K in a.idx {
          AscendingOccursOnce(a.idx, K);
        } else {
          assert DerivativeOf(a, K) == 0.0;
        }
      }
    }
    r
  }
}
