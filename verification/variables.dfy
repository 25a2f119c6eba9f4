/**
  The differentiable value `var<T, I...>` with `T` fixed to `real`.

  A value holds a primal `x` and a derivative vector `d` with one slot per
  entry of its index set `idx`; the derivative with respect to a tracked
  index `K` lives in slot `Index(idx, K)`, the rank of `K`.
 */
module Variables {
  import opened IndexSet

  datatype Var = Var(x: real, idx: seq<nat>, d: seq<real>)

  /** `std::array<T, sizeof...(I)>`: one slot per entry of the pack. Every `var` has this shape. */
  predicate WellFormed(v: Var) {
    |v.d| == |v.idx|
  }

  /** The shape every value the engine derives has: its index set is strictly ascending. */
  predicate Valid(v: Var) {
    WellFormed(v) && StrictlyAscending(v.idx)
  }

  /** The operand of a free function that may be a `var` or any plain scalar. */
  datatype Operand = Plain(c: real) | Dual(v: Var)

  // ------------------------------------------------------------------
  // Slot access

  /** `get<J>()`: only callable for a tracked index; the rank lemmas keep it in range. */
  function Get(v: Var, J: nat): real
    requires WellFormed(v) && Has(v.idx, J)
  {
    v.d[Index(v.idx, J)]
  }

  /**
    For a strictly ascending index set, `get<J>` reads the slot at `J`'s
    position, and that slot is within the derivative array.
   */
  lemma GetReadsPosition(v: Var, J: nat, p: nat)
    requires Valid(v) && p < |v.idx| && v.idx[p] == J
    ensures Has(v.idx, J) && Index(v.idx, J) == p && Get(v, J) == v.d[p]
  {
    RankOfAscending(v.idx, p);
  }

  /**
    The guarded read every engine performs, `if constexpr (has<K>) ... get<K>()`:
    the stored slot when `K` is tracked, and no contribution otherwise.
   */
  function DerivativeOf(v: Var, K: nat): real
    requires WellFormed(v)
  {
    if Has(v.idx, K) then Get(v, K) else 0.0
  }

  /**
    Free `index<J, T>`: the sentinel for any type other than `var`; for a
    `var`, the count of smaller tracked indices when `J` is tracked (in any
    pack) and the sentinel otherwise.
   */
  function FreeIndex(J: nat, o: Operand): (r: nat)
    ensures o.Plain? ==> r == NPos
    ensures o.Dual? ==>
              (Has(o.v.idx, J) ==> r < |o.v.idx| && r == |PositionsBelow(o.v.idx, J)|)
              && (!Has(o.v.idx, J) ==> r == NPos)
    ensures o.Dual? && StrictlyAscending(o.v.idx) && J in o.v.idx ==> o.v.idx[r] == J
  {
    match o
    case Plain(_) => NPos
    case Dual(v) =>
      RankReadsBack(v.idx, J);
      CountLessCountsPositions(v.idx, J);
      Index(v.idx, J)
  }

  // ------------------------------------------------------------------
  // Construction

  /** `var() = default`: primal and every slot value-initialised to zero. */
  function Default(idx: seq<nat>): (v: Var)
    ensures WellFormed(v) && v.idx == idx && v.x == 0.0
    ensures forall p :: 0 <= p < |v.d| ==> v.d[p] == 0.0
    ensures forall K :: DerivativeOf(v, K) == 0.0
  {
    Var(0.0, idx, seq(|idx|, _ => 0.0))
  }

  /** `var(x)` with no tracked indices, also what the deduction guide `var(T) -> var<T>` builds. */
  function Constant(x: real): (v: Var)
    ensures Valid(v) && v.x == x
    ensures forall K :: !Has(v.idx, K)
    ensures forall K :: DerivativeOf(v, K) == 0.0
  {
    Var(x, [], [])
  }

  /** `var<T, I>(x)` and `mkvar<I>(x)`: an independent variable seeded with unit derivative. */
  function Seed(x: real, i: nat): (v: Var)
    ensures Valid(v) && v.x == x && v.idx == [i]
    ensures DerivativeOf(v, i) == 1.0
    ensures forall K :: K != i ==> DerivativeOf(v, K) == 0.0
  {
    Var(x, [i], [1.0])
  }

  /** Scalar promotion: a plain operand becomes a constant, a `var` is copied. */
  function Promote(o: Operand): (v: Var)
    requires o.Dual? ==> WellFormed(o.v)
    ensures WellFormed(v)
    ensures o.Plain? ==> v.x == o.c && v.idx == []
    ensures o.Dual? ==> v == o.v
  {
    match o
    case Plain(c) => Constant(c)
    case Dual(v) => v
  }

  /** `merge_var_types(a, b)`: a default value over the sorted union of the index sets. */
  function MergeVarTypes(a: Var, b: Var): (v: Var)
    ensures Valid(v) && v.x == 0.0
    ensures forall K :: Has(v.idx, K) <==> Has(a.idx, K) || Has(b.idx, K)
    ensures |v.idx| <= |a.idx| + |b.idx|
    ensures forall K :: DerivativeOf(v, K) == 0.0
  {
    Default(Merge(a.idx, b.idx))
  }

  /**
    The overload of `merge_var_types` for arbitrary operands: each is
    promoted through `var(...)` first, so a plain scalar contributes nothing.
   */
  function MergeOperands(a: Operand, b: Operand): (v: Var)
    requires a.Dual? ==> WellFormed(a.v)
    requires b.Dual? ==> WellFormed(b.v)
    ensures Valid(v) && v.x == 0.0
    ensures forall K :: Has(v.idx, K) <==> (a.Dual? && Has(a.v.idx, K)) || (b.Dual? && Has(b.v.idx, K))
    ensures forall K :: DerivativeOf(v, K) == 0.0
  {
    MergeVarTypes(Promote(a), Promote(b))
  }

  // ------------------------------------------------------------------
  // compute_derivatives

  /** `x` added to zero `n` times, as `n` visits of one slot each add `x`. */
  function Repeat(n: nat, x: real): real
  {
    if n == 0 then 0.0 else Repeat(n - 1, x) + x
  }

  /**
    Visit the indices `ks` in order and, for each `K`, add `f(K)` into the
    slot of `K` in `d` — the lambda each operator passes to
    `compute_derivatives` writes `v.get<K>() += ...`.
   */
  function Accumulate(idx: seq<nat>, ks: seq<nat>, d: seq<real>, f: nat -> real): (r: seq<real>)
    requires |d| == |idx|
    requires forall k :: k in ks ==> k in idx
    ensures |r| == |idx|
    decreases |ks|
  {
    if |ks| == 0 then d
    else
      var p := Index(idx, ks[0]);
      Accumulate(idx, ks[1..], d[p := d[p] + f(ks[0])], f)
  }

  /** `v.compute_derivatives(f)`: run `f` once for each index in `v`'s pack, in pack order. */
  function ComputeDerivatives(v: Var, f: nat -> real): (r: Var)
    requires WellFormed(v)
    ensures WellFormed(r) && r.x == v.x && r.idx == v.idx
  {
    v.(d := Accumulate(v.idx, v.idx, v.d, f))
  }

  /**
    Each visit of an index `K` adds `f(K)` to `K`'s own slot and to no
    other: after visiting `ks`, the slot of a tracked `K` grew by `f(K)`
    times the number of occurrences of `K` in `ks`.
   */
  lemma {:induction false} AccumulateSlot(idx: seq<nat>, ks: seq<nat>, d: seq<real>, f: nat -> real, K: nat)
    requires |d| == |idx|
    requires forall k :: k in ks ==> k in idx
    requires K in idx
    ensures Accumulate(idx, ks, d, f)[Index(idx, K)]
            == d[Index(idx, K)] + Repeat(multiset(ks)[K], f(K))
    decreases |ks|
  {
    if |ks| > 0 {
      var k0: nat, rest: seq<nat> := ks[0], ks[1..];
      var p := Index(idx, k0);
      var q := Index(idx, K);
      var d' := d[p := d[p] + f(k0)];
      assert forall k :: k in rest ==> k in ks;
      AccumulateSlot(idx, rest, d', f, K);
      assert Accumulate(idx, ks, d, f) == Accumulate(idx, rest, d', f);
      assert multiset(ks) == multiset{k0} + multiset(rest) by {
        assert ks == [k0] + rest;
      }
      if k0 == K {
        assert d'[q] == d[q] + f(K);
      } else {
        IndexInjective(idx, k0, K);
        assert d'[q] == d[q];
      }
    }
  }

  /** A slot that is not the rank of any visited index keeps its value. */
  lemma {:induction false} AccumulateUntouched(idx: seq<nat>, ks: seq<nat>, d: seq<real>, f: nat -> real, p: nat)
    requires |d| == |idx|
    requires forall k :: k in ks ==> k in idx
    requires p < |d|
    requires forall k :: k in ks ==> Index(idx, k) != p
    ensures Accumulate(idx, ks, d, f)[p] == d[p]
    decreases |ks|
  {
    if |ks| > 0 {
      var q := Index(idx, ks[0]);
      var d' := d[q := d[q] + f(ks[0])];
      assert forall k :: k in ks[1..] ==> k in ks;
      AccumulateUntouched(idx, ks[1..], d', f, p);
    }
  }

  /**
    `compute_derivatives` writes only through `get<K>()` for the indices of
    the pack: a slot that no index of the pack ranks to is left as it was.
    Only a pack with repeats has such slots.
   */
  lemma ComputeDerivativesUntouched(v: Var, f: nat -> real)
    requires WellFormed(v)
    ensures forall p :: 0 <= p < |v.d| && (forall K :: K in v.idx ==> Index(v.idx, K) != p) ==>
              ComputeDerivatives(v, f).d[p] == v.d[p]
  {
    forall p | 0 <= p < |v.d| && (forall K :: K in v.idx ==> Index(v.idx, K) != p)
      ensures ComputeDerivatives(v, f).d[p] == v.d[p]
    {
      AccumulateUntouched(v.idx, v.idx, v.d, f, p);
    }
  }

  /**
    `compute_derivatives` adds `f(K)` into the slot of each tracked `K` once
    per occurrence of `K` in the pack and leaves untracked indices without a
    derivative, so over a strictly ascending pack each tracked index is
    visited exactly once.
   */
  lemma ComputeDerivativesRule(v: Var, f: nat -> real)
    requires WellFormed(v)
    ensures forall K :: DerivativeOf(ComputeDerivatives(v, f), K)
                        == DerivativeOf(v, K) + Repeat(multiset(v.idx)[K], f(K))
  {
    forall K
      ensures DerivativeOf(ComputeDerivatives(v, f), K)
              == DerivativeOf(v, K) + Repeat(multiset(v.idx)[K], f(K))
    {
      ComputeDerivativesAt(v, f, K);
    }
  }

  /** Over a strictly ascending pack each tracked index is visited exactly once. */
  lemma ComputeDerivativesOnce(v: Var, f: nat -> real)
    requires Valid(v)
    ensures forall K :: DerivativeOf(ComputeDerivatives(v, f), K)
                        == DerivativeOf(v, K) + (if Has(v.idx, K) then f(K) else 0.0)
  {
    forall K
      ensures DerivativeOf(ComputeDerivatives(v, f), K)
              == DerivativeOf(v, K) + (if Has(v.idx, K) then f(K) else 0.0)
    {
      ComputeDerivativesAt(v, f, K);
      if K in v.idx {
        AscendingOccursOnce(v.idx, K);
      }
    }
  }

  lemma ComputeDerivativesAt(v: Var, f: nat -> real, K: nat)
    requires WellFormed(v)
    ensures DerivativeOf(ComputeDerivatives(v, f), K)
            == DerivativeOf(v, K) + Repeat(multiset(v.idx)[K], f(K))
  {
    if K in v.idx {
      AccumulateSlot(v.idx, v.idx, v.d, f, K);
    } else {
      assert multiset(v.idx)[K] == 0;
    }
  }

  /** Over a strictly ascending pack, slot `p` receives exactly `f(idx[p])`. */
  lemma VisitsEachIndexOnce(v: Var, f: nat -> real)
    requires Valid(v)
    ensures forall p :: 0 <= p < |v.d| ==>
              ComputeDerivatives(v, f).d[p] == v.d[p] + f(v.idx[p])
  {
    IndexBijection(v.idx);
    forall p | 0 <= p < |v.d|
      ensures ComputeDerivatives(v, f).d[p] == v.d[p] + f(v.idx[p])
    {
      AccumulateSlot(v.idx, v.idx, v.d, f, v.idx[p]);
      AscendingOccursOnce(v.idx, v.idx[p]);
    }
  }

  /**
    Two valid values with the same primal, the same index set and the same
    derivative for every index are the same value.
   */
  lemma ValidExtensionality(a: Var, b: Var)
    requires Valid(a) && Valid(b)
    requires a.x == b.x && a.idx == b.idx
    requires forall K :: DerivativeOf(a, K) == DerivativeOf(b, K)
    ensures a == b
  {
    forall p | 0 <= p < |a.d|
      ensures a.d[p] == b.d[p]
    {
      assert DerivativeOf(a, a.idx[p]) == DerivativeOf(b, a.idx[p]);
      GetReadsPosition(a, a.idx[p], p);
      GetReadsPosition(b, a.idx[p], p);
    }
  }
}
