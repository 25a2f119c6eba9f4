# Sparse forward-mode automatic differentiation, modelled in Dafny

This project models the forward-mode automatic-differentiation engine of
`ivan::autodiff`. A differentiable value `var<T, I...>` carries a primal `x`
and a derivative array `d`. The array has one slot for each independent-variable
index in the pack `I...`. The derivative with respect to a tracked index `J`
sits in slot `index<J>`, the number of tracked indices smaller than `J`.

The operators work the same way:
- `operator+` and `operator*` build a zero value over the sorted, duplicate-free
  union of their operands' index sets (`merge_var_types`).
- They set the primal.
- Then `compute_derivatives` visits every index of the result. For each one,
  each operand that tracks the index adds its contribution.
- A plain scalar operand is first promoted to a value that tracks nothing.
- `log` keeps its operand's pack exactly as written. Over a strictly ascending pack it divides every slot by the primal. For a repeated pack, see the `Operators.Log` row.

In the model, `T` is `real`, so arithmetic is exact. The compile-time index
packs become run-time `seq<nat>` values. Template constraints such as
`requires (has<J>)` become preconditions.

Modules:

- `IndexSet` (`index_set.dfy`) covers three parts of the header:
  - membership `has` (`Has`);
  - rank `index` (`Index`, with the sentinel `NPos`, which is `size_t(-1)`);
  - the index-set half of `merge_var_types` (`Merge`). Concatenation is followed by `Sort`, standing in for `std::sort`, and `Unique`, for `std::unique`.
- `Variables` (`variables.dfy`) covers five parts:
  - the value `Var(x, idx, d)`;
  - its shape predicates `WellFormed` (`|d| == |idx|`) and `Valid` (also strictly ascending);
  - the accessor `get`;
  - the constructors and the free `index`;
  - `merge_var_types` and `compute_derivatives`.
- `Operators` (`operators.dfy`) holds `+`, `*` and `log`, with the scalar overloads.
- `Laws` (`laws.dfy`) states algebraic laws of whole values. These are the product rule, commutativity, associativity of `+`, and the effect of scalar operands and of `log` on the slots.
- `DriverCases` (`driver_cases.dfy`) works through the three expressions of the demonstration driver at `x = 3`, `y = 5`.

The header lets a caller spell any pack by hand, such as `var<T,1,0>` or
`var<T,0,0>`. So every operation requires only `WellFormed`, not `Valid`:
- Ranks of distinct indices are distinct even in unsorted or repeated packs (`IndexInjective`).
- `compute_derivatives` adds into a slot once per occurrence of its index in the pack (`ComputeDerivativesRule`).
- Over a strictly ascending pack, each slot is visited exactly once. Every result of `+` and `*` is strictly ascending; `log` keeps its operand's pack.

## Model

| member | source | states |
|---|---|---|
| IndexSet.Has | include/autodiff.hh:25-26 | `has<J>` holds exactly when `J` occurs in the pack |
| IndexSet.Index | include/autodiff.hh:28-29 | the rank of a tracked index lies inside the derivative array; an untracked index gets the sentinel `size_t(-1)` |
| IndexSet.CountLessCountsPositions | include/autodiff.hh:29 | the fold `((I < J) + ...)` equals the number of pack positions holding an index below `J`, for a pack in any order and with any repeats |
| IndexSet.IndexInjective | include/autodiff.hh:28-34 | two distinct tracked indices never share a slot, whatever the order of the pack and even with repeats |
| IndexSet.RankOfAscending | include/autodiff.hh:28-29 | in a strictly ascending set, the element at position `p` has exactly `p` tracked indices below it |
| IndexSet.IndexBijection | include/autodiff.hh:28-34 | for a strictly ascending set, `index` maps the tracked indices one-to-one onto `[0, n)` and is inverse to reading the set at a position |
| IndexSet.AscendingOccursOnce | include/autodiff.hh:36-40 | a tracked index of a strictly ascending pack occurs in it exactly once |
| IndexSet.Sort | include/autodiff.hh:55-56 | the sorted array is ordered and is a permutation of its input |
| IndexSet.Unique | include/autodiff.hh:57-60 | collapsing runs of equal neighbours keeps exactly the same elements, never lengthens, and turns a sorted array into a strictly ascending one |
| IndexSet.Merge | include/autodiff.hh:51-65 | the merged index set is strictly ascending, holds exactly the indices of either operand, and is no longer than both together |
| IndexSet.AscendingUnique | include/autodiff.hh:54-61 | a strictly ascending sequence is determined by its elements, so the merged set is the only possible result |
| IndexSet.MergeCommutes | include/autodiff.hh:51-65 | the merged set does not depend on which operand comes first |
| IndexSet.MergeAssociates | include/autodiff.hh:51-65 | merging three sets gives the same set in either grouping |
| IndexSet.MergeWithEmpty | include/autodiff.hh:67-70 | merging a strictly ascending set with the empty set of a promoted scalar, on either side, returns it unchanged |
| IndexSet.MergeIdempotent | include/autodiff.hh:51-65 | a strictly ascending set merged with itself is itself |
| Variables.GetReadsPosition | include/autodiff.hh:31-34 | on a valid value, `get<J>` for the element at position `p` is in range and reads slot `p` |
| Variables.FreeIndex | include/autodiff.hh:80-85 | the free `index` gives the sentinel for a non-`var` type; for a `var` with any pack it gives, for a tracked index, the number of pack positions holding a smaller index (below the pack's length), and the sentinel otherwise; for an ascending pack that count is the index's position |
| Variables.Default | include/autodiff.hh:14-17 | a default value has primal zero, one slot per index, every slot zero, and no non-zero derivative |
| Variables.Constant | include/autodiff.hh:18-19 | `var(x)` with no indices is valid, has primal `x`, tracks nothing and has derivative zero everywhere |
| Variables.Seed | include/autodiff.hh:20-21 | `var<T,I>(x)`, also built by `mkvar<I>`, is valid, has primal `x` and tracks only `I`; its derivative is 1 with respect to `I` and 0 for every other index |
| Variables.Promote | include/autodiff.hh:43-44 | a scalar is promoted to a constant with its value and no indices; a `var` is passed through unchanged |
| Variables.MergeVarTypes | include/autodiff.hh:51-65 | the merged type's default value is valid, zero, and tracks exactly the indices of either operand |
| Variables.MergeOperands | include/autodiff.hh:67-70 | for operands of any type, the merged value tracks exactly the indices of the operands that are `var`s; a scalar adds none |
| Variables.AccumulateUntouched | include/autodiff.hh:36-40 | a slot that is not the rank of any visited index keeps its value through the visit |
| Variables.ComputeDerivativesUntouched | include/autodiff.hh:36-40 | `compute_derivatives` leaves every slot that no index of the pack ranks to as it was |
| Variables.AccumulateSlot | include/autodiff.hh:36-40 | after the visit over a pack, the slot of a tracked `K` has grown by `f(K)` once for every occurrence of `K` in the pack, and by nothing from other indices |
| Variables.ComputeDerivatives | include/autodiff.hh:36-40 | `compute_derivatives` keeps the primal, the index set and the shape |
| Variables.ComputeDerivativesRule | include/autodiff.hh:36-40 | after `compute_derivatives(f)`, the derivative with respect to every index is its old value plus `f(K)` once per occurrence of `K` in the pack |
| Variables.ComputeDerivativesOnce | include/autodiff.hh:36-40 | over a strictly ascending pack, each tracked index receives `f(K)` exactly once and untracked indices receive nothing |
| Variables.VisitsEachIndexOnce | include/autodiff.hh:36-40 | over a strictly ascending pack, slot `p` receives exactly `f` of the index at position `p` |
| Variables.ValidExtensionality | include/autodiff.hh:12-15 | a valid value is determined by its primal, its index set and its derivative with respect to every index |
| Operators.Add | include/autodiff.hh:96-108 | the sum is valid over the union of the index sets, has primal `a.x + b.x`, and every derivative is the sum of the operands' derivatives, each counted only where that operand tracks the index |
| Operators.AddScalar | include/autodiff.hh:88-91 | `a + c` is valid, has primal `a.x + c`, tracks the indices of `a` and keeps every derivative of `a` |
| Operators.ScalarAdd | include/autodiff.hh:92-95 | `c + b` is valid, has primal `c + b.x`, tracks the indices of `b` and keeps every derivative of `b` |
| Operators.Mul | include/autodiff.hh:118-130 | the product is valid over the union of the index sets, has primal `a.x * b.x`, and each derivative is `[K in a] da_K * b.x + [K in b] db_K * a.x` |
| Operators.MulScalar | include/autodiff.hh:110-113 | `a * c` is valid, has primal `a.x * c`, tracks the indices of `a` and scales every derivative by `c` |
| Operators.ScalarMul | include/autodiff.hh:114-117 | `c * b` is valid, has primal `c * b.x`, tracks the indices of `b` and scales every derivative by `c` |
| Operators.Log | include/autodiff.hh:132-143 | `log(a)` keeps the pack and the shape and has primal `ln(a.x)`; every derivative is `da_K / a.x`, added once per occurrence of `K` in the pack, so exactly once for an ascending pack; a slot that no index of a repeated pack ranks to keeps its default zero |
| Laws.SameIndexSet | include/autodiff.hh:51-65 | two valid values that track the same indices have the identical index sequence |
| Laws.AddCommutes | include/autodiff.hh:96-108 | `a + b` and `b + a` are the same value |
| Laws.AddAssociates | include/autodiff.hh:96-108 | `(a + b) + c` and `a + (b + c)` are the same value |
| Laws.AddScalarKeepsSlots | include/autodiff.hh:88-95 | adding a scalar to a valid value, on either side, changes its primal and nothing else |
| Laws.ScalarKeepsIndexSet | include/autodiff.hh:88-95 | a valid value combined with a scalar by `+` or `*`, on either side, keeps exactly its own index set |
| Laws.ProductRule | include/autodiff.hh:118-130 | the derivative of `a * b` with respect to every index is `da * b.x + db * a.x`, with an untracked operand contributing zero |
| Laws.MulCommutes | include/autodiff.hh:118-130 | `a * b` and `b * a` are the same value |
| Laws.LogDividesSlots | include/autodiff.hh:132-143 | for a valid operand, slot `p` of `log(a)` is slot `p` of `a` divided by the primal |
| Laws.LogRepeatedPack | include/autodiff.hh:132-143 | `log` of a hand-written `var<T, k, k>` with slots `(d0, d1)` gives `(d0/x + d0/x, 0)`: both visits of `k` land in the first slot and the second stays zero |
| DriverCases.MergeExample | include/autodiff.hh:51-65 | merging `{0, 2}` with `{1, 2}`, in either order, gives `[0, 1, 2]` |
| DriverCases.SeedProductIndices | src/test.cc:31-42 | the product of seeds with indices `i < j` tracks `[i, j]` |
| DriverCases.SeedProductDerivative | src/test.cc:42-44 | the product of seeds `p` at `i` and `q` at `j` has derivative `q` with respect to `i`, `p` with respect to `j`, and 0 elsewhere |
| DriverCases.ProductExample | src/test.cc:42-44 | `x * y` at `x = 3`, `y = 5` tracks `[0, 1]` with gradient `(5, 3)` |
| DriverCases.ProductPlusExample | src/test.cc:46-48 | `(x * y) + y` tracks `[0, 1]` with gradient `(5, 4)` |
| DriverCases.UnitProduct | include/autodiff.hh:118-130 | the product of two values of unit slope in distinct indices `i` and `j` has derivative `b.x` with respect to `i` and `a.x` with respect to `j` |
| DriverCases.ShiftedSeedProduct | src/test.cc:50-52 | `(x + c) * y` has derivative `y` with respect to `x`'s index and `x + c` with respect to `y`'s |
| DriverCases.ShiftedProductExample | src/test.cc:50-52 | `(x + 1) * y` at `x = 3`, `y = 5` has gradient `(5, 4)` |

## Left out

- `operator<<` (include/autodiff.hh:147-148) is stream output. It prints only the primal.
- Operators.Log: the primal `std::log(a.x)` is a transcendental floating-point function. It is the parameter `ln`, and only the derivative rule is stated.
- Operators.Log requires `a.x != 0`. The header does not guard the division, and in floating point a zero primal produces infinities or NaN. Exact real division has no such value.
- `std::common_type_t` and the explicit `operator T` conversion are not modelled. There is a single scalar type, `real`.
- Floating-point rounding is not modelled: the scalar is an exact `real`. So `Laws.AddAssociates`, whose two sides group the additions differently, holds for exact arithmetic only. With `T = double`, as in the driver, the two groupings of a sum can round differently.
- Indices are unbounded naturals, not `size_t`. `NPos` stands for `size_t(-1)`. The model does not treat a pack that contains `size_t(-1)` itself specially.
- `index<J>` on an empty pack is ill-formed C++: the unary fold `((I < J) + ...)` over an empty pack has no value. So both the member `index` of `var<T>` and the free `index` at `var<T>` fail to compile. The model returns the sentinel there, since `has<J>` is false.
- IndexSet.Sort is an insertion sort standing in for `std::sort`. The sorted permutation of a sequence is unique, so the results agree.
- The compile-time machinery is replaced by run-time sequences and preconditions. This covers `requires` clauses on constructors and `get`, `if constexpr`, `index_sequence`, and deduction from types.
- Only the operators in the header are modelled: `+`, `*` and `log`. Subtraction, division, `pow`, `exp` and `sqrt` do not occur in this header.
- The primal of `x * y` in the driver (15, and 20 for the other two expressions) is not stated. DriverCases states the index sets and derivatives, which are what the operators compute beyond plain arithmetic.
- The driver's `d<1>(y)` (src/test.cc:34) calls a function that the header does not define. The `TEST` printing macro comes from `debug.hh`, which is not part of this model.
- The header merges index sets by concatenating, sorting and removing adjacent duplicates, and the model does the same. A linear-time merge of the two sorted sequences would give the same set.
