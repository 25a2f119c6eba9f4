/**
  The index-set algebra of the forward-mode engine.

  An index set is the list of independent-variable identifiers a value tracks
  (the `I...` pack of `var<T, I...>`). In the C++ header these packs are
  compile-time; here they are ordinary sequences of naturals. The engine only
  ever derives index sets with `Merge`, which sorts and deduplicates, but a
  caller may spell any pack by hand, so the membership and rank functions
  below are defined for every sequence.
 */
module IndexSet {

  /** `size_t(-1)`: the rank reported for an index that is not tracked. */
  const NPos: nat := 0xFFFF_FFFF_FFFF_FFFF

  /** Non-decreasing order, as left by `std::sort`. */
  predicate Sorted(s: seq<nat>) {
    forall i, j :: 0 <= i < j < |s| ==> s[i] <= s[j]
  }

  /** Strictly increasing order: sorted and free of duplicates. */
  predicate StrictlyAscending(s: seq<nat>) {
    forall i, j :: 0 <= i < j < |s| ==> s[i] < s[j]
  }

  // ------------------------------------------------------------------
  // Membership and rank

  /** `has<J>`: the fold `((I == J) || ...)` over the pack. */
  function Has(I: seq<nat>, J: nat): (b: bool)
    ensures b <==> J in I
  {
    if |I| == 0 then false
    else
      assert I == [I[0]] + I[1..];
      I[0] == J || Has(I[1..], J)
  }

  /** The fold `((I < J) + ...)`: how many tracked indices lie below `J`. */
  function CountLess(I: seq<nat>, J: nat): nat
  {
    if |I| == 0 then 0 else (if I[0] < J then 1 else 0) + CountLess(I[1..], J)
  }

  /**
    `index<J>`: the rank of `J` among the tracked indices, or the sentinel.
    `CountLessCountsPositions` gives the rank's value for a pack in any order.
   */
  function Index(I: seq<nat>, J: nat): (r: nat)
    ensures Has(I, J) ==> r < |I|
    ensures !Has(I, J) ==> r == NPos
  {
    if Has(I, J) then
      RankBelowSize(I, J);
      CountLess(I, J)
    else NPos
  }

  /** Appending an index to the pack adds one to the count exactly when it lies below `J`. */
  lemma {:induction false} CountLessAppend(I: seq<nat>, x: nat, J: nat)
    ensures CountLess(I + [x], J) == CountLess(I, J) + (if x < J then 1 else 0)
  {
    if |I| > 0 {
      assert (I + [x])[1..] == I[1..] + [x];
      CountLessAppend(I[1..], x, J);
    }
  }

  /** The positions of the pack that hold an index below `J`. */
  ghost function PositionsBelow(I: seq<nat>, J: nat): set<nat>
  {
    set k | 0 <= k < |I| && I[k] < J
  }

  /** The fold `((I < J) + ...)` counts the positions of the pack that hold an index below `J`. */
  lemma {:induction false} CountLessCountsPositions(I: seq<nat>, J: nat)
    ensures CountLess(I, J) == |PositionsBelow(I, J)|
    decreases |I|
  {
    if |I| > 0 {
      var n := |I| - 1;
      var P := I[..n];
      assert I == P + [I[n]];
      CountLessAppend(P, I[n], J);
      CountLessCountsPositions(P, J);
      PositionsBelowExtend(I, J);
    }
  }

  /** Dropping the last position of the pack removes at most that position from the set. */
  lemma PositionsBelowExtend(I: seq<nat>, J: nat)
    requires |I| > 0
    ensures |PositionsBelow(I, J)|
            == |PositionsBelow(I[..|I| - 1], J)| + (if I[|I| - 1] < J then 1 else 0)
  {
    var n := |I| - 1;
    var below, belowP := PositionsBelow(I, J), PositionsBelow(I[..n], J);
    assert n !in belowP;
    if I[n] < J {
      assert below == belowP + {n};
    } else {
      assert below == belowP;
    }
  }

  /** In a strictly ascending set, reading the set at the rank of a tracked index gives it back. */
  lemma RankReadsBack(I: seq<nat>, J: nat)
    ensures StrictlyAscending(I) && Has(I, J) ==> I[Index(I, J)] == J
  {
    if StrictlyAscending(I) && Has(I, J) {
      IndexBijection(I);
    }
  }

  /** A tracked index has fewer than `|I|` tracked indices below it: it does not count itself. */
  lemma {:induction false} RankBelowSize(I: seq<nat>, J: nat)
    requires J in I
    ensures CountLess(I, J) < |I|
  {
    if I[0] != J {
      assert J in I[1..] by { assert I == [I[0]] + I[1..]; }
      RankBelowSize(I[1..], J);
    } else {
      CountLessBounded(I[1..], J);
    }
  }

  lemma {:induction false} CountLessBounded(I: seq<nat>, J: nat)
    ensures CountLess(I, J) <= |I|
  {
    if |I| > 0 {
      CountLessBounded(I[1..], J);
    }
  }

  /** The rank grows with the queried index, and strictly past a tracked one. */
  lemma {:induction false} RankMonotone(I: seq<nat>, J1: nat, J2: nat)
    requires J1 < J2
    ensures CountLess(I, J1) <= CountLess(I, J2)
    ensures J1 in I ==> CountLess(I, J1) < CountLess(I, J2)
  {
    if |I| > 0 {
      assert I == [I[0]] + I[1..];
      RankMonotone(I[1..], J1, J2);
    }
  }

  /**
    Distinct tracked indices have distinct ranks, whatever the order of the
    pack and even with repeated entries: `get<J>` never aliases two indices.
   */
  lemma IndexInjective(I: seq<nat>, J1: nat, J2: nat)
    requires Has(I, J1) && Has(I, J2) && J1 != J2
    ensures Index(I, J1) != Index(I, J2)
  {
    if J1 < J2 {
      RankMonotone(I, J1, J2);
    } else {
      RankMonotone(I, J2, J1);
    }
  }

  lemma {:induction false} CountLessNoneBelow(I: seq<nat>, J: nat)
    requires forall k :: 0 <= k < |I| ==> J <= I[k]
    ensures CountLess(I, J) == 0
  {
    if |I| > 0 {
      CountLessNoneBelow(I[1..], J);
    }
  }

  /** In a strictly ascending set the rank of the element at position `p` is `p`. */
  lemma {:induction false} RankOfAscending(I: seq<nat>, p: nat)
    requires StrictlyAscending(I) && p < |I|
    ensures CountLess(I, I[p]) == p
  {
    if p == 0 {
      CountLessNoneBelow(I, I[0]);
    } else {
      RankOfAscending(I[1..], p - 1);
    }
  }

  /**
    For a strictly ascending set, `index` is a bijection between the tracked
    indices and the slot positions `[0, |I|)`, inverse to indexing the set.
   */
  lemma IndexBijection(I: seq<nat>)
    requires StrictlyAscending(I)
    ensures forall p :: 0 <= p < |I| ==> Index(I, I[p]) == p
    ensures forall J :: Has(I, J) ==> Index(I, J) < |I| && I[Index(I, J)] == J
  {
    forall p | 0 <= p < |I|
      ensures Index(I, I[p]) == p
    {
      RankOfAscending(I, p);
    }
    forall J | Has(I, J)
      ensures I[Index(I, J)] == J
    {
      var p :| 0 <= p < |I| && I[p] == J;
      RankOfAscending(I, p);
    }
  }

  /** A tracked index of a strictly ascending set occurs exactly once. */
  lemma {:induction false} AscendingOccursOnce(I: seq<nat>, K: nat)
    requires StrictlyAscending(I) && K in I
    ensures multiset(I)[K] == 1
  {
    assert I == [I[0]] + I[1..];
    if I[0] == K {
      assert K !in I[1..];
    } else {
      AscendingOccursOnce(I[1..], K);
    }
  }

  // ------------------------------------------------------------------
  // merge_var_types: concatenate, std::sort, std::unique

  function Insert(x: nat, s: seq<nat>): (r: seq<nat>)
    requires Sorted(s)
    ensures Sorted(r)
    ensures multiset(r) == multiset(s) + multiset{x}
  {
    if |s| == 0 then [x]
    else if x <= s[0] then [x] + s
    else
      var t := Insert(x, s[1..]);
      InsertAboveHead(x, s, t);
      [s[0]] + t
  }

  lemma InsertAboveHead(x: nat, s: seq<nat>, t: seq<nat>)
    requires Sorted(s) && |s| > 0 && s[0] < x
    requires multiset(t) == multiset(s[1..]) + multiset{x}
    ensures forall k :: 0 <= k < |t| ==> s[0] <= t[k]
    ensures multiset([s[0]] + t) == multiset(s) + multiset{x}
  {
    forall k | 0 <= k < |t|
      ensures s[0] <= t[k]
    {
      assert t[k] in multiset(t);
      if t[k] != x {
        assert t[k] in multiset(s[1..]);
        var i :| 0 <= i < |s[1..]| && s[1..][i] == t[k];
        assert s[i + 1] == t[k];
      }
    }
    assert s == [s[0]] + s[1..];
  }

  /**
    `std::sort` on the concatenated array. The sorted permutation of a
    sequence is unique, so insertion sort yields the same array.
   */
  function Sort(s: seq<nat>): (r: seq<nat>)
    ensures Sorted(r)
    ensures multiset(r) == multiset(s)
  {
    if |s| == 0 then []
    else
      assert s == [s[0]] + s[1..];
      Insert(s[0], Sort(s[1..]))
  }

  /**
    `std::unique` followed by taking the first `end - begin` elements:
    every run of equal neighbours collapses to one element.
   */
  function Unique(s: seq<nat>): (r: seq<nat>)
    ensures |r| <= |s|
    ensures forall x :: x in r <==> x in s
    ensures Sorted(s) ==> StrictlyAscending(r)
  {
    if |s| <= 1 then s
    else
      assert s == [s[0]] + s[1..];
      if s[0] == s[1] then Unique(s[1..])
      else
        var t := Unique(s[1..]);
        if Sorted(s) then
          forall k | 0 <= k < |t| ensures s[0] < t[k] {
            assert t[k] in t;
            var i :| 0 <= i < |s[1..]| && s[1..][i] == t[k];
            assert s[1] <= s[i + 1];
          }
          [s[0]] + t
        else [s[0]] + t
  }

  /** The index set of `merge_var_types(var<A, I...>, var<B, J...>)`. */
  function Merge(I: seq<nat>, J: seq<nat>): (r: seq<nat>)
    ensures StrictlyAscending(r)
    ensures forall x :: x in r <==> x in I || x in J
    ensures |r| <= |I| + |J|
  {
    var s := Sort(I + J);
    assert forall x :: x in s <==> x in multiset(I + J);
    Unique(s)
  }

  /** Two strictly ascending sequences with the same elements are equal. */
  lemma {:induction false} AscendingUnique(a: seq<nat>, b: seq<nat>)
    requires StrictlyAscending(a) && StrictlyAscending(b)
    requires forall x :: x in a <==> x in b
    ensures a == b
    decreases |a|
  {
    if |b| > 0 {
      assert b[0] in a;
    }
    if |a| > 0 {
      SameLeast(a, b);
      SameTail(a, b);
      AscendingUnique(a[1..], b[1..]);
      assert a == [a[0]] + a[1..];
      assert b == [b[0]] + b[1..];
    }
  }

  /** The first element of a strictly ascending sequence is its least element. */
  lemma SameLeast(a: seq<nat>, b: seq<nat>)
    requires StrictlyAscending(a) && StrictlyAscending(b) && |a| > 0
    requires forall x :: x in a <==> x in b
    ensures |b| > 0 && a[0] == b[0]
  {
    assert a[0] in b;
    assert b[0] in a;
    var j :| 0 <= j < |a| && a[j] == b[0];
    var k :| 0 <= k < |b| && b[k] == a[0];
    assert a[0] <= a[j] && b[0] <= b[k];
  }

  /** Dropping the common least element leaves the same elements on both sides. */
  lemma SameTail(a: seq<nat>, b: seq<nat>)
    requires StrictlyAscending(a) && StrictlyAscending(b) && |a| > 0 && |b| > 0 && a[0] == b[0]
    requires forall x :: x in a <==> x in b
    ensures forall x :: x in a[1..] <==> x in b[1..]
  {
    forall x
      ensures x in a[1..] ==> x in b[1..]
    {
      if x in a[1..] {
        var i :| 0 <= i < |a[1..]| && a[1..][i] == x;
        assert a[0] < a[i + 1];
        assert x in b;
        var k :| 0 <= k < |b| && b[k] == x;
        assert k != 0;
        assert b[1..][k - 1] == x;
      }
    }
    forall x
      ensures x in b[1..] ==> x in a[1..]
    {
      if x in b[1..] {
        var i :| 0 <= i < |b[1..]| && b[1..][i] == x;
        assert b[0] < b[i + 1];
        assert x in a;
        var k :| 0 <= k < |a| && a[k] == x;
        assert k != 0;
        assert a[1..][k - 1] == x;
      }
    }
  }

  /** The merged set does not depend on which operand comes first. */
  lemma MergeCommutes(I: seq<nat>, J: seq<nat>)
    ensures Merge(I, J) == Merge(J, I)
  {
    AscendingUnique(Merge(I, J), Merge(J, I));
  }

  /** Merging in either grouping gives the same set. */
  lemma MergeAssociates(I: seq<nat>, J: seq<nat>, K: seq<nat>)
    ensures Merge(Merge(I, J), K) == Merge(I, Merge(J, K))
  {
    AscendingUnique(Merge(Merge(I, J), K), Merge(I, Merge(J, K)));
  }

  /**
    Merging with the empty set of a promoted scalar leaves a strictly
    ascending set unchanged, from either side.
   */
  lemma MergeWithEmpty(I: seq<nat>)
    requires StrictlyAscending(I)
    ensures Merge(I, []) == I
    ensures Merge([], I) == I
  {
    AscendingUnique(Merge(I, []), I);
    AscendingUnique(Merge([], I), I);
  }

  /** A set merged with itself is itself. */
  lemma MergeIdempotent(I: seq<nat>)
    requires StrictlyAscending(I)
    ensures Merge(I, I) == I
  {
    AscendingUnique(Merge(I, I), I);
  }
}
