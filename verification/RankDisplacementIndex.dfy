/** Totals that may still be missing: a number, or the Infinity a fresh index holds. */
module Distances {
  datatype Distance = Finite(value: int) | Infinity {
    predicate Less(other: Distance) {
      Finite? && (other.Infinity? || value < other.value)
    }
  }

  function Shorter(a: Distance, b: Distance): Distance {
    if b.Less(a) then b else a
  }

  /** The least of `minima[lo..hi]`; Infinity when there is none. */
  function RangeMin(minima: seq<Distance>, lo: nat, hi: nat): Distance
    requires lo <= hi <= |minima|
    decreases hi
  {
    if lo == hi then Infinity else Shorter(RangeMin(minima, lo, hi - 1), minima[hi - 1])
  }

  lemma {:induction false} RangeMinSplit(minima: seq<Distance>, lo: nat, mid: nat, hi: nat)
    requires lo <= mid <= hi <= |minima|
    ensures RangeMin(minima, lo, hi) == Shorter(RangeMin(minima, lo, mid), RangeMin(minima, mid, hi))
    decreases hi
  {
    if mid < hi {
      RangeMinSplit(minima, lo, mid, hi - 1);
    }
  }

  /** Lowering one entry lowers exactly the ranges that cover it. */
  lemma {:induction false} RangeMinUpdate(minima: seq<Distance>, q: nat, candidate: Distance, lo: nat, hi: nat)
    requires lo <= hi <= |minima| && q < |minima|
    ensures
      RangeMin(minima[q := Shorter(minima[q], candidate)], lo, hi)
      == if lo <= q < hi then Shorter(RangeMin(minima, lo, hi), candidate) else RangeMin(minima, lo, hi)
    decreases hi
  {
    if lo < hi {
      RangeMinUpdate(minima, q, candidate, lo, hi - 1);
    }
  }

  /** The least of a range is one of its entries and no entry undercuts it. */
  lemma {:induction false} RangeMinExact(minima: seq<Distance>, lo: nat, hi: nat)
    requires lo <= hi <= |minima|
    ensures forall q | lo <= q < hi :: !minima[q].Less(RangeMin(minima, lo, hi))
    ensures RangeMin(minima, lo, hi).Finite? ==>
              exists q | lo <= q < hi :: minima[q] == RangeMin(minima, lo, hi)
    decreases hi
  {
    if lo < hi {
      RangeMinExact(minima, lo, hi - 1);
    }
  }
}

/** The first index whose value is not below a target, in an ascending list. */
module LowerBounds {
  import opened Numbers
  ghost predicate Ascending(values: seq<int>) {
    forall a, b | 0 <= a < b < |values| :: values[a] <= values[b]
  }

  ghost predicate IsLowerBound(values: seq<int>, target: int, at: int) {
    && 0 <= at <= |values|
    && (forall k | 0 <= k < at :: values[k] < target)
    && (forall k | at <= k < |values| :: target <= values[k])
  }

  method LowerBound(values: seq<int>, target: int) returns (lo: nat)
    requires Ascending(values)
    ensures IsLowerBound(values, target, lo)
  {
    lo := 0;
    var hi := |values|;
    while lo < hi
      invariant lo <= hi <= |values|
      invariant forall k | 0 <= k < lo :: values[k] < target
      invariant forall k | hi <= k < |values| :: target <= values[k]
    {
      var mid := (lo + hi) / 2;
      if values[mid] < target { lo := mid + 1; } else { hi := mid; }
    }
  }

  /** The distinct values, ascending. */
  function SortedDistinct(values: seq<int>): (r: seq<int>)
    ensures StrictlyAscending(r)
    ensures forall v :: v in r <==> v in values
  {
    if values == [] then [] else Insert(SortedDistinct(values[1..]), values[0])
  }

  function Insert(sorted: seq<int>, v: int): (r: seq<int>)
    requires StrictlyAscending(sorted)
    ensures StrictlyAscending(r)
    ensures forall x :: x in r <==> x == v || x in sorted
  {
    if sorted == [] || v < sorted[0] then [v] + sorted
    else if v == sorted[0] then sorted
    else
      var rest := Insert(sorted[1..], v);
      assert forall k | 0 <= k < |rest| :: rest[k] in rest;
      assert forall k | 0 <= k < |rest| :: sorted[0] < rest[k];
      [sorted[0]] + rest
  }
}

/**
 The prefix-minimum index of one rank: a Fenwick tree over the compressed coordinates of the rank.
 Cell k of the tree answers for the LowBit(k) coordinates that end at k.
 */
module RankDisplacementIndices {
  import opened Numbers
  import opened Distances
  import opened LowerBounds

  /** The lowest set bit of k: `k & -k`, written on numbers. */
  function LowBit(k: nat): (r: nat)
    requires k > 0
    ensures 0 < r <= k
  {
    if k % 2 == 1 then 1 else 2 * LowBit(k / 2)
  }

  /** Cell k answers for coordinate p. */
  predicate Covers(k: nat, p: nat)
    requires k > 0
  {
    k - LowBit(k) < p <= k
  }

  lemma {:induction false} CoversIs(k: nat, p: nat)
    requires k > 0
    ensures Covers(k, p) <==> k - LowBit(k) < p <= k
  {
  }

  /** Above p, the cells that answer for p are the cells that answer for p + LowBit(p). */
  lemma {:induction false} CoverStep(k: nat, p: nat)
    requires 0 < p < k
    ensures Covers(k, p) <==> Covers(k, p + LowBit(p))
    decreases k
  {
    if p % 2 == 0 && k % 2 == 0 {
      CoverStep(k / 2, p / 2);
    } else if p % 2 == 1 && k % 2 == 0 {
      assert LowBit(k) == 2 * LowBit(k / 2);
    }
  }

  class RankDisplacementIndex {
    const sorted: seq<int>
    const tree: array<Distance>
    /** The least candidate recorded at each coordinate so far. */
    ghost var minima: seq<Distance>

    ghost predicate Valid()
      reads this, tree
    {
      && StrictlyAscending(sorted)
      && |minima| == |sorted|
      && tree.Length == |sorted| + 1
      && forall k: nat | 0 < k <= |sorted| :: tree[k] == RangeMin(minima, k - LowBit(k), k)
    }

    constructor (values: seq<int>)
      ensures Valid() && fresh(tree)
      ensures sorted == SortedDistinct(values)
      ensures forall q | 0 <= q < |minima| :: minima[q] == Infinity
    {
      sorted := SortedDistinct(values);
      tree := new Distance[|SortedDistinct(values)| + 1](_ => Infinity);
      minima := seq(|SortedDistinct(values)|, _ => Infinity);
      new;
      forall k: nat | 0 < k <= |sorted| ensures tree[k] == RangeMin(minima, k - LowBit(k), k) {
        RangeMinExact(minima, k - LowBit(k), k);
      }
    }

    /** The least candidate recorded at a coordinate below `value`. */
    method QueryBelow(value: int) returns (best: Distance)
      requires Valid()
      ensures exists at :: IsLowerBound(sorted, value, at) && best == RangeMin(minima, 0, at)
    {
      var idx := LowerBound(sorted, value);
      ghost var at := idx;
      best := Infinity;
      while idx > 0
        invariant 0 <= idx <= at
        invariant Shorter(RangeMin(minima, 0, idx), best) == RangeMin(minima, 0, at)
      {
        RangeMinSplit(minima, 0, idx - LowBit(idx), idx);
        var candidate := tree[idx];
        if candidate.Less(best) { best := candidate; }
        idx := idx - LowBit(idx);
      }
    }

    /** Record a candidate at a coordinate. */
    method Update(value: int, candidate: int)
      requires Valid() && value in sorted
      modifies this, tree
      ensures Valid()
      ensures exists q | 0 <= q < |sorted| ::
                sorted[q] == value && minima == old(minima)[q := Shorter(old(minima)[q], Finite(candidate))]
    {
      hide RangeMin, LowBit, Covers;
      var at := LowerBound(sorted, value);
      ghost var before, was := minima, tree[..];
      minima := minima[at := Shorter(minima[at], Finite(candidate))];
      UpdateTree(at + 1, Finite(candidate));
      forall k: nat | 0 < k <= |sorted| ensures tree[k] == RangeMin(minima, k - LowBit(k), k) {
        assert was[k] == old(tree[k]);
        RangeMinUpdate(before, at, Finite(candidate), k - LowBit(k), k);
        CoversIs(k, at + 1);
      }
    }

    /** Climb from a node through every node whose range covers it. */
    method UpdateTree(p: nat, candidate: Distance)
      requires 1 <= p && tree.Length == |sorted| + 1
      modifies tree
      ensures forall k: nat | 0 < k <= |sorted| ::
                tree[k] == if Covers(k, p) then Shorter(old(tree[k]), candidate) else old(tree[k])
    {
      var idx, size := p, |sorted|;
      var old_ := tree[..];
      while idx <= size
        invariant p <= idx
        invariant forall k: nat | idx <= k <= size :: Covers(k, p) <==> Covers(k, idx)
        invariant forall k: nat | 0 < k <= size ::
                    tree[k] == if k < idx && Covers(k, p) then Shorter(old_[k], candidate) else old_[k]
        decreases size - idx
      {
        var next := idx + LowBit(idx);
        forall k: nat | idx < k <= size ensures Covers(k, p) <==> Covers(k, next) {
          CoverStep(k, idx);
        }
        assert forall k: nat | idx < k < next && k <= size :: !Covers(k, p);
        if candidate.Less(tree[idx]) { tree[idx] := candidate; }
        idx := next;
      }
    }
  }
}
