/**
 The stable pin backbone: the pins that lie on every longest, lightest chain of candidate pins.
 Patience sorting gives the lengths, one Fenwick index per rank the totals; a mirrored second pass
 gives the same for the chains that start at a pin.
 */
module PinBackbone {
  import opened Numbers
  import opened Distances
  import opened LowerBounds
  import opened PinChains
  import opened RankDisplacementIndices

  // ---- which pins are on every optimal chain ----

  /** The two passes over one pin list, with the best length and the best total read off them. */
  datatype Passes = Passes(
    lengths: seq<int>, totals: seq<int>, suffixLengths: seq<int>, suffixTotals: seq<int>, best: int, bestTotal: int)
  {
    predicate Sized(count: nat) {
      |lengths| == |totals| == |suffixLengths| == |suffixTotals| == count
    }

    /** Length of a longest chain through pin i. */
    function Through(i: nat): int
      requires Sized(|lengths|) && i < |lengths|
    {
      lengths[i] + suffixLengths[i] - 1
    }

    /** Least total of those chains. */
    function Total(pins: seq<WeightedPin>, i: nat): int
      requires Sized(|pins|) && i < |pins|
    {
      totals[i] + suffixTotals[i] - pins[i].displacement
    }

    predicate Optimal(pins: seq<WeightedPin>, i: nat)
      requires Sized(|pins|)
    {
      i < |pins| && Through(i) == best && Total(pins, i) == bestTotal
    }

    ghost predicate LengthsExact(pins: seq<WeightedPin>) {
      && ForwardExact(pins, lengths, totals)
      && BackwardExact(pins, suffixLengths, suffixTotals)
      && (forall i: nat | i < |pins| :: lengths[i] <= best)
      && (exists i: nat :: i < |pins| && lengths[i] == best)
    }

    ghost predicate Exact(pins: seq<WeightedPin>) {
      && LengthsExact(pins)
      && (forall i: nat | i < |pins| && Through(i) == best :: bestTotal <= Total(pins, i))
      && (exists i: nat :: Optimal(pins, i))
    }
  }

  /** No chain outgrows the best length; a longest chain meets its pins at consecutive ranks. */
  lemma {:induction false} ChainThrough(pins: seq<WeightedPin>, p: Passes, s: Chain, k: nat)
    requires p.Exact(pins) && IsChain(pins, s) && k < |s|
    ensures |s| <= p.Through(s[k]) <= p.best
    ensures |s| == p.best ==> p.lengths[s[k]] == k + 1 && p.bestTotal <= p.Total(pins, s[k]) <= Weight(pins, s)
  {
    var i := s[k];
    SplitChain(pins, s, k);
    var _ := ThroughBound(pins, p, i);
  }

  lemma {:induction false} ThroughBound(pins: seq<WeightedPin>, p: Passes, i: nat) returns (u: Chain)
    requires p.LengthsExact(pins) && i < |pins|
    ensures p.Through(i) <= p.best
    ensures IsChain(pins, u) && i in u && |u| == p.Through(i) && Weight(pins, u) == p.Total(pins, i)
  {
    assert Attainable(pins, p.lengths, p.totals, i) && AttainableFrom(pins, p.suffixLengths, p.suffixTotals, i);
    var s :| Attains(pins, p.lengths, p.totals, s, i);
    var t :| AttainsFrom(pins, p.suffixLengths, p.suffixTotals, t, i);
    JoinChains(pins, s, t, i);
    u := s + t[1..];
    assert EndsAt(pins, u, u[|u| - 1]);
  }

  lemma {:induction false} SomePinIsBest(pins: seq<WeightedPin>, p: Passes) returns (i: nat)
    requires p.LengthsExact(pins)
    ensures i < |pins| && p.Through(i) == p.best
  {
    i :| i < |pins| && p.lengths[i] == p.best;
    assert StartsAt(pins, [i], i);
    var _ := ThroughBound(pins, p, i);
  }

  lemma {:induction false} OptimalChainIff(pins: seq<WeightedPin>, p: Passes, s: Chain)
    requires p.Exact(pins)
    ensures IsOptimalChain(pins, s) <==> IsChain(pins, s) && |s| == p.best && Weight(pins, s) == p.bestTotal
  {
    var i: nat :| p.Optimal(pins, i);
    var u := ThroughBound(pins, p, i);
    forall t | IsChain(pins, t) ensures |t| <= p.best && (|t| == p.best ==> p.bestTotal <= Weight(pins, t)) {
      assert |u| > 0;
      if |t| > 0 {
        ChainThrough(pins, p, t, 0);
      }
    }
  }

  ghost predicate AloneAtRank(pins: seq<WeightedPin>, p: Passes, i: nat)
    requires p.Sized(|pins|) && i < |pins|
  {
    forall j: nat | p.Optimal(pins, j) && p.lengths[j] == p.lengths[i] :: j == i
  }

  /**
   A pin is on every optimal chain exactly when it is optimal and no other optimal pin shares its rank.
   */
  lemma {:induction false} StableIff(pins: seq<WeightedPin>, p: Passes, i: nat)
    requires p.Exact(pins) && i < |pins|
    ensures OnEveryOptimalChain(pins, i) <==> p.Optimal(pins, i) && AloneAtRank(pins, p, i)
  {
    if OnEveryOptimalChain(pins, i) {
      var o: nat :| p.Optimal(pins, o);
      OnOneMeansOptimal(pins, p, o, i);
      forall j: nat | p.Optimal(pins, j) && p.lengths[j] == p.lengths[i] ensures j == i {
        SameRankMeansSame(pins, p, j, i);
      }
    }
    if p.Optimal(pins, i) && AloneAtRank(pins, p, i) {
      forall s | IsOptimalChain(pins, s) ensures i in s {
        OptimalChainIff(pins, p, s);
        RankOnChain(pins, p, s, i);
      }
    }
  }

  lemma {:induction false} ChainOfOptimal(pins: seq<WeightedPin>, p: Passes, o: nat) returns (u: Chain)
    requires p.Exact(pins) && p.Optimal(pins, o)
    ensures IsOptimalChain(pins, u) && o in u
  {
    u := ThroughBound(pins, p, o);
    OptimalChainIff(pins, p, u);
  }

  lemma {:induction false} OnOneMeansOptimal(pins: seq<WeightedPin>, p: Passes, o: nat, i: nat)
    requires p.Exact(pins) && p.Optimal(pins, o) && OnEveryOptimalChain(pins, i)
    ensures p.Optimal(pins, i)
  {
    var u := ChainOfOptimal(pins, p, o);
    OptimalChainIff(pins, p, u);
    var k :| 0 <= k < |u| && u[k] == i;
    ChainThrough(pins, p, u, k);
  }

  lemma {:induction false} SameRankMeansSame(pins: seq<WeightedPin>, p: Passes, j: nat, i: nat)
    requires p.Exact(pins) && p.Optimal(pins, j) && OnEveryOptimalChain(pins, i)
    requires i < |pins| && p.lengths[j] == p.lengths[i]
    ensures j == i
  {
    var u := ChainOfOptimal(pins, p, j);
    OptimalChainIff(pins, p, u);
    var k :| 0 <= k < |u| && u[k] == i;
    var l :| 0 <= l < |u| && u[l] == j;
    ChainThrough(pins, p, u, k);
    ChainThrough(pins, p, u, l);
  }

  lemma {:induction false} RankOnChain(pins: seq<WeightedPin>, p: Passes, s: Chain, i: nat)
    requires p.Exact(pins) && IsChain(pins, s) && |s| == p.best && Weight(pins, s) == p.bestTotal
    requires p.Optimal(pins, i)
    requires AloneAtRank(pins, p, i)
    ensures i in s
  {
    var u := ThroughBound(pins, p, i);
    var k :| 0 <= k < |u| && u[k] == i;
    ChainThrough(pins, p, u, k);
    ChainThrough(pins, p, s, k);
    assert p.Optimal(pins, s[k]);
  }

  // ---- patience sorting ----

  /** Pin j is the least pin of rank k + 1 so far, and `tails` says so. */
  ghost predicate TailOf(pins: seq<WeightedPin>, lengths: seq<int>, tails: seq<int>, k: nat, j: nat) {
    j < |lengths| <= |pins| && k < |tails| && lengths[j] == k + 1 && pins[j].currLine == tails[k]
  }

  ghost predicate Patience(pins: seq<WeightedPin>, lengths: seq<int>, tails: seq<int>) {
    && LengthsLocal(pins, lengths)
    && StrictlyAscending(tails)
    && AboveTails(pins, lengths, tails)
    && (forall k: nat | k < |tails| :: HasTail(pins, lengths, tails, k))
  }

  ghost predicate HasTail(pins: seq<WeightedPin>, lengths: seq<int>, tails: seq<int>, k: nat) {
    exists j: nat :: TailOf(pins, lengths, tails, k, j)
  }

  /** Dealing one pin onto the leftmost pile whose top is not below it. */
  function Deal(tails: seq<int>, slot: nat, currLine: int): seq<int>
    requires slot <= |tails|
  {
    if slot == |tails| then tails + [currLine] else tails[slot := currLine]
  }

  lemma {:induction false} ExtendLengths(pins: seq<WeightedPin>, lengths: seq<int>, length: int)
    requires LengthsLocal(pins, lengths) && |lengths| < |pins| && length >= 1
    requires forall j: nat | Before(pins, j, |lengths|) :: lengths[j] < length
    requires length > 1 ==> exists j: nat :: Before(pins, j, |lengths|) && lengths[j] == length - 1
    ensures LengthsLocal(pins, lengths + [length])
  {
    var i, extended := |lengths|, lengths + [length];
    forall k: nat | k <= i && extended[k] > 1 ensures HasPredecessor(pins, extended, k) {
      if k == i {
        var j: nat :| Before(pins, j, i) && lengths[j] == length - 1;
        assert Predecessor(pins, extended, j, i);
      } else {
        assert HasPredecessor(pins, lengths, k);
        var j: nat :| Predecessor(pins, lengths, j, k);
        assert Predecessor(pins, extended, j, k);
      }
    }
  }

  lemma {:induction false} DealLengths(pins: seq<WeightedPin>, lengths: seq<int>, tails: seq<int>, slot: nat)
    requires Patience(pins, lengths, tails) && |lengths| < |pins|
    requires IsLowerBound(tails, pins[|lengths|].currLine, slot)
    ensures LengthsLocal(pins, lengths + [slot + 1])
  {
    hide LengthsLocal;
    var i := |lengths|;
    forall j: nat | Before(pins, j, i) ensures lengths[j] < slot + 1 {
      assert tails[lengths[j] - 1] <= pins[j].currLine < pins[i].currLine;
    }
    if slot > 0 {
      assert HasTail(pins, lengths, tails, slot - 1);
      var j: nat :| TailOf(pins, lengths, tails, slot - 1, j);
      assert Before(pins, j, i) && lengths[j] == slot;
    }
    ExtendLengths(pins, lengths, slot + 1);
  }

  lemma {:induction false} DealAscends(tails: seq<int>, slot: nat, currLine: int)
    requires StrictlyAscending(tails) && IsLowerBound(tails, currLine, slot)
    ensures StrictlyAscending(Deal(tails, slot, currLine))
  {
  }

  lemma {:induction false} DealWitness(pins: seq<WeightedPin>, lengths: seq<int>, tails: seq<int>, slot: nat, k: nat)
    requires |lengths| < |pins| && slot <= |tails|
    requires forall k: nat | k < |tails| :: HasTail(pins, lengths, tails, k)
    requires k < |Deal(tails, slot, pins[|lengths|].currLine)|
    ensures HasTail(pins, lengths + [slot + 1], Deal(tails, slot, pins[|lengths|].currLine), k)
  {
    var i := |lengths|;
    var extended, dealt := lengths + [slot + 1], Deal(tails, slot, pins[i].currLine);
    if k == slot {
      assert TailOf(pins, extended, dealt, slot, i);
    } else {
      assert HasTail(pins, lengths, tails, k);
      var j: nat :| TailOf(pins, lengths, tails, k, j);
      assert TailOf(pins, extended, dealt, k, j);
    }
  }

  /** Every pin stays at or above the tail of its own rank. */
  ghost predicate AboveTails(pins: seq<WeightedPin>, lengths: seq<int>, tails: seq<int>) {
    && |lengths| <= |pins|
    && forall j: nat | j < |lengths| :: 1 <= lengths[j] <= |tails| && tails[lengths[j] - 1] <= pins[j].currLine
  }

  lemma {:induction false} DealBelow(pins: seq<WeightedPin>, lengths: seq<int>, tails: seq<int>, slot: nat)
    requires |lengths| < |pins| && IsLowerBound(tails, pins[|lengths|].currLine, slot)
    requires AboveTails(pins, lengths, tails)
    ensures AboveTails(pins, lengths + [slot + 1], Deal(tails, slot, pins[|lengths|].currLine))
  {
  }

  lemma {:induction false} DealTails(pins: seq<WeightedPin>, lengths: seq<int>, tails: seq<int>, slot: nat)
    requires Patience(pins, lengths, tails) && |lengths| < |pins|
    requires IsLowerBound(tails, pins[|lengths|].currLine, slot)
    ensures Patience(pins, lengths + [slot + 1], Deal(tails, slot, pins[|lengths|].currLine))
  {
    var extended, dealt := lengths + [slot + 1], Deal(tails, slot, pins[|lengths|].currLine);
    DealLengths(pins, lengths, tails, slot);
    hide LengthsLocal, HasTail;
    forall k: nat | k < |dealt| ensures HasTail(pins, extended, dealt, k) {
      DealWitness(pins, lengths, tails, slot, k);
    }
    DealAscends(tails, slot, pins[|lengths|].currLine);
    hide StrictlyAscending;
    DealBelow(pins, lengths, tails, slot);
    hide AboveTails;
  }

  method PatienceLengths(pins: seq<WeightedPin>) returns (lengths: array<int>, ranks: nat)
    ensures fresh(lengths) && lengths.Length == |pins| && LengthsLocal(pins, lengths[..])
    ensures forall i | 0 <= i < |pins| :: lengths[i] <= ranks
  {
    lengths := new int[|pins|](_ => 0);
    var tails: seq<int> := [];
    for i := 0 to |pins|
      invariant Patience(pins, lengths[..i], tails)
    {
      var currLine := pins[i].currLine;
      var slot := LowerBound(tails, currLine);
      DealTails(pins, lengths[..i], tails, slot);
      lengths[i] := slot + 1;
      tails := if slot == |tails| then tails + [currLine] else tails[slot := currLine];
      assert lengths[..i + 1] == lengths[..i] + [slot + 1];
    }
    assert lengths[..] == lengths[..|pins|];
    ranks := |tails|;
  }

  // ---- least totals, one prefix-minimum index per rank ----

  /** `least` is the least total recorded so far for pins of this rank and current line. */
  ghost predicate Records(
    pins: seq<WeightedPin>, lengths: seq<int>, totals: seq<int>, rank: int, currLine: int, least: Distance)
    requires |totals| <= |lengths| == |pins|
  {
    && (forall j: nat | j < |totals| && lengths[j] == rank && pins[j].currLine == currLine ::
          !Finite(totals[j]).Less(least))
    && (least.Finite? ==>
          exists j: nat ::
                j < |totals| && lengths[j] == rank && pins[j].currLine == currLine && totals[j] == least.value)
  }

  /** An index holds, at each coordinate of its rank, the least total recorded so far. */
  ghost predicate IndexExact(
    pins: seq<WeightedPin>, lengths: seq<int>, totals: seq<int>, rank: int, sorted: seq<int>, minima: seq<Distance>)
    requires |totals| <= |lengths| == |pins|
  {
    && |minima| == |sorted| && StrictlyAscending(sorted)
    && (forall j: nat | j < |pins| && lengths[j] == rank :: pins[j].currLine in sorted)
    && (forall q: nat | q < |sorted| :: Records(pins, lengths, totals, rank, sorted[q], minima[q]))
  }

  lemma {:induction false} RecordsStep(
    pins: seq<WeightedPin>, lengths: seq<int>, totals: seq<int>, total: int, rank: int, currLine: int, least: Distance)
    requires |totals| < |lengths| == |pins|
    requires Records(pins, lengths, totals, rank, currLine, least)
    ensures
      var i := |totals|;
      Records(pins, lengths, totals + [total], rank, currLine,
              if lengths[i] == rank && pins[i].currLine == currLine then Shorter(least, Finite(total)) else least)
  {
    var extended := totals + [total];
    assert extended[|totals|] == total;
    if least.Finite? {
      var j: nat :| j < |totals| && lengths[j] == rank && pins[j].currLine == currLine && totals[j] == least.value;
      assert extended[j] == least.value;
    }
  }

  /** Recording pin |totals| keeps an index exact; only the index of its rank moves, at one coordinate. */
  lemma {:induction false} IndexStep(
    pins: seq<WeightedPin>, lengths: seq<int>, totals: seq<int>, total: int, rank: int, sorted: seq<int>,
    before: seq<Distance>, after: seq<Distance>)
    requires |totals| < |lengths| == |pins|
    requires IndexExact(pins, lengths, totals, rank, sorted, before)
    requires lengths[|totals|] != rank ==> after == before
    requires lengths[|totals|] == rank ==>
               exists q: nat :: q < |sorted| && sorted[q] == pins[|totals|].currLine
                                && after == before[q := Shorter(before[q], Finite(total))]
    ensures IndexExact(pins, lengths, totals + [total], rank, sorted, after)
  {
    forall q: nat | q < |sorted| ensures Records(pins, lengths, totals + [total], rank, sorted[q], after[q]) {
      assert Records(pins, lengths, totals, rank, sorted[q], before[q]);
      RecordsStep(pins, lengths, totals, total, rank, sorted[q], before[q]);
      if lengths[|totals|] == rank {
        var q': nat :| q' < |sorted| && sorted[q'] == pins[|totals|].currLine
                       && after == before[q' := Shorter(before[q'], Finite(total))];
        assert q == q' <==> sorted[q] == pins[|totals|].currLine;
      }
    }
  }

  /** A query below pin |totals| in the index of the rank before gives the least predecessor total. */
  lemma {:induction false} QueryIsLeast(
    pins: seq<WeightedPin>, lengths: seq<int>, totals: seq<int>, sorted: seq<int>, minima: seq<Distance>,
    at: nat, best: Distance)
    requires LengthsLocal(pins, lengths) && |totals| < |lengths| == |pins| && lengths[|totals|] > 1
    requires IndexExact(pins, lengths, totals, lengths[|totals|] - 1, sorted, minima)
    requires IsLowerBound(sorted, pins[|totals|].currLine, at) && best == RangeMin(minima, 0, at)
    ensures best.Finite?
    ensures TotalLocal(pins, lengths, totals, |totals|, pins[|totals|].displacement + best.value)
  {
    var i := |totals|;
    RangeMinExact(minima, 0, at);
    forall j: nat | Predecessor(pins, lengths, j, i) ensures !Finite(totals[j]).Less(best) {
      var q: nat :| q < |sorted| && sorted[q] == pins[j].currLine;
      assert Records(pins, lengths, totals, lengths[i] - 1, sorted[q], minima[q]);
      assert !minima[q].Less(best);
    }
    assert HasPredecessor(pins, lengths, i);
    var p: nat :| Predecessor(pins, lengths, p, i);
    assert !Finite(totals[p]).Less(best);
    var q :| 0 <= q < at && minima[q] == best;
    assert Records(pins, lengths, totals, lengths[i] - 1, sorted[q], minima[q]);
    var j: nat :| j < |totals| && lengths[j] == lengths[i] - 1 && pins[j].currLine == sorted[q]
        && totals[j] == best.value;
    assert Predecessor(pins, lengths, j, i);
  }

  ghost predicate IndexFamily(indexes: seq<RankDisplacementIndex>)
    reads indexes, set r | 0 <= r < |indexes| :: indexes[r].tree
  {
    && (forall r | 0 <= r < |indexes| :: indexes[r].Valid())
    && (forall r, t | 0 <= r < t < |indexes| :: indexes[r] != indexes[t] && indexes[r].tree != indexes[t].tree)
  }

  ghost predicate FamilyExact(
    pins: seq<WeightedPin>, lengths: seq<int>, totals: seq<int>, indexes: seq<RankDisplacementIndex>)
    requires |totals| <= |lengths| == |pins|
    reads indexes
  {
    forall r | 0 <= r < |indexes| ::
      IndexExact(pins, lengths, totals, r + 1, indexes[r].sorted, indexes[r].minima)
  }

  /** The current lines of each rank. */
  method RankValues(pins: seq<WeightedPin>, lengths: array<int>, ranks: nat) returns (rankValues: seq<seq<int>>)
    requires lengths.Length == |pins|
    requires forall i | 0 <= i < |pins| :: 1 <= lengths[i] <= ranks
    ensures |rankValues| == ranks
    ensures forall j | 0 <= j < |pins| :: pins[j].currLine in rankValues[lengths[j] - 1]
  {
    rankValues := seq(ranks, _ => []);
    for i := 0 to |pins|
      invariant |rankValues| == ranks
      invariant forall j | 0 <= j < i :: pins[j].currLine in rankValues[lengths[j] - 1]
    {
      var rank := lengths[i] - 1;
      rankValues := rankValues[rank := rankValues[rank] + [pins[i].currLine]];
    }
  }

  /** A fresh index over the current lines of each rank. */
  method RankIndexes(pins: seq<WeightedPin>, lengths: array<int>, ranks: nat)
    returns (indexes: seq<RankDisplacementIndex>)
    requires lengths.Length == |pins|
    requires forall i | 0 <= i < |pins| :: 1 <= lengths[i] <= ranks
    ensures |indexes| == ranks && IndexFamily(indexes)
    ensures forall r | 0 <= r < ranks :: fresh(indexes[r]) && fresh(indexes[r].tree)
    ensures FamilyExact(pins, lengths[..], [], indexes)
  {
    hide SortedDistinct;
    var rankValues := RankValues(pins, lengths, ranks);
    indexes := [];
    for r := 0 to ranks
      invariant |indexes| == r && IndexFamily(indexes)
      invariant forall t | 0 <= t < r :: fresh(indexes[t]) && fresh(indexes[t].tree)
      invariant forall t | 0 <= t < r :: indexes[t].sorted == SortedDistinct(rankValues[t])
      invariant forall t, q | 0 <= t < r && 0 <= q < |indexes[t].minima| :: indexes[t].minima[q] == Infinity
    {
      var index := new RankDisplacementIndex(rankValues[r]);
      indexes := indexes + [index];
    }
    forall r | 0 <= r < ranks
      ensures IndexExact(pins, lengths[..], [], r + 1, indexes[r].sorted, indexes[r].minima)
    {
      assert indexes[r].Valid();
    }
  }

  /** The least total of pin i, from the index of the rank before it. */
  method LeastTotal(
    pins: seq<WeightedPin>, lengths: array<int>, ghost totals: seq<int>, indexes: seq<RankDisplacementIndex>, i: nat)
    returns (shortest: int)
    requires lengths.Length == |pins| && LengthsLocal(pins, lengths[..])
    requires i == |totals| < |pins| && lengths[i] <= |indexes|
    requires IndexFamily(indexes) && FamilyExact(pins, lengths[..], totals, indexes)
    ensures TotalLocal(pins, lengths[..], totals, i, shortest)
  {
    var rank := lengths[i];
    shortest := pins[i].displacement;
    if rank > 1 {
      var index := indexes[rank - 2];
      assert index.Valid();
      var predecessor := index.QueryBelow(pins[i].currLine);
      ghost var at: nat :| IsLowerBound(index.sorted, pins[i].currLine, at)
          && predecessor == RangeMin(index.minima, 0, at);
      assert IndexExact(pins, lengths[..], totals, (rank - 2) + 1, index.sorted, index.minima);
      QueryIsLeast(pins, lengths[..], totals, index.sorted, index.minima, at, predecessor);
      if predecessor.Finite? { shortest := shortest + predecessor.value; }
    } else {
      assert lengths[..][i] >= 1;
    }
  }

  /** Record the total of pin i in the index of its rank. */
  method RecordTotal(
    pins: seq<WeightedPin>, lengths: array<int>, ghost totals: seq<int>, indexes: seq<RankDisplacementIndex>,
    i: nat, total: int)
    requires lengths.Length == |pins| && i == |totals| < |pins| && 1 <= lengths[i] <= |indexes|
    requires IndexFamily(indexes) && FamilyExact(pins, lengths[..], totals, indexes)
    modifies indexes[lengths[i] - 1], indexes[lengths[i] - 1].tree
    ensures lengths[..] == old(lengths[..])
    ensures IndexFamily(indexes) && FamilyExact(pins, lengths[..], totals + [total], indexes)
  {
    var rank := lengths[i] - 1;
    var index := indexes[rank];
    ghost var before := seq(|indexes|, r requires 0 <= r < |indexes| reads indexes => indexes[r].minima);
    assert index.Valid();
    assert IndexExact(pins, lengths[..], totals, rank + 1, index.sorted, index.minima);
    index.Update(pins[i].currLine, total);
    forall r | 0 <= r < |indexes|
      ensures indexes[r].Valid()
      ensures IndexExact(pins, lengths[..], totals + [total], r + 1, indexes[r].sorted, indexes[r].minima)
    {
      IndexStep(pins, lengths[..], totals, total, r + 1, indexes[r].sorted, before[r], indexes[r].minima);
    }
  }

  /** The second scan has settled the totals of the first pins, and the indexes hold them. */
  ghost predicate Scanned(
    pins: seq<WeightedPin>, lengths: array<int>, totals: seq<int>, indexes: seq<RankDisplacementIndex>)
    reads lengths, indexes, set r | 0 <= r < |indexes| :: indexes[r].tree
  {
    && lengths.Length == |pins| && LengthsLocal(pins, lengths[..])
    && (forall i | 0 <= i < |pins| :: 1 <= lengths[i] <= |indexes|)
    && TotalsLocal(pins, lengths[..], totals)
    && IndexFamily(indexes) && FamilyExact(pins, lengths[..], totals, indexes)
  }

  method ScanPin(
    pins: seq<WeightedPin>, lengths: array<int>, ghost totals: seq<int>, indexes: seq<RankDisplacementIndex>, i: nat)
    returns (shortest: int)
    requires i == |totals| < |pins| && Scanned(pins, lengths, totals, indexes)
    modifies indexes, set r | 0 <= r < |indexes| :: indexes[r].tree
    ensures lengths[..] == old(lengths[..])
    ensures Scanned(pins, lengths, totals + [shortest], indexes)
  {
    shortest := LeastTotal(pins, lengths, totals, indexes, i);
    ExtendTotals(pins, lengths[..], totals, shortest);
    ghost var column := lengths[..];
    assert forall k | 0 <= k < |pins| :: column[k] == lengths[k];
    hide TotalsLocal, TotalLocal, LengthsLocal, FamilyExact, IndexFamily;
    RecordTotal(pins, lengths, totals, indexes, i, shortest);
    assert lengths[..] == column;
    assert forall k | 0 <= k < |pins| :: column[k] == lengths[k];
  }

  /** The second scan: the least total of every pin, in pin order. */
  method MinDisplacements(pins: seq<WeightedPin>, lengths: array<int>, indexes: seq<RankDisplacementIndex>)
    returns (displacements: array<int>)
    requires Scanned(pins, lengths, [], indexes)
    modifies indexes, set r | 0 <= r < |indexes| :: indexes[r].tree
    ensures lengths[..] == old(lengths[..]) && displacements.Length == |pins|
    ensures TotalsLocal(pins, lengths[..], displacements[..])
  {
    hide TotalsLocal, TotalLocal, LengthsLocal, FamilyExact, IndexFamily;
    displacements := new int[|pins|](_ => 0);
    assert displacements[..0] == [];
    for i := 0 to |pins|
      invariant lengths[..] == old(lengths[..])
      invariant Scanned(pins, lengths, displacements[..i], indexes)
    {
      ghost var totals := displacements[..i];
      var shortest := ScanPin(pins, lengths, totals, indexes, i);
      displacements[i] := shortest;
      assert displacements[..i + 1] == totals + [shortest];
    }
    assert displacements[..] == displacements[..|pins|];
  }

  lemma {:induction false} ExtendTotals(pins: seq<WeightedPin>, lengths: seq<int>, totals: seq<int>, total: int)
    requires |totals| < |lengths| == |pins|
    requires TotalsLocal(pins, lengths, totals) && TotalLocal(pins, lengths, totals, |totals|, total)
    ensures TotalsLocal(pins, lengths, totals + [total])
  {
    var extended := totals + [total];
    forall i: nat | i < |extended| ensures TotalLocal(pins, lengths, extended, i, extended[i]) {
      assert TotalLocal(pins, lengths, totals, i, extended[i]);
    }
  }

  /**
   For every pin, the length of the longest chain that ends at it and the least total of the chains of
   that length.
   */
  method ComputeLengthAndMinDisplacement(pins: seq<WeightedPin>)
    returns (lengths: array<int>, displacements: array<int>)
    ensures ForwardExact(pins, lengths[..], displacements[..])
  {
    var ranks;
    lengths, ranks := PatienceLengths(pins);
    assert forall i | 0 <= i < |pins| :: lengths[..][i] >= 1;
    var indexes := RankIndexes(pins, lengths, ranks);
    displacements := MinDisplacements(pins, lengths, indexes);
    LocalIsExact(pins, lengths[..], displacements[..]);
  }

  // ---- the backbone ----

  datatype AnchorPin = AnchorPin(prevLine: nat, currLine: nat)

  function PinDisplacement(pin: AnchorPin): nat {
    if pin.prevLine < pin.currLine then pin.currLine - pin.prevLine else pin.prevLine - pin.currLine
  }

  function Weigh(pins: seq<AnchorPin>): (r: seq<WeightedPin>)
    ensures |r| == |pins|
    ensures forall i | 0 <= i < |pins| ::
              r[i] == WeightedPin(pins[i].prevLine, pins[i].currLine, PinDisplacement(pins[i]))
    ensures forall i | 0 <= i < |pins| ::
              r[i].displacement >= 0
              && (pins[i].prevLine + r[i].displacement == pins[i].currLine
                  || pins[i].currLine + r[i].displacement == pins[i].prevLine)
  {
    seq(|pins|, i requires 0 <= i < |pins| =>
      WeightedPin(pins[i].prevLine, pins[i].currLine, PinDisplacement(pins[i])))
  }

  /** The second list is the first with the displacement of every pin. */
  ghost predicate Weighs(pins: seq<AnchorPin>, weighted: seq<WeightedPin>) {
    && |weighted| == |pins|
    && forall i | 0 <= i < |pins| ::
         weighted[i] == WeightedPin(pins[i].prevLine, pins[i].currLine, PinDisplacement(pins[i]))
  }

  /** The pins among the first `count` that lie on every optimal chain, in order. */
  ghost function StablePins(pins: seq<AnchorPin>, count: nat): seq<AnchorPin>
    requires count <= |pins|
  {
    if count == 0 then []
    else StablePins(pins, count - 1)
         + if OnEveryOptimalChain(Weigh(pins), count - 1) then [pins[count - 1]] else []
  }

  /** The whole backbone. */
  ghost predicate AreTheStablePins(pins: seq<AnchorPin>, stable: seq<AnchorPin>) {
    stable == StablePins(pins, |pins|)
  }

  /** The best length, and the least total among the pins on chains of that length. */
  method BestOfPasses(
    pins: seq<WeightedPin>, lengths: seq<int>, totals: seq<int>, suffixLengths: seq<int>, suffixTotals: seq<int>)
    returns (p: Passes)
    requires pins != [] && ForwardExact(pins, lengths, totals) && BackwardExact(pins, suffixLengths, suffixTotals)
    ensures p == Passes(lengths, totals, suffixLengths, suffixTotals, p.best, p.bestTotal)
    ensures p.Exact(pins)
  {
    var bestLength := 0;
    for i := 0 to |pins|
      invariant forall k | 0 <= k < i :: lengths[k] <= bestLength
      invariant bestLength == 0 || exists k | 0 <= k < i :: lengths[k] == bestLength
    {
      if lengths[i] > bestLength { bestLength := lengths[i]; }
    }
    assert lengths[0] >= 1 by { assert Attainable(pins, lengths, totals, 0); }
    p := Passes(lengths, totals, suffixLengths, suffixTotals, bestLength, 0);
    ghost var some := SomePinIsBest(pins, p);
    var bestTotal := Infinity;
    for i := 0 to |pins|
      invariant forall k: nat | k < i && p.Through(k) == bestLength :: !Finite(p.Total(pins, k)).Less(bestTotal)
      invariant bestTotal.Finite? ==>
                  exists k: nat :: k < i && p.Through(k) == bestLength && p.Total(pins, k) == bestTotal.value
    {
      if p.Through(i) == bestLength && Finite(p.Total(pins, i)).Less(bestTotal) {
        bestTotal := Finite(p.Total(pins, i));
      }
    }
    assert bestTotal.Finite? by { assert p.Through(some) == bestLength; }
    var q := p.(bestTotal := bestTotal.value);
    assert forall i: nat | i < |pins| :: q.Through(i) == p.Through(i) && q.Total(pins, i) == p.Total(pins, i);
    ghost var k: nat :| k < |pins| && p.Through(k) == bestLength && p.Total(pins, k) == bestTotal.value;
    assert q.Optimal(pins, k);
    p := q;
  }

  /** How many of the first `count` pins are optimal at a rank. */
  function OptimalAtRank(pins: seq<WeightedPin>, p: Passes, rank: int, count: nat): nat
    requires p.Sized(|pins|) && count <= |pins|
  {
    if count == 0 then 0
    else OptimalAtRank(pins, p, rank, count - 1)
         + if p.Optimal(pins, count - 1) && p.lengths[count - 1] == rank then 1 else 0
  }

  lemma {:induction false} NoneAtRank(pins: seq<WeightedPin>, p: Passes, rank: int, count: nat)
    requires p.Sized(|pins|) && count <= |pins|
    ensures OptimalAtRank(pins, p, rank, count) == 0
            <==> forall j: nat | j < count && p.Optimal(pins, j) :: p.lengths[j] != rank
  {
    if count > 0 {
      NoneAtRank(pins, p, rank, count - 1);
    }
  }

  lemma {:induction false} OneAtRank(pins: seq<WeightedPin>, p: Passes, i: nat, count: nat)
    requires p.Sized(|pins|) && i < count <= |pins| && p.Optimal(pins, i)
    ensures OptimalAtRank(pins, p, p.lengths[i], count) >= 1
    ensures OptimalAtRank(pins, p, p.lengths[i], count) == 1
            <==> forall j: nat | j < count && p.Optimal(pins, j) && p.lengths[j] == p.lengths[i] :: j == i
  {
    NoneAtRank(pins, p, p.lengths[i], count - 1);
    if i < count - 1 {
      OneAtRank(pins, p, i, count - 1);
    }
  }

  lemma {:induction false} StableIffCounted(pins: seq<WeightedPin>, p: Passes, i: nat)
    requires p.Exact(pins) && i < |pins|
    ensures OnEveryOptimalChain(pins, i)
            <==> p.Optimal(pins, i) && OptimalAtRank(pins, p, p.lengths[i], |pins|) == 1
  {
    StableIff(pins, p, i);
    if p.Optimal(pins, i) {
      OneAtRank(pins, p, i, |pins|);
    }
  }

  lemma {:induction false} ExactIsSized(pins: seq<WeightedPin>, p: Passes)
    requires p.Exact(pins)
    ensures p.Sized(|pins|)
  {
  }

  /** How many pins sit on optimal chains, by their place in the chain. */
  method CountRanks(weighted: seq<WeightedPin>, p: Passes) returns (optimalAtRank: map<int, nat>)
    requires p.Sized(|weighted|)
    ensures forall rank :: (if rank in optimalAtRank then optimalAtRank[rank] else 0)
                           == OptimalAtRank(weighted, p, rank, |weighted|)
  {
    optimalAtRank := map[];
    for i := 0 to |weighted|
      invariant forall rank :: (if rank in optimalAtRank then optimalAtRank[rank] else 0)
                               == OptimalAtRank(weighted, p, rank, i)
    {
      if p.Optimal(weighted, i) {
        var rank := p.lengths[i];
        optimalAtRank := optimalAtRank[rank := (if rank in optimalAtRank then optimalAtRank[rank] else 0) + 1];
      }
    }
  }

  /** Keep the pins no competing optimal chain can bypass. */
  method SelectStable(pins: seq<AnchorPin>, weighted: seq<WeightedPin>, p: Passes) returns (stable: seq<AnchorPin>)
    requires Weighs(pins, weighted) && p.Exact(weighted)
    ensures AreTheStablePins(pins, stable)
  {
    hide Passes.Exact, OnEveryOptimalChain;
    assert weighted == Weigh(pins);
    ExactIsSized(weighted, p);
    var optimalAtRank := CountRanks(weighted, p);
    stable := [];
    for i := 0 to |pins|
      invariant stable == StablePins(pins, i)
    {
      StableIffCounted(weighted, p, i);
      if p.Optimal(weighted, i) {
        OneAtRank(weighted, p, i, |pins|);
        if optimalAtRank[p.lengths[i]] == 1 { stable := stable + [pins[i]]; }
      }
    }
  }

  /** The pins on every longest, lightest chain, in order, and no others. */
  method FindStablePinBackbone(pins: seq<AnchorPin>) returns (stable: seq<AnchorPin>)
    ensures stable == StablePins(pins, |pins|)
  {
    if pins == [] {
      return [];
    }
    var weighted := Weigh(pins);
    var lengths, totals := ComputeLengthAndMinDisplacement(weighted);
    var backLengths, backTotals := ComputeLengthAndMinDisplacement(Mirror(weighted));
    MirrorIsExact(weighted, backLengths[..], backTotals[..]);
    var p := BestOfPasses(weighted, lengths[..], totals[..], Reversed(backLengths[..]), Reversed(backTotals[..]));
    stable := SelectStable(pins, weighted, p);
  }

  // ---- the backbone is itself a chain ----

  ghost predicate PinsAscend(pins: seq<AnchorPin>) {
    forall a, b | 0 <= a < b < |pins| :: pins[a].prevLine < pins[b].prevLine && pins[a].currLine < pins[b].currLine
  }

  ghost predicate PinsInOrder(pins: seq<AnchorPin>) {
    forall a, b | 0 <= a < b < |pins| :: pins[a].prevLine < pins[b].prevLine
  }

  lemma {:induction false} ChainIndexes(pins: seq<WeightedPin>, s: Chain, k: nat)
    requires IsChain(pins, s) && k < |s|
    ensures k <= s[k] && s[k] + (|s| - k) <= |pins|
    decreases k
  {
    if k > 0 {
      ChainIndexes(pins, s, k - 1);
      assert Before(pins, s[k - 1], s[k]);
    }
    ChainRoom(pins, s, k);
  }

  lemma {:induction false} ChainRoom(pins: seq<WeightedPin>, s: Chain, k: nat)
    requires IsChain(pins, s) && k < |s|
    ensures s[k] + (|s| - k) <= |pins|
    decreases |s| - k
  {
    if k + 1 < |s| {
      ChainRoom(pins, s, k + 1);
      assert Before(pins, s[k], s[k + 1]);
    }
  }

  lemma {:induction false} WeightNonNegative(pins: seq<WeightedPin>, s: Chain)
    requires forall k | 0 <= k < |s| :: s[k] < |pins|
    requires forall i | 0 <= i < |pins| :: pins[i].displacement >= 0
    ensures Weight(pins, s) >= 0
    decreases |s|
  {
    if s != [] {
      WeightNonNegative(pins, s[..|s| - 1]);
    }
  }

  lemma {:induction false} SomeLongest(pins: seq<WeightedPin>, start: Chain) returns (s: Chain)
    requires IsChain(pins, start)
    ensures IsChain(pins, s) && forall t | IsChain(pins, t) :: |t| <= |s|
    decreases |pins| - |start|
  {
    s := start;
    if t :| IsChain(pins, t) && |t| > |start| {
      ChainIndexes(pins, t, 0);
      s := SomeLongest(pins, t);
    }
  }

  lemma {:induction false} SomeLightest(pins: seq<WeightedPin>, start: Chain) returns (s: Chain)
    requires IsChain(pins, start) && forall t | IsChain(pins, t) :: |t| <= |start|
    requires forall i | 0 <= i < |pins| :: pins[i].displacement >= 0
    ensures IsOptimalChain(pins, s)
    decreases Weight(pins, start)
  {
    s := start;
    if t :| IsChain(pins, t) && |t| == |start| && Weight(pins, t) < Weight(pins, start) {
      WeightNonNegative(pins, t);
      WeightNonNegative(pins, start);
      s := SomeLightest(pins, t);
    }
  }

  lemma {:induction false} SomeOptimalChain(pins: seq<AnchorPin>) returns (s: Chain)
    ensures IsOptimalChain(Weigh(pins), s)
  {
    s := SomeLongest(Weigh(pins), []);
    s := SomeLightest(Weigh(pins), s);
  }

  lemma {:induction false} StableOnChain(pins: seq<AnchorPin>, i: nat, j: nat)
    requires i < j < |pins| && OnEveryOptimalChain(Weigh(pins), i) && OnEveryOptimalChain(Weigh(pins), j)
    ensures pins[i].currLine < pins[j].currLine
  {
    var weighted := Weigh(pins);
    var s := SomeOptimalChain(pins);
    var a :| 0 <= a < |s| && s[a] == i;
    var b :| 0 <= b < |s| && s[b] == j;
    assert a < b ==> Before(weighted, s[a], s[b]);
    assert b < a ==> Before(weighted, s[b], s[a]);
  }

  /** `pin` is one of the first `count` pins and on every optimal chain. */
  ghost predicate Keeps(pins: seq<AnchorPin>, count: nat, pin: AnchorPin) {
    exists i: nat :: i < count <= |pins| && OnEveryOptimalChain(Weigh(pins), i) && pin == pins[i]
  }

  lemma {:induction false} KeptBelow(pins: seq<AnchorPin>, count: nat, pin: AnchorPin)
    requires PinsInOrder(pins) && count < |pins| && OnEveryOptimalChain(Weigh(pins), count)
    requires Keeps(pins, count, pin)
    ensures pin.prevLine < pins[count].prevLine && pin.currLine < pins[count].currLine
  {
    var i: nat :| i < count && OnEveryOptimalChain(Weigh(pins), i) && pin == pins[i];
    StableOnChain(pins, i, count);
  }

  lemma {:induction false} KeptLater(pins: seq<AnchorPin>, count: nat, pin: AnchorPin)
    requires count < |pins|
    requires Keeps(pins, count, pin) || (OnEveryOptimalChain(Weigh(pins), count) && pin == pins[count])
    ensures Keeps(pins, count + 1, pin)
  {
  }

  /** A kept pin is one of the given pins, and the kept pins ascend on both sides. */
  lemma {:induction false} StablePinsAscend(pins: seq<AnchorPin>, count: nat)
    requires count <= |pins| && PinsInOrder(pins)
    ensures forall pin | pin in StablePins(pins, count) :: Keeps(pins, count, pin)
    ensures PinsAscend(StablePins(pins, count))
  {
    hide OnEveryOptimalChain, Weigh, Keeps;
    if count > 0 {
      StablePinsAscend(pins, count - 1);
      var kept := StablePins(pins, count - 1);
      forall pin | pin in StablePins(pins, count) ensures Keeps(pins, count, pin) {
        KeptLater(pins, count - 1, pin);
      }
      if OnEveryOptimalChain(Weigh(pins), count - 1) {
        forall a | 0 <= a < |kept|
          ensures kept[a].prevLine < pins[count - 1].prevLine && kept[a].currLine < pins[count - 1].currLine
        {
          KeptBelow(pins, count - 1, kept[a]);
        }
      }
    }
  }

  /** Pins that already ascend on both sides are all kept. */
  lemma {:induction false} AllStable(pins: seq<AnchorPin>, i: nat)
    requires PinsAscend(pins) && i < |pins|
    ensures OnEveryOptimalChain(Weigh(pins), i)
  {
    var weighted := Weigh(pins);
    var all: Chain := seq(|pins|, k requires 0 <= k < |pins| => k);
    assert IsChain(weighted, all);
    forall s | IsOptimalChain(weighted, s) ensures i in s {
      assert |all| <= |s|;
      if s != [] {
        ChainIndexes(weighted, s, 0);
        ChainIndexes(weighted, s, i);
      }
      assert s[i] == i;
    }
  }

  lemma {:induction false} AscendingPinsAreStable(pins: seq<AnchorPin>, count: nat)
    requires PinsAscend(pins) && count <= |pins|
    ensures StablePins(pins, count) == pins[..count]
  {
    hide OnEveryOptimalChain, Weigh;
    if count > 0 {
      AscendingPinsAreStable(pins, count - 1);
      AllStable(pins, count - 1);
    }
  }
}
