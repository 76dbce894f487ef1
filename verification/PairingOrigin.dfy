/**
 Where every pair of a pairing comes from, told without the recursion and without the budget: an interval reached by
 cutting at stable pins, and there a stable pin, a rigid run, or the one optimal alignment. With a budget for every
 scan the pairing is exactly these pairs; with less it is a part of them.
 */
module PairingOrigin {
  import opened Numbers
  import opened Digests
  import opened LcsAlignment
  import opened PinBackbone
  import opened Pairing
  import opened PairingDrift

  // ---- intervals cut at stable pins ----

  /** The interval between pin k - 1 and pin k, or up to the ends of the interval. */
  function GapAt(iv: Interval, pins: seq<AnchorPin>, k: nat): Interval
    requires k <= |pins|
  {
    Interval(
      if k == 0 then iv.pStart else pins[k - 1].prevLine + 1, if k == |pins| then iv.pEnd else Dec(pins[k].prevLine),
      if k == 0 then iv.cStart else pins[k - 1].currLine + 1, if k == |pins| then iv.cEnd else Dec(pins[k].currLine))
  }

  ghost predicate IsGapOf(t: Texts, inner: Interval, outer: Interval) {
    && outer.Fits(t) && StablePinsOf(t, outer) != []
    && exists k: nat :: k <= |StablePinsOf(t, outer)| && inner == GapAt(outer, StablePinsOf(t, outer), k)
  }

  /** Each interval is a gap between the stable pins of the one before. */
  ghost predicate IsNesting(t: Texts, chain: seq<Interval>) {
    chain != [] && forall i | 0 <= i < |chain| - 1 :: IsGapOf(t, chain[i + 1], chain[i])
  }

  ghost predicate NestedIn(t: Texts, inner: Interval, outer: Interval) {
    exists chain :: IsNesting(t, chain) && chain[0] == outer && chain[|chain| - 1] == inner
  }

  // ---- what an interval itself gives ----

  /** A stable pin of this interval; or, if it has none, a line of a rigid run or a pair of the sole optimum. */
  ghost predicate GivesPair(t: Texts, iv: Interval, p: nat, c: nat) {
    && iv.Fits(t)
    && (|| AnchorPin(p, c) in StablePinsOf(t, iv)
        || (StablePinsOf(t, iv) == [] && iv.Holds(p, c) && RigidRun(t, iv) && c - iv.cStart == p - iv.pStart)
        || (StablePinsOf(t, iv) == [] && !RigidRun(t, iv) && InSoleOptimum(t, iv, p, c)))
  }

  /** A pair of the only longest embedding of an interval of at most 2000 lines on either side. */
  ghost predicate InSoleOptimum(t: Texts, iv: Interval, p: nat, c: nat)
    requires iv.Fits(t)
  {
    && iv.PCount() <= 2000 && iv.CCount() <= 2000
    && exists e :: IsTheOptimum(WindowOf(t, iv), iv.pStart, iv.cStart, e) && LinePair(p, c) in e
  }

  ghost predicate HasOrigin(t: Texts, outer: Interval, p: nat, c: nat) {
    exists inner :: NestedIn(t, inner, outer) && GivesPair(t, inner, p, c)
  }

  lemma {:induction false} OwnOrigin(t: Texts, iv: Interval, p: nat, c: nat)
    requires GivesPair(t, iv, p, c)
    ensures HasOrigin(t, iv, p, c)
  {
    hide GivesPair;
    assert IsNesting(t, [iv]);
    assert NestedIn(t, iv, iv);
  }

  lemma {:induction false} GapOrigin(t: Texts, gap: Interval, outer: Interval, p: nat, c: nat)
    requires IsGapOf(t, gap, outer) && HasOrigin(t, gap, p, c)
    ensures HasOrigin(t, outer, p, c)
  {
    hide GivesPair, IsGapOf;
    var inner :| NestedIn(t, inner, gap) && GivesPair(t, inner, p, c);
    var chain :| IsNesting(t, chain) && chain[0] == gap && chain[|chain| - 1] == inner;
    var longer := [outer] + chain;
    forall i | 0 <= i < |longer| - 1 ensures IsGapOf(t, longer[i + 1], longer[i]) {
      if i > 0 {
        assert longer[i] == chain[i - 1] && longer[i + 1] == chain[i];
      }
    }
    assert IsNesting(t, longer) && longer[|longer| - 1] == inner;
    assert NestedIn(t, inner, outer);
  }

  // ---- leaves ----

  lemma {:induction false} SmallEnough(iv: Interval)
    requires iv.PCount() >= 0 && iv.CCount() >= 0
    ensures !TooLarge(iv) <==> iv.PCount() <= 2000 && iv.CCount() <= 2000
  {
    if iv.PCount() <= 2000 && iv.CCount() <= 2000 {
      assert iv.PCount() * iv.CCount() <= 2000 * iv.CCount();
    }
  }

  /** Without a sole optimum a leaf that is not rigid gives nothing; with one, exactly its pairs. */
  lemma {:induction false} LeafGives(t: Texts, iv: Interval, p: nat, c: nat)
    requires iv.Fits(t) && StablePinsOf(t, iv) == []
    ensures p in Leaf(t, iv) && Leaf(t, iv)[p] == c <==> GivesPair(t, iv, p, c)
  {
    hide RigidRun, IsTheOptimum, PairsOf, TooLarge;
    SmallEnough(iv);
    if RigidRun(t, iv) {
      RigidLeaf(t, iv, p, c);
    } else if !TooLarge(iv) && HasOptimum(t, iv) {
      var e :| IsTheOptimum(WindowOf(t, iv), iv.pStart, iv.cStart, e);
      OptimumIsLeaf(t, iv, e);
      OptimumAscends(t, iv, e);
      PairsOfExact(e);
      forall f | IsTheOptimum(WindowOf(t, iv), iv.pStart, iv.cStart, f) ensures f == e {
        OneSoleOptimum(WindowOf(t, iv), iv.pStart, iv.cStart, e, f);
      }
    } else {
      assert Leaf(t, iv) == map[];
    }
  }

  lemma {:induction false} RigidLeaf(t: Texts, iv: Interval, p: nat, c: nat)
    requires iv.Fits(t) && StablePinsOf(t, iv) == [] && RigidRun(t, iv)
    ensures p in Leaf(t, iv) && Leaf(t, iv)[p] == c <==> iv.Holds(p, c) && c - iv.cStart == p - iv.pStart
  {
    hide StablePinsOf;
  }

  lemma {:induction false} OneSoleOptimum(w: Window, p: nat, c: nat, e: Embedding, f: Embedding)
    requires w.From(p, c) && IsTheOptimum(w, p, c, e) && IsTheOptimum(w, p, c, f)
    ensures e == f
  {
    hide IsEmbedding;
    assert |e| <= |f| && |f| <= |e|;
  }

  // ---- every pair has an origin, under any budget ----

  lemma {:induction false} GapsOfRest(iv: Interval, pins: seq<AnchorPin>, k: nat)
    requires pins != [] && k <= |pins| - 1
    ensures GapAt(AfterPin(iv, pins[0]), pins[1..], k) == GapAt(iv, pins, k + 1)
    ensures GapAt(iv, pins, 0) == Gap(iv, pins)
  {
  }

  /** A pair that lies in one of the gaps, with an origin there. */
  ghost predicate FromSomeGap(t: Texts, iv: Interval, pins: seq<AnchorPin>, p: nat, c: nat) {
    exists k: nat :: k <= |pins| && HasOrigin(t, GapAt(iv, pins, k), p, c)
  }

  lemma {:induction false} AlignOrigin(t: Texts, iv: Interval, budget: int, p: nat)
    requires iv.Fits(t) && p in Align(t, iv, budget).pairs
    ensures HasOrigin(t, iv, p, Align(t, iv, budget).pairs[p])
    decreases iv.Length(), 1
  {
    hide Align, AlignGaps, Leaf, StablePinsOf, PinsWithin, HasOrigin, GivesPair, IsGapOf;
    AlignUnfold(t, iv, budget);
    var c := Align(t, iv, budget).pairs[p];
    if !iv.Empty() && budget >= iv.Length() {
      var pins := StablePinsOf(t, iv);
      if pins == [] {
        LeafGives(t, iv, p, c);
        OwnOrigin(t, iv, p, c);
      } else {
        GapsOrigin(t, iv, pins, budget - iv.Length(), p);
        if AnchorPin(p, c) in pins {
          PinGives(t, iv, p, c);
          OwnOrigin(t, iv, p, c);
        } else {
          var k: nat :| k <= |pins| && HasOrigin(t, GapAt(iv, pins, k), p, c);
          ItsGap(t, iv, k);
          GapOrigin(t, GapAt(iv, pins, k), iv, p, c);
        }
      }
    }
  }

  lemma {:induction false} PinGives(t: Texts, iv: Interval, p: nat, c: nat)
    requires iv.Fits(t) && AnchorPin(p, c) in StablePinsOf(t, iv)
    ensures GivesPair(t, iv, p, c)
  {
    hide StablePinsOf;
  }

  lemma {:induction false} ItsGap(t: Texts, iv: Interval, k: nat)
    requires iv.Fits(t) && StablePinsOf(t, iv) != [] && k <= |StablePinsOf(t, iv)|
    ensures IsGapOf(t, GapAt(iv, StablePinsOf(t, iv), k), iv)
  {
    hide StablePinsOf;
  }

  lemma {:induction false} GapsOrigin(t: Texts, iv: Interval, pins: seq<AnchorPin>, budget: int, p: nat)
    requires iv.Fits(t) && PinsWithin(t, iv, pins) && p in AlignGaps(t, iv, pins, budget).pairs
    ensures
      var c := AlignGaps(t, iv, pins, budget).pairs[p];
      AnchorPin(p, c) in pins || FromSomeGap(t, iv, pins, p, c)
    decreases iv.Length(), if pins == [] then 2 else 0
  {
    hide Align, AlignGaps, PinsWithin, HasOrigin;
    var c := AlignGaps(t, iv, pins, budget).pairs[p];
    if pins == [] {
      NoGaps(t, iv, budget);
      AlignOrigin(t, iv, budget, p);
      assert GapAt(iv, pins, 0) == iv;
    } else {
      GapsFit(t, iv, pins);
      GapsUnfold(t, iv, pins, budget);
      var gap, rest := Gap(iv, pins), AfterPin(iv, pins[0]);
      var before := Align(t, gap, budget);
      var after := AlignGaps(t, rest, pins[1..], before.budget);
      if p in after.pairs {
        GapsOrigin(t, rest, pins[1..], before.budget, p);
        if AnchorPin(p, c) !in pins[1..] {
          var k: nat :| k <= |pins| - 1 && HasOrigin(t, GapAt(rest, pins[1..], k), p, c);
          GapsOfRest(iv, pins, k);
        }
      } else if p == pins[0].prevLine {
        assert AnchorPin(p, c) == pins[0];
      } else {
        AlignOrigin(t, gap, budget, p);
        GapsOfRest(iv, pins, 0);
      }
    }
  }

  // ---- with a budget for every scan, all pairs with an origin ----

  /** A budget for every scan gives one result, and spends just the length of the scans. */
  lemma {:induction false} EnoughIsEnough(t: Texts, iv: Interval, budget: int)
    requires iv.Fits(t) && budget >= ScanNeeded(t, iv)
    ensures Align(t, iv, budget).pairs == Align(t, iv, ScanNeeded(t, iv)).pairs
    ensures Align(t, iv, budget).budget == budget - ScanNeeded(t, iv)
    decreases iv.Length(), 1
  {
    hide Align, AlignGaps, Leaf, StablePinsOf, PinsWithin, GapsNeeded;
    var needed := ScanNeeded(t, iv);
    AlignUnfold(t, iv, budget);
    AlignUnfold(t, iv, needed);
    if !iv.Empty() && StablePinsOf(t, iv) != [] {
      EnoughForGaps(t, iv, StablePinsOf(t, iv), budget - iv.Length(), needed - iv.Length());
    }
  }

  lemma {:induction false} EnoughForGaps(t: Texts, iv: Interval, pins: seq<AnchorPin>, budget: int, other: int)
    requires iv.Fits(t) && PinsWithin(t, iv, pins)
    requires budget >= GapsNeeded(t, iv, pins) && other >= GapsNeeded(t, iv, pins)
    ensures AlignGaps(t, iv, pins, budget).pairs == AlignGaps(t, iv, pins, other).pairs
    ensures AlignGaps(t, iv, pins, budget).budget == budget - GapsNeeded(t, iv, pins)
    ensures AlignGaps(t, iv, pins, other).budget == other - GapsNeeded(t, iv, pins)
    decreases iv.Length(), if pins == [] then 2 else 0
  {
    hide Align, AlignGaps, PinsWithin, ScanNeeded;
    if pins == [] {
      NoGaps(t, iv, budget);
      NoGaps(t, iv, other);
      EnoughIsEnough(t, iv, budget);
      EnoughIsEnough(t, iv, other);
    } else {
      GapsFit(t, iv, pins);
      GapsUnfold(t, iv, pins, budget);
      GapsUnfold(t, iv, pins, other);
      var gap, rest := Gap(iv, pins), AfterPin(iv, pins[0]);
      EnoughIsEnough(t, gap, budget);
      EnoughIsEnough(t, gap, other);
      EnoughForGaps(t, rest, pins[1..], Align(t, gap, budget).budget, Align(t, gap, other).budget);
    }
  }

  /** The pairs of an interval when nothing limits the scan. */
  ghost function AllPairs(t: Texts, iv: Interval): map<nat, nat>
    requires iv.Fits(t)
  {
    Align(t, iv, ScanNeeded(t, iv)).pairs
  }

  ghost predicate Joins(pairs: map<nat, nat>, p: nat, c: nat) {
    p in pairs && pairs[p] == c
  }

  /** The pins, and whatever the gaps pair, are in the whole. */
  lemma {:induction false} GapsKeep(t: Texts, iv: Interval, pins: seq<AnchorPin>, budget: int, k: nat, p: nat, c: nat)
    requires iv.Fits(t) && PinsWithin(t, iv, pins) && budget >= GapsNeeded(t, iv, pins)
    requires AnchorPin(p, c) in pins
             || (k <= |pins| && GapAt(iv, pins, k).Fits(t) && Joins(AllPairs(t, GapAt(iv, pins, k)), p, c))
    ensures Joins(AlignGaps(t, iv, pins, budget).pairs, p, c)
    decreases iv.Length(), if pins == [] then 2 else 0
  {
    hide Align, AlignGaps, PinsWithin, ScanNeeded, Sound;
    if pins == [] {
      NoGaps(t, iv, budget);
      EnoughIsEnough(t, iv, budget);
      assert GapAt(iv, pins, k) == iv;
    } else {
      GapsFit(t, iv, pins);
      GapsUnfold(t, iv, pins, budget);
      var gap, rest := Gap(iv, pins), AfterPin(iv, pins[0]);
      var before := Align(t, gap, budget);
      EnoughIsEnough(t, gap, budget);
      var after := AlignGaps(t, rest, pins[1..], before.budget);
      AlignSound(t, gap, budget);
      GapsSound(t, rest, pins[1..], before.budget);
      PartsApart(t, iv, pins, before.pairs, after.pairs);
      if AnchorPin(p, c) in pins[1..] {
        GapsKeep(t, rest, pins[1..], before.budget, 0, p, c);
      } else if AnchorPin(p, c) == pins[0] {
        assert pins[0].prevLine !in after.pairs;
      } else if k == 0 {
        GapsOfRest(iv, pins, 0);
      } else {
        GapsOfRest(iv, pins, k - 1);
        GapsKeep(t, rest, pins[1..], before.budget, k - 1, p, c);
      }
    }
  }

  /** The pairs before a pin, the pin, and the pairs after it have different previous lines. */
  lemma {:induction false} PartsApart(
    t: Texts, iv: Interval, pins: seq<AnchorPin>, before: map<nat, nat>, after: map<nat, nat>)
    requires iv.Fits(t) && PinsWithin(t, iv, pins) && pins != []
    requires Sound(t, Gap(iv, pins), before) && Sound(t, AfterPin(iv, pins[0]), after)
    ensures forall p | p in before :: p < pins[0].prevLine && p !in after
    ensures pins[0].prevLine !in after
  {
    assert pins[0] in pins;
    hide SameDigest;
    forall p | p in after ensures p > pins[0].prevLine {
      assert AfterPin(iv, pins[0]).Holds(p, after[p]);
    }
    forall p | p in before ensures p < pins[0].prevLine {
      assert Gap(iv, pins).Holds(p, before[p]);
    }
  }

  lemma {:induction false} ChainComplete(t: Texts, chain: seq<Interval>, p: nat, c: nat)
    requires IsNesting(t, chain) && chain[0].Fits(t) && GivesPair(t, chain[|chain| - 1], p, c)
    ensures Joins(AllPairs(t, chain[0]), p, c)
    decreases |chain|
  {
    hide Align, AlignGaps, Leaf, StablePinsOf, PinsWithin, GivesPair;
    var iv := chain[0];
    var pins, needed := StablePinsOf(t, iv), ScanNeeded(t, iv);
    AlignUnfold(t, iv, needed);
    if |chain| == 1 {
      OwnComplete(t, iv, p, c);
    } else {
      assert IsGapOf(t, chain[1], chain[0]);
      var k: nat :| k <= |pins| && chain[1] == GapAt(iv, pins, k);
      GapAtFits(t, iv, pins, k);
      assert IsNesting(t, chain[1..]) by {
        forall i | 0 <= i < |chain[1..]| - 1 ensures IsGapOf(t, chain[1..][i + 1], chain[1..][i]) {
          assert IsGapOf(t, chain[i + 2], chain[i + 1]);
        }
      }
      ChainComplete(t, chain[1..], p, c);
      PinnedIsFull(t, iv);
      GapsKeep(t, iv, pins, needed - iv.Length(), k, p, c);
    }
  }

  lemma {:induction false} GapAtFits(t: Texts, iv: Interval, pins: seq<AnchorPin>, k: nat)
    requires iv.Fits(t) && PinsWithin(t, iv, pins) && k <= |pins|
    ensures GapAt(iv, pins, k).Fits(t)
  {
    hide SameDigest;
    if k > 0 { assert pins[k - 1] in pins; }
    if k < |pins| { assert pins[k] in pins; }
    assert 0 < k < |pins| ==>
             pins[k - 1].prevLine < pins[k].prevLine && pins[k - 1].currLine < pins[k].currLine;
  }

  /** An interval with pins is not empty: a pin is a line of both sides. */
  lemma {:induction false} PinnedIsFull(t: Texts, iv: Interval)
    requires iv.Fits(t) && StablePinsOf(t, iv) != []
    ensures !iv.Empty()
  {
    hide StablePinsOf, SameDigest;
    assert StablePinsOf(t, iv)[0] in StablePinsOf(t, iv);
  }

  lemma {:induction false} OwnComplete(t: Texts, iv: Interval, p: nat, c: nat)
    requires GivesPair(t, iv, p, c)
    ensures iv.Fits(t) && Joins(AllPairs(t, iv), p, c)
  {
    hide Align, AlignGaps, Leaf, StablePinsOf, PinsWithin;
    var pins, needed := StablePinsOf(t, iv), ScanNeeded(t, iv);
    AlignUnfold(t, iv, needed);
    if pins == [] {
      hide GivesPair;
      LeafGives(t, iv, p, c);
      LeafSound(t, iv);
      LeafHolds(t, iv, p);
    } else {
      PinnedIsFull(t, iv);
      GapsKeep(t, iv, pins, needed - iv.Length(), 0, p, c);
    }
  }

  lemma {:induction false} LeafHolds(t: Texts, iv: Interval, p: nat)
    requires iv.Fits(t) && Sound(t, iv, Leaf(t, iv)) && p in Leaf(t, iv)
    ensures !iv.Empty()
  {
    hide Leaf, SameDigest;
    assert iv.Holds(p, Leaf(t, iv)[p]);
  }

  // ---- the theorems ----

  /** Under any budget every pair is a stable pin, a rigid line, or a pair of a sole optimum of a nested interval. */
  lemma {:induction false} EveryPairHasOrigin(t: Texts, budget: int)
    ensures forall p | p in Paired(t, budget) :: HasOrigin(t, Whole(t), p, Paired(t, budget)[p])
  {
    hide Align, HasOrigin;
    forall p | p in Paired(t, budget) ensures HasOrigin(t, Whole(t), p, Paired(t, budget)[p]) {
      AlignOrigin(t, Whole(t), budget, p);
    }
  }

  /** With a budget for every scan, the pairing is exactly the pairs that have an origin. */
  lemma {:induction false} PairedExactly(t: Texts, budget: int, p: nat, c: nat)
    requires budget >= ScanNeeded(t, Whole(t))
    ensures p in Paired(t, budget) && Paired(t, budget)[p] == c <==> HasOrigin(t, Whole(t), p, c)
  {
    hide Align, GivesPair, IsGapOf, ScanNeeded;
    EveryPairHasOrigin(t, budget);
    EnoughIsEnough(t, Whole(t), budget);
    if HasOrigin(t, Whole(t), p, c) {
      var inner :| NestedIn(t, inner, Whole(t)) && GivesPair(t, inner, p, c);
      var chain :| IsNesting(t, chain) && chain[0] == Whole(t) && chain[|chain| - 1] == inner;
      ChainComplete(t, chain, p, c);
    }
  }

  /** No unique line, no rigid file and no sole optimum: nothing is paired, under any budget. */
  lemma {:induction false} AmbiguousPairsNothing(t: Texts, budget: int)
    requires forall p: nat, c: nat :: !IsUniquePin(t, Whole(t), p, c)
    requires !RigidRun(t, Whole(t))
    requires forall e :: !IsTheOptimum(WindowOf(t, Whole(t)), 1, 1, e)
    ensures Paired(t, budget) == map[]
  {
    hide IsUniquePin, RigidRun, IsTheOptimum, Align;
    NoPinNoCut(t);
    EveryPairHasOrigin(t, budget);
    forall p: nat, c: nat ensures !HasOrigin(t, Whole(t), p, c) {
      forall inner | NestedIn(t, inner, Whole(t)) ensures inner == Whole(t) {
        var chain :| IsNesting(t, chain) && chain[0] == Whole(t) && chain[|chain| - 1] == inner;
        assert |chain| > 1 ==> IsGapOf(t, chain[1], chain[0]);
      }
    }
  }

  lemma {:induction false} NoPinNoCut(t: Texts)
    requires forall p: nat, c: nat :: !IsUniquePin(t, Whole(t), p, c)
    ensures StablePinsOf(t, Whole(t)) == []
  {
    hide IsUniquePin, StablePinsOf;
    if StablePinsOf(t, Whole(t)) != [] {
      var pin := StablePinsOf(t, Whole(t))[0];
      StablePinIsUnique(t, Whole(t), pin);
    }
  }

  /** One line, duplicated: either copy could be the old line, so neither is. */
  lemma {:induction false} DuplicatedLine(d: Digest, budget: int)
    ensures Paired(Texts([d], [d, d]), budget) == map[]
  {
    hide Align, Paired;
    var t := Texts([d], [d, d]);
    var iv := Whole(t);
    forall p: nat, c: nat ensures !IsUniquePin(t, iv, p, c) {
      assert DigestAt(t.curr, 1) == DigestAt(t.curr, 2) == d;
    }
    forall e ensures !IsTheOptimum(WindowOf(t, iv), 1, 1, e) {
      TwoCopies(t, d, e);
    }
    AmbiguousPairsNothing(t, budget);
  }

  lemma {:induction false} TwoCopies(t: Texts, d: Digest, e: Embedding)
    requires t == Texts([d], [d, d])
    ensures !IsTheOptimum(WindowOf(t, Whole(t)), 1, 1, e)
  {
    var w := WindowOf(t, Whole(t));
    var first, second := [LinePair(1, 1)], [LinePair(1, 2)];
    assert w.Same(1, 1) && w.Same(1, 2);
    assert IsEmbedding(w, 1, 1, first) && IsEmbedding(w, 1, 1, second);
    assert first[0] != second[0];
    forall f: Embedding | |f| > 1 ensures !IsEmbedding(w, 1, 1, f) {
      assert f[0].prevLine >= f[1].prevLine || f[0].prevLine < 1 || f[1].prevLine > 1;
    }
    assert IsOptimal(w, 1, 1, first) && IsOptimal(w, 1, 1, second);
  }
}
