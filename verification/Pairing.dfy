/**
 The recursive pairing of two snapshots: unique pins, their stable backbone, rigid runs, and bounded
 leaves with one optimal alignment, under a scan budget.

 `Align` is the specification: which pairs an interval contributes, and what budget is left.
 */
module Pairing {
  import opened Numbers
  import opened Digests
  import opened LcsAlignment
  import opened PinBackbone

  const MAX_LEAF_LINES := 2000
  const MAX_LEAF_CELLS := 4_000_000
  const MIN_SCAN_BUDGET := 100_000
  const BUDGET_LINES_FACTOR := 4

  /** The digest columns of two snapshots. */
  datatype Texts = Texts(prev: seq<Digest>, curr: seq<Digest>)

  /** Previous lines pStart to pEnd against current lines cStart to cEnd, all 1-based and inclusive. */
  datatype Interval = Interval(pStart: nat, pEnd: nat, cStart: nat, cEnd: nat) {
    predicate Fits(t: Texts) {
      1 <= pStart <= pEnd + 1 <= |t.prev| + 1 && 1 <= cStart <= cEnd + 1 <= |t.curr| + 1
    }

    predicate Empty() {
      pStart > pEnd || cStart > cEnd
    }

    function PCount(): int {
      pEnd - pStart + 1
    }

    function CCount(): int {
      cEnd - cStart + 1
    }

    function Length(): int {
      PCount() + CCount()
    }

    predicate Holds(p: nat, c: nat) {
      pStart <= p <= pEnd && cStart <= c <= cEnd
    }
  }

  /** The digest of a 1-based line. */
  function DigestAt(lines: seq<Digest>, line: nat): Digest
    requires 1 <= line <= |lines|
  {
    lines[line - 1]
  }

  predicate SameDigest(t: Texts, p: nat, c: nat) {
    1 <= p <= |t.prev| && 1 <= c <= |t.curr| && DigestAt(t.prev, p) == DigestAt(t.curr, c)
  }

  // ---- candidate pins ----

  /** How often a digest occurs on lines from..upto of a column. */
  function Occurrences(lines: seq<Digest>, from: nat, upto: nat, digest: Digest): nat
    requires 1 <= from && upto <= |lines|
    decreases upto
  {
    if upto < from then 0
    else Occurrences(lines, from, upto - 1, digest) + if DigestAt(lines, upto) == digest then 1 else 0
  }

  lemma {:induction false} OccursNever(lines: seq<Digest>, from: nat, upto: nat, digest: Digest)
    requires 1 <= from && upto <= |lines|
    ensures Occurrences(lines, from, upto, digest) == 0
            <==> forall k: nat | from <= k <= upto :: DigestAt(lines, k) != digest
    decreases upto
  {
    if from <= upto {
      OccursNever(lines, from, upto - 1, digest);
    }
  }

  lemma {:induction false} OccursOnce(lines: seq<Digest>, from: nat, upto: nat, digest: Digest, k: nat)
    requires 1 <= from <= k <= upto <= |lines| && DigestAt(lines, k) == digest
    ensures Occurrences(lines, from, upto, digest) >= 1
    ensures Occurrences(lines, from, upto, digest) == 1
            <==> forall l: nat | from <= l <= upto && DigestAt(lines, l) == digest :: l == k
    decreases upto
  {
    OccursNever(lines, from, upto - 1, digest);
    if k < upto {
      OccursOnce(lines, from, upto - 1, digest, k);
    }
  }

  /** p and c carry one digest that occurs nowhere else on either side of the interval. */
  ghost predicate IsUniquePin(t: Texts, iv: Interval, p: nat, c: nat) {
    && iv.Fits(t) && iv.Holds(p, c) && SameDigest(t, p, c)
    && (forall p': nat | iv.pStart <= p' <= iv.pEnd && DigestAt(t.prev, p') == DigestAt(t.prev, p) :: p' == p)
    && (forall c': nat | iv.cStart <= c' <= iv.cEnd && DigestAt(t.curr, c') == DigestAt(t.curr, c) :: c' == c)
  }

  ghost predicate HasUniquePin(t: Texts, iv: Interval, p: nat) {
    exists c: nat :: IsUniquePin(t, iv, p, c)
  }

  ghost function PinOf(t: Texts, iv: Interval, p: nat): (c: nat)
    requires HasUniquePin(t, iv, p)
    ensures IsUniquePin(t, iv, p, c)
  {
    var c: nat :| IsUniquePin(t, iv, p, c); c
  }

  lemma {:induction false} OnePinPerLine(t: Texts, iv: Interval, p: nat, c: nat)
    requires IsUniquePin(t, iv, p, c)
    ensures HasUniquePin(t, iv, p) && PinOf(t, iv, p) == c
  {
  }

  /** The unique pins on previous lines before `upto`, in previous-line order. */
  ghost function UniquePins(t: Texts, iv: Interval, upto: nat): seq<AnchorPin>
    requires iv.Fits(t) && iv.pStart <= upto <= iv.pEnd + 1
    decreases upto
  {
    if upto == iv.pStart then []
    else UniquePins(t, iv, upto - 1)
         + if HasUniquePin(t, iv, upto - 1) then [AnchorPin(upto - 1, PinOf(t, iv, upto - 1))] else []
  }

  lemma {:induction false} UniquePinsExact(t: Texts, iv: Interval, upto: nat)
    requires iv.Fits(t) && iv.pStart <= upto <= iv.pEnd + 1
    ensures forall pin | pin in UniquePins(t, iv, upto) :: IsUniquePin(t, iv, pin.prevLine, pin.currLine)
    ensures forall pin | pin in UniquePins(t, iv, upto) :: pin.prevLine < upto
    ensures forall p: nat, c: nat | IsUniquePin(t, iv, p, c) && p < upto :: AnchorPin(p, c) in UniquePins(t, iv, upto)
    ensures PinsInOrder(UniquePins(t, iv, upto))
    decreases upto
  {
    if upto > iv.pStart {
      UniquePinsExact(t, iv, upto - 1);
      var before := UniquePins(t, iv, upto - 1);
      forall p: nat, c: nat | IsUniquePin(t, iv, p, c) && p < upto
        ensures AnchorPin(p, c) in UniquePins(t, iv, upto)
      {
        if p == upto - 1 {
          OnePinPerLine(t, iv, p, c);
        }
      }
      assert forall a | 0 <= a < |before| :: before[a] in before;
    }
  }

  /** The digest counts of a column slice, and the last line of each digest. */
  method CountDigests(lines: seq<Digest>, from: nat, upto: nat)
    returns (counts: map<Digest, nat>, positions: map<Digest, nat>)
    requires 1 <= from <= upto + 1 && upto <= |lines|
    ensures forall d :: (if d in counts then counts[d] else 0) == Occurrences(lines, from, upto, d)
    ensures forall k: nat | from <= k <= upto :: DigestAt(lines, k) in positions
    ensures forall d | d in positions :: from <= positions[d] <= upto && DigestAt(lines, positions[d]) == d
  {
    counts, positions := map[], map[];
    for k := from to upto + 1
      invariant forall d :: (if d in counts then counts[d] else 0) == Occurrences(lines, from, k - 1, d)
      invariant forall l: nat | from <= l < k :: DigestAt(lines, l) in positions
      invariant forall d | d in positions :: from <= positions[d] < k && DigestAt(lines, positions[d]) == d
    {
      var key := DigestAt(lines, k);
      counts := counts[key := (if key in counts then counts[key] else 0) + 1];
      positions := positions[key := k];
    }
  }

  /** One previous line is pinned exactly when both counts of its digest are one. */
  lemma {:induction false} PinByCount(t: Texts, iv: Interval, p: nat, c: nat)
    requires iv.Fits(t) && iv.pStart <= p <= iv.pEnd
    requires iv.cStart <= c <= iv.cEnd && SameDigest(t, p, c)
    ensures IsUniquePin(t, iv, p, c)
            <==> Occurrences(t.prev, iv.pStart, iv.pEnd, DigestAt(t.prev, p)) == 1
                 && Occurrences(t.curr, iv.cStart, iv.cEnd, DigestAt(t.prev, p)) == 1
  {
    OccursOnce(t.prev, iv.pStart, iv.pEnd, DigestAt(t.prev, p), p);
    OccursOnce(t.curr, iv.cStart, iv.cEnd, DigestAt(t.prev, p), c);
  }

  lemma {:induction false} NoPinWithoutCount(t: Texts, iv: Interval, p: nat)
    requires iv.Fits(t) && iv.pStart <= p <= iv.pEnd
    requires Occurrences(t.prev, iv.pStart, iv.pEnd, DigestAt(t.prev, p)) != 1
             || Occurrences(t.curr, iv.cStart, iv.cEnd, DigestAt(t.prev, p)) != 1
    ensures !HasUniquePin(t, iv, p)
  {
    if HasUniquePin(t, iv, p) {
      var c: nat :| IsUniquePin(t, iv, p, c);
      PinByCount(t, iv, p, c);
    }
  }

  lemma {:induction false} SomeOccurrence(lines: seq<Digest>, from: nat, upto: nat, digest: Digest)
    requires 1 <= from && upto <= |lines| && Occurrences(lines, from, upto, digest) == 1
    ensures exists k: nat :: from <= k <= upto && DigestAt(lines, k) == digest
  {
    OccursNever(lines, from, upto, digest);
  }

  /** The pins whose digest occurs once on each side of the interval. */
  method FindUniquePins(prevLines: seq<Digest>, currLines: seq<Digest>, iv: Interval) returns (pins: seq<AnchorPin>)
    requires iv.Fits(Texts(prevLines, currLines))
    ensures pins == UniquePins(Texts(prevLines, currLines), iv, iv.pEnd + 1)
  {
    ghost var t := Texts(prevLines, currLines);
    hide HasUniquePin, IsUniquePin, Occurrences;
    var prevCounts, _ := CountDigests(prevLines, iv.pStart, iv.pEnd);
    var currCounts, currPositions := CountDigests(currLines, iv.cStart, iv.cEnd);
    pins := [];
    for p := iv.pStart to iv.pEnd + 1
      invariant pins == UniquePins(t, iv, p)
    {
      var key := DigestAt(prevLines, p);
      if key in prevCounts && prevCounts[key] == 1 && key in currCounts && currCounts[key] == 1 {
        SomeOccurrence(currLines, iv.cStart, iv.cEnd, key);
        var currLine := currPositions[key];
        PinByCount(t, iv, p, currLine);
        OnePinPerLine(t, iv, p, currLine);
        pins := pins + [AnchorPin(p, currLine)];
      } else {
        NoPinWithoutCount(t, iv, p);
      }
    }
  }

  // ---- what an interval contributes ----

  /** The pairs of an interval, and the scan budget it leaves. */
  datatype Aligned = Aligned(pairs: map<nat, nat>, budget: int)

  ghost predicate PinsWithin(t: Texts, iv: Interval, pins: seq<AnchorPin>) {
    && (forall pin | pin in pins :: iv.Holds(pin.prevLine, pin.currLine) && SameDigest(t, pin.prevLine, pin.currLine))
    && PinsAscend(pins)
  }

  /** All unique pins of an interval. */
  ghost function Candidates(t: Texts, iv: Interval): (pins: seq<AnchorPin>)
    requires iv.Fits(t)
    ensures forall pin | pin in pins :: IsUniquePin(t, iv, pin.prevLine, pin.currLine)
    ensures PinsInOrder(pins)
  {
    UniquePinsExact(t, iv, iv.pEnd + 1);
    UniquePins(t, iv, iv.pEnd + 1)
  }

  /** The stable backbone of an interval's unique pins. */
  ghost function StablePinsOf(t: Texts, iv: Interval): (pins: seq<AnchorPin>)
    requires iv.Fits(t)
    ensures PinsWithin(t, iv, pins)
  {
    StablePinsAscend(Candidates(t, iv), |Candidates(t, iv)|);
    StablePins(Candidates(t, iv), |Candidates(t, iv)|)
  }

  lemma {:induction false} StableFromCandidates(t: Texts, iv: Interval)
    requires iv.Fits(t)
    ensures
      var candidates := UniquePins(t, iv, iv.pEnd + 1);
      StablePinsOf(t, iv) == StablePins(candidates, |candidates|) && (candidates == [] ==> StablePinsOf(t, iv) == [])
  {
    hide UniquePins, IsUniquePin, PinsWithin, StablePins;
    NoStablePins();
  }

  lemma {:induction false} NoStablePins()
    ensures StablePins([], 0) == []
  {
  }

  lemma {:induction false} StablePinIsUnique(t: Texts, iv: Interval, pin: AnchorPin)
    requires iv.Fits(t) && pin in StablePinsOf(t, iv)
    ensures IsUniquePin(t, iv, pin.prevLine, pin.currLine)
  {
    hide IsUniquePin, Candidates, PinsWithin, StablePins;
    StablePinsAscend(Candidates(t, iv), |Candidates(t, iv)|);
    assert Keeps(Candidates(t, iv), |Candidates(t, iv)|, pin);
  }

  /** The interval between a cursor and the next pin, or the end of the interval. */
  function Gap(iv: Interval, pins: seq<AnchorPin>): Interval {
    if pins == [] then iv else Interval(iv.pStart, Dec(pins[0].prevLine), iv.cStart, Dec(pins[0].currLine))
  }

  /** What is left of the interval after its first pin. */
  function AfterPin(iv: Interval, pin: AnchorPin): Interval {
    Interval(pin.prevLine + 1, iv.pEnd, pin.currLine + 1, iv.cEnd)
  }

  lemma {:induction false} GapsFit(t: Texts, iv: Interval, pins: seq<AnchorPin>)
    requires iv.Fits(t) && PinsWithin(t, iv, pins) && pins != []
    ensures Gap(iv, pins).Fits(t) && Gap(iv, pins).Length() < iv.Length()
    ensures AfterPin(iv, pins[0]).Fits(t) && AfterPin(iv, pins[0]).Length() < iv.Length()
    ensures PinsWithin(t, AfterPin(iv, pins[0]), pins[1..])
  {
    assert pins[0] in pins;
    forall pin | pin in pins[1..] ensures AfterPin(iv, pins[0]).Holds(pin.prevLine, pin.currLine) {
      var k :| 1 <= k < |pins| && pins[k] == pin;
    }
  }

  /** The recursive alignment of one interval under a scan budget. */
  ghost function Align(t: Texts, iv: Interval, budget: int): Aligned
    requires iv.Fits(t)
    decreases iv.Length(), 1
  {
    if iv.Empty() || budget < iv.Length() then Aligned(map[], budget)
    else
      var pins := StablePinsOf(t, iv);
      if pins != [] then AlignGaps(t, iv, pins, budget - iv.Length())
      else Aligned(Leaf(t, iv), budget - iv.Length())
  }

  /** The gaps before, between and after the pins, and the pins themselves. */
  ghost function AlignGaps(t: Texts, iv: Interval, pins: seq<AnchorPin>, budget: int): Aligned
    requires iv.Fits(t) && PinsWithin(t, iv, pins)
    decreases iv.Length(), if pins == [] then 2 else 0
  {
    if pins == [] then Align(t, iv, budget)
    else
      GapsFit(t, iv, pins);
      var before := Align(t, Gap(iv, pins), budget);
      var after := AlignGaps(t, AfterPin(iv, pins[0]), pins[1..], before.budget);
      Aligned(before.pairs + map[pins[0].prevLine := pins[0].currLine] + after.pairs, after.budget)
  }

  /** Both sides of the interval spell the same digests. */
  ghost predicate RigidRun(t: Texts, iv: Interval)
    requires iv.Fits(t)
  {
    iv.PCount() == iv.CCount()
    && forall p: nat | iv.pStart <= p <= iv.pEnd :: SameDigest(t, p, Shifted(iv, p))
  }

  /** The current line at the same distance from the start of the interval. */
  function Shifted(iv: Interval, p: nat): nat
    requires iv.pStart <= p
  {
    iv.cStart + (p - iv.pStart)
  }

  function Zip(iv: Interval): map<nat, nat>
    requires iv.PCount() == iv.CCount()
  {
    map p: nat | iv.pStart <= p <= iv.pEnd :: Shifted(iv, p)
  }

  function PairsOf(e: Embedding): map<nat, nat> {
    if e == [] then map[] else PairsOf(e[..|e| - 1])[e[|e| - 1].prevLine := e[|e| - 1].currLine]
  }

  predicate TooLarge(iv: Interval) {
    iv.PCount() > MAX_LEAF_LINES || iv.CCount() > MAX_LEAF_LINES || iv.PCount() * iv.CCount() > MAX_LEAF_CELLS
  }

  function WindowOf(t: Texts, iv: Interval): Window {
    Window(t.prev, t.curr, iv.pEnd, iv.cEnd)
  }

  ghost predicate HasOptimum(t: Texts, iv: Interval)
    requires iv.Fits(t)
  {
    exists e :: IsTheOptimum(WindowOf(t, iv), iv.pStart, iv.cStart, e)
  }

  /** A pinless interval: a rigid run, a unique optimal alignment, or nothing. */
  ghost function Leaf(t: Texts, iv: Interval): map<nat, nat>
    requires iv.Fits(t)
  {
    if RigidRun(t, iv) then Zip(iv)
    else if TooLarge(iv) then map[]
    else if HasOptimum(t, iv) then
      var e :| IsTheOptimum(WindowOf(t, iv), iv.pStart, iv.cStart, e);
      PairsOf(e)
    else map[]
  }

  // ---- the aligner ----

  /** The recursive aligner with the state its calls share: the pairs found and the budget left. */
  class Aligner {
    const prevLines: seq<Digest>
    const currLines: seq<Digest>
    var pairing: map<nat, nat>
    var scanBudget: int

    constructor (prevLines: seq<Digest>, currLines: seq<Digest>, scanBudget: int)
      ensures this.prevLines == prevLines && this.currLines == currLines
      ensures pairing == map[] && this.scanBudget == scanBudget
    {
      this.prevLines, this.currLines := prevLines, currLines;
      pairing, this.scanBudget := map[], scanBudget;
    }

    ghost function T(): Texts {
      Texts(prevLines, currLines)
    }

    method AlignRecursive(iv: Interval)
      requires iv.Fits(T())
      modifies this
      ensures pairing == old(pairing) + Align(T(), iv, old(scanBudget)).pairs
      ensures scanBudget == Align(T(), iv, old(scanBudget)).budget
      decreases iv.Length(), 1
    {
      hide Align, AlignGaps, Leaf, PinsWithin, StablePinsOf, UniquePins, StablePins;
      AlignUnfold(T(), iv, scanBudget);
      StableFromCandidates(T(), iv);
      if iv.Empty() { return; }
      var intervalLength := iv.Length();
      if scanBudget < intervalLength { return; }
      scanBudget := scanBudget - intervalLength;

      var candidatePins := FindUniquePins(prevLines, currLines, iv);
      if |candidatePins| > 0 {
        var stablePins := FindStablePinBackbone(candidatePins);
        if |stablePins| > 0 {
          AlignBetween(iv, stablePins);
          return;
        }
      }
      AlignLeaf(iv);
    }

    /** The gaps around the pins, left to right; every pin pairs its own lines. */
    method AlignBetween(iv: Interval, pins: seq<AnchorPin>)
      requires iv.Fits(T()) && PinsWithin(T(), iv, pins) && pins != []
      modifies this
      ensures pairing == old(pairing) + AlignGaps(T(), iv, pins, old(scanBudget)).pairs
      ensures scanBudget == AlignGaps(T(), iv, pins, old(scanBudget)).budget
      decreases iv.Length(), 0
    {
      var rest, k := iv, 0;
      ghost var spent := scanBudget;
      while k < |pins|
        invariant 0 <= k <= |pins| && rest.Fits(T()) && PinsWithin(T(), rest, pins[k..])
        invariant rest.Length() <= iv.Length() && (k > 0 ==> rest.Length() < iv.Length())
        invariant Continues(T(), iv, pins, spent, old(pairing), rest, pins[k..], scanBudget, pairing)
      {
        GapsFit(T(), rest, pins[k..]);
        ghost var before, budget := pairing, scanBudget;
        AlignRecursive(Gap(rest, pins[k..]));
        pairing := pairing[pins[k].prevLine := pins[k].currLine];
        ContinueAtPin(T(), iv, pins, spent, old(pairing), rest, pins[k..], budget, before);
        assert pins[k..][1..] == pins[k + 1..];
        rest := AfterPin(rest, pins[k]);
        k := k + 1;
      }
      AlignRecursive(rest);
    }

    method AlignLeaf(iv: Interval)
      requires iv.Fits(T()) && !iv.Empty()
      modifies this`pairing
      ensures pairing == old(pairing) + Leaf(T(), iv)
    {
      hide RigidRun, TooLarge, Zip, PairsOf, IsTheOptimum;
      var identical := Identical(iv);
      if identical {
        ZipInto(iv);
        return;
      }
      if TooLarge(iv) { return; }
      var lcs := ComputeLCSPaths(prevLines, currLines, iv.pStart, iv.pEnd, iv.cStart, iv.cEnd);
      if lcs.isUnique {
        OptimumIsLeaf(T(), iv, lcs.pairs);
        EmbedInto(lcs.pairs);
      }
    }

    method Identical(iv: Interval) returns (identical: bool)
      requires iv.Fits(T()) && !iv.Empty()
      ensures identical <==> RigidRun(T(), iv)
      ensures identical ==> iv.PCount() == iv.CCount()
    {
      var pCount, cCount := iv.PCount(), iv.CCount();
      if pCount != cCount { return false; }
      for i := 0 to pCount
        invariant forall p: nat | iv.pStart <= p < iv.pStart + i :: SameDigest(T(), p, Shifted(iv, p))
      {
        if prevLines[iv.pStart - 1 + i] != currLines[iv.cStart - 1 + i] {
          assert !SameDigest(T(), iv.pStart + i, Shifted(iv, iv.pStart + i));
          return false;
        }
      }
      return true;
    }

    method ZipInto(iv: Interval)
      requires iv.PCount() == iv.CCount() >= 0
      modifies this`pairing
      ensures pairing == old(pairing) + Zip(iv)
    {
      for i := 0 to iv.PCount()
        invariant pairing == old(pairing) + map p: nat | iv.pStart <= p < iv.pStart + i :: Shifted(iv, p)
      {
        pairing := pairing[iv.pStart + i := iv.cStart + i];
      }
    }

    method EmbedInto(e: Embedding)
      modifies this`pairing
      ensures pairing == old(pairing) + PairsOf(e)
    {
      assert e[..0] == [];
      for i := 0 to |e|
        invariant pairing == old(pairing) + PairsOf(e[..i])
      {
        assert e[..i + 1][..i] == e[..i];
        pairing := pairing[e[i].prevLine := e[i].currLine];
      }
      assert e[..|e|] == e;
    }
  }

  /** What the gaps still to come will add to the pairs found so far is what all gaps add to the start. */
  ghost predicate Continues(
    t: Texts, iv: Interval, pins: seq<AnchorPin>, budget: int, start: map<nat, nat>,
    rest: Interval, restPins: seq<AnchorPin>, restBudget: int, found: map<nat, nat>)
    requires iv.Fits(t) && PinsWithin(t, iv, pins) && rest.Fits(t) && PinsWithin(t, rest, restPins)
  {
    var all, tail := AlignGaps(t, iv, pins, budget), AlignGaps(t, rest, restPins, restBudget);
    all.budget == tail.budget && start + all.pairs == found + tail.pairs
  }

  lemma {:induction false} GapsUnfold(t: Texts, iv: Interval, pins: seq<AnchorPin>, budget: int)
    requires iv.Fits(t) && PinsWithin(t, iv, pins) && pins != []
    requires Gap(iv, pins).Fits(t)
    requires AfterPin(iv, pins[0]).Fits(t) && PinsWithin(t, AfterPin(iv, pins[0]), pins[1..])
    ensures
      var before := Align(t, Gap(iv, pins), budget);
      var after := AlignGaps(t, AfterPin(iv, pins[0]), pins[1..], before.budget);
      AlignGaps(t, iv, pins, budget)
      == Aligned(before.pairs + map[pins[0].prevLine := pins[0].currLine] + after.pairs, after.budget)
  {
  }

  lemma {:induction false} UnionOrder(found: map<nat, nat>, before: map<nat, nat>, p: nat, c: nat, after: map<nat, nat>)
    ensures found + (before + map[p := c] + after) == (found + before)[p := c] + after
  {
  }

  lemma {:induction false} ContinueAtPin(
    t: Texts, iv: Interval, pins: seq<AnchorPin>, budget: int, start: map<nat, nat>,
    rest: Interval, restPins: seq<AnchorPin>, restBudget: int, found: map<nat, nat>)
    requires iv.Fits(t) && PinsWithin(t, iv, pins) && rest.Fits(t) && PinsWithin(t, rest, restPins) && restPins != []
    requires Gap(rest, restPins).Fits(t)
    requires AfterPin(rest, restPins[0]).Fits(t) && PinsWithin(t, AfterPin(rest, restPins[0]), restPins[1..])
    requires Continues(t, iv, pins, budget, start, rest, restPins, restBudget, found)
    ensures
      var before := Align(t, Gap(rest, restPins), restBudget);
      Continues(t, iv, pins, budget, start, AfterPin(rest, restPins[0]), restPins[1..], before.budget,
                (found + before.pairs)[restPins[0].prevLine := restPins[0].currLine])
  {
    hide Align, AlignGaps, PinsWithin;
    GapsUnfold(t, rest, restPins, restBudget);
    var before := Align(t, Gap(rest, restPins), restBudget);
    var after := AlignGaps(t, AfterPin(rest, restPins[0]), restPins[1..], before.budget);
    UnionOrder(found, before.pairs, restPins[0].prevLine, restPins[0].currLine, after.pairs);
  }

  lemma {:induction false} OptimumIsLeaf(t: Texts, iv: Interval, e: Embedding)
    requires iv.Fits(t) && !RigidRun(t, iv) && !TooLarge(iv)
    requires IsTheOptimum(WindowOf(t, iv), iv.pStart, iv.cStart, e)
    ensures Leaf(t, iv) == PairsOf(e)
  {
    assert HasOptimum(t, iv);
  }

  lemma {:induction false} AlignUnfold(t: Texts, iv: Interval, budget: int)
    requires iv.Fits(t)
    ensures iv.Empty() || budget < iv.Length() ==> Align(t, iv, budget) == Aligned(map[], budget)
    ensures !iv.Empty() && budget >= iv.Length() && StablePinsOf(t, iv) == [] ==>
              Align(t, iv, budget) == Aligned(Leaf(t, iv), budget - iv.Length())
    ensures !iv.Empty() && budget >= iv.Length() && StablePinsOf(t, iv) != [] ==>
              Align(t, iv, budget) == AlignGaps(t, iv, StablePinsOf(t, iv), budget - iv.Length())
  {
    hide AlignGaps, Leaf, StablePinsOf, PinsWithin;
  }

  // ---- soundness: in range, equal digests, order kept, budget respected ----

  /** The pairs lie in the interval, join equal digests, and cross nowhere. */
  ghost predicate Sound(t: Texts, iv: Interval, pairs: map<nat, nat>) {
    && (forall p | p in pairs :: iv.Holds(p, pairs[p]) && SameDigest(t, p, pairs[p]))
    && (forall p, q | p in pairs && q in pairs && p < q :: pairs[p] < pairs[q])
  }

  ghost predicate AscendingPairs(e: Embedding) {
    forall k, l | 0 <= k < l < |e| :: e[k].prevLine < e[l].prevLine
  }

  /** The map of an embedding holds its pairs and nothing else. */
  lemma {:induction false} PairsOfExact(e: Embedding)
    requires AscendingPairs(e)
    ensures forall x | x in e :: x.prevLine in PairsOf(e) && PairsOf(e)[x.prevLine] == x.currLine
    ensures forall p | p in PairsOf(e) :: LinePair(p, PairsOf(e)[p]) in e
    decreases |e|
  {
    if e != [] {
      var front, last := e[..|e| - 1], e[|e| - 1];
      PairsOfExact(front);
      BeforeLast(e);
      assert e == front + [last];
    }
  }

  lemma {:induction false} BeforeLast(e: Embedding)
    requires AscendingPairs(e) && e != []
    ensures forall x | x in e[..|e| - 1] :: x.prevLine < e[|e| - 1].prevLine
  {
    forall x | x in e[..|e| - 1] ensures x.prevLine < e[|e| - 1].prevLine {
      var k :| 0 <= k < |e| - 1 && e[k] == x;
    }
  }

  lemma {:induction false} EmbeddingOrder(w: Window, p: nat, c: nat, e: Embedding, x: LinePair, y: LinePair)
    requires w.From(p, c) && IsEmbedding(w, p, c, e) && x in e && y in e
    ensures p <= x.prevLine <= w.pEnd && c <= x.currLine <= w.cEnd && w.Same(x.prevLine, x.currLine)
    ensures x.prevLine < y.prevLine ==> x.currLine < y.currLine
  {
    var k :| 0 <= k < |e| && e[k] == x;
    var l :| 0 <= l < |e| && e[l] == y;
    assert w.Same(e[k].prevLine, e[k].currLine);
    assert k < l ==> e[k].currLine < e[l].currLine;
    assert l < k ==> e[l].prevLine < e[k].prevLine;
  }

  lemma {:induction false} PairsOfSound(t: Texts, iv: Interval, e: Embedding)
    requires iv.Fits(t) && IsEmbedding(WindowOf(t, iv), iv.pStart, iv.cStart, e)
    ensures Sound(t, iv, PairsOf(e))
  {
    PairsOfExact(e);
    hide PairsOf, IsEmbedding;
    var w, pairs := WindowOf(t, iv), PairsOf(e);
    forall p | p in pairs ensures iv.Holds(p, pairs[p]) && SameDigest(t, p, pairs[p]) {
      EmbeddingOrder(w, iv.pStart, iv.cStart, e, LinePair(p, pairs[p]), LinePair(p, pairs[p]));
    }
    forall p, q | p in pairs && q in pairs && p < q ensures pairs[p] < pairs[q] {
      EmbeddingOrder(w, iv.pStart, iv.cStart, e, LinePair(p, pairs[p]), LinePair(q, pairs[q]));
    }
  }

  lemma {:induction false} LeafSound(t: Texts, iv: Interval)
    requires iv.Fits(t)
    ensures Sound(t, iv, Leaf(t, iv))
  {
    if !RigidRun(t, iv) && !TooLarge(iv) && HasOptimum(t, iv) {
      var e :| IsTheOptimum(WindowOf(t, iv), iv.pStart, iv.cStart, e) && Leaf(t, iv) == PairsOf(e);
      PairsOfSound(t, iv, e);
    }
  }

  /** Pairs before a pin, the pin, and pairs after it make one sound pairing. */
  lemma {:induction false} GapsJoin(
    t: Texts, iv: Interval, pins: seq<AnchorPin>, before: map<nat, nat>, after: map<nat, nat>)
    requires iv.Fits(t) && PinsWithin(t, iv, pins) && pins != []
    requires Sound(t, Gap(iv, pins), before) && Sound(t, AfterPin(iv, pins[0]), after)
    ensures Sound(t, iv, before + map[pins[0].prevLine := pins[0].currLine] + after)
  {
    assert pins[0] in pins;
    hide SameDigest;
  }

  lemma {:induction false} NothingSound(t: Texts, iv: Interval)
    ensures Sound(t, iv, map[])
  {
  }

  /** Whatever the inputs and the budget: the pairing is sound and no more is scanned than the budget allows. */
  lemma {:induction false} AlignSound(t: Texts, iv: Interval, budget: int)
    requires iv.Fits(t)
    ensures Sound(t, iv, Align(t, iv, budget).pairs)
    ensures Align(t, iv, budget).budget <= budget
    ensures 0 <= budget ==> 0 <= Align(t, iv, budget).budget
    decreases iv.Length(), 1
  {
    hide Align, AlignGaps, Leaf, Sound, PinsWithin, StablePinsOf;
    AlignUnfold(t, iv, budget);
    NothingSound(t, iv);
    if !iv.Empty() && budget >= iv.Length() {
      if StablePinsOf(t, iv) != [] {
        GapsSound(t, iv, StablePinsOf(t, iv), budget - iv.Length());
      } else {
        LeafSound(t, iv);
      }
    }
  }

  lemma {:induction false} NoGaps(t: Texts, iv: Interval, budget: int)
    requires iv.Fits(t)
    ensures PinsWithin(t, iv, [])
    ensures AlignGaps(t, iv, [], budget) == Align(t, iv, budget)
  {
    hide Align;
  }

  lemma {:induction false} GapsSound(t: Texts, iv: Interval, pins: seq<AnchorPin>, budget: int)
    requires iv.Fits(t) && PinsWithin(t, iv, pins)
    ensures Sound(t, iv, AlignGaps(t, iv, pins, budget).pairs)
    ensures AlignGaps(t, iv, pins, budget).budget <= budget
    ensures 0 <= budget ==> 0 <= AlignGaps(t, iv, pins, budget).budget
    decreases iv.Length(), if pins == [] then 2 else 0
  {
    hide Align, AlignGaps, PinsWithin, Sound;
    NoGaps(t, iv, budget);
    if pins == [] {
      AlignSound(t, iv, budget);
    } else {
      GapsFit(t, iv, pins);
      GapsUnfold(t, iv, pins, budget);
      var before := Align(t, Gap(iv, pins), budget);
      AlignSound(t, Gap(iv, pins), budget);
      GapsSound(t, AfterPin(iv, pins[0]), pins[1..], before.budget);
      GapsJoin(t, iv, pins, before.pairs, AlignGaps(t, AfterPin(iv, pins[0]), pins[1..], before.budget).pairs);
    }
  }

  // ---- the entry point ----

  function PairingScanBudget(prevCount: nat, currCount: nat): nat {
    if MIN_SCAN_BUDGET < BUDGET_LINES_FACTOR * (prevCount + currCount)
    then BUDGET_LINES_FACTOR * (prevCount + currCount)
    else MIN_SCAN_BUDGET
  }

  function Whole(t: Texts): (iv: Interval)
    ensures iv.Fits(t)
  {
    Interval(1, |t.prev|, 1, |t.curr|)
  }

  /** The pairing of two snapshots under a scan budget. */
  ghost function Paired(t: Texts, budget: int): (pairs: map<nat, nat>)
    ensures Sound(t, Whole(t), pairs)
  {
    AlignSound(t, Whole(t), budget);
    Align(t, Whole(t), budget).pairs
  }

  /** Strictly increasing on both sides, and no current line below the first. */
  ghost predicate Monotonic(pairing: map<nat, nat>) {
    && (forall p | p in pairing :: pairing[p] > 0)
    && (forall p, q | p in pairing && q in pairing && p < q :: pairing[p] < pairing[q])
  }

  lemma {:induction false} LeastKey(keys: set<nat>) returns (k: nat)
    requires keys != {}
    ensures k in keys && forall l | l in keys :: k <= l
    decreases |keys|
  {
    var some :| some in keys;
    k := some;
    forall l | l in keys ensures l == some || l in keys - {some} {
    }
    if keys - {some} != {} {
      var least := LeastKey(keys - {some});
      k := if some <= least then some else least;
      forall l | l in keys ensures k <= l {
        assert l == some || l in keys - {some};
      }
    }
  }

  /** The fail-closed check of the engine: entries in previous-line order must ascend. */
  method AssertMonotonicPairing(pairing: map<nat, nat>) returns (ok: bool)
    ensures ok <==> Monotonic(pairing)
  {
    var rest, lastCurr := pairing.Keys, 0;
    while rest != {}
      invariant rest <= pairing.Keys
      invariant forall p | p in pairing && p !in rest :: 0 < pairing[p] <= lastCurr
      invariant lastCurr > 0 ==> exists p :: p in pairing && p !in rest && pairing[p] == lastCurr
      invariant forall p, q | p in pairing && q in rest && p !in rest :: p < q
      invariant forall p, q | p in pairing && q in pairing && p !in rest && q !in rest && p < q ::
                pairing[p] < pairing[q]
      decreases |rest|
    {
      ghost var least := LeastKey(rest);
      var p :| p in rest && forall q | q in rest :: p <= q;
      if pairing[p] <= lastCurr { return false; }
      lastCurr := pairing[p];
      rest := rest - {p};
    }
    return true;
  }

  lemma {:induction false} PairedIsSound(t: Texts, budget: int, pairing: map<nat, nat>)
    requires pairing == map[] + Align(t, Whole(t), budget).pairs
    ensures pairing == Paired(t, budget) && Monotonic(pairing)
  {
    hide Align;
  }

  datatype PairingOptions = Default | ScanBudget(budget: int)

  function BudgetOf(options: PairingOptions, prevCount: nat, currCount: nat): int {
    match options
    case Default => PairingScanBudget(prevCount, currCount)
    case ScanBudget(budget) => budget
  }

  /** Pair previous lines with current lines. The monotonicity check at the end can never fail. */
  method PairSnapshots(prevLines: seq<Digest>, currLines: seq<Digest>, options: PairingOptions)
    returns (pairing: map<nat, nat>, thrown: bool)
    ensures !thrown
    ensures pairing == Paired(Texts(prevLines, currLines), BudgetOf(options, |prevLines|, |currLines|))
  {
    hide Align, Paired;
    var t := Texts(prevLines, currLines);
    var aligner := new Aligner(prevLines, currLines, BudgetOf(options, |prevLines|, |currLines|));
    aligner.AlignRecursive(Whole(t));
    pairing := aligner.pairing;
    PairedIsSound(t, BudgetOf(options, |prevLines|, |currLines|), pairing);
    var ok := AssertMonotonicPairing(pairing);
    thrown := !ok;
  }
}
