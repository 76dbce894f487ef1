/**
 What the pairing does with an edit it can tell apart: lines were deleted whose digests are gone, and
 lines were inserted whose digests are new. Whatever the budget, a kept line is paired with itself or
 with nothing; with budget and leaves large enough, every kept line is paired.
 */
module PairingDrift {
  import opened Numbers
  import opened Digests
  import opened LcsAlignment
  import opened PinBackbone
  import opened Pairing

  ghost predicate KeepsPrev(kept: Embedding, p: nat) {
    exists x :: x in kept && x.prevLine == p
  }

  ghost predicate KeepsCurr(kept: Embedding, c: nat) {
    exists x :: x in kept && x.currLine == c
  }

  /** `kept` joins each surviving line with its own later self; all other digests are one-sided. */
  ghost predicate NovelEdit(t: Texts, kept: Embedding) {
    && IsEmbedding(WindowOf(t, Whole(t)), 1, 1, kept)
    && (forall p: nat | 1 <= p <= |t.prev| && !KeepsPrev(kept, p) :: DigestAt(t.prev, p) !in t.curr)
    && (forall c: nat | 1 <= c <= |t.curr| && !KeepsCurr(kept, c) :: DigestAt(t.curr, c) !in t.prev)
  }

  /** The kept pairs numbered lo..hi are the ones with an end in the interval, and then with both. */
  ghost predicate Respects(iv: Interval, kept: Embedding, lo: nat, hi: nat) {
    forall k | 0 <= k < |kept| ::
         && (iv.pStart <= kept[k].prevLine <= iv.pEnd <==> lo <= k < hi)
         && (iv.cStart <= kept[k].currLine <= iv.cEnd <==> lo <= k < hi)
  }

  lemma {:induction false} EqualDigestsAreKept(t: Texts, kept: Embedding, p: nat, c: nat)
    requires NovelEdit(t, kept) && SameDigest(t, p, c)
    ensures KeepsPrev(kept, p) && KeepsCurr(kept, c)
  {
    assert t.prev[p - 1] in t.prev && t.curr[c - 1] in t.curr;
  }

  // ---- an embedding of a respected interval is part of the kept pairs ----

  ghost predicate Increasing(s: seq<nat>) {
    forall a, b | 0 <= a < b < |s| :: s[a] < s[b]
  }

  lemma {:induction false} FromLeft(s: seq<nat>, all: seq<nat>, x: nat) returns (k: nat)
    requires Increasing(s) && Increasing(all) && x < |s| && forall v | v in s :: v in all
    ensures x <= k < |all| && all[k] == s[x]
    decreases x
  {
    assert s[x] in s;
    k :| 0 <= k < |all| && all[k] == s[x];
    if x > 0 {
      var j := FromLeft(s, all, x - 1);
      assert j < k;
    }
  }

  lemma {:induction false} FromRight(s: seq<nat>, all: seq<nat>, x: nat) returns (k: nat)
    requires Increasing(s) && Increasing(all) && x < |s| && forall v | v in s :: v in all
    ensures k < |all| && all[k] == s[x] && k + (|s| - x) <= |all|
    decreases |s| - x
  {
    assert s[x] in s;
    k :| 0 <= k < |all| && all[k] == s[x];
    if x + 1 < |s| {
      var j := FromRight(s, all, x + 1);
      assert k < j;
    }
  }

  /** An increasing part of an increasing list is no longer, and as long only if it is the list. */
  lemma {:induction false} PartOfIncreasing(s: seq<nat>, all: seq<nat>)
    requires Increasing(s) && Increasing(all) && forall v | v in s :: v in all
    ensures |s| <= |all|
    ensures |s| == |all| ==> s == all
  {
    if s != [] {
      var k := FromRight(s, all, 0);
    }
    if |s| == |all| {
      forall x | 0 <= x < |s| ensures s[x] == all[x] {
        var k := FromLeft(s, all, x);
        var l := FromRight(s, all, x);
        assert k == l;
      }
    }
  }

  function PrevColumn(e: Embedding): (r: seq<nat>)
    ensures |r| == |e| && forall k | 0 <= k < |e| :: r[k] == e[k].prevLine
  {
    seq(|e|, k requires 0 <= k < |e| => e[k].prevLine)
  }

  function CurrColumn(e: Embedding): (r: seq<nat>)
    ensures |r| == |e| && forall k | 0 <= k < |e| :: r[k] == e[k].currLine
  {
    seq(|e|, k requires 0 <= k < |e| => e[k].currLine)
  }

  lemma {:induction false} KeptSlice(t: Texts, iv: Interval, kept: Embedding, lo: nat, hi: nat)
    requires iv.Fits(t) && NovelEdit(t, kept) && lo <= hi <= |kept| && Respects(iv, kept, lo, hi)
    ensures IsEmbedding(WindowOf(t, iv), iv.pStart, iv.cStart, kept[lo..hi])
  {
    var w, part := WindowOf(t, iv), kept[lo..hi];
    forall k | 0 <= k < |part|
      ensures iv.Holds(part[k].prevLine, part[k].currLine) && w.Same(part[k].prevLine, part[k].currLine)
    {
      assert part[k] == kept[lo + k];
      assert WindowOf(t, Whole(t)).Same(kept[lo + k].prevLine, kept[lo + k].currLine);
    }
  }

  lemma {:induction false} KeptIndex(t: Texts, iv: Interval, kept: Embedding, lo: nat, hi: nat, p: nat, c: nat)
    requires iv.Fits(t) && NovelEdit(t, kept) && lo <= hi <= |kept| && Respects(iv, kept, lo, hi)
    requires iv.Holds(p, c) && SameDigest(t, p, c)
    ensures p in PrevColumn(kept[lo..hi]) && c in CurrColumn(kept[lo..hi])
  {
    var part := kept[lo..hi];
    EqualDigestsAreKept(t, kept, p, c);
    var x :| x in kept && x.prevLine == p;
    var y :| y in kept && y.currLine == c;
    var k :| 0 <= k < |kept| && kept[k] == x;
    var l :| 0 <= l < |kept| && kept[l] == y;
    assert PrevColumn(part)[k - lo] == p;
    assert CurrColumn(part)[l - lo] == c;
  }

  lemma {:induction false} EmbeddingOfKept(t: Texts, iv: Interval, kept: Embedding, lo: nat, hi: nat, e: Embedding)
    requires iv.Fits(t) && NovelEdit(t, kept) && lo <= hi <= |kept| && Respects(iv, kept, lo, hi)
    requires IsEmbedding(WindowOf(t, iv), iv.pStart, iv.cStart, e)
    ensures |e| <= hi - lo
    ensures |e| == hi - lo ==> e == kept[lo..hi]
  {
    hide NovelEdit, Respects;
    var part := kept[lo..hi];
    KeptSlice(t, iv, kept, lo, hi);
    forall k | 0 <= k < |e| ensures e[k].prevLine in PrevColumn(part) && e[k].currLine in CurrColumn(part) {
      assert WindowOf(t, iv).Same(e[k].prevLine, e[k].currLine);
      KeptIndex(t, iv, kept, lo, hi, e[k].prevLine, e[k].currLine);
    }
    PartOfIncreasing(PrevColumn(e), PrevColumn(part));
    PartOfIncreasing(CurrColumn(e), CurrColumn(part));
    if |e| == hi - lo {
      forall k | 0 <= k < |e| ensures e[k] == part[k] {
        assert PrevColumn(e)[k] == PrevColumn(part)[k] && CurrColumn(e)[k] == CurrColumn(part)[k];
      }
    }
  }

  // ---- leaves ----

  ghost function ZipEmbedding(iv: Interval): (e: Embedding)
    requires iv.PCount() == iv.CCount() >= 0
    ensures |e| == iv.PCount()
    ensures forall k | 0 <= k < |e| :: e[k] == LinePair(iv.pStart + k, iv.cStart + k)
  {
    seq(iv.PCount(), k requires 0 <= k < iv.PCount() => LinePair(iv.pStart + k, iv.cStart + k))
  }

  lemma {:induction false} ZipIsEmbedding(t: Texts, iv: Interval)
    requires iv.Fits(t) && RigidRun(t, iv)
    ensures iv.PCount() == iv.CCount() >= 0
    ensures IsEmbedding(WindowOf(t, iv), iv.pStart, iv.cStart, ZipEmbedding(iv))
  {
    var e := ZipEmbedding(iv);
    forall k | 0 <= k < |e| ensures WindowOf(t, iv).Same(e[k].prevLine, e[k].currLine) {
      assert SameDigest(t, iv.pStart + k, Shifted(iv, iv.pStart + k));
    }
  }

  /** A rigid run keeps all its lines: the zip is the kept part. */
  lemma {:induction false} ZipIsKept(t: Texts, iv: Interval, kept: Embedding, lo: nat, hi: nat)
    requires iv.Fits(t) && NovelEdit(t, kept) && lo <= hi <= |kept| && Respects(iv, kept, lo, hi) && RigidRun(t, iv)
    ensures iv.PCount() == iv.CCount() == hi - lo && ZipEmbedding(iv) == kept[lo..hi]
  {
    hide NovelEdit, Respects, RigidRun;
    ZipIsEmbedding(t, iv);
    var e, part := ZipEmbedding(iv), kept[lo..hi];
    EmbeddingOfKept(t, iv, kept, lo, hi, e);
    KeptSlice(t, iv, kept, lo, hi);
    forall p | p in PrevColumn(part) ensures p in PrevColumn(e) {
      var k :| 0 <= k < |part| && part[k].prevLine == p;
      assert PrevColumn(e)[p - iv.pStart] == p;
    }
    PartOfIncreasing(PrevColumn(part), PrevColumn(e));
  }

  lemma {:induction false} KeptIsTheOptimum(t: Texts, iv: Interval, kept: Embedding, lo: nat, hi: nat)
    requires iv.Fits(t) && NovelEdit(t, kept) && lo <= hi <= |kept| && Respects(iv, kept, lo, hi)
    ensures IsTheOptimum(WindowOf(t, iv), iv.pStart, iv.cStart, kept[lo..hi])
  {
    hide NovelEdit, Respects, IsEmbedding;
    KeptSlice(t, iv, kept, lo, hi);
    forall f | IsEmbedding(WindowOf(t, iv), iv.pStart, iv.cStart, f)
      ensures |f| <= hi - lo && (|f| == hi - lo ==> f == kept[lo..hi])
    {
      EmbeddingOfKept(t, iv, kept, lo, hi, f);
    }
  }

  /** The pairs are exactly the kept pairs numbered lo..hi, read as a map. */
  ghost predicate PairsOnlyKept(pairs: map<nat, nat>, kept: Embedding) {
    forall p | p in pairs :: LinePair(p, pairs[p]) in kept
  }

  ghost predicate PairsAllKept(pairs: map<nat, nat>, kept: Embedding, lo: nat, hi: nat) {
    forall k | lo <= k < hi <= |kept| :: kept[k].prevLine in pairs && pairs[kept[k].prevLine] == kept[k].currLine
  }

  lemma {:induction false} PairsOfPart(kept: Embedding, lo: nat, hi: nat)
    requires lo <= hi <= |kept| && AscendingPairs(kept[lo..hi])
    ensures PairsOnlyKept(PairsOf(kept[lo..hi]), kept) && PairsAllKept(PairsOf(kept[lo..hi]), kept, lo, hi)
  {
    hide PairsOf;
    var part := kept[lo..hi];
    PairsOfExact(part);
    forall k | lo <= k < hi ensures kept[k] in part {
      assert part[k - lo] == kept[k];
    }
    assert forall x | x in part :: x in kept;
  }

  lemma {:induction false} ZipOfPart(iv: Interval, kept: Embedding, lo: nat, hi: nat)
    requires iv.PCount() == iv.CCount() >= 0 && lo <= hi <= |kept|
    requires ZipEmbedding(iv) == kept[lo..hi]
    ensures PairsOnlyKept(Zip(iv), kept) && PairsAllKept(Zip(iv), kept, lo, hi)
  {
    var part := kept[lo..hi];
    forall p | p in Zip(iv) ensures LinePair(p, Zip(iv)[p]) in kept {
      assert part[p - iv.pStart] == kept[lo + (p - iv.pStart)];
    }
    forall k | lo <= k < hi ensures kept[k].prevLine in Zip(iv) && Zip(iv)[kept[k].prevLine] == kept[k].currLine {
      assert part[k - lo] == kept[k];
    }
  }

  lemma {:induction false} LeafOfKept(t: Texts, iv: Interval, kept: Embedding, lo: nat, hi: nat)
    requires iv.Fits(t) && NovelEdit(t, kept) && lo <= hi <= |kept| && Respects(iv, kept, lo, hi)
    ensures PairsOnlyKept(Leaf(t, iv), kept)
    ensures !TooLarge(iv) ==> PairsAllKept(Leaf(t, iv), kept, lo, hi)
  {
    hide NovelEdit, Respects, TooLarge, PairsOf, IsTheOptimum, Zip, PairsAllKept, PairsOnlyKept, RigidRun;
    if RigidRun(t, iv) {
      ZipIsEmbedding(t, iv);
      ZipIsKept(t, iv, kept, lo, hi);
      ZipOfPart(iv, kept, lo, hi);
      LeafCases(t, iv, []);
    } else if !TooLarge(iv) {
      KeptIsTheOptimum(t, iv, kept, lo, hi);
      LeafCases(t, iv, kept[lo..hi]);
      OptimumAscends(t, iv, kept[lo..hi]);
      PairsOfPart(kept, lo, hi);
    } else {
      LeafCases(t, iv, []);
      NothingToKeep(kept);
    }
  }

  lemma {:induction false} NothingToKeep(kept: Embedding)
    ensures PairsOnlyKept(map[], kept)
  {
  }

  lemma {:induction false} OptimumAscends(t: Texts, iv: Interval, e: Embedding)
    requires iv.Fits(t) && IsTheOptimum(WindowOf(t, iv), iv.pStart, iv.cStart, e)
    ensures AscendingPairs(e)
  {
  }

  lemma {:induction false} LeafCases(t: Texts, iv: Interval, e: Embedding)
    requires iv.Fits(t)
    ensures RigidRun(t, iv) ==> iv.PCount() == iv.CCount() && Leaf(t, iv) == Zip(iv)
    ensures !RigidRun(t, iv) && TooLarge(iv) ==> Leaf(t, iv) == map[]
    ensures !RigidRun(t, iv) && !TooLarge(iv) && IsTheOptimum(WindowOf(t, iv), iv.pStart, iv.cStart, e) ==>
              Leaf(t, iv) == PairsOf(e)
  {
    if !RigidRun(t, iv) && !TooLarge(iv) && IsTheOptimum(WindowOf(t, iv), iv.pStart, iv.cStart, e) {
      OptimumIsLeaf(t, iv, e);
    }
  }

  // ---- pins and gaps ----

  /** A locally unique digest that survives pins its line to the line's own later self. */
  lemma {:induction false} UniquePinIsKept(t: Texts, iv: Interval, kept: Embedding, lo: nat, hi: nat, p: nat, c: nat)
    requires iv.Fits(t) && NovelEdit(t, kept) && lo <= hi <= |kept| && Respects(iv, kept, lo, hi)
    requires IsUniquePin(t, iv, p, c)
    ensures LinePair(p, c) in kept[lo..hi]
  {
    EqualDigestsAreKept(t, kept, p, c);
    var x :| x in kept && x.prevLine == p;
    var k :| 0 <= k < |kept| && kept[k] == x;
    assert WindowOf(t, Whole(t)).Same(kept[k].prevLine, kept[k].currLine);
    assert DigestAt(t.curr, x.currLine) == DigestAt(t.curr, c);
    assert kept[lo..hi][k - lo] == x;
  }

  lemma {:induction false} StablePinsAreKept(t: Texts, iv: Interval, kept: Embedding, lo: nat, hi: nat, pin: AnchorPin)
    requires iv.Fits(t) && NovelEdit(t, kept) && lo <= hi <= |kept| && Respects(iv, kept, lo, hi)
    requires pin in StablePinsOf(t, iv)
    ensures LinePair(pin.prevLine, pin.currLine) in kept[lo..hi]
  {
    hide NovelEdit, Respects, IsUniquePin, StablePinsOf;
    StablePinIsUnique(t, iv, pin);
    UniquePinIsKept(t, iv, kept, lo, hi, pin.prevLine, pin.currLine);
  }

  ghost predicate PinsAreKept(kept: Embedding, lo: nat, hi: nat, pins: seq<AnchorPin>)
    requires lo <= hi <= |kept|
  {
    forall pin | pin in pins :: LinePair(pin.prevLine, pin.currLine) in kept[lo..hi]
  }

  /** Cutting an interval at a kept pin leaves two intervals the kept pairs respect. */
  lemma {:induction false} CutAtPin(t: Texts, iv: Interval, kept: Embedding, lo: nat, hi: nat, pins: seq<AnchorPin>)
    returns (k: nat)
    requires iv.Fits(t) && NovelEdit(t, kept) && lo <= hi <= |kept| && Respects(iv, kept, lo, hi)
    requires PinsWithin(t, iv, pins) && pins != [] && PinsAreKept(kept, lo, hi, pins)
    ensures lo <= k < hi && kept[k] == LinePair(pins[0].prevLine, pins[0].currLine)
    ensures Respects(Gap(iv, pins), kept, lo, k) && Respects(AfterPin(iv, pins[0]), kept, k + 1, hi)
    ensures PinsAreKept(kept, k + 1, hi, pins[1..])
  {
    assert pins[0] in pins;
    var i :| 0 <= i < hi - lo && kept[lo..hi][i] == LinePair(pins[0].prevLine, pins[0].currLine);
    k := lo + i;
    CutRespects(t, iv, kept, lo, hi, pins, k);
    forall pin | pin in pins[1..] ensures LinePair(pin.prevLine, pin.currLine) in kept[k + 1..hi] {
      LaterPinIsLater(t, iv, kept, lo, hi, pins, k, pin);
    }
  }

  /** An interval with kept pins, cut at its first pin: what the gap and the rest have to be like. */
  ghost predicate CutAt(t: Texts, iv: Interval, kept: Embedding, lo: nat, hi: nat, pins: seq<AnchorPin>, k: nat) {
    && pins != [] && lo <= k < hi <= |kept| && kept[k] == LinePair(pins[0].prevLine, pins[0].currLine)
    && Gap(iv, pins).Fits(t) && Gap(iv, pins).Length() < iv.Length() && Respects(Gap(iv, pins), kept, lo, k)
    && AfterPin(iv, pins[0]).Fits(t) && AfterPin(iv, pins[0]).Length() < iv.Length()
    && Respects(AfterPin(iv, pins[0]), kept, k + 1, hi)
    && PinsWithin(t, AfterPin(iv, pins[0]), pins[1..]) && PinsAreKept(kept, k + 1, hi, pins[1..])
  }

  lemma {:induction false} CutGaps(
    t: Texts, iv: Interval, kept: Embedding, lo: nat, hi: nat, pins: seq<AnchorPin>, budget: int)
    returns (k: nat)
    requires iv.Fits(t) && NovelEdit(t, kept) && lo <= hi <= |kept| && Respects(iv, kept, lo, hi)
    requires PinsWithin(t, iv, pins) && pins != [] && PinsAreKept(kept, lo, hi, pins)
    ensures CutAt(t, iv, kept, lo, hi, pins, k)
    ensures
      var before := Align(t, Gap(iv, pins), budget);
      var after := AlignGaps(t, AfterPin(iv, pins[0]), pins[1..], before.budget);
      AlignGaps(t, iv, pins, budget)
      == Aligned(before.pairs + map[kept[k].prevLine := kept[k].currLine] + after.pairs, after.budget)
  {
    hide NovelEdit, Respects, Align, AlignGaps, PinsWithin, PinsAreKept;
    GapsFit(t, iv, pins);
    GapsUnfold(t, iv, pins, budget);
    k := CutAtPin(t, iv, kept, lo, hi, pins);
  }

  lemma {:induction false} CutRespects(
    t: Texts, iv: Interval, kept: Embedding, lo: nat, hi: nat, pins: seq<AnchorPin>, k: nat)
    requires NovelEdit(t, kept) && lo <= k < hi <= |kept| && Respects(iv, kept, lo, hi)
    requires PinsWithin(t, iv, pins) && pins != []
    requires kept[k] == LinePair(pins[0].prevLine, pins[0].currLine)
    ensures Respects(Gap(iv, pins), kept, lo, k) && Respects(AfterPin(iv, pins[0]), kept, k + 1, hi)
  {
    hide SameDigest, DigestAt;
    var gap, after := Gap(iv, pins), AfterPin(iv, pins[0]);
    forall l | 0 <= l < |kept|
      ensures (gap.pStart <= kept[l].prevLine <= gap.pEnd <==> lo <= l < k)
      ensures (gap.cStart <= kept[l].currLine <= gap.cEnd <==> lo <= l < k)
      ensures (after.pStart <= kept[l].prevLine <= after.pEnd <==> k + 1 <= l < hi)
      ensures (after.cStart <= kept[l].currLine <= after.cEnd <==> k + 1 <= l < hi)
    {
      KeptOrder(t, kept, l, k);
    }
  }

  lemma {:induction false} KeptOrder(t: Texts, kept: Embedding, l: nat, k: nat)
    requires NovelEdit(t, kept) && l < |kept| && k < |kept|
    ensures kept[l].prevLine >= 1 && kept[l].currLine >= 1
    ensures l < k <==> kept[l].prevLine < kept[k].prevLine
    ensures l < k <==> kept[l].currLine < kept[k].currLine
    ensures l == k <==> kept[l].prevLine == kept[k].prevLine
    ensures l == k <==> kept[l].currLine == kept[k].currLine
  {
    assert l < k ==> kept[l].prevLine < kept[k].prevLine && kept[l].currLine < kept[k].currLine;
    assert k < l ==> kept[k].prevLine < kept[l].prevLine && kept[k].currLine < kept[l].currLine;
  }

  lemma {:induction false} LaterPinIsLater(
    t: Texts, iv: Interval, kept: Embedding, lo: nat, hi: nat, pins: seq<AnchorPin>, k: nat, pin: AnchorPin)
    requires NovelEdit(t, kept) && lo <= k < hi <= |kept|
    requires PinsWithin(t, iv, pins) && pins != [] && PinsAreKept(kept, lo, hi, pins) && pin in pins[1..]
    requires kept[k] == LinePair(pins[0].prevLine, pins[0].currLine)
    ensures LinePair(pin.prevLine, pin.currLine) in kept[k + 1..hi]
  {
    var a :| 1 <= a < |pins| && pins[a] == pin;
    assert pins[0].prevLine < pin.prevLine;
    assert pin in pins;
    var i :| 0 <= i < hi - lo && kept[lo..hi][i] == LinePair(pin.prevLine, pin.currLine);
    KeptOrder(t, kept, k, lo + i);
    assert kept[k + 1..hi][lo + i - (k + 1)] == kept[lo + i];
  }

  // ---- soundness under any budget ----

  lemma {:induction false} JoinOnlyKept(before: map<nat, nat>, k: nat, after: map<nat, nat>, kept: Embedding)
    requires k < |kept| && PairsOnlyKept(before, kept) && PairsOnlyKept(after, kept)
    ensures PairsOnlyKept(before + map[kept[k].prevLine := kept[k].currLine] + after, kept)
  {
    assert LinePair(kept[k].prevLine, kept[k].currLine) in kept;
  }

  lemma {:induction false} AlignOnlyKept(t: Texts, iv: Interval, kept: Embedding, lo: nat, hi: nat, budget: int)
    requires iv.Fits(t) && NovelEdit(t, kept) && lo <= hi <= |kept| && Respects(iv, kept, lo, hi)
    ensures PairsOnlyKept(Align(t, iv, budget).pairs, kept)
    decreases iv.Length(), 1
  {
    hide NovelEdit, Respects, Align, AlignGaps, Leaf, PairsOnlyKept, PinsWithin, StablePinsOf;
    AlignUnfold(t, iv, budget);
    NothingToKeep(kept);
    LeafOfKept(t, iv, kept, lo, hi);
    if !iv.Empty() && budget >= iv.Length() && StablePinsOf(t, iv) != [] {
      forall pin | pin in StablePinsOf(t, iv) ensures LinePair(pin.prevLine, pin.currLine) in kept[lo..hi] {
        StablePinsAreKept(t, iv, kept, lo, hi, pin);
      }
      GapsOnlyKept(t, iv, kept, lo, hi, StablePinsOf(t, iv), budget - iv.Length());
    }
  }

  lemma {:induction false} GapsOnlyKept(
    t: Texts, iv: Interval, kept: Embedding, lo: nat, hi: nat, pins: seq<AnchorPin>, budget: int)
    requires iv.Fits(t) && NovelEdit(t, kept) && lo <= hi <= |kept| && Respects(iv, kept, lo, hi)
    requires PinsWithin(t, iv, pins) && PinsAreKept(kept, lo, hi, pins)
    ensures PairsOnlyKept(AlignGaps(t, iv, pins, budget).pairs, kept)
    decreases iv.Length(), if pins == [] then 2 else 0
  {
    hide NovelEdit, Respects, Align, AlignGaps, PairsOnlyKept, PinsWithin, PinsAreKept, Interval.Fits, Interval.Length;
    NoGaps(t, iv, budget);
    if pins == [] {
      AlignOnlyKept(t, iv, kept, lo, hi, budget);
    } else {
      var k := CutGaps(t, iv, kept, lo, hi, pins, budget);
      var gap, rest := Gap(iv, pins), AfterPin(iv, pins[0]);
      var before := Align(t, gap, budget);
      LengthsFit(t, iv);
      LengthsFit(t, gap);
      LengthsFit(t, rest);
      AlignOnlyKept(t, gap, kept, lo, k, budget);
      GapsOnlyKept(t, rest, kept, k + 1, hi, pins[1..], before.budget);
      JoinOnlyKept(before.pairs, k, AlignGaps(t, rest, pins[1..], before.budget).pairs, kept);
    }
  }

  lemma {:induction false} LengthsFit(t: Texts, iv: Interval)
    requires iv.Fits(t)
    ensures iv.Length() >= 0
  {
  }

  // ---- completeness: exactly when every kept line pairs ----

  /** No line of the one side has the digest of a line of the other. */
  ghost predicate NothingShared(t: Texts, iv: Interval) {
    forall p: nat, c: nat | iv.Holds(p, c) :: !SameDigest(t, p, c)
  }

  /** A pinless interval that can be paired: rigid, or small enough for the leaf alignment. */
  ghost predicate LeafFits(t: Texts, iv: Interval)
    requires iv.Fits(t)
  {
    RigidRun(t, iv) || !TooLarge(iv)
  }

  /**
   The guards that decide whether anything is missed: wherever both sides still share a digest, the budget covers
   the scan, and an interval without pins is no larger than a leaf may be.
   */
  ghost predicate AllScanned(t: Texts, iv: Interval, budget: int)
    requires iv.Fits(t)
    decreases iv.Length(), 1
  {
    NothingShared(t, iv)
    || (budget >= iv.Length()
        && if StablePinsOf(t, iv) == [] then LeafFits(t, iv)
           else GapsScanned(t, iv, StablePinsOf(t, iv), budget - iv.Length()))
  }

  ghost predicate GapsScanned(t: Texts, iv: Interval, pins: seq<AnchorPin>, budget: int)
    requires iv.Fits(t) && PinsWithin(t, iv, pins)
    decreases iv.Length(), if pins == [] then 2 else 0
  {
    if pins == [] then AllScanned(t, iv, budget)
    else
      GapsFit(t, iv, pins);
      AllScanned(t, Gap(iv, pins), budget)
      && GapsScanned(t, AfterPin(iv, pins[0]), pins[1..], Align(t, Gap(iv, pins), budget).budget)
  }

  lemma {:induction false} SharedIffKept(t: Texts, iv: Interval, kept: Embedding, lo: nat, hi: nat)
    requires iv.Fits(t) && NovelEdit(t, kept) && lo <= hi <= |kept| && Respects(iv, kept, lo, hi)
    ensures NothingShared(t, iv) <==> lo == hi
    ensures iv.Empty() ==> lo == hi
  {
    if lo < hi {
      assert WindowOf(t, Whole(t)).Same(kept[lo].prevLine, kept[lo].currLine);
      assert iv.Holds(kept[lo].prevLine, kept[lo].currLine);
    } else {
      forall p: nat, c: nat | iv.Holds(p, c) ensures !SameDigest(t, p, c) {
        if SameDigest(t, p, c) {
          KeptIndex(t, iv, kept, lo, hi, p, c);
        }
      }
    }
  }

  lemma {:induction false} MissedAll(kept: Embedding, lo: nat, hi: nat)
    requires lo <= hi <= |kept|
    ensures PairsAllKept(map[], kept, lo, hi) <==> lo == hi
  {
    if lo < hi {
      var none: map<nat, nat> := map[];
      assert kept[lo].prevLine !in none;
    }
  }

  lemma {:induction false} LeafAllKept(t: Texts, iv: Interval, kept: Embedding, lo: nat, hi: nat)
    requires iv.Fits(t) && NovelEdit(t, kept) && lo <= hi <= |kept| && Respects(iv, kept, lo, hi)
    ensures PairsAllKept(Leaf(t, iv), kept, lo, hi) <==> lo == hi || LeafFits(t, iv)
  {
    hide NovelEdit, Respects, TooLarge, PairsOf, IsTheOptimum, Zip, PairsAllKept, PairsOnlyKept, RigidRun;
    LeafOfKept(t, iv, kept, lo, hi);
    if RigidRun(t, iv) {
      ZipIsEmbedding(t, iv);
      ZipIsKept(t, iv, kept, lo, hi);
      ZipOfPart(iv, kept, lo, hi);
    } else if TooLarge(iv) {
      MissedAll(kept, lo, hi);
    }
  }

  lemma {:induction false} ScannedUnfold(t: Texts, iv: Interval, budget: int)
    requires iv.Fits(t)
    ensures AllScanned(t, iv, budget) <==>
      NothingShared(t, iv)
      || (budget >= iv.Length()
          && if StablePinsOf(t, iv) == [] then LeafFits(t, iv)
             else GapsScanned(t, iv, StablePinsOf(t, iv), budget - iv.Length()))
  {
    hide NothingShared, LeafFits, StablePinsOf, GapsScanned;
  }

  lemma {:induction false} GapsScannedUnfold(t: Texts, iv: Interval, pins: seq<AnchorPin>, budget: int)
    requires iv.Fits(t) && PinsWithin(t, iv, pins)
    ensures pins == [] ==> GapsScanned(t, iv, pins, budget) == AllScanned(t, iv, budget)
    ensures pins != [] ==>
              && Gap(iv, pins).Fits(t) && AfterPin(iv, pins[0]).Fits(t)
              && PinsWithin(t, AfterPin(iv, pins[0]), pins[1..])
              && (GapsScanned(t, iv, pins, budget) <==>
                  AllScanned(t, Gap(iv, pins), budget)
                  && GapsScanned(t, AfterPin(iv, pins[0]), pins[1..], Align(t, Gap(iv, pins), budget).budget))
  {
    hide PinsWithin, AllScanned, Align;
    if pins != [] {
      GapsFit(t, iv, pins);
    }
  }

  lemma {:induction false} AlignAllKept(t: Texts, iv: Interval, kept: Embedding, lo: nat, hi: nat, budget: int)
    requires iv.Fits(t) && NovelEdit(t, kept) && lo <= hi <= |kept| && Respects(iv, kept, lo, hi)
    ensures PairsAllKept(Align(t, iv, budget).pairs, kept, lo, hi) <==> AllScanned(t, iv, budget)
    decreases iv.Length(), 1
  {
    hide NovelEdit, Respects, Align, AlignGaps, Leaf, StablePinsOf, LeafFits, PairsAllKept, PinsWithin;
    hide AllScanned, GapsScanned, NothingShared;
    AlignUnfold(t, iv, budget);
    ScannedUnfold(t, iv, budget);
    SharedIffKept(t, iv, kept, lo, hi);
    MissedAll(kept, lo, hi);
    if lo == hi {
      NoneToKeep(Align(t, iv, budget).pairs, kept, lo);
    } else if budget >= iv.Length() {
      if StablePinsOf(t, iv) == [] {
        LeafAllKept(t, iv, kept, lo, hi);
      } else {
        forall pin | pin in StablePinsOf(t, iv) ensures LinePair(pin.prevLine, pin.currLine) in kept[lo..hi] {
          StablePinsAreKept(t, iv, kept, lo, hi, pin);
        }
        GapsAllKept(t, iv, kept, lo, hi, StablePinsOf(t, iv), budget - iv.Length());
      }
    }
  }

  lemma {:induction false} NoneToKeep(pairs: map<nat, nat>, kept: Embedding, lo: nat)
    ensures PairsAllKept(pairs, kept, lo, lo)
  {
  }

  lemma {:induction false} GapsAllKept(
    t: Texts, iv: Interval, kept: Embedding, lo: nat, hi: nat, pins: seq<AnchorPin>, budget: int)
    requires iv.Fits(t) && NovelEdit(t, kept) && lo <= hi <= |kept| && Respects(iv, kept, lo, hi)
    requires PinsWithin(t, iv, pins) && PinsAreKept(kept, lo, hi, pins)
    ensures PairsAllKept(AlignGaps(t, iv, pins, budget).pairs, kept, lo, hi) <==> GapsScanned(t, iv, pins, budget)
    decreases iv.Length(), if pins == [] then 2 else 0
  {
    hide NovelEdit, Respects, Align, AlignGaps, PairsAllKept, PinsWithin, PinsAreKept, AllScanned, GapsScanned;
    hide Interval.Fits, Interval.Length;
    NoGaps(t, iv, budget);
    GapsScannedUnfold(t, iv, pins, budget);
    if pins == [] {
      AlignAllKept(t, iv, kept, lo, hi, budget);
    } else {
      var k := CutGaps(t, iv, kept, lo, hi, pins, budget);
      var gap, rest := Gap(iv, pins), AfterPin(iv, pins[0]);
      var before := Align(t, gap, budget);
      LengthsFit(t, iv);
      LengthsFit(t, gap);
      LengthsFit(t, rest);
      AlignAllKept(t, gap, kept, lo, k, budget);
      GapsAllKept(t, rest, kept, k + 1, hi, pins[1..], before.budget);
      JoinCut(t, iv, kept, lo, hi, pins, k, budget);
    }
  }

  lemma {:induction false} JoinCut(
    t: Texts, iv: Interval, kept: Embedding, lo: nat, hi: nat, pins: seq<AnchorPin>, k: nat, budget: int)
    requires NovelEdit(t, kept) && CutAt(t, iv, kept, lo, hi, pins, k)
    ensures
      var before := Align(t, Gap(iv, pins), budget);
      var after := AlignGaps(t, AfterPin(iv, pins[0]), pins[1..], before.budget);
      PairsAllKept(before.pairs + map[kept[k].prevLine := kept[k].currLine] + after.pairs, kept, lo, hi)
      <==> PairsAllKept(before.pairs, kept, lo, k) && PairsAllKept(after.pairs, kept, k + 1, hi)
  {
    hide NovelEdit, Align, AlignGaps, PairsAllKept, PinsWithin, Sound, CutAt, Gap, AfterPin, Interval.Fits, Around;
    CutBounds(t, iv, kept, lo, hi, pins, k);
    var gap, rest := Gap(iv, pins), AfterPin(iv, pins[0]);
    var before := Align(t, gap, budget);
    AlignSound(t, gap, budget);
    GapsSound(t, rest, pins[1..], before.budget);
    JoinAllKept(before.pairs, AlignGaps(t, rest, pins[1..], before.budget).pairs, kept, lo, k, hi, t, gap, rest);
  }

  lemma {:induction false} CutBounds(
    t: Texts, iv: Interval, kept: Embedding, lo: nat, hi: nat, pins: seq<AnchorPin>, k: nat)
    requires NovelEdit(t, kept) && CutAt(t, iv, kept, lo, hi, pins, k)
    ensures pins != [] && lo <= k < hi <= |kept| && Around(kept, k)
    ensures Gap(iv, pins).Fits(t) && AfterPin(iv, pins[0]).Fits(t)
    ensures PinsWithin(t, AfterPin(iv, pins[0]), pins[1..])
    ensures Gap(iv, pins).pEnd < kept[k].prevLine < AfterPin(iv, pins[0]).pStart
  {
    hide NovelEdit, Respects, PinsWithin, PinsAreKept, Around;
    KeptOrder(t, kept, k, k);
    KeptAround(t, kept, k);
  }

  /** The kept pairs before and after number k lie before and after its previous line. */
  ghost predicate Around(kept: Embedding, k: nat)
    requires k < |kept|
  {
    forall l | 0 <= l < |kept| :: (l < k <==> kept[l].prevLine < kept[k].prevLine)
                               && (l == k <==> kept[l].prevLine == kept[k].prevLine)
  }

  lemma {:induction false} KeptAround(t: Texts, kept: Embedding, k: nat)
    requires NovelEdit(t, kept) && k < |kept|
    ensures Around(kept, k)
  {
    hide NovelEdit;
    forall l | 0 <= l < |kept|
      ensures (l < k <==> kept[l].prevLine < kept[k].prevLine) && (l == k <==> kept[l].prevLine == kept[k].prevLine)
    {
      KeptOrder(t, kept, l, k);
    }
  }

  lemma {:induction false} JoinAllKept(
    before: map<nat, nat>, after: map<nat, nat>, kept: Embedding, lo: nat, k: nat, hi: nat,
    t: Texts, gap: Interval, rest: Interval)
    requires lo <= k < hi <= |kept| && Around(kept, k)
    requires Sound(t, gap, before) && Sound(t, rest, after)
    requires gap.pEnd < kept[k].prevLine < rest.pStart
    ensures PairsAllKept(before + map[kept[k].prevLine := kept[k].currLine] + after, kept, lo, hi)
            <==> PairsAllKept(before, kept, lo, k) && PairsAllKept(after, kept, k + 1, hi)
  {
    hide SameDigest;
    var all := before + map[kept[k].prevLine := kept[k].currLine] + after;
    assert forall p | p in after :: p >= rest.pStart by {
      forall p | p in after ensures p >= rest.pStart { assert rest.Holds(p, after[p]); }
    }
    assert forall p | p in before :: p <= gap.pEnd by {
      forall p | p in before ensures p <= gap.pEnd { assert gap.Holds(p, before[p]); }
    }
    if PairsAllKept(all, kept, lo, hi) {
      forall l | lo <= l < k ensures kept[l].prevLine in before && before[kept[l].prevLine] == kept[l].currLine {
        assert kept[l].prevLine in all && all[kept[l].prevLine] == kept[l].currLine;
      }
      forall l | k < l < hi ensures kept[l].prevLine in after && after[kept[l].prevLine] == kept[l].currLine {
        assert kept[l].prevLine in all && all[kept[l].prevLine] == kept[l].currLine;
      }
    }
  }

  // ---- how much scanning is enough ----

  /** The scan length of an interval when nothing limits it. */
  ghost function ScanNeeded(t: Texts, iv: Interval): (n: int)
    requires iv.Fits(t)
    ensures n >= 0
    decreases iv.Length(), 1
  {
    if iv.Empty() then 0
    else if StablePinsOf(t, iv) == [] then iv.Length()
    else iv.Length() + GapsNeeded(t, iv, StablePinsOf(t, iv))
  }

  ghost function GapsNeeded(t: Texts, iv: Interval, pins: seq<AnchorPin>): (n: int)
    requires iv.Fits(t) && PinsWithin(t, iv, pins)
    ensures n >= 0
    decreases iv.Length(), if pins == [] then 2 else 0
  {
    if pins == [] then ScanNeeded(t, iv)
    else
      GapsFit(t, iv, pins);
      ScanNeeded(t, Gap(iv, pins)) + GapsNeeded(t, AfterPin(iv, pins[0]), pins[1..])
  }

  /** Every pinless interval that pinning leads to can be paired, or shares nothing. */
  ghost predicate LeavesFit(t: Texts, iv: Interval)
    requires iv.Fits(t)
    decreases iv.Length(), 1
  {
    if iv.Empty() then true
    else if StablePinsOf(t, iv) == [] then LeafFits(t, iv) || NothingShared(t, iv)
    else GapLeavesFit(t, iv, StablePinsOf(t, iv))
  }

  ghost predicate GapLeavesFit(t: Texts, iv: Interval, pins: seq<AnchorPin>)
    requires iv.Fits(t) && PinsWithin(t, iv, pins)
    decreases iv.Length(), if pins == [] then 2 else 0
  {
    if pins == [] then LeavesFit(t, iv)
    else
      GapsFit(t, iv, pins);
      LeavesFit(t, Gap(iv, pins)) && GapLeavesFit(t, AfterPin(iv, pins[0]), pins[1..])
  }

  /** Pins nest at most `depth` levels deep. */
  ghost predicate Nested(t: Texts, iv: Interval, depth: nat)
    requires iv.Fits(t)
    decreases iv.Length(), 1
  {
    iv.Empty() || (depth > 0 && (StablePinsOf(t, iv) == [] || GapsNested(t, iv, StablePinsOf(t, iv), depth - 1)))
  }

  ghost predicate GapsNested(t: Texts, iv: Interval, pins: seq<AnchorPin>, depth: nat)
    requires iv.Fits(t) && PinsWithin(t, iv, pins)
    decreases iv.Length(), if pins == [] then 2 else 0
  {
    if pins == [] then Nested(t, iv, depth)
    else
      GapsFit(t, iv, pins);
      Nested(t, Gap(iv, pins), depth) && GapsNested(t, AfterPin(iv, pins[0]), pins[1..], depth)
  }

  lemma {:induction false} EmptyShares(t: Texts, iv: Interval)
    requires iv.Empty()
    ensures NothingShared(t, iv)
  {
  }

  /** The unlimited scan covers what is spent, and is enough. */
  lemma {:induction false} NeededIsEnough(t: Texts, iv: Interval, budget: int)
    requires iv.Fits(t)
    ensures Align(t, iv, budget).budget >= budget - ScanNeeded(t, iv)
    ensures LeavesFit(t, iv) && budget >= ScanNeeded(t, iv) ==> AllScanned(t, iv, budget)
    decreases iv.Length(), 1
  {
    hide Align, AlignGaps, StablePinsOf, PinsWithin, LeafFits, Leaf, AllScanned, GapsScanned, NothingShared;
    hide GapsNeeded, GapLeavesFit;
    AlignUnfold(t, iv, budget);
    ScannedUnfold(t, iv, budget);
    if iv.Empty() {
      EmptyShares(t, iv);
    } else if StablePinsOf(t, iv) != [] {
      GapsNeededIsEnough(t, iv, StablePinsOf(t, iv), budget - iv.Length());
    }
  }

  lemma {:induction false} GapsNeededIsEnough(t: Texts, iv: Interval, pins: seq<AnchorPin>, budget: int)
    requires iv.Fits(t) && PinsWithin(t, iv, pins)
    ensures AlignGaps(t, iv, pins, budget).budget >= budget - GapsNeeded(t, iv, pins)
    ensures GapLeavesFit(t, iv, pins) && budget >= GapsNeeded(t, iv, pins) ==> GapsScanned(t, iv, pins, budget)
    decreases iv.Length(), if pins == [] then 2 else 0
  {
    hide Align, AlignGaps, PinsWithin, AllScanned, GapsScanned, ScanNeeded, LeavesFit;
    GapsScannedUnfold(t, iv, pins, budget);
    if pins == [] {
      NoGaps(t, iv, budget);
      NeededIsEnough(t, iv, budget);
    } else {
      GapsFit(t, iv, pins);
      GapsUnfold(t, iv, pins, budget);
      NeededIsEnough(t, Gap(iv, pins), budget);
      GapsNeededIsEnough(t, AfterPin(iv, pins[0]), pins[1..], Align(t, Gap(iv, pins), budget).budget);
    }
  }

  /** One whole scan per level of nesting. */
  lemma {:induction false} NeededByDepth(t: Texts, iv: Interval, depth: nat)
    requires iv.Fits(t) && Nested(t, iv, depth)
    ensures ScanNeeded(t, iv) <= depth * iv.Length()
    decreases iv.Length(), 1
  {
    hide StablePinsOf, PinsWithin, GapsNeeded, GapsNested;
    if !iv.Empty() {
      LevelSplits(depth, iv.Length());
      if StablePinsOf(t, iv) != [] {
        GapsNeededByDepth(t, iv, StablePinsOf(t, iv), depth - 1);
      }
    } else {
      NoNegative(depth, iv.Length());
    }
  }

  lemma {:induction false} LevelSplits(depth: nat, length: int)
    requires depth > 0 && length >= 0
    ensures depth * length == length + (depth - 1) * length && (depth - 1) * length >= 0
  {
  }

  lemma {:induction false} NoNegative(depth: nat, length: int)
    requires length >= 0
    ensures depth * length >= 0
  {
  }

  lemma {:induction false} PartsCost(depth: nat, first: int, second: int, all: int)
    requires first + second <= all
    ensures depth * first + depth * second <= depth * all
  {
    assert depth * (all - (first + second)) >= 0;
  }

  lemma {:induction false} GapsNeededByDepth(t: Texts, iv: Interval, pins: seq<AnchorPin>, depth: nat)
    requires iv.Fits(t) && PinsWithin(t, iv, pins) && GapsNested(t, iv, pins, depth)
    ensures GapsNeeded(t, iv, pins) <= depth * iv.Length()
    decreases iv.Length(), if pins == [] then 2 else 0
  {
    hide PinsWithin, Nested, ScanNeeded;
    if pins == [] {
      NeededByDepth(t, iv, depth);
    } else {
      GapsFit(t, iv, pins);
      var gap, rest := Gap(iv, pins), AfterPin(iv, pins[0]);
      NeededByDepth(t, gap, depth);
      GapsNeededByDepth(t, rest, pins[1..], depth);
      GapCounts(t, iv, pins);
      PartsCost(depth, gap.Length(), rest.Length(), iv.Length());
    }
  }

  lemma {:induction false} GapCounts(t: Texts, iv: Interval, pins: seq<AnchorPin>)
    requires iv.Fits(t) && PinsWithin(t, iv, pins) && pins != []
    ensures iv.PCount() == Gap(iv, pins).PCount() + 1 + AfterPin(iv, pins[0]).PCount()
    ensures iv.Length() == Gap(iv, pins).Length() + 2 + AfterPin(iv, pins[0]).Length()
    ensures Gap(iv, pins).PCount() >= 0 && AfterPin(iv, pins[0]).PCount() >= 0
  {
    assert pins[0] in pins;
  }

  /** Every level of nesting takes at least one previous line away. */
  lemma {:induction false} NestedByLines(t: Texts, iv: Interval, depth: nat)
    requires iv.Fits(t) && iv.PCount() <= depth
    ensures Nested(t, iv, depth)
    decreases iv.Length(), 1
  {
    hide StablePinsOf, PinsWithin, GapsNested;
    if !iv.Empty() && StablePinsOf(t, iv) != [] {
      GapsNestedByLines(t, iv, StablePinsOf(t, iv), depth - 1);
    }
  }

  lemma {:induction false} GapsNestedByLines(t: Texts, iv: Interval, pins: seq<AnchorPin>, depth: nat)
    requires iv.Fits(t) && PinsWithin(t, iv, pins) && iv.PCount() - (if pins == [] then 0 else 1) <= depth
    ensures GapsNested(t, iv, pins, depth)
    decreases iv.Length(), if pins == [] then 2 else 0
  {
    hide PinsWithin, Nested;
    if pins == [] {
      NestedByLines(t, iv, depth);
    } else {
      GapsFit(t, iv, pins);
      GapCounts(t, iv, pins);
      NestedByLines(t, Gap(iv, pins), depth);
      GapsNestedByLines(t, AfterPin(iv, pins[0]), pins[1..], depth);
    }
  }

  // ---- lines that are all different ----

  /** No two kept lines have the same digest. */
  ghost predicate KeptDiffer(t: Texts, kept: Embedding)
    requires NovelEdit(t, kept)
  {
    forall k, l | 0 <= k < l < |kept| :: DigestAt(t.prev, kept[k].prevLine) != DigestAt(t.prev, kept[l].prevLine)
  }

  lemma {:induction false} DiffersOnPrev(t: Texts, kept: Embedding, k: nat, p: nat)
    requires NovelEdit(t, kept) && KeptDiffer(t, kept) && k < |kept| && SameDigest(t, p, kept[k].currLine)
    ensures p == kept[k].prevLine
  {
    EqualDigestsAreKept(t, kept, p, kept[k].currLine);
    var x :| x in kept && x.prevLine == p;
    var l :| 0 <= l < |kept| && kept[l] == x;
    assert WindowOf(t, Whole(t)).Same(kept[k].prevLine, kept[k].currLine);
  }

  lemma {:induction false} DiffersOnCurr(t: Texts, kept: Embedding, k: nat, c: nat)
    requires NovelEdit(t, kept) && KeptDiffer(t, kept) && k < |kept| && SameDigest(t, kept[k].prevLine, c)
    ensures c == kept[k].currLine
  {
    EqualDigestsAreKept(t, kept, kept[k].prevLine, c);
    var x :| x in kept && x.currLine == c;
    var l :| 0 <= l < |kept| && kept[l] == x;
    assert WindowOf(t, Whole(t)).Same(kept[l].prevLine, kept[l].currLine);
  }

  lemma {:induction false} KeptAgrees(t: Texts, kept: Embedding, k: nat)
    requires NovelEdit(t, kept) && k < |kept|
    ensures Whole(t).Holds(kept[k].prevLine, kept[k].currLine) && SameDigest(t, kept[k].prevLine, kept[k].currLine)
  {
    assert WindowOf(t, Whole(t)).Same(kept[k].prevLine, kept[k].currLine);
  }

  lemma {:induction false} KeptIsPin(t: Texts, kept: Embedding, k: nat)
    requires NovelEdit(t, kept) && KeptDiffer(t, kept) && k < |kept|
    ensures IsUniquePin(t, Whole(t), kept[k].prevLine, kept[k].currLine)
  {
    hide NovelEdit, KeptDiffer;
    KeptAgrees(t, kept, k);
    forall p: nat | 1 <= p <= |t.prev| && DigestAt(t.prev, p) == DigestAt(t.prev, kept[k].prevLine)
      ensures p == kept[k].prevLine
    {
      DiffersOnPrev(t, kept, k, p);
    }
    forall c: nat | 1 <= c <= |t.curr| && DigestAt(t.curr, c) == DigestAt(t.curr, kept[k].currLine)
      ensures c == kept[k].currLine
    {
      DiffersOnCurr(t, kept, k, c);
    }
  }

  /** The pins hold every kept pair numbered lo..hi. */
  ghost predicate AllPinned(kept: Embedding, lo: nat, hi: nat, pins: seq<AnchorPin>) {
    forall l | lo <= l < hi <= |kept| :: AnchorPin(kept[l].prevLine, kept[l].currLine) in pins
  }

  /** Different lines are all pinned by the first scan. */
  lemma {:induction false} DifferentLinesArePinned(t: Texts, kept: Embedding)
    requires NovelEdit(t, kept) && KeptDiffer(t, kept)
    ensures AllPinned(kept, 0, |kept|, StablePinsOf(t, Whole(t)))
  {
    hide KeptDiffer, IsUniquePin, UniquePins, StablePins;
    var candidates := UniquePins(t, Whole(t), |t.prev| + 1);
    UniquePinsExact(t, Whole(t), |t.prev| + 1);
    WholeRespects(t, kept);
    forall pin | pin in candidates ensures LinePair(pin.prevLine, pin.currLine) in kept {
      UniquePinIsKept(t, Whole(t), kept, 0, |kept|, pin.prevLine, pin.currLine);
    }
    CandidatesAscend(t, kept, candidates);
    AscendingPinsAreStable(candidates, |candidates|);
    StableFromCandidates(t, Whole(t));
    forall l | 0 <= l < |kept| ensures AnchorPin(kept[l].prevLine, kept[l].currLine) in candidates {
      KeptIsPin(t, kept, l);
    }
  }

  lemma {:induction false} CandidatesAscend(t: Texts, kept: Embedding, pins: seq<AnchorPin>)
    requires NovelEdit(t, kept) && PinsInOrder(pins)
    requires forall pin | pin in pins :: LinePair(pin.prevLine, pin.currLine) in kept
    ensures PinsAscend(pins)
  {
    hide NovelEdit;
    forall a, b | 0 <= a < b < |pins| ensures pins[a].currLine < pins[b].currLine {
      assert pins[a] in pins && pins[b] in pins;
      var k :| 0 <= k < |kept| && kept[k] == LinePair(pins[a].prevLine, pins[a].currLine);
      var l :| 0 <= l < |kept| && kept[l] == LinePair(pins[b].prevLine, pins[b].currLine);
      KeptOrder(t, kept, k, l);
    }
  }

  /** Between pins that hold every kept line there is nothing left to scan for. */
  lemma {:induction false} NothingBetween(
    t: Texts, iv: Interval, kept: Embedding, lo: nat, hi: nat, pins: seq<AnchorPin>, budget: int)
    requires iv.Fits(t) && NovelEdit(t, kept) && lo <= hi <= |kept| && Respects(iv, kept, lo, hi)
    requires PinsWithin(t, iv, pins) && PinsAreKept(kept, lo, hi, pins) && AllPinned(kept, lo, hi, pins)
    ensures GapsScanned(t, iv, pins, budget)
    decreases |pins|
  {
    hide NovelEdit, Respects, Align, AlignGaps, PinsWithin, PinsAreKept, AllPinned, AllScanned, GapsScanned;
    hide Interval.Fits, Interval.Length, NothingShared;
    GapsScannedUnfold(t, iv, pins, budget);
    if pins == [] {
      NoPins(kept, lo, hi);
      SharedIffKept(t, iv, kept, lo, hi);
      ScannedUnfold(t, iv, budget);
    } else {
      var k := CutGaps(t, iv, kept, lo, hi, pins, budget);
      FirstIsPinned(t, iv, kept, lo, hi, pins, k);
      SharedIffKept(t, Gap(iv, pins), kept, lo, k);
      ScannedUnfold(t, Gap(iv, pins), budget);
      NothingBetween(t, AfterPin(iv, pins[0]), kept, k + 1, hi, pins[1..], Align(t, Gap(iv, pins), budget).budget);
    }
  }

  lemma {:induction false} NoPins(kept: Embedding, lo: nat, hi: nat)
    requires lo <= hi <= |kept|
    ensures AllPinned(kept, lo, hi, []) ==> lo == hi
  {
    if lo < hi {
      var none: seq<AnchorPin> := [];
      assert AnchorPin(kept[lo].prevLine, kept[lo].currLine) !in none;
    }
  }

  lemma {:induction false} FirstIsPinned(
    t: Texts, iv: Interval, kept: Embedding, lo: nat, hi: nat, pins: seq<AnchorPin>, k: nat)
    requires NovelEdit(t, kept) && PinsWithin(t, iv, pins) && CutAt(t, iv, kept, lo, hi, pins, k)
    requires AllPinned(kept, lo, hi, pins)
    ensures lo == k && AllPinned(kept, k + 1, hi, pins[1..])
  {
    hide NovelEdit, Respects, SameDigest, PinsAreKept, Interval.Fits;
    var first :| 0 <= first < |pins| && pins[first] == AnchorPin(kept[lo].prevLine, kept[lo].currLine);
    assert pins[0].prevLine <= pins[first].prevLine;
    KeptOrder(t, kept, lo, k);
    forall l | k + 1 <= l < hi ensures AnchorPin(kept[l].prevLine, kept[l].currLine) in pins[1..] {
      var a :| 0 <= a < |pins| && pins[a] == AnchorPin(kept[l].prevLine, kept[l].currLine);
      KeptOrder(t, kept, k, l);
      assert pins[1..][a - 1] == pins[a];
    }
  }

  // ---- the theorems ----

  /** Under any budget no kept line is paired with anything but itself, and no other line is paired. */
  lemma {:induction false} KeptLinesPairOnlyWithThemselves(t: Texts, kept: Embedding, budget: int)
    requires NovelEdit(t, kept)
    ensures forall p | p in Paired(t, budget) :: LinePair(p, Paired(t, budget)[p]) in kept
  {
    WholeRespects(t, kept);
    AlignOnlyKept(t, Whole(t), kept, 0, |kept|, budget);
  }

  ghost predicate AllPair(t: Texts, kept: Embedding, budget: int) {
    forall x | x in kept :: x.prevLine in Paired(t, budget) && Paired(t, budget)[x.prevLine] == x.currLine
  }

  /**
   Every kept line pairs with itself exactly when no scan it depends on was out of budget and no leaf it lies in
   was too large.
   */
  lemma {:induction false} KeptLinesAllPair(t: Texts, kept: Embedding, budget: int)
    requires NovelEdit(t, kept)
    ensures AllPair(t, kept, budget) <==> AllScanned(t, Whole(t), budget)
  {
    hide NovelEdit, AllScanned, Align;
    WholeRespects(t, kept);
    AlignAllKept(t, Whole(t), kept, 0, |kept|, budget);
    if AllScanned(t, Whole(t), budget) {
      forall x | x in kept ensures x.prevLine in Paired(t, budget) && Paired(t, budget)[x.prevLine] == x.currLine {
        var k :| 0 <= k < |kept| && kept[k] == x;
      }
    }
  }

  /** Kept lines that all differ pair at any file size, with a budget for one scan of both files. */
  lemma {:induction false} DifferentLinesAllPair(t: Texts, kept: Embedding, budget: int)
    requires NovelEdit(t, kept) && KeptDiffer(t, kept) && budget >= |t.prev| + |t.curr|
    ensures AllPair(t, kept, budget)
  {
    hide NovelEdit, KeptDiffer, AllPair, AllScanned, GapsScanned, StablePinsOf, PinsWithin, Respects, NothingShared;
    var iv := Whole(t);
    KeptLinesAllPair(t, kept, budget);
    WholeRespects(t, kept);
    ScannedUnfold(t, iv, budget);
    SharedIffKept(t, iv, kept, 0, |kept|);
    DifferentLinesArePinned(t, kept);
    var pins := StablePinsOf(t, iv);
    forall pin | pin in pins ensures LinePair(pin.prevLine, pin.currLine) in kept[0..|kept|] {
      StablePinsAreKept(t, iv, kept, 0, |kept|, pin);
    }
    NothingBetween(t, iv, kept, 0, |kept|, pins, budget - iv.Length());
    if pins == [] {
      NoPins(kept, 0, |kept|);
    }
  }

  /**
   The budget the store grants: different lines always pair, and so do all others where pins nest four levels deep.
   */
  lemma {:induction false} ProductionBudget(t: Texts, kept: Embedding)
    requires NovelEdit(t, kept)
    ensures
      var budget, lines := PairingScanBudget(|t.prev|, |t.curr|), |t.prev| + |t.curr|;
      budget >= 100_000 && budget >= 4 * lines && (budget == 100_000 || budget == 4 * lines)
    ensures KeptDiffer(t, kept) ==> AllPair(t, kept, PairingScanBudget(|t.prev|, |t.curr|))
    ensures LeavesFit(t, Whole(t)) && Nested(t, Whole(t), BUDGET_LINES_FACTOR)
            ==> AllPair(t, kept, PairingScanBudget(|t.prev|, |t.curr|))
  {
    hide NovelEdit, KeptDiffer, AllPair, AllScanned, ScanNeeded, Nested, LeavesFit;
    var budget := PairingScanBudget(|t.prev|, |t.curr|);
    if KeptDiffer(t, kept) {
      DifferentLinesAllPair(t, kept, budget);
    }
    if LeavesFit(t, Whole(t)) && Nested(t, Whole(t), BUDGET_LINES_FACTOR) {
      NeededByDepth(t, Whole(t), BUDGET_LINES_FACTOR);
      NeededIsEnough(t, Whole(t), budget);
      KeptLinesAllPair(t, kept, budget);
    }
  }

  /** Leaves that fit and a budget of one whole scan per previous line are always enough. */
  lemma {:induction false} ScanPerLineIsEnough(t: Texts, kept: Embedding, budget: int)
    requires NovelEdit(t, kept) && LeavesFit(t, Whole(t)) && budget >= |t.prev| * (|t.prev| + |t.curr|)
    ensures AllPair(t, kept, budget)
  {
    hide NovelEdit, AllPair, AllScanned, ScanNeeded, Nested, LeavesFit;
    NestedByLines(t, Whole(t), |t.prev|);
    NeededByDepth(t, Whole(t), |t.prev|);
    NeededIsEnough(t, Whole(t), budget);
    KeptLinesAllPair(t, kept, budget);
  }

  lemma {:induction false} WholeRespects(t: Texts, kept: Embedding)
    requires NovelEdit(t, kept)
    ensures Respects(Whole(t), kept, 0, |kept|)
  {
  }

  /** The pairs of an insertion of `length` lines after line `at` of `count` lines. */
  ghost function ShiftedBy(count: nat, at: nat, length: nat): (e: Embedding)
    ensures |e| == count
    ensures forall k | 0 <= k < count :: e[k] == LinePair(k + 1, if k < at then k + 1 else k + 1 + length)
  {
    seq(count, k requires 0 <= k < count => LinePair(k + 1, if k < at then k + 1 else k + 1 + length))
  }

  lemma {:induction false} InsertionIsNovel(prev: seq<Digest>, at: nat, block: seq<Digest>)
    requires at <= |prev| && forall d | d in block :: d !in prev
    ensures NovelEdit(Texts(prev, prev[..at] + block + prev[at..]), ShiftedBy(|prev|, at, |block|))
  {
    var t, kept := Texts(prev, prev[..at] + block + prev[at..]), ShiftedBy(|prev|, at, |block|);
    forall p: nat | 1 <= p <= |t.prev| ensures KeepsPrev(kept, p) {
      assert kept[p - 1] in kept;
    }
    forall c: nat | 1 <= c <= at || at + |block| < c <= |t.curr| ensures KeepsCurr(kept, c) {
      assert kept[if c <= at then c - 1 else c - |block| - 1] in kept;
    }
    forall c: nat | at < c <= at + |block| ensures DigestAt(t.curr, c) !in t.prev {
      assert t.curr[c - 1] == block[c - 1 - at];
    }
  }

  /** Insertion drift: lines around a block of new digests pair with nothing but their own shifted selves. */
  lemma {:induction false} InsertionDrift(prev: seq<Digest>, at: nat, block: seq<Digest>, budget: int)
    requires at <= |prev| && forall d | d in block :: d !in prev
    ensures
      var pairs := Paired(Texts(prev, prev[..at] + block + prev[at..]), budget);
      forall p | p in pairs :: pairs[p] == if p <= at then p else p + |block|
  {
    hide NovelEdit, Paired;
    var t, kept := Texts(prev, prev[..at] + block + prev[at..]), ShiftedBy(|prev|, at, |block|);
    InsertionIsNovel(prev, at, block);
    KeptLinesPairOnlyWithThemselves(t, kept, budget);
  }

  /** Every line is paired with its shifted self, and nothing else is. */
  ghost predicate AllShifted(pairs: map<nat, nat>, count: nat, at: nat, length: nat) {
    forall p: nat | 1 <= p <= count :: p in pairs && pairs[p] == if p <= at then p else p + length
  }

  lemma {:induction false} AllShiftedIff(t: Texts, at: nat, length: nat, budget: int)
    ensures AllShifted(Paired(t, budget), |t.prev|, at, length)
            <==> AllPair(t, ShiftedBy(|t.prev|, at, length), budget)
  {
    hide Paired;
    var kept := ShiftedBy(|t.prev|, at, length);
    if AllPair(t, kept, budget) {
      forall p: nat | 1 <= p <= |t.prev|
        ensures p in Paired(t, budget) && Paired(t, budget)[p] == if p <= at then p else p + length
      {
        assert kept[p - 1] in kept;
      }
    }
  }

  /** All of them pair exactly when no scan was out of budget and no leaf too large. */
  lemma {:induction false} InsertionDriftComplete(prev: seq<Digest>, at: nat, block: seq<Digest>, budget: int)
    requires at <= |prev| && forall d | d in block :: d !in prev
    ensures
      var t := Texts(prev, prev[..at] + block + prev[at..]);
      AllShifted(Paired(t, budget), |prev|, at, |block|) <==> AllScanned(t, Whole(t), budget)
  {
    hide NovelEdit, Paired, AllScanned, AllShifted, AllPair;
    var t, kept := Texts(prev, prev[..at] + block + prev[at..]), ShiftedBy(|prev|, at, |block|);
    InsertionIsNovel(prev, at, block);
    KeptLinesAllPair(t, kept, budget);
    AllShiftedIff(t, at, |block|, budget);
  }

  /** In a file of different lines, of any size, every line survives an insertion under the budget the store grants. */
  lemma {:induction false} InsertionDriftInProduction(prev: seq<Digest>, at: nat, block: seq<Digest>)
    requires at <= |prev| && (forall d | d in block :: d !in prev)
    requires forall i, j | 0 <= i < j < |prev| :: prev[i] != prev[j]
    ensures
      var t := Texts(prev, prev[..at] + block + prev[at..]);
      AllShifted(Paired(t, PairingScanBudget(|t.prev|, |t.curr|)), |prev|, at, |block|)
  {
    hide NovelEdit, Paired, AllScanned, AllShifted, AllPair;
    var t, kept := Texts(prev, prev[..at] + block + prev[at..]), ShiftedBy(|prev|, at, |block|);
    InsertionIsNovel(prev, at, block);
    assert KeptDiffer(t, kept);
    ProductionBudget(t, kept);
    AllShiftedIff(t, at, |block|, PairingScanBudget(|t.prev|, |t.curr|));
  }
}
