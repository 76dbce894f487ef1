/** Digests of canonicalised lines; the engine only ever compares them for equality. */
module Digests {
  type Digest = nat
}

/**
 The bounded leaf alignment of the pairing engine: a longest-common-subsequence table, a count of
 the optimal embeddings capped at two, and a traceback that is taken only when that count is one.

 The reference definition is `IsOptimal`: an embedding that no embedding of the window outgrows.
 */
module LcsAlignment {
  import opened Numbers
  import opened Digests

  /** A matched line pair: a previous line number and a current line number, both 1-based. */
  datatype LinePair = LinePair(prevLine: nat, currLine: nat)

  type Embedding = seq<LinePair>

  /** Two digest columns, cut off after previous line `pEnd` and current line `cEnd`. */
  datatype Window = Window(prev: seq<Digest>, curr: seq<Digest>, pEnd: nat, cEnd: nat) {
    ghost predicate Valid() {
      pEnd <= |prev| && cEnd <= |curr|
    }

    /** (p, c) is a first line pair of the window, or one past an end of it. */
    ghost predicate From(p: nat, c: nat) {
      Valid() && 1 <= p <= pEnd + 1 && 1 <= c <= cEnd + 1
    }

    predicate Same(p: nat, c: nat)
      requires 1 <= p <= pEnd <= |prev| && 1 <= c <= cEnd <= |curr|
    {
      prev[p - 1] == curr[c - 1]
    }
  }

  /** `e` matches equal digests only, inside the window that starts at (p, c), and crosses nowhere. */
  ghost predicate IsEmbedding(w: Window, p: nat, c: nat, e: Embedding)
    requires w.From(p, c)
  {
    && (forall k | 0 <= k < |e| ::
          p <= e[k].prevLine <= w.pEnd && c <= e[k].currLine <= w.cEnd && w.Same(e[k].prevLine, e[k].currLine))
    && (forall k, l | 0 <= k < l < |e| :: e[k].prevLine < e[l].prevLine && e[k].currLine < e[l].currLine)
  }

  /** No embedding of the same window has more pairs than `e`. */
  ghost predicate IsOptimal(w: Window, p: nat, c: nat, e: Embedding)
    requires w.From(p, c)
  {
    IsEmbedding(w, p, c, e) && forall f | IsEmbedding(w, p, c, f) :: |f| <= |e|
  }

  /** `e` is the one and only optimal embedding. */
  ghost predicate IsTheOptimum(w: Window, p: nat, c: nat, e: Embedding)
    requires w.From(p, c)
  {
    IsOptimal(w, p, c, e) && forall f | IsOptimal(w, p, c, f) :: f == e
  }

  // ---- the length table ----

  /** The recurrence of the length table. */
  function Best(w: Window, p: nat, c: nat): (r: nat)
    requires w.From(p, c)
    decreases w.pEnd + 1 - p + (w.cEnd + 1 - c)
  {
    if p > w.pEnd || c > w.cEnd then 0
    else if w.Same(p, c) then Best(w, p + 1, c + 1) + 1
    else Max(Best(w, p + 1, c), Best(w, p, c + 1))
  }

  lemma {:induction false} DropFirst(w: Window, p: nat, c: nat, e: Embedding)
    requires w.From(p, c) && IsEmbedding(w, p, c, e) && e != []
    ensures p <= e[0].prevLine <= w.pEnd && c <= e[0].currLine <= w.cEnd && w.Same(e[0].prevLine, e[0].currLine)
    ensures IsEmbedding(w, p + 1, c + 1, e[1..])
    ensures e[0].prevLine > p ==> IsEmbedding(w, p + 1, c, e)
    ensures e[0].currLine > c ==> IsEmbedding(w, p, c + 1, e)
  {
  }

  lemma {:induction false} AddFirst(w: Window, p: nat, c: nat, e: Embedding)
    requires w.From(p, c) && p <= w.pEnd && c <= w.cEnd && w.Same(p, c)
    requires IsEmbedding(w, p + 1, c + 1, e)
    ensures IsEmbedding(w, p, c, [LinePair(p, c)] + e)
  {
  }

  lemma {:induction false} BestBounds(w: Window, p: nat, c: nat, e: Embedding)
    requires w.From(p, c) && IsEmbedding(w, p, c, e)
    ensures |e| <= Best(w, p, c)
    decreases w.pEnd + 1 - p + (w.cEnd + 1 - c)
  {
    if e != [] {
      DropFirst(w, p, c, e);
      if w.Same(p, c) {
        // Every pair after the first lies strictly below and to the right of (p, c).
        BestBounds(w, p + 1, c + 1, e[1..]);
      } else if e[0].prevLine > p {
        BestBounds(w, p + 1, c, e);
      } else {
        BestBounds(w, p, c + 1, e);
      }
    }
  }

  /** An embedding that attains the table entry. */
  ghost function Witness(w: Window, p: nat, c: nat): (e: Embedding)
    requires w.From(p, c)
    ensures IsEmbedding(w, p, c, e) && |e| == Best(w, p, c)
    decreases w.pEnd + 1 - p + (w.cEnd + 1 - c)
  {
    if p > w.pEnd || c > w.cEnd then []
    else if w.Same(p, c) then
      [LinePair(p, c)] + Witness(w, p + 1, c + 1)
    else if Best(w, p, c) == Best(w, p + 1, c) then Witness(w, p + 1, c)
    else Witness(w, p, c + 1)
  }

  /** The table entry is the length of every optimal embedding, and nothing else is optimal. */
  lemma {:induction false} OptimalIffBest(w: Window, p: nat, c: nat, e: Embedding)
    requires w.From(p, c)
    ensures IsOptimal(w, p, c, e) <==> IsEmbedding(w, p, c, e) && |e| == Best(w, p, c)
  {
    var longest := Witness(w, p, c);
    if IsEmbedding(w, p, c, e) {
      BestBounds(w, p, c, e);
      forall f | IsEmbedding(w, p, c, f) ensures |f| <= Best(w, p, c) {
        BestBounds(w, p, c, f);
      }
    }
  }

  lemma {:induction false} Widen(w: Window, p: nat, c: nat, p': nat, c': nat, e: Embedding)
    requires w.From(p, c) && w.From(p', c') && p <= p' && c <= c'
    requires IsEmbedding(w, p', c', e)
    ensures IsEmbedding(w, p, c, e)
  {
  }

  lemma {:induction false} BestOfNested(w: Window, p: nat, c: nat, p': nat, c': nat)
    requires w.From(p, c) && w.From(p', c') && p <= p' && c <= c'
    ensures Best(w, p', c') <= Best(w, p, c)
  {
    var e := Witness(w, p', c');
    Widen(w, p, c, p', c', e);
    BestBounds(w, p, c, e);
  }

  /** Dropping the first line pair loses at most one match. */
  lemma {:induction false} BestOfDiagonal(w: Window, p: nat, c: nat)
    requires w.From(p, c) && p <= w.pEnd && c <= w.cEnd
    ensures Best(w, p, c) <= Best(w, p + 1, c + 1) + 1
  {
    var e := Witness(w, p, c);
    if e != [] {
      DropFirst(w, p, c, e);
      BestBounds(w, p + 1, c + 1, e[1..]);
    }
  }

  lemma {:induction false} BestMonotone(w: Window, p: nat, c: nat)
    requires w.From(p, c) && p <= w.pEnd && c <= w.cEnd
    ensures Best(w, p + 1, c + 1) <= Best(w, p + 1, c) <= Best(w, p, c)
    ensures Best(w, p + 1, c + 1) <= Best(w, p, c + 1) <= Best(w, p, c)
    ensures Best(w, p, c) <= Best(w, p + 1, c + 1) + 1
  {
    BestOfNested(w, p + 1, c, p + 1, c + 1);
    BestOfNested(w, p, c + 1, p + 1, c + 1);
    BestOfNested(w, p, c, p + 1, c);
    BestOfNested(w, p, c, p, c + 1);
    BestOfDiagonal(w, p, c);
  }

  // ---- the set of optimal embeddings ----

  ghost function Prepend(first: LinePair, s: set<Embedding>): set<Embedding> {
    set e | e in s :: [first] + e
  }

  /** All optimal embeddings of the window, by what they do with the line pair (p, c). */
  ghost function Optima(w: Window, p: nat, c: nat): (r: set<Embedding>)
    requires w.From(p, c)
    decreases w.pEnd + 1 - p + (w.cEnd + 1 - c), 1
  {
    if Best(w, p, c) == 0 then {[]}
    else SkipPrev(w, p, c) + SkipCurr(w, p, c) + Matched(w, p, c)
  }

  /** The optimal embeddings that leave previous line p unmatched. */
  ghost function SkipPrev(w: Window, p: nat, c: nat): set<Embedding>
    requires w.From(p, c) && p <= w.pEnd && c <= w.cEnd
    decreases w.pEnd + 1 - p + (w.cEnd + 1 - c), 0
  {
    if Best(w, p + 1, c) == Best(w, p, c) then Optima(w, p + 1, c) else {}
  }

  /** The optimal embeddings that leave current line c unmatched. */
  ghost function SkipCurr(w: Window, p: nat, c: nat): set<Embedding>
    requires w.From(p, c) && p <= w.pEnd && c <= w.cEnd
    decreases w.pEnd + 1 - p + (w.cEnd + 1 - c), 0
  {
    if Best(w, p, c + 1) == Best(w, p, c) then Optima(w, p, c + 1) else {}
  }

  /** The optimal embeddings that match p with c. */
  ghost function Matched(w: Window, p: nat, c: nat): set<Embedding>
    requires w.From(p, c) && p <= w.pEnd && c <= w.cEnd
    decreases w.pEnd + 1 - p + (w.cEnd + 1 - c), 0
  {
    if w.Same(p, c) && Best(w, p + 1, c + 1) + 1 == Best(w, p, c)
    then Prepend(LinePair(p, c), Optima(w, p + 1, c + 1))
    else {}
  }

  /** An embedding of the length the table promises. */
  ghost predicate IsBest(w: Window, p: nat, c: nat, e: Embedding)
    requires w.From(p, c)
  {
    IsEmbedding(w, p, c, e) && |e| == Best(w, p, c)
  }

  /** `Optima` is exactly the set of optimal embeddings. */
  lemma {:induction false} OptimaExact(w: Window, p: nat, c: nat, e: Embedding)
    requires w.From(p, c)
    ensures e in Optima(w, p, c) <==> IsBest(w, p, c, e)
    decreases w.pEnd + 1 - p + (w.cEnd + 1 - c)
  {
    if Best(w, p, c) != 0 {
      OptimaExact(w, p + 1, c, e);
      OptimaExact(w, p, c + 1, e);
      if e != [] {
        OptimaExact(w, p + 1, c + 1, e[1..]);
      }
      OptimumCases(w, p, c, e);
      MatchedExact(w, p, c, e);
    }
  }

  lemma {:induction false} MatchedExact(w: Window, p: nat, c: nat, e: Embedding)
    requires w.From(p, c) && p <= w.pEnd && c <= w.cEnd
    ensures e in Matched(w, p, c) <==>
            && w.Same(p, c) && Best(w, p + 1, c + 1) + 1 == Best(w, p, c)
            && e != [] && e[0] == LinePair(p, c) && e[1..] in Optima(w, p + 1, c + 1)
  {
    if e in Matched(w, p, c) {
      var rest :| rest in Optima(w, p + 1, c + 1) && e == [LinePair(p, c)] + rest;
      assert rest == e[1..];
    } else if e != [] && e[0] == LinePair(p, c) {
      assert e == [LinePair(p, c)] + e[1..];
    }
  }

  /** An optimal embedding matches p with c, or leaves p unmatched, or leaves c unmatched. */
  lemma {:induction false} OptimumCases(w: Window, p: nat, c: nat, e: Embedding)
    requires w.From(p, c) && p <= w.pEnd && c <= w.cEnd && Best(w, p, c) > 0
    ensures IsBest(w, p, c, e) <==>
            || (IsBest(w, p + 1, c, e) && Best(w, p + 1, c) == Best(w, p, c))
            || (IsBest(w, p, c + 1, e) && Best(w, p, c + 1) == Best(w, p, c))
            || (w.Same(p, c) && Best(w, p + 1, c + 1) + 1 == Best(w, p, c)
                && e != [] && e[0] == LinePair(p, c) && IsBest(w, p + 1, c + 1, e[1..]))
  {
    if e != [] && w.Same(p, c) && e[0] == LinePair(p, c) && IsBest(w, p + 1, c + 1, e[1..]) {
      AddFirst(w, p, c, e[1..]);
      assert e == [LinePair(p, c)] + e[1..];
    }
    if IsBest(w, p, c, e) {
      IsBestCases(w, p, c, e);
    }
  }

  lemma {:induction false} IsBestCases(w: Window, p: nat, c: nat, e: Embedding)
    requires w.From(p, c) && p <= w.pEnd && c <= w.cEnd && Best(w, p, c) > 0
    requires IsBest(w, p, c, e)
    ensures e != []
    ensures
      || (IsBest(w, p + 1, c, e) && Best(w, p + 1, c) == Best(w, p, c))
      || (IsBest(w, p, c + 1, e) && Best(w, p, c + 1) == Best(w, p, c))
      || (w.Same(p, c) && Best(w, p + 1, c + 1) + 1 == Best(w, p, c)
          && e[0] == LinePair(p, c) && IsBest(w, p + 1, c + 1, e[1..]))
  {
    BestMonotone(w, p, c);
    DropFirst(w, p, c, e);
    if e[0].prevLine > p {
      BestBounds(w, p + 1, c, e);
    } else if e[0].currLine > c {
      BestBounds(w, p, c + 1, e);
    } else {
      BestBounds(w, p + 1, c + 1, e[1..]);
    }
  }

  // ---- counting the optimal embeddings ----

  lemma {:induction false} SomeOptimum(w: Window, p: nat, c: nat)
    requires w.From(p, c)
    ensures Witness(w, p, c) in Optima(w, p, c)
    ensures |Optima(w, p, c)| > 0
  {
    OptimaExact(w, p, c, Witness(w, p, c));
  }

  /** What both lines can be missing from is exactly what the diagonal window offers. */
  lemma {:induction false} SkipOverlap(w: Window, p: nat, c: nat)
    requires w.From(p, c) && p <= w.pEnd && c <= w.cEnd
    ensures SkipPrev(w, p, c) * SkipCurr(w, p, c)
            == if Best(w, p + 1, c + 1) == Best(w, p, c) then Optima(w, p + 1, c + 1) else {}
  {
    BestMonotone(w, p, c);
    hide Best, Optima;
    forall e
      ensures e in SkipPrev(w, p, c) && e in SkipCurr(w, p, c)
              <==> Best(w, p + 1, c + 1) == Best(w, p, c) && e in Optima(w, p + 1, c + 1)
    {
      OptimaExact(w, p + 1, c, e);
      OptimaExact(w, p, c + 1, e);
      OptimaExact(w, p + 1, c + 1, e);
      if IsEmbedding(w, p + 1, c, e) && IsEmbedding(w, p, c + 1, e) {
        BestBounds(w, p + 1, c + 1, e);
      }
    }
  }

  lemma {:induction false} MatchedApart(w: Window, p: nat, c: nat)
    requires w.From(p, c) && p <= w.pEnd && c <= w.cEnd
    ensures Matched(w, p, c) !! SkipPrev(w, p, c) + SkipCurr(w, p, c)
  {
    forall e | e in Matched(w, p, c) ensures e !in SkipPrev(w, p, c) && e !in SkipCurr(w, p, c) {
      MatchedExact(w, p, c, e);
      OptimaExact(w, p + 1, c, e);
      OptimaExact(w, p, c + 1, e);
    }
  }

  lemma {:induction false} PrependedSize(first: LinePair, s: set<Embedding>)
    ensures |Prepend(first, s)| == |s|
  {
    if s != {} {
      var x :| x in s;
      PrependedSize(first, s - {x});
      forall e | e in s - {x} ensures [first] + e != [first] + x {
        assert ([first] + e)[1..] == e && ([first] + x)[1..] == x;
      }
      assert Prepend(first, s) == Prepend(first, s - {x}) + {[first] + x};
    }
  }

  /** The count is capped here: two stands for "two or more". */
  function Cap(n: nat): nat {
    if n > 2 then 2 else n
  }

  function CapTotal(total: int): int {
    if total > 2 then 2 else total
  }

  lemma {:induction false} UnionSize(a: set<Embedding>, b: set<Embedding>)
    ensures |a + b| == |a| + |b| - |a * b|
  {
  }

  lemma {:induction false} SubsetSize(a: set<Embedding>, b: set<Embedding>)
    requires a <= b
    ensures |a| <= |b|
  {
    assert b == a + (b - a);
  }

  /** Inclusion and exclusion over the true counts. */
  lemma {:induction false} OptimaSize(w: Window, p: nat, c: nat)
    requires w.From(p, c) && p <= w.pEnd && c <= w.cEnd && Best(w, p, c) > 0
    ensures |Optima(w, p, c)|
            == |SkipPrev(w, p, c)| + |SkipCurr(w, p, c)|
               - |SkipPrev(w, p, c) * SkipCurr(w, p, c)| + |Matched(w, p, c)|
  {
    var a, b, m := SkipPrev(w, p, c), SkipCurr(w, p, c), Matched(w, p, c);
    MatchedApart(w, p, c);
    UnionSize(a, b);
    assert |(a + b) + m| == |a + b| + |m|;
  }

  lemma {:induction false} SkipSizes(w: Window, p: nat, c: nat)
    requires w.From(p, c) && p <= w.pEnd && c <= w.cEnd && Best(w, p, c) > 0
    ensures |SkipPrev(w, p, c)| == If(Best(w, p + 1, c) == Best(w, p, c), |Optima(w, p + 1, c)|)
    ensures |SkipCurr(w, p, c)| == If(Best(w, p, c + 1) == Best(w, p, c), |Optima(w, p, c + 1)|)
    ensures |SkipPrev(w, p, c) * SkipCurr(w, p, c)|
            == If(Best(w, p + 1, c + 1) == Best(w, p, c), |Optima(w, p + 1, c + 1)|)
    ensures |SkipPrev(w, p, c) * SkipCurr(w, p, c)| <= |SkipPrev(w, p, c)|
    ensures |SkipPrev(w, p, c) * SkipCurr(w, p, c)| <= |SkipCurr(w, p, c)|
  {
    SkipOverlap(w, p, c);
    SubsetSize(SkipPrev(w, p, c) * SkipCurr(w, p, c), SkipPrev(w, p, c));
    SubsetSize(SkipPrev(w, p, c) * SkipCurr(w, p, c), SkipCurr(w, p, c));
  }

  lemma {:induction false} MatchedSize(w: Window, p: nat, c: nat)
    requires w.From(p, c) && p <= w.pEnd && c <= w.cEnd && Best(w, p, c) > 0
    ensures |Matched(w, p, c)|
            == If(w.Same(p, c) && Best(w, p + 1, c + 1) + 1 == Best(w, p, c), |Optima(w, p + 1, c + 1)|)
  {
    PrependedSize(LinePair(p, c), Optima(w, p + 1, c + 1));
  }

  function If(condition: bool, n: nat): nat {
    if condition then n else 0
  }

  /** `both` lines can be skipped only where either alone can, and then nothing matches here. */
  lemma {:induction false} CapSum(below: nat, right: nat, both: nat, matched: nat)
    requires both <= below && both <= right
    requires both > 0 ==> matched == 0
    ensures CapTotal(Cap(below) + Cap(right) - Cap(both) + Cap(matched)) == Cap(below + right - both + matched)
  {
  }

  /**
   Inclusion and exclusion over capped counts: what the recurrence computes from the capped counts of
   the three neighbours is the capped number of optimal embeddings.
   */
  lemma {:induction false} CountStep(w: Window, p: nat, c: nat)
    requires w.From(p, c) && p <= w.pEnd && c <= w.cEnd && Best(w, p, c) > 0
    ensures
      var target, diagonal := Best(w, p, c), Best(w, p + 1, c + 1);
      var below := If(Best(w, p + 1, c) == target, Cap(|Optima(w, p + 1, c)|));
      var right := If(Best(w, p, c + 1) == target, Cap(|Optima(w, p, c + 1)|));
      var both := If(diagonal == target, Cap(|Optima(w, p + 1, c + 1)|));
      var matched := If(w.Same(p, c) && diagonal + 1 == target, Cap(|Optima(w, p + 1, c + 1)|));
      CapTotal(below + right - both + matched) == Cap(|Optima(w, p, c)|)
  {
    hide Best, Optima, SkipPrev, SkipCurr, Matched;
    OptimaSize(w, p, c);
    SkipSizes(w, p, c);
    MatchedSize(w, p, c);
    CapSum(|SkipPrev(w, p, c)|, |SkipCurr(w, p, c)|, |SkipPrev(w, p, c) * SkipCurr(w, p, c)|, |Matched(w, p, c)|);
  }

  /** A count of one means there is one optimal embedding and no second. */
  lemma {:induction false} OneOptimum(w: Window, p: nat, c: nat)
    requires w.From(p, c)
    ensures |Optima(w, p, c)| == 1 <==> exists e :: IsTheOptimum(w, p, c, e)
    ensures forall e :: |Optima(w, p, c)| == 1 && e in Optima(w, p, c) ==> IsTheOptimum(w, p, c, e)
  {
    hide Best, Optima, IsEmbedding, Witness;
    forall e ensures e in Optima(w, p, c) <==> IsOptimal(w, p, c, e) {
      OptimaExact(w, p, c, e);
      OptimalIffBest(w, p, c, e);
    }
    SomeOptimum(w, p, c);
    if |Optima(w, p, c)| == 1 {
      Singleton(Optima(w, p, c), Witness(w, p, c));
      assert IsTheOptimum(w, p, c, Witness(w, p, c));
    }
    if e :| IsTheOptimum(w, p, c, e) {
      assert Optima(w, p, c) == {e};
    }
  }

  lemma {:induction false} Singleton(s: set<Embedding>, x: Embedding)
    requires |s| == 1 && x in s
    ensures s == {x}
  {
    assert |s - {x}| == 0;
  }

  // ---- the tables and the traceback ----

  const MAXIMAL_PAIRING_CAP := 2

  datatype Alignment = Alignment(isUnique: bool, pairs: Embedding)

  ghost predicate IsLengthTable(w: Window, p: nat, c: nat, suffix: array2<int>)
    requires w.From(p, c)
    reads suffix
  {
    && suffix.Length0 == w.pEnd + 2 - p
    && suffix.Length1 == w.cEnd + 2 - c
    && forall i: nat, j: nat {:trigger suffix[i, j]} | i < suffix.Length0 && j < suffix.Length1 ::
          suffix[i, j] == Best(w, p + i, c + j)
  }

  ghost predicate IsCountTable(w: Window, p: nat, c: nat, count: array2<int>)
    requires w.From(p, c)
    reads count
  {
    && count.Length0 == w.pEnd + 2 - p
    && count.Length1 == w.cEnd + 2 - c
    && forall i: nat, j: nat {:trigger count[i, j]} | i < count.Length0 && j < count.Length1 ::
         count[i, j] == Cap(|Optima(w, p + i, c + j)|)
  }

  method LengthTable(w: Window, pStart: nat, cStart: nat) returns (suffix: array2<int>)
    requires w.From(pStart, cStart)
    ensures fresh(suffix) && IsLengthTable(w, pStart, cStart, suffix)
  {
    var pCount, cCount := w.pEnd + 1 - pStart, w.cEnd + 1 - cStart;
    suffix := new int[pCount + 1, cCount + 1]((_, _) => 0);
    for i := pCount downto 0
      invariant forall a: nat, b: nat | i <= a <= pCount && b <= cCount ::
                suffix[a, b] == Best(w, pStart + a, cStart + b)
      invariant forall a: nat | a <= pCount :: suffix[a, cCount] == 0
    {
      for j := cCount downto 0
        invariant forall a: nat, b: nat | i < a <= pCount && b <= cCount ::
                  suffix[a, b] == Best(w, pStart + a, cStart + b)
        invariant forall b: nat | j <= b <= cCount :: suffix[i, b] == Best(w, pStart + i, cStart + b)
        invariant forall a: nat | a <= pCount :: suffix[a, cCount] == 0
      {
        var diagonal := suffix[i + 1, j + 1];
        suffix[i, j] :=
          if w.Same(pStart + i, cStart + j) then diagonal + 1
          else if suffix[i + 1, j] < suffix[i, j + 1] then suffix[i, j + 1] else suffix[i + 1, j];
      }
    }
  }

  method CountTable(w: Window, pStart: nat, cStart: nat, suffix: array2<int>) returns (count: array2<int>)
    requires w.From(pStart, cStart) && IsLengthTable(w, pStart, cStart, suffix)
    ensures fresh(count) && IsCountTable(w, pStart, cStart, count)
  {
    var pCount, cCount := w.pEnd + 1 - pStart, w.cEnd + 1 - cStart;
    hide Best, Optima;
    count := new int[pCount + 1, cCount + 1]((_, _) => 0);
    for i := pCount + 1 downto 0
      invariant forall a: nat, b: nat | i <= a <= pCount && b <= cCount ::
                  count[a, b] == Cap(|Optima(w, pStart + a, cStart + b)|)
    {
      for j := cCount + 1 downto 0
        invariant forall a: nat, b: nat | i < a <= pCount && b <= cCount ::
                    count[a, b] == Cap(|Optima(w, pStart + a, cStart + b)|)
        invariant forall b: nat | j <= b <= cCount :: count[i, b] == Cap(|Optima(w, pStart + i, cStart + b)|)
      {
        count[i, j] := CountCell(w, pStart, cStart, suffix, count, i, j);
      }
    }
  }

  lemma {:induction false} NoneToCount(w: Window, p: nat, c: nat)
    requires w.From(p, c)
    ensures p > w.pEnd || c > w.cEnd || Best(w, p, c) == 0 ==> |Optima(w, p, c)| == 1
  {
  }

  /** One cell of the count table, from its three neighbours. */
  method CountCell(w: Window, pStart: nat, cStart: nat, suffix: array2<int>, count: array2<int>, i: nat, j: nat)
    returns (cell: int)
    requires w.From(pStart, cStart) && IsLengthTable(w, pStart, cStart, suffix)
    requires count.Length0 == suffix.Length0 && count.Length1 == suffix.Length1
    requires i < count.Length0 && j < count.Length1
    requires i + 1 < count.Length0 && j + 1 < count.Length1 ==>
               && count[i + 1, j] == Cap(|Optima(w, pStart + i + 1, cStart + j)|)
               && count[i, j + 1] == Cap(|Optima(w, pStart + i, cStart + j + 1)|)
               && count[i + 1, j + 1] == Cap(|Optima(w, pStart + i + 1, cStart + j + 1)|)
    ensures cell == Cap(|Optima(w, pStart + i, cStart + j)|)
  {
    var pCount, cCount := w.pEnd + 1 - pStart, w.cEnd + 1 - cStart;
    hide Best, Optima;
    if i == pCount || j == cCount {
      NoneToCount(w, pStart + i, cStart + j);
      return 1;
    }
    assert suffix[i + 1, j] == Best(w, pStart + i + 1, cStart + j);
    assert suffix[i, j + 1] == Best(w, pStart + i, cStart + j + 1);
    assert suffix[i + 1, j + 1] == Best(w, pStart + i + 1, cStart + j + 1);
    var target := suffix[i, j];
    if target == 0 {
      NoneToCount(w, pStart + i, cStart + j);
      return 1;
    }
    var diagonal, below, right := suffix[i + 1, j + 1], suffix[i + 1, j], suffix[i, j + 1];
    cell := CellFromNeighbours(w, pStart + i, cStart + j, target, diagonal, below, right,
                               count[i + 1, j], count[i, j + 1], count[i + 1, j + 1]);
  }

  method CellFromNeighbours(
    w: Window, p: nat, c: nat, target: int, diagonal: int, below: int, right: int,
    belowCount: int, rightCount: int, diagonalCount: int
  ) returns (cell: int)
    requires w.From(p, c) && p <= w.pEnd && c <= w.cEnd && target == Best(w, p, c) > 0
    requires below == Best(w, p + 1, c) && right == Best(w, p, c + 1) && diagonal == Best(w, p + 1, c + 1)
    requires belowCount == Cap(|Optima(w, p + 1, c)|) && rightCount == Cap(|Optima(w, p, c + 1)|)
    requires diagonalCount == Cap(|Optima(w, p + 1, c + 1)|)
    ensures cell == Cap(|Optima(w, p, c)|)
  {
    hide Best, Optima;
    CountStep(w, p, c);
    var total := 0;
    if below == target { total := total + belowCount; }
    if right == target { total := total + rightCount; }
    if diagonal == target { total := total - diagonalCount; }
    if w.Same(p, c) && diagonal + 1 == target { total := total + diagonalCount; }
    cell := if total > MAXIMAL_PAIRING_CAP then MAXIMAL_PAIRING_CAP else total;
  }

  /** `found` followed by any optimum of the rest is an optimum of the whole, and there is nothing else. */
  ghost predicate Leads(w: Window, p: nat, c: nat, found: Embedding, p': nat, c': nat) {
    && w.From(p, c) && w.From(p', c')
    && |Optima(w, p', c')| == 1
    && forall e | e in Optima(w, p', c') :: found + e in Optima(w, p, c)
  }

  lemma {:induction false} MatchFirst(w: Window, p: nat, c: nat)
    requires w.From(p, c) && p <= w.pEnd && c <= w.cEnd && Best(w, p, c) > 0
    requires w.Same(p, c) && Best(w, p + 1, c + 1) + 1 == Best(w, p, c)
    ensures Prepend(LinePair(p, c), Optima(w, p + 1, c + 1)) <= Optima(w, p, c)
    ensures 0 < |Optima(w, p + 1, c + 1)| <= |Optima(w, p, c)|
  {
    MatchedSize(w, p, c);
    SomeOptimum(w, p + 1, c + 1);
    SubsetSize(Matched(w, p, c), Optima(w, p, c));
  }

  lemma {:induction false} TraceMatch(w: Window, p: nat, c: nat, found: Embedding, p': nat, c': nat)
    requires Leads(w, p, c, found, p', c')
    requires p' <= w.pEnd && c' <= w.cEnd && Best(w, p', c') > 0
    requires w.Same(p', c') && Best(w, p' + 1, c' + 1) + 1 == Best(w, p', c')
    ensures Leads(w, p, c, found + [LinePair(p', c')], p' + 1, c' + 1)
  {
    MatchFirst(w, p', c');
    hide Best, Optima;
    forall e | e in Optima(w, p' + 1, c' + 1) ensures found + [LinePair(p', c')] + e in Optima(w, p, c) {
      assert [LinePair(p', c')] + e in Prepend(LinePair(p', c'), Optima(w, p' + 1, c' + 1));
      assert found + [LinePair(p', c')] + e == found + ([LinePair(p', c')] + e);
    }
  }

  lemma {:induction false} TraceSkip(w: Window, p: nat, c: nat, found: Embedding, p': nat, c': nat, p2: nat, c2: nat)
    requires Leads(w, p, c, found, p', c')
    requires p' <= p2 <= w.pEnd + 1 && c' <= c2 <= w.cEnd + 1 && Best(w, p2, c2) == Best(w, p', c')
    ensures Leads(w, p, c, found, p2, c2)
  {
    forall e | e in Optima(w, p2, c2) ensures e in Optima(w, p', c') {
      OptimaExact(w, p2, c2, e);
      Widen(w, p', c', p2, c2, e);
      OptimaExact(w, p', c', e);
    }
    SomeOptimum(w, p2, c2);
    SubsetSize(Optima(w, p2, c2), Optima(w, p', c'));
  }

  method TraceBack(w: Window, pStart: nat, cStart: nat, suffix: array2<int>) returns (pairs: Embedding)
    requires w.From(pStart, cStart) && IsLengthTable(w, pStart, cStart, suffix)
    requires |Optima(w, pStart, cStart)| == 1
    ensures pairs in Optima(w, pStart, cStart)
  {
    hide Best, Optima, Leads;
    pairs := [];
    var p, c := pStart, cStart;
    TraceStart(w, pStart, cStart);
    while p <= w.pEnd && c <= w.cEnd
      invariant pStart <= p <= w.pEnd + 1 && cStart <= c <= w.cEnd + 1
      invariant Leads(w, pStart, cStart, pairs, p, c)
      decreases w.pEnd - p + (w.cEnd - c)
    {
      var target := suffix[p - pStart, c - cStart];
      if target == 0 { break; }
      var diagonal := suffix[p + 1 - pStart, c + 1 - cStart];
      var below := suffix[p + 1 - pStart, c - cStart];
      assert diagonal == Best(w, p + 1, c + 1);
      assert below == Best(w, p + 1, c);
      TraceOn(w, pStart, cStart, pairs, p, c, target, diagonal, below);
      if w.Same(p, c) && diagonal + 1 == target {
        pairs := pairs + [LinePair(p, c)];
        p, c := p + 1, c + 1;
      } else if diagonal == target {
        p, c := p + 1, c + 1;
      } else if below == target {
        p := p + 1;
      } else {
        c := c + 1;
      }
    }
    TraceEnd(w, pStart, cStart, pairs, p, c, suffix[p - pStart, c - cStart]);
  }
  /** The preference order of the traceback never leaves the optimum. */
  lemma {:induction false} TraceOn(
    w: Window, p: nat, c: nat, found: Embedding, p': nat, c': nat, target: int, diagonal: int, below: int)
    requires Leads(w, p, c, found, p', c') && p' <= w.pEnd && c' <= w.cEnd
    requires target == Best(w, p', c') > 0
    requires diagonal == Best(w, p' + 1, c' + 1) && below == Best(w, p' + 1, c')
    ensures
      if w.Same(p', c') && diagonal + 1 == target then Leads(w, p, c, found + [LinePair(p', c')], p' + 1, c' + 1)
      else if diagonal == target then Leads(w, p, c, found, p' + 1, c' + 1)
      else if below == target then Leads(w, p, c, found, p' + 1, c')
      else Leads(w, p, c, found, p', c' + 1)
  {
    BestOrNeighbour(w, p', c');
    hide Best, Optima, Leads;
    if w.Same(p', c') && diagonal + 1 == target {
      TraceMatch(w, p, c, found, p', c');
    } else if diagonal == target {
      TraceSkip(w, p, c, found, p', c', p' + 1, c' + 1);
    } else if below == target {
      TraceSkip(w, p, c, found, p', c', p' + 1, c');
    } else {
      TraceSkip(w, p, c, found, p', c', p', c' + 1);
    }
  }

  lemma {:induction false} TraceStart(w: Window, p: nat, c: nat)
    requires w.From(p, c) && |Optima(w, p, c)| == 1
    ensures Leads(w, p, c, [], p, c)
  {
    assert forall e: Embedding :: [] + e == e;
  }

  lemma {:induction false} TraceEnd(w: Window, p: nat, c: nat, found: Embedding, p': nat, c': nat, best: int)
    requires Leads(w, p, c, found, p', c')
    requires best == Best(w, p', c')
    requires p' > w.pEnd || c' > w.cEnd || best == 0
    ensures found in Optima(w, p, c)
  {
    assert [] in Optima(w, p', c');
    assert found + [] == found;
  }

  lemma {:induction false} BestOrNeighbour(w: Window, p: nat, c: nat)
    requires w.From(p, c) && p <= w.pEnd && c <= w.cEnd
    ensures || (w.Same(p, c) && Best(w, p + 1, c + 1) + 1 == Best(w, p, c))
            || Best(w, p + 1, c) == Best(w, p, c)
            || Best(w, p, c + 1) == Best(w, p, c)
  {
  }

  /**
   Align one bounded interval. It is reported unique exactly when the interval has one optimal
   embedding and no second, and then the pairs are that embedding.
   */
  method ComputeLCSPaths(
    prevLines: seq<Digest>, currLines: seq<Digest>, pStart: nat, pEnd: nat, cStart: nat, cEnd: nat
  ) returns (r: Alignment)
    requires Window(prevLines, currLines, pEnd, cEnd).From(pStart, cStart)
    ensures var w := Window(prevLines, currLines, pEnd, cEnd);
            r.isUnique <==> exists e :: IsTheOptimum(w, pStart, cStart, e)
    ensures var w := Window(prevLines, currLines, pEnd, cEnd);
            r.isUnique ==> IsTheOptimum(w, pStart, cStart, r.pairs)
    ensures !r.isUnique ==> r.pairs == []
  {
    var w := Window(prevLines, currLines, pEnd, cEnd);
    var suffix := LengthTable(w, pStart, cStart);
    var count := CountTable(w, pStart, cStart, suffix);
    var isUnique := count[0, 0] == 1;
    var pairs := [];
    assert count[0, 0] == Cap(|Optima(w, pStart, cStart)|);
    OneOptimum(w, pStart, cStart);
    if isUnique {
      pairs := TraceBack(w, pStart, cStart, suffix);
    }
    r := Alignment(isUnique, pairs);
  }
}
