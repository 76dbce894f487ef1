/**
 Re-hashing after an edit: every surviving line claims the nearest new line with its canonical text and
 brings its anchor along; the lines left over get fresh anchors.
 */
module StableHashes {
  import opened Numbers
  import opened Options
  import opened TextLines
  import opened AnchorSpace
  import opened HashAssign

  /** Per new line, the old line whose anchor it took over, if any. */
  type Sources = seq<Option<nat>>

  // ---- the nearest candidate ----

  function AbsDiff(a: int, b: int): nat {
    if a < b then b - a else a - b
  }

  /** The position of a candidate nearest to the target, the lower one on a tie. */
  method NearestNew(candidates: seq<nat>, target: int) returns (pos: int)
    requires StrictlyAscending(candidates)
    ensures pos == -1 <==> candidates == []
    ensures candidates != [] ==> 0 <= pos < |candidates|
    ensures candidates != [] ==> forall k | 0 <= k < |candidates| ::
              && AbsDiff(candidates[pos], target) <= AbsDiff(candidates[k], target)
              && (AbsDiff(candidates[pos], target) == AbsDiff(candidates[k], target) ==> pos <= k)
  {
    var lo, hi := 0, |candidates|;
    while lo < hi
      invariant 0 <= lo <= hi <= |candidates|
      invariant forall k | 0 <= k < lo :: candidates[k] < target
      invariant forall k | hi <= k < |candidates| :: target <= candidates[k]
    {
      var mid := (lo + hi) / 2;
      if candidates[mid] < target { lo := mid + 1; } else { hi := mid; }
    }
    var left, right := lo - 1, lo;
    if left >= 0 && (right >= |candidates| || target - candidates[left] <= candidates[right] - target) {
      return left;
    }
    return if right < |candidates| then right else -1;
  }

  // ---- candidates by canonical text ----

  /** `list` holds the unclaimed new lines of one canonical text, in order. */
  ghost predicate Lists(newCanons: seq<string>, source: Sources, key: string, list: seq<nat>)
    requires |source| == |newCanons|
  {
    && StrictlyAscending(list)
    && forall i: nat :: i in list <==> i < |newCanons| && newCanons[i] == key && source[i].None?
  }

  ghost predicate Unclaimed(newCanons: seq<string>, source: Sources, candidates: map<string, seq<nat>>)
    requires |source| == |newCanons|
  {
    && (forall key | key in candidates :: Lists(newCanons, source, key, candidates[key]))
    && (forall i | 0 <= i < |newCanons| :: newCanons[i] in candidates)
  }

  ghost predicate ListsUpTo(canons: seq<string>, n: nat, key: string, list: seq<nat>)
    requires n <= |canons|
  {
    && StrictlyAscending(list)
    && forall i: nat :: i in list <==> i < n && canons[i] == key
  }

  lemma {:induction false} ListNext(canons: seq<string>, n: nat, key: string, list: seq<nat>)
    requires n < |canons| && ListsUpTo(canons, n, key, list)
    ensures ListsUpTo(canons, n + 1, key, if canons[n] == key then list + [n] else list)
  {
    assert forall k | 0 <= k < |list| :: list[k] in list;
  }

  function NoSources(n: nat): Sources {
    seq(n, _ => None)
  }

  method GroupByCanon(newLines: seq<string>) returns (candidates: map<string, seq<nat>>)
    ensures Unclaimed(Canons(newLines), NoSources(|newLines|), candidates)
  {
    candidates := map[];
    ghost var canons := Canons(newLines);
    for i := 0 to |newLines|
      invariant forall key | key in candidates :: ListsUpTo(canons, i, key, candidates[key])
      invariant forall key | key !in candidates :: ListsUpTo(canons, i, key, [])
      invariant forall k | 0 <= k < i :: canons[k] in candidates
    {
      var key := Canon(newLines[i]);
      forall other
        ensures ListsUpTo(canons, i + 1, other,
                          if other == key then ListOf(candidates, other) + [i] else ListOf(candidates, other))
      {
        ListNext(canons, i, other, ListOf(candidates, other));
      }
      candidates := candidates[key := ListOf(candidates, key) + [i]];
    }
  }

  function ListOf(candidates: map<string, seq<nat>>, key: string): seq<nat> {
    if key in candidates then candidates[key] else []
  }

  // ---- who claimed what ----

  ghost predicate Placed(
    oldCanons: seq<string>, newCanons: seq<string>, removed: set<nat>, done: nat, source: Sources)
  {
    && |source| == |newCanons| && done <= |oldCanons|
    && (forall i | 0 <= i < |source| && source[i].Some? ::
          source[i].value < done && source[i].value !in removed && oldCanons[source[i].value] == newCanons[i])
    && (forall i, j | 0 <= i < j < |source| && source[i].Some? :: source[i] != source[j])
  }

  /** New lines of a canonical text, among the first n. */
  function LineCount(newCanons: seq<string>, key: string, n: nat): nat
    requires n <= |newCanons|
  {
    if n == 0 then 0 else LineCount(newCanons, key, n - 1) + if newCanons[n - 1] == key then 1 else 0
  }

  /** Claimed new lines of a canonical text, among the first n. */
  function KeptCount(newCanons: seq<string>, source: Sources, key: string, n: nat): nat
    requires n <= |newCanons| == |source|
  {
    if n == 0 then 0
    else KeptCount(newCanons, source, key, n - 1) + if newCanons[n - 1] == key && source[n - 1].Some? then 1 else 0
  }

  /** Surviving old lines of a canonical text, among the first n. */
  function SurvivorCount(oldCanons: seq<string>, removed: set<nat>, key: string, n: nat): nat
    requires n <= |oldCanons|
  {
    if n == 0 then 0
    else SurvivorCount(oldCanons, removed, key, n - 1)
         + if oldCanons[n - 1] == key && n - 1 !in removed then 1 else 0
  }

  lemma {:induction false} KeptAtMostLines(newCanons: seq<string>, source: Sources, key: string, n: nat)
    requires n <= |newCanons| == |source|
    ensures KeptCount(newCanons, source, key, n) <= LineCount(newCanons, key, n)
    ensures KeptCount(newCanons, source, key, n) == LineCount(newCanons, key, n)
            <==> forall i | 0 <= i < n && newCanons[i] == key :: source[i].Some?
    decreases n
  {
    if n > 0 {
      KeptAtMostLines(newCanons, source, key, n - 1);
    }
  }

  lemma {:induction false} ClaimCounts(newCanons: seq<string>, source: Sources, at: nat, s: nat, key: string, n: nat)
    requires n <= |newCanons| == |source| && at < |source| && source[at].None?
    ensures KeptCount(newCanons, source[at := Some(s)], key, n)
            == KeptCount(newCanons, source, key, n) + if at < n && newCanons[at] == key then 1 else 0
    decreases n
  {
    if n > 0 {
      ClaimCounts(newCanons, source, at, s, key, n - 1);
    }
  }

  /** Every canonical text keeps as many anchors as it has survivors and new lines to put them on. */
  ghost predicate CountsMet(
    oldCanons: seq<string>, newCanons: seq<string>, removed: set<nat>, done: nat, source: Sources)
    requires |source| == |newCanons| && done <= |oldCanons|
  {
    forall key :: CountMet(oldCanons, newCanons, removed, done, source, key)
  }

  ghost predicate CountMet(
    oldCanons: seq<string>, newCanons: seq<string>, removed: set<nat>, done: nat, source: Sources, key: string)
    requires |source| == |newCanons| && done <= |oldCanons|
  {
    KeptCount(newCanons, source, key, |newCanons|)
    == Min(SurvivorCount(oldCanons, removed, key, done), LineCount(newCanons, key, |newCanons|))
  }

  /** Where a surviving line is expected after the edit. */
  function Target(spanEnd: int, shift: int, index: nat): int {
    if index > spanEnd then index + shift else index
  }

  /** Every survivor finds its own text at its target, and no two share one. */
  ghost predicate TargetsFit(
    oldCanons: seq<string>, newCanons: seq<string>, removed: set<nat>, spanEnd: int, shift: int)
  {
    && (forall s: nat | s < |oldCanons| && s !in removed ::
          0 <= Target(spanEnd, shift, s) < |newCanons| && newCanons[Target(spanEnd, shift, s)] == oldCanons[s])
    && (forall s: nat, t: nat | s < t < |oldCanons| && s !in removed && t !in removed ::
          Target(spanEnd, shift, s) != Target(spanEnd, shift, t))
  }

  /** The survivors so far sit on their targets, and nothing else is claimed. */
  ghost predicate OnTarget(removed: set<nat>, done: nat, spanEnd: int, shift: int, source: Sources) {
    && (forall s: nat | s < done && s !in removed ::
          0 <= Target(spanEnd, shift, s) < |source| && source[Target(spanEnd, shift, s)] == Some(s))
    && (forall i | 0 <= i < |source| && source[i].Some? :: i == Target(spanEnd, shift, source[i].value))
  }

  /** The new anchors are the claimed ones, blank elsewhere. */
  ghost predicate Carries(oldHashes: seq<string>, source: Sources, hashes: seq<string>) {
    && |hashes| == |source|
    && forall i | 0 <= i < |source| ::
         hashes[i] == if source[i].Some? && source[i].value < |oldHashes| then oldHashes[source[i].value] else ""
  }

  ghost predicate Claims(
    oldCanons: seq<string>, oldHashes: seq<string>, newCanons: seq<string>, removed: set<nat>, spanEnd: int,
    shift: int, done: nat, source: Sources, hashes: seq<string>)
  {
    && |oldHashes| == |oldCanons|
    && Placed(oldCanons, newCanons, removed, done, source)
    && CountsMet(oldCanons, newCanons, removed, done, source)
    && Carries(oldHashes, source, hashes)
    && (TargetsFit(oldCanons, newCanons, removed, spanEnd, shift) ==> OnTarget(removed, done, spanEnd, shift, source))
  }

  /**
   A survivor sits on the nearest line of its text that no earlier survivor took, the upper one on a tie: every other
   line of that text that is left over, or that a later survivor took, is further from where the survivor is expected.
   */
  ghost predicate ClaimsNearest(newCanons: seq<string>, spanEnd: int, shift: int, source: Sources)
    requires |source| == |newCanons|
  {
    forall i: nat, j: nat {:trigger source[i], source[j]} |
      i < |source| && j < |source| && i != j && source[i].Some? && newCanons[j] == newCanons[i]
      && (source[j].None? || source[j].value > source[i].value) ::
      var s := source[i].value;
      var target := if s > spanEnd then s + shift else s;
      AbsDiff(i, target) < AbsDiff(j, target) || (AbsDiff(i, target) == AbsDiff(j, target) && i < j)
  }

  // ---- one survivor at a time ----

  lemma {:induction false} ClaimsStart(
    oldCanons: seq<string>, oldHashes: seq<string>, newCanons: seq<string>, removed: set<nat>, spanEnd: int, shift: int)
    requires |oldHashes| == |oldCanons|
    ensures Claims(oldCanons, oldHashes, newCanons, removed, spanEnd, shift, 0,
                   NoSources(|newCanons|), seq(|newCanons|, _ => ""))
  {
    var source := NoSources(|newCanons|);
    forall key ensures CountMet(oldCanons, newCanons, removed, 0, source, key) {
      NothingKept(newCanons, source, key, |newCanons|);
    }
  }

  lemma {:induction false} NothingKept(newCanons: seq<string>, source: Sources, key: string, n: nat)
    requires n <= |newCanons| == |source| && forall i | 0 <= i < n :: source[i].None?
    ensures KeptCount(newCanons, source, key, n) == 0
    decreases n
  {
    if n > 0 {
      NothingKept(newCanons, source, key, n - 1);
    }
  }

  /** A removed line claims nothing. */
  lemma {:induction false} SkipRemoved(
    oldCanons: seq<string>, oldHashes: seq<string>, newCanons: seq<string>, removed: set<nat>, spanEnd: int,
    shift: int, done: nat, source: Sources, hashes: seq<string>)
    requires Claims(oldCanons, oldHashes, newCanons, removed, spanEnd, shift, done, source, hashes)
    requires done < |oldCanons| && done in removed
    ensures Claims(oldCanons, oldHashes, newCanons, removed, spanEnd, shift, done + 1, source, hashes)
  {
    var after := done + 1;
    forall key ensures CountMet(oldCanons, newCanons, removed, after, source, key) {
      assert CountMet(oldCanons, newCanons, removed, done, source, key);
    }
  }

  /** If all targets fit, the target of the next survivor is still unclaimed. */
  lemma {:induction false} TargetIsFree(
    oldCanons: seq<string>, newCanons: seq<string>, removed: set<nat>, spanEnd: int, shift: int, done: nat,
    source: Sources)
    requires Placed(oldCanons, newCanons, removed, done, source) && done < |oldCanons| && done !in removed
    requires TargetsFit(oldCanons, newCanons, removed, spanEnd, shift)
    requires OnTarget(removed, done, spanEnd, shift, source)
    ensures 0 <= Target(spanEnd, shift, done) < |source| && source[Target(spanEnd, shift, done)].None?
    ensures newCanons[Target(spanEnd, shift, done)] == oldCanons[done]
  {
    forall i | 0 <= i < |source| && source[i].Some? ensures i != Target(spanEnd, shift, done) {
      assert i == Target(spanEnd, shift, source[i].value);
    }
  }

  /** A survivor whose text is nowhere left claims nothing, and the counts say why. */
  lemma {:induction false} SkipUnmatched(
    oldCanons: seq<string>, oldHashes: seq<string>, newCanons: seq<string>, removed: set<nat>, spanEnd: int,
    shift: int, done: nat, source: Sources, hashes: seq<string>)
    requires Claims(oldCanons, oldHashes, newCanons, removed, spanEnd, shift, done, source, hashes)
    requires done < |oldCanons| && done !in removed
    requires forall i | 0 <= i < |newCanons| && newCanons[i] == oldCanons[done] :: source[i].Some?
    ensures Claims(oldCanons, oldHashes, newCanons, removed, spanEnd, shift, done + 1, source, hashes)
  {
    if TargetsFit(oldCanons, newCanons, removed, spanEnd, shift) {
      TargetIsFree(oldCanons, newCanons, removed, spanEnd, shift, done, source);
      assert false;
    }
    var after := done + 1;
    forall key ensures CountMet(oldCanons, newCanons, removed, after, source, key) {
      assert CountMet(oldCanons, newCanons, removed, done, source, key);
      KeptAtMostLines(newCanons, source, key, |newCanons|);
    }
  }

  lemma {:induction false} ClaimCountsMet(
    oldCanons: seq<string>, newCanons: seq<string>, removed: set<nat>, done: nat, source: Sources, at: nat)
    requires |source| == |newCanons| && done < |oldCanons| && done !in removed
    requires CountsMet(oldCanons, newCanons, removed, done, source)
    requires at < |source| && source[at].None? && newCanons[at] == oldCanons[done]
    ensures CountsMet(oldCanons, newCanons, removed, done + 1, source[at := Some(done)])
  {
    var next, after := source[at := Some(done)], done + 1;
    forall key ensures CountMet(oldCanons, newCanons, removed, after, next, key) {
      assert CountMet(oldCanons, newCanons, removed, done, source, key);
      ClaimCounts(newCanons, source, at, done, key, |newCanons|);
      KeptAtMostLines(newCanons, next, key, |newCanons|);
    }
  }

  /** A survivor claims an unclaimed line of its text; if targets fit, it claims its target. */
  lemma {:induction false} ClaimOne(
    oldCanons: seq<string>, oldHashes: seq<string>, newCanons: seq<string>, removed: set<nat>, spanEnd: int,
    shift: int, done: nat, source: Sources, hashes: seq<string>, at: nat)
    requires Claims(oldCanons, oldHashes, newCanons, removed, spanEnd, shift, done, source, hashes)
    requires done < |oldCanons| && done !in removed
    requires at < |source| && source[at].None? && newCanons[at] == oldCanons[done]
    requires TargetsFit(oldCanons, newCanons, removed, spanEnd, shift) ==> at == Target(spanEnd, shift, done)
    ensures Claims(oldCanons, oldHashes, newCanons, removed, spanEnd, shift, done + 1,
                   source[at := Some(done)], hashes[at := oldHashes[done]])
  {
    hide CountsMet, CountMet;
    ClaimCountsMet(oldCanons, newCanons, removed, done, source, at);
    if TargetsFit(oldCanons, newCanons, removed, spanEnd, shift) {
      ClaimOnTarget(removed, done, spanEnd, shift, source, at);
    }
  }

  lemma {:induction false} ClaimOnTarget(
    removed: set<nat>, done: nat, spanEnd: int, shift: int, source: Sources, at: nat)
    requires OnTarget(removed, done, spanEnd, shift, source)
    requires at < |source| && source[at].None? && at == Target(spanEnd, shift, done)
    ensures OnTarget(removed, done + 1, spanEnd, shift, source[at := Some(done)])
  {
  }

  // ---- the candidate lists ----

  function Without(list: seq<nat>, pos: nat): seq<nat>
    requires pos < |list|
  {
    list[..pos] + list[pos + 1..]
  }

  lemma {:induction false} WithoutMembers(list: seq<nat>, pos: nat)
    requires pos < |list| && StrictlyAscending(list)
    ensures StrictlyAscending(Without(list, pos))
    ensures forall i :: i in Without(list, pos) <==> i in list && i != list[pos]
  {
    var rest := Without(list, pos);
    forall i | i in list && i != list[pos] ensures i in rest {
      var k :| 0 <= k < |list| && list[k] == i;
      assert k < pos ==> rest[k] == i;
      assert k > pos ==> rest[k - 1] == i;
    }
    forall i | i in rest ensures i in list && i != list[pos] {
      var k :| 0 <= k < |rest| && rest[k] == i;
      assert k < pos ==> list[k] == i;
      assert k >= pos ==> list[k + 1] == i;
    }
  }

  lemma {:induction false} ClaimFromList(
    newCanons: seq<string>, source: Sources, candidates: map<string, seq<nat>>, key: string, pos: nat, s: nat)
    requires |source| == |newCanons| && Unclaimed(newCanons, source, candidates)
    requires key in candidates && pos < |candidates[key]|
    ensures candidates[key][pos] < |source| && source[candidates[key][pos]].None?
    ensures newCanons[candidates[key][pos]] == key
    ensures Unclaimed(newCanons, source[candidates[key][pos] := Some(s)],
                      candidates[key := Without(candidates[key], pos)])
  {
    var list := candidates[key];
    var at := list[pos];
    assert Lists(newCanons, source, key, list);
    assert at in list;
    WithoutMembers(list, pos);
    var next, rest := source[at := Some(s)], candidates[key := Without(list, pos)];
    forall other | other in rest ensures Lists(newCanons, next, other, rest[other]) {
      if other != key {
        assert Lists(newCanons, source, other, candidates[other]);
      }
    }
  }

  /** If targets fit, the nearest candidate is the target itself. */
  lemma {:induction false} NearestIsTarget(
    newCanons: seq<string>, source: Sources, list: seq<nat>, key: string, target: int, pos: nat)
    requires |source| == |newCanons| && Lists(newCanons, source, key, list) && pos < |list|
    requires 0 <= target < |source| && source[target].None? && newCanons[target] == key
    requires forall k | 0 <= k < |list| :: AbsDiff(list[pos], target) <= AbsDiff(list[k], target)
    ensures list[pos] == target
  {
    var t: nat := target;
    assert t in list;
    var k :| 0 <= k < |list| && list[k] == t;
    assert AbsDiff(list[k], target) == 0;
  }

  /** Let every survivor claim, in order, the nearest unclaimed line of its text. */
  method PlaceSurvivors(
    oldLines: seq<string>, oldHashes: seq<string>, newLines: seq<string>, removed: set<nat>, spanEnd: int, shift: int)
    returns (hashes: seq<string>, hint: nat, ghost source: Sources)
    requires |oldHashes| == |oldLines|
    ensures Claims(Canons(oldLines), oldHashes, Canons(newLines), removed, spanEnd, shift, |oldLines|, source, hashes)
    ensures |source| == |newLines| && ClaimsNearest(Canons(newLines), spanEnd, shift, source)
    ensures |hashes| == |newLines| && forall i | 0 <= i < |hashes| :: hashes[i] == "" || hashes[i] in oldHashes
  {
    hide Claims, Unclaimed, Lists, ClaimsNearest;
    ghost var oldCanons, newCanons := Canons(oldLines), Canons(newLines);
    var candidates := GroupByCanon(newLines);
    hashes, hint, source := seq(|newLines|, _ => ""), 0, NoSources(|newLines|);
    ClaimsStart(oldCanons, oldHashes, newCanons, removed, spanEnd, shift);
    NearestStart(newCanons, spanEnd, shift);
    for s := 0 to |oldLines|
      invariant |source| == |newCanons| && |hashes| == |newCanons|
      invariant forall i | 0 <= i < |hashes| :: hashes[i] == "" || hashes[i] in oldHashes
      invariant Claims(oldCanons, oldHashes, newCanons, removed, spanEnd, shift, s, source, hashes)
      invariant Unclaimed(newCanons, source, candidates)
      invariant ClaimsNearest(newCanons, spanEnd, shift, source)
    {
      var key := Canon(oldLines[s]);
      if s in removed {
        SkipRemoved(oldCanons, oldHashes, newCanons, removed, spanEnd, shift, s, source, hashes);
      } else if key !in candidates || candidates[key] == [] {
        NoCandidate(newCanons, source, candidates, key);
        SkipUnmatched(oldCanons, oldHashes, newCanons, removed, spanEnd, shift, s, source, hashes);
      } else {
        var target := if s > spanEnd then s + shift else s;
        ListAscends(newCanons, source, candidates, key);
        var pos := NearestNew(candidates[key], target);
        var newIdx := candidates[key][pos];
        NearestIfFit(oldCanons, oldHashes, newCanons, removed, spanEnd, shift, s, source, hashes, candidates, pos);
        ClaimNearestOf(oldCanons, oldHashes, newCanons, removed, spanEnd, shift, s, source, hashes, candidates, key,
                       pos, target);
        ClaimFromList(newCanons, source, candidates, key, pos, s);
        ClaimOne(oldCanons, oldHashes, newCanons, removed, spanEnd, shift, s, source, hashes, newIdx);
        candidates := candidates[key := candidates[key][..pos] + candidates[key][pos + 1..]];
        hashes, source := hashes[newIdx := oldHashes[s]], source[newIdx := Some(s)];
        var slot := HashToIndex(oldHashes[s]);
        if slot.Some? && slot.value + HASH_PROBE_STRIDE > hint { hint := slot.value + HASH_PROBE_STRIDE; }
      }
    }
  }

  lemma {:induction false} ClaimIsNearest(
    oldCanons: seq<string>, newCanons: seq<string>, removed: set<nat>, spanEnd: int, shift: int, done: nat,
    source: Sources, list: seq<nat>, key: string, pos: nat, target: int)
    requires Placed(oldCanons, newCanons, removed, done, source) && ClaimsNearest(newCanons, spanEnd, shift, source)
    requires Lists(newCanons, source, key, list) && pos < |list| && list[pos] < |source| && newCanons[list[pos]] == key
    requires source[list[pos]].None? && target == if done > spanEnd then done + shift else done
    requires forall k | 0 <= k < |list| ::
               && AbsDiff(list[pos], target) <= AbsDiff(list[k], target)
               && (AbsDiff(list[pos], target) == AbsDiff(list[k], target) ==> pos <= k)
    ensures ClaimsNearest(newCanons, spanEnd, shift, source[list[pos] := Some(done)])
  {
    var at := list[pos];
    var next := source[at := Some(done)];
    forall j: nat | j < |next| && j != at && newCanons[j] == key && next[j].None?
      ensures AbsDiff(at, target) < AbsDiff(j, target) || (AbsDiff(at, target) == AbsDiff(j, target) && at < j)
    {
      assert j in list;
      var k :| 0 <= k < |list| && list[k] == j;
      assert pos < k ==> list[pos] < list[k];
    }
    forall i: nat, j: nat |
      i < |next| && j < |next| && i != j && next[i].Some? && newCanons[j] == newCanons[i]
      && (next[j].None? || next[j].value > next[i].value)
      ensures
        var s := next[i].value;
        var expected := if s > spanEnd then s + shift else s;
        AbsDiff(i, expected) < AbsDiff(j, expected) || (AbsDiff(i, expected) == AbsDiff(j, expected) && i < j)
    {
      if i != at {
        assert next[i] == source[i] && (j != at ==> next[j] == source[j]);
      }
    }
  }

  lemma {:induction false} NearestStart(newCanons: seq<string>, spanEnd: int, shift: int)
    ensures ClaimsNearest(newCanons, spanEnd, shift, NoSources(|newCanons|))
  {
  }

  /** The claim of the next survivor, seen from the candidate lists. */
  lemma {:induction false} ClaimNearestOf(
    oldCanons: seq<string>, oldHashes: seq<string>, newCanons: seq<string>, removed: set<nat>, spanEnd: int,
    shift: int, done: nat, source: Sources, hashes: seq<string>, candidates: map<string, seq<nat>>, key: string,
    pos: nat, target: int)
    requires Claims(oldCanons, oldHashes, newCanons, removed, spanEnd, shift, done, source, hashes)
    requires |source| == |newCanons| && Unclaimed(newCanons, source, candidates) && key in candidates
    requires pos < |candidates[key]| && ClaimsNearest(newCanons, spanEnd, shift, source)
    requires target == if done > spanEnd then done + shift else done
    requires forall k | 0 <= k < |candidates[key]| ::
               && AbsDiff(candidates[key][pos], target) <= AbsDiff(candidates[key][k], target)
               && (AbsDiff(candidates[key][pos], target) == AbsDiff(candidates[key][k], target) ==> pos <= k)
    ensures candidates[key][pos] < |source|
    ensures ClaimsNearest(newCanons, spanEnd, shift, source[candidates[key][pos] := Some(done)])
  {
    hide ClaimsNearest, CountsMet, TargetsFit, OnTarget, Carries;
    assert Lists(newCanons, source, key, candidates[key]);
    assert candidates[key][pos] in candidates[key];
    ClaimIsNearest(oldCanons, newCanons, removed, spanEnd, shift, done, source, candidates[key], key, pos, target);
  }

  lemma {:induction false} NoCandidate(
    newCanons: seq<string>, source: Sources, candidates: map<string, seq<nat>>, key: string)
    requires |source| == |newCanons| && Unclaimed(newCanons, source, candidates)
    requires key !in candidates || candidates[key] == []
    ensures forall i | 0 <= i < |newCanons| && newCanons[i] == key :: source[i].Some?
  {
    forall i: nat | i < |newCanons| && newCanons[i] == key ensures source[i].Some? {
      assert Lists(newCanons, source, key, candidates[key]);
      assert i !in candidates[key];
    }
  }

  lemma {:induction false} ListAscends(
    newCanons: seq<string>, source: Sources, candidates: map<string, seq<nat>>, key: string)
    requires |source| == |newCanons| && Unclaimed(newCanons, source, candidates) && key in candidates
    ensures StrictlyAscending(candidates[key])
  {
    assert Lists(newCanons, source, key, candidates[key]);
  }

  lemma {:induction false} NearestIfFit(
    oldCanons: seq<string>, oldHashes: seq<string>, newCanons: seq<string>, removed: set<nat>, spanEnd: int,
    shift: int, done: nat, source: Sources, hashes: seq<string>, candidates: map<string, seq<nat>>, pos: nat)
    requires |source| == |newCanons|
    requires Claims(oldCanons, oldHashes, newCanons, removed, spanEnd, shift, done, source, hashes)
    requires Unclaimed(newCanons, source, candidates)
    requires done < |oldCanons| && done !in removed && oldCanons[done] in candidates
    requires pos < |candidates[oldCanons[done]]|
    requires forall k | 0 <= k < |candidates[oldCanons[done]]| ::
               AbsDiff(candidates[oldCanons[done]][pos], Target(spanEnd, shift, done))
               <= AbsDiff(candidates[oldCanons[done]][k], Target(spanEnd, shift, done))
    ensures TargetsFit(oldCanons, newCanons, removed, spanEnd, shift) ==>
              candidates[oldCanons[done]][pos] == Target(spanEnd, shift, done)
  {
    var key := oldCanons[done];
    assert Lists(newCanons, source, key, candidates[key]);
    if TargetsFit(oldCanons, newCanons, removed, spanEnd, shift) {
      TargetIsFree(oldCanons, newCanons, removed, spanEnd, shift, done, source);
      NearestIsTarget(newCanons, source, candidates[key], key, Target(spanEnd, shift, done), pos);
    }
  }

  // ---- the two allocations ----

  ghost predicate Distinct(hashes: seq<string>) {
    forall i, j | 0 <= i < j < |hashes| :: hashes[i] != hashes[j]
  }

  ghost predicate Anchors(hashes: seq<string>) {
    forall i | 0 <= i < |hashes| :: IsAnchor(hashes[i])
  }

  function Elements(hashes: seq<string>): set<string> {
    set i | 0 <= i < |hashes| :: hashes[i]
  }

  function Blanks(n: nat): (r: seq<string>)
    ensures |r| == n && forall i | 0 <= i < n :: r[i] == ""
  {
    seq(n, _ => "")
  }

  /**
   Anchors for a buffer with no history. They are distinct and avoid the reserved ones; a line whose own
   slot is free takes it; the space is exhausted exactly when lines and reserved slots exceed it.
   */
  method LineHashesPure(xxh32: Hasher, content: string, reserved: set<string>) returns (r: Option<seq<string>>)
    ensures r.None? <==> |SplitLines(content)| + |Taken(reserved)| > HASH_SPACE
    ensures r.Some? ==> |r.value| == |SplitLines(content)| && Distinct(r.value)
    ensures r.Some? ==> forall i | 0 <= i < |r.value| ::
              FreshAnchor(r.value[i], Taken(reserved)) && r.value[i] !in reserved
    ensures r.Some? ==> forall i: nat | i < |r.value| ::
              GetsBase(xxh32, SplitLines(content), Blanks(|r.value|), r.value, Taken(reserved), i)
  {
    hide HandedOut, GetsBase;
    var lines := SplitLines(content);
    var given := Blanks(|lines|);
    var used := new bool[HASH_SPACE](_ => false);
    NothingMarked(used[..]);
    MarkHashesUsed(used, reserved);
    AllBlank(given, |given|);
    r := AssignFresh(xxh32, lines, given, used, 0);
    if r.Some? {
      ghost var after :| HandedOut(given, r.value, |given|, Taken(reserved), after);
      BlankAreFresh(given, r.value, Taken(reserved), after, reserved);
    }
  }

  lemma {:induction false} NothingMarked(used: seq<bool>)
    requires forall i | 0 <= i < |used| :: !used[i]
    ensures forall s: set<nat> :: Marked(used) + s == s
  {
  }

  lemma {:induction false} AllBlank(given: seq<string>, n: nat)
    requires n <= |given| && forall i | 0 <= i < |given| :: given[i] == ""
    ensures BlankCount(given, n) == n
    decreases n
  {
    if n > 0 {
      AllBlank(given, n - 1);
    }
  }

  /** Anchors handed out are fresh, apart from each other and from every blocked anchor. */
  lemma {:induction false} BlankAreFresh(
    given: seq<string>, hashes: seq<string>, before: set<nat>, after: set<nat>, blocked: set<string>)
    requires HandedOut(given, hashes, |given|, before, after) && Taken(blocked) <= before
    ensures |hashes| == |given|
    ensures forall i | 0 <= i < |given| && given[i] != "" :: hashes[i] == given[i]
    ensures forall i | 0 <= i < |given| && given[i] == "" :: FreshAnchor(hashes[i], before) && hashes[i] !in blocked
    ensures forall i, j | 0 <= i < j < |given| && given[i] == "" && given[j] == "" :: hashes[i] != hashes[j]
  {
    hide HashToIndex;
    assert forall h | h in blocked && HashToIndex(h).Some? :: HashToIndex(h).value in Taken(blocked);
  }

  /** Positions of the removed anchors in the old buffer. */
  function RemovedIndexes(oldHashes: seq<string>, removedHashes: set<string>): set<nat> {
    set i: nat | i < |oldHashes| && oldHashes[i] in removedHashes
  }

  predicate SpanEndOf(removed: set<nat>, spanEnd: int) {
    (removed == {} ==> spanEnd == -1)
    && (removed != {} ==> spanEnd in removed && forall i | i in removed :: i <= spanEnd)
  }

  method FindSpanEnd(removed: set<nat>) returns (spanEnd: int)
    ensures SpanEndOf(removed, spanEnd)
  {
    var rest := removed;
    spanEnd := -1;
    while rest != {}
      invariant rest <= removed
      invariant forall i | i in removed && i !in rest :: i <= spanEnd
      invariant spanEnd == -1 || spanEnd in removed
      decreases |rest|
    {
      var idx :| idx in rest;
      if idx > spanEnd { spanEnd := idx; }
      rest := rest - {idx};
    }
  }

  /** What the removal of lines does to the positions after it. */
  function ShiftAfter(removed: set<nat>, oldCount: nat, newCount: nat): int {
    if removed == {} then 0 else newCount - oldCount
  }

  function FreshCount(source: Sources, n: nat): nat
    requires n <= |source|
  {
    if n == 0 then 0 else FreshCount(source, n - 1) + if source[n - 1].None? then 1 else 0
  }

  lemma {:induction false} BlankIsFresh(oldHashes: seq<string>, source: Sources, hashes: seq<string>, n: nat)
    requires Carries(oldHashes, source, hashes) && n <= |hashes|
    requires forall i | 0 <= i < |source| && source[i].Some? :: source[i].value < |oldHashes|
    requires forall i | 0 <= i < |oldHashes| :: oldHashes[i] != ""
    ensures BlankCount(hashes, n) == FreshCount(source, n)
    decreases n
  {
    if n > 0 {
      BlankIsFresh(oldHashes, source, hashes, n - 1);
    }
  }

  /** What a stable re-hash promises about its result, given who claimed what. */
  ghost predicate StableResult(
    oldHashes: seq<string>, source: Sources, result: seq<string>, removed: set<string>, reserved: set<string>)
  {
    && |result| == |source|
    && Distinct(result)
    && (forall i | 0 <= i < |source| && source[i].Some? ::
          source[i].value < |oldHashes| && result[i] == oldHashes[source[i].value])
    && (forall i | 0 <= i < |source| && source[i].None? ::
          IsAnchor(result[i]) && result[i] !in oldHashes && result[i] !in removed && result[i] !in reserved)
    && (forall i | 0 <= i < |source| :: result[i] !in removed)
  }

  /** A line under an old anchor says what the old line said, up to blanks. */
  ghost predicate KeepsText(
    oldCanons: seq<string>, oldHashes: seq<string>, newCanons: seq<string>, result: seq<string>)
  {
    forall i, j | 0 <= i < |result| && 0 <= j < |oldHashes| && result[i] == oldHashes[j] ::
      i < |newCanons| && j < |oldCanons| && newCanons[i] == oldCanons[j]
  }

  /** A line that took over no anchor gets the slot of its own text, if that is free and no line before it got it. */
  ghost predicate OwnSlotIfFree(
    xxh32: Hasher, lines: seq<string>, source: Sources, result: seq<string>, slots: set<nat>, i: nat)
    requires i < |source| == |lines| == |result|
  {
    var own := (xxh32(Canon(lines[i])) / 16_384) % 238_328;
    source[i].None? && own !in slots
    && (forall j | 0 <= j < i && source[j].None? :: result[j] != IdxToHash(own))
    ==> result[i] == IdxToHash(own)
  }

  lemma {:induction false} OwnSlots(
    xxh32: Hasher, lines: seq<string>, oldHashes: seq<string>, source: Sources, kept: seq<string>,
    result: seq<string>, slots: set<nat>, i: nat)
    requires i < |source| == |lines| == |kept| == |result|
    requires Carries(oldHashes, source, kept) && Anchors(oldHashes)
    requires forall k | 0 <= k < |source| && source[k].Some? :: source[k].value < |oldHashes|
    requires GetsBase(xxh32, lines, kept, result, slots, i)
    ensures OwnSlotIfFree(xxh32, lines, source, result, slots, i)
  {
    hide BaseIdx, IdxToHash, HashToIndex;
    SlotOfText(xxh32, lines[i]);
    forall k: nat | k < |source| ensures kept[k] == "" <==> source[k].None? {
      if source[k].Some? {
        assert IsAnchor(oldHashes[source[k].value]);
      }
    }
    if HandedTo(kept, result, i, BaseIdx(xxh32, lines[i])) {
      var j :| 0 <= j < i && kept[j] == "" && result[j] == IdxToHash(BaseIdx(xxh32, lines[i]));
      assert source[j].None?;
    }
  }

  /**
   Anchors for the buffer after an edit. Survivors keep their anchors as `source` tells: each on a line
   of its own text, as many per text as lines allow, in order the nearest that is left, and each on its target when all
   targets fit. All other lines get anchors that are neither old nor removed nor reserved, their own slot if it is free.
   */
  method MapStableHashes(
    xxh32: Hasher, oldContent: string, oldHashes: seq<string>, newContent: string,
    removedHashes: set<string>, reserved: set<string>)
    returns (r: Option<seq<string>>, ghost source: Sources, ghost spanEnd: int)
    requires |oldHashes| == |SplitLines(oldContent)| && Distinct(oldHashes) && Anchors(oldHashes)
    ensures
      var oldCanons, newCanons := Canons(SplitLines(oldContent)), Canons(SplitLines(newContent));
      var removed := RemovedIndexes(oldHashes, removedHashes);
      && Placed(oldCanons, newCanons, removed, |oldCanons|, source)
      && CountsMet(oldCanons, newCanons, removed, |oldCanons|, source)
      && SpanEndOf(removed, spanEnd)
      && (TargetsFit(oldCanons, newCanons, removed, spanEnd, ShiftAfter(removed, |oldCanons|, |newCanons|)) ==>
            OnTarget(removed, |oldCanons|, spanEnd, ShiftAfter(removed, |oldCanons|, |newCanons|), source))
    ensures |source| == |SplitLines(newContent)|
    ensures ClaimsNearest(Canons(SplitLines(newContent)), spanEnd,
                          if RemovedIndexes(oldHashes, removedHashes) == {} then 0
                          else |SplitLines(newContent)| - |SplitLines(oldContent)|, source)
    ensures r.None? <==>
              |Taken(Elements(oldHashes) + reserved + removedHashes)| + FreshCount(source, |source|) > HASH_SPACE
    ensures r.Some? ==> StableResult(oldHashes, source, r.value, removedHashes, reserved)
    ensures r.Some? ==> |r.value| == |SplitLines(newContent)| && Distinct(r.value)
    ensures r.Some? ==> forall i | 0 <= i < |r.value| :: r.value[i] !in removedHashes
    ensures r.Some? ==> forall i: nat | i < |source| ::
              OwnSlotIfFree(xxh32, SplitLines(newContent), source, r.value,
                            Taken(Elements(oldHashes) + reserved + removedHashes), i)
    ensures r.Some? ==> KeepsText(Canons(SplitLines(oldContent)), oldHashes, Canons(SplitLines(newContent)), r.value)
  {
    hide SplitLines, Placed, CountsMet, OnTarget, TargetsFit, Taken, Elements, HandedOut, GetsBase, ClaimsNearest;
    hide OwnSlotIfFree, KeepsText, StableResult, Carries, Marked, Anchors, FreshCount, BlankCount, SpanEndOf;
    var oldLines, newLines := SplitLines(oldContent), SplitLines(newContent);
    var removed := RemovedIndexes(oldHashes, removedHashes);
    var end := FindSpanEnd(removed);
    spanEnd := end;
    var shift := ShiftAfter(removed, |oldLines|, |newLines|);
    var used := new bool[HASH_SPACE](_ => false);
    NothingMarked(used[..]);
    MarkHashesUsed(used, Elements(oldHashes));
    MarkHashesUsed(used, reserved + removedHashes);
    TakenUnion(Elements(oldHashes), reserved + removedHashes);
    assert Elements(oldHashes) + (reserved + removedHashes) == Elements(oldHashes) + reserved + removedHashes;
    ghost var blocked := Elements(oldHashes) + reserved + removedHashes;
    assert Marked(used[..]) == Taken(blocked);
    var kept, hint;
    kept, hint, source := PlaceSurvivors(oldLines, oldHashes, newLines, removed, end, shift);
    PlacedParts(Canons(oldLines), Canons(newLines), removed, |oldLines|, source);
    AnchorsNotBlank(oldHashes);
    CarriesAll(oldHashes, source, kept);
    BlankIsFresh(oldHashes, source, kept, |kept|);
    r := AssignFresh(xxh32, newLines, kept, used, hint);
    if r.Some? {
      ghost var after :| HandedOut(kept, r.value, |kept|, Taken(blocked), after);
      BlankAreFresh(kept, r.value, Taken(blocked), after, blocked);
      ResultIsStable(Canons(oldLines), oldHashes, Canons(newLines), removedHashes, reserved, source, kept, r.value);
      ResultSizes(oldHashes, source, r.value, removedHashes, reserved);
      StableKeepsText(Canons(oldLines), oldHashes, Canons(newLines), removed, source, r.value, removedHashes, reserved);
      forall i: nat | i < |source| ensures OwnSlotIfFree(xxh32, newLines, source, r.value, Taken(blocked), i) {
        OwnSlots(xxh32, newLines, oldHashes, source, kept, r.value, Taken(blocked), i);
      }
    }
  }

  lemma {:induction false} AnchorsNotBlank(hashes: seq<string>)
    requires Anchors(hashes)
    ensures forall i | 0 <= i < |hashes| :: hashes[i] != ""
  {
    hide HashToIndex;
  }

  lemma {:induction false} CarriesAll(oldHashes: seq<string>, source: Sources, hashes: seq<string>)
    requires Carries(oldHashes, source, hashes)
    ensures |hashes| == |source|
  {
  }

  lemma {:induction false} ResultSizes(
    oldHashes: seq<string>, source: Sources, result: seq<string>, removed: set<string>, reserved: set<string>)
    requires StableResult(oldHashes, source, result, removed, reserved)
    ensures |result| == |source| && Distinct(result) && forall i | 0 <= i < |result| :: result[i] !in removed
  {
    hide Distinct, IsAnchor;
  }

  lemma {:induction false} StableKeepsText(
    oldCanons: seq<string>, oldHashes: seq<string>, newCanons: seq<string>, removed: set<nat>, source: Sources,
    result: seq<string>, removedHashes: set<string>, reserved: set<string>)
    requires |oldHashes| == |oldCanons| && Distinct(oldHashes)
    requires Placed(oldCanons, newCanons, removed, |oldCanons|, source)
    requires StableResult(oldHashes, source, result, removedHashes, reserved)
    ensures KeepsText(oldCanons, oldHashes, newCanons, result)
  {
    hide IsAnchor;
    forall i, j | 0 <= i < |result| && 0 <= j < |oldHashes| && result[i] == oldHashes[j]
      ensures newCanons[i] == oldCanons[j]
    {
      assert oldHashes[j] in oldHashes;
      assert source[i].Some?;
      OneIndex(oldHashes, source[i].value, j);
    }
  }

  lemma {:induction false} OneIndex(hashes: seq<string>, i: nat, j: nat)
    requires Distinct(hashes) && i < |hashes| && j < |hashes| && hashes[i] == hashes[j]
    ensures i == j
  {
    forall a, b | 0 <= a < b < |hashes| ensures hashes[a] != hashes[b] {
    }
  }

  lemma {:induction false} TakenUnion(a: set<string>, b: set<string>)
    ensures Taken(a + b) == Taken(a) + Taken(b)
  {
    hide HashToIndex;
  }

  lemma {:induction false} ResultIsStable(
    oldCanons: seq<string>, oldHashes: seq<string>, newCanons: seq<string>, removedHashes: set<string>,
    reserved: set<string>, source: Sources, kept: seq<string>, result: seq<string>)
    requires |oldHashes| == |oldCanons| && Distinct(oldHashes) && Anchors(oldHashes)
    requires Placed(oldCanons, newCanons, RemovedIndexes(oldHashes, removedHashes), |oldCanons|, source)
    requires Carries(oldHashes, source, kept) && |result| == |kept|
    requires forall i | 0 <= i < |kept| && kept[i] != "" :: result[i] == kept[i]
    requires forall i | 0 <= i < |kept| && kept[i] == "" ::
               IsAnchor(result[i]) && result[i] !in Elements(oldHashes) + reserved + removedHashes
    requires forall i, j | 0 <= i < j < |kept| && kept[i] == "" && kept[j] == "" :: result[i] != result[j]
    ensures StableResult(oldHashes, source, result, removedHashes, reserved)
  {
    hide HashToIndex;
    forall i | 0 <= i < |source| && source[i].Some?
      ensures result[i] == oldHashes[source[i].value] && result[i] in oldHashes && result[i] !in removedHashes
    {
      assert IsAnchor(oldHashes[source[i].value]);
    }
    forall i | 0 <= i < |source| && source[i].None? ensures result[i] !in oldHashes {
      assert result[i] !in Elements(oldHashes);
    }
    forall i, j | 0 <= i < j < |result| ensures result[i] != result[j] {
      if source[i].Some? && source[j].Some? {
        assert source[i].value != source[j].value;
      }
    }
  }

  // ---- a range splice, and a reformat ----

  /** The positions from..to. */
  function Range(from: nat, to: nat): (r: set<nat>)
    ensures forall i: nat :: i in r <==> (from <= i && i < to)
    decreases if from < to then to - from else 0
  {
    if from >= to then {} else {from} + Range(from + 1, to)
  }

  /** Replacing a non-empty range leaves every survivor its text at its shifted position. */
  lemma {:induction false} SpliceFits(
    oldCanons: seq<string>, newCanons: seq<string>, middle: seq<string>, from: nat, to: nat)
    requires from < to <= |oldCanons| && newCanons == oldCanons[..from] + middle + oldCanons[to..]
    ensures
      TargetsFit(oldCanons, newCanons, Range(from, to), to - 1,
                 ShiftAfter(Range(from, to), |oldCanons|, |newCanons|))
  {
    assert from in Range(from, to);
  }

  lemma {:induction false} ReformatFits(canons: seq<string>)
    ensures TargetsFit(canons, canons, {}, -1, ShiftAfter({}, |canons|, |canons|))
  {
  }

  lemma {:induction false} SpanEndUnique(from: nat, to: nat, spanEnd: int)
    requires from < to && SpanEndOf(Range(from, to), spanEnd)
    ensures spanEnd == to - 1
  {
    assert to - 1 in Range(from, to);
  }

  lemma {:induction false} RangeOfRemoved(oldHashes: seq<string>, from: nat, to: nat)
    requires Distinct(oldHashes) && from <= to <= |oldHashes|
    ensures RemovedIndexes(oldHashes, Elements(oldHashes[from..to])) == Range(from, to)
  {
    var part := oldHashes[from..to];
    forall i: nat | i < |oldHashes| ensures oldHashes[i] in Elements(part) <==> from <= i < to {
      if from <= i < to {
        assert part[i - from] == oldHashes[i];
      }
      if oldHashes[i] in Elements(part) {
        var k :| 0 <= k < |part| && part[k] == oldHashes[i];
        assert oldHashes[from + k] == oldHashes[i];
      }
    }
  }

  /** Anchors around a replaced range stay on their lines, which only shifted. */
  ghost predicate AnchorsShift(oldHashes: seq<string>, result: seq<string>, from: nat, to: nat) {
    && from <= to <= |oldHashes| && |result| >= |oldHashes| - (to - from)
    && (forall i | 0 <= i < from :: result[i] == oldHashes[i])
    && (forall i | to <= i < |oldHashes| :: result[i + |result| - |oldHashes|] == oldHashes[i])
  }

  lemma {:induction false} OnTargetShifts(
    oldHashes: seq<string>, source: Sources, result: seq<string>, removed: set<string>, reserved: set<string>,
    from: nat, to: nat)
    requires from < to <= |oldHashes| && |source| >= |oldHashes| - (to - from)
    requires OnTarget(Range(from, to), |oldHashes|, to - 1, |source| - |oldHashes|, source)
    requires StableResult(oldHashes, source, result, removed, reserved)
    ensures AnchorsShift(oldHashes, result, from, to)
  {
    var shift := |source| - |oldHashes|;
    forall i: nat | i < |oldHashes| && !(from <= i < to)
      ensures 0 <= Target(to - 1, shift, i) < |source| && result[Target(to - 1, shift, i)] == oldHashes[i]
    {
      assert i !in Range(from, to);
      assert source[Target(to - 1, shift, i)] == Some(i);
    }
    forall i: nat | i < from ensures result[i] == oldHashes[i] {
      assert Target(to - 1, shift, i) == i;
    }
    forall i: nat | to <= i < |oldHashes| ensures result[i + |result| - |oldHashes|] == oldHashes[i] {
      assert Target(to - 1, shift, i) == i + shift;
    }
  }

  lemma {:induction false} CanonsOfSplice(
    oldLines: seq<string>, newLines: seq<string>, middle: seq<string>, from: nat, to: nat)
    requires from <= to <= |oldLines| && newLines == oldLines[..from] + middle + oldLines[to..]
    ensures Canons(newLines) == Canons(oldLines)[..from] + Canons(middle) + Canons(oldLines)[to..]
  {
    hide Canon;
  }

  /** What the re-hash after a range splice gives: `count` fresh anchors, and the old ones shifted around them. */
  ghost predicate RehashedSplice(
    oldHashes: seq<string>, result: seq<string>, reserved: set<string>, from: nat, to: nat, count: nat)
  {
    && Distinct(result) && Anchors(result)
    && AnchorsShift(oldHashes, result, from, to)
    && |result| == |oldHashes| - (to - from) + count
    && (forall i | 0 <= i < |result| :: result[i] !in oldHashes[from..to])
    && (forall i | from <= i < from + count :: result[i] !in oldHashes && result[i] !in reserved)
  }

  /**
   The re-hash after a range splice: every anchor outside the range sits on its own shifted line, also
   among duplicate lines, and no anchor of the range is seen again.
   */
  method RehashSplice(
    xxh32: Hasher, oldContent: string, oldHashes: seq<string>, newContent: string, removed: set<string>,
    reserved: set<string>, from: nat, to: nat, ghost middle: seq<string>)
    returns (r: Option<seq<string>>)
    requires |oldHashes| == |SplitLines(oldContent)| && Distinct(oldHashes) && Anchors(oldHashes)
    requires from < to <= |oldHashes| && removed == Elements(oldHashes[from..to])
    requires SplitLines(newContent) == SplitLines(oldContent)[..from] + middle + SplitLines(oldContent)[to..]
    ensures r.None? <==> Exhausts(oldHashes, reserved, |middle|)
    ensures r.Some? ==> |r.value| == |SplitLines(newContent)|
    ensures r.Some? ==> RehashedSplice(oldHashes, r.value, reserved, from, to, |middle|)
  {
    hide SplitLines, TargetsFit, Placed, CountsMet, OnTarget, StableResult, RehashedSplice, SpanEndOf, Anchors;
    hide Distinct;
    hide ClaimsNearest, OwnSlotIfFree, KeepsText, Taken, Elements, FreshCount, Canons;
    ghost var oldLines, newLines := SplitLines(oldContent), SplitLines(newContent);
    ghost var spanEnd, source;
    r, source, spanEnd := MapStableHashes(xxh32, oldContent, oldHashes, newContent, removed, reserved);
    RangeOfRemoved(oldHashes, from, to);
    SpanEndUnique(from, to, spanEnd);
    CanonsOfSplice(oldLines, newLines, middle, from, to);
    SpliceFits(Canons(oldLines), Canons(newLines), Canons(middle), from, to);
    PlacedParts(Canons(oldLines), Canons(newLines), Range(from, to), |oldLines|, source);
    assert from in Range(from, to);
    FreshOfSplice(source, from, to, |oldHashes|, |middle|, |source|);
    RemovedAreOld(oldHashes, reserved, from, to);
    if r.Some? {
      SpliceResult(Canons(oldLines), Canons(newLines), oldHashes, source, r.value, reserved, from, to, |middle|);
    }
  }

  /** The anchors in use and kept out leave fewer slots than there are fresh lines. */
  ghost predicate Exhausts(hashes: seq<string>, guard: set<string>, freshLines: int) {
    |Taken(Elements(hashes) + guard)| + freshLines > HASH_SPACE
  }

  lemma {:induction false} RemovedAreOld(oldHashes: seq<string>, reserved: set<string>, from: nat, to: nat)
    requires from <= to <= |oldHashes|
    ensures Elements(oldHashes) + reserved + Elements(oldHashes[from..to]) == Elements(oldHashes) + reserved
  {
    forall h | h in Elements(oldHashes[from..to]) ensures h in Elements(oldHashes) {
      var k :| 0 <= k < to - from && oldHashes[from..to][k] == h;
      assert oldHashes[from + k] == h;
    }
  }

  lemma {:induction false} PlacedParts(
    oldCanons: seq<string>, newCanons: seq<string>, removed: set<nat>, done: nat, source: Sources)
    requires Placed(oldCanons, newCanons, removed, done, source)
    ensures |source| == |newCanons|
    ensures forall i | 0 <= i < |source| && source[i].Some? :: source[i].value < done && source[i].value !in removed
  {
  }

  lemma {:induction false} SpliceResult(
    oldCanons: seq<string>, newCanons: seq<string>, oldHashes: seq<string>, source: Sources, result: seq<string>,
    reserved: set<string>, from: nat, to: nat, count: nat)
    requires from < to <= |oldHashes| == |oldCanons| && Anchors(oldHashes)
    requires |newCanons| == |oldCanons| - (to - from) + count
    requires Placed(oldCanons, newCanons, Range(from, to), |oldCanons|, source)
    requires OnTarget(Range(from, to), |oldCanons|, to - 1, ShiftAfter(Range(from, to), |oldCanons|, |newCanons|),
                      source)
    requires StableResult(oldHashes, source, result, Elements(oldHashes[from..to]), reserved)
    ensures |result| == |newCanons| && RehashedSplice(oldHashes, result, reserved, from, to, count)
  {
    hide IsAnchor, Placed, OnTarget, Elements, AnchorsShift, Anchors;
    PlacedParts(oldCanons, newCanons, Range(from, to), |oldCanons|, source);
    assert from in Range(from, to);
    OnTargetShifts(oldHashes, source, result, Elements(oldHashes[from..to]), reserved, from, to);
    StableAnchors(oldHashes, source, result, Elements(oldHashes[from..to]), reserved);
    NotInPart(oldHashes, result, from, to);
    MiddleIsFresh(source, from, to, |oldHashes|, count);
  }

  lemma {:induction false} NotInPart(oldHashes: seq<string>, result: seq<string>, from: nat, to: nat)
    requires from <= to <= |oldHashes|
    requires forall i | 0 <= i < |result| :: result[i] !in Elements(oldHashes[from..to])
    ensures forall i | 0 <= i < |result| :: result[i] !in oldHashes[from..to]
  {
  }

  lemma {:induction false} StableAnchors(
    oldHashes: seq<string>, source: Sources, result: seq<string>, removed: set<string>, reserved: set<string>)
    requires Anchors(oldHashes) && StableResult(oldHashes, source, result, removed, reserved)
    ensures Anchors(result)
  {
    hide IsAnchor, Distinct;
  }

  /** The new lines of a splice take over no anchor. */
  lemma {:induction false} MiddleIsFresh(source: Sources, from: nat, to: nat, oldCount: nat, count: nat)
    requires from < to <= oldCount && |source| == oldCount - (to - from) + count
    requires OnTarget(Range(from, to), oldCount, to - 1, |source| - oldCount, source)
    requires forall i | 0 <= i < |source| && source[i].Some? ::
              source[i].value < oldCount && source[i].value !in Range(from, to)
    ensures forall i | from <= i < from + count :: source[i].None?
  {
    forall i | 0 <= i < |source| && source[i].Some? ensures !(from <= i < from + count) {
      assert i == Target(to - 1, |source| - oldCount, source[i].value) && source[i].value !in Range(from, to);
    }
  }

  /** Exactly the new lines of a splice need a fresh anchor. */
  lemma {:induction false} FreshOfSplice(source: Sources, from: nat, to: nat, oldCount: nat, count: nat, n: nat)
    requires from < to <= oldCount && |source| == oldCount - (to - from) + count && n <= |source|
    requires OnTarget(Range(from, to), oldCount, to - 1, |source| - oldCount, source)
    requires forall i | 0 <= i < |source| && source[i].Some? ::
              source[i].value < oldCount && source[i].value !in Range(from, to)
    ensures FreshCount(source, n) == if n <= from then 0 else if n <= from + count then n - from else count
    decreases n
  {
    hide OnTarget;
    if n > 0 {
      FreshOfSplice(source, from, to, oldCount, count, n - 1);
      MiddleIsFresh(source, from, to, oldCount, count);
      if n - 1 < from {
        OuterIsKept(source, from, to, oldCount, n - 1);
      } else if n - 1 >= from + count {
        OuterIsKept(source, from, to, oldCount, n - 1 - (|source| - oldCount));
      }
    }
  }

  lemma {:induction false} OuterIsKept(source: Sources, from: nat, to: nat, oldCount: nat, s: nat)
    requires from < to <= oldCount && s < oldCount && !(from <= s < to)
    requires OnTarget(Range(from, to), oldCount, to - 1, |source| - oldCount, source)
    ensures 0 <= (if s < from then s else s + |source| - oldCount) < |source|
    ensures source[if s < from then s else s + |source| - oldCount].Some?
  {
    assert s !in Range(from, to);
    assert Target(to - 1, |source| - oldCount, s) == if s < from then s else s + |source| - oldCount;
  }

  /** Without removed lines, when all targets fit, no line needs a fresh anchor. */
  lemma {:induction false} NoneFresh(source: Sources, n: nat)
    requires OnTarget({}, |source|, -1, 0, source) && n <= |source|
    ensures FreshCount(source, n) == 0
    decreases n
  {
    if n > 0 {
      NoneFresh(source, n - 1);
      assert Target(-1, 0, n - 1) == n - 1;
      assert source[Target(-1, 0, n - 1)] == Some(n - 1);
    }
  }

  lemma {:induction false} TakenFits(hashes: set<string>)
    ensures |Taken(hashes)| <= HASH_SPACE
  {
    hide HashToIndex, Taken, Range;
    var slots := Range(0, HASH_SPACE);
    RangeSize(0, HASH_SPACE);
    forall i: nat | i in Taken(hashes) ensures i in slots {
      SlotInSpace(hashes, i);
    }
    assert Taken(hashes) <= slots;
    SubsetSize(Taken(hashes), slots);
  }

  lemma {:induction false} SlotInSpace(hashes: set<string>, i: nat)
    requires i in Taken(hashes)
    ensures i < HASH_SPACE
  {
    hide HashToIndex;
    var h :| h in hashes && HashToIndex(h).Some? && HashToIndex(h).value == i;
    AnchorRoundTrip(0, h);
  }

  lemma {:induction false} RangeSize(from: nat, upto: nat)
    requires from <= upto
    ensures |Range(from, upto)| == upto - from
    decreases upto - from
  {
    if from < upto {
      RangeSize(from + 1, upto);
    }
  }

  lemma {:induction false} SubsetSize(a: set<nat>, b: set<nat>)
    requires a <= b
    ensures |a| <= |b|
    decreases a
  {
    if a != {} {
      var x :| x in a;
      SubsetSize(a - {x}, b - {x});
    }
  }

  /**
   A reformat, which changes no canonical text, gives every line its old anchor back. It hands out nothing, so the
   anchors cannot run out.
   */
  method RehashReformat(
    xxh32: Hasher, oldContent: string, oldHashes: seq<string>, newContent: string, reserved: set<string>)
    returns (r: Option<seq<string>>)
    requires |oldHashes| == |SplitLines(oldContent)| && Distinct(oldHashes) && Anchors(oldHashes)
    requires Canons(SplitLines(newContent)) == Canons(SplitLines(oldContent))
    ensures r == Some(oldHashes)
  {
    hide SplitLines, TargetsFit, Placed, CountsMet, OnTarget, StableResult, Anchors, Distinct, Taken, Canons;
    hide ClaimsNearest, OwnSlotIfFree, KeepsText;
    ghost var canons := Canons(SplitLines(oldContent));
    ghost var source, spanEnd;
    assert RemovedIndexes(oldHashes, {}) == {};
    r, source, spanEnd := MapStableHashes(xxh32, oldContent, oldHashes, newContent, {}, reserved);
    CanonsLength(SplitLines(oldContent));
    ReformatFits(canons);
    PlacedParts(canons, canons, {}, |canons|, source);
    NoneFresh(source, |source|);
    TakenFits(Elements(oldHashes) + reserved + {});
    ReformatKeepsAnchors(canons, oldHashes, source, r.value, reserved);
  }

  lemma {:induction false} CanonsLength(lines: seq<string>)
    ensures |Canons(lines)| == |lines|
  {
  }

  /** A reformat that changes no canonical text gives every line its old anchor back. */
  lemma {:induction false} ReformatKeepsAnchors(
    canons: seq<string>, oldHashes: seq<string>, source: Sources, result: seq<string>, reserved: set<string>)
    requires |source| == |oldHashes| == |canons|
    requires TargetsFit(canons, canons, {}, -1, ShiftAfter({}, |canons|, |canons|)) ==>
               OnTarget({}, |canons|, -1, ShiftAfter({}, |canons|, |canons|), source)
    requires StableResult(oldHashes, source, result, {}, reserved)
    ensures result == oldHashes
  {
    ReformatFits(canons);
    forall i: nat | i < |oldHashes| ensures result[i] == oldHashes[i] {
      assert Target(-1, 0, i) == i;
      assert source[Target(-1, 0, i)] == Some(i);
    }
  }
}
