/**
 The anchor allocator. Every line gets an anchor of its own; a line whose canonical text survives an
 edit keeps the anchor it had, and a freed anchor is not handed out again.
 */
module HashAssign {
  import opened Options
  import opened TextLines
  import opened AnchorSpace

  /** The 32-bit hash of a canonical line, left uninterpreted. */
  type Hasher = string -> nat

  predicate IsBlank(c: char) {
    c == ' ' || c == '\t' || c == '\r' || c == '\n'
  }

  /** The line without its blanks. */
  function Canon(line: string): string {
    if line == "" then ""
    else if IsBlank(line[0]) then Canon(line[1..]) else [line[0]] + Canon(line[1..])
  }

  lemma {:induction false} CanonOfConcat(a: string, b: string)
    ensures Canon(a + b) == Canon(a) + Canon(b)
    decreases |a|
  {
    if a == "" {
      assert a + b == b;
    } else {
      CanonOfConcat(a[1..], b);
      assert (a + b)[1..] == a[1..] + b;
    }
  }

  /** Of a line exactly the spaces, tabs and line breaks do not count: every other character stays, in its place. */
  lemma {:induction false} CanonExactly(before: string, c: char, after: string)
    ensures Canon("") == ""
    ensures c in " \t\r\n" ==> Canon(before + [c] + after) == Canon(before + after)
    ensures c !in " \t\r\n" ==> Canon(before + [c] + after) == Canon(before) + [c] + Canon(after)
  {
    CanonOfConcat(before + [c], after);
    CanonOfConcat(before, [c]);
    CanonOfConcat(before, after);
    assert Canon([c]) == if c in " \t\r\n" then "" else [c];
  }

  /** The slot of a line is the upper part of the hash of its canonical text. */
  lemma {:induction false} SlotOfText(xxh32: Hasher, line: string)
    ensures BaseIdx(xxh32, line) == (xxh32(Canon(line)) / 16_384) % 238_328
  {
  }

  function Canons(lines: seq<string>): (r: seq<string>)
    ensures |r| == |lines| && forall k | 0 <= k < |lines| :: r[k] == Canon(lines[k])
  {
    seq(|lines|, k requires 0 <= k < |lines| => Canon(lines[k]))
  }

  /** The slot a line's own text asks for. */
  function BaseIdx(xxh32: Hasher, line: string): nat {
    (xxh32(Canon(line)) / 0x4000) % HASH_SPACE
  }

  // ---- slots in use ----

  /** The slots that anchors name; a malformed anchor names none. */
  function Taken(hashes: set<string>): set<nat> {
    set h | h in hashes && HashToIndex(h).Some? :: HashToIndex(h).value
  }

  function Marked(used: seq<bool>): set<nat> {
    set i: nat | i < |used| && used[i]
  }

  /** The k-th slot of the probe sequence from `start`. */
  function Probe(start: nat, k: nat): nat {
    (start + k * HASH_PROBE_STRIDE) % HASH_SPACE
  }

  lemma {:induction false} ProbeNext(start: nat, k: nat)
    ensures Probe(start, k) < HASH_SPACE
    ensures Probe(start, k + 1) == if Probe(start, k) + HASH_PROBE_STRIDE >= HASH_SPACE
                                   then Probe(start, k) + HASH_PROBE_STRIDE - HASH_SPACE
                                   else Probe(start, k) + HASH_PROBE_STRIDE
  {
  }

  lemma {:induction false} ProbeHits(start: nat, target: nat) returns (k: nat)
    requires target < HASH_SPACE
    ensures k < HASH_SPACE && Probe(start, k) == target
  {
    SpaceOfBase();
    k := ProbeReaches(BASE, start, target);
  }

  /** The k-th slot from `start` is the first one that is free. */
  ghost predicate FirstFree(used: seq<bool>, start: nat, k: nat)
    requires |used| == HASH_SPACE
  {
    && Probe(start, k) < HASH_SPACE && !used[Probe(start, k)]
    && forall j: nat | j < k :: Probe(start, j) < HASH_SPACE && used[Probe(start, j)]
  }

  /** The first free slot of the probe sequence, found exactly when there is a free one. */
  method NextZeroBit(used: array<bool>, start: nat) returns (found: Option<nat>)
    requires used.Length == HASH_SPACE
    ensures found.None? <==> forall i | 0 <= i < HASH_SPACE :: used[i]
    ensures found.Some? ==> found.value < HASH_SPACE && !used[found.value]
    ensures found.Some? ==> exists k :: FirstFree(used[..], start, k) && found.value == Probe(start, k)
  {
    hide Probe;
    var idx := start % HASH_SPACE;
    ProbeStart(start);
    for i := 0 to HASH_SPACE
      invariant idx == Probe(start, i) && idx < HASH_SPACE
      invariant forall k: nat | k < i :: Probe(start, k) < HASH_SPACE && used[Probe(start, k)]
    {
      if !used[idx] {
        assert FirstFree(used[..], start, i);
        return Some(idx);
      }
      ProbeNext(start, i);
      ProbeNext(start, i + 1);
      idx := idx + HASH_PROBE_STRIDE;
      if idx >= HASH_SPACE { idx := idx - HASH_SPACE; }
    }
    forall t | 0 <= t < HASH_SPACE ensures used[t] {
      var k := ProbeHits(start, t);
    }
    return None;
  }

  lemma {:induction false} ProbeStart(start: nat)
    ensures Probe(start, 0) == start % HASH_SPACE
  {
  }

  method AssignHash(used: array<bool>, baseIdx: nat, hint: nat)
    returns (hash: Option<string>, slot: nat, nextHint: nat)
    requires used.Length == HASH_SPACE && baseIdx < HASH_SPACE
    modifies used
    ensures hash.None? <==> old(forall i | 0 <= i < HASH_SPACE :: used[i])
    ensures hash.None? ==> used[..] == old(used[..])
    ensures hash.Some? ==>
              && slot < HASH_SPACE && !old(used[slot]) && hash.value == IdxToHash(slot)
              && used[..] == old(used[..])[slot := true]
              && (!old(used[baseIdx]) ==> slot == baseIdx)
              && (old(used[baseIdx]) ==> exists k :: FirstFree(old(used[..]), hint, k) && slot == Probe(hint, k))
              && nextHint == slot + HASH_PROBE_STRIDE
  {
    if !used[baseIdx] {
      used[baseIdx] := true;
      return Some(IdxToHash(baseIdx)), baseIdx, baseIdx + HASH_PROBE_STRIDE;
    }
    var nextIdx := NextZeroBit(used, hint);
    if nextIdx.None? { return None, 0, hint; }
    used[nextIdx.value] := true;
    return Some(IdxToHash(nextIdx.value)), nextIdx.value, nextIdx.value + HASH_PROBE_STRIDE;
  }

  /** The slot of one anchor, if it names one. */
  function TakenBy(hash: string): set<nat> {
    if HashToIndex(hash).Some? then {HashToIndex(hash).value} else {}
  }

  method MarkHashUsed(used: array<bool>, hash: string)
    requires used.Length == HASH_SPACE
    modifies used
    ensures Marked(used[..]) == Marked(old(used[..])) + TakenBy(hash)
  {
    AnchorRoundTrip(0, hash);
    var idx := HashToIndex(hash);
    if idx.Some? {
      used[idx.value] := true;
      MarkedStep(old(used[..]), used[..], idx.value);
    }
  }

  method MarkHashesUsed(used: array<bool>, hashes: set<string>)
    requires used.Length == HASH_SPACE
    modifies used
    ensures Marked(used[..]) == Marked(old(used[..])) + Taken(hashes)
  {
    hide Marked, Taken, TakenBy;
    var rest := hashes;
    TakenStep({}, "");
    assert hashes - rest == {};
    while rest != {}
      invariant rest <= hashes
      invariant Marked(used[..]) == Marked(old(used[..])) + Taken(hashes - rest)
      decreases |rest|
    {
      var hash :| hash in rest;
      MarkHashUsed(used, hash);
      assert hashes - (rest - {hash}) == (hashes - rest) + {hash};
      TakenStep(hashes - rest, hash);
      rest := rest - {hash};
    }
    assert hashes - {} == hashes;
  }

  lemma {:induction false} MarkedStep(before: seq<bool>, after: seq<bool>, idx: nat)
    requires idx < |before| && after == before[idx := true]
    ensures Marked(after) == Marked(before) + {idx}
  {
  }

  lemma {:induction false} TakenStep(hashes: set<string>, hash: string)
    ensures Taken({}) == {}
    ensures Taken(hashes + {hash}) == Taken(hashes) + TakenBy(hash)
  {
    hide HashToIndex;
  }

  lemma {:induction false} SlotCount(n: nat) returns (all: set<nat>)
    ensures forall i: nat :: i in all <==> i < n
    ensures |all| == n
    decreases n
  {
    if n == 0 {
      all := {};
    } else {
      var fewer := SlotCount(n - 1);
      all := fewer + {n - 1};
    }
  }

  lemma {:induction false} MarkedCount(used: seq<bool>)
    ensures |Marked(used)| <= |used|
    ensures |Marked(used)| == |used| <==> forall i | 0 <= i < |used| :: used[i]
  {
    var all := SlotCount(|used|);
    assert Marked(used) <= all;
    SetSizes(Marked(used), all);
    if forall i | 0 <= i < |used| :: used[i] {
      assert Marked(used) == all;
    }
    if |Marked(used)| == |used| {
      forall i: nat | i < |used| ensures used[i] {
        assert i in all;
      }
    }
  }

  lemma {:induction false} SetSizes(a: set<nat>, b: set<nat>)
    requires a <= b
    ensures |a| <= |b|
    ensures |a| == |b| ==> a == b
  {
    assert b == a + (b - a);
  }

  // ---- fresh anchors ----

  /** How many of the first n entries have no anchor yet. */
  function BlankCount(hashes: seq<string>, n: nat): nat
    requires n <= |hashes|
  {
    if n == 0 then 0 else BlankCount(hashes, n - 1) + if hashes[n - 1] == "" then 1 else 0
  }

  /** `hash` is a well-formed anchor whose slot is not among `slots`. */
  ghost predicate FreshAnchor(hash: string, slots: set<nat>) {
    IsAnchor(hash) && HashToIndex(hash).value !in slots
  }

  /** The slots handed out to the entries that were blank, among the first n. */
  ghost predicate HandedOut(given: seq<string>, hashes: seq<string>, n: nat, before: set<nat>, after: set<nat>) {
    && n <= |given| == |hashes|
    && before <= after && |after| == |before| + BlankCount(given, n)
    && (forall i | 0 <= i < |given| && (i >= n || given[i] != "") :: hashes[i] == given[i])
    && (forall i | 0 <= i < n && given[i] == "" ::
          FreshAnchor(hashes[i], before) && HashToIndex(hashes[i]).value in after)
    && (forall i, j | 0 <= i < j < n && given[i] == "" && given[j] == "" :: hashes[i] != hashes[j])
    && (forall slot | slot in after :: slot in before || HandedTo(given, hashes, n, slot))
  }

  ghost predicate HandedTo(given: seq<string>, hashes: seq<string>, n: nat, slot: nat)
    requires n <= |given| == |hashes|
  {
    exists j :: 0 <= j < n && given[j] == "" && hashes[j] == IdxToHash(slot)
  }

  lemma {:induction false} HandOutOne(
    given: seq<string>, hashes: seq<string>, n: nat, before: set<nat>, after: set<nat>, slot: nat)
    requires HandedOut(given, hashes, n, before, after) && n < |given| && given[n] == ""
    requires slot < HASH_SPACE && slot !in after
    ensures HandedOut(given, hashes[n := IdxToHash(slot)], n + 1, before, after + {slot})
  {
    AnchorRoundTrip(slot, "");
    hide HashToIndex, IdxToHash, IsAnchor;
    var next := hashes[n := IdxToHash(slot)];
    forall s | s in after + {slot} ensures s in before || HandedTo(given, next, n + 1, s) {
      if s == slot {
        assert next[n] == IdxToHash(slot);
      } else if s !in before {
        assert HandedTo(given, hashes, n, s);
        var j :| 0 <= j < n && given[j] == "" && hashes[j] == IdxToHash(s);
        assert next[j] == hashes[j];
      }
    }
  }

  /** Blank line i gets its own slot if that was free before and no earlier blank line took it. */
  ghost predicate GetsBase(
    xxh32: Hasher, lines: seq<string>, given: seq<string>, hashes: seq<string>, before: set<nat>, i: nat)
    requires i < |lines| == |given| == |hashes|
  {
    given[i] == "" && BaseIdx(xxh32, lines[i]) !in before
    && !HandedTo(given, hashes, i, BaseIdx(xxh32, lines[i]))
    ==> hashes[i] == IdxToHash(BaseIdx(xxh32, lines[i]))
  }

  lemma {:induction false} BaseIsKept(
    xxh32: Hasher, lines: seq<string>, given: seq<string>, hashes: seq<string>, before: set<nat>, after: set<nat>,
    n: nat, hash: string, next: seq<string>)
    requires n < |lines| == |given| == |hashes| && HandedOut(given, hashes, n, before, after)
    requires next == hashes[n := hash]
    requires forall i: nat | i < n :: GetsBase(xxh32, lines, given, hashes, before, i)
    requires given[n] == "" && BaseIdx(xxh32, lines[n]) !in after ==> hash == IdxToHash(BaseIdx(xxh32, lines[n]))
    ensures forall i: nat | i <= n :: GetsBase(xxh32, lines, given, next, before, i)
  {
    hide BaseIdx, IdxToHash, FreshAnchor;
    forall i: nat | i <= n ensures GetsBase(xxh32, lines, given, next, before, i) {
      var base := BaseIdx(xxh32, lines[i]);
      if !HandedTo(given, next, i, base) {
        forall j | 0 <= j < i && given[j] == "" ensures hashes[j] != IdxToHash(base) {
          assert next[j] == hashes[j];
        }
        assert !HandedTo(given, hashes, i, base);
        if i < n {
          assert GetsBase(xxh32, lines, given, hashes, before, i);
        }
      }
    }
  }

  /** Give every blank entry an anchor of its own, or report that the space is exhausted. */
  method AssignFresh(xxh32: Hasher, lines: seq<string>, given: seq<string>, used: array<bool>, firstHint: nat)
    returns (r: Option<seq<string>>)
    requires |lines| == |given| && used.Length == HASH_SPACE
    modifies used
    ensures r.None? <==> |Marked(old(used[..]))| + BlankCount(given, |given|) > HASH_SPACE
    ensures r.Some? ==> exists after :: HandedOut(given, r.value, |given|, Marked(old(used[..])), after)
    ensures r.Some? ==>
              forall i: nat | i < |given| :: GetsBase(xxh32, lines, given, r.value, Marked(old(used[..])), i)
  {
    hide HandedOut, Marked, GetsBase, IdxToHash;
    ghost var before := Marked(used[..]);
    var hashes, hint := given, firstHint;
    NothingHandedOut(given, before);
    for i := 0 to |lines|
      invariant |hashes| == |given|
      invariant HandedOut(given, hashes, i, before, Marked(used[..]))
      invariant forall k: nat | k < i :: GetsBase(xxh32, lines, given, hashes, before, k)
    {
      HandOutSkip(given, hashes, i, before, Marked(used[..]));
      if hashes[i] == "" {
        ghost var was := used[..];
        var hash, slot, nextHint := AssignHash(used, BaseIdx(xxh32, lines[i]), hint);
        MarkedCount(was);
        if hash.None? {
          NoRoom(given, hashes, i, before, Marked(was));
          return None;
        }
        MarkedStep(was, used[..], slot);
        SlotUnmarked(was, slot);
        if BaseIdx(xxh32, lines[i]) !in Marked(was) { BaseUnmarked(was, BaseIdx(xxh32, lines[i])); }
        BaseIsKept(xxh32, lines, given, hashes, before, Marked(was), i, hash.value, hashes[i := hash.value]);
        HandOutOne(given, hashes, i, before, Marked(was), slot);
        hashes := hashes[i := hash.value];
        hint := nextHint;
      } else {
        BaseIsKept(xxh32, lines, given, hashes, before, Marked(used[..]), i, hashes[i], hashes);
      }
    }
    MarkedCount(used[..]);
    Room(given, hashes, before, Marked(used[..]));
    return Some(hashes);
  }

  lemma {:induction false} NothingHandedOut(given: seq<string>, before: set<nat>)
    ensures HandedOut(given, given, 0, before, before)
  {
  }

  lemma {:induction false} SlotUnmarked(used: seq<bool>, slot: nat)
    requires slot < |used| && !used[slot]
    ensures slot !in Marked(used)
  {
  }

  lemma {:induction false} BaseUnmarked(used: seq<bool>, slot: nat)
    requires slot < |used| && slot !in Marked(used)
    ensures !used[slot]
  {
  }

  /** An entry that already has its anchor is passed over. */
  lemma {:induction false} HandOutSkip(
    given: seq<string>, hashes: seq<string>, n: nat, before: set<nat>, after: set<nat>)
    requires HandedOut(given, hashes, n, before, after) && n < |given|
    ensures hashes[n] == given[n]
    ensures given[n] != "" ==> HandedOut(given, hashes, n + 1, before, after)
  {
    hide FreshAnchor, HashToIndex, IdxToHash;
    forall slot | HandedTo(given, hashes, n, slot) ensures HandedTo(given, hashes, n + 1, slot) {
    }
  }

  lemma {:induction false} BlankCountGrows(given: seq<string>, n: nat, m: nat)
    requires n <= m <= |given|
    ensures BlankCount(given, n) <= BlankCount(given, m)
    decreases m
  {
    if n < m {
      BlankCountGrows(given, n, m - 1);
    }
  }

  lemma {:induction false} NoRoom(given: seq<string>, hashes: seq<string>, n: nat, before: set<nat>, after: set<nat>)
    requires HandedOut(given, hashes, n, before, after) && n < |given| && given[n] == ""
    requires |after| == HASH_SPACE
    ensures |before| + BlankCount(given, |given|) > HASH_SPACE
  {
    BlankCountGrows(given, n + 1, |given|);
  }

  lemma {:induction false} Room(given: seq<string>, hashes: seq<string>, before: set<nat>, after: set<nat>)
    requires HandedOut(given, hashes, |given|, before, after) && |after| <= HASH_SPACE
    ensures |before| + BlankCount(given, |given|) <= HASH_SPACE
  {
  }
}
