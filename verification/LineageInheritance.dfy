/**
 From one version of a file to the next: which identity every line of a new snapshot has, told by the stored rows and
 the pairing alone.
 */
module LineageInheritance {
  import opened Options
  import opened Digests
  import opened LcsAlignment
  import opened Pairing
  import opened PairingDrift
  import opened LineageTables
  import opened LineageIdentity
  import opened LeaseEvidence

  /** The stored version of the path under another key that was added last. */
  ghost predicate LastVersion(t: Tables, path: string, key: nat, last: nat) {
    && last in t.snapshots && last in t.lineage && t.snapshots[last].path == path && t.snapshots[last].key != key
    && forall other | other in t.snapshots && t.snapshots[other].path == path && t.snapshots[other].key != key ::
         other <= last
  }

  /** No stored version of this content can be adopted. */
  ghost predicate NotAdopted(t: Tables, c: Commit) {
    forall id: nat | Is(t, c.path, c.key, id) :: !Usable(LineageAt(t, id), c.canons)
  }

  /** The rows of the snapshot that the commit added. */
  ghost predicate NewVersion(t: Tables, c: Commit, now: int, rows: seq<Row>)
    requires |c.canons| == |c.hashes|
  {
    var u := Committed(t, c, now);
    && t.nextSnapshot in u.snapshots && u.snapshots[t.nextSnapshot] == Snapshot(c.path, c.key, |c.canons|, now)
    && t.nextSnapshot in u.lineage && u.lineage[t.nextSnapshot] == rows
  }

  lemma {:induction false} ClearedSnapshots(t: Tables, c: Commit, id: nat)
    requires Consistent(t)
    ensures id in Cleared(t, c).snapshots <==> id in t.snapshots && !Is(t, c.path, c.key, id)
    ensures id in Cleared(t, c).snapshots ==>
              Cleared(t, c).snapshots[id] == t.snapshots[id] && LineageAt(Cleared(t, c), id) == LineageAt(t, id)
  {
    hide WellNumbered;
    FindIs(t, c.path, c.key);
  }

  lemma {:induction false} CommittedIs(t: Tables, c: Commit, now: int, prev: seq<Row>)
    requires Consistent(t) && |c.canons| == |c.hashes| && NotAdopted(t, c) && prev == PrevRows(Cleared(t, c), c.path)
    ensures NewVersion(t, c, now, NewRows(Inherited(prev, c.canons), CounterOf(t, c.path), c.canons, c.hashes))
    ensures CounterOf(Committed(t, c, now), c.path)
            == CounterOf(t, c.path) + FreshBefore(Inherited(prev, c.canons), |c.canons|)
    ensures Committed(t, c, now).nextSnapshot == t.nextSnapshot + 1
    ensures forall id: nat | id != t.nextSnapshot && id in Committed(t, c, now).lineage ::
              id in t.lineage && Committed(t, c, now).lineage[id] == t.lineage[id]
    ensures forall id: nat | id in t.lineage && !Is(t, c.path, c.key, id) && id != t.nextSnapshot ::
              id in Committed(t, c, now).lineage
  {
    hide WellNumbered, Inherited, PrevRows, NewRows, LeasesAfter, Usable, FreshBefore;
    FindIs(t, c.path, c.key);
    assert !Adopts(t, c);
  }

  /** The last version is the one identities come from. */
  lemma {:induction false} PrevIsLast(t: Tables, c: Commit, last: nat)
    requires Consistent(t) && LastVersion(t, c.path, c.key, last)
    ensures PrevRows(Cleared(t, c), c.path) == t.lineage[last]
  {
    hide WellNumbered, Consistent;
    var u := Cleared(t, c);
    ClearedSnapshots(t, c, last);
    forall other | other in u.snapshots && OfPath(u, c.path, other) ensures other <= last {
      ClearedSnapshots(t, c, other);
    }
    assert IsLatest(u, c.path, last);
    forall other | IsLatest(u, c.path, other) ensures other == last {
      assert OfPath(u, c.path, last) && OfPath(u, c.path, other);
    }
  }

  lemma {:induction false} NoneStored(t: Tables, c: Commit)
    requires Consistent(t)
    requires forall id | id in t.snapshots && t.snapshots[id].path == c.path :: t.snapshots[id].key == c.key
    ensures PrevRows(Cleared(t, c), c.path) == []
  {
    hide WellNumbered, Consistent;
    var u := Cleared(t, c);
    forall id: nat ensures !IsLatest(u, c.path, id) {
      ClearedSnapshots(t, c, id);
    }
  }

  /** Line i inherits from the line it is paired with, and only then. */
  lemma {:induction false} InheritedIffPaired(prev: seq<Row>, canons: seq<Digest>, i: nat)
    requires i < |canons|
    ensures
      var pairs := Paired(Texts(CanonsOf(prev), canons), PairingScanBudget(|prev|, |canons|));
      && (forall p | p in pairs && pairs[p] == i + 1 ::
            1 <= p <= |prev| && Inherited(prev, canons)[i] == Some(prev[p - 1].lineId))
      && ((forall p | p in pairs :: pairs[p] != i + 1) ==> Inherited(prev, canons)[i].None?)
  {
    hide Align;
    var pairs := Pairs(prev, canons);
    forall p | p in pairs && pairs[p] == i + 1
      ensures 1 <= p <= |prev| && InheritedAt(prev, canons, i) == Some(prev[p - 1].lineId)
    {
      assert Whole(Texts(CanonsOf(prev), canons)).Holds(p, pairs[p]);
      forall q | q in pairs && q != p ensures pairs[q] != pairs[p] {
        if q < p { assert pairs[q] < pairs[p]; } else { assert pairs[p] < pairs[q]; }
      }
    }
  }

  /** A line that is paired with a line of the last version has that line's identity. */
  lemma {:induction false} PairedLinesKeepIds(t: Tables, c: Commit, now: int, last: nat, p: nat, i: nat)
    requires Consistent(t) && |c.canons| == |c.hashes| && NotAdopted(t, c) && i < |c.canons|
    requires LastVersion(t, c.path, c.key, last)
    requires
      var prev := t.lineage[last];
      var pairs := Paired(Texts(CanonsOf(prev), c.canons), PairingScanBudget(|prev|, |c.canons|));
      p in pairs && pairs[p] == i + 1
    ensures 1 <= p <= |t.lineage[last]|
    ensures exists rows: seq<Row> ::
              NewVersion(t, c, now, rows) && |rows| == |c.canons|
              && rows[i] == Row(i + 1, t.lineage[last][p - 1].lineId, c.canons[i], c.hashes[i])
  {
    hide Paired, NewVersion, Committed, Cleared, PrevRows, Inherited, NotAdopted, Consistent, LastVersion;
    PrevIsLast(t, c, last);
    LastIsStored(t, c.path, c.key, last);
    var prev := t.lineage[last];
    CommittedIs(t, c, now, prev);
    InheritedIffPaired(prev, c.canons, i);
    var rows := NewRows(Inherited(prev, c.canons), CounterOf(t, c.path), c.canons, c.hashes);
    assert NewVersion(t, c, now, rows);
  }

  lemma {:induction false} LastIsStored(t: Tables, path: string, key: nat, last: nat)
    requires LastVersion(t, path, key, last)
    ensures last in t.lineage
  {
  }

  /** The rows of the new version, line by line: inherited, or the next identity of the counter. */
  ghost predicate NumberedFrom(rows: seq<Row>, paired: set<nat>, next: nat, upto: nat) {
    && (forall i | 0 <= i < |rows| && i !in paired :: next <= rows[i].lineId < upto)
    && (forall i, j | 0 <= i < j < |rows| && i !in paired && j !in paired :: rows[i].lineId < rows[j].lineId)
    && (forall id: nat | next <= id < upto :: HasFresh(rows, paired, id))
  }

  ghost predicate HasFresh(rows: seq<Row>, paired: set<nat>, id: nat) {
    exists i :: 0 <= i < |rows| && i !in paired && rows[i].lineId == id
  }

  lemma {:induction false} SomeFresh(inherited: seq<Option<nat>>, n: nat, k: nat) returns (i: nat)
    requires n <= |inherited| && k < FreshBefore(inherited, n)
    ensures i < n && inherited[i].None? && FreshBefore(inherited, i) == k
    decreases n
  {
    if inherited[n - 1].None? && FreshBefore(inherited, n - 1) == k {
      i := n - 1;
    } else {
      i := SomeFresh(inherited, n - 1, k);
    }
  }

  /** The rows a new version inherits from: those of the last version, or none. */
  ghost predicate InheritsFrom(t: Tables, c: Commit, prev: seq<Row>) {
    || (exists last :: LastVersion(t, c.path, c.key, last) && prev == t.lineage[last])
    || (prev == []
        && forall id | id in t.snapshots && t.snapshots[id].path == c.path :: t.snapshots[id].key == c.key)
  }

  lemma {:induction false} PrevIs(t: Tables, c: Commit, prev: seq<Row>)
    requires Consistent(t) && InheritsFrom(t, c, prev)
    ensures PrevRows(Cleared(t, c), c.path) == prev
  {
    hide Cleared, PrevRows, Consistent;
    if last :| LastVersion(t, c.path, c.key, last) && prev == t.lineage[last] {
      PrevIsLast(t, c, last);
    } else {
      NoneStored(t, c);
    }
  }

  /** Line i of the new content is paired with a line of these rows. */
  ghost predicate IsPaired(prev: seq<Row>, canons: seq<Digest>, i: nat) {
    var pairs := Paired(Texts(CanonsOf(prev), canons), PairingScanBudget(|prev|, |canons|));
    exists p :: p in pairs && pairs[p] == i + 1
  }

  lemma {:induction false} PairedSet(prev: seq<Row>, canons: seq<Digest>) returns (paired: set<nat>)
    ensures forall i: nat | i < |canons| :: i in paired <==> IsPaired(prev, canons, i)
    ensures forall i: nat | i < |canons| :: i in paired <==> Inherited(prev, canons)[i].Some?
  {
    hide Paired, InheritedAt;
    var inherited := Inherited(prev, canons);
    paired := set i: nat | i < |inherited| && inherited[i].Some?;
    forall i: nat | i < |canons| ensures i in paired <==> IsPaired(prev, canons, i) {
      InheritedIffPaired(prev, canons, i);
    }
  }

  /** The other lines take, in order, exactly the identities between the old counter and the new one. */
  lemma {:induction false} NewLinesAreNumbered(t: Tables, c: Commit, now: int, prev: seq<Row>)
    returns (rows: seq<Row>, paired: set<nat>)
    requires Consistent(t) && |c.canons| == |c.hashes| && NotAdopted(t, c) && InheritsFrom(t, c, prev)
    ensures NewVersion(t, c, now, rows) && |rows| == |c.canons|
    ensures forall i: nat | i < |rows| :: i in paired <==> IsPaired(prev, c.canons, i)
    ensures NumberedFrom(rows, paired, CounterOf(t, c.path), CounterOf(Committed(t, c, now), c.path))
  {
    hide *;
    PrevIs(t, c, prev);
    CommittedIs(t, c, now, prev);
    var inherited := Inherited(prev, c.canons);
    rows := NewRows(inherited, CounterOf(t, c.path), c.canons, c.hashes);
    paired := PairedSet(prev, c.canons);
    FreshAreNumbered(inherited, CounterOf(t, c.path), c.canons, c.hashes, paired);
  }

  lemma {:induction false} FreshAreNumbered(
    inherited: seq<Option<nat>>, next: nat, canons: seq<Digest>, hashes: seq<string>, paired: set<nat>)
    requires |inherited| == |canons| == |hashes|
    requires forall i: nat | i < |inherited| :: i in paired <==> inherited[i].Some?
    ensures NumberedFrom(NewRows(inherited, next, canons, hashes), paired, next,
                         next + FreshBefore(inherited, |inherited|))
  {
    hide FreshBefore;
    var rows, upto := NewRows(inherited, next, canons, hashes), next + FreshBefore(inherited, |inherited|);
    forall i: nat | i < |rows| && i !in paired ensures next <= rows[i].lineId < upto {
      FreshGrows(inherited, i, |inherited|);
    }
    forall i: nat, j: nat | i < j < |rows| && i !in paired && j !in paired ensures rows[i].lineId < rows[j].lineId {
      FreshGrows(inherited, i, j);
    }
    forall id: nat | next <= id < upto ensures HasFresh(rows, paired, id) {
      var i := SomeFresh(inherited, |inherited|, id - next);
      assert rows[i].lineId == id;
    }
  }

  /** In a file of different lines every line kept from the last version keeps its identity. */
  lemma {:induction false} KeptLinesKeepIds(t: Tables, c: Commit, now: int, last: nat, kept: Embedding, x: LinePair)
    requires Consistent(t) && |c.canons| == |c.hashes| && NotAdopted(t, c)
    requires LastVersion(t, c.path, c.key, last) && x in kept
    requires NovelEdit(Texts(CanonsOf(t.lineage[last]), c.canons), kept)
    requires KeptDiffer(Texts(CanonsOf(t.lineage[last]), c.canons), kept)
    ensures 1 <= x.prevLine <= |t.lineage[last]| && 1 <= x.currLine <= |c.canons|
    ensures exists rows: seq<Row> ::
              NewVersion(t, c, now, rows) && |rows| == |c.canons|
              && rows[x.currLine - 1].lineId == t.lineage[last][x.prevLine - 1].lineId
  {
    hide *;
    LastIsStored(t, c.path, c.key, last);
    var prev := t.lineage[last];
    var texts := Texts(CanonsOf(prev), c.canons);
    ProductionBudget(texts, kept);
    InRange(texts, kept, x);
    PairAt(texts, kept, PairingScanBudget(|prev|, |c.canons|), x);
    PairedLinesKeepIds(t, c, now, last, x.prevLine, x.currLine - 1);
  }

  lemma {:induction false} PairAt(t: Texts, kept: Embedding, budget: int, x: LinePair)
    requires AllPair(t, kept, budget) && x in kept
    ensures x.prevLine in Paired(t, budget) && Paired(t, budget)[x.prevLine] == x.currLine
  {
    hide Paired;
  }

  lemma {:induction false} InRange(t: Texts, kept: Embedding, x: LinePair)
    requires NovelEdit(t, kept) && x in kept
    ensures 1 <= x.prevLine <= |t.prev| && 1 <= x.currLine <= |t.curr|
  {
    var k :| 0 <= k < |kept| && kept[k] == x;
    KeptAgrees(t, kept, k);
  }

  /** A stored version that can be adopted keeps all its identities; only its anchors are refreshed. */
  lemma {:induction false} AdoptedKeepsIds(t: Tables, c: Commit, now: int, id: nat)
    requires Consistent(t) && |c.canons| == |c.hashes|
    requires Is(t, c.path, c.key, id) && Usable(LineageAt(t, id), c.canons)
    ensures
      var u := Committed(t, c, now);
      && u.snapshots == t.snapshots && u.counters == t.counters && u.nextSnapshot == t.nextSnapshot
      && id in t.lineage && id in u.lineage && |u.lineage[id]| == |t.lineage[id]| == |c.hashes|
      && (forall i | 0 <= i < |c.hashes| :: u.lineage[id][i] == t.lineage[id][i].(anchor := c.hashes[i]))
      && forall other | other != id :: (other in u.lineage <==> other in t.lineage)
                                       && (other in t.lineage ==> u.lineage[other] == t.lineage[other])
  {
    hide WellNumbered, LeasesAfter;
    FindIs(t, c.path, c.key);
  }

  // ---- where every identity lives, before anything is committed ----

  /** Line p of these rows has this identity, and is paired with this line of the content. */
  ghost predicate HandsOn(prev: seq<Row>, canons: seq<Digest>, p: nat, id: nat, line: nat) {
    var pairs := Paired(Texts(CanonsOf(prev), canons), PairingScanBudget(|prev|, |canons|));
    1 <= p <= |prev| && prev[p - 1].lineId == id && p in pairs && pairs[p] == line
  }

  lemma {:induction false} InheritedIs(prev: seq<Row>, canons: seq<Digest>, id: nat, line: nat)
    requires 1 <= line <= |canons|
    ensures Inherited(prev, canons)[line - 1] == Some(id) <==> exists p :: HandsOn(prev, canons, p, id, line)
  {
    hide Paired, InheritedAt;
    InheritedIffPaired(prev, canons, line - 1);
    if Inherited(prev, canons)[line - 1] == Some(id) {
      var pairs := Paired(Texts(CanonsOf(prev), canons), PairingScanBudget(|prev|, |canons|));
      var p :| p in pairs && pairs[p] == line;
      assert HandsOn(prev, canons, p, id, line);
    }
  }

  lemma {:induction false} OneHeir(prev: seq<Row>, canons: seq<Digest>, id: nat, i: nat, j: nat)
    requires WellNumbered(prev) && i < |canons| && j < |canons|
    requires Inherited(prev, canons)[i] == Some(id) && Inherited(prev, canons)[j] == Some(id)
    ensures i == j
  {
    hide Paired, InheritedAt;
    InheritedIs(prev, canons, id, i + 1);
    InheritedIs(prev, canons, id, j + 1);
    var p :| HandsOn(prev, canons, p, id, i + 1);
    var q :| HandsOn(prev, canons, q, id, j + 1);
    assert p == q;
  }

  lemma {:induction false} InheritedOnce(prev: seq<Row>, canons: seq<Digest>)
    requires WellNumbered(prev)
    ensures NoneTwice(Inherited(prev, canons))
  {
    hide InheritedAt, WellNumbered;
    var inherited := Inherited(prev, canons);
    forall i, j | 0 <= i < j < |inherited| && inherited[i].Some? ensures inherited[i] != inherited[j] {
      if inherited[i] == inherited[j] {
        OneHeir(prev, canons, inherited[i].value, i, j);
      }
    }
  }

  ghost predicate NotStored(t: Tables, path: string, key: nat) {
    forall id: nat :: !Is(t, path, key, id)
  }

  lemma {:induction false} PrevOfUnstored(t: Tables, path: string, key: nat, last: nat)
    requires Consistent(t) && NotStored(t, path, key) && LastVersion(t, path, key, last)
    ensures last in t.lineage && PrevRows(t, path) == t.lineage[last] && WellNumbered(t.lineage[last])
  {
    hide WellNumbered, PrevRows;
    FindIs(t, path, key);
    PrevIsLast(t, Commit(path, key, [], [], None), last);
  }

  /** A content that is not stored: an identity is where its line of the last version is paired to. */
  lemma {:induction false} PairedPositions(
    t: Tables, path: string, key: nat, canons: seq<Digest>, last: nat, id: nat, line: nat)
    requires Consistent(t) && NotStored(t, path, key) && LastVersion(t, path, key, last)
    ensures last in t.lineage
    ensures IsAt(PositionsByIdentity(t, path, key, canons), id, line)
            <==> exists p :: HandsOn(t.lineage[last], canons, p, id, line)
  {
    hide *;
    PrevOfUnstored(t, path, key, last);
    var prev := t.lineage[last];
    FindNone(t, path, key, canons);
    InheritedOnce(prev, canons);
    InheritedLength(prev, canons);
    InheritedPositionsExactly(Inherited(prev, canons), |canons|, id, line);
    if 1 <= line <= |canons| {
      InheritedIs(prev, canons, id, line);
    } else {
      forall p: nat ensures !HandsOn(prev, canons, p, id, line) {
        PairsInRange(prev, canons, p, id, line);
      }
    }
    if prev == [] {
      forall p: nat ensures !HandsOn(prev, canons, p, id, line) {
        NothingHandedOn(canons, p, id, line);
      }
      NowhereAt(id, line);
    }
  }

  lemma {:induction false} InheritedLength(prev: seq<Row>, canons: seq<Digest>)
    ensures |Inherited(prev, canons)| == |canons|
  {
  }

  lemma {:induction false} FindNone(t: Tables, path: string, key: nat, canons: seq<Digest>)
    requires NotStored(t, path, key)
    ensures |Inherited(PrevRows(t, path), canons)| == |canons|
    ensures PositionsByIdentity(t, path, key, canons)
            == if PrevRows(t, path) == [] then map[]
               else InheritedPositions(Inherited(PrevRows(t, path), canons), |canons|)
  {
    hide PrevRows, Inherited, InheritedPositions;
    FindIs(t, path, key);
  }

  lemma {:induction false} PairsInRange(prev: seq<Row>, canons: seq<Digest>, p: nat, id: nat, line: nat)
    ensures HandsOn(prev, canons, p, id, line) ==> 1 <= line <= |canons|
  {
    hide Align;
    if HandsOn(prev, canons, p, id, line) {
      assert Whole(Texts(CanonsOf(prev), canons)).Holds(p, line);
    }
  }

  lemma {:induction false} NothingHandedOn(canons: seq<Digest>, p: nat, id: nat, line: nat)
    ensures !HandsOn([], canons, p, id, line)
  {
  }

  lemma {:induction false} NowhereAt(id: nat, line: nat)
    ensures !IsAt(map[], id, line)
  {
  }

  /**
   The identity map that edits are checked against, exactly. Of a stored content it tells the line of every one of
   its identities. Of any other content it tells, for the identities of the last version, the lines they are
   paired with. Of the first content of a path it tells nothing.
   */
  lemma {:induction false} PositionsExactly(
    t: Tables, path: string, key: nat, canons: seq<Digest>, id: nat, line: nat)
    requires Consistent(t)
    ensures forall stored: nat | Is(t, path, key, stored) ::
              stored in t.lineage
              && (IsAt(PositionsByIdentity(t, path, key, canons), id, line)
                  <==> 1 <= line <= |t.lineage[stored]| && t.lineage[stored][line - 1].lineId == id)
    ensures NotStored(t, path, key) ==>
              forall last | LastVersion(t, path, key, last) ::
                IsAt(PositionsByIdentity(t, path, key, canons), id, line)
                <==> exists p :: HandsOn(t.lineage[last], canons, p, id, line)
    ensures (forall other | other in t.snapshots :: t.snapshots[other].path != path) ==>
              PositionsByIdentity(t, path, key, canons) == map[]
  {
    hide *;
    forall stored: nat | Is(t, path, key, stored)
      ensures stored in t.lineage
              && (IsAt(PositionsByIdentity(t, path, key, canons), id, line)
                  <==> 1 <= line <= |t.lineage[stored]| && t.lineage[stored][line - 1].lineId == id)
    {
      StoredPositions(t, path, key, canons, stored);
      RowPositionsExactly(t.lineage[stored], |t.lineage[stored]|, id, line);
    }
    if NotStored(t, path, key) {
      forall last | LastVersion(t, path, key, last)
        ensures last in t.lineage
                && (IsAt(PositionsByIdentity(t, path, key, canons), id, line)
                    <==> exists p :: HandsOn(t.lineage[last], canons, p, id, line))
      {
        PairedPositions(t, path, key, canons, last, id, line);
      }
    }
    if forall other | other in t.snapshots :: t.snapshots[other].path != path {
      FirstContent(t, path, key, canons);
    }
  }

  lemma {:induction false} StoredPositions(t: Tables, path: string, key: nat, canons: seq<Digest>, stored: nat)
    requires Consistent(t) && Is(t, path, key, stored)
    ensures stored in t.lineage && WellNumbered(t.lineage[stored])
    ensures PositionsByIdentity(t, path, key, canons)
            == RowPositions(t.lineage[stored], |t.lineage[stored]|)
  {
    hide WellNumbered, RowPositions, Find;
    FindIs(t, path, key);
  }

  lemma {:induction false} FirstContent(t: Tables, path: string, key: nat, canons: seq<Digest>)
    requires Consistent(t) && forall other | other in t.snapshots :: t.snapshots[other].path != path
    ensures PositionsByIdentity(t, path, key, canons) == map[]
  {
    hide WellNumbered, Inherited, InheritedPositions, PrevRows, Consistent;
    FindIs(t, path, key);
    NoneStored(t, Commit(path, key, [], [], None));
  }
}
