/**
 The store of snapshots, lineage, counters and leases: tables updated row by row, one method per
 transaction, each proved to do what the function of the same operation says.
 */
module LineageStores {
  import opened Options
  import opened Digests
  import opened TextLines
  import opened Pairing
  import opened BufferIdentity
  import opened LineageTables
  import opened LineageIdentity
  import opened LeaseEvidence
  import opened SnapshotVacuum

  /** The content key and the line digest, left uninterpreted. */
  datatype Hashing = Hashing(keyOf: string -> nat, digestOf: string -> Digest) {
    function Canons(content: string): (r: seq<Digest>)
      ensures |r| == |SplitLines(content)| && forall k | 0 <= k < |r| :: r[k] == digestOf(SplitLines(content)[k])
    {
      var lines := SplitLines(content);
      seq<Digest>(|lines|, k requires 0 <= k < |lines| => digestOf(lines[k]))
    }
  }

  /** The identities that the lines of new content inherit from a previous snapshot. */
  method PairLineIds(prev: seq<Row>, curCanons: seq<Digest>) returns (inherited: seq<Option<nat>>)
    ensures inherited == Inherited(prev, curCanons)
  {
    hide Paired, InheritedAt, Align, Monotonic;
    var pairing, thrown := PairSnapshots(CanonsOf(prev), curCanons, Default);
    assert pairing == Pairs(prev, curCanons);
    PairsDiffer(prev, curCanons);
    var prevByCurr := InvertPositions(pairing);
    Heirs(prev, curCanons, prevByCurr);
    inherited := seq(|curCanons|, i requires 0 <= i < |curCanons| => HeirAt(prev, prevByCurr, i + 1));
    assert inherited == Inherited(prev, curCanons);
  }

  function HeirAt(prev: seq<Row>, prevByCurr: map<nat, nat>, line: nat): Option<nat> {
    if line in prevByCurr && 1 <= prevByCurr[line] <= |prev| then Some(prev[prevByCurr[line] - 1].lineId) else None
  }

  lemma {:induction false} PairsDiffer(prev: seq<Row>, canons: seq<Digest>)
    ensures forall p, q | p in Pairs(prev, canons) && q in Pairs(prev, canons) && p != q ::
              Pairs(prev, canons)[p] != Pairs(prev, canons)[q]
  {
    hide Paired;
    forall p, q | p in Pairs(prev, canons) && q in Pairs(prev, canons) && p != q
      ensures Pairs(prev, canons)[p] != Pairs(prev, canons)[q]
    {
      OtherPair(Pairs(prev, canons), Texts(CanonsOf(prev), canons), p, q);
    }
  }

  lemma {:induction false} Heirs(prev: seq<Row>, canons: seq<Digest>, prevByCurr: map<nat, nat>)
    requires forall line | line in prevByCurr ::
              prevByCurr[line] in Pairs(prev, canons) && Pairs(prev, canons)[prevByCurr[line]] == line
    requires forall p | p in Pairs(prev, canons) ::
              Pairs(prev, canons)[p] in prevByCurr && prevByCurr[Pairs(prev, canons)[p]] == p
    ensures forall i | 0 <= i < |canons| :: InheritedAt(prev, canons, i) == HeirAt(prev, prevByCurr, i + 1)
  {
    hide Paired, Pairs;
    forall i: nat | i < |canons| ensures InheritedAt(prev, canons, i) == HeirAt(prev, prevByCurr, i + 1) {
      if i + 1 in prevByCurr {
        PairIsHeir(prev, canons, prevByCurr[i + 1], i);
      } else {
        NoHeir(prev, canons, i, prevByCurr);
      }
    }
  }

  lemma {:induction false} PairIsHeir(prev: seq<Row>, canons: seq<Digest>, p: nat, i: nat)
    requires p in Pairs(prev, canons) && Pairs(prev, canons)[p] == i + 1
    ensures 1 <= p <= |prev| && InheritedAt(prev, canons, i) == Some(prev[p - 1].lineId)
  {
    hide Paired;
    var pairs := Pairs(prev, canons);
    forall q | q in pairs && q != p ensures pairs[q] != i + 1 {
      OtherPair(pairs, Texts(CanonsOf(prev), canons), p, q);
    }
  }

  lemma {:induction false} OtherPair(pairs: map<nat, nat>, t: Texts, p: nat, q: nat)
    requires Sound(t, Whole(t), pairs) && p in pairs && q in pairs && p != q
    ensures pairs[p] != pairs[q]
  {
    if p < q {
      assert pairs[p] < pairs[q];
    } else {
      assert pairs[q] < pairs[p];
    }
  }

  lemma {:induction false} NoHeir(prev: seq<Row>, canons: seq<Digest>, i: nat, prevByCurr: map<nat, nat>)
    requires forall p | p in Pairs(prev, canons) :: Pairs(prev, canons)[p] in prevByCurr
    requires i + 1 !in prevByCurr
    ensures InheritedAt(prev, canons, i) == None
  {
    hide Paired, Pairs;
  }

  /** Whether a stored family cannot be adopted for content of this many lines. */
  method DiagnoseUnusableLineage(stored: seq<Row>, lineCount: nat, curCanons: seq<Digest>) returns (unusable: bool)
    requires lineCount == |curCanons|
    ensures unusable <==> !Usable(stored, curCanons)
  {
    if |stored| == 0 || |stored| != lineCount { return true; }
    for index := 0 to lineCount
      invariant forall k | 0 <= k < index :: stored[k].lineNumber == k + 1 && stored[k].canonHash == curCanons[k]
    {
      if stored[index].lineNumber != index + 1 || stored[index].canonHash != curCanons[index] { return true; }
    }
    return false;
  }

  class LineageStore {
    var snapshots: map<nat, Snapshot>
    var nextSnapshot: nat
    var lineage: map<nat, seq<Row>>
    var counters: map<string, nat>
    var leases: map<LeaseKey, LeaseRow>
    /** Every identity ever issued, with its digest. */
    ghost var bindings: Bindings

    function T(): Tables
      reads this
    {
      Tables(snapshots, nextSnapshot, lineage, counters, leases)
    }

    ghost predicate Valid()
      reads this
    {
      Inv(T(), bindings)
    }

    constructor ()
      ensures Valid() && T() == EMPTY && bindings == map[]
    {
      snapshots, nextSnapshot, lineage, counters, leases := map[], 1, map[], map[], map[];
      bindings := map[];
    }

    method GetSnapshot(path: string, key: nat) returns (r: Option<nat>)
      requires Valid()
      ensures r == Find(T(), path, key)
    {
      hide Faithful, WellNumbered, Find;
      FindIs(T(), path, key);
      if id: nat :| id in snapshots && Is(T(), path, key, id) {
        return Some(id);
      }
      return None;
    }

    method LatestSnapshot(path: string) returns (r: Option<nat>)
      ensures r == LatestOf(T(), path)
    {
      if id: nat :| id in snapshots && IsLatest(T(), path, id) {
        return Some(id);
      }
      return None;
    }

    method PreviousRows(path: string) returns (prev: seq<Row>)
      ensures prev == PrevRows(T(), path)
    {
      var latest := LatestSnapshot(path);
      if latest.None? || latest.value !in lineage { return []; }
      return lineage[latest.value];
    }

    /** The adopted family keeps its identities; its anchors become the ones of this commit. */
    method RefreshAnchors(id: nat, hashes: seq<string>)
      requires id in lineage && |lineage[id]| == |hashes|
      modifies this`lineage
      ensures lineage == old(lineage)[id := Refreshed(old(lineage[id]), hashes)]
    {
      ghost var stored := lineage[id];
      for index := 0 to |hashes|
        invariant id in lineage && lineage == old(lineage)[id := lineage[id]] && |lineage[id]| == |hashes|
        invariant forall k | 0 <= k < index :: lineage[id][k] == stored[k].(anchor := hashes[k])
        invariant forall k | index <= k < |hashes| :: lineage[id][k] == stored[k]
      {
        var row := lineage[id][index];
        if row.anchor != hashes[index] {
          lineage := lineage[id := lineage[id][index := row.(anchor := hashes[index])]];
        }
      }
      assert lineage[id] == Refreshed(stored, hashes);
    }

    /** A new snapshot of the path; its lines inherit from the latest one, and one counter update pays for the rest. */
    method InsertSnapshot(path: string, key: nat, canons: seq<Digest>, hashes: seq<string>, now: int, ghost c: Commit)
      returns (id: nat)
      requires |canons| == |hashes| && c.path == path && c.key == key && c.canons == canons && c.hashes == hashes
      modifies this`snapshots, this`nextSnapshot, this`lineage, this`counters
      ensures T() == Materialized(old(T()), c, now)
      ensures id == old(nextSnapshot)
    {
      hide Inherited, PrevRows, NewRows, FreshBefore, Materialized;
      ghost var t := T();
      InheritsEach(PrevRows(t, path), canons);
      var prev := PreviousRows(path);
      var inherited := PairLineIds(prev, canons);
      var next := if path in counters then counters[path] else 1;
      var freshCount := CountFresh(inherited);
      counters := counters[path := next + freshCount];
      id := nextSnapshot;
      snapshots := snapshots[id := Snapshot(path, key, |canons|, now)];
      nextSnapshot := nextSnapshot + 1;
      InsertRows(id, inherited, next, canons, hashes);
      MaterializedIs(t, c, now);
    }

    /** The lineage of a new snapshot, line by line: inherited identities, and fresh ones counted up. */
    method InsertRows(id: nat, inherited: seq<Option<nat>>, first: nat, canons: seq<Digest>, hashes: seq<string>)
      requires |inherited| == |canons| == |hashes|
      modifies this`lineage
      ensures lineage == old(lineage)[id := NewRows(inherited, first, canons, hashes)]
    {
      var next := first;
      lineage := lineage[id := []];
      for index := 0 to |canons|
        invariant id in lineage && lineage == old(lineage)[id := lineage[id]] && |lineage[id]| == index
        invariant next == first + FreshBefore(inherited, index)
        invariant forall k | 0 <= k < index ::
                  lineage[id][k] == Row(k + 1, LineIdAt(inherited, first, k), canons[k], hashes[k])
      {
        var lineId;
        if inherited[index].Some? {
          lineId := inherited[index].value;
        } else {
          lineId := next;
          next := next + 1;
        }
        lineage := lineage[id := lineage[id] + [Row(index + 1, lineId, canons[index], hashes[index])]];
      }
      assert lineage[id] == NewRows(inherited, first, canons, hashes);
    }

    /** Leases for the served rows, one after another; the first line of an anchor and the last serve of it count. */
    method GrantLeases(id: nat, key: nat, path: string, grants: Grants, now: int)
      modifies this`leases
      ensures leases == Granted(old(leases), LineageAt(T(), id), path, key, grants, now, |grants.rows|)
    {
      var records := if id in lineage then lineage[id] else [];
      var byAnchor := IndexByAnchor(records);
      for n := 0 to |grants.rows|
        invariant leases == Granted(old(leases), records, path, key, grants, now, n)
      {
        var row := grants.rows[n];
        if row.hash.Some? && row.hash.value in byAnchor {
          var hit := byAnchor[row.hash.value];
          leases := leases[LeaseKey(grants.session, path, row.hash.value) :=
                             LeaseRow(hit.lineId, hit.canonHash, key, row.position + 1, now, None)];
        }
      }
    }

    method RetireAbsentLeases(id: nat, path: string, now: int)
      modifies this`leases
      ensures leases == AbsentRetired(old(leases), path, IdsOf(LineageAt(T(), id)), now)
    {
      var ids := IdsOf(if id in lineage then lineage[id] else []);
      leases := map k | k in leases :: RetiredIfAbsent(k, leases[k], path, ids, now);
    }

    /**
     One transaction: adopt, repair or insert the snapshot of the content, grant its leases, retire absent lines'
     leases.
     */
    method CommitSnapshot(
      h: Hashing, path: string, content: string, hashes: seq<string>, grants: Option<Grants>, now: int)
      returns (thrown: bool)
      requires Valid()
      modifies this
      ensures Valid()
      ensures thrown <==> |hashes| != |SplitLines(content)|
      ensures thrown ==> T() == old(T()) && bindings == old(bindings)
      ensures !thrown ==> T() == Committed(old(T()), CommitOf(h, path, content, hashes, grants), now)
      ensures !thrown ==>
                bindings == CommitBindings(old(T()), old(bindings), CommitOf(h, path, content, hashes, grants))
    {
      hide Faithful, Consistent, Find, Materialized, Granted, AbsentRetired, Refreshed, CommitBindings, Usable;
      var lines := SplitLines(content);
      if |hashes| != |lines| { return true; }
      ghost var c := CommitOf(h, path, content, hashes, grants);
      ghost var b := bindings;
      ghost var t := T();
      var key, canons := h.keyOf(content), h.Canons(content);
      CommitKeeps(t, b, c, now);
      var id := ResolveSnapshot(path, key, canons, hashes, now, c);
      if grants.Some? { GrantLeases(id, key, path, grants.value, now); }
      RetireAbsentLeases(id, path, now);
      bindings := CommitBindings(t, b, c);
      thrown := false;
    }

    /** The snapshot row to serve: the stored one if its family is usable, else a new one in its place. */
    method ResolveSnapshot(path: string, key: nat, canons: seq<Digest>, hashes: seq<string>, now: int, ghost c: Commit)
      returns (id: nat)
      requires Valid() && |canons| == |hashes| && c.path == path && c.key == key && c.canons == canons
      requires c.hashes == hashes
      modifies this`snapshots, this`nextSnapshot, this`lineage, this`counters
      ensures T() == Resolve(old(T()), c, now).tables && id == Resolve(old(T()), c, now).id
    {
      hide Faithful, Consistent, Find, Materialized, Usable, Resolve, Refreshed;
      FindIs(T(), path, key);
      KeysAgree(T());
      ResolveCases(T(), c, now);
      var existing := GetSnapshot(path, key);
      if existing.Some? {
        var stored := lineage[existing.value];
        var unusable := DiagnoseUnusableLineage(stored, |canons|, canons);
        if !unusable {
          UsableCount(stored, canons);
          RefreshAnchors(existing.value, hashes);
          return existing.value;
        }
        lineage := lineage - {existing.value};
        snapshots := snapshots - {existing.value};
      }
      id := InsertSnapshot(path, key, canons, hashes, now, c);
    }

    /** Takes the whole family of a path away; its identities count as never issued. */
    method DeleteByPath(path: string)
      requires Valid()
      modifies this
      ensures Valid() && T() == PathDeleted(old(T()), path) && bindings == PathUnbound(old(bindings), path)
    {
      hide Faithful, Consistent;
      DeleteKeeps(T(), bindings, path);
      var ids := set id | id in snapshots && snapshots[id].path == path;
      lineage := lineage - ids;
      snapshots := snapshots - ids;
      counters := counters - {path};
      leases := map k | k in leases && k.path != path :: leases[k];
      bindings := PathUnbound(bindings, path);
    }

    /**
     One vacuum over the listed versions. Nothing pinned or protected goes, identities already issued stay
     issued, and leases are not touched.
     */
    method VacuumSnapshots(rows: seq<VacuumRow>, undo: UndoTargets, protect: set<nat>, now: int)
      returns (result: VacuumResult, ghost gone: seq<bool>, ghost evicted: set<nat>)
      requires Valid() && Lists(T(), rows)
      modifies this`snapshots, this`lineage
      ensures Valid() && T() == Without(old(T()), evicted)
      ensures |gone| == |rows| && AllDecided(rows, PinnedIds(old(T()), undo, protect, now), gone, |rows|)
      ensures evicted == IdSet(GoneIds(rows, gone, |rows|))
      ensures forall id | id in evicted :: !Pinned(old(T()), undo, now, id) && id !in protect
      ensures result.totalBytes == TotalBytes(Kept(rows, gone, |rows|))
      ensures result.evicted == |GoneIds(rows, gone, |rows|)|
      ensures result.pinnedBytes == TotalBytes(PinnedRows(rows, PinnedIds(old(T()), undo, protect, now), |rows|))
      ensures result.deferredBytes == Over(result.totalBytes, VACUUM_GLOBAL_BUDGET_BYTES)
    {
      hide Faithful, Consistent, Pinned, AllDecided, GoneIds, Kept, TotalBytes, Lists;
      ghost var t := T();
      var pinned := PinnedIds(T(), undo, protect, now);
      var evict;
      evict, result, gone := Sweep(rows, pinned);
      assert forall k | 0 <= k < |evict| :: evict[k] in evict;
      evicted := IdSet(evict);
      for n := 0 to |evict|
        invariant snapshots == t.snapshots - IdSet(evict[..n]) && lineage == t.lineage - IdSet(evict[..n])
      {
        OneMoreGone(evict, n);
        lineage := lineage - {evict[n]};
        snapshots := snapshots - {evict[n]};
      }
      assert evict[..|evict|] == evict;
      WithoutKeeps(t, bindings, evicted);
      forall id | id in evicted ensures !Pinned(t, undo, now, id) && id !in protect {
        NotPinned(t, undo, protect, now, id);
      }
    }

    /** Where each identity lives in a buffer; nothing is written. */
    method PositionsOf(path: string, key: nat, canons: seq<Digest>) returns (positions: map<nat, nat>)
      requires Valid()
      ensures positions == PositionsByIdentity(T(), path, key, canons)
    {
      hide Faithful, Consistent, Find, Inherited, PrevRows;
      var current := GetSnapshot(path, key);
      positions := map[];
      if current.Some? {
        positions := CollectPositions(if current.value in lineage then lineage[current.value] else []);
        return;
      }
      var previous := PreviousRows(path);
      if |previous| == 0 { return; }
      var inherited := PairLineIds(previous, canons);
      InheritsEach(previous, canons);
      positions := CollectInherited(inherited);
    }
  }

  method CollectPositions(rows: seq<Row>) returns (positions: map<nat, nat>)
    ensures positions == RowPositions(rows, |rows|)
  {
    positions := map[];
    for n := 0 to |rows|
      invariant positions == RowPositions(rows, n)
    {
      positions := positions[rows[n].lineId := rows[n].lineNumber];
    }
  }

  method CollectInherited(inherited: seq<Option<nat>>) returns (positions: map<nat, nat>)
    ensures positions == InheritedPositions(inherited, |inherited|)
  {
    positions := map[];
    for n := 0 to |inherited|
      invariant positions == InheritedPositions(inherited, n)
    {
      if inherited[n].Some? {
        positions := positions[inherited[n].value := n + 1];
      }
    }
  }

  lemma {:induction false} OneMoreGone(ids: seq<nat>, n: nat)
    requires n < |ids|
    ensures IdSet(ids[..n + 1]) == IdSet(ids[..n]) + {ids[n]}
  {
    assert ids[..n + 1] == ids[..n] + [ids[n]];
    assert forall k | 0 <= k < n :: ids[..n][k] == ids[..n + 1][k];
    assert ids[..n + 1][n] == ids[n];
  }

  function CommitOf(h: Hashing, path: string, content: string, hashes: seq<string>, grants: Option<Grants>): Commit {
    Commit(path, h.keyOf(content), h.Canons(content), hashes, grants)
  }

  lemma {:induction false} InheritsEach(prev: seq<Row>, canons: seq<Digest>)
    ensures |Inherited(prev, canons)| == |canons|
  {
  }

  lemma {:induction false} ResolveCases(t: Tables, c: Commit, now: int)
    requires |c.canons| == |c.hashes|
    ensures Adopts(t, c) ==>
              var id := Find(t, c.path, c.key).value;
              && |LineageAt(t, id)| == |c.hashes|
              && Resolve(t, c, now)
                    == Resolved(t.(lineage := t.lineage[id := Refreshed(LineageAt(t, id), c.hashes)]), id)
    ensures !Adopts(t, c) ==> Resolve(t, c, now) == Resolved(Materialized(Cleared(t, c), c, now), t.nextSnapshot)
  {
    hide Find, Materialized;
  }

  lemma {:induction false} MaterializedIs(t: Tables, c: Commit, now: int)
    requires |c.canons| == |c.hashes|
    ensures
      Materialized(t, c, now)
      == MaterializedWith(t, c, now, Inherited(PrevRows(t, c.path), c.canons), CounterOf(t, c.path))
  {
    hide Inherited, PrevRows, MaterializedWith;
  }

  lemma {:induction false} NotPinned(t: Tables, undo: UndoTargets, protect: set<nat>, now: int, id: nat)
    requires id !in PinnedIds(t, undo, protect, now)
    ensures !Pinned(t, undo, now, id) && id !in protect
  {
  }

  method CountFresh(inherited: seq<Option<nat>>) returns (n: nat)
    ensures n == FreshBefore(inherited, |inherited|)
  {
    n := 0;
    for i := 0 to |inherited|
      invariant n == FreshBefore(inherited, i)
    {
      if inherited[i].None? { n := n + 1; }
    }
  }

  /** The first record of every anchor. */
  method IndexByAnchor(records: seq<Row>) returns (byAnchor: map<string, Row>)
    ensures forall anchor :: HitOf(records, anchor) == if anchor in byAnchor then Some(byAnchor[anchor]) else None
  {
    byAnchor := map[];
    for i := 0 to |records|
      invariant forall anchor ::
                HitOf(records[..i], anchor) == if anchor in byAnchor then Some(byAnchor[anchor]) else None
    {
      forall anchor
        ensures HitOf(records[..i + 1], anchor)
                == if HitOf(records[..i], anchor).Some? then HitOf(records[..i], anchor)
                   else if records[i].anchor == anchor then Some(records[i]) else None
      {
        HitNext(records, i, anchor);
      }
      if records[i].anchor !in byAnchor {
        byAnchor := byAnchor[records[i].anchor := records[i]];
      }
    }
    assert records[..|records|] == records;
  }

  lemma {:induction false} HitNext(records: seq<Row>, i: nat, anchor: string)
    requires i < |records|
    ensures HitOf(records[..i + 1], anchor)
            == if HitOf(records[..i], anchor).Some? then HitOf(records[..i], anchor)
               else if records[i].anchor == anchor then Some(records[i]) else None
    decreases |records|
  {
    if i > 0 {
      HitNext(records[1..], i - 1, anchor);
      assert records[..i + 1][1..] == records[1..][..i] && records[..i][1..] == records[1..][..i - 1];
    } else {
      assert records[..1] == [records[0]] && records[..0] == [];
    }
  }
}
