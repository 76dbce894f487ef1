/** Identities over whole runs: each is bound to one digest for good, and none is issued twice. */
module LineageIdentity {
  import opened Options
  import opened Digests
  import opened Pairing
  import opened LineageTables

  /** An inherited identity comes from a previous line with the same digest, found at a place of its own. */
  lemma {:induction false} InheritedFrom(prev: seq<Row>, canons: seq<Digest>, i: nat) returns (p: nat)
    requires i < |canons| && InheritedAt(prev, canons, i).Some?
    ensures 1 <= p <= |prev| && p in Pairs(prev, canons) && Pairs(prev, canons)[p] == i + 1
    ensures prev[p - 1].lineId == InheritedAt(prev, canons, i).value && prev[p - 1].canonHash == canons[i]
  {
    hide Paired;
    var pairs := Pairs(prev, canons);
    p :| p in pairs && pairs[p] == i + 1 && 1 <= p <= |prev|
        && InheritedAt(prev, canons, i) == Some(prev[p - 1].lineId);
    assert DigestAt(CanonsOf(prev), p) == DigestAt(canons, i + 1);
  }

  lemma {:induction false} FreshGrows(inherited: seq<Option<nat>>, i: nat, j: nat)
    requires i < j <= |inherited|
    ensures FreshBefore(inherited, i) + (if inherited[i].None? then 1 else 0) <= FreshBefore(inherited, j)
    decreases j
  {
    if i + 1 < j {
      FreshGrows(inherited, i, j - 1);
    }
  }

  /** The rows of a new snapshot are numbered through and carry pairwise different identities. */
  lemma {:induction false} NewRowsWellNumbered(prev: seq<Row>, canons: seq<Digest>, hashes: seq<string>, next: nat)
    requires |canons| == |hashes| && WellNumbered(prev) && forall k | 0 <= k < |prev| :: prev[k].lineId < next
    ensures WellNumbered(NewRows(Inherited(prev, canons), next, canons, hashes))
  {
    hide Pairs, InheritedAt;
    var inherited := Inherited(prev, canons);
    var rows := NewRows(inherited, next, canons, hashes);
    forall j: nat, k: nat | j < k < |rows| ensures rows[j].lineId != rows[k].lineId {
      FreshGrows(inherited, j, k);
      if inherited[j].Some? {
        var p := InheritedFrom(prev, canons, j);
        if inherited[k].Some? {
          var q := InheritedFrom(prev, canons, k);
          assert p != q;
          assert prev[p - 1].lineId != prev[q - 1].lineId by { if p < q {} else {} }
        }
      } else if inherited[k].Some? {
        var q := InheritedFrom(prev, canons, k);
      }
    }
  }

  // ---- the identities a commit issues ----

  /** The bindings after the fresh lines among the first n were given their identities. */
  function Issued(
    b: Bindings, path: string, inherited: seq<Option<nat>>, next: nat, canons: seq<Digest>, n: nat): Bindings
    requires n <= |inherited| == |canons|
  {
    if n == 0 then b
    else
      var before := Issued(b, path, inherited, next, canons, n - 1);
      if inherited[n - 1].Some? then before
      else before[LineKey(path, next + FreshBefore(inherited, n - 1)) := canons[n - 1]]
  }

  /** Nothing bound before changes, and only identities from the counter on are new. */
  ghost predicate Grows(b: Bindings, after: Bindings, path: string, next: nat, upto: nat) {
    && (forall k | k in b :: k in after && after[k] == b[k])
    && (forall k | k in after && k !in b :: k.path == path && next <= k.id < upto)
  }

  ghost predicate Below(b: Bindings, path: string, next: nat) {
    forall k | k in b && k.path == path :: k.id < next
  }

  lemma {:induction false} IssuedGrows(
    b: Bindings, path: string, inherited: seq<Option<nat>>, next: nat, canons: seq<Digest>, n: nat)
    requires n <= |inherited| == |canons| && Below(b, path, next)
    ensures Grows(b, Issued(b, path, inherited, next, canons, n), path, next, next + FreshBefore(inherited, n))
    ensures forall i | 0 <= i < n && inherited[i].None? ::
              BoundTo(Issued(b, path, inherited, next, canons, n), path, LineIdAt(inherited, next, i), canons[i])
    decreases n
  {
    if n > 0 {
      IssuedGrows(b, path, inherited, next, canons, n - 1);
      forall i: nat | i < n - 1 && inherited[i].None?
        ensures LineIdAt(inherited, next, i) < next + FreshBefore(inherited, n - 1)
      {
        FreshGrows(inherited, i, n - 1);
      }
    }
  }

  /** The rows of a new snapshot are bound by the old bindings and the newly issued ones. */
  lemma {:induction false} NewRowsBound(
    prev: seq<Row>, path: string, b: Bindings, canons: seq<Digest>, hashes: seq<string>, next: nat)
    requires |canons| == |hashes| && RowsBound(prev, path, b) && Below(b, path, next)
    ensures
      var inherited := Inherited(prev, canons);
      RowsBound(NewRows(inherited, next, canons, hashes), path, Issued(b, path, inherited, next, canons, |canons|))
  {
    hide Pairs, InheritedAt;
    var inherited := Inherited(prev, canons);
    var rows := NewRows(inherited, next, canons, hashes);
    var after := Issued(b, path, inherited, next, canons, |canons|);
    IssuedGrows(b, path, inherited, next, canons, |canons|);
    forall i: nat | i < |rows| ensures BoundTo(after, path, rows[i].lineId, rows[i].canonHash) {
      if inherited[i].Some? {
        var p := InheritedFrom(prev, canons, i);
        assert BoundTo(b, path, prev[p - 1].lineId, prev[p - 1].canonHash);
      }
    }
  }

  lemma {:induction false} NoRows(b: Bindings)
    ensures WellNumbered([]) && forall path :: RowsBound([], path, b)
  {
  }

  lemma {:induction false} KeysAgree(t: Tables)
    ensures Consistent(t) ==> t.lineage.Keys == t.snapshots.Keys
  {
  }

  lemma {:induction false} UsableCount(rows: seq<Row>, canons: seq<Digest>)
    requires Usable(rows, canons)
    ensures |rows| == |canons|
  {
  }

  /** A bound identity was issued: it is below the counter of its path. */
  lemma {:induction false} BoundBelow(t: Tables, b: Bindings, path: string, id: nat, canon: Digest)
    requires Inv(t, b) && BoundTo(b, path, id, canon)
    ensures 1 <= id < CounterOf(t, path)
  {
    hide Consistent, RowsBound;
    assert LineKey(path, id) in b;
  }

  /** An identity is bound to one digest only. */
  lemma {:induction false} OneDigest(b: Bindings, path: string, id: nat, canon: Digest)
    requires BoundTo(b, path, id, canon)
    ensures forall other: Digest | BoundTo(b, path, id, other) :: other == canon
  {
  }

  lemma {:induction false} PrevRowsGood(t: Tables, b: Bindings, path: string)
    requires Inv(t, b)
    ensures WellNumbered(PrevRows(t, path)) && RowsBound(PrevRows(t, path), path, b)
    ensures Below(b, path, CounterOf(t, path))
    ensures forall k | 0 <= k < |PrevRows(t, path)| :: PrevRows(t, path)[k].lineId < CounterOf(t, path)
  {
    hide WellNumbered, RowsBound;
    if LatestOf(t, path).Some? {
      assert IsLatest(t, path, LatestOf(t, path).value);
    } else {
      NoRows(b);
    }
    RowsBelow(PrevRows(t, path), path, b, CounterOf(t, path));
  }

  lemma {:induction false} RowsBelow(rows: seq<Row>, path: string, b: Bindings, next: nat)
    requires RowsBound(rows, path, b) && Below(b, path, next)
    ensures forall k | 0 <= k < |rows| :: rows[k].lineId < next
  {
    forall k | 0 <= k < |rows| ensures rows[k].lineId < next {
      assert BoundTo(b, path, rows[k].lineId, rows[k].canonHash);
      assert LineKey(path, rows[k].lineId) in b;
    }
  }

  // ---- every operation keeps the invariant ----

  /** The bindings after a commit that materializes a snapshot. */
  ghost function BindingsAfter(t: Tables, b: Bindings, c: Commit): Bindings {
    var inherited := Inherited(PrevRows(t, c.path), c.canons);
    Issued(b, c.path, inherited, CounterOf(t, c.path), c.canons, |c.canons|)
  }

  /** No two snapshots of a path share a content key; this one is about to be added. */
  ghost predicate KeyFree(t: Tables, path: string, key: nat) {
    forall id: nat :: !Is(t, path, key, id)
  }

  lemma {:induction false} MaterializedConsistent(t: Tables, b: Bindings, c: Commit, now: int)
    requires Inv(t, b) && |c.canons| == |c.hashes| && KeyFree(t, c.path, c.key)
    ensures Consistent(Materialized(t, c, now))
  {
    hide Pairs, InheritedAt, Faithful, Inherited, PrevRows, WellNumbered, Issued;
    PrevRowsGood(t, b, c.path);
    NewRowsWellNumbered(PrevRows(t, c.path), c.canons, c.hashes, CounterOf(t, c.path));
    forall id | id in t.snapshots ensures t.snapshots[id].path != c.path || t.snapshots[id].key != c.key {
      assert !Is(t, c.path, c.key, id);
    }
  }

  /** Growing bindings keep rows and leases bound. */
  lemma {:induction false} StillBound(t: Tables, b: Bindings, after: Bindings, path: string, next: nat, upto: nat)
    requires Faithful(t, b) && Grows(b, after, path, next, upto)
    ensures forall id | id in t.lineage && id in t.snapshots :: RowsBound(t.lineage[id], t.snapshots[id].path, after)
    ensures forall k | k in t.leases :: BoundTo(after, k.path, t.leases[k].lineId, t.leases[k].canonHash)
  {
    forall id | id in t.lineage && id in t.snapshots ensures RowsBound(t.lineage[id], t.snapshots[id].path, after) {
      RowsStillBound(t.lineage[id], t.snapshots[id].path, b, after);
    }
    forall k | k in t.leases ensures BoundTo(after, k.path, t.leases[k].lineId, t.leases[k].canonHash) {
      assert BoundTo(b, k.path, t.leases[k].lineId, t.leases[k].canonHash);
    }
  }

  lemma {:induction false} RowsStillBound(rows: seq<Row>, path: string, b: Bindings, after: Bindings)
    requires RowsBound(rows, path, b) && forall k | k in b :: k in after && after[k] == b[k]
    ensures RowsBound(rows, path, after)
  {
    forall k | 0 <= k < |rows| ensures BoundTo(after, path, rows[k].lineId, rows[k].canonHash) {
      assert BoundTo(b, path, rows[k].lineId, rows[k].canonHash);
    }
  }

  lemma {:induction false} MaterializedFaithful(t: Tables, b: Bindings, c: Commit, now: int)
    requires Inv(t, b) && |c.canons| == |c.hashes|
    ensures Faithful(Materialized(t, c, now), BindingsAfter(t, b, c))
    ensures Grows(b, BindingsAfter(t, b, c), c.path, CounterOf(t, c.path), CounterOf(Materialized(t, c, now), c.path))
  {
    hide Pairs, InheritedAt, Inherited, PrevRows, RowsBound, Issued, NewRows, WellNumbered, BoundTo;
    PrevRowsGood(t, b, c.path);
    var prev, next := PrevRows(t, c.path), CounterOf(t, c.path);
    var inherited, after := Inherited(prev, c.canons), BindingsAfter(t, b, c);
    IssuedGrows(b, c.path, inherited, next, c.canons, |c.canons|);
    NewRowsBound(prev, c.path, b, c.canons, c.hashes, next);
    StillBound(t, b, after, c.path, next, next + FreshBefore(inherited, |c.canons|));
    CounterNeverZero(t, b, c.path);
  }

  /** Identities are numbered from one. */
  lemma {:induction false} CounterNeverZero(t: Tables, b: Bindings, path: string)
    requires Inv(t, b)
    ensures CounterOf(t, path) >= 1
  {
  }

  lemma {:induction false} WithoutKeeps(t: Tables, b: Bindings, ids: set<nat>)
    requires Inv(t, b)
    ensures Inv(Without(t, ids), b)
    ensures
      var u := Without(t, ids);
      && (forall id :: id in u.snapshots <==> id in t.snapshots && id !in ids)
      && (forall id | id in u.snapshots ::
            u.snapshots[id] == t.snapshots[id] && id in u.lineage && u.lineage[id] == t.lineage[id])
      && u.nextSnapshot == t.nextSnapshot && u.counters == t.counters && u.leases == t.leases
  {
    hide WellNumbered, RowsBound;
  }

  lemma {:induction false} RefreshedKeeps(t: Tables, b: Bindings, id: nat, hashes: seq<string>)
    requires Inv(t, b) && id in t.snapshots && |LineageAt(t, id)| == |hashes|
    ensures Inv(t.(lineage := t.lineage[id := Refreshed(LineageAt(t, id), hashes)]), b)
  {
    hide BoundTo;
    var rows, after := LineageAt(t, id), Refreshed(LineageAt(t, id), hashes);
    assert WellNumbered(after) by {
      forall j, k | 0 <= j < k < |after| ensures after[j].lineId != after[k].lineId {
        assert rows[j].lineId != rows[k].lineId;
      }
    }
    assert RowsBound(after, t.snapshots[id].path, b) by {
      forall k | 0 <= k < |after| ensures BoundTo(b, t.snapshots[id].path, after[k].lineId, after[k].canonHash) {
        assert BoundTo(b, t.snapshots[id].path, rows[k].lineId, rows[k].canonHash);
      }
    }
  }

  lemma {:induction false} FindIs(t: Tables, path: string, key: nat)
    ensures Find(t, path, key).Some? ==> Is(t, path, key, Find(t, path, key).value)
    ensures Find(t, path, key).None? ==> KeyFree(t, path, key)
    ensures Consistent(t) ==> forall id: nat | Is(t, path, key, id) :: Find(t, path, key) == Some(id)
  {
    if Find(t, path, key).None? {
      forall id: nat ensures !Is(t, path, key, id) {
      }
    }
  }

  /** Tables and bindings before a commit that discards the unusable snapshot it found. */
  ghost function Cleared(t: Tables, c: Commit): Tables {
    if Find(t, c.path, c.key).Some? then Without(t, {Find(t, c.path, c.key).value}) else t
  }

  ghost predicate Adopts(t: Tables, c: Commit) {
    Find(t, c.path, c.key).Some? && Usable(LineageAt(t, Find(t, c.path, c.key).value), c.canons)
  }

  lemma {:induction false} ClearedKeeps(t: Tables, b: Bindings, c: Commit)
    requires Inv(t, b)
    ensures Inv(Cleared(t, c), b) && KeyFree(Cleared(t, c), c.path, c.key)
    ensures Cleared(t, c).counters == t.counters && Cleared(t, c).leases == t.leases
    ensures Cleared(t, c).nextSnapshot == t.nextSnapshot
  {
    hide WellNumbered, RowsBound;
    FindIs(t, c.path, c.key);
    if Find(t, c.path, c.key).Some? {
      WithoutKeeps(t, b, {Find(t, c.path, c.key).value});
    }
  }

  /** The bindings after any commit: unchanged on adoption, grown by the fresh identities otherwise. */
  ghost function CommitBindings(t: Tables, b: Bindings, c: Commit): Bindings {
    if Adopts(t, c) then b else BindingsAfter(Cleared(t, c), b, c)
  }

  lemma {:induction false} ResolveKeeps(t: Tables, b: Bindings, c: Commit, now: int)
    requires Inv(t, b) && |c.canons| == |c.hashes|
    ensures
      var r := Resolve(t, c, now);
      && Inv(r.tables, CommitBindings(t, b, c)) && Is(r.tables, c.path, c.key, r.id)
      && r.tables.leases == t.leases
      && Grows(b, CommitBindings(t, b, c), c.path, CounterOf(t, c.path), CounterOf(r.tables, c.path))
  {
    hide WellNumbered, RowsBound, Faithful, Consistent, Find, Usable, Inherited, BoundTo, Issued, PrevRows;
    FindIs(t, c.path, c.key);
    KeysAgree(t);
    if Adopts(t, c) {
      var id := Find(t, c.path, c.key).value;
      UsableCount(LineageAt(t, id), c.canons);
      RefreshedKeeps(t, b, id, c.hashes);
    } else {
      ClearedKeeps(t, b, c);
      MaterializedConsistent(Cleared(t, c), b, c, now);
      MaterializedFaithful(Cleared(t, c), b, c, now);
    }
  }

  // ---- leases ----

  function AnchorsOf(rows: seq<Row>): seq<string> {
    seq(|rows|, k requires 0 <= k < |rows| => rows[k].anchor)
  }

  lemma {:induction false} HitIsRow(rows: seq<Row>, anchor: string)
    ensures HitOf(rows, anchor).Some? ==>
              HitOf(rows, anchor).value in rows && HitOf(rows, anchor).value.anchor == anchor
    ensures HitOf(rows, anchor).None? ==> forall k | 0 <= k < |rows| :: rows[k].anchor != anchor
    ensures forall k | 0 <= k < |rows| && rows[k].anchor == anchor && anchor !in AnchorsOf(rows[..k]) ::
              HitOf(rows, anchor) == Some(rows[k])
    decreases |rows|
  {
    if rows != [] {
      HitIsRow(rows[1..], anchor);
      forall k | 0 <= k < |rows| && rows[k].anchor == anchor && anchor !in AnchorsOf(rows[..k])
        ensures HitOf(rows, anchor) == Some(rows[k])
      {
        if k > 0 {
          assert rows[..k][0] == rows[0] && rows[1..][..k - 1] == rows[..k][1..];
          assert AnchorsOf(rows[..k]) == [rows[0].anchor] + AnchorsOf(rows[..k][1..]);
        }
      }
    }
  }

  /** A lease that a grant wrote: for an anchor of the snapshot, at this time, live. */
  ghost predicate IsGrant(
    lease: LeaseRow, k: LeaseKey, rows: seq<Row>, path: string, key: nat, grants: Grants, now: int)
  {
    && k.path == path && k.session == grants.session
    && (exists i ::
          0 <= i < |grants.rows| && grants.rows[i].hash == Some(k.anchor)
              && lease.servedLine == grants.rows[i].position + 1)
    && (exists row ::
          row in rows && row.anchor == k.anchor && lease.lineId == row.lineId && lease.canonHash == row.canonHash)
    && lease.key == key && lease.updatedAt == now && lease.retiredAt.None?
  }

  /** Every lease after the grants is an old one or was granted just now. */
  lemma {:induction false} GrantedOrOld(
    leases: map<LeaseKey, LeaseRow>, rows: seq<Row>, path: string, key: nat, grants: Grants, now: int, n: nat)
    requires n <= |grants.rows|
    ensures
      var after := Granted(leases, rows, path, key, grants, now, n);
      forall k | k in after ::
            (k in leases && after[k] == leases[k]) || IsGrant(after[k], k, rows, path, key, grants, now)
    decreases n
  {
    if n > 0 {
      GrantedOrOld(leases, rows, path, key, grants, now, n - 1);
      var row := grants.rows[n - 1];
      if row.hash.Some? {
        HitIsRow(rows, row.hash.value);
      }
    }
  }

  /** Every anchor among the served rows that the snapshot knows is leased, for the last serve of it. */
  lemma {:induction false} ServedIsLeased(
    leases: map<LeaseKey, LeaseRow>, rows: seq<Row>, path: string, key: nat, grants: Grants, now: int, n: nat, i: nat)
    requires i < n <= |grants.rows| && grants.rows[i].hash.Some? && HitOf(rows, grants.rows[i].hash.value).Some?
    requires forall j | i < j < n :: grants.rows[j].hash != grants.rows[i].hash
    ensures
      var k := LeaseKey(grants.session, path, grants.rows[i].hash.value);
      var hit := HitOf(rows, grants.rows[i].hash.value).value;
      && k in Granted(leases, rows, path, key, grants, now, n)
      && Granted(leases, rows, path, key, grants, now, n)[k]
         == LeaseRow(hit.lineId, hit.canonHash, key, grants.rows[i].position + 1, now, None)
    decreases n
  {
    if i < n - 1 {
      ServedIsLeased(leases, rows, path, key, grants, now, n - 1, i);
    }
  }

  /** What a commit may do to a lease. */
  ghost predicate LeaseStep(
    k: LeaseKey, before: map<LeaseKey, LeaseRow>, after: map<LeaseKey, LeaseRow>, rows: seq<Row>, c: Commit, now: int)
    requires k in after
  {
    var granted := c.grants.Some? && IsGrant(after[k].(retiredAt := None), k, rows, c.path, c.key, c.grants.value, now);
    || (granted && after[k].retiredAt.None?)
    || (k in before && after[k] == before[k])
    || (k in before && k.path == c.path && before[k].retiredAt.None? && after[k] == before[k].(retiredAt := Some(now))
        && before[k].lineId !in IdsOf(rows))
  }

  lemma {:induction false} LeaseSteps(leases: map<LeaseKey, LeaseRow>, rows: seq<Row>, c: Commit, now: int)
    ensures forall k | k in LeasesAfter(leases, rows, c, now) ::
              LeaseStep(k, leases, LeasesAfter(leases, rows, c, now), rows, c, now)
    ensures forall k | k in LeasesAfter(leases, rows, c, now) && k.path == c.path
                       && LeasesAfter(leases, rows, c, now)[k].retiredAt.None? ::
              LeasesAfter(leases, rows, c, now)[k].lineId in IdsOf(rows)
  {
    hide Granted;
    var after := LeasesAfter(leases, rows, c, now);
    if c.grants.Some? {
      GrantedOrOld(leases, rows, c.path, c.key, c.grants.value, now, |c.grants.value.rows|);
    }
    forall k | k in after ensures LeaseStep(k, leases, after, rows, c, now) {
      if c.grants.Some? {
        GrantSurvives(k, leases, rows, c, now);
      }
    }
  }

  /** A lease granted by this commit is for a line of the snapshot, so it is not retired by it. */
  lemma {:induction false} GrantSurvives(
    k: LeaseKey, leases: map<LeaseKey, LeaseRow>, rows: seq<Row>, c: Commit, now: int)
    requires c.grants.Some?
    ensures
      var granted := Granted(leases, rows, c.path, c.key, c.grants.value, now, |c.grants.value.rows|);
      k in granted && IsGrant(granted[k], k, rows, c.path, c.key, c.grants.value, now) ==>
            granted[k].lineId in IdsOf(rows)
  {
    hide Granted;
  }

  lemma {:induction false} LeasesStayBound(
    leases: map<LeaseKey, LeaseRow>, rows: seq<Row>, c: Commit, now: int, b: Bindings)
    requires RowsBound(rows, c.path, b)
    requires forall k | k in leases :: BoundTo(b, k.path, leases[k].lineId, leases[k].canonHash)
    ensures
      var after := LeasesAfter(leases, rows, c, now);
      forall k | k in after :: BoundTo(b, k.path, after[k].lineId, after[k].canonHash)
  {
    hide LeasesAfter, BoundTo;
    var after := LeasesAfter(leases, rows, c, now);
    LeaseSteps(leases, rows, c, now);
    forall k | k in after ensures BoundTo(b, k.path, after[k].lineId, after[k].canonHash) {
      assert LeaseStep(k, leases, after, rows, c, now);
    }
  }

  /** A commit keeps the invariant; it binds only identities that the counter had not reached. */
  lemma {:induction false} CommitKeeps(t: Tables, b: Bindings, c: Commit, now: int)
    requires Inv(t, b) && |c.canons| == |c.hashes|
    ensures Inv(Committed(t, c, now), CommitBindings(t, b, c))
    ensures Grows(b, CommitBindings(t, b, c), c.path, CounterOf(t, c.path), CounterOf(Committed(t, c, now), c.path))
  {
    hide WellNumbered, RowsBound, Resolve, LeasesAfter, CommitBindings, BoundTo;
    var r, after := Resolve(t, c, now), CommitBindings(t, b, c);
    ResolveKeeps(t, b, c, now);
    assert RowsBound(LineageAt(r.tables, r.id), c.path, after);
    LeasesStayBound(t.leases, LineageAt(r.tables, r.id), c, now, after);
  }

  // ---- runs ----

  /** A committed operation on the tables. `Evict` is a vacuum, `Lose` the loss of a snapshot's lineage. */
  datatype Op = DoCommit(c: Commit, now: int) | Evict(ids: set<nat>) | Lose(id: nat) | Delete(path: string)

  ghost predicate Allowed(op: Op) {
    op.DoCommit? ==> |op.c.canons| == |op.c.hashes|
  }

  ghost function Step(t: Tables, op: Op): Tables
    requires Allowed(op)
  {
    match op
    case DoCommit(c, now) => Committed(t, c, now)
    case Evict(ids) => Without(t, ids)
    case Lose(id) => if id in t.lineage then t.(lineage := t.lineage[id := []]) else t
    case Delete(path) => PathDeleted(t, path)
  }

  ghost predicate AllAllowed(ops: seq<Op>) {
    forall i | 0 <= i < |ops| :: Allowed(ops[i])
  }

  /** The tables after these operations. */
  ghost function Run(t: Tables, ops: seq<Op>): Tables
    requires AllAllowed(ops)
  {
    if ops == [] then t else Step(Run(t, ops[..|ops| - 1]), ops[|ops| - 1])
  }

  function PathUnbound(b: Bindings, path: string): Bindings {
    map k | k in b && k.path != path :: b[k]
  }

  ghost function StepBindings(t: Tables, b: Bindings, op: Op): Bindings {
    match op
    case DoCommit(c, now) => CommitBindings(t, b, c)
    case Delete(path) => PathUnbound(b, path)
    case _ => b
  }

  lemma {:induction false} RowsOfOthers(rows: seq<Row>, own: string, b: Bindings, path: string)
    requires RowsBound(rows, own, b) && own != path
    ensures RowsBound(rows, own, PathUnbound(b, path))
  {
    forall k | 0 <= k < |rows| ensures BoundTo(PathUnbound(b, path), own, rows[k].lineId, rows[k].canonHash) {
      assert BoundTo(b, own, rows[k].lineId, rows[k].canonHash);
    }
  }

  lemma {:induction false} DeleteKeeps(t: Tables, b: Bindings, path: string)
    requires Inv(t, b)
    ensures Inv(PathDeleted(t, path), PathUnbound(b, path))
    ensures
      var u := PathDeleted(t, path);
      && (forall id :: id in u.snapshots <==> id in t.snapshots && t.snapshots[id].path != path)
      && (forall id | id in u.snapshots ::
            u.snapshots[id] == t.snapshots[id] && id in u.lineage && u.lineage[id] == t.lineage[id])
      && (forall k :: k in u.leases <==> k in t.leases && k.path != path)
      && (forall k | k in u.leases :: u.leases[k] == t.leases[k])
      && CounterOf(u, path) == 1 && (forall p | p != path :: CounterOf(u, p) == CounterOf(t, p))
      && u.nextSnapshot == t.nextSnapshot
  {
    hide WellNumbered, RowsBound;
    var after, u := PathUnbound(b, path), PathDeleted(t, path);
    forall id | id in u.lineage && id in u.snapshots ensures RowsBound(u.lineage[id], u.snapshots[id].path, after) {
      RowsOfOthers(t.lineage[id], t.snapshots[id].path, b, path);
    }
    forall k | k in u.leases ensures BoundTo(after, k.path, u.leases[k].lineId, u.leases[k].canonHash) {
      assert BoundTo(b, k.path, t.leases[k].lineId, t.leases[k].canonHash);
    }
  }

  /** What a path's bindings and counter may do in a step that does not delete the path: grow, the counter first. */
  ghost predicate PathGrows(t: Tables, b: Bindings, u: Tables, after: Bindings, path: string) {
    && CounterOf(t, path) <= CounterOf(u, path)
    && (forall id: nat, canon: Digest | BoundTo(b, path, id, canon) :: BoundTo(after, path, id, canon))
    && (forall id: nat, canon: Digest | BoundTo(after, path, id, canon) && !BoundTo(b, path, id, canon) ::
          id >= CounterOf(t, path))
  }

  lemma {:induction false} StepKeeps(t: Tables, b: Bindings, op: Op, path: string)
    requires Inv(t, b) && Allowed(op)
    ensures Inv(Step(t, op), StepBindings(t, b, op))
    ensures op != Delete(path) ==> PathGrows(t, b, Step(t, op), StepBindings(t, b, op), path)
  {
    hide Committed, CommitBindings, Inv, PathGrows, Without, PathDeleted, PathUnbound;
    match op
    case DoCommit(c, now) =>
      CommitKeeps(t, b, c, now);
      CounterGrows(t, c, now, path);
      CommitPathGrows(t, b, Committed(t, c, now), CommitBindings(t, b, c), c.path, path);
    case Evict(ids) =>
      WithoutKeeps(t, b, ids);
      WithoutCounters(t, ids);
      SamePathGrows(t, b, Without(t, ids), path);
    case Lose(id) =>
      LoseKeeps(t, b, id);
      SamePathGrows(t, b, Step(t, op), path);
    case Delete(p) =>
      DeleteKeeps(t, b, p);
      DeletePathGrows(t, b, p, path);
  }

  lemma {:induction false} LoseKeeps(t: Tables, b: Bindings, id: nat)
    requires Inv(t, b)
    ensures Inv(Step(t, Lose(id)), b)
  {
    hide WellNumbered, RowsBound, BoundTo, Committed, Without, PathDeleted;
    NoRows(b);
  }

  lemma {:induction false} WithoutCounters(t: Tables, ids: set<nat>)
    ensures Without(t, ids).counters == t.counters
  {
  }

  lemma {:induction false} SamePathGrows(t: Tables, b: Bindings, u: Tables, path: string)
    requires u.counters == t.counters
    ensures PathGrows(t, b, u, b, path)
  {
  }

  lemma {:induction false} CommitPathGrows(
    t: Tables, b: Bindings, u: Tables, after: Bindings, own: string, path: string)
    requires Grows(b, after, own, CounterOf(t, own), CounterOf(u, own))
    requires CounterOf(t, path) <= CounterOf(u, path)
    ensures PathGrows(t, b, u, after, path)
  {
  }

  lemma {:induction false} DeletePathGrows(t: Tables, b: Bindings, p: string, path: string)
    ensures p != path ==> PathGrows(t, b, PathDeleted(t, p), PathUnbound(b, p), path)
  {
  }

  lemma {:induction false} CounterGrows(t: Tables, c: Commit, now: int, path: string)
    requires |c.canons| == |c.hashes|
    ensures CounterOf(t, path) <= CounterOf(Committed(t, c, now), path)
    ensures path != c.path ==> CounterOf(t, path) == CounterOf(Committed(t, c, now), path)
  {
    hide Inherited, Find, Usable, LeasesAfter, NewRows, PrevRows;
  }

  /** The identities of the whole run so far. */
  ghost function RunBindings(t: Tables, b: Bindings, ops: seq<Op>): Bindings
    requires AllAllowed(ops)
  {
    if ops == [] then b
    else StepBindings(Run(t, ops[..|ops| - 1]), RunBindings(t, b, ops[..|ops| - 1]), ops[|ops| - 1])
  }

  lemma {:induction false} RunKeeps(t: Tables, b: Bindings, ops: seq<Op>, path: string)
    requires Inv(t, b) && AllAllowed(ops)
    ensures Inv(Run(t, ops), RunBindings(t, b, ops))
    ensures Delete(path) !in ops ==> PathGrows(t, b, Run(t, ops), RunBindings(t, b, ops), path)
    decreases |ops|
  {
    hide Inv, Step, StepBindings, PathGrows;
    if ops == [] {
      SamePathGrows(t, b, t, path);
    } else {
      var before := ops[..|ops| - 1];
      RunKeeps(t, b, before, path);
      StepKeeps(Run(t, before), RunBindings(t, b, before), ops[|ops| - 1], path);
      if Delete(path) !in ops {
        GrowsOn(t, b, Run(t, before), RunBindings(t, b, before), Run(t, ops), RunBindings(t, b, ops), path);
      }
    }
  }

  lemma {:induction false} GrowsOn(
    t: Tables, b: Bindings, u: Tables, mid: Bindings, v: Tables, after: Bindings, path: string)
    requires PathGrows(t, b, u, mid, path) && PathGrows(u, mid, v, after, path)
    ensures PathGrows(t, b, v, after, path)
  {
  }

  /** A row of the lineage of some snapshot of the path. */
  ghost predicate ShowsRow(t: Tables, path: string, row: Row) {
    exists id :: OfPath(t, path, id) && id in t.lineage && row in t.lineage[id]
  }

  lemma {:induction false} ShownIsBound(t: Tables, b: Bindings, path: string, row: Row)
    requires Inv(t, b) && ShowsRow(t, path, row)
    ensures BoundTo(b, path, row.lineId, row.canonHash) && row.lineId < CounterOf(t, path)
  {
    hide WellNumbered, BoundTo;
    var id :| OfPath(t, path, id) && id in t.lineage && row in t.lineage[id];
    assert RowsBound(t.lineage[id], path, b);
    var k :| 0 <= k < |t.lineage[id]| && t.lineage[id][k] == row;
    assert BoundTo(b, path, t.lineage[id][k].lineId, t.lineage[id][k].canonHash);
    BoundBelow(t, b, path, row.lineId, row.canonHash);
  }

  /**
   One identity, one digest: whatever was committed, evicted or lost in between, two rows of a path that show
   the same identity show the same digest, and so does any lease.
   */
  lemma {:induction false} IdentityForGood(t: Tables, b: Bindings, ops: seq<Op>, path: string, row: Row, later: Row)
    requires Inv(t, b) && AllAllowed(ops) && Delete(path) !in ops
    requires ShowsRow(t, path, row) && ShowsRow(Run(t, ops), path, later)
    ensures row.lineId == later.lineId ==> row.canonHash == later.canonHash
    ensures forall k | k in Run(t, ops).leases && k.path == path && Run(t, ops).leases[k].lineId == row.lineId ::
              Run(t, ops).leases[k].canonHash == row.canonHash
  {
    hide Step, StepBindings, WellNumbered, BoundTo, RowsBound, Consistent;
    RunKeeps(t, b, ops, path);
    ShownIsBound(t, b, path, row);
    ShownIsBound(Run(t, ops), RunBindings(t, b, ops), path, later);
    var after := RunBindings(t, b, ops);
    OneDigest(after, path, row.lineId, row.canonHash);
  }

  /** No identity is issued twice: what a later commit binds afresh lies at or above every earlier counter. */
  lemma {:induction false} NeverReissued(
    t: Tables, b: Bindings, ops: seq<Op>, c: Commit, now: int, id: nat, canon: Digest)
    requires Inv(t, b) && AllAllowed(ops) && Delete(c.path) !in ops && |c.canons| == |c.hashes|
    requires BoundTo(RunBindings(t, b, ops + [DoCommit(c, now)]), c.path, id, canon)
    requires !BoundTo(RunBindings(t, b, ops), c.path, id, canon)
    ensures id >= CounterOf(Run(t, ops), c.path) >= CounterOf(t, c.path)
    ensures id < CounterOf(Run(t, ops + [DoCommit(c, now)]), c.path)
  {
    hide Step, StepBindings, Inv;
    var more := ops + [DoCommit(c, now)];
    assert more[..|more| - 1] == ops;
    RunKeeps(t, b, ops, c.path);
    StepKeeps(Run(t, ops), RunBindings(t, b, ops), DoCommit(c, now), c.path);
    BoundBelow(Run(t, more), RunBindings(t, b, more), c.path, id, canon);
  }
}
