/** A lease over time: granted by a serve, retired when its line leaves the file, and answerable while it is live. */
module LeaseLifecycle {
  import opened Options
  import opened Digests
  import opened LineageTables
  import opened LineageIdentity
  import opened SnapshotVacuum

  function Live(lease: LeaseRow): bool {
    lease.retiredAt.None?
  }

  /** After a commit, every live lease of the path stands for a line of the snapshot the commit resolved to. */
  lemma {:induction false} LiveLeasesAreInSnapshot(t: Tables, b: Bindings, c: Commit, now: int) returns (id: nat)
    requires Inv(t, b) && |c.canons| == |c.hashes|
    ensures Is(Committed(t, c, now), c.path, c.key, id)
    ensures forall k | k in Committed(t, c, now).leases && k.path == c.path && Live(Committed(t, c, now).leases[k]) ::
              Committed(t, c, now).leases[k].lineId in IdsOf(LineageAt(Committed(t, c, now), id))
  {
    hide Resolve, LeasesAfter, Inv, IdsOf;
    var r := Resolve(t, c, now);
    id := r.id;
    ResolveKeeps(t, b, c, now);
    LeaseSteps(t.leases, LineageAt(r.tables, r.id), c, now);
  }

  /** The snapshot a commit resolves to shows the committed lines: their digests, and the anchors of this commit. */
  lemma {:induction false} SnapshotShowsContent(t: Tables, b: Bindings, c: Commit, now: int)
    requires Inv(t, b) && |c.canons| == |c.hashes|
    ensures
      var r := Resolve(t, c, now);
      var rows := LineageAt(r.tables, r.id);
      && LineageAt(Committed(t, c, now), r.id) == rows && |rows| == |c.canons|
      && forall k | 0 <= k < |rows| ::
            rows[k].lineNumber == k + 1 && rows[k].canonHash == c.canons[k] && rows[k].anchor == c.hashes[k]
  {
    hide Inherited, PrevRows, LeasesAfter, Find, Inv;
  }

  /** A retired lease is live again only because this commit served its anchor. */
  lemma {:induction false} RevivedOnlyByGrant(t: Tables, b: Bindings, c: Commit, now: int, k: LeaseKey)
    requires Inv(t, b) && |c.canons| == |c.hashes|
    requires k in t.leases && !Live(t.leases[k])
    requires k in Committed(t, c, now).leases && Live(Committed(t, c, now).leases[k])
    ensures c.grants.Some? && k.session == c.grants.value.session && k.path == c.path
    ensures exists i :: 0 <= i < |c.grants.value.rows| && c.grants.value.rows[i].hash == Some(k.anchor)
  {
    hide Resolve, LeasesAfter, Inv, IdsOf;
    var r := Resolve(t, c, now);
    ResolveKeeps(t, b, c, now);
    LeaseSteps(t.leases, LineageAt(r.tables, r.id), c, now);
    assert LeaseStep(k, t.leases, Committed(t, c, now).leases, LineageAt(r.tables, r.id), c, now);
  }

  // ---- a live lease still has its version ----

  ghost predicate HasLine(rows: seq<Row>, lineId: nat, canon: Digest) {
    exists k :: 0 <= k < |rows| && rows[k].lineId == lineId && rows[k].canonHash == canon
  }

  /** The version the lease was served from is there, with the leased line and its digest. */
  ghost predicate Answerable(t: Tables, path: string, lease: LeaseRow) {
    exists id: nat :: Is(t, path, lease.key, id) && HasLine(LineageAt(t, id), lease.lineId, lease.canonHash)
  }

  /** Every live lease used within the session time is answerable. */
  ghost predicate LeasesAnswer(t: Tables, now: int) {
    forall k | k in t.leases && Live(t.leases[k]) && t.leases[k].updatedAt >= now - SERVED_TTL_MS ::
      Answerable(t, k.path, t.leases[k])
  }

  lemma {:induction false} GrantAnswers(t: Tables, k: LeaseKey, lease: LeaseRow, id: nat, c: Commit, now: int)
    requires c.grants.Some? && Is(t, c.path, c.key, id)
    requires IsGrant(lease, k, LineageAt(t, id), c.path, c.key, c.grants.value, now)
    ensures Answerable(t, k.path, lease)
  {
    var rows := LineageAt(t, id);
    var row :| row in rows && row.anchor == k.anchor && lease.lineId == row.lineId && lease.canonHash == row.canonHash;
    var i :| 0 <= i < |rows| && rows[i] == row;
    assert HasLine(rows, lease.lineId, lease.canonHash);
  }

  /** A line that a lease names and a snapshot of its path shows is shown with the digest of the lease. */
  lemma {:induction false} SameDigestShown(b: Bindings, path: string, rows: seq<Row>, lineId: nat, canon: Digest)
    requires RowsBound(rows, path, b) && BoundTo(b, path, lineId, canon) && lineId in IdsOf(rows)
    ensures HasLine(rows, lineId, canon)
  {
    var k :| 0 <= k < |rows| && rows[k].lineId == lineId;
    assert BoundTo(b, path, rows[k].lineId, rows[k].canonHash);
  }

  /** Snapshots other than a discarded one keep their lines through a commit. */
  lemma {:induction false} OthersStay(
    t: Tables, c: Commit, now: int, path: string, key: nat, id: nat, lineId: nat, canon: Digest)
    requires Consistent(t) && |c.canons| == |c.hashes|
    requires Is(t, path, key, id) && HasLine(LineageAt(t, id), lineId, canon)
    requires Adopts(t, c) || path != c.path || key != c.key
    ensures Is(Resolve(t, c, now).tables, path, key, id)
    ensures HasLine(LineageAt(Resolve(t, c, now).tables, id), lineId, canon)
  {
    hide Inherited, PrevRows, Find, NewRows, WellNumbered;
    FindIs(t, c.path, c.key);
    var rows := LineageAt(t, id);
    var k :| 0 <= k < |rows| && rows[k].lineId == lineId && rows[k].canonHash == canon;
    var after := LineageAt(Resolve(t, c, now).tables, id);
    assert |after| == |rows| && after[k].lineId == lineId && after[k].canonHash == canon;
  }

  lemma {:induction false} OldLeaseAnswers(t: Tables, b: Bindings, c: Commit, now: int, k: LeaseKey, lease: LeaseRow)
    requires Inv(t, b) && |c.canons| == |c.hashes|
    requires k in t.leases && lease == t.leases[k] && Answerable(t, k.path, lease)
    requires k.path == c.path ==> lease.lineId in IdsOf(LineageAt(Resolve(t, c, now).tables, Resolve(t, c, now).id))
    ensures Answerable(Resolve(t, c, now).tables, k.path, lease)
  {
    hide Resolve, HasLine, RowsBound, IdsOf, CommitBindings, BoundTo, WellNumbered;
    var r, after := Resolve(t, c, now), CommitBindings(t, b, c);
    var id: nat :| Is(t, k.path, lease.key, id) && HasLine(LineageAt(t, id), lease.lineId, lease.canonHash);
    if Adopts(t, c) || k.path != c.path || lease.key != c.key {
      OthersStay(t, c, now, k.path, lease.key, id, lease.lineId, lease.canonHash);
    } else {
      ResolveKeeps(t, b, c, now);
      assert k in r.tables.leases;
      SameDigestShown(after, c.path, LineageAt(r.tables, r.id), lease.lineId, lease.canonHash);
    }
  }

  lemma {:induction false} CommitAnswers(t: Tables, b: Bindings, c: Commit, before: int, now: int)
    requires Inv(t, b) && LeasesAnswer(t, before) && before <= now && |c.canons| == |c.hashes|
    ensures LeasesAnswer(Committed(t, c, now), now)
  {
    hide Resolve, LeasesAfter, Inv, IdsOf, Answerable, IsGrant;
    var r := Resolve(t, c, now);
    var after := Committed(t, c, now);
    ResolveKeeps(t, b, c, now);
    LeaseSteps(t.leases, LineageAt(r.tables, r.id), c, now);
    forall k | k in after.leases && Live(after.leases[k]) && after.leases[k].updatedAt >= now - SERVED_TTL_MS
      ensures Answerable(after, k.path, after.leases[k])
    {
      assert LeaseStep(k, t.leases, after.leases, LineageAt(r.tables, r.id), c, now);
      assert after.leases[k].(retiredAt := None) == after.leases[k];
      if c.grants.Some? && IsGrant(after.leases[k], k, LineageAt(r.tables, r.id), c.path, c.key, c.grants.value, now) {
        GrantAnswers(r.tables, k, after.leases[k], r.id, c, now);
      } else {
        OldLeaseAnswers(t, b, c, now, k, after.leases[k]);
      }
      AnswerIgnoresLeases(r.tables, after, k.path, after.leases[k]);
    }
  }

  lemma {:induction false} AnswerIgnoresLeases(t: Tables, u: Tables, path: string, lease: LeaseRow)
    requires u.snapshots == t.snapshots && u.lineage == t.lineage && Answerable(t, path, lease)
    ensures Answerable(u, path, lease)
  {
    var id: nat :| Is(t, path, lease.key, id) && HasLine(LineageAt(t, id), lease.lineId, lease.canonHash);
    assert Is(u, path, lease.key, id) && HasLine(LineageAt(u, id), lease.lineId, lease.canonHash);
  }

  /** A vacuum that spares the pinned versions spares every version a live lease needs. */
  lemma {:induction false} VacuumAnswers(t: Tables, ids: set<nat>, undo: UndoTargets, before: int, now: int)
    requires LeasesAnswer(t, before) && before <= now
    requires forall id | id in ids :: !Pinned(t, undo, now, id)
    ensures LeasesAnswer(Without(t, ids), now)
  {
    hide HasLine;
    var after := Without(t, ids);
    forall k | k in after.leases && Live(after.leases[k]) && after.leases[k].updatedAt >= now - SERVED_TTL_MS
      ensures Answerable(after, k.path, after.leases[k])
    {
      var lease := t.leases[k];
      assert Answerable(t, k.path, lease);
      var id: nat :| Is(t, k.path, lease.key, id) && HasLine(LineageAt(t, id), lease.lineId, lease.canonHash);
      assert Pins(lease, now) && Pinned(t, undo, now, id);
      assert Is(after, k.path, lease.key, id) && LineageAt(after, id) == LineageAt(t, id);
    }
  }

  lemma {:induction false} DeleteAnswers(t: Tables, path: string, before: int, now: int)
    requires LeasesAnswer(t, before) && before <= now
    ensures LeasesAnswer(PathDeleted(t, path), now)
  {
    hide HasLine;
    var after := PathDeleted(t, path);
    forall k | k in after.leases && Live(after.leases[k]) && after.leases[k].updatedAt >= now - SERVED_TTL_MS
      ensures Answerable(after, k.path, after.leases[k])
    {
      var lease := t.leases[k];
      assert Answerable(t, k.path, lease);
      var id: nat :| Is(t, k.path, lease.key, id) && HasLine(LineageAt(t, id), lease.lineId, lease.canonHash);
      assert Is(after, k.path, lease.key, id) && LineageAt(after, id) == LineageAt(t, id);
    }
  }

  // ---- over time ----

  /** Operations under a clock that never runs back; vacuums spare what is pinned, and nothing is lost. */
  ghost predicate OnTime(t: Tables, ops: seq<Op>, times: seq<int>, undo: UndoTargets) {
    && |times| == |ops| && AllAllowed(ops)
    && (forall i, j | 0 <= i < j < |times| :: times[i] <= times[j])
    && (forall i | 0 <= i < |ops| :: !ops[i].Lose? && (ops[i].DoCommit? ==> ops[i].now == times[i]))
    && (forall i | 0 <= i < |ops| :: SparesPinned(Run(t, ops[..i]), ops[i], times[i], undo))
  }

  ghost predicate SparesPinned(t: Tables, op: Op, now: int, undo: UndoTargets) {
    op.Evict? ==> forall id | id in op.ids :: !Pinned(t, undo, now, id)
  }

  lemma {:induction false} StepAnswers(t: Tables, b: Bindings, op: Op, before: int, now: int, undo: UndoTargets)
    requires Inv(t, b) && LeasesAnswer(t, before) && before <= now && Allowed(op) && SparesPinned(t, op, now, undo)
    requires !op.Lose? && (op.DoCommit? ==> op.now == now)
    ensures LeasesAnswer(Step(t, op), now)
  {
    hide LeasesAnswer, Committed, Inv, Without, PathDeleted;
    match op
    case DoCommit(c, at) => CommitAnswers(t, b, c, before, now);
    case Evict(ids) => VacuumAnswers(t, ids, undo, before, now);
    case Delete(path) => DeleteAnswers(t, path, before, now);
  }

  lemma {:induction false} OnTimeSizes(t: Tables, ops: seq<Op>, times: seq<int>, undo: UndoTargets)
    requires OnTime(t, ops, times, undo)
    ensures |times| == |ops| && AllAllowed(ops)
  {
  }

  lemma {:induction false} OnTimeBefore(t: Tables, ops: seq<Op>, times: seq<int>, undo: UndoTargets)
    requires OnTime(t, ops, times, undo) && ops != []
    ensures
      var n := |ops| - 1;
      && |times| == |ops| && AllAllowed(ops) && OnTime(t, ops[..n], times[..n], undo)
      && (n > 0 ==> times[n - 1] <= times[n] && times[..n][0] == times[0])
      && Allowed(ops[n]) && SparesPinned(Run(t, ops[..n]), ops[n], times[n], undo)
      && !ops[n].Lose? && (ops[n].DoCommit? ==> ops[n].now == times[n])
  {
    hide Run, SparesPinned;
    var n := |ops| - 1;
    var before, early := ops[..n], times[..n];
    forall i | 0 <= i < n ensures SparesPinned(Run(t, before[..i]), before[i], early[i], undo) {
      assert before[..i] == ops[..i];
    }
  }

  /** Whatever was committed, vacuumed or deleted: a live lease within the session time is answerable. */
  lemma {:induction false} LeasesAlwaysAnswer(
    t: Tables, b: Bindings, ops: seq<Op>, times: seq<int>, undo: UndoTargets, start: int)
    requires Inv(t, b) && LeasesAnswer(t, start) && OnTime(t, ops, times, undo)
    requires times != [] ==> start <= times[0]
    ensures LeasesAnswer(Run(t, ops), if times == [] then start else times[|times| - 1])
    decreases |ops|
  {
    hide LeasesAnswer, Inv, Step, SparesPinned, OnTime;
    OnTimeSizes(t, ops, times, undo);
    if ops != [] {
      var n := |ops| - 1;
      var before, early := ops[..n], times[..n];
      OnTimeBefore(t, ops, times, undo);
      LeasesAlwaysAnswer(t, b, before, early, undo, start);
      RunKeeps(t, b, before, "");
      StepAnswers(Run(t, before), RunBindings(t, b, before), ops[n], if n == 0 then start else times[n - 1], times[n],
                  undo);
    }
  }

  /** From an empty store on, every live lease within the session time is answerable. */
  lemma {:induction false} FromEmptyStore(ops: seq<Op>, times: seq<int>, undo: UndoTargets, k: LeaseKey)
    requires OnTime(EMPTY, ops, times, undo) && times != []
    ensures
      var t := Run(EMPTY, ops);
      k in t.leases && Live(t.leases[k]) && t.leases[k].updatedAt >= times[|times| - 1] - SERVED_TTL_MS ==>
        Answerable(t, k.path, t.leases[k])
  {
    EmptyInv();
    assert LeasesAnswer(EMPTY, times[0]);
    LeasesAlwaysAnswer(EMPTY, map[], ops, times, undo, times[0]);
  }
}
