/**
 Why a leased edit cannot land on the wrong line: the identity map of a buffer places an identity only on a
 line with the digest the identity was issued for, and a lease records that same digest.
 */
module LeaseEvidence {
  import opened Options
  import opened Digests
  import opened LineageTables
  import opened LineageIdentity
  import opened ServedRange

  // ---- where identities live in a buffer ----

  /** The lines of a committed snapshot by identity. */
  function RowPositions(rows: seq<Row>, n: nat): map<nat, nat>
    requires n <= |rows|
  {
    if n == 0 then map[] else RowPositions(rows, n - 1)[rows[n - 1].lineId := rows[n - 1].lineNumber]
  }

  /** The lines of a buffer that inherit an identity, by identity. */
  function InheritedPositions(inherited: seq<Option<nat>>, n: nat): map<nat, nat>
    requires n <= |inherited|
  {
    if n == 0 then map[]
    else
      var before := InheritedPositions(inherited, n - 1);
      if inherited[n - 1].Some? then before[inherited[n - 1].value := n] else before
  }

  /** The identity map of a buffer: its committed lineage, or else the latest snapshot paired with it. */
  ghost function PositionsByIdentity(t: Tables, path: string, key: nat, canons: seq<Digest>): map<nat, nat> {
    if Find(t, path, key).Some? then
      var rows := LineageAt(t, Find(t, path, key).value);
      RowPositions(rows, |rows|)
    else if PrevRows(t, path) == [] then map[]
    else
      InheritedPositions(Inherited(PrevRows(t, path), canons), |canons|)
  }

  // ---- the content key ----

  /** Snapshots show the digests that their content key stands for, or have lost their lines. */
  ghost predicate Keyed(t: Tables, meaning: nat -> seq<Digest>) {
    forall id | id in t.snapshots && id in t.lineage && t.lineage[id] != [] ::
      CanonsOf(t.lineage[id]) == meaning(t.snapshots[id].key)
  }

  /** The key of a content determines it: all commits under one key bring the same digests. */
  ghost predicate KeyMeans(ops: seq<Op>, meaning: nat -> seq<Digest>) {
    forall i | 0 <= i < |ops| && ops[i].DoCommit? :: ops[i].c.canons == meaning(ops[i].c.key)
  }

  lemma {:induction false} CommitKeyed(t: Tables, c: Commit, now: int, meaning: nat -> seq<Digest>)
    requires Keyed(t, meaning) && |c.canons| == |c.hashes| && c.canons == meaning(c.key)
    ensures Keyed(Committed(t, c, now), meaning)
  {
    hide Inherited, PrevRows, LeasesAfter, WellNumbered;
    var after := Committed(t, c, now);
    FindIs(t, c.path, c.key);
    forall id | id in after.snapshots && id in after.lineage && after.lineage[id] != []
      ensures CanonsOf(after.lineage[id]) == meaning(after.snapshots[id].key)
    {
      if Adopts(t, c) && id == Find(t, c.path, c.key).value {
        assert CanonsOf(after.lineage[id]) == CanonsOf(LineageAt(t, id));
      } else if id in t.lineage && id in t.snapshots && after.lineage[id] == t.lineage[id]
          && after.snapshots[id] == t.snapshots[id] {
      } else {
        assert CanonsOf(after.lineage[id]) == c.canons;
      }
    }
  }

  lemma {:induction false} RunKeyed(t: Tables, ops: seq<Op>, meaning: nat -> seq<Digest>)
    requires Keyed(t, meaning) && AllAllowed(ops) && KeyMeans(ops, meaning)
    ensures Keyed(Run(t, ops), meaning)
    decreases |ops|
  {
    hide Committed, CanonsOf;
    if ops != [] {
      var before := ops[..|ops| - 1];
      RunKeyed(t, before, meaning);
      var op := ops[|ops| - 1];
      if op.DoCommit? {
        CommitKeyed(Run(t, before), op.c, op.now, meaning);
      }
    }
  }

  // ---- digests behind positions ----

  /** Every identity of the map sits on a line whose digest it is bound to. */
  ghost predicate PlacesFit(b: Bindings, path: string, canons: seq<Digest>, positions: map<nat, nat>) {
    forall id | id in positions :: 1 <= positions[id] <= |canons| && BoundTo(b, path, id, canons[positions[id] - 1])
  }

  lemma {:induction false} NoPlaces(b: Bindings, path: string, canons: seq<Digest>)
    ensures PlacesFit(b, path, canons, map[])
  {
  }

  lemma {:induction false} NoRowPlaces(b: Bindings, path: string, canons: seq<Digest>)
    ensures PlacesFit(b, path, canons, RowPositions([], 0))
  {
  }

  lemma {:induction false} RowNumber(rows: seq<Row>, k: nat)
    requires k < |rows| && WellNumbered(rows)
    ensures rows[k].lineNumber == k + 1
  {
  }

  lemma {:induction false} RowBound(rows: seq<Row>, k: nat, path: string, b: Bindings)
    requires k < |rows| && RowsBound(rows, path, b)
    ensures BoundTo(b, path, rows[k].lineId, rows[k].canonHash)
  {
    hide BoundTo;
  }

  lemma {:induction false} OneMorePlace(
    b: Bindings, path: string, canons: seq<Digest>, positions: map<nat, nat>, id: nat, line: nat)
    requires PlacesFit(b, path, canons, positions) && 1 <= line <= |canons| && BoundTo(b, path, id, canons[line - 1])
    ensures PlacesFit(b, path, canons, positions[id := line])
  {
    hide BoundTo;
  }

  lemma {:induction false} RowPlacesFit(rows: seq<Row>, n: nat, b: Bindings, path: string, canons: seq<Digest>)
    requires n <= |rows| && RowsBound(rows, path, b) && WellNumbered(rows) && CanonsOf(rows) == canons
    ensures PlacesFit(b, path, canons, RowPositions(rows, n))
    decreases n
  {
    hide BoundTo, RowsBound, WellNumbered, PlacesFit;
    NoPlaces(b, path, canons);
    if n > 0 {
      RowPlacesFit(rows, n - 1, b, path, canons);
      RowNumber(rows, n - 1);
      RowBound(rows, n - 1, path, b);
      assert canons[n - 1] == rows[n - 1].canonHash;
      OneMorePlace(b, path, canons, RowPositions(rows, n - 1), rows[n - 1].lineId, n);
    }
  }

  lemma {:induction false} InheritedPlacesFit(prev: seq<Row>, canons: seq<Digest>, n: nat, b: Bindings, path: string)
    requires n <= |canons| && RowsBound(prev, path, b)
    ensures PlacesFit(b, path, canons, InheritedPositions(Inherited(prev, canons), n))
    decreases n
  {
    hide BoundTo, Pairs, InheritedAt, PlacesFit, RowsBound;
    var inherited := Inherited(prev, canons);
    NoPlaces(b, path, canons);
    if n > 0 {
      InheritedPlacesFit(prev, canons, n - 1, b, path);
      if inherited[n - 1].Some? {
        var p := InheritedFrom(prev, canons, n - 1);
        RowBound(prev, p - 1, path, b);
        OneMorePlace(b, path, canons, InheritedPositions(inherited, n - 1), inherited[n - 1].value, n);
      }
    }
  }

  /** The identity map of any buffer, committed or not, places identities only where their digest is. */
  lemma {:induction false} PositionsFit(
    t: Tables, b: Bindings, path: string, key: nat, canons: seq<Digest>, meaning: nat -> seq<Digest>)
    requires Inv(t, b) && Keyed(t, meaning) && canons == meaning(key)
    ensures PlacesFit(b, path, canons, PositionsByIdentity(t, path, key, canons))
  {
    hide BoundTo, WellNumbered, RowsBound, PlacesFit, InheritedPositions, RowPositions, Inherited, PrevRows, Find;
    FindIs(t, path, key);
    PrevRowsGood(t, b, path);
    var found := Find(t, path, key);
    if found.Some? {
      var rows := LineageAt(t, found.value);
      if rows == [] {
        NoRowPlaces(b, path, canons);
      } else {
        RowPlacesFit(rows, |rows|, b, path, canons);
      }
    } else if PrevRows(t, path) == [] {
      NoPlaces(b, path, canons);
    } else {
      InheritedPlacesFit(PrevRows(t, path), canons, |canons|, b, path);
    }
  }

  // ---- the leases of one session and file ----

  function LeaseViews(t: Tables, session: string, path: string): map<string, Lease> {
    map k | k in t.leases && k.session == session && k.path == path ::
      k.anchor := Lease(t.leases[k].lineId, t.leases[k].servedLine, t.leases[k].retiredAt.Some?)
  }

  /** The slot's anchor is leased, live, and the digest recorded when it was served is the digest of the line now. */
  ghost predicate SameAsServed(t: Tables, session: string, path: string, anchor: string, digest: Digest) {
    var k := LeaseKey(session, path, anchor);
    k in t.leases && t.leases[k].retiredAt.None? && t.leases[k].canonHash == digest
  }

  lemma {:induction false} ViewIsLease(t: Tables, session: string, path: string, anchor: string)
    requires anchor in LeaseViews(t, session, path)
    ensures LeaseKey(session, path, anchor) in t.leases
    ensures
      var lease := t.leases[LeaseKey(session, path, anchor)];
      LeaseViews(t, session, path)[anchor] == Lease(lease.lineId, lease.servedLine, lease.retiredAt.Some?)
  {
    var k :| k in t.leases && k.session == session && k.path == path && k.anchor == anchor;
    assert k == LeaseKey(session, path, anchor);
  }

  /** On any buffer: what a range accepted on leases shows has the digests recorded when it was shown. */
  lemma {:induction false} AcceptedLinesFit(
    t: Tables, b: Bindings, session: string, path: string, canons: seq<Digest>, c: Check)
    returns (from: nat)
    requires Inv(t, b) && c.Resolved() && c.Verified() && c.route.Leased? && |canons| == |c.fileLines|
    requires c.route.source.leases == LeaseViews(t, session, path)
    requires PlacesFit(b, path, canons, c.route.source.positions)
    ensures from + c.Count() <= |c.served| && c.served[from].Some? && c.served[from + c.Count() - 1].Some?
    ensures forall i | from <= i < from + c.Count() && c.served[i].Some? ::
              SameAsServed(t, session, path, c.served[i].value, canons[c.lines.startLine - 1 + i - from])
  {
    hide Check.Verified, LeaseViews, Consistent, RowsBound, Sole, SameAsServed, PlacesFit;
    from := LeasedAcceptance(c);
    forall i | from <= i < from + c.Count() && c.served[i].Some?
      ensures SameAsServed(t, session, path, c.served[i].value, canons[c.lines.startLine - 1 + i - from])
    {
      LeaseFits(t, b, session, path, canons, c.route.source, c.served[i].value, c.lines.startLine + i - from);
    }
  }

  /**
   Leased acceptance is safe. If a range is accepted on leases, on any buffer whose identity map comes from the
   store, then every line of the range that was shown has, now, the digest recorded when it was shown.
   */
  lemma {:induction false} AcceptedLinesAreServedLines(
    t: Tables, b: Bindings, session: string, path: string, key: nat, canons: seq<Digest>, meaning: nat -> seq<Digest>,
    c: Check)
    returns (from: nat)
    requires Inv(t, b) && Keyed(t, meaning) && canons == meaning(key)
    requires c.Resolved() && c.Verified() && c.route.Leased? && |canons| == |c.fileLines|
    requires c.route.source.leases == LeaseViews(t, session, path)
    requires c.route.source.positions == PositionsByIdentity(t, path, key, canons)
    ensures from + c.Count() <= |c.served| && c.served[from].Some? && c.served[from + c.Count() - 1].Some?
    ensures forall i | from <= i < from + c.Count() && c.served[i].Some? ::
              SameAsServed(t, session, path, c.served[i].value, canons[c.lines.startLine - 1 + i - from])
  {
    hide Check.Verified, PositionsByIdentity, LeaseViews, Consistent, RowsBound, Sole, SameAsServed, PlacesFit;
    PositionsFit(t, b, path, key, canons, meaning);
    from := AcceptedLinesFit(t, b, session, path, canons, c);
  }

  lemma {:induction false} LeaseFits(
    t: Tables, b: Bindings, session: string, path: string, canons: seq<Digest>, source: LeaseSource, anchor: string,
    line: nat)
    requires Inv(t, b) && PlacesFit(b, path, canons, source.positions)
    requires source.leases == LeaseViews(t, session, path) && LeasedAt(source, anchor, line)
    ensures 1 <= line <= |canons| && SameAsServed(t, session, path, anchor, canons[line - 1])
  {
    hide LeaseViews, Consistent, RowsBound;
    ViewIsLease(t, session, path, anchor);
    var k := LeaseKey(session, path, anchor);
    assert BoundTo(b, k.path, t.leases[k].lineId, t.leases[k].canonHash);
    assert BoundTo(b, path, t.leases[k].lineId, canons[line - 1]);
  }

  // ---- the maps, exactly ----

  ghost predicate IsAt(positions: map<nat, nat>, id: nat, line: nat) {
    id in positions && positions[id] == line
  }

  /** A stored version gives every one of its identities at its own line, and no other. */
  lemma {:induction false} RowPositionsExactly(rows: seq<Row>, n: nat, id: nat, line: nat)
    requires n <= |rows| && WellNumbered(rows)
    ensures IsAt(RowPositions(rows, n), id, line) <==> 1 <= line <= n && rows[line - 1].lineId == id
    decreases n
  {
    if n > 0 {
      RowPositionsExactly(rows, n - 1, id, line);
      if id in RowPositions(rows, n - 1) {
        RowPositionsExactly(rows, n - 1, id, RowPositions(rows, n - 1)[id]);
      }
    }
  }

  ghost predicate NoneTwice(inherited: seq<Option<nat>>) {
    forall i, j | 0 <= i < j < |inherited| && inherited[i].Some? :: inherited[i] != inherited[j]
  }

  lemma {:induction false} InheritedPositionsExactly(inherited: seq<Option<nat>>, n: nat, id: nat, line: nat)
    requires n <= |inherited| && NoneTwice(inherited)
    ensures IsAt(InheritedPositions(inherited, n), id, line) <==> 1 <= line <= n && inherited[line - 1] == Some(id)
    decreases n
  {
    if n > 0 {
      InheritedPositionsExactly(inherited, n - 1, id, line);
      if id in InheritedPositions(inherited, n - 1) {
        InheritedPositionsExactly(inherited, n - 1, id, InheritedPositions(inherited, n - 1)[id]);
      }
    }
  }

  /** Exactly the leases of this session on this file are looked at, each as it is stored. */
  lemma {:induction false} LeaseViewsExactly(t: Tables, session: string, path: string, anchor: string)
    ensures anchor in LeaseViews(t, session, path) <==> LeaseKey(session, path, anchor) in t.leases
    ensures anchor in LeaseViews(t, session, path) ==>
              var lease, row := LeaseViews(t, session, path)[anchor], t.leases[LeaseKey(session, path, anchor)];
              && lease.lineId == row.lineId && lease.servedLine == row.servedLine
              && (lease.retired <==> row.retiredAt.Some?)
  {
    if LeaseKey(session, path, anchor) in t.leases {
      assert LeaseKey(session, path, anchor).anchor == anchor;
    }
    if anchor in LeaseViews(t, session, path) {
      ViewIsLease(t, session, path, anchor);
    }
  }
}
