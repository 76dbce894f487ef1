/**
 The lineage tables as a value: committed snapshots of every path, the identity of each of their lines, the
 counter that issues identities, and the leases that bind served anchors to them. The functions say what one
 committed operation does to the tables.
 */
module LineageTables {
  import opened Options
  import opened Digests
  import opened Pairing

  datatype Snapshot = Snapshot(path: string, key: nat, lineCount: nat, createdAt: int)

  datatype Row = Row(lineNumber: nat, lineId: nat, canonHash: Digest, anchor: string)

  datatype LeaseKey = LeaseKey(session: string, path: string, anchor: string)

  datatype LeaseRow = LeaseRow(
    lineId: nat, canonHash: Digest, key: nat, servedLine: nat, updatedAt: int, retiredAt: Option<int>)

  datatype Tables = Tables(
    snapshots: map<nat, Snapshot>, nextSnapshot: nat, lineage: map<nat, seq<Row>>, counters: map<string, nat>,
    leases: map<LeaseKey, LeaseRow>)

  datatype ServedRow = ServedRow(position: nat, hash: Option<string>)

  datatype Grants = Grants(session: string, rows: seq<ServedRow>)

  /** One request to commit: the path, the key of the content, and per line its digest and its anchor. */
  datatype Commit = Commit(path: string, key: nat, canons: seq<Digest>, hashes: seq<string>, grants: Option<Grants>)

  const EMPTY := Tables(map[], 1, map[], map[], map[])

  // ---- queries ----

  predicate Is(t: Tables, path: string, key: nat, id: nat) {
    id in t.snapshots && t.snapshots[id].path == path && t.snapshots[id].key == key
  }

  predicate OfPath(t: Tables, path: string, id: nat) {
    id in t.snapshots && t.snapshots[id].path == path
  }

  predicate IsLatest(t: Tables, path: string, id: nat) {
    OfPath(t, path, id) && forall other | other in t.snapshots && OfPath(t, path, other) :: other <= id
  }

  ghost function Find(t: Tables, path: string, key: nat): Option<nat> {
    if exists id: nat :: Is(t, path, key, id) then var id: nat :| Is(t, path, key, id); Some(id) else None
  }

  ghost function LatestOf(t: Tables, path: string): Option<nat> {
    if exists id: nat :: IsLatest(t, path, id) then var id: nat :| IsLatest(t, path, id); Some(id) else None
  }

  function LineageAt(t: Tables, id: nat): seq<Row> {
    if id in t.lineage then t.lineage[id] else []
  }

  /** The lines of the latest snapshot of a path, from which identities are inherited. */
  ghost function PrevRows(t: Tables, path: string): seq<Row> {
    if LatestOf(t, path).Some? then LineageAt(t, LatestOf(t, path).value) else []
  }

  function CanonsOf(rows: seq<Row>): (r: seq<Digest>)
    ensures |r| == |rows| && forall k | 0 <= k < |rows| :: r[k] == rows[k].canonHash
  {
    seq(|rows|, k requires 0 <= k < |rows| => rows[k].canonHash)
  }

  function IdsOf(rows: seq<Row>): set<nat> {
    set k | 0 <= k < |rows| :: rows[k].lineId
  }

  /** A stored family that can be adopted for content with these digests. */
  predicate Usable(rows: seq<Row>, canons: seq<Digest>) {
    && rows != [] && |rows| == |canons|
    && forall k | 0 <= k < |rows| :: rows[k].lineNumber == k + 1 && rows[k].canonHash == canons[k]
  }

  // ---- inherited and new identities ----

  ghost function Pairs(prev: seq<Row>, canons: seq<Digest>): map<nat, nat> {
    Paired(Texts(CanonsOf(prev), canons), PairingScanBudget(|prev|, |canons|))
  }

  /** The identity that line i of the new content inherits. */
  ghost function InheritedAt(prev: seq<Row>, canons: seq<Digest>, i: nat): Option<nat> {
    var pairs := Pairs(prev, canons);
    if exists p :: p in pairs && pairs[p] == i + 1 then
      var p :| p in pairs && pairs[p] == i + 1;
      if 1 <= p <= |prev| then Some(prev[p - 1].lineId) else None
    else None
  }

  ghost function Inherited(prev: seq<Row>, canons: seq<Digest>): (r: seq<Option<nat>>)
    ensures |r| == |canons| && forall i | 0 <= i < |canons| :: r[i] == InheritedAt(prev, canons, i)
  {
    seq(|canons|, i requires 0 <= i < |canons| => InheritedAt(prev, canons, i))
  }

  /** How many of the first n lines inherit nothing. */
  function FreshBefore(inherited: seq<Option<nat>>, n: nat): nat
    requires n <= |inherited|
  {
    if n == 0 then 0 else FreshBefore(inherited, n - 1) + if inherited[n - 1].None? then 1 else 0
  }

  function LineIdAt(inherited: seq<Option<nat>>, next: nat, i: nat): nat
    requires i < |inherited|
  {
    if inherited[i].Some? then inherited[i].value else next + FreshBefore(inherited, i)
  }

  function NewRows(inherited: seq<Option<nat>>, next: nat, canons: seq<Digest>, hashes: seq<string>): (r: seq<Row>)
    requires |inherited| == |canons| == |hashes|
    ensures |r| == |canons|
    ensures forall i | 0 <= i < |r| :: r[i] == Row(i + 1, LineIdAt(inherited, next, i), canons[i], hashes[i])
  {
    seq(|canons|, i requires 0 <= i < |canons| => Row(i + 1, LineIdAt(inherited, next, i), canons[i], hashes[i]))
  }

  function CounterOf(t: Tables, path: string): nat {
    if path in t.counters then t.counters[path] else 1
  }

  // ---- what a commit does ----

  /** A new snapshot of the path, its lines inheriting from the latest one. */
  ghost function Materialized(t: Tables, c: Commit, now: int): Tables
    requires |c.canons| == |c.hashes|
  {
    MaterializedWith(t, c, now, Inherited(PrevRows(t, c.path), c.canons), CounterOf(t, c.path))
  }

  function MaterializedWith(t: Tables, c: Commit, now: int, inherited: seq<Option<nat>>, next: nat): Tables
    requires |c.canons| == |c.hashes| == |inherited|
  {
    Tables(
      t.snapshots[t.nextSnapshot := Snapshot(c.path, c.key, |c.canons|, now)],
      t.nextSnapshot + 1,
      t.lineage[t.nextSnapshot := NewRows(inherited, next, c.canons, c.hashes)],
      t.counters[c.path := next + FreshBefore(inherited, |inherited|)],
      t.leases)
  }

  function Without(t: Tables, ids: set<nat>): Tables {
    t.(snapshots := t.snapshots - ids, lineage := t.lineage - ids)
  }

  function Refreshed(rows: seq<Row>, hashes: seq<string>): (r: seq<Row>)
    requires |rows| == |hashes|
    ensures |r| == |rows| && forall k | 0 <= k < |r| :: r[k] == rows[k].(anchor := hashes[k])
  {
    seq(|rows|, k requires 0 <= k < |rows| => rows[k].(anchor := hashes[k]))
  }

  datatype Resolved = Resolved(tables: Tables, id: nat)

  /** The snapshot a commit resolves to: an adopted one, or a new one in place of an unusable one. */
  ghost function Resolve(t: Tables, c: Commit, now: int): Resolved
    requires |c.canons| == |c.hashes|
  {
    var existing := Find(t, c.path, c.key);
    if existing.Some? && Usable(LineageAt(t, existing.value), c.canons) then
      Resolved(t.(lineage := t.lineage[existing.value := Refreshed(LineageAt(t, existing.value), c.hashes)]),
               existing.value)
    else
      var cleared := if existing.Some? then Without(t, {existing.value}) else t;
      Resolved(Materialized(cleared, c, now), cleared.nextSnapshot)
  }

  /** The first row with this anchor. */
  function HitOf(rows: seq<Row>, anchor: string): Option<Row> {
    if rows == [] then None else if rows[0].anchor == anchor then Some(rows[0]) else HitOf(rows[1..], anchor)
  }

  /** The leases after the first n served rows: one per known anchor, the last serve of an anchor wins. */
  function Granted(
    leases: map<LeaseKey, LeaseRow>, rows: seq<Row>, path: string, key: nat, grants: Grants, now: int, n: nat)
    : map<LeaseKey, LeaseRow>
    requires n <= |grants.rows|
  {
    if n == 0 then leases
    else
      var before := Granted(leases, rows, path, key, grants, now, n - 1);
      var row := grants.rows[n - 1];
      if row.hash.Some? && HitOf(rows, row.hash.value).Some? then
        var hit := HitOf(rows, row.hash.value).value;
        before[LeaseKey(grants.session, path, row.hash.value) :=
                 LeaseRow(hit.lineId, hit.canonHash, key, row.position + 1, now, None)]
      else before
  }

  function RetiredIfAbsent(k: LeaseKey, lease: LeaseRow, path: string, ids: set<nat>, now: int): LeaseRow {
    if k.path == path && lease.retiredAt.None? && lease.lineId !in ids then lease.(retiredAt := Some(now)) else lease
  }

  /** The leases of the path whose line left the snapshot are retired. */
  function AbsentRetired(
    leases: map<LeaseKey, LeaseRow>, path: string, ids: set<nat>, now: int): map<LeaseKey, LeaseRow>
  {
    map k | k in leases :: RetiredIfAbsent(k, leases[k], path, ids, now)
  }

  function LeasesAfter(leases: map<LeaseKey, LeaseRow>, rows: seq<Row>, c: Commit, now: int): map<LeaseKey, LeaseRow> {
    var granted :=
      if c.grants.None? then leases
      else Granted(leases, rows, c.path, c.key, c.grants.value, now, |c.grants.value.rows|);
    AbsentRetired(granted, c.path, IdsOf(rows), now)
  }

  /** One committed unit: resolve the snapshot, grant leases, retire the leases of lines that left. */
  ghost function Committed(t: Tables, c: Commit, now: int): Tables
    requires |c.canons| == |c.hashes|
  {
    var r := Resolve(t, c, now);
    r.tables.(leases := LeasesAfter(t.leases, LineageAt(r.tables, r.id), c, now))
  }

  /** Deleting a path takes its whole family away, its counter included. */
  function PathDeleted(t: Tables, path: string): Tables {
    var ids := set id | id in t.snapshots && t.snapshots[id].path == path;
    Tables(t.snapshots - ids, t.nextSnapshot, t.lineage - ids, t.counters - {path},
           map k | k in t.leases && k.path != path :: t.leases[k])
  }

  // ---- the invariant ----

  datatype LineKey = LineKey(path: string, id: nat)

  /** Every identity issued so far, with the digest it was issued for. */
  type Bindings = map<LineKey, Digest>

  /** The uniqueness constraints of the tables, and the numbering of lineage rows. */
  ghost predicate Consistent(t: Tables) {
    && t.lineage.Keys == t.snapshots.Keys
    && (forall id | id in t.snapshots :: id < t.nextSnapshot)
    && (forall a, b | a in t.snapshots && b in t.snapshots && a != b ::
          t.snapshots[a].path != t.snapshots[b].path || t.snapshots[a].key != t.snapshots[b].key)
    && (forall id | id in t.lineage :: WellNumbered(t.lineage[id]))
    && (forall path | path in t.counters :: t.counters[path] >= 1)
  }

  ghost predicate WellNumbered(rows: seq<Row>) {
    && (forall k | 0 <= k < |rows| :: rows[k].lineNumber == k + 1)
    && (forall j, k | 0 <= j < k < |rows| :: rows[j].lineId != rows[k].lineId)
  }

  ghost predicate BoundTo(b: Bindings, path: string, id: nat, canon: Digest) {
    LineKey(path, id) in b && b[LineKey(path, id)] == canon
  }

  ghost predicate RowsBound(rows: seq<Row>, path: string, b: Bindings) {
    forall k | 0 <= k < |rows| :: BoundTo(b, path, rows[k].lineId, rows[k].canonHash)
  }

  /** Every row and every lease shows an identity with the digest it was issued for, below the counter. */
  ghost predicate Faithful(t: Tables, b: Bindings) {
    && (forall id | id in t.lineage && id in t.snapshots :: RowsBound(t.lineage[id], t.snapshots[id].path, b))
    && (forall k | k in t.leases :: BoundTo(b, k.path, t.leases[k].lineId, t.leases[k].canonHash))
    && (forall k | k in b :: 1 <= k.id < CounterOf(t, k.path))
  }

  ghost predicate Inv(t: Tables, b: Bindings) {
    Consistent(t) && Faithful(t, b)
  }

  lemma {:induction false} EmptyInv()
    ensures Inv(EMPTY, map[])
  {
  }
}
