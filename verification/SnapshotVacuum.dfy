/** Retention of file versions: one sweep, oldest first, that never takes a pinned version. */
module SnapshotVacuum {
  import opened Numbers
  import opened Options
  import opened LineageTables

  const VACUUM_GLOBAL_BUDGET_BYTES := 50 * 1024 * 1024
  const VACUUM_SOFT_OVERFLOW_BYTES := 100 * 1024 * 1024
  const VACUUM_PER_PATH_BUDGET_BYTES := 10 * 1024 * 1024
  const VACUUM_MAX_SNAPSHOTS_PER_PATH := 10
  const VACUUM_MIN_SNAPSHOTS_PER_PATH := 2
  const VACUUM_LINEAGE_BYTES_PER_LINE := 40
  const VACUUM_RETIRED_PIN_MS := 60 * 60 * 1000
  const SERVED_TTL_MS := 7 * 24 * 60 * 60 * 1000

  datatype VacuumRow = VacuumRow(id: nat, path: string, lineCount: nat)

  /** The price of one version: a fixed number of bytes per line, and an empty file counts as one line. */
  function LineageBytes(lineCount: nat): nat {
    VACUUM_LINEAGE_BYTES_PER_LINE * Max(1, lineCount)
  }

  /** How many versions a path may keep, by the size of its newest one. */
  function PerPathRetention(newestLineCount: nat): (r: nat)
    ensures VACUUM_MIN_SNAPSHOTS_PER_PATH <= r <= VACUUM_MAX_SNAPSHOTS_PER_PATH
  {
    Min(VACUUM_MAX_SNAPSHOTS_PER_PATH,
            Max(VACUUM_MIN_SNAPSHOTS_PER_PATH, VACUUM_PER_PATH_BUDGET_BYTES / LineageBytes(newestLineCount)))
  }

  // ---- pins ----

  /** A lease holds its version: live and used within the session time, or retired a short while ago. */
  predicate Pins(lease: LeaseRow, now: int) {
    match lease.retiredAt
    case None => lease.updatedAt >= now - SERVED_TTL_MS
    case Some(at) => at >= now - VACUUM_RETIRED_PIN_MS
  }

  /** The versions that an undo can restore, by path and content key. */
  type UndoTargets = set<(string, nat)>

  predicate Pinned(t: Tables, undo: UndoTargets, now: int, id: nat) {
    id in t.snapshots
    && (|| (exists k :: k in t.leases && k.path == t.snapshots[id].path && t.leases[k].key == t.snapshots[id].key
                        && Pins(t.leases[k], now))
        || (t.snapshots[id].path, t.snapshots[id].key) in undo)
  }

  // ---- the sweep, as decisions on the listed rows ----

  function BytesOf(rows: seq<VacuumRow>, n: nat): nat
    requires n <= |rows|
  {
    if n == 0 then 0 else BytesOf(rows, n - 1) + LineageBytes(rows[n - 1].lineCount)
  }

  function CountOf(rows: seq<VacuumRow>, path: string, n: nat): nat
    requires n <= |rows|
  {
    if n == 0 then 0 else CountOf(rows, path, n - 1) + if rows[n - 1].path == path then 1 else 0
  }

  /** The rows that stay, among the first n. */
  function Kept(rows: seq<VacuumRow>, gone: seq<bool>, n: nat): (r: seq<VacuumRow>)
    requires n <= |rows| && n <= |gone|
    ensures |r| <= n
  {
    if n == 0 then [] else Kept(rows, gone, n - 1) + if gone[n - 1] then [] else [rows[n - 1]]
  }

  /** The line count of the path's newest row among the first n; rows come oldest first. */
  function NewestLineCount(rows: seq<VacuumRow>, path: string, n: nat): nat
    requires n <= |rows|
  {
    if n == 0 then 0 else if rows[n - 1].path == path then rows[n - 1].lineCount else NewestLineCount(rows, path, n - 1)
  }

  function RetentionOf(rows: seq<VacuumRow>, path: string): nat {
    PerPathRetention(NewestLineCount(rows, path, |rows|))
  }

  /** What is held when row n is looked at: everything from it on, and what stayed before it. */
  function Held(rows: seq<VacuumRow>, gone: seq<bool>, n: nat): seq<VacuumRow>
    requires n <= |rows| && n <= |gone|
  {
    Kept(rows, gone, n) + rows[n..]
  }

  function TotalBytes(rows: seq<VacuumRow>): nat {
    BytesOf(rows, |rows|)
  }

  function TotalCount(rows: seq<VacuumRow>, path: string): nat {
    CountOf(rows, path, |rows|)
  }

  /** The rule for row i: a row goes unless it is pinned, while the budget or its path's window is exceeded. */
  ghost predicate Decided(rows: seq<VacuumRow>, pinned: set<nat>, gone: seq<bool>, i: nat)
    requires i < |rows| && i < |gone|
  {
    gone[i] <==>
      && rows[i].id !in pinned
      && (TotalBytes(Held(rows, gone, i)) > VACUUM_GLOBAL_BUDGET_BYTES
          || TotalCount(Held(rows, gone, i), rows[i].path) > RetentionOf(rows, rows[i].path))
  }

  ghost predicate AllDecided(rows: seq<VacuumRow>, pinned: set<nat>, gone: seq<bool>, n: nat)
    requires n <= |rows| && n <= |gone|
  {
    forall i | 0 <= i < n :: Decided(rows, pinned, gone, i)
  }

  ghost function PinnedRows(rows: seq<VacuumRow>, pinned: set<nat>, n: nat): seq<VacuumRow>
    requires n <= |rows|
  {
    if n == 0 then [] else PinnedRows(rows, pinned, n - 1) + if rows[n - 1].id in pinned then [rows[n - 1]] else []
  }

  datatype VacuumResult = VacuumResult(evicted: nat, totalBytes: int, pinnedBytes: nat, deferredBytes: nat,
                                       overSoftOverflow: bool)

  // ---- sums ----

  lemma {:induction false} SumsOfConcat(a: seq<VacuumRow>, b: seq<VacuumRow>, path: string, n: nat)
    requires n <= |b|
    ensures BytesOf(a + b, |a| + n) == BytesOf(a, |a|) + BytesOf(b, n)
    ensures CountOf(a + b, path, |a| + n) == CountOf(a, path, |a|) + CountOf(b, path, n)
    decreases n
  {
    if n == 0 {
      SumsOfPrefix(a, b, path, |a|);
    } else {
      SumsOfConcat(a, b, path, n - 1);
    }
  }

  lemma {:induction false} SumsOfPrefix(a: seq<VacuumRow>, b: seq<VacuumRow>, path: string, n: nat)
    requires n <= |a|
    ensures BytesOf(a + b, n) == BytesOf(a, n) && CountOf(a + b, path, n) == CountOf(a, path, n)
    decreases n
  {
    if n > 0 {
      SumsOfPrefix(a, b, path, n - 1);
    }
  }

  lemma {:induction false} AppendRow(rows: seq<VacuumRow>, row: VacuumRow, flag: bool, path: string)
    ensures TotalBytes(rows + if flag then [row] else [])
            == TotalBytes(rows) + if flag then LineageBytes(row.lineCount) else 0
    ensures TotalCount(rows + if flag then [row] else [], path)
            == TotalCount(rows, path) + if flag && row.path == path then 1 else 0
  {
    OneRow(row, path);
    SumsOfConcat(rows, [row], path, 1);
    assert rows + [] == rows;
  }

  /** Looking at one more row takes that row out of what is held, or leaves it. */
  lemma {:induction false} HeldNext(rows: seq<VacuumRow>, gone: seq<bool>, i: nat, path: string)
    requires i < |rows| && i < |gone|
    ensures TotalBytes(Held(rows, gone, i + 1))
            == TotalBytes(Held(rows, gone, i)) - if gone[i] then LineageBytes(rows[i].lineCount) else 0
    ensures TotalCount(Held(rows, gone, i + 1), path)
            == TotalCount(Held(rows, gone, i), path) - if gone[i] && rows[i].path == path then 1 else 0
  {
    hide TotalBytes, TotalCount, LineageBytes;
    var front, back := Kept(rows, gone, i), rows[i + 1..];
    assert Held(rows, gone, i) == front + [rows[i]] + back;
    assert Held(rows, gone, i + 1) == front + (if gone[i] then [] else [rows[i]]) + back;
    assert front + [] == front;
    AppendRow(front, rows[i], true, path);
    TotalsOfConcat(front, back, path);
    TotalsOfConcat(front + [rows[i]], back, path);
  }

  lemma {:induction false} TotalsOfConcat(a: seq<VacuumRow>, b: seq<VacuumRow>, path: string)
    ensures TotalBytes(a + b) == TotalBytes(a) + TotalBytes(b)
    ensures TotalCount(a + b, path) == TotalCount(a, path) + TotalCount(b, path)
  {
    SumsOfConcat(a, b, path, |b|);
  }

  lemma {:induction false} OneRow(row: VacuumRow, path: string)
    ensures BytesOf([row], 1) == LineageBytes(row.lineCount)
    ensures CountOf([row], path, 1) == if row.path == path then 1 else 0
  {
    assert BytesOf([row], 0) == 0 && CountOf([row], path, 0) == 0;
  }

  lemma {:induction false} HeldShrinks(rows: seq<VacuumRow>, gone: seq<bool>, i: nat, j: nat, path: string)
    requires i <= j <= |rows| && j <= |gone|
    ensures TotalBytes(Held(rows, gone, j)) <= TotalBytes(Held(rows, gone, i))
    ensures TotalCount(Held(rows, gone, j), path) <= TotalCount(Held(rows, gone, i), path)
    decreases j
  {
    if i < j {
      HeldShrinks(rows, gone, i, j - 1, path);
      HeldNext(rows, gone, j - 1, path);
    }
  }

  /** Nothing was looked at yet: everything is held. Everything was looked at: what stays is held. */
  lemma {:induction false} HeldEnds(rows: seq<VacuumRow>, gone: seq<bool>)
    requires |gone| == |rows|
    ensures Held(rows, gone, 0) == rows && Held(rows, gone, |rows|) == Kept(rows, gone, |rows|)
  {
  }

  lemma {:induction false} KeptFrom(rows: seq<VacuumRow>, gone: seq<bool>, n: nat, k: nat) returns (i: nat)
    requires n <= |rows| && n <= |gone| && k < |Kept(rows, gone, n)|
    ensures i < n && !gone[i] && rows[i] == Kept(rows, gone, n)[k]
    decreases n
  {
    if k < |Kept(rows, gone, n - 1)| {
      i := KeptFrom(rows, gone, n - 1, k);
    } else {
      i := n - 1;
    }
  }

  // ---- what a sweep guarantees ----

  lemma {:induction false} PinnedPrefix(a: seq<VacuumRow>, b: seq<VacuumRow>, pinned: set<nat>, n: nat)
    requires n <= |a|
    ensures PinnedRows(a + b, pinned, n) == PinnedRows(a, pinned, n)
    decreases n
  {
    if n > 0 {
      PinnedPrefix(a, b, pinned, n - 1);
    }
  }

  /** Pinned versions stay: no evicted id is pinned, and what is left holds all pinned rows, in order. */
  lemma {:induction false} PinnedStay(rows: seq<VacuumRow>, pinned: set<nat>, gone: seq<bool>, n: nat)
    requires n <= |rows| == |gone| && AllDecided(rows, pinned, gone, |rows|)
    ensures forall id | id in GoneIds(rows, gone, n) :: id !in pinned
    ensures PinnedRows(Kept(rows, gone, n), pinned, |Kept(rows, gone, n)|) == PinnedRows(rows, pinned, n)
    decreases n
  {
    hide Held, TotalBytes, TotalCount, RetentionOf;
    if n > 0 {
      PinnedStay(rows, pinned, gone, n - 1);
      assert Decided(rows, pinned, gone, n - 1);
      var before := Kept(rows, gone, n - 1);
      if gone[n - 1] {
        assert Kept(rows, gone, n) == before;
      } else {
        PinnedPrefix(before, [rows[n - 1]], pinned, |before|);
        assert (before + [rows[n - 1]])[|before|] == rows[n - 1];
      }
    }
  }

  /** If the budget is still exceeded after the sweep, only pinned versions are left. */
  lemma {:induction false} DeferralMeansPinned(rows: seq<VacuumRow>, pinned: set<nat>, gone: seq<bool>)
    requires |gone| == |rows| && AllDecided(rows, pinned, gone, |rows|)
    requires TotalBytes(Kept(rows, gone, |rows|)) > VACUUM_GLOBAL_BUDGET_BYTES
    ensures forall i | 0 <= i < |rows| :: gone[i] <==> rows[i].id !in pinned
    ensures Kept(rows, gone, |rows|) == PinnedRows(rows, pinned, |rows|)
  {
    HeldEnds(rows, gone);
    forall i | 0 <= i < |rows| ensures gone[i] <==> rows[i].id !in pinned {
      HeldShrinks(rows, gone, i, |rows|, rows[i].path);
      assert Decided(rows, pinned, gone, i);
    }
    KeptIsPinned(rows, pinned, gone, |rows|);
  }

  lemma {:induction false} KeptIsPinned(rows: seq<VacuumRow>, pinned: set<nat>, gone: seq<bool>, n: nat)
    requires n <= |rows| == |gone| && forall i | 0 <= i < |rows| :: gone[i] <==> rows[i].id !in pinned
    ensures Kept(rows, gone, n) == PinnedRows(rows, pinned, n)
    decreases n
  {
    if n > 0 {
      KeptIsPinned(rows, pinned, gone, n - 1);
    }
  }

  /** An unpinned version that stays was within the budget and within its path's window when looked at. */
  lemma {:induction false} StayedWithin(rows: seq<VacuumRow>, pinned: set<nat>, gone: seq<bool>, i: nat)
    requires |gone| == |rows| && AllDecided(rows, pinned, gone, |rows|)
    requires i < |rows| && !gone[i] && rows[i].id !in pinned
    ensures TotalBytes(Held(rows, gone, i)) <= VACUUM_GLOBAL_BUDGET_BYTES
    ensures TotalCount(Held(rows, gone, i), rows[i].path) <= RetentionOf(rows, rows[i].path)
    ensures TotalBytes(Kept(rows, gone, |rows|)) <= VACUUM_GLOBAL_BUDGET_BYTES
    ensures TotalCount(Kept(rows, gone, |rows|), rows[i].path) <= RetentionOf(rows, rows[i].path)
  {
    assert Decided(rows, pinned, gone, i);
    HeldEnds(rows, gone);
    HeldShrinks(rows, gone, i, |rows|, rows[i].path);
  }

  /** A path keeps no more versions than its window, unless its pinned versions alone are more. */
  lemma {:induction false} WindowKept(rows: seq<VacuumRow>, pinned: set<nat>, gone: seq<bool>, path: string)
    requires |gone| == |rows| && AllDecided(rows, pinned, gone, |rows|)
    ensures TotalCount(Kept(rows, gone, |rows|), path)
            <= Max(RetentionOf(rows, path), TotalCount(PinnedRows(rows, pinned, |rows|), path))
  {
    if i: nat :| i < |rows| && !gone[i] && rows[i].id !in pinned && rows[i].path == path {
      StayedWithin(rows, pinned, gone, i);
    } else {
      PathPinned(rows, pinned, gone, path, |rows|);
    }
  }

  lemma {:induction false} PathPinned(rows: seq<VacuumRow>, pinned: set<nat>, gone: seq<bool>, path: string, n: nat)
    requires n <= |rows| == |gone|
    requires forall i: nat | i < |rows| && !gone[i] && rows[i].path == path :: rows[i].id in pinned
    ensures TotalCount(Kept(rows, gone, n), path) <= TotalCount(PinnedRows(rows, pinned, n), path)
    decreases n
  {
    if n > 0 {
      PathPinned(rows, pinned, gone, path, n - 1);
      AppendRow(Kept(rows, gone, n - 1), rows[n - 1], !gone[n - 1], path);
      AppendRow(PinnedRows(rows, pinned, n - 1), rows[n - 1], rows[n - 1].id in pinned, path);
    }
  }

  // ---- a second sweep ----

  /** The newest row of a path. */
  ghost predicate IsNewest(rows: seq<VacuumRow>, path: string, m: nat) {
    m < |rows| && rows[m].path == path && forall i | m < i < |rows| :: rows[i].path != path
  }

  lemma {:induction false} SomeNewest(rows: seq<VacuumRow>, path: string, i: nat) returns (m: nat)
    requires i < |rows| && rows[i].path == path
    ensures IsNewest(rows, path, m) && i <= m
    decreases |rows| - i
  {
    m := i;
    if j: nat :| i < j < |rows| && rows[j].path == path {
      m := SomeNewest(rows, path, j);
    }
  }

  lemma {:induction false} NewestCount(rows: seq<VacuumRow>, path: string, m: nat, n: nat)
    requires IsNewest(rows, path, m) && m < n <= |rows|
    ensures NewestLineCount(rows, path, n) == rows[m].lineCount
    decreases n
  {
    if n > m + 1 {
      NewestCount(rows, path, m, n - 1);
    }
  }

  lemma {:induction false} NewestOfKept(rows: seq<VacuumRow>, gone: seq<bool>, path: string, m: nat, n: nat)
    requires IsNewest(rows, path, m) && |gone| == |rows| && !gone[m] && m < n <= |rows|
    ensures
      var kept := Kept(rows, gone, n);
      NewestLineCount(kept, path, |kept|) == rows[m].lineCount
    decreases n
  {
    var kept, before := Kept(rows, gone, n), Kept(rows, gone, n - 1);
    if n > m + 1 {
      NewestOfKept(rows, gone, path, m, n - 1);
      if !gone[n - 1] {
        assert kept[|kept| - 1] == rows[n - 1];
        NewestOfPrefix(before, [rows[n - 1]], path, |before|);
      } else {
        assert kept == before;
      }
    } else {
      assert kept[|kept| - 1] == rows[m];
    }
  }

  lemma {:induction false} NewestOfPrefix(a: seq<VacuumRow>, b: seq<VacuumRow>, path: string, n: nat)
    requires n <= |a|
    ensures NewestLineCount(a + b, path, n) == NewestLineCount(a, path, n)
    decreases n
  {
    if n > 0 {
      NewestOfPrefix(a, b, path, n - 1);
    }
  }

  /** Where an unpinned version of a path stays, so does the path's newest one, and the window stays the same. */
  lemma {:induction false} SameWindow(rows: seq<VacuumRow>, pinned: set<nat>, gone: seq<bool>, i: nat)
    requires |gone| == |rows| && AllDecided(rows, pinned, gone, |rows|)
    requires i < |rows| && !gone[i] && rows[i].id !in pinned
    ensures RetentionOf(Kept(rows, gone, |rows|), rows[i].path) == RetentionOf(rows, rows[i].path)
  {
    var path := rows[i].path;
    var m := SomeNewest(rows, path, i);
    StayedWithin(rows, pinned, gone, i);
    HeldShrinks(rows, gone, i, m, path);
    assert Decided(rows, pinned, gone, m);
    NewestCount(rows, path, m, |rows|);
    NewestOfKept(rows, gone, path, m, |rows|);
  }

  lemma {:induction false} NothingGone(rows: seq<VacuumRow>, gone: seq<bool>, n: nat)
    requires n <= |rows| && n <= |gone| && forall i | 0 <= i < n :: !gone[i]
    ensures Held(rows, gone, n) == rows && Kept(rows, gone, n) == rows[..n]
    decreases n
  {
    if n > 0 {
      NothingGone(rows, gone, n - 1);
    }
  }

  /** A second sweep with the same pins evicts nothing. */
  lemma {:induction false} SecondSweep(
    rows: seq<VacuumRow>, pinned: set<nat>, gone: seq<bool>, again: seq<bool>, n: nat)
    requires |gone| == |rows| && AllDecided(rows, pinned, gone, |rows|)
    requires n <= |Kept(rows, gone, |rows|)| == |again|
    requires AllDecided(Kept(rows, gone, |rows|), pinned, again, |again|)
    ensures forall k | 0 <= k < n :: !again[k]
    decreases n
  {
    if n > 0 {
      var kept := Kept(rows, gone, |rows|);
      SecondSweep(rows, pinned, gone, again, n - 1);
      NothingGone(kept, again, n - 1);
      assert Decided(kept, pinned, again, n - 1);
      var i := KeptFrom(rows, gone, |rows|, n - 1);
      if rows[i].id !in pinned {
        StayedWithin(rows, pinned, gone, i);
        SameWindow(rows, pinned, gone, i);
      }
    }
  }

  // ---- the sweep itself ----

  /** What the running totals of the sweep stand for. */
  ghost predicate Tallies(rows: seq<VacuumRow>, counts: map<string, nat>, newest: map<string, nat>) {
    && (forall path :: (if path in counts then counts[path] else 0) == TotalCount(rows, path))
    && (forall path | path in newest :: newest[path] == NewestLineCount(rows, path, |rows|))
    && (forall i | 0 <= i < |rows| :: rows[i].path in newest && rows[i].path in counts)
  }

  method Tally(rows: seq<VacuumRow>) returns (newest: map<string, nat>, counts: map<string, nat>, total: nat)
    ensures total == TotalBytes(rows) && Tallies(rows, counts, newest)
  {
    newest, counts, total := map[], map[], 0;
    for i := 0 to |rows|
      invariant total == BytesOf(rows, i)
      invariant forall path :: (if path in counts then counts[path] else 0) == CountOf(rows, path, i)
      invariant forall path | path in newest :: newest[path] == NewestLineCount(rows, path, i)
      invariant forall k | 0 <= k < i :: rows[k].path in newest && rows[k].path in counts
    {
      var row := rows[i];
      newest := newest[row.path := row.lineCount];
      counts := counts[row.path := (if row.path in counts then counts[row.path] else 0) + 1];
      total := total + LineageBytes(row.lineCount);
    }
  }

  /** The ids that go, in order. */
  function GoneIds(rows: seq<VacuumRow>, gone: seq<bool>, n: nat): seq<nat>
    requires n <= |rows| && n <= |gone|
  {
    if n == 0 then [] else GoneIds(rows, gone, n - 1) + if gone[n - 1] then [rows[n - 1].id] else []
  }

  /** Decisions look only at the decisions before them. */
  lemma {:induction false} KeptPrefix(rows: seq<VacuumRow>, gone: seq<bool>, more: seq<bool>, n: nat)
    requires n <= |rows| && n <= |gone|
    ensures Kept(rows, gone + more, n) == Kept(rows, gone, n)
    decreases n
  {
    if n > 0 {
      KeptPrefix(rows, gone, more, n - 1);
    }
  }

  lemma {:induction false} GoneIdsPrefix(rows: seq<VacuumRow>, gone: seq<bool>, more: seq<bool>, n: nat)
    requires n <= |rows| && n <= |gone|
    ensures GoneIds(rows, gone + more, n) == GoneIds(rows, gone, n)
    decreases n
  {
    if n > 0 {
      GoneIdsPrefix(rows, gone, more, n - 1);
    }
  }

  lemma {:induction false} DecidedNext(rows: seq<VacuumRow>, pinned: set<nat>, gone: seq<bool>, flag: bool)
    requires |gone| < |rows| && AllDecided(rows, pinned, gone, |gone|)
    requires flag <==> rows[|gone|].id !in pinned
                       && (TotalBytes(Held(rows, gone, |gone|)) > VACUUM_GLOBAL_BUDGET_BYTES
                           || TotalCount(Held(rows, gone, |gone|), rows[|gone|].path)
                              > RetentionOf(rows, rows[|gone|].path))
    ensures AllDecided(rows, pinned, gone + [flag], |gone| + 1)
  {
    hide RetentionOf, TotalBytes, TotalCount;
    var after := gone + [flag];
    forall i | 0 <= i < |after| ensures Decided(rows, pinned, after, i) {
      KeptPrefix(rows, gone, [flag], i);
      assert Held(rows, after, i) == Held(rows, gone, i);
      assert i < |gone| ==> Decided(rows, pinned, gone, i);
    }
  }

  /** The counts of what is held. */
  ghost predicate CountsHeld(rows: seq<VacuumRow>, gone: seq<bool>, counts: map<string, nat>)
    requires |gone| <= |rows|
  {
    forall path :: (if path in counts then counts[path] else 0) == TotalCount(Held(rows, gone, |gone|), path)
  }

  lemma {:induction false} HeldAfter(rows: seq<VacuumRow>, gone: seq<bool>, flag: bool, path: string)
    requires |gone| < |rows|
    ensures TotalBytes(Held(rows, gone + [flag], |gone| + 1))
            == TotalBytes(Held(rows, gone, |gone|)) - if flag then LineageBytes(rows[|gone|].lineCount) else 0
    ensures TotalCount(Held(rows, gone + [flag], |gone| + 1), path)
            == TotalCount(Held(rows, gone, |gone|), path) - if flag && rows[|gone|].path == path then 1 else 0
  {
    KeptPrefix(rows, gone, [flag], |gone|);
    HeldNext(rows, gone + [flag], |gone|, path);
  }

  /** The row being looked at is held. */
  lemma {:induction false} CountPositive(rows: seq<VacuumRow>, gone: seq<bool>)
    requires |gone| < |rows|
    ensures TotalCount(Held(rows, gone, |gone|), rows[|gone|].path) > 0
  {
    var row, front, back := rows[|gone|], Kept(rows, gone, |gone|), rows[|gone| + 1..];
    assert rows[|gone|..] == [row] + back;
    SumsOfConcat([row], back, row.path, |back|);
    SumsOfConcat(front, rows[|gone|..], row.path, |rows[|gone|..]|);
    OneRow(row, row.path);
  }

  /** The state of the sweep after the rows decided so far. */
  ghost predicate Swept(
    rows: seq<VacuumRow>, pinned: set<nat>, gone: seq<bool>, evict: seq<nat>, total: int, counts: map<string, nat>,
    pinnedBytes: nat)
  {
    && |gone| <= |rows| && AllDecided(rows, pinned, gone, |gone|)
    && evict == GoneIds(rows, gone, |gone|)
    && total == TotalBytes(Held(rows, gone, |gone|))
    && CountsHeld(rows, gone, counts)
    && pinnedBytes == TotalBytes(PinnedRows(rows, pinned, |gone|))
  }

  lemma {:induction false} SweepStart(
    rows: seq<VacuumRow>, pinned: set<nat>, counts: map<string, nat>, newest: map<string, nat>)
    requires Tallies(rows, counts, newest)
    ensures Swept(rows, pinned, [], [], TotalBytes(rows), counts, 0)
  {
    assert Held(rows, [], 0) == rows;
  }

  lemma {:induction false} SweepNext(
    rows: seq<VacuumRow>, pinned: set<nat>, gone: seq<bool>, evict: seq<nat>, total: int, counts: map<string, nat>,
    pinnedBytes: nat, flag: bool)
    requires Swept(rows, pinned, gone, evict, total, counts, pinnedBytes) && |gone| < |rows|
    requires flag <==> rows[|gone|].id !in pinned
                       && (total > VACUUM_GLOBAL_BUDGET_BYTES
                           || TotalCount(Held(rows, gone, |gone|), rows[|gone|].path)
                              > RetentionOf(rows, rows[|gone|].path))
    ensures rows[|gone|].path in counts && counts[rows[|gone|].path] > 0
    ensures
      var row := rows[|gone|];
      var cost := LineageBytes(row.lineCount);
      Swept(rows, pinned, gone + [flag], if flag then evict + [row.id] else evict, if flag then total - cost else total,
            if flag then counts[row.path := counts[row.path] - 1] else counts,
            if row.id in pinned then pinnedBytes + cost else pinnedBytes)
  {
    hide Held, TotalCount, TotalBytes, AllDecided, RetentionOf, LineageBytes, Kept;
    var row, n, after := rows[|gone|], |gone|, gone + [flag];
    CountPositive(rows, gone);
    DecidedNext(rows, pinned, gone, flag);
    GoneIdsPrefix(rows, gone, [flag], n);
    AppendRow(PinnedRows(rows, pinned, n), row, row.id in pinned, row.path);
    forall path
      ensures TotalCount(Held(rows, after, n + 1), path)
              == TotalCount(Held(rows, gone, n), path) - if flag && row.path == path then 1 else 0
    {
      HeldAfter(rows, gone, flag, path);
    }
    HeldAfter(rows, gone, flag, row.path);
  }

  function Over(a: int, b: int): nat {
    if a > b then a - b else 0
  }

  /**
   One sweep over all versions, oldest first, by the rule of `Decided`: the ids to evict, and what is left.
   */
  method Sweep(rows: seq<VacuumRow>, pinned: set<nat>)
    returns (evict: seq<nat>, result: VacuumResult, ghost gone: seq<bool>)
    ensures |gone| == |rows| && AllDecided(rows, pinned, gone, |rows|)
    ensures evict == GoneIds(rows, gone, |rows|) && result.evicted == |evict|
    ensures forall id | id in evict :: id !in pinned
    ensures result.totalBytes == TotalBytes(Kept(rows, gone, |rows|))
    ensures result.pinnedBytes == TotalBytes(PinnedRows(rows, pinned, |rows|))
    ensures result.deferredBytes == Over(result.totalBytes, VACUUM_GLOBAL_BUDGET_BYTES)
    ensures result.overSoftOverflow <==> result.totalBytes > VACUUM_SOFT_OVERFLOW_BYTES
  {
    hide Held, TotalBytes, TotalCount, Kept, GoneIds, PinnedRows, AllDecided, PerPathRetention, NewestLineCount;
    var newest, counts, total := Tally(rows);
    evict, gone := [], [];
    var pinnedBytes := 0;
    SweepStart(rows, pinned, counts, newest);
    for i := 0 to |rows|
      invariant |gone| == i && Swept(rows, pinned, gone, evict, total, counts, pinnedBytes)
    {
      var row := rows[i];
      var cost := LineageBytes(row.lineCount);
      if row.id in pinned {
        SweepNext(rows, pinned, gone, evict, total, counts, pinnedBytes, false);
        pinnedBytes := pinnedBytes + cost;
        gone := gone + [false];
      } else {
        var retention := PerPathRetention(newest[row.path]);
        var retained := if row.path in counts then counts[row.path] else 0;
        if total > VACUUM_GLOBAL_BUDGET_BYTES || retained > retention {
          SweepNext(rows, pinned, gone, evict, total, counts, pinnedBytes, true);
          evict := evict + [row.id];
          total := total - cost;
          counts := counts[row.path := retained - 1];
          gone := gone + [true];
        } else {
          SweepNext(rows, pinned, gone, evict, total, counts, pinnedBytes, false);
          gone := gone + [false];
        }
      }
    }
    HeldEnds(rows, gone);
    PinnedStay(rows, pinned, gone, |rows|);
    var over := Over(total, VACUUM_GLOBAL_BUDGET_BYTES);
    result := VacuumResult(|evict|, total, pinnedBytes, over,
                           over > VACUUM_SOFT_OVERFLOW_BYTES - VACUUM_GLOBAL_BUDGET_BYTES);
  }

  // ---- the rows of the tables ----

  /** Every version once, oldest first, ties by id. */
  ghost predicate Lists(t: Tables, rows: seq<VacuumRow>) {
    && (forall i | 0 <= i < |rows| :: rows[i].id in t.snapshots
          && rows[i].path == t.snapshots[rows[i].id].path && rows[i].lineCount == t.snapshots[rows[i].id].lineCount)
    && (forall i, j | 0 <= i < j < |rows| ::
          && rows[i].id != rows[j].id
          && (rows[i].id in t.snapshots && rows[j].id in t.snapshots ==>
                var a, b := t.snapshots[rows[i].id].createdAt, t.snapshots[rows[j].id].createdAt;
                a < b || (a == b && rows[i].id < rows[j].id)))
    && (forall id | id in t.snapshots :: exists i :: 0 <= i < |rows| && rows[i].id == id)
  }

  /** All pinned versions, and the ones a serve in flight protects. */
  function PinnedIds(t: Tables, undo: UndoTargets, protect: set<nat>, now: int): set<nat> {
    (set id | id in t.snapshots && Pinned(t, undo, now, id)) + protect
  }

  function IdSet(ids: seq<nat>): set<nat> {
    set k | 0 <= k < |ids| :: ids[k]
  }

  // ---- the policy in numbers ----

  lemma {:induction false} QuotientBounds(total: nat, unit: nat)
    requires unit > 0
    ensures total / unit * unit <= total < (total / unit + 1) * unit
  {
  }

  lemma {:induction false} MoreUnits(a: nat, b: nat, unit: nat)
    requires a <= b
    ensures a * unit <= b * unit
  {
  }

  /**
   The window of a path: between two and ten versions, and within those limits as many as fit ten megabytes at
   forty bytes a line, where an empty file counts as one line.
   */
  lemma {:induction false} RetentionExactly(newestLineCount: nat)
    ensures
      var r, bytes := PerPathRetention(newestLineCount), 40 * if newestLineCount == 0 then 1 else newestLineCount;
      && 2 <= r <= 10
      && (r > 2 ==> r * bytes <= 10_485_760)
      && (r < 10 ==> (r + 1) * bytes > 10_485_760)
  {
    var bytes := 40 * if newestLineCount == 0 then 1 else newestLineCount;
    var r, fit := PerPathRetention(newestLineCount), 10_485_760 / bytes;
    QuotientBounds(10_485_760, bytes);
    assert r == if fit < 2 then 2 else if fit > 10 then 10 else fit;
    if r > 2 {
      MoreUnits(r, fit, bytes);
    }
    if r < 10 {
      MoreUnits(fit + 1, r + 1, bytes);
    }
  }

  /** A lease holds its version for seven days after its last use, and for one hour after it was retired. */
  predicate HoldsVersion(lease: LeaseRow, now: int) {
    if lease.retiredAt.Some? then now - lease.retiredAt.value <= 3_600_000 else now - lease.updatedAt <= 604_800_000
  }

  /** Exactly the versions that are pinned: those a lease of their path holds, or an undo can restore. */
  lemma {:induction false} PinnedExactly(t: Tables, undo: UndoTargets, protect: set<nat>, now: int, id: nat)
    requires id in t.snapshots
    ensures id in PinnedIds(t, undo, protect, now) <==>
              || id in protect
              || (t.snapshots[id].path, t.snapshots[id].key) in undo
              || exists k :: k in t.leases && k.path == t.snapshots[id].path
                             && t.leases[k].key == t.snapshots[id].key && HoldsVersion(t.leases[k], now)
  {
    if k :| k in t.leases && k.path == t.snapshots[id].path && t.leases[k].key == t.snapshots[id].key
            && HoldsVersion(t.leases[k], now) {
      assert Pins(t.leases[k], now);
    }
    if k :| k in t.leases && k.path == t.snapshots[id].path && t.leases[k].key == t.snapshots[id].key
            && Pins(t.leases[k], now) {
      assert HoldsVersion(t.leases[k], now);
    }
  }

  /** Row i as the sweep sees it: everything that comes after it is still there, and before it what stayed. */
  ghost predicate StillHeld(gone: seq<bool>, i: nat, j: nat) {
    j >= i || (j < |gone| && !gone[j])
  }

  /** The bytes of the first n rows that are still held when row i is looked at. */
  ghost function HeldBytes(rows: seq<VacuumRow>, gone: seq<bool>, i: nat, n: nat): nat
    requires n <= |rows|
  {
    if n == 0 then 0
    else
      HeldBytes(rows, gone, i, n - 1)
      + if StillHeld(gone, i, n - 1) then 40 * (if rows[n - 1].lineCount == 0 then 1 else rows[n - 1].lineCount) else 0
  }

  /** The versions of a path among the first n rows that are still held when row i is looked at. */
  ghost function HeldOfPath(rows: seq<VacuumRow>, gone: seq<bool>, i: nat, path: string, n: nat): nat
    requires n <= |rows|
  {
    if n == 0 then 0
    else
      HeldOfPath(rows, gone, i, path, n - 1)
      + if StillHeld(gone, i, n - 1) && rows[n - 1].path == path then 1 else 0
  }

  lemma {:induction false} KeptSums(rows: seq<VacuumRow>, gone: seq<bool>, i: nat, path: string, n: nat)
    requires n <= i <= |rows| && i <= |gone|
    ensures HeldBytes(rows, gone, i, n) == TotalBytes(Kept(rows, gone, n))
    ensures HeldOfPath(rows, gone, i, path, n) == TotalCount(Kept(rows, gone, n), path)
    decreases n
  {
    hide TotalBytes, TotalCount;
    if n > 0 {
      KeptSums(rows, gone, i, path, n - 1);
      AppendRow(Kept(rows, gone, n - 1), rows[n - 1], !gone[n - 1], path);
    } else {
      NothingHeld(path);
    }
  }

  lemma {:induction false} NothingHeld(path: string)
    ensures TotalBytes([]) == 0 && TotalCount([], path) == 0
  {
  }

  lemma {:induction false} HeldSums(rows: seq<VacuumRow>, gone: seq<bool>, i: nat, path: string, n: nat)
    requires i <= n <= |rows| && i <= |gone|
    ensures HeldBytes(rows, gone, i, n) == TotalBytes(Kept(rows, gone, i) + rows[i..n])
    ensures HeldOfPath(rows, gone, i, path, n) == TotalCount(Kept(rows, gone, i) + rows[i..n], path)
    decreases n
  {
    hide TotalBytes, TotalCount, Kept;
    if n > i {
      HeldSums(rows, gone, i, path, n - 1);
      AppendRow(Kept(rows, gone, i) + rows[i..n - 1], rows[n - 1], true, path);
      assert Kept(rows, gone, i) + rows[i..n] == Kept(rows, gone, i) + rows[i..n - 1] + [rows[n - 1]];
    } else {
      KeptSums(rows, gone, i, path, i);
      assert Kept(rows, gone, i) + rows[i..i] == Kept(rows, gone, i);
    }
  }

  /**
   Exactly which versions a sweep takes: those that are not pinned, and at whose turn either more than fifty
   megabytes are held or more versions of their path than its newest one allows.
   */
  lemma {:induction false} EvictedExactly(rows: seq<VacuumRow>, pinned: set<nat>, gone: seq<bool>, i: nat, m: nat)
    requires |gone| == |rows| && AllDecided(rows, pinned, gone, |rows|) && i < |rows|
    requires m < |rows| && rows[m].path == rows[i].path && forall j | m < j < |rows| :: rows[j].path != rows[i].path
    ensures gone[i] <==>
              && rows[i].id !in pinned
              && (|| HeldBytes(rows, gone, i, |rows|) > 52_428_800
                  || HeldOfPath(rows, gone, i, rows[i].path, |rows|) > PerPathRetention(rows[m].lineCount))
  {
    hide TotalBytes, TotalCount, HeldBytes, HeldOfPath, Kept, PerPathRetention;
    assert Decided(rows, pinned, gone, i);
    HeldSums(rows, gone, i, rows[i].path, |rows|);
    NewestCount(rows, rows[i].path, m, |rows|);
    assert rows[i..|rows|] == rows[i..];
  }
}
