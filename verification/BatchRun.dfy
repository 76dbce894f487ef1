/**
 A batch of edits to one file. Every item is first tried against the original buffer; then the items run
 one after another on the buffer as it changes, each verified again against what the session was shown.
 */
module BatchRun {
  import opened Numbers
  import opened Options
  import opened TextLines
  import opened LineSplice
  import opened HashAssign
  import opened StableHashes
  import opened BufferIdentity
  import opened ServedRange
  import opened Provenance
  import opened BatchTracking
  import opened BatchEdit
  import opened BatchHistory

  /** Named failing items, one item that failed on the working buffer, or a new text. */
  datatype Outcome =
    | Aborted(failed: seq<nat>)
    | Stopped(at: nat, reason: Reason)
    | Done(content: string, hashes: seq<string>, applied: seq<bool>, newlyRetired: set<string>)

  /**
   The evidence for a buffer: leases when there is a book and the identities are known, the mirror alone otherwise.
   */
  function RouteOf(session: Session, positions: Option<map<nat, nat>>): Route {
    if session.book.None? || positions.None? then MirrorOnly
    else Leased(LeaseSource(session.book.value.leases, positions.value, session.book.value.elsewhere))
  }

  // ---- the pre-pass ----

  /** The item's range was resolved in this buffer and is, by this evidence, what the session was shown. */
  ghost predicate Accepts(
    c: Check, content: string, hashes: seq<string>, item: Item, session: Session, retired: set<string>, route: Route)
  {
    Checks(c, content, item, hashes, session, retired, route) && c.Verified()
  }

  ghost predicate AllAccepted(
    checks: seq<Check>, content: string, hashes: seq<string>, items: seq<Item>, session: Session, route: Route)
  {
    && |checks| == |items|
    && forall i | 0 <= i < |items| :: Accepts(checks[i], content, hashes, items[i], session, session.retired, route)
  }

  ghost predicate Passes(c: Check, content: string, hashes: seq<string>, item: Item, session: Session, route: Route) {
    && Accepts(c, content, hashes, item, session, session.retired, route)
    && EditOf(c, item).Fits(SplitLines(content)) && !Empties(content, EditOf(c, item))
  }

  /** By itself, the item would be applied to the original buffer. */
  ghost predicate Acceptable(content: string, hashes: seq<string>, item: Item, session: Session, route: Route) {
    exists c :: Passes(c, content, hashes, item, session, route)
  }

  lemma {:induction false} DecidesAcceptable(
    r: EditOutcome, c: Check, content: string, hashes: seq<string>, item: Item, session: Session, route: Route)
    requires r == Refused(StaleAnchor) <==> !Unambiguous(hashes, item)
    requires r != Refused(StaleAnchor) ==>
               Checks(c, content, item, hashes, session, session.retired, route)
               && EditOf(c, item).Fits(SplitLines(content)) && EditDecided(r, c, content, item)
    ensures r.Edited? <==> Acceptable(content, hashes, item, session, route)
    ensures r.Edited? ==> Accepts(c, content, hashes, item, session, session.retired, route)
  {
    hide SplitLines, Check.Verified, LeavesNothing, Sole, SplicedText;
    if r.Edited? {
      assert Passes(c, content, hashes, item, session, route);
    }
    forall d | Passes(d, content, hashes, item, session, route) ensures r.Edited? {
      ChecksResolve(d, content, hashes, item, session, session.retired, route);
      OneCheck(c, d, content, item, hashes, session, session.retired, route);
    }
  }

  lemma {:induction false} ChecksResolve(
    c: Check, content: string, hashes: seq<string>, item: Item, session: Session, retired: set<string>, route: Route)
    requires Checks(c, content, item, hashes, session, retired, route)
    ensures Unambiguous(hashes, item)
  {
    hide SplitLines, Sole;
    var p, q := c.lines.startLine - 1, c.lines.endLine - 1;
    assert Sole(hashes, c.bounds.startHash, p) && Sole(hashes, c.bounds.endHash, q);
  }

  ghost predicate AllAcceptable(
    content: string, hashes: seq<string>, items: seq<Item>, session: Session, route: Route)
  {
    forall i | 0 <= i < |items| :: Acceptable(content, hashes, items[i], session, route)
  }

  /** The numbers of the items that are not acceptable by themselves, and no others. */
  ghost predicate NamesRefused(
    failed: seq<nat>, content: string, hashes: seq<string>, items: seq<Item>, session: Session, route: Route)
  {
    forall i: nat :: i in failed <==> i < |items| && !Acceptable(content, hashes, items[i], session, route)
  }

  lemma {:induction false} NoneRefused(
    failed: seq<nat>, content: string, hashes: seq<string>, items: seq<Item>, session: Session, route: Route)
    requires NamesRefused(failed, content, hashes, items, session, route)
    ensures failed == [] <==> AllAcceptable(content, hashes, items, session, route)
  {
    hide Acceptable;
    if failed != [] {
      assert failed[0] in failed;
    }
  }

  /** Every item against the original buffer: exactly the items that are not acceptable by themselves are named. */
  method PrePass(content: string, hashes: seq<string>, items: seq<Item>, session: Session, route: Route)
    returns (failed: seq<nat>, ghost checks: seq<Check>)
    requires |hashes| == |SplitLines(content)| && forall i | 0 <= i < |items| :: AllLines(items[i].contentLines)
    ensures NamesRefused(failed, content, hashes, items, session, route)
    ensures failed == [] ==> AllAccepted(checks, content, hashes, items, session, route)
  {
    hide SplitLines, Check.Verified, Checks, Unambiguous, Acceptable, EditDecided;
    failed, checks := [], [];
    for i := 0 to |items|
      invariant |checks| == i
      invariant forall k: nat :: k in failed <==> k < i && !Acceptable(content, hashes, items[k], session, route)
      invariant failed == [] ==> forall k | 0 <= k < i ::
                  Accepts(checks[k], content, hashes, items[k], session, session.retired, route)
    {
      ghost var c, middle;
      var r;
      r, c, middle := ApplyEdit(content, items[i], hashes, session, session.retired, route);
      DecidesAcceptable(r, c, content, hashes, items[i], session, route);
      checks := checks + [c];
      if r.Refused? { failed := failed + [i]; }
    }
  }

  ghost function RangesOf(checks: seq<Check>): (r: seq<Lines>)
    ensures |r| == |checks| && forall i | 0 <= i < |r| :: r[i] == checks[i].lines
  {
    seq(|checks|, i requires 0 <= i < |checks| => checks[i].lines)
  }

  /** The ranges the items name on the original buffer. */
  ghost predicate Named(hashes: seq<string>, items: seq<Item>, ranges: seq<Lines>) {
    |ranges| == |items| && forall i | 0 <= i < |items| :: Names(hashes, items[i].bounds, ranges[i])
  }

  ghost predicate Names(hashes: seq<string>, given: Bounds, range: Lines) {
    exists bounds :: ResolvesTo(hashes, given, bounds, range)
  }

  lemma {:induction false} RangesNamed(
    checks: seq<Check>, content: string, hashes: seq<string>, items: seq<Item>, session: Session, route: Route)
    requires AllAccepted(checks, content, hashes, items, session, route)
    ensures |RangesOf(checks)| == |items|
    ensures Named(hashes, items, RangesOf(checks)) && RangesFit(RangesOf(checks), |SplitLines(content)|)
  {
    hide SplitLines, Check.Verified, Sole;
    var ranges := RangesOf(checks);
    forall i | 0 <= i < |items|
      ensures Names(hashes, items[i].bounds, ranges[i])
      ensures 1 <= checks[i].lines.startLine <= checks[i].lines.endLine <= |SplitLines(content)|
    {
      assert Accepts(checks[i], content, hashes, items[i], session, session.retired, route);
      assert ResolvesTo(hashes, items[i].bounds, checks[i].bounds, ranges[i]);
    }
  }

  // ---- identities on the working buffer ----

  ghost predicate LinesWithin(ids: Option<LineIds>, lines: Lines) {
    ids.Some? ==> 1 <= lines.startLine <= lines.endLine <= |ids.value|
  }

  /** The identities of the working buffer after an applied item. */
  function AdvancedIds(ids: Option<LineIds>, lines: Lines, lineCount: nat): Option<LineIds>
    requires LinesWithin(ids, lines)
  {
    if ids.None? then None else Some(SpliceWorkingBufferIds(ids.value, lines.startLine, lines.endLine, lineCount))
  }

  lemma {:induction false} AdvanceIds(ids: Option<LineIds>, lines: Lines, lineCount: nat, oldCount: nat, middle: nat)
    requires IdsSound(ids, oldCount)
    requires 1 <= lines.startLine <= lines.endLine <= oldCount
    requires lineCount == oldCount - (lines.endLine - lines.startLine + 1) + middle
    ensures LinesWithin(ids, lines) && IdsSound(AdvancedIds(ids, lines, lineCount), lineCount)
  {
    if ids.Some? {
      SpliceDistinct(ids.value, lines.startLine, lines.endLine, lineCount);
    }
  }

  /** The working identity map is the original one, on the original lines that are left; lines put there carry none. */
  ghost predicate IdsFollow(original: Option<LineIds>, ids: Option<LineIds>, cells: Cells) {
    && (original.Some? <==> ids.Some?)
    && (ids.Some? ==>
          && |ids.value| == |cells| && Within(cells, |original.value|)
          && forall k | 0 <= k < |cells| :: ids.value[k] == if cells[k].Orig? then original.value[cells[k].i] else None)
  }

  lemma {:induction false} IdsFollowStart(ids: Option<LineIds>, lineCount: nat)
    requires ids.Some? ==> |ids.value| == lineCount
    ensures IdsFollow(ids, ids, Origs(0, lineCount))
  {
  }

  /** The map advances past an applied item as the lines do. */
  lemma {:induction false} IdsFollowSplice(
    original: Option<LineIds>, ids: Option<LineIds>, cells: Cells, lines: Lines, middle: seq<string>, lineCount: nat)
    requires IdsFollow(original, ids, cells) && 1 <= lines.startLine <= lines.endLine <= |cells|
    requires lineCount == |cells| - (lines.endLine - lines.startLine + 1) + |middle|
    ensures LinesWithin(ids, lines)
    ensures IdsFollow(original, AdvancedIds(ids, lines, lineCount),
                      SpliceCells(cells, lines.startLine - 1, lines.endLine, middle))
  {
    if ids.Some? {
      var after := SpliceCells(cells, lines.startLine - 1, lines.endLine, middle);
      var newIds := SpliceWorkingBufferIds(ids.value, lines.startLine, lines.endLine, lineCount);
      var from, shift := lines.startLine - 1, |after| - |cells|;
      forall k | 0 <= k < |after|
        ensures after[k].Orig? ==> after[k].i < |original.value|
        ensures newIds[k] == if after[k].Orig? then original.value[after[k].i] else None
      {
        if k < from {
          assert after[k] == cells[k] && newIds[k] == ids.value[k];
        } else if k >= from + |middle| {
          assert after[k] == cells[k - shift] && newIds[k] == ids.value[k - shift];
        }
      }
    }
  }

  /**
   The evidence for the working buffer: its route is the leased one if there is a book and the identities are
   known.
   */
  ghost predicate RouteFits(session: Session, ids: Option<LineIds>, route: Route) {
    && (route.Leased? <==> session.book.Some? && ids.Some?)
    && (route.Leased? ==>
          && route.source.leases == session.book.value.leases && route.source.elsewhere == session.book.value.elsewhere
          && SameIdentities(ids.value, route.source.positions))
  }

  method RouteFor(session: Session, ids: Option<LineIds>, ghost lineCount: nat) returns (route: Route)
    requires IdsSound(ids, lineCount)
    ensures RouteFits(session, ids, route)
  {
    if ids.None? { return MirrorOnly; }
    var positions := PositionsFromIds(ids.value);
    return RouteOf(session, Some(positions));
  }

  lemma {:induction false} SameDistinct(ids: LineIds, positions: map<nat, nat>)
    requires SameIdentities(ids, positions)
    ensures DistinctIds(ids)
  {
  }

  // ---- when an accepted item is accepted again ----

  /** No item applied so far touches the range of the next one. */
  ghost predicate Untouched(h: History)
    requires |h.applied| < |h.ranges|
  {
    forall j | 0 <= j < |h.applied| && h.applied[j] :: DisjointLines(h.ranges[j], h.ranges[|h.applied|])
  }

  /** By how many lines the items applied so far moved the range of the next one. */
  ghost function ShiftOf(h: History): int
    requires |h.sizes| == |h.applied| < |h.ranges|
  {
    h.NetShift(|h.applied|, Dec(h.ranges[|h.applied|].startLine))
  }

  lemma {:induction false} OneShift(h: History, n: nat, x: nat)
    requires |h.sizes| == |h.applied| < |h.ranges| && n <= |h.applied| && Untouched(h)
    requires 1 <= h.ranges[|h.applied|].startLine <= x + 1 <= h.ranges[|h.applied|].endLine
    requires forall j | 0 <= j < n :: h.ranges[j].startLine <= h.ranges[j].endLine
    ensures h.NetShift(n, x) == h.NetShift(n, h.ranges[|h.applied|].startLine - 1)
    decreases n
  {
    if n > 0 {
      OneShift(h, n - 1, x);
    }
  }

  /** The lines of an untouched range stand together in the working buffer, moved by one shift. */
  lemma {:induction false} StandsShifted(o: Original, cells: Cells, h: History, x: nat)
    requires h.Fits(o) && h.Located(cells) && h.OthersLeft(o, cells) && |h.applied| < |h.ranges| && Untouched(h)
    requires h.ranges[|h.applied|].startLine <= x + 1 <= h.ranges[|h.applied|].endLine
    ensures 0 <= x + ShiftOf(h) < |cells| && cells[x + ShiftOf(h)] == Orig(x)
  {
    hide History.NetShift;
    forall j | 0 <= j < |h.applied| && h.applied[j] ensures !(h.ranges[j].startLine <= x + 1 <= h.ranges[j].endLine) {
      assert DisjointLines(h.ranges[j], h.ranges[|h.applied|]);
    }
    assert Present(cells, x);
    var k :| 0 <= k < |cells| && cells[k] == Orig(x);
    OneShift(h, |h.applied|, x);
  }

  /** Where the identities of the original buffer are known, and the working map follows them. */
  ghost predicate Evidence(
    session: Session, positions: Option<map<nat, nat>>, firstIds: Option<LineIds>, ids: Option<LineIds>, cells: Cells,
    working: Route)
  {
    && (firstIds.Some? <==> positions.Some?) && (positions.Some? ==> SameIdentities(firstIds.value, positions.value))
    && IdsFollow(firstIds, ids, cells) && RouteFits(session, ids, working)
  }

  /** A live lease that stood for a line stands for it where it is now. */
  lemma {:induction false} LeaseMoves(
    session: Session, positions: Option<map<nat, nat>>, firstIds: Option<LineIds>, ids: Option<LineIds>, cells: Cells,
    working: Route, anchor: string, x: nat, k: nat)
    requires Evidence(session, positions, firstIds, ids, cells, working)
    requires k < |cells| && cells[k] == Orig(x) && RouteOf(session, positions).Leased?
    requires LeasedAt(RouteOf(session, positions).source, anchor, x + 1)
    ensures working.Leased? && LeasedAt(working.source, anchor, k + 1)
  {
    var lease := session.book.value.leases[anchor];
    assert firstIds.value[x] == Some(lease.lineId);
    assert ids.value[k] == Some(lease.lineId);
  }

  lemma {:induction false} SoleOfDistinct(hashes: seq<string>, k: nat)
    requires Distinct(hashes) && k < |hashes|
    ensures Sole(hashes, hashes[k], k)
  {
    forall j: nat | j < |hashes| && hashes[j] == hashes[k] ensures j == k {
      OneIndex(hashes, j, k);
    }
  }

  /** Everything known about the next item before it runs. */
  ghost predicate Ready(
    o: Original, terminated: bool, b: Buffer, cells: Cells, reserved: set<string>, h: History, c: Check,
    content: string,
    session: Session, positions: Option<map<nat, nat>>, firstIds: Option<LineIds>, working: Route)
  {
    && Running(o, terminated, b, cells, reserved, h) && |h.sizes| == |h.applied| < |h.items| == |h.ranges|
    && o.lines == SplitLines(content) && o.served == session.served
    && Accepts(c, content, o.hashes, h.items[|h.applied|], session, session.retired, RouteOf(session, positions))
    && c.lines == h.ranges[|h.applied|]
    && Evidence(session, positions, firstIds, b.ids, cells, working)
  }

  /** The check of the range where it stands now. */
  ghost function CheckThere(c: Check, b: Buffer, shift: int, retired: set<string>, working: Route): Check
    requires c.lines.startLine + shift >= 0 && c.lines.endLine + shift >= 0
  {
    Check(c.served, c.bounds, Lines(c.lines.startLine + shift, c.lines.endLine + shift), b.hashes,
          SplitLines(b.content), c.servedCanons, retired, working)
  }

  lemma {:induction false} LineThere(
    o: Original, terminated: bool, b: Buffer, cells: Cells, reserved: set<string>, h: History, x: nat)
    requires Running(o, terminated, b, cells, reserved, h) && |h.applied| < |h.items| && Untouched(h)
    requires h.ranges[|h.applied|].startLine <= x + 1 <= h.ranges[|h.applied|].endLine
    ensures
      var k := x + ShiftOf(h);
      && 0 <= k < |cells| == |b.hashes| == |SplitLines(b.content)| && cells[k] == Orig(x) && x < |o.hashes| == |o.lines|
      && b.hashes[k] == o.hashes[x] && SplitLines(b.content)[k] == o.lines[x]
  {
    hide SplitLines, Anchors, Distinct, GoneReserved, Ascending, History.AtOnce, History.NoOverlap, History.AppliedGone;
    hide Separate, Known, Untouched, History.Located, History.OthersLeft;
    StandsShifted(o, cells, h, x);
  }

  lemma {:induction false} ResolvesThere(
    o: Original, terminated: bool, b: Buffer, cells: Cells, reserved: set<string>, h: History, c: Check,
    content: string,
    session: Session, positions: Option<map<nat, nat>>, firstIds: Option<LineIds>, working: Route, retired: set<string>)
    requires Ready(o, terminated, b, cells, reserved, h, c, content, session, positions, firstIds, working)
    requires Untouched(h)
    ensures c.Resolved() && c.lines.startLine + ShiftOf(h) >= 1
    ensures CheckThere(c, b, ShiftOf(h), retired, working).Resolved()
  {
    hide SplitLines, Anchors, GoneReserved, Ascending, History.AtOnce, History.NoOverlap, History.AppliedGone;
    hide Separate, Known, Untouched, History.Located, History.OthersLeft, Check.Verified, AnchorsTrack, Distinct;
    hide IdsFollow, SameIdentities, ShiftOf, Tracks, Sole;
    SoleIs(o.hashes, c.bounds.startHash, c.lines.startLine - 1);
    SoleIs(o.hashes, c.bounds.endHash, c.lines.endLine - 1);
    LineThere(o, terminated, b, cells, reserved, h, c.lines.startLine - 1);
    LineThere(o, terminated, b, cells, reserved, h, c.lines.endLine - 1);
    SoleOfDistinct(b.hashes, c.lines.startLine - 1 + ShiftOf(h));
    SoleOfDistinct(b.hashes, c.lines.endLine - 1 + ShiftOf(h));
  }

  lemma {:induction false} SoleIs(hashes: seq<string>, hash: string, p: nat)
    requires Sole(hashes, hash, p)
    ensures p < |hashes| && hashes[p] == hash
  {
  }

  /** The range of an untouched item is there as it was, moved by one shift. */
  lemma {:induction false} MovesThere(
    o: Original, terminated: bool, b: Buffer, cells: Cells, reserved: set<string>, h: History, c: Check,
    content: string,
    session: Session, positions: Option<map<nat, nat>>, firstIds: Option<LineIds>, working: Route, retired: set<string>)
    requires Ready(o, terminated, b, cells, reserved, h, c, content, session, positions, firstIds, working)
    requires Untouched(h) && c.lines.startLine + ShiftOf(h) >= 1
    requires CheckThere(c, b, ShiftOf(h), retired, working).Resolved()
    ensures Moved(c, CheckThere(c, b, ShiftOf(h), retired, working), ShiftOf(h))
  {
    hide SplitLines, Check.Verified, Untouched, Running, IdsFollow, SameIdentities, ShiftOf, LeasedAt, Sole;
    var d := CheckThere(c, b, ShiftOf(h), retired, working);
    SameKind(session, positions, firstIds, b.ids, cells, working);
    forall k: nat | k < c.Count() ensures LineMoved(c, d, k) {
      LineThere(o, terminated, b, cells, reserved, h, c.lines.startLine - 1 + k);
      if c.route.Leased? && LeasedAt(c.route.source, c.fileHashes[c.lines.startLine - 1 + k], c.lines.startLine + k) {
        LeaseMoves(session, positions, firstIds, b.ids, cells, working, c.fileHashes[c.lines.startLine - 1 + k],
                   c.lines.startLine - 1 + k, c.lines.startLine - 1 + k + ShiftOf(h));
      }
    }
  }

  lemma {:induction false} SameKind(
    session: Session, positions: Option<map<nat, nat>>, firstIds: Option<LineIds>, ids: Option<LineIds>, cells: Cells,
    working: Route)
    requires Evidence(session, positions, firstIds, ids, cells, working)
    ensures RouteOf(session, positions).Leased? <==> working.Leased?
  {
  }

  /**
   Exactly when an item that was accepted on the original buffer, and whose range no applied item touches, is
   accepted again: with leases always; on the mirror alone if and only if the items applied so far moved it by
   nothing.
   */
  lemma {:induction false} AcceptedAgain(
    o: Original, terminated: bool, b: Buffer, cells: Cells, reserved: set<string>, h: History, c: Check,
    content: string,
    session: Session, positions: Option<map<nat, nat>>, firstIds: Option<LineIds>, working: Route, retired: set<string>,
    d: Check)
    requires Ready(o, terminated, b, cells, reserved, h, c, content, session, positions, firstIds, working)
    requires Untouched(h)
    ensures Unambiguous(b.hashes, h.items[|h.applied|])
    ensures Checks(d, b.content, h.items[|h.applied|], b.hashes, session, retired, working) ==>
              (d.Verified() <==> RouteOf(session, positions).Leased? || ShiftOf(h) == 0)
  {
    hide SplitLines, Check.Verified, Untouched, Running, IdsFollow, SameIdentities, ShiftOf, Sole, Moved, Unambiguous;
    hide Evidence;
    ResolvesThere(o, terminated, b, cells, reserved, h, c, content, session, positions, firstIds, working, retired);
    MovesThere(o, terminated, b, cells, reserved, h, c, content, session, positions, firstIds, working, retired);
    var there, item := CheckThere(c, b, ShiftOf(h), retired, working), h.items[|h.applied|];
    MovedAcceptance(c, there, ShiftOf(h));
    ChecksResolve(there, b.content, b.hashes, item, session, retired, working);
    if Checks(d, b.content, item, b.hashes, session, retired, working) {
      OneCheck(d, there, b.content, item, b.hashes, session, retired, working);
    }
  }

  // ---- what a run leaves to be told ----

  /** The moment before one item runs on the working buffer, and the check of that item there. */
  datatype Stage = Stage(buffer: Buffer, cells: Cells, retired: set<string>, history: History, check: Check)

  /**
   A run seen from outside: the checks on the original buffer, the stages, which items were applied and how many lines
   they put down, the provenance of the last buffer, the identity map at the start, and the last buffer.
   */
  datatype Trace = Trace(
    checks: seq<Check>, stages: seq<Stage>, applied: seq<bool>, sizes: seq<nat>, cells: Cells,
    firstIds: Option<LineIds>, last: Buffer)

  /** The buffer of a stage is told by its cells: texts, anchors and identities. */
  ghost predicate StageFits(s: Stage, h: History, o: Original, firstIds: Option<LineIds>) {
    && s.history == h && |h.sizes| == |h.applied| < |h.items| == |h.ranges|
    && |s.buffer.hashes| == |s.cells|
    && SplitLines(s.buffer.content) == Texts(o.lines, s.cells) && AnchorsTrack(o, s.buffer.hashes, s.cells)
    && IdsFollow(firstIds, s.buffer.ids, s.cells)
  }

  /**
   The item was accepted again; on the mirror alone, if nothing applied touches its range, because nothing moved
   it.
   */
  ghost predicate StagePassed(s: Stage, item: Item, session: Session, leased: bool) {
    && Accepts(s.check, s.buffer.content, s.buffer.hashes, item, session, s.retired, s.check.route)
    && session.retired <= s.retired
    && RouteFits(session, s.buffer.ids, s.check.route) && (s.check.route.Leased? <==> leased)
    && |s.history.sizes| == |s.history.applied| < |s.history.ranges|
    && (Untouched(s.history) && !leased ==> ShiftOf(s.history) == 0)
  }

  /**
   The item was not accepted again, or left nothing, or found no anchors. If nothing applied touches its range, it is
   refused exactly when the mirror is the only evidence and the items before moved it.
   */
  ghost predicate StageStopped(s: Stage, item: Item, session: Session, leased: bool, reason: Reason) {
    && (reason.StaleAnchor? <==> !Unambiguous(s.buffer.hashes, item))
    && (!reason.StaleAnchor? ==>
          && Checks(s.check, s.buffer.content, item, s.buffer.hashes, session, s.retired, s.check.route)
          && EditOf(s.check, item).Fits(SplitLines(s.buffer.content))
          && StepDecided(Failed(reason), s.check, s.buffer.content, s.buffer.hashes, item, session, s.retired))
    && |s.history.sizes| == |s.history.applied| < |s.history.ranges|
    && (Untouched(s.history) ==>
          !reason.StaleAnchor? && (reason.Unserved? <==> !leased && ShiftOf(s.history) != 0))
  }

  ghost predicate StagesFit(
    stages: seq<Stage>, applied: seq<bool>, sizes: seq<nat>, o: Original, items: seq<Item>, ranges: seq<Lines>,
    session: Session, firstIds: Option<LineIds>, leased: bool)
  {
    && |stages| == |applied| == |sizes| <= |items|
    && forall k | 0 <= k < |stages| ::
         StageFits(stages[k], History(items, ranges, applied[..k], sizes[..k]), o, firstIds)
         && StagePassed(stages[k], items[k], session, leased)
  }

  lemma {:induction false} StagesNext(
    stages: seq<Stage>, applied: seq<bool>, sizes: seq<nat>, o: Original, items: seq<Item>, ranges: seq<Lines>,
    session: Session, firstIds: Option<LineIds>, leased: bool, s: Stage, flag: bool, size: nat)
    requires StagesFit(stages, applied, sizes, o, items, ranges, session, firstIds, leased) && |stages| < |items|
    requires StageFits(s, History(items, ranges, applied, sizes), o, firstIds)
    requires StagePassed(s, items[|stages|], session, leased)
    ensures StagesFit(stages + [s], applied + [flag], sizes + [size], o, items, ranges, session, firstIds, leased)
  {
    hide StageFits, StagePassed;
    var more := stages + [s];
    forall k | 0 <= k < |more|
      ensures StageFits(more[k], History(items, ranges, (applied + [flag])[..k], (sizes + [size])[..k]), o, firstIds)
      ensures StagePassed(more[k], items[k], session, leased)
    {
      assert (applied + [flag])[..k] == applied[..k] && (sizes + [size])[..k] == sizes[..k];
      if k == |stages| {
        assert applied[..k] == applied && sizes[..k] == sizes;
      }
    }
  }

  lemma {:induction false} NoStages(
    o: Original, items: seq<Item>, ranges: seq<Lines>, session: Session, firstIds: Option<LineIds>, leased: bool)
    ensures StagesFit([], [], [], o, items, ranges, session, firstIds, leased)
  {
  }

  lemma {:induction false} UntouchedIfDisjoint(h: History)
    requires |h.applied| < |h.ranges| && PairwiseDisjoint(h.ranges)
    ensures Untouched(h)
  {
  }

  // ---- the run ----

  lemma {:induction false} StartRunning(
    content: string, hashes: seq<string>, b: Buffer, items: seq<Item>, checks: seq<Check>, session: Session,
    route: Route)
    requires AllAccepted(checks, content, hashes, items, session, route)
    requires Sound(b) && b.content == content && b.hashes == hashes
    ensures Running(Original(SplitLines(content), hashes, session.served), EndsWithNewline(content), b,
                    Origs(0, |hashes|), session.retired, History(items, RangesOf(checks), [], []))
  {
    hide SplitLines, Check.Verified, AllAccepted, Anchors, DistinctIds;
    var o := Original(SplitLines(content), hashes, session.served);
    RangesNamed(checks, content, hashes, items, session, route);
    TracksStart(o, session.retired);
    NoPatches(|hashes|);
    forall x: nat | x < |o.lines| ensures Present(Origs(0, |hashes|), x) {
      assert Origs(0, |hashes|)[x] == Orig(x);
    }
  }

  lemma {:induction false} SoundStart(b: Buffer)
    requires |b.hashes| == |SplitLines(b.content)| && Distinct(b.hashes) && Anchors(b.hashes)
    requires IdsSound(b.ids, |b.hashes|)
    ensures Sound(b)
  {
    hide SplitLines, Distinct, Anchors, IdsSound;
  }

  /** The two checks of the next item, on the original and on the working buffer. */
  lemma {:induction false} StepRechecked(
    o: Original, terminated: bool, b: Buffer, cells: Cells, reserved: set<string>, h: History, c: Check,
    content: string,
    session: Session, positions: Option<map<nat, nat>>, firstIds: Option<LineIds>, working: Route, retired: set<string>,
    d: Check)
    requires Ready(o, terminated, b, cells, reserved, h, c, content, session, positions, firstIds, working)
    requires Accepts(d, b.content, b.hashes, h.items[|h.applied|], session, retired, working)
    ensures h.Fits(o) && Rechecked(o, b, h, c, d)
  {
    hide SplitLines, Check.Verified, Sole, Evidence, Tracks, Sound, Distinct;
    hide History.AtOnce, History.NoOverlap, History.AppliedGone, History.Located, History.OthersLeft, Separate;
  }

  /** What is known of the next item before it runs. */
  lemma {:induction false} GetReady(
    o: Original, terminated: bool, b: Buffer, cells: Cells, reserved: set<string>, h: History, content: string,
    hashes: seq<string>, items: seq<Item>, checks: seq<Check>, session: Session, positions: Option<map<nat, nat>>,
    firstIds: Option<LineIds>, working: Route)
    requires AllAccepted(checks, content, hashes, items, session, RouteOf(session, positions))
    requires o == Original(SplitLines(content), hashes, session.served)
    requires h.items == items && h.ranges == RangesOf(checks) && |h.sizes| == |h.applied| < |items|
    requires Running(o, terminated, b, cells, reserved, h)
    requires Evidence(session, positions, firstIds, b.ids, cells, working)
    ensures Ready(o, terminated, b, cells, reserved, h, checks[|h.applied|], content, session, positions, firstIds,
                  working)
  {
    hide SplitLines, Running, Evidence, Accepts, RouteOf;
  }

  lemma {:induction false} SoundParts(
    o: Original, terminated: bool, b: Buffer, cells: Cells, reserved: set<string>, h: History)
    requires Running(o, terminated, b, cells, reserved, h)
    ensures |b.hashes| == |SplitLines(b.content)| && Distinct(b.hashes) && Anchors(b.hashes)
    ensures IdsSound(b.ids, |b.hashes|)
    ensures |o.hashes| == |o.lines| && h.Fits(o) && |cells| == |b.hashes|
    ensures SplitLines(b.content) == Texts(o.lines, cells) && AnchorsTrack(o, b.hashes, cells)
  {
    hide Ascending, GoneReserved, History.AtOnce, History.NoOverlap, History.AppliedGone, History.Located;
    hide History.OthersLeft, Separate, Anchors, Distinct, DistinctIds, SplitLines;
    TrackedSizes(o, b.hashes, cells);
  }

  /** An item that is not refused was accepted, and why. */
  lemma {:induction false} StepPassed(
    o: Original, terminated: bool, b: Buffer, cells: Cells, h: History, c: Check, content: string,
    session: Session, positions: Option<map<nat, nat>>, firstIds: Option<LineIds>, working: Route, retired: set<string>,
    d: Check, r: Step)
    requires Ready(o, terminated, b, cells, retired, h, c, content, session, positions, firstIds, working)
    requires session.retired <= retired && !r.Failed?
    requires Checks(d, b.content, h.items[|h.applied|], b.hashes, session, retired, working)
    requires EditOf(d, h.items[|h.applied|]).Fits(SplitLines(b.content))
    requires StepDecided(r, d, b.content, b.hashes, h.items[|h.applied|], session, retired)
    ensures Accepts(d, b.content, b.hashes, h.items[|h.applied|], session, retired, working)
    ensures StagePassed(Stage(b, cells, retired, h, d), h.items[|h.applied|], session,
                        session.book.Some? && positions.Some?)
  {
    hide SplitLines, Check.Verified, Untouched, Running, ShiftOf, Sole, SplicedText, LeavesNothing, Exhausts, IdsFollow;
    hide SameIdentities, Check.Resolved;
    SameKind(session, positions, firstIds, b.ids, cells, working);
    if Untouched(h) {
      AcceptedAgain(o, terminated, b, cells, retired, h, c, content, session, positions, firstIds, working, retired, d);
    }
  }

  /** An item that is refused: why. */
  lemma {:induction false} StepStopped(
    o: Original, terminated: bool, b: Buffer, cells: Cells, h: History, c: Check, content: string,
    session: Session, positions: Option<map<nat, nat>>, firstIds: Option<LineIds>, working: Route, retired: set<string>,
    d: Check, reason: Reason)
    requires Ready(o, terminated, b, cells, retired, h, c, content, session, positions, firstIds, working)
    requires reason.StaleAnchor? <==> !Unambiguous(b.hashes, h.items[|h.applied|])
    requires !reason.StaleAnchor? ==>
               Checks(d, b.content, h.items[|h.applied|], b.hashes, session, retired, working)
               && EditOf(d, h.items[|h.applied|]).Fits(SplitLines(b.content))
               && StepDecided(Failed(reason), d, b.content, b.hashes, h.items[|h.applied|], session, retired)
    ensures StageStopped(Stage(b, cells, retired, h, d), h.items[|h.applied|], session,
                         session.book.Some? && positions.Some?, reason)
  {
    hide SplitLines, Check.Verified, Untouched, Running, ShiftOf, Sole, SplicedText, LeavesNothing, Exhausts, IdsFollow;
    hide SameIdentities, Check.Resolved, Unambiguous;
    SameKind(session, positions, firstIds, b.ids, cells, working);
    if Untouched(h) {
      AcceptedAgain(o, terminated, b, cells, retired, h, c, content, session, positions, firstIds, working, retired, d);
    }
  }

  lemma {:induction false} StageIs(
    o: Original, b: Buffer, cells: Cells, h: History, firstIds: Option<LineIds>, retired: set<string>, d: Check)
    requires |h.sizes| == |h.applied| < |h.items| == |h.ranges| && |b.hashes| == |cells|
    requires SplitLines(b.content) == Texts(o.lines, cells) && AnchorsTrack(o, b.hashes, cells)
    requires IdsFollow(firstIds, b.ids, cells)
    ensures StageFits(Stage(b, cells, retired, h, d), h, o, firstIds)
  {
    hide SplitLines, AnchorsTrack, IdsFollow;
  }

  lemma {:induction false} StepCounts(
    content: string, hashes: seq<string>, item: Item, r: Step, middle: seq<string>, guard: set<string>)
    requires r.Applied? && StepDone(content, hashes, item, r, middle, guard)
    ensures 1 <= r.lines.startLine <= r.lines.endLine <= |hashes|
    ensures |r.hashes| == |SplitLines(r.content)| == |hashes| - (r.lines.endLine - r.lines.startLine + 1) + |middle|
  {
    hide SplitLines, Distinct, Anchors, Elements;
  }

  lemma {:induction false} Finish(
    o: Original, content: string, b: Buffer, cells: Cells, reserved: set<string>, h: History)
    requires Running(o, EndsWithNewline(content), b, cells, reserved, h) && |h.applied| == |h.items|
    requires o.lines == SplitLines(content)
    ensures |b.hashes| == |SplitLines(b.content)| && Distinct(b.hashes)
    ensures SplitLines(b.content) == Texts(o.lines, cells) && Ascending(cells) && AnchorsTrack(o, b.hashes, cells)
    ensures GoneReserved(o, cells, reserved)
    ensures forall i, j | 0 <= i < j < |h.items| && h.applied[i] && HoleFree(o.served, h.items[j].bounds) ::
              DisjointLines(h.ranges[i], h.ranges[j])
    ensures EndsWithNewline(content) && PairwiseDisjoint(h.ranges) ==>
              SplitLines(b.content) == SpliceAll(o.lines, PatchesOf(h.items, h.ranges, All(|h.items|), |h.items|))
    ensures EndsWithNewline(content) && (forall i | 0 <= i < |h.items| :: HoleFree(o.served, h.items[i].bounds)) ==>
              SplitLines(b.content) == SpliceAll(o.lines, PatchesOf(h.items, h.ranges, h.applied, |h.items|))
  {
    hide SplitLines, PairwiseDisjoint, PatchesOf, HoleFree, Distinct, Anchors, SpliceAll, DisjointLines;
    hide History.AtOnce, History.AppliedGone, History.Located, History.OthersLeft, AnchorsTrack, GoneReserved;
    hide Ascending, Texts;
    if EndsWithNewline(content) {
      if PairwiseDisjoint(h.ranges) { FinishDisjoint(o, b, cells, reserved, h); }
      if forall i | 0 <= i < |h.items| :: HoleFree(o.served, h.items[i].bounds) {
        FinishHoleFree(o, b, cells, reserved, h);
      }
    }
  }

  /** A batch went through its items: the stages, and the item it stopped at, if it did. */
  ghost predicate Ran(
    r: Outcome, trace: Trace, o: Original, items: seq<Item>, ranges: seq<Lines>, session: Session, leased: bool)
  {
    var upto := if r.Stopped? && r.at < |trace.stages| then r.at else |trace.stages|;
    && |ranges| == |items| && !r.Aborted?
    && StagesFit(trace.stages[..upto], trace.applied, trace.sizes, o, items, ranges, session, trace.firstIds, leased)
    && (r.Done? ==> r.applied == trace.applied && |trace.stages| == |items|)
    && (r.Stopped? ==>
          && |trace.stages| == r.at + 1 <= |items|
          && StageFits(trace.stages[r.at], History(items, ranges, trace.applied, trace.sizes), o, trace.firstIds)
          && StageStopped(trace.stages[r.at], items[r.at], session, leased, r.reason))
  }

  lemma {:induction false} RanStopped(
    stages: seq<Stage>, s: Stage, trace: Trace, reason: Reason, o: Original, items: seq<Item>, ranges: seq<Lines>,
    session: Session, leased: bool)
    requires trace.stages == stages + [s] && |stages| < |items| == |ranges|
    requires StagesFit(stages, trace.applied, trace.sizes, o, items, ranges, session, trace.firstIds, leased)
    requires StageFits(s, History(items, ranges, trace.applied, trace.sizes), o, trace.firstIds)
    requires StageStopped(s, items[|stages|], session, leased, reason)
    ensures Ran(Stopped(|stages|, reason), trace, o, items, ranges, session, leased)
    ensures PairwiseDisjoint(ranges) && leased ==> reason.EmptyRange? || reason.LargeFile?
  {
    hide StageFits, StageStopped, StagesFit, PairwiseDisjoint;
    assert trace.stages[..|stages|] == stages;
    if PairwiseDisjoint(ranges) {
      StoppedDisjoint(s, History(items, ranges, trace.applied, trace.sizes), o, trace.firstIds, items[|stages|],
                      session, leased, reason);
    }
  }

  lemma {:induction false} StoppedDisjoint(
    s: Stage, h: History, o: Original, firstIds: Option<LineIds>, item: Item, session: Session, leased: bool,
    reason: Reason)
    requires StageFits(s, h, o, firstIds) && StageStopped(s, item, session, leased, reason)
    requires PairwiseDisjoint(h.ranges)
    ensures leased ==> reason.EmptyRange? || reason.LargeFile?
  {
    hide SplitLines, AnchorsTrack, IdsFollow, Check.Verified, ShiftOf, Untouched, StepDecided, Checks, Unambiguous;
    UntouchedIfDisjoint(h);
  }

  lemma {:induction false} RanDone(
    r: Outcome, trace: Trace, o: Original, items: seq<Item>, ranges: seq<Lines>, session: Session, leased: bool)
    requires r.Done? && r.applied == trace.applied && |trace.stages| == |items| == |ranges|
    requires StagesFit(trace.stages, trace.applied, trace.sizes, o, items, ranges, session, trace.firstIds, leased)
    ensures Ran(r, trace, o, items, ranges, session, leased)
  {
    hide StagesFit;
    assert trace.stages[..|trace.stages|] == trace.stages;
  }

  /** What a run is about: the original buffer, the items, their checks there, and the evidence. */
  datatype Batch = Batch(
    content: string, hashes: seq<string>, positions: Option<map<nat, nat>>, items: seq<Item>, session: Session,
    checks: seq<Check>, firstIds: Option<LineIds>)
  {
    function Start(): Original {
      Original(SplitLines(content), hashes, session.served)
    }

    ghost function Ranges(): seq<Lines> {
      RangesOf(checks)
    }

    predicate Leased() {
      session.book.Some? && positions.Some?
    }

    ghost predicate Known() {
      && AllAccepted(checks, content, hashes, items, session, RouteOf(session, positions))
      && (firstIds.Some? <==> positions.Some?) && (positions.Some? ==> SameIdentities(firstIds.value, positions.value))
      && |hashes| == |SplitLines(content)|
    }
  }

  /** Between two items of the run. */
  ghost predicate Going(t: Batch, b: Buffer, cells: Cells, retired: set<string>, h: History, stages: seq<Stage>) {
    && t.Known() && t.session.retired <= retired
    && h.items == t.items && h.ranges == t.Ranges() && |h.sizes| == |h.applied| == |stages| <= |t.items| == |t.Ranges()|
    && IdsFollow(t.firstIds, b.ids, cells)
    && Running(t.Start(), EndsWithNewline(t.content), b, cells, retired, h)
    && StagesFit(stages, h.applied, h.sizes, t.Start(), t.items, t.Ranges(), t.session, t.firstIds, t.Leased())
  }

  /** What ApplyOne told about the next item. */
  ghost predicate Told(
    t: Batch, b: Buffer, retired: set<string>, item: Item, working: Route, r: Step, d: Check, middle: seq<string>,
    guard: set<string>)
  {
    && RouteFits(t.session, b.ids, working)
    && (r == Failed(StaleAnchor) <==> !Unambiguous(b.hashes, item))
    && (r != Failed(StaleAnchor) ==>
          Checks(d, b.content, item, b.hashes, t.session, retired, working)
          && EditOf(d, item).Fits(SplitLines(b.content))
          && StepDecided(r, d, b.content, b.hashes, item, t.session, retired))
    && (r.Applied? ==> StepDone(b.content, b.hashes, item, r, middle, guard))
    && (r.Applied? ==> guard == retired || guard == Shown(t.session.served))
    && (r.Unchanged? ==> EditedLines(b.content, b.content, r.lines, item.contentLines, middle))
  }

  lemma {:induction false} GoingParts(
    t: Batch, b: Buffer, cells: Cells, retired: set<string>, h: History, stages: seq<Stage>)
    requires Going(t, b, cells, retired, h, stages)
    ensures |b.hashes| == |SplitLines(b.content)| && Distinct(b.hashes) && Anchors(b.hashes)
    ensures IdsSound(b.ids, |b.hashes|) && |cells| == |b.hashes|
  {
    hide Running, StagesFit, IdsFollow, SplitLines, Distinct, Anchors, DistinctIds, Batch.Known;
    SoundParts(t.Start(), EndsWithNewline(t.content), b, cells, retired, h);
  }

  lemma {:induction false} GoingReady(
    t: Batch, b: Buffer, cells: Cells, retired: set<string>, h: History, stages: seq<Stage>, working: Route)
    requires Going(t, b, cells, retired, h, stages) && |stages| < |t.items| && RouteFits(t.session, b.ids, working)
    ensures Ready(t.Start(), EndsWithNewline(t.content), b, cells, retired, h, t.checks[|h.applied|], t.content,
                  t.session, t.positions, t.firstIds, working)
    ensures |t.checks| == |t.items|
  {
    hide Running, StagesFit, IdsFollow, SplitLines, RouteFits, Accepts, Ready, SameIdentities, RouteOf;
    EvidenceIs(t.session, t.positions, t.firstIds, b.ids, cells, working);
    GetReady(t.Start(), EndsWithNewline(t.content), b, cells, retired, h, t.content, t.hashes, t.items, t.checks,
             t.session, t.positions, t.firstIds, working);
  }

  lemma {:induction false} GoingStage(
    t: Batch, b: Buffer, cells: Cells, retired: set<string>, h: History, stages: seq<Stage>, d: Check)
    requires Going(t, b, cells, retired, h, stages) && |stages| < |t.items|
    ensures StageFits(Stage(b, cells, retired, h, d), h, t.Start(), t.firstIds)
  {
    hide Running, StagesFit, IdsFollow, SplitLines, Batch.Known, AnchorsTrack, StageFits;
    SoundParts(t.Start(), EndsWithNewline(t.content), b, cells, retired, h);
    StageIs(t.Start(), b, cells, h, t.firstIds, retired, d);
  }

  /** An accepted item found its lines, and passed. */
  lemma {:induction false} GoesOn(
    t: Batch, b: Buffer, cells: Cells, retired: set<string>, h: History, stages: seq<Stage>, working: Route, r: Step,
    d: Check, middle: seq<string>, guard: set<string>)
    requires Going(t, b, cells, retired, h, stages) && |stages| < |t.items| && !r.Failed?
    requires Told(t, b, retired, t.items[|stages|], working, r, d, middle, guard)
    ensures StagePassed(Stage(b, cells, retired, h, d), t.items[|stages|], t.session, t.Leased())
    ensures FoundLines(t.Start(), cells, h, r.lines) && 1 <= r.lines.startLine <= r.lines.endLine <= |cells|
  {
    hide *;
    GoingBasics(t, b, cells, retired, h, stages);
    ToldBasics(t, b, retired, t.items[|stages|], working, r, d, middle, guard);
    GoingReady(t, b, cells, retired, h, stages, working);
    StepPassed(t.Start(), EndsWithNewline(t.content), b, cells, h, t.checks[|stages|], t.content, t.session,
               t.positions,
               t.firstIds, working, retired, d, r);
    StepRechecked(t.Start(), EndsWithNewline(t.content), b, cells, retired, h, t.checks[|stages|], t.content, t.session,
                  t.positions, t.firstIds, working, retired, d);
    DecidedAt(r, d, b.content, b.hashes, t.items[|stages|], t.session, retired, working);
    FindLines(t.Start(), EndsWithNewline(t.content), b, cells, retired, h, t.checks[|stages|], d);
    LeasedIs(t);
  }

  lemma {:induction false} LeasedIs(t: Batch)
    ensures t.Leased() <==> t.session.book.Some? && t.positions.Some?
  {
  }

  lemma {:induction false} StartIs(t: Batch)
    ensures t.Start().lines == SplitLines(t.content) && t.Start().hashes == t.hashes
    ensures t.Start().served == t.session.served
  {
    hide SplitLines;
  }

  lemma {:induction false} GoingBasics(
    t: Batch, b: Buffer, cells: Cells, retired: set<string>, h: History, stages: seq<Stage>)
    requires Going(t, b, cells, retired, h, stages)
    ensures h.items == t.items && h.ranges == t.Ranges()
    ensures |h.sizes| == |h.applied| == |stages| <= |t.items| == |t.Ranges()|
    ensures t.session.retired <= retired && IdsFollow(t.firstIds, b.ids, cells) && t.Known()
    ensures Running(t.Start(), EndsWithNewline(t.content), b, cells, retired, h)
    ensures StagesFit(stages, h.applied, h.sizes, t.Start(), t.items, t.Ranges(), t.session, t.firstIds, t.Leased())
  {
    hide Running, StagesFit, IdsFollow, Batch.Known, Batch.Start, Batch.Ranges, Batch.Leased;
  }

  lemma {:induction false} ToldBasics(
    t: Batch, b: Buffer, retired: set<string>, item: Item, working: Route, r: Step, d: Check, middle: seq<string>,
    guard: set<string>)
    requires Told(t, b, retired, item, working, r, d, middle, guard)
    ensures RouteFits(t.session, b.ids, working)
    ensures r == Failed(StaleAnchor) <==> !Unambiguous(b.hashes, item)
    ensures r != Failed(StaleAnchor) ==>
              Checks(d, b.content, item, b.hashes, t.session, retired, working)
              && EditOf(d, item).Fits(SplitLines(b.content))
              && StepDecided(r, d, b.content, b.hashes, item, t.session, retired)
    ensures r.Applied? ==> StepDone(b.content, b.hashes, item, r, middle, guard)
    ensures r.Applied? ==> guard == retired || guard == Shown(t.session.served)
    ensures r.Unchanged? ==> EditedLines(b.content, b.content, r.lines, item.contentLines, middle)
  {
    hide RouteFits, Unambiguous, Checks, SplitLines, StepDecided, StepDone, Shown, EditedLines, EditOf;
  }

  lemma {:induction false} GoingIs(
    t: Batch, b: Buffer, cells: Cells, retired: set<string>, h: History, stages: seq<Stage>)
    requires t.Known() && t.session.retired <= retired
    requires h.items == t.items && h.ranges == t.Ranges()
    requires |h.sizes| == |h.applied| == |stages| <= |t.items| == |t.Ranges()|
    requires IdsFollow(t.firstIds, b.ids, cells)
    requires Running(t.Start(), EndsWithNewline(t.content), b, cells, retired, h)
    requires StagesFit(stages, h.applied, h.sizes, t.Start(), t.items, t.Ranges(), t.session, t.firstIds, t.Leased())
    ensures Going(t, b, cells, retired, h, stages)
  {
    hide Running, StagesFit, IdsFollow, Batch.Known, Batch.Start, Batch.Ranges, Batch.Leased;
  }

  /** The next item is one more stage. */
  lemma {:induction false} OneMoreStage(
    t: Batch, b: Buffer, cells: Cells, retired: set<string>, h: History, stages: seq<Stage>, working: Route, r: Step,
    d: Check, middle: seq<string>, guard: set<string>, flag: bool, size: nat)
    requires Going(t, b, cells, retired, h, stages) && |stages| < |t.items| && !r.Failed?
    requires Told(t, b, retired, t.items[|stages|], working, r, d, middle, guard)
    ensures
      var next := h.Next(flag, size);
      && next.items == t.items && next.ranges == t.Ranges() && |t.items| == |t.Ranges()|
      && next.applied == h.applied + [flag]
      && |next.sizes| == |next.applied| == |stages + [Stage(b, cells, retired, h, d)]| <= |t.items|
      && StagesFit(stages + [Stage(b, cells, retired, h, d)], next.applied, next.sizes, t.Start(), t.items, t.Ranges(),
                   t.session, t.firstIds, t.Leased())
  {
    hide Going, StagesFit, Batch.Known, Batch.Start, Batch.Ranges, Batch.Leased, StageFits, StagePassed, Told;
    hide FoundLines;
    hide Running, IdsFollow;
    GoingBasics(t, b, cells, retired, h, stages);
    GoesOn(t, b, cells, retired, h, stages, working, r, d, middle, guard);
    GoingStage(t, b, cells, retired, h, stages, d);
    HistoryIs(h, t.items, t.Ranges());
    StagesNext(stages, h.applied, h.sizes, t.Start(), t.items, t.Ranges(), t.session, t.firstIds, t.Leased(),
               Stage(b, cells, retired, h, d), flag, size);
  }

  lemma {:induction false} GoesOnUnchanged(
    t: Batch, b: Buffer, cells: Cells, retired: set<string>, h: History, stages: seq<Stage>, working: Route, r: Step,
    d: Check, middle: seq<string>, guard: set<string>)
    requires Going(t, b, cells, retired, h, stages) && |stages| < |t.items| && r.Unchanged?
    requires Told(t, b, retired, t.items[|stages|], working, r, d, middle, guard)
    ensures Going(t, b, cells, retired, h.Next(false, 0), stages + [Stage(b, cells, retired, h, d)])
  {
    hide *;
    GoingBasics(t, b, cells, retired, h, stages);
    ToldBasics(t, b, retired, t.items[|stages|], working, r, d, middle, guard);
    GoesOn(t, b, cells, retired, h, stages, working, r, d, middle, guard);
    OneMoreStage(t, b, cells, retired, h, stages, working, r, d, middle, guard, false, 0);
    StepUnchanged(t.Start(), EndsWithNewline(t.content), b, cells, retired, h, r.lines, middle);
    GoingIs(t, b, cells, retired, h.Next(false, 0), stages + [Stage(b, cells, retired, h, d)]);
  }

  lemma {:induction false} HistoryIs(h: History, items: seq<Item>, ranges: seq<Lines>)
    requires h.items == items && h.ranges == ranges
    ensures h == History(items, ranges, h.applied, h.sizes)
  {
  }

  lemma {:induction false} GoesOnApplied(
    t: Batch, b: Buffer, cells: Cells, retired: set<string>, h: History, stages: seq<Stage>, working: Route, r: Step,
    d: Check, middle: seq<string>, guard: set<string>, after: Buffer)
    requires Going(t, b, cells, retired, h, stages) && |stages| < |t.items| && r.Applied?
    requires Told(t, b, retired, t.items[|stages|], working, r, d, middle, guard)
    requires LinesWithin(b.ids, r.lines)
    requires after == Buffer(r.content, r.hashes, AdvancedIds(b.ids, r.lines, |r.hashes|))
    ensures 1 <= r.lines.startLine <= r.lines.endLine <= |cells|
    ensures Going(t, after, SpliceCells(cells, r.lines.startLine - 1, r.lines.endLine, middle), retired + r.removed,
                  h.Next(true, |middle|), stages + [Stage(b, cells, retired, h, d)])
  {
    hide *;
    GoingBasics(t, b, cells, retired, h, stages);
    GoingParts(t, b, cells, retired, h, stages);
    ToldBasics(t, b, retired, t.items[|stages|], working, r, d, middle, guard);
    GoesOn(t, b, cells, retired, h, stages, working, r, d, middle, guard);
    OneMoreStage(t, b, cells, retired, h, stages, working, r, d, middle, guard, true, |middle|);
    StepCounts(b.content, b.hashes, t.items[|stages|], r, middle, guard);
    AdvanceIds(b.ids, r.lines, |r.hashes|, |b.hashes|, |middle|);
    IdsFollowSplice(t.firstIds, b.ids, cells, r.lines, middle, |r.hashes|);
    StartIs(t);
    StepApplied(t.Start(), EndsWithNewline(t.content), b, cells, retired, h, t.items[|stages|], r, middle, guard,
                after);
    GoingIs(t, after, SpliceCells(cells, r.lines.startLine - 1, r.lines.endLine, middle), retired + r.removed,
            h.Next(true, |middle|), stages + [Stage(b, cells, retired, h, d)]);
  }

  lemma {:induction false} StopsHere(
    t: Batch, b: Buffer, cells: Cells, retired: set<string>, h: History, stages: seq<Stage>, working: Route, r: Step,
    d: Check, middle: seq<string>, guard: set<string>, trace: Trace)
    requires Going(t, b, cells, retired, h, stages) && |stages| < |t.items| && r.Failed?
    requires Told(t, b, retired, t.items[|stages|], working, r, d, middle, guard)
    requires trace
        == Trace(t.checks, stages + [Stage(b, cells, retired, h, d)], h.applied, h.sizes, cells, t.firstIds, b)
    ensures Ran(Stopped(|stages|, r.reason), trace, t.Start(), t.items, t.Ranges(), t.session, t.Leased())
    ensures PairwiseDisjoint(t.Ranges()) && t.Leased() ==> r.reason.EmptyRange? || r.reason.LargeFile?
  {
    hide *;
    GoingBasics(t, b, cells, retired, h, stages);
    ToldBasics(t, b, retired, t.items[|stages|], working, r, d, middle, guard);
    GoingReady(t, b, cells, retired, h, stages, working);
    GoingStage(t, b, cells, retired, h, stages, d);
    StepStopped(t.Start(), EndsWithNewline(t.content), b, cells, h, t.checks[|stages|], t.content, t.session,
                t.positions,
                t.firstIds, working, retired, d, r.reason);
    LeasedIs(t);
    HistoryIs(h, t.items, t.Ranges());
    RanStopped(stages, Stage(b, cells, retired, h, d), trace, r.reason, t.Start(), t.items, t.Ranges(), t.session,
               t.Leased());
  }

  lemma {:induction false} GoingStarts(t: Batch, b: Buffer)
    requires t.Known() && b.content == t.content && b.hashes == t.hashes && b.ids == t.firstIds && Sound(b)
    ensures Going(t, b, Origs(0, |t.hashes|), t.session.retired, History(t.items, t.Ranges(), [], []), [])
  {
    hide Running, StagesFit, IdsFollow, SplitLines, Sound, Origs, AllAccepted;
    RangesNamed(t.checks, t.content, t.hashes, t.items, t.session, RouteOf(t.session, t.positions));
    StartRunning(t.content, t.hashes, b, t.items, t.checks, t.session, RouteOf(t.session, t.positions));
    SoundIds(b);
    IdsFollowStart(t.firstIds, |t.hashes|);
    NoStages(t.Start(), t.items, t.Ranges(), t.session, t.firstIds, t.Leased());
  }

  lemma {:induction false} SoundIds(b: Buffer)
    requires Sound(b)
    ensures b.ids.Some? ==> |b.ids.value| == |b.hashes|
  {
  }

  lemma {:induction false} BatchKnown(t: Batch)
    requires AllAccepted(t.checks, t.content, t.hashes, t.items, t.session, RouteOf(t.session, t.positions))
    requires (t.firstIds.Some? <==> t.positions.Some?)
    requires (t.positions.Some? ==> SameIdentities(t.firstIds.value, t.positions.value))
    requires |t.hashes| == |SplitLines(t.content)|
    ensures t.Known() && t.Start() == Original(SplitLines(t.content), t.hashes, t.session.served)
    ensures t.Ranges() == RangesOf(t.checks) && (t.Leased() <==> t.session.book.Some? && t.positions.Some?)
  {
    hide AllAccepted, SameIdentities, SplitLines, RouteOf;
  }

  lemma {:induction false} ToldIs(
    t: Batch, b: Buffer, retired: set<string>, item: Item, working: Route, r: Step, d: Check, middle: seq<string>,
    guard: set<string>)
    requires RouteFits(t.session, b.ids, working)
    requires r == Failed(StaleAnchor) <==> !Unambiguous(b.hashes, item)
    requires r != Failed(StaleAnchor) ==>
               Checks(d, b.content, item, b.hashes, t.session, retired, working)
               && EditOf(d, item).Fits(SplitLines(b.content))
               && StepDecided(r, d, b.content, b.hashes, item, t.session, retired)
    requires r.Applied? ==> StepDone(b.content, b.hashes, item, r, middle, guard)
    requires r.Applied? ==> guard == retired || guard == Shown(t.session.served)
    requires r.Unchanged? ==> EditedLines(b.content, b.content, r.lines, item.contentLines, middle)
    ensures Told(t, b, retired, item, working, r, d, middle, guard)
  {
    hide RouteFits, Unambiguous, Checks, SplitLines, StepDecided, StepDone, Shown, EditedLines, EditOf;
  }

  // ---- what the items did, one after another ----

  /**
   The buffer after a stage: an applied item changed the text to the text after its edit and re-hashed it; any
   other item left everything as it was.
   */
  ghost predicate Leads(s: Stage, item: Item, wasApplied: bool, after: Buffer) {
    && s.check.Resolved() && EditOf(s.check, item).Fits(SplitLines(s.buffer.content))
    && var text := SplicedText(s.buffer.content, EditOf(s.check, item));
       && (wasApplied <==> text != s.buffer.content)
       && (wasApplied ==> after.content == text && Rehashed(s, after))
       && (!wasApplied ==> after == s.buffer)
  }

  /** Around the replaced lines the anchors stay; the lines put there have none that was in use or retired or shown. */
  ghost predicate Rehashed(s: Stage, after: Buffer)
    requires s.check.Resolved()
  {
    var from, to := s.check.lines.startLine - 1, s.check.lines.endLine;
    var count := |after.hashes| - (|s.buffer.hashes| - (to - from));
    && count >= 0
    && (|| RehashedSplice(s.buffer.hashes, after.hashes, s.retired, from, to, count)
        || RehashedSplice(s.buffer.hashes, after.hashes, Shown(s.check.served), from, to, count))
  }

  /** Where the buffer after item k is found: at the next stage, or at the end. */
  function BufferAt(stages: seq<Stage>, n: nat, last: Buffer, k: nat): Buffer
    requires n <= |stages|
  {
    if k < n then stages[k].buffer else last
  }

  /** From the first buffer to the last, every stage starts where the one before ended. */
  ghost predicate Chained(stages: seq<Stage>, applied: seq<bool>, items: seq<Item>, first: Buffer, last: Buffer) {
    && |applied| <= |stages| && |applied| <= |items|
    && BufferAt(stages, |applied|, last, 0) == first
    && forall k | 0 <= k < |applied| ::
         Leads(stages[k], items[k], applied[k], BufferAt(stages, |applied|, last, k + 1))
  }

  lemma {:induction false} ChainNext(
    stages: seq<Stage>, applied: seq<bool>, items: seq<Item>, first: Buffer, last: Buffer, s: Stage, flag: bool,
    after: Buffer)
    requires Chained(stages, applied, items, first, last) && |stages| == |applied| < |items|
    requires s.buffer == last && Leads(s, items[|applied|], flag, after)
    ensures Chained(stages + [s], applied + [flag], items, first, after)
  {
    hide Leads;
    var more, flags := stages + [s], applied + [flag];
    forall k | 0 <= k < |flags| ensures Leads(more[k], items[k], flags[k], BufferAt(more, |flags|, after, k + 1)) {
      if k < |applied| {
        assert Leads(stages[k], items[k], applied[k], BufferAt(stages, |applied|, last, k + 1));
        assert BufferAt(more, |flags|, after, k + 1) == BufferAt(stages, |applied|, last, k + 1);
      }
    }
  }

  lemma {:induction false} ChainStops(
    stages: seq<Stage>, applied: seq<bool>, items: seq<Item>, first: Buffer, last: Buffer, s: Stage)
    requires Chained(stages, applied, items, first, last) && |stages| == |applied|
    ensures Chained(stages + [s], applied, items, first, last)
  {
    hide Leads;
    forall k | 0 <= k < |applied|
      ensures Leads((stages + [s])[k], items[k], applied[k], BufferAt(stages + [s], |applied|, last, k + 1))
    {
      assert Leads(stages[k], items[k], applied[k], BufferAt(stages, |applied|, last, k + 1));
    }
  }

  /** The item of this stage replaced a line that carried the anchor. */
  ghost predicate Removes(s: Stage, hash: string) {
    exists j: nat :: s.check.lines.startLine - 1 <= j < s.check.lines.endLine
                     && j < |s.buffer.hashes| && s.buffer.hashes[j] == hash
  }

  ghost predicate SomeRemoves(stages: seq<Stage>, applied: seq<bool>, hash: string) {
    exists k: nat :: k < |applied| && k < |stages| && applied[k] && Removes(stages[k], hash)
  }

  /** Retired are exactly the anchors that applied items replaced: those of just the original lines that are gone. */
  ghost predicate RetiredExactly(
    stages: seq<Stage>, applied: seq<bool>, o: Original, cells: Cells, newlyRetired: set<string>)
  {
    && (forall hash :: hash in newlyRetired <==> SomeRemoves(stages, applied, hash))
    && GoneExactly(o, cells, newlyRetired)
  }

  /** What the run did so far. */
  ghost predicate Did(
    t: Batch, b: Buffer, cells: Cells, newlyRetired: set<string>, h: History, stages: seq<Stage>)
  {
    && |stages| == |h.applied|
    && Chained(stages, h.applied, t.items, Buffer(t.content, t.hashes, t.firstIds), b)
    && RetiredExactly(stages, h.applied, t.Start(), cells, newlyRetired)
  }

  lemma {:induction false} SomeRemovesNext(stages: seq<Stage>, applied: seq<bool>, s: Stage, flag: bool, hash: string)
    requires |stages| == |applied|
    ensures SomeRemoves(stages + [s], applied + [flag], hash)
            <==> SomeRemoves(stages, applied, hash) || (flag && Removes(s, hash))
  {
    hide Removes;
    var more, flags := stages + [s], applied + [flag];
    if SomeRemoves(stages, applied, hash) {
      var k: nat :| k < |applied| && applied[k] && Removes(stages[k], hash);
      assert flags[k] && Removes(more[k], hash);
    }
    if flag && Removes(s, hash) {
      assert flags[|applied|] && Removes(more[|applied|], hash);
    }
  }

  lemma {:induction false} InRange(hashes: seq<string>, from: nat, to: nat, hash: string)
    requires from <= to <= |hashes|
    ensures (exists j: nat :: from <= j < to && hashes[j] == hash) <==> hash in Elements(hashes[from..to])
  {
    var part := hashes[from..to];
    if j: nat :| from <= j < to && hashes[j] == hash {
      assert part[j - from] == hash;
    }
    if hash in Elements(part) {
      var k :| 0 <= k < |part| && part[k] == hash;
      assert hashes[from + k] == hash;
    }
  }

  lemma {:induction false} RemovesRange(s: Stage, hash: string)
    requires 1 <= s.check.lines.startLine <= s.check.lines.endLine <= |s.buffer.hashes|
    ensures Removes(s, hash)
            <==> hash in Elements(s.buffer.hashes[s.check.lines.startLine - 1..s.check.lines.endLine])
  {
    hide Elements;
    InRange(s.buffer.hashes, s.check.lines.startLine - 1, s.check.lines.endLine, hash);
  }

  lemma {:induction false} DidUnchanged(
    t: Batch, b: Buffer, cells: Cells, newlyRetired: set<string>, h: History, stages: seq<Stage>, retired: set<string>,
    working: Route, r: Step, d: Check, middle: seq<string>, guard: set<string>)
    requires Did(t, b, cells, newlyRetired, h, stages) && |stages| < |t.items| && r.Unchanged?
    requires Told(t, b, retired, t.items[|stages|], working, r, d, middle, guard)
    ensures Did(t, b, cells, newlyRetired, h.Next(false, 0), stages + [Stage(b, cells, retired, h, d)])
  {
    hide Chained, GoneExactly, SomeRemoves, SplitLines, Checks, StepDone, EditedLines, RouteFits, Unambiguous, Leads;
    hide Batch.Start;
    var s := Stage(b, cells, retired, h, d);
    UnchangedLeads(t, b, cells, h, retired, t.items[|stages|], working, r, d, middle, guard);
    ChainNext(stages, h.applied, t.items, Buffer(t.content, t.hashes, t.firstIds), b, s, false, b);
    forall hash ensures SomeRemoves(stages + [s], h.applied + [false], hash) <==> SomeRemoves(stages, h.applied, hash) {
      SomeRemovesNext(stages, h.applied, s, false, hash);
    }
  }

  lemma {:induction false} UnchangedLeads(
    t: Batch, b: Buffer, cells: Cells, h: History, retired: set<string>, item: Item, working: Route, r: Step, d: Check,
    middle: seq<string>, guard: set<string>)
    requires Told(t, b, retired, item, working, r, d, middle, guard) && r.Unchanged?
    ensures Leads(Stage(b, cells, retired, h, d), item, false, b)
  {
    hide SplitLines, Check.Verified, SplicedText, LeavesNothing, Exhausts, RouteFits, Unambiguous, EditedLines, Sole;
  }

  lemma {:induction false} AppliedLeads(
    t: Batch, b: Buffer, cells: Cells, h: History, retired: set<string>, item: Item, working: Route, r: Step, d: Check,
    middle: seq<string>, guard: set<string>, after: Buffer)
    requires Told(t, b, retired, item, working, r, d, middle, guard) && r.Applied?
    requires after.content == r.content && after.hashes == r.hashes
    ensures Leads(Stage(b, cells, retired, h, d), item, true, after)
    ensures r.lines == d.lines && 1 <= d.lines.startLine <= d.lines.endLine <= |b.hashes|
    ensures r.removed == Elements(b.hashes[d.lines.startLine - 1..d.lines.endLine])
  {
    hide SplitLines, Check.Verified, SplicedText, LeavesNothing, Exhausts, RouteFits, Unambiguous, Sole, Elements;
    hide RehashedSplice, Shown;
    assert RehashedSplice(b.hashes, after.hashes, guard, d.lines.startLine - 1, d.lines.endLine, |middle|);
    RehashedSize(b.hashes, after.hashes, guard, d.lines.startLine - 1, d.lines.endLine, |middle|);
  }

  lemma {:induction false} RehashedSize(
    hashes: seq<string>, result: seq<string>, guard: set<string>, from: nat, to: nat, count: nat)
    requires RehashedSplice(hashes, result, guard, from, to, count)
    ensures |result| == |hashes| - (to - from) + count
  {
  }

  lemma {:induction false} DidApplied(
    t: Batch, b: Buffer, cells: Cells, newlyRetired: set<string>, h: History, stages: seq<Stage>, retired: set<string>,
    working: Route, r: Step, d: Check, middle: seq<string>, guard: set<string>, after: Buffer)
    requires Going(t, b, cells, retired, h, stages)
    requires Did(t, b, cells, newlyRetired, h, stages) && |stages| < |t.items| && r.Applied?
    requires Told(t, b, retired, t.items[|stages|], working, r, d, middle, guard)
    requires after.content == r.content && after.hashes == r.hashes
    ensures 1 <= r.lines.startLine <= r.lines.endLine <= |cells|
    ensures Did(t, after, SpliceCells(cells, r.lines.startLine - 1, r.lines.endLine, middle), newlyRetired + r.removed,
                h.Next(true, |middle|), stages + [Stage(b, cells, retired, h, d)])
  {
    hide Chained, GoneExactly, SomeRemoves, Removes, Leads, Batch.Start, Told, Going, SpliceCells, Elements;
    var s := Stage(b, cells, retired, h, d);
    AppliedLeads(t, b, cells, h, retired, t.items[|stages|], working, r, d, middle, guard, after);
    GoingParts(t, b, cells, retired, h, stages);
    ChainNext(stages, h.applied, t.items, Buffer(t.content, t.hashes, t.firstIds), b, s, true, after);
    forall hash
      ensures SomeRemoves(stages + [s], h.applied + [true], hash)
              <==> SomeRemoves(stages, h.applied, hash) || hash in r.removed
    {
      SomeRemovesNext(stages, h.applied, s, true, hash);
      RemovesRange(s, hash);
    }
    GoingGone(t, b, cells, retired, h, stages, newlyRetired, d.lines.startLine - 1, d.lines.endLine, middle);
  }

  lemma {:induction false} GoingGone(
    t: Batch, b: Buffer, cells: Cells, retired: set<string>, h: History, stages: seq<Stage>, newlyRetired: set<string>,
    from: nat, to: nat, middle: seq<string>)
    requires Going(t, b, cells, retired, h, stages) && GoneExactly(t.Start(), cells, newlyRetired)
    requires from <= to <= |cells| == |b.hashes|
    ensures GoneExactly(t.Start(), SpliceCells(cells, from, to, middle), newlyRetired + Elements(b.hashes[from..to]))
  {
    hide GoneExactly, Elements, SpliceCells, AnchorsTrack, Ascending, Distinct, StagesFit, IdsFollow, Batch.Known;
    hide Running, Batch.Start;
    SoundParts(t.Start(), EndsWithNewline(t.content), b, cells, retired, h);
    RunningAscends(t.Start(), EndsWithNewline(t.content), b, cells, retired, h);
    SplicedGone(t.Start(), b.hashes, cells, newlyRetired, from, to, middle);
  }

  lemma {:induction false} RunningAscends(
    o: Original, terminated: bool, b: Buffer, cells: Cells, reserved: set<string>, h: History)
    requires Running(o, terminated, b, cells, reserved, h)
    ensures Ascending(cells)
  {
    hide Ascending, GoneReserved, AnchorsTrack, History.AtOnce, History.NoOverlap, History.AppliedGone, History.Located;
    hide History.OthersLeft, Separate, Sound, SplitLines;
  }

  lemma {:induction false} DidParts(
    t: Batch, b: Buffer, cells: Cells, newlyRetired: set<string>, h: History, stages: seq<Stage>)
    requires Did(t, b, cells, newlyRetired, h, stages)
    ensures |stages| == |h.applied|
    ensures Chained(stages, h.applied, t.items, Buffer(t.content, t.hashes, t.firstIds), b)
    ensures RetiredExactly(stages, h.applied, t.Start(), cells, newlyRetired)
  {
    hide Chained, RetiredExactly, Batch.Start;
  }

  lemma {:induction false} DidStart(t: Batch, b: Buffer)
    requires b == Buffer(t.content, t.hashes, t.firstIds) && |t.hashes| == |SplitLines(t.content)|
    ensures Did(t, b, Origs(0, |t.hashes|), {}, History(t.items, t.Ranges(), [], []), [])
  {
    hide SplitLines, Batch.Ranges;
    NoneGone(t.Start());
  }

  /** One item of the run on the working buffer, with the evidence for that buffer; and the buffer after it. */
  method RunItem(
    xxh32: Hasher, item: Item, session: Session, buffer: Buffer, retired: set<string>, ghost t: Batch,
    ghost cells: Cells, ghost newlyRetired: set<string>, ghost h: History, ghost stages: seq<Stage>)
    returns (step: Step, after: Buffer, ghost nextCells: Cells, ghost nextH: History, ghost stage: Stage)
    requires Going(t, buffer, cells, retired, h, stages) && |stages| < |t.items|
    requires Did(t, buffer, cells, newlyRetired, h, stages)
    requires item == t.items[|stages|] && session == t.session && AllLines(item.contentLines)
    ensures stage.buffer == buffer
    ensures step.Failed? ==>
              Ran(Stopped(|stages|, step.reason),
                  Trace(t.checks, stages + [stage], h.applied, h.sizes, cells, t.firstIds, buffer),
                  t.Start(), t.items, t.Ranges(), t.session, t.Leased())
    ensures step.Failed? && PairwiseDisjoint(t.Ranges()) && t.Leased() ==>
              step.reason.EmptyRange? || step.reason.LargeFile?
    ensures !step.Failed? ==>
              Going(t, after, nextCells, retired + (if step.Applied? then step.removed else {}), nextH,
                    stages + [stage])
    ensures !step.Failed? ==> nextH.applied == h.applied + [step.Applied?]
    ensures !step.Failed? ==>
              Did(t, after, nextCells, newlyRetired + (if step.Applied? then step.removed else {}), nextH,
                  stages + [stage])
  {
    hide *;
    GoingParts(t, buffer, cells, retired, h, stages);
    var working := RouteFor(session, buffer.ids, |buffer.hashes|);
    ghost var d, middle, guard;
    after, nextCells, nextH := buffer, cells, h;
    step, d, middle, guard :=
      ApplyOne(xxh32, buffer.content, buffer.hashes, item, session, retired, retired, working);
    stage := Stage(buffer, cells, retired, h, d);
    ToldIs(t, buffer, retired, item, working, step, d, middle, guard);
    match step
    case Failed(reason) =>
      StopsHere(t, buffer, cells, retired, h, stages, working, step, d, middle, guard,
                Trace(t.checks, stages + [stage], h.applied, h.sizes, cells, t.firstIds, buffer));
    case Unchanged(_) =>
      GoesOnUnchanged(t, buffer, cells, retired, h, stages, working, step, d, middle, guard);
      DidUnchanged(t, buffer, cells, newlyRetired, h, stages, retired, working, step, d, middle, guard);
      nextH := h.Next(false, 0);
      NextApplied(h, false, 0);
      assert retired + {} == retired && newlyRetired + {} == newlyRetired;
    case Applied(lines, result, rehashed, removed) =>
      StepCounts(buffer.content, buffer.hashes, item, step, middle, guard);
      AdvanceIds(buffer.ids, lines, |SplitLines(result)|, |buffer.hashes|, |middle|);
      after := Buffer(result, rehashed, AdvancedIds(buffer.ids, lines, |SplitLines(result)|));
      GoesOnApplied(t, buffer, cells, retired, h, stages, working, step, d, middle, guard, after);
      DidApplied(t, buffer, cells, newlyRetired, h, stages, retired, working, step, d, middle, guard, after);
      nextCells := SpliceCells(cells, lines.startLine - 1, lines.endLine, middle);
      nextH := h.Next(true, |middle|);
      NextApplied(h, true, |middle|);
  }

  /** The text, anchors and identities after all items, told by where every line came from. */
  ghost predicate Faithful(
    r: Outcome, trace: Trace, o: Original, items: seq<Item>, ranges: seq<Lines>, session: Session, terminated: bool)
    requires r.Done? && |ranges| == |items| == |r.applied|
  {
    && |r.hashes| == |SplitLines(r.content)| && Distinct(r.hashes)
    && SplitLines(r.content) == Texts(o.lines, trace.cells) && Ascending(trace.cells)
    && AnchorsTrack(o, r.hashes, trace.cells) && GoneReserved(o, trace.cells, session.retired + r.newlyRetired)
    && IdsFollow(trace.firstIds, trace.last.ids, trace.cells)
    && (forall i, j | 0 <= i < j < |items| && r.applied[i] && HoleFree(session.served, items[j].bounds) ::
          DisjointLines(ranges[i], ranges[j]))
    && (terminated && PairwiseDisjoint(ranges) ==>
          SplitLines(r.content) == SpliceAll(o.lines, PatchesOf(items, ranges, All(|items|), |items|)))
    && (terminated && (forall i | 0 <= i < |items| :: HoleFree(session.served, items[i].bounds)) ==>
          SplitLines(r.content) == SpliceAll(o.lines, PatchesOf(items, ranges, r.applied, |items|)))
  }

  lemma {:induction false} GoneThrough(
    t: Batch, b: Buffer, cells: Cells, newlyRetired: set<string>, h: History, stages: seq<Stage>, r: Outcome,
    trace: Trace)
    requires Going(t, b, cells, t.session.retired + newlyRetired, h, stages) && |stages| == |t.items|
    requires r == Done(b.content, b.hashes, h.applied, newlyRetired)
    requires trace == Trace(t.checks, stages, h.applied, h.sizes, cells, t.firstIds, b)
    ensures |t.Ranges()| == |t.items| == |r.applied|
    ensures Ran(r, trace, t.Start(), t.items, t.Ranges(), t.session, t.Leased())
    ensures Faithful(r, trace, t.Start(), t.items, t.Ranges(), t.session, EndsWithNewline(t.content))
  {
    hide Going, Running, StagesFit, IdsFollow, Ran, HoleFree, PairwiseDisjoint, PatchesOf, SpliceAll, Texts, Ascending;
    hide AnchorsTrack, GoneReserved, SplitLines, Distinct, DisjointLines, Batch.Start, Batch.Ranges, Batch.Leased;
    hide Batch.Known;
    GoingBasics(t, b, cells, t.session.retired + newlyRetired, h, stages);
    RanDone(r, trace, t.Start(), t.items, t.Ranges(), t.session, t.Leased());
    StartIs(t);
    Finish(t.Start(), t.content, b, cells, t.session.retired + newlyRetired, h);
  }

  /**
   A whole batch. It runs only if every item is acceptable by itself on the original buffer; then every item is verified
   again on the working buffer. Every line of the result is an original line, in its original order and with its
   original anchor and identity, or a line that an item put there under an anchor the session does not know from this
   buffer; the anchors of the original lines that are gone are reported for retirement. An item whose lines were all
   read is never applied over a range that an earlier item replaced. A batch on leases whose ranges are disjoint is
   done in any order, unless no text is left or the anchors run out. On a terminated buffer, disjoint ranges give the
   lines of all replacements made at once, whatever the order of the items.
   */
  method RunFileEdits(
    xxh32: Hasher, content: string, hashes: seq<string>, positions: Option<map<nat, nat>>, items: seq<Item>,
    session: Session)
    returns (r: Outcome, ghost trace: Trace)
    requires |hashes| == |SplitLines(content)| && Distinct(hashes) && Anchors(hashes)
    requires positions.Some? ==> DistinctLines(positions.value, |hashes|)
    requires forall i | 0 <= i < |items| :: AllLines(items[i].contentLines)
    ensures r.Aborted? <==> !AllAcceptable(content, hashes, items, session, RouteOf(session, positions))
    ensures r.Aborted? ==> NamesRefused(r.failed, content, hashes, items, session, RouteOf(session, positions))
    ensures !r.Aborted? ==>
              && AllAccepted(trace.checks, content, hashes, items, session, RouteOf(session, positions))
              && Named(hashes, items, RangesOf(trace.checks))
              && Ran(r, trace, Original(SplitLines(content), hashes, session.served), items, RangesOf(trace.checks),
                     session, session.book.Some? && positions.Some?)
    ensures !r.Aborted? && PairwiseDisjoint(RangesOf(trace.checks)) && session.book.Some? && positions.Some? ==>
              r.Done? || r.reason.EmptyRange? || r.reason.LargeFile?
    ensures r.Done? ==>
              && |RangesOf(trace.checks)| == |items| == |r.applied|
              && Faithful(r, trace, Original(SplitLines(content), hashes, session.served), items,
                          RangesOf(trace.checks),
                          session, EndsWithNewline(content))
    ensures !r.Aborted? ==>
              Chained(trace.stages, trace.applied, items, Buffer(content, hashes, trace.firstIds), trace.last)
    ensures r.Done? ==>
              && r.content == trace.last.content && r.hashes == trace.last.hashes
              && RetiredExactly(trace.stages, trace.applied, Original(SplitLines(content), hashes, session.served),
                                trace.cells, r.newlyRetired)
    ensures positions.Some? <==> trace.firstIds.Some?
    ensures positions.Some? ==> SameIdentities(trace.firstIds.value, positions.value)
  {
    hide *;
    var ids: Option<LineIds> := None;
    if positions.Some? {
      var first := IdsFromPositions(positions.value, |hashes|);
      SameDistinct(first, positions.value);
      ids := Some(first);
    }
    IdsSoundIs(ids, |hashes|);
    var failed;
    ghost var checks;
    failed, checks := PrePass(content, hashes, items, session, RouteOf(session, positions));
    NoneRefused(failed, content, hashes, items, session, RouteOf(session, positions));
    trace := Trace(checks, [], [], [], [], ids, Buffer(content, hashes, ids));
    if failed != [] {
      return Aborted(failed), trace;
    }
    ghost var t := Batch(content, hashes, positions, items, session, checks, ids);
    BatchKnown(t);
    RangesNamed(checks, content, hashes, items, session, RouteOf(session, positions));
    var buffer := Buffer(content, hashes, ids);
    ghost var cells, h, stages := Origs(0, |hashes|), History(items, RangesOf(checks), [], []), [];
    var newlyRetired, applied := {}, [];
    SoundStart(buffer);
    GoingStarts(t, buffer);
    DidStart(t, buffer);
    assert session.retired + {} == session.retired;
    for i := 0 to |items|
      invariant h.applied == applied && |stages| == i
      invariant Going(t, buffer, cells, session.retired + newlyRetired, h, stages)
      invariant Did(t, buffer, cells, newlyRetired, h, stages)
    {
      var step, after;
      ghost var nextCells, nextH, stage;
      step, after, nextCells, nextH, stage :=
        RunItem(xxh32, items[i], session, buffer, session.retired + newlyRetired, t, cells, newlyRetired, h, stages);
      if step.Failed? {
        trace := Trace(checks, stages + [stage], h.applied, h.sizes, cells, ids, buffer);
        DidParts(t, buffer, cells, newlyRetired, h, stages);
        ChainStops(stages, h.applied, items, Buffer(content, hashes, ids), buffer, stage);
        return Stopped(i, step.reason), trace;
      }
      if step.Applied? {
        assert session.retired + newlyRetired + step.removed == session.retired + (newlyRetired + step.removed);
        newlyRetired := newlyRetired + step.removed;
      } else {
        assert session.retired + newlyRetired + {} == session.retired + newlyRetired;
        assert newlyRetired + {} == newlyRetired;
      }
      applied := applied + [step.Applied?];
      buffer, cells, h, stages := after, nextCells, nextH, stages + [stage];
    }
    trace := Trace(checks, stages, h.applied, h.sizes, cells, ids, buffer);
    r := Done(buffer.content, buffer.hashes, applied, newlyRetired);
    GoneThrough(t, buffer, cells, newlyRetired, h, stages, r, trace);
    DidParts(t, buffer, cells, newlyRetired, h, stages);
  }

  lemma {:induction false} IdsSoundIs(ids: Option<LineIds>, lineCount: nat)
    requires ids.Some? ==> |ids.value| == lineCount && DistinctIds(ids.value)
    ensures IdsSound(ids, lineCount)
  {
  }

  lemma {:induction false} NextApplied(h: History, flag: bool, size: nat)
    ensures h.Next(flag, size).applied == h.applied + [flag]
  {
  }

  lemma {:induction false} EvidenceIs(
    session: Session, positions: Option<map<nat, nat>>, firstIds: Option<LineIds>, ids: Option<LineIds>, cells: Cells,
    working: Route)
    requires (firstIds.Some? <==> positions.Some?)
    requires (positions.Some? ==> SameIdentities(firstIds.value, positions.value))
    requires IdsFollow(firstIds, ids, cells) && RouteFits(session, ids, working)
    ensures Evidence(session, positions, firstIds, ids, cells, working)
  {
    hide SameIdentities, IdsFollow, RouteFits;
  }

  lemma {:induction false} DecidedAt(
    r: Step, d: Check, content: string, hashes: seq<string>, item: Item, session: Session, retired: set<string>,
    working: Route)
    requires Checks(d, content, item, hashes, session, retired, working) && !r.Failed?
    requires EditOf(d, item).Fits(SplitLines(content)) && StepDecided(r, d, content, hashes, item, session, retired)
    ensures r.lines == d.lines
  {
    hide SplitLines, Check.Verified, SplicedText, LeavesNothing, Exhausts;
  }

  /** On a terminated buffer a finished batch of disjoint ranges gives the same lines in any order of its items. */
  lemma {:induction false} AnyOrder(
    r: Outcome, trace: Trace, items: seq<Item>, ranges: seq<Lines>, s: Outcome, other: Trace, others: seq<Item>,
    otherRanges: seq<Lines>, o: Original, session: Session)
    requires r.Done? && |ranges| == |items| == |r.applied| && Faithful(r, trace, o, items, ranges, session, true)
    requires s.Done? && |otherRanges| == |others| == |s.applied|
    requires Faithful(s, other, o, others, otherRanges, session, true)
    requires Includes(items, ranges, others, otherRanges) && Includes(others, otherRanges, items, ranges)
    requires RangesFit(ranges, |o.lines|) && PairwiseDisjoint(ranges)
    requires RangesFit(otherRanges, |o.lines|) && PairwiseDisjoint(otherRanges)
    ensures SplitLines(r.content) == SplitLines(s.content)
  {
    hide SplitLines, SpliceAll, PatchesOf, PairwiseDisjoint, Includes, RangesFit, HoleFree, Texts, AnchorsTrack;
    hide GoneReserved, IdsFollow, Ascending, Distinct;
    PatchesAnyOrder(items, ranges, others, otherRanges, |o.lines|);
  }

  // ---- on the mirror alone, the order of the items matters ----

  /** Every item lies above all items before it. */
  ghost predicate BottomUp(ranges: seq<Lines>) {
    forall i, j | 0 <= i < j < |ranges| :: ranges[j].endLine < ranges[i].startLine
  }

  lemma {:induction false} NothingAbove(h: History, n: nat)
    requires |h.sizes| == |h.applied| < |h.ranges| && n <= |h.applied| && BottomUp(h.ranges)
    requires forall i | 0 <= i < |h.ranges| :: 1 <= h.ranges[i].startLine <= h.ranges[i].endLine
    ensures h.NetShift(n, Dec(h.ranges[|h.applied|].startLine)) == 0
    decreases n
  {
    if n > 0 {
      NothingAbove(h, n - 1);
      assert h.ranges[|h.applied|].endLine < h.ranges[n - 1].startLine;
    }
  }

  lemma {:induction false} DisjointUpwards(h: History)
    requires |h.applied| < |h.ranges| && BottomUp(h.ranges)
    ensures Untouched(h)
  {
  }

  /** On a range that nothing touched, the reasons that are left. */
  lemma {:induction false} StoppedOnlyIf(s: Stage, item: Item, session: Session, leased: bool, reason: Reason)
    requires StageStopped(s, item, session, leased, reason) && Untouched(s.history)
    ensures |s.history.sizes| == |s.history.applied| < |s.history.ranges|
    ensures reason.EmptyRange? || reason.LargeFile? || reason.Unserved?
    ensures reason.Unserved? <==> !leased && ShiftOf(s.history) != 0
  {
    hide SplitLines, StepDecided, Checks, Unambiguous, ShiftOf, Untouched;
  }

  /**
   From the bottom up a batch of accepted items is done on either route, unless no text is left or anchors run out.
   */
  lemma {:induction false} BottomUpIsDone(
    r: Outcome, trace: Trace, o: Original, items: seq<Item>, ranges: seq<Lines>, session: Session, leased: bool)
    requires Ran(r, trace, o, items, ranges, session, leased) && BottomUp(ranges) && RangesFit(ranges, |o.lines|)
    ensures r.Done? || r.reason.EmptyRange? || r.reason.LargeFile?
  {
    hide SplitLines, AnchorsTrack, IdsFollow, StepDecided, Checks, Unambiguous, History.NetShift, StagePassed;
    if r.Stopped? {
      var h := History(items, ranges, trace.applied, trace.sizes);
      assert |h.applied| == |trace.stages[..r.at]| == r.at;
      NothingAbove(h, r.at);
      DisjointUpwards(h);
      StoppedOnlyIf(trace.stages[r.at], items[r.at], session, leased, r.reason);
    }
  }

  /** From the top down a changed line count refuses the item below, exactly when the mirror is the only evidence. */
  lemma {:induction false} TopDownIsRefused(
    r: Outcome, trace: Trace, o: Original, items: seq<Item>, ranges: seq<Lines>, session: Session, leased: bool)
    requires Ran(r, trace, o, items, ranges, session, leased) && |items| == 2 && RangesFit(ranges, |o.lines|)
    requires ranges[0].endLine < ranges[1].startLine
    requires |trace.applied| >= 1 && trace.applied[0]
    requires trace.sizes[0] != ranges[0].endLine - ranges[0].startLine + 1
    ensures r.Stopped? && r.reason.Unserved? <==> !leased
    ensures !leased ==> r.Stopped? && r.at == 1
  {
    hide SplitLines, AnchorsTrack, IdsFollow, StepDecided, Checks, Unambiguous, Accepts, RouteFits;
    var h := History(items, ranges, [true], trace.sizes[..1]);
    assert trace.applied[..1] == [true];
    assert h.NetShift(0, Dec(ranges[1].startLine)) == 0;
    assert ShiftOf(h) == trace.sizes[0] - (ranges[0].endLine - ranges[0].startLine + 1);
    assert Untouched(h);
    if r.Stopped? {
      assert |trace.applied| == |trace.stages[..r.at]| == r.at == 1;
      assert trace.applied == [true] && trace.sizes == trace.sizes[..1];
      StoppedOnlyIf(trace.stages[1], items[1], session, leased, r.reason);
    } else {
      assert trace.stages[..2][1] == trace.stages[1] && trace.stages[1].history == h;
    }
  }
}
