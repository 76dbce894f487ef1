/**
 Leased acceptance during a batch: the identity map that follows the working buffer still places identities only on
 lines of their digest, so every item of the batch, not only the first, lands on the lines its session was shown.
 */
module BatchEvidence {
  import opened Options
  import opened Digests
  import opened TextLines
  import opened BufferIdentity
  import opened ServedRange
  import opened Provenance
  import opened BatchTracking
  import opened BatchEdit
  import opened BatchHistory
  import opened BatchRun
  import opened LineageTables
  import opened LineageIdentity
  import opened LeaseEvidence

  function DigestsOf(lines: seq<string>, digest: string -> Digest): (r: seq<Digest>)
    ensures |r| == |lines| && forall k | 0 <= k < |r| :: r[k] == digest(lines[k])
  {
    seq<Digest>(|lines|, k requires 0 <= k < |lines| => digest(lines[k]))
  }

  /** A map that follows the lines that are left places identities where the original map placed them. */
  lemma {:induction false} PlacesMove(
    b: Bindings, path: string, lines: seq<string>, digest: string -> Digest, positions: map<nat, nat>, first: LineIds,
    ids: LineIds, cells: Cells, working: map<nat, nat>)
    requires PlacesFit(b, path, DigestsOf(lines, digest), positions) && SameIdentities(first, positions)
    requires IdsFollow(Some(first), Some(ids), cells) && SameIdentities(ids, working)
    ensures PlacesFit(b, path, DigestsOf(Texts(lines, cells), digest), working)
  {
    hide BoundTo;
    var texts := Texts(lines, cells);
    forall id | id in working
      ensures 1 <= working[id] <= |texts| && BoundTo(b, path, id, DigestsOf(texts, digest)[working[id] - 1])
    {
      var k := working[id] - 1;
      assert ids[k] == Some(id) && cells[k].Orig?;
      var x := cells[k].i;
      assert first[x] == Some(id) && positions[id] == x + 1;
      assert DigestsOf(lines, digest)[x] == DigestsOf(texts, digest)[k];
    }
  }

  /** The store, the file and the batch are about the same thing. */
  ghost predicate FromStore(
    t: Tables, b: Bindings, name: string, path: string, key: nat, meaning: nat -> seq<Digest>, digest: string -> Digest,
    lines: seq<string>, session: Session, firstIds: Option<LineIds>)
  {
    && Inv(t, b) && Keyed(t, meaning) && DigestsOf(lines, digest) == meaning(key)
    && session.book.Some? && session.book.value.leases == LeaseViews(t, name, path)
    && firstIds.Some? && SameIdentities(firstIds.value, PositionsByIdentity(t, path, key, DigestsOf(lines, digest)))
  }

  /** Every shown line of the range has the digest recorded when it was shown. */
  ghost predicate ShownAsServed(
    t: Tables, name: string, path: string, digest: string -> Digest, lines: seq<string>, c: Check, from: nat)
    requires c.Resolved() && |lines| == |c.fileLines|
  {
    && from + c.Count() <= |c.served| && c.served[from].Some? && c.served[from + c.Count() - 1].Some?
    && forall i | from <= i < from + c.Count() && c.served[i].Some? ::
         SameAsServed(t, name, path, c.served[i].value, digest(lines[c.lines.startLine - 1 + i - from]))
  }

  /** The working identity map of a stage that passed on leases places identities only on lines of their digest. */
  lemma {:induction false} StagePlacesFit(
    t: Tables, b: Bindings, name: string, path: string, key: nat, meaning: nat -> seq<Digest>, digest: string -> Digest,
    o: Original, session: Session, firstIds: Option<LineIds>, s: Stage, h: History, item: Item)
    requires FromStore(t, b, name, path, key, meaning, digest, o.lines, session, firstIds)
    requires StageFits(s, h, o, firstIds) && StagePassed(s, item, session, true)
    ensures s.check.Resolved() && s.check.Verified() && s.check.fileLines == SplitLines(s.buffer.content)
    ensures s.check.route.Leased? && s.check.route.source.leases == LeaseViews(t, name, path)
    ensures PlacesFit(b, path, DigestsOf(SplitLines(s.buffer.content), digest), s.check.route.source.positions)
  {
    hide SplitLines, Inv, Keyed, LeaseViews, PositionsByIdentity, PlacesFit, Check.Verified, Check.Resolved;
    hide SameIdentities, IdsFollow, AnchorsTrack, ShiftOf, Untouched, DigestsOf;
    PositionsFit(t, b, path, key, DigestsOf(o.lines, digest), meaning);
    IdsThere(firstIds, s.buffer.ids, s.cells);
    PlacesMove(b, path, o.lines, digest, PositionsByIdentity(t, path, key, DigestsOf(o.lines, digest)), firstIds.value,
               s.buffer.ids.value, s.cells, s.check.route.source.positions);
  }

  lemma {:induction false} StoreInv(
    t: Tables, b: Bindings, name: string, path: string, key: nat, meaning: nat -> seq<Digest>, digest: string -> Digest,
    lines: seq<string>, session: Session, firstIds: Option<LineIds>)
    requires FromStore(t, b, name, path, key, meaning, digest, lines, session, firstIds)
    ensures Inv(t, b)
  {
    hide Inv, Keyed, LeaseViews, PositionsByIdentity, SameIdentities;
  }

  lemma {:induction false} StageLinesFit(
    t: Tables, b: Bindings, name: string, path: string, key: nat, meaning: nat -> seq<Digest>, digest: string -> Digest,
    o: Original, session: Session, firstIds: Option<LineIds>, s: Stage, h: History, item: Item)
    returns (from: nat)
    requires FromStore(t, b, name, path, key, meaning, digest, o.lines, session, firstIds)
    requires StageFits(s, h, o, firstIds) && StagePassed(s, item, session, true)
    ensures s.check.Resolved() && |s.check.fileLines| == |SplitLines(s.buffer.content)|
    ensures ShownAsServed(t, name, path, digest, SplitLines(s.buffer.content), s.check, from)
  {
    hide SplitLines, Inv, FromStore, StageFits, StagePassed, LeaseViews, PlacesFit, Check.Verified, Check.Resolved;
    hide SameAsServed;
    var lines := SplitLines(s.buffer.content);
    StoreInv(t, b, name, path, key, meaning, digest, o.lines, session, firstIds);
    StagePlacesFit(t, b, name, path, key, meaning, digest, o, session, firstIds, s, h, item);
    from := AcceptedLinesFit(t, b, name, path, DigestsOf(lines, digest), s.check);
    RangeWithin(s.check);
    forall i | from <= i < from + s.check.Count() && s.check.served[i].Some?
      ensures SameAsServed(t, name, path, s.check.served[i].value,
                           digest(lines[s.check.lines.startLine - 1 + i - from]))
    {
      assert DigestsOf(lines, digest)[s.check.lines.startLine - 1 + i - from]
             == digest(lines[s.check.lines.startLine - 1 + i - from]);
    }
  }

  lemma {:induction false} RangeWithin(c: Check)
    requires c.Resolved()
    ensures 1 <= c.lines.startLine && c.lines.startLine - 1 + c.Count() <= |c.fileLines|
  {
    hide Sole;
  }

  lemma {:induction false} IdsThere(firstIds: Option<LineIds>, ids: Option<LineIds>, cells: Cells)
    requires IdsFollow(firstIds, ids, cells)
    ensures firstIds.Some? <==> ids.Some?
  {
  }

  /** Every item that a batch accepted on leases found, on the buffer of its turn, only lines as they were shown. */
  lemma {:induction false} BatchLinesAreServedLines(
    t: Tables, b: Bindings, name: string, path: string, key: nat, meaning: nat -> seq<Digest>, digest: string -> Digest,
    o: Original, items: seq<Item>, ranges: seq<Lines>, session: Session, r: Outcome, trace: Trace, k: nat)
    returns (from: nat)
    requires FromStore(t, b, name, path, key, meaning, digest, o.lines, session, trace.firstIds)
    requires Ran(r, trace, o, items, ranges, session, true) && k < |trace.applied|
    ensures k < |trace.stages| && trace.stages[k].check.Resolved()
    ensures |trace.stages[k].check.fileLines| == |SplitLines(trace.stages[k].buffer.content)|
    ensures ShownAsServed(t, name, path, digest, SplitLines(trace.stages[k].buffer.content), trace.stages[k].check,
                          from)
  {
    hide FromStore, StageFits, StagePassed, StageStopped, SplitLines, Check.Resolved, ShownAsServed;
    from := StageLinesFit(t, b, name, path, key, meaning, digest, o, session, trace.firstIds, trace.stages[k],
                          History(items, ranges, trace.applied[..k], trace.sizes[..k]), items[k]);
  }
}
