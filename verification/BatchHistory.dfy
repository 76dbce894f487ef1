/**
 What holds between two items of a batch, seen from the original buffer: which lines are left and where they
 stand, what the applied items replaced, and that it comes to all replacements at once.
 */
module BatchHistory {
  import opened Numbers
  import opened Options
  import opened TextLines
  import opened LineSplice
  import opened HashAssign
  import opened StableHashes
  import opened BufferIdentity
  import opened ServedRange
  import opened Provenance
  import opened BatchTracking
  import opened BatchEdit

  // ---- the patches of a batch ----

  ghost predicate DisjointLines(a: Lines, b: Lines) {
    a.endLine < b.startLine || b.endLine < a.startLine
  }

  ghost predicate PairwiseDisjoint(ranges: seq<Lines>) {
    forall i, j | 0 <= i < j < |ranges| :: DisjointLines(ranges[i], ranges[j])
  }

  /** No item touches the range of an item applied before it. */
  ghost predicate Separate(ranges: seq<Lines>, applied: seq<bool>, n: nat)
    requires n <= |ranges| && n <= |applied|
  {
    forall i, j | 0 <= i < j < n && applied[i] :: DisjointLines(ranges[i], ranges[j])
  }

  ghost predicate RangesFit(ranges: seq<Lines>, lineCount: nat) {
    forall i | 0 <= i < |ranges| :: 1 <= ranges[i].startLine <= ranges[i].endLine <= lineCount
  }

  /** The chosen ones among the first n items, as replacements of their ranges in the original buffer. */
  ghost function PatchesOf(items: seq<Item>, ranges: seq<Lines>, chosen: seq<bool>, n: nat): Patches
    requires n <= |items| && n <= |ranges| && n <= |chosen|
  {
    if n == 0 then map[]
    else
      var before := PatchesOf(items, ranges, chosen, n - 1);
      if chosen[n - 1] then
        before[Dec(ranges[n - 1].startLine) := Patch(ranges[n - 1].endLine, items[n - 1].contentLines)]
      else before
  }

  lemma {:induction false} PatchOrigin(items: seq<Item>, ranges: seq<Lines>, chosen: seq<bool>, n: nat, s: nat)
    returns (i: nat)
    requires n <= |items| && n <= |ranges| && n <= |chosen|
    requires s in PatchesOf(items, ranges, chosen, n)
    ensures i < n && chosen[i] && s == Dec(ranges[i].startLine)
    ensures PatchesOf(items, ranges, chosen, n)[s] == Patch(ranges[i].endLine, items[i].contentLines)
    decreases n
  {
    if chosen[n - 1] && s == Dec(ranges[n - 1].startLine) {
      i := n - 1;
    } else {
      i := PatchOrigin(items, ranges, chosen, n - 1, s);
    }
  }

  /** Patches of separate items lie apart, and clear of the next item. */
  lemma {:induction false} PatchesApart(items: seq<Item>, ranges: seq<Lines>, chosen: seq<bool>, n: nat, lineCount: nat)
    requires n <= |items| && n <= |ranges| && n <= |chosen|
    requires RangesFit(ranges, lineCount) && Separate(ranges, chosen, n)
    ensures Apart(PatchesOf(items, ranges, chosen, n), lineCount)
    ensures n < |ranges| && n < |chosen| && Separate(ranges, chosen, n + 1) ==>
              Clear(PatchesOf(items, ranges, chosen, n), ranges[n].startLine - 1, ranges[n].endLine)
  {
    var patches := PatchesOf(items, ranges, chosen, n);
    forall s | s in patches
      ensures s < patches[s].end <= lineCount
      ensures n < |ranges| && n < |chosen| && Separate(ranges, chosen, n + 1) ==>
                patches[s].end <= ranges[n].startLine - 1 || ranges[n].endLine <= s
    {
      var i := PatchOrigin(items, ranges, chosen, n, s);
    }
    forall s, t | s in patches && t in patches && s < t ensures patches[s].end <= t {
      var i := PatchOrigin(items, ranges, chosen, n, s);
      var j := PatchOrigin(items, ranges, chosen, n, t);
      assert DisjointLines(ranges[i], ranges[j]);
    }
  }

  // ---- the state of a running batch ----

  datatype Buffer = Buffer(content: string, hashes: seq<string>, ids: Option<LineIds>)

  /** One entry per line, and no identity on two lines. */
  ghost predicate IdsSound(ids: Option<LineIds>, lineCount: nat) {
    ids.Some? ==> |ids.value| == lineCount && DistinctIds(ids.value)
  }

  ghost predicate Sound(b: Buffer) {
    && |b.hashes| == |SplitLines(b.content)| && Distinct(b.hashes) && Anchors(b.hashes)
    && IdsSound(b.ids, |b.hashes|)
  }

  /**
   What the first items did, seen from the original buffer: their ranges there, which were applied, and how many
   lines each put in place of its range.
   */
  datatype History = History(items: seq<Item>, ranges: seq<Lines>, applied: seq<bool>, sizes: seq<nat>) {
    function Next(wasApplied: bool, size: nat): History {
      History(items, ranges, applied + [wasApplied], sizes + [size])
    }

    ghost predicate Fits(o: Original) {
      |sizes| == |applied| <= |ranges| == |items| && RangesFit(ranges, |o.lines|)
    }

    /** By how many lines the first n items moved line x of the original, counted from 0. */
    function NetShift(n: nat, x: nat): int
      requires n <= |applied| && n <= |ranges| && n <= |sizes|
    {
      if n == 0 then 0
      else
        NetShift(n - 1, x)
        + if applied[n - 1] && ranges[n - 1].endLine <= x
          then sizes[n - 1] - (ranges[n - 1].endLine - ranges[n - 1].startLine + 1) else 0
    }

    /** Every original line that is left stands where the items before moved it. */
    ghost predicate Located(cells: Cells)
      requires |sizes| == |applied| <= |ranges|
    {
      forall k | 0 <= k < |cells| && cells[k].Orig? :: k == cells[k].i + NetShift(|applied|, cells[k].i)
    }

    /** Line x of the original lies in the range of an applied item. */
    ghost predicate Replaced(x: nat)
      requires |applied| <= |ranges|
    {
      exists j :: 0 <= j < |applied| && applied[j] && ranges[j].startLine <= x + 1 <= ranges[j].endLine
    }

    /** No other original line is gone. */
    ghost predicate OthersLeft(o: Original, cells: Cells)
      requires |applied| <= |ranges|
    {
      forall x: nat | x < |o.lines| :: Present(cells, x) || Replaced(x)
    }

    ghost predicate AppliedGone(cells: Cells)
      requires |applied| <= |ranges|
    {
      forall i | 0 <= i < |applied| && applied[i] :: Gone(cells, ranges[i])
    }

    /** An item whose lines were all read touches no range that was already replaced. */
    ghost predicate NoOverlap(served: Mirror)
      requires |applied| <= |ranges| == |items|
    {
      forall i, j | 0 <= i < j < |applied| && applied[i] && HoleFree(served, items[j].bounds) ::
        DisjointLines(ranges[i], ranges[j])
    }

    /** The items so far, if they kept apart, edited a terminated buffer all at once. */
    ghost predicate AtOnce(o: Original, content: string, cells: Cells)
      requires Fits(o)
    {
      && EndsWithNewline(content)
      && cells == Merged(|o.lines|, 0, PatchesOf(items, ranges, applied, |applied|))
      && forall i | 0 <= i < |applied| && !applied[i] ::
           items[i].contentLines == o.lines[ranges[i].startLine - 1..ranges[i].endLine]
    }
  }

  /** Everything that holds between two items of a batch. */
  ghost predicate Running(o: Original, terminated: bool, b: Buffer, cells: Cells, reserved: set<string>, h: History) {
    && h.Fits(o) && Distinct(o.hashes) && |o.hashes| == |o.lines|
    && Sound(b)
    && Tracks(o, SplitLines(b.content), b.hashes, cells, reserved)
    && h.AppliedGone(cells)
    && h.NoOverlap(o.served)
    && h.Located(cells) && h.OthersLeft(o, cells)
    && (terminated && Separate(h.ranges, h.applied, |h.applied|) ==> h.AtOnce(o, b.content, cells))
  }

  /** The item's check on the original buffer and its check on the working buffer, both accepted. */
  ghost predicate Rechecked(o: Original, b: Buffer, h: History, c: Check, d: Check)
    requires h.Fits(o)
  {
    && |h.applied| < |h.items|
    && c.Resolved() && c.Verified() && c.fileHashes == o.hashes && c.served == o.served
    && SamePair(c.bounds, h.items[|h.applied|].bounds) && c.lines == h.ranges[|h.applied|]
    && d.Resolved() && d.Verified() && d.fileHashes == b.hashes && d.served == o.served
    && SamePair(d.bounds, h.items[|h.applied|].bounds)
  }

  /** The item found its lines in the working buffer. */
  ghost predicate FoundLines(o: Original, cells: Cells, h: History, at: Lines)
    requires |h.applied| < |h.ranges| == |h.items|
  {
    var range := h.ranges[|h.applied|];
    && 1 <= at.startLine <= at.endLine <= |cells|
    && 1 <= range.startLine
    && at.endLine - at.startLine == range.endLine - range.startLine
    && cells[at.startLine - 1] == Orig(range.startLine - 1) && cells[at.endLine - 1] == Orig(range.endLine - 1)
    && (HoleFree(o.served, h.items[|h.applied|].bounds) ==>
          forall i: nat | range.startLine <= i + 1 <= range.endLine :: Present(cells, i))
  }

  lemma {:induction false} FoundBounds(o: Original, cells: Cells, h: History, at: Lines)
    requires |h.applied| < |h.ranges| == |h.items| && FoundLines(o, cells, h, at)
    ensures 1 <= at.startLine <= at.endLine <= |cells|
  {
  }

  lemma {:induction false} AtOnceTerminated(o: Original, cells: Cells, h: History, content: string)
    requires h.Fits(o) && h.AtOnce(o, content, cells)
    ensures EndsWithNewline(content)
  {
  }

  lemma {:induction false} StepHashes(
    content: string, hashes: seq<string>, item: Item, r: Step, middle: seq<string>, guard: set<string>)
    requires r.Applied? && StepDone(content, hashes, item, r, middle, guard)
    ensures Distinct(r.hashes) && Anchors(r.hashes)
  {
    hide Distinct, Anchors, SplitLines, Elements;
  }

  lemma {:induction false} FindLines(
    o: Original, terminated: bool, b: Buffer, cells: Cells, reserved: set<string>, h: History, c: Check, d: Check)
    requires Running(o, terminated, b, cells, reserved, h) && Rechecked(o, b, h, c, d)
    ensures FoundLines(o, cells, h, d.lines) && 1 <= d.lines.startLine <= d.lines.endLine <= |cells|
  {
    hide SplitLines, Texts, Ascending, GoneReserved, Check.Verified, Anchors, Merged, PatchesOf, Present, Sole;
    hide Distinct, Separate;
    hide History.AtOnce, History.NoOverlap, History.AppliedGone, HoleFree, SameLines, AnchorsTrack, History.Located;
    hide History.OthersLeft;
    TrackedSizes(o, b.hashes, cells);
    SameWindow(c, d);
    WindowCells(o, b.hashes, cells, c, d);
    SameCounts(c, d);
    HoleFreeSame(o.served, c.bounds, h.items[|h.applied|].bounds);
  }

  lemma {:induction false} HoleFreeSame(served: Mirror, a: Bounds, b: Bounds)
    requires SamePair(a, b)
    ensures HoleFree(served, b) ==> HoleFree(served, a)
  {
  }

  // ---- one item further ----

  lemma {:induction false} OverlapRefused(o: Original, cells: Cells, h: History, at: Lines, flag: bool, size: nat)
    requires h.Fits(o) && h.AppliedGone(cells) && h.NoOverlap(o.served) && |h.applied| < |h.ranges|
    requires FoundLines(o, cells, h, at)
    ensures h.Next(flag, size).NoOverlap(o.served)
  {
    hide HoleFree, Present;
    var j := |h.applied|;
    var b := h.ranges[j];
    forall i | 0 <= i < j && h.applied[i] && HoleFree(o.served, h.items[j].bounds)
      ensures DisjointLines(h.ranges[i], b)
    {
      var a := h.ranges[i];
      var first: nat := Max(a.startLine, b.startLine) - 1;
      assert a.startLine <= first + 1 <= a.endLine ==> !Present(cells, first);
      assert b.startLine <= first + 1 <= b.endLine ==> Present(cells, first);
    }
  }

  lemma {:induction false} GoneNext(o: Original, cells: Cells, h: History, at: Lines, middle: seq<string>)
    requires h.Fits(o) && h.AppliedGone(cells) && |h.applied| < |h.ranges| && Ascending(cells)
    requires FoundLines(o, cells, h, at)
    ensures h.Next(true, |middle|).AppliedGone(SpliceCells(cells, at.startLine - 1, at.endLine, middle))
  {
    hide HoleFree, Present, Ascending, SpliceCells, Gone;
    var after := SpliceCells(cells, at.startLine - 1, at.endLine, middle);
    RangeGoes(cells, at, h.ranges[|h.applied|], middle);
    forall i | 0 <= i < |h.applied| && h.applied[i] ensures Gone(after, h.ranges[i]) {
      GoneStays(cells, at.startLine - 1, at.endLine, middle, h.ranges[i]);
    }
  }

  lemma {:induction false} PatchesPrefix(
    items: seq<Item>, ranges: seq<Lines>, chosen: seq<bool>, more: seq<bool>, n: nat)
    requires n <= |items| && n <= |ranges| && n <= |chosen|
    ensures PatchesOf(items, ranges, chosen + more, n) == PatchesOf(items, ranges, chosen, n)
    decreases n
  {
    if n > 0 {
      PatchesPrefix(items, ranges, chosen, more, n - 1);
    }
  }

  lemma {:induction false} SeparateBefore(ranges: seq<Lines>, applied: seq<bool>, flag: bool)
    requires |applied| < |ranges| && Separate(ranges, applied + [flag], |applied| + 1)
    ensures Separate(ranges, applied, |applied|)
  {
    var more := applied + [flag];
    forall i, j | 0 <= i < j < |applied| && applied[i] ensures DisjointLines(ranges[i], ranges[j]) {
      assert more[i];
    }
  }

  /** The lines of an item that kept apart stand in the working buffer in one piece. */
  lemma {:induction false} OnePiece(o: Original, cells: Cells, h: History, at: Lines, content: string)
    requires h.Fits(o) && |h.applied| < |h.ranges| && Ascending(cells) && FoundLines(o, cells, h, at)
    requires Separate(h.ranges, h.applied + [true], |h.applied| + 1) && h.AtOnce(o, content, cells)
    ensures
      var range := h.ranges[|h.applied|];
      var patch := Patch(range.endLine, h.items[|h.applied|].contentLines);
      var patches := PatchesOf(h.items, h.ranges, h.applied, |h.applied|);
      && Apart(patches, |o.lines|) && Clear(patches, range.startLine - 1, range.endLine)
      && cells[at.startLine - 1..at.endLine] == Origs(range.startLine - 1, range.endLine)
      && Merged(|o.lines|, 0, patches[range.startLine - 1 := patch])
         == SpliceCells(cells, at.startLine - 1, at.endLine, patch.lines)
  {
    hide Present, HoleFree, Ascending, SpliceCells, Merged, PatchesOf, Apart, Clear, Separate;
    var n := |h.applied|;
    var range := h.ranges[n];
    var patch := Patch(range.endLine, h.items[n].contentLines);
    var patches := PatchesOf(h.items, h.ranges, h.applied, n);
    SeparateBefore(h.ranges, h.applied, true);
    PatchesPrefix(h.items, h.ranges, h.applied, [true], n);
    SeparateMore(h.ranges, h.applied);
    PatchesApart(h.items, h.ranges, h.applied + [true], n, |o.lines|);
    PatchInPlace(o, cells, patches, range, at, patch);
  }

  lemma {:induction false} SeparateMore(ranges: seq<Lines>, applied: seq<bool>)
    requires |applied| < |ranges| && Separate(ranges, applied + [true], |applied| + 1)
    ensures Separate(ranges, applied + [true], |applied|)
  {
  }

  lemma {:induction false} PatchInPlace(
    o: Original, cells: Cells, patches: Patches, range: Lines, at: Lines, patch: Patch)
    requires 1 <= range.startLine <= range.endLine <= |o.lines| && patch.end == range.endLine
    requires Apart(patches, |o.lines|) && Clear(patches, range.startLine - 1, range.endLine)
    requires cells == Merged(|o.lines|, 0, patches) && Ascending(cells)
    requires 1 <= at.startLine <= at.endLine <= |cells| && at.endLine - at.startLine == range.endLine - range.startLine
    requires cells[at.startLine - 1] == Orig(range.startLine - 1)
    ensures cells[at.startLine - 1..at.endLine] == Origs(range.startLine - 1, range.endLine)
    ensures Merged(|o.lines|, 0, patches[range.startLine - 1 := patch])
            == SpliceCells(cells, at.startLine - 1, at.endLine, patch.lines)
  {
    hide Merged, Ascending, SpliceCells, Apart, Clear, Origs;
    NothingBefore(patches, |o.lines|);
    var k := MergedSplice(|o.lines|, 0, patches, range.startLine - 1, patch);
    var len := range.endLine - range.startLine + 1;
    assert cells[k..k + len][0] == cells[k];
    OnePlace(cells, k, at.startLine - 1);
  }

  lemma {:induction false} NothingBefore(patches: Patches, n: nat)
    requires Apart(patches, n)
    ensures forall t | t in patches && t < 0 :: patches[t].end <= 0
  {
  }

  /** Applied items that kept apart act as if all at once. */
  lemma {:induction false} AtOnceApplied(
    o: Original, cells: Cells, h: History, at: Lines, content: string, result: string, middle: seq<string>)
    requires h.Fits(o) && |h.applied| < |h.ranges| && Ascending(cells) && FoundLines(o, cells, h, at)
    requires Separate(h.ranges, h.applied + [true], |h.applied| + 1) && h.AtOnce(o, content, cells)
    requires EditedLines(content, result, at, h.items[|h.applied|].contentLines, middle)
    ensures h.Next(true, |middle|).Fits(o)
    ensures h.Next(true, |middle|).AtOnce(o, result, SpliceCells(cells, at.startLine - 1, at.endLine, middle))
  {
    hide FoundLines, Separate, Ascending, SpliceCells, Merged, SplitLines, Apart, Clear;
    var n := |h.applied|;
    OnePiece(o, cells, h, at, content);
    PatchesPrefix(h.items, h.ranges, h.applied, [true], n);
    FoundBounds(o, cells, h, at);
  }

  /** An edit that changed nothing asked for the lines that were there originally. */
  lemma {:induction false} UnchangedAsked(
    o: Original, cells: Cells, h: History, at: Lines, content: string, middle: seq<string>)
    requires h.Fits(o) && |h.applied| < |h.ranges| && Ascending(cells) && FoundLines(o, cells, h, at)
    requires Separate(h.ranges, h.applied + [false], |h.applied| + 1) && h.AtOnce(o, content, cells)
    requires SplitLines(content) == Texts(o.lines, cells)
    requires EditedLines(content, content, at, h.items[|h.applied|].contentLines, middle)
    ensures h.items[|h.applied|].contentLines
            == o.lines[h.ranges[|h.applied|].startLine - 1..h.ranges[|h.applied|].endLine]
  {
    hide FoundLines, Separate, Ascending, SpliceCells, Merged, SplitLines, Apart, Clear, Texts, Origs, History.AtOnce;
    hide PatchesOf;
    AtOnceTerminated(o, cells, h, content);
    FoundBounds(o, cells, h, at);
    var range := h.ranges[|h.applied|];
    FlagDoesNotMatter(h.ranges, h.applied);
    OnePiece(o, cells, h, at, content);
    MiddleOfSame(SplitLines(content), middle, at);
    TextsOfOrigs(o.lines, range.startLine - 1, range.endLine);
    TextsOfSlice(o.lines, cells, at.startLine - 1, at.endLine);
  }

  lemma {:induction false} AtOnceUnchanged(
    o: Original, cells: Cells, h: History, at: Lines, content: string, middle: seq<string>)
    requires h.Fits(o) && |h.applied| < |h.ranges| && Ascending(cells) && FoundLines(o, cells, h, at)
    requires Separate(h.ranges, h.applied + [false], |h.applied| + 1) && h.AtOnce(o, content, cells)
    requires SplitLines(content) == Texts(o.lines, cells)
    requires EditedLines(content, content, at, h.items[|h.applied|].contentLines, middle)
    ensures h.Next(false, 0).Fits(o) && h.Next(false, 0).AtOnce(o, content, cells)
  {
    hide FoundLines, Separate, Ascending, Merged, SplitLines, Texts, EditedLines;
    UnchangedAsked(o, cells, h, at, content, middle);
    PatchesPrefix(h.items, h.ranges, h.applied, [false], |h.applied|);
  }

  lemma {:induction false} FlagDoesNotMatter(ranges: seq<Lines>, applied: seq<bool>)
    requires |applied| < |ranges| && Separate(ranges, applied + [false], |applied| + 1)
    ensures Separate(ranges, applied + [true], |applied| + 1)
  {
    var no, yes := applied + [false], applied + [true];
    forall i, j | 0 <= i < j < |applied| + 1 && yes[i] ensures DisjointLines(ranges[i], ranges[j]) {
      assert no[i];
    }
  }

  lemma {:induction false} MiddleOfSame(lines: seq<string>, middle: seq<string>, at: Lines)
    requires 1 <= at.startLine <= at.endLine <= |lines|
    requires lines == lines[..at.startLine - 1] + middle + lines[at.endLine..]
    ensures middle == lines[at.startLine - 1..at.endLine]
  {
    assert |middle| == at.endLine - at.startLine + 1;
    assert lines[at.startLine - 1..at.endLine]
        == (lines[..at.startLine - 1] + middle + lines[at.endLine..])[at.startLine - 1..at.endLine];
  }

  lemma {:induction false} TextsOfSlice(lines: seq<string>, cells: Cells, from: nat, to: nat)
    requires from <= to <= |cells|
    ensures Texts(lines, cells)[from..to] == Texts(lines, cells[from..to])
  {
  }

  /** An applied item keeps the batch running. */
  lemma {:induction false} StepApplied(
    o: Original, terminated: bool, b: Buffer, cells: Cells, reserved: set<string>, h: History, item: Item, r: Step,
    middle: seq<string>, guard: set<string>, after: Buffer)
    requires Running(o, terminated, b, cells, reserved, h) && |h.applied| < |h.items| && item == h.items[|h.applied|]
    requires r.Applied? && FoundLines(o, cells, h, r.lines) && StepDone(b.content, b.hashes, item, r, middle, guard)
    requires guard == reserved || guard == Shown(o.served)
    requires after.content == r.content && after.hashes == r.hashes
    requires IdsSound(after.ids, |r.hashes|)
    ensures
      Running(o, terminated, after, SpliceCells(cells, r.lines.startLine - 1, r.lines.endLine, middle),
              reserved + r.removed, h.Next(true, |middle|))
  {
    hide FoundLines, Separate, Merged, SplitLines, Texts, Distinct, Anchors, AnchorsTrack, GoneReserved, Ascending;
    hide SpliceCells, History.AtOnce, History.NoOverlap, History.AppliedGone, PatchesOf, DistinctIds, Elements, Shown;
    hide History.Located, History.OthersLeft;
    hide Tracks, RehashedSplice, EditedLines;
    var at := r.lines;
    TracksApplied(o, b, cells, reserved, h, item, r, middle, guard);
    StepHashes(b.content, b.hashes, item, r, middle, guard);
    TracksAscends(o, SplitLines(b.content), b.hashes, cells, reserved);
    OverlapRefused(o, cells, h, at, true, |middle|);
    GoneNext(o, cells, h, at, middle);
    LocatedNext(o, cells, h, at, middle);
    LeftNext(o, cells, h, at, middle);
    if terminated && Separate(h.ranges, h.applied + [true], |h.applied| + 1) {
      SeparateBefore(h.ranges, h.applied, true);
      AtOnceApplied(o, cells, h, at, b.content, r.content, middle);
    }
  }

  lemma {:induction false} TracksApplied(
    o: Original, b: Buffer, cells: Cells, reserved: set<string>, h: History, item: Item, r: Step,
    middle: seq<string>, guard: set<string>)
    requires Tracks(o, SplitLines(b.content), b.hashes, cells, reserved) && |h.applied| < |h.items| && h.Fits(o)
    requires r.Applied? && FoundLines(o, cells, h, r.lines) && StepDone(b.content, b.hashes, item, r, middle, guard)
    requires guard == reserved || guard == Shown(o.served)
    ensures Tracks(o, SplitLines(r.content), r.hashes,
                   SpliceCells(cells, r.lines.startLine - 1, r.lines.endLine, middle), reserved + r.removed)
  {
    hide Tracks, RehashedSplice, SplitLines, SpliceCells, Elements, Shown, HoleFree, Present;
    TracksSplice(o, SplitLines(b.content), b.hashes, cells, reserved, guard, r.lines.startLine - 1, r.lines.endLine,
                 middle, SplitLines(r.content), r.hashes);
  }

  /** An item that changed nothing keeps the batch running. */
  lemma {:induction false} StepUnchanged(
    o: Original, terminated: bool, b: Buffer, cells: Cells, reserved: set<string>, h: History, at: Lines,
    middle: seq<string>)
    requires Running(o, terminated, b, cells, reserved, h) && |h.applied| < |h.items|
    requires FoundLines(o, cells, h, at)
    requires EditedLines(b.content, b.content, at, h.items[|h.applied|].contentLines, middle)
    ensures Running(o, terminated, b, cells, reserved, h.Next(false, 0))
  {
    hide FoundLines, Separate, Merged, SplitLines, Texts, Distinct, Anchors, AnchorsTrack, GoneReserved, Ascending;
    hide History.AtOnce, History.NoOverlap, PatchesOf, DistinctIds, Sound, EditedLines, Gone, History.Located;
    hide History.OthersLeft;
    OverlapRefused(o, cells, h, at, false, 0);
    PlacesStay(o, cells, h);
    if terminated && Separate(h.ranges, h.applied + [false], |h.applied| + 1) {
      SeparateBefore(h.ranges, h.applied, false);
      AtOnceUnchanged(o, cells, h, at, b.content, middle);
    }
  }

  lemma {:induction false} ShiftPrefix(h: History, flag: bool, size: nat, n: nat, x: nat)
    requires |h.sizes| == |h.applied| && n <= |h.applied| && n <= |h.ranges|
    ensures h.Next(flag, size).NetShift(n, x) == h.NetShift(n, x)
    decreases n
  {
    if n > 0 {
      ShiftPrefix(h, flag, size, n - 1, x);
    }
  }

  /** How far one more item moves line x. */
  lemma {:induction false} ShiftNext(h: History, flag: bool, size: nat, x: nat)
    requires |h.sizes| == |h.applied| < |h.ranges|
    ensures
      var n, range := |h.applied|, h.ranges[|h.applied|];
      h.Next(flag, size).NetShift(n + 1, x)
      == h.NetShift(n, x) + if flag && range.endLine <= x then size - (range.endLine - range.startLine + 1) else 0
  {
    ShiftPrefix(h, flag, size, |h.applied|, x);
  }

  lemma {:induction false} LocatedNext(o: Original, cells: Cells, h: History, at: Lines, middle: seq<string>)
    requires h.Fits(o) && h.Located(cells) && |h.applied| < |h.ranges| && Ascending(cells)
    requires FoundLines(o, cells, h, at)
    ensures h.Next(true, |middle|).Located(SpliceCells(cells, at.startLine - 1, at.endLine, middle))
  {
    hide HoleFree, Present, History.NetShift;
    var after, range := SpliceCells(cells, at.startLine - 1, at.endLine, middle), h.ranges[|h.applied|];
    var moved := |after| - |cells|;
    forall k | 0 <= k < |after| && after[k].Orig?
      ensures k == after[k].i + h.Next(true, |middle|).NetShift(|h.applied| + 1, after[k].i)
    {
      ShiftNext(h, true, |middle|, after[k].i);
      if k < at.startLine - 1 {
        assert after[k] == cells[k];
      } else {
        assert after[k] == cells[k - moved];
      }
    }
  }

  lemma {:induction false} LeftNext(o: Original, cells: Cells, h: History, at: Lines, middle: seq<string>)
    requires h.Fits(o) && h.OthersLeft(o, cells) && |h.applied| < |h.ranges| && Ascending(cells)
    requires FoundLines(o, cells, h, at)
    ensures h.Next(true, |middle|).OthersLeft(o, SpliceCells(cells, at.startLine - 1, at.endLine, middle))
  {
    hide HoleFree;
    var next, after := h.Next(true, |middle|), SpliceCells(cells, at.startLine - 1, at.endLine, middle);
    forall x: nat | x < |o.lines| ensures Present(after, x) || next.Replaced(x) {
      if Present(cells, x) {
        StaysOrReplaced(cells, h.ranges[|h.applied|], at, middle, x);
        assert next.applied[|h.applied|];
      } else {
        var j :| 0 <= j < |h.applied| && h.applied[j] && h.ranges[j].startLine <= x + 1 <= h.ranges[j].endLine;
        assert next.applied[j];
      }
    }
  }

  lemma {:induction false} StaysOrReplaced(cells: Cells, range: Lines, at: Lines, middle: seq<string>, x: nat)
    requires Ascending(cells) && 1 <= at.startLine <= at.endLine <= |cells| && 1 <= range.startLine <= range.endLine
    requires cells[at.startLine - 1] == Orig(range.startLine - 1) && cells[at.endLine - 1] == Orig(range.endLine - 1)
    requires Present(cells, x)
    ensures Present(SpliceCells(cells, at.startLine - 1, at.endLine, middle), x)
            || range.startLine <= x + 1 <= range.endLine
  {
    var after := SpliceCells(cells, at.startLine - 1, at.endLine, middle);
    var k :| 0 <= k < |cells| && cells[k] == Orig(x);
    if k < at.startLine - 1 {
      assert after[k] == Orig(x);
    } else if k >= at.endLine {
      assert after[k + |after| - |cells|] == Orig(x);
    }
  }

  /** An item that changed nothing moved nothing. */
  lemma {:induction false} PlacesStay(o: Original, cells: Cells, h: History)
    requires h.Fits(o) && h.Located(cells) && h.OthersLeft(o, cells) && |h.applied| < |h.ranges|
    ensures h.Next(false, 0).Located(cells) && h.Next(false, 0).OthersLeft(o, cells)
  {
    hide Present, History.NetShift;
    forall x: nat ensures h.Next(false, 0).NetShift(|h.applied| + 1, x) == h.NetShift(|h.applied|, x) {
      ShiftNext(h, false, 0, x);
    }
    forall x: nat | x < |o.lines| && h.Replaced(x) ensures h.Next(false, 0).Replaced(x) {
      var j :| 0 <= j < |h.applied| && h.applied[j] && h.ranges[j].startLine <= x + 1 <= h.ranges[j].endLine;
      assert h.Next(false, 0).applied[j];
    }
  }

  // ---- all items count, also those that changed nothing ----

  lemma {:induction false} SeparateAll(ranges: seq<Lines>, chosen: seq<bool>, n: nat)
    requires n <= |ranges| && n <= |chosen| && PairwiseDisjoint(ranges)
    ensures Separate(ranges, chosen, n)
  {
  }

  lemma {:induction false} PatchesUpdate(
    items: seq<Item>, ranges: seq<Lines>, chosen: seq<bool>, j: nat, n: nat, lineCount: nat)
    requires n <= |items| && n <= |ranges| && n <= |chosen| && j < |ranges| && j < |chosen| && j < |items|
    requires RangesFit(ranges, lineCount) && PairwiseDisjoint(ranges) && !chosen[j]
    ensures PatchesOf(items, ranges, chosen[j := true], n)
            == (var patches := PatchesOf(items, ranges, chosen, n);
                if j < n then patches[Dec(ranges[j].startLine) := Patch(ranges[j].endLine, items[j].contentLines)]
                else patches)
    decreases n
  {
    if n > 0 {
      PatchesUpdate(items, ranges, chosen, j, n - 1, lineCount);
      if j < n - 1 {
        assert DisjointLines(ranges[j], ranges[n - 1]);
        assert Dec(ranges[j].startLine) != Dec(ranges[n - 1].startLine);
      }
    }
  }

  /** A patch that asks for the lines that are there may be counted or not. */
  lemma {:induction false} CountUnchanged(
    lines: seq<string>, items: seq<Item>, ranges: seq<Lines>, chosen: seq<bool>, j: nat)
    requires |items| == |ranges| == |chosen| && j < |items| && !chosen[j]
    requires RangesFit(ranges, |lines|) && PairwiseDisjoint(ranges)
    requires items[j].contentLines == lines[ranges[j].startLine - 1..ranges[j].endLine]
    ensures SpliceAll(lines, PatchesOf(items, ranges, chosen[j := true], |items|))
            == SpliceAll(lines, PatchesOf(items, ranges, chosen, |items|))
  {
    hide SpliceAll, PatchesOf;
    var n := |items|;
    var patches := PatchesOf(items, ranges, chosen, n);
    PatchesUpdate(items, ranges, chosen, j, n, |lines|);
    SeparateAll(ranges, chosen, n);
    PatchesApart(items, ranges, chosen, n, |lines|);
    forall s | s in patches ensures patches[s].end <= ranges[j].startLine - 1 || ranges[j].endLine <= s {
      var i := PatchOrigin(items, ranges, chosen, n, s);
      assert i < j ==> DisjointLines(ranges[i], ranges[j]);
      assert j < i ==> DisjointLines(ranges[j], ranges[i]);
    }
    SameLinesPatch(lines, patches, ranges[j].startLine - 1, Patch(ranges[j].endLine, items[j].contentLines));
  }

  function All(n: nat): (r: seq<bool>)
    ensures |r| == n && forall i | 0 <= i < n :: r[i]
  {
    seq(n, _ => true)
  }

  lemma {:induction false} CountAll(
    lines: seq<string>, items: seq<Item>, ranges: seq<Lines>, applied: seq<bool>, n: nat)
    requires |items| == |ranges| == |applied| && n <= |items|
    requires RangesFit(ranges, |lines|) && PairwiseDisjoint(ranges)
    requires forall i | 0 <= i < |applied| && !applied[i] ::
               items[i].contentLines == lines[ranges[i].startLine - 1..ranges[i].endLine]
    ensures SpliceAll(lines, PatchesOf(items, ranges, All(n) + applied[n..], |items|))
            == SpliceAll(lines, PatchesOf(items, ranges, applied, |items|))
    decreases n
  {
    hide SpliceAll, PatchesOf, PairwiseDisjoint;
    if n == 0 {
      assert All(0) + applied[0..] == applied;
    } else {
      CountAll(lines, items, ranges, applied, n - 1);
      var before, after := All(n - 1) + applied[n - 1..], All(n) + applied[n..];
      if applied[n - 1] {
        assert before == after;
      } else {
        assert before[n - 1 := true] == after;
        CountUnchanged(lines, items, ranges, before, n - 1);
      }
    }
  }

  /** The lines of a finished batch whose items name disjoint ranges: all replacements made at once. */
  lemma {:induction false} FinishDisjoint(o: Original, b: Buffer, cells: Cells, reserved: set<string>, h: History)
    requires Running(o, true, b, cells, reserved, h) && |h.applied| == |h.items| && PairwiseDisjoint(h.ranges)
    ensures SplitLines(b.content) == SpliceAll(o.lines, PatchesOf(h.items, h.ranges, All(|h.items|), |h.items|))
  {
    hide SplitLines, PairwiseDisjoint, PatchesOf, Merged, Sound, AnchorsTrack, GoneReserved, Distinct, Ascending;
    hide History.NoOverlap, History.AppliedGone, Texts;
    var n := |h.items|;
    SeparateAll(h.ranges, h.applied, n);
    CountAll(o.lines, h.items, h.ranges, h.applied, n);
    assert All(n) + h.applied[n..] == All(n);
  }

  /** The lines of a finished batch whose items were all read in full: the applied replacements made at once. */
  lemma {:induction false} FinishHoleFree(o: Original, b: Buffer, cells: Cells, reserved: set<string>, h: History)
    requires Running(o, true, b, cells, reserved, h) && |h.applied| == |h.items|
    requires forall i | 0 <= i < |h.items| :: HoleFree(o.served, h.items[i].bounds)
    ensures SplitLines(b.content) == SpliceAll(o.lines, PatchesOf(h.items, h.ranges, h.applied, |h.items|))
  {
    hide SplitLines, PatchesOf, Merged, Sound, AnchorsTrack, GoneReserved, Distinct, Ascending;
    hide History.AppliedGone, Texts, HoleFree, DisjointLines;
    assert Separate(h.ranges, h.applied, |h.applied|);
  }

  // ---- the order of the items ----

  lemma {:induction false} PatchThere(
    items: seq<Item>, ranges: seq<Lines>, chosen: seq<bool>, n: nat, i: nat, lineCount: nat)
    requires n <= |items| && n <= |ranges| && n <= |chosen| && i < n && chosen[i]
    requires RangesFit(ranges, lineCount) && PairwiseDisjoint(ranges)
    ensures Dec(ranges[i].startLine) in PatchesOf(items, ranges, chosen, n)
    ensures PatchesOf(items, ranges, chosen, n)[Dec(ranges[i].startLine)]
            == Patch(ranges[i].endLine, items[i].contentLines)
    decreases n
  {
    if i < n - 1 {
      PatchThere(items, ranges, chosen, n - 1, i, lineCount);
      assert DisjointLines(ranges[i], ranges[n - 1]);
    }
  }

  /** Every item is there again with its range. */
  ghost predicate Includes(items: seq<Item>, ranges: seq<Lines>, others: seq<Item>, otherRanges: seq<Lines>)
    requires |items| == |ranges| && |others| == |otherRanges|
  {
    forall i | 0 <= i < |items| :: exists j :: 0 <= j < |others| && others[j] == items[i] && otherRanges[j] == ranges[i]
  }

  lemma {:induction false} PatchesIncluded(
    items: seq<Item>, ranges: seq<Lines>, others: seq<Item>, otherRanges: seq<Lines>, lineCount: nat, s: nat)
    requires |items| == |ranges| && |others| == |otherRanges| && Includes(items, ranges, others, otherRanges)
    requires RangesFit(otherRanges, lineCount) && PairwiseDisjoint(otherRanges)
    requires s in PatchesOf(items, ranges, All(|items|), |items|)
    ensures s in PatchesOf(others, otherRanges, All(|others|), |others|)
    ensures PatchesOf(others, otherRanges, All(|others|), |others|)[s]
            == PatchesOf(items, ranges, All(|items|), |items|)[s]
  {
    hide PairwiseDisjoint, PatchesOf;
    var i := PatchOrigin(items, ranges, All(|items|), |items|, s);
    var j :| 0 <= j < |others| && others[j] == items[i] && otherRanges[j] == ranges[i];
    PatchThere(others, otherRanges, All(|others|), |others|, j, lineCount);
  }

  /** Disjoint replacements come to the same however they are ordered. */
  lemma {:induction false} PatchesAnyOrder(
    items: seq<Item>, ranges: seq<Lines>, others: seq<Item>, otherRanges: seq<Lines>, lineCount: nat)
    requires |items| == |ranges| && |others| == |otherRanges|
    requires Includes(items, ranges, others, otherRanges) && Includes(others, otherRanges, items, ranges)
    requires RangesFit(ranges, lineCount) && PairwiseDisjoint(ranges)
    requires RangesFit(otherRanges, lineCount) && PairwiseDisjoint(otherRanges)
    ensures PatchesOf(items, ranges, All(|items|), |items|) == PatchesOf(others, otherRanges, All(|others|), |others|)
  {
    hide Includes, RangesFit, PairwiseDisjoint, PatchesOf;
    var a := PatchesOf(items, ranges, All(|items|), |items|);
    var b := PatchesOf(others, otherRanges, All(|others|), |others|);
    forall s | s in a ensures s in b && b[s] == a[s] {
      PatchesIncluded(items, ranges, others, otherRanges, lineCount, s);
    }
    forall s | s in b ensures s in a {
      PatchesIncluded(others, otherRanges, items, ranges, lineCount, s);
    }
  }
}
