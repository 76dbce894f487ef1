/**
 The identity map of a working buffer: which line identity sits on which line, and how the map moves
 past an applied edit.
 */
module BufferIdentity {
  import opened Options
  import opened TextLines
  import opened LineSplice

  /** Per buffer line, the identity it carries; a line the batch created carries none. */
  type LineIds = seq<Option<nat>>

  /** The two shapes of the map say the same. */
  ghost predicate SameIdentities(ids: LineIds, positions: map<nat, nat>) {
    && (forall id | id in positions :: 1 <= positions[id] <= |ids| && ids[positions[id] - 1] == Some(id))
    && (forall k | 0 <= k < |ids| && ids[k].Some? :: ids[k].value in positions && positions[ids[k].value] == k + 1)
  }

  ghost predicate DistinctIds(ids: LineIds) {
    forall a, b | 0 <= a < b < |ids| && ids[a].Some? :: ids[a] != ids[b]
  }

  ghost predicate DistinctLines(positions: map<nat, nat>, lineCount: nat) {
    && (forall id | id in positions :: 1 <= positions[id] <= lineCount)
    && (forall a, b | a in positions && b in positions && a != b :: positions[a] != positions[b])
  }

  /** The positions read backwards: which identity sits on which line. */
  method InvertPositions(positions: map<nat, nat>) returns (byPosition: map<nat, nat>)
    requires forall a, b | a in positions && b in positions && a != b :: positions[a] != positions[b]
    ensures forall line | line in byPosition :: byPosition[line] in positions && positions[byPosition[line]] == line
    ensures forall id | id in positions :: positions[id] in byPosition && byPosition[positions[id]] == id
  {
    byPosition := map[];
    var rest := positions.Keys;
    while rest != {}
      invariant rest <= positions.Keys
      invariant forall line | line in byPosition :: byPosition[line] in positions && positions[byPosition[line]] == line
      invariant forall id | id in positions && id !in rest ::
                positions[id] in byPosition && byPosition[positions[id]] == id
      decreases |rest|
    {
      var id :| id in rest;
      byPosition := byPosition[positions[id] := id];
      rest := rest - {id};
    }
  }

  method IdsFromPositions(positions: map<nat, nat>, lineCount: nat) returns (ids: LineIds)
    requires DistinctLines(positions, lineCount)
    ensures |ids| == lineCount && SameIdentities(ids, positions)
  {
    var byPosition := InvertPositions(positions);
    ids := seq(lineCount, k requires 0 <= k < lineCount => IdAt(byPosition, k + 1));
    forall id | id in positions ensures ids[positions[id] - 1] == Some(id) {
      assert IdAt(byPosition, positions[id]) == Some(id);
    }
  }

  function IdAt(byPosition: map<nat, nat>, line: nat): Option<nat> {
    if line in byPosition then Some(byPosition[line]) else None
  }

  method PositionsFromIds(ids: LineIds) returns (positions: map<nat, nat>)
    requires DistinctIds(ids)
    ensures SameIdentities(ids, positions)
  {
    positions := map[];
    for k := 0 to |ids|
      invariant SameIdentities(ids[..k], positions)
    {
      if ids[k].Some? {
        positions := positions[ids[k].value := k + 1];
      }
    }
    assert ids[..|ids|] == ids;
  }

  /** Past an applied edit: ids outside the range shift with their lines, the new lines carry none. */
  function SpliceWorkingBufferIds(ids: LineIds, rangeStart: nat, rangeEnd: nat, lineCount: nat): LineIds
    requires 1 <= rangeStart <= rangeEnd <= |ids|
  {
    var replaced := rangeEnd - rangeStart + 1;
    var replacementCount := if lineCount + replaced < |ids| then 0 else lineCount + replaced - |ids|;
    ids[..rangeStart - 1] + seq(replacementCount, _ => None) + ids[rangeEnd..]
  }

  /** The line of the old buffer that a line outside the range came from. */
  function Origin(edit: ResolvedEdit, oldCount: nat, newCount: nat, k: nat): int {
    if k < edit.startLine - 1 then k else k + oldCount - newCount
  }

  /** Line k of the new buffer carries the identity and the text of an old line outside the range, or no identity. */
  ghost predicate HasOrigin(
    lines: seq<string>, ids: LineIds, newLines: seq<string>, newIds: LineIds, edit: ResolvedEdit, k: nat)
    requires |ids| == |lines| && k < |newIds| == |newLines|
  {
    newIds[k].Some? ==>
      var j := Origin(edit, |lines|, |newLines|, k);
      && 0 <= j < |lines| && !(edit.startLine <= j + 1 <= edit.endLine)
      && newIds[k] == ids[j] && newLines[k] == lines[j]
  }

  /** Old line j, outside the range, is still there with its identity. */
  ghost predicate IsKept(
    lines: seq<string>, ids: LineIds, newLines: seq<string>, newIds: LineIds, edit: ResolvedEdit, j: nat)
    requires |ids| == |lines| && j < |lines| && |newIds| == |newLines|
  {
    var k := if j < edit.startLine then j else j + |newLines| - |lines|;
    0 <= k < |newIds| && newIds[k] == ids[j] && newLines[k] == lines[j]
  }

  /** Every identity of the new map sits on the text it sat on before, and none outside the range is lost. */
  ghost predicate IdentitiesKept(
    lines: seq<string>, ids: LineIds, newLines: seq<string>, newIds: LineIds, edit: ResolvedEdit)
    requires |ids| == |lines|
  {
    && |newIds| == |newLines|
    && (forall k: nat | k < |newIds| :: HasOrigin(lines, ids, newLines, newIds, edit, k))
    && (forall j: nat | j < |lines| && !(edit.startLine <= j + 1 <= edit.endLine) ::
          IsKept(lines, ids, newLines, newIds, edit, j))
  }

  /** Outside `count` new elements at `from`, the elements are the old ones, in place or shifted. */
  ghost predicate ShiftsAround<T(!new)>(old_: seq<T>, spliced: seq<T>, from: nat, to: nat, count: nat) {
    && from <= to <= |old_| && |spliced| == |old_| - (to - from) + count
    && (forall k | 0 <= k < from :: spliced[k] == old_[k])
    && (forall k | from + count <= k < |spliced| :: spliced[k] == old_[k + |old_| - |spliced|])
    && (forall j | to <= j < |old_| :: LaterAt(old_, spliced, j))
  }

  lemma {:induction false} SplicedAt<T(!new)>(old_: seq<T>, middle: seq<T>, spliced: seq<T>, from: nat, to: nat)
    requires from <= to <= |old_| && spliced == old_[..from] + middle + old_[to..]
    ensures ShiftsAround(old_, spliced, from, to, |middle|)
    ensures forall k | from <= k < from + |middle| :: spliced[k] == middle[k - from]
  {
  }

  lemma {:induction false} ShiftKeeps(
    lines: seq<string>, ids: LineIds, newLines: seq<string>, newIds: LineIds, edit: ResolvedEdit, count: nat)
    requires |ids| == |lines| && 1 <= edit.startLine <= edit.endLine
    requires ShiftsAround(lines, newLines, edit.startLine - 1, edit.endLine, count)
    requires ShiftsAround(ids, newIds, edit.startLine - 1, edit.endLine, count)
    requires forall k | edit.startLine - 1 <= k < edit.startLine - 1 + count :: newIds[k].None?
    ensures IdentitiesKept(lines, ids, newLines, newIds, edit)
  {
    forall k: nat | k < |newIds| ensures HasOrigin(lines, ids, newLines, newIds, edit, k) {
    }
    forall j: nat | j < |lines| && !(edit.startLine <= j + 1 <= edit.endLine)
      ensures IsKept(lines, ids, newLines, newIds, edit, j)
    {
      assert j >= edit.endLine ==> LaterAt(lines, newLines, j) && LaterAt(ids, newIds, j);
    }
  }

  lemma {:induction false} SpliceAligned(
    lines: seq<string>, ids: LineIds, middle: seq<string>, newLines: seq<string>, edit: ResolvedEdit)
    requires |ids| == |lines| && 1 <= edit.startLine <= edit.endLine <= |lines|
    requires newLines == lines[..edit.startLine - 1] + middle + lines[edit.endLine..]
    ensures
      IdentitiesKept(lines, ids, newLines,
                     SpliceWorkingBufferIds(ids, edit.startLine, edit.endLine, |newLines|), edit)
  {
    hide IdentitiesKept, ShiftsAround;
    var newIds := SpliceWorkingBufferIds(ids, edit.startLine, edit.endLine, |newLines|);
    var blank: LineIds := seq(|middle|, _ => None);
    assert newIds == ids[..edit.startLine - 1] + blank + ids[edit.endLine..];
    SplicedAt(lines, middle, newLines, edit.startLine - 1, edit.endLine);
    SplicedAt(ids, blank, newIds, edit.startLine - 1, edit.endLine);
    ShiftKeeps(lines, ids, newLines, newIds, edit, |middle|);
  }

  ghost predicate LaterAt<T>(old_: seq<T>, spliced: seq<T>, j: nat)
    requires j < |old_|
  {
    0 <= j + |spliced| - |old_| < |spliced| && spliced[j + |spliced| - |old_|] == old_[j]
  }

  lemma {:induction false} SpliceDistinct(ids: LineIds, rangeStart: nat, rangeEnd: nat, lineCount: nat)
    requires 1 <= rangeStart <= rangeEnd <= |ids| && DistinctIds(ids)
    ensures DistinctIds(SpliceWorkingBufferIds(ids, rangeStart, rangeEnd, lineCount))
  {
  }

  /**
   After every edit, the map has one entry per line of the new buffer, an identity sits on the text it
   sat on before, and the identities outside the range are all still there.
   */
  lemma {:induction false} SpliceKeepsIdentities(content: string, edit: ResolvedEdit, index: LineIndex, ids: LineIds)
    requires index.Of(content) && edit.Fits(SplitLines(content)) && |ids| == |SplitLines(content)|
    requires ResToSpan(edit, content, index).Replace?
    ensures ResToSpan(edit, content, index).start <= ResToSpan(edit, content, index).end <= |content|
    ensures
      var newLines := SplitLines(Assemble(content, ResToSpan(edit, content, index)));
      IdentitiesKept(SplitLines(content), ids, newLines,
                     SpliceWorkingBufferIds(ids, edit.startLine, edit.endLine, |newLines|), edit)
  {
    hide SplitLines, ResToSpan, Assemble, LosesLastLine, IdentitiesKept;
    EditMeansSplice(content, edit, index);
    LosingReachesEnd(content, edit);
    var lines := SplitLines(content);
    var newLines := SplitLines(Assemble(content, ResToSpan(edit, content, index)));
    if Spliced(lines, edit) == [] {
      EmptySplits();
      SpliceAligned(lines, ids, [""], newLines, edit);
    } else if LosesLastLine(content, edit) {
      assert newLines == lines[..edit.startLine - 1] + edit.contentLines[..|edit.contentLines| - 1] + [];
      SpliceAligned(lines, ids, edit.contentLines[..|edit.contentLines| - 1], newLines, edit);
    } else {
      SpliceAligned(lines, ids, edit.contentLines, newLines, edit);
    }
  }

  lemma {:induction false} EmptySplits()
    ensures SplitLines("") == [""]
  {
  }

  lemma {:induction false} LosingReachesEnd(content: string, edit: ResolvedEdit)
    requires edit.Fits(SplitLines(content))
    ensures LosesLastLine(content, edit) ==> edit.endLine == |SplitLines(content)| && edit.contentLines != []
  {
  }
}
