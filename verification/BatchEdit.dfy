/** One edit: resolved, verified against what the session was shown, applied, and its anchors carried over. */
module BatchEdit {
  import opened Numbers
  import opened Options
  import opened TextLines
  import opened LineSplice
  import opened HashAssign
  import opened StableHashes
  import opened BufferIdentity
  import opened ServedRange
  import opened Provenance
  import opened BatchTracking

  /** One requested edit: its two anchors, and the replacement already split into lines. */
  datatype Item = Item(bounds: Bounds, contentLines: seq<string>)

  datatype LeaseBook = LeaseBook(leases: map<string, Lease>, elsewhere: set<string>)

  /** What the session was shown of this file, and the leases it holds; no book when no store can be opened. */
  datatype Session = Session(served: Mirror, servedCanons: Option<Mirror>, retired: set<string>,
                             book: Option<LeaseBook>)

  datatype Reason = StaleAnchor | Unserved(code: Code) | EmptyRange | LargeFile

  /** The anchors a range edit removes. */
  method CollectRemovedHashes(bounds: Bounds, originalHashes: seq<string>) returns (removed: set<string>)
    ensures bounds.startHash !in originalHashes || bounds.endHash !in originalHashes ==> removed == {}
    ensures forall p: nat, q: nat |
              Sole(originalHashes, bounds.startHash, p) && Sole(originalHashes, bounds.endHash, q) ::
              removed == Elements(originalHashes[Min(p, q)..Max(p, q) + 1])
  {
    removed := {};
    var startLine := FirstIndex(originalHashes, bounds.startHash);
    var endLine := FirstIndex(originalHashes, bounds.endHash);
    if startLine.Some? && endLine.Some? {
      var firstLine := Min(startLine.value, endLine.value);
      var lastLine := Max(startLine.value, endLine.value);
      for i := firstLine to lastLine + 1
        invariant removed == Elements(originalHashes[firstLine..i])
      {
        ElementsNext(originalHashes, firstLine, i);
        removed := removed + {originalHashes[i]};
      }
    }
  }

  lemma {:induction false} ElementsNext(hashes: seq<string>, from: nat, i: nat)
    requires from <= i < |hashes|
    ensures Elements(hashes[from..i + 1]) == Elements(hashes[from..i]) + {hashes[i]}
  {
    var a, b := hashes[from..i], hashes[from..i + 1];
    assert b == a + [hashes[i]];
    assert forall k | 0 <= k < |a| :: a[k] == b[k];
    assert b[i - from] == hashes[i];
  }

  // ---- one edit ----

  /** The new buffer is the old one with `middle` in place of the lines of the range. */
  ghost predicate EditedLines(
    content: string, result: string, lines: Lines, replacement: seq<string>, middle: seq<string>)
  {
    && 1 <= lines.startLine <= lines.endLine <= |SplitLines(content)|
    && SplitLines(result) == SplitLines(content)[..lines.startLine - 1] + middle + SplitLines(content)[lines.endLine..]
    && (EndsWithNewline(content) ==> middle == replacement && EndsWithNewline(result))
  }

  lemma {:induction false} EditGivesMiddle(content: string, edit: ResolvedEdit) returns (middle: seq<string>)
    requires edit.Fits(SplitLines(content))
    ensures
      var result := SplicedText(content, edit);
      (content != "" ==> result != "") ==>
        EditedLines(content, result, Lines(edit.startLine, edit.endLine), edit.contentLines, middle)
  {
    hide SplitLines, ResToSpan, Assemble, LosesLastLine, IndexOf;
    EditMeansSplice(content, edit, IndexOf(content));
    LosingReachesEnd(content, edit);
    var lines := SplitLines(content);
    if Spliced(lines, edit) == [] {
      EmptySplits();
      middle := [""];
      assert !EndsWithNewline("");
    } else if LosesLastLine(content, edit) {
      middle := edit.contentLines[..|edit.contentLines| - 1];
      LosingIsUnterminated(content, edit);
    } else {
      middle := edit.contentLines;
    }
  }

  lemma {:induction false} LosingIsUnterminated(content: string, edit: ResolvedEdit)
    requires edit.Fits(SplitLines(content)) && LosesLastLine(content, edit)
    ensures !EndsWithNewline(content)
  {
  }

  lemma {:induction false} EditedParts(
    content: string, result: string, lines: Lines, replacement: seq<string>, middle: seq<string>)
    requires EditedLines(content, result, lines, replacement, middle)
    ensures 1 <= lines.startLine <= lines.endLine <= |SplitLines(content)|
    ensures SplitLines(result)
            == SplitLines(content)[..lines.startLine - 1] + middle + SplitLines(content)[lines.endLine..]
  {
    hide SplitLines;
  }

  /** Each anchor of the item names one line. */
  ghost predicate Unambiguous(hashes: seq<string>, item: Item) {
    exists p, q :: Sole(hashes, item.bounds.startHash, p) && Sole(hashes, item.bounds.endHash, q)
  }

  /** A check of this item on this buffer. */
  ghost predicate Checks(
    c: Check, content: string, item: Item, fileHashes: seq<string>, session: Session, retired: set<string>,
    route: Route)
  {
    && c.fileHashes == fileHashes && c.fileLines == SplitLines(content)
    && c.served == session.served && c.servedCanons == session.servedCanons
    && c.retired == retired && c.route == route
    && SamePair(c.bounds, item.bounds)
    && c.Resolved()
  }

  /** The checked range as an edit. */
  function EditOf(c: Check, item: Item): ResolvedEdit {
    ResolvedEdit(c.lines.startLine, c.lines.endLine, item.contentLines)
  }

  lemma {:induction false} EditFits(
    c: Check, content: string, item: Item, fileHashes: seq<string>, session: Session, retired: set<string>,
    route: Route)
    requires Checks(c, content, item, fileHashes, session, retired, route) && AllLines(item.contentLines)
    ensures EditOf(c, item).Fits(SplitLines(content))
  {
    hide SplitLines, Sole;
  }

  /** The edit would leave the empty text of a text that is not empty. */
  ghost predicate Empties(content: string, edit: ResolvedEdit)
    requires edit.Fits(SplitLines(content))
  {
    content != "" && LeavesNothing(content, edit)
  }

  /** There is one check of an item on a buffer, whatever anchors are retired. */
  lemma {:induction false} OneCheck(
    c: Check, d: Check, content: string, item: Item, fileHashes: seq<string>, session: Session, retired: set<string>,
    route: Route)
    requires Checks(c, content, item, fileHashes, session, retired, route)
    requires Checks(d, content, item, fileHashes, session, retired, route)
    ensures c == d
  {
    hide SplitLines;
    assert c.fileHashes[c.lines.startLine - 1] == c.bounds.startHash;
    assert d.fileHashes[d.lines.startLine - 1] == d.bounds.startHash;
  }

  datatype EditOutcome = Edited(bounds: Bounds, lines: Lines, content: string) | Refused(reason: Reason)

  /** Exactly which edits of a resolved range are refused, and what text the others give. */
  ghost predicate EditDecided(r: EditOutcome, c: Check, content: string, item: Item)
    requires c.Resolved() && EditOf(c, item).Fits(SplitLines(content))
  {
    && (r.Refused? && r.reason.Unserved? <==> !c.Verified())
    && (r == Refused(EmptyRange) <==> c.Verified() && Empties(content, EditOf(c, item)))
    && (r.Edited? <==> c.Verified() && !Empties(content, EditOf(c, item)))
    && (r.Edited? ==> r == Edited(c.bounds, c.lines, SplicedText(content, EditOf(c, item))))
  }

  /** The whole pipeline for one edit on one buffer; nothing is written. */
  method ApplyEdit(
    content: string, item: Item, fileHashes: seq<string>, session: Session, retired: set<string>, route: Route)
    returns (r: EditOutcome, ghost c: Check, ghost middle: seq<string>)
    requires |fileHashes| == |SplitLines(content)| && AllLines(item.contentLines)
    ensures r == Refused(StaleAnchor) <==> !Unambiguous(fileHashes, item)
    ensures r != Refused(StaleAnchor) ==>
              Checks(c, content, item, fileHashes, session, retired, route)
              && EditOf(c, item).Fits(SplitLines(content)) && EditDecided(r, c, content, item)
    ensures r.Edited? ==> EditedLines(content, r.content, r.lines, item.contentLines, middle)
  {
    hide SplitLines, Check.Verified, Sole, ResToSpan, Assemble, EditedLines, LeavesNothing, SplicedText;
    var index := BuildIdx(content);
    var bounds, lines := ResolveRange(item.bounds, fileHashes);
    middle, c := [], Check([], bounds, Lines(0, 0), [], [], None, {}, MirrorOnly);
    if lines.None? { return Refused(StaleAnchor), c, middle; }
    var check := Check(session.served, bounds, lines.value, fileHashes, index.fileLines, session.servedCanons, retired,
                       route);
    c := check;
    var verdict := VerifyServedRange(check);
    EditFits(c, content, item, fileHashes, session, retired, route);
    if verdict.Rejected? { return Refused(Unserved(verdict.code)), c, middle; }
    var edit := ResolvedEdit(lines.value.startLine, lines.value.endLine, item.contentLines);
    TextByIndex(content, edit, index);
    EmptyExactly(content, edit);
    middle := EditGivesMiddle(content, edit);
    var result := Assemble(content, ResToSpan(edit, content, index));
    if |content| > 0 && |result| == 0 { return Refused(EmptyRange), c, middle; }
    r := Edited(bounds, lines.value, result);
  }

  lemma {:induction false} TextByIndex(content: string, edit: ResolvedEdit, index: LineIndex)
    requires index.Of(content) && edit.Fits(SplitLines(content))
    ensures
      var span := ResToSpan(edit, content, index);
      (span.Replace? ==> span.start <= |content| && span.end <= |content|)
          && Assemble(content, span) == SplicedText(content, edit)
  {
    hide SplitLines, ResToSpan, Assemble;
    OneIndexOf(content, index);
    EditMeansSplice(content, edit, index);
  }

  datatype Step =
    | Failed(reason: Reason)
    | Unchanged(lines: Lines)
    | Applied(lines: Lines, content: string, hashes: seq<string>, removed: set<string>)

  /** What an applied step did: the lines, the anchors that went, and the anchors around them that stayed. */
  ghost predicate StepDone(
    content: string, hashes: seq<string>, item: Item, r: Step, middle: seq<string>, guard: set<string>)
    requires r.Applied?
  {
    && |hashes| == |SplitLines(content)|
    && EditedLines(content, r.content, r.lines, item.contentLines, middle)
    && |r.hashes| == |SplitLines(r.content)|
    && r.removed == Elements(hashes[r.lines.startLine - 1..r.lines.endLine])
    && RehashedSplice(hashes, r.hashes, guard, r.lines.startLine - 1, r.lines.endLine, |middle|)
  }

  /** How many lines the edit puts in place of its range. */
  ghost function FreshLines(content: string, edit: ResolvedEdit): int
    requires edit.Fits(SplitLines(content))
  {
    |SplitLines(SplicedText(content, edit))| - (|SplitLines(content)| - (edit.endLine - edit.startLine + 1))
  }

  /** The fresh lines find no anchors, neither beside the reserved ones nor beside those the session was shown. */
  ghost predicate OutOfAnchors(
    content: string, hashes: seq<string>, edit: ResolvedEdit, session: Session, reserved: set<string>)
    requires edit.Fits(SplitLines(content))
  {
    && Exhausts(hashes, reserved, FreshLines(content, edit))
    && Exhausts(hashes, Shown(session.served), FreshLines(content, edit))
  }

  /** Exactly when a step on a resolved range fails, for which reason, and when it changes nothing. */
  ghost predicate StepDecided(
    r: Step, c: Check, content: string, hashes: seq<string>, item: Item, session: Session, reserved: set<string>)
    requires c.Resolved() && EditOf(c, item).Fits(SplitLines(content))
  {
    var edit := EditOf(c, item);
    var goesOn := c.Verified() && !Empties(content, edit);
    var changes := SplicedText(content, edit) != content;
    && (r.Failed? && r.reason.Unserved? <==> !c.Verified())
    && (r == Failed(EmptyRange) <==> c.Verified() && Empties(content, edit))
    && (r == Failed(LargeFile) <==> goesOn && changes && OutOfAnchors(content, hashes, edit, session, reserved))
    && (r.Unchanged? <==> goesOn && !changes)
    && (r.Applied? <==> goesOn && changes && !OutOfAnchors(content, hashes, edit, session, reserved))
    && (r.Unchanged? || r.Applied? ==> r.lines == c.lines)
    && (r.Applied? ==> r.content == SplicedText(content, edit))
  }

  /**
   One edit against the working buffer, with the anchors after it. When the anchor space is exhausted the
   re-hash is tried once more, with only the anchors the session was shown kept out.
   */
  method ApplyOne(
    xxh32: Hasher, content: string, hashes: seq<string>, item: Item, session: Session, retired: set<string>,
    reserved: set<string>, route: Route)
    returns (r: Step, ghost c: Check, ghost middle: seq<string>, ghost guard: set<string>)
    requires |hashes| == |SplitLines(content)| && Distinct(hashes) && Anchors(hashes) && AllLines(item.contentLines)
    ensures r == Failed(StaleAnchor) <==> !Unambiguous(hashes, item)
    ensures r != Failed(StaleAnchor) ==>
              Checks(c, content, item, hashes, session, retired, route)
              && EditOf(c, item).Fits(SplitLines(content))
              && StepDecided(r, c, content, hashes, item, session, reserved)
    ensures r.Applied? ==> StepDone(content, hashes, item, r, middle, guard)
    ensures r.Applied? ==> guard == reserved || guard == Shown(session.served)
    ensures r.Unchanged? ==> EditedLines(content, content, r.lines, item.contentLines, middle)
  {
    hide Check.Verified, EditedLines, RehashedSplice, Distinct, Anchors, Elements, Check.Resolved, Shown, Sole, Checks;
    hide Unambiguous, LeavesNothing, SplicedText, SplitLines, Exhausts;
    var edited;
    guard := reserved;
    edited, c, middle := ApplyEdit(content, item, hashes, session, retired, route);
    if edited.Refused? { return Failed(edited.reason), c, middle, guard; }
    if edited.content == content { return Unchanged(edited.lines), c, middle, guard; }
    var removed := CollectRemovedHashes(item.bounds, hashes);
    RemovedIsRange(c, content, item, hashes, session, retired, route, removed);
    var from, to := edited.lines.startLine - 1, edited.lines.endLine;
    EditedParts(content, edited.content, edited.lines, item.contentLines, middle);
    FreshIsMiddle(content, EditOf(c, item), middle);
    var rehashed := RehashSplice(xxh32, content, hashes, edited.content, removed, reserved, from, to, middle);
    if rehashed.None? {
      guard := Shown(session.served);
      rehashed := RehashSplice(xxh32, content, hashes, edited.content, removed, Shown(session.served), from, to,
                               middle);
      if rehashed.None? { return Failed(LargeFile), c, middle, guard; }
    }
    r := Applied(edited.lines, edited.content, rehashed.value, removed);
  }

  lemma {:induction false} FreshIsMiddle(content: string, edit: ResolvedEdit, middle: seq<string>)
    requires edit.Fits(SplitLines(content))
    requires SplitLines(SplicedText(content, edit))
             == SplitLines(content)[..edit.startLine - 1] + middle + SplitLines(content)[edit.endLine..]
    ensures FreshLines(content, edit) == |middle|
  {
    hide SplitLines, SplicedText;
  }

  lemma {:induction false} RemovedIsRange(
    c: Check, content: string, item: Item, hashes: seq<string>, session: Session, retired: set<string>, route: Route,
    removed: set<string>)
    requires Checks(c, content, item, hashes, session, retired, route)
    requires forall p: nat, q: nat | Sole(hashes, item.bounds.startHash, p) && Sole(hashes, item.bounds.endHash, q) ::
               removed == Elements(hashes[Min(p, q)..Max(p, q) + 1])
    ensures 1 <= c.lines.startLine <= c.lines.endLine <= |hashes|
    ensures removed == Elements(hashes[c.lines.startLine - 1..c.lines.endLine])
  {
    hide Elements, Sole, SplitLines;
    var p, q := c.lines.startLine - 1, c.lines.endLine - 1;
    assert Sole(hashes, c.bounds.startHash, p) && Sole(hashes, c.bounds.endHash, q);
    if c.bounds == item.bounds {
      assert removed == Elements(hashes[Min(p, q)..Max(p, q) + 1]);
    } else {
      assert removed == Elements(hashes[Min(q, p)..Max(q, p) + 1]);
    }
  }
}
