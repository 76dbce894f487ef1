/** What stays true of the working buffer of a batch, edit after edit: which of its lines are original lines. */
module BatchTracking {
  import opened Numbers
  import opened StableHashes
  import opened ServedRange
  import opened Provenance

  /** The buffer a batch starts from, and what the session was shown of it. */
  datatype Original = Original(lines: seq<string>, hashes: seq<string>, served: Mirror)

  /** The anchors the session was shown. */
  function Shown(served: Mirror): set<string> {
    set i | 0 <= i < |served| && served[i].Some? :: served[i].value
  }

  /** The anchors of the original buffer that the session was shown. */
  function Known(o: Original): set<string> {
    Elements(o.hashes) * Shown(o.served)
  }

  /** Original lines carry their original anchors, and no line put there by an edit carries a known one. */
  ghost predicate AnchorsTrack(o: Original, hashes: seq<string>, cells: Cells) {
    && |hashes| == |cells| && |o.hashes| == |o.lines|
    && (forall k | 0 <= k < |cells| && cells[k].Orig? :: cells[k].i < |o.hashes| && hashes[k] == o.hashes[cells[k].i])
    && (forall k | 0 <= k < |cells| && cells[k].Put? :: hashes[k] !in Known(o))
  }

  lemma {:induction false} TrackedSizes(o: Original, hashes: seq<string>, cells: Cells)
    requires AnchorsTrack(o, hashes, cells)
    ensures |hashes| == |cells|
  {
  }

  ghost predicate Present(cells: Cells, i: nat) {
    Orig(i) in cells
  }

  /** The anchors of the original lines that are gone are kept from reuse. */
  ghost predicate GoneReserved(o: Original, cells: Cells, reserved: set<string>) {
    forall i: nat | i < |o.hashes| :: Present(cells, i) || o.hashes[i] in reserved
  }

  ghost predicate Tracks(o: Original, lines: seq<string>, hashes: seq<string>, cells: Cells, reserved: set<string>) {
    && lines == Texts(o.lines, cells)
    && Ascending(cells)
    && AnchorsTrack(o, hashes, cells)
    && GoneReserved(o, cells, reserved)
  }

  lemma {:induction false} TracksAscends(
    o: Original, lines: seq<string>, hashes: seq<string>, cells: Cells, reserved: set<string>)
    requires Tracks(o, lines, hashes, cells, reserved)
    ensures Ascending(cells)
  {
    hide Ascending;
  }

  lemma {:induction false} TracksStart(o: Original, reserved: set<string>)
    requires |o.hashes| == |o.lines|
    ensures Tracks(o, o.lines, o.hashes, Origs(0, |o.lines|), reserved)
  {
    var cells := Origs(0, |o.lines|);
    assert Texts(o.lines, cells) == o.lines;
    forall i: nat | i < |o.hashes| ensures Present(cells, i) {
      assert cells[i] == Orig(i);
    }
  }

  /** A known anchor in the buffer sits on its original line. */
  lemma {:induction false} KnownAnchor(o: Original, hashes: seq<string>, cells: Cells, k: nat, i: nat)
    requires AnchorsTrack(o, hashes, cells) && Distinct(o.hashes)
    requires k < |hashes| && i < |o.hashes| && hashes[k] == o.hashes[i] && o.hashes[i] in Shown(o.served)
    ensures cells[k] == Orig(i)
  {
    assert o.hashes[i] in Elements(o.hashes);
    assert cells[k].Orig?;
    assert o.hashes[cells[k].i] == o.hashes[i];
  }

  /** Anchors handed out in a step are unknown, whichever anchors the step kept out. */
  lemma {:induction false} FreshIsUnknown(
    o: Original, hashes: seq<string>, cells: Cells, reserved: set<string>, guard: set<string>, h: string)
    requires AnchorsTrack(o, hashes, cells) && GoneReserved(o, cells, reserved)
    requires guard == reserved || guard == Shown(o.served)
    requires h !in hashes && h !in guard
    ensures h !in Known(o)
  {
    if guard == reserved {
      forall i: nat | i < |o.hashes| ensures o.hashes[i] != h {
        if Present(cells, i) {
          var k :| 0 <= k < |cells| && cells[k] == Orig(i);
          assert hashes[k] == o.hashes[i];
        }
      }
    }
  }

  lemma {:induction false} SplicedAnchors(
    o: Original, hashes: seq<string>, cells: Cells, reserved: set<string>, guard: set<string>, from: nat, to: nat,
    middle: seq<string>, newHashes: seq<string>)
    requires AnchorsTrack(o, hashes, cells) && GoneReserved(o, cells, reserved)
    requires guard == reserved || guard == Shown(o.served)
    requires from < to <= |cells| && RehashedSplice(hashes, newHashes, guard, from, to, |middle|)
    ensures AnchorsTrack(o, newHashes, SpliceCells(cells, from, to, middle))
  {
    hide Known, GoneReserved, Shown, Distinct, Anchors;
    var after := SpliceCells(cells, from, to, middle);
    var shift := |after| - |cells|;
    forall k | 0 <= k < |after|
      ensures after[k].Orig? ==> after[k].i < |o.hashes| && newHashes[k] == o.hashes[after[k].i]
      ensures after[k].Put? ==> newHashes[k] !in Known(o)
    {
      if k < from {
        assert after[k] == cells[k];
      } else if k < from + |middle| {
        FreshIsUnknown(o, hashes, cells, reserved, guard, newHashes[k]);
      } else {
        var j := k - shift;
        assert after[k] == cells[j] && newHashes[j + |newHashes| - |hashes|] == hashes[j];
      }
    }
  }

  lemma {:induction false} SplicedAscends(cells: Cells, from: nat, to: nat, middle: seq<string>)
    requires Ascending(cells) && from <= to <= |cells|
    ensures Ascending(SpliceCells(cells, from, to, middle))
  {
    var after := SpliceCells(cells, from, to, middle);
    var shift := |after| - |cells|;
    forall k | 0 <= k < |after| && after[k].Orig?
      ensures k < from || k >= from + |middle|
      ensures after[k] == cells[if k < from then k else k - shift]
    {
    }
  }

  lemma {:induction false} SplicedReserves(
    o: Original, hashes: seq<string>, cells: Cells, reserved: set<string>, from: nat, to: nat, middle: seq<string>)
    requires AnchorsTrack(o, hashes, cells) && GoneReserved(o, cells, reserved) && from <= to <= |cells|
    ensures GoneReserved(o, SpliceCells(cells, from, to, middle), reserved + Elements(hashes[from..to]))
  {
    hide Known;
    var after := SpliceCells(cells, from, to, middle);
    var shift := |after| - |cells|;
    forall i: nat | i < |o.hashes| ensures Present(after, i) || o.hashes[i] in reserved + Elements(hashes[from..to]) {
      if Present(cells, i) {
        var k :| 0 <= k < |cells| && cells[k] == Orig(i);
        if k < from {
          assert after[k] == Orig(i);
        } else if k < to {
          assert hashes[from..to][k - from] == o.hashes[i];
        } else {
          assert after[k + shift] == Orig(i);
        }
      }
    }
  }

  /** The anchors of exactly the original lines that are gone are among these. */
  ghost predicate GoneExactly(o: Original, cells: Cells, retired: set<string>) {
    forall i: nat | i < |o.hashes| :: o.hashes[i] in retired <==> !Present(cells, i)
  }

  lemma {:induction false} NoneGone(o: Original)
    requires |o.hashes| == |o.lines|
    ensures GoneExactly(o, Origs(0, |o.lines|), {})
  {
    forall i: nat | i < |o.hashes| ensures Present(Origs(0, |o.lines|), i) {
      assert Origs(0, |o.lines|)[i] == Orig(i);
    }
  }

  /** A replaced range retires the anchors of just the original lines in it. */
  lemma {:induction false} SplicedGone(
    o: Original, hashes: seq<string>, cells: Cells, retired: set<string>, from: nat, to: nat, middle: seq<string>)
    requires AnchorsTrack(o, hashes, cells) && GoneExactly(o, cells, retired) && Distinct(hashes)
    requires from <= to <= |cells| && Ascending(cells)
    ensures GoneExactly(o, SpliceCells(cells, from, to, middle), retired + Elements(hashes[from..to]))
  {
    hide Known, Ascending, Distinct;
    var after := SpliceCells(cells, from, to, middle);
    forall i: nat | i < |o.hashes|
      ensures o.hashes[i] in retired + Elements(hashes[from..to]) <==> !Present(after, i)
    {
      if Present(cells, i) {
        var k :| 0 <= k < |cells| && cells[k] == Orig(i);
        PlaceAfter(cells, from, to, middle, k);
        RemovedAt(hashes, from, to, k);
      } else {
        StillGone(cells, from, to, middle, i);
      }
    }
  }

  /** An original line is left exactly when it stood outside the range. */
  lemma {:induction false} PlaceAfter(cells: Cells, from: nat, to: nat, middle: seq<string>, k: nat)
    requires from <= to <= |cells| && Ascending(cells) && k < |cells| && cells[k].Orig?
    ensures Present(SpliceCells(cells, from, to, middle), cells[k].i) <==> !(from <= k < to)
  {
    var after := SpliceCells(cells, from, to, middle);
    var shift := |after| - |cells|;
    if k < from {
      assert after[k] == cells[k];
    } else if k >= to {
      assert after[k + shift] == cells[k];
    } else {
      forall j | 0 <= j < |after| ensures after[j] != cells[k] {
        if j < from {
          assert after[j] == cells[j];
        } else if j >= from + |middle| {
          assert after[j] == cells[j - shift];
        }
      }
    }
  }

  lemma {:induction false} StillGone(cells: Cells, from: nat, to: nat, middle: seq<string>, i: nat)
    requires from <= to <= |cells| && !Present(cells, i)
    ensures !Present(SpliceCells(cells, from, to, middle), i)
  {
    var after := SpliceCells(cells, from, to, middle);
    forall j | 0 <= j < |after| ensures after[j] != Orig(i) {
      if j < from {
        assert after[j] == cells[j] && cells[j] in cells;
      } else if j >= from + |middle| {
        assert after[j] == cells[j - (|after| - |cells|)] && cells[j - (|after| - |cells|)] in cells;
      }
    }
  }

  lemma {:induction false} RemovedAt(hashes: seq<string>, from: nat, to: nat, k: nat)
    requires from <= to <= |hashes| && k < |hashes| && Distinct(hashes)
    ensures hashes[k] in Elements(hashes[from..to]) <==> from <= k < to
  {
    var part := hashes[from..to];
    if from <= k < to {
      assert part[k - from] == hashes[k];
    }
    forall j | 0 <= j < |part| && part[j] == hashes[k] ensures from <= k < to {
      OneIndex(hashes, from + j, k);
    }
  }

  lemma {:induction false} SplicedTexts(lines: seq<string>, cells: Cells, from: nat, to: nat, middle: seq<string>)
    requires from <= to <= |cells|
    ensures Texts(lines, SpliceCells(cells, from, to, middle))
            == Texts(lines, cells)[..from] + middle + Texts(lines, cells)[to..]
  {
  }

  /** One applied edit keeps the buffer tracked. */
  lemma {:induction false} TracksSplice(
    o: Original, lines: seq<string>, hashes: seq<string>, cells: Cells, reserved: set<string>, guard: set<string>,
    from: nat, to: nat, middle: seq<string>, newLines: seq<string>, newHashes: seq<string>)
    requires Tracks(o, lines, hashes, cells, reserved) && from < to <= |cells|
    requires guard == reserved || guard == Shown(o.served)
    requires RehashedSplice(hashes, newHashes, guard, from, to, |middle|)
    requires newLines == lines[..from] + middle + lines[to..]
    ensures Tracks(o, newLines, newHashes, SpliceCells(cells, from, to, middle), reserved + Elements(hashes[from..to]))
  {
    hide AnchorsTrack, GoneReserved, Ascending, RehashedSplice, SpliceCells, Elements;
    SplicedTexts(o.lines, cells, from, to, middle);
    SplicedAscends(cells, from, to, middle);
    SplicedAnchors(o, hashes, cells, reserved, guard, from, to, middle, newHashes);
    SplicedReserves(o, hashes, cells, reserved, from, to, middle);
  }

  // ---- the window of an item, before and during the batch ----

  /** No line between the two served positions was left unread. */
  ghost predicate HoleFree(served: Mirror, bounds: Bounds) {
    forall p: nat, q: nat, i | PlacedAt(served, bounds.startHash, p) && PlacedAt(served, bounds.endHash, q)
                               && Min(p, q) <= i <= Max(p, q) :: served[i].Some?
  }

  ghost predicate SamePair(a: Bounds, b: Bounds) {
    a == b || a == Bounds(b.endHash, b.startHash)
  }

  lemma {:induction false} HoleFreeSlot(served: Mirror, bounds: Bounds, p: nat, q: nat, i: nat)
    requires HoleFree(served, bounds) && PlacedAt(served, bounds.startHash, p) && PlacedAt(served, bounds.endHash, q)
    requires Min(p, q) <= i <= Max(p, q)
    ensures i < |served| && served[i].Some?
  {
  }

  /** Two accepted checks of one pair of anchors: the boundaries, and every line that was shown, are the same. */
  ghost predicate SameLines(c: Check, d: Check)
    requires c.Resolved() && d.Resolved()
  {
    && c.Count() == d.Count()
    && SameShown(c, d, 0) && SameShown(c, d, c.Count() - 1)
    && (HoleFree(c.served, c.bounds) ==> forall k: nat | k < c.Count() :: SameShown(c, d, k))
  }

  ghost predicate SameShown(c: Check, d: Check, k: nat)
    requires c.Resolved() && d.Resolved() && k < c.Count() == d.Count()
  {
    && c.fileHashes[c.lines.startLine - 1 + k] == d.fileHashes[d.lines.startLine - 1 + k]
    && c.fileHashes[c.lines.startLine - 1 + k] in Shown(c.served)
  }

  lemma {:induction false} SameCounts(c: Check, d: Check)
    requires c.Resolved() && d.Resolved() && SameLines(c, d)
    ensures c.Count() == d.Count()
  {
  }

  lemma {:induction false} SameWindow(c: Check, d: Check)
    requires c.Resolved() && d.Resolved() && c.served == d.served && SamePair(c.bounds, d.bounds)
    requires c.Verified() && d.Verified()
    ensures SameLines(c, d)
  {
    hide Check.Verified, ShownLine, Check.Resolved, HoleFree;
    var p, q := AcceptedWindow(c);
    var p', q' := AcceptedWindow(d);
    var from := Min(p, q);
    assert from == Min(p', q') && Max(p, q) == Max(p', q');
    forall k: nat | k < c.Count() ensures c.served[from + k].Some? ==> SameShown(c, d, k) {
      SlotShown(c, d, from, k);
    }
    assert c.served[from].Some? && c.served[from + (c.Count() - 1)].Some?;
    if HoleFree(c.served, c.bounds) {
      forall k: nat | k < c.Count() ensures SameShown(c, d, k) {
        HoleFreeSlot(c.served, c.bounds, p, q, from + k);
      }
    }
  }

  lemma {:induction false} SlotShown(c: Check, d: Check, from: nat, k: nat)
    requires c.Resolved() && d.Resolved() && c.served == d.served && k < c.Count() == d.Count()
    requires ShownLine(c, from, from + k) && ShownLine(d, from, from + k)
    ensures c.served[from + k].Some? ==> SameShown(c, d, k)
  {
  }

  /** Lines of the original, by their numbers there. */
  ghost predicate Gone(cells: Cells, lines: Lines) {
    forall i: nat | lines.startLine <= i + 1 <= lines.endLine :: !Present(cells, i)
  }

  /** In the working buffer the item finds its own boundary lines; if every line was read, all its own lines. */
  lemma {:induction false} WindowCells(o: Original, hashes: seq<string>, cells: Cells, c: Check, d: Check)
    requires c.Resolved() && d.Resolved() && SameLines(c, d) && c.served == o.served
    requires c.fileHashes == o.hashes && d.fileHashes == hashes
    requires AnchorsTrack(o, hashes, cells) && Distinct(o.hashes)
    ensures cells[d.lines.startLine - 1] == Orig(c.lines.startLine - 1)
    ensures cells[d.lines.endLine - 1] == Orig(c.lines.endLine - 1)
    ensures HoleFree(c.served, c.bounds) ==>
              forall i: nat | c.lines.startLine <= i + 1 <= c.lines.endLine :: Present(cells, i)
  {
    hide AnchorsTrack, HoleFree, Distinct, Sole;
    TrackedSizes(o, hashes, cells);
    KnownAnchor(o, hashes, cells, d.lines.startLine - 1, c.lines.startLine - 1);
    assert SameShown(c, d, c.Count() - 1);
    KnownAnchor(o, hashes, cells, d.lines.endLine - 1, c.lines.endLine - 1);
    if HoleFree(c.served, c.bounds) {
      forall i: nat | c.lines.startLine <= i + 1 <= c.lines.endLine ensures Present(cells, i) {
        var k := i + 1 - c.lines.startLine;
        assert SameShown(c, d, k);
        KnownAnchor(o, hashes, cells, d.lines.startLine - 1 + k, i);
        assert cells[d.lines.startLine - 1 + k] == Orig(i);
      }
    }
  }

  /** Replacing the lines between two original lines leaves no original line of that range. */
  lemma {:induction false} RangeGoes(cells: Cells, at: Lines, range: Lines, middle: seq<string>)
    requires Ascending(cells) && 1 <= at.startLine <= at.endLine <= |cells| && 1 <= range.startLine <= range.endLine
    requires cells[at.startLine - 1] == Orig(range.startLine - 1) && cells[at.endLine - 1] == Orig(range.endLine - 1)
    ensures Gone(SpliceCells(cells, at.startLine - 1, at.endLine, middle), range)
  {
    var after := SpliceCells(cells, at.startLine - 1, at.endLine, middle);
    var shift := |after| - |cells|;
    forall i: nat | range.startLine <= i + 1 <= range.endLine ensures !Present(after, i) {
      forall k | 0 <= k < |after| ensures after[k] != Orig(i) {
        if k < at.startLine - 1 {
          assert after[k] == cells[k];
        } else if k >= at.startLine - 1 + |middle| {
          assert after[k] == cells[k - shift];
        }
      }
    }
  }

  /** A line that is gone stays gone. */
  lemma {:induction false} GoneStays(cells: Cells, from: nat, to: nat, middle: seq<string>, range: Lines)
    requires from <= to <= |cells| && Gone(cells, range)
    ensures Gone(SpliceCells(cells, from, to, middle), range)
  {
    var after := SpliceCells(cells, from, to, middle);
    var shift := |after| - |cells|;
    forall i: nat | range.startLine <= i + 1 <= range.endLine ensures !Present(after, i) {
      assert !Present(cells, i);
      forall k | 0 <= k < |after| ensures after[k] != Orig(i) {
        if k < from {
          assert after[k] == cells[k] && cells[k] in cells;
        } else if k >= from + |middle| {
          assert after[k] == cells[k - shift] && cells[k - shift] in cells;
        }
      }
    }
  }

  /** An original line stands at one place only. */
  lemma {:induction false} OnePlace(cells: Cells, j: nat, k: nat)
    requires Ascending(cells) && j < |cells| && k < |cells| && cells[j].Orig? && cells[j] == cells[k]
    ensures j == k
  {
    forall a, b | 0 <= a < b < |cells| && cells[a].Orig? && cells[b].Orig? ensures cells[a] != cells[b] {
    }
  }
}
