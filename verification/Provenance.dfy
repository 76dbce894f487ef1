/** Where every line of an edited buffer came from, and what it means to edit several ranges at once. */
module Provenance {

  /** A line of an edited buffer: line i of the original, counted from 0, or a line that an edit put there. */
  datatype Cell = Orig(i: nat) | Put(text: string)

  type Cells = seq<Cell>

  ghost predicate Within(cells: Cells, n: nat) {
    forall k | 0 <= k < |cells| && cells[k].Orig? :: cells[k].i < n
  }

  /** Original lines never change their order, and none is there twice. */
  ghost predicate Ascending(cells: Cells) {
    forall j, k | 0 <= j < k < |cells| && cells[j].Orig? && cells[k].Orig? :: cells[j].i < cells[k].i
  }

  function TextOf(lines: seq<string>, cell: Cell): string {
    match cell
    case Orig(i) => if i < |lines| then lines[i] else ""
    case Put(text) => text
  }

  function Texts(lines: seq<string>, cells: Cells): (r: seq<string>)
    ensures |r| == |cells| && forall k | 0 <= k < |cells| :: r[k] == TextOf(lines, cells[k])
  {
    seq(|cells|, k requires 0 <= k < |cells| => TextOf(lines, cells[k]))
  }

  lemma {:induction false} TextsOfConcat(lines: seq<string>, a: Cells, b: Cells)
    ensures Texts(lines, a + b) == Texts(lines, a) + Texts(lines, b)
  {
  }

  function Puts(texts: seq<string>): (r: Cells)
    ensures |r| == |texts| && forall k | 0 <= k < |texts| :: r[k] == Put(texts[k])
  {
    seq(|texts|, k requires 0 <= k < |texts| => Put(texts[k]))
  }

  /** The original lines from `from` up to `to`. */
  function Origs(from: nat, to: nat): (r: Cells)
    requires from <= to
    ensures |r| == to - from && forall k | 0 <= k < |r| :: r[k] == Orig(from + k)
  {
    seq(to - from, k requires 0 <= k < to - from => Orig(from + k))
  }

  lemma {:induction false} TextsOfOrigs(lines: seq<string>, from: nat, to: nat)
    requires from <= to <= |lines|
    ensures Texts(lines, Origs(from, to)) == lines[from..to]
  {
  }

  lemma {:induction false} TextsOfPuts(lines: seq<string>, texts: seq<string>)
    ensures Texts(lines, Puts(texts)) == texts
  {
  }

  function SpliceCells(cells: Cells, from: nat, to: nat, texts: seq<string>): Cells
    requires from <= to <= |cells|
  {
    cells[..from] + Puts(texts) + cells[to..]
  }

  // ---- several ranges at once ----

  /** The lines up to `end` give way to these. */
  datatype Patch = Patch(end: nat, lines: seq<string>)

  /** Replaced ranges by their first line; a map, so that no order of edits enters. */
  type Patches = map<nat, Patch>

  ghost predicate Apart(patches: Patches, n: nat) {
    && (forall s | s in patches :: s < patches[s].end <= n)
    && (forall s, t | s in patches && t in patches && s < t :: patches[s].end <= t)
  }

  /** The range does not touch any of the patches. */
  ghost predicate Clear(patches: Patches, from: nat, to: nat) {
    forall s | s in patches :: patches[s].end <= from || to <= s
  }

  /** The buffer from original line i on, all patches applied at once. */
  function Merged(n: nat, i: nat, patches: Patches): Cells
    decreases n - i
  {
    if i >= n then []
    else if i in patches && i < patches[i].end <= n then Puts(patches[i].lines) + Merged(n, patches[i].end, patches)
    else [Orig(i)] + Merged(n, i + 1, patches)
  }

  /** The lines with all patches applied at once. */
  function SpliceAll(lines: seq<string>, patches: Patches): seq<string> {
    Texts(lines, Merged(|lines|, 0, patches))
  }

  lemma {:induction false} OrigRun(n: nat, from: nat, end: nat, patches: Patches)
    requires from <= end <= n && Apart(patches, n) && Clear(patches, from, end)
    ensures Merged(n, from, patches) == Origs(from, end) + Merged(n, end, patches)
    decreases end - from
  {
    if from < end {
      assert from !in patches;
      OrigRun(n, from + 1, end, patches);
      assert Origs(from, end) == [Orig(from)] + Origs(from + 1, end);
    } else {
      assert Origs(from, end) == [];
    }
  }

  /** A patch behind the current line does not matter. */
  lemma {:induction false} PatchBehind(n: nat, i: nat, patches: Patches, s: nat, patch: Patch)
    requires s < i && Apart(patches, n)
    ensures Merged(n, i, patches[s := patch]) == Merged(n, i, patches)
    decreases n - i
  {
    if i < n {
      if i in patches {
        PatchBehind(n, patches[i].end, patches, s, patch);
      } else {
        PatchBehind(n, i + 1, patches, s, patch);
      }
    }
  }

  /** One more patch on an untouched range replaces exactly the lines of that range. */
  lemma {:induction false} MergedSplice(n: nat, i: nat, patches: Patches, s: nat, patch: Patch) returns (k: nat)
    requires Apart(patches, n) && i <= s < patch.end <= n && Clear(patches, s, patch.end)
    requires forall t | t in patches && t < i :: patches[t].end <= i
    ensures k + patch.end - s <= |Merged(n, i, patches)|
    ensures Merged(n, i, patches)[k..k + patch.end - s] == Origs(s, patch.end)
    ensures Merged(n, i, patches[s := patch]) == SpliceCells(Merged(n, i, patches), k, k + patch.end - s, patch.lines)
    decreases n - i
  {
    hide Origs, SpliceCells, Puts;
    var after := patches[s := patch];
    if i == s {
      k := 0;
      OrigRun(n, s, patch.end, patches);
      PatchBehind(n, patch.end, patches, s, patch);
      assert Merged(n, i, after) == Puts(patch.lines) + Merged(n, patch.end, patches);
      ReplaceFront(Origs(s, patch.end), Merged(n, patch.end, patches), patch.lines);
    } else {
      var front: Cells, next: nat := if i in patches then Puts(patches[i].lines) else [Orig(i)],
                                     if i in patches then patches[i].end else i + 1;
      assert Merged(n, i, patches) == front + Merged(n, next, patches);
      assert Merged(n, i, after) == front + Merged(n, next, after);
      var j := MergedSplice(n, next, patches, s, patch);
      k := SpliceBehind(front, Merged(n, next, patches), j, j + patch.end - s, patch.lines);
    }
  }

  lemma {:induction false} ReplaceFront(front: Cells, rest: Cells, texts: seq<string>)
    ensures (front + rest)[0..|front|] == front
    ensures SpliceCells(front + rest, 0, |front|, texts) == Puts(texts) + rest
  {
  }

  lemma {:induction false} SpliceBehind(front: Cells, cells: Cells, from: nat, to: nat, texts: seq<string>)
    returns (k: nat)
    requires from <= to <= |cells|
    ensures k == |front| + from && to + |front| <= |front + cells|
    ensures (front + cells)[k..to + |front|] == cells[from..to]
    ensures front + SpliceCells(cells, from, to, texts) == SpliceCells(front + cells, k, to + |front|, texts)
  {
    k := |front| + from;
    assert (front + cells)[..k] == front + cells[..from];
    assert (front + cells)[to + |front|..] == cells[to..];
  }

  lemma {:induction false} NoPatches(n: nat)
    ensures Merged(n, 0, map[]) == Origs(0, n)
  {
    OrigRun(n, 0, n, map[]);
  }

  /** A single patch is the plain replacement of one range. */
  lemma {:induction false} SpliceOne(lines: seq<string>, s: nat, patch: Patch)
    requires s < patch.end <= |lines|
    ensures SpliceAll(lines, map[s := patch]) == lines[..s] + patch.lines + lines[patch.end..]
  {
    var none: Patches := map[];
    var k := MergedSplice(|lines|, 0, none, s, patch);
    NoPatches(|lines|);
    assert none[s := patch] == map[s := patch];
    assert Origs(0, |lines|)[k] == Orig(k) && Origs(s, patch.end)[0] == Orig(s);
  }

  /** A patch that puts back the lines that were there changes nothing. */
  lemma {:induction false} SameLinesPatch(lines: seq<string>, patches: Patches, s: nat, patch: Patch)
    requires Apart(patches, |lines|) && s < patch.end <= |lines| && Clear(patches, s, patch.end)
    requires patch.lines == lines[s..patch.end]
    ensures SpliceAll(lines, patches[s := patch]) == SpliceAll(lines, patches)
  {
    var cells := Merged(|lines|, 0, patches);
    var k := MergedSplice(|lines|, 0, patches, s, patch);
    var to := k + patch.end - s;
    assert cells == cells[..k] + cells[k..to] + cells[to..];
    TextsOfPuts(lines, patch.lines);
    TextsOfOrigs(lines, s, patch.end);
    TextsOfConcat(lines, cells[..k], Puts(patch.lines));
    TextsOfConcat(lines, cells[..k], cells[k..to]);
    TextsOfConcat(lines, cells[..k] + Puts(patch.lines), cells[to..]);
    TextsOfConcat(lines, cells[..k] + cells[k..to], cells[to..]);
  }

  lemma {:induction false} MergedAscends(n: nat, i: nat, patches: Patches)
    ensures Within(Merged(n, i, patches), n) && Ascending(Merged(n, i, patches))
    ensures forall k | 0 <= k < |Merged(n, i, patches)| && Merged(n, i, patches)[k].Orig? ::
              Merged(n, i, patches)[k].i >= i
    decreases n - i
  {
    if i < n {
      if i in patches && i < patches[i].end <= n {
        MergedAscends(n, patches[i].end, patches);
      } else {
        MergedAscends(n, i + 1, patches);
      }
    }
  }
}
