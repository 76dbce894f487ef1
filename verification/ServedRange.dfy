/**
 From two anchors to a range of lines, and the decision whether that range is still what the session was
 shown. Evidence comes from the served mirror alone, or from leases that bind an anchor to a line identity.
 */
module ServedRange {
  import opened Numbers
  import opened Options
  import opened HashAssign
  import opened StableHashes

  /** The session's view of a file: per line the anchor or text it was shown, or a hole. */
  type Mirror = seq<Option<string>>

  // ---- two anchors to two lines ----

  /** The only position of `hash`. */
  ghost predicate Sole(hashes: seq<string>, hash: string, p: nat) {
    p < |hashes| && hashes[p] == hash && forall k | 0 <= k < |hashes| && hashes[k] == hash :: k == p
  }

  datatype Bounds = Bounds(startHash: string, endHash: string)

  datatype Lines = Lines(startLine: nat, endLine: nat)

  /** Anchors carry no order: a pair given last line first is turned around. */
  method SwapReversedRanges(bounds: Bounds, fileHashes: seq<string>) returns (r: Bounds)
    ensures r == bounds || r == Bounds(bounds.endHash, bounds.startHash)
    ensures forall p, q | Sole(fileHashes, r.startHash, p) && Sole(fileHashes, r.endHash, q) :: p <= q
  {
    var lineByHash: map<string, nat> := map[];
    for i := 0 to |fileHashes|
      invariant forall h | h in lineByHash :: 1 <= lineByHash[h] <= i && fileHashes[lineByHash[h] - 1] == h
      invariant forall k | 0 <= k < i :: fileHashes[k] in lineByHash
    {
      lineByHash := lineByHash[fileHashes[i] := i + 1];
    }
    if bounds.startHash !in lineByHash || bounds.endHash !in lineByHash
       || lineByHash[bounds.startHash] <= lineByHash[bounds.endHash] {
      return bounds;
    }
    return Bounds(bounds.endHash, bounds.startHash);
  }

  /** Where each anchor of the buffer occurs, in order. */
  method IndexAnchors(fileHashes: seq<string>) returns (hashIndex: map<string, seq<nat>>)
    ensures forall h :: ListsUpTo(fileHashes, |fileHashes|, h, ListOf(hashIndex, h))
  {
    hashIndex := map[];
    for i := 0 to |fileHashes|
      invariant forall h :: ListsUpTo(fileHashes, i, h, ListOf(hashIndex, h))
    {
      ghost var before := hashIndex;
      hashIndex := hashIndex[fileHashes[i] := ListOf(hashIndex, fileHashes[i]) + [i]];
      forall h ensures ListsUpTo(fileHashes, i + 1, h, ListOf(hashIndex, h)) {
        ListNext(fileHashes, i, h, ListOf(before, h));
      }
    }
  }

  lemma {:induction false} OneLineIsSole(fileHashes: seq<string>, hash: string, list: seq<nat>, p: nat)
    requires ListsUpTo(fileHashes, |fileHashes|, hash, list)
    ensures |list| == 1 ==> Sole(fileHashes, hash, list[0])
    ensures Sole(fileHashes, hash, p) ==> list == [p]
  {
    assert |list| > 1 ==> list[0] < list[1];
    if |list| == 1 {
      assert list[0] in list;
      forall k: nat | k < |fileHashes| && fileHashes[k] == hash ensures k == list[0] {
        assert k in list;
      }
    }
    if Sole(fileHashes, hash, p) {
      assert forall k | 0 <= k < |list| :: list[k] in list;
      assert p in list;
    }
  }

  /** The two lines, if each anchor names exactly one. */
  method ValEdit(bounds: Bounds, fileHashes: seq<string>) returns (r: Option<Lines>)
    ensures r.Some? <==> exists p, q :: Sole(fileHashes, bounds.startHash, p) && Sole(fileHashes, bounds.endHash, q)
    ensures r.Some? ==> r.value.startLine >= 1 && r.value.endLine >= 1
                        && Sole(fileHashes, bounds.startHash, r.value.startLine - 1)
                        && Sole(fileHashes, bounds.endHash, r.value.endLine - 1)
  {
    var hashIndex := IndexAnchors(fileHashes);
    var starts, ends := ListOf(hashIndex, bounds.startHash), ListOf(hashIndex, bounds.endHash);
    forall p: nat
      ensures Sole(fileHashes, bounds.startHash, p) ==> starts == [p]
      ensures Sole(fileHashes, bounds.endHash, p) ==> ends == [p]
    {
      OneLineIsSole(fileHashes, bounds.startHash, starts, p);
      OneLineIsSole(fileHashes, bounds.endHash, ends, p);
    }
    OneLineIsSole(fileHashes, bounds.startHash, starts, 0);
    OneLineIsSole(fileHashes, bounds.endHash, ends, 0);
    if |starts| != 1 || |ends| != 1 { return None; }
    return Some(Lines(starts[0] + 1, ends[0] + 1));
  }

  /** A resolved range: its first and last line carry the two anchors, and no other line carries either. */
  ghost predicate ResolvesTo(fileHashes: seq<string>, given: Bounds, bounds: Bounds, lines: Lines) {
    && (bounds == given || bounds == Bounds(given.endHash, given.startHash))
    && 1 <= lines.startLine <= lines.endLine <= |fileHashes|
    && Sole(fileHashes, bounds.startHash, lines.startLine - 1)
    && Sole(fileHashes, bounds.endHash, lines.endLine - 1)
  }

  /** Resolution in either order of the anchors succeeds exactly when both are unambiguous. */
  method ResolveRange(given: Bounds, fileHashes: seq<string>) returns (bounds: Bounds, r: Option<Lines>)
    ensures r.Some? <==> exists p, q :: Sole(fileHashes, given.startHash, p) && Sole(fileHashes, given.endHash, q)
    ensures r.Some? ==> ResolvesTo(fileHashes, given, bounds, r.value)
  {
    bounds := SwapReversedRanges(given, fileHashes);
    r := ValEdit(bounds, fileHashes);
  }

  // ---- leases ----

  /** One lease: the identity of the line it was granted for, and where that line was then. */
  datatype Lease = Lease(lineId: nat, servedLine: nat, retired: bool)

  /** The leases of one file, where identities live in the edited buffer, and anchors leased in other files. */
  datatype LeaseSource = LeaseSource(leases: map<string, Lease>, positions: map<nat, nat>, elsewhere: set<string>)

  datatype Route = MirrorOnly | Leased(source: LeaseSource)

  datatype Code =
    | UnknownAnchor
    | ForeignAnchor
    | TargetLost
    | UnverifiedRange
    | StaleRange
    | UnservedBoundary
    | UnservedInterior

  datatype Verdict = Accepted | Rejected(code: Code)

  /** The line a lease stands for now; none when it is retired or its identity left the buffer. */
  function LineOf(source: LeaseSource, lease: Lease): Option<nat> {
    if lease.retired || lease.lineId !in source.positions then None else Some(source.positions[lease.lineId])
  }

  /** The anchor's lease is live and stands for this line. */
  ghost predicate LeasedAt(source: LeaseSource, anchor: string, line: int) {
    anchor in source.leases && LineOf(source, source.leases[anchor]).Some?
    && LineOf(source, source.leases[anchor]).value == line
  }

  ghost predicate Live(source: LeaseSource, anchor: string) {
    anchor in source.leases && LineOf(source, source.leases[anchor]).Some?
  }

  ghost predicate Unshifted(source: LeaseSource, anchor: string) {
    anchor in source.leases && LeasedAt(source, anchor, source.leases[anchor].servedLine)
  }

  /** The lines two leases were served at span part of a buffer of this many lines. */
  ghost predicate MeetsFile(source: LeaseSource, a: string, b: string, lineCount: nat)
    requires a in source.leases && b in source.leases
  {
    var first := Min(source.leases[a].servedLine, source.leases[b].servedLine);
    var last := Max(source.leases[a].servedLine, source.leases[b].servedLine);
    lineCount > 0 && 1 <= last && first <= lineCount
  }

  ghost predicate BothLive(source: LeaseSource, bounds: Bounds) {
    Live(source, bounds.startHash) && Live(source, bounds.endHash)
  }

  /** The answer of the boundary gate: which leases are missing, foreign, dead, or dead beside one that did not move. */
  ghost predicate BoundaryAnswer(v: Verdict, bounds: Bounds, lineCount: nat, source: LeaseSource) {
    && (v.Accepted? <==> BothLive(source, bounds))
    && (v == Rejected(ForeignAnchor) <==>
          exists a | a in [bounds.startHash, bounds.endHash] :: a !in source.leases && a in source.elsewhere)
    && (v == Rejected(UnknownAnchor) <==>
          && (bounds.startHash !in source.leases || bounds.endHash !in source.leases)
          && forall a | a in [bounds.startHash, bounds.endHash] && a !in source.leases :: a !in source.elsewhere)
    && (v == Rejected(UnverifiedRange) <==>
          && bounds.startHash in source.leases && bounds.endHash in source.leases
          && Live(source, bounds.startHash) != Live(source, bounds.endHash)
          && (Unshifted(source, bounds.startHash) || Unshifted(source, bounds.endHash))
          && MeetsFile(source, bounds.startHash, bounds.endHash, lineCount))
    && (v.Rejected? ==> v.code in {ForeignAnchor, UnknownAnchor, UnverifiedRange, TargetLost})
  }

  /** Boundary anchors answer for their identity before any content is looked at. */
  method InterceptLeaseBoundaries(bounds: Bounds, lineCount: nat, source: LeaseSource) returns (v: Verdict)
    ensures BoundaryAnswer(v, bounds, lineCount, source)
  {
    var a, b := bounds.startHash, bounds.endHash;
    if a !in source.leases || b !in source.leases {
      var refused := (if a in source.leases then {} else {a}) + (if b in source.leases then {} else {b});
      if x :| x in refused && x in source.elsewhere {
        assert x in [a, b];
        return Rejected(ForeignAnchor);
      }
      assert forall x | x in [a, b] && x !in source.leases :: x in refused;
      return Rejected(UnknownAnchor);
    }
    var fromLease, toLease := source.leases[a], source.leases[b];
    var fromLine, toLine := LineOf(source, fromLease), LineOf(source, toLease);
    if fromLine.None? || toLine.None? {
      var fromUnshifted := fromLine.Some? && fromLine.value == fromLease.servedLine;
      var toUnshifted := toLine.Some? && toLine.value == toLease.servedLine;
      var survivorUnshifted := if fromLine.None? then toUnshifted else fromUnshifted;
      if fromLine.None? != toLine.None? && survivorUnshifted {
        var rawStart := Min(fromLease.servedLine, toLease.servedLine);
        var rawEnd := Max(fromLease.servedLine, toLease.servedLine);
        var startLine, endLine := Max(1, rawStart), Min(lineCount, rawEnd);
        if lineCount > 0 && startLine <= endLine && rawEnd >= 1 && rawStart <= lineCount {
          return Rejected(UnverifiedRange);
        }
      }
      return Rejected(TargetLost);
    }
    return Accepted;
  }

  /** The k-th of `len` slots of a served window accounts for its line; a hole may only sit between the boundaries. */
  ghost predicate SlotHolds(served: Mirror, i: int, source: LeaseSource, line: int, interior: bool) {
    && 0 <= i < |served|
    && (served[i].None? ==> interior)
    && (served[i].Some? ==> LeasedAt(source, served[i].value, line))
  }

  /** A window of the mirror laid over lines of the edited buffer. */
  datatype ServedWindow = ServedWindow(servedStart: int, len: int, startLine: int) {
    ghost predicate Holds(served: Mirror, source: LeaseSource, k: nat) {
      SlotHolds(served, servedStart - 1 + k, source, startLine + k, k != 0 && k != len - 1)
    }

    ghost predicate AllHold(served: Mirror, source: LeaseSource) {
      forall k: nat | k < len :: Holds(served, source, k)
    }
  }

  /** The identity gate: every slot of the served window must still stand for the line now in its place. */
  method VerifyRebasedSpan(served: Mirror, servedStart: int, servedEnd: int, rebased: Lines, source: LeaseSource)
    returns (v: Verdict)
    ensures v.Accepted? <==>
              && rebased.endLine - rebased.startLine == servedEnd - servedStart
              && ServedWindow(servedStart, servedEnd - servedStart + 1, rebased.startLine).AllHold(served, source)
    ensures v.Rejected? ==> v.code == StaleRange
  {
    var servedLen := servedEnd - servedStart + 1;
    if rebased.endLine - rebased.startLine + 1 != servedLen { return Rejected(StaleRange); }
    ghost var w := ServedWindow(servedStart, servedLen, rebased.startLine);
    var k: nat := 0;
    while k < servedLen
      invariant forall j: nat | j < k :: w.Holds(served, source, j)
    {
      v := CheckSlot(served, servedStart - 1 + k, source, rebased.startLine + k, k != 0 && k != servedLen - 1);
      if v.Rejected? {
        assert !w.Holds(served, source, k);
        return;
      }
      assert w.Holds(served, source, k);
      k := k + 1;
    }
    return Accepted;
  }

  method CheckSlot(served: Mirror, i: int, source: LeaseSource, line: int, interior: bool) returns (v: Verdict)
    ensures v == if SlotHolds(served, i, source, line, interior) then Accepted else Rejected(StaleRange)
  {
    if !(0 <= i < |served|) { return Rejected(StaleRange); }
    if served[i].None? {
      return if interior then Accepted else Rejected(StaleRange);
    }
    var anchor := served[i].value;
    if anchor !in source.leases { return Rejected(StaleRange); }
    var lease := source.leases[anchor];
    if lease.retired { return Rejected(StaleRange); }
    if lease.lineId !in source.positions || source.positions[lease.lineId] != line {
      return Rejected(StaleRange);
    }
    return Accepted;
  }

  // ---- the whole decision ----

  /** The only place the mirror shows an anchor. */
  ghost predicate PlacedAt(served: Mirror, hash: string, p: nat) {
    p < |served| && served[p] == Some(hash) && forall k | 0 <= k < |served| && served[k] == Some(hash) :: k == p
  }

  /** What a range is checked against: the mirror, the buffer the anchors were resolved in, and the evidence. */
  datatype Check = Check(
    served: Mirror, bounds: Bounds, lines: Lines, fileHashes: seq<string>, fileLines: seq<string>,
    servedCanons: Option<Mirror>, retired: set<string>, route: Route)
  {
    ghost predicate Resolved() {
      |fileHashes| == |fileLines| && ResolvesTo(fileHashes, bounds, bounds, lines)
    }

    function Count(): int {
      lines.endLine - lines.startLine + 1
    }

    /** The canonical text recorded for a slot, if any. */
    function CanonAt(i: nat): Option<string> {
      if servedCanons.Some? && i < |servedCanons.value| then servedCanons.value[i] else None
    }

    /** What was recorded for the slot is what the line says now; nothing recorded fits every line. */
    predicate CanonFits(i: nat, line: nat)
      requires line < |fileLines|
    {
      CanonAt(i).Some? ==> CanonAt(i).value == Canon(fileLines[line])
    }

    /** Slot `from + k` of the mirror still tells the truth about line k of the range. */
    ghost predicate SlotVerified(from: nat, k: nat)
      requires Resolved() && k < Count()
    {
      var line := lines.startLine - 1 + k;
      && from + k < |served|
      && CanonFits(from + k, line)
      && (served[from + k].None? ==> route.Leased? && 0 < k < Count() - 1)
      && (served[from + k].Some? ==>
            && served[from + k].value == fileHashes[line]
            && (route.Leased? ==> LeasedAt(route.source, served[from + k].value, line + 1)))
    }

    /** The window between the two served positions is the range, line by line. */
    ghost predicate VerifiedAt(from: nat, to: nat)
      requires Resolved()
    {
      && to - from + 1 == Count()
      && (route.MirrorOnly? ==> from == lines.startLine - 1)
      && forall k: nat | k < Count() :: SlotVerified(from, k)
    }

    ghost predicate Verified()
      requires Resolved()
    {
      exists p: nat, q: nat :: PlacedAt(served, bounds.startHash, p) && PlacedAt(served, bounds.endHash, q)
                               && VerifiedAt(Min(p, q), Max(p, q))
    }
  }

  /** The positions at which the mirror shows an anchor. */
  method ServedPositionsOf(served: Mirror, hash: string) returns (out: seq<nat>)
    ensures StrictlyAscending(out)
    ensures forall i: nat :: i in out <==> i < |served| && served[i] == Some(hash)
  {
    out := [];
    for i := 0 to |served|
      invariant StrictlyAscending(out)
      invariant forall k: nat :: k in out <==> k < i && served[k] == Some(hash)
    {
      assert forall k | 0 <= k < |out| :: out[k] in out;
      if served[i] == Some(hash) {
        out := out + [i];
      }
    }
  }

  lemma {:induction false} OnePositionIsPlace(c: Check, hash: string, out: seq<nat>, p: nat)
    requires StrictlyAscending(out) && forall i: nat :: i in out <==> i < |c.served| && c.served[i] == Some(hash)
    ensures |out| == 1 ==> PlacedAt(c.served, hash, out[0])
    ensures PlacedAt(c.served, hash, p) ==> out == [p]
  {
    assert |out| > 1 ==> out[0] < out[1];
    if |out| == 1 {
      assert out[0] in out;
      forall k: nat | k < |c.served| && c.served[k] == Some(hash) ensures k == out[0] {
        assert k in out;
      }
    }
    if PlacedAt(c.served, hash, p) {
      assert p in out && forall k | 0 <= k < |out| :: out[k] in out;
    }
  }

  method FirstIndex<T(==)>(s: seq<T>, x: T) returns (r: Option<nat>)
    ensures r.None? <==> x !in s
    ensures r.Some? ==> r.value < |s| && s[r.value] == x && forall k | 0 <= k < r.value :: s[k] != x
  {
    for i := 0 to |s|
      invariant forall k | 0 <= k < i :: s[k] != x
    {
      if s[i] == x { return Some(i); }
    }
    return None;
  }

  /** A slot of the mirror whose recorded text differs from the line that now carries its anchor. */
  ghost predicate Contradicts(c: Check, hash: string, i: nat, pos: nat) {
    && i < |c.served| && c.served[i] == Some(hash)
    && pos < |c.fileHashes| && pos < |c.fileLines| && c.fileHashes[pos] == hash
    && !c.CanonFits(i, pos)
  }

  ghost predicate FirstAt<T>(s: seq<T>, x: T, i: nat) {
    i < |s| && s[i] == x && forall k | 0 <= k < i :: s[k] != x
  }

  /** A boundary was freed since the last full read, and its first slot contradicts the line that carries it now. */
  ghost predicate FreedEarly(c: Check)
    requires c.Resolved()
  {
    var hash := if c.bounds.startHash in c.retired then c.bounds.startHash else c.bounds.endHash;
    hash in c.retired
    && exists i: nat, pos: nat ::
          FirstAt(c.served, Some(hash), i) && FirstAt(c.fileHashes, hash, pos) && !c.CanonFits(i, pos)
  }

  /** The early check on a boundary that was freed since the last full read. */
  method FreedBoundary(c: Check) returns (freed: bool)
    requires c.Resolved()
    ensures freed <==> FreedEarly(c)
  {
    if c.bounds.startHash !in c.retired && c.bounds.endHash !in c.retired { return false; }
    var hash := if c.bounds.startHash in c.retired then c.bounds.startHash else c.bounds.endHash;
    if c.servedCanons.None? { return false; }
    var pos := FirstIndex(c.fileHashes, hash);
    if pos.None? { return false; }
    var servedIdx := FirstIndex(c.served, Some(hash));
    if servedIdx.None? { return false; }
    freed := !c.CanonFits(servedIdx.value, pos.value);
    assert FirstAt(c.served, Some(hash), servedIdx.value) && FirstAt(c.fileHashes, hash, pos.value);
  }

  lemma {:induction false} FreedRefutes(c: Check)
    requires c.Resolved() && FreedEarly(c)
    ensures !c.Verified()
  {
    hide Check.Verified, Sole;
    var hash := if c.bounds.startHash in c.retired then c.bounds.startHash else c.bounds.endHash;
    var i: nat, pos: nat :| FirstAt(c.served, Some(hash), i) && FirstAt(c.fileHashes, hash, pos)
        && !c.CanonFits(i, pos);
    ContradictionRefutes(c, hash, i, pos);
  }

  lemma {:induction false} ContradictionRefutes(c: Check, hash: string, i: nat, pos: nat)
    requires c.Resolved() && hash in [c.bounds.startHash, c.bounds.endHash] && Contradicts(c, hash, i, pos)
    ensures !c.Verified()
  {
    forall p: nat, q: nat | PlacedAt(c.served, c.bounds.startHash, p) && PlacedAt(c.served, c.bounds.endHash, q)
      ensures !c.VerifiedAt(Min(p, q), Max(p, q))
    {
      var from, k := Min(p, q), i - Min(p, q);
      assert Max(p, q) - from + 1 == c.Count() ==> !c.SlotVerified(from, k);
    }
  }

  method HasHole(served: Mirror, from: nat, to: nat) returns (hole: bool)
    requires from <= to < |served|
    ensures hole <==> exists i | from <= i <= to :: served[i].None?
  {
    for i := from to to + 1
      invariant forall k | from <= k < i :: served[k].Some?
    {
      if served[i].None? { return true; }
    }
    return false;
  }

  /** Line k of the range says what was recorded for it. */
  ghost predicate LineFits(c: Check, from: nat, k: nat)
    requires c.Resolved() && k < c.Count()
  {
    c.CanonFits(from + k, c.lines.startLine - 1 + k)
  }

  method CanonsFit(c: Check, from: nat) returns (fits: bool)
    requires c.Resolved()
    ensures fits <==> forall k: nat | k < c.Count() :: LineFits(c, from, k)
  {
    for k := 0 to c.Count()
      invariant forall j: nat | j < k :: LineFits(c, from, j)
    {
      if !c.CanonFits(from + k, c.lines.startLine - 1 + k) {
        assert !LineFits(c, from, k);
        return false;
      }
      assert LineFits(c, from, k);
    }
    return true;
  }

  /** The check for freed anchors inside the range. */
  method FreedInside(c: Check, from: nat) returns (freed: bool)
    requires c.Resolved()
    ensures freed ==> exists k: nat | k < c.Count() :: !LineFits(c, from, k)
  {
    for k := 0 to c.Count() {
      var line := c.lines.startLine - 1 + k;
      if c.fileHashes[line] != "" && c.fileHashes[line] in c.retired && !c.CanonFits(from + k, line) {
        assert !LineFits(c, from, k);
        return true;
      }
    }
    return false;
  }

  /** Line k of the range carries the anchor it was shown with, where it was shown with one. */
  ghost predicate LineShown(c: Check, from: nat, k: nat)
    requires c.Resolved() && k < c.Count()
  {
    && from + k < |c.served|
    && (c.served[from + k].None? ==> c.route.Leased?)
    && (c.served[from + k].Some? ==> c.served[from + k].value == c.fileHashes[c.lines.startLine - 1 + k])
  }

  method PositionsMatch(c: Check, from: nat) returns (match_: bool)
    requires c.Resolved() && from + c.Count() <= |c.served|
    ensures match_ <==> forall k: nat | k < c.Count() :: LineShown(c, from, k)
  {
    for k := 0 to c.Count()
      invariant forall j: nat | j < k :: LineShown(c, from, j)
    {
      var slot := c.served[from + k];
      if (c.route.MirrorOnly? || slot.Some?) && slot != Some(c.fileHashes[c.lines.startLine - 1 + k]) {
        assert !LineShown(c, from, k);
        return false;
      }
      assert LineShown(c, from, k);
    }
    return true;
  }

  /** The window the gates agreed on is verified exactly when every line passed each of them. */
  lemma {:induction false} GatesVerify(c: Check, from: nat, to: nat)
    requires c.Resolved() && from <= to < |c.served| && to - from + 1 == c.Count()
    requires c.route.MirrorOnly? ==> forall i | from <= i <= to :: c.served[i].Some?
    ensures
      c.VerifiedAt(from, to) <==>
        && (c.route.MirrorOnly? ==> from == c.lines.startLine - 1)
        && (c.route.Leased? ==> ServedWindow(from + 1, c.Count(), c.lines.startLine).AllHold(c.served, c.route.source))
        && (forall k: nat | k < c.Count() :: LineFits(c, from, k))
        && (forall k: nat | k < c.Count() :: LineShown(c, from, k))
  {
    var w := ServedWindow(from + 1, c.Count(), c.lines.startLine);
    forall k: nat | k < c.Count()
      ensures c.SlotVerified(from, k) <==>
                && (c.route.Leased? ==> w.Holds(c.served, c.route.source, k))
                && LineFits(c, from, k) && LineShown(c, from, k)
    {
    }
  }

  /** At most one window can be verified. */
  lemma {:induction false} OneWindow(c: Check, p: nat, q: nat)
    requires c.Resolved() && PlacedAt(c.served, c.bounds.startHash, p) && PlacedAt(c.served, c.bounds.endHash, q)
    ensures c.Verified() <==> c.VerifiedAt(Min(p, q), Max(p, q))
  {
  }

  /** A boundary without a live lease cannot be part of a verified window. */
  lemma {:induction false} LeaselessRefutes(c: Check)
    requires c.Resolved() && c.route.Leased?
    requires !(Live(c.route.source, c.bounds.startHash) && Live(c.route.source, c.bounds.endHash))
    ensures !c.Verified()
  {
    forall p: nat, q: nat | PlacedAt(c.served, c.bounds.startHash, p) && PlacedAt(c.served, c.bounds.endHash, q)
      ensures !c.VerifiedAt(Min(p, q), Max(p, q))
    {
      var from, to := Min(p, q), Max(p, q);
      assert to - from + 1 == c.Count() ==> !c.SlotVerified(from, p - from) || !c.SlotVerified(from, q - from);
    }
  }

  /** Each boundary is shown, and one of them more than once. */
  ghost predicate Ambiguous(c: Check) {
    && Some(c.bounds.startHash) in c.served && Some(c.bounds.endHash) in c.served
    && !exists p: nat, q: nat :: PlacedAt(c.served, c.bounds.startHash, p) && PlacedAt(c.served, c.bounds.endHash, q)
  }

  /** Both boundaries have their place, and a slot between them was never served. */
  ghost predicate HoleBetween(c: Check) {
    exists p: nat, q: nat, i :: PlacedAt(c.served, c.bounds.startHash, p) && PlacedAt(c.served, c.bounds.endHash, q)
                                && Min(p, q) <= i <= Max(p, q) && c.served[i].None?
  }

  /** The answer of the gates on served positions and on the window between them. */
  ghost predicate PlacedAnswer(v: Verdict, c: Check)
    requires c.Resolved()
  {
    && (v.Accepted? <==> c.Verified())
    && (v == Rejected(UnknownAnchor) <==> Some(c.bounds.startHash) !in c.served || Some(c.bounds.endHash) !in c.served)
    && (v == Rejected(UnservedBoundary) <==> Ambiguous(c))
    && (v == Rejected(UnservedInterior) <==> c.route.MirrorOnly? && HoleBetween(c))
    && (v.Rejected? ==> v.code in {UnknownAnchor, UnservedBoundary, UnservedInterior, StaleRange})
  }

  /** The gates after the boundaries were intercepted. */
  method VerifyPlaced(c: Check) returns (v: Verdict)
    requires c.Resolved()
    ensures PlacedAnswer(v, c)
  {
    hide Check.Verified, Check.Resolved, PlacedAt, StrictlyAscending, Ambiguous, HoleBetween;
    var starts := ServedPositionsOf(c.served, c.bounds.startHash);
    var ends := ServedPositionsOf(c.served, c.bounds.endHash);
    PlacesOf(c, starts, ends);
    if |starts| != 1 || |ends| != 1 {
      return if starts == [] || ends == [] then Rejected(UnknownAnchor) else Rejected(UnservedBoundary);
    }
    v := VerifyWindow(c, starts[0], ends[0]);
  }

  /** What the served positions of the boundaries say. */
  lemma {:induction false} PlacesOf(c: Check, starts: seq<nat>, ends: seq<nat>)
    requires StrictlyAscending(starts)
    requires forall i: nat :: i in starts <==> i < |c.served| && c.served[i] == Some(c.bounds.startHash)
    requires StrictlyAscending(ends)
    requires forall i: nat :: i in ends <==> i < |c.served| && c.served[i] == Some(c.bounds.endHash)
    ensures |starts| == 1 ==> PlacedAt(c.served, c.bounds.startHash, starts[0])
    ensures |ends| == 1 ==> PlacedAt(c.served, c.bounds.endHash, ends[0])
    ensures c.Resolved() && c.Verified() ==> |starts| == 1 && |ends| == 1
    ensures starts == [] <==> Some(c.bounds.startHash) !in c.served
    ensures ends == [] <==> Some(c.bounds.endHash) !in c.served
    ensures Ambiguous(c) <==> starts != [] && ends != [] && (|starts| != 1 || |ends| != 1)
    ensures HoleBetween(c) ==> |starts| == 1 && |ends| == 1
  {
    hide StrictlyAscending, PlacedAt, Check.VerifiedAt;
    SomePosition(c, c.bounds.startHash, starts);
    SomePosition(c, c.bounds.endHash, ends);
    OnePositionIsPlace(c, c.bounds.startHash, starts, 0);
    OnePositionIsPlace(c, c.bounds.endHash, ends, 0);
    forall p: nat, q: nat | PlacedAt(c.served, c.bounds.startHash, p) && PlacedAt(c.served, c.bounds.endHash, q)
      ensures |starts| == 1 && |ends| == 1
    {
      OnePositionIsPlace(c, c.bounds.startHash, starts, p);
      OnePositionIsPlace(c, c.bounds.endHash, ends, q);
    }
  }

  lemma {:induction false} SomePosition(c: Check, hash: string, out: seq<nat>)
    requires forall i: nat :: i in out <==> i < |c.served| && c.served[i] == Some(hash)
    ensures out == [] <==> Some(hash) !in c.served
  {
    if out != [] {
      assert out[0] in out;
    }
    if Some(hash) in c.served {
      var i: nat :| i < |c.served| && c.served[i] == Some(hash);
      assert i in out;
    }
  }

  /** The gates on the window between two served positions. */
  method VerifyWindow(c: Check, p: nat, q: nat) returns (v: Verdict)
    requires c.Resolved() && PlacedAt(c.served, c.bounds.startHash, p) && PlacedAt(c.served, c.bounds.endHash, q)
    ensures v.Accepted? <==> c.Verified()
    ensures v == Rejected(UnservedInterior) <==> c.route.MirrorOnly? && HoleBetween(c)
    ensures v.Rejected? ==> v.code in {UnservedInterior, StaleRange}
  {
    var from, to := Min(p, q), Max(p, q);
    OneWindow(c, p, q);
    OneHole(c, p, q);
    hide Check.Verified, Check.SlotVerified, LineFits, LineShown, ServedWindow.AllHold, Check.Resolved, HoleBetween;
    if c.route.MirrorOnly? {
      var hole := HasHole(c.served, from, to);
      if hole {
        HoleRefutes(c, from, to);
        return Rejected(UnservedInterior);
      }
    }
    if to - from + 1 != c.Count() { return Rejected(StaleRange); }
    GatesVerify(c, from, to);
    if c.route.Leased? {
      v := VerifyRebasedSpan(c.served, from + 1, to + 1, c.lines, c.route.source);
      if v.Rejected? { return; }
    } else if from != c.lines.startLine - 1 {
      return Rejected(StaleRange);
    }
    var fits := CanonsFit(c, from);
    if !fits { return Rejected(StaleRange); }
    var freed := FreedInside(c, from);
    if freed { return Rejected(StaleRange); }
    var shown := PositionsMatch(c, from);
    return if shown then Accepted else Rejected(StaleRange);
  }

  lemma {:induction false} OneHole(c: Check, p: nat, q: nat)
    requires PlacedAt(c.served, c.bounds.startHash, p) && PlacedAt(c.served, c.bounds.endHash, q)
    ensures HoleBetween(c) <==> exists i | Min(p, q) <= i <= Max(p, q) :: c.served[i].None?
  {
    if i :| Min(p, q) <= i <= Max(p, q) && c.served[i].None? {
      assert PlacedAt(c.served, c.bounds.startHash, p) && PlacedAt(c.served, c.bounds.endHash, q)
             && Min(p, q) <= i <= Max(p, q) && c.served[i].None?;
    }
  }

  lemma {:induction false} HoleRefutes(c: Check, from: nat, to: nat)
    requires c.Resolved() && c.route.MirrorOnly? && from <= to < |c.served|
    requires exists i | from <= i <= to :: c.served[i].None?
    ensures !c.VerifiedAt(from, to)
  {
    var i :| from <= i <= to && c.served[i].None?;
    assert to - from + 1 == c.Count() ==> !c.SlotVerified(from, i - from);
  }

  /**
   The decision. A range is accepted exactly when both boundaries have one served position and the window
   between them tells the truth about every line; freed anchors only change which refusal is given, and the gate
   that fails first gives it.
   */
  method VerifyServedRange(c: Check) returns (v: Verdict)
    requires c.Resolved()
    ensures v.Accepted? <==> c.Verified()
    ensures if FreedEarly(c) then v == Rejected(StaleRange)
            else if c.route.Leased? && !BothLive(c.route.source, c.bounds)
            then BoundaryAnswer(v, c.bounds, |c.fileHashes|, c.route.source)
            else PlacedAnswer(v, c)
  {
    hide Check.Verified, Check.Resolved, Ambiguous, HoleBetween, LineOf, FreedEarly;
    var freed := FreedBoundary(c);
    if freed {
      FreedRefutes(c);
      return Rejected(StaleRange);
    }
    if c.route.Leased? {
      v := InterceptLeaseBoundaries(c.bounds, |c.fileHashes|, c.route.source);
      if v.Rejected? { LeaselessRefutes(c); return; }
    }
    v := VerifyPlaced(c);
  }

  // ---- what acceptance means ----

  /** An accepted range, seen from the mirror: the window between the two served positions. */
  lemma {:induction false} AcceptedWindow(c: Check) returns (p: nat, q: nat)
    requires c.Resolved() && c.Verified()
    ensures PlacedAt(c.served, c.bounds.startHash, p) && PlacedAt(c.served, c.bounds.endHash, q)
    ensures Max(p, q) - Min(p, q) + 1 == c.Count()
    ensures c.route.MirrorOnly? ==> Min(p, q) == c.lines.startLine - 1
    ensures forall i | Min(p, q) <= i <= Max(p, q) :: ShownLine(c, Min(p, q), i)
  {
    p, q :| PlacedAt(c.served, c.bounds.startHash, p) && PlacedAt(c.served, c.bounds.endHash, q)
            && c.VerifiedAt(Min(p, q), Max(p, q));
    forall i | Min(p, q) <= i <= Max(p, q) ensures ShownLine(c, Min(p, q), i) {
      assert c.SlotVerified(Min(p, q), i - Min(p, q));
    }
  }

  /** Slot i of a window from `from`: its anchor is on its line, with a live lease where leases are the evidence. */
  ghost predicate ShownLine(c: Check, from: nat, i: int)
    requires c.Resolved()
  {
    var line := c.lines.startLine - 1 + i - from;
    && from <= i < from + c.Count() && i < |c.served|
    && c.CanonFits(i, line)
    && (c.route.MirrorOnly? ==> c.served[i].Some?)
    && (c.served[i].Some? ==>
          && c.served[i].value == c.fileHashes[line]
          && (c.route.Leased? ==> LeasedAt(c.route.source, c.served[i].value, line + 1)))
  }

  /** On the mirror alone, acceptance means the range sits where it was shown, every line as it was shown. */
  lemma {:induction false} MirrorAcceptance(c: Check)
    requires c.Resolved() && c.route.MirrorOnly? && c.Verified()
    ensures c.lines.endLine <= |c.served|
    ensures forall k | c.lines.startLine - 1 <= k < c.lines.endLine ::
              c.served[k] == Some(c.fileHashes[k]) && c.CanonFits(k, k)
  {
    hide Check.Verified;
    var p, q := AcceptedWindow(c);
    forall k | c.lines.startLine - 1 <= k < c.lines.endLine
      ensures k < |c.served| && c.served[k] == Some(c.fileHashes[k]) && c.CanonFits(k, k)
    {
      assert ShownLine(c, Min(p, q), k);
    }
    assert ShownLine(c, Min(p, q), c.lines.endLine - 1);
  }

  /** With leases, acceptance means every shown line of the window is the very line its anchor was leased for. */
  lemma {:induction false} LeasedAcceptance(c: Check) returns (from: nat)
    requires c.Resolved() && c.route.Leased? && c.Verified()
    ensures from + c.Count() <= |c.served|
    ensures c.served[from].Some? && c.served[from + c.Count() - 1].Some?
    ensures forall i | from <= i < from + c.Count() && c.served[i].Some? ::
              && c.served[i].value == c.fileHashes[c.lines.startLine - 1 + i - from]
              && LeasedAt(c.route.source, c.served[i].value, c.lines.startLine + i - from)
  {
    hide Check.Verified;
    var p, q := AcceptedWindow(c);
    from := Min(p, q);
    forall i | from <= i < from + c.Count() && c.served[i].Some?
      ensures c.served[i].value == c.fileHashes[c.lines.startLine - 1 + i - from]
      ensures LeasedAt(c.route.source, c.served[i].value, c.lines.startLine + i - from)
    {
      assert ShownLine(c, from, i);
    }
  }

  /** The text recorded for slot i, if there is one, is the canonical text of line `line`, counted from 0. */
  ghost predicate RecordedText(c: Check, i: nat, line: nat) {
    c.servedCanons.Some? && i < |c.servedCanons.value| && c.servedCanons.value[i].Some? ==>
      line < |c.fileLines| && c.servedCanons.value[i] == Some(Canon(c.fileLines[line]))
  }

  /** Slot i was shown with the anchor of line `line`, whose lease is live and whose identity is on that line now. */
  ghost predicate LiveOnLine(c: Check, i: nat, line: nat)
    requires c.route.Leased?
  {
    && i < |c.served| && line < |c.fileHashes| && c.served[i] == Some(c.fileHashes[line])
    && c.fileHashes[line] in c.route.source.leases
    && var lease := c.route.source.leases[c.fileHashes[line]];
       !lease.retired && lease.lineId in c.route.source.positions && c.route.source.positions[lease.lineId] == line + 1
  }

  /** The boundaries are shown once each, at the two ends of a window as long as the range. */
  ghost predicate EndsAt(c: Check, p: nat, q: nat) {
    && p < |c.served| && q < |c.served|
    && (forall i | 0 <= i < |c.served| :: c.served[i] == Some(c.bounds.startHash) <==> i == p)
    && (forall i | 0 <= i < |c.served| :: c.served[i] == Some(c.bounds.endHash) <==> i == q)
    && (q - p == c.lines.endLine - c.lines.startLine || p - q == c.lines.endLine - c.lines.startLine)
  }

  lemma {:induction false} EndsArePlaces(c: Check, p: nat, q: nat)
    requires c.Resolved()
    ensures EndsAt(c, p, q)
            <==> PlacedAt(c.served, c.bounds.startHash, p) && PlacedAt(c.served, c.bounds.endHash, q)
                 && Max(p, q) - Min(p, q) + 1 == c.Count()
  {
    hide Sole;
  }

  /** Slot `from + k` is never shown and inside the window, or shown with the live anchor of its line. */
  ghost predicate LeasedSlotTells(c: Check, from: nat, k: nat)
    requires c.route.Leased?
  {
    var i, line := from + k, c.lines.startLine - 1 + k;
    && line >= 0 && i < |c.served| && RecordedText(c, i, line)
    && ((c.served[i].None? && 0 < k < c.lines.endLine - c.lines.startLine) || LiveOnLine(c, i, line))
  }

  /** Slot `from + k` is shown with the anchor of its line. */
  ghost predicate MirrorSlotTells(c: Check, from: nat, k: nat) {
    var i, line := from + k, c.lines.startLine - 1 + k;
    && line >= 0 && i < |c.served| && RecordedText(c, i, line)
    && line < |c.fileHashes| && c.served[i] == Some(c.fileHashes[line])
  }

  lemma {:induction false} SlotTellsExactly(c: Check, from: nat, k: nat)
    requires c.Resolved() && k < c.Count()
    ensures c.route.Leased? ==> (c.SlotVerified(from, k) <==> LeasedSlotTells(c, from, k))
    ensures c.route.MirrorOnly? ==> (c.SlotVerified(from, k) <==> MirrorSlotTells(c, from, k))
  {
    hide Sole, Canon;
  }

  ghost predicate LeasedWindowTells(c: Check, from: nat)
    requires c.route.Leased?
  {
    forall k: nat | k <= c.lines.endLine - c.lines.startLine :: LeasedSlotTells(c, from, k)
  }

  ghost predicate MirrorWindowTells(c: Check, from: nat) {
    from == c.lines.startLine - 1
    && forall k: nat | k <= c.lines.endLine - c.lines.startLine :: MirrorSlotTells(c, from, k)
  }

  lemma {:induction false} WindowTellsExactly(c: Check, from: nat, to: nat)
    requires c.Resolved() && to - from + 1 == c.Count()
    ensures c.route.Leased? ==> (c.VerifiedAt(from, to) <==> LeasedWindowTells(c, from))
    ensures c.route.MirrorOnly? ==> (c.VerifiedAt(from, to) <==> MirrorWindowTells(c, from))
  {
    hide Check.SlotVerified, LeasedSlotTells, MirrorSlotTells, Check.Resolved;
    forall k: nat | k < c.Count()
      ensures c.route.Leased? ==> (c.SlotVerified(from, k) <==> LeasedSlotTells(c, from, k))
      ensures c.route.MirrorOnly? ==> (c.SlotVerified(from, k) <==> MirrorSlotTells(c, from, k))
    {
      SlotTellsExactly(c, from, k);
    }
  }

  /**
   Exactly which ranges are accepted. Both ends are shown once, as far apart as the lines are. On leases every shown
   slot carries its line's anchor under a live lease of that line, and a slot inside that was never shown is no
   obstacle; on the mirror alone the window stands where it was shown and every slot carries its line's anchor. Texts
   that were recorded are unchanged.
   */
  lemma {:induction false} AcceptedExactly(c: Check)
    requires c.Resolved()
    ensures c.route.Leased? ==>
              (c.Verified() <==> exists p: nat, q: nat :: EndsAt(c, p, q) && LeasedWindowTells(c, Min(p, q)))
    ensures c.route.MirrorOnly? ==>
              (c.Verified() <==> exists p: nat, q: nat :: EndsAt(c, p, q) && MirrorWindowTells(c, Min(p, q)))
  {
    hide Check.VerifiedAt, EndsAt, PlacedAt, LeasedWindowTells, MirrorWindowTells, Check.Resolved;
    forall p: nat, q: nat
      ensures EndsAt(c, p, q)
              <==> PlacedAt(c.served, c.bounds.startHash, p) && PlacedAt(c.served, c.bounds.endHash, q)
                   && Max(p, q) - Min(p, q) + 1 == c.Count()
    {
      EndsArePlaces(c, p, q);
    }
    forall p: nat, q: nat | EndsAt(c, p, q)
      ensures c.route.Leased? ==> (c.VerifiedAt(Min(p, q), Max(p, q)) <==> LeasedWindowTells(c, Min(p, q)))
      ensures c.route.MirrorOnly? ==> (c.VerifiedAt(Min(p, q), Max(p, q)) <==> MirrorWindowTells(c, Min(p, q)))
    {
      WindowTellsExactly(c, Min(p, q), Max(p, q));
    }
    forall p: nat, q: nat | c.VerifiedAt(Min(p, q), Max(p, q)) ensures Max(p, q) - Min(p, q) + 1 == c.Count() {
      WindowLength(c, Min(p, q), Max(p, q));
    }
  }

  lemma {:induction false} WindowLength(c: Check, from: nat, to: nat)
    requires c.Resolved() && c.VerifiedAt(from, to)
    ensures to - from + 1 == c.Count()
  {
  }

  /** A range with a line inside that was never shown: accepted on leases. */
  lemma {:induction false} HoleInstance()
    ensures
      var served: Mirror := [Some("aaa"), None, Some("aac")];
      var source := LeaseSource(map["aaa" := Lease(1, 1, false), "aac" := Lease(3, 3, false)], map[1 := 1, 3 := 3], {});
      var c := Check(served, Bounds("aaa", "aac"), Lines(1, 3), ["aaa", "aab", "aac"], ["x", "y", "z"], None, {},
                     Leased(source));
      c.Resolved() && c.Verified()
  {
    var served: Mirror := [Some("aaa"), None, Some("aac")];
    var source := LeaseSource(map["aaa" := Lease(1, 1, false), "aac" := Lease(3, 3, false)], map[1 := 1, 3 := 3], {});
    var c := Check(served, Bounds("aaa", "aac"), Lines(1, 3), ["aaa", "aab", "aac"], ["x", "y", "z"], None, {},
                   Leased(source));
    assert "aaa"[2] != "aab"[2] && "aaa"[2] != "aac"[2] && "aab"[2] != "aac"[2];
    assert Sole(c.fileHashes, "aaa", 0) && Sole(c.fileHashes, "aac", 2);
    assert EndsAt(c, 0, 2) && LeasedWindowTells(c, Min(0, 2));
    AcceptedExactly(c);
  }

  /** The same range `shift` lines further on, seen through identities that moved along. */
  ghost predicate Moved(c: Check, d: Check, shift: int) {
    && c.Resolved() && d.Resolved() && (c.route.Leased? <==> d.route.Leased?)
    && d.served == c.served && d.bounds == c.bounds && d.servedCanons == c.servedCanons
    && d.lines.startLine == c.lines.startLine + shift && d.lines.endLine == c.lines.endLine + shift
    && forall k: nat | k < c.Count() :: LineMoved(c, d, k)
  }

  /** Line k of the range: the same anchor, the same text, and the same lease if it had a live one. */
  ghost predicate LineMoved(c: Check, d: Check, k: nat)
    requires c.Resolved() && d.Resolved() && (c.route.Leased? <==> d.route.Leased?) && k < c.Count() == d.Count()
  {
    var from, to := c.lines.startLine - 1 + k, d.lines.startLine - 1 + k;
    && d.fileHashes[to] == c.fileHashes[from] && d.fileLines[to] == c.fileLines[from]
    && (c.route.Leased? && LeasedAt(c.route.source, c.fileHashes[from], from + 1) ==>
          LeasedAt(d.route.source, c.fileHashes[from], to + 1))
  }

  lemma {:induction false} SlotMoves(c: Check, d: Check, from: nat, k: nat)
    requires c.Resolved() && d.Resolved() && (c.route.Leased? <==> d.route.Leased?) && k < c.Count() == d.Count()
    requires d.served == c.served && d.servedCanons == c.servedCanons && LineMoved(c, d, k)
    ensures c.SlotVerified(from, k) ==> d.SlotVerified(from, k)
  {
    hide Canon;
  }

  /** With leases an acceptable range stays acceptable wherever it moves; on the mirror alone, only where it was. */
  lemma {:induction false} MovedAcceptance(c: Check, d: Check, shift: int)
    requires Moved(c, d, shift) && c.Verified()
    ensures d.Verified() <==> c.route.Leased? || shift == 0
  {
    hide Check.SlotVerified, LineMoved, PlacedAt, Sole;
    var p: nat, q: nat :| PlacedAt(c.served, c.bounds.startHash, p) && PlacedAt(c.served, c.bounds.endHash, q)
                          && c.VerifiedAt(Min(p, q), Max(p, q));
    var from, to := Min(p, q), Max(p, q);
    forall k: nat | k < d.Count() ensures d.SlotVerified(from, k) {
      SlotMoves(c, d, from, k);
    }
    OneWindow(d, p, q);
  }

  /** One line put in above line 2: on the mirror alone it is no longer accepted. */
  lemma {:induction false} ShiftInstance()
    ensures
      var served: Mirror, line := [Some("aaa"), Some("aab")], Bounds("aab", "aab");
      var c := Check(served, line, Lines(2, 2), ["aaa", "aab"], ["a", "b"], None, {}, MirrorOnly);
      var d := Check(served, line, Lines(3, 3), ["aac", "aad", "aab"], ["x", "y", "b"], None, {}, MirrorOnly);
      c.Resolved() && c.Verified() && d.Resolved() && !d.Verified()
  {
    var served: Mirror, line := [Some("aaa"), Some("aab")], Bounds("aab", "aab");
    var c := Check(served, line, Lines(2, 2), ["aaa", "aab"], ["a", "b"], None, {}, MirrorOnly);
    var d := Check(served, line, Lines(3, 3), ["aac", "aad", "aab"], ["x", "y", "b"], None, {}, MirrorOnly);
    assert "aaa"[2] != "aab"[2] && "aac"[2] != "aab"[2] && "aad"[2] != "aab"[2];
    assert Sole(c.fileHashes, "aab", 1) && Sole(d.fileHashes, "aab", 2) && PlacedAt(served, "aab", 1);
    assert c.SlotVerified(1, 0) && c.VerifiedAt(1, 1);
    OneWindow(c, 1, 1);
    assert LineMoved(c, d, 0);
    MovedAcceptance(c, d, 1);
  }

  /** The same buffer with lines put in above, seen through identities that moved along. */
  ghost predicate ShiftedDown(c: Check, d: Check, above: nat) {
    && c.Resolved() && d.Resolved() && c.route.Leased? && d.route.Leased?
    && d.served == c.served && d.bounds == c.bounds && d.servedCanons == c.servedCanons
    && d.lines == Lines(c.lines.startLine + above, c.lines.endLine + above)
    && d.route.source.leases == c.route.source.leases
    && (forall id | id in c.route.source.positions ::
          id in d.route.source.positions && d.route.source.positions[id] == c.route.source.positions[id] + above)
    && (forall k | c.lines.startLine - 1 <= k < c.lines.endLine ::
          d.fileHashes[k + above] == c.fileHashes[k] && d.fileLines[k + above] == c.fileLines[k])
  }

  /** A range that was acceptable stays acceptable when lines are put in above it. */
  lemma {:induction false} BenignShift(c: Check, d: Check, above: nat)
    requires ShiftedDown(c, d, above) && c.Verified()
    ensures d.Verified()
  {
    hide Check.Verified, Sole;
    forall k: nat | k < c.Count() ensures LineMoved(c, d, k) {
      assert d.fileHashes[c.lines.startLine - 1 + k + above] == c.fileHashes[c.lines.startLine - 1 + k];
    }
    MovedAcceptance(c, d, above);
  }
}
