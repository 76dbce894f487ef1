/**
 What one session has been shown of one file: the served mirror, the positions shown since the last full
 read, and the anchors kept dead. A partial serve merges its rows, retires the anchors it displaced, and
 frees retired anchors whose slot has been shown again.
 */
module SessionViews {
  import opened Options
  import opened ServedRange

  datatype ServedEntry = ServedEntry(position: nat, hash: Option<string>)

  /** A dead anchor and the slot it died at; none when the slot is not known. */
  datatype RetiredEntry = RetiredEntry(hash: string, deathPos: Option<nat>)

  function SlotAt(served: Mirror, i: nat): Option<string> {
    if i < |served| then served[i] else None
  }

  // ---- merging served rows ----

  datatype MergeOptions = MergeOptions(truncateTo: Option<nat>, clearFrom: Option<nat>)

  /** The slot before the rows are written: kept, cut off, or cleared. */
  function Base(current: Mirror, options: MergeOptions, i: nat): Option<string> {
    if options.truncateTo.Some? && options.truncateTo.value <= i then None
    else if options.clearFrom.Some? && options.clearFrom.value <= i then None
    else SlotAt(current, i)
  }

  /** The slot after the first n rows were written over the base: the last row for it wins. */
  function Written(current: Mirror, rows: seq<ServedEntry>, options: MergeOptions, i: nat, n: nat): Option<string>
    requires n <= |rows|
  {
    if n == 0 then Base(current, options, i)
    else if rows[n - 1].position == i then rows[n - 1].hash
    else Written(current, rows, options, i, n - 1)
  }

  method MergeServedRows(current: Mirror, rows: seq<ServedEntry>, options: MergeOptions) returns (updated: Mirror)
    ensures forall i: nat :: SlotAt(updated, i) == Written(current, rows, options, i, |rows|)
    ensures updated != [] ==> updated[|updated| - 1].Some?
  {
    updated := current;
    if options.truncateTo.Some? && |updated| > options.truncateTo.value {
      updated := updated[..options.truncateTo.value];
    }
    if options.clearFrom.Some? {
      updated := seq(|updated|,
                     i requires 0 <= i < |updated| => if i < options.clearFrom.value then updated[i] else None);
    }
    for n := 0 to |rows|
      invariant forall i: nat :: SlotAt(updated, i) == Written(current, rows, options, i, n)
    {
      var entry := rows[n];
      ghost var before := updated;
      while |updated| <= entry.position
        invariant forall i: nat :: SlotAt(updated, i) == SlotAt(before, i)
        decreases entry.position - |updated|
      {
        updated := updated + [None];
      }
      updated := updated[entry.position := entry.hash];
    }
    ghost var full := updated;
    while updated != [] && updated[|updated| - 1].None?
      invariant forall i: nat :: SlotAt(updated, i) == SlotAt(full, i)
      decreases |updated|
    {
      updated := updated[..|updated| - 1];
    }
  }

  /** This slot was shown, and the serve neither cuts it off nor clears it. */
  predicate Survives(current: Mirror, options: MergeOptions, i: nat) {
    && i < |current|
    && (options.truncateTo.Some? ==> i < options.truncateTo.value)
    && (options.clearFrom.Some? ==> i < options.clearFrom.value)
  }

  /** Exact write: a slot no row names, and that is not cut off or cleared, keeps what it showed. */
  lemma {:induction false} UnnamedSlotStays(
    current: Mirror, rows: seq<ServedEntry>, options: MergeOptions, i: nat, n: nat)
    requires n <= |rows| && forall k | 0 <= k < n :: rows[k].position != i
    ensures Written(current, rows, options, i, n) == if Survives(current, options, i) then current[i] else None
    decreases n
  {
    if n > 0 {
      UnnamedSlotStays(current, rows, options, i, n - 1);
    }
  }

  /** A slot shows what the last row for it says. */
  lemma {:induction false} LastRowWins(
    current: Mirror, rows: seq<ServedEntry>, options: MergeOptions, k: nat, n: nat)
    requires k < n <= |rows| && forall m | k < m < n :: rows[m].position != rows[k].position
    ensures Written(current, rows, options, rows[k].position, n) == rows[k].hash
    decreases n
  {
    if k < n - 1 {
      LastRowWins(current, rows, options, k, n - 1);
    }
  }

  // ---- displaced anchors ----

  ghost predicate Shows(served: Mirror, hash: string) {
    Some(hash) in served
  }

  /** The anchors of the first n slots that the updated mirror no longer shows, each with its slot. */
  function Displaced(current: Mirror, updated: Mirror, n: nat): seq<RetiredEntry>
    requires n <= |current|
  {
    if n == 0 then []
    else
      Displaced(current, updated, n - 1)
      + if current[n - 1].Some? && current[n - 1] !in updated
        then [RetiredEntry(current[n - 1].value, Some(n - 1))] else []
  }

  lemma {:induction false} DisplacedExact(current: Mirror, updated: Mirror, n: nat, e: RetiredEntry)
    requires n <= |current|
    ensures e in Displaced(current, updated, n) <==>
              e.deathPos.Some? && e.deathPos.value < n && current[e.deathPos.value] == Some(e.hash)
                  && !Shows(updated, e.hash)
    decreases n
  {
    if n > 0 {
      DisplacedExact(current, updated, n - 1, e);
    }
  }

  method DisplacedEntries(current: Mirror, updated: Mirror) returns (entries: seq<RetiredEntry>)
    ensures entries == Displaced(current, updated, |current|)
  {
    var remaining := set i | 0 <= i < |updated| :: updated[i];
    entries := [];
    for i := 0 to |current|
      invariant entries == Displaced(current, updated, i)
    {
      if current[i].Some? && current[i] !in remaining {
        entries := entries + [RetiredEntry(current[i].value, Some(i))];
      }
    }
  }

  // ---- the sweep ----

  function Hashes(entries: seq<RetiredEntry>): set<string> {
    set k | 0 <= k < |entries| :: entries[k].hash
  }

  /** An entry stays as long as its slot has not been shown since the last full read; without a slot it stays. */
  predicate Stays(e: RetiredEntry, cards: set<nat>) {
    e.deathPos.None? || e.deathPos.value !in cards
  }

  function Swept(entries: seq<RetiredEntry>, cards: set<nat>, n: nat): seq<RetiredEntry>
    requires n <= |entries|
  {
    if n == 0 then [] else Swept(entries, cards, n - 1) + if Stays(entries[n - 1], cards) then [entries[n - 1]] else []
  }

  /** The entries whose anchor is not among the given ones. */
  function NotAmong(entries: seq<RetiredEntry>, hashes: set<string>, n: nat): seq<RetiredEntry>
    requires n <= |entries|
  {
    if n == 0 then []
    else NotAmong(entries, hashes, n - 1) + if entries[n - 1].hash in hashes then [] else [entries[n - 1]]
  }

  lemma {:induction false} SweptExact(entries: seq<RetiredEntry>, cards: set<nat>, n: nat, e: RetiredEntry)
    requires n <= |entries|
    ensures e in Swept(entries, cards, n) <==> e in entries[..n] && Stays(e, cards)
    decreases n
  {
    if n > 0 {
      SweptExact(entries, cards, n - 1, e);
      assert entries[..n] == entries[..n - 1] + [entries[n - 1]];
    }
  }

  lemma {:induction false} NotAmongExact(entries: seq<RetiredEntry>, hashes: set<string>, n: nat, e: RetiredEntry)
    requires n <= |entries|
    ensures e in NotAmong(entries, hashes, n) <==> e in entries[..n] && e.hash !in hashes
    decreases n
  {
    if n > 0 {
      NotAmongExact(entries, hashes, n - 1, e);
      assert entries[..n] == entries[..n - 1] + [entries[n - 1]];
    }
  }

  function PositionsOf(rows: seq<ServedEntry>): set<nat> {
    set k | 0 <= k < |rows| :: rows[k].position
  }

  /** The dead anchors after a partial serve: the old ones swept, then the displaced ones that were not dead yet. */
  function RetiredAfter(
    retired: seq<RetiredEntry>, cards: set<nat>, current: Mirror, updated: Mirror): seq<RetiredEntry>
  {
    Swept(retired, cards, |retired|)
        + NotAmong(Displaced(current, updated, |current|), Hashes(retired), |Displaced(current, updated, |current|)|)
  }

  /** Which entries are there after a partial serve, exactly. */
  lemma {:induction false} RetiredExact(
    retired: seq<RetiredEntry>, cards: set<nat>, current: Mirror, updated: Mirror, e: RetiredEntry)
    ensures e in RetiredAfter(retired, cards, current, updated) <==>
              || (e in retired && (e.deathPos.None? || e.deathPos.value !in cards))
              || (e.hash !in Hashes(retired) && !Shows(updated, e.hash)
                  && e.deathPos.Some? && e.deathPos.value < |current| && current[e.deathPos.value] == Some(e.hash))
  {
    var displaced := Displaced(current, updated, |current|);
    SweptExact(retired, cards, |retired|, e);
    NotAmongExact(displaced, Hashes(retired), |displaced|, e);
    DisplacedExact(current, updated, |current|, e);
    assert retired[..|retired|] == retired && displaced[..|displaced|] == displaced;
  }

  /**
   A displaced anchor is dead after the serve exactly when it was not dead before, or one of its old entries
   stays. If its only old entries are swept in the same serve, it is not kept dead.
   */
  lemma {:induction false} DisplacedIsDead(
    retired: seq<RetiredEntry>, cards: set<nat>, current: Mirror, updated: Mirror, hash: string)
    requires Shows(current, hash) && !Shows(updated, hash)
    ensures hash in Hashes(RetiredAfter(retired, cards, current, updated)) <==>
              hash !in Hashes(retired) || exists e :: e in retired && e.hash == hash && Stays(e, cards)
  {
    hide RetiredAfter;
    var after := RetiredAfter(retired, cards, current, updated);
    if hash !in Hashes(retired) {
      var i: nat :| i < |current| && current[i] == Some(hash);
      var e := RetiredEntry(hash, Some(i));
      RetiredExact(retired, cards, current, updated, e);
      InHashes(after, e);
    } else {
      forall e | e in after && e.hash == hash ensures e in retired && Stays(e, cards) {
        RetiredExact(retired, cards, current, updated, e);
      }
      if e: RetiredEntry :| e in retired && e.hash == hash && Stays(e, cards) {
        RetiredExact(retired, cards, current, updated, e);
        InHashes(after, e);
      }
      if hash in Hashes(after) {
        var k :| 0 <= k < |after| && after[k].hash == hash;
        assert after[k] in after;
      }
    }
  }

  lemma {:induction false} InHashes(entries: seq<RetiredEntry>, e: RetiredEntry)
    requires e in entries
    ensures e.hash in Hashes(entries)
  {
  }

  // ---- one serve as a step ----

  /** What a session holds about one file. */
  datatype View = View(served: Mirror, cards: set<nat>, retired: seq<RetiredEntry>)

  datatype ServeCall = ServeCall(rows: seq<ServedEntry>, lineCount: Option<nat>, full: Option<seq<string>>)

  predicate IsFullRead(rows: seq<ServedEntry>, full: Option<seq<string>>) {
    full.Some? && |rows| == |full.value| && forall i | 0 <= i < |rows| :: rows[i] == ServedEntry(i, Some(full.value[i]))
  }

  /** The mirror shows exactly the rows written over the base. */
  ghost predicate ShowsWritten(current: Mirror, rows: seq<ServedEntry>, options: MergeOptions, updated: Mirror) {
    && (forall i: nat :: SlotAt(updated, i) == Written(current, rows, options, i, |rows|))
    && (updated != [] ==> updated[|updated| - 1].Some?)
  }

  /** A serve without rows does nothing; a full read starts over; a partial one merges, sweeps and retires. */
  ghost predicate IsServe(before: View, call: ServeCall, after: View) {
    if call.rows == [] then after == before
    else
      && ShowsWritten(before.served, call.rows, MergeOptions(call.lineCount, None), after.served)
      && if IsFullRead(call.rows, call.full) then after.cards == {} && after.retired == []
         else IsPartial(before, call.rows, after)
  }

  ghost predicate IsPartial(before: View, rows: seq<ServedEntry>, after: View) {
    && after.cards == before.cards + PositionsOf(rows)
    && after.retired == RetiredAfter(before.retired, after.cards, before.served, after.served)
  }

  /**
   A full read: one row per line, in order, each with the line's anchor. Afterwards the mirror is the anchors
   of the file, and nothing is dead or counted as shown.
   */
  lemma {:induction false} FullReadStartsOver(before: View, call: ServeCall, after: View)
    requires call.full.Some? && call.full.value != [] && call.lineCount == Some(|call.full.value|)
    requires |call.rows| == |call.full.value|
    requires forall i: nat | i < |call.rows| :: call.rows[i] == ServedEntry(i, Some(call.full.value[i]))
    requires IsServe(before, call, after)
    ensures |after.served| == |call.full.value| && after.cards == {} && after.retired == []
    ensures forall i: nat | i < |after.served| :: after.served[i] == Some(call.full.value[i])
  {
    hide Written, Survives;
    var hashes, options := call.full.value, MergeOptions(call.lineCount, None);
    forall i: nat | i < |hashes| ensures SlotAt(after.served, i) == Some(hashes[i]) {
      LastRowWins(before.served, call.rows, options, i, |call.rows|);
    }
    forall i: nat | i >= |hashes| ensures SlotAt(after.served, i) == None {
      UnnamedSlotStays(before.served, call.rows, options, i, |call.rows|);
      CutOff(before.served, options, i);
    }
    assert SlotAt(after.served, |hashes| - 1).Some?;
    assert |after.served| > 0 ==> SlotAt(after.served, |after.served| - 1).Some?;
  }

  lemma {:induction false} CutOff(current: Mirror, options: MergeOptions, i: nat)
    requires options.truncateTo.Some? && options.truncateTo.value <= i
    ensures !Survives(current, options, i)
  {
  }

  /** One row that is missing, out of place, or without its line's anchor makes it a partial serve. */
  lemma {:induction false} OtherReadsArePartial(before: View, call: ServeCall, after: View)
    requires call.rows != [] && IsServe(before, call, after)
    requires
      || call.full.None? || |call.rows| != |call.full.value|
      || exists i: nat :: i < |call.rows| && call.rows[i] != ServedEntry(i, Some(call.full.value[i]))
    ensures after.cards == before.cards + PositionsOf(call.rows)
    ensures after.retired == RetiredAfter(before.retired, after.cards, before.served, after.served)
  {
    hide RetiredAfter, PositionsOf, ShowsWritten;
  }

  /** The views a session goes through from the empty one. */
  ghost predicate IsRun(views: seq<View>, calls: seq<ServeCall>) {
    && |views| == |calls| + 1 && views[0] == View([], {}, [])
    && forall k | 0 <= k < |calls| :: IsServe(views[k], calls[k], views[k + 1])
  }

  lemma {:induction false} WrittenOnce(current: Mirror, entry: ServedEntry, options: MergeOptions)
    ensures forall i: nat :: Written(current, [entry], options, i, 1)
                             == if entry.position == i then entry.hash else Base(current, options, i)
  {
  }

  lemma {:induction false} WrittenTwice(current: Mirror, e0: ServedEntry, e1: ServedEntry, options: MergeOptions)
    ensures forall i: nat :: Written(current, [e0, e1], options, i, 2)
                             == if e1.position == i then e1.hash
                                else if e0.position == i then e0.hash else Base(current, options, i)
  {
    forall i: nat ensures Written(current, [e0, e1], options, i, 1)
                          == if e0.position == i then e0.hash else Base(current, options, i)
    {
      assert Written(current, [e0, e1], options, i, 0) == Base(current, options, i);
    }
  }

  lemma {:induction false} PositionsOfOne(e: ServedEntry)
    ensures PositionsOf([e]) == {e.position}
  {
    assert [e][0] == e;
  }

  lemma {:induction false} PositionsOfTwo(e0: ServedEntry, e1: ServedEntry)
    ensures PositionsOf([e0, e1]) == {e0.position, e1.position}
  {
    assert [e0, e1][0] == e0 && [e0, e1][1] == e1;
  }

  /** A full read of two lines. */
  lemma {:induction false} FirstServe(h0: string, h1: string)
    ensures IsServe(View([], {}, []),
                    ServeCall([ServedEntry(0, Some(h0)), ServedEntry(1, Some(h1))], None, Some([h0, h1])),
                    View([Some(h0), Some(h1)], {}, []))
  {
    WrittenTwice([], ServedEntry(0, Some(h0)), ServedEntry(1, Some(h1)), MergeOptions(None, None));
  }

  lemma {:induction false} SecondRetired(h0: string, h1: string)
    requires h0 != h1
    ensures RetiredAfter([], {0}, [Some(h0), Some(h1)], [Some(h0)]) == [RetiredEntry(h1, Some(1))]
  {
    var current, updated := [Some(h0), Some(h1)], [Some(h0)];
    assert updated[0] == Some(h0);
    assert Displaced(current, updated, 1) == [];
    assert Displaced(current, updated, 2) == [RetiredEntry(h1, Some(1))];
    assert Hashes([]) == {};
    assert NotAmong([RetiredEntry(h1, Some(1))], {}, 1) == [RetiredEntry(h1, Some(1))];
  }

  /** The second line is cut off: its anchor is dead at slot 1. */
  lemma {:induction false} SecondServe(h0: string, h1: string)
    requires h0 != h1
    ensures IsServe(View([Some(h0), Some(h1)], {}, []), ServeCall([ServedEntry(0, Some(h0))], Some(1), None),
                    View([Some(h0)], {0}, [RetiredEntry(h1, Some(1))]))
  {
    hide RetiredAfter, PositionsOf;
    WrittenOnce([Some(h0), Some(h1)], ServedEntry(0, Some(h0)), MergeOptions(Some(1), None));
    PositionsOfOne(ServedEntry(0, Some(h0)));
    SecondRetired(h0, h1);
  }

  lemma {:induction false} ThirdRetired(h0: string, h1: string)
    requires h0 != h1
    ensures RetiredAfter([RetiredEntry(h1, Some(1))], {0}, [Some(h0)], [Some(h1)])
            == [RetiredEntry(h1, Some(1)), RetiredEntry(h0, Some(0))]
  {
    var current, updated, retired := [Some(h0)], [Some(h1)], [RetiredEntry(h1, Some(1))];
    assert Displaced(current, updated, 1) == [RetiredEntry(h0, Some(0))];
    assert Hashes(retired) == {h1} by { assert retired[0].hash == h1; }
    assert NotAmong([RetiredEntry(h0, Some(0))], {h1}, 1) == [RetiredEntry(h0, Some(0))];
    assert Swept(retired, {0}, 0) == [] && Swept(retired, {0}, 1) == retired;
  }

  /** The dead anchor is shown again, at slot 0; the anchor it displaces is dead there. */
  lemma {:induction false} ThirdServe(h0: string, h1: string)
    requires h0 != h1
    ensures IsServe(View([Some(h0)], {0}, [RetiredEntry(h1, Some(1))]),
                    ServeCall([ServedEntry(0, Some(h1))], Some(1), None),
                    View([Some(h1)], {0}, [RetiredEntry(h1, Some(1)), RetiredEntry(h0, Some(0))]))
  {
    hide RetiredAfter, PositionsOf;
    WrittenOnce([Some(h0)], ServedEntry(0, Some(h1)), MergeOptions(Some(1), None));
    PositionsOfOne(ServedEntry(0, Some(h1)));
    ThirdRetired(h0, h1);
  }

  lemma {:induction false} FourthRetired(h0: string, h1: string, h2: string, h3: string)
    requires h1 != h2 && h1 != h3
    ensures RetiredAfter([RetiredEntry(h1, Some(1)), RetiredEntry(h0, Some(0))], {0, 1}, [Some(h1)],
                         [Some(h2), Some(h3)]) == []
  {
    var current, updated := [Some(h1)], [Some(h2), Some(h3)];
    var retired := [RetiredEntry(h1, Some(1)), RetiredEntry(h0, Some(0))];
    assert Displaced(current, updated, 0) == [] && Displaced(current, updated, 1) == [RetiredEntry(h1, Some(0))];
    assert h1 in Hashes(retired) by { assert retired[0].hash == h1; }
    assert NotAmong([RetiredEntry(h1, Some(0))], Hashes(retired), 1) == [];
    assert Swept(retired, {0, 1}, 0) == [] && Swept(retired, {0, 1}, 1) == [] && Swept(retired, {0, 1}, 2) == [];
  }

  /** Both slots are shown again with other anchors: the anchor is displaced, and its old entry is swept. */
  lemma {:induction false} FourthServe(h0: string, h1: string, h2: string, h3: string)
    requires h1 != h2 && h1 != h3
    ensures IsServe(View([Some(h1)], {0}, [RetiredEntry(h1, Some(1)), RetiredEntry(h0, Some(0))]),
                    ServeCall([ServedEntry(0, Some(h2)), ServedEntry(1, Some(h3))], Some(2), None),
                    View([Some(h2), Some(h3)], {0, 1}, []))
  {
    hide RetiredAfter, PositionsOf;
    WrittenTwice([Some(h1)], ServedEntry(0, Some(h2)), ServedEntry(1, Some(h3)), MergeOptions(Some(2), None));
    PositionsOfTwo(ServedEntry(0, Some(h2)), ServedEntry(1, Some(h3)));
    FourthRetired(h0, h1, h2, h3);
  }

  /**
   A session in which a displaced anchor is not kept dead: it is shown at slot 1, cut off, shown again at slot 0,
   and then displaced by a serve that shows slot 1 too.
   */
  lemma {:induction false} DisplacedAndFreed() returns (views: seq<View>, calls: seq<ServeCall>)
    ensures IsRun(views, calls) && |calls| == 4
    ensures Shows(views[3].served, "aB3") && !Shows(views[4].served, "aB3")
    ensures "aB3" !in Hashes(views[4].retired)
  {
    hide IsServe;
    var h0, h1, h2, h3 := "x1y", "aB3", "q7q", "r8r";
    calls := [
      ServeCall([ServedEntry(0, Some(h0)), ServedEntry(1, Some(h1))], None, Some([h0, h1])),
      ServeCall([ServedEntry(0, Some(h0))], Some(1), None),
      ServeCall([ServedEntry(0, Some(h1))], Some(1), None),
      ServeCall([ServedEntry(0, Some(h2)), ServedEntry(1, Some(h3))], Some(2), None)];
    views := [
      View([], {}, []),
      View([Some(h0), Some(h1)], {}, []),
      View([Some(h0)], {0}, [RetiredEntry(h1, Some(1))]),
      View([Some(h1)], {0}, [RetiredEntry(h1, Some(1)), RetiredEntry(h0, Some(0))]),
      View([Some(h2), Some(h3)], {0, 1}, [])];
    FirstServe(h0, h1);
    SecondServe(h0, h1);
    ThirdServe(h0, h1);
    FourthServe(h0, h1, h2, h3);
    assert views[3].served[0] == Some(h1);
    assert h1 != h2 && h1 != h3;
  }

  class SessionView {
    var served: Mirror
    var cards: set<nat>
    var retired: seq<RetiredEntry>

    ghost function State(): View
      reads this
    {
      View(served, cards, retired)
    }

    constructor ()
      ensures served == [] && cards == {} && retired == []
    {
      served, cards, retired := [], {}, [];
    }

    method SweepAndRetire(current: Mirror, updated: Mirror, rows: seq<ServedEntry>)
      modifies this`cards, this`retired
      ensures cards == old(cards) + PositionsOf(rows)
      ensures retired == RetiredAfter(old(retired), cards, current, updated)
    {
      for k := 0 to |rows|
        invariant cards == old(cards) + PositionsOf(rows[..k]) && retired == old(retired)
      {
        assert rows[..k + 1] == rows[..k] + [rows[k]];
        PositionNext(rows, k);
        if rows[k].position !in cards { cards := cards + {rows[k].position}; }
      }
      assert rows[..|rows|] == rows;
      var displaced := DisplacedEntries(current, updated);
      var existingHashes := Hashes(retired);
      var filteredDisplaced := NotAmong(displaced, existingHashes, |displaced|);
      retired := Swept(retired, cards, |retired|) + filteredDisplaced;
    }

    /** One serve: a full read starts over, a partial one sweeps and retires. */
    method RecordServed(rows: seq<ServedEntry>, lineCount: Option<nat>, full: Option<seq<string>>)
      modifies this
      ensures IsServe(old(State()), ServeCall(rows, lineCount, full), State())
    {
      if |rows| == 0 { return; }
      var current := served;
      var updated := MergeServedRows(current, rows, MergeOptions(lineCount, None));
      served := updated;
      if IsFullRead(rows, full) {
        retired := [];
        cards := {};
      } else {
        SweepAndRetire(current, updated, rows);
      }
    }

    /** A serve that knows the file only up to what it shows: later slots are cleared. */
    method RecordServedTruncated(rows: seq<ServedEntry>, lineCount: nat, clearFrom: nat)
      modifies this
      ensures rows == [] ==> State() == old(State())
      ensures rows != [] ==>
                && ShowsWritten(old(served), rows, MergeOptions(Some(lineCount), Some(clearFrom)), served)
                && IsPartial(old(State()), rows, State())
    {
      if |rows| == 0 { return; }
      var current := served;
      var updated := MergeServedRows(current, rows, MergeOptions(Some(lineCount), Some(clearFrom)));
      served := updated;
      SweepAndRetire(current, updated, rows);
    }
  }

  lemma {:induction false} PositionNext(rows: seq<ServedEntry>, k: nat)
    requires k < |rows|
    ensures PositionsOf(rows[..k + 1]) == PositionsOf(rows[..k]) + {rows[k].position}
  {
    assert forall j | 0 <= j < k :: rows[..k][j] == rows[..k + 1][j];
    assert rows[..k + 1][k] == rows[k];
  }

  // ---- runs of partial serves ----

  /** A partial serve as a step: the positions it showed, and the mirror before and after it. */
  datatype Serve = Serve(positions: set<nat>, current: Mirror, updated: Mirror)

  function CardsAfter(cards: set<nat>, serves: seq<Serve>, n: nat): set<nat>
    requires n <= |serves|
  {
    if n == 0 then cards else CardsAfter(cards, serves, n - 1) + serves[n - 1].positions
  }

  function RetiredOver(retired: seq<RetiredEntry>, cards: set<nat>, serves: seq<Serve>, n: nat): seq<RetiredEntry>
    requires n <= |serves|
  {
    if n == 0 then retired
    else
      RetiredAfter(RetiredOver(retired, cards, serves, n - 1), CardsAfter(cards, serves, n), serves[n - 1].current,
                   serves[n - 1].updated)
  }

  lemma {:induction false} CardsGrow(cards: set<nat>, serves: seq<Serve>, j: nat, n: nat)
    requires j <= n <= |serves|
    ensures CardsAfter(cards, serves, j) <= CardsAfter(cards, serves, n)
    decreases n
  {
    if j < n {
      CardsGrow(cards, serves, j, n - 1);
    }
  }

  /** An entry without a slot, or whose slot was not shown in the whole run, is still there. */
  lemma {:induction false} UnseenStays(
    retired: seq<RetiredEntry>, cards: set<nat>, serves: seq<Serve>, n: nat, e: RetiredEntry)
    requires n <= |serves| && e in retired && Stays(e, CardsAfter(cards, serves, n))
    ensures e in RetiredOver(retired, cards, serves, n)
    decreases n
  {
    hide RetiredAfter;
    if n > 0 {
      CardsGrow(cards, serves, n - 1, n);
      UnseenStays(retired, cards, serves, n - 1, e);
      RetiredExact(RetiredOver(retired, cards, serves, n - 1), CardsAfter(cards, serves, n), serves[n - 1].current,
                   serves[n - 1].updated, e);
    }
  }

  /** What is left whose slot was shown during the run was displaced by the last serve, and by no earlier one. */
  lemma {:induction false} SeenIsDrained(
    retired: seq<RetiredEntry>, cards: set<nat>, serves: seq<Serve>, n: nat, e: RetiredEntry)
    requires 0 < n <= |serves| && e in RetiredOver(retired, cards, serves, n)
    requires !Stays(e, CardsAfter(cards, serves, n))
    ensures e.deathPos.value < |serves[n - 1].current| && serves[n - 1].current[e.deathPos.value] == Some(e.hash)
    ensures !Shows(serves[n - 1].updated, e.hash)
  {
    hide RetiredAfter;
    RetiredExact(RetiredOver(retired, cards, serves, n - 1), CardsAfter(cards, serves, n), serves[n - 1].current,
                 serves[n - 1].updated, e);
  }

  /** Every anchor shown before is still shown. */
  ghost predicate DisplacesNothing(s: Serve) {
    forall i | 0 <= i < |s.current| && s.current[i].Some? :: Shows(s.updated, s.current[i].value)
  }

  /**
   Paged reads that together show the first `lineCount` lines, the last of which displaces nothing, leave
   only dead anchors without a slot or from beyond those lines.
   */
  lemma {:induction false} PagedReadsDrain(
    retired: seq<RetiredEntry>, cards: set<nat>, serves: seq<Serve>, lineCount: nat, e: RetiredEntry)
    requires serves != [] && forall i: nat | i < lineCount :: i in CardsAfter(cards, serves, |serves|)
    requires DisplacesNothing(serves[|serves| - 1])
    requires e in RetiredOver(retired, cards, serves, |serves|)
    ensures e.deathPos.None? || e.deathPos.value >= lineCount
  {
    hide RetiredOver;
    if e.deathPos.Some? && e.deathPos.value < lineCount {
      SeenIsDrained(retired, cards, serves, |serves|, e);
      assert false;
    }
  }
}
