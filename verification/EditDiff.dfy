/**
 The diff shown after an edit. Its rows hide parts of both files, and still every shown row carries the
 anchor of its true line: the rows, read in order, account for both files without a gap.
 */
module EditDiff {
  import opened Options

  const DIFF_REMOVED_CAP := 6
  const DIFF_REMOVED_EDGE := 2

  datatype Kind = Context | Added | Removed

  /** A run of lines of the line diff: in both files, in the new one only, or in the old one only. */
  datatype Part = Part(kind: Kind, lines: seq<string>)

  /** A row of the shown diff. The leading `...` shows no count; the model keeps it. */
  datatype Row =
    | Same(hash: Option<string>, line: string)
    | Plus(hash: Option<string>, line: string)
    | Minus(hash: Option<string>, line: string)
    | Leading(count: nat)
    | Untouched(count: nat)
    | Deleted(count: nat)

  datatype ServedRow = ServedRow(position: nat, hash: string)

  /** Both files, with their anchors as far as known. */
  datatype Files = Files(newLines: seq<string>, oldLines: seq<string>, newHashes: seq<string>,
                         oldHashes: Option<seq<string>>)

  function NewHash(f: Files, n: nat): Option<string> {
    if n < |f.newHashes| then Some(f.newHashes[n]) else None
  }

  function OldHash(f: Files, o: nat): Option<string> {
    if f.oldHashes.Some? && o < |f.oldHashes.value| then Some(f.oldHashes.value[o]) else None
  }

  // ---- the parts as two files ----

  function NewOf(parts: seq<Part>, n: nat): seq<string>
    requires n <= |parts|
  {
    if n == 0 then [] else NewOf(parts, n - 1) + if parts[n - 1].kind.Removed? then [] else parts[n - 1].lines
  }

  function OldOf(parts: seq<Part>, n: nat): seq<string>
    requires n <= |parts|
  {
    if n == 0 then [] else OldOf(parts, n - 1) + if parts[n - 1].kind.Added? then [] else parts[n - 1].lines
  }

  /** The lines the diff added. */
  function AddedOf(parts: seq<Part>, n: nat): seq<string>
    requires n <= |parts|
  {
    if n == 0 then [] else AddedOf(parts, n - 1) + if parts[n - 1].kind.Added? then parts[n - 1].lines else []
  }

  /** A line diff: between two unchanged runs there is a change. */
  ghost predicate IsDiff(parts: seq<Part>, f: Files) {
    && f.newLines == NewOf(parts, |parts|) && f.oldLines == OldOf(parts, |parts|)
    && forall i | 0 <= i < |parts| - 1 && parts[i].kind.Context? :: !parts[i + 1].kind.Context?
  }

  // ---- what the rows account for ----

  function NewSpan(row: Row): nat {
    match row
    case Same(_, _) => 1
    case Plus(_, _) => 1
    case Minus(_, _) => 0
    case Leading(count) => count
    case Untouched(count) => count
    case Deleted(_) => 0
  }

  function OldSpan(row: Row): nat {
    match row
    case Same(_, _) => 1
    case Plus(_, _) => 0
    case Minus(_, _) => 1
    case Leading(count) => count
    case Untouched(count) => count
    case Deleted(count) => count
  }

  /** The new line that the k-th row stands at, counted from 0. */
  function NewPos(rows: seq<Row>, k: nat): nat
    requires k <= |rows|
  {
    if k == 0 then 0 else NewPos(rows, k - 1) + NewSpan(rows[k - 1])
  }

  function OldPos(rows: seq<Row>, k: nat): nat
    requires k <= |rows|
  {
    if k == 0 then 0 else OldPos(rows, k - 1) + OldSpan(rows[k - 1])
  }

  ghost predicate SameLines(f: Files, n: nat, o: nat, count: nat) {
    n + count <= |f.newLines| && o + count <= |f.oldLines| && f.newLines[n..n + count] == f.oldLines[o..o + count]
  }

  /** The row at these positions says what is there. */
  ghost predicate Tells(f: Files, row: Row, n: nat, o: nat) {
    match row
    case Same(hash, line) => SameLines(f, n, o, 1) && f.newLines[n] == line && hash == NewHash(f, n)
    case Plus(hash, line) => n < |f.newLines| && f.newLines[n] == line && hash == NewHash(f, n)
    case Minus(hash, line) => o < |f.oldLines| && f.oldLines[o] == line && hash == OldHash(f, o)
    case Leading(count) => SameLines(f, n, o, count)
    case Untouched(count) => SameLines(f, n, o, count)
    case Deleted(count) => o + count <= |f.oldLines|
  }

  ghost predicate AllTell(f: Files, rows: seq<Row>) {
    forall k | 0 <= k < |rows| :: Tells(f, rows[k], NewPos(rows, k), OldPos(rows, k))
  }

  function ServedBy(row: Row, n: nat): seq<ServedRow> {
    if (row.Same? || row.Plus?) && row.hash.Some? then [ServedRow(n, row.hash.value)] else []
  }

  /** The served rows of the shown rows: every row with a new line and an anchor, at its position. */
  function ServedOf(rows: seq<Row>, k: nat): seq<ServedRow>
    requires k <= |rows|
  {
    if k == 0 then [] else ServedOf(rows, k - 1) + ServedBy(rows[k - 1], NewPos(rows, k - 1))
  }

  function PlusOf(rows: seq<Row>, k: nat): seq<string>
    requires k <= |rows|
  {
    if k == 0 then [] else PlusOf(rows, k - 1) + if rows[k - 1].Plus? then [rows[k - 1].line] else []
  }

  // ---- the state of the rendering ----

  /** The rows so far, with the cursors where they end. */
  ghost predicate Shows(f: Files, rows: seq<Row>, served: seq<ServedRow>, added: seq<string>, n: nat, o: nat) {
    && AllTell(f, rows)
    && n == NewPos(rows, |rows|) && o == OldPos(rows, |rows|)
    && served == ServedOf(rows, |rows|)
    && added == PlusOf(rows, |rows|)
  }

  lemma {:induction false} PrefixStays(rows: seq<Row>, row: Row, k: nat)
    requires k <= |rows|
    ensures NewPos(rows + [row], k) == NewPos(rows, k) && OldPos(rows + [row], k) == OldPos(rows, k)
    ensures ServedOf(rows + [row], k) == ServedOf(rows, k) && PlusOf(rows + [row], k) == PlusOf(rows, k)
    decreases k
  {
    if k > 0 {
      PrefixStays(rows, row, k - 1);
    }
  }

  lemma {:induction false} TellsMore(f: Files, rows: seq<Row>, row: Row)
    requires AllTell(f, rows) && Tells(f, row, NewPos(rows, |rows|), OldPos(rows, |rows|))
    ensures AllTell(f, rows + [row])
  {
    hide Tells, NewPos, OldPos, ServedOf, PlusOf;
    var more := rows + [row];
    forall k: nat | k < |more| ensures Tells(f, more[k], NewPos(more, k), OldPos(more, k)) {
      PrefixStays(rows, row, k);
    }
  }

  /** One more row that says what is there. */
  lemma {:induction false} OneMoreRow(
    f: Files, rows: seq<Row>, served: seq<ServedRow>, added: seq<string>, n: nat, o: nat, row: Row)
    requires Shows(f, rows, served, added, n, o) && Tells(f, row, n, o)
    ensures Shows(f, rows + [row], served + ServedBy(row, n), added + (if row.Plus? then [row.line] else []),
                  n + NewSpan(row), o + OldSpan(row))
  {
    hide Tells, AllTell, NewSpan, OldSpan, ServedBy;
    TellsMore(f, rows, row);
    PrefixStays(rows, row, |rows|);
  }

  /** Positions below `end`, strictly increasing, each with the anchor of its line. */
  ghost predicate ServedWell(f: Files, served: seq<ServedRow>, end: nat) {
    && (forall a, b | 0 <= a < b < |served| :: served[a].position < served[b].position)
    && (forall a | 0 <= a < |served| ::
          served[a].position < end && NewHash(f, served[a].position) == Some(served[a].hash))
  }

  lemma {:induction false} ServedMore(f: Files, served: seq<ServedRow>, row: Row, n: nat, o: nat)
    requires ServedWell(f, served, n) && Tells(f, row, n, o)
    ensures ServedWell(f, served + ServedBy(row, n), n + NewSpan(row))
  {
    hide NewHash;
    assert served + [] == served;
    match row
    case Same(_, _) =>
    case Plus(_, _) =>
    case _ =>
  }

  /** Served rows come in strictly increasing position, and each is a shown row at its own line. */
  lemma {:induction false} ServedAscend(f: Files, rows: seq<Row>, k: nat)
    requires k <= |rows| && AllTell(f, rows)
    ensures ServedWell(f, ServedOf(rows, k), NewPos(rows, k))
    decreases k
  {
    hide Tells, ServedBy, NewSpan, ServedWell, AllTell, OldPos, OldSpan;
    if k > 0 {
      ServedAscend(f, rows, k - 1);
      TellsAt(f, rows, k - 1);
      ServedMore(f, ServedOf(rows, k - 1), rows[k - 1], NewPos(rows, k - 1), OldPos(rows, k - 1));
    } else {
      NothingServed(f);
    }
  }

  lemma {:induction false} TellsAt(f: Files, rows: seq<Row>, k: nat)
    requires k < |rows| && AllTell(f, rows)
    ensures Tells(f, rows[k], NewPos(rows, k), OldPos(rows, k))
  {
    hide Tells, NewPos, OldPos;
  }

  lemma {:induction false} NothingServed(f: Files)
    ensures ServedWell(f, [], 0)
  {
  }

  // ---- where a part stands ----

  lemma {:induction false} PartsBefore(parts: seq<Part>, i: nat, n: nat)
    requires i <= n <= |parts|
    ensures NewOf(parts, i) <= NewOf(parts, n) && OldOf(parts, i) <= OldOf(parts, n)
    decreases n
  {
    if i < n {
      PartsBefore(parts, i, n - 1);
    }
  }

  /** The lines of part i stand in the files right after the parts before it. */
  lemma {:induction false} PartStands(parts: seq<Part>, f: Files, i: nat)
    requires IsDiff(parts, f) && i < |parts|
    ensures
      var n, o, count := |NewOf(parts, i)|, |OldOf(parts, i)|, |parts[i].lines|;
      && (!parts[i].kind.Removed? ==> n + count <= |f.newLines| && f.newLines[n..n + count] == parts[i].lines
                                      && |NewOf(parts, i + 1)| == n + count)
      && (!parts[i].kind.Added? ==> o + count <= |f.oldLines| && f.oldLines[o..o + count] == parts[i].lines
                                    && |OldOf(parts, i + 1)| == o + count)
      && (parts[i].kind.Removed? ==> |NewOf(parts, i + 1)| == n)
      && (parts[i].kind.Added? ==> |OldOf(parts, i + 1)| == o)
  {
    PartsBefore(parts, i + 1, |parts|);
    Slices(NewOf(parts, i), parts[i].lines, f.newLines);
    Slices(OldOf(parts, i), parts[i].lines, f.oldLines);
  }

  lemma {:induction false} Slices(a: seq<string>, b: seq<string>, all: seq<string>)
    ensures a + b <= all ==> |a| + |b| <= |all| && all[|a|..|a| + |b|] == b
  {
    if a + b <= all {
      assert all[..|a + b|] == a + b;
    }
  }

  // ---- which rows are shown ----

  /** The first k lines of an unchanged run that starts at new line n. */
  function SameRows(f: Files, n: nat, lines: seq<string>, k: nat): seq<Row>
    requires k <= |lines|
  {
    if k == 0 then [] else SameRows(f, n, lines, k - 1) + [Same(NewHash(f, n + k - 1), lines[k - 1])]
  }

  function PlusRows(f: Files, n: nat, lines: seq<string>, k: nat): seq<Row>
    requires k <= |lines|
  {
    if k == 0 then [] else PlusRows(f, n, lines, k - 1) + [Plus(NewHash(f, n + k - 1), lines[k - 1])]
  }

  function MinusRows(f: Files, o: nat, lines: seq<string>, k: nat): seq<Row>
    requires k <= |lines|
  {
    if k == 0 then [] else MinusRows(f, o, lines, k - 1) + [Minus(OldHash(f, o + k - 1), lines[k - 1])]
  }

  /** Removed lines in full, or the first and last few around the count of the others. */
  function RemovedRows(f: Files, o: nat, lines: seq<string>): seq<Row> {
    var end, edge := |lines|, DIFF_REMOVED_EDGE;
    if end <= DIFF_REMOVED_CAP then MinusRows(f, o, lines, end)
    else MinusRows(f, o, lines[..edge], edge) + [Deleted(end - 2 * edge)]
         + MinusRows(f, o + end - edge, lines[end - edge..], edge)
  }

  /** The lines of an unchanged run from..upto. */
  function PartOfRun(f: Files, n: nat, lines: seq<string>, from: nat, upto: nat): seq<Row>
    requires from <= upto <= |lines|
  {
    SameRows(f, n + from, lines[from..upto], upto - from)
  }

  /** What is shown of an unchanged run, given whether a change stands before it and after it. */
  function ContextRows(f: Files, n: nat, lines: seq<string>, before: bool, after: bool, contextLines: nat): seq<Row> {
    var count := |lines|;
    if !before && !after then []
    else if !before then
      if count > contextLines
      then [Leading(count - contextLines)] + PartOfRun(f, n, lines, count - contextLines, count)
      else PartOfRun(f, n, lines, 0, count)
    else if after && count > 2 * contextLines then
      PartOfRun(f, n, lines, 0, contextLines) + [Untouched(count - 2 * contextLines)]
      + PartOfRun(f, n, lines, count - contextLines, count)
    else PartOfRun(f, n, lines, 0, if !after && count > contextLines then contextLines else count)
  }

  predicate ChangedBefore(parts: seq<Part>, i: nat)
    requires i < |parts|
  {
    i > 0 && !parts[i - 1].kind.Context?
  }

  predicate ChangedAfter(parts: seq<Part>, i: nat)
    requires i < |parts|
  {
    i < |parts| - 1 && !parts[i + 1].kind.Context?
  }

  function PartRows(parts: seq<Part>, f: Files, i: nat, contextLines: nat): seq<Row>
    requires i < |parts|
  {
    var part, n, o := parts[i], |NewOf(parts, i)|, |OldOf(parts, i)|;
    match part.kind
    case Added => PlusRows(f, n, part.lines, |part.lines|)
    case Removed => RemovedRows(f, o, part.lines)
    case Context => ContextRows(f, n, part.lines, ChangedBefore(parts, i), ChangedAfter(parts, i), contextLines)
  }

  /** The rows of the first i parts. */
  function RowsOf(parts: seq<Part>, f: Files, i: nat, contextLines: nat): seq<Row>
    requires i <= |parts|
  {
    if i == 0 then [] else RowsOf(parts, f, i - 1, contextLines) + PartRows(parts, f, i - 1, contextLines)
  }

  lemma {:induction false} NextRows(parts: seq<Part>, f: Files, i: nat, contextLines: nat)
    requires i < |parts|
    ensures
      var part, n, o := parts[i], |NewOf(parts, i)|, |OldOf(parts, i)|;
      RowsOf(parts, f, i + 1, contextLines) == RowsOf(parts, f, i, contextLines)
        + match part.kind
          case Added => PlusRows(f, n, part.lines, |part.lines|)
          case Removed => RemovedRows(f, o, part.lines)
          case Context => ContextRows(f, n, part.lines, ChangedBefore(parts, i), ChangedAfter(parts, i), contextLines)
  {
    hide NewOf, OldOf, PlusRows, RemovedRows, ContextRows, ChangedBefore, ChangedAfter;
  }

  /** A run without a change next to it is the whole file: nothing is shown. */
  lemma {:induction false} LoneRun(f: Files, n: nat, lines: seq<string>, contextLines: nat)
    ensures ContextRows(f, n, lines, false, false, contextLines) == []
  {
  }

  // ---- which lines that is ----

  /** The line at this new position is shown as unchanged. */
  ghost predicate ShowsLine(rows: seq<Row>, n: nat) {
    exists j: nat :: j < |rows| && rows[j].Same? && NewPos(rows, j) == n
  }

  /** Line k of run i lies within the context of a change before the run or after it. */
  predicate Near(parts: seq<Part>, i: nat, k: nat, contextLines: nat)
    requires i < |parts| && k < |parts[i].lines|
  {
    (i > 0 && k < contextLines) || (i + 1 < |parts| && |parts[i].lines| - k <= contextLines)
  }

  lemma {:induction false} PosOfConcat(a: seq<Row>, b: seq<Row>, k: nat)
    requires k <= |a + b|
    ensures NewPos(a + b, k) == if k <= |a| then NewPos(a, k) else NewPos(a, |a|) + NewPos(b, k - |a|)
    decreases k
  {
    hide NewSpan;
    if k > 0 {
      PosOfConcat(a, b, k - 1);
    }
  }

  lemma {:induction false} PosGrows(rows: seq<Row>, j: nat, k: nat)
    requires j <= k <= |rows|
    ensures NewPos(rows, j) <= NewPos(rows, k)
    ensures j < k && rows[j].Same? ==> NewPos(rows, j) < NewPos(rows, k)
    decreases k
  {
    if j < k {
      PosGrows(rows, j, k - 1);
    }
  }

  /** What two row lists one after the other show. */
  lemma {:induction false} ShowsOfConcat(a: seq<Row>, b: seq<Row>, n: nat)
    ensures ShowsLine(a + b, n) <==> ShowsLine(a, n) || (n >= NewPos(a, |a|) && ShowsLine(b, n - NewPos(a, |a|)))
    ensures ShowsLine(a, n) ==> n < NewPos(a, |a|)
    ensures NewPos(a + b, |a + b|) == NewPos(a, |a|) + NewPos(b, |b|)
  {
    hide NewPos;
    var all := a + b;
    PosOfConcat(a, b, |all|);
    assert NewPos(b, 0) == 0 by { NoRowsBefore(b); }
    forall j: nat | j < |all|
      ensures NewPos(all, j) == if j < |a| then NewPos(a, j) else NewPos(a, |a|) + NewPos(b, j - |a|)
    {
      PosOfConcat(a, b, j);
    }
    forall j: nat | j < |a| && a[j].Same? ensures NewPos(a, j) < NewPos(a, |a|) {
      PosGrows(a, j, |a|);
    }
    if ShowsLine(a, n) {
      var j: nat :| j < |a| && a[j].Same? && NewPos(a, j) == n;
      assert all[j] == a[j];
    }
    if n >= NewPos(a, |a|) && ShowsLine(b, n - NewPos(a, |a|)) {
      var j: nat :| j < |b| && b[j].Same? && NewPos(b, j) == n - NewPos(a, |a|);
      assert all[|a| + j] == b[j];
    }
    if ShowsLine(all, n) {
      var j: nat :| j < |all| && all[j].Same? && NewPos(all, j) == n;
      assert all[j] == if j < |a| then a[j] else b[j - |a|];
    }
  }

  lemma {:induction false} NoRowsBefore(rows: seq<Row>)
    ensures NewPos(rows, 0) == 0
  {
  }

  lemma {:induction false} SameRowsShow(f: Files, n: nat, lines: seq<string>, k: nat, p: nat)
    requires k <= |lines|
    ensures ShowsLine(SameRows(f, n, lines, k), p) <==> p < k
    ensures NewPos(SameRows(f, n, lines, k), |SameRows(f, n, lines, k)|) == k
    decreases k
  {
    if k > 0 {
      var row := Same(NewHash(f, n + k - 1), lines[k - 1]);
      SameRowsShow(f, n, lines, k - 1, p);
      ShowsOfConcat(SameRows(f, n, lines, k - 1), [row], p);
      OneRow(row, p - (k - 1));
    }
  }

  lemma {:induction false} OneRow(row: Row, p: int)
    ensures NewPos([row], |[row]|) == NewSpan(row)
    ensures p >= 0 ==> (ShowsLine([row], p) <==> p == 0 && row.Same?)
  {
    assert NewPos([row], 0) == 0;
    if p == 0 && row.Same? {
      assert [row][0].Same?;
    }
  }

  lemma {:induction false} PlusRowsShow(f: Files, n: nat, lines: seq<string>, k: nat, p: nat)
    requires k <= |lines|
    ensures !ShowsLine(PlusRows(f, n, lines, k), p)
    ensures NewPos(PlusRows(f, n, lines, k), |PlusRows(f, n, lines, k)|) == k
    decreases k
  {
    if k > 0 {
      var row := Plus(NewHash(f, n + k - 1), lines[k - 1]);
      PlusRowsShow(f, n, lines, k - 1, p);
      ShowsOfConcat(PlusRows(f, n, lines, k - 1), [row], p);
      OneRow(row, p - (k - 1));
    }
  }

  lemma {:induction false} MinusRowsShow(f: Files, o: nat, lines: seq<string>, k: nat, p: nat)
    requires k <= |lines|
    ensures !ShowsLine(MinusRows(f, o, lines, k), p)
    ensures NewPos(MinusRows(f, o, lines, k), |MinusRows(f, o, lines, k)|) == 0
    decreases k
  {
    if k > 0 {
      var row := Minus(OldHash(f, o + k - 1), lines[k - 1]);
      MinusRowsShow(f, o, lines, k - 1, p);
      ShowsOfConcat(MinusRows(f, o, lines, k - 1), [row], p);
      OneRow(row, p);
    }
  }

  lemma {:induction false} RemovedRowsShow(f: Files, o: nat, lines: seq<string>, p: nat)
    ensures !ShowsLine(RemovedRows(f, o, lines), p)
    ensures NewPos(RemovedRows(f, o, lines), |RemovedRows(f, o, lines)|) == 0
  {
    hide NewPos, MinusRows, ShowsLine;
    var end, edge := |lines|, DIFF_REMOVED_EDGE;
    if end <= DIFF_REMOVED_CAP {
      MinusRowsShow(f, o, lines, end, p);
    } else {
      var head, mark := MinusRows(f, o, lines[..edge], edge), [Deleted(end - 2 * edge)];
      var tail := MinusRows(f, o + end - edge, lines[end - edge..], edge);
      MinusRowsShow(f, o, lines[..edge], edge, p);
      MinusRowsShow(f, o + end - edge, lines[end - edge..], edge, p);
      OneRow(mark[0], p);
      ShowsOfConcat(head, mark, p);
      ShowsOfConcat(head + mark, tail, p);
    }
  }

  lemma {:induction false} PartOfRunShows(f: Files, n: nat, lines: seq<string>, from: nat, upto: nat, p: nat)
    requires from <= upto <= |lines|
    ensures ShowsLine(PartOfRun(f, n, lines, from, upto), p) <==> p < upto - from
    ensures NewPos(PartOfRun(f, n, lines, from, upto), |PartOfRun(f, n, lines, from, upto)|) == upto - from
  {
    hide NewPos, ShowsLine;
    SameRowsShow(f, n + from, lines[from..upto], upto - from, p);
  }

  /** Of an unchanged run exactly the lines within the context of its neighbours are shown. */
  lemma {:induction false} ContextRowsShow(
    f: Files, n: nat, lines: seq<string>, before: bool, after: bool, contextLines: nat, p: nat)
    ensures
      var rows, count := ContextRows(f, n, lines, before, after, contextLines), |lines|;
      && NewPos(rows, |rows|) <= count && (after ==> NewPos(rows, |rows|) == count)
      && (p < count ==> (ShowsLine(rows, p) <==> (before && p < contextLines) || (after && count - p <= contextLines)))
  {
    hide NewPos, ShowsLine, PartOfRun;
    var count := |lines|;
    if !before && !after {
      NoRowsShow(p);
    } else if !before && count > contextLines {
      var mark := Leading(count - contextLines);
      OneRow(mark, p);
      PartOfRunShows(f, n, lines, count - contextLines, count,
                     if p >= count - contextLines then p - (count - contextLines) else 0);
      ShowsOfConcat([mark], PartOfRun(f, n, lines, count - contextLines, count), p);
    } else if before && after && count > 2 * contextLines {
      MiddleShows(f, n, lines, contextLines, p);
    } else {
      PartOfRunShows(f, n, lines, 0, if before && !after && count > contextLines then contextLines else count, p);
    }
  }

  lemma {:induction false} NoRowsShow(p: nat)
    ensures NewPos([], 0) == 0 && !ShowsLine([], p)
  {
  }

  lemma {:induction false} MiddleShows(f: Files, n: nat, lines: seq<string>, contextLines: nat, p: nat)
    requires |lines| > 2 * contextLines
    ensures
      var rows, count := ContextRows(f, n, lines, true, true, contextLines), |lines|;
      NewPos(rows, |rows|) == count
      && (p < count ==> (ShowsLine(rows, p) <==> p < contextLines || count - p <= contextLines))
  {
    hide NewPos, ShowsLine, PartOfRun;
    var count, hidden := |lines|, |lines| - 2 * contextLines;
    var head, mark := PartOfRun(f, n, lines, 0, contextLines), [Untouched(hidden)];
    var tail := PartOfRun(f, n, lines, count - contextLines, count);
    PartOfRunShows(f, n, lines, 0, contextLines, p);
    PartOfRunShows(f, n, lines, count - contextLines, count,
                   if p >= contextLines + hidden then p - (contextLines + hidden) else 0);
    OneRow(mark[0], p - contextLines);
    ShowsOfConcat(head, mark, p);
    ShowsOfConcat(head + mark, tail, p);
  }

  lemma {:induction false} NewOfNext(parts: seq<Part>, i: nat)
    requires i < |parts|
    ensures |NewOf(parts, i + 1)| == |NewOf(parts, i)| + if parts[i].kind.Removed? then 0 else |parts[i].lines|
  {
  }

  ghost predicate RunsApart(parts: seq<Part>) {
    forall i | 0 <= i < |parts| - 1 && parts[i].kind.Context? :: !parts[i + 1].kind.Context?
  }

  lemma {:induction false} PartRowsShow(parts: seq<Part>, f: Files, i: nat, contextLines: nat, p: nat)
    requires RunsApart(parts) && i < |parts|
    ensures
      var rows := PartRows(parts, f, i, contextLines);
      && |NewOf(parts, i)| + NewPos(rows, |rows|) <= |NewOf(parts, i + 1)|
      && (i + 1 < |parts| ==> |NewOf(parts, i)| + NewPos(rows, |rows|) == |NewOf(parts, i + 1)|)
      && (parts[i].kind.Context? && p < |parts[i].lines| ==> (ShowsLine(rows, p) <==> Near(parts, i, p, contextLines)))
      && (!parts[i].kind.Context? ==> !ShowsLine(rows, p))
  {
    hide NewPos, ShowsLine, NewOf, OldOf, PlusRows, RemovedRows, ContextRows;
    NewOfNext(parts, i);
    var part, n, o := parts[i], |NewOf(parts, i)|, |OldOf(parts, i)|;
    match part.kind
    case Added =>
      PlusRowsShow(f, n, part.lines, |part.lines|, p);
    case Removed =>
      RemovedRowsShow(f, o, part.lines, p);
    case Context =>
      assert i > 0 ==> !parts[i - 1].kind.Context?;
      ContextRowsShow(f, n, part.lines, ChangedBefore(parts, i), ChangedAfter(parts, i), contextLines, p);
  }

  /** The rows of the parts before part i end where part i stands. */
  lemma {:induction false} RowsStand(parts: seq<Part>, f: Files, i: nat, contextLines: nat)
    requires RunsApart(parts) && i <= |parts|
    ensures
      var rows := RowsOf(parts, f, i, contextLines);
      NewPos(rows, |rows|) <= |NewOf(parts, i)| && (i < |parts| ==> NewPos(rows, |rows|) == |NewOf(parts, i)|)
    decreases i
  {
    hide NewPos, ShowsLine, NewOf, PartRows, RunsApart;
    if i > 0 {
      RowsStand(parts, f, i - 1, contextLines);
      PartRowsShow(parts, f, i - 1, contextLines, 0);
      ShowsOfConcat(RowsOf(parts, f, i - 1, contextLines), PartRows(parts, f, i - 1, contextLines), 0);
    } else {
      NoRowsShow(0);
      NoPartsBefore(parts);
    }
  }

  lemma {:induction false} NoPartsBefore(parts: seq<Part>)
    ensures NewOf(parts, 0) == []
  {
  }

  lemma {:induction false} ShownUpTo(parts: seq<Part>, f: Files, m: nat, contextLines: nat, i: nat, k: nat)
    requires RunsApart(parts) && i < m <= |parts| && parts[i].kind.Context? && k < |parts[i].lines|
    ensures ShowsLine(RowsOf(parts, f, m, contextLines), |NewOf(parts, i)| + k) <==> Near(parts, i, k, contextLines)
    decreases m
  {
    hide NewPos, ShowsLine, NewOf, PartRows, RunsApart, Near;
    var p := |NewOf(parts, i)| + k;
    RowsStand(parts, f, m - 1, contextLines);
    ShowsOfConcat(RowsOf(parts, f, m - 1, contextLines), PartRows(parts, f, m - 1, contextLines), p);
    if i < m - 1 {
      ShownUpTo(parts, f, m - 1, contextLines, i, k);
      NewOfNext(parts, i);
      PartsBefore(parts, i + 1, m - 1);
    } else {
      PartRowsShow(parts, f, i, contextLines, k);
    }
  }

  /** An unchanged line is shown exactly when it is within the context of a change; a run of two contexts is whole. */
  lemma {:induction false} ShownIffNear(parts: seq<Part>, f: Files, contextLines: nat, i: nat, k: nat)
    requires IsDiff(parts, f) && i < |parts| && parts[i].kind.Context? && k < |parts[i].lines|
    ensures ShowsLine(RowsOf(parts, f, |parts|, contextLines), |NewOf(parts, i)| + k)
            <==> Near(parts, i, k, contextLines)
    ensures 0 < i < |parts| - 1 && |parts[i].lines| <= 2 * contextLines ==> Near(parts, i, k, contextLines)
  {
    hide NewOf, OldOf, RowsOf, ShowsLine;
    ShownUpTo(parts, f, |parts|, contextLines, i, k);
  }

  /** The counts of the untouched markers, in order. */
  function UntouchedOf(rows: seq<Row>, k: nat): seq<nat>
    requires k <= |rows|
  {
    if k == 0 then [] else UntouchedOf(rows, k - 1) + if rows[k - 1].Untouched? then [rows[k - 1].count] else []
  }

  /** What the unchanged runs between two changes hide: all but a context at either end. */
  function HiddenMiddles(parts: seq<Part>, i: nat, contextLines: nat): seq<nat>
    requires i <= |parts|
  {
    if i == 0 then []
    else
      HiddenMiddles(parts, i - 1, contextLines)
      + if parts[i - 1].kind.Context? && 1 < i < |parts| && |parts[i - 1].lines| > 2 * contextLines
        then [|parts[i - 1].lines| - 2 * contextLines] else []
  }

  lemma {:induction false} UntouchedOfConcat(a: seq<Row>, b: seq<Row>, k: nat)
    requires k <= |b|
    ensures UntouchedOf(a + b, |a| + k) == UntouchedOf(a, |a|) + UntouchedOf(b, k)
    decreases k
  {
    if k > 0 {
      UntouchedOfConcat(a, b, k - 1);
    } else {
      UntouchedOfPrefix(a, b, |a|);
    }
  }

  lemma {:induction false} UntouchedOfPrefix(a: seq<Row>, b: seq<Row>, k: nat)
    requires k <= |a|
    ensures UntouchedOf(a + b, k) == UntouchedOf(a, k)
    decreases k
  {
    if k > 0 {
      UntouchedOfPrefix(a, b, k - 1);
    }
  }

  ghost predicate Unmarked(rows: seq<Row>) {
    forall j | 0 <= j < |rows| :: !rows[j].Untouched? && !rows[j].Leading?
  }

  lemma {:induction false} UnmarkedHasNone(rows: seq<Row>, k: nat)
    requires Unmarked(rows) && k <= |rows|
    ensures UntouchedOf(rows, k) == []
    decreases k
  {
    if k > 0 {
      UnmarkedHasNone(rows, k - 1);
    }
  }

  lemma {:induction false} LinesUnmarked(f: Files, n: nat, lines: seq<string>, k: nat)
    requires k <= |lines|
    ensures Unmarked(SameRows(f, n, lines, k)) && Unmarked(PlusRows(f, n, lines, k))
    ensures Unmarked(MinusRows(f, n, lines, k))
    decreases k
  {
    if k > 0 {
      LinesUnmarked(f, n, lines, k - 1);
    }
  }

  lemma {:induction false} RemovedUnmarked(f: Files, o: nat, lines: seq<string>)
    ensures Unmarked(RemovedRows(f, o, lines))
  {
    hide MinusRows, SameRows, PlusRows;
    var end, edge := |lines|, DIFF_REMOVED_EDGE;
    LinesUnmarked(f, o, lines, end);
    if end > DIFF_REMOVED_CAP {
      LinesUnmarked(f, o, lines[..edge], edge);
      LinesUnmarked(f, o + end - edge, lines[end - edge..], edge);
    }
  }

  /** The markers of one part: a leading one only before the first change, an untouched one only between two. */
  lemma {:induction false} PartMarkers(parts: seq<Part>, f: Files, i: nat, contextLines: nat)
    requires RunsApart(parts) && i < |parts|
    ensures
      var rows := PartRows(parts, f, i, contextLines);
      && HiddenMiddles(parts, i + 1, contextLines) == HiddenMiddles(parts, i, contextLines) + UntouchedOf(rows, |rows|)
      && forall j | 0 <= j < |rows| && rows[j].Leading? :: i == 0 && j == 0
  {
    hide RemovedRows, SameRows, PlusRows, MinusRows, NewOf, OldOf, UntouchedOf, ContextRows;
    var part, n, o := parts[i], |NewOf(parts, i)|, |OldOf(parts, i)|;
    var rows := PartRows(parts, f, i, contextLines);
    LinesUnmarked(f, n, part.lines, |part.lines|);
    RemovedUnmarked(f, o, part.lines);
    if part.kind.Context? {
      assert i > 0 ==> !parts[i - 1].kind.Context?;
      ContextMarkers(f, n, part.lines, ChangedBefore(parts, i), ChangedAfter(parts, i), contextLines);
    } else {
      UnmarkedHasNone(rows, |rows|);
    }
  }

  lemma {:induction false} ContextMarkers(
    f: Files, n: nat, lines: seq<string>, before: bool, after: bool, contextLines: nat)
    ensures
      var rows, count := ContextRows(f, n, lines, before, after, contextLines), |lines|;
      && UntouchedOf(rows, |rows|)
            == (if before && after && count > 2 * contextLines then [count - 2 * contextLines] else [])
      && forall j | 0 <= j < |rows| && rows[j].Leading? :: !before && j == 0
  {
    hide SameRows, UntouchedOf;
    var count := |lines|;
    if !before && !after {
      NoneUntouched();
    } else if !before && count > contextLines {
      var mark, tail := [Leading(count - contextLines)], PartOfRun(f, n, lines, count - contextLines, count);
      LinesUnmarked(f, n + (count - contextLines), lines[count - contextLines..count], contextLines);
      UnmarkedHasNone(tail, |tail|);
      OneUntouched(mark[0]);
      UntouchedOfConcat(mark, tail, |tail|);
    } else if before && after && count > 2 * contextLines {
      var head, mark := PartOfRun(f, n, lines, 0, contextLines), [Untouched(count - 2 * contextLines)];
      var tail := PartOfRun(f, n, lines, count - contextLines, count);
      LinesUnmarked(f, n + 0, lines[0..contextLines], contextLines);
      LinesUnmarked(f, n + (count - contextLines), lines[count - contextLines..count], contextLines);
      UnmarkedHasNone(head, |head|);
      UnmarkedHasNone(tail, |tail|);
      OneUntouched(mark[0]);
      UntouchedOfConcat(head, mark, |mark|);
      UntouchedOfConcat(head + mark, tail, |tail|);
    } else {
      var upto := if before && !after && count > contextLines then contextLines else count;
      var all := PartOfRun(f, n, lines, 0, upto);
      LinesUnmarked(f, n + 0, lines[0..upto], upto);
      UnmarkedHasNone(all, |all|);
    }
  }

  lemma {:induction false} OneUntouched(row: Row)
    ensures UntouchedOf([row], |[row]|) == if row.Untouched? then [row.count] else []
  {
    assert UntouchedOf([row], 0) == [];
  }

  lemma {:induction false} NoneUntouched()
    ensures UntouchedOf([], 0) == []
  {
  }

  /** One untouched marker per unchanged run of more than two contexts between changes; a leading one only first. */
  lemma {:induction false} Markers(parts: seq<Part>, f: Files, m: nat, contextLines: nat)
    requires RunsApart(parts) && m <= |parts|
    ensures
      var rows := RowsOf(parts, f, m, contextLines);
      && UntouchedOf(rows, |rows|) == HiddenMiddles(parts, m, contextLines)
      && forall j | 0 <= j < |rows| && rows[j].Leading? :: j == 0
    decreases m
  {
    hide UntouchedOf, PartRows, HiddenMiddles, RunsApart;
    if m > 0 {
      Markers(parts, f, m - 1, contextLines);
      PartMarkers(parts, f, m - 1, contextLines);
      var before, rows := RowsOf(parts, f, m - 1, contextLines), PartRows(parts, f, m - 1, contextLines);
      UntouchedOfConcat(before, rows, |rows|);
    } else {
      NoneUntouched();
      NoMiddles(parts, contextLines);
    }
  }

  lemma {:induction false} NoMiddles(parts: seq<Part>, contextLines: nat)
    ensures HiddenMiddles(parts, 0, contextLines) == []
  {
  }

  // ---- the rendering ----

  /** The rows pushed so far, and the two cursors, as 1-based line numbers. */
  datatype Rendering = Rendering(output: seq<Row>, served: seq<ServedRow>, newLineNum: nat, oldLineNum: nat) {
    ghost predicate Good(f: Files, added: seq<string>) {
      newLineNum >= 1 && oldLineNum >= 1 && Shows(f, output, served, added, newLineNum - 1, oldLineNum - 1)
    }
  }

  function Push(r: Rendering, row: Row): Rendering {
    Rendering(r.output + [row], r.served + (if r.newLineNum >= 1 then ServedBy(row, r.newLineNum - 1) else []),
              r.newLineNum + NewSpan(row), r.oldLineNum + OldSpan(row))
  }

  lemma {:induction false} PushKeeps(f: Files, r: Rendering, added: seq<string>, row: Row)
    requires r.Good(f, added) && Tells(f, row, r.newLineNum - 1, r.oldLineNum - 1)
    ensures Push(r, row).Good(f, added + if row.Plus? then [row.line] else [])
  {
    hide Tells, Shows, ServedBy, NewSpan, OldSpan;
    OneMoreRow(f, r.output, r.served, added, r.newLineNum - 1, r.oldLineNum - 1, row);
  }

  /** Added lines are all shown. */
  method EmitAdded(f: Files, start: Rendering, displayLines: seq<string>, ghost added: seq<string>)
    returns (r: Rendering)
    requires start.Good(f, added) && start.newLineNum - 1 + |displayLines| <= |f.newLines|
    requires f.newLines[start.newLineNum - 1..start.newLineNum - 1 + |displayLines|] == displayLines
    ensures r.Good(f, added + displayLines)
    ensures r.newLineNum == start.newLineNum + |displayLines| && r.oldLineNum == start.oldLineNum
    ensures r.output == start.output + PlusRows(f, start.newLineNum - 1, displayLines, |displayLines|)
  {
    hide Shows;
    r := start;
    assert added + displayLines[..0] == added;
    for k := 0 to |displayLines|
      invariant r.Good(f, added + displayLines[..k])
      invariant r.newLineNum == start.newLineNum + k && r.oldLineNum == start.oldLineNum
      invariant r.output == start.output + PlusRows(f, start.newLineNum - 1, displayLines, k)
    {
      var row := Plus(NewHash(f, r.newLineNum - 1), displayLines[k]);
      assert f.newLines[r.newLineNum - 1] == displayLines[k];
      PushKeeps(f, r, added + displayLines[..k], row);
      assert added + displayLines[..k] + [displayLines[k]] == added + displayLines[..k + 1];
      r := Push(r, row);
    }
    assert displayLines[..|displayLines|] == displayLines;
  }

  /** Lines that are the same in both files, all shown. */
  method EmitSame(f: Files, start: Rendering, lines: seq<string>, ghost added: seq<string>) returns (r: Rendering)
    requires start.Good(f, added) && SameLines(f, start.newLineNum - 1, start.oldLineNum - 1, |lines|)
    requires f.newLines[start.newLineNum - 1..start.newLineNum - 1 + |lines|] == lines
    ensures r.Good(f, added)
    ensures r.newLineNum == start.newLineNum + |lines| && r.oldLineNum == start.oldLineNum + |lines|
    ensures r.output == start.output + SameRows(f, start.newLineNum - 1, lines, |lines|)
  {
    hide Shows, NewHash, Rendering.Good, ServedBy, PlusRows, MinusRows;
    CursorsStart(f, start, added);
    r := start;
    for k := 0 to |lines|
      invariant r.Good(f, added)
      invariant r.newLineNum == start.newLineNum + k && r.oldLineNum == start.oldLineNum + k
      invariant r.output == start.output + SameRows(f, start.newLineNum - 1, lines, k)
    {
      var row := Same(NewHash(f, r.newLineNum - 1), lines[k]);
      PartOfSame(f, start.newLineNum - 1, start.oldLineNum - 1, |lines|, k, 1);
      assert f.newLines[r.newLineNum - 1] == lines[k];
      PushKeeps(f, r, added, row);
      assert added + [] == added;
      r := Push(r, row);
    }
  }

  lemma {:induction false} PartOfSame(f: Files, n: nat, o: nat, count: nat, k: nat, part: nat)
    requires SameLines(f, n, o, count) && k + part <= count
    ensures SameLines(f, n + k, o + k, part)
    ensures f.newLines[n + k..n + k + part] == f.newLines[n..n + count][k..k + part]
  {
    assert f.oldLines[o + k..o + k + part] == f.oldLines[o..o + count][k..k + part];
  }

  /** Removed lines: all of them, or the first and last few around the count of the others. */
  method FormatRemovedLines(f: Files, start: Rendering, displayLines: seq<string>, ghost added: seq<string>)
    returns (r: Rendering)
    requires start.Good(f, added) && start.oldLineNum - 1 + |displayLines| <= |f.oldLines|
    requires f.oldLines[start.oldLineNum - 1..start.oldLineNum - 1 + |displayLines|] == displayLines
    ensures r.Good(f, added)
    ensures r.newLineNum == start.newLineNum && r.oldLineNum == start.oldLineNum + |displayLines|
    ensures r.output == start.output + RemovedRows(f, start.oldLineNum - 1, displayLines)
  {
    hide Shows, MinusRows, SameRows, PlusRows;
    if |displayLines| <= DIFF_REMOVED_CAP {
      r := EmitRemoved(f, start, displayLines, added);
      return;
    }
    var edge, omitted := DIFF_REMOVED_EDGE, |displayLines| - DIFF_REMOVED_EDGE * 2;
    var o, end := start.oldLineNum - 1, |displayLines|;
    assert f.oldLines[o..o + edge] == displayLines[..edge];
    r := EmitRemoved(f, start, displayLines[..edge], added);
    PushKeeps(f, r, added, Deleted(omitted));
    assert added + [] == added;
    r := Push(r, Deleted(omitted));
    assert f.oldLines[o + end - edge..o + end] == displayLines[end - edge..];
    r := EmitRemoved(f, r, displayLines[end - edge..], added);
  }

  method EmitRemoved(f: Files, start: Rendering, lines: seq<string>, ghost added: seq<string>) returns (r: Rendering)
    requires start.Good(f, added) && start.oldLineNum - 1 + |lines| <= |f.oldLines|
    requires f.oldLines[start.oldLineNum - 1..start.oldLineNum - 1 + |lines|] == lines
    ensures r.Good(f, added)
    ensures r.newLineNum == start.newLineNum && r.oldLineNum == start.oldLineNum + |lines|
    ensures r.output == start.output + MinusRows(f, start.oldLineNum - 1, lines, |lines|)
  {
    hide Shows;
    r := start;
    for k := 0 to |lines|
      invariant r.Good(f, added)
      invariant r.newLineNum == start.newLineNum && r.oldLineNum == start.oldLineNum + k
      invariant r.output == start.output + MinusRows(f, start.oldLineNum - 1, lines, k)
    {
      var row := Minus(OldHash(f, r.oldLineNum - 1), lines[k]);
      assert f.oldLines[r.oldLineNum - 1] == lines[k];
      PushKeeps(f, r, added, row);
      assert added + [] == added;
      r := Push(r, row);
    }
  }

  /** A run of unchanged lines next to a change: the lines near the change, and a count for a hidden middle. */
  method EmitContext(
    f: Files, start: Rendering, displayLines: seq<string>, lastWasChange: bool, nextPartIsChange: bool,
    contextLines: nat,
    ghost added: seq<string>)
    returns (r: Rendering)
    requires start.Good(f, added) && SameLines(f, start.newLineNum - 1, start.oldLineNum - 1, |displayLines|)
    requires f.newLines[start.newLineNum - 1..start.newLineNum - 1 + |displayLines|] == displayLines
    requires lastWasChange || nextPartIsChange
    ensures r.Good(f, added)
    ensures r.newLineNum - start.newLineNum == r.oldLineNum - start.oldLineNum
    ensures start.newLineNum <= r.newLineNum <= start.newLineNum + |displayLines|
    ensures nextPartIsChange ==> r.newLineNum == start.newLineNum + |displayLines|
    ensures r.output
        == start.output + ContextRows(f, start.newLineNum - 1, displayLines, lastWasChange, nextPartIsChange,
                                                   contextLines)
  {
    hide Shows;
    var n, o, count := start.newLineNum - 1, start.oldLineNum - 1, |displayLines|;
    r := start;
    if !lastWasChange {
      var skipStart := if count > contextLines then count - contextLines else 0;
      if skipStart > 0 {
        r := Hide(f, r, Leading(skipStart), n, o, count, 0, skipStart, added);
      }
      r := ShowPart(f, r, displayLines, n, o, skipStart, count, added);
    } else if nextPartIsChange && count > contextLines * 2 {
      var skipMiddle := count - contextLines * 2;
      r := ShowPart(f, r, displayLines, n, o, 0, contextLines, added);
      r := Hide(f, r, Untouched(skipMiddle), n, o, count, contextLines, skipMiddle, added);
      r := ShowPart(f, r, displayLines, n, o, count - contextLines, count, added);
    } else if !nextPartIsChange && count > contextLines {
      r := ShowPart(f, r, displayLines, n, o, 0, contextLines, added);
    } else {
      r := ShowPart(f, r, displayLines, n, o, 0, count, added);
    }
  }

  /** The lines from..upto of an unchanged run, shown. */
  method ShowPart(
    f: Files, start: Rendering, displayLines: seq<string>, ghost n: nat, ghost o: nat, from: nat, upto: nat,
    ghost added: seq<string>)
    returns (r: Rendering)
    requires start.Good(f, added) && SameLines(f, n, o, |displayLines|)
    requires f.newLines[n..n + |displayLines|] == displayLines
    requires from <= upto <= |displayLines| && start.newLineNum - 1 == n + from && start.oldLineNum - 1 == o + from
    ensures r.Good(f, added) && r.newLineNum - 1 == n + upto && r.oldLineNum - 1 == o + upto
    ensures r.output == start.output + PartOfRun(f, n, displayLines, from, upto)
  {
    hide Shows;
    PartOfSame(f, n, o, |displayLines|, from, upto - from);
    r := EmitSame(f, start, displayLines[from..upto], added);
  }

  /** Lines of an unchanged run, hidden behind a row that counts them. */
  method Hide(
    f: Files, start: Rendering, row: Row, ghost n: nat, ghost o: nat, ghost count: nat, ghost from: nat,
    ghost hidden: nat,
    ghost added: seq<string>)
    returns (r: Rendering)
    requires start.Good(f, added) && SameLines(f, n, o, count) && from + hidden <= count
    requires start.newLineNum - 1 == n + from && start.oldLineNum - 1 == o + from
    requires row == Leading(hidden) || row == Untouched(hidden)
    ensures r.Good(f, added) && r.newLineNum - 1 == n + from + hidden && r.oldLineNum - 1 == o + from + hidden
    ensures r.output == start.output + [row]
  {
    hide Shows;
    PartOfSame(f, n, o, count, from, hidden);
    PushKeeps(f, start, added, row);
    assert added + [] == added;
    r := Push(start, row);
  }

  /** The rest of both files after the last row is the same. */
  ghost predicate SameRest(f: Files, n: nat, o: nat) {
    n <= |f.newLines| && o <= |f.oldLines| && f.newLines[n..] == f.oldLines[o..]
  }

  /** The rendering before part i. */
  ghost predicate AtPart(parts: seq<Part>, f: Files, i: nat, contextLines: nat, r: Rendering)
    requires i <= |parts|
  {
    && r.Good(f, AddedOf(parts, i)) && r.output == RowsOf(parts, f, i, contextLines)
    && (i < |parts| ==> r.newLineNum - 1 == |NewOf(parts, i)| && r.oldLineNum - 1 == |OldOf(parts, i)|)
    && (i == |parts| ==> SameRest(f, r.newLineNum - 1, r.oldLineNum - 1))
  }

  method ChangedPart(parts: seq<Part>, f: Files, i: nat, start: Rendering, contextLines: nat) returns (r: Rendering)
    requires IsDiff(parts, f) && i < |parts| && !parts[i].kind.Context? && AtPart(parts, f, i, contextLines, start)
    ensures AtPart(parts, f, i + 1, contextLines, r)
  {
    hide Shows, NewOf, OldOf, SameRest, RowsOf, PlusRows, RemovedRows, ContextRows;
    var part := parts[i];
    NextRows(parts, f, i, contextLines);
    PartStands(parts, f, i);
    LastPart(parts, f, i);
    if part.kind.Added? {
      r := EmitAdded(f, start, part.lines, AddedOf(parts, i));
    } else {
      r := FormatRemovedLines(f, start, part.lines, AddedOf(parts, i));
      assert AddedOf(parts, i) + [] == AddedOf(parts, i);
    }
  }

  method ContextPart(parts: seq<Part>, f: Files, i: nat, start: Rendering, lastWasChange: bool, contextLines: nat)
    returns (r: Rendering)
    requires IsDiff(parts, f) && i < |parts| && parts[i].kind.Context? && AtPart(parts, f, i, contextLines, start)
    requires lastWasChange == ChangedBefore(parts, i)
    ensures AtPart(parts, f, i + 1, contextLines, r)
  {
    hide Shows, NewOf, OldOf, SameRest, Rendering.Good, RowsOf, PlusRows, RemovedRows, ContextRows;
    var part := parts[i];
    NextRows(parts, f, i, contextLines);
    PartStands(parts, f, i);
    NextIsChange(parts, f, i);
    var nextPartIsChange := i < |parts| - 1 && !parts[i + 1].kind.Context?;
    assert AddedOf(parts, i) + [] == AddedOf(parts, i);
    CursorsStart(f, start, AddedOf(parts, i));
    r := start;
    if lastWasChange || nextPartIsChange {
      r := EmitContext(f, start, part.lines, lastWasChange, nextPartIsChange, contextLines, AddedOf(parts, i));
    }
    LoneRun(f, start.newLineNum - 1, part.lines, contextLines);
    assert start.output + [] == start.output;
    RestAfterContext(parts, f, i, start.newLineNum - 1, start.oldLineNum - 1, r.newLineNum - start.newLineNum);
  }

  lemma {:induction false} CursorsStart(f: Files, r: Rendering, added: seq<string>)
    requires r.Good(f, added)
    ensures r.newLineNum >= 1 && r.oldLineNum >= 1
  {
  }

  ghost predicate IsFirstChange(parts: seq<Part>, i: nat) {
    i < |parts| && !parts[i].kind.Context? && forall j | 0 <= j < i :: parts[j].kind.Context?
  }

  lemma {:induction false} CursorAt(parts: seq<Part>, f: Files, i: nat, contextLines: nat, r: Rendering)
    requires i < |parts| && AtPart(parts, f, i, contextLines, r)
    ensures r.newLineNum == |NewOf(parts, i)| + 1
  {
    hide Shows, NewOf, OldOf;
  }

  lemma {:induction false} AtTheEnd(parts: seq<Part>, f: Files, contextLines: nat, r: Rendering)
    requires AtPart(parts, f, |parts|, contextLines, r)
    ensures AllTell(f, r.output) && SameRest(f, NewPos(r.output, |r.output|), OldPos(r.output, |r.output|))
    ensures r.output == RowsOf(parts, f, |parts|, contextLines)
    ensures r.served == ServedOf(r.output, |r.output|) && PlusOf(r.output, |r.output|) == AddedOf(parts, |parts|)
  {
    hide AllTell, SameRest, NewPos, OldPos, ServedOf, PlusOf, AddedOf, NewOf, OldOf;
  }

  lemma {:induction false} NextIsChange(parts: seq<Part>, f: Files, i: nat)
    requires IsDiff(parts, f) && i < |parts| && parts[i].kind.Context?
    ensures i + 1 < |parts| ==> !parts[i + 1].kind.Context?
  {
  }

  /**
   The shown diff. Every row tells what stands at its place in the files, every hidden span is counted, what
   follows the last row is the same in both files, every added line is shown, and exactly the rows with a new
   line are served.
   */
  method GenDiff(parts: seq<Part>, f: Files, contextLines: nat)
    returns (rows: seq<Row>, firstChangedLine: Option<nat>, served: seq<ServedRow>)
    requires IsDiff(parts, f)
    ensures rows == RowsOf(parts, f, |parts|, contextLines)
    ensures AllTell(f, rows) && SameRest(f, NewPos(rows, |rows|), OldPos(rows, |rows|))
    ensures served == ServedOf(rows, |rows|)
    ensures PlusOf(rows, |rows|) == AddedOf(parts, |parts|)
    ensures firstChangedLine.None? <==> forall i | 0 <= i < |parts| :: parts[i].kind.Context?
    ensures firstChangedLine.Some? ==>
              exists i :: IsFirstChange(parts, i) && firstChangedLine.value == |NewOf(parts, i)| + 1
  {
    hide AtPart, NewOf, OldOf, AllTell, NewPos, OldPos, ServedOf, PlusOf, AddedOf, SameRest, IsDiff;
    var r := Rendering([], [], 1, 1);
    var lastWasChange := false;
    firstChangedLine := None;
    StartsGood(f, parts, contextLines);
    for i := 0 to |parts|
      invariant AtPart(parts, f, i, contextLines, r)
      invariant lastWasChange == (i > 0 && !parts[i - 1].kind.Context?)
      invariant firstChangedLine.None? <==> forall j | 0 <= j < i :: parts[j].kind.Context?
      invariant firstChangedLine.Some? ==>
                exists j :: IsFirstChange(parts, j) && firstChangedLine.value == |NewOf(parts, j)| + 1
    {
      CursorAt(parts, f, i, contextLines, r);
      if !parts[i].kind.Context? {
        if firstChangedLine.None? {
          firstChangedLine := Some(r.newLineNum);
          assert IsFirstChange(parts, i);
        }
        r := ChangedPart(parts, f, i, r, contextLines);
        lastWasChange := true;
      } else {
        r := ContextPart(parts, f, i, r, lastWasChange, contextLines);
        lastWasChange := false;
      }
    }
    rows, served := r.output, r.served;
    AtTheEnd(parts, f, contextLines, r);
  }

  lemma {:induction false} StartsGood(f: Files, parts: seq<Part>, contextLines: nat)
    requires IsDiff(parts, f)
    ensures AtPart(parts, f, 0, contextLines, Rendering([], [], 1, 1))
  {
  }

  lemma {:induction false} LastPart(parts: seq<Part>, f: Files, i: nat)
    requires IsDiff(parts, f) && i < |parts|
    ensures i + 1 == |parts| ==> SameRest(f, |NewOf(parts, i + 1)|, |OldOf(parts, i + 1)|)
  {
  }

  /** After the last unchanged run, what was not shown of it is the rest of both files. */
  lemma {:induction false} RestAfterContext(parts: seq<Part>, f: Files, i: nat, n: nat, o: nat, shown: int)
    requires IsDiff(parts, f) && i < |parts| && parts[i].kind.Context?
    requires n == |NewOf(parts, i)| && o == |OldOf(parts, i)| && 0 <= shown <= |parts[i].lines|
    ensures i + 1 == |parts| ==> SameRest(f, n + shown, o + shown)
  {
    if i + 1 == |parts| {
      var newBefore, oldBefore, lines := NewOf(parts, i), OldOf(parts, i), parts[i].lines;
      assert f.newLines == newBefore + lines && f.oldLines == oldBefore + lines;
      RestOfConcat(newBefore, lines, shown);
      RestOfConcat(oldBefore, lines, shown);
    }
  }

  lemma {:induction false} RestOfConcat(a: seq<string>, b: seq<string>, k: nat)
    requires k <= |b|
    ensures (a + b)[|a| + k..] == b[k..]
  {
  }

  // ---- the rows, told one by one ----

  /** The row shown for this line of the old file, with the anchor the line had. */
  function GoneLine(f: Files, o: nat, line: string): Row {
    Minus(if f.oldHashes.Some? && o < |f.oldHashes.value| then Some(f.oldHashes.value[o]) else None, line)
  }

  lemma {:induction false} MinusRowAt(f: Files, o: nat, lines: seq<string>, n: nat, k: nat)
    requires k < n <= |lines|
    ensures |MinusRows(f, o, lines, n)| == n && MinusRows(f, o, lines, n)[k] == GoneLine(f, o + k, lines[k])
    decreases n
  {
    if k < n - 1 {
      MinusRowAt(f, o, lines, n - 1, k);
    } else if n > 1 {
      MinusRowAt(f, o, lines, n - 1, 0);
    }
  }

  /** Up to six removed lines are all shown; of more, two at either end around the count of the others. */
  lemma {:induction false} RemovedExactly(f: Files, o: nat, lines: seq<string>)
    ensures |lines| <= 6 ==>
              && |RemovedRows(f, o, lines)| == |lines|
              && forall k | 0 <= k < |lines| :: RemovedRows(f, o, lines)[k] == GoneLine(f, o + k, lines[k])
    ensures |lines| > 6 ==>
              var n := |lines|;
              RemovedRows(f, o, lines)
                == [GoneLine(f, o, lines[0]), GoneLine(f, o + 1, lines[1]), Deleted(n - 4),
                    GoneLine(f, o + n - 2, lines[n - 2]), GoneLine(f, o + n - 1, lines[n - 1])]
  {
    hide MinusRows, GoneLine;
    var n := |lines|;
    if n <= 6 {
      if n == 0 {
        NoMinusRows(f, o, lines);
      } else {
        MinusRowAt(f, o, lines, n, 0);
      }
      forall k | 0 <= k < n ensures MinusRows(f, o, lines, n)[k] == GoneLine(f, o + k, lines[k]) {
        MinusRowAt(f, o, lines, n, k);
      }
    } else {
      MinusRowAt(f, o, lines[..2], 2, 0);
      MinusRowAt(f, o, lines[..2], 2, 1);
      MinusRowAt(f, o + n - 2, lines[n - 2..], 2, 0);
      MinusRowAt(f, o + n - 2, lines[n - 2..], 2, 1);
    }
  }

  lemma {:induction false} NoMinusRows(f: Files, o: nat, lines: seq<string>)
    ensures MinusRows(f, o, lines, 0) == []
  {
  }

  /** This row shows a line of the new file, at this position and under this anchor. */
  ghost predicate ServesAt(rows: seq<Row>, j: nat, x: ServedRow)
    requires j < |rows|
  {
    (rows[j].Same? || rows[j].Plus?) && rows[j].hash == Some(x.hash) && NewPos(rows, j) == x.position
  }

  /** A position is served with an anchor exactly when some shown row has a new line there, under that anchor. */
  lemma {:induction false} ServedExactly(rows: seq<Row>, k: nat, x: ServedRow)
    requires k <= |rows|
    ensures x in ServedOf(rows, k) <==> exists j: nat :: j < k && ServesAt(rows, j, x)
    decreases k
  {
    hide NewPos;
    if k > 0 {
      ServedExactly(rows, k - 1, x);
      assert x in ServedOf(rows, k) <==> x in ServedOf(rows, k - 1) || ServesAt(rows, k - 1, x);
    }
  }

  /** A shown row carries the line at its place, and the anchor of that line where one is known. */
  lemma {:induction false} AnchorsShown(f: Files, rows: seq<Row>, k: nat)
    requires k < |rows| && AllTell(f, rows)
    ensures rows[k].Same? || rows[k].Plus? ==>
              var n := NewPos(rows, k);
              && n < |f.newLines| && rows[k].line == f.newLines[n]
              && rows[k].hash == (if n < |f.newHashes| then Some(f.newHashes[n]) else None)
    ensures rows[k].Same? || rows[k].Minus? ==>
              OldPos(rows, k) < |f.oldLines| && rows[k].line == f.oldLines[OldPos(rows, k)]
    ensures rows[k].Minus? ==> rows[k] == GoneLine(f, OldPos(rows, k), rows[k].line)
  {
    hide NewPos, OldPos;
    TellsAt(f, rows, k);
    if rows[k].Same? {
      var n, o := NewPos(rows, k), OldPos(rows, k);
      assert f.newLines[n] == f.newLines[n..n + 1][0] && f.oldLines[o] == f.oldLines[o..o + 1][0];
    }
  }
}
