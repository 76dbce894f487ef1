/**
 One resolved edit as a character-level splice, and what it means on lines. The engine cuts and pastes
 text by offsets; the reader thinks of a range of lines replaced by other lines.
 */
module LineSplice {
  import opened Options
  import opened TextLines

  /** An edit whose two anchors were resolved to lines, 1-based and inclusive. */
  datatype ResolvedEdit = ResolvedEdit(startLine: nat, endLine: nat, contentLines: seq<string>) {
    ghost predicate Fits(lines: seq<string>) {
      1 <= startLine <= endLine <= |lines| && AllLines(contentLines)
    }
  }

  datatype LineIndex = LineIndex(fileLines: seq<string>, lineStarts: seq<nat>) {
    ghost predicate Of(content: string) {
      && fileLines == SplitLines(content)
      && |lineStarts| == |fileLines|
      && forall i | 0 <= i < |lineStarts| :: lineStarts[i] == |Body(fileLines[..i])|
    }
  }

  method BuildIdx(content: string) returns (index: LineIndex)
    ensures index.Of(content)
  {
    var fileLines := SplitLines(content);
    var lineStarts: seq<nat> := [];
    var offset := 0;
    for i := 0 to |fileLines|
      invariant |lineStarts| == i
      invariant forall k | 0 <= k < i :: lineStarts[k] == |Body(fileLines[..k])|
      invariant offset == |Body(fileLines[..i])| || (i == |fileLines| && offset + 1 == |Body(fileLines[..i])|)
    {
      lineStarts := lineStarts + [offset];
      offset := offset + |fileLines[i]|;
      if i < |fileLines| - 1 {
        offset := offset + 1;
      }
      assert fileLines[..i + 1][..i] == fileLines[..i];
    }
    index := LineIndex(fileLines, lineStarts);
  }

  datatype Span = Replace(start: nat, end: nat, replacement: string) | Noop

  /** The characters a resolved edit replaces, and by what. */
  function ResToSpan(edit: ResolvedEdit, content: string, index: LineIndex): Span
    requires edit.startLine >= 1 && edit.startLine <= edit.endLine <= |index.fileLines| == |index.lineStarts|
  {
    var fileLines, lineStarts := index.fileLines, index.lineStarts;
    if fileLines[edit.startLine - 1..edit.endLine] == edit.contentLines then Noop
    else if |edit.contentLines| > 0 then
      Replace(lineStarts[edit.startLine - 1], lineStarts[edit.endLine - 1] + |fileLines[edit.endLine - 1]|,
              Join(edit.contentLines))
    else if edit.startLine == 1 && edit.endLine == |fileLines| then Replace(0, |content|, "")
    else if edit.endLine < |fileLines| then
      Replace(lineStarts[edit.startLine - 1], lineStarts[edit.endLine], "")
    else if EndsWithNewline(content) then Replace(lineStarts[edit.startLine - 1], |content|, "")
    else if edit.startLine >= 2 && |fileLines[edit.startLine - 2]| == 0 then
      Replace(lineStarts[edit.startLine - 1], |content|, "")
    else
      Replace(if lineStarts[edit.startLine - 1] == 0 then 0 else lineStarts[edit.startLine - 1] - 1, |content|, "")
  }

  function Assemble(content: string, span: Span): string
    requires span.Replace? ==> span.start <= |content| && span.end <= |content|
  {
    if span.Noop? then content else content[..span.start] + span.replacement + content[span.end..]
  }

  // ---- what the edit means on lines ----

  function Prefix(lines: seq<string>, edit: ResolvedEdit): seq<string>
    requires 1 <= edit.startLine <= edit.endLine <= |lines|
  {
    lines[..edit.startLine - 1]
  }

  function Suffix(lines: seq<string>, edit: ResolvedEdit): seq<string>
    requires 1 <= edit.startLine <= edit.endLine <= |lines|
  {
    lines[edit.endLine..]
  }

  /** The lines with the range replaced. */
  function Spliced(lines: seq<string>, edit: ResolvedEdit): seq<string>
    requires 1 <= edit.startLine <= edit.endLine <= |lines|
  {
    Prefix(lines, edit) + edit.contentLines + Suffix(lines, edit)
  }

  /** The replacement reaches the end of an unterminated buffer and ends in an empty line. */
  predicate LosesLastLine(content: string, edit: ResolvedEdit)
    requires 1 <= edit.startLine <= edit.endLine <= |SplitLines(content)|
  {
    && edit.contentLines != [] && edit.contentLines[|edit.contentLines| - 1] == ""
    && edit.endLine == |SplitLines(content)| && !EndsWithNewline(content)
    && |Spliced(SplitLines(content), edit)| > 1
  }

  /** A buffer cut at the start of a line. */
  lemma {:induction false} CutAtLine(content: string, i: nat)
    requires i < |SplitLines(content)|
    ensures
      var lines := SplitLines(content);
      var start := |Body(lines[..i])|;
      && start <= |content| && content[..start] == Body(lines[..i])
      && content[start..] == Render(lines[i..], EndsWithNewline(content))
  {
    var lines, terminated := SplitLines(content), EndsWithNewline(content);
    RenderOfSplit(content);
    var n := |lines|;
    assert lines[..n - 1] == lines[..i] + lines[i..n - 1];
    BodyOfConcat(lines[..i], lines[i..n - 1]);
    assert lines[i..][..n - i - 1] == lines[i..n - 1];
    assert content == Body(lines[..i]) + Render(lines[i..], terminated);
  }

  /** A buffer cut at the end of a line, before its newline. */
  lemma {:induction false} CutAfterLine(content: string, i: nat)
    requires i < |SplitLines(content)|
    ensures
      var lines := SplitLines(content);
      var end := |Body(lines[..i])| + |lines[i]|;
      && end <= |content|
      && content[end..] == Tail(lines[i + 1..], EndsWithNewline(content))
  {
    var lines, terminated := SplitLines(content), EndsWithNewline(content);
    CutAtLine(content, i);
    var start, rest := |Body(lines[..i])|, lines[i..];
    RenderOfFirst(rest, terminated);
    assert rest[1..] == lines[i + 1..];
    assert content[start..][|lines[i]|..] == content[start + |lines[i]|..];
  }

  /** What follows a line: a newline and the lines after it, or the end of the buffer. */
  function Tail(rest: seq<string>, terminated: bool): string {
    if rest == [] then (if terminated then [NEWLINE] else "") else [NEWLINE] + Render(rest, terminated)
  }

  lemma {:induction false} EmptyBody()
    ensures Body([]) == ""
  {
  }

  lemma {:induction false} Regroup(a: string, b: string, c: string, d: string, e: string)
    ensures a + b + c + d + e == a + (b + (c + d + e))
  {
  }

  lemma {:induction false} RenderOfFirst(lines: seq<string>, terminated: bool)
    requires lines != []
    ensures Render(lines, terminated) == lines[0] + Tail(lines[1..], terminated)
  {
    hide Body;
    var front, rest := lines[..|lines| - 1], lines[1..];
    if rest != [] {
      BodyOfFirst(front);
      assert front[1..] == rest[..|rest| - 1];
      Regroup(lines[0], [NEWLINE], Body(front[1..]), rest[|rest| - 1], if terminated then [NEWLINE] else "");
    } else {
      EmptyBody();
    }
  }

  lemma {:induction false} RenderOfConcat(a: seq<string>, b: seq<string>, terminated: bool)
    requires b != []
    ensures Render(a + b, terminated) == Body(a) + Render(b, terminated)
  {
    var n := |a + b|;
    assert (a + b)[..n - 1] == a + b[..|b| - 1];
    BodyOfConcat(a, b[..|b| - 1]);
  }

  lemma {:induction false} JoinIsRender(a: seq<string>)
    requires a != []
    ensures Body(a) == Join(a) + [NEWLINE]
    ensures Render(a, true) == Join(a) + [NEWLINE] && Render(a, false) == Join(a)
  {
  }

  /** Lines put before a tail are the render of both. */
  lemma {:induction false} RenderOfJoin(a: seq<string>, rest: seq<string>, terminated: bool)
    requires a != []
    ensures Join(a) + Tail(rest, terminated) == Render(a + rest, terminated)
  {
    hide Body, Render, Join;
    JoinIsRender(a);
    if rest == [] {
      assert a + rest == a;
    } else {
      RenderOfConcat(a, rest, terminated);
      assert Join(a) + ([NEWLINE] + Render(rest, terminated)) == Join(a) + [NEWLINE] + Render(rest, terminated);
    }
  }

  /** Offsets a cut needs: where a line starts and where it ends. */
  lemma {:induction false} Offsets(content: string, index: LineIndex, i: nat, j: nat)
    requires index.Of(content) && i <= j < |SplitLines(content)|
    ensures
      var lines := SplitLines(content);
      && index.fileLines == lines && |index.lineStarts| == |lines|
      && index.lineStarts[i] <= index.lineStarts[j] + |lines[j]| <= |content|
      && index.lineStarts[i] <= index.lineStarts[j]
      && content[..index.lineStarts[i]] == Body(lines[..i])
      && content[index.lineStarts[j]..] == Render(lines[j..], EndsWithNewline(content))
      && content[index.lineStarts[j] + |lines[j]|..] == Tail(lines[j + 1..], EndsWithNewline(content))
  {
    hide Body, Render, Join, SplitLines, Pieces, Tail;
    CutAtLine(content, i);
    CutAtLine(content, j);
    CutAfterLine(content, j);
    StartBeforeEnd(SplitLines(content), i, j);
  }

  /** The replacing splice, on lines. */
  lemma {:induction false} ReplacedLines(content: string, edit: ResolvedEdit, index: LineIndex)
    requires index.Of(content) && edit.Fits(SplitLines(content)) && edit.contentLines != []
    requires ResToSpan(edit, content, index).Replace?
    ensures
      var span := ResToSpan(edit, content, index);
      && span.start <= span.end <= |content|
      && Assemble(content, span) == Render(Spliced(SplitLines(content), edit), EndsWithNewline(content))
  {
    hide Body, Render, Join, SplitLines, Pieces, Tail;
    var lines, terminated := SplitLines(content), EndsWithNewline(content);
    Offsets(content, index, edit.startLine - 1, edit.endLine - 1);
    var rest := lines[edit.endLine..];
    RenderOfJoin(edit.contentLines, rest, terminated);
    RenderOfConcat(Prefix(lines, edit), edit.contentLines + rest, terminated);
    assert Spliced(lines, edit) == Prefix(lines, edit) + (edit.contentLines + rest);
    var span := ResToSpan(edit, content, index);
    assert Assemble(content, span) == Body(Prefix(lines, edit)) + Join(edit.contentLines) + Tail(rest, terminated);
    assert Assemble(content, span) == Body(Prefix(lines, edit)) + (Join(edit.contentLines) + Tail(rest, terminated));
  }

  lemma {:induction false} StartBeforeEnd(lines: seq<string>, i: nat, j: nat)
    requires i <= j <= |lines|
    ensures |Body(lines[..i])| <= |Body(lines[..j])|
  {
    assert lines[..j] == lines[..i] + lines[i..j];
    BodyOfConcat(lines[..i], lines[i..j]);
  }

  /** The buffer that a deletion leaves, if it leaves a line: the other lines, terminated if they were. */
  ghost predicate LeavesLines(content: string, result: string, kept: seq<string>)
    requires kept != []
  {
    exists terminated ::
      && result == Render(kept, terminated)
      && (terminated || kept[|kept| - 1] != "")
      && (EndsWithNewline(content) ==> terminated)
  }

  /** Deleting lines before the last. */
  lemma {:induction false} DeletedInside(content: string, edit: ResolvedEdit, index: LineIndex)
    requires index.Of(content) && edit.Fits(SplitLines(content)) && edit.contentLines == []
    requires edit.endLine < |SplitLines(content)|
    ensures
      var span := ResToSpan(edit, content, index);
      && span.Replace? && span.start <= span.end <= |content|
      && Spliced(SplitLines(content), edit) != []
      && LeavesLines(content, Assemble(content, span), Spliced(SplitLines(content), edit))
  {
    hide Body, Render, Join, SplitLines, Pieces, Tail, LeavesLines;
    var lines := SplitLines(content);
    var s, e := edit.startLine, edit.endLine;
    Offsets(content, index, s - 1, e);
    assert Spliced(lines, edit) == lines[..s - 1] + lines[e..];
    var result := Assemble(content, ResToSpan(edit, content, index));
    WithoutInside(content, s - 1, e);
    assert result == Body(lines[..s - 1]) + "" + Render(lines[e..], EndsWithNewline(content));
    assert result == Body(lines[..s - 1]) + Render(lines[e..], EndsWithNewline(content));
  }

  lemma {:induction false} WithoutInside(content: string, from: nat, to: nat)
    requires from < to < |SplitLines(content)|
    ensures
      var lines := SplitLines(content);
      LeavesLines(content, Body(lines[..from]) + Render(lines[to..], EndsWithNewline(content)),
                  lines[..from] + lines[to..])
  {
    hide Body, Render, SplitLines;
    var lines, terminated := SplitLines(content), EndsWithNewline(content);
    RenderOfConcat(lines[..from], lines[to..], terminated);
    LastLine(content);
    assert Render(lines[..from] + lines[to..], terminated) == Body(lines[..from]) + Render(lines[to..], terminated);
  }

  /** Deleting the last lines. */
  lemma {:induction false} DeletedAtEnd(content: string, edit: ResolvedEdit, index: LineIndex)
    requires index.Of(content) && edit.Fits(SplitLines(content)) && edit.contentLines == []
    requires edit.endLine == |SplitLines(content)| && edit.startLine > 1
    ensures
      var span := ResToSpan(edit, content, index);
      && span.Replace? && span.start <= span.end <= |content|
      && Spliced(SplitLines(content), edit) != []
      && LeavesLines(content, Assemble(content, span), Spliced(SplitLines(content), edit))
  {
    hide Body, Render, Join, SplitLines, Pieces, Tail;
    var lines, terminated := SplitLines(content), EndsWithNewline(content);
    var s := edit.startLine;
    var span, kept := ResToSpan(edit, content, index), Spliced(lines, edit);
    Offsets(content, index, s - 1, |lines| - 1);
    assert kept == lines[..s - 1];
    JoinIsRender(kept);
    if terminated || lines[s - 2] == "" {
      assert Assemble(content, span) == Body(kept);
    } else {
      assert Assemble(content, span) == content[..span.start];
      assert content[..span.start] == Body(kept)[..|Body(kept)| - 1];
      assert Assemble(content, span) == Join(kept);
    }
  }

  /** The deleting splice, on lines: the buffer keeps its lines outside the range, or becomes empty. */
  lemma {:induction false} DeletedLines(content: string, edit: ResolvedEdit, index: LineIndex)
    requires index.Of(content) && edit.Fits(SplitLines(content)) && edit.contentLines == []
    ensures
      var span := ResToSpan(edit, content, index);
      var kept := Spliced(SplitLines(content), edit);
      && span.Replace? && span.start <= span.end <= |content|
      && (kept == [] ==> Assemble(content, span) == "")
      && (kept != [] ==> LeavesLines(content, Assemble(content, span), kept))
  {
    hide SplitLines, LeavesLines;
    var lines := SplitLines(content);
    if edit.endLine < |lines| {
      DeletedInside(content, edit, index);
    } else if edit.startLine > 1 {
      DeletedAtEnd(content, edit, index);
    } else {
      assert lines[..0] + [] + lines[|lines|..] == [];
    }
  }

  lemma {:induction false} LastLine(content: string)
    ensures
      var lines := SplitLines(content);
      |lines| > 1 && !EndsWithNewline(content) ==> lines[|lines| - 1] != ""
  {
    RenderOfSplit(content);
  }

  /**
   The meaning of one edit on lines. A deletion that leaves a line gives the lines outside the range; a
   replacement gives the spliced lines exactly when it does not lose its last line, and otherwise all of
   them but that one. Deleting every line gives the empty text.
   */
  lemma {:induction false} EditMeansSplice(content: string, edit: ResolvedEdit, index: LineIndex)
    requires index.Of(content) && edit.Fits(SplitLines(content))
    ensures
      var span := ResToSpan(edit, content, index);
      && (span.Replace? ==> span.start <= span.end <= |content|)
      && (span.Noop? <==> Spliced(SplitLines(content), edit) == SplitLines(content)
                          && SplitLines(content)[edit.startLine - 1..edit.endLine] == edit.contentLines)
    ensures
      var lines := SplitLines(content);
      var kept := Spliced(lines, edit);
      var result := Assemble(content, ResToSpan(edit, content, index));
      && (kept == [] ==> result == "")
      && (kept != [] ==> (SplitLines(result) == kept <==> !LosesLastLine(content, edit)))
      && (kept != [] && LosesLastLine(content, edit) ==> SplitLines(result) == kept[..|kept| - 1])
      && (kept != [] && EndsWithNewline(content) ==> EndsWithNewline(result))
  {
    hide Body, Render, Join, SplitLines, Pieces, Tail, ResToSpan, Assemble;
    var lines, terminated := SplitLines(content), EndsWithNewline(content);
    var kept := Spliced(lines, edit);
    var span := ResToSpan(edit, content, index);
    NoopSpan(content, edit, index);
    SplicedAllLines(lines, edit);
    if span.Noop? {
      NoopKeeps(content, edit);
    } else if edit.contentLines == [] {
      DeletedLines(content, edit, index);
      if kept != [] {
        var t :| Assemble(content, span) == Render(kept, t) && (t || kept[|kept| - 1] != "") && (terminated ==> t);
        SplitOfRender(kept, t);
        RenderTerminated(kept);
      }
    } else {
      ReplacedLines(content, edit, index);
      SplitOfRender(kept, terminated);
      RenderTerminated(kept);
      LastOfSpliced(content, edit);
    }
  }

  lemma {:induction false} RenderTerminated(lines: seq<string>)
    requires lines != []
    ensures EndsWithNewline(Render(lines, true))
  {
  }

  lemma {:induction false} SplicedAllLines(lines: seq<string>, edit: ResolvedEdit)
    requires edit.Fits(lines) && AllLines(lines)
    ensures AllLines(Spliced(lines, edit))
  {
  }

  lemma {:induction false} NoopSpan(content: string, edit: ResolvedEdit, index: LineIndex)
    requires index.Of(content) && edit.Fits(SplitLines(content))
    ensures ResToSpan(edit, content, index).Noop?
            <==> SplitLines(content)[edit.startLine - 1..edit.endLine] == edit.contentLines
    ensures ResToSpan(edit, content, index).Noop? ==> Spliced(SplitLines(content), edit) == SplitLines(content)
    ensures ResToSpan(edit, content, index).Noop? ==> Assemble(content, ResToSpan(edit, content, index)) == content
  {
    var lines := SplitLines(content);
    if lines[edit.startLine - 1..edit.endLine] == edit.contentLines {
      assert lines == lines[..edit.startLine - 1] + lines[edit.startLine - 1..edit.endLine] + lines[edit.endLine..];
    }
  }

  /** An edit that changes no line loses none: an unterminated buffer of several lines has no empty last line. */
  lemma {:induction false} NoopKeeps(content: string, edit: ResolvedEdit)
    requires edit.Fits(SplitLines(content)) && Spliced(SplitLines(content), edit) == SplitLines(content)
    requires SplitLines(content)[edit.startLine - 1..edit.endLine] == edit.contentLines
    ensures !LosesLastLine(content, edit)
  {
    LastLine(content);
  }

  lemma {:induction false} LastOfSpliced(content: string, edit: ResolvedEdit)
    requires edit.Fits(SplitLines(content)) && edit.contentLines != []
    ensures
      var kept := Spliced(SplitLines(content), edit);
      LosesLastLine(content, edit) <==> !EndsWithNewline(content) && kept[|kept| - 1] == "" && |kept| > 1
  {
    hide SplitLines;
    LastLine(content);
  }

  // ---- the text after an edit ----

  function IndexOf(content: string): (index: LineIndex)
    ensures index.Of(content)
  {
    var lines := SplitLines(content);
    LineIndex(lines, seq(|lines|, i requires 0 <= i < |lines| => |Body(lines[..i])|))
  }

  lemma {:induction false} OneIndexOf(content: string, index: LineIndex)
    requires index.Of(content)
    ensures index == IndexOf(content)
  {
    hide SplitLines, Body;
  }

  /** The text after the edit. */
  function SplicedText(content: string, edit: ResolvedEdit): string
    requires edit.Fits(SplitLines(content))
  {
    EditMeansSplice(content, edit, IndexOf(content));
    Assemble(content, ResToSpan(edit, content, IndexOf(content)))
  }

  /** No line is left, or only an empty one that no newline ends. */
  predicate LeavesNothing(content: string, edit: ResolvedEdit)
    requires 1 <= edit.startLine <= edit.endLine <= |SplitLines(content)|
  {
    var kept := Spliced(SplitLines(content), edit);
    kept == [] || (kept == [""] && edit.contentLines != [] && !EndsWithNewline(content))
  }

  lemma {:induction false} RenderEmpty(lines: seq<string>, terminated: bool)
    requires lines != []
    ensures Render(lines, terminated) == "" <==> lines == [""] && !terminated
  {
    if |lines| > 1 {
      var front := lines[..|lines| - 1];
      assert Body(front) == Body(front[..|front| - 1]) + front[|front| - 1] + [NEWLINE];
    } else {
      assert lines[..0] == [] && Body([]) == "" && lines == [lines[0]];
    }
  }

  /** Exactly which edits leave the empty text. */
  lemma {:induction false} EmptyExactly(content: string, edit: ResolvedEdit)
    requires edit.Fits(SplitLines(content))
    ensures SplicedText(content, edit) == "" <==> LeavesNothing(content, edit)
  {
    hide Body, Render, Join, SplitLines, Pieces, Tail, ResToSpan, Assemble, LeavesLines, IndexOf;
    var lines, terminated := SplitLines(content), EndsWithNewline(content);
    var kept, index := Spliced(lines, edit), IndexOf(content);
    NoopSpan(content, edit, index);
    if ResToSpan(edit, content, index).Noop? {
      RenderOfSplit(content);
      RenderEmpty(lines, terminated);
      assert edit.contentLines == lines[edit.startLine - 1..edit.endLine];
    } else if edit.contentLines == [] {
      DeletedLines(content, edit, index);
      if kept != [] {
        LeavesText(content, SplicedText(content, edit), kept);
      }
    } else {
      ReplacedLines(content, edit, index);
      RenderEmpty(kept, terminated);
    }
  }

  lemma {:induction false} LeavesText(content: string, result: string, kept: seq<string>)
    requires kept != [] && LeavesLines(content, result, kept)
    ensures result != ""
  {
    hide Render;
    var terminated :| result == Render(kept, terminated) && (terminated || kept[|kept| - 1] != "");
    RenderEmpty(kept, terminated);
  }

  /** An edit that loses its last line: an unterminated single line, to be followed by an empty one. */
  lemma {:induction false} LosingInstance()
    ensures
      var content, edit := "a", ResolvedEdit(1, 1, ["a", ""]);
      && SplitLines(content) == ["a"] && edit.Fits(SplitLines(content)) && LosesLastLine(content, edit)
      && SplicedText(content, edit) == "a\n"
      && Spliced(SplitLines(content), edit) == ["a", ""] && SplitLines("a\n") == ["a"]
  {
    hide ResToSpan, Assemble, IndexOf;
    var content, edit := "a", ResolvedEdit(1, 1, ["a", ""]);
    assert Pieces("") == [""];
    assert "a"[1..] == "" && ['a'] + "" == "a" && [""][1..] == [];
    assert Pieces("a") == [['a'] + Pieces("")[0]] + Pieces("")[1..] == ["a"];
    assert !EndsWithNewline("a") && SplitLines(content) == ["a"];
    assert edit.Fits(SplitLines(content));
    assert Spliced(SplitLines(content), edit) == ["a", ""];
    LosingText(content, edit);
    assert "a\n"[1..] == "\n" && "\n"[1..] == "" && Pieces("\n") == ["", ""];
    assert Pieces("a\n") == [['a'] + Pieces("\n")[0]] + Pieces("\n")[1..] == ["a", ""];
    assert SplitLines("a\n") == ["a", ""][..1] == ["a"];
  }

  lemma {:induction false} LosingText(content: string, edit: ResolvedEdit)
    requires content == "a" && edit == ResolvedEdit(1, 1, ["a", ""]) && edit.Fits(SplitLines(content))
    requires SplitLines(content) == ["a"] && Spliced(SplitLines(content), edit) == ["a", ""]
    ensures SplicedText(content, edit) == "a\n"
  {
    hide SplitLines, ResToSpan, Assemble, IndexOf;
    var index := IndexOf(content);
    NoopSpan(content, edit, index);
    ReplacedLines(content, edit, index);
    assert ["a", ""][..1] == ["a"] && ["a"][..0] == [];
    assert Body([]) == "" && Body(["a"]) == "a\n";
    assert Render(["a", ""], false) == "a\n";
  }
}
