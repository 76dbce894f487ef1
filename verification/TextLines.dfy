/** Text and its lines: how the engine splits a buffer, and what it means to put lines back. */
module TextLines {

  const NEWLINE := '\n'

  ghost predicate OneLine(line: string) {
    NEWLINE !in line
  }

  ghost predicate AllLines(lines: seq<string>) {
    forall k | 0 <= k < |lines| :: OneLine(lines[k])
  }

  predicate EndsWithNewline(text: string) {
    text != "" && text[|text| - 1] == NEWLINE
  }

  /** The pieces of a text between its newlines; one more piece than there are newlines. */
  function Pieces(text: string): (r: seq<string>)
    ensures r != []
    ensures AllLines(r)
  {
    if text == "" then [""]
    else
      var rest := Pieces(text[1..]);
      if text[0] == NEWLINE then [""] + rest else [[text[0]] + rest[0]] + rest[1..]
  }

  /** The lines of a buffer: a final newline ends the last line instead of starting an empty one. */
  function SplitLines(text: string): (r: seq<string>)
    ensures r != []
    ensures AllLines(r)
  {
    if text == "" then [""]
    else if EndsWithNewline(text) then PiecesOfTerminated(text); Pieces(text)[..|Pieces(text)| - 1]
    else Pieces(text)
  }

  lemma {:induction false} PiecesOfTerminated(text: string)
    requires EndsWithNewline(text)
    ensures |Pieces(text)| > 1 && Pieces(text)[|Pieces(text)| - 1] == ""
    decreases |text|
  {
    if |text| > 1 {
      PiecesOfTerminated(text[1..]);
    } else {
      assert Pieces(text[1..]) == [""];
    }
  }

  /** Every line followed by a newline. */
  function Body(lines: seq<string>): string {
    if lines == [] then "" else Body(lines[..|lines| - 1]) + lines[|lines| - 1] + [NEWLINE]
  }

  /** The buffer with these lines, with or without a newline after the last. */
  function Render(lines: seq<string>, terminated: bool): string
    requires lines != []
  {
    Body(lines[..|lines| - 1]) + lines[|lines| - 1] + if terminated then [NEWLINE] else ""
  }

  /** Lines with a newline between each two. */
  function Join(lines: seq<string>): string {
    if lines == [] then "" else Render(lines, false)
  }

  lemma {:induction false} BodyOfFirst(lines: seq<string>)
    requires lines != []
    ensures Body(lines) == lines[0] + [NEWLINE] + Body(lines[1..])
    decreases |lines|
  {
    if |lines| > 1 {
      var front := lines[..|lines| - 1];
      BodyOfFirst(front);
      assert front[1..] == lines[1..][..|lines| - 2];
    } else {
      assert lines[..0] == [] && lines[1..] == [];
    }
  }

  lemma {:induction false} BodyOfConcat(a: seq<string>, b: seq<string>)
    ensures Body(a + b) == Body(a) + Body(b)
    decreases |b|
  {
    if b == [] {
      assert a + b == a;
    } else {
      BodyOfConcat(a, b[..|b| - 1]);
      assert (a + b)[..|a + b| - 1] == a + b[..|b| - 1];
    }
  }

  // ---- putting pieces back, and splitting what was put back ----

  lemma {:induction false} PiecesOfLine(line: string, rest: string)
    requires OneLine(line)
    ensures Pieces(line + rest) == [line + Pieces(rest)[0]] + Pieces(rest)[1..]
    decreases |line|
  {
    if line == "" {
      assert line + rest == rest;
      assert line + Pieces(rest)[0] == Pieces(rest)[0];
    } else {
      PiecesOfLine(line[1..], rest);
      assert (line + rest)[1..] == line[1..] + rest;
      assert line[1..] + rest == (line + rest)[1..];
      assert [line[0]] + (line[1..] + Pieces(rest)[0]) == line + Pieces(rest)[0];
    }
  }

  lemma {:induction false} PiecesOfBody(lines: seq<string>, last: string)
    requires AllLines(lines) && OneLine(last)
    ensures Pieces(Body(lines) + last) == lines + [last]
    decreases |lines|
  {
    if lines == [] {
      PiecesOfLine(last, "");
      assert last + "" == last && Body(lines) + last == last;
    } else {
      PiecesOfBody(lines[1..], last);
      BodyOfFirst(lines);
      var rest := Body(lines[1..]) + last;
      PiecesOfLine(lines[0], [NEWLINE] + rest);
      assert ([NEWLINE] + rest)[1..] == rest;
      assert Body(lines) + last == lines[0] + ([NEWLINE] + rest);
      assert lines[0] + "" == lines[0];
    }
  }

  lemma {:induction false} BodyEnds(lines: seq<string>)
    requires lines != []
    ensures EndsWithNewline(Body(lines))
  {
  }

  /**
   What splitting a rendered buffer gives back: its lines, except that an unterminated buffer loses an
   empty last line that is not its only one.
   */
  lemma {:induction false} SplitOfRender(lines: seq<string>, terminated: bool)
    requires lines != [] && AllLines(lines)
    ensures terminated || lines[|lines| - 1] != "" || |lines| == 1 ==> SplitLines(Render(lines, terminated)) == lines
    ensures !terminated && lines[|lines| - 1] == "" && |lines| > 1 ==>
              SplitLines(Render(lines, terminated)) == lines[..|lines| - 1]
  {
    var text, front, last := Render(lines, terminated), lines[..|lines| - 1], lines[|lines| - 1];
    assert lines == front + [last];
    if terminated {
      PiecesOfBody(lines, "");
      assert text == Body(lines) && Body(lines) + "" == text;
      BodyEnds(lines);
    } else if last != "" {
      PiecesOfBody(front, last);
      assert text == Body(front) + last;
      assert text[|text| - 1] == last[|last| - 1];
      assert last[|last| - 1] in last;
    } else if |lines| > 1 {
      PiecesOfBody(front, "");
      assert text == Body(front) && Body(front) + "" == text;
      BodyEnds(front);
    } else {
      assert text == "";
    }
  }

  lemma {:induction false} JoinOfFirst(lines: seq<string>)
    requires |lines| > 1
    ensures Join(lines) == lines[0] + [NEWLINE] + Join(lines[1..])
  {
    hide Body;
    var front, rest := lines[..|lines| - 1], lines[1..];
    BodyOfFirst(front);
    assert front[1..] == rest[..|rest| - 1];
    assert Join(rest) == Body(front[1..]) + rest[|rest| - 1] + "";
    assert Join(lines) == Body(front) + rest[|rest| - 1] + "";
  }

  lemma {:induction false} JoinNewline(rest: seq<string>)
    requires rest != []
    ensures Join([""] + rest) == [NEWLINE] + Join(rest)
  {
    JoinOfFirst([""] + rest);
    assert ([""] + rest)[1..] == rest;
  }

  lemma {:induction false} JoinOne(line: string)
    ensures Join([line]) == line
  {
    assert [line][..0] == [];
  }

  lemma {:induction false} JoinChar(c: char, rest: seq<string>)
    requires rest != []
    ensures Join([[c] + rest[0]] + rest[1..]) == [c] + Join(rest)
  {
    hide Join, Body;
    var lines := [[c] + rest[0]] + rest[1..];
    if |rest| > 1 {
      JoinOfFirst(lines);
      JoinOfFirst(rest);
      assert lines[1..] == rest[1..];
      assert [c] + rest[0] + [NEWLINE] + Join(rest[1..]) == [c] + (rest[0] + [NEWLINE] + Join(rest[1..]));
    } else {
      assert lines == [[c] + rest[0]] && rest == [rest[0]];
      JoinOne([c] + rest[0]);
      JoinOne(rest[0]);
    }
  }

  lemma {:induction false} JoinOfPieces(text: string)
    ensures text == Join(Pieces(text))
    decreases |text|
  {
    hide Join;
    if text == "" {
      JoinOne("");
    } else {
      JoinOfPieces(text[1..]);
      assert text == [text[0]] + text[1..];
      if text[0] == NEWLINE {
        JoinNewline(Pieces(text[1..]));
      } else {
        JoinChar(text[0], Pieces(text[1..]));
      }
    }
  }

  lemma {:induction false} LastPieceEmpty(text: string)
    ensures
      var pieces := Pieces(text);
      pieces[|pieces| - 1] == "" && |pieces| > 1 ==> EndsWithNewline(text)
  {
    JoinOfPieces(text);
    var pieces := Pieces(text);
    if pieces[|pieces| - 1] == "" && |pieces| > 1 {
      BodyEnds(pieces[..|pieces| - 1]);
    }
  }

  /** A buffer is its lines, terminated or not; an unterminated buffer ends in a non-empty line or is empty. */
  lemma {:induction false} RenderOfSplit(text: string)
    ensures text == Render(SplitLines(text), EndsWithNewline(text))
    ensures
      var lines := SplitLines(text);
      EndsWithNewline(text) || lines[|lines| - 1] != "" || (|lines| == 1 && text == "")
  {
    JoinOfPieces(text);
    var pieces := Pieces(text);
    if EndsWithNewline(text) {
      PiecesOfTerminated(text);
      var lines := SplitLines(text);
      assert lines == pieces[..|pieces| - 1];
      assert text == Body(lines);
    } else {
      LastPieceEmpty(text);
    }
  }
}
