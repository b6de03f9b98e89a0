/** The `Editor` object: the rope it edits, the terminal cursor, the
    scroll offset and the terminal height as fields, and its methods as
    the loops and updates of the source, each proved to agree with the
    functions of `Cursor`, `Buffer` and `Render`. */
module Editor {
  import opened Options
  import opened Buffer
  import opened Syntax
  import opened Render
  import Cursor

  /** The first loop of `Editor::new`: the index of every '\n' of the file. */
  method NewlineIndices(content: Text) returns (indices: seq<nat>)
    ensures indices == NewlinesFrom(content, 0)
  {
    indices := [];
    var i := 0;
    while i < |content|
      invariant i <= |content|
      invariant indices == NewlinesFrom(content[..i], 0)
    {
      NewlinesFromSnoc(content[..i], content[i], 0);
      assert content[..i + 1] == content[..i] + [content[i]];
      if content[i] == '\n' {
        indices := indices + [i];
      }
      i := i + 1;
    }
    assert content[..i] == content;
  }

  /** Normalising up to just past a '\n' that follows a stretch without one. */
  lemma {:induction false} CarriageReturnStep(content: Text, m: nat, p: nat)
    requires m <= p < |content| && content[p] == '\n' && '\n' !in content[m..p]
    ensures Normalize(content[..p + 1]) == Normalize(content[..m]) + content[m..p] + ['\r', '\n']
  {
    assert content[..p + 1] == content[..m] + content[m..p] + ['\n'];
    NormalizeAppend(content[..m] + content[m..p], ['\n']);
    NormalizeAppend(content[..m], content[m..p]);
    NormalizeWithoutNewline(content[m..p]);
    assert Normalize(['\n']) == ['\r', '\n'] by {
      assert ['\n'][1..] == [];
    }
  }

  /** The next collected index is the next '\n' at or after m. */
  lemma {:induction false} NextNewline(content: Text, indices: seq<nat>, k: nat, m: nat)
    requires k < |indices| && m <= |content|
    requires indices[k..] == NewlinesFrom(content[m..], m)
    ensures var p := indices[k];
      && m <= p < |content| && content[p] == '\n' && '\n' !in content[m..p]
      && indices[k + 1..] == NewlinesFrom(content[p + 1..], p + 1)
  {
    FirstNewline(content[m..], m);
    var p := indices[k];
    assert content[m..][..p - m] == content[m..p];
    assert content[m..][p - m + 1..] == content[p + 1..];
    assert indices[k + 1..] == indices[k..][1..];
  }

  /** Inserting '\r' at index p + k of a rope that holds the first m
      characters normalised (k characters longer) and the rest as they are. */
  lemma {:induction false} InsertBeforeNewline(content: Text, n: Text, m: nat, p: nat, k: nat, rope: Text)
    requires m <= p < |content| && content[p] == '\n'
    requires rope == n + content[m..] && |n| == m + k
    ensures p + k <= |rope|
    ensures rope[..p + k] + ['\r'] + rope[p + k..] == n + content[m..p] + ['\r', '\n'] + content[p + 1..]
  {
    assert content[m..] == content[m..p] + (['\n'] + content[p + 1..]);
    assert rope == (n + content[m..p]) + (['\n'] + content[p + 1..]);
  }

  /** One turn of the second loop of `Editor::new`: the next '\r' goes in
      front of the next '\n', at p, k places further on than in the file. */
  lemma {:induction false} InsertStep(content: Text, indices: seq<nat>, k: nat, m: nat, p: nat, rope: Text)
    requires k < |indices| && m <= |content| && p == indices[k]
    requires rope == Normalize(content[..m]) + content[m..]
    requires |Normalize(content[..m])| == m + k
    requires indices[k..] == NewlinesFrom(content[m..], m)
    ensures m <= p < |content| && p + k <= |rope|
    ensures var next := rope[..p + k] + ['\r'] + rope[p + k..];
      && next == Normalize(content[..p + 1]) + content[p + 1..]
      && |Normalize(content[..p + 1])| == p + 1 + k + 1
    ensures indices[k + 1..] == NewlinesFrom(content[p + 1..], p + 1)
  {
    var n := Normalize(content[..m]);
    NextNewline(content, indices, k, m);
    CarriageReturnStep(content, m, p);
    InsertBeforeNewline(content, n, m, p, k, rope);
    var done := n + content[m..p] + ['\r', '\n'];
    assert Normalize(content[..p + 1]) == done;
    assert |done| == p + 1 + k + 1;
    assert rope[..p + k] + ['\r'] + rope[p + k..] == done + content[p + 1..];
  }

  /** The second loop of `Editor::new`: a '\r' inserted before each '\n';
      the k-th goes k places further on, past the k inserted before it. */
  method InsertCarriageReturns(content: Text, indices: seq<nat>) returns (rope: Text)
    requires indices == NewlinesFrom(content, 0)
    ensures rope == Normalize(content)
  {
    rope := content;
    var k: nat, m: nat := 0, 0;
    assert content[..0] == [] && content[0..] == content;
    while k < |indices|
      invariant k <= |indices| && m <= |content|
      invariant rope == Normalize(content[..m]) + content[m..]
      invariant |Normalize(content[..m])| == m + k
      invariant indices[k..] == NewlinesFrom(content[m..], m)
      decreases |indices| - k
    {
      var p := indices[k];
      InsertStep(content, indices, k, m, p, rope);
      rope, m, k := rope[..p + k] + ['\r'] + rope[p + k..], p + 1, k + 1;
    }
    InsertDone(content, m);
  }

  /** Once no '\n' is left after m, the rope is the whole text normalised. */
  lemma {:induction false} InsertDone(content: Text, m: nat)
    requires m <= |content| && NewlinesFrom(content[m..], m) == []
    ensures Normalize(content[..m]) + content[m..] == Normalize(content)
  {
    var a, b := content[..m], content[m..];
    assert a + b == content;
    NoNewlines(b, m);
    NormalizeWithoutNewline(b);
    NormalizeAppend(a, b);
  }

  class Editor {
    /** The rope. */
    var text: Text
    /** The terminal cursor: column and viewport row. */
    var col: nat
    var row: nat
    /** The absolute row shown at the top of the viewport. */
    var scroll: nat
    /** The terminal's height in rows. */
    const height: nat

    function State(): Cursor.State
      reads this
    {
      Cursor.State(text, col, row, scroll, height)
    }

    predicate Valid()
      reads this
    {
      Cursor.Valid(State())
    }

    /** `Editor::new`: the file's text with a '\r' before every '\n', the
        cursor at the top left. */
    constructor (content: Text, height: nat)
      requires height >= 1
      ensures text == Normalize(content) && this.height == height
      ensures col == 0 && row == 0 && scroll == 0
      ensures Valid()
    {
      var indices := NewlineIndices(content);
      var rope := InsertCarriageReturns(content, indices);
      text, col, row, scroll := rope, 0, 0, 0;
      this.height := height;
      new;
      NormalizeCrBeforeLf(content);
      CrBeforeLfIsNormalized(Normalize(content));
    }

    /** `save`: the bytes written to the file are the rope's without its '\r's. */
    method SaveFile() returns (written: Text)
      ensures written == Save(text)
    {
      written := [];
      var i := 0;
      while i < |text|
        invariant i <= |text|
        invariant written == Save(text[..i])
      {
        assert text[..i + 1] == text[..i] + [text[i]];
        SaveAppend(text[..i], [text[i]]);
        assert Save([text[i]]) == (if text[i] == '\r' then [] else [text[i]]) by {
          assert [text[i]][1..] == [];
        }
        if text[i] != '\r' {
          written := written + [text[i]];
        }
        i := i + 1;
      }
      assert text[..i] == text;
    }

    /** `get_rope_index`: the line lengths of the rows above `r`, plus
        `column`; past the last line, the whole length. */
    method GetRopeIndex(column: nat, r: nat) returns (count: nat)
      ensures count == RopeIndex(text, column, r)
    {
      var ls := Lines(text);
      count := 0;
      var i := 0;
      while i < |ls|
        invariant i <= |ls| && i <= r
        invariant count == SumLens(ls[..i])
      {
        if i >= r {
          count := count + column;
          return;
        }
        assert ls[..i + 1][..i] == ls[..i];
        count := count + |ls[i]|;
        i := i + 1;
      }
      assert ls[..i] == ls;
    }

    /** `get_line_number`; in a valid state it names a line of the rope. */
    method GetLineNumber() returns (n: nat)
      ensures n == Cursor.LineNumber(State())
      ensures Valid() ==> n < LineCount(text)
    {
      n := row + scroll;
    }

    /** `get_cursor_index`. */
    method GetCursorIndex() returns (idx: nat)
      requires Valid()
      ensures idx == Cursor.CursorIndex(State()) && idx <= |text|
    {
      var line := GetLineNumber();
      idx := GetRopeIndex(col, line);
      Cursor.CursorSplit(State());
    }

    /** `get_current_line_len`: the length of the cursor's line without its
        terminator. */
    method GetCurrentLineLen() returns (n: nat)
      requires row + scroll < LineCount(text)
      ensures n == Cursor.CurrentLineLen(State())
      ensures Normalized(text) ==>
        var ls := Lines(text); var ln := ls[row + scroll];
        && '\n' !in ln[..n]
        && (row + scroll < |ls| - 1 ==> ln == ln[..n] + ['\r', '\n'])
        && (row + scroll == |ls| - 1 ==> n == |ln|)
    {
      var line := GetLineNumber();
      n := LineLen(Lines(text)[line]);
      if Normalized(text) {
        ContentOfLine(Lines(text), line);
      }
    }

    /** `get_visible_lines_len`: how many of the rope's lines other than the
        last lie in the viewport. */
    method GetVisibleLinesLen() returns (size: nat)
      ensures size == VisibleLineCount(LineCount(text), scroll, height)
    {
      size := 0;
      var i := 0;
      while i < LineCount(text) - 1
        invariant i <= LineCount(text) - 1
        invariant size == SatSub(Min(i, scroll + height), scroll)
      {
        if i >= scroll && i < scroll + height {
          size := size + 1;
        }
        i := i + 1;
      }
    }

    /** `attempt_cursor_move`; the terminal keeps the cursor on screen,
        so moving up from row 0 or down from the bottom row leaves the row. */
    method AttemptCursorMove(m: Cursor.CursorMovement)
      requires m == Cursor.Right ==> row + scroll < LineCount(text)
      requires m == Cursor.Down ==> row < height
      modifies this
      ensures State() == Cursor.Move(old(State()), m)
    {
      match m
      case Up =>
        if row == 0 {
          scroll := SatSub(scroll, 1);
        }
        row := SatSub(row, 1);
      case Down =>
        var line := GetLineNumber();
        if line < SatSub(LineCount(text), 2) {
          if row == height - 1 {
            scroll := scroll + 1;
          }
          row := Min(row + 1, height - 1);
        }
      case Left =>
        col := SatSub(col, 1);
      case Right =>
        var len := GetCurrentLineLen();
        if col < len {
          col := col + 1;
        }
    }

    /** A typed character: inserted at the cursor, then a move Right. */
    method TypeChar(c: Cursor.TypedChar)
      requires Valid()
      modifies this
      ensures State() == Cursor.InsertChar(old(State()), c)
    {
      var idx := GetCursorIndex();
      Cursor.InsertCharLines(State(), c);
      text := text[..idx] + [c] + text[idx..];
      AttemptCursorMove(Cursor.Right);
    }

    /** Enter: "\r\n" inserted at the cursor, a move Down, then column 0. */
    method BreakLine()
      requires Valid()
      modifies this
      ensures State() == Cursor.InsertNewline(old(State()))
    {
      var idx := GetCursorIndex();
      Cursor.InsertNewlineLines(State());
      text := text[..idx] + ['\r', '\n'] + text[idx..];
      AttemptCursorMove(Cursor.Down);
      col := 0;
    }

    /** Backspace inside a line. */
    method DeleteInLine()
      requires Valid() && col > 0
      modifies this
      ensures State() == Cursor.DeleteInLine(old(State()))
    {
      var idx := GetCursorIndex();
      Cursor.DeleteInLineLines(State());
      text := text[..idx - 1] + text[idx..];
      AttemptCursorMove(Cursor.Left);
    }

    /** Backspace on an empty line below the first. */
    method DeleteEmptyLine()
      requires Valid() && col == 0 && Cursor.CurrentLineLen(State()) == 0 && row + scroll != 0
      modifies this
      ensures State() == Cursor.DeleteEmptyLine(old(State()))
    {
      ghost var s0 := State();
      var idx := GetCursorIndex();
      Cursor.DeleteEmptyLineLines(s0);
      text := text[..idx] + text[idx + 2..];
      ghost var cut := State();
      assert cut == s0.(text := s0.text[..idx] + s0.text[idx + 2..]);
      AttemptCursorMove(Cursor.Up);
      ghost var up := State();
      assert up == Cursor.Move(cut, Cursor.Up);
      assert Cursor.DeleteEmptyLine(s0) == up.(col := Cursor.CurrentLineLen(up));
      col := GetCurrentLineLen();
    }

    /** Backspace at the start of a non-empty line below the first. */
    method JoinLines()
      requires Valid() && col == 0 && row + scroll != 0
      modifies this
      ensures State() == Cursor.JoinLines(old(State()))
    {
      ghost var s0 := State();
      var idx := GetCursorIndex();
      Cursor.JoinLinesLines(s0);
      AttemptCursorMove(Cursor.Up);
      ghost var up := State();
      assert up == Cursor.Move(s0, Cursor.Up) && up.text == s0.text;
      col := GetCurrentLineLen();
      assert col == Cursor.CurrentLineLen(up);
      text := text[..idx - 2] + text[idx..];
    }

    /** Backspace, in the source's three cases; moving up out of row 0
        scrolls by the one line `attempt_cursor_move` scrolls. */
    method DeleteBackward()
      requires Valid()
      modifies this
      ensures State() == Cursor.DeleteBackward(old(State()))
    {
      if col > 0 {
        DeleteInLine();
      } else {
        var len := GetCurrentLineLen();
        var line := GetLineNumber();
        if len == 0 && line != 0 {
          DeleteEmptyLine();
        } else if line != 0 {
          JoinLines();
        }
      }
    }

    /** The clamp that ends `step`: the cursor no further right than the
        end of its line. */
    method ClampColumn()
      requires Cursor.Frame(State())
      modifies this
      ensures State() == Cursor.Clamp(old(State()))
    {
      var len := GetCurrentLineLen();
      col := Min(col, len);
    }

    /** `step` for one key. Esc stops the editor; Ctrl+S writes the file;
        every other key edits and moves as `Cursor.Step` says, and the
        column is then clamped to the cursor's line. */
    method Step(k: Cursor.Key) returns (running: bool, saved: Option<Text>)
      requires Valid()
      modifies this
      ensures running == (k != Cursor.Esc)
      ensures saved == if k == Cursor.Char('s', true) then Some(Save(old(text))) else None
      ensures State() == Cursor.Step(old(State()), k)
      ensures Valid()
    {
      saved := None;
      ghost var s0 := State();
      match k {
        case Esc =>
          return false, None;
        case Arrow(m) =>
          AttemptCursorMove(m);
        case Char(c, control) =>
          if c == 's' && control {
            var written := SaveFile();
            saved := Some(written);
          } else {
            TypeChar(c);
          }
        case Enter =>
          BreakLine();
        case Backspace =>
          DeleteBackward();
        case Other =>
      }
      assert State() == Cursor.Apply(s0, k);
      ClampColumn();
      running := true;
    }

    /** The span layout of `redraw`: the leaves of the parse tree, those
        starting on a screen row each with the text printed before it. */
    method Redraw(tree: Node) returns (spans: seq<Span>)
      requires height >= 1
      ensures spans == Layout(text, Leaves(tree), scroll, height, RopeIndex(text, 0, scroll))
    {
      var nodes := Leaves(tree);
      var last: nat := GetRopeIndex(0, scroll);
      ghost var first := last;
      spans := [];
      var i := 0;
      while i < |nodes|
        invariant i <= |nodes|
        invariant spans + Layout(text, nodes[i..], scroll, height, last) == Layout(text, nodes, scroll, height, first)
      {
        var node := nodes[i];
        if node.start.row < scroll || node.start.row > scroll + height - 1 {
          LayoutTurn(text, nodes, i, scroll, height, last, RopeIndex(text, node.start.column, node.start.row));
          i := i + 1;
          continue;
        }
        var index := GetRopeIndex(node.start.column, node.start.row);
        LayoutTurn(text, nodes, i, scroll, height, last, index);
        var gap := if index > last then [Span(None, last, index)] else [];
        var end: nat := index + SatSub(node.end.column, node.start.column);
        var tok := Span(Some(node.kind % PaletteSize), index, end);
        SpansAssoc(spans, gap, [tok], Layout(text, nodes[i + 1..], scroll, height, end));
        spans := spans + gap + [tok];
        last := end;
        i := i + 1;
      }
      assert nodes[i..] == [];
    }
  }
}
