/** The cursor and scroll state machine of the editor, as functions of a
    state value: how `attempt_cursor_move` moves the viewport-relative
    cursor and the scroll offset, how each key of `step` edits the buffer,
    and the column clamp that follows every key. The `Editor` class is
    verified against these functions; the properties are proved here. */
module Cursor {
  import opened Buffer

  /** A character a key press can type. The terminal reports the line
      break keys as Enter, never as a typed character. */
  type TypedChar = c: char | c != '\n' && c != '\r' witness 'a'

  datatype CursorMovement = Up | Down | Left | Right

  /** A key press as `step` dispatches it. `control` says the modifiers
      are exactly Ctrl; `Other` is every other key and every event that is
      not a key press. */
  datatype Key =
    | Arrow(m: CursorMovement)
    | Char(c: TypedChar, control: bool)
    | Enter
    | Backspace
    | Esc
    | Other

  /** The buffer, the cursor relative to the viewport, the scroll offset
      (the absolute row of the top viewport row) and the terminal height. */
  datatype State = State(text: Text, col: nat, row: nat, scroll: nat, height: nat)

  /** `get_line_number`: the absolute row of the cursor. */
  function LineNumber(s: State): nat { s.row + s.scroll }

  /** The buffer is normalised, the cursor is on screen, and its line is
      one `Down` can reach (never the final line of a buffer with more than one). */
  predicate Frame(s: State) {
    && s.height >= 1
    && s.row < s.height
    && LineNumber(s) <= SatSub(LineCount(s.text), 2)
    && Normalized(s.text)
  }

  function CurrentLine(s: State): Text
    requires LineNumber(s) < LineCount(s.text)
  {
    Lines(s.text)[LineNumber(s)]
  }

  /** `get_current_line_len`. */
  function CurrentLineLen(s: State): nat
    requires LineNumber(s) < LineCount(s.text)
  {
    LineLen(CurrentLine(s))
  }

  /** The states `step` keeps: a frame with the column inside the line. */
  predicate Valid(s: State) {
    Frame(s) && s.col <= CurrentLineLen(s)
  }

  /** `get_cursor_index`: the rope index of the cursor's absolute position. */
  function CursorIndex(s: State): nat {
    RopeIndex(s.text, s.col, LineNumber(s))
  }

  // ---------------------------------------------------------------------
  // attempt_cursor_move and the clamp
  // ---------------------------------------------------------------------

  /** `attempt_cursor_move`. The terminal's own clamping of the cursor
      (no move up from row 0, left from column 0 or down from the last row)
      is written out. */
  function Move(s: State, m: CursorMovement): (r: State)
    requires m == Right ==> LineNumber(s) < LineCount(s.text)
    requires m == Down ==> s.height >= 1
    ensures r.text == s.text && r.height == s.height
    ensures Frame(s) ==> Frame(r)
  {
    match m
    case Up =>
      if s.row == 0 then s.(scroll := SatSub(s.scroll, 1)) else s.(row := s.row - 1)
    case Down =>
      if LineNumber(s) < SatSub(LineCount(s.text), 2) then
        if s.row == s.height - 1 then s.(scroll := s.scroll + 1) else s.(row := s.row + 1)
      else s
    case Left => s.(col := SatSub(s.col, 1))
    case Right => if s.col < CurrentLineLen(s) then s.(col := s.col + 1) else s
  }

  /** The column clamp that ends every `step`. */
  function Clamp(s: State): (r: State)
    requires Frame(s)
    ensures Valid(r)
    ensures r.col <= s.col && r == s.(col := r.col)
    ensures r.col == Min(s.col, CurrentLineLen(s))
  {
    var r := s.(col := Min(s.col, CurrentLineLen(s)));
    assert r.text == s.text && LineNumber(r) == LineNumber(s);
    assert Frame(r);
    assert CurrentLineLen(r) == CurrentLineLen(s);
    r
  }

  /** One more than the largest `usize`. */
  const UsizeModulus: nat := 0x1_0000_0000_0000_0000

  /** The guard of `Down` as written: `len_lines - 2` in `usize`, which
      wraps when the rope has a single line. */
  predicate DownGuardAsWritten(s: State) {
    LineNumber(s) < (LineCount(s.text) - 2) % UsizeModulus
  }

  /** In a buffer of one line the guard as written lets Down through to a
      line that does not exist; the saturating guard of Move refuses. */
  lemma {:induction false} DownGuardAsWrittenPassesOnSingleLine(s: State)
    requires Valid(s) && LineCount(s.text) == 1
    ensures DownGuardAsWritten(s)
    ensures LineNumber(s) + 1 >= LineCount(s.text)
    ensures Move(s, Down) == s
  {
  }

  /** The scrolling of Backspace cases 2 and 3 as written: `scroll -= 1`
      on viewport row 0, and then the move Up, which on row 0 takes
      another line off the scroll offset. */
  function BackspaceUpAsWritten(s: State): State
    requires s.row == 0 ==> s.scroll >= 1
  {
    Move(if s.row == 0 then s.(scroll := s.scroll - 1) else s, Up)
  }

  /** With two or more lines scrolled off, Backspace as written lands two
      lines up instead of one. */
  lemma {:induction false} BackspaceUpAsWrittenSkipsLine(s: State)
    requires s.row == 0 && s.scroll >= 2
    ensures LineNumber(BackspaceUpAsWritten(s)) == LineNumber(s) - 2
    ensures LineNumber(Move(s, Up)) == LineNumber(s) - 1
  {
  }

  // ---------------------------------------------------------------------
  // Lines of the buffer around the cursor
  // ---------------------------------------------------------------------

  lemma {:induction false} SplitAt(p: Text, ln: Text, q: Text, k: nat)
    requires k <= |ln|
    ensures (p + ln + q)[..|p| + k] == p + ln[..k]
    ensures (p + ln + q)[|p| + k..] == ln[k..] + q
  {
    assert (p + ln + q)[..|p| + k] == p + ln[..k] by {
      assert forall i :: 0 <= i < |p| + k ==> (p + ln + q)[i] == (p + ln[..k])[i];
    }
    assert (p + ln + q)[|p| + k..] == ln[k..] + q by {
      assert forall i :: 0 <= i < |ln| - k + |q| ==> (p + ln + q)[|p| + k + i] == (ln[k..] + q)[i];
    }
  }

  lemma {:induction false} CrLfOf(x: Text)
    requires '\n' !in x
    ensures CrLfLine(x + ['\r', '\n'])
  {
    assert (x + ['\r', '\n'])[..|x| + 1] == x + ['\r'];
  }

  lemma {:induction false} FlattenOne(x: Text)
    ensures Flatten([x]) == x
  {
    assert [x][1..] == [];
  }

  /** Where the cursor is: inside its line, which sits after the lines above it. */
  lemma {:induction false} CursorLine(s: State)
    requires Valid(s)
    ensures var ls := Lines(s.text); var L := LineNumber(s); var ln := ls[L];
      && s.text == Flatten(ls[..L]) + ln + Flatten(ls[L + 1..])
      && CursorIndex(s) == |Flatten(ls[..L])| + s.col
      && s.col <= LineLen(ln) <= |ln|
      && '\n' !in ln[..LineLen(ln)]
      && (L < |ls| - 1 ==> ln == ln[..LineLen(ln)] + ['\r', '\n'])
      && (L == |ls| - 1 ==> LineLen(ln) == |ln| && '\n' !in ln)
  {
    LineSplit(s.text, LineNumber(s));
    ContentOfLine(Lines(s.text), LineNumber(s));
  }

  /** Replacing lines lo .. hi - 1 of a normalised buffer by lines m of the
      same kind keeps the lines normalised. */
  lemma {:induction false} SpliceShape(ls: seq<Text>, lo: nat, hi: nat, m: seq<Text>)
    requires CrLfLines(ls) && lo < hi <= |ls| && |m| >= 1
    requires forall j :: 0 <= j < |m| - 1 ==> CrLfLine(m[j])
    requires if hi == |ls| then '\n' !in m[|m| - 1] else CrLfLine(m[|m| - 1])
    ensures CrLfLines(ls[..lo] + m + ls[hi..])
  {
    var a, b := ls[..lo], ls[hi..];
    var r := a + m + b;
    assert forall i :: 0 <= i < |a| ==> r[i] == ls[i];
    assert forall i :: |a| <= i < |a| + |m| ==> r[i] == m[i - |a|];
    assert forall i :: |a| + |m| <= i < |r| ==> r[i] == b[i - |a| - |m|] == ls[i - |a| - |m| + hi];
  }

  /** ... and gives a buffer whose lines are exactly those. */
  lemma {:induction false} Splice(ls: seq<Text>, lo: nat, hi: nat, m: seq<Text>)
    requires CrLfLines(ls) && lo < hi <= |ls| && |m| >= 1
    requires forall j :: 0 <= j < |m| - 1 ==> CrLfLine(m[j])
    requires if hi == |ls| then '\n' !in m[|m| - 1] else CrLfLine(m[|m| - 1])
    ensures CrLfLines(ls[..lo] + m + ls[hi..])
    ensures Lines(Flatten(ls[..lo]) + Flatten(m) + Flatten(ls[hi..])) == ls[..lo] + m + ls[hi..]
  {
    var r := ls[..lo] + m + ls[hi..];
    SpliceShape(ls, lo, hi, m);
    assert Shaped(r);
    LinesOfFlatten(r);
    FlattenAppend(ls[..lo] + m, ls[hi..]);
    FlattenAppend(ls[..lo], m);
  }

  // ---------------------------------------------------------------------
  // The edits of `step`
  // ---------------------------------------------------------------------

  /** The line a typed character makes of the cursor's line. */
  lemma {:induction false} InsertedLine(ln: Text, last: bool, col: nat, c: TypedChar)
    requires if last then '\n' !in ln else CrLfLine(ln)
    requires col <= LineLen(ln)
    ensures var nl := ln[..col] + [c] + ln[col..];
      && (if last then '\n' !in nl else CrLfLine(nl))
      && LineLen(nl) == LineLen(ln) + 1
  {
    var nl := ln[..col] + [c] + ln[col..];
    if !last {
      var content := ln[..|ln| - 2];
      assert ln == content + ['\r', '\n'];
      assert ln[..col] == content[..col];
      assert ln[col..] == content[col..] + ['\r', '\n'];
      assert nl == (content[..col] + [c] + content[col..]) + ['\r', '\n'];
      assert content == content[..col] + content[col..];
      CrLfOf(content[..col] + [c] + content[col..]);
    } else {
      assert ln == ln[..col] + ln[col..];
    }
  }

  /** A text made of whole lines of a normalised buffer around new lines
      of the right kinds has exactly those lines, and is normalised. */
  lemma {:induction false} Replace(ls: seq<Text>, lo: nat, hi: nat, m: seq<Text>, t: Text)
    requires CrLfLines(ls) && lo < hi <= |ls| && |m| >= 1
    requires forall j :: 0 <= j < |m| - 1 ==> CrLfLine(m[j])
    requires if hi == |ls| then '\n' !in m[|m| - 1] else CrLfLine(m[|m| - 1])
    requires t == Flatten(ls[..lo]) + Flatten(m) + Flatten(ls[hi..])
    ensures Lines(t) == ls[..lo] + m + ls[hi..]
    ensures Normalized(t)
  {
    Splice(ls, lo, hi, m);
  }

  /** Line L replaced by nl: the same number of lines, nl at L. */
  lemma {:induction false} SwapLine(ls: seq<Text>, L: nat, nl: Text)
    requires L < |ls|
    ensures var ms := ls[..L] + [nl] + ls[L + 1..]; |ms| == |ls| && ms[L] == nl
  {
  }

  /** The text on either side of the cursor. */
  lemma {:induction false} CursorSplit(s: State)
    requires Valid(s)
    ensures var ls := Lines(s.text); var L := LineNumber(s); var ln := ls[L];
      && CrLfLines(ls) && L < |ls| && s.col <= LineLen(ln)
      && CursorIndex(s) <= |s.text|
      && s.text[..CursorIndex(s)] == Flatten(ls[..L]) + ln[..s.col]
      && s.text[CursorIndex(s)..] == ln[s.col..] + Flatten(ls[L + 1..])
  {
    CursorLine(s);
    var ls := Lines(s.text);
    SplitAt(Flatten(ls[..LineNumber(s)]), ls[LineNumber(s)], Flatten(ls[LineNumber(s) + 1..]), s.col);
  }

  /** A character typed into line L at column col. */
  lemma {:induction false} CharInLines(ls: seq<Text>, L: nat, col: nat, c: TypedChar)
    requires CrLfLines(ls) && L < |ls| && col <= LineLen(ls[L])
    ensures var ln := ls[L];
      var t := Flatten(ls[..L]) + ln[..col] + [c] + (ln[col..] + Flatten(ls[L + 1..]));
      && Lines(t) == ls[..L] + [ln[..col] + [c] + ln[col..]] + ls[L + 1..]
      && Normalized(t)
      && |Lines(t)| == |ls| && LineLen(Lines(t)[L]) == LineLen(ln) + 1
  {
    var ln := ls[L];
    var nl := ln[..col] + [c] + ln[col..];
    var t := Flatten(ls[..L]) + ln[..col] + [c] + (ln[col..] + Flatten(ls[L + 1..]));
    InsertedLine(ln, L == |ls| - 1, col, c);
    FlattenOne(nl);
    Replace(ls, L, L + 1, [nl], t);
    SwapLine(ls, L, nl);
  }

  /** A typed character lands in the cursor's line at the cursor's column. */
  lemma {:induction false} InsertCharLines(s: State, c: TypedChar)
    requires Valid(s)
    ensures var idx := CursorIndex(s); var ls := Lines(s.text); var L := LineNumber(s);
      && idx <= |s.text|
      && var t := s.text[..idx] + [c] + s.text[idx..];
      && Lines(t) == ls[..L] + [ls[L][..s.col] + [c] + ls[L][s.col..]] + ls[L + 1..]
      && Normalized(t)
      && LineCount(t) == LineCount(s.text) && LineLen(Lines(t)[L]) == CurrentLineLen(s) + 1
  {
    CursorSplit(s);
    CharInLines(Lines(s.text), LineNumber(s), s.col, c);
  }

  /** Line L broken at column col. */
  lemma {:induction false} NewlineInLines(ls: seq<Text>, L: nat, col: nat)
    requires CrLfLines(ls) && L < |ls| && col <= LineLen(ls[L])
    ensures var ln := ls[L];
      var t := Flatten(ls[..L]) + ln[..col] + ['\r', '\n'] + (ln[col..] + Flatten(ls[L + 1..]));
      && Lines(t) == ls[..L] + [ln[..col] + ['\r', '\n'], ln[col..]] + ls[L + 1..]
      && Normalized(t)
  {
    var ln := ls[L];
    var a, b := ln[..col] + ['\r', '\n'], ln[col..];
    var t := Flatten(ls[..L]) + ln[..col] + ['\r', '\n'] + (ln[col..] + Flatten(ls[L + 1..]));
    ContentOfLine(ls, L);
    assert Flatten([a, b]) == a + b by {
      assert [a, b][1..] == [b];
      FlattenOne(b);
    }
    assert CrLfLine(a) by {
      assert ln[..col] == ln[..LineLen(ln)][..col];
      CrLfOf(ln[..col]);
    }
    assert if L + 1 == |ls| then '\n' !in b else CrLfLine(b) by {
      var content := ln[..LineLen(ln)];
      if L < |ls| - 1 {
        assert b == content[col..] + ['\r', '\n'];
        CrLfOf(content[col..]);
      } else {
        assert ln == ln[..col] + b;
      }
    }
    Replace(ls, L, L + 1, [a, b], t);
  }

  /** Enter breaks the cursor's line at the cursor's column. */
  lemma {:induction false} InsertNewlineLines(s: State)
    requires Valid(s)
    ensures var idx := CursorIndex(s); var ls := Lines(s.text); var L := LineNumber(s);
      && idx <= |s.text|
      && var t := s.text[..idx] + ['\r', '\n'] + s.text[idx..];
      && Lines(t) == ls[..L] + [ls[L][..s.col] + ['\r', '\n'], ls[L][s.col..]] + ls[L + 1..]
      && Normalized(t)
  {
    CursorSplit(s);
    NewlineInLines(Lines(s.text), LineNumber(s), s.col);
  }

  /** The line Backspace makes of the cursor's line by removing the
      character before the cursor. */
  lemma {:induction false} DeletedLine(ln: Text, last: bool, col: nat)
    requires if last then '\n' !in ln else CrLfLine(ln)
    requires 0 < col <= LineLen(ln)
    ensures var nl := ln[..col - 1] + ln[col..];
      && (if last then '\n' !in nl else CrLfLine(nl))
      && LineLen(nl) + 1 == LineLen(ln)
  {
    var nl := ln[..col - 1] + ln[col..];
    if !last {
      var content := ln[..|ln| - 2];
      assert ln == content + ['\r', '\n'];
      assert ln[..col - 1] == content[..col - 1];
      assert ln[col..] == content[col..] + ['\r', '\n'];
      assert nl == (content[..col - 1] + content[col..]) + ['\r', '\n'];
      assert content == content[..col - 1] + [content[col - 1]] + content[col..];
      CrLfOf(content[..col - 1] + content[col..]);
    } else {
      assert ln == ln[..col - 1] + [ln[col - 1]] + ln[col..];
    }
  }

  /** The character before column col removed from line L. */
  lemma {:induction false} DeleteInLines(ls: seq<Text>, L: nat, col: nat)
    requires CrLfLines(ls) && L < |ls| && 0 < col <= LineLen(ls[L])
    ensures var ln := ls[L];
      var t := Flatten(ls[..L]) + ln[..col - 1] + (ln[col..] + Flatten(ls[L + 1..]));
      && Lines(t) == ls[..L] + [ln[..col - 1] + ln[col..]] + ls[L + 1..]
      && Normalized(t)
      && |Lines(t)| == |ls| && LineLen(Lines(t)[L]) + 1 == LineLen(ln)
  {
    var ln := ls[L];
    var nl := ln[..col - 1] + ln[col..];
    var t := Flatten(ls[..L]) + ln[..col - 1] + (ln[col..] + Flatten(ls[L + 1..]));
    DeletedLine(ln, L == |ls| - 1, col);
    FlattenOne(nl);
    Replace(ls, L, L + 1, [nl], t);
    SwapLine(ls, L, nl);
  }

  /** Removing the character before a split point that lies inside ln. */
  lemma {:induction false} RemoveBefore(t: Text, idx: nat, p: Text, ln: Text, q: Text, col: nat)
    requires 0 < col <= |ln| && idx == |p| + col && idx <= |t|
    requires t[..idx] == p + ln[..col] && t[idx..] == ln[col..] + q
    ensures t[..idx - 1] + t[idx..] == p + ln[..col - 1] + (ln[col..] + q)
  {
    assert t[..idx - 1] == t[..idx][..idx - 1];
    assert ln[..col][..col - 1] == ln[..col - 1];
    assert (p + ln[..col])[..idx - 1] == p + ln[..col - 1];
  }

  /** Backspace inside a line removes the character before the cursor from it. */
  lemma {:induction false} DeleteInLineLines(s: State)
    requires Valid(s) && s.col > 0
    ensures var idx := CursorIndex(s); var ls := Lines(s.text); var L := LineNumber(s);
      && 1 <= idx <= |s.text|
      && var t := s.text[..idx - 1] + s.text[idx..];
      && Lines(t) == ls[..L] + [ls[L][..s.col - 1] + ls[L][s.col..]] + ls[L + 1..]
      && Normalized(t)
      && LineCount(t) == LineCount(s.text) && LineLen(Lines(t)[L]) + 1 == CurrentLineLen(s)
  {
    CursorSplit(s);
    var ls, L, idx := Lines(s.text), LineNumber(s), CursorIndex(s);
    var p, ln := Flatten(ls[..L]), ls[L];
    RemoveBefore(s.text, idx, p, ln, Flatten(ls[L + 1..]), s.col);
    DeleteInLines(ls, L, s.col);
  }

  /** Dropping an empty non-final line. */
  lemma {:induction false} DropEmptyLine(ls: seq<Text>, L: nat)
    requires CrLfLines(ls) && L + 1 < |ls|
    ensures var t := Flatten(ls[..L]) + Flatten(ls[L + 1..]);
      && Lines(t) == ls[..L] + ls[L + 1..]
      && Normalized(t)
  {
    var r := ls[..L] + ls[L + 1..];
    assert forall i :: 0 <= i < L ==> r[i] == ls[i];
    assert forall i :: L <= i < |r| ==> r[i] == ls[i + 1];
    LinesOfFlatten(r);
    FlattenAppend(ls[..L], ls[L + 1..]);
  }

  /** Backspace at column 0 of an empty line removes that line's "\r\n". */
  lemma {:induction false} DeleteEmptyLineLines(s: State)
    requires Valid(s) && s.col == 0 && LineNumber(s) != 0 && CurrentLineLen(s) == 0
    ensures var idx := CursorIndex(s); var ls := Lines(s.text); var L := LineNumber(s);
      && idx + 2 <= |s.text|
      && s.text[idx..idx + 2] == ['\r', '\n']
      && var t := s.text[..idx] + s.text[idx + 2..];
      && Lines(t) == ls[..L] + ls[L + 1..]
      && Normalized(t)
  {
    CursorSplit(s);
    var ls, L, idx := Lines(s.text), LineNumber(s), CursorIndex(s);
    var p, ln, q := Flatten(ls[..L]), ls[L], Flatten(ls[L + 1..]);
    ContentOfLine(ls, L);
    assert ln == ['\r', '\n'];
    assert s.text[..idx] == p by { assert ln[..0] == []; }
    assert s.text[idx..] == ln + q;
    assert s.text[idx..idx + 2] == ['\r', '\n'] by {
      assert s.text[idx..idx + 2] == s.text[idx..][..2];
    }
    assert s.text[idx + 2..] == q by {
      assert s.text[idx + 2..] == s.text[idx..][2..];
    }
    DropEmptyLine(ls, L);
  }

  /** The content of a "\r\n" line followed by a line of either kind is
      a line of the second line's kind. */
  lemma {:induction false} JoinedLine(c1: Text, ln: Text, last: bool)
    requires '\n' !in c1
    requires if last then '\n' !in ln else CrLfLine(ln)
    ensures if last then '\n' !in c1 + ln else CrLfLine(c1 + ln)
  {
    if !last {
      var content := ln[..|ln| - 2];
      assert ln == content + ['\r', '\n'];
      assert c1 + ln == (c1 + content) + ['\r', '\n'];
      CrLfOf(c1 + content);
    }
  }

  /** The lines before a non-final line end with its "\r\n". */
  lemma {:induction false} FlattenBefore(ls: seq<Text>, L: nat)
    requires CrLfLines(ls) && 0 < L < |ls|
    ensures var up := ls[L - 1];
      Flatten(ls[..L]) == Flatten(ls[..L - 1]) + up[..LineLen(up)] + ['\r', '\n']
  {
    var up := ls[L - 1];
    ContentOfLine(ls, L - 1);
    assert ls[..L] == ls[..L - 1] + [up];
    FlattenAppend(ls[..L - 1], [up]);
    FlattenOne(up);
  }

  /** Line L joined to the content of line L - 1. */
  lemma {:induction false} JoinInLines(ls: seq<Text>, L: nat)
    requires CrLfLines(ls) && 0 < L < |ls|
    ensures var up := ls[L - 1]; var c1 := up[..LineLen(up)];
      && Flatten(ls[..L]) == Flatten(ls[..L - 1]) + c1 + ['\r', '\n']
      && var t := Flatten(ls[..L - 1]) + c1 + (ls[L] + Flatten(ls[L + 1..]));
      && Lines(t) == ls[..L - 1] + [c1 + ls[L]] + ls[L + 1..]
      && Normalized(t)
  {
    var ln, up := ls[L], ls[L - 1];
    var c1 := up[..LineLen(up)];
    var t := Flatten(ls[..L - 1]) + c1 + (ln + Flatten(ls[L + 1..]));
    FlattenBefore(ls, L);
    ContentOfLine(ls, L - 1);
    JoinedLine(c1, ln, L + 1 == |ls|);
    FlattenOne(c1 + ln);
    Replace(ls, L - 1, L + 1, [c1 + ln], t);
  }

  /** Backspace at column 0 of a non-empty line removes the "\r\n" that
      ends the line above, joining the two lines. */
  lemma {:induction false} JoinLinesLines(s: State)
    requires Valid(s) && s.col == 0 && LineNumber(s) != 0
    ensures var idx := CursorIndex(s); var ls := Lines(s.text); var L := LineNumber(s);
      && 2 <= idx <= |s.text|
      && s.text[idx - 2..idx] == ['\r', '\n']
      && var t := s.text[..idx - 2] + s.text[idx..];
      && Lines(t) == ls[..L - 1] + [ls[L - 1][..LineLen(ls[L - 1])] + ls[L]] + ls[L + 1..]
      && Normalized(t)
  {
    CursorSplit(s);
    var ls, L, idx := Lines(s.text), LineNumber(s), CursorIndex(s);
    JoinInLines(ls, L);
    var up := ls[L - 1];
    var p0, c1 := Flatten(ls[..L - 1]), up[..LineLen(up)];
    var head := s.text[..idx];
    assert head == p0 + c1 + ['\r', '\n'] by { assert ls[L][..0] == []; }
    assert s.text[idx - 2..idx] == head[idx - 2..] == ['\r', '\n'];
    assert s.text[..idx - 2] == head[..idx - 2] == p0 + c1;
  }

  /** A typed character: inserted at the cursor, then the cursor moves Right. */
  function InsertChar(s: State, c: TypedChar): (r: State)
    requires Valid(s)
    ensures Valid(r) && r == s.(text := r.text, col := s.col + 1)
  {
    InsertCharLines(s, c);
    var idx := CursorIndex(s);
    Move(s.(text := s.text[..idx] + [c] + s.text[idx..]), Right)
  }

  /** Enter: "\r\n" inserted at the cursor, the cursor moves Down and to column 0. */
  function InsertNewline(s: State): (r: State)
    requires Valid(s)
    ensures Frame(r)
  {
    InsertNewlineLines(s);
    LineCountIsNewlinesPlusOne(s.text);
    var idx := CursorIndex(s);
    var t := s.text[..idx] + ['\r', '\n'] + s.text[idx..];
    Move(s.(text := t), Down).(col := 0)
  }

  /** Backspace inside a line: the character before the cursor removed,
      then a move Left. */
  function DeleteInLine(s: State): (r: State)
    requires Valid(s) && s.col > 0
    ensures Valid(r) && r == s.(text := r.text, col := s.col - 1)
  {
    DeleteInLineLines(s);
    var idx := CursorIndex(s);
    Move(s.(text := s.text[..idx - 1] + s.text[idx..]), Left)
  }

  /** Backspace on an empty line: its "\r\n" removed, a move Up, and the
      cursor to the end of the line above. */
  function DeleteEmptyLine(s: State): (r: State)
    requires Valid(s) && s.col == 0 && CurrentLineLen(s) == 0 && LineNumber(s) != 0
    ensures Frame(r)
  {
    DeleteEmptyLineLines(s);
    var idx := CursorIndex(s);
    var up := Move(s.(text := s.text[..idx] + s.text[idx + 2..]), Up);
    up.(col := CurrentLineLen(up))
  }

  /** Backspace at the start of a non-empty line: a move Up, the cursor to
      the end of the line above (measured before the edit), then the
      "\r\n" before the cursor removed. */
  function JoinLines(s: State): (r: State)
    requires Valid(s) && s.col == 0 && LineNumber(s) != 0
    ensures Frame(r)
  {
    JoinLinesLines(s);
    var idx := CursorIndex(s);
    var up := Move(s, Up);
    up.(col := CurrentLineLen(up), text := s.text[..idx - 2] + s.text[idx..])
  }

  /** Backspace, in the source's order of cases. Moving up out of viewport
      row 0 scrolls by exactly one line. */
  function DeleteBackward(s: State): (r: State)
    requires Valid(s)
    ensures Frame(r)
  {
    if s.col > 0 then DeleteInLine(s)
    else if CurrentLineLen(s) == 0 && LineNumber(s) != 0 then DeleteEmptyLine(s)
    else if LineNumber(s) != 0 then JoinLines(s)
    else s
  }

  /** What a key does before the clamp. */
  function Apply(s: State, k: Key): (r: State)
    requires Valid(s)
    ensures Frame(r)
  {
    match k
    case Arrow(m) => Move(s, m)
    case Char(c, control) => if c == 's' && control then s else InsertChar(s, c)
    case Enter => InsertNewline(s)
    case Backspace => DeleteBackward(s)
    case Esc => s
    case Other => s
  }

  /** `step`: Esc returns at once; every other key is applied and then the
      column is clamped to the line, so every reachable state is Valid. */
  function Step(s: State, k: Key): (r: State)
    requires Valid(s)
    ensures Valid(r)
  {
    if k == Esc then s else Clamp(Apply(s, k))
  }

  // ---------------------------------------------------------------------
  // What each key does
  // ---------------------------------------------------------------------

  /** Up moves to the line above unless the cursor is on line 0; the
      column is then clamped to the new line. */
  lemma {:induction false} StepUp(s: State)
    requires Valid(s)
    ensures var r := Step(s, Arrow(Up));
      && r.text == s.text && r.height == s.height
      && LineNumber(r) == SatSub(LineNumber(s), 1)
      && (s.row == 0 ==> r.row == 0 && r.scroll == SatSub(s.scroll, 1))
      && (s.row > 0 ==> r.row == s.row - 1 && r.scroll == s.scroll)
      && r.col == Min(s.col, CurrentLineLen(r))
      && (LineNumber(s) == 0 ==> r == s)
  {
    var m := Move(s, Up);
    assert m.text == s.text && m.height == s.height;
    assert Step(s, Arrow(Up)) == Clamp(m);
  }

  /** Down moves to the line below while that line is not the final line
      of the rope; on the bottom row it scrolls instead of moving the cursor. */
  lemma {:induction false} StepDown(s: State)
    requires Valid(s)
    ensures var r := Step(s, Arrow(Down));
      && r.text == s.text && r.height == s.height
      && (if LineNumber(s) < SatSub(LineCount(s.text), 2) then
            && LineNumber(r) == LineNumber(s) + 1
            && (s.row == s.height - 1 ==> r.row == s.row && r.scroll == s.scroll + 1)
            && (s.row < s.height - 1 ==> r.row == s.row + 1 && r.scroll == s.scroll)
          else r == s)
      && r.col == Min(s.col, CurrentLineLen(r))
  {
    var m := Move(s, Down);
    assert m.text == s.text && m.height == s.height;
    assert Step(s, Arrow(Down)) == Clamp(m);
  }

  lemma {:induction false} StepLeft(s: State)
    requires Valid(s)
    ensures Step(s, Arrow(Left)) == s.(col := SatSub(s.col, 1))
  {
    var m := Move(s, Left);
    assert m == s.(col := SatSub(s.col, 1));
    assert Apply(s, Arrow(Left)) == m;
    assert LineNumber(m) == LineNumber(s) && m.text == s.text;
    assert Clamp(m) == m;
  }

  /** Right moves one column unless the cursor is at the end of its line. */
  lemma {:induction false} StepRight(s: State)
    requires Valid(s)
    ensures Step(s, Arrow(Right)) == s.(col := Min(s.col + 1, CurrentLineLen(s)))
  {
    var m := Move(s, Right);
    assert m == s.(col := Min(s.col + 1, CurrentLineLen(s)));
    assert LineNumber(m) == LineNumber(s) && m.text == s.text;
    assert CurrentLineLen(m) == CurrentLineLen(s);
    assert Step(s, Arrow(Right)) == Clamp(m) == m;
  }

  /** A typed character goes into the cursor's line at the cursor, and the
      cursor moves past it. */
  lemma {:induction false} StepChar(s: State, c: TypedChar, control: bool)
    requires Valid(s) && !(c == 's' && control)
    ensures var r := Step(s, Char(c, control)); var ls := Lines(s.text);
      var L := LineNumber(s); var ln := ls[L];
      && Lines(r.text) == ls[..L] + [ln[..s.col] + [c] + ln[s.col..]] + ls[L + 1..]
      && r == s.(text := r.text, col := s.col + 1)
  {
    InsertCharLines(s, c);
    assert Step(s, Char(c, control)) == Clamp(InsertChar(s, c));
  }

  /** Ctrl+S leaves the state as it is (the file is written). */
  lemma {:induction false} StepSave(s: State)
    requires Valid(s)
    ensures Step(s, Char('s', true)) == s
  {
  }

  /** Enter breaks the cursor's line at the cursor and puts the cursor at
      column 0 of the line below, except in a buffer of a single line,
      where Down refuses to reach the rope's final line. */
  lemma {:induction false} StepEnter(s: State)
    requires Valid(s)
    ensures var r := Step(s, Enter); var ls := Lines(s.text);
      var L := LineNumber(s); var ln := ls[L];
      && Lines(r.text) == ls[..L] + [ln[..s.col] + ['\r', '\n'], ln[s.col..]] + ls[L + 1..]
      && r.col == 0
      && LineNumber(r) == (if LineCount(s.text) >= 2 then L + 1 else L)
      && r.height == s.height
      && (LineCount(s.text) >= 2 && s.row == s.height - 1 ==> r.row == s.row && r.scroll == s.scroll + 1)
      && (LineCount(s.text) >= 2 && s.row < s.height - 1 ==> r.row == s.row + 1 && r.scroll == s.scroll)
      && (LineCount(s.text) < 2 ==> r.row == s.row && r.scroll == s.scroll)
  {
    InsertNewlineLines(s);
    LineCountIsNewlinesPlusOne(s.text);
  }

  /** Backspace inside a line deletes the character before the cursor. */
  lemma {:induction false} StepBackspaceInLine(s: State)
    requires Valid(s) && s.col > 0
    ensures var r := Step(s, Backspace); var ls := Lines(s.text);
      var L := LineNumber(s); var ln := ls[L];
      && Lines(r.text) == ls[..L] + [ln[..s.col - 1] + ln[s.col..]] + ls[L + 1..]
      && r == s.(text := r.text, col := s.col - 1)
  {
    DeleteInLineLines(s);
    assert Step(s, Backspace) == Clamp(DeleteInLine(s));
  }

  /** Backspace at the start of an empty line deletes the line and puts
      the cursor at the end of the line above. */
  lemma {:induction false} StepBackspaceEmptyLine(s: State)
    requires Valid(s) && s.col == 0 && LineNumber(s) != 0 && CurrentLineLen(s) == 0
    ensures var r := Step(s, Backspace); var ls := Lines(s.text); var L := LineNumber(s);
      && Lines(r.text) == ls[..L] + ls[L + 1..]
      && LineNumber(r) == L - 1
      && r.col == LineLen(ls[L - 1])
      && r.height == s.height
      && (s.row == 0 ==> r.row == 0 && r.scroll == s.scroll - 1)
      && (s.row > 0 ==> r.row == s.row - 1 && r.scroll == s.scroll)
  {
    DeleteEmptyLineLines(s);
  }

  /** Backspace at the start of a non-empty line joins it to the line
      above, with the cursor where the two meet. */
  lemma {:induction false} StepBackspaceJoin(s: State)
    requires Valid(s) && s.col == 0 && LineNumber(s) != 0 && CurrentLineLen(s) != 0
    ensures var r := Step(s, Backspace); var ls := Lines(s.text); var L := LineNumber(s);
      && Lines(r.text) == ls[..L - 1] + [ls[L - 1][..LineLen(ls[L - 1])] + ls[L]] + ls[L + 1..]
      && LineNumber(r) == L - 1
      && r.col == LineLen(ls[L - 1])
      && r.height == s.height
      && (s.row == 0 ==> r.row == 0 && r.scroll == s.scroll - 1)
      && (s.row > 0 ==> r.row == s.row - 1 && r.scroll == s.scroll)
  {
    JoinLinesLines(s);
  }

  /** Backspace at the very start of the buffer does nothing. */
  lemma {:induction false} StepBackspaceAtStart(s: State)
    requires Valid(s) && s.col == 0 && LineNumber(s) == 0
    ensures Step(s, Backspace) == s
  {
  }

  /** Removing the character just inserted into a line gives the lines back. */
  lemma {:induction false} InsertThenDeleteLines(ls: seq<Text>, L: nat, col: nat, c: char, ms: seq<Text>)
    requires L < |ls| && col <= |ls[L]|
    requires ms == ls[..L] + [ls[L][..col] + [c] + ls[L][col..]] + ls[L + 1..]
    ensures ms[..L] + [ms[L][..col] + ms[L][col + 1..]] + ms[L + 1..] == ls
  {
    var ln := ls[L];
    var nl := ln[..col] + [c] + ln[col..];
    assert ms[L] == nl && ms[..L] == ls[..L] && ms[L + 1..] == ls[L + 1..];
    assert nl[..col] + nl[col + 1..] == ln by {
      assert nl[..col] == ln[..col];
      assert nl[col + 1..] == ln[col..];
    }
    assert ls[..L] + [ln] + ls[L + 1..] == ls;
  }

  /** A text whose line L gained c at col, then lost the character at col,
      is the text it started from. */
  lemma {:induction false} UndoTyped(t: Text, mt: Text, rt: Text, L: nat, col: nat, c: char)
    requires L < |Lines(t)| && col <= |Lines(t)[L]|
    requires Lines(mt) == Lines(t)[..L] + [Lines(t)[L][..col] + [c] + Lines(t)[L][col..]] + Lines(t)[L + 1..]
    requires Lines(rt) == Lines(mt)[..L] + [Lines(mt)[L][..col] + Lines(mt)[L][col + 1..]] + Lines(mt)[L + 1..]
    ensures rt == t
  {
    InsertThenDeleteLines(Lines(t), L, col, c, Lines(mt));
    LinesDetermineText(rt, t);
  }

  /** Typing a character and then pressing Backspace gives back the state. */
  lemma {:induction false} TypeThenBackspace(s: State, c: TypedChar, control: bool)
    requires Valid(s) && !(c == 's' && control)
    ensures Step(Step(s, Char(c, control)), Backspace) == s
  {
    var m := Step(s, Char(c, control));
    StepChar(s, c, control);
    StepBackspaceInLine(m);
    CursorLine(s);
    UndoTyped(s.text, m.text, Step(m, Backspace).text, LineNumber(s), s.col, c);
  }

  /** The two halves of a "\r\n" line broken at col: the first half's
      content is col long and, with the second half, makes the line again;
      an empty second half leaves the first half equal to the line. */
  lemma {:induction false} BrokenLineParts(ln: Text, col: nat)
    requires CrLfLine(ln) && col <= LineLen(ln)
    ensures var a, b := ln[..col] + ['\r', '\n'], ln[col..];
      && LineLen(a) == col && a[..LineLen(a)] + b == ln
      && (LineLen(b) == 0 ==> a == ln)
  {
    var content := ln[..|ln| - 2];
    assert ln == content + ['\r', '\n'];
    var a, b := ln[..col] + ['\r', '\n'], ln[col..];
    assert a[..col] == ln[..col];
    assert ln[..col] + ln[col..] == ln;
    assert b == content[col..] + ['\r', '\n'];
    if LineLen(b) == 0 {
      assert content[col..] == [];
      assert ln[..col] == content;
    }
  }

  /** Undoing a line break: the broken line's first half has the column's
      length, and either Backspace case puts the lines back. */
  lemma {:induction false} BreakThenJoinLines(ls: seq<Text>, L: nat, col: nat, ms: seq<Text>)
    requires CrLfLines(ls) && L + 1 < |ls| && col <= LineLen(ls[L])
    requires ms == ls[..L] + [ls[L][..col] + ['\r', '\n'], ls[L][col..]] + ls[L + 1..]
    ensures LineLen(ms[L]) == col
    ensures LineLen(ms[L + 1]) == 0 ==> ms[..L + 1] + ms[L + 2..] == ls
    ensures ms[..L] + [ms[L][..LineLen(ms[L])] + ms[L + 1]] + ms[L + 2..] == ls
  {
    var ln := ls[L];
    assert CrLfLine(ln);
    BrokenLineParts(ln, col);
    assert ms[..L] == ls[..L] && ms[L + 2..] == ls[L + 1..];
    assert ls == ls[..L] + [ln] + ls[L + 1..];
    if LineLen(ms[L + 1]) == 0 {
      assert ms[..L + 1] == ls[..L] + [ln];
    }
  }

  /** Enter and then Backspace give back the buffer, the line and the
      column (the viewport may have scrolled). */
  lemma {:induction false} EnterThenBackspace(s: State)
    requires Valid(s) && LineCount(s.text) >= 2
    ensures var r := Step(Step(s, Enter), Backspace);
      && r.text == s.text && LineNumber(r) == LineNumber(s) && r.col == s.col
  {
    var m := Step(s, Enter);
    StepEnter(s);
    CursorLine(s);
    BreakThenJoinLines(Lines(s.text), LineNumber(s), s.col, Lines(m.text));
    if CurrentLineLen(m) == 0 {
      StepBackspaceEmptyLine(m);
    } else {
      StepBackspaceJoin(m);
    }
    LinesDetermineText(Step(m, Backspace).text, s.text);
  }
}
