# shark editor core, modelled in Dafny

This project models the core of `shark`, a small terminal text editor. The core is the `Editor` of `src/editor.rs`. It holds a rope (a character buffer), a scroll offset and the terminal cursor. It changes them one key press at a time.

- `buffer.dfy` (module `Buffer`) holds the rope's text. It splits the text into lines the way ropey does: a line ends just after each `'\n'`, so a text with k line feeds has k + 1 lines. It also has the rope index of an absolute (column, row), the length of a line without its two-character terminator, the `'\r'` insertion done by `Editor::new` and the `'\r'` filter done by `save`.
- `syntax.dfy` (module `Syntax`) holds the parse tree as an abstract `Node` datatype (kind id, start and end point, children). It also has `expand_node`, which collects the childless nodes in depth-first pre-order.
- `render.dfy` (module `Render`) holds the span layout of `redraw`. Each printed slice becomes a `Span`: an optional palette index (`kind % 12`, the size of `COLORS`) and the start and end offsets. It also has the count of `get_visible_lines_len`.
- `cursor.dfy` (module `Cursor`) is the cursor and scroll state machine, written as functions of a `State` value (text, column, viewport row, scroll, height). It covers `attempt_cursor_move`, each key of `step`, and the column clamp that ends every `step`. The properties of the keys are proved here.
- `editor.dfy` (module `Editor`) is the `Editor` class. Its fields are the rope, the cursor column and viewport row, the scroll offset and the terminal height. Each method is the source's loop or update, proved equal to the functions above. `Step` is proved to keep the invariant `Valid`: the buffer stays normalised, the cursor stays on screen and on a reachable line, and the column stays within the line.
- `options.dfy` (module `Options`) holds the usual `Option` type.

The terminal's own clamping becomes explicit arithmetic. Moving up from row 0 or left from column 0 is a saturating decrement. Moving down from the bottom row keeps the row and scrolls instead.

## Model

| member | source | states |
|---|---|---|
| `Buffer.LinesShape` | src/editor.rs:181 | The rope's lines join back into the text; every line but the last ends in its only `'\n'`, and the last has none |
| `Buffer.LinesOfFlatten` | src/editor.rs:181 | The division into lines is unique: splitting any such division's concatenation gives that division back |
| `Buffer.LineCountIsNewlinesPlusOne` | src/editor.rs:302 | A text with k line feeds has k + 1 lines |
| `Buffer.RopeIndexPastEnd` | src/editor.rs:178-191 | For a row at or past the line count, the rope index is the whole length of the text and the column is not added |
| `Buffer.RopeIndexInLine` | src/editor.rs:178-191 | For a row inside the text, the rope index is the offset where that line starts plus the column, and the line occupies the text from that offset on |
| `Buffer.PositionOf` | src/editor.rs:178-191 | Inverse of the rope index: every offset up to the text's length is the rope index of a (column, row) whose column lies within that row's line |
| `Buffer.LineLen` | src/editor.rs:277-285 | A line's length without its terminator: two less than its length when it ends in `'\n'`, never below zero, and the full length for the final line |
| `Buffer.ContentOfLine` | src/editor.rs:277-285 | In a normalised buffer, each non-final line is its LineLen characters of content followed by `"\r\n"`, and the content holds no `'\n'` |
| `Buffer.LineLenAsWrittenOnFinalLine` | src/editor.rs:277-285 | The unguarded `len - 2` goes negative on the empty buffer and drops two characters of the line `"abc"` |
| `Buffer.NormalizeLength` | src/editor.rs:47-58 | Loading adds exactly one character per `'\n'` |
| `Buffer.NormalizeCrBeforeLf` | src/editor.rs:47-58 | After loading, every `'\n'` is immediately preceded by `'\r'` |
| `Buffer.CrBeforeLfIsNormalized` | src/editor.rs:47-58 | A text whose every `'\n'` follows a `'\r'` has every non-final line ending in `"\r\n"` |
| `Buffer.Save` | src/editor.rs:90 | The saved text holds no `'\r'`, and every character in it comes from the rope |
| `Buffer.SaveLength` | src/editor.rs:90 | The saved text is shorter than the rope by exactly the number of `'\r'`s in it |
| `Buffer.SaveAppend` | src/editor.rs:90 | Saving works character by character: saving a concatenation is the concatenation of the saved parts, so the kept characters stay in order |
| `Buffer.SaveOfNormalize` | src/editor.rs:90 | Saving a loaded text gives the same as saving the original text |
| `Buffer.LoadSaveRoundTrip` | src/editor.rs:90 | Saving right after loading a text without `'\r'` reproduces it unchanged |
| `Syntax.Leaves` | src/editor.rs:249-264 | `expand_node` returns at least one node, and every node it returns is childless |
| `Syntax.LeavesArePreOrderLeaves` | src/editor.rs:249-264 | `expand_node` returns exactly the childless nodes of the tree, in depth-first pre-order |
| `Render.VisibleLineCount` | src/editor.rs:266-275 | The count is at most the height and at most the number of lines but the last; it is the full height when the viewport lies inside them and zero when it starts below them |
| `Render.TokenSpan` | src/editor.rs:223-237 | A token is drawn in palette entry `kind % 12`, which is below the palette size 12, and its span never ends before it starts |
| `Render.Visible` | src/editor.rs:214-221 | The nodes drawn are exactly those whose start row lies in `scroll .. scroll + height - 1`, in their order: the filter distributes over concatenation (`Render.VisibleAppend`) |
| `Render.VisibleAppend` | src/editor.rs:214-221 | Filtering a concatenation gives the concatenation of the filtered parts, so the kept nodes stay in order with their repetitions |
| `Render.LayoutWellLaidOut` | src/editor.rs:212-240 | Every colour is a palette index; an uncoloured gap is printed only when the next token starts after the last printed offset, and it runs from that offset to the token |
| `Render.LayoutTokens` | src/editor.rs:212-240 | The coloured spans are one per visible leaf, in order, each the leaf's own slice and palette entry |
| `Render.LayoutTiles` | src/editor.rs:212-240 | When the visible tokens are in offset order, each span starts where the previous one ended, so no character is printed twice |
| `Cursor.Move` | src/editor.rs:291-323 | A cursor move never changes the text or the height, and it keeps the cursor on screen and on a reachable line |
| `Cursor.Clamp` | src/editor.rs:158-166 | The new column is the smaller of the column and the cursor line's length; nothing else changes, and the state is valid |
| `Cursor.InsertChar` | src/editor.rs:113-114 | Typing a character and moving Right keeps the state valid, advances the column by exactly one and leaves row, scroll and height alone |
| `Cursor.DeleteInLine` | src/editor.rs:128-130 | Backspace inside a line keeps the state valid, lowers the column by exactly one and leaves row, scroll and height alone |
| `Cursor.InsertNewline` | src/editor.rs:119-121 | Enter followed by the move Down keeps the state well-framed |
| `Cursor.DeleteBackward` | src/editor.rs:124-152 | Every case of Backspace keeps the state well-framed |
| `Cursor.Step` | src/editor.rs:99-169 | Every key leads from a valid state to a valid state: column within its line, cursor on screen, buffer normalised |
| `Cursor.InsertCharLines` | src/editor.rs:113 | A character inserted at the cursor index lands in the cursor's line at the cursor's column, that line's length grows by one, the line count is kept, and no other line changes |
| `Cursor.InsertNewlineLines` | src/editor.rs:119 | `"\r\n"` inserted at the cursor index splits the cursor's line in two at the column, and no other line changes |
| `Cursor.DeleteInLineLines` | src/editor.rs:129 | Removing the one character before the cursor removes it from the cursor's line, whose length drops by one; the line count is kept and no other line changes |
| `Cursor.DeleteEmptyLineLines` | src/editor.rs:136 | On an empty line below the first, the two characters at the cursor are `"\r\n"`, and removing them drops exactly that line |
| `Cursor.JoinLinesLines` | src/editor.rs:148 | At column 0 below the first line, the two characters before the cursor are `"\r\n"`, and removing them joins the line onto the one above |
| `Cursor.StepUp` | src/editor.rs:293-299 | Up on viewport row 0 lowers the scroll saturating at 0, otherwise lowers the row; the absolute line drops by one saturating, and Up on line 0 changes nothing |
| `Cursor.StepDown` | src/editor.rs:301-309 | Down advances the absolute line by one only while it is below `len_lines - 2`; on the bottom row it scrolls and keeps the row, on any other row it moves the row and keeps the scroll; when refused, nothing changes at all |
| `Cursor.StepLeft` | src/editor.rs:311-313 | Left lowers the column by one, never below 0, and changes nothing else |
| `Cursor.StepRight` | src/editor.rs:314-318 | Right raises the column by one only while it is below the line length, and changes nothing else |
| `Cursor.StepChar` | src/editor.rs:109-115 | A typed character is inserted into the cursor's line at the column, and the cursor moves one column right |
| `Cursor.StepSave` | src/editor.rs:110-111 | Ctrl+S leaves the buffer and the cursor as they are |
| `Cursor.StepEnter` | src/editor.rs:118-123 | Enter splits the cursor's line at the column and puts the cursor at column 0 of the next line, or of the same line in a one-line buffer; on the bottom viewport row the scroll rises by one and the row stays, on any other row the row rises and the scroll stays, and the height is kept |
| `Cursor.StepBackspaceInLine` | src/editor.rs:128-130 | Backspace at a column above 0 removes the character before the cursor from its line and moves the cursor one column left |
| `Cursor.StepBackspaceEmptyLine` | src/editor.rs:131-139 | Backspace on an empty line below the first drops that line and puts the cursor at the end of the line above; on viewport row 0 the scroll drops by exactly one, otherwise the row drops by one and the scroll stays, and the height is kept |
| `Cursor.StepBackspaceJoin` | src/editor.rs:140-149 | Backspace at column 0 of a non-empty line below the first joins it onto the line above, with the cursor at the join point; on viewport row 0 the scroll drops by exactly one, otherwise the row drops by one and the scroll stays, and the height is kept |
| `Cursor.StepBackspaceAtStart` | src/editor.rs:124-152 | Backspace at column 0 of line 0 changes nothing |
| `Cursor.TypeThenBackspace` | src/editor.rs:109-152 | Typing a character and then pressing Backspace gives back the exact state |
| `Cursor.EnterThenBackspace` | src/editor.rs:118-152 | In a buffer of two or more lines, Enter and then Backspace give back the buffer, the absolute line and the column |
| `Cursor.DownGuardAsWrittenPassesOnSingleLine` | src/editor.rs:302 | In a one-line buffer, the wrapping guard `len_lines - 2` lets Down through to a line that does not exist; the saturating guard refuses |
| `Cursor.BackspaceUpAsWrittenSkipsLine` | src/editor.rs:132-137 | With two or more lines scrolled off, the double scroll decrement lands two lines up, while the single move Up lands one line up |
| `Editor.NewlineIndices` | src/editor.rs:47-53 | The first loop of `new` collects the offset of every `'\n'`, in increasing order |
| `Editor.InsertCarriageReturns` | src/editor.rs:55-58 | The second loop, inserting `'\r'` at each collected offset plus the number inserted so far, gives the normalised text |
| `Editor.Editor.constructor` | src/editor.rs:46-66 | The new editor holds the normalised text, the cursor at the top left, scroll 0, and a valid state |
| `Editor.Editor.SaveFile` | src/editor.rs:88-97 | The text written is the rope with every `'\r'` filtered out |
| `Editor.Editor.GetRopeIndex` | src/editor.rs:178-191 | The accumulator loop, stopping at row `r`, computes the rope index |
| `Editor.Editor.GetLineNumber` | src/editor.rs:287-289 | The absolute line is the viewport row plus the scroll, and in a valid state it is a line of the rope |
| `Editor.Editor.GetCursorIndex` | src/editor.rs:171-175 | The cursor index is the rope index of the cursor's absolute position and lies within the text |
| `Editor.Editor.GetCurrentLineLen` | src/editor.rs:277-285 | The cursor line's length without its terminator; in a normalised buffer the line is that content followed by `"\r\n"`, or content alone on the final line |
| `Editor.Editor.GetVisibleLinesLen` | src/editor.rs:266-275 | The counting loop gives the number of lines, the last excepted, on rows `scroll .. scroll + height - 1` |
| `Editor.Editor.AttemptCursorMove` | src/editor.rs:291-323 | The fields after the move are those of `Cursor.Move` |
| `Editor.Editor.TypeChar` | src/editor.rs:113-114 | The fields after a typed character are those of `Cursor.InsertChar` |
| `Editor.Editor.BreakLine` | src/editor.rs:119-121 | The fields after Enter are those of `Cursor.InsertNewline` |
| `Editor.Editor.DeleteInLine` | src/editor.rs:128-130 | The fields after Backspace inside a line are those of `Cursor.DeleteInLine` |
| `Editor.Editor.DeleteEmptyLine` | src/editor.rs:131-139 | The fields after Backspace on an empty line are those of `Cursor.DeleteEmptyLine` |
| `Editor.Editor.JoinLines` | src/editor.rs:140-149 | The fields after Backspace at the start of a line are those of `Cursor.JoinLines` |
| `Editor.Editor.DeleteBackward` | src/editor.rs:124-152 | The fields after Backspace are those of `Cursor.DeleteBackward` |
| `Editor.Editor.ClampColumn` | src/editor.rs:158-166 | The fields after the clamp are those of `Cursor.Clamp` |
| `Editor.Editor.Step` | src/editor.rs:99-169 | Esc stops the editor; Ctrl+S returns the saved text; every key leaves the fields at `Cursor.Step` of the old ones, and the state stays valid |
| `Editor.Editor.Redraw` | src/editor.rs:193-247 | The loop over the leaves, updating `last_pos` from the rope index of `(0, scroll)`, produces `Render.Layout` of the leaves |

## Left out

- Terminal effects are left out: alternate screen, raw mode, cursor styling, hiding, clearing, flushing and printing. The live cursor position and the terminal height are fields of `Editor` instead.
- The terminal height is a constant field of `Editor`, fixed when the editor is built. The source asks `terminal::size()` each time (src/editor.rs:219, 269 and 303), so a resize during a session is not modelled.
- The terminal width is left out, and so are the `u16` casts of column and row. A column or row of 65536 or more is not modelled.
- `Editor.Editor.GetCursorIndex` does not model the `u16` addition of the scroll to the row.
- The file write of `save` (file creation, `BufWriter`, `unwrap`s) is left out. Only the bytes it writes are modelled, as `Buffer.Save`.
- Event reading (`read`, `KeyEventKind`) is left out. A key press arrives as a `Cursor.Key` value. `Other` covers every other key and every event that is not a press.
- A typed character is never `'\n'` or `'\r'`, because the terminal reports those keys as Enter.
- tree-sitter parsing is left out. `Redraw` takes the parsed tree as a `Syntax.Node`. Its points are taken as character columns; tree-sitter reports byte columns, which differ for multi-byte characters.
- The colours themselves are left out; only the palette index is kept.
- `Render.Layout` does not check that the spans lie within the text. The source adds tree-sitter's byte columns to character offsets (src/editor.rs:224 and 231), so on text with multi-byte characters a span can run past the rope and `rope.slice` panics (lines 227 and 236); for example a file holding only `"é"` inside a string token. The spans stay in range only for text of one-byte characters.
- `Render.TokenSpan`: a token that ends at a smaller column than it starts (a token spanning rows) gets a length of zero. The source subtracts in `usize`, which underflows there.
- Line lengths count characters. The source counts the UTF-8 bytes of the line, which differs for multi-byte characters.
- Ropey also breaks lines at a lone `'\r'` and at other Unicode line separators. The model breaks lines only after `'\n'`.
- `src/main.rs` is not part of this model (argument parsing, file opening and the event loop).

## Findings

| source | as written | input that shows it | evidently intended | confidence | as-written member | corrected member |
|---|---|---|---|---|---|---|
| src/editor.rs:277-285 | `get_current_line_len` subtracts 2 from the line's length with no guard, including on the final line, which has no terminator | A file with no line feed: the empty file gives `0 - 2`, an underflow on the first key; `"abc"` gives 1 instead of 3 | Subtract the terminator only from a line that has one | high; not executed | `Buffer.LineLenAsWrittenOnFinalLine` | `Buffer.ContentOfLine` |
| src/editor.rs:302 | The Down guard computes `len_lines - 2` in `usize` | A one-line file and Down: `1 - 2` underflows (a panic in a debug build; in a release build the guard passes and the cursor moves onto line 1, which does not exist) | Down is refused when no line below can be reached | high; not executed | `Cursor.DownGuardAsWrittenPassesOnSingleLine` | `Cursor.StepDown` |
| src/editor.rs:132-137 | Backspace at column 0 on viewport row 0 does `scroll -= 1`, then moves Up, which on row 0 lowers the scroll again | Scroll 2, cursor on viewport row 0 (line 2), column 0, Backspace: the cursor lands on line 0 instead of line 1 | The cursor moves up exactly one line | high; not executed | `Cursor.BackspaceUpAsWrittenSkipsLine` | `Cursor.StepBackspaceEmptyLine` |
