/** The editor's text buffer (the rope): a sequence of characters, its
    division into lines as the rope counts them, the translation of an
    absolute (column, row) into a character offset, the line-terminator
    normalisation done on load and the carriage-return filter done on save. */
module Buffer {

  type Text = seq<char>

  /** `usize::saturating_sub`. */
  function SatSub(a: nat, b: nat): nat { if a >= b then a - b else 0 }

  function Min(a: nat, b: nat): nat { if a <= b then a else b }

  // ---------------------------------------------------------------------
  // Lines
  // ---------------------------------------------------------------------

  /** The rope's lines: a line ends just after each '\n', and whatever
      follows the last '\n' (possibly nothing) is the final line. */
  function Lines(t: Text): (ls: seq<Text>)
    ensures |ls| >= 1
    decreases |t|
  {
    if t == [] then [[]]
    else
      var rest := Lines(t[1..]);
      if t[0] == '\n' then [['\n']] + rest
      else [[t[0]] + rest[0]] + rest[1..]
  }

  function LineCount(t: Text): nat { |Lines(t)| }

  /** A line that is not the final one: it ends in its only '\n'. */
  predicate Terminated(ln: Text) {
    |ln| > 0 && ln[|ln| - 1] == '\n' && '\n' !in ln[..|ln| - 1]
  }

  /** What a division into lines looks like. */
  predicate Shaped(ls: seq<Text>) {
    |ls| >= 1
    && (forall i :: 0 <= i < |ls| - 1 ==> Terminated(ls[i]))
    && '\n' !in ls[|ls| - 1]
  }

  function Flatten(ls: seq<Text>): Text {
    if ls == [] then [] else ls[0] + Flatten(ls[1..])
  }

  /** The running sum of line lengths that the rope-index loop keeps. */
  function SumLens(ls: seq<Text>): nat {
    if ls == [] then 0 else SumLens(ls[..|ls| - 1]) + |ls[|ls| - 1]|
  }

  lemma {:induction false} FlattenAppend(a: seq<Text>, b: seq<Text>)
    ensures Flatten(a + b) == Flatten(a) + Flatten(b)
  {
    if a == [] {
      assert a + b == b;
    } else {
      assert (a + b)[1..] == a[1..] + b;
      FlattenAppend(a[1..], b);
    }
  }

  lemma {:induction false} SumLensIsLength(ls: seq<Text>)
    ensures SumLens(ls) == |Flatten(ls)|
  {
    if ls != [] {
      var n := |ls| - 1;
      assert ls == ls[..n] + [ls[n]];
      FlattenAppend(ls[..n], [ls[n]]);
      assert Flatten([ls[n]]) == ls[n] + Flatten([]);
      SumLensIsLength(ls[..n]);
    }
  }

  /** A line holding just '\n' in front of a division into lines. */
  lemma {:induction false} ShapedNewline(rest: seq<Text>)
    requires Shaped(rest)
    ensures Shaped([['\n']] + rest)
    ensures Flatten([['\n']] + rest) == ['\n'] + Flatten(rest)
  {
    var ls := [['\n']] + rest;
    assert ls[1..] == rest;
    assert Terminated(['\n']) by { assert ['\n'][..0] == []; }
    assert forall i :: 1 <= i < |ls| ==> ls[i] == rest[i - 1];
  }

  /** A character other than '\n' in front of a line keeps it terminated,
      or free of '\n'. */
  lemma {:induction false} ConsLine(c: char, ln: Text)
    requires c != '\n'
    ensures Terminated(ln) ==> Terminated([c] + ln)
    ensures '\n' !in ln ==> '\n' !in [c] + ln
  {
    if Terminated(ln) {
      var first := [c] + ln;
      assert first[|first| - 1] == ln[|ln| - 1];
      assert first[..|first| - 1] == [c] + ln[..|ln| - 1];
    }
  }

  /** A character other than '\n' in front of the first line of a division. */
  lemma {:induction false} ShapedCons(c: char, rest: seq<Text>)
    requires c != '\n' && Shaped(rest)
    ensures Shaped([[c] + rest[0]] + rest[1..])
    ensures Flatten([[c] + rest[0]] + rest[1..]) == [c] + Flatten(rest)
  {
    var first := [c] + rest[0];
    var ls := [first] + rest[1..];
    assert ls[0] == first && ls[1..] == rest[1..];
    ConsLine(c, rest[0]);
    forall i | 0 <= i < |ls| - 1 ensures Terminated(ls[i]) {
      if i > 0 {
        assert ls[i] == rest[i];
      }
    }
    assert ls[|ls| - 1] == if |rest| == 1 then first else rest[|rest| - 1];
    FlattenConsLine(c, rest);
  }

  lemma {:induction false} FlattenConsLine(c: char, rest: seq<Text>)
    requires |rest| >= 1
    ensures Flatten([[c] + rest[0]] + rest[1..]) == [c] + Flatten(rest)
  {
    var ls := [[c] + rest[0]] + rest[1..];
    var tail := Flatten(rest[1..]);
    assert ls[0] == [c] + rest[0] && ls[1..] == rest[1..];
    assert Flatten(ls) == ([c] + rest[0]) + tail;
    assert Flatten(rest) == rest[0] + tail;
    assert ([c] + rest[0]) + tail == [c] + (rest[0] + tail);
  }

  /** Lines(t) is a division of t into lines. */
  lemma {:induction false} LinesShape(t: Text)
    ensures Shaped(Lines(t)) && Flatten(Lines(t)) == t
    decreases |t|
  {
    if t != [] {
      LinesShape(t[1..]);
      assert t == [t[0]] + t[1..];
      if t[0] == '\n' {
        ShapedNewline(Lines(t[1..]));
      } else {
        ShapedCons(t[0], Lines(t[1..]));
      }
    }
  }

  lemma {:induction false} LinesOfFinal(x: Text)
    requires '\n' !in x
    ensures Lines(x) == [x]
    decreases |x|
  {
    if x != [] {
      assert x == [x[0]] + x[1..];
      LinesOfFinal(x[1..]);
    }
  }

  lemma {:induction false} LinesOfTerminated(a: Text, b: Text)
    requires Terminated(a)
    ensures Lines(a + b) == [a] + Lines(b)
    decreases |a|
  {
    assert (a + b)[1..] == a[1..] + b;
    if |a| == 1 {
      assert a == ['\n'];
    } else {
      assert a[0] != '\n' by { assert a[0] == a[..|a| - 1][0]; }
      assert a[1..][..|a| - 2] == a[..|a| - 1][1..];
      LinesOfTerminated(a[1..], b);
      assert a == [a[0]] + a[1..];
    }
  }

  /** A text is determined by its lines. */
  lemma {:induction false} LinesDetermineText(a: Text, b: Text)
    requires Lines(a) == Lines(b)
    ensures a == b
  {
    LinesShape(a);
    LinesShape(b);
  }

  /** A division into lines is the only one: Lines recovers it from its text. */
  lemma {:induction false} LinesOfFlatten(ls: seq<Text>)
    requires Shaped(ls)
    ensures Lines(Flatten(ls)) == ls
    decreases |ls|
  {
    if |ls| == 1 {
      assert ls == [ls[0]] && ls[1..] == [];
      assert Flatten(ls) == ls[0];
      LinesOfFinal(ls[0]);
    } else {
      assert Terminated(ls[0]);
      assert Shaped(ls[1..]) by {
        forall i | 0 <= i < |ls[1..]| - 1 ensures Terminated(ls[1..][i]) {
          assert ls[1..][i] == ls[i + 1];
        }
      }
      LinesOfFlatten(ls[1..]);
      LinesOfTerminated(ls[0], Flatten(ls[1..]));
    }
  }

  /** A text with k line feeds has k + 1 lines. */
  lemma {:induction false} LineCountIsNewlinesPlusOne(t: Text)
    ensures LineCount(t) == multiset(t)['\n'] + 1
    decreases |t|
  {
    if t != [] {
      LineCountIsNewlinesPlusOne(t[1..]);
      assert t == [t[0]] + t[1..];
      assert multiset(t) == multiset([t[0]]) + multiset(t[1..]);
    }
  }

  /** Splitting a division into lines around line `row`. */
  lemma {:induction false} FlattenAround(ls: seq<Text>, row: nat)
    requires row < |ls|
    ensures Flatten(ls) == Flatten(ls[..row]) + ls[row] + Flatten(ls[row + 1..])
  {
    assert ls == ls[..row] + ([ls[row]] + ls[row + 1..]);
    FlattenAppend(ls[..row], [ls[row]] + ls[row + 1..]);
    assert ([ls[row]] + ls[row + 1..])[1..] == ls[row + 1..];
  }

  /** Line `row` of t sits in t right after the lines before it. */
  lemma {:induction false} LineSplit(t: Text, row: nat)
    requires row < LineCount(t)
    ensures var ls := Lines(t);
      && t == Flatten(ls[..row]) + ls[row] + Flatten(ls[row + 1..])
      && SumLens(ls[..row]) == |Flatten(ls[..row])|
      && SumLens(ls[..row]) + |ls[row]| <= |t|
      && t[SumLens(ls[..row])..SumLens(ls[..row]) + |ls[row]|] == ls[row]
  {
    var ls := Lines(t);
    LinesShape(t);
    FlattenAround(ls, row);
    SumLensIsLength(ls[..row]);
    var p, q, r := Flatten(ls[..row]), ls[row], Flatten(ls[row + 1..]);
    assert t == p + q + r;
    assert (p + q + r)[|p|..|p| + |q|] == q;
  }

  // ---------------------------------------------------------------------
  // Coordinate translation
  // ---------------------------------------------------------------------

  /** The offset the rope-index loop computes for an absolute (column, row):
      the lengths of the lines before `row` plus `column`, or, when `row` is
      at or past the last line, the lengths of all lines (`column` unused). */
  function RopeIndex(t: Text, column: nat, row: nat): nat {
    var ls := Lines(t);
    if row < |ls| then SumLens(ls[..row]) + column else SumLens(ls)
  }

  /** Past the last line the rope index is the length of the text. */
  lemma {:induction false} RopeIndexPastEnd(t: Text, column: nat, row: nat)
    requires row >= LineCount(t)
    ensures RopeIndex(t, column, row) == |t|
  {
    LinesShape(t);
    SumLensIsLength(Lines(t));
  }

  /** Inside the text, the rope index is `column` characters into line `row`,
      which occupies the offsets from the rope index of its column 0 on. */
  lemma {:induction false} RopeIndexInLine(t: Text, column: nat, row: nat)
    requires row < LineCount(t)
    ensures var start := RopeIndex(t, 0, row);
      && RopeIndex(t, column, row) == start + column
      && start + |Lines(t)[row]| <= |t|
      && t[start..start + |Lines(t)[row]|] == Lines(t)[row]
  {
    LineSplit(t, row);
  }

  /** The row that holds offset o: the last line starting at or before o. */
  function RowOf(ls: seq<Text>, o: nat): (r: nat)
    ensures |ls| >= 1 ==> r < |ls|
    decreases |ls|
  {
    if |ls| <= 1 then 0
    else if SumLens(ls[..|ls| - 1]) <= o then |ls| - 1
    else RowOf(ls[..|ls| - 1], o)
  }

  lemma {:induction false} RowOfBounds(ls: seq<Text>, o: nat)
    requires |ls| >= 1 && o <= SumLens(ls)
    ensures var r := RowOf(ls, o); SumLens(ls[..r]) <= o <= SumLens(ls[..r]) + |ls[r]|
    decreases |ls|
  {
    var n := |ls| - 1;
    assert ls[..n + 1] == ls;
    if n == 0 {
      assert ls[..0] == [];
    } else if o < SumLens(ls[..n]) {
      RowOfBounds(ls[..n], o);
      var r := RowOf(ls[..n], o);
      assert ls[..n][..r] == ls[..r] && ls[..n][r] == ls[r];
    }
  }

  /** The inverse of the rope index: every offset of the text, its end
      included, is the rope index of the (column, row) given here,
      a column inside (or at the end of) that row's line. */
  function PositionOf(t: Text, o: nat): (p: (nat, nat))
    requires o <= |t|
    ensures p.1 < LineCount(t) && p.0 <= |Lines(t)[p.1]|
    ensures RopeIndex(t, p.0, p.1) == o
  {
    var ls := Lines(t);
    LinesShape(t);
    SumLensIsLength(ls);
    RowOfBounds(ls, o);
    var r := RowOf(ls, o);
    (o - SumLens(ls[..r]), r)
  }

  // ---------------------------------------------------------------------
  // Line lengths
  // ---------------------------------------------------------------------

  /** The length of a line without its terminator: two characters are
      taken off a line that ends in '\n' (never below zero), none off the
      final line, which has no terminator. */
  function LineLen(ln: Text): (n: nat)
    ensures n <= |ln|
    ensures '\n' !in ln ==> n == |ln|
    ensures |ln| >= 2 && ln[|ln| - 1] == '\n' ==> n + 2 == |ln|
  {
    if |ln| > 0 && ln[|ln| - 1] == '\n' then SatSub(|ln|, 2) else |ln|
  }

  /** `get_current_line_len` as written: the line's length less two with
      no guard, for a line of one-byte characters (as an integer, so that
      the unsigned underflow shows as a negative value). */
  function LineLenAsWritten(ln: Text): int { |ln| - 2 }

  /** On the final line, which has no terminator, the subtraction as
      written goes below zero for the empty buffer and cuts two characters
      off a one-line buffer such as "abc"; LineLen gives 0 and 3. */
  lemma {:induction false} LineLenAsWrittenOnFinalLine()
    ensures Lines([]) == [[]] && LineLenAsWritten([]) < 0 && LineLen([]) == 0
    ensures Lines("abc") == ["abc"] && LineLenAsWritten("abc") == 1 && LineLen("abc") == 3
  {
    LinesOfFinal("abc");
  }

  /** A line ending in the two-character terminator. */
  predicate CrLfLine(ln: Text) {
    Terminated(ln) && |ln| >= 2 && ln[|ln| - 2] == '\r'
  }

  /** The lines of a normalised buffer: every line but the final one ends
      in "\r\n", and the final one has no '\n'. */
  predicate CrLfLines(ls: seq<Text>) {
    |ls| >= 1
    && (forall i :: 0 <= i < |ls| - 1 ==> CrLfLine(ls[i]))
    && '\n' !in ls[|ls| - 1]
  }

  predicate Normalized(t: Text) { CrLfLines(Lines(t)) }

  /** Every '\n' is immediately preceded by '\r'. */
  predicate CrBeforeLf(t: Text) {
    forall i :: 0 <= i < |t| && t[i] == '\n' ==> 0 < i && t[i - 1] == '\r'
  }

  /** A line of a normalised buffer is its LineLen characters of content
      followed by "\r\n", or, for the final line, content alone; the
      content holds no '\n'. */
  lemma {:induction false} ContentOfLine(ls: seq<Text>, i: nat)
    requires CrLfLines(ls) && i < |ls|
    ensures var ln := ls[i];
      && '\n' !in ln[..LineLen(ln)]
      && (i < |ls| - 1 ==> ln == ln[..LineLen(ln)] + ['\r', '\n'])
      && (i == |ls| - 1 ==> LineLen(ln) == |ln|)
  {
    var ln := ls[i];
    if i < |ls| - 1 {
      assert CrLfLine(ln);
      assert ln[..LineLen(ln)] == ln[..|ln| - 1][..|ln| - 2];
      assert ln == ln[..LineLen(ln)] + ['\r', '\n'];
    } else {
      assert ln[..LineLen(ln)] == ln;
    }
  }

  /** Character j of line i sits at offset j past the line's start. */
  lemma {:induction false} CharOfLine(t: Text, i: nat, j: nat)
    requires i < LineCount(t) && j < |Lines(t)[i]|
    ensures SumLens(Lines(t)[..i]) + j < |t|
    ensures t[SumLens(Lines(t)[..i]) + j] == Lines(t)[i][j]
  {
    LineSplit(t, i);
    var st := SumLens(Lines(t)[..i]);
    assert t[st..st + |Lines(t)[i]|][j] == t[st + j];
  }

  /** Line i starts where line i - 1 ends. */
  lemma {:induction false} LineStartAfterPrevious(ls: seq<Text>, i: nat)
    requires 0 < i <= |ls|
    ensures SumLens(ls[..i]) == SumLens(ls[..i - 1]) + |ls[i - 1]|
  {
    assert ls[..i][..i - 1] == ls[..i - 1];
  }

  /** Where line i ends in '\n' and its '\n' follows a '\r', the line
      ends in "\r\n": the '\r' cannot be on the line before. */
  lemma {:induction false} CrBeforeLfLine(t: Text, i: nat)
    requires CrBeforeLf(t) && i + 1 < LineCount(t)
    ensures CrLfLine(Lines(t)[i])
  {
    var ls := Lines(t);
    LinesShape(t);
    var ln := ls[i];
    assert Terminated(ln);
    var st := SumLens(ls[..i]);
    CharOfLine(t, i, |ln| - 1);
    var p := st + |ln| - 1;
    assert t[p] == '\n';
    if i == 0 {
      assert ls[..0] == [];
    } else {
      var prev := ls[i - 1];
      assert Terminated(prev);
      LineStartAfterPrevious(ls, i);
      CharOfLine(t, i - 1, |prev| - 1);
      assert t[st - 1] == '\n';
    }
    assert |ln| >= 2;
    CharOfLine(t, i, |ln| - 2);
  }

  /** Char-level and line-level normalisation agree in one direction: a text
      whose every '\n' follows a '\r' is normalised. */
  lemma {:induction false} CrBeforeLfIsNormalized(t: Text)
    requires CrBeforeLf(t)
    ensures Normalized(t)
  {
    var ls := Lines(t);
    LinesShape(t);
    forall i | 0 <= i < |ls| - 1 ensures CrLfLine(ls[i]) {
      CrBeforeLfLine(t, i);
    }
  }

  // ---------------------------------------------------------------------
  // Load normalisation and the save filter
  // ---------------------------------------------------------------------

  function Piece(c: char): Text { if c == '\n' then ['\r', '\n'] else [c] }

  /** The positions of the '\n's of s, each plus base, in increasing order:
      what the first loop of `Editor::new` collects. */
  function NewlinesFrom(s: Text, base: nat): seq<nat>
    decreases |s|
  {
    if s == [] then []
    else (if s[0] == '\n' then [base] else []) + NewlinesFrom(s[1..], base + 1)
  }

  lemma {:induction false} NewlinesFromSnoc(s: Text, c: char, base: nat)
    ensures NewlinesFrom(s + [c], base) == NewlinesFrom(s, base) + (if c == '\n' then [base + |s|] else [])
    decreases |s|
  {
    var tail: seq<nat> := if c == '\n' then [base + |s|] else [];
    if s == [] {
      assert s + [c] == [c] && [c][1..] == [];
      assert NewlinesFrom([c], base) == tail + NewlinesFrom([], base + 1);
    } else {
      var head: seq<nat> := if s[0] == '\n' then [base] else [];
      assert (s + [c])[0] == s[0] && (s + [c])[1..] == s[1..] + [c];
      NewlinesFromSnoc(s[1..], c, base + 1);
      assert NewlinesFrom(s + [c], base) == head + (NewlinesFrom(s[1..], base + 1) + tail);
      assert NewlinesFrom(s, base) == head + NewlinesFrom(s[1..], base + 1);
    }
  }

  /** The first collected position is the first '\n', and the rest are
      those of the text after it. */
  lemma {:induction false} FirstNewline(s: Text, base: nat)
    requires NewlinesFrom(s, base) != []
    ensures NewlinesFrom(s, base)[0] >= base
    ensures var p := NewlinesFrom(s, base)[0] - base;
      && p < |s| && s[p] == '\n' && '\n' !in s[..p]
      && NewlinesFrom(s, base)[1..] == NewlinesFrom(s[p + 1..], base + p + 1)
    decreases |s|
  {
    var r, rest := NewlinesFrom(s, base), NewlinesFrom(s[1..], base + 1);
    if s[0] == '\n' {
      assert r == [base] + rest;
      assert r[0] == base && r[1..] == rest;
      assert s[..0] == [];
    } else {
      assert r == rest;
      FirstNewline(s[1..], base + 1);
      var q := rest[0] - (base + 1);
      var p := q + 1;
      assert r[0] - base == p;
      assert s[p] == s[1..][q];
      assert s[..p] == [s[0]] + s[1..][..q];
      assert s[p + 1..] == s[1..][q + 1..];
      assert base + p + 1 == base + 1 + q + 1;
    }
  }

  lemma {:induction false} NoNewlines(s: Text, base: nat)
    requires NewlinesFrom(s, base) == []
    ensures '\n' !in s
    decreases |s|
  {
    if s != [] {
      NoNewlines(s[1..], base + 1);
      assert s == [s[0]] + s[1..];
    }
  }

  /** The buffer `Editor::new` makes of a file's text: a '\r' inserted
      before every '\n'. */
  function Normalize(s: Text): Text {
    if s == [] then [] else Piece(s[0]) + Normalize(s[1..])
  }

  /** Normalisation adds one character per '\n'. */
  lemma {:induction false} NormalizeLength(s: Text)
    ensures |Normalize(s)| == |s| + multiset(s)['\n']
    decreases |s|
  {
    if s != [] {
      NormalizeLength(s[1..]);
      assert s == [s[0]] + s[1..];
      assert multiset(s) == multiset([s[0]]) + multiset(s[1..]);
    }
  }

  lemma {:induction false} NormalizeHead(s: Text)
    ensures Normalize(s) != [] ==> Normalize(s)[0] != '\n'
  {
  }

  /** After normalisation every '\n' is immediately preceded by '\r'. */
  lemma {:induction false} NormalizeCrBeforeLf(s: Text)
    ensures CrBeforeLf(Normalize(s))
    decreases |s|
  {
    if s != [] {
      var rest := Normalize(s[1..]);
      NormalizeCrBeforeLf(s[1..]);
      NormalizeHead(s[1..]);
      var k := |Piece(s[0])|;
      var r := Piece(s[0]) + rest;
      forall i | 0 <= i < |r| && r[i] == '\n' ensures 0 < i && r[i - 1] == '\r' {
        if i >= k {
          assert r[i] == rest[i - k];
          if i > k {
            assert r[i - 1] == rest[i - k - 1];
          }
        }
      }
    }
  }

  lemma {:induction false} NormalizeAppend(a: Text, b: Text)
    ensures Normalize(a + b) == Normalize(a) + Normalize(b)
    decreases |a|
  {
    if a != [] {
      assert (a + b)[1..] == a[1..] + b;
      NormalizeAppend(a[1..], b);
    } else {
      assert a + b == b;
    }
  }

  lemma {:induction false} NormalizeWithoutNewline(s: Text)
    requires '\n' !in s
    ensures Normalize(s) == s
    decreases |s|
  {
    if s != [] {
      assert s == [s[0]] + s[1..];
      NormalizeWithoutNewline(s[1..]);
    }
  }

  /** What `save` writes: every '\r' dropped, nothing else changed. */
  function Save(t: Text): (r: Text)
    ensures '\r' !in r
    ensures forall c :: c in r ==> c in t
  {
    if t == [] then []
    else (if t[0] == '\r' then [] else [t[0]]) + Save(t[1..])
  }

  /** Saving drops exactly the '\r's: the saved text is shorter by their number. */
  lemma {:induction false} SaveLength(t: Text)
    ensures |Save(t)| + multiset(t)['\r'] == |t|
    decreases |t|
  {
    if t != [] {
      SaveLength(t[1..]);
      assert t == [t[0]] + t[1..];
      assert multiset(t) == multiset([t[0]]) + multiset(t[1..]);
    }
  }

  lemma {:induction false} SaveWithoutCr(t: Text)
    requires '\r' !in t
    ensures Save(t) == t
    decreases |t|
  {
    if t != [] {
      assert t == [t[0]] + t[1..];
      SaveWithoutCr(t[1..]);
    }
  }

  lemma {:induction false} SaveAppend(a: Text, b: Text)
    ensures Save(a + b) == Save(a) + Save(b)
    decreases |a|
  {
    if a != [] {
      assert (a + b)[0] == a[0] && (a + b)[1..] == a[1..] + b;
      SaveAppend(a[1..], b);
      var h: Text := if a[0] == '\r' then [] else [a[0]];
      assert Save(a + b) == h + Save(a[1..] + b);
      assert Save(a) == h + Save(a[1..]);
    } else {
      assert a + b == b;
    }
  }

  /** Normalising on load is invisible to save. */
  lemma {:induction false} SaveOfNormalize(s: Text)
    ensures Save(Normalize(s)) == Save(s)
    decreases |s|
  {
    if s != [] {
      var c := s[0];
      SaveOfNormalize(s[1..]);
      SaveAppend(Piece(c), Normalize(s[1..]));
      assert Save(Piece(c)) == Save([c]) by {
        if c == '\n' {
          assert Piece(c)[1..] == [c];
          assert Save(Piece(c)) == Save([c]);
        }
      }
      assert s == [c] + s[1..];
      SaveAppend([c], s[1..]);
    }
  }

  /** Saving right after loading a text without '\r' writes it back unchanged. */
  lemma {:induction false} LoadSaveRoundTrip(s: Text)
    requires '\r' !in s
    ensures Save(Normalize(s)) == s
  {
    SaveOfNormalize(s);
    SaveWithoutCr(s);
  }
}
