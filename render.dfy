/** The span layout of `redraw`: which leaf tokens are drawn, where each
    one starts and ends as a character offset, which palette entry colours
    it, and the uncoloured text printed between tokens. The terminal
    writes themselves become a sequence of spans. */
module Render {
  import opened Options
  import opened Buffer
  import opened Syntax

  /** The number of entries in the colour palette `COLORS`. */
  const PaletteSize: nat := 12

  /** A printed slice [start, end) of the buffer, with the palette index
      it is drawn in, or None for text printed between tokens. */
  datatype Span = Span(colour: Option<nat>, start: nat, end: nat)

  /** The rows on screen are scroll .. scroll + height - 1. */
  predicate InView(n: Node, scroll: nat, height: nat) {
    scroll <= n.start.row <= scroll + height - 1
  }

  /** How many of a rope's `lines` lines, the last one excepted, are on
      the rows scroll .. scroll + height - 1: all rows when the viewport
      lies within them, none when it starts below them. */
  function VisibleLineCount(lines: nat, scroll: nat, height: nat): (n: nat)
    ensures n <= height && n <= SatSub(lines, 1)
    ensures scroll + height <= SatSub(lines, 1) ==> n == height
    ensures SatSub(lines, 1) <= scroll ==> n == 0
  {
    SatSub(Min(SatSub(lines, 1), scroll + height), scroll)
  }

  /** The slice `redraw` prints for a leaf: from the rope index of its start,
      as many characters as its end column is past its start column (taken
      as zero when the token ends at a smaller column, on a later row). */
  function TokenSpan(t: Text, n: Node): (sp: Span)
    ensures sp.colour.Some? && sp.colour.value < PaletteSize
    ensures sp.start <= sp.end
  {
    var index := RopeIndex(t, n.start.column, n.start.row);
    Span(Some(n.kind % PaletteSize), index, index + SatSub(n.end.column, n.start.column))
  }

  /** The spans `redraw` prints for `nodes`, the previous token having
      ended at offset `last`. */
  function Layout(t: Text, nodes: seq<Node>, scroll: nat, height: nat, last: nat): seq<Span>
    requires height >= 1
  {
    if nodes == [] then []
    else if !InView(nodes[0], scroll, height) then Layout(t, nodes[1..], scroll, height, last)
    else
      var tok := TokenSpan(t, nodes[0]);
      var gap := if tok.start > last then [Span(None, last, tok.start)] else [];
      gap + [tok] + Layout(t, nodes[1..], scroll, height, tok.end)
  }

  /** Every colour is a palette entry; text between tokens is printed only
      when the next token starts after the previous one ended, and then
      exactly from the one to the other. */
  predicate WellLaidOut(r: seq<Span>, last: nat) {
    && (forall i :: 0 <= i < |r| && r[i].colour.Some? ==> r[i].colour.value < PaletteSize)
    && (forall i :: 0 <= i < |r| && r[i].colour.None? ==>
          r[i].start < r[i].end && i + 1 < |r| && r[i + 1].colour.Some? && r[i + 1].start == r[i].end)
    && (|r| > 0 && r[0].colour.None? ==> r[0].start == last)
    && (forall i :: 0 < i < |r| && r[i].colour.None? ==> r[i].start == r[i - 1].end)
  }

  lemma {:induction false} LayoutWellLaidOut(t: Text, nodes: seq<Node>, scroll: nat, height: nat, last: nat)
    requires height >= 1
    ensures WellLaidOut(Layout(t, nodes, scroll, height, last), last)
  {
    if nodes != [] {
      if !InView(nodes[0], scroll, height) {
        LayoutWellLaidOut(t, nodes[1..], scroll, height, last);
      } else {
        var tok := TokenSpan(t, nodes[0]);
        LayoutWellLaidOut(t, nodes[1..], scroll, height, tok.end);
        WellLaidOutCons(tok, Layout(t, nodes[1..], scroll, height, tok.end), last);
      }
    }
  }

  /** A token span, with the gap before it if any, in front of a layout
      that starts where the token ends. */
  lemma {:induction false} WellLaidOutCons(tok: Span, rest: seq<Span>, last: nat)
    requires tok.colour.Some? && tok.colour.value < PaletteSize
    requires WellLaidOut(rest, tok.end)
    ensures var gap := if tok.start > last then [Span(None, last, tok.start)] else [];
      WellLaidOut(gap + [tok] + rest, last)
  {
    var gap := if tok.start > last then [Span(None, last, tok.start)] else [];
    var r := gap + [tok] + rest;
    var k := |gap| + 1;
    assert r[|gap|] == tok;
    assert forall i :: k <= i < |r| ==> r[i] == rest[i - k];
    forall i | 0 <= i < |r| && r[i].colour.None?
      ensures r[i].start < r[i].end && i + 1 < |r| && r[i + 1].colour.Some? && r[i + 1].start == r[i].end
    {
      if i >= k {
        assert r[i] == rest[i - k];
      }
    }
    forall i | 0 < i < |r| && r[i].colour.None?
      ensures r[i].start == r[i - 1].end
    {
      assert i >= k;
      assert r[i] == rest[i - k];
      if i > k { assert r[i - 1] == rest[i - 1 - k]; } else { assert r[i - 1] == tok; }
    }
  }

  lemma {:induction false} SpansAssoc(a: seq<Span>, b: seq<Span>, c: seq<Span>, d: seq<Span>)
    ensures a + (b + c + d) == a + b + c + d
  {
  }

  /** One turn of the `redraw` loop, at node i: a node off screen is
      skipped; one on screen, whose start has rope index `index`, gives the
      text before it, if any, and its own span. */
  lemma {:induction false} LayoutTurn(t: Text, nodes: seq<Node>, i: nat, scroll: nat, height: nat, last: nat, index: nat)
    requires height >= 1 && i < |nodes|
    requires index == RopeIndex(t, nodes[i].start.column, nodes[i].start.row)
    ensures var n := nodes[i]; var end := index + SatSub(n.end.column, n.start.column);
      Layout(t, nodes[i..], scroll, height, last)
        == if n.start.row < scroll || n.start.row > scroll + height - 1 then Layout(t, nodes[i + 1..], scroll, height, last)
           else ((if index > last then [Span(None, last, index)] else [])
             + [Span(Some(n.kind % PaletteSize), index, end)] + Layout(t, nodes[i + 1..], scroll, height, end))
  {
    assert nodes[i..][0] == nodes[i] && nodes[i..][1..] == nodes[i + 1..];
  }

  /** The nodes `redraw` does not skip, in their order. */
  function Visible(nodes: seq<Node>, scroll: nat, height: nat): (r: seq<Node>)
    requires height >= 1
    ensures forall n :: n in r <==> n in nodes && InView(n, scroll, height)
    ensures |r| <= |nodes|
  {
    if nodes == [] then []
    else
      (if InView(nodes[0], scroll, height) then [nodes[0]] else [])
      + Visible(nodes[1..], scroll, height)
  }

  /** The filter keeps order and multiplicity: it distributes over
      concatenation, so each node is kept or dropped where it stands. */
  lemma {:induction false} VisibleAppend(a: seq<Node>, b: seq<Node>, scroll: nat, height: nat)
    requires height >= 1
    ensures Visible(a + b, scroll, height) == Visible(a, scroll, height) + Visible(b, scroll, height)
  {
    if a == [] {
      assert a + b == b;
    } else {
      assert (a + b)[0] == a[0];
      assert (a + b)[1..] == a[1..] + b;
      VisibleAppend(a[1..], b, scroll, height);
    }
  }

  /** The coloured spans among `spans`, in order. */
  function Tokens(spans: seq<Span>): seq<Span> {
    if spans == [] then []
    else (if spans[0].colour.Some? then [spans[0]] else []) + Tokens(spans[1..])
  }

  function TokenSpans(t: Text, nodes: seq<Node>): (r: seq<Span>)
    ensures |r| == |nodes|
    ensures forall i :: 0 <= i < |nodes| ==> r[i] == TokenSpan(t, nodes[i])
  {
    if nodes == [] then [] else [TokenSpan(t, nodes[0])] + TokenSpans(t, nodes[1..])
  }

  lemma {:induction false} TokensAppend(a: seq<Span>, b: seq<Span>)
    ensures Tokens(a + b) == Tokens(a) + Tokens(b)
  {
    if a == [] {
      assert a + b == b;
    } else {
      assert (a + b)[1..] == a[1..] + b;
      TokensAppend(a[1..], b);
    }
  }

  /** The coloured spans are one per visible node, in order, each the
      node's own slice and palette entry, whatever was printed before. */
  lemma {:induction false} LayoutTokens(t: Text, nodes: seq<Node>, scroll: nat, height: nat, last: nat)
    requires height >= 1
    ensures Tokens(Layout(t, nodes, scroll, height, last)) == TokenSpans(t, Visible(nodes, scroll, height))
  {
    if nodes != [] {
      var n := nodes[0];
      if InView(n, scroll, height) {
        var tok := TokenSpan(t, n);
        var gap := if tok.start > last then [Span(None, last, tok.start)] else [];
        var rest := Layout(t, nodes[1..], scroll, height, tok.end);
        LayoutTokens(t, nodes[1..], scroll, height, tok.end);
        TokensAppend(gap + [tok], rest);
        TokensAppend(gap, [tok]);
        assert Tokens([tok]) == [tok] by { assert [tok][1..] == []; }
        if gap != [] { assert Tokens(gap) == [] by { assert gap[1..] == []; } }
        assert Visible(nodes, scroll, height) == [n] + Visible(nodes[1..], scroll, height);
      } else {
        LayoutTokens(t, nodes[1..], scroll, height, last);
      }
    }
  }

  /** The visible tokens come in offset order without overlapping, the
      first not before `last`. */
  predicate Ordered(t: Text, nodes: seq<Node>, last: nat) {
    nodes == []
    || (TokenSpan(t, nodes[0]).start >= last && Ordered(t, nodes[1..], TokenSpan(t, nodes[0]).end))
  }

  /** When the visible tokens are in order, the spans tile the window from
      `last` on: each starts where the previous one ended, so no character
      is printed twice. */
  lemma {:induction false} LayoutTiles(t: Text, nodes: seq<Node>, scroll: nat, height: nat, last: nat)
    requires height >= 1
    requires Ordered(t, Visible(nodes, scroll, height), last)
    ensures var r := Layout(t, nodes, scroll, height, last);
      && (|r| > 0 ==> r[0].start == last)
      && (forall i :: 0 < i < |r| ==> r[i].start == r[i - 1].end)
  {
    if nodes != [] {
      var n := nodes[0];
      if InView(n, scroll, height) {
        assert Visible(nodes, scroll, height) == [n] + Visible(nodes[1..], scroll, height);
        var tok := TokenSpan(t, n);
        assert ([n] + Visible(nodes[1..], scroll, height))[1..] == Visible(nodes[1..], scroll, height);
        LayoutTiles(t, nodes[1..], scroll, height, tok.end);
      } else {
        var v := Visible(nodes[1..], scroll, height);
        assert [] + v == v;
        assert Visible(nodes, scroll, height) == v;
        LayoutTiles(t, nodes[1..], scroll, height, last);
      }
    }
  }
}
