/** The parse tree the renderer colours from, taken as given (the parser
    itself is a foreign library), and the leaf-token extraction
    `expand_node`. */
module Syntax {

  /** A tree-sitter point: a row and a column. */
  datatype Point = Point(row: nat, column: nat)

  /** A parse-tree node: its kind id, where it starts and ends, its children. */
  datatype Node = Node(kind: nat, start: Point, end: Point, children: seq<Node>)

  predicate IsLeaf(n: Node) { |n.children| == 0 }

  /** `expand_node`: a childless node yields itself; any other node yields
      the leaves of its children, one child after the other. */
  function Leaves(n: Node): (r: seq<Node>)
    ensures |r| >= 1
    ensures forall m :: m in r ==> IsLeaf(m)
    decreases n, 1
  {
    if |n.children| == 0 then [n] else LeavesOf(n.children)
  }

  function LeavesOf(ns: seq<Node>): (r: seq<Node>)
    ensures |r| >= |ns|
    ensures forall m :: m in r ==> IsLeaf(m)
    decreases ns, 0
  {
    if ns == [] then [] else Leaves(ns[0]) + LeavesOf(ns[1..])
  }

  /** Every node of the tree in depth-first pre-order: a node, then the
      nodes of its first child's subtree, then of the next child's, and so on. */
  function PreOrder(n: Node): (r: seq<Node>)
    decreases n, 1
  {
    [n] + PreOrderOf(n.children)
  }

  function PreOrderOf(ns: seq<Node>): (r: seq<Node>)
    decreases ns, 0
  {
    if ns == [] then [] else PreOrder(ns[0]) + PreOrderOf(ns[1..])
  }

  /** The childless nodes of s, in the order of s. */
  function Childless(s: seq<Node>): (r: seq<Node>)
    ensures forall m :: m in r <==> m in s && IsLeaf(m)
  {
    if s == [] then []
    else (if IsLeaf(s[0]) then [s[0]] else []) + Childless(s[1..])
  }

  lemma {:induction false} ChildlessAppend(a: seq<Node>, b: seq<Node>)
    ensures Childless(a + b) == Childless(a) + Childless(b)
  {
    if a == [] {
      assert a + b == b;
    } else {
      assert (a + b)[1..] == a[1..] + b;
      ChildlessAppend(a[1..], b);
    }
  }

  /** The leaves `expand_node` returns are exactly the childless nodes of
      the tree, in depth-first pre-order. */
  lemma {:induction false} LeavesArePreOrderLeaves(n: Node)
    ensures Leaves(n) == Childless(PreOrder(n))
    decreases n, 1
  {
    ChildlessAppend([n], PreOrderOf(n.children));
    if |n.children| == 0 {
      assert PreOrderOf(n.children) == [];
    } else {
      LeavesOfArePreOrderLeaves(n.children);
    }
  }

  lemma {:induction false} LeavesOfArePreOrderLeaves(ns: seq<Node>)
    ensures LeavesOf(ns) == Childless(PreOrderOf(ns))
    decreases ns, 0
  {
    if ns != [] {
      LeavesArePreOrderLeaves(ns[0]);
      LeavesOfArePreOrderLeaves(ns[1..]);
      ChildlessAppend(PreOrder(ns[0]), PreOrderOf(ns[1..]));
    }
  }
}
