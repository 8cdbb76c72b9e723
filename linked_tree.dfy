/**
 * The pointer structure (Node.hpp) and how it is tied to a value. A ghost
 * `shape` records, for every node, the Node object and the bid it holds;
 * `Match(n, s)` says that the links reachable from `n` are exactly `s`.
 */
module LinkedTree {
  import opened Bids
  import opened Trees
  import opened TreeSpec

  /** A vertex: its own copy of a bid and two child links. */
  class Node {
    var bid: Bid
    var left: Node?
    var right: Node?

    /**
     * `new Node` leaves the members uninitialised in C++; here they start as
     * an empty bid and no children, and `addNode` sets all three.
     */
    constructor ()
    {
      bid := NotFound;
      left := null;
      right := null;
    }
  }

  datatype Cell = Cell(node: Node, bid: Bid)

  type Shape = BTree<Cell>

  ghost function NodesOf(s: Shape): set<Node>
  {
    match s
    case Leaf => {}
    case Node(l, c, r) => NodesOf(l) + {c.node} + NodesOf(r)
  }

  /** No node occurs twice: the links form a tree, not a DAG or a cycle. */
  ghost predicate Distinct(s: Shape)
  {
    match s
    case Leaf => true
    case Node(l, c, r) =>
      && Distinct(l) && Distinct(r)
      && c.node !in NodesOf(l) && c.node !in NodesOf(r)
      && NodesOf(l) !! NodesOf(r)
  }

  ghost predicate Match(n: Node?, s: Shape)
    reads NodesOf(s)
  {
    match s
    case Leaf => n == null
    case Node(l, c, r) =>
      n == c.node && c.node.bid == c.bid && Match(c.node.left, l) && Match(c.node.right, r)
  }

  /** The bids of a shape, without the objects. */
  function Erase(s: Shape): Tree
  {
    match s
    case Leaf => Leaf
    case Node(l, c, r) => Node(Erase(l), c.bid, Erase(r))
  }

  lemma {:induction false} EraseSub(s: Shape, p: Path)
    ensures Erase(Sub(s, p)) == Sub(Erase(s), p)
    decreases |p|
  {
    if p != [] && s.Node? {
      EraseSub(Child(s, p[0]), p[1..]);
    }
  }

  lemma {:induction false} EraseReplace(s: Shape, p: Path, u: Shape)
    ensures Erase(Replace(s, p, u)) == Replace(Erase(s), p, Erase(u))
    decreases |p|
  {
    if p != [] && s.Node? {
      EraseReplace(Child(s, p[0]), p[1..], u);
    }
  }

  lemma {:induction false} SubInside(s: Shape, p: Path)
    ensures NodesOf(Sub(s, p)) <= NodesOf(s)
    ensures Distinct(s) ==> Distinct(Sub(s, p))
    decreases |p|
  {
    if p != [] && s.Node? {
      SubInside(Child(s, p[0]), p[1..]);
    }
  }

  /** Putting `u` at `p` trades the nodes of the old subtree for those of `u`. */
  lemma {:induction false} ReplaceNodes(s: Shape, p: Path, u: Shape)
    requires Distinct(s) && Sub(s, p).Node?
    ensures NodesOf(Replace(s, p, u)) == (NodesOf(s) - NodesOf(Sub(s, p))) + NodesOf(u)
    decreases |p|
  {
    if p != [] {
      var c, q := Child(s, p[0]), p[1..];
      SubInside(c, q);
      ReplaceNodes(c, q, u);
    }
  }

  /** ... and keeps the nodes distinct when `u` brings none of the others. */
  lemma {:induction false} ReplaceDistinct(s: Shape, p: Path, u: Shape)
    requires Distinct(s) && Sub(s, p).Node? && Distinct(u)
    requires NodesOf(u) !! (NodesOf(s) - NodesOf(Sub(s, p)))
    ensures Distinct(Replace(s, p, u))
    decreases |p|
  {
    if p != [] {
      var c, q := Child(s, p[0]), p[1..];
      var other := if p[0] == Left then s.right else s.left;
      SubInside(c, q);
      assert NodesOf(s) == NodesOf(c) + {s.val.node} + NodesOf(other);
      ReplaceNodes(c, q, u);
      ReplaceDistinct(c, q, u);
      var c' := Replace(c, q, u);
      assert NodesOf(c') <= NodesOf(c) + NodesOf(u);
      assert NodesOf(u) !! ({s.val.node} + NodesOf(other));
      assert Replace(s, p, u) == if p[0] == Left then Node(c', s.val, s.right) else Node(s.left, s.val, c');
    }
  }

  /** The node a shape has at its top, or null for an empty shape. */
  function Root(s: Shape): Node?
  {
    if s.Leaf? then null else s.val.node
  }

  /** The nodes that are not below path `p`: the ancestors and the subtrees hanging off the path. */
  ghost function Above(s: Shape, p: Path): set<Node>
    decreases |p|
  {
    if p == [] then {}
    else match s
      case Leaf => {}
      case Node(l, c, r) =>
        {c.node} + (if p[0] == Left then Above(l, p[1..]) + NodesOf(r) else NodesOf(l) + Above(r, p[1..]))
  }

  /**
   * The links from `n` match `s` everywhere except below `p`, and the link
   * that leads to position `p` points to `x`. A change to the nodes below
   * `p` leaves this intact.
   */
  ghost predicate MatchAbove(n: Node?, s: Shape, p: Path, x: Node?)
    reads Above(s, p)
    decreases |p|
  {
    if p == [] then n == x
    else match s
      case Leaf => n == null && x == null
      case Node(l, c, r) =>
        && n == c.node && c.node.bid == c.bid
        && if p[0] == Left then MatchAbove(c.node.left, l, p[1..], x) && Match(c.node.right, r)
           else Match(c.node.left, l) && MatchAbove(c.node.right, r, p[1..], x)
  }

  /** The nodes above `p` and those below it make up the shape, and in a tree they are apart. */
  lemma {:induction false} AboveSplits(s: Shape, p: Path)
    ensures Above(s, p) + NodesOf(Sub(s, p)) == NodesOf(s)
    ensures Distinct(s) ==> Above(s, p) !! NodesOf(Sub(s, p))
    decreases |p|
  {
    if p != [] && s.Node? {
      AboveSplits(Child(s, p[0]), p[1..]);
      SubInside(Child(s, p[0]), p[1..]);
    }
  }

  /** A matching structure splits at any path into the part above and the part below. */
  lemma {:induction false} MatchSplit(n: Node?, s: Shape, p: Path)
    requires Match(n, s)
    ensures MatchAbove(n, s, p, Root(Sub(s, p))) && Match(Root(Sub(s, p)), Sub(s, p))
    decreases |p|
  {
    if p != [] && s.Node? {
      var x := s.val.node;
      if p[0] == Left { MatchSplit(x.left, s.left, p[1..]); } else { MatchSplit(x.right, s.right, p[1..]); }
    }
  }

  /** Hanging a structure that matches `u` at `p` gives one that matches `s` with `u` at `p`. */
  lemma {:induction false} MatchJoin(n: Node?, s: Shape, p: Path, u: Shape)
    requires Sub(s, p).Node? && MatchAbove(n, s, p, Root(u)) && Match(Root(u), u)
    ensures Match(n, Replace(s, p, u))
    decreases |p|
  {
    if p != [] {
      var x := s.val.node;
      if p[0] == Left { MatchJoin(x.left, s.left, p[1..], u); } else { MatchJoin(x.right, s.right, p[1..], u); }
    }
  }

  /** `MatchJoin` for a node whose links and bid are given one by one. */
  lemma MatchJoinNode(n: Node?, s: Shape, p: Path, l: Shape, c: Cell, r: Shape)
    requires Sub(s, p).Node? && MatchAbove(n, s, p, c.node)
    requires c.node.bid == c.bid && Match(c.node.left, l) && Match(c.node.right, r)
    ensures Match(n, Replace(s, p, Node(l, c, r)))
  {
    MatchJoin(n, s, p, Node(l, c, r));
  }
}
