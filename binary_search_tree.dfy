/**
 * The class BinarySearchTree (BinarySearchTree.hpp, BinarySearchTree.cpp):
 * a root link to a tree of Node objects. The ghost `shape` names every node
 * with the bid it holds, so each method is specified by what it does to
 * `Contents()`, the tree of bids, in terms of the value-level definitions.
 */
module Store {
  import opened Bids
  import opened KeyOrder
  import opened Trees
  import opened TreeSpec
  import opened RemoveSpec
  import opened LinkedTree
  import opened Findings

  // ------------------------------------------------------------------ descents

  /** One more step of Insert's descent keeps the insertion point in view. */
  lemma InsertDescent(t: Tree, p: Path, b: Bid, d: Dir)
    requires Sub(t, p).Node? && Inserted(t, b) == Replace(t, p, Inserted(Sub(t, p), b))
    requires d == (if Less(b.bidId, Sub(t, p).val.bidId) then Left else Right)
    ensures Inserted(t, b) == Replace(t, p + [d], Inserted(Sub(t, p + [d]), b))
  {
    SubAppend(t, p, d);
    ReplaceAppend(t, p, d, Inserted(Sub(t, p + [d]), b));
  }

  /** One more step of Remove's descent keeps the located node and the pass in view. */
  lemma RemoveDescent(t: Tree, p: Path, k: string, d: Dir)
    requires Sub(t, p).Node? && Sub(t, p).val.bidId != k
    requires d == (if Less(Sub(t, p).val.bidId, k) then Right else Left)
    requires RemoveStep(t, k) == Replace(t, p, RemoveStep(Sub(t, p), k))
    requires Located(t, k) == Located(Sub(t, p), k)
    ensures RemoveStep(t, k) == Replace(t, p + [d], RemoveStep(Sub(t, p + [d]), k))
    ensures Located(t, k) == Located(Sub(t, p + [d]), k)
  {
    SubAppend(t, p, d);
    ReplaceAppend(t, p, d, RemoveStep(Sub(t, p + [d]), k));
  }

  /** The corrected removal follows the same descent. */
  lemma FixedDescent(t: Tree, p: Path, k: string, d: Dir)
    requires Sub(t, p).Node? && Sub(t, p).val.bidId != k
    requires d == (if Less(Sub(t, p).val.bidId, k) then Right else Left)
    requires RemoveFixed(t, k) == Replace(t, p, RemoveFixed(Sub(t, p), k))
    ensures RemoveFixed(t, k) == Replace(t, p + [d], RemoveFixed(Sub(t, p + [d]), k))
  {
    SubAppend(t, p, d);
    ReplaceAppend(t, p, d, RemoveFixed(Sub(t, p + [d]), k));
  }

  /** The shape after a new node `n` holding `b` is hung on the empty link `d` of the node at `p`. */
  function Hung(S: Shape, p: Path, d: Dir, n: Node, b: Bid): Shape
    requires Sub(S, p).Node?
  {
    Replace(S, p, WithChild(Sub(S, p), d, Node(Leaf, Cell(n, b), Leaf)))
  }

  /** Hanging a node that is not yet in the tree adds exactly that node. */
  lemma HungNodes(S: Shape, p: Path, d: Dir, n: Node, b: Bid)
    requires Distinct(S) && Sub(S, p).Node? && Child(Sub(S, p), d) == Leaf && n !in NodesOf(S)
    ensures Distinct(Hung(S, p, d, n, b)) && NodesOf(Hung(S, p, d, n, b)) == NodesOf(S) + {n}
  {
    var u := WithChild(Sub(S, p), d, Node(Leaf, Cell(n, b), Leaf));
    SubInside(S, p);
    ReplaceNodes(S, p, u);
    ReplaceDistinct(S, p, u);
  }

  /** Hanging on the link Insert's comparison picks is `Inserted` at that node. */
  lemma HungContents(S: Shape, p: Path, d: Dir, n: Node, b: Bid)
    requires Sub(S, p).Node? && Child(Sub(S, p), d) == Leaf
    requires d == (if Less(b.bidId, Sub(S, p).val.bid.bidId) then Left else Right)
    ensures Erase(Hung(S, p, d, n, b)) == Replace(Erase(S), p, Inserted(Sub(Erase(S), p), b))
  {
    EraseReplace(S, p, WithChild(Sub(S, p), d, Node(Leaf, Cell(n, b), Leaf)));
    EraseSub(S, p);
  }

  /** The node at `p` has at most one child and `c` is the other one (or the empty one). */
  predicate OnlyChild(sub: Shape, c: Shape)
  {
    sub.Node? && ((c == sub.left && sub.right == Leaf) || (c == sub.right && sub.left == Leaf))
  }

  /** Putting the only child in the place of its parent drops exactly the parent node. */
  lemma UnlinkedNodes(S: Shape, p: Path, c: Shape)
    requires Distinct(S) && OnlyChild(Sub(S, p), c)
    ensures Distinct(Replace(S, p, c)) && NodesOf(Replace(S, p, c)) == NodesOf(S) - {Sub(S, p).val.node}
  {
    SubInside(S, p);
    ReplaceNodes(S, p, c);
    ReplaceDistinct(S, p, c);
  }

  /** ... and does what `RemoveStep` does at a node holding the key. */
  lemma UnlinkedContents(S: Shape, p: Path, c: Shape, k: string)
    requires OnlyChild(Sub(S, p), c) && Sub(S, p).val.bid.bidId == k
    ensures Erase(Replace(S, p, c)) == Replace(Erase(S), p, RemoveStep(Sub(Erase(S), p), k))
  {
    EraseReplace(S, p, c);
    EraseSub(S, p);
  }

  /** The shape after the node at `p` takes the bid `b`. */
  function Rebid(S: Shape, p: Path, b: Bid): Shape
    requires Sub(S, p).Node?
  {
    var sub := Sub(S, p);
    Replace(S, p, Node(sub.left, Cell(sub.val.node, b), sub.right))
  }

  /** A new bid in a node changes no link. */
  lemma RebidNodes(S: Shape, p: Path, b: Bid)
    requires Distinct(S) && Sub(S, p).Node?
    ensures Distinct(Rebid(S, p, b)) && NodesOf(Rebid(S, p, b)) == NodesOf(S)
  {
    var sub := Sub(S, p);
    var u := Node(sub.left, Cell(sub.val.node, b), sub.right);
    SubInside(S, p);
    assert NodesOf(u) == NodesOf(sub);
    ReplaceNodes(S, p, u);
    ReplaceDistinct(S, p, u);
  }

  /** Copying the successor's bid into a node with two children is `RemoveStep` at that node. */
  lemma RebidContents(S: Shape, p: Path, k: string)
    requires Sub(S, p).Node? && Sub(S, p).val.bid.bidId == k
    requires Sub(S, p).left.Node? && Sub(S, p).right.Node?
    ensures var b := Leftmost(Erase(Sub(S, p).right));
      Erase(Rebid(S, p, b)) == Replace(Erase(S), p, RemoveStep(Sub(Erase(S), p), k))
  {
    var sub := Sub(S, p);
    var b := Leftmost(Erase(sub.right));
    EraseReplace(S, p, Node(sub.left, Cell(sub.val.node, b), sub.right));
    EraseSub(S, p);
  }

  /** A new bid at `p` leaves every subtree strictly below `p` as it was. */
  lemma RebidBelow(S: Shape, p: Path, b: Bid, r: Path)
    requires Sub(S, p).Node? && r != []
    ensures Sub(Rebid(S, p, b), p + r) == Sub(S, p + r)
  {
    var sub := Sub(S, p);
    var u := Node(sub.left, Cell(sub.val.node, b), sub.right);
    SubConcat(Rebid(S, p, b), p, r);
    SubConcat(S, p, r);
    SubReplace(S, p, u);
  }

  /**
   * The corrected two-children case on shapes: the node at `p` takes the bid of
   * the leftmost node of its right subtree, which gives way to its own right
   * child `c`, at relative path `j`.
   */
  lemma SuccessorMovedContents(S: Shape, p: Path, b: Bid, j: Path, c: Shape)
    requires Sub(S, p).Node? && OnLeftSpine(Erase(Sub(S, p).right), j)
    requires Sub(Sub(S, p).right, j).Node? && Sub(Sub(S, p).right, j).left == Leaf
    requires c == Sub(Sub(S, p).right, j).right && b == Sub(Sub(S, p).right, j).val.bid
    ensures var l, r := Erase(Sub(S, p)).left, Erase(Sub(S, p)).right;
      Erase(Replace(Rebid(S, p, b), p + ([Right] + j), c)) == Replace(Erase(S), p, Node(l, Leftmost(r), DropLeftmost(r)))
  {
    var sub := Sub(S, p);
    var R := Erase(sub.right);
    var u := Node(sub.left, Cell(sub.val.node, b), sub.right);
    var x := Node(sub.left, Cell(sub.val.node, b), Replace(sub.right, j, c));
    SubReplace(S, p, u);
    ReplaceConcat(Rebid(S, p, b), p, [Right] + j, c);
    assert ([Right] + j)[0] == Right && ([Right] + j)[1..] == j;
    assert Replace(u, [Right] + j, c) == x;
    ReplaceReplace(S, p, u, x);
    EraseReplace(S, p, x);
    EraseReplace(sub.right, j, c);
    EraseSub(sub.right, j);
    EraseSub(S, p);
    SpineEnd(R, j);
  }

  /** The two children of a node of a tree are different objects. */
  lemma ChildrenApart(s: Shape)
    requires Distinct(s) && s.Node? && s.right.Node?
    ensures Root(s.left) != Root(s.right)
  {
  }

  lemma MatchRoot(n: Node?, s: Shape)
    requires Match(n, s)
    ensures n == Root(s)
  {
  }

  lemma ApartCount(a: set<Node>, b: set<Node>, n: Node)
    requires a !! b && n !in a && n !in b
    ensures |a + {n} + b| == |a| + 1 + |b|
  {
    assert |a + b| == |a| + |b|;
    assert a + {n} + b == (a + b) + {n};
  }

  /** In a tree of distinct nodes there are as many nodes as bids in the traversal. */
  lemma {:induction false} NodeCount(s: Shape)
    requires Distinct(s)
    ensures |NodesOf(s)| == |InOrderOf(Erase(s))|
  {
    match s
    case Leaf =>
    case Node(l, c, r) =>
      NodeCount(l);
      NodeCount(r);
      ApartCount(NodesOf(l), NodesOf(r), c.node);
  }

  // ------------------------------------------------------------------- the store

  class BinarySearchTree {
    var root: Node?
    ghost var shape: Shape
    ghost var Repr: set<Node>

    /** The links from `root` form the tree `shape`, and `Repr` is its set of nodes. */
    ghost predicate Linked()
      reads this, Repr
    {
      Repr == NodesOf(shape) && Distinct(shape) && Match(root, shape)
    }

    ghost predicate Valid()
      reads this, Repr
    {
      Linked() && Ordered(Contents())
    }

    /** The bids in the tree, in their places. */
    ghost function Contents(): Tree
      reads this
    {
      Erase(shape)
    }

    /** `BinarySearchTree()`: an empty tree. */
    constructor ()
      ensures Valid() && Contents() == Leaf && Repr == {}
    {
      root := null;
      shape := Leaf;
      Repr := {};
    }

    /** `addNode(node, bid)`: give a new node its own copy of `bid` and no children. */
    method AddNode(node: Node, bid: Bid)
      modifies node
      ensures node.bid == bid && node.left == null && node.right == null
    {
      node.bid := bid;
      node.left := null;
      node.right := null;
    }

    /**
     * `cur->left = new Node; addNode(cur->left, bid);`, or the same on the
     * right, for the node `cur` at path `p` whose link on side `d` is empty.
     */
    method LinkNewNode(cur: Node, d: Dir, bid: Bid, ghost p: Path) returns (ghost n: Node)
      requires Linked() && Sub(shape, p).Node? && cur == Sub(shape, p).val.node
      requires Child(Sub(shape, p), d) == Leaf
      modifies cur
      ensures fresh(n) && Match(root, Hung(shape, p, d, n, bid))
    {
      ghost var S := shape;
      ghost var sub := Sub(S, p);
      MatchSplit(root, S, p);
      AboveSplits(S, p);
      SubInside(S, p);
      ghost var above, onLeft, onRight := MatchAbove(root, S, p, cur), Match(cur.left, sub.left), Match(cur.right, sub.right);
      assert above && onLeft && onRight;
      assert cur !in Above(S, p) && cur !in NodesOf(sub.left) && cur !in NodesOf(sub.right);
      if d == Left {
        cur.left := new Node();
        AddNode(cur.left, bid);
        n := cur.left;
        assert Match(cur.right, sub.right) == onRight;
      } else {
        cur.right := new Node();
        AddNode(cur.right, bid);
        n := cur.right;
        assert Match(cur.left, sub.left) == onLeft;
      }
      assert MatchAbove(root, S, p, cur) == above;
      ghost var leaf := Node(Leaf, Cell(n, bid), Leaf);
      if d == Left {
        MatchJoinNode(root, S, p, leaf, sub.val, sub.right);
      } else {
        MatchJoinNode(root, S, p, sub.left, sub.val, leaf);
      }
    }

    /** The attaching step of `Insert` at the node `cur` the descent stopped at, path `p`. */
    method InsertAt(cur: Node, d: Dir, bid: Bid, ghost p: Path)
      requires Linked() && Sub(shape, p).Node? && cur == Sub(shape, p).val.node
      requires Child(Sub(shape, p), d) == Leaf
      requires d == (if Less(bid.bidId, cur.bid.bidId) then Left else Right)
      modifies this, cur
      ensures Linked() && root == old(root)
      ensures Contents() == Replace(old(Contents()), p, Inserted(Sub(old(Contents()), p), bid))
      ensures old(Repr) < Repr && fresh(Repr - old(Repr))
    {
      ghost var S := shape;
      MatchSplit(root, S, p);
      ghost var n := LinkNewNode(cur, d, bid, p);
      HungNodes(S, p, d, n, bid);
      HungContents(S, p, d, n, bid);
      ghost var linked := Match(root, Hung(S, p, d, n, bid));
      shape := Hung(S, p, d, n, bid);
      Repr := Repr + {n};
      assert Match(root, shape) == linked;
    }

    /**
     * `Insert(bid)`: walk down from the root, left when `bid.bidId` is less than
     * the node's key and right otherwise, and hang a new node on the first empty
     * link.
     */
    method Insert(bid: Bid)
      requires Valid()
      modifies this, Repr
      ensures Valid()
      ensures Contents() == Inserted(old(Contents()), bid)
      ensures old(Repr) < Repr && fresh(Repr - old(Repr))
    {
      ghost var S := shape;
      ghost var T := Erase(S);
      InsertedOrdered(T, bid);
      if root == null {
        root := new Node();
        AddNode(root, bid);
        shape := Node(Leaf, Cell(root, bid), Leaf);
        Repr := {root};
      } else {
        var cur: Node? := root;
        ghost var p: Path := [];
        ghost var rest := S;
        while cur != null
          invariant cur != null ==>
            && shape == S && Repr == old(Repr) && Linked()
            && rest == Sub(S, p) && rest.Node? && cur == rest.val.node
            && Inserted(T, bid) == Replace(T, p, Inserted(Sub(T, p), bid))
          invariant cur == null ==>
            Valid() && Contents() == Inserted(T, bid) && old(Repr) < Repr && fresh(Repr - old(Repr))
          decreases rest, cur != null
        {
          MatchSplit(root, S, p);
          SubInside(S, p);
          EraseSub(S, p);
          MatchRoot(cur.left, rest.left);
          MatchRoot(cur.right, rest.right);
          if Less(bid.bidId, cur.bid.bidId) {
            if cur.left == null {
              InsertAt(cur, Left, bid, p);
              cur := null;
            } else {
              InsertDescent(T, p, bid, Left);
              SubAppend(S, p, Left);
              cur := cur.left;
              p := p + [Left];
              rest := rest.left;
            }
          } else {
            if cur.right == null {
              InsertAt(cur, Right, bid, p);
              cur := null;
            } else {
              InsertDescent(T, p, bid, Right);
              SubAppend(S, p, Right);
              cur := cur.right;
              p := p + [Right];
              rest := rest.right;
            }
          }
        }
      }
    }

    /**
     * `par->left = child` or `par->right = child` for the parent `par` at path
     * `q`: the structure then matches the shape with `c` on that side.
     */
    method Relink(par: Node, d: Dir, child: Node?, ghost q: Path, ghost c: Shape)
      requires Linked() && Sub(shape, q).Node? && par == Sub(shape, q).val.node
      requires Match(child, c) && NodesOf(c) <= NodesOf(Child(Sub(shape, q), d))
      modifies par
      ensures Match(root, Replace(shape, q, WithChild(Sub(shape, q), d, c)))
    {
      ghost var S := shape;
      ghost var P := Sub(S, q);
      MatchSplit(root, S, q);
      AboveSplits(S, q);
      SubInside(S, q);
      ghost var above, onLeft, onRight, below := MatchAbove(root, S, q, par), Match(par.left, P.left), Match(par.right, P.right), Match(child, c);
      assert above && onLeft && onRight && below;
      assert par !in Above(S, q) && par !in NodesOf(P.left) && par !in NodesOf(P.right) && par !in NodesOf(c);
      if d == Left {
        par.left := child;
        assert Match(par.right, P.right) == onRight;
      } else {
        par.right := child;
        assert Match(par.left, P.left) == onLeft;
      }
      assert MatchAbove(root, S, q, par) == above;
      assert Match(child, c) == below;
      if d == Left {
        MatchJoinNode(root, S, q, c, P.val, P.right);
      } else {
        MatchJoinNode(root, S, q, P.left, P.val, c);
      }
    }

    /**
     * `par->left = child` when `cur` is the parent's left child, otherwise
     * `par->right = child`: the parent at `pp` now bypasses `cur`.
     */
    method Bypass(par: Node, cur: Node, child: Node?, ghost pp: Path, ghost d: Dir, ghost c: Shape)
      requires Linked() && Sub(shape, pp).Node? && par == Sub(shape, pp).val.node
      requires Sub(shape, pp + [d]).Node? && cur == Sub(shape, pp + [d]).val.node
      requires OnlyChild(Sub(shape, pp + [d]), c) && Match(child, c)
      modifies par
      ensures Match(root, Replace(shape, pp + [d], c))
    {
      ghost var S := shape;
      ghost var P := Sub(S, pp);
      SubAppend(S, pp, d);
      SubInside(S, pp);
      MatchSplit(root, S, pp);
      if d == Right { ChildrenApart(P); }
      if par.left == cur {
        Relink(par, Left, child, pp, c);
        ReplaceAppend(S, pp, Left, c);
      } else {
        Relink(par, Right, child, pp, c);
        ReplaceAppend(S, pp, Right, c);
      }
    }

    /**
     * Cases one to three of `Remove`: the link that led to `cur` (the root, or
     * the parent's left or right link) now leads to `cur`'s only child, or to
     * nothing; `cur` leaves the tree.
     */
    method Unlink(par: Node?, cur: Node, child: Node?, ghost p: Path, ghost pp: Path, ghost d: Dir, ghost c: Shape)
      requires Linked() && Sub(shape, p).Node? && cur == Sub(shape, p).val.node
      requires p == [] ==> par == null
      requires p != [] ==> p == pp + [d] && Sub(shape, pp).Node? && par == Sub(shape, pp).val.node
      requires OnlyChild(Sub(shape, p), c) && child == Root(c)
      modifies this, par
      ensures Linked() && shape == Replace(old(shape), p, c) && Repr == old(Repr) - {cur}
    {
      ghost var S := shape;
      MatchSplit(root, S, p);
      UnlinkedNodes(S, p, c);
      ghost var below := Match(child, c);
      assert below;
      if par == null {
        root := child;
        assert Match(root, c) == below;
      } else {
        Bypass(par, cur, child, pp, d, c);
      }
      ghost var linked := Match(root, Replace(S, p, c));
      shape := Replace(S, p, c);
      Repr := Repr - {cur};
      assert Match(root, shape) == linked;
    }

    /** `cur->bid` overwritten field by field with `b`, for the node `cur` at path `p`. */
    method SetBid(cur: Node, b: Bid, ghost p: Path)
      requires Linked() && Sub(shape, p).Node? && cur == Sub(shape, p).val.node
      modifies cur
      ensures Match(root, Rebid(shape, p, b))
    {
      ghost var S := shape;
      ghost var sub := Sub(S, p);
      MatchSplit(root, S, p);
      AboveSplits(S, p);
      SubInside(S, p);
      ghost var above, onLeft, onRight := MatchAbove(root, S, p, cur), Match(cur.left, sub.left), Match(cur.right, sub.right);
      assert above && onLeft && onRight;
      assert cur !in Above(S, p) && cur !in NodesOf(sub.left) && cur !in NodesOf(sub.right);
      cur.bid := b;
      assert MatchAbove(root, S, p, cur) == above;
      assert Match(cur.left, sub.left) == onLeft;
      assert Match(cur.right, sub.right) == onRight;
      MatchJoinNode(root, S, p, sub.left, Cell(cur, b), sub.right);
    }

    /** `SetBid` with the shape brought up to date. */
    method PutBid(cur: Node, b: Bid, ghost p: Path)
      requires Linked() && Sub(shape, p).Node? && cur == Sub(shape, p).val.node
      modifies this, cur
      ensures Linked() && root == old(root) && Repr == old(Repr)
      ensures shape == Rebid(old(shape), p, b)
    {
      ghost var S := shape;
      SetBid(cur, b, p);
      RebidNodes(S, p, b);
      ghost var linked := Match(root, Rebid(S, p, b));
      shape := Rebid(S, p, b);
      assert Match(root, shape) == linked;
    }

    /**
     * Case four of `Remove` up to the repeated call: walk from `cur->right` down
     * the left links to the in-order successor and copy its bid into `cur`.
     */
    method TakeSuccessor(cur: Node, ghost p: Path)
      requires Linked() && Sub(shape, p).Node? && cur == Sub(shape, p).val.node
      requires Sub(shape, p).left.Node? && Sub(shape, p).right.Node?
      modifies this, cur
      ensures Linked() && root == old(root) && Repr == old(Repr)
      ensures shape == Rebid(old(shape), p, Leftmost(Erase(Sub(old(shape), p).right)))
    {
      ghost var sub := Sub(shape, p);
      MatchSplit(root, shape, p);
      var suc := cur.right;
      ghost var s := sub.right;
      while suc.left != null
        invariant s.Node? && Match(suc, s) && Leftmost(Erase(s)) == Leftmost(Erase(sub.right))
        decreases s
      {
        suc := suc.left;
        s := s.left;
      }
      PutBid(cur, suc.bid, p);
    }

    /**
     * `Remove(bidId)`: walk down as Search does, keeping the parent; at the first
     * node holding `bidId` unlink it (no or one child) or overwrite its bid with
     * its successor's and call `Remove(bidId)` again (two children).
     */
    method Remove(bidId: string)
      requires Valid() && RemoveHalts(Contents(), bidId)
      modifies this, Repr
      ensures Valid() && Contents() == Removed(old(Contents()), bidId)
      ensures Repr <= old(Repr)
      decreases Occurrences(Contents(), bidId)
    {
      ghost var S := shape;
      ghost var T := Erase(S);
      var par: Node? := null;
      var cur := root;
      ghost var p: Path := [];
      ghost var pp: Path := [];
      ghost var d := Left;
      ghost var rest := S;
      MatchRoot(root, S);
      while cur != null
        invariant Linked() && shape == S && Repr == old(Repr) && Ordered(T)
        invariant rest == Sub(S, p) && cur == Root(rest)
        invariant p == [] ==> par == null
        invariant p != [] ==> p == pp + [d] && Sub(S, pp).Node? && par == Sub(S, pp).val.node
        invariant RemoveStep(T, bidId) == Replace(T, p, RemoveStep(Sub(T, p), bidId))
        invariant Located(T, bidId) == Located(Sub(T, p), bidId)
        decreases rest
      {
        MatchSplit(root, S, p);
        EraseSub(S, p);
        SubInside(S, p);
        if p != [] { SubInside(S, pp); }
        MatchRoot(cur.left, rest.left);
        MatchRoot(cur.right, rest.right);
        if cur.bid.bidId == bidId {
          StepOrdered(T, bidId);
          // The link that replaces `cur` in cases one to three, and its shape.
          var child: Node? := null;
          ghost var c: Shape := Leaf;
          if cur.left == null && cur.right == null {
          } else if cur.left != null && cur.right == null {
            child, c := cur.left, rest.left;
          } else if cur.left == null && cur.right != null {
            child, c := cur.right, rest.right;
          } else {
            TakeSuccessor(cur, p);
            RebidContents(S, p, bidId);
            StepDecreases(T, bidId);
            Remove(bidId);
            return;
          }
          Unlink(par, cur, child, p, pp, d, c);
          UnlinkedContents(S, p, c, bidId);
          return;
        } else if Less(cur.bid.bidId, bidId) {
          RemoveDescent(T, p, bidId, Right);
          SubAppend(S, p, Right);
          par := cur;
          cur := cur.right;
          pp, d := p, Right;
          p := p + [Right];
          rest := rest.right;
        } else {
          RemoveDescent(T, p, bidId, Left);
          SubAppend(S, p, Left);
          par := cur;
          cur := cur.left;
          pp, d := p, Left;
          p := p + [Left];
          rest := rest.left;
        }
      }
      EraseSub(S, p);
      ReplaceSub(T, p);
    }

    /**
     * The corrected two-children case, first half: walk from `cur->right` down
     * the left links, keeping the parent `sp` of the successor `suc`.
     */
    method FindSuccessor(cur: Node, ghost p: Path) returns (sp: Node, suc: Node, ghost rqq: Path, ghost e: Dir, ghost j: Path)
      requires Linked() && Sub(shape, p).Node? && cur == Sub(shape, p).val.node
      requires Sub(shape, p).left.Node? && Sub(shape, p).right.Node?
      ensures var sub := Sub(shape, p);
        && Sub(sub.right, j).Node? && Sub(sub.right, j).left == Leaf && OnLeftSpine(Erase(sub.right), j)
        && Match(suc, Sub(sub.right, j)) && suc == Sub(sub.right, j).val.node
        && [Right] + j == rqq + [e] && Sub(sub, rqq).Node? && sp == Sub(sub, rqq).val.node
    {
      ghost var sub := Sub(shape, p);
      ghost var R := Erase(sub.right);
      MatchSplit(root, shape, p);
      sp, suc := cur, cur.right;
      rqq, e, j := [], Right, [];
      SpineStart(R);
      while suc.left != null
        invariant [Right] + j == rqq + [e] && Sub(sub, rqq).Node? && sp == Sub(sub, rqq).val.node
        invariant Sub(sub.right, j).Node? && Match(suc, Sub(sub.right, j)) && suc == Sub(sub.right, j).val.node
        invariant OnLeftSpine(R, j)
        decreases Sub(sub.right, j)
      {
        ghost var s := Sub(sub.right, j);
        EraseSub(sub.right, j);
        SpineStep(R, j);
        SubAppend(sub.right, j, Left);
        SubConcat(sub, [Right], j);
        assert Sub(sub, [Right]) == sub.right;
        sp, suc := suc, suc.left;
        rqq, e, j := [Right] + j, Left, j + [Left];
      }
      EraseSub(sub.right, j);
    }

    /**
     * The corrected two-children case: `cur` takes its successor's bid and the
     * successor's node is unlinked, its right child taking its place.
     */
    method MoveSuccessorUp(cur: Node, ghost p: Path)
      requires Linked() && Sub(shape, p).Node? && cur == Sub(shape, p).val.node
      requires Sub(shape, p).left.Node? && Sub(shape, p).right.Node?
      modifies this, Repr
      ensures Linked() && root == old(root) && Repr < old(Repr)
      ensures var l, r := Erase(Sub(old(shape), p).left), Erase(Sub(old(shape), p).right);
        Contents() == Replace(old(Contents()), p, Node(l, Leftmost(r), DropLeftmost(r)))
    {
      ghost var S := shape;
      ghost var sub := Sub(S, p);
      SubInside(S, p);
      var sp, suc, rqq, e, j := FindSuccessor(cur, p);
      ghost var s := Sub(sub.right, j);
      ghost var q, qq := p + ([Right] + j), p + rqq;
      SubConcat(S, p, [Right] + j);
      SubConcat(S, p, rqq);
      assert ([Right] + j)[0] == Right && ([Right] + j)[1..] == j;
      assert Sub(S, q) == s;
      assert q == qq + [e];
      SubInside(S, q);
      SubInside(S, qq);
      MatchRoot(suc.right, s.right);
      SubInside(sub.right, j);
      assert suc != cur;
      var b := suc.bid;
      PutBid(cur, b, p);
      RebidBelow(S, p, b, [Right] + j);
      if rqq != [] { RebidBelow(S, p, b, rqq); } else {
        SubReplace(S, p, Node(sub.left, Cell(cur, b), sub.right));
        assert qq == p;
      }
      Unlink(sp, suc, suc.right, q, qq, e, s.right);
      SuccessorMovedContents(S, p, b, j, s.right);
    }

    /**
     * `Remove(bidId)` with the two-children case corrected: the node takes its
     * successor's bid and the successor's node leaves the tree, so one pass
     * removes exactly one node and no repeated call is made.
     */
    method RemoveCorrected(bidId: string)
      requires Valid()
      modifies this, Repr
      ensures Valid() && Contents() == RemoveFixed(old(Contents()), bidId)
      ensures Repr <= old(Repr)
    {
      ghost var S := shape;
      ghost var T := Erase(S);
      FixedOrdered(T, bidId);
      var par: Node? := null;
      var cur := root;
      ghost var p: Path := [];
      ghost var pp: Path := [];
      ghost var d := Left;
      ghost var rest := S;
      MatchRoot(root, S);
      while cur != null
        invariant Linked() && shape == S && Repr == old(Repr)
        invariant rest == Sub(S, p) && cur == Root(rest)
        invariant p == [] ==> par == null
        invariant p != [] ==> p == pp + [d] && Sub(S, pp).Node? && par == Sub(S, pp).val.node
        invariant RemoveFixed(T, bidId) == Replace(T, p, RemoveFixed(Sub(T, p), bidId))
        decreases rest
      {
        MatchSplit(root, S, p);
        EraseSub(S, p);
        SubInside(S, p);
        if p != [] { SubInside(S, pp); }
        MatchRoot(cur.left, rest.left);
        MatchRoot(cur.right, rest.right);
        if cur.bid.bidId == bidId {
          var child: Node? := null;
          ghost var c: Shape := Leaf;
          if cur.left == null && cur.right == null {
          } else if cur.left != null && cur.right == null {
            child, c := cur.left, rest.left;
          } else if cur.left == null && cur.right != null {
            child, c := cur.right, rest.right;
          } else {
            MoveSuccessorUp(cur, p);
            return;
          }
          Unlink(par, cur, child, p, pp, d, c);
          UnlinkedContents(S, p, c, bidId);
          FixedAgrees(Sub(T, p), bidId);
          return;
        } else if Less(cur.bid.bidId, bidId) {
          FixedDescent(T, p, bidId, Right);
          SubAppend(S, p, Right);
          par := cur;
          cur := cur.right;
          pp, d := p, Right;
          p := p + [Right];
          rest := rest.right;
        } else {
          FixedDescent(T, p, bidId, Left);
          SubAppend(S, p, Left);
          par := cur;
          cur := cur.left;
          pp, d := p, Left;
          p := p + [Left];
          rest := rest.left;
        }
      }
      EraseSub(S, p);
      ReplaceSub(T, p);
    }

    /**
     * `Search(bidId)`: walk down, left when the node's key is greater than
     * `bidId` and right otherwise, and return the bid of the first node holding
     * `bidId`, or an empty bid when the walk runs out.
     */
    method Search(bidId: string) returns (bid: Bid)
      requires Valid()
      ensures bid == Find(Contents(), bidId).GetOr(NotFound)
      ensures bidId in Keys(Contents()) ==> bid.bidId == bidId && bid in InOrderOf(Contents())
      ensures bidId !in Keys(Contents()) ==> bid == NotFound
    {
      FindComplete(Contents(), bidId);
      if Find(Contents(), bidId).Some? { FindSound(Contents(), bidId); }
      var cur := root;
      ghost var s := shape;
      while cur != null
        invariant Match(cur, s)
        invariant Find(Contents(), bidId) == Find(Erase(s), bidId)
        decreases s
      {
        if cur.bid.bidId == bidId {
          return cur.bid;
        } else if Less(bidId, cur.bid.bidId) {
          cur := cur.left;
          s := s.left;
        } else {
          cur := cur.right;
          s := s.right;
        }
      }
      return NotFound;
    }

    /** `inOrder(node)`: the bids below `node`, left subtree first. */
    function InOrderAt(node: Node?, ghost s: Shape): (r: seq<Bid>)
      reads NodesOf(s)
      requires Match(node, s)
      ensures r == InOrderOf(Erase(s))
      decreases s
    {
      if node == null then [] else InOrderAt(node.left, s.left) + [node.bid] + InOrderAt(node.right, s.right)
    }

    /** `InOrder()`: every stored bid, in key order. */
    function InOrder(): (r: seq<Bid>)
      reads this, Repr
      requires Valid()
      ensures r == InOrderOf(Contents()) && SortedByKey(r)
    {
      OrderedInOrderSorted(Contents());
      if root == null then [] else InOrderAt(root.left, shape.left) + [root.bid] + InOrderAt(root.right, shape.right)
    }

    /** `size(node)`: the number of nodes below `node`. */
    function SizeAt(node: Node?, ghost s: Shape): (r: int)
      reads NodesOf(s)
      requires Match(node, s)
      ensures r == |InOrderOf(Erase(s))|
      decreases s
    {
      if node == null then 0 else SizeAt(node.left, s.left) + 1 + SizeAt(node.right, s.right)
    }

    /** `Size()`: the number of stored bids, which is the number of nodes. */
    function Size(): (r: int)
      reads this, Repr
      requires Valid()
      ensures r == |InOrderOf(Contents())| && r == |Repr|
    {
      NodeCount(shape);
      if root == null then 0 else SizeAt(root.left, shape.left) + 1 + SizeAt(root.right, shape.right)
    }
  }
}
