/**
 * The two-children case of Remove, as written and as evidently intended.
 *
 * As written (BinarySearchTree.cpp:175-190) the node receives a copy of its
 * in-order successor's bid and Remove is called again with the ORIGINAL key;
 * the successor's own node is never unlinked. The evident intent is the usual
 * deletion: the successor's bid replaces the removed one and the successor's
 * node, which has no left child, leaves the right subtree.
 */
module Findings {
  import opened Bids
  import opened KeyOrder
  import opened Trees
  import opened TreeSpec
  import opened RemoveSpec

  /** The right subtree without its leftmost node, whose right child takes its place. */
  function DropLeftmost(t: Tree): Tree
    requires t.Node?
  {
    if t.left.Leaf? then t.right else Node(DropLeftmost(t.left), t.val, t.right)
  }

  /** Remove with the two-children case corrected: one pass, no repeated call. */
  function RemoveFixed(t: Tree, k: string): Tree
  {
    match t
    case Leaf => Leaf
    case Node(l, x, r) =>
      if x.bidId == k then
        if l.Leaf? && r.Leaf? then Leaf
        else if r.Leaf? then l
        else if l.Leaf? then r
        else Node(l, Leftmost(r), DropLeftmost(r))
      else if Less(x.bidId, k) then Node(l, x, RemoveFixed(r, k))
      else Node(RemoveFixed(l, k), x, r)
  }

  /** Dropping the leftmost node removes the first entry of the traversal. */
  lemma {:induction false} DropLeftmostInOrder(t: Tree)
    requires t.Node?
    ensures InOrderOf(t) == [Leftmost(t)] + InOrderOf(DropLeftmost(t))
  {
    if t.left.Node? {
      DropLeftmostInOrder(t.left);
    }
  }

  lemma {:induction false} DropLeftmostKeys(t: Tree)
    requires t.Node?
    ensures Keys(t) == {Leftmost(t).bidId} + Keys(DropLeftmost(t))
    ensures Ordered(t) ==> Ordered(DropLeftmost(t))
  {
    if t.left.Node? {
      DropLeftmostKeys(t.left);
    }
  }

  /** The corrected two-children case: the successor moves up, order is kept. */
  lemma FixedAtRootOrdered(l: Tree, x: Bid, r: Tree)
    requires Ordered(Node(l, x, r)) && l.Node? && r.Node?
    ensures Ordered(Node(l, Leftmost(r), DropLeftmost(r)))
  {
    var m := Leftmost(r);
    LeftmostFirst(r);
    LeftmostMin(r);
    DropLeftmostKeys(r);
    forall a | a in Keys(l) ensures Less(a, m.bidId) {
      LessLeq(a, x.bidId, m.bidId);
    }
  }

  /** The corrected removal keeps the ordering invariant and adds no key. */
  lemma {:induction false} FixedOrdered(t: Tree, k: string)
    requires Ordered(t)
    ensures Ordered(RemoveFixed(t, k)) && Keys(RemoveFixed(t, k)) <= Keys(t)
  {
    match t
    case Leaf =>
    case Node(l, x, r) =>
      if x.bidId == k {
        if l.Node? && r.Node? {
          FixedAtRootOrdered(l, x, r);
          LeftmostFirst(r);
          DropLeftmostKeys(r);
        }
      } else if Less(x.bidId, k) {
        FixedOrdered(r, k);
      } else {
        FixedOrdered(l, k);
      }
  }

  lemma FixedDropsAtRoot(l: Tree, x: Bid, r: Tree, k: string)
    requires x.bidId == k
    ensures DropsAt(InOrderOf(Node(l, x, r)), |InOrderOf(l)|, InOrderOf(RemoveFixed(Node(l, x, r), k)))
  {
    var t := Node(l, x, r);
    var a, c, u := InOrderOf(l), InOrderOf(r), InOrderOf(RemoveFixed(t, k));
    Around(a, x, c);
    if l.Node? && r.Node? {
      DropLeftmostInOrder(r);
      var m, c' := Leftmost(r), InOrderOf(DropLeftmost(r));
      assert u == a + [m] + c';
      Assoc(a, [m], c');
    } else if r.Leaf? {
      assert u == a && c == [] && a + [] == a;
    } else {
      assert u == c && a == [] && [] + c == c;
    }
  }

  /** The corrected traversal loses exactly the located bid. */
  lemma {:induction false} FixedDrops(t: Tree, k: string)
    requires Reaches(t, k)
    ensures DropsAt(InOrderOf(t), LocatedIndex(t, k), InOrderOf(RemoveFixed(t, k)))
  {
    match t
    case Node(l, x, r) =>
      var a, c := InOrderOf(l), InOrderOf(r);
      assert InOrderOf(t) == a + [x] + c;
      if x.bidId == k {
        FixedDropsAtRoot(l, x, r, k);
      } else if Less(x.bidId, k) {
        FixedDrops(r, k);
        InRightPart(a, x, c, LocatedIndex(r, k), InOrderOf(RemoveFixed(r, k)));
      } else {
        FixedDrops(l, k);
        InLeftPart(a, x, c, LocatedIndex(l, k), InOrderOf(RemoveFixed(l, k)));
      }
  }

  lemma {:induction false} FixedNotReached(t: Tree, k: string)
    requires !Reaches(t, k)
    ensures RemoveFixed(t, k) == t
  {
    match t
    case Leaf =>
    case Node(l, x, r) =>
      if Less(x.bidId, k) { FixedNotReached(r, k); } else { FixedNotReached(l, k); }
  }

  /** The located bid is the one Search returns, and it alone leaves the traversal. */
  lemma FixedDropsFound(t: Tree, k: string)
    requires Reaches(t, k)
    ensures exists i ::
      (0 <= i < |InOrderOf(t)| && Find(t, k) == Some(InOrderOf(t)[i])
       && InOrderOf(RemoveFixed(t, k)) == InOrderOf(t)[..i] + InOrderOf(t)[i + 1..])
    ensures |InOrderOf(RemoveFixed(t, k))| == |InOrderOf(t)| - 1
    ensures multiset(InOrderOf(RemoveFixed(t, k))) <= multiset(InOrderOf(t))
  {
    var s, i, u := InOrderOf(t), LocatedIndex(t, k), InOrderOf(RemoveFixed(t, k));
    FixedDrops(t, k);
    StepInOrder(t, k);
    FindLocates(t, k);
    DropsSmaller(s, i, u);
    assert 0 <= i < |s| && Find(t, k) == Some(s[i]) && u == s[..i] + s[i + 1..];
  }

  lemma DropsSmaller(s: seq<Bid>, i: nat, u: seq<Bid>)
    requires DropsAt(s, i, u)
    ensures |u| == |s| - 1 && multiset(u) <= multiset(s)
  {
    assert s == s[..i] + [s[i]] + s[i + 1..];
    assert multiset(s) == multiset(s[..i]) + multiset{s[i]} + multiset(s[i + 1..]);
  }

  /**
   * The intended property, in every case: Remove of a stored key deletes the bid
   * Search returns for it and nothing else, so the size drops by one and no bid
   * is duplicated; Remove of an absent key changes nothing; order is kept.
   */
  lemma RemoveFixedCorrect(t: Tree, k: string)
    requires Ordered(t)
    ensures Ordered(RemoveFixed(t, k))
    ensures k !in Keys(t) ==> RemoveFixed(t, k) == t
    ensures k in Keys(t) ==> exists i ::
      (0 <= i < |InOrderOf(t)| && Find(t, k) == Some(InOrderOf(t)[i])
       && InOrderOf(RemoveFixed(t, k)) == InOrderOf(t)[..i] + InOrderOf(t)[i + 1..])
    ensures k in Keys(t) ==> |InOrderOf(RemoveFixed(t, k))| == |InOrderOf(t)| - 1
    ensures multiset(InOrderOf(RemoveFixed(t, k))) <= multiset(InOrderOf(t))
  {
    FixedOrdered(t, k);
    ReachesComplete(t, k);
    if Reaches(t, k) {
      FixedDropsFound(t, k);
    } else {
      FixedNotReached(t, k);
    }
  }

  /** With at most one node under `k`, the corrected removal deletes the key itself. */
  lemma {:induction false} FixedUniqueKey(t: Tree, k: string)
    requires Ordered(t) && Occurrences(t, k) <= 1
    ensures Keys(RemoveFixed(t, k)) == Keys(t) - {k}
  {
    OccurrencesKeys(t, k);
    match t
    case Leaf =>
    case Node(l, x, r) =>
      OccurrencesKeys(l, k);
      OccurrencesKeys(r, k);
      if x.bidId == k {
        if l.Node? && r.Node? {
          DropLeftmostKeys(r);
        }
      } else if Less(x.bidId, k) {
        Asymmetric(x.bidId, k);
        FixedUniqueKey(r, k);
      } else {
        Trichotomy(x.bidId, k);
        Asymmetric(k, x.bidId);
        FixedUniqueKey(l, k);
      }
  }

  /** Outside the two-children case the corrected pass is the pass as written. */
  lemma FixedAgrees(t: Tree, k: string)
    requires t.Node? && t.val.bidId == k && !(t.left.Node? && t.right.Node?)
    ensures RemoveFixed(t, k) == RemoveStep(t, k)
  {
  }

  /**
   * Walking the left links of `r` from the top: at each node `Sub(r, j)` on the
   * way, the leftmost bid and the tree without it are those of that node.
   */
  predicate OnLeftSpine(r: Tree, j: Path)
  {
    && Sub(r, j).Node?
    && Leftmost(Sub(r, j)) == Leftmost(r)
    && Replace(r, j, DropLeftmost(Sub(r, j))) == DropLeftmost(r)
  }

  lemma SpineStart(r: Tree)
    requires r.Node?
    ensures OnLeftSpine(r, [])
  {
  }

  lemma SpineStep(r: Tree, j: Path)
    requires OnLeftSpine(r, j) && Sub(r, j).left.Node?
    ensures OnLeftSpine(r, j + [Left])
  {
    SubAppend(r, j, Left);
    ReplaceAppend(r, j, Left, DropLeftmost(Sub(r, j + [Left])));
  }

  /** At the end of the walk the node has no left child: it is the leftmost one. */
  lemma SpineEnd(r: Tree, j: Path)
    requires OnLeftSpine(r, j) && Sub(r, j).left.Leaf?
    ensures Sub(r, j).val == Leftmost(r) && Replace(r, j, Sub(r, j).right) == DropLeftmost(r)
  {
  }

  // ------------------------------------------------------------- the example

  function B(k: string): Bid
  {
    Bid(k, "", "", 0.0)
  }

  /** Inserting the bids one after another into an empty tree. */
  function InsertAll(bs: seq<Bid>): Tree
  {
    if bs == [] then Leaf else Inserted(InsertAll(bs[..|bs| - 1]), bs[|bs| - 1])
  }

  /** The single-digit keys of the example compare as their digits do. */
  lemma DigitOrder()
    ensures Less("1", "3") && Less("3", "4") && Less("3", "5") && Less("4", "5")
    ensures Less("5", "7") && Less("5", "8") && Less("5", "9") && Less("7", "8") && Less("8", "9")
    ensures !Less("5", "3") && !Less("4", "3") && !Less("7", "5") && !Less("8", "5") && !Less("9", "5") && !Less("9", "8")
  {
  }

  function Singleton(k: string): Tree
  {
    Node(Leaf, B(k), Leaf)
  }

  /** Keys 5, 3, 8, 1, 4, 7, 9 inserted in that order give the complete tree of height three. */
  lemma ExampleShape()
    ensures InsertAll([B("5"), B("3"), B("8"), B("1"), B("4"), B("7"), B("9")])
      == Node(Node(Singleton("1"), B("3"), Singleton("4")), B("5"), Node(Singleton("7"), B("8"), Singleton("9")))
  {
    var bs := [B("5"), B("3"), B("8"), B("1"), B("4"), B("7"), B("9")];
    var one, three, four := Singleton("1"), Singleton("3"), Singleton("4");
    var seven, eight := Singleton("7"), Singleton("8");
    DigitOrder();
    assert Less("1", "5");
    assert bs[..1][..0] == [] && bs[..2][..1] == bs[..1] && bs[..3][..2] == bs[..2] && bs[..4][..3] == bs[..3];
    assert bs[..5][..4] == bs[..4] && bs[..6][..5] == bs[..5] && bs[..7][..6] == bs[..6] && bs[..7] == bs;
    assert InsertAll(bs[..1]) == Singleton("5");
    assert InsertAll(bs[..2]) == Node(three, B("5"), Leaf);
    assert InsertAll(bs[..3]) == Node(three, B("5"), eight);
    assert InsertAll(bs[..4]) == Node(Node(one, B("3"), Leaf), B("5"), eight);
    assert InsertAll(bs[..5]) == Node(Node(one, B("3"), four), B("5"), eight);
    assert InsertAll(bs[..6]) == Node(Node(one, B("3"), four), B("5"), Node(seven, B("8"), Leaf));
  }

  /**
   * Keys 5, 3, 8, 1, 4, 7, 9 inserted, then 5 removed. As written the traversal
   * keeps its seven entries and holds 7 twice; corrected it has six.
   */
  lemma DuplicatedSuccessor()
    ensures var t := InsertAll([B("5"), B("3"), B("8"), B("1"), B("4"), B("7"), B("9")]);
      && RemoveHalts(t, "5")
      && InOrderOf(Removed(t, "5")) == [B("1"), B("3"), B("4"), B("7"), B("7"), B("8"), B("9")]
      && InOrderOf(RemoveFixed(t, "5")) == [B("1"), B("3"), B("4"), B("7"), B("8"), B("9")]
  {
    ExampleShape();
    DigitOrder();
    var l, r := Node(Singleton("1"), B("3"), Singleton("4")), Node(Singleton("7"), B("8"), Singleton("9"));
    var t := Node(l, B("5"), r);
    var t' := Node(l, B("7"), r);
    assert RemoveStep(t, "5") == t';
    assert !Reaches(t', "5");
    NotReachedUnchanged(t', "5");
    assert Removed(t, "5") == t';
    assert InOrderOf(l) == [B("1"), B("3"), B("4")];
    assert InOrderOf(r) == [B("7"), B("8"), B("9")];
    assert InOrderOf(t') == InOrderOf(l) + [B("7")] + InOrderOf(r);
    var fixed := Node(l, B("7"), Node(Leaf, B("8"), Singleton("9")));
    assert RemoveFixed(t, "5") == fixed;
    assert InOrderOf(fixed) == InOrderOf(l) + [B("7")] + [B("8"), B("9")];
  }

  /**
   * Keys 5, 3, 5 inserted (an equal key goes right), then 5 removed: the
   * successor carries the key being removed and Remove, as written, never
   * returns; corrected it removes one of the two.
   */
  lemma SameKeySuccessor()
    ensures var t := InsertAll([B("5"), B("3"), B("5")]);
      && Occurrences(t, "5") == 2
      && !RemoveHalts(t, "5")
      && Occurrences(RemoveFixed(t, "5"), "5") == 1
  {
    var bs := [B("5"), B("3"), B("5")];
    Irreflexive("5");
    assert Less("3", "5") && !Less("5", "3");
    assert bs[..1][..0] == [] && bs[..2][..1] == bs[..1] && bs[..3][..2] == bs[..2] && bs[..3] == bs;
    assert InsertAll(bs[..1]) == Node(Leaf, B("5"), Leaf);
    assert InsertAll(bs[..2]) == Node(Node(Leaf, B("3"), Leaf), B("5"), Leaf);
    var t := InsertAll(bs);
    assert t == Node(Node(Leaf, B("3"), Leaf), B("5"), Node(Leaf, B("5"), Leaf));
    RemoveDiverges(t, "5");
  }
}
