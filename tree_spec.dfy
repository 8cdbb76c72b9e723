/**
 * The binary search tree as a value: in-order traversal, the ordering invariant,
 * and the insertion and search descents of BinarySearchTree.cpp, each with the
 * properties the store relies on.
 */
module TreeSpec {
  import opened Bids
  import opened KeyOrder
  import opened Trees

  type Tree = BTree<Bid>

  /** `inOrder(node)`: left subtree, then the node's bid, then the right subtree. */
  function InOrderOf(t: Tree): seq<Bid>
  {
    match t
    case Leaf => []
    case Node(l, x, r) => InOrderOf(l) + [x] + InOrderOf(r)
  }

  function Keys(t: Tree): set<string>
  {
    match t
    case Leaf => {}
    case Node(l, x, r) => Keys(l) + {x.bidId} + Keys(r)
  }

  /**
   * The ordering invariant: every key in a left subtree is strictly less than
   * the node's key, every key in a right subtree is greater or equal.
   */
  predicate Ordered(t: Tree)
  {
    match t
    case Leaf => true
    case Node(l, x, r) =>
      && Ordered(l) && Ordered(r)
      && (forall k | k in Keys(l) :: Less(k, x.bidId))
      && (forall k | k in Keys(r) :: !Less(k, x.bidId))
  }

  /** Keys never decrease along the sequence. */
  predicate SortedByKey(s: seq<Bid>)
  {
    forall i, j | 0 <= i < j < |s| :: !Less(s[j].bidId, s[i].bidId)
  }

  lemma {:induction false} KeysOfInOrder(t: Tree)
    ensures forall b | b in InOrderOf(t) :: b.bidId in Keys(t)
    ensures forall k | k in Keys(t) :: exists b | b in InOrderOf(t) :: b.bidId == k
  {
    match t
    case Leaf =>
    case Node(l, x, r) =>
      KeysOfInOrder(l);
      KeysOfInOrder(r);
      assert x in InOrderOf(t);
      forall k | k in Keys(t) ensures exists b | b in InOrderOf(t) :: b.bidId == k {
        if k in Keys(l) {
          var b :| b in InOrderOf(l) && b.bidId == k;
          assert b in InOrderOf(t);
        } else if k in Keys(r) {
          var b :| b in InOrderOf(r) && b.bidId == k;
          assert b in InOrderOf(t);
        }
      }
  }

  /** On an ordered tree the in-order traversal yields keys in non-decreasing order. */
  lemma {:induction false} OrderedInOrderSorted(t: Tree)
    requires Ordered(t)
    ensures SortedByKey(InOrderOf(t))
  {
    match t
    case Leaf =>
    case Node(l, x, r) =>
      OrderedInOrderSorted(l);
      OrderedInOrderSorted(r);
      KeysOfInOrder(l);
      KeysOfInOrder(r);
      SortedJoin(InOrderOf(l), x, InOrderOf(r));
  }

  /** Two sorted runs on either side of `x`, smaller keys before it, the rest after. */
  lemma SortedJoin(a: seq<Bid>, x: Bid, c: seq<Bid>)
    requires SortedByKey(a) && SortedByKey(c)
    requires forall b | b in a :: Less(b.bidId, x.bidId)
    requires forall b | b in c :: !Less(b.bidId, x.bidId)
    ensures SortedByKey(a + [x] + c)
  {
    var s := a + [x] + c;
    forall i, j | 0 <= i < j < |s| ensures !Less(s[j].bidId, s[i].bidId) {
      if j < |a| {
        assert s[i] == a[i] && s[j] == a[j];
      } else if i > |a| {
        assert s[i] == c[i - |a| - 1] && s[j] == c[j - |a| - 1];
      } else if i < |a| {
        assert s[i] == a[i] && a[i] in a;
        if j == |a| {
          Asymmetric(s[i].bidId, x.bidId);
        } else {
          assert s[j] == c[j - |a| - 1] && s[j] in c;
          LessLeq(s[i].bidId, x.bidId, s[j].bidId);
          Asymmetric(s[i].bidId, s[j].bidId);
        }
      } else {
        assert s[i] == x && s[j] == c[j - |a| - 1] && s[j] in c;
      }
    }
  }

  // ---------------------------------------------------------------- Insert

  /**
   * `Insert(bid)`: descend left when `bid.bidId < key`, otherwise right (so an
   * equal key goes right), and hang a new node holding `bid` on the empty slot.
   */
  function Inserted(t: Tree, b: Bid): Tree
  {
    match t
    case Leaf => Node(Leaf, b, Leaf)
    case Node(l, x, r) =>
      if Less(b.bidId, x.bidId) then Node(Inserted(l, b), x, r)
      else Node(l, x, Inserted(r, b))
  }

  /** An equal key descends to the right: Insert never overwrites a stored bid. */
  lemma EqualKeyGoesRight(l: Tree, x: Bid, r: Tree, b: Bid)
    requires b.bidId == x.bidId
    ensures Inserted(Node(l, x, r), b) == Node(l, x, Inserted(r, b))
  {
    Irreflexive(x.bidId);
  }

  lemma {:induction false} InsertedKeys(t: Tree, b: Bid)
    ensures Keys(Inserted(t, b)) == Keys(t) + {b.bidId}
  {
    match t
    case Leaf =>
    case Node(l, x, r) =>
      if Less(b.bidId, x.bidId) { InsertedKeys(l, b); } else { InsertedKeys(r, b); }
  }

  /** Insert preserves the ordering invariant. */
  lemma {:induction false} InsertedOrdered(t: Tree, b: Bid)
    requires Ordered(t)
    ensures Ordered(Inserted(t, b))
  {
    match t
    case Leaf =>
    case Node(l, x, r) =>
      if Less(b.bidId, x.bidId) {
        InsertedOrdered(l, b);
        InsertedKeys(l, b);
      } else {
        InsertedOrdered(r, b);
        InsertedKeys(r, b);
      }
  }

  /** The part of the traversal that ends up before the new bid. */
  function Before(t: Tree, b: Bid): seq<Bid>
  {
    match t
    case Leaf => []
    case Node(l, x, r) =>
      if Less(b.bidId, x.bidId) then Before(l, b) else InOrderOf(l) + [x] + Before(r, b)
  }

  /** ... and the part after it. */
  function After(t: Tree, b: Bid): seq<Bid>
  {
    match t
    case Leaf => []
    case Node(l, x, r) =>
      if Less(b.bidId, x.bidId) then After(l, b) + [x] + InOrderOf(r) else After(r, b)
  }

  /** Insert cuts the traversal in two and puts the new bid in between. */
  lemma {:induction false} InsertedSplits(t: Tree, b: Bid)
    ensures InOrderOf(t) == Before(t, b) + After(t, b)
    ensures InOrderOf(Inserted(t, b)) == Before(t, b) + [b] + After(t, b)
  {
    match t
    case Leaf =>
    case Node(l, x, r) =>
      if Less(b.bidId, x.bidId) {
        InsertedSplits(l, b);
        var p, q, c := Before(l, b), After(l, b), InOrderOf(r);
        Assoc(p, q, [x]);
        Assoc(p, q + [x], c);
        Assoc(p + [b], q, [x]);
        Assoc(p + [b], q + [x], c);
      } else {
        InsertedSplits(r, b);
        var a, p, q := InOrderOf(l) + [x], Before(r, b), After(r, b);
        Assoc(a, p, q);
        Assoc(a, p, [b]);
        Assoc(a, p + [b], q);
      }
  }

  lemma Assoc(a: seq<Bid>, b: seq<Bid>, c: seq<Bid>)
    ensures (a + b) + c == a + (b + c)
  {
  }

  /**
   * Insert adds exactly one entry: the new traversal is the old one with `bid`
   * put in at one position, so every stored bid stays as it was and the size
   * grows by one.
   */
  lemma InsertedInOrder(t: Tree, b: Bid)
    ensures var s := InOrderOf(t);
      exists i :: 0 <= i <= |s| && InOrderOf(Inserted(t, b)) == s[..i] + [b] + s[i..]
    ensures multiset(InOrderOf(Inserted(t, b))) == multiset(InOrderOf(t)) + multiset{b}
    ensures |InOrderOf(Inserted(t, b))| == |InOrderOf(t)| + 1
  {
    InsertedSplits(t, b);
    var p, q := Before(t, b), After(t, b);
    PutBetween(p, b, q);
    assert 0 <= |p| <= |InOrderOf(t)|;
  }

  lemma PutBetween(p: seq<Bid>, b: Bid, q: seq<Bid>)
    ensures var s := p + q; s[..|p|] == p && s[|p|..] == q
    ensures multiset(p + [b] + q) == multiset(p + q) + multiset{b}
  {
    assert multiset(p + q) == multiset(p) + multiset(q);
  }

  // ---------------------------------------------------------------- Search

  /**
   * `Search(bidId)`: the bid of the first node on the descent whose key equals
   * `k`; the descent goes left when `key > k`, otherwise right.
   */
  function Find(t: Tree, k: string): Option<Bid>
  {
    match t
    case Leaf => None
    case Node(l, x, r) =>
      if x.bidId == k then Some(x)
      else if Less(k, x.bidId) then Find(l, k)
      else Find(r, k)
  }

  /** What Search returns is stored in the tree, under the key asked for. */
  lemma {:induction false} FindSound(t: Tree, k: string)
    requires Find(t, k).Some?
    ensures Find(t, k).value.bidId == k && Find(t, k).value in InOrderOf(t)
  {
    match t
    case Leaf =>
    case Node(l, x, r) =>
      if x.bidId != k {
        if Less(k, x.bidId) { FindSound(l, k); } else { FindSound(r, k); }
      }
  }

  /** On an ordered tree Search finds a key exactly when the key is stored. */
  lemma {:induction false} FindComplete(t: Tree, k: string)
    requires Ordered(t)
    ensures Find(t, k).Some? <==> k in Keys(t)
  {
    match t
    case Leaf =>
    case Node(l, x, r) =>
      FindComplete(l, k);
      FindComplete(r, k);
  }

  /**
   * Round trip: once `b` is inserted into a tree holding no bid under its key,
   * Search for that key returns exactly `b`, all four fields included.
   */
  lemma {:induction false} InsertThenFind(t: Tree, b: Bid)
    requires b.bidId !in Keys(t)
    ensures Find(Inserted(t, b), b.bidId) == Some(b)
  {
    match t
    case Leaf =>
    case Node(l, x, r) =>
      if Less(b.bidId, x.bidId) { InsertThenFind(l, b); } else { InsertThenFind(r, b); }
  }
}
