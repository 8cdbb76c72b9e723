/**
 * Binary trees as values, with paths from the root. A path names the position
 * of one node; `Sub` reads the subtree there and `Replace` puts another in its
 * place. These are what the loops of Insert and Remove walk along.
 */
module Trees {

  datatype BTree<T> = Leaf | Node(left: BTree<T>, val: T, right: BTree<T>)

  datatype Dir = Left | Right

  type Path = seq<Dir>

  function Child<T>(t: BTree<T>, d: Dir): BTree<T>
    requires t.Node?
  {
    if d == Left then t.left else t.right
  }

  function WithChild<T>(t: BTree<T>, d: Dir, u: BTree<T>): BTree<T>
    requires t.Node?
  {
    if d == Left then Node(u, t.val, t.right) else Node(t.left, t.val, u)
  }

  /** The subtree at path `p` (a leaf once the path runs off the tree). */
  function Sub<T>(t: BTree<T>, p: Path): BTree<T>
    decreases |p|
  {
    if p == [] then t
    else match t
      case Leaf => Leaf
      case Node(_, _, _) => Sub(Child(t, p[0]), p[1..])
  }

  /** `t` with the subtree at path `p` replaced by `u`. */
  function Replace<T>(t: BTree<T>, p: Path, u: BTree<T>): BTree<T>
    decreases |p|
  {
    if p == [] then u
    else match t
      case Leaf => Leaf
      case Node(_, _, _) => WithChild(t, p[0], Replace(Child(t, p[0]), p[1..], u))
  }

  lemma {:induction false} SubAppend<T>(t: BTree<T>, p: Path, d: Dir)
    requires Sub(t, p).Node?
    ensures Sub(t, p + [d]) == Child(Sub(t, p), d)
    decreases |p|
  {
    if p == [] {
      assert [d][1..] == [];
    } else {
      assert (p + [d])[0] == p[0] && (p + [d])[1..] == p[1..] + [d];
      SubAppend(Child(t, p[0]), p[1..], d);
    }
  }

  lemma {:induction false} ReplaceAppend<T>(t: BTree<T>, p: Path, d: Dir, u: BTree<T>)
    requires Sub(t, p).Node?
    ensures Replace(t, p + [d], u) == Replace(t, p, WithChild(Sub(t, p), d, u))
    decreases |p|
  {
    if p == [] {
      assert [d][1..] == [];
    } else {
      assert (p + [d])[0] == p[0] && (p + [d])[1..] == p[1..] + [d];
      ReplaceAppend(Child(t, p[0]), p[1..], d, u);
    }
  }

  lemma {:induction false} ReplaceSub<T>(t: BTree<T>, p: Path)
    ensures Replace(t, p, Sub(t, p)) == t
    decreases |p|
  {
    if p != [] && t.Node? {
      ReplaceSub(Child(t, p[0]), p[1..]);
    }
  }

  /** Walking `p` and then `r` is walking `p + r`. */
  lemma {:induction false} SubConcat<T>(t: BTree<T>, p: Path, r: Path)
    ensures Sub(t, p + r) == Sub(Sub(t, p), r)
    decreases |p|
  {
    if p == [] {
      assert p + r == r;
    } else {
      assert (p + r)[0] == p[0] && (p + r)[1..] == p[1..] + r;
      if t.Node? { SubConcat(Child(t, p[0]), p[1..], r); }
    }
  }

  lemma {:induction false} ReplaceConcat<T>(t: BTree<T>, p: Path, r: Path, u: BTree<T>)
    requires Sub(t, p).Node?
    ensures Replace(t, p + r, u) == Replace(t, p, Replace(Sub(t, p), r, u))
    decreases |p|
  {
    if p == [] {
      assert p + r == r;
    } else {
      assert (p + r)[0] == p[0] && (p + r)[1..] == p[1..] + r;
      ReplaceConcat(Child(t, p[0]), p[1..], r, u);
    }
  }

  /** What was put at `p` is found there. */
  lemma {:induction false} SubReplace<T>(t: BTree<T>, p: Path, u: BTree<T>)
    requires Sub(t, p).Node?
    ensures Sub(Replace(t, p, u), p) == u
    decreases |p|
  {
    if p != [] {
      SubReplace(Child(t, p[0]), p[1..], u);
    }
  }

  /** A second replacement at the same path overrides the first. */
  lemma {:induction false} ReplaceReplace<T>(t: BTree<T>, p: Path, u: BTree<T>, v: BTree<T>)
    ensures Replace(Replace(t, p, u), p, v) == Replace(t, p, v)
    decreases |p|
  {
    if p != [] && t.Node? {
      ReplaceReplace(Child(t, p[0]), p[1..], u, v);
    }
  }
}
