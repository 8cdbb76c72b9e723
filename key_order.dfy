/**
 * The order on keys. The tree compares `std::string` keys with `<`, `>` and `==`:
 * character by character (as unsigned char, which is code-point order on `char`
 * here), and a proper prefix is smaller than the longer string.
 */
module KeyOrder {

  predicate Less(a: string, b: string)
    decreases |a|
  {
    if |a| == 0 then |b| > 0
    else if |b| == 0 then false
    else if a[0] == b[0] then Less(a[1..], b[1..])
    else a[0] < b[0]
  }

  lemma {:induction false} Irreflexive(a: string)
    ensures !Less(a, a)
    decreases |a|
  {
    if |a| > 0 {
      Irreflexive(a[1..]);
    }
  }

  lemma {:induction false} Transitive(a: string, b: string, c: string)
    requires Less(a, b) && Less(b, c)
    ensures Less(a, c)
    decreases |a|
  {
    if |a| > 0 && a[0] == b[0] && b[0] == c[0] {
      Transitive(a[1..], b[1..], c[1..]);
    }
  }

  lemma {:induction false} Trichotomy(a: string, b: string)
    ensures Less(a, b) || a == b || Less(b, a)
    decreases |a|
  {
    if |a| > 0 && |b| > 0 && a[0] == b[0] {
      Trichotomy(a[1..], b[1..]);
      if a[1..] == b[1..] {
        assert a == [a[0]] + a[1..] && b == [b[0]] + b[1..];
      }
    }
  }

  lemma {:induction false} Asymmetric(a: string, b: string)
    requires Less(a, b)
    ensures !Less(b, a)
  {
    if Less(b, a) {
      Transitive(a, b, a);
      Irreflexive(a);
    }
  }

  /** `Less` is a strict total order: irreflexive, transitive and connected. */
  lemma StrictTotalOrder()
    ensures forall a :: !Less(a, a)
    ensures forall a, b, c :: Less(a, b) && Less(b, c) ==> Less(a, c)
    ensures forall a, b :: a != b ==> Less(a, b) || Less(b, a)
    ensures forall a, b :: Less(a, b) ==> !Less(b, a)
  {
    forall a { Irreflexive(a); }
    forall a, b, c | Less(a, b) && Less(b, c) { Transitive(a, b, c); }
    forall a, b { Trichotomy(a, b); }
    forall a, b | Less(a, b) { Asymmetric(a, b); }
  }

  /**
   * The descents of Search and Remove phrase "go right" differently
   * (`!(k < key)` against `key < k`); on a key other than `k` the two agree.
   */
  lemma DescentsAgree(key: string, k: string)
    requires key != k
    ensures Less(key, k) <==> !Less(k, key)
  {
    Trichotomy(key, k);
    if Less(key, k) { Asymmetric(key, k); }
  }

  /** The step the ordering proofs use most: a < b and b <= c give a < c. */
  lemma LessLeq(a: string, b: string, c: string)
    requires Less(a, b) && !Less(c, b)
    ensures Less(a, c)
  {
    Trichotomy(b, c);
    if b != c { Transitive(a, b, c); }
  }
}
