/** Strict total orders on key values, the comparison required by the sort
    and search routines (Python's `<` on the keys a key function returns). */
module Orders {

  /** Transitivity of `less` at one triple; kept as a separate predicate so that
      the solver uses transitivity only where a proof asks for it. */
  ghost predicate TransitiveAt<K>(less: (K, K) -> bool, a: K, b: K, c: K) {
    less(a, b) && less(b, c) ==> less(a, c)
  }

  /** `less` is irreflexive, transitive and total, like `<` on numbers or on strings. */
  ghost predicate StrictTotalOrder<K(!new)>(less: (K, K) -> bool) {
    && (forall a :: !less(a, a))
    && (forall a, b, c :: TransitiveAt(less, a, b, c))
    && (forall a, b :: a == b || less(a, b) || less(b, a))
  }

  lemma Trans<K(!new)>(less: (K, K) -> bool, a: K, b: K, c: K)
    requires StrictTotalOrder(less)
    requires less(a, b) && less(b, c)
    ensures less(a, c)
  {
    assert TransitiveAt(less, a, b, c);
  }

  /** Exactly one of `a < b`, `a == b` and `b < a` holds. */
  lemma Trichotomy<K(!new)>(less: (K, K) -> bool, a: K, b: K)
    requires StrictTotalOrder(less)
    ensures less(a, b) ==> a != b && !less(b, a)
    ensures a == b || less(a, b) || less(b, a)
  {
    if less(a, b) && less(b, a) {
      Trans(less, a, b, a);
    }
  }

  /** Python's `<=` on keys: strictly less or equal. */
  predicate Leq<K(==)>(less: (K, K) -> bool, a: K, b: K) {
    less(a, b) || a == b
  }

  /** `<=` followed by `<=` is `<=`; if either step is strict, so is the whole. */
  lemma LeqTrans<K(!new)>(less: (K, K) -> bool, a: K, b: K, c: K)
    requires StrictTotalOrder(less)
    requires Leq(less, a, b) && Leq(less, b, c)
    ensures Leq(less, a, c)
    ensures less(a, b) || less(b, c) ==> less(a, c)
  {
    if less(a, b) && less(b, c) {
      Trans(less, a, b, c);
    }
  }

  /** The order that `reverse=True` sorts by: `a` comes first when it is the larger. */
  function Flip<K>(less: (K, K) -> bool): (K, K) -> bool {
    (a: K, b: K) => less(b, a)
  }

  lemma FlipIsStrictTotalOrder<K(!new)>(less: (K, K) -> bool)
    requires StrictTotalOrder(less)
    ensures StrictTotalOrder(Flip(less))
  {
    forall a, b, c ensures TransitiveAt(Flip(less), a, b, c) {
      assert TransitiveAt(less, c, b, a);
    }
  }

  /** Numbers compared with `<`. */
  function RealLess(): (real, real) -> bool {
    (a: real, b: real) => a < b
  }

  function IntLess(): (int, int) -> bool {
    (a: int, b: int) => a < b
  }

  lemma NumberOrders()
    ensures StrictTotalOrder(RealLess())
    ensures StrictTotalOrder(IntLess())
  {
    forall a: real, b: real, c: real ensures TransitiveAt(RealLess(), a, b, c) {
    }
    forall a: int, b: int, c: int ensures TransitiveAt(IntLess(), a, b, c) {
    }
  }
}
