/** Facts about finite sets that several modules share. */
module Sets {
  /** A subset has at most as many elements as the set containing it. */
  lemma SubsetCard<T>(a: set<T>, b: set<T>)
    requires a <= b
    ensures |a| <= |b|
  {
    assert b == a + (b - a);
  }
}
