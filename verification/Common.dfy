/** What several components share. */
module Common {

  /** A value that may be missing: the model of null results and of bool-plus-output answers. */
  datatype Option<T> = None | Some(value: T)

  lemma SubsetSize<T>(a: set<T>, b: set<T>)
    requires a <= b
    ensures |a| <= |b|
  {
    assert b == a + (b - a);
  }
}
