/** What several components share. */
module Basics {

  datatype Option<+T> = None | Some(value: T)

  lemma SubsetSize(s: set<int>, t: set<int>)
    requires s <= t
    ensures |s| <= |t|
  {
    assert t == s + (t - s);
  }
}
