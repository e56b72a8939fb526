/** Facts about sequences shared by the modules. */
module Seqs {
  /** No element occurs twice. */
  ghost predicate Distinct<T>(xs: seq<T>) {
    forall k, l :: 0 <= k < l < |xs| ==> xs[k] != xs[l]
  }

  /** Dropping the last element keeps a list distinct, and that element
      does not occur among the others. */
  lemma DistinctInit<T>(xs: seq<T>)
    requires Distinct(xs) && |xs| > 0
    ensures Distinct(xs[..|xs| - 1]) && xs[|xs| - 1] !in xs[..|xs| - 1]
  {
    var front := xs[..|xs| - 1];
    forall k | 0 <= k < |front|
      ensures front[k] != xs[|xs| - 1]
    {
      assert front[k] == xs[k];
    }
  }
}
