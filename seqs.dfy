/** Order-preservation vocabulary used by the analyzer's and the reader's contracts. */
module Seqs {

  /** `xs` is obtained from `ys` by deleting elements, keeping the order of the rest. */
  ghost predicate IsSubsequence<T>(xs: seq<T>, ys: seq<T>)
    decreases |ys|
  {
    if ys == [] then xs == []
    else
      (xs != [] && xs[|xs| - 1] == ys[|ys| - 1] && IsSubsequence(xs[..|xs| - 1], ys[..|ys| - 1]))
      || IsSubsequence(xs, ys[..|ys| - 1])
  }

  /**
   * Extending a prefix of `ys` by its next element keeps a subsequence,
   * whether or not the subsequence takes that element too.
   */
  lemma SubsequenceStep<T>(xs: seq<T>, xs': seq<T>, ys: seq<T>, n: nat)
    requires 0 < n <= |ys| && IsSubsequence(xs, ys[..n - 1])
    requires xs' == xs || xs' == xs + [ys[n - 1]]
    ensures IsSubsequence(xs', ys[..n])
  {
    assert ys[..n][..n - 1] == ys[..n - 1];
    assert (xs + [ys[n - 1]])[..|xs|] == xs;
  }

  /** A subsequence only holds elements of the sequence it was taken from. */
  lemma {:induction false} SubsequenceElements<T>(xs: seq<T>, ys: seq<T>)
    requires IsSubsequence(xs, ys)
    ensures |xs| <= |ys|
    ensures forall x :: x in xs ==> x in ys
    decreases |ys|
  {
    if ys != [] {
      var ys' := ys[..|ys| - 1];
      if xs != [] && xs[|xs| - 1] == ys[|ys| - 1] && IsSubsequence(xs[..|xs| - 1], ys') {
        SubsequenceElements(xs[..|xs| - 1], ys');
        assert xs == xs[..|xs| - 1] + [xs[|xs| - 1]];
        assert ys == ys' + [ys[|ys| - 1]];
      } else {
        SubsequenceElements(xs, ys');
        assert ys == ys' + [ys[|ys| - 1]];
      }
    }
  }
}
