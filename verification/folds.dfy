/** The left fold that reduce and each are measured against. */
module Folds {

  /** `f` applied to the accumulator and each item of `xs`, first item first. */
  function FoldLeft<A, T>(f: (A, T) -> A, a: A, xs: seq<T>): A
    decreases |xs|
  {
    if xs == [] then a else f(FoldLeft(f, a, xs[..|xs| - 1]), xs[|xs| - 1])
  }

  /** Folding over a prefix one item longer applies `f` once more. */
  lemma FoldLeftStep<A, T>(f: (A, T) -> A, a: A, xs: seq<T>, i: nat)
    requires i < |xs|
    ensures FoldLeft(f, a, xs[..i + 1]) == f(FoldLeft(f, a, xs[..i]), xs[i])
  {
    assert xs[..i + 1][..i] == xs[..i];
  }
}
