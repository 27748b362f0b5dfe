/** Reduction: `reduce` with an optional seed, built on `each`. */
module Reduction {
  import opened Wrappers
  import opened Folds
  import opened Traversal

  /** The accumulator `reduce` keeps while `each` runs: still waiting for its
      first item (no seed was given), or holding a value. */
  datatype Memo<T> = Unset | Memo(value: T)

  /** The iteratee `reduce` hands to `each`: the first item becomes the
      accumulator when there is none yet; otherwise whatever `f` returns is
      the next accumulator. */
  function Accumulate<T>(f: (T, T) -> T): (Memo<T>, T, Key, Collection<T>) -> Memo<T>
  {
    (m: Memo<T>, v: T, k: Key, c: Collection<T>) =>
      match m
      case Unset => Memo(v)
      case Memo(a) => Memo(f(a, v))
  }

  lemma {:induction false} SeededFold<T>(xs: seq<T>, f: (T, T) -> T, a: T, i: nat)
    requires i <= |xs|
    ensures FoldLeft(Step(Accumulate(f), Array(xs, [])), Memo(a), Visits(Array(xs, []))[..i])
         == Memo(FoldLeft(f, a, xs[..i]))
    decreases i
  {
    var c := Array(xs, []);
    if i > 0 {
      SeededFold(xs, f, a, i - 1);
      FoldLeftStep(Step(Accumulate(f), c), Memo(a), Visits(c), i - 1);
      FoldLeftStep(f, a, xs, i - 1);
    }
  }

  lemma {:induction false} UnseededFold<T>(xs: seq<T>, f: (T, T) -> T, i: nat)
    requires 0 < i <= |xs|
    ensures FoldLeft(Step(Accumulate(f), Array(xs, [])), Unset, Visits(Array(xs, []))[..i])
         == Memo(FoldLeft(f, xs[0], xs[1..i]))
    decreases i
  {
    var c := Array(xs, []);
    FoldLeftStep(Step(Accumulate(f), c), Unset, Visits(c), i - 1);
    if i == 1 {
      assert Visits(c)[..0] == [];
      assert xs[1..1] == [];
    } else {
      UnseededFold(xs, f, i - 1);
      assert xs[1..i][..i - 2] == xs[1..i - 1];
    }
  }

  /** `reduce(xs, f, seed?)`. With a seed (any value, falsy ones included) the
      result is the left fold of `f` over every item starting from the seed.
      Without one, the first item is the starting accumulator and the fold runs
      over the remaining items; an empty array then gives `undefined`. */
  function Reduce<T>(xs: seq<T>, f: (T, T) -> T, seed: Option<T>): (r: Option<T>)
    ensures seed.Some? ==> r == Some(FoldLeft(f, seed.value, xs))
    ensures seed.None? ==> (r.None? <==> xs == [])
    ensures seed.None? && xs != [] ==> r == Some(FoldLeft(f, xs[0], xs[1..]))
  {
    var c := Array(xs, []);
    var start := if seed.Some? then Memo(seed.value) else Unset;
    var m := Each(c, Accumulate(f), start);
    EachIsFoldOverVisits(c, Accumulate(f), start);
    assert Visits(c)[..|xs|] == Visits(c);
    if seed.Some? then
      SeededFold(xs, f, seed.value, |xs|);
      assert xs[..|xs|] == xs;
      Some(m.value)
    else if xs == [] then
      None
    else
      UnseededFold(xs, f, |xs|);
      assert xs[1..|xs|] == xs[1..];
      Some(m.value)
  }
}
