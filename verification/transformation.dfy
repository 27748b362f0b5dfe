/** Transformation: `map`, `filter`, `reject` and `pluck`. All are pure: the
    input sequence is a value and is never altered. */
module Transformation {
  import opened Wrappers
  import opened Seqs
  import opened Folds
  import opened Traversal

  /** `identity(x)`: the default iteratee; it hands back its argument unchanged. */
  function Identity<T>(x: T): (r: T)
    ensures r == x
  {
    x
  }

  /** `map(xs, f)`: `f` applied to every element, positions kept. */
  function Map<T, U>(xs: seq<T>, f: T -> U): (r: seq<U>)
    ensures |r| == |xs|
    ensures forall i :: 0 <= i < |xs| ==> r[i] == f(xs[i])
  {
    if xs == [] then [] else [f(xs[0])] + Map(xs[1..], f)
  }

  /** `filter(xs, p)`: the elements satisfying `p`, in their original order,
      each as often as it occurs in `xs`. */
  function Filter<T>(xs: seq<T>, p: T -> bool): (r: seq<T>)
    ensures IsSubsequence(r, xs)
    ensures forall i :: 0 <= i < |r| ==> p(r[i])
  {
    if xs == [] then []
    else
      var rest := Filter(xs[1..], p);
      assert xs == [xs[0]] + xs[1..];
      if p(xs[0]) then [xs[0]] + rest else rest
  }

  /** Every element satisfying `p` is kept as often as it occurs, and every
      other one is dropped. */
  lemma {:induction false} FilterCounts<T>(xs: seq<T>, p: T -> bool)
    ensures multiset(Filter(xs, p)) <= multiset(xs)
    ensures forall x :: x in xs ==> multiset(Filter(xs, p))[x] == if p(x) then multiset(xs)[x] else 0
    decreases |xs|
  {
    if xs != [] {
      FilterCounts(xs[1..], p);
      assert xs == [xs[0]] + xs[1..];
    }
  }

  /** An element is kept by `filter` exactly when it occurs in the input and
      satisfies the predicate. */
  lemma {:induction false} FilterMembers<T>(xs: seq<T>, p: T -> bool)
    ensures forall x :: x in Filter(xs, p) <==> x in xs && p(x)
  {
    var r := Filter(xs, p);
    FilterCounts(xs, p);
    forall x
      ensures x in r <==> x in xs && p(x)
    {
      if x in xs {
        assert x in multiset(xs);
      }
      if x in r {
        assert x in multiset(r);
      }
    }
  }

  /** Filtering keeps relative order: when `b` passes the filter, an `a` that
      comes before every `b` in the result already did so in the input. */
  lemma {:induction false} FilterPrecedes<T>(xs: seq<T>, p: T -> bool, a: T, b: T)
    requires p(b)
    ensures Precedes(Filter(xs, p), a, b) ==> Precedes(xs, a, b)
    decreases |xs|
  {
    if xs != [] {
      FilterPrecedes(xs[1..], p, a, b);
    }
  }

  /** The complement of a predicate. */
  function Not<T>(p: T -> bool): T -> bool
  {
    x => !p(x)
  }

  /** `reject(xs, p)`: the elements failing `p`, in their original order. */
  function Reject<T>(xs: seq<T>, p: T -> bool): (r: seq<T>)
    ensures IsSubsequence(r, xs)
    ensures forall i :: 0 <= i < |r| ==> !p(r[i])
  {
    Filter(xs, Not(p))
  }

  /** `filter` and `reject` split the input between them: every element goes to
      exactly one side, so the two lengths add up to the input's. */
  lemma FilterRejectPartition<T>(xs: seq<T>, p: T -> bool)
    ensures multiset(Filter(xs, p)) + multiset(Reject(xs, p)) == multiset(xs)
    ensures |Filter(xs, p)| + |Reject(xs, p)| == |xs|
  {
    var f, r := Filter(xs, p), Reject(xs, p);
    FilterCounts(xs, p);
    FilterCounts(xs, Not(p));
    assert multiset(f) + multiset(r) == multiset(xs) by {
      forall x
        ensures (multiset(f) + multiset(r))[x] == multiset(xs)[x]
      {
      }
    }
    assert |multiset(f) + multiset(r)| == |f| + |r|;
  }

  /** `map` with the identity gives back the input's contents. */
  lemma MapIdentity<T>(xs: seq<T>)
    ensures Map(xs, Identity) == xs
  {
  }

  /** `pluck(objs, name)`: the named property of every object, `undefined`
      where an object lacks it; the same as `map` with the property accessor. */
  function Pluck<V>(objs: seq<Entries<V>>, name: string): (r: seq<Option<V>>)
    ensures |r| == |objs|
    ensures forall i :: 0 <= i < |objs| ==>
      (r[i].None? <==> forall j :: 0 <= j < |objs[i]| ==> objs[i][j].0 != name)
    ensures forall i :: 0 <= i < |objs| && r[i].Some? ==> (name, r[i].value) in objs[i]
  {
    Map(objs, o => Get(o, name))
  }

  /** The iteratee that `map` hands to `each`: push the transformed value. */
  function PushMapped<T, U>(f: T -> U): (seq<U>, T, Key, Collection<T>) -> seq<U>
  {
    (acc: seq<U>, v: T, k: Key, c: Collection<T>) => acc + [f(v)]
  }

  lemma {:induction false} PushMappedFold<T, U>(xs: seq<T>, props: Entries<T>, f: T -> U, i: nat)
    requires i <= |xs|
    ensures FoldLeft(Step(PushMapped(f), Array(xs, props)), [], Visits(Array(xs, props))[..i]) == Map(xs[..i], f)
    decreases i
  {
    var c := Array(xs, props);
    if i > 0 {
      PushMappedFold(xs, props, f, i - 1);
      FoldLeftStep(Step(PushMapped(f), c), [], Visits(c), i - 1);
      assert Map(xs[..i], f) == Map(xs[..i - 1], f) + [f(xs[i - 1])];
    }
  }

  /** `map` is `each` with an iteratee that pushes `f(value)` onto a fresh
      result: one result per index, in index order. */
  lemma MapViaEach<T, U>(xs: seq<T>, props: Entries<T>, f: T -> U)
    ensures Each(Array(xs, props), PushMapped(f), []) == Map(xs, f)
  {
    var c := Array(xs, props);
    EachIsFoldOverVisits(c, PushMapped(f), []);
    PushMappedFold(xs, props, f, |xs|);
    assert Visits(c)[..|xs|] == Visits(c);
    assert xs[..|xs|] == xs;
  }
}
