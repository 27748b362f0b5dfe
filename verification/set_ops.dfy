/** `intersection` and `difference`, membership judged by strict equality. */
module SetOps {
  import opened Seqs
  import opened Transformation
  import opened Uniq

  /** `x` is present in every one of `others`. */
  predicate InAll<T(==)>(x: T, others: seq<seq<T>>)
  {
    forall o :: o in others ==> x in o
  }

  /** `x` is present in none of `others`. */
  predicate InNone<T(==)>(x: T, others: seq<seq<T>>)
  {
    forall o :: o in others ==> x !in o
  }

  function FoundInAll<T(==)>(others: seq<seq<T>>): T -> bool
  {
    x => InAll(x, others)
  }

  function FoundInNone<T(==)>(others: seq<seq<T>>): T -> bool
  {
    x => InNone(x, others)
  }

  /** De-duplicating by the values themselves keeps one copy of every value. */
  lemma {:induction false} DedupByValue<T>(xs: seq<T>)
    ensures forall x :: x in Dedup(xs, Identity) <==> x in xs
    ensures forall i, j :: 0 <= i < j < |Dedup(xs, Identity)| ==> Dedup(xs, Identity)[i] != Dedup(xs, Identity)[j]
  {
    var r := Dedup(xs, Identity);
    SubsequenceMembers(r, xs);
    forall x | x in xs
      ensures x in r
    {
      assert Identity(x) in KeysOf(xs, Identity);
    }
    forall i, j | 0 <= i < j < |r|
      ensures r[i] != r[j]
    {
      assert Identity(r[i]) != Identity(r[j]);
    }
  }

  /** De-duplicating by value keeps the values in the order they first occur. */
  lemma DedupByValueOrder<T>(xs: seq<T>)
    ensures forall m, n :: 0 <= m < n < |Dedup(xs, Identity)| ==>
      Precedes(xs, Dedup(xs, Identity)[m], Dedup(xs, Identity)[n])
  {
    var r := Dedup(xs, Identity);
    DedupKeepsFirstOccurrences(xs, Identity);
    forall m, n | 0 <= m < n < |r|
      ensures Precedes(xs, r[m], r[n])
    {
      var i, k := FirstIndex(xs, Identity, r[m]), FirstIndex(xs, Identity, r[n]);
      assert i < k;
      forall j | 0 <= j <= i
        ensures xs[j] != r[n]
      {
        assert xs[..k][j] == xs[j];
        assert Identity(xs[j]) in KeysOf(xs[..k], Identity);
      }
      PrecedesAt(xs, r[m], r[n], i);
    }
  }

  /** The de-duplicated common elements of `first` and every array of `others`. */
  lemma CommonElements<T>(first: seq<T>, others: seq<seq<T>>, r: seq<T>)
    requires r == Dedup(Filter(first, FoundInAll(others)), Identity)
    ensures IsSubsequence(r, first)
    ensures forall i :: 0 <= i < |r| ==> InAll(r[i], others)
    ensures forall i :: 0 <= i < |first| && InAll(first[i], others) ==> first[i] in r
    ensures forall i, j :: 0 <= i < j < |r| ==> r[i] != r[j]
    ensures forall i, j :: 0 <= i < j < |r| ==> Precedes(first, r[i], r[j])
  {
    var common := Filter(first, FoundInAll(others));
    SubsequenceTransitive(r, common, first);
    FilterMembers(first, FoundInAll(others));
    DedupByValue(common);
    forall i | 0 <= i < |r|
      ensures InAll(r[i], others)
    {
      assert r[i] in common;
      assert FoundInAll(others)(r[i]);
    }
    forall i | 0 <= i < |first| && InAll(first[i], others)
      ensures first[i] in r
    {
      assert FoundInAll(others)(first[i]);
      assert first[i] in common;
    }
    DedupByValueOrder(common);
    forall i, j | 0 <= i < j < |r|
      ensures Precedes(first, r[i], r[j])
    {
      assert r[j] in common;
      FilterPrecedes(first, FoundInAll(others), r[i], r[j]);
    }
  }

  /** `intersection(first, ...others)`: the elements of `first` found in every
      other array, each once, in the order of their first occurrence in `first`. */
  function Intersection<T(==)>(first: seq<T>, others: seq<seq<T>>): (r: seq<T>)
    ensures IsSubsequence(r, first)
    ensures forall i :: 0 <= i < |r| ==> InAll(r[i], others)
    ensures forall i :: 0 <= i < |first| && InAll(first[i], others) ==> first[i] in r
    ensures forall i, j :: 0 <= i < j < |r| ==> r[i] != r[j]
    ensures forall i, j :: 0 <= i < j < |r| ==> Precedes(first, r[i], r[j])
  {
    var r := Dedup(Filter(first, FoundInAll(others)), Identity);
    CommonElements(first, others, r);
    r
  }

  /** `difference(first, ...others)`: the elements of `first` found in none of
      the other arrays, in the order of `first`, repeats included. */
  function Difference<T(==)>(first: seq<T>, others: seq<seq<T>>): (r: seq<T>)
    ensures IsSubsequence(r, first)
    ensures forall i :: 0 <= i < |r| ==> InNone(r[i], others)
    ensures forall x :: x in first ==> multiset(r)[x] == if InNone(x, others) then multiset(first)[x] else 0
  {
    FilterCounts(first, FoundInNone(others));
    Filter(first, FoundInNone(others))
  }
}
