/** `uniq`: duplicate elimination, in the default (unsorted) mode and in the
    pre-sorted fast path. Duplicates are judged by strict equality on the key
    an iteratee computes (the element itself by default). */
module Uniq {
  import opened Seqs

  /** The keys of all elements of `xs`. */
  function KeysOf<T, K(==)>(xs: seq<T>, key: T -> K): (ks: set<K>)
    ensures forall i :: 0 <= i < |xs| ==> key(xs[i]) in ks
    ensures forall k :: k in ks ==> exists i :: 0 <= i < |xs| && key(xs[i]) == k
    decreases |xs|
  {
    if xs == [] then {}
    else
      var ks := KeysOf(xs[..|xs| - 1], key);
      assert forall i :: 0 <= i < |xs| - 1 ==> xs[..|xs| - 1][i] == xs[i];
      ks + {key(xs[|xs| - 1])}
  }

  /** Position of the first element of `xs` whose key is `k`. */
  ghost function FirstIndex<T, K>(xs: seq<T>, key: T -> K, k: K): (i: nat)
    requires k in KeysOf(xs, key)
    ensures i < |xs| && key(xs[i]) == k && k !in KeysOf(xs[..i], key)
    decreases |xs|
  {
    var init := xs[..|xs| - 1];
    if k in KeysOf(init, key) then
      var i := FirstIndex(init, key, k);
      assert xs[..i] == init[..i];
      i
    else
      |xs| - 1
  }

  /** Reference for the default mode: keep an element exactly when no earlier
      element has its key. The result has no two elements with one key and
      covers every key of the input. */
  function Dedup<T, K(==)>(xs: seq<T>, key: T -> K): (r: seq<T>)
    ensures IsSubsequence(r, xs)
    ensures forall i, j :: 0 <= i < j < |r| ==> key(r[i]) != key(r[j])
    ensures KeysOf(r, key) == KeysOf(xs, key)
    decreases |xs|
  {
    if xs == [] then []
    else
      var init, x := xs[..|xs| - 1], xs[|xs| - 1];
      var d := Dedup(init, key);
      assert xs == init + [x];
      if key(x) in KeysOf(init, key) then
        SubsequenceExtend(d, init, x);
        d
      else
        SubsequenceAppend(d, init, x);
        assert (d + [x])[..|d|] == d;
        d + [x]
  }

  /** Every element of `r` is the first element of `xs` with its key. */
  ghost predicate FirstOccurrences<T, K>(xs: seq<T>, key: T -> K, r: seq<T>)
  {
    forall m :: 0 <= m < |r| ==> key(r[m]) in KeysOf(xs, key) && xs[FirstIndex(xs, key, key(r[m]))] == r[m]
  }

  /** The elements of `r` appear in the order their keys first appear in `xs`. */
  ghost predicate InFirstSeenOrder<T, K>(xs: seq<T>, key: T -> K, r: seq<T>)
    requires forall m :: 0 <= m < |r| ==> key(r[m]) in KeysOf(xs, key)
  {
    forall m, n :: 0 <= m < n < |r| ==> FirstIndex(xs, key, key(r[m])) < FirstIndex(xs, key, key(r[n]))
  }

  /** Facts about the elements before the last carry over to the whole input. */
  lemma FirstOccurrencesExtend<T, K>(xs: seq<T>, key: T -> K, d: seq<T>)
    requires xs != []
    requires FirstOccurrences(xs[..|xs| - 1], key, d) && InFirstSeenOrder(xs[..|xs| - 1], key, d)
    ensures FirstOccurrences(xs, key, d) && InFirstSeenOrder(xs, key, d)
    ensures forall m :: 0 <= m < |d| ==> FirstIndex(xs, key, key(d[m])) < |xs| - 1
  {
  }

  /** A last element with a new key, appended to `d`, keeps both facts. */
  lemma FirstOccurrencesAppend<T, K>(xs: seq<T>, key: T -> K, d: seq<T>)
    requires xs != [] && key(xs[|xs| - 1]) !in KeysOf(xs[..|xs| - 1], key)
    requires FirstOccurrences(xs, key, d) && InFirstSeenOrder(xs, key, d)
    requires forall m :: 0 <= m < |d| ==> FirstIndex(xs, key, key(d[m])) < |xs| - 1
    ensures FirstOccurrences(xs, key, d + [xs[|xs| - 1]])
    ensures InFirstSeenOrder(xs, key, d + [xs[|xs| - 1]])
  {
  }

  /** The default mode keeps first occurrences, in the order they first occur:
      each kept element is the first element with its key, and kept elements
      appear in the order their keys first appear in the input. */
  lemma {:induction false} DedupKeepsFirstOccurrences<T, K>(xs: seq<T>, key: T -> K)
    ensures FirstOccurrences(xs, key, Dedup(xs, key))
    ensures InFirstSeenOrder(xs, key, Dedup(xs, key))
    decreases |xs|
  {
    if xs != [] {
      var init, x := xs[..|xs| - 1], xs[|xs| - 1];
      var d := Dedup(init, key);
      DedupKeepsFirstOccurrences(init, key);
      FirstOccurrencesExtend(xs, key, d);
      if key(x) !in KeysOf(init, key) {
        FirstOccurrencesAppend(xs, key, d);
      }
    }
  }

  /** `uniq(xs, false, key)`: one pass with a set of keys already seen. */
  method UniqUnsorted<T, K(==)>(xs: seq<T>, key: T -> K) returns (r: seq<T>)
    ensures r == Dedup(xs, key)
  {
    r := [];
    var seen: set<K> := {};
    for i := 0 to |xs|
      invariant r == Dedup(xs[..i], key)
      invariant seen == KeysOf(xs[..i], key)
    {
      assert xs[..i + 1][..i] == xs[..i];
      var k := key(xs[i]);
      if k !in seen {
        r := r + [xs[i]];
        seen := seen + {k};
      }
    }
    assert xs[..|xs|] == xs;
  }

  /** Reference for the sorted mode: keep the first element, and every later
      element whose key differs from the key of the element just before it. */
  function KeepChanges<T, K(==)>(xs: seq<T>, key: T -> K): (r: seq<T>)
    ensures IsSubsequence(r, xs)
    ensures forall i :: 0 < i < |r| ==> key(r[i - 1]) != key(r[i])
    ensures xs == [] <==> r == []
    ensures xs != [] ==> r[0] == xs[0] && key(r[|r| - 1]) == key(xs[|xs| - 1])
    decreases |xs|
  {
    if |xs| <= 1 then
      SubsequenceRefl(xs);
      xs
    else
      var init, x := xs[..|xs| - 1], xs[|xs| - 1];
      var d := KeepChanges(init, key);
      assert xs == init + [x];
      if key(x) == key(init[|init| - 1]) then
        SubsequenceExtend(d, init, x);
        d
      else
        SubsequenceAppend(d, init, x);
        d + [x]
  }

  /** `uniq(xs, true, key)`: keep an element when its key differs from the key
      of the last element kept. This is the same as comparing with the element
      just before it: a skipped element always shares the last kept key. */
  method UniqSorted<T, K(==)>(xs: seq<T>, key: T -> K) returns (r: seq<T>)
    ensures r == KeepChanges(xs, key)
  {
    r := [];
    for i := 0 to |xs|
      invariant r == KeepChanges(xs[..i], key)
    {
      assert xs[..i + 1][..i] == xs[..i];
      if r == [] || key(xs[i]) != key(r[|r| - 1]) {
        r := r + [xs[i]];
      }
    }
    assert xs[..|xs|] == xs;
  }

  /** `uniq(xs, isSorted, key)`: the caller chooses the mode. */
  method Uniq<T, K(==)>(xs: seq<T>, isSorted: bool, key: T -> K) returns (r: seq<T>)
    ensures IsSubsequence(r, xs)
    ensures isSorted ==> r == KeepChanges(xs, key)
    ensures !isSorted ==> r == Dedup(xs, key)
  {
    if isSorted {
      r := UniqSorted(xs, key);
    } else {
      r := UniqUnsorted(xs, key);
    }
  }

  /** Elements with equal keys stand next to each other. */
  ghost predicate Grouped<T, K>(xs: seq<T>, key: T -> K)
  {
    forall i, j, k :: 0 <= i < j < k < |xs| && key(xs[i]) == key(xs[k]) ==> key(xs[j]) == key(xs[i])
  }

  lemma GroupedPrefix<T, K>(xs: seq<T>, key: T -> K)
    requires xs != [] && Grouped(xs, key)
    ensures Grouped(xs[..|xs| - 1], key)
  {
  }

  /** In grouped input, a key seen before the last element was seen right before it. */
  lemma GroupedLastKey<T, K>(xs: seq<T>, key: T -> K)
    requires |xs| > 1 && Grouped(xs, key)
    ensures key(xs[|xs| - 1]) in KeysOf(xs[..|xs| - 1], key) <==> key(xs[|xs| - 1]) == key(xs[|xs| - 2])
  {
  }

  lemma DedupLast<T, K>(xs: seq<T>, key: T -> K)
    requires xs != []
    ensures var init, x := xs[..|xs| - 1], xs[|xs| - 1];
      Dedup(xs, key) == Dedup(init, key) + (if key(x) in KeysOf(init, key) then [] else [x])
  {
  }

  lemma KeepChangesLast<T, K>(xs: seq<T>, key: T -> K)
    requires |xs| > 1
    ensures var init, x := xs[..|xs| - 1], xs[|xs| - 1];
      KeepChanges(xs, key) == KeepChanges(init, key) + (if key(x) == key(xs[|xs| - 2]) then [] else [x])
  {
  }

  /** Position `i` starts a run: it is the first position, or its key differs
      from the key just before it. */
  ghost predicate IsRunStart<T, K>(xs: seq<T>, key: T -> K, i: int)
  {
    0 <= i < |xs| && (i == 0 || key(xs[i]) != key(xs[i - 1]))
  }

  /** The positions that start a run of equal keys, in ascending order. */
  function RunStarts<T, K(==)>(xs: seq<T>, key: T -> K): seq<nat>
    decreases |xs|
  {
    if xs == [] then []
    else
      var last := |xs| - 1;
      var r := RunStarts(xs[..last], key);
      if last == 0 || key(xs[last]) != key(xs[last - 1]) then r + [last] else r
  }

  /** The run starts are listed in strictly increasing order, and a position is
      listed exactly when it starts a run. */
  lemma {:induction false} RunStartsSpec<T, K>(xs: seq<T>, key: T -> K)
    ensures forall m :: 0 <= m < |RunStarts(xs, key)| ==> RunStarts(xs, key)[m] < |xs|
    ensures forall m, n :: 0 <= m < n < |RunStarts(xs, key)| ==> RunStarts(xs, key)[m] < RunStarts(xs, key)[n]
    ensures forall i: int :: i in RunStarts(xs, key) <==> IsRunStart(xs, key, i)
    decreases |xs|
  {
    if xs != [] {
      var init, last := xs[..|xs| - 1], |xs| - 1;
      var r, idx := RunStarts(init, key), RunStarts(xs, key);
      RunStartsSpec(init, key);
      assert idx == if IsRunStart(xs, key, last) then r + [last] else r;
      forall i: int
        ensures i in idx <==> IsRunStart(xs, key, i)
      {
        if 0 <= i < last {
          assert i in idx <==> IsRunStart(init, key, i);
          assert init[i] == xs[i];
          if i > 0 {
            assert init[i - 1] == xs[i - 1];
          }
        }
      }
    }
  }

  lemma RunStartsLast<T, K>(xs: seq<T>, key: T -> K)
    requires |xs| > 1
    ensures var init, last := xs[..|xs| - 1], |xs| - 1;
      RunStarts(xs, key) == RunStarts(init, key) + (if key(xs[last]) == key(xs[last - 1]) then [] else [last])
  {
  }

  /** `kept` lists the elements of `xs` at the positions `idx`, in that order. */
  ghost predicate Picks<T>(xs: seq<T>, kept: seq<T>, idx: seq<nat>)
  {
    |kept| == |idx| && forall m :: 0 <= m < |idx| ==> idx[m] < |xs| && kept[m] == xs[idx[m]]
  }

  lemma PicksGrow<T>(xs: seq<T>, kept: seq<T>, idx: seq<nat>, n: nat)
    requires |xs| > 0 && Picks(xs[..|xs| - 1], kept, idx)
    ensures Picks(xs, kept, idx)
    ensures n < |xs| ==> Picks(xs, kept + [xs[n]], idx + [n])
  {
    assert forall m :: 0 <= m < |idx| ==> xs[..|xs| - 1][idx[m]] == xs[idx[m]];
  }

  /** Sorted mode keeps exactly the elements that start a run, in order. */
  lemma {:induction false} KeepChangesKeepsRunStarts<T, K>(xs: seq<T>, key: T -> K)
    ensures Picks(xs, KeepChanges(xs, key), RunStarts(xs, key))
    decreases |xs|
  {
    if |xs| == 1 {
      assert RunStarts(xs, key) == [0];
    } else if |xs| > 1 {
      var init, last := xs[..|xs| - 1], |xs| - 1;
      KeepChangesKeepsRunStarts(init, key);
      KeepChangesLast(xs, key);
      RunStartsLast(xs, key);
      PicksGrow(xs, KeepChanges(init, key), RunStarts(init, key), last);
    }
  }

  /** On input grouped by key, the sorted fast path gives the default result. */
  lemma {:induction false} SortedModeAgreesWhenGrouped<T, K>(xs: seq<T>, key: T -> K)
    requires Grouped(xs, key)
    ensures KeepChanges(xs, key) == Dedup(xs, key)
    decreases |xs|
  {
    if |xs| == 1 {
      assert xs[..0] == [];
    } else if |xs| > 1 {
      var init, x := xs[..|xs| - 1], xs[|xs| - 1];
      GroupedPrefix(xs, key);
      GroupedLastKey(xs, key);
      SortedModeAgreesWhenGrouped(init, key);
      KeepChangesLast(xs, key);
      DedupLast(xs, key);
    }
  }

  /** Off grouped input the two modes differ: [1, 2, 1] keeps all three
      elements in the sorted mode but only [1, 2] in the default mode. */
  lemma ModesDifferOnUngroupedInput()
    ensures KeepChanges([1, 2, 1], (x: int) => x) == [1, 2, 1]
    ensures Dedup([1, 2, 1], (x: int) => x) == [1, 2]
  {
    var id := (x: int) => x;
    assert [1, 2, 1][..2] == [1, 2];
    assert [1, 2][..1] == [1];
    assert [1][..0] == [];
    assert KeysOf([1, 2], id) == {1, 2};
  }
}
