/** `sortBy`: a stable sort by a computed key, with undefined keys last. */
module Sorting {
  import opened Wrappers
  import opened Seqs
  import opened Transformation

  /** The order on sort keys: defined keys ascending, and every undefined key
      after every defined one. Two undefined keys count as equal. */
  predicate KeyLe(a: Option<int>, b: Option<int>)
  {
    b.None? || (a.Some? && a.value <= b.value)
  }

  /** Keys never decrease along `xs`. */
  ghost predicate SortedBy<T>(xs: seq<T>, key: T -> Option<int>)
  {
    forall i, j :: 0 <= i < j < |xs| ==> KeyLe(key(xs[i]), key(xs[j]))
  }

  /** Elements whose key is `k`. */
  function HasKey<T>(key: T -> Option<int>, k: Option<int>): T -> bool
  {
    x => key(x) == k
  }

  /** Elements whose key is defined. */
  function IsDefined<T>(key: T -> Option<int>): T -> bool
  {
    x => key(x).Some?
  }

  /** Puts `x` in front of the first element whose key is not below its own. */
  function Insert<T>(x: T, s: seq<T>, key: T -> Option<int>): (r: seq<T>)
    ensures multiset(r) == multiset(s) + multiset{x}
  {
    if s == [] || KeyLe(key(x), key(s[0])) then [x] + s
    else
      assert s == [s[0]] + s[1..];
      [s[0]] + Insert(x, s[1..], key)
  }

  /** Inserting into a sorted sequence keeps it sorted. */
  lemma {:induction false} InsertSorted<T>(x: T, s: seq<T>, key: T -> Option<int>)
    requires SortedBy(s, key)
    ensures SortedBy(Insert(x, s, key), key)
    decreases |s|
  {
    if s != [] && !KeyLe(key(x), key(s[0])) {
      var rest := Insert(x, s[1..], key);
      InsertSorted(x, s[1..], key);
      forall j | 0 <= j < |rest|
        ensures KeyLe(key(s[0]), key(rest[j]))
      {
        assert rest[j] in multiset(rest);
        if rest[j] != x {
          assert rest[j] in multiset(s[1..]);
          var t :| 0 <= t < |s[1..]| && s[1..][t] == rest[j];
          assert s[t + 1] == rest[j];
        }
      }
      assert Insert(x, s, key) == [s[0]] + rest;
    }
  }

  /** `sortBy(xs, key)`: a permutation of `xs` whose keys never decrease. */
  function SortBy<T>(xs: seq<T>, key: T -> Option<int>): (r: seq<T>)
    ensures multiset(r) == multiset(xs)
    ensures SortedBy(r, key)
  {
    if xs == [] then []
    else
      assert xs == [xs[0]] + xs[1..];
      var rest := SortBy(xs[1..], key);
      InsertSorted(xs[0], rest, key);
      Insert(xs[0], rest, key)
  }

  /** Unfolding `filter` on a sequence with a known first element. */
  lemma FilterCons<T>(x: T, rest: seq<T>, p: T -> bool)
    ensures Filter([x] + rest, p) == if p(x) then [x] + Filter(rest, p) else Filter(rest, p)
  {
    assert ([x] + rest)[1..] == rest;
  }

  lemma {:induction false} InsertStable<T>(x: T, s: seq<T>, key: T -> Option<int>, k: Option<int>)
    ensures Filter(Insert(x, s, key), HasKey(key, k))
         == if key(x) == k then [x] + Filter(s, HasKey(key, k)) else Filter(s, HasKey(key, k))
    decreases |s|
  {
    var p := HasKey(key, k);
    if s == [] || KeyLe(key(x), key(s[0])) {
      assert ([x] + s)[1..] == s;
    } else {
      var rest := Insert(x, s[1..], key);
      InsertStable(x, s[1..], key, k);
      assert ([s[0]] + rest)[1..] == rest;
      assert key(s[0]) != key(x);
    }
  }

  /** Stability: the elements sharing any one key come out in the order they
      went in. */
  lemma {:induction false} SortByStable<T>(xs: seq<T>, key: T -> Option<int>, k: Option<int>)
    ensures Filter(SortBy(xs, key), HasKey(key, k)) == Filter(xs, HasKey(key, k))
    decreases |xs|
  {
    if xs != [] {
      SortByStable(xs[1..], key, k);
      InsertStable(xs[0], SortBy(xs[1..], key), key, k);
    }
  }

  /** Input whose keys already never decrease comes back unchanged. */
  lemma {:induction false} SortByKeepsSortedInput<T>(xs: seq<T>, key: T -> Option<int>)
    requires SortedBy(xs, key)
    ensures SortBy(xs, key) == xs
    decreases |xs|
  {
    if xs != [] {
      assert SortedBy(xs[1..], key);
      SortByKeepsSortedInput(xs[1..], key);
      assert xs == [xs[0]] + xs[1..];
    }
  }

  /** A defined key is inserted among the defined keys, ahead of every undefined one. */
  lemma {:induction false} InsertDefined<T>(x: T, a: seq<T>, u: seq<T>, key: T -> Option<int>)
    requires key(x).Some?
    requires forall i :: 0 <= i < |u| ==> key(u[i]).None?
    ensures Insert(x, a + u, key) == Insert(x, a, key) + u
    decreases |a|
  {
    if a == [] {
      assert a + u == u;
    } else {
      assert (a + u)[0] == a[0];
      assert (a + u)[1..] == a[1..] + u;
      if !KeyLe(key(x), key(a[0])) {
        InsertDefined(x, a[1..], u, key);
        assert Insert(x, a + u, key) == [a[0]] + Insert(x, a[1..] + u, key);
      }
    }
  }

  /** An undefined key is inserted after every defined key and before the other undefined ones. */
  lemma {:induction false} InsertUndefined<T>(x: T, a: seq<T>, u: seq<T>, key: T -> Option<int>)
    requires key(x).None?
    requires forall i :: 0 <= i < |a| ==> key(a[i]).Some?
    requires forall i :: 0 <= i < |u| ==> key(u[i]).None?
    ensures Insert(x, a + u, key) == a + ([x] + u)
    decreases |a|
  {
    if a == [] {
      assert a + u == u;
    } else {
      assert (a + u)[0] == a[0];
      assert (a + u)[1..] == a[1..] + u;
      InsertUndefined(x, a[1..], u, key);
      assert Insert(x, a + u, key) == [a[0]] + Insert(x, a[1..] + u, key);
    }
  }

  /** Sorting keeps the set of keys: a sort of elements with defined keys has only defined keys. */
  lemma SortByDefinedKeys<T>(xs: seq<T>, key: T -> Option<int>)
    requires forall i :: 0 <= i < |xs| ==> key(xs[i]).Some?
    ensures forall i :: 0 <= i < |SortBy(xs, key)| ==> key(SortBy(xs, key)[i]).Some?
  {
    var r := SortBy(xs, key);
    forall i | 0 <= i < |r|
      ensures key(r[i]).Some?
    {
      assert r[i] in multiset(xs);
    }
  }

  lemma UndefinedLastDefinedStep<T>(x: T, rest: seq<T>, key: T -> Option<int>)
    requires key(x).Some?
    requires SortBy(rest, key) == SortBy(Filter(rest, IsDefined(key)), key) + Filter(rest, HasKey(key, None))
    ensures SortBy([x] + rest, key) == SortBy(Filter([x] + rest, IsDefined(key)), key) + Filter([x] + rest, HasKey(key, None))
  {
    var defined, undefined := Filter(rest, IsDefined(key)), Filter(rest, HasKey(key, None));
    var a := SortBy(defined, key);
    FilterCons(x, rest, IsDefined(key));
    FilterCons(x, rest, HasKey(key, None));
    assert ([x] + rest)[1..] == rest;
    assert ([x] + defined)[1..] == defined;
    assert forall i :: 0 <= i < |undefined| ==> HasKey(key, None)(undefined[i]);
    InsertDefined(x, a, undefined, key);
  }

  lemma UndefinedLastUndefinedStep<T>(x: T, rest: seq<T>, key: T -> Option<int>)
    requires key(x).None?
    requires SortBy(rest, key) == SortBy(Filter(rest, IsDefined(key)), key) + Filter(rest, HasKey(key, None))
    ensures SortBy([x] + rest, key) == SortBy(Filter([x] + rest, IsDefined(key)), key) + Filter([x] + rest, HasKey(key, None))
  {
    var defined, undefined := Filter(rest, IsDefined(key)), Filter(rest, HasKey(key, None));
    var a := SortBy(defined, key);
    FilterCons(x, rest, IsDefined(key));
    FilterCons(x, rest, HasKey(key, None));
    assert ([x] + rest)[1..] == rest;
    assert forall i :: 0 <= i < |undefined| ==> HasKey(key, None)(undefined[i]);
    assert forall i :: 0 <= i < |defined| ==> IsDefined(key)(defined[i]);
    assert forall i :: 0 <= i < |defined| ==> key(defined[i]).Some?;
    SortByDefinedKeys(defined, key);
    assert !IsDefined(key)(x) && HasKey(key, None)(x);
    assert Filter([x] + rest, IsDefined(key)) == defined;
    assert Filter([x] + rest, HasKey(key, None)) == [x] + undefined;
    assert SortBy([x] + rest, key) == Insert(x, a + undefined, key);
    InsertUndefined(x, a, undefined, key);
  }

  /** Undefined keys go last: the result is the sorted elements with defined
      keys followed by the elements with undefined keys in their input order. */
  lemma {:induction false} SortByUndefinedLast<T>(xs: seq<T>, key: T -> Option<int>)
    ensures SortBy(xs, key) == SortBy(Filter(xs, IsDefined(key)), key) + Filter(xs, HasKey(key, None))
    decreases |xs|
  {
    if xs != [] {
      assert xs == [xs[0]] + xs[1..];
      SortByUndefinedLast(xs[1..], key);
      if key(xs[0]).Some? {
        UndefinedLastDefinedStep(xs[0], xs[1..], key);
      } else {
        UndefinedLastUndefinedStep(xs[0], xs[1..], key);
      }
    }
  }
}
