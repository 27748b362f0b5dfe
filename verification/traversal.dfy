/** Traversal: `first`, `last`, `each` over arrays and objects, and `indexOf`. */
module Traversal {
  import opened Wrappers
  import opened Folds

  /** The key handed to an iteratee: an array index or an object property name. */
  datatype Key = Index(index: nat) | Name(name: string)

  /** No two properties share a name. */
  predicate DistinctNames<V>(o: seq<(string, V)>)
  {
    forall i, j :: 0 <= i < j < |o| ==> o[i].0 != o[j].0
  }

  /** An object's own enumerable properties, in the order the object enumerates
      them; as in any object, no name occurs twice. */
  type Entries<V> = o: seq<(string, V)> | DistinctNames(o) witness []

  /** What `each` accepts. An array may carry extra named properties (arrays are
      objects in the source language); an object is its list of own properties.
      An object is never taken for an array, whatever keys it has. */
  datatype Collection<V> =
    | Array(items: seq<V>, props: Entries<V>)
    | Object(entries: Entries<V>)

  /** Number of iteratee calls `each` makes on `c`. */
  function Size<V>(c: Collection<V>): nat
  {
    match c
    case Array(items, _) => |items|
    case Object(entries) => |entries|
  }

  /** The (value, key) pairs an iteratee must see, in order: every array index
      ascending, or every own property in the order the object enumerates them. */
  function Visits<V>(c: Collection<V>): (vs: seq<(V, Key)>)
    ensures |vs| == Size(c)
  {
    match c
    case Array(items, _) => seq(|items|, i requires 0 <= i < |items| => (items[i], Index(i)))
    case Object(entries) => seq(|entries|, i requires 0 <= i < |entries| => (entries[i].1, Name(entries[i].0)))
  }

  /** Value of the named property, or `None` when the object has no such property. */
  function Get<V>(o: seq<(string, V)>, name: string): (r: Option<V>)
    ensures r.None? <==> forall i :: 0 <= i < |o| ==> o[i].0 != name
    ensures r.Some? ==> exists i :: 0 <= i < |o| && o[i] == (name, r.value) && forall j :: 0 <= j < i ==> o[j].0 != name
  {
    if o == [] then None
    else if o[0].0 == name then Some(o[0].1)
    else
      var r := Get(o[1..], name);
      assert forall i :: 1 <= i < |o| ==> o[i] == o[1..][i - 1];
      r
  }

  /** On an object, looking up any of its names gives the value stored under it. */
  lemma GetStored<V>(o: Entries<V>)
    ensures forall i :: 0 <= i < |o| ==> Get(o, o[i].0) == Some(o[i].1)
  {
    forall i | 0 <= i < |o|
      ensures Get(o, o[i].0) == Some(o[i].1)
    {
      var r := Get(o, o[i].0);
      var k :| 0 <= k < |o| && o[k] == (o[i].0, r.value) && forall j :: 0 <= j < k ==> o[j].0 != o[i].0;
      assert k == i;
    }
  }

  // ---------------------------------------------------------------- first, last

  /** A count argument of `first`/`last` clamped to the collection: a count of
      zero or less takes nothing, one past the end takes everything. */
  function Clamp(n: int, len: nat): (k: nat)
    ensures k <= len
    ensures n <= 0 ==> k == 0
    ensures 0 <= n <= len ==> k == n
    ensures n >= len ==> k == len
  {
    if n <= 0 then 0 else if n >= len then len else n
  }

  /** `first(xs)`: the first element, `undefined` for an empty array. */
  function First<T>(xs: seq<T>): (r: Option<T>)
    ensures r.None? <==> xs == []
    ensures r.Some? ==> r.value == xs[0]
  {
    if xs == [] then None else Some(xs[0])
  }

  /** `first(xs, n)`: the prefix of `xs` holding min(n, |xs|) elements. */
  function FirstN<T>(xs: seq<T>, n: int): (r: seq<T>)
    ensures |r| == Clamp(n, |xs|)
    ensures r == xs[..|r|]
  {
    if n <= 0 then [] else if n >= |xs| then xs else xs[..n]
  }

  /** `last(xs)`: the last element, `undefined` for an empty array. */
  function Last<T>(xs: seq<T>): (r: Option<T>)
    ensures r.None? <==> xs == []
    ensures r.Some? ==> r.value == xs[|xs| - 1]
  {
    if xs == [] then None else Some(xs[|xs| - 1])
  }

  /** `last(xs, n)`: the suffix of `xs` holding min(n, |xs|) elements. */
  function LastN<T>(xs: seq<T>, n: int): (r: seq<T>)
    ensures |r| == Clamp(n, |xs|)
    ensures r == xs[|xs| - |r|..]
  {
    if n <= 0 then [] else if n >= |xs| then xs else xs[|xs| - n..]
  }

  /** A prefix and the complementary suffix put back together give the array. */
  lemma FirstLastSplit<T>(xs: seq<T>, k: int)
    requires 0 <= k <= |xs|
    ensures FirstN(xs, k) + LastN(xs, |xs| - k) == xs
  {
  }

  /** `first(xs)` is the single element of `first(xs, 1)`, and likewise for `last`. */
  lemma FirstLastSingle<T>(xs: seq<T>)
    ensures First(xs).Some? <==> FirstN(xs, 1) != []
    ensures First(xs).Some? ==> FirstN(xs, 1) == [First(xs).value]
    ensures Last(xs).Some? ==> LastN(xs, 1) == [Last(xs).value]
  {
  }

  // ------------------------------------------------------------------------ each

  /** `each(c, iteratee)`. The iteratee's side effects are a state `s` threaded
      through the calls; `each` itself returns nothing beyond that state. */
  function Each<V, S>(c: Collection<V>, f: (S, V, Key, Collection<V>) -> S, s: S): S
  {
    EachFrom(c, f, s, 0)
  }

  function EachFrom<V, S>(c: Collection<V>, f: (S, V, Key, Collection<V>) -> S, s: S, i: nat): S
    decreases Size(c) - i
  {
    if i >= Size(c) then s
    else
      var s' := match c
        case Array(items, _) => f(s, items[i], Index(i), c)
        case Object(entries) => f(s, entries[i].1, Name(entries[i].0), c);
      EachFrom(c, f, s', i + 1)
  }

  /** The iteratee seen as a step over (value, key) pairs of the fixed collection `c`. */
  function Step<V, S>(f: (S, V, Key, Collection<V>) -> S, c: Collection<V>): (S, (V, Key)) -> S
  {
    (s: S, vk: (V, Key)) => f(s, vk.0, vk.1, c)
  }

  lemma {:induction false} EachFromFold<V, S>(c: Collection<V>, f: (S, V, Key, Collection<V>) -> S, s: S, i: nat)
    requires i <= Size(c)
    ensures EachFrom(c, f, FoldLeft(Step(f, c), s, Visits(c)[..i]), i) == FoldLeft(Step(f, c), s, Visits(c))
    decreases Size(c) - i
  {
    var vs := Visits(c);
    if i == Size(c) {
      assert vs[..i] == vs;
    } else {
      FoldLeftStep(Step(f, c), s, vs, i);
      EachFromFold(c, f, s, i + 1);
    }
  }

  /** `each` makes exactly one iteratee call per visit, in visit order, each call
      seeing the effects of the ones before it: array indices 0..length-1
      ascending (extra named properties of an array are never visited), or an
      object's own properties in the order the object enumerates them. */
  lemma EachIsFoldOverVisits<V, S>(c: Collection<V>, f: (S, V, Key, Collection<V>) -> S, s: S)
    ensures Each(c, f, s) == FoldLeft(Step(f, c), s, Visits(c))
  {
    EachFromFold(c, f, s, 0);
    assert Visits(c)[..0] == [];
  }

  /** An iteratee that records every call it receives. */
  function Record<V>(log: seq<(V, Key, Collection<V>)>, v: V, k: Key, c: Collection<V>): seq<(V, Key, Collection<V>)>
  {
    log + [(v, k, c)]
  }

  lemma {:induction false} RecordFold<V>(c: Collection<V>, vs: seq<(V, Key)>)
    ensures var log := FoldLeft(Step(Record, c), [], vs);
      |log| == |vs| && forall i :: 0 <= i < |vs| ==> log[i] == (vs[i].0, vs[i].1, c)
    decreases |vs|
  {
    if vs != [] {
      var init := vs[..|vs| - 1];
      RecordFold(c, init);
      var prev := FoldLeft(Step(Record, c), [], init);
      var last := vs[|vs| - 1];
      assert FoldLeft(Step(Record, c), [], vs) == prev + [(last.0, last.1, c)];
      forall i | 0 <= i < |init|
        ensures init[i] == vs[i]
      {
      }
    }
  }

  /** The calls `each` makes, as a recording iteratee sees them: for an array,
      call i receives (items[i], i, the array) and nothing else is visited; for
      an object, call i receives (value, key, the object) of its i-th own
      property, even when one of the keys is `length`. */
  lemma EachCalls<V>(c: Collection<V>)
    ensures var log := Each(c, Record, []);
      && |log| == Size(c)
      && (c.Array? ==> forall i :: 0 <= i < |log| ==> log[i] == (c.items[i], Index(i), c))
      && (c.Object? ==> forall i :: 0 <= i < |log| ==> log[i] == (c.entries[i].1, Name(c.entries[i].0), c))
  {
    EachIsFoldOverVisits(c, Record, []);
    RecordFold(c, Visits(c));
  }

  // --------------------------------------------------------------------- indexOf

  /** `indexOf(xs, target)` by linear scan: the first position holding `target`
      (strict equality), or -1 when there is none. */
  method IndexOf<T(==)>(xs: seq<T>, target: T) returns (r: int)
    ensures r == -1 <==> target !in xs
    ensures r != -1 ==> 0 <= r < |xs| && xs[r] == target && target !in xs[..r]
  {
    var i := 0;
    while i < |xs|
      invariant 0 <= i <= |xs|
      invariant target !in xs[..i]
    {
      if xs[i] == target {
        return i;
      }
      i := i + 1;
    }
    assert xs[..i] == xs;
    return -1;
  }
}
