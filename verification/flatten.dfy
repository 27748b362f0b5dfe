/** `flatten`: nested arrays of any depth collapsed into one flat array. */
module Flatten {
  import opened Transformation

  /** An array element that is either a plain value or a nested array. */
  datatype Nested<T> = Leaf(value: T) | List(items: seq<Nested<T>>)

  /** Number of constructors in a nested value; shrinks as nesting is peeled off. */
  function Size<T>(n: Nested<T>): nat
  {
    match n
    case Leaf(_) => 1
    case List(items) => 1 + SizeAll(items)
  }

  function SizeAll<T>(xs: seq<Nested<T>>): nat
  {
    if xs == [] then 0 else Size(xs[0]) + SizeAll(xs[1..])
  }

  /** `flatten(xs)`: every plain value, depth first, left to right. */
  function Flatten<T>(xs: seq<Nested<T>>): seq<T>
  {
    if xs == [] then [] else FlattenNode(xs[0]) + Flatten(xs[1..])
  }

  function FlattenNode<T>(n: Nested<T>): seq<T>
  {
    match n
    case Leaf(v) => [v]
    case List(items) => Flatten(items)
  }

  lemma {:induction false} SizeAllAppend<T>(a: seq<Nested<T>>, b: seq<Nested<T>>)
    ensures SizeAll(a + b) == SizeAll(a) + SizeAll(b)
    decreases |a|
  {
    if a != [] {
      assert (a + b)[0] == a[0];
      assert (a + b)[1..] == a[1..] + b;
      SizeAllAppend(a[1..], b);
    } else {
      assert a + b == b;
    }
  }

  /** Flattening distributes over concatenation. */
  lemma {:induction false} FlattenAppend<T>(a: seq<Nested<T>>, b: seq<Nested<T>>)
    ensures Flatten(a + b) == Flatten(a) + Flatten(b)
    decreases |a|
  {
    if a != [] {
      assert (a + b)[0] == a[0];
      assert (a + b)[1..] == a[1..] + b;
      FlattenAppend(a[1..], b);
    } else {
      assert a + b == b;
    }
  }

  /** Wrapping each value as a plain element and flattening gives the values
      back: a flat array is its own flattening. */
  lemma {:induction false} FlattenOfLeaves<T>(vs: seq<T>)
    ensures Flatten(Map(vs, (v: T) => Leaf(v))) == vs
    decreases |vs|
  {
    if vs != [] {
      FlattenOfLeaves(vs[1..]);
      assert Map(vs, (v: T) => Leaf(v))[1..] == Map(vs[1..], (v: T) => Leaf(v));
    }
  }

  /** Flattening again changes nothing. */
  lemma FlattenIdempotent<T>(xs: seq<Nested<T>>)
    ensures Flatten(Map(Flatten(xs), (v: T) => Leaf(v))) == Flatten(xs)
  {
    FlattenOfLeaves(Flatten(xs));
  }

  /** `flatten` with an explicit work list: the front element is either
      emitted (a value) or replaced by its items (a nested array). It visits
      the values in the same depth-first, left-to-right order. */
  method FlattenIterative<T>(xs: seq<Nested<T>>) returns (out: seq<T>)
    ensures out == Flatten(xs)
  {
    out := [];
    var todo := xs;
    while todo != []
      invariant out + Flatten(todo) == Flatten(xs)
      decreases SizeAll(todo)
    {
      var head, tail := todo[0], todo[1..];
      assert SizeAll(todo) == Size(head) + SizeAll(tail);
      match head {
        case Leaf(v) =>
          out := out + [v];
          todo := tail;
        case List(items) =>
          FlattenAppend(items, tail);
          SizeAllAppend(items, tail);
          todo := items + tail;
      }
    }
  }
}
