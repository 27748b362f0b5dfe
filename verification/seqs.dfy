/** Order-preserving sub-sequences, the shape shared by filter, reject, uniq,
    intersection and difference results. */
module Seqs {

  /** `a` is obtained from `b` by deleting some elements and keeping the rest in order. */
  ghost predicate IsSubsequence<T>(a: seq<T>, b: seq<T>)
    decreases |b|
  {
    if a == [] then true
    else if b == [] then false
    else (a[0] == b[0] && IsSubsequence(a[1..], b[1..])) || IsSubsequence(a, b[1..])
  }

  /** Some `a` occurs in `xs` before the first `b`: the first occurrence of `a`
      comes earlier than every occurrence of `b`. */
  ghost predicate Precedes<T>(xs: seq<T>, a: T, b: T)
    decreases |xs|
  {
    xs != [] && xs[0] != b && (xs[0] == a || Precedes(xs[1..], a, b))
  }

  /** An `a` at position `i` with no `b` up to it witnesses `Precedes`. */
  lemma {:induction false} PrecedesAt<T>(xs: seq<T>, a: T, b: T, i: nat)
    requires i < |xs| && xs[i] == a
    requires forall j :: 0 <= j <= i ==> xs[j] != b
    ensures Precedes(xs, a, b)
    decreases i
  {
    if i > 0 && xs[0] != a {
      PrecedesAt(xs[1..], a, b, i - 1);
    }
  }

  lemma {:induction false} SubsequenceRefl<T>(a: seq<T>)
    ensures IsSubsequence(a, a)
    decreases |a|
  {
    if a != [] {
      SubsequenceRefl(a[1..]);
    }
  }

  /** Appending to the longer sequence keeps a sub-sequence a sub-sequence. */
  lemma {:induction false} SubsequenceExtend<T>(a: seq<T>, b: seq<T>, x: T)
    requires IsSubsequence(a, b)
    ensures IsSubsequence(a, b + [x])
    decreases |b|
  {
    if a != [] {
      assert b != [];
      assert (b + [x])[0] == b[0];
      assert (b + [x])[1..] == b[1..] + [x];
      if a[0] == b[0] && IsSubsequence(a[1..], b[1..]) {
        SubsequenceExtend(a[1..], b[1..], x);
      } else {
        SubsequenceExtend(a, b[1..], x);
      }
    }
  }

  /** Appending the same element to both sides keeps a sub-sequence a sub-sequence. */
  lemma {:induction false} SubsequenceAppend<T>(a: seq<T>, b: seq<T>, x: T)
    requires IsSubsequence(a, b)
    ensures IsSubsequence(a + [x], b + [x])
    decreases |b|
  {
    if b == [] {
      assert a == [];
      assert IsSubsequence(a + [x], b + [x]) by {
        assert a + [x] == [x] && b + [x] == [x];
        assert [x][1..] == [];
      }
    } else {
      assert (b + [x])[0] == b[0];
      assert (b + [x])[1..] == b[1..] + [x];
      if a == [] {
        SubsequenceAppend(a, b[1..], x);
        assert a + [x] == [x];
      } else {
        assert (a + [x])[0] == a[0];
        assert (a + [x])[1..] == a[1..] + [x];
        if a[0] == b[0] && IsSubsequence(a[1..], b[1..]) {
          SubsequenceAppend(a[1..], b[1..], x);
        } else {
          SubsequenceAppend(a, b[1..], x);
        }
      }
    }
  }

  lemma {:induction false} SubsequenceTransitive<T>(a: seq<T>, b: seq<T>, c: seq<T>)
    requires IsSubsequence(a, b) && IsSubsequence(b, c)
    ensures IsSubsequence(a, c)
    decreases |c|
  {
    if a != [] {
      assert b != [] && c != [];
      if b[0] == c[0] && IsSubsequence(b[1..], c[1..]) {
        if a[0] == b[0] && IsSubsequence(a[1..], b[1..]) {
          SubsequenceTransitive(a[1..], b[1..], c[1..]);
        } else {
          SubsequenceTransitive(a, b[1..], c[1..]);
        }
      } else {
        SubsequenceTransitive(a, b, c[1..]);
      }
    }
  }

  /** Every element of a sub-sequence occurs in the sequence it was taken from. */
  lemma {:induction false} SubsequenceMembers<T>(a: seq<T>, b: seq<T>)
    requires IsSubsequence(a, b)
    ensures forall x :: x in a ==> x in b
    decreases |b|
  {
    if a != [] {
      if a[0] == b[0] && IsSubsequence(a[1..], b[1..]) {
        SubsequenceMembers(a[1..], b[1..]);
        assert a == [a[0]] + a[1..];
        assert b == [b[0]] + b[1..];
      } else {
        SubsequenceMembers(a, b[1..]);
        assert b == [b[0]] + b[1..];
      }
    }
  }
}
