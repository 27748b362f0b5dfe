/** The library's documented examples, stated over the model. */
module Cases {
  import opened Wrappers
  import opened Folds
  import opened Traversal
  import opened Transformation
  import opened Reduction
  import opened Uniq
  import opened Sorting
  import opened Flatten
  import opened Zip
  import opened SetOps
  import opened Dispatch

  /** A value of the dynamically typed source, as far as the examples need. */
  datatype Value = Num(n: int) | Str(s: string) | Bool(b: bool)

  // ------------------------------------------------------------------ identity

  lemma IdentityExamples()
    ensures Identity(Num(1)) == Num(1)
    ensures Identity(Str("string")) == Str("string")
    ensures Identity(Bool(false)) == Bool(false)
    ensures Identity(Moe()) == Moe()
  {
  }

  // --------------------------------------------------------------- first, last

  lemma FirstExamples()
    ensures First([1, 2, 3]) == Some(1)
    ensures FirstN([1, 2, 3], 2) == [1, 2]
    ensures FirstN([1, 2, 3], 0) == []
    ensures FirstN([1, 2, 3], 5) == [1, 2, 3]
  {
  }

  lemma LastExamples()
    ensures Last([1, 2, 3]) == Some(3)
    ensures LastN([1, 2, 3], 2) == [2, 3]
    ensures LastN([1, 2, 3], 0) == []
    ensures LastN([1, 2, 3], 5) == [1, 2, 3]
  {
  }

  // ---------------------------------------------------------------------- each

  /** An array with an extra named property: only the indexed items are visited. */
  lemma EachArrayExample()
    ensures var letters := Array(["a", "b", "c"], [("someProperty", "Do not iterate over me!")]);
      Each(letters, Record, []) == [("a", Index(0), letters), ("b", Index(1), letters), ("c", Index(2), letters)]
  {
    var letters := Array(["a", "b", "c"], [("someProperty", "Do not iterate over me!")]);
    EachCalls(letters);
  }

  /** An object whose first key is `length` is still walked as an object. */
  lemma EachObjectExample()
    ensures var dresser := Object([("length", 39), ("width", 79), ("height", 127)]);
      Each(dresser, Record, []) == [(39, Name("length"), dresser), (79, Name("width"), dresser), (127, Name("height"), dresser)]
  {
    var dresser := Object([("length", 39), ("width", 79), ("height", 127)]);
    EachCalls(dresser);
  }

  // ------------------------------------------------------------------- indexOf

  method IndexOfExamples() returns (forty: int, twenty: int, missing: int, repeated: int)
    ensures forty == 3 && twenty == 1 && missing == -1 && repeated == 1
  {
    forty := IndexOf([10, 20, 30, 40, 50], 40);
    twenty := IndexOf([10, 20, 30], 20);
    missing := IndexOf([10, 20, 30, 40, 50], 35);
    repeated := IndexOf([1, 40, 40, 40, 40, 40, 40, 40, 50, 60, 70], 40);
    assert [1, 40, 40, 40, 40, 40, 40, 40, 50, 60, 70][1] == 40;
  }

  // ------------------------------------------------------- filter, reject, map

  predicate IsEven(n: int) { n % 2 == 0 }

  predicate IsOdd(n: int) { n % 2 != 0 }

  function Double(n: int): int { n * 2 }

  lemma FilterEvensExample()
    ensures Filter([1, 2, 3, 4, 5, 6], IsEven) == [2, 4, 6]
  {
    assert Filter([6], IsEven) == [6];
    assert Filter([5, 6], IsEven) == [6];
    assert Filter([4, 5, 6], IsEven) == [4, 6];
    assert Filter([3, 4, 5, 6], IsEven) == [4, 6];
    assert Filter([2, 3, 4, 5, 6], IsEven) == [2, 4, 6];
  }

  lemma RejectEvensExample()
    ensures Reject([1, 2, 3, 4, 5, 6], IsEven) == [1, 3, 5]
  {
    var p := Not(IsEven);
    assert p(6) == !IsEven(6) && p(5) == !IsEven(5) && p(4) == !IsEven(4);
    assert p(3) == !IsEven(3) && p(2) == !IsEven(2) && p(1) == !IsEven(1);
    assert Filter([6], p) == [];
    assert Filter([5, 6], p) == [5];
    assert Filter([4, 5, 6], p) == [5];
    assert Filter([3, 4, 5, 6], p) == [3, 5];
    assert Filter([2, 3, 4, 5, 6], p) == [3, 5];
  }

  lemma FilterOddsExample()
    ensures Filter([1, 2, 3, 4, 5, 6], IsOdd) == [1, 3, 5]
  {
    assert Filter([6], IsOdd) == [];
    assert Filter([5, 6], IsOdd) == [5];
    assert Filter([4, 5, 6], IsOdd) == [5];
    assert Filter([3, 4, 5, 6], IsOdd) == [3, 5];
    assert Filter([2, 3, 4, 5, 6], IsOdd) == [3, 5];
  }

  lemma RejectOddsExample()
    ensures Reject([1, 2, 3, 4, 5, 6], IsOdd) == [2, 4, 6]
  {
    var p := Not(IsOdd);
    assert p(6) == !IsOdd(6) && p(5) == !IsOdd(5) && p(4) == !IsOdd(4);
    assert p(3) == !IsOdd(3) && p(2) == !IsOdd(2) && p(1) == !IsOdd(1);
    assert Filter([6], p) == [6];
    assert Filter([5, 6], p) == [6];
    assert Filter([4, 5, 6], p) == [4, 6];
    assert Filter([3, 4, 5, 6], p) == [4, 6];
    assert Filter([2, 3, 4, 5, 6], p) == [2, 4, 6];
  }

  lemma MapExample()
    ensures Map([1, 2, 3], Double) == [2, 4, 6]
  {
  }

  function Moe(): Entries<Value> { [("name", Str("moe")), ("age", Num(30))] }

  function Curly(): Entries<Value> { [("name", Str("curly")), ("age", Num(50))] }

  lemma PluckExample()
    ensures Pluck([Moe(), Curly()], "name") == [Some(Str("moe")), Some(Str("curly"))]
  {
  }

  // -------------------------------------------------------------------- reduce

  function Minus(memo: int, item: int): int { memo - item }

  function Times(memo: int, item: int): int { memo * item }

  function KeepMemo(memo: int, item: int): int { memo }

  lemma ReduceSeededExample()
    ensures Reduce([1, 2, 3], Minus, Some(10)) == Some(4)
  {
    assert [1, 2, 3][..2] == [1, 2] && [1, 2][..1] == [1] && [1][..0] == [];
    assert FoldLeft(Minus, 10, [1]) == 9;
    assert FoldLeft(Minus, 10, [1, 2]) == 7;
  }

  /** A seed of zero is a seed, not a missing one. */
  lemma ReduceFalsySeedExample()
    ensures Reduce([1, 2, 3], Times, Some(0)) == Some(0)
  {
    assert [1, 2, 3][..2] == [1, 2] && [1, 2][..1] == [1] && [1][..0] == [];
    assert FoldLeft(Times, 0, [1]) == 0;
    assert FoldLeft(Times, 0, [1, 2]) == 0;
  }

  lemma ReduceUnseededExamples()
    ensures Reduce([1, 2, 3], KeepMemo, None) == Some(1)
    ensures Reduce([3, 2, 1], Minus, None) == Some(0)
  {
    assert [1, 2, 3][1..] == [2, 3] && [2, 3][..1] == [2] && [2][..0] == [];
    assert FoldLeft(KeepMemo, 1, [2]) == 1;
    assert [3, 2, 1][1..] == [2, 1] && [2, 1][..1] == [2];
    assert FoldLeft(Minus, 3, [2]) == 1;
  }

  // ---------------------------------------------------------------------- uniq

  predicate IsOne(n: int) { n == 1 }

  lemma UniqSortedExample()
    ensures KeepChanges([1, 2, 2, 3, 4, 4], IsOne) == [1, 2]
  {
    var xs := [1, 2, 2, 3, 4, 4];
    forall n | 2 <= n <= |xs|
      ensures KeepChanges(xs[..n], IsOne) == KeepChanges(xs[..n - 1], IsOne)
        + (if IsOne(xs[n - 1]) == IsOne(xs[n - 2]) then [] else [xs[n - 1]])
    {
      assert xs[..n][..n - 1] == xs[..n - 1];
      KeepChangesLast(xs[..n], IsOne);
    }
    assert KeepChanges(xs[..1], IsOne) == [1];
    assert xs[..6] == xs;
  }

  // -------------------------------------------------------------------- sortBy

  /** The `age` property as a sort key; `undefined` unless it is a number. */
  function AgeOf(o: Entries<Value>): Option<int>
  {
    var age := Get(o, "age");
    if age.Some? && age.value.Num? then Some(age.value.n) else None
  }

  lemma SortByAgeExample()
    ensures Pluck(SortBy([Curly(), Moe()], AgeOf), "name") == [Some(Str("moe")), Some(Str("curly"))]
  {
    assert AgeOf(Curly()) == Some(50) && AgeOf(Moe()) == Some(30);
    assert SortBy([Moe()], AgeOf) == [Moe()];
    assert SortBy([Curly(), Moe()], AgeOf) == [Moe(), Curly()];
  }

  // ------------------------------------------------------------------- flatten

  lemma FlattenExample()
    ensures Flatten.Flatten([Leaf(1), List([Leaf(2)]), List([Leaf(3), List([List([List([Leaf(4)])])])])]) == [1, 2, 3, 4]
  {
  }

  // ----------------------------------------------------------------------- zip

  method ZipExample() returns (rows: seq<seq<Option<Value>>>)
    ensures rows == [
      [Some(Str("moe")), Some(Num(30)), Some(Bool(true))],
      [Some(Str("larry")), Some(Num(40)), None],
      [Some(Str("curly")), Some(Num(50)), None]]
  {
    var names := [Str("moe"), Str("larry"), Str("curly")];
    var ages := [Num(30), Num(40), Num(50)];
    var leaders := [Bool(true)];
    var ss := [names, ages, leaders];
    rows := Zip.Zip(ss);
    assert MaxLength(ss) == 3;
    assert rows[0] == [Some(Str("moe")), Some(Num(30)), Some(Bool(true))];
    assert rows[1] == [Some(Str("larry")), Some(Num(40)), None];
    assert rows[2] == [Some(Str("curly")), Some(Num(50)), None];
  }

  // ------------------------------------------------- intersection, difference

  lemma IntersectionExample()
    ensures Intersection(["moe", "curly", "larry"], [["moe", "groucho"]]) == ["moe"]
  {
    var p := FoundInAll([["moe", "groucho"]]);
    assert "moe" in ["moe", "groucho"];
    assert "curly" !in ["moe", "groucho"] && "larry" !in ["moe", "groucho"];
    assert !InAll("curly", [["moe", "groucho"]]) && !InAll("larry", [["moe", "groucho"]]);
    assert p("moe") && !p("curly") && !p("larry");
    assert Filter(["larry"], p) == [];
    assert Filter(["curly", "larry"], p) == [];
    assert Filter(["moe", "curly", "larry"], p) == ["moe"];
    assert Dedup(["moe"], Identity) == ["moe"];
  }

  lemma DifferenceOfTwoExample()
    ensures Difference([1, 2, 3], [[2, 30, 40]]) == [1, 3]
  {
    var p := FoundInNone([[2, 30, 40]]);
    assert 2 in [2, 30, 40];
    assert p(1) && !p(2) && p(3);
    assert Filter([3], p) == [3];
    assert Filter([2, 3], p) == [3];
  }

  lemma DifferenceOfThreeExample()
    ensures Difference([1, 2, 3, 4], [[2, 30, 40], [1, 11, 111]]) == [3, 4]
  {
    var q := FoundInNone([[2, 30, 40], [1, 11, 111]]);
    assert 1 in [1, 11, 111] && 2 in [2, 30, 40];
    assert !q(1) && !q(2) && q(3) && q(4);
    assert Filter([4], q) == [4];
    assert Filter([3, 4], q) == [3, 4];
    assert Filter([2, 3, 4], q) == [3, 4];
  }

  // -------------------------------------------------------------------- invoke

  function Reverse(s: string): (r: string)
  {
    if s == [] then [] else Reverse(s[1..]) + [s[0]]
  }

  function UpperChar(c: char): char
  {
    if 'a' <= c <= 'z' then (c as int - 32) as char else c
  }

  function ToUpperCase(s: string, args: ()): string
  {
    seq(|s|, i requires 0 <= i < |s| => UpperChar(s[i]))
  }

  function ReverseReceiver(s: string, args: ()): string { Reverse(s) }

  /** The string methods the examples look up by name. */
  function StringMethods(s: string, name: string): Option<(string, ()) -> string>
  {
    if name == "toUpperCase" then Some(ToUpperCase) else None
  }

  lemma InvokeExamples()
    ensures Invoke(["dog", "cat"], Func(ReverseReceiver), (), StringMethods) == Success(["god", "tac"])
    ensures Invoke(["dog", "cat"], Method("toUpperCase"), (), StringMethods) == Success(["DOG", "CAT"])
  {
    assert Reverse("g") == "g" && Reverse("og") == "go" && Reverse("dog") == "god";
    assert Reverse("t") == "t" && Reverse("at") == "ta" && Reverse("cat") == "tac";
    assert ToUpperCase("dog", ()) == "DOG" && ToUpperCase("cat", ()) == "CAT";
    var xs := ["dog", "cat"];
    assert ReverseReceiver("dog", ()) == "god" && ReverseReceiver("cat", ()) == "tac";
    var reversed := Invoke(xs, Func(ReverseReceiver), (), StringMethods);
    assert reversed.Success?;
    assert reversed.value == ["god", "tac"];
    assert StringMethods("dog", "toUpperCase") == Some(ToUpperCase);
    assert StringMethods("cat", "toUpperCase") == Some(ToUpperCase);
    var upper := Invoke(xs, Method("toUpperCase"), (), StringMethods);
    assert upper.Success?;
    assert upper.value == ["DOG", "CAT"];
  }
}
