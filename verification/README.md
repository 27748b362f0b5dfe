# underbar in Dafny

A Dafny model of underbar, a small underscore-style collection library. It
covers the library's pure sequence operations: `identity`, `first`/`last`,
`each` over arrays and objects, `indexOf`, `filter`/`reject`, `map`/`pluck`,
`reduce` with an optional seed, `uniq` (default and pre-sorted modes), `invoke`,
`sortBy`, `flatten`, `zip`, `intersection` and `difference`. The library's
implementation file is not part of this model. Its behaviour is fixed by its
test suites `test/part1.js` and `test/advanced.js`, and every contract below
cites the tests it states.

Modelling choices:

- JavaScript `undefined` is `Wrappers.Option`'s `None`.
  - A missing `reduce` seed is `None`, so a seed of `0` still counts as a seed.
  - `zip` pads with `None`.
  - `pluck` yields `None` for an object that has no own property of that name.
- An object is a sequence of (name, value) pairs with distinct names, in the
  order the object enumerates them (`Traversal.Entries`). An array is `Traversal.Collection.Array`. Its items
  are there, and so are any extra named properties it carries.
- `each` returns nothing. What its iteratee does is modelled as a state that
  is threaded through the calls (`Traversal.Each`). `map` and `reduce` are
  proved equal to the `each`-based programs that build them.
- Iteratees given by property or method name are key functions.
  - `sortBy` keys are `Option<int>`: `None` means undefined.
  - `invoke` gets a lookup that maps an item and a method name to the
    method, if there is one.
- Nested arrays for `flatten` are the recursive datatype `Flatten.Nested`.
- `Cases` restates the tests' concrete examples as lemmas and methods over
  the model.

| file | module | contents |
|---|---|---|
| wrappers.dfy | Wrappers | `Option`, `Result` |
| seqs.dfy | Seqs | order-preserving sub-sequences |
| folds.dfy | Folds | left fold |
| traversal.dfy | Traversal | `first`, `last`, `each`, `indexOf` |
| transformation.dfy | Transformation | `identity`, `map`, `filter`, `reject`, `pluck` |
| reduction.dfy | Reduction | `reduce` |
| uniq.dfy | Uniq | `uniq` in both modes |
| dispatch.dfy | Dispatch | `invoke` |
| sorting.dfy | Sorting | `sortBy` (insertion sort, stable) |
| flatten.dfy | Flatten | `flatten` |
| zip.dfy | Zip | `zip` |
| set_ops.dfy | SetOps | `intersection`, `difference` |
| cases.dfy | Cases | the tests' concrete examples |

## Model

| member | source | states |
|---|---|---|
| Transformation.Identity | test/part1.js:11-17 | `identity(x)` is `x` itself, whatever its type |
| Traversal.First | test/part1.js:25-27 | `first(xs)` is `undefined` exactly when `xs` is empty, and otherwise it is `xs[0]` |
| Traversal.FirstN | test/part1.js:29-39 | `first(xs, n)` is the prefix of `xs` whose length is `n` clamped to `0..|xs|`: `0` gives `[]`, and more than `|xs|` gives all of `xs` |
| Traversal.Last | test/part1.js:47-49 | `last(xs)` is `undefined` exactly when `xs` is empty, and otherwise it is the final element |
| Traversal.LastN | test/part1.js:51-61 | `last(xs, n)` is the suffix of `xs` whose length is `n` clamped to `0..|xs|` |
| Traversal.FirstLastSplit | test/part1.js:29-61 | for `0 <= k <= |xs|`, `first(xs, k)` followed by `last(xs, |xs|-k)` is `xs` itself |
| Traversal.FirstLastSingle | test/part1.js:25-53 | `first(xs)` and `last(xs)` are the single elements of `first(xs, 1)` and `last(xs, 1)` |
| Traversal.Get | test/part1.js:419-426 | a property lookup is `undefined` exactly when no entry has that name, and otherwise it is the value of the first entry with that name |
| Traversal.GetStored | test/part1.js:419-426 | on an object, whose names are distinct, looking up any of its names gives the value stored under that name |
| Traversal.Each | test/part1.js:108-215 | the definition of `each`: it calls the iteratee on each visited (value, key) pair, threading the iteratee's state from call to call; its behaviour is stated by `EachIsFoldOverVisits` and `EachCalls` |
| Traversal.EachIsFoldOverVisits | test/part1.js:108-200 | `each` runs the iteratee once per visited (value, key) pair, in order, threading its effects from one call to the next |
| Traversal.EachCalls | test/part1.js:108-215 | on an array, call `i` receives `(items[i], i, array)` and named non-index properties are never visited; on an object, call `i` receives the `i`-th own property's `(value, key, object)`, even when a key is `length` |
| Traversal.IndexOf | test/part1.js:224-246 | the result is `-1` exactly when the target is absent; otherwise it is an index holding the target with no earlier occurrence |
| Transformation.Map | test/part1.js:395-399 | `map` keeps the length, and element `i` is `f(xs[i])` |
| Transformation.MapIdentity | test/part1.js:401-406 | mapping with `identity` gives back the input's contents |
| Transformation.MapViaEach | test/part1.js:395-399 | `map` is the `each` loop that pushes `f(item)` for every item; the array's extra named properties are ignored |
| Transformation.Filter | test/part1.js:255-267 | `filter` is an order-preserving sub-sequence of the input, and every element in it satisfies the predicate |
| Transformation.FilterCounts | test/part1.js:255-267 | each element that satisfies the predicate is kept as often as it occurs in the input; every other element is dropped |
| Transformation.FilterMembers | test/part1.js:255-267 | a value is in `filter(xs, p)` if and only if it is in `xs` and satisfies `p` |
| Transformation.FilterPrecedes | test/part1.js:255-267 | `filter` keeps relative order: if `b` passes the predicate and some `a` comes before every `b` in the result, the same holds in the input |
| Transformation.Reject | test/part1.js:284-296 | `reject` is an order-preserving sub-sequence of the input, and every element in it fails the predicate |
| Transformation.FilterRejectPartition | test/part1.js:255-296 | `filter` and `reject` split the input: their contents add up to the input's multiset, and their lengths add up to its length |
| Transformation.Pluck | test/part1.js:419-426 | `pluck` gives one result per object: `undefined` exactly when that object lacks the property, and otherwise a value stored under that name |
| Reduction.Reduce | test/part1.js:488-551 | with a seed, the result is the left fold from the seed over every item, and a falsy seed such as `0` is honoured; without a seed it is `undefined` exactly on `[]`, and otherwise the fold over `xs[1..]` from `xs[0]`; whatever the iterator returns becomes the next accumulator |
| Uniq.Dedup | test/part1.js:339-343 | default-mode `uniq` is an order-preserving sub-sequence of the input with pairwise distinct keys and the same set of keys as the input |
| Uniq.DedupKeepsFirstOccurrences | test/part1.js:339-343 | every element kept by default-mode `uniq` is the first input element with its key, and the kept elements appear in the order in which their keys are first seen |
| Uniq.UniqUnsorted | test/part1.js:339-343 | the seen-set loop computes default-mode `uniq` |
| Uniq.KeepChanges | test/part1.js:345-350 | sorted-mode `uniq` is a sub-sequence of the input that starts with the first element and ends with the last element's key, with no two adjacent kept keys equal; it is empty exactly on empty input |
| Uniq.RunStartsSpec | test/part1.js:345-350 | the run starts of an input are positions of the input listed in strictly increasing order, and a position is listed exactly when it is 0 or its key differs from the key just before it |
| Uniq.KeepChangesKeepsRunStarts | test/part1.js:345-350 | sorted-mode `uniq` keeps exactly the elements at the run starts, in order: its `m`-th element is the input element at the `m`-th run start |
| Uniq.UniqSorted | test/part1.js:345-350 | the loop that compares each element with the last element kept computes sorted-mode `uniq`, the same as comparing it with the element just before it |
| Uniq.Uniq | test/part1.js:339-350 | `uniq(xs, isSorted, key)` dispatches to the sorted or the default mode, and either way the result is a sub-sequence of the input |
| Uniq.SortedModeAgreesWhenGrouped | test/part1.js:339-350 | on input whose equal keys are adjacent, sorted mode and default mode give the same result |
| Uniq.ModesDifferOnUngroupedInput | test/part1.js:345-350 | on `[1, 2, 1]` sorted mode keeps `[1, 2, 1]` and default mode keeps `[1, 2]`, so the sorted flag changes the result |
| Dispatch.Invoke | test/advanced.js:11-32 | `invoke` succeeds exactly when every item resolves the target to a callable; it then gives one result per item, each the target called with that item as receiver; otherwise it fails at the first unresolvable item, naming the method |
| Dispatch.MethodNameActsAsFunction | test/advanced.js:11-32 | naming a method that every item resolves to `m` gives the same results as passing `m` itself |
| Sorting.SortBy | test/advanced.js:43-58 | `sortBy` returns a permutation of its input whose keys never decrease, with every undefined key counted as the largest |
| Sorting.SortByStable | test/advanced.js:60-88 | for every key value, the elements with that key appear in `sortBy`'s result in their input order |
| Sorting.SortByKeepsSortedInput | test/advanced.js:67-88 | input that is already ordered by key comes back unchanged |
| Sorting.SortByUndefinedLast | test/advanced.js:53-58 | `sortBy` is the sorted defined-key elements followed by the undefined-key elements in their input order |
| Flatten.Flatten | test/advanced.js:96-100 | the definition of `flatten`: every plain value, depth first, left to right; its behaviour is stated by `FlattenAppend`, `FlattenOfLeaves` and `FlattenIterative` |
| Flatten.FlattenAppend | test/advanced.js:96-100 | flattening a concatenation concatenates the flattened parts |
| Flatten.FlattenOfLeaves | test/advanced.js:96-100 | an array with no nesting flattens to its own values |
| Flatten.FlattenIdempotent | test/advanced.js:96-100 | turning `flatten`'s result back into an array of leaves and flattening it again gives the same result; that the result holds no nested lists is carried by its type, a sequence of plain values |
| Flatten.FlattenIterative | test/advanced.js:96-100 | the work-list loop gives the depth-first, left-to-right leaves of the recursive definition |
| Zip.MaxLength | test/advanced.js:108-118 | the length of the longest input, or 0 when there are no inputs |
| Zip.Zip | test/advanced.js:108-118 | `zip` has one row per index below the longest input's length, and every row has one entry per input; entry `j` of row `i` is `sj[i]` when `i < |sj|` and `undefined` otherwise |
| SetOps.DedupByValueOrder | test/part1.js:339-343 | `uniq` by value keeps the values in the order of their first occurrence: for kept values `a` before `b`, the first `a` in the input comes before every `b` |
| SetOps.Intersection | test/advanced.js:126-131 | `intersection` is an order-preserving sub-sequence of the first array with no repeats, listed in the order of their first occurrence there; it holds exactly the values of the first array that occur in every other array |
| SetOps.Difference | test/advanced.js:140-150 | `difference` is an order-preserving sub-sequence of the first array; it keeps, with every repeat, exactly the values found in none of the other arrays |
| Cases.IdentityExamples | test/part1.js:11-17 | `identity` gives back `1`, `'string'`, `false` and an object unchanged |
| Cases.FirstExamples | test/part1.js:25-39 | `first([1,2,3])` is 1; with counts 2, 0 and 5 the results are `[1,2]`, `[]` and `[1,2,3]` |
| Cases.LastExamples | test/part1.js:47-61 | `last([1,2,3])` is 3; with counts 2, 0 and 5 the results are `[2,3]`, `[]` and `[1,2,3]` |
| Cases.EachArrayExample | test/part1.js:134-159 | `each` over `['a','b','c']` with an extra `someProperty` makes exactly the three index calls |
| Cases.EachObjectExample | test/part1.js:202-215 | `each` over the dresser object `{length: 39, width: 79, height: 127}` makes the three property calls in order |
| Cases.IndexOfExamples | test/part1.js:224-246 | the four `indexOf` examples give 3, 1, -1 and 1 |
| Cases.FilterEvensExample | test/part1.js:255-260 | filtering `[1..6]` for evens gives `[2,4,6]` |
| Cases.RejectEvensExample | test/part1.js:284-289 | rejecting evens from `[1..6]` gives `[1,3,5]` |
| Cases.FilterOddsExample | test/part1.js:262-267 | filtering `[1..6]` for odds gives `[1,3,5]` |
| Cases.RejectOddsExample | test/part1.js:291-296 | rejecting odds from `[1..6]` gives `[2,4,6]` |
| Cases.MapExample | test/part1.js:395-399 | doubling `[1,2,3]` gives `[2,4,6]` |
| Cases.PluckExample | test/part1.js:419-426 | plucking `name` from moe and curly gives `['moe','curly']` |
| Cases.ReduceSeededExample | test/part1.js:527-531 | `reduce([1,2,3], memo - item, 10)` is 4 |
| Cases.ReduceFalsySeedExample | test/part1.js:533-538 | `reduce([1,2,3], memo * item, 0)` is 0 |
| Cases.ReduceUnseededExamples | test/part1.js:540-551 | without a seed, `reduce([1,2,3], memo => memo)` is 1 and `reduce([3,2,1], memo - item)` is 0 |
| Cases.UniqSortedExample | test/part1.js:345-350 | sorted-mode `uniq` of `[1,2,2,3,4,4]` with the key `value === 1` is `[1,2]` |
| Cases.SortByAgeExample | test/advanced.js:43-51 | sorting curly (50) and moe (30) by age and plucking `name` gives `['moe','curly']` |
| Cases.FlattenExample | test/advanced.js:96-100 | `[1,[2],[3,[[[4]]]]]` flattens to `[1,2,3,4]` |
| Cases.ZipExample | test/advanced.js:108-118 | zipping names, ages and `[true]` gives the three padded rows |
| Cases.IntersectionExample | test/advanced.js:126-131 | the intersection of the stooges and the leaders is `['moe']` |
| Cases.DifferenceOfTwoExample | test/advanced.js:140-144 | `[1,2,3]` minus `[2,30,40]` is `[1,3]` |
| Cases.DifferenceOfThreeExample | test/advanced.js:146-150 | `[1,2,3,4]` minus `[2,30,40]` and `[1,11,111]` is `[3,4]` |
| Cases.InvokeExamples | test/advanced.js:11-32 | invoking a reversing function on `['dog','cat']` gives `['god','tac']`, and invoking `toUpperCase` by name gives `['DOG','CAT']` |

## Left out

- `throttle` (test/advanced.js:154-175): its behaviour depends on timers and a fake clock, so it is scheduling rather than a computation on sequences.
- The `checkForNativeMethods` guards that wrap each suite detect delegation to built-in methods. They test how the library is written, not what it computes.
- The "brand new array" checks (for example test/part1.js:269-275) compare references. Dafny sequences are values without identity.
- The non-mutation checks (for example test/part1.js:78-106) hold by construction, because every input is an immutable `seq`.
- The "should be a function" checks (test/part1.js:69-71, 449-451) and the "should not return anything" check for `each` are facts about the JavaScript runtime. `Each` returns only the iteratee's threaded state.
- Dynamic `this` binding in `invoke`: the receiver is passed as the first argument. `String.prototype` methods are stood in for by the lookup parameter, with the string helpers in `Cases`.
- Transformation.Map: `map` iteratees receive only the element, not its index or the collection. `each` does pass (value, key, collection).
- Transformation.Filter: `filter` iteratees receive only the element, not its index or the collection.
- Transformation.Reject: `reject` iteratees receive only the element, as for `filter`.
- Traversal.Entries: JavaScript enumerates integer-like property names first, in ascending numeric order, and the other names after them in insertion order, so `Object.keys({b: 1, 1: 2})` is `["1", "b"]`. The model takes an object's enumeration order as given and does not derive it from insertion order.
- Sorting.SortBy: sort keys are `Option<int>`. Keys of other types, and the `sortBy(list, 'length')` property-name shorthand, are modelled by a key function that returns an integer.
- Traversal.Get: only an object's own properties are looked up. JavaScript's `item[name]` also finds properties inherited through the prototype chain, so `pluck([{name: 'moe'}], 'toString')` gives the inherited `toString` function, where `Transformation.Pluck` gives `None`.
- Traversal.FirstN: a negative count gives `[]`, as does a count of zero. The tests do not exercise negative counts.
- Traversal.LastN: a negative count gives `[]`, as for `FirstN`.
- Strict equality (`===`) is Dafny equality, which compares values. JavaScript's `===` compares objects and arrays by reference, and the model does not keep reference identity: two objects with the same properties are one value. So in the model `uniq` keeps one of two equal-looking objects, `indexOf` finds an equal-looking object, and `intersection` and `difference` match such objects, where the library would treat them as distinct. `Cases.IdentityExamples` shows that `identity` returns an equal value, not that it returns the same reference. `NaN`, which is not equal to itself, is not modelled.
- SetOps.Intersection: the model chooses a result that is de-duplicated, in first-occurrence order, and taken against any number of other arrays. The only test (test/advanced.js:126-131) uses two arrays without repeats, so it does not decide how repeats or a third array are treated.
- Reduction.Reduce: the iterator has type `(T, T) -> T`, so the accumulator and the items share one type. `T` stands for any JavaScript value, so this does not exclude an accumulator of another kind than the items; a Dafny caller with two distinct types would use a sum type for `T`.
- Reduction.Reduce: the test whose iterator counts its calls in a mutable variable (test/part1.js:512-525) is not stated as a concrete case. The contract covers it: the iterator's return value, whatever it is, becomes the next accumulator.
- The default-mode `uniq` case `[1, 2, 1, 3, 1, 4]` (test/part1.js:339-343) is not restated as a concrete lemma: evaluating `Dedup` on that literal costs the verifier too much. `Uniq.Dedup` and `Uniq.DedupKeepsFirstOccurrences` together fix its result: the first element with each key, in the order the keys first appear.
- The `sortBy` cases for undefined keys, lengths and stability (test/advanced.js:53-88) are not restated as concrete lemmas. The general lemmas in Sorting state the properties those cases exercise: `SortByUndefinedLast`, `SortByStable` and `SortByKeepsSortedInput`.
