# DenseOrderedMap, modelled in Dafny

`DenseOrderedMap<K, V>` (containers/include/dense_ordered_map.hpp) is a
build-once, read-only associative container. Its constructor copies an
arbitrary sequence of (key, value) pairs into a vector it owns and sorts that
vector by key with `std::sort`. After that the vector (`const m_vec`) never
changes. `find` is a `std::lower_bound` binary search followed by a check
that the key found is not greater than the one asked for. Iteration is
`cbegin`/`cend` over the frozen vector.

The model has three modules:

- `Entries` (entries.dfy): the pair type `KVPair`, the single key comparison
  `KeyLess` and the equivalence `KeyEquiv` built from it, sortedness, and
  facts about sorted permutations.
- `DenseMap` (dense_ordered_map.dfy): the in-place sort `SortStorage` on an
  array, the copy-then-sort `SortedVec`, the lower-bound search `LowerBound`,
  and the class `DenseOrderedMap`. The class keeps its storage in a `const`
  field, so nothing can change it after the constructor. `Find`, `CBegin` and
  `CEnd` change no state. `Find` returns a position, and `CEnd()` (the length
  of the storage) is the end sentinel. The ghost function `Lookup` gives
  `find`'s answer as a function of the stored sequence. `Find` is proved
  equal to it, so repeated calls on one map always give the same answer.
- `ReferenceMap` (reference_map.dfy): the `std::map` the test compares
  against, built by inserting the pairs in order so that, as the usual
  implementations do, the first value for each key wins (the C++ library
  leaves this choice unspecified for equivalent keys within the range). It also holds the lemmas that dense lookup agrees with it.

Keys are `int`; the source's `long` keys are only ever compared, never
computed with, so their width does not matter. Values are a generic type `V`
that is never inspected.

`std::sort` is not stable (hpp:55), so the model does not promise that
`find` reaches the first-inserted of several equal keys; it returns the first
entry with the key in sorted order. `DenseMap.SortsAgree` shows that this
position and its key do not depend on how an unstable sort orders equal keys.
Which of several equal-key values sits there is not promised.

## Model

| member | source | states |
|---|---|---|
| `Entries.AdjacentSortedIffSorted` | containers/include/dense_ordered_map.hpp:52-56 | neighbour-wise sortedness `!(s[i+1].key < s[i].key)` is equivalent to sortedness over every pair of positions |
| `Entries.SamePairs` | containers/include/dense_ordered_map.hpp:58-69 | a permutation has the same length and holds exactly the same pairs, so every stored pair is an unchanged input pair and no input pair is dropped |
| `Entries.SortedPermutationKeys` | containers/include/dense_ordered_map.hpp:52-56 | any two key-sorted permutations of one input have the same key at every position, whatever order the sort leaves equal keys in |
| `DenseMap.FirstNotLessIsLowerBound` | containers/include/dense_ordered_map.hpp:34-37 | the reference lower bound lies within the sequence or at its end; every entry before it has a smaller key, and the entry at it does not |
| `DenseMap.FirstNotLessUnique` | containers/include/dense_ordered_map.hpp:34-37 | the lower bound is the only position with only smaller keys before it and a not-smaller key (or the end) at it |
| `DenseMap.LowerBound` | containers/include/dense_ordered_map.hpp:37 | on a sequence partitioned by `key` (the requirement of `std::lower_bound`), the binary search returns the first position whose key is not less than `key`: all keys before it are less, none from it on are |
| `DenseMap.LookupCorrect` | containers/include/dense_ordered_map.hpp:32-44 | on sorted storage, lookup gives the end sentinel if and only if no entry has a key equivalent to `key`; otherwise the entry found has an equivalent key and every entry before it has a smaller key |
| `DenseMap.LookupByKeys` | containers/include/dense_ordered_map.hpp:32-44 | lookup depends only on the key at each position: two sequences with the same key at every position give the same answer |
| `DenseMap.SortsAgree` | containers/include/dense_ordered_map.hpp:32-56 | any two key-sorted permutations of one input give the same lookup answer for every key, so the unstable sort's choice among equal keys never changes the position `find` returns |
| `DenseMap.SortStorage` | containers/include/dense_ordered_map.hpp:52-56 | sorting in place leaves the array sorted by key and a permutation of what it held |
| `DenseMap.SortedVec` | containers/include/dense_ordered_map.hpp:58-69 | the copied and sorted storage is sorted by key, has the input's length and multiset, and holds exactly the input pairs |
| `DenseMap.DenseOrderedMap.constructor` | containers/include/dense_ordered_map.hpp:16-30 | a map built from any sequence of pairs, empty or with duplicate keys, has sorted storage that is a permutation of that sequence |
| `DenseMap.DenseOrderedMap.CBegin` | containers/include/dense_ordered_map.hpp:46 | the first iteration position is at or before the end, and equals it exactly when the map is empty |
| `DenseMap.DenseOrderedMap.Iteration` | containers/include/dense_ordered_map.hpp:46-48 | iterating from `CBegin()` to `CEnd()` visits as many entries as there were input pairs, in non-decreasing key order, each one an input pair |
| `DenseMap.DenseOrderedMap.Find` | containers/include/dense_ordered_map.hpp:32-44 | returns the end sentinel if and only if no stored key is equivalent to `key`; otherwise the position of an entry with an equivalent key (never a nearest greater one) with only smaller keys before it; the result is the `Lookup` of the frozen storage, changes no state, and is the same on every call |
| `ReferenceMap.InsertAllContents` | containers/src/test_dense_ordered_map.cpp:107 | building a tree map from a range of pairs holds exactly the keys of the pairs, each with the value of its first pair; keys already present keep their values |
| `ReferenceMap.TestTreeMap` | containers/src/test_dense_ordered_map.cpp:103-107 | the tree map built from the test's pairs (1,1), (2,2), (3,3), (4,4) maps exactly the keys 1 to 4, each to itself, and the test's keys are distinct |
| `ReferenceMap.LookupAgreesWithTreeMap` | containers/src/test_dense_ordered_map.cpp:109-122 | on any sorted permutation of the input, dense lookup finds a key exactly when the tree map built from the same input holds it; with distinct input keys, the values agree |
| `ReferenceMap.CorrectnessExample` | containers/src/test_dense_ordered_map.cpp:103-122 | for input (1,1), (2,2), (3,3), (4,4) and every key from -10 to 9, dense lookup finds the key exactly when the tree map does, namely for 1 to 4, with the same value |

## Left out

- The benchmark sections of the test (`BenchSearch`, `BenchSum`, `RandomMap` and the performance sections): wall-clock timing, console output and random generation, with no logic to verify.
- `std::unordered_map`, which the test uses only as a timing baseline.
- The float values and float equality of the correctness test: values are a generic type, and `CorrectnessExample` uses integers.
- The three constructor overloads (initializer list, iterator pair, vector): they share one path through `SortedVec`, so there is a single constructor taking a sequence.
- C++ iterator types: positions are indices, and the end iterator is the index `|storage|`.
- Comparators that are not a strict weak order: keys are integers with their usual order.
- Exceptions and allocation failure while copying the input.
- DenseMap.LowerBound: does not state the logarithmic bound on the number of comparisons that the C++ standard gives for `std::lower_bound`; only its result is specified.
- DenseMap.SortStorage: is an insertion sort, not the introsort behind `std::sort`; only the outcome that `std::sort` promises (sorted, a permutation) is modelled, not its complexity.
- Which of several pairs with equal keys `Find` reaches: `std::sort` is not stable, so only the position and its key are determined, not the input order among duplicates.
