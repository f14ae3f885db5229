/**
  The ordered tree map that DenseOrderedMap stands in for. Built from a range
  of pairs, `std::map` inserts them in order and, as the usual implementations
  do, keeps the first value seen for each key (a later pair with an
  equivalent key is not inserted; the C++ library leaves that choice
  unspecified). Lookup
  on the dense map agrees with lookup on such a map built from the same
  pairs.
 */
module ReferenceMap {
  import opened Entries
  import opened DenseMap

  /** Insert `pairs` one by one into `m`, never overwriting a present key. */
  function InsertAll<V>(m: map<int, V>, pairs: seq<KVPair<V>>): map<int, V>
    decreases |pairs|
  {
    if pairs == [] then m
    else
      var p := pairs[0];
      InsertAll(if p.key in m then m else m[p.key := p.value], pairs[1..])
  }

  /** The tree map built from a range of pairs. */
  function TreeMap<V>(pairs: seq<KVPair<V>>): map<int, V> {
    InsertAll(map[], pairs)
  }

  /** `pairs[j]` is the first pair whose key is `k`. */
  predicate FirstWithKey<V>(pairs: seq<KVPair<V>>, j: int, k: int) {
    0 <= j < |pairs| && pairs[j].key == k && forall i :: 0 <= i < j ==> pairs[i].key != k
  }

  /** The keys of the result are those of `m` and of the pairs; a key already
      in `m` keeps its value, and any other key gets the value of its first
      pair. */
  lemma {:induction false} InsertAllContents<V>(m: map<int, V>, pairs: seq<KVPair<V>>, k: int)
    ensures k in InsertAll(m, pairs) <==> k in m || exists j :: 0 <= j < |pairs| && pairs[j].key == k
    ensures k in m ==> InsertAll(m, pairs)[k] == m[k]
    ensures k !in m ==> forall j :: FirstWithKey(pairs, j, k) ==> InsertAll(m, pairs)[k] == pairs[j].value
    decreases |pairs|
  {
    if pairs != [] {
      var p := pairs[0];
      var m' := if p.key in m then m else m[p.key := p.value];
      InsertAllContents(m', pairs[1..], k);
      assert forall j :: 0 < j < |pairs| ==> pairs[j] == pairs[1..][j - 1];
      if k in InsertAll(m, pairs) && k !in m {
        if p.key != k {
          var j :| 0 <= j < |pairs[1..]| && pairs[1..][j].key == k;
          assert pairs[j + 1].key == k;
        }
      }
      if k !in m && p.key != k {
        forall j | FirstWithKey(pairs, j, k)
          ensures InsertAll(m, pairs)[k] == pairs[j].value
        {
          assert j > 0;
          assert forall i :: 0 <= i < j - 1 ==> pairs[1..][i].key != k by {
            forall i | 0 <= i < j - 1 ensures pairs[1..][i].key != k {
              assert pairs[1..][i] == pairs[i + 1];
            }
          }
        }
      }
    }
  }

  /** Pairs with pairwise distinct keys, as in the test's input. */
  predicate DistinctKeys<V>(pairs: seq<KVPair<V>>) {
    forall i, j :: 0 <= i < j < |pairs| ==> pairs[i].key != pairs[j].key
  }

  /** Dense lookup on any sorted permutation of `pairs` finds `key` exactly
      when the tree map built from `pairs` holds it; when the input keys are
      distinct, the entry found carries the tree map's value. */
  lemma LookupAgreesWithTreeMap<V>(pairs: seq<KVPair<V>>, storage: seq<KVPair<V>>, key: int)
    requires Sorted(storage)
    requires multiset(storage) == multiset(pairs)
    ensures Lookup(storage, key) < |storage| <==> key in TreeMap(pairs)
    ensures DistinctKeys(pairs) && Lookup(storage, key) < |storage| ==>
      storage[Lookup(storage, key)].value == TreeMap(pairs)[key]
  {
    LookupCorrect(storage, key);
    InsertAllContents(map[], pairs, key);
    SamePairs(storage, pairs);
    var it := Lookup(storage, key);
    if it < |storage| {
      assert storage[it] in pairs;
    } else {
      forall j | 0 <= j < |pairs|
        ensures pairs[j].key != key
      {
        assert pairs[j] in storage;
      }
    }
    if DistinctKeys(pairs) && it < |storage| {
      var j :| 0 <= j < |pairs| && pairs[j] == storage[it];
    }
  }

  /** The pairs of the test's correctness section. */
  function TestPairs(): seq<KVPair<int>> {
    [KVPair(1, 1), KVPair(2, 2), KVPair(3, 3), KVPair(4, 4)]
  }

  /** The tree map the test builds from those pairs. */
  lemma TestTreeMap()
    ensures TreeMap(TestPairs()) == map[1 := 1, 2 := 2, 3 := 3, 4 := 4]
    ensures DistinctKeys(TestPairs())
  {
    var p := TestPairs();
    assert InsertAll(map[], p) == InsertAll(map[1 := 1], p[1..]);
    assert InsertAll(map[1 := 1], p[1..]) == InsertAll(map[1 := 1, 2 := 2], p[2..]);
    assert InsertAll(map[1 := 1, 2 := 2], p[2..]) == InsertAll(map[1 := 1, 2 := 2, 3 := 3], p[3..]);
    assert InsertAll(map[1 := 1, 2 := 2, 3 := 3], p[3..]) == InsertAll(map[1 := 1, 2 := 2, 3 := 3, 4 := 4], p[4..]);
  }

  /** The correctness section of the test: for every key from -10 up to 9 the
      dense map built from `TestPairs()` finds the key exactly when the tree
      map does, that is for 1 to 4, with the tree map's value. */
  lemma CorrectnessExample(storage: seq<KVPair<int>>)
    requires Sorted(storage)
    requires multiset(storage) == multiset(TestPairs())
    ensures forall key :: -10 <= key < 10 ==>
      (Lookup(storage, key) < |storage| <==> key in TreeMap(TestPairs())) &&
      (Lookup(storage, key) < |storage| <==> 1 <= key <= 4) &&
      (Lookup(storage, key) < |storage| ==> storage[Lookup(storage, key)].value == TreeMap(TestPairs())[key] == key)
  {
    TestTreeMap();
    forall key | -10 <= key < 10
      ensures Lookup(storage, key) < |storage| <==> key in TreeMap(TestPairs())
      ensures Lookup(storage, key) < |storage| ==> storage[Lookup(storage, key)].value == TreeMap(TestPairs())[key]
    {
      LookupAgreesWithTreeMap(TestPairs(), storage, key);
    }
    var m := TreeMap(TestPairs());
    assert forall key :: key in m <==> 1 <= key <= 4;
    assert forall key :: key in m ==> m[key] == key;
  }
}
