/**
  The entries a DenseOrderedMap stores and the one ordering relation that both
  sorting and lookup use. Keys are integers with their usual order; values are
  an opaque payload that is copied but never compared.
 */
module Entries {

  /** A stored (key, value) pair: `KVPair` in dense_ordered_map.hpp. */
  datatype KVPair<V> = KVPair(key: int, value: V)

  /** The only comparison on keys the container ever performs. */
  predicate KeyLess(a: int, b: int) {
    a < b
  }

  /** Key equivalence built from `KeyLess` alone. */
  predicate KeyEquiv(a: int, b: int) {
    !KeyLess(a, b) && !KeyLess(b, a)
  }

  /** No later entry has a key less than an earlier one. */
  ghost predicate Sorted<V>(s: seq<KVPair<V>>) {
    forall i, j :: 0 <= i < j < |s| ==> !KeyLess(s[j].key, s[i].key)
  }

  /** Sortedness stated on neighbours only, as a sort's postcondition is usually written. */
  ghost predicate AdjacentSorted<V>(s: seq<KVPair<V>>) {
    forall i :: 0 <= i < |s| - 1 ==> !KeyLess(s[i + 1].key, s[i].key)
  }

  /** The two forms of sortedness agree. */
  lemma {:induction false} AdjacentSortedIffSorted<V>(s: seq<KVPair<V>>)
    ensures AdjacentSorted(s) <==> Sorted(s)
  {
    if AdjacentSorted(s) && |s| > 1 {
      AdjacentSortedIffSorted(s[1..]);
      assert AdjacentSorted(s[1..]) by {
        forall i | 0 <= i < |s[1..]| - 1
          ensures !KeyLess(s[1..][i + 1].key, s[1..][i].key)
        {
          assert s[1..][i] == s[i + 1] && s[1..][i + 1] == s[i + 2];
        }
      }
      forall i, j | 0 <= i < j < |s|
        ensures !KeyLess(s[j].key, s[i].key)
      {
        if i > 0 {
          assert s[1..][i - 1] == s[i] && s[1..][j - 1] == s[j];
        } else if j > 1 {
          assert s[1..][0] == s[1] && s[1..][j - 1] == s[j];
        }
      }
    }
  }

  /** Two sequences of entries with the same key at every position. */
  ghost predicate SameKeys<V>(s: seq<KVPair<V>>, t: seq<KVPair<V>>) {
    |s| == |t| && forall i :: 0 <= i < |s| ==> s[i].key == t[i].key
  }

  /** An entry is in a sequence exactly when it is in its multiset: a sorted
      permutation holds only unchanged input pairs, and all of them. */
  lemma SamePairs<V>(s: seq<KVPair<V>>, t: seq<KVPair<V>>)
    requires multiset(s) == multiset(t)
    ensures |s| == |t|
    ensures forall e :: e in s <==> e in t
  {
    assert |multiset(s)| == |multiset(t)|;
    forall e ensures e in s <==> e in t {
      assert e in s <==> e in multiset(s);
      assert e in t <==> e in multiset(t);
    }
  }

  /** Singling out one element of a sequence splits off one copy from its
      multiset. */
  lemma MultisetRemove<T>(a: seq<T>, x: T, b: seq<T>)
    ensures multiset(a + b) == multiset(a + [x] + b) - multiset{x}
  {
    assert multiset(a + [x] + b) == multiset(a) + multiset{x} + multiset(b);
    assert multiset(a + b) == multiset(a) + multiset(b);
  }

  /** Dropping the head of a sequence drops one copy of it from its multiset. */
  lemma MultisetRemoveHead<T>(s: seq<T>)
    requires s != []
    ensures multiset(s[1..]) == multiset(s) - multiset{s[0]}
  {
    assert s == [s[0]] + s[1..];
  }

  /** Dropping one entry of a sorted sequence leaves it sorted. */
  lemma SortedRemove<V>(t: seq<KVPair<V>>, k: nat)
    requires Sorted(t) && k < |t|
    ensures Sorted(t[..k] + t[k + 1..])
  {
    var t' := t[..k] + t[k + 1..];
    forall i, j | 0 <= i < j < |t'|
      ensures !KeyLess(t'[j].key, t'[i].key)
    {
      var i0 := if i < k then i else i + 1;
      var j0 := if j < k then j else j + 1;
      assert t'[i] == t[i0] && t'[j] == t[j0];
    }
  }

  /** Two sorted permutations of one another start with the same key. */
  lemma SortedHeadsAgree<V>(s: seq<KVPair<V>>, t: seq<KVPair<V>>)
    requires Sorted(s) && Sorted(t) && s != []
    requires multiset(s) == multiset(t)
    ensures t != [] && s[0].key == t[0].key
  {
    assert s[0] in multiset(t);
    var k :| 0 <= k < |t| && t[k] == s[0];
    assert t[0] in multiset(s);
    var p :| 0 <= p < |s| && s[p] == t[0];
  }

  /** Removing the head of `s` from a permutation `t` of it, where it sits at
      position `k`, leaves a permutation of the tail. */
  lemma PermutationRemove<V>(s: seq<KVPair<V>>, t: seq<KVPair<V>>, k: nat)
    requires multiset(s) == multiset(t) && s != [] && k < |t| && t[k] == s[0]
    ensures multiset(s[1..]) == multiset(t[..k] + t[k + 1..])
  {
    var x, a, b := s[0], t[..k], t[k + 1..];
    assert t == a + [x] + b;
    MultisetRemove(a, x, b);
    MultisetRemoveHead(s);
  }

  /** The tail of a sorted sequence is sorted. */
  lemma SortedTail<V>(s: seq<KVPair<V>>)
    requires Sorted(s) && s != []
    ensures Sorted(s[1..])
  {
    forall i, j | 0 <= i < j < |s[1..]|
      ensures !KeyLess(s[1..][j].key, s[1..][i].key)
    {
      assert s[1..][i] == s[i + 1] && s[1..][j] == s[j + 1];
    }
  }

  /** In a sorted sequence whose entry at `k` has the first key, every entry
      up to `k` has that key; so the entry at `k` can move to the front without
      changing the key at any position. */
  lemma MoveToFrontKeys<V>(t: seq<KVPair<V>>, k: nat)
    requires Sorted(t) && k < |t| && t[k].key == t[0].key
    ensures SameKeys(t, [t[k]] + (t[..k] + t[k + 1..]))
  {
    var t' := [t[k]] + (t[..k] + t[k + 1..]);
    forall i | 0 <= i < |t|
      ensures t[i].key == t'[i].key
    {
      if 0 < i <= k {
        assert t'[i] == t[i - 1];
        assert !KeyLess(t[i - 1].key, t[0].key) && !KeyLess(t[k].key, t[i - 1].key);
      } else if i > k {
        assert t'[i] == t[i];
      }
    }
  }

  /** Any two sorted permutations of one input have the same key at every
      position, whatever order an unstable sort leaves equal keys in. */
  lemma {:induction false} SortedPermutationKeys<V>(s: seq<KVPair<V>>, t: seq<KVPair<V>>)
    requires Sorted(s) && Sorted(t)
    requires multiset(s) == multiset(t)
    ensures SameKeys(s, t)
    decreases |s|
  {
    if s == [] {
      assert |t| == |multiset(t)| == 0;
    } else {
      SortedHeadsAgree(s, t);
      assert s[0] in multiset(t);
      var k :| 0 <= k < |t| && t[k] == s[0];
      var rest := t[..k] + t[k + 1..];
      PermutationRemove(s, t, k);
      SortedRemove(t, k);
      SortedTail(s);
      SortedPermutationKeys(s[1..], rest);
      MoveToFrontKeys(t, k);
      forall i | 0 <= i < |s|
        ensures s[i].key == t[i].key
      {
        if i > 0 {
          assert s[i] == s[1..][i - 1] && ([t[k]] + rest)[i] == rest[i - 1];
        }
      }
    }
  }
}
