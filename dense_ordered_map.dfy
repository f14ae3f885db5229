/**
  DenseOrderedMap: a build-once associative container kept in one flat,
  key-sorted sequence. Construction copies the input pairs into owned storage
  and sorts it by key; lookup is a lower-bound binary search followed by an
  equivalence check; iteration walks the frozen storage from its first
  position to the end sentinel.
 */
module DenseMap {
  import opened Entries

  /** `std::lower_bound`'s requirement: every entry whose key is less than
      `key` comes before every entry whose key is not. */
  ghost predicate PartitionedBy<V>(s: seq<KVPair<V>>, key: int) {
    forall i, j :: 0 <= i < j < |s| && KeyLess(s[j].key, key) ==> KeyLess(s[i].key, key)
  }

  lemma SortedIsPartitioned<V>(s: seq<KVPair<V>>, key: int)
    requires Sorted(s)
    ensures PartitionedBy(s, key)
  {
  }

  /** The position of the first entry whose key is not less than `key`, found
      by walking from the front; `|s|` when there is none. */
  ghost function FirstNotLess<V>(s: seq<KVPair<V>>, key: int): nat
  {
    if s == [] || !KeyLess(s[0].key, key) then 0 else 1 + FirstNotLess(s[1..], key)
  }

  /** `FirstNotLess` is the lower bound: nothing before it is not-less, and the
      entry at it is not less than `key`. */
  lemma {:induction false} FirstNotLessIsLowerBound<V>(s: seq<KVPair<V>>, key: int)
    ensures FirstNotLess(s, key) <= |s|
    ensures forall j :: 0 <= j < FirstNotLess(s, key) ==> KeyLess(s[j].key, key)
    ensures FirstNotLess(s, key) < |s| ==> !KeyLess(s[FirstNotLess(s, key)].key, key)
  {
    if s != [] && KeyLess(s[0].key, key) {
      FirstNotLessIsLowerBound(s[1..], key);
      forall j | 0 < j < FirstNotLess(s, key)
        ensures KeyLess(s[j].key, key)
      {
        assert s[j] == s[1..][j - 1];
      }
    }
  }

  /** Any position with only less-than keys before it and a not-less key (or
      the end) at it is `FirstNotLess`. */
  lemma {:induction false} FirstNotLessUnique<V>(s: seq<KVPair<V>>, key: int, i: nat)
    requires i <= |s|
    requires forall j :: 0 <= j < i ==> KeyLess(s[j].key, key)
    requires i < |s| ==> !KeyLess(s[i].key, key)
    ensures FirstNotLess(s, key) == i
  {
    if i > 0 {
      forall j | 0 <= j < i - 1
        ensures KeyLess(s[1..][j].key, key)
      {
        assert s[1..][j] == s[j + 1];
      }
      FirstNotLessUnique(s[1..], key, i - 1);
    }
  }

  /** What `find` answers, as a function of the stored sequence: the lower
      bound when the entry there has a key equivalent to `key`, and the end
      sentinel `|s|` otherwise. */
  ghost function Lookup<V>(s: seq<KVPair<V>>, key: int): nat
  {
    var lb := FirstNotLess(s, key);
    if lb >= |s| || KeyLess(key, s[lb].key) then |s| else lb
  }

  /** On sorted storage, lookup reports the end sentinel exactly when no
      entry's key is equivalent to `key`; otherwise it reports the first such
      entry in sorted order. */
  lemma LookupCorrect<V>(s: seq<KVPair<V>>, key: int)
    requires Sorted(s)
    ensures Lookup(s, key) <= |s|
    ensures Lookup(s, key) == |s| <==> forall j :: 0 <= j < |s| ==> !KeyEquiv(s[j].key, key)
    ensures Lookup(s, key) < |s| ==> KeyEquiv(s[Lookup(s, key)].key, key)
    ensures Lookup(s, key) < |s| ==> forall j :: 0 <= j < Lookup(s, key) ==> KeyLess(s[j].key, key)
  {
    FirstNotLessIsLowerBound(s, key);
    var lb := FirstNotLess(s, key);
    if lb < |s| && KeyLess(key, s[lb].key) {
      forall j | 0 <= j < |s|
        ensures !KeyEquiv(s[j].key, key)
      {
        if j > lb {
          assert !KeyLess(s[j].key, s[lb].key);
        }
      }
    }
  }

  /** Lookup depends only on the key at each position. */
  lemma LookupByKeys<V>(s: seq<KVPair<V>>, t: seq<KVPair<V>>, key: int)
    requires SameKeys(s, t)
    ensures Lookup(s, key) == Lookup(t, key)
  {
    FirstNotLessIsLowerBound(s, key);
    FirstNotLessUnique(t, key, FirstNotLess(s, key));
  }

  /** Every correct sort of one input gives the same lookup answer, whatever
      order it leaves equal keys in. */
  lemma SortsAgree<V>(s: seq<KVPair<V>>, t: seq<KVPair<V>>, key: int)
    requires Sorted(s) && Sorted(t)
    requires multiset(s) == multiset(t)
    ensures Lookup(s, key) == Lookup(t, key)
  {
    SortedPermutationKeys(s, t);
    LookupByKeys(s, t, key);
  }

  /** `std::lower_bound` on the whole sequence: halve the candidate range
      `[first, first + count)` with one comparison per step. */
  method LowerBound<V>(s: seq<KVPair<V>>, key: int) returns (it: nat)
    requires PartitionedBy(s, key)
    ensures it <= |s|
    ensures forall j :: 0 <= j < it ==> KeyLess(s[j].key, key)
    ensures forall j :: it <= j < |s| ==> !KeyLess(s[j].key, key)
    ensures it == FirstNotLess(s, key)
  {
    var first: nat, count: nat := 0, |s|;
    while count > 0
      invariant first + count <= |s|
      invariant forall j :: 0 <= j < first ==> KeyLess(s[j].key, key)
      invariant forall j :: first + count <= j < |s| ==> !KeyLess(s[j].key, key)
      decreases count
    {
      var step := count / 2;
      var mid := first + step;
      if KeyLess(s[mid].key, key) {
        first := mid + 1;
        count := count - (step + 1);
      } else {
        count := step;
      }
    }
    it := first;
    FirstNotLessUnique(s, key, it);
  }

  /** Exchange two neighbouring entries of the storage. */
  method SwapAdjacent<V>(a: array<KVPair<V>>, j: nat)
    requires 0 < j < a.Length
    modifies a
    ensures a[j - 1] == old(a[j]) && a[j] == old(a[j - 1])
    ensures forall m :: 0 <= m < a.Length && m != j - 1 && m != j ==> a[m] == old(a[m])
    ensures multiset(a[..]) == multiset(old(a[..]))
  {
    a[j - 1], a[j] := a[j], a[j - 1];
  }

  /** `SortStorage`: sort the owned storage in place by key alone. Any correct
      sort will do, because `std::sort` promises no order among equal keys. */
  method SortStorage<V>(a: array<KVPair<V>>)
    modifies a
    ensures Sorted(a[..])
    ensures multiset(a[..]) == multiset(old(a[..]))
  {
    var i := 0;
    while i < a.Length
      invariant 0 <= i <= a.Length
      invariant forall k, l :: 0 <= k < l < i ==> !KeyLess(a[l].key, a[k].key)
      invariant multiset(a[..]) == multiset(old(a[..]))
    {
      var j := i;
      while j > 0 && KeyLess(a[j].key, a[j - 1].key)
        invariant 0 <= j <= i
        invariant forall k, l :: 0 <= k < l <= i && k != j && l != j ==> !KeyLess(a[l].key, a[k].key)
        invariant forall k, l :: 0 <= k < j < l <= i ==> !KeyLess(a[l].key, a[k].key)
        invariant forall l :: j < l <= i ==> !KeyLess(a[l].key, a[j].key)
        invariant multiset(a[..]) == multiset(old(a[..]))
      {
        SwapAdjacent(a, j);
        j := j - 1;
      }
      i := i + 1;
    }
  }

  /** `SortedVec`, both overloads: copy the pairs into freshly owned storage,
      then sort that storage. The result holds exactly the input pairs, each
      unchanged, duplicates included, in key order. */
  method SortedVec<V>(vec: seq<KVPair<V>>) returns (r: seq<KVPair<V>>)
    ensures Sorted(r)
    ensures multiset(r) == multiset(vec)
    ensures |r| == |vec|
    ensures forall e :: e in r <==> e in vec
  {
    var storage := new KVPair<V>[|vec|](i requires 0 <= i < |vec| => vec[i]);
    assert storage[..] == vec;
    SortStorage(storage);
    r := storage[..];
    SamePairs(r, vec);
  }

  /** The container. `storage` is the `const m_vec` member: it is set once by
      the constructor and cannot be changed afterwards, so every query below
      reads the same frozen sequence. */
  class DenseOrderedMap<V> {
    const storage: seq<KVPair<V>>
    /** The pairs the map was built from, kept for specification only. */
    ghost const input: seq<KVPair<V>>

    /** The invariant every constructed map keeps: the storage is the input
        sorted by key. */
    ghost predicate Valid() {
      Sorted(storage) && multiset(storage) == multiset(input)
    }

    /** Build from any finite sequence of pairs (empty and duplicate keys
        included); the one path that all three constructor overloads share. */
    constructor (pairs: seq<KVPair<V>>)
      ensures Valid()
      ensures input == pairs
    {
      var sorted := SortedVec(pairs);
      storage := sorted;
      input := pairs;
    }

    /** `cbegin`: the first position of the iteration range. */
    function CBegin(): (it: nat)
      ensures it <= CEnd()
      ensures it == CEnd() <==> storage == []
    {
      0
    }

    /** `cend`: the end sentinel, one past the last stored entry. */
    function CEnd(): nat
    {
      |storage|
    }

    /** A traversal from `CBegin()` to `CEnd()` visits as many entries as the
        map was built from, in non-decreasing key order, each one an unchanged
        input pair. */
    lemma Iteration()
      requires Valid()
      ensures CEnd() - CBegin() == |input|
      ensures forall i, j :: CBegin() <= i < j < CEnd() ==> !KeyLess(storage[j].key, storage[i].key)
      ensures forall i :: CBegin() <= i < CEnd() ==> storage[i] in input
    {
      SamePairs(storage, input);
    }

    /** `find`: the lower bound, unless it is the end or its key is greater
        than `key`, in which case the end sentinel. */
    method Find(key: int) returns (it: nat)
      requires Valid()
      ensures it <= CEnd()
      ensures it == CEnd() <==> forall j :: 0 <= j < |storage| ==> !KeyEquiv(storage[j].key, key)
      ensures it < CEnd() ==> KeyEquiv(storage[it].key, key)
      ensures it < CEnd() ==> forall j :: 0 <= j < it ==> KeyLess(storage[j].key, key)
      ensures it == Lookup(storage, key)
    {
      var end := CEnd();
      SortedIsPartitioned(storage, key);
      it := LowerBound(storage, key);
      if it == end || KeyLess(key, storage[it].key) {
        it := end;
      }
      LookupCorrect(storage, key);
    }
  }
}
