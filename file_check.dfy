/** The file comparison tool: a chained hash set of strings with a fixed
    number of buckets, filled with the lines of two files, and a two-way scan
    that decides whether the two sets hold the same lines. */
module FileCheck {

  /** The number of buckets of both tables. */
  const TableSize: nat := 100

  /** 2^32: the FNV-1a sum is an unsigned 32-bit value. */
  const Modulus32: nat := 0x1_0000_0000

  /** Pairwise different strings. */
  predicate NoDuplicates(s: seq<string>) {
    forall a, b :: 0 <= a < b < |s| ==> s[a] != s[b]
  }

  class HashTable {
    const buckets: array<seq<string>>
    const size: int
    /** The 32-bit FNV-1a sum of a key's bytes; the hash function itself is
        not part of this model, only its values are used. */
    const fnv32a: string -> nat

    /** hash: the FNV-1a sum, taken modulo the bucket count. */
    function Hash(key: string): (i: nat)
      requires size >= 1
      reads this
      ensures i < size
    {
      (fnv32a(key) % Modulus32) % size
    }

    /** Every key sits in the bucket of its hash, at most once. */
    ghost predicate Valid()
      reads this, buckets
    {
      && size >= 1
      && buckets.Length == size
      && (forall i, j :: 0 <= i < buckets.Length && 0 <= j < |buckets[i]| ==> Hash(buckets[i][j]) == i)
      && (forall i :: 0 <= i < buckets.Length ==> NoDuplicates(buckets[i]))
    }

    /** The keys of the set. */
    ghost function Elements(): set<string>
      reads this, buckets
    {
      set i, k | 0 <= i < buckets.Length && k in buckets[i] :: k
    }

    /** NewHashTable: `size` empty buckets. */
    constructor (size: nat, fnv32a: string -> nat)
      ensures this.size == size && this.fnv32a == fnv32a
      ensures fresh(buckets) && buckets.Length == size
      ensures forall i :: 0 <= i < size ==> buckets[i] == []
      ensures Elements() == {}
      ensures size >= 1 ==> Valid()
    {
      this.size := size;
      this.fnv32a := fnv32a;
      buckets := new seq<string>[size](_ => []);
    }

    /** A key of the set is found in the bucket of its hash. */
    lemma ElementInOwnBucket(key: string)
      requires Valid()
      ensures key in Elements() <==> key in buckets[Hash(key)]
    {
      if key in Elements() {
        var i :| 0 <= i < buckets.Length && key in buckets[i];
        var j :| 0 <= j < |buckets[i]| && buckets[i][j] == key;
        assert Hash(buckets[i][j]) == i;
      }
    }

    /** Adds the key to the bucket of its hash unless it is already there. */
    method Add(key: string)
      requires Valid()
      modifies buckets
      ensures Valid()
      ensures Elements() == old(Elements()) + {key}
      ensures buckets[Hash(key)] ==
        if key in old(buckets[Hash(key)]) then old(buckets[Hash(key)]) else old(buckets[Hash(key)]) + [key]
      ensures forall i :: 0 <= i < buckets.Length && i != Hash(key) ==> buckets[i] == old(buckets[i])
    {
      var index := Hash(key);
      var bucket := buckets[index];
      for j := 0 to |bucket|
        invariant key !in bucket[..j]
      {
        if bucket[j] == key {
          assert key in buckets[index];
          return;
        }
      }
      assert bucket[..|bucket|] == bucket;
      buckets[index] := bucket + [key];
      assert Elements() == old(Elements()) + {key} by {
        forall k | k in Elements() ensures k in old(Elements()) + {key} {
          var i :| 0 <= i < buckets.Length && k in buckets[i];
          if i != index || k != key {
            if i == index {
              assert k in old(buckets[index]);
            }
          }
        }
        assert key in buckets[index];
        forall k | k in old(Elements()) ensures k in Elements() {
          var i :| 0 <= i < buckets.Length && k in old(buckets[i]);
          assert k in buckets[i];
        }
      }
    }

    /** Looks for the key in the bucket of its hash. */
    method Contains(key: string) returns (found: bool)
      requires Valid()
      ensures found <==> key in Elements()
    {
      ElementInOwnBucket(key);
      var bucket := buckets[Hash(key)];
      for j := 0 to |bucket|
        invariant key !in bucket[..j]
      {
        if bucket[j] == key {
          return true;
        }
      }
      assert bucket[..|bucket|] == bucket;
      return false;
    }
  }

  /** The two-way scan: every key of the first table must be in the second,
      then every key of the second in the first; the sets are the same
      exactly when no key is missing. */
  method SameKeys(first: HashTable, second: HashTable) returns (same: bool)
    requires first.Valid() && second.Valid()
    requires first.size == TableSize && second.size == TableSize
    ensures same <==> first.Elements() == second.Elements()
  {
    var forward := Included(first, second);
    if !forward {
      return false;
    }
    var backward := Included(second, first);
    assert first.Elements() == second.Elements() <==> second.Elements() <= first.Elements();
    return backward;
  }

  /** One direction of the scan: visits every bucket of `from` in order and
      stops at the first key `into` does not contain. */
  method Included(from: HashTable, into: HashTable) returns (all: bool)
    requires from.Valid() && into.Valid() && from.size == TableSize
    ensures all <==> from.Elements() <= into.Elements()
  {
    for i := 0 to TableSize
      invariant forall a, k :: 0 <= a < i && k in from.buckets[a] ==> k in into.Elements()
    {
      var bucket := from.buckets[i];
      for j := 0 to |bucket|
        invariant forall a, k :: 0 <= a < i && k in from.buckets[a] ==> k in into.Elements()
        invariant forall k :: k in bucket[..j] ==> k in into.Elements()
      {
        var present := into.Contains(bucket[j]);
        if !present {
          assert bucket[j] in from.buckets[i];
          return false;
        }
      }
      assert bucket[..|bucket|] == bucket;
    }
    forall k | k in from.Elements() ensures k in into.Elements() {
      var a :| 0 <= a < from.buckets.Length && k in from.buckets[a];
    }
    return true;
  }
}
