/** The Bloom filter in front of the key-value store. */
module Bloom {
  import opened KeyCodec

  const FILTER_BITS: nat := 1000000
  const HASH_COUNT: nat := 7

  /** The bit that hash function i assigns to a key; the standard hash is arbitrary here. */
  function Slot(hash: Key -> nat, key: Key, i: nat): (s: nat)
    ensures s < FILTER_BITS && s == hash((key + i) % 0x1_0000_0000_0000_0000) % 1000000
  {
    hash((key + i) % U64_LIMIT) % FILTER_BITS
  }

  class BloomFilter {
    const hash: Key -> nat
    const bits: array<bool>

    /** The keys inserted since the last reset. */
    ghost var keys: set<Key>

    /** A bit is set exactly when some inserted key hashes to it. */
    ghost predicate Valid()
      reads this, bits
    {
      && bits.Length == FILTER_BITS
      && forall b :: 0 <= b < FILTER_BITS ==> (bits[b] <==> IsHit(b, keys, HASH_COUNT))
    }

    ghost predicate IsHit(b: nat, ks: set<Key>, n: nat) {
      exists k, i :: k in ks && 0 <= i < n && Slot(hash, k, i) == b
    }

    constructor (hash: Key -> nat)
      ensures Valid() && keys == {} && fresh(bits) && this.hash == hash
    {
      // The source's bit set starts with the bits of the number 100000000 and is cleared before its first use.
      this.hash := hash;
      bits := new bool[FILTER_BITS](_ => false);
      keys := {};
    }

    method Insert(key: Key)
      requires Valid()
      modifies this, bits
      ensures Valid() && keys == old(keys) + {key}
    {
      for i := 0 to HASH_COUNT
        invariant keys == old(keys)
        invariant forall b :: 0 <= b < FILTER_BITS ==>
          (bits[b] <==> IsHit(b, old(keys), HASH_COUNT) || IsHit(b, {key}, i))
      {
        bits[Slot(hash, key, i)] := true;
        assert IsHit(Slot(hash, key, i), {key}, i + 1);
        forall b | 0 <= b < FILTER_BITS
          ensures IsHit(b, {key}, i + 1) <==> IsHit(b, {key}, i) || b == Slot(hash, key, i)
        {
        }
      }
      keys := keys + {key};
      forall b | 0 <= b < FILTER_BITS
        ensures IsHit(b, keys, HASH_COUNT) <==> IsHit(b, old(keys), HASH_COUNT) || IsHit(b, {key}, HASH_COUNT)
      {
      }
    }

    /** Never false for an inserted key; true exactly when all its bits are hit. */
    method PossiblyContains(key: Key) returns (r: bool)
      requires Valid()
      ensures key in keys ==> r
      ensures r <==> forall i :: 0 <= i < 7 ==> IsHit(Slot(hash, key, i), keys, 7)
    {
      for i := 0 to HASH_COUNT
        invariant forall j :: 0 <= j < i ==> IsHit(Slot(hash, key, j), keys, HASH_COUNT)
      {
        if !bits[Slot(hash, key, i)] {
          return false;
        }
      }
      return true;
    }

    method Reset()
      requires Valid()
      modifies this, bits
      ensures Valid() && keys == {}
    {
      forall b | 0 <= b < FILTER_BITS {
        bits[b] := false;
      }
      keys := {};
    }
  }
}
