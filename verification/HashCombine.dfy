/**
 Combined hashes of pairs, and the comparison of pairs in any order
 (flt/util/hash_combine.hpp, flt/util/cache_adaptors.hpp).
*/
module HashCombine {

  /** Hashes are unsigned numbers of 64 bits. */
  type Hash = h: nat | h < 0x1_0000_0000_0000_0000

  /** The golden ratio's fraction, scaled to 63 bits. */
  const HASH_CONSTANT: bv64 := 0x4F1B_BCDC_BFA5_4000

  /** Mixes two hashes, wrapping around. */
  function CombineBits(left: bv64, right: bv64): bv64 {
    left ^ (right + HASH_CONSTANT + (left << 62) + (left >> 2))
  }

  function ToBits(h: Hash): bv64 {
    h as bv64
  }

  function FromBits(bits: bv64): Hash {
    bits as nat
  }

  function Combine(left: Hash, right: Hash): Hash {
    FromBits(CombineBits(ToBits(left), ToBits(right)))
  }

  function SymmetricCombine(left: Hash, right: Hash): Hash {
    if right < left then Combine(right, left) else Combine(left, right)
  }

  function OrderedTupleHash<T>(pair: (T, T), hash: T -> Hash): Hash {
    Combine(hash(pair.0), hash(pair.1))
  }

  function SymmetricTupleHash<T>(pair: (T, T), hash: T -> Hash): Hash {
    SymmetricCombine(hash(pair.0), hash(pair.1))
  }

  predicate SymmetricTupleCompare<T(==)>(pair: (T, T), other: (T, T)) {
    (pair.0 == other.0 && pair.1 == other.1) || (pair.1 == other.0 && pair.0 == other.1)
  }

  /** Two pairs compare equal exactly if they hold the same values, in any order. */
  lemma SameValues<T>(pair: (T, T), other: (T, T))
    ensures SymmetricTupleCompare(pair, other) <==> multiset{pair.0, pair.1} == multiset{other.0, other.1}
  {
    var p, q := multiset{pair.0, pair.1}, multiset{other.0, other.1};
    if p == q {
      assert other.0 in p && pair.0 in q;
      if other.0 == pair.0 {
        assert p - multiset{pair.0} == multiset{pair.1} && q - multiset{pair.0} == multiset{other.1};
        assert pair.1 in multiset{other.1};
      } else {
        assert p - multiset{pair.1} == multiset{pair.0} && q - multiset{pair.1} == multiset{other.1};
        assert pair.0 in multiset{other.1};
      }
    }
  }

  lemma SymmetricCombineCommutes(left: Hash, right: Hash)
    ensures SymmetricCombine(left, right) == SymmetricCombine(right, left)
  {
    hide Combine;
  }

  /** Pairs that compare equal in any order have the same symmetric hash, whatever the
      hash of their elements. */
  lemma SymmetricHashAgrees<T>(pair: (T, T), other: (T, T), hash: T -> Hash)
    requires SymmetricTupleCompare(pair, other)
    ensures SymmetricTupleHash(pair, hash) == SymmetricTupleHash(other, hash)
  {
    hide SymmetricCombine;
    SymmetricCombineCommutes(hash(pair.0), hash(pair.1));
  }

  /** The ordered hash would not do: swapping a pair can change it. */
  lemma OrderedHashDisagrees(hash: int -> Hash)
    requires hash(0) == 0 && hash(1) == 1
    ensures SymmetricTupleCompare((0, 1), (1, 0))
    ensures OrderedTupleHash((0, 1), hash) != OrderedTupleHash((1, 0), hash)
  {
    assert CombineBits(0, 1) == 0x4F1B_BCDC_BFA5_4001;
    assert CombineBits(1, 0) == 0x8F1B_BCDC_BFA5_4001;
  }

  /** Two values of the mixing, with carries, shifts and wrap-around. */
  lemma CombinedValues()
    ensures Combine(0, 0) == 0x9_E377_9B97_F4A8 * 2048
    ensures Combine(5, 7) == 0x8F1B_BCDC_BFA5_400D
  {
    assert CombineBits(0, 0) == 0x4F1B_BCDC_BFA5_4000;
    assert CombineBits(5, 7) == 0x8F1B_BCDC_BFA5_400D;
  }
}
