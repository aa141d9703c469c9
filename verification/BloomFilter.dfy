// The Bloom filter of HASH_BLOOM: a bit vector in bytes.
module BloomFilter {
  import opened Bytes
  import opened HashBits

  // 1U << k.
  function Bit(k: nat): bv8
    requires k < 8
  {
    if k == 0 then 1 else if k == 1 then 2 else if k == 2 then 4 else if k == 3 then 8
    else if k == 4 then 16 else if k == 5 then 32 else if k == 6 then 64 else 128
  }

  lemma BitIsShift()
    ensures Bit(0) == 1 << 0 && Bit(1) == 1 << 1 && Bit(2) == 1 << 2 && Bit(3) == 1 << 3
    ensures Bit(4) == 1 << 4 && Bit(5) == 1 << 5 && Bit(6) == 1 << 6 && Bit(7) == 1 << 7
  {
  }

  // Setting bit j of a byte sets that bit and no other.
  lemma SetBitOfByte(b: bv8, j: nat, k: nat)
    requires j < 8 && k < 8
    ensures ((b | Bit(j)) & Bit(k) != 0) <==> (b & Bit(k) != 0 || j == k)
  {
  }

  // HASH_BLOOM_BYTELEN.
  function ByteLen(bitLen: nat): nat {
    bitLen / 8 + if bitLen % 8 != 0 then 1 else 0
  }

  // The bits that are set in a filter of n bits.
  ghost function BitsOf(bytes: seq<bv8>, n: nat): set<nat>
    requires |bytes| == ByteLen(n)
  {
    set i | 0 <= i < n && bytes[i / 8] & Bit(i % 8) != 0
  }

  lemma SetBitOfFilter(bytes: seq<bv8>, n: nat, idx: nat)
    requires |bytes| == ByteLen(n) && idx < n
    ensures BitsOf(bytes[idx / 8 := bytes[idx / 8] | Bit(idx % 8)], n) == BitsOf(bytes, n) + {idx}
  {
    var bytes' := bytes[idx / 8 := bytes[idx / 8] | Bit(idx % 8)];
    forall i | 0 <= i < n
      ensures i in BitsOf(bytes', n) <==> i in BitsOf(bytes, n) + {idx}
    {
      SetBitOfByte(bytes[idx / 8], idx % 8, i % 8);
    }
  }

  class Bloom {
    const nbits: nat
    const bv: array<bv8>

    ghost predicate Valid() {
      bv.Length == ByteLen(Pow2(nbits))
    }

    ghost function Bits(): set<nat>
      requires Valid()
      reads bv
    {
      BitsOf(bv[..], Pow2(nbits))
    }

    // HASH_BLOOM_MAKE.
    constructor (nbits: nat)
      ensures Valid() && this.nbits == nbits && Bits() == {} && fresh(bv)
    {
      this.nbits := nbits;
      bv := new bv8[ByteLen(Pow2(nbits))](_ => 0);
      new;
      assert forall i :: 0 <= i < bv.Length ==> bv[..][i] & Bit(i % 8) == 0;
    }

    // HASH_BLOOM_ADD.
    method Add(hashv: U32)
      requires Valid()
      modifies bv
      ensures Bits() == old(Bits()) + {ToBkt(hashv, Pow2(nbits))}
    {
      var idx := ToBkt(hashv, Pow2(nbits));
      SetBitOfFilter(bv[..], Pow2(nbits), idx);
      bv[idx / 8] := bv[idx / 8] | Bit(idx % 8);
      assert bv[..] == old(bv[..])[idx / 8 := old(bv[idx / 8]) | Bit(idx % 8)];
    }

    // HASH_BLOOM_TEST.
    method Test(hashv: U32) returns (r: bool)
      requires Valid()
      ensures r == (ToBkt(hashv, Pow2(nbits)) in Bits())
    {
      var idx := ToBkt(hashv, Pow2(nbits));
      r := bv[idx / 8] & Bit(idx % 8) != 0;
    }
  }
}
