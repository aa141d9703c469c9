// HASH_FNV and HASH_BER of uthash.h: hash functions that take in one byte at a time.
module FoldHash {
  import opened Bytes
  import opened HashBits
  import opened Word32

  const FNV_START: U32 := 2166136261
  const FNV_PRIME: U32 := 16777619

  function Times(x: U32, y: U32): U32 {
    assert x * y >= 0;
    x * y % WRAP
  }

  function FnvStep(h: U32, byte: Byte): U32 {
    Times(Xor(h, byte), FNV_PRIME)
  }

  function BerStep(h: U32, byte: Byte): U32 {
    Plus(Plus(Shl(h, 5), h), byte)
  }

  // Taking in all the bytes of a key, first to last.
  function HashFold(step: (U32, Byte) -> U32, start: U32, key: seq<Byte>): U32 {
    if key == [] then start else step(HashFold(step, start, key[..|key| - 1]), key[|key| - 1])
  }

  method HashFnv(key: seq<Byte>) returns (hashv: U32)
    ensures hashv == HashFold(FnvStep, FNV_START, key)
  {
    hashv := FNV_START;
    for i := 0 to |key|
      invariant hashv == HashFold(FnvStep, FNV_START, key[..i])
    {
      assert key[..i + 1][..i] == key[..i];
      hashv := Xor(hashv, key[i]);
      hashv := Times(hashv, FNV_PRIME);
    }
    assert key[..|key|] == key;
  }

  method HashBer(key: seq<Byte>) returns (hashv: U32)
    ensures hashv == HashFold(BerStep, 0, key)
  {
    hashv := 0;
    var at := 0;
    while at != |key|
      invariant 0 <= at <= |key|
      invariant hashv == HashFold(BerStep, 0, key[..at])
    {
      assert key[..at + 1][..at] == key[..at];
      hashv := Plus(Plus(Shl(hashv, 5), hashv), key[at]);
      at := at + 1;
    }
    assert key[..|key|] == key;
  }

  // The step loses nothing: neither of the word so far nor of the byte.
  ghost predicate Separating(step: (U32, Byte) -> U32) {
    && (forall h: U32, h': U32, b: Byte :: step(h, b) == step(h', b) ==> h == h')
    && (forall h: U32, b: Byte, b': Byte :: step(h, b) == step(h, b') ==> b == b')
  }

  // The prime is odd, so it has an inverse; and so does 33.
  lemma TimesPrimeSeparates(x: U32, x': U32)
    requires Times(x, FNV_PRIME) == Times(x', FNV_PRIME)
    ensures x == x'
  {
    TimesPrimeInverse(x);
    TimesPrimeInverse(x');
  }

  lemma TimesPrimeInverse(x: U32)
    ensures Times(Times(x, FNV_PRIME), 899433627) == x
  {
    var q, r := x * 16777619 / WRAP, x * 16777619 % WRAP;
    assert r * 899433627 == x + (3513497 * x - q * 899433627) * WRAP;
    Remainder(r * 899433627, 3513497 * x - q * 899433627, x);
  }

  lemma Times33Inverse(x: U32)
    ensures Times(Times(x, 33), 1041204193) == x
  {
    var q, r := x * 33 / WRAP, x * 33 % WRAP;
    assert r * 1041204193 == x + (8 * x - q * 1041204193) * WRAP;
    Remainder(r * 1041204193, 8 * x - q * 1041204193, x);
  }

  lemma Remainder(n: int, q: int, r: U32)
    requires n == r + q * WRAP
    ensures n % WRAP == r
  {
  }

  lemma FnvStepSeparates(h: U32, h': U32, b: Byte, b': Byte)
    requires FnvStep(h, b) == FnvStep(h', b')
    ensures Xor(h, b) == Xor(h', b')
  {
    TimesPrimeSeparates(Xor(h, b), Xor(h', b'));
  }

  lemma FnvSeparates()
    ensures Separating(FnvStep)
  {
    forall h: U32, h': U32, b: Byte | FnvStep(h, b) == FnvStep(h', b)
      ensures h == h'
    {
      FnvStepSeparates(h, h', b, b);
      XorSeparates(h, h', b);
    }
    forall h: U32, b: Byte, b': Byte | FnvStep(h, b) == FnvStep(h, b')
      ensures b == b'
    {
      FnvStepSeparates(h, h, b, b');
      XorSeparates(b, b', h);
    }
  }

  lemma BerStepIsTimes33(h: U32, byte: Byte)
    ensures BerStep(h, byte) == Plus(Times(h, 33), byte)
  {
    assert Pow2(5) == 32;
  }

  lemma BerSeparates()
    ensures Separating(BerStep)
  {
    forall h: U32, h': U32, b: Byte | BerStep(h, b) == BerStep(h', b)
      ensures h == h'
    {
      BerStepIsTimes33(h, b);
      BerStepIsTimes33(h', b);
      Times33Inverse(h);
      Times33Inverse(h');
    }
  }

  // With a separating step, two keys of one length that differ in exactly one byte never have
  // the same hash.
  lemma {:induction false} FoldSeparates(step: (U32, Byte) -> U32, start: U32, key: seq<Byte>, other: seq<Byte>, i: nat)
    requires Separating(step)
    requires |key| == |other| && i < |key|
    requires forall j | 0 <= j < |key| && j != i :: key[j] == other[j]
    ensures HashFold(step, start, key) == HashFold(step, start, other) <==> key[i] == other[i]
  {
    var n := |key| - 1;
    var k, o := key[..n], other[..n];
    if i < n {
      FoldSeparates(step, start, k, o, i);
    } else {
      assert k == o;
    }
  }

  lemma OneByteChangesTheHash(key: seq<Byte>, other: seq<Byte>, i: nat)
    requires |key| == |other| && i < |key| && key[i] != other[i]
    requires forall j | 0 <= j < |key| && j != i :: key[j] == other[j]
    ensures HashFold(FnvStep, FNV_START, key) != HashFold(FnvStep, FNV_START, other)
    ensures HashFold(BerStep, 0, key) != HashFold(BerStep, 0, other)
  {
    FnvSeparates();
    BerSeparates();
    FoldSeparates(FnvStep, FNV_START, key, other, i);
    FoldSeparates(BerStep, 0, key, other, i);
  }

  // The hashes as numbers, one byte at a time: FNV-1a and Bernstein's.
  lemma FnvIs(key: seq<Byte>, b: Byte)
    ensures HashFold(FnvStep, FNV_START, []) == 2166136261
    ensures HashFold(FnvStep, FNV_START, key + [b]) ==
            Xor(HashFold(FnvStep, FNV_START, key), b) * 16777619 % 0x1_0000_0000
  {
    assert (key + [b])[..|key|] == key;
  }

  lemma BerIs(key: seq<Byte>, b: Byte)
    ensures HashFold(BerStep, 0, []) == 0
    ensures HashFold(BerStep, 0, key + [b]) == (33 * HashFold(BerStep, 0, key) + b) % 0x1_0000_0000
  {
    assert (key + [b])[..|key|] == key;
    BerStepIs(HashFold(BerStep, 0, key), b);
  }

  lemma BerStepIs(h: U32, b: Byte)
    ensures BerStep(h, b) == (33 * h + b) % 0x1_0000_0000
  {
    BerStepIsTimes33(h, b);
    PlusIsModular(Times(h, 33), b);
    AddModular(33 * h, b);
  }

  lemma AddModular(x: nat, y: nat)
    ensures (x % 0x1_0000_0000 + y) % 0x1_0000_0000 == (x + y) % 0x1_0000_0000
  {
  }
}
