// HASH_JEN, the default hash function of uthash.h. Words are unsigned 32-bit integers.
module JenkinsHash {
  import opened Bytes
  import opened Word32

  // ---------- HASH_JEN_MIX ----------

  // The words _hj_i, _hj_j and hashv.
  datatype Words = Words(a: U32, b: U32, c: U32)

  // A third of a line of HASH_JEN_MIX: x -= y; x -= z; x ^= shifted.
  function Fold(x: U32, y: U32, z: U32, shifted: U32): U32 {
    Xor(Minus(Minus(x, y), z), shifted)
  }

  function Unfold(x: U32, y: U32, z: U32, shifted: U32): U32 {
    Plus(Plus(Xor(x, shifted), z), y)
  }

  lemma UnfoldFold(x: U32, y: U32, z: U32, shifted: U32)
    ensures Unfold(Fold(x, y, z, shifted), y, z, shifted) == x
  {
    XorInverse(Minus(Minus(x, y), z), shifted);
  }

  lemma FoldUnfold(x: U32, y: U32, z: U32, shifted: U32)
    ensures Fold(Unfold(x, y, z, shifted), y, z, shifted) == x
  {
    XorInverse(x, shifted);
  }

  // One line of HASH_JEN_MIX with its three shift distances.
  function Line(w: Words, r: nat, l: nat, r': nat): Words {
    var a := Fold(w.a, w.b, w.c, Shr(w.c, r));
    var b := Fold(w.b, w.c, a, Shl(a, l));
    var c := Fold(w.c, a, b, Shr(b, r'));
    Words(a, b, c)
  }

  function Unline(w: Words, r: nat, l: nat, r': nat): Words {
    var c := Unfold(w.c, w.a, w.b, Shr(w.b, r'));
    var b := Unfold(w.b, c, w.a, Shl(w.a, l));
    var a := Unfold(w.a, b, c, Shr(c, r));
    Words(a, b, c)
  }

  function Mix(w: Words): Words {
    Line(Line(Line(w, 13, 8, 13), 12, 16, 5), 3, 10, 15)
  }

  function Unmix(w: Words): Words {
    Unline(Unline(Unline(w, 3, 10, 15), 12, 16, 5), 13, 8, 13)
  }

  lemma LineInverse(w: Words, r: nat, l: nat, r': nat)
    ensures Unline(Line(w, r, l, r'), r, l, r') == w
    ensures Line(Unline(w, r, l, r'), r, l, r') == w
  {
    var v := Line(w, r, l, r');
    UnfoldFold(w.c, v.a, v.b, Shr(v.b, r'));
    UnfoldFold(w.b, w.c, v.a, Shl(v.a, l));
    UnfoldFold(w.a, w.b, w.c, Shr(w.c, r));
    var u := Unline(w, r, l, r');
    FoldUnfold(w.a, u.b, u.c, Shr(u.c, r));
    FoldUnfold(w.b, u.c, w.a, Shl(w.a, l));
    FoldUnfold(w.c, w.a, w.b, Shr(w.b, r'));
  }

  // HASH_JEN_MIX is a bijection on triples of words: Unmix is its inverse.
  lemma MixIsBijection(w: Words)
    ensures Unmix(Mix(w)) == w && Mix(Unmix(w)) == w
  {
    var w1 := Line(w, 13, 8, 13);
    var w2 := Line(w1, 12, 16, 5);
    LineInverse(w, 13, 8, 13);
    LineInverse(w1, 12, 16, 5);
    LineInverse(w2, 3, 10, 15);
    var u1 := Unline(w, 3, 10, 15);
    var u2 := Unline(u1, 12, 16, 5);
    LineInverse(w, 3, 10, 15);
    LineInverse(u1, 12, 16, 5);
    LineInverse(u2, 13, 8, 13);
  }

  // ---------- HASH_JEN ----------

  const GOLDEN: U32 := 0x9e3779b9
  const SEED: U32 := 0xfeedbeef

  // A byte of the key; a byte past its end counts as 0.
  function Octet(key: seq<Byte>, i: nat): Byte {
    if i < |key| then key[i] else 0
  }

  function Word(key: seq<Byte>, i: nat): U32 {
    Octet(key, i) + 0x100 * Octet(key, i + 1) + 0x1_0000 * Octet(key, i + 2)
    + 0x100_0000 * Octet(key, i + 3)
  }

  // The last word of the tail leaves its low byte to the key's length.
  function LastWord(key: seq<Byte>, i: nat): U32 {
    0x100 * Octet(key, i) + 0x1_0000 * Octet(key, i + 1) + 0x100_0000 * Octet(key, i + 2)
  }

  // The whole hash is defined over any way of mixing three words; HASH_JEN_MIX is Mix.
  type Mixer = Words -> Words

  ghost predicate Injective(mix: Mixer) {
    forall v: Words, w: Words :: mix(v) == mix(w) ==> v == w
  }

  lemma MixIsInjective()
    ensures Injective(Mix)
  {
    forall v: Words, w: Words | Mix(v) == Mix(w)
      ensures v == w
    {
      MixIsBijection(v);
      MixIsBijection(w);
    }
  }

  function Absorb(mix: Mixer, w: Words, a: U32, b: U32, c: U32): Words {
    mix(Words(Plus(w.a, a), Plus(w.b, b), Plus(w.c, c)))
  }

  function AddLength(w: Words, n: U32): Words {
    w.(c := Plus(w.c, n))
  }

  function WholeBlock(mix: Mixer, w: Words, key: seq<Byte>, at: nat): Words {
    Absorb(mix, w, Word(key, at), Word(key, at + 4), Word(key, at + 8))
  }

  function LastBlock(mix: Mixer, w: Words, key: seq<Byte>, at: nat): Words {
    Absorb(mix, AddLength(w, |key| % WRAP), Word(key, at), Word(key, at + 4), LastWord(key, at + 8))
  }

  // Taking in block k of a key: from a state to the next.
  type Step = (Words, nat) -> Words

  function TakingBlocks(mix: Mixer, key: seq<Byte>): Step {
    (w: Words, k: nat) => WholeBlock(mix, w, key, 12 * k)
  }

  // The state after n blocks.
  function Blocks(step: Step, n: nat): Words {
    if n == 0 then Words(GOLDEN, GOLDEN, SEED) else step(Blocks(step, n - 1), n - 1)
  }

  // The three words at the end of HASH_JEN; the hash is the third.
  function JenState(mix: Mixer, key: seq<Byte>): Words {
    LastBlock(mix, Blocks(TakingBlocks(mix, key), |key| / 12), key, 12 * (|key| / 12))
  }

  // One word of the switch: `left` bytes of the key remain from `at` on.
  method AddWord(word: U32, key: seq<Byte>, at: nat, left: int) returns (r: U32)
    requires at + left == |key|
    ensures r == Plus(word, Word(key, at))
  {
    r := word;
    if left >= 4 { r := Plus(r, key[at + 3] as int * 0x100_0000); }
    if left >= 3 { r := Plus(r, key[at + 2] as int * 0x1_0000); }
    if left >= 2 { r := Plus(r, key[at + 1] as int * 0x100); }
    if left >= 1 { r := Plus(r, key[at]); }
  }

  method AddLastWord(word: U32, key: seq<Byte>, at: nat, left: int) returns (r: U32)
    requires at + left == |key|
    ensures r == Plus(word, LastWord(key, at))
  {
    r := word;
    if left >= 3 { r := Plus(r, key[at + 2] as int * 0x100_0000); }
    if left >= 2 { r := Plus(r, key[at + 1] as int * 0x1_0000); }
    if left >= 1 { r := Plus(r, key[at] as int * 0x100); }
  }

  lemma NextBlock(step: Step, n: nat)
    ensures Blocks(step, n + 1) == step(Blocks(step, n), n)
  {
  }

  lemma LastBlockOf(mix: Mixer, key: seq<Byte>, n: nat)
    requires 12 * n <= |key| < 12 * n + 12
    ensures JenState(mix, key) == LastBlock(mix, Blocks(TakingBlocks(mix, key), n), key, 12 * n)
  {
    assert |key| / 12 == n;
  }

  // HASH_JEN: whole blocks, then the switch with its fall-through cases.
  method HashJenWith(mix: Mixer, key: seq<Byte>) returns (hashv: U32)
    requires |key| < WRAP
    ensures hashv == JenState(mix, key).c
  {
    hashv := SEED;
    var i: U32, j: U32 := GOLDEN, GOLDEN;
    var k := |key|;
    var at := 0;
    ghost var n := 0;
    while k >= 12
      invariant at == 12 * n && at + k == |key| && 0 <= k
      invariant Words(i, j, hashv) == Blocks(TakingBlocks(mix, key), n)
    {
      NextBlock(TakingBlocks(mix, key), n);
      i, j, hashv := TakeBlock(mix, i, j, hashv, key, at, n);
      at := at + 12;
      k := k - 12;
      n := n + 1;
    }
    LastBlockOf(mix, key, n);
    hashv := TakeTail(mix, i, j, hashv, key, at, k);
  }

  method TakeBlock(mix: Mixer, a: U32, b: U32, c: U32, key: seq<Byte>, at: nat, ghost n: nat)
    returns (i: U32, j: U32, hashv: U32)
    requires at == 12 * n
    ensures Words(i, j, hashv) == TakingBlocks(mix, key)(Words(a, b, c), n)
  {
    i := Plus(a, Word(key, at));
    j := Plus(b, Word(key, at + 4));
    hashv := Plus(c, Word(key, at + 8));
    var mixed := mix(Words(i, j, hashv));
    i, j, hashv := mixed.a, mixed.b, mixed.c;
  }

  method TakeTail(mix: Mixer, a: U32, b: U32, c: U32, key: seq<Byte>, at: nat, k: nat)
    returns (hashv: U32)
    requires |key| < WRAP && at + k == |key|
    ensures hashv == LastBlock(mix, Words(a, b, c), key, at).c
  {
    hashv := Plus(c, |key|);
    hashv := AddLastWord(hashv, key, at + 8, k - 8);
    var j := AddWord(b, key, at + 4, k - 4);
    var i := AddWord(a, key, at, k);
    hashv := mix(Words(i, j, hashv)).c;
  }

  // ---------- Keys that cannot collide in the state ----------

  lemma AbsorbSeparates(mix: Mixer, v: Words, w: Words, a: U32, b: U32, c: U32)
    requires Injective(mix) && Absorb(mix, v, a, b, c) == Absorb(mix, w, a, b, c)
    ensures v == w
  {
    assert Words(Plus(v.a, a), Plus(v.b, b), Plus(v.c, c))
        == Words(Plus(w.a, a), Plus(w.b, b), Plus(w.c, c));
  }

  lemma BlockSeparates(mix: Mixer, w: Words, a: U32, b: U32, c: U32, a': U32, b': U32, c': U32)
    requires Injective(mix) && Absorb(mix, w, a, b, c) == Absorb(mix, w, a', b', c')
    ensures a == a' && b == b' && c == c'
  {
    assert Words(Plus(w.a, a), Plus(w.b, b), Plus(w.c, c))
        == Words(Plus(w.a, a'), Plus(w.b, b'), Plus(w.c, c'));
  }

  lemma LowByte(b: Byte, c: Byte, high: nat, high': nat)
    requires b + 0x100 * high == c + 0x100 * high'
    ensures b == c && high == high'
  {
  }

  lemma FourBytes(b0: Byte, b1: Byte, b2: Byte, b3: Byte, c0: Byte, c1: Byte, c2: Byte, c3: Byte)
    requires b0 + 0x100 * b1 + 0x1_0000 * b2 + 0x100_0000 * b3
          == c0 + 0x100 * c1 + 0x1_0000 * c2 + 0x100_0000 * c3
    ensures b0 == c0 && b1 == c1 && b2 == c2 && b3 == c3
  {
    LowByte(b0, c0, b1 + 0x100 * b2 + 0x1_0000 * b3, c1 + 0x100 * c2 + 0x1_0000 * c3);
    LowByte(b1, c1, b2 + 0x100 * b3, c2 + 0x100 * c3);
    LowByte(b2, c2, b3, c3);
  }

  lemma WordSeparates(key: seq<Byte>, other: seq<Byte>, i: nat)
    requires Word(key, i) == Word(other, i)
    ensures forall j | i <= j < i + 4 :: Octet(key, j) == Octet(other, j)
  {
    FourBytes(Octet(key, i), Octet(key, i + 1), Octet(key, i + 2), Octet(key, i + 3),
              Octet(other, i), Octet(other, i + 1), Octet(other, i + 2), Octet(other, i + 3));
    assert Octet(key, i + 1) == Octet(other, i + 1) && Octet(key, i + 2) == Octet(other, i + 2);
  }

  lemma LastWordSeparates(key: seq<Byte>, other: seq<Byte>, i: nat)
    requires LastWord(key, i) == LastWord(other, i)
    ensures forall j | i <= j < i + 3 :: Octet(key, j) == Octet(other, j)
  {
    FourBytes(0, Octet(key, i), Octet(key, i + 1), Octet(key, i + 2),
              0, Octet(other, i), Octet(other, i + 1), Octet(other, i + 2));
    assert Octet(key, i + 1) == Octet(other, i + 1);
  }

  // The keys agree outside block n (the tail is the block after the last whole one).
  ghost predicate AgreeOutside(key: seq<Byte>, other: seq<Byte>, n: nat) {
    && |key| == |other|
    && forall i | 0 <= i < |key| && !(12 * n <= i < 12 * n + 12) :: key[i] == other[i]
  }

  lemma SameBlock(key: seq<Byte>, other: seq<Byte>, at: nat, n: nat)
    requires AgreeOutside(key, other, n)
    requires at >= 12 * n + 12 || at + 12 <= 12 * n
    ensures Word(key, at) == Word(other, at) && Word(key, at + 4) == Word(other, at + 4)
    ensures Word(key, at + 8) == Word(other, at + 8) && LastWord(key, at + 8) == LastWord(other, at + 8)
  {
  }

  // Outside block n, the keys' blocks are taken in alike, and nothing of the state is lost.
  lemma BlocksAgree(mix: Mixer, key: seq<Byte>, other: seq<Byte>, n: nat)
    requires Injective(mix) && AgreeOutside(key, other, n)
    ensures forall w: Words, k: nat | k != n ::
              TakingBlocks(mix, key)(w, k) == TakingBlocks(mix, other)(w, k)
    ensures Lossless(TakingBlocks(mix, key))
  {
    forall w: Words, k: nat | k != n
      ensures TakingBlocks(mix, key)(w, k) == TakingBlocks(mix, other)(w, k)
    {
      SameBlock(key, other, 12 * k, n);
    }
    forall v: Words, w: Words, k: nat | TakingBlocks(mix, key)(v, k) == TakingBlocks(mix, key)(w, k)
      ensures v == w
    {
      var at := 12 * k;
      AbsorbSeparates(mix, v, w, Word(key, at), Word(key, at + 4), Word(key, at + 8));
    }
  }

  ghost predicate Lossless(step: Step) {
    forall v: Words, w: Words, k: nat :: step(v, k) == step(w, k) ==> v == w
  }

  lemma {:induction false} BlocksBefore(step: Step, other: Step, n: nat)
    requires forall w: Words, k: nat | k < n :: step(w, k) == other(w, k)
    ensures Blocks(step, n) == Blocks(other, n)
  {
    if n > 0 {
      BlocksBefore(step, other, n - 1);
    }
  }

  lemma {:induction false} BlocksAfter(step: Step, other: Step, n: nat, m: nat)
    requires Lossless(step) && n <= m
    requires forall w: Words, k: nat | n <= k :: step(w, k) == other(w, k)
    requires Blocks(step, m) == Blocks(other, m)
    ensures Blocks(step, n) == Blocks(other, n)
  {
    if n < m {
      BlocksAfter(step, other, n, m - 1);
    }
  }

  lemma WholeBlockSeparates(mix: Mixer, w: Words, key: seq<Byte>, other: seq<Byte>, at: nat)
    requires Injective(mix) && |key| == |other|
    requires WholeBlock(mix, w, key, at) == WholeBlock(mix, w, other, at)
    ensures forall i | at <= i < at + 12 && i < |key| :: key[i] == other[i]
  {
    BlockSeparates(mix, w, Word(key, at), Word(key, at + 4), Word(key, at + 8),
                   Word(other, at), Word(other, at + 4), Word(other, at + 8));
    WordSeparates(key, other, at);
    WordSeparates(key, other, at + 4);
    WordSeparates(key, other, at + 8);
    SameOctets(key, other, at, at + 12);
  }

  lemma LastBlockSeparates(mix: Mixer, w: Words, key: seq<Byte>, other: seq<Byte>, at: nat)
    requires Injective(mix) && |key| == |other| < at + 12
    requires LastBlock(mix, w, key, at) == LastBlock(mix, w, other, at)
    ensures forall i | at <= i < |key| :: key[i] == other[i]
  {
    BlockSeparates(mix, AddLength(w, |key| % WRAP), Word(key, at), Word(key, at + 4), LastWord(key, at + 8),
                   Word(other, at), Word(other, at + 4), LastWord(other, at + 8));
    WordSeparates(key, other, at);
    WordSeparates(key, other, at + 4);
    LastWordSeparates(key, other, at + 8);
    SameOctets(key, other, at, at + 11);
  }

  lemma SameOctets(key: seq<Byte>, other: seq<Byte>, at: nat, end: nat)
    requires |key| == |other|
    requires forall i | at <= i < end :: Octet(key, i) == Octet(other, i)
    ensures forall i | at <= i < end && i < |key| :: key[i] == other[i]
  {
    forall i | at <= i < end && i < |key|
      ensures key[i] == other[i]
    {
      assert Octet(key, i) == Octet(other, i);
    }
  }

  lemma BlockSettles(mix: Mixer, key: seq<Byte>, other: seq<Byte>, n: nat)
    requires Injective(mix) && AgreeOutside(key, other, n)
    requires Blocks(TakingBlocks(mix, key), n + 1) == Blocks(TakingBlocks(mix, other), n + 1)
    ensures key == other
  {
    var step := TakingBlocks(mix, key);
    BlocksAgree(mix, key, other, n);
    BlocksBefore(step, TakingBlocks(mix, other), n);
    WholeBlockSeparates(mix, Blocks(step, n), key, other, 12 * n);
  }

  lemma LastBlockKeeps(mix: Mixer, v: Words, w: Words, key: seq<Byte>, other: seq<Byte>, n: nat, m: nat)
    requires Injective(mix) && AgreeOutside(key, other, n) && n < m
    requires LastBlock(mix, v, key, 12 * m) == LastBlock(mix, w, other, 12 * m)
    ensures v == w
  {
    SameBlock(key, other, 12 * m, n);
    LastBlockCancels(mix, v, w, key, other, 12 * m);
  }

  lemma WholeBlockDiffers(mix: Mixer, key: seq<Byte>, other: seq<Byte>, n: nat, m: nat, step: Step, step': Step)
    requires Injective(mix) && AgreeOutside(key, other, n) && n < m
    requires step == TakingBlocks(mix, key) && step' == TakingBlocks(mix, other)
    requires Blocks(step, m) == Blocks(step', m)
    ensures key == other
  {
    BlocksAgree(mix, key, other, n);
    BlocksAfter(step, step', n + 1, m);
    BlockSettles(mix, key, other, n);
  }

  // Two keys of one length that differ only within one block of twelve bytes, or only in the
  // tail, end in different states; keys of up to eleven bytes are all tail.
  lemma JenStateSeparates(mix: Mixer, key: seq<Byte>, other: seq<Byte>, n: nat)
    requires Injective(mix) && AgreeOutside(key, other, n)
    ensures JenState(mix, key) == JenState(mix, other) <==> key == other
  {
    if JenState(mix, key) == JenState(mix, other) {
      var m := |key| / 12;
      var step, step' := TakingBlocks(mix, key), TakingBlocks(mix, other);
      BlocksAgree(mix, key, other, n);
      if n < m {
        LastBlockKeeps(mix, Blocks(step, m), Blocks(step', m), key, other, n, m);
        WholeBlockDiffers(mix, key, other, n, m, step, step');
      } else {
        BlocksBefore(step, step', m);
        LastBlockSeparates(mix, Blocks(step, m), key, other, 12 * m);
      }
    }
  }

  lemma LastBlockCancels(mix: Mixer, v: Words, w: Words, key: seq<Byte>, other: seq<Byte>, at: nat)
    requires Injective(mix) && |key| == |other|
    requires Word(key, at) == Word(other, at) && Word(key, at + 4) == Word(other, at + 4)
    requires LastWord(key, at + 8) == LastWord(other, at + 8)
    requires LastBlock(mix, v, key, at) == LastBlock(mix, w, other, at)
    ensures v == w
  {
    var n := |key| % WRAP;
    AbsorbSeparates(mix, AddLength(v, n), AddLength(w, n), Word(key, at), Word(key, at + 4), LastWord(key, at + 8));
    LengthCancels(v, w, n);
  }

  lemma LengthCancels(v: Words, w: Words, n: U32)
    requires AddLength(v, n) == AddLength(w, n)
    ensures v == w
  {
    assert Plus(v.c, n) == Plus(w.c, n);
  }

  // ---------- Keys of different lengths ----------

  // The length stands in the low byte that the last word leaves free.
  lemma LengthSeparates(c: U32, n: U32, m: U32, x: U32, y: U32)
    requires Plus(Plus(c, n), x) == Plus(Plus(c, m), y)
    requires x % 0x100 == 0 && y % 0x100 == 0 && -0x100 < n - m < 0x100
    ensures n == m && x == y
  {
    var k := (n + x - (m + y)) / WRAP;
    assert n + x == m + y || n + x == m + y + WRAP || n + x + WRAP == m + y;
  }

  lemma LastWordIsHigh(key: seq<Byte>, i: nat)
    ensures LastWord(key, i) % 0x100 == 0
  {
  }

  lemma AbsorbTells(mix: Mixer, w: Words, n: U32, m: U32, a: U32, b: U32, c: U32, a': U32, b': U32, c': U32)
    requires Injective(mix) && c % 0x100 == 0 && c' % 0x100 == 0 && -0x100 < n - m < 0x100
    requires Absorb(mix, AddLength(w, n), a, b, c) == Absorb(mix, AddLength(w, m), a', b', c')
    ensures n == m && a == a' && b == b' && c == c'
  {
    assert Words(Plus(w.a, a), Plus(w.b, b), Plus(Plus(w.c, n), c))
        == Words(Plus(w.a, a'), Plus(w.b, b'), Plus(Plus(w.c, m), c'));
    LengthSeparates(w.c, n, m, c, c');
  }

  lemma LastBlockForm(mix: Mixer, w: Words, key: seq<Byte>, at: nat) returns (n: U32, a: U32, b: U32, c: U32)
    requires |key| < WRAP
    ensures n == |key| && c % 0x100 == 0
    ensures LastBlock(mix, w, key, at) == Absorb(mix, AddLength(w, n), a, b, c)
  {
    n, a, b, c := |key|, Word(key, at), Word(key, at + 4), LastWord(key, at + 8);
    LastWordIsHigh(key, at + 8);
  }

  lemma LastBlockTells(mix: Mixer, w: Words, key: seq<Byte>, other: seq<Byte>, at: nat, last: Words)
    requires Injective(mix) && |key| < WRAP && |other| < WRAP && -12 < |key| - |other| < 12
    requires last == LastBlock(mix, w, key, at) && last == LastBlock(mix, w, other, at)
    ensures |key| == |other|
  {
    var n, a, b, c := LastBlockForm(mix, w, key, at);
    var m, a', b', c' := LastBlockForm(mix, w, other, at);
    AbsorbTells(mix, w, n, m, a, b, c, a', b', c');
  }

  lemma SameWholeBlocks(mix: Mixer, key: seq<Byte>, other: seq<Byte>, m: nat)
    requires 12 * m <= |key| && 12 * m <= |other|
    requires forall i | 0 <= i < 12 * m :: key[i] == other[i]
    ensures Blocks(TakingBlocks(mix, key), m) == Blocks(TakingBlocks(mix, other), m)
  {
    forall w: Words, k: nat | k < m
      ensures TakingBlocks(mix, key)(w, k) == TakingBlocks(mix, other)(w, k)
    {
      var at := 12 * k;
      assert forall i | at <= i < at + 12 :: Octet(key, i) == Octet(other, i);
      assert Word(key, at) == Word(other, at) && Word(key, at + 4) == Word(other, at + 4)
             && Word(key, at + 8) == Word(other, at + 8);
    }
    BlocksBefore(TakingBlocks(mix, key), TakingBlocks(mix, other), m);
  }

  // Two keys, of whatever lengths, that have as many whole blocks and agree on them end in different
  // states unless they are equal. All keys of up to eleven bytes are such keys.
  lemma TailsSeparate(mix: Mixer, key: seq<Byte>, other: seq<Byte>, m: nat)
    requires Injective(mix) && |key| < WRAP && |other| < WRAP
    requires 12 * m <= |key| < 12 * m + 12 && 12 * m <= |other| < 12 * m + 12
    requires forall i | 0 <= i < 12 * m :: key[i] == other[i]
    ensures JenState(mix, key) == JenState(mix, other) <==> key == other
  {
    if JenState(mix, key) == JenState(mix, other) {
      var w := Blocks(TakingBlocks(mix, key), m);
      LastBlockOf(mix, key, m);
      LastBlockOf(mix, other, m);
      SameWholeBlocks(mix, key, other, m);
      LastBlockTells(mix, w, key, other, 12 * m, JenState(mix, key));
      LastBlockSeparates(mix, w, key, other, 12 * m);
    }
  }

  lemma ShortKeysDiffer(key: seq<Byte>, other: seq<Byte>)
    requires |key| <= 11 && |other| <= 11
    ensures JenState(Mix, key) == JenState(Mix, other) <==> key == other
  {
    MixIsInjective();
    TailsSeparate(Mix, key, other, 0);
  }

  // Distinct MAC addresses end in different states.
  lemma MacStatesDiffer(mac: seq<Byte>, other: seq<Byte>)
    requires |mac| == |other| == 6 && mac != other
    ensures JenState(Mix, mac) != JenState(Mix, other)
  {
    MixIsInjective();
    JenStateSeparates(Mix, mac, other, 0);
  }
}
