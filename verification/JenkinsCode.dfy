// HASH_JEN_MIX and HASH_JEN once more, statement by statement and with every number written out,
// and the proof that this is what the functions of JenkinsHash compute.
module JenkinsCode {
  import opened Bytes
  import opened HashBits
  import opened Word32
  import opened JenkinsHash

  // x - y - z, and the exclusive or with a shifted word: >> is division and << multiplication.
  function Less(x: U32, y: U32, z: U32): U32 {
    ((x - y) % 0x1_0000_0000 - z) % 0x1_0000_0000
  }

  // The nine statements of HASH_JEN_MIX, three by three.
  function FirstThree(w: Words): Words {
    var a := Xor(Less(w.a, w.b, w.c), w.c / 0x2000);
    var b := Xor(Less(w.b, w.c, a), a * 0x100 % 0x1_0000_0000);
    var c := Xor(Less(w.c, a, b), b / 0x2000);
    Words(a, b, c)
  }

  function NextThree(w: Words): Words {
    var a := Xor(Less(w.a, w.b, w.c), w.c / 0x1000);
    var b := Xor(Less(w.b, w.c, a), a * 0x1_0000 % 0x1_0000_0000);
    var c := Xor(Less(w.c, a, b), b / 0x20);
    Words(a, b, c)
  }

  function LastThree(w: Words): Words {
    var a := Xor(Less(w.a, w.b, w.c), w.c / 0x8);
    var b := Xor(Less(w.b, w.c, a), a * 0x400 % 0x1_0000_0000);
    var c := Xor(Less(w.c, a, b), b / 0x8000);
    Words(a, b, c)
  }

  function MixCode(w: Words): Words {
    LastThree(NextThree(FirstThree(w)))
  }

  // Four bytes of the key, the first one lowest.
  function FourAt(key: seq<Byte>, at: nat): U32
    requires at + 4 <= |key|
  {
    key[at] as int + key[at + 1] as int * 0x100 + key[at + 2] as int * 0x1_0000 + key[at + 3] as int * 0x100_0000
  }

  // A case of the switch.
  function Case(word: U32, key: seq<Byte>, i: nat, factor: nat): U32
    requires factor <= 0x100_0000
  {
    if i < |key| then (word + key[i] as int * factor) % 0x1_0000_0000 else word
  }

  // One turn of the loop over whole blocks.
  function BlockCode(mix: Mixer, key: seq<Byte>, w: Words, at: nat): Words {
    if at + 12 <= |key| then
      mix(Words((w.a + FourAt(key, at)) % 0x1_0000_0000, (w.b + FourAt(key, at + 4)) % 0x1_0000_0000,
                (w.c + FourAt(key, at + 8)) % 0x1_0000_0000))
    else w
  }

  // The cases of the switch that add to one word.
  function FourCases(word: U32, key: seq<Byte>, at: nat): U32 {
    Case(Case(Case(Case(word, key, at + 3, 0x100_0000), key, at + 2, 0x1_0000), key, at + 1, 0x100), key, at, 1)
  }

  // Those that add to the word of the length.
  function ThreeCases(word: U32, key: seq<Byte>, at: nat): U32 {
    Case(Case(Case(word, key, at + 2, 0x100_0000), key, at + 1, 0x1_0000), key, at, 0x100)
  }

  // The length, the switch with its fall-through cases, and the last mix.
  function TailCode(mix: Mixer, key: seq<Byte>, w: Words, at: nat): Words {
    TailWith(mix, (x: U32, i: nat) => FourCases(x, key, i), (x: U32, i: nat) => ThreeCases(x, key, i), |key|, w, at)
  }

  function TailWith(mix: Mixer, four: (U32, nat) -> U32, three: (U32, nat) -> U32, length: nat, w: Words, at: nat): Words {
    mix(Words(four(w.a, at), four(w.b, at + 4), three((w.c + length) % 0x1_0000_0000, at + 8)))
  }

  // The loop from offset `at` on, and what follows it.
  function LoopCode(block: (Words, nat) -> Words, tail: (Words, nat) -> Words, length: nat, at: nat, w: Words): Words
    decreases length - at
  {
    if length >= at + 12 then LoopCode(block, tail, length, at + 12, block(w, at)) else tail(w, at)
  }

  // HASH_JEN with any mix, and with its own.
  function CodeWith(mix: Mixer, key: seq<Byte>): Words {
    LoopCode((w: Words, at: nat) => BlockCode(mix, key, w, at), (w: Words, at: nat) => TailCode(mix, key, w, at),
             |key|, 0, Words(0x9e3779b9, 0x9e3779b9, 0xfeedbeef))
  }

  function JenCode(key: seq<Byte>): Words {
    CodeWith(MixCode, key)
  }

  // ---------- The mix ----------

  lemma LessIs(x: U32, y: U32, z: U32)
    ensures Minus(Minus(x, y), z) == Less(x, y, z)
  {
    PlusIsModular(x, y);
    PlusIsModular(Minus(x, y), z);
  }

  lemma Powers()
    ensures Pow2(3) == 0x8 && Pow2(5) == 0x20 && Pow2(8) == 0x100 && Pow2(10) == 0x400
    ensures Pow2(12) == 0x1000 && Pow2(13) == 0x2000 && Pow2(15) == 0x8000 && Pow2(16) == 0x1_0000
  {
    assert Pow2(8) == 0x100;
  }

  // A line of the mix, for any words that its shifts give.
  lemma LineFrom(w: Words, r: nat, l: nat, r': nat) returns (v: Words, down: U32, up: U32, down': U32)
    ensures v == Line(w, r, l, r')
    ensures down == Shr(w.c, r) && up == Shl(v.a, l) && down' == Shr(v.b, r')
    ensures v.a == Xor(Less(w.a, w.b, w.c), down)
    ensures v.b == Xor(Less(w.b, w.c, v.a), up)
    ensures v.c == Xor(Less(w.c, v.a, v.b), down')
  {
    v := Line(w, r, l, r');
    down, up, down' := Shr(w.c, r), Shl(v.a, l), Shr(v.b, r');
    LessIs(w.a, w.b, w.c);
    LessIs(w.b, w.c, v.a);
    LessIs(w.c, v.a, v.b);
  }

  lemma FirstThreeIs(w: Words)
    ensures Line(w, 13, 8, 13) == FirstThree(w)
  {
    var v, down, up, down' := LineFrom(w, 13, 8, 13);
    Powers();
    ShrIsDivision(w.c, 13);
    ShrIsDivision(v.b, 13);
  }

  lemma NextThreeIs(w: Words)
    ensures Line(w, 12, 16, 5) == NextThree(w)
  {
    var v, down, up, down' := LineFrom(w, 12, 16, 5);
    Powers();
    ShrIsDivision(w.c, 12);
    ShrIsDivision(v.b, 5);
  }

  lemma LastThreeIs(w: Words)
    ensures Line(w, 3, 10, 15) == LastThree(w)
  {
    var v, down, up, down' := LineFrom(w, 3, 10, 15);
    Powers();
    ShrIsDivision(w.c, 3);
    ShrIsDivision(v.b, 15);
  }

  lemma MixIsCode(w: Words)
    ensures Mix(w) == MixCode(w)
  {
    FirstThreeIs(w);
    NextThreeIs(FirstThree(w));
    LastThreeIs(NextThree(FirstThree(w)));
  }

  // ---------- The loop and the switch ----------

  lemma CaseIs(word: U32, key: seq<Byte>, i: nat, factor: nat)
    requires factor <= 0x100_0000
    ensures Case(word, key, i, factor) == (word + Octet(key, i) as int * factor) % 0x1_0000_0000
  {
  }

  lemma AddFour(w: int, x: int, y: int, z: int, u: int)
    ensures ((((w + x) % 0x1_0000_0000 + y) % 0x1_0000_0000 + z) % 0x1_0000_0000 + u) % 0x1_0000_0000
            == (w + (x + y + z + u)) % 0x1_0000_0000
  {
  }

  lemma AddThree(w: int, x: int, y: int, z: int)
    ensures (((w + x) % 0x1_0000_0000 + y) % 0x1_0000_0000 + z) % 0x1_0000_0000 == (w + (x + y + z)) % 0x1_0000_0000
  {
  }

  lemma FourCasesAre(word: U32, key: seq<Byte>, at: nat)
    ensures FourCases(word, key, at) == Plus(word, Word(key, at))
  {
    var w3 := Case(word, key, at + 3, 0x100_0000);
    var w2 := Case(w3, key, at + 2, 0x1_0000);
    var w1 := Case(w2, key, at + 1, 0x100);
    CaseIs(word, key, at + 3, 0x100_0000);
    CaseIs(w3, key, at + 2, 0x1_0000);
    CaseIs(w2, key, at + 1, 0x100);
    CaseIs(w1, key, at, 1);
    var x, y, z, u := 0x100_0000 * Octet(key, at + 3), 0x1_0000 * Octet(key, at + 2), 0x100 * Octet(key, at + 1), Octet(key, at);
    AddFour(word, x, y, z, u);
    assert x + y + z + u == Word(key, at);
    PlusIsModular(word, Word(key, at));
  }

  lemma ThreeCasesAre(word: U32, key: seq<Byte>, at: nat)
    ensures ThreeCases(word, key, at) == Plus(word, LastWord(key, at))
  {
    var w2 := Case(word, key, at + 2, 0x100_0000);
    var w1 := Case(w2, key, at + 1, 0x1_0000);
    CaseIs(word, key, at + 2, 0x100_0000);
    CaseIs(w2, key, at + 1, 0x1_0000);
    CaseIs(w1, key, at, 0x100);
    var x, y, z := 0x100_0000 * Octet(key, at + 2), 0x1_0000 * Octet(key, at + 1), 0x100 * Octet(key, at);
    AddThree(word, x, y, z);
    assert x + y + z == LastWord(key, at);
    PlusIsModular(word, LastWord(key, at));
  }

  lemma FourAtIs(w: U32, key: seq<Byte>, at: nat)
    requires at + 4 <= |key|
    ensures (w + FourAt(key, at)) % 0x1_0000_0000 == Plus(w, Word(key, at))
  {
    assert FourAt(key, at) == Word(key, at);
    PlusIsModular(w, Word(key, at));
  }

  lemma BlockIsCode(mix: Mixer, key: seq<Byte>, w: Words, at: nat)
    requires at + 12 <= |key|
    ensures BlockCode(mix, key, w, at) == WholeBlock(mix, w, key, at)
  {
    FourAtIs(w.a, key, at);
    FourAtIs(w.b, key, at + 4);
    FourAtIs(w.c, key, at + 8);
  }

  lemma TailWithIs(mix: Mixer, four: (U32, nat) -> U32, three: (U32, nat) -> U32, key: seq<Byte>, w: Words, at: nat)
    requires |key| < WRAP
    requires forall x: U32, i: nat :: four(x, i) == Plus(x, Word(key, i))
    requires forall x: U32, i: nat :: three(x, i) == Plus(x, LastWord(key, i))
    ensures TailWith(mix, four, three, |key|, w, at) == LastBlock(mix, w, key, at)
  {
    PlusIsModular(w.c, |key|);
  }

  lemma TailIsCode(mix: Mixer, key: seq<Byte>, w: Words, at: nat)
    requires |key| < WRAP
    ensures TailCode(mix, key, w, at) == LastBlock(mix, w, key, at)
  {
    var four, three := (x: U32, i: nat) => FourCases(x, key, i), (x: U32, i: nat) => ThreeCases(x, key, i);
    forall x: U32, i: nat
      ensures four(x, i) == Plus(x, Word(key, i)) && three(x, i) == Plus(x, LastWord(key, i))
    {
      FourCasesAre(x, key, i);
      ThreeCasesAre(x, key, i);
    }
    TailWithIs(mix, four, three, key, w, at);
  }

  // A step that mixes alike takes in blocks alike.
  lemma SameMixer(mix: Mixer, other: Mixer, key: seq<Byte>)
    requires forall w: Words :: mix(w) == other(w)
    ensures JenState(mix, key) == JenState(other, key)
  {
    BlocksBefore(TakingBlocks(mix, key), TakingBlocks(other, key), |key| / 12);
  }

  // The loop is the recursion over blocks, for any blocks and any tail.
  lemma {:induction false} LoopIs(block: (Words, nat) -> Words, tail: (Words, nat) -> Words, step: Step, length: nat, n: nat)
    requires 12 * n <= length
    requires forall w: Words, k: nat | 12 * k + 12 <= length :: block(w, 12 * k) == step(w, k)
    ensures LoopCode(block, tail, length, 12 * n, Blocks(step, n)) == tail(Blocks(step, length / 12), 12 * (length / 12))
    decreases length - 12 * n
  {
    if length >= 12 * n + 12 {
      NextBlock(step, n);
      LoopIs(block, tail, step, length, n + 1);
    } else {
      assert length / 12 == n;
    }
  }

  // The state of HASH_JEN is what its code computes.
  lemma JenStateIsCode(key: seq<Byte>)
    requires |key| < WRAP
    ensures JenState(Mix, key) == JenCode(key)
  {
    forall w: Words
      ensures Mix(w) == MixCode(w)
    {
      MixIsCode(w);
    }
    SameMixer(Mix, MixCode, key);
    CodeIsState(MixCode, key);
  }

  lemma CodeIsState(mix: Mixer, key: seq<Byte>)
    requires |key| < WRAP
    ensures JenState(mix, key) == CodeWith(mix, key)
  {
    var block := (w: Words, at: nat) => BlockCode(mix, key, w, at);
    var tail := (w: Words, at: nat) => TailCode(mix, key, w, at);
    var step := TakingBlocks(mix, key);
    forall w: Words, k: nat | 12 * k + 12 <= |key|
      ensures block(w, 12 * k) == step(w, k)
    {
      BlockIsCode(mix, key, w, 12 * k);
    }
    LoopIs(block, tail, step, |key|, 0);
    TailIsCode(mix, key, Blocks(step, |key| / 12), 12 * (|key| / 12));
  }

  // HASH_JEN.
  method HashJen(key: seq<Byte>) returns (hashv: U32)
    requires |key| < WRAP
    ensures hashv == JenCode(key).c
  {
    JenStateIsCode(key);
    hashv := HashJenWith(Mix, key);
  }
}
