// Unsigned 32-bit words, with the wrap-around of C written out.
module Word32 {
  import opened Bytes
  import opened HashBits

  const WRAP: nat := 0x1_0000_0000

  function Plus(x: U32, y: U32): U32 {
    if x + y < WRAP then x + y else x + y - WRAP
  }

  function Minus(x: U32, y: U32): U32 {
    if x >= y then x - y else x - y + WRAP
  }

  // Exclusive or of the low n bits.
  function XorBits(x: nat, y: nat, n: nat): (r: nat)
    ensures r < Pow2(n)
  {
    if n == 0 then 0 else (x + y) % 2 + 2 * XorBits(x / 2, y / 2, n - 1)
  }

  // One more low bit, in front of the rest.
  lemma XorBitsStep(x: nat, y: nat, n: nat)
    requires n > 0
    ensures XorBits(x, y, n) % 2 == (x + y) % 2
    ensures XorBits(x, y, n) / 2 == XorBits(x / 2, y / 2, n - 1)
  {
    BitAndRest((x + y) % 2, XorBits(x / 2, y / 2, n - 1));
  }

  lemma BitAndRest(bit: nat, rest: nat)
    requires bit < 2
    ensures (bit + 2 * rest) % 2 == bit && (bit + 2 * rest) / 2 == rest
  {
  }

  lemma {:induction false} XorBitsCommutes(x: nat, y: nat, n: nat)
    ensures XorBits(x, y, n) == XorBits(y, x, n)
  {
    if n > 0 {
      XorBitsCommutes(x / 2, y / 2, n - 1);
    }
  }

  lemma {:induction false} XorBitsInverse(x: nat, y: nat, n: nat)
    requires x < Pow2(n)
    ensures XorBits(XorBits(x, y, n), y, n) == x
  {
    if n > 0 {
      var r := XorBits(x, y, n);
      XorBitsStep(x, y, n);
      XorBitsStep(r, y, n);
      XorBitsInverse(x / 2, y / 2, n - 1);
      SameHalves(XorBits(r, y, n), x, y, r);
    }
  }

  lemma SameHalves(z: nat, x: nat, y: nat, r: nat)
    requires z / 2 == x / 2
    requires z % 2 == (r + y) % 2
    requires r % 2 == (x + y) % 2
    ensures z == x
  {
  }

  lemma Pow2Of32()
    ensures Pow2(32) == WRAP
  {
    assert Pow2(8) == 0x100;
    assert Pow2(16) == 0x1_0000;
    assert Pow2(24) == 0x100_0000;
  }

  function Xor(x: U32, y: U32): (r: U32) {
    Pow2Of32();
    XorBits(x, y, 32)
  }

  lemma XorInverse(x: U32, y: U32)
    ensures Xor(Xor(x, y), y) == Xor(y, Xor(y, x)) == Xor(Xor(y, x), y) == x
  {
    Pow2Of32();
    XorBitsInverse(x, y, 32);
    XorBitsCommutes(y, x, 32);
    XorBitsCommutes(y, XorBits(x, y, 32), 32);
  }

  lemma XorSeparates(x: U32, x': U32, y: U32)
    requires Xor(x, y) == Xor(x', y) || Xor(y, x) == Xor(y, x')
    ensures x == x'
  {
    XorInverse(x, y);
    XorInverse(x', y);
    XorInverse(y, x);
    XorInverse(y, x');
  }

  function Shl(x: U32, k: nat): U32 {
    x * Pow2(k) % WRAP
  }

  function Shr(x: U32, k: nat): U32 {
    if k == 0 then x else Shr(x / 2, k - 1)
  }

  // ---------- What the operations mean ----------

  lemma PlusIsModular(x: U32, y: U32)
    ensures Plus(x, y) == (x + y) % 0x1_0000_0000
    ensures Minus(x, y) == (x - y) % 0x1_0000_0000
  {
  }

  lemma DivDiv(x: nat, p: nat)
    requires p > 0
    ensures x / (2 * p) == x / 2 / p
  {
    RemainderByTwice(x, p);
    var h := x / 2;
    assert h == p * (h / p) + h % p;
    assert x == 2 * p * (h / p) + (x % 2 + 2 * (h % p));
    assert x == 2 * p * (x / (2 * p)) + x % (2 * p);
    SameQuotient(2 * p, h / p, x / (2 * p));
  }

  lemma SameQuotient(d: nat, q: int, q': int)
    requires d > 0 && d * q == d * q'
    ensures q == q'
  {
    if q != q' {
      MultiplesApart(d, q, q');
    }
  }

  lemma {:induction false} ShrIsDivision(x: U32, k: nat)
    ensures Shr(x, k) == x / Pow2(k)
  {
    if k > 0 {
      ShrIsDivision(x / 2, k - 1);
      DivDiv(x, Pow2(k - 1));
    }
  }

  function BitAt(x: nat, i: nat): nat {
    if i == 0 then x % 2 else BitAt(x / 2, i - 1)
  }

  lemma {:induction false} XorBitsAt(x: nat, y: nat, n: nat, i: nat)
    requires i < n
    ensures BitAt(XorBits(x, y, n), i) == if BitAt(x, i) == BitAt(y, i) then 0 else 1
  {
    XorBitsStep(x, y, n);
    if i > 0 {
      XorBitsAt(x / 2, y / 2, n - 1, i - 1);
    } else {
      OddSum(x, y);
    }
  }

  lemma OddSum(x: nat, y: nat)
    ensures (x + y) % 2 == if x % 2 == y % 2 then 0 else 1
  {
  }

  // Xor is the exclusive or of every bit.
  lemma XorIsBitwise(x: U32, y: U32, i: nat)
    requires i < 32
    ensures BitAt(Xor(x, y), i) == if BitAt(x, i) == BitAt(y, i) then 0 else 1
  {
    XorBitsAt(x, y, 32, i);
  }
}
