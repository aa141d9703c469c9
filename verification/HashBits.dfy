// Hash values and the low bits of them that pick a bucket or a filter bit.
module HashBits {
  function Pow2(k: nat): (r: nat)
    ensures r > 0
  {
    if k == 0 then 1 else 2 * Pow2(k - 1)
  }

  // h & (n - 1) bit by bit, for n a power of two.
  function LowBits(h: nat, n: nat): (b: nat)
    requires n > 0
    ensures b < n
    decreases n
  {
    if n == 1 then 0 else h % 2 + 2 * LowBits(h / 2, n / 2)
  }

  // HASH_TO_BKT.
  function ToBkt(hashv: nat, numBkts: nat): (b: nat)
    requires numBkts > 0
    ensures b < numBkts
  {
    LowBits(hashv, numBkts)
  }

  // Masking with 2^k - 1 is the remainder by 2^k.
  lemma {:induction false} LowBitsIsRemainder(h: nat, k: nat)
    ensures LowBits(h, Pow2(k)) == h % Pow2(k)
  {
    if k > 0 {
      LowBitsIsRemainder(h / 2, k - 1);
      RemainderByTwice(h, Pow2(k - 1));
    }
  }

  lemma RemainderByTwice(h: nat, p: nat)
    requires p > 0
    ensures h % (2 * p) == h % 2 + 2 * (h / 2 % p)
  {
    var q, r := h / 2 / p, h / 2 % p;
    var s := h % 2 + 2 * r;
    assert h / 2 == p * q + r;
    assert h == 2 * p * q + s && s < 2 * p;
    QuotientIs(h, 2 * p, q, s);
  }

  lemma QuotientIs(h: nat, d: nat, q: nat, r: nat)
    requires d > 0 && r < d && h == d * q + r
    ensures h % d == r
  {
    var q' := h / d;
    assert h == d * q' + h % d;
    if q' != q {
      MultiplesApart(d, q, q');
    }
  }

  lemma MultiplesApart(d: nat, q: int, q': int)
    requires q != q'
    ensures d * q' >= d * q + d || d * q >= d * q' + d
  {
    if q < q' {
      OneMultipleMore(d, q, q' - q);
    } else {
      OneMultipleMore(d, q', q - q');
    }
  }

  lemma OneMultipleMore(d: nat, q: int, k: int)
    requires k >= 1
    ensures d * (q + k) >= d * q + d
  {
    Distributes(d, q, k);
    AtLeastOnce(d, k);
  }

  lemma Distributes(d: nat, q: int, k: int)
    ensures d * (q + k) == d * q + d * k
  {
  }

  lemma {:induction false} AtLeastOnce(d: nat, k: int)
    requires k >= 1
    ensures d * k >= d
  {
    if k > 1 {
      AtLeastOnce(d, k - 1);
      Distributes(d, k - 1, 1);
    }
  }
}
