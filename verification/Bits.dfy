/** What the bitwise operations on naturals do to each bit. */
module Bits {
  import opened Bytes

  /** Bit `i`, the lowest one being bit 0. */
  function Bit(x: nat, i: nat): (r: nat)
    ensures r <= 1
  {
    x / Pow2(i) % 2
  }

  lemma DivTwice(x: nat, p: nat)
    requires p > 0
    ensures x / (2 * p) == x / 2 / p
  {
    var y, r := x / 2, x % 2;
    var q, s := y / p, y % p;
    Doubled(q, p, s, r);
    QuotientUnique(x, 2 * p, q, 2 * s + r);
  }

  lemma Doubled(q: nat, p: nat, s: nat, r: nat)
    ensures 2 * (q * p + s) + r == q * (2 * p) + (2 * s + r)
  {
  }

  lemma BitUp(x: nat, i: nat)
    ensures Bit(x, i + 1) == Bit(x / 2, i)
    ensures Bit(x, 0) == x % 2
  {
    DivTwice(x, Pow2(i));
  }

  lemma Halved(bit: nat, rest: nat)
    requires bit <= 1
    ensures (bit + 2 * rest) % 2 == bit && (bit + 2 * rest) / 2 == rest
  {
  }

  lemma XorHalves(a: nat, b: nat)
    ensures XorNat(a, b) % 2 == if a % 2 == b % 2 then 0 else 1
    ensures XorNat(a, b) / 2 == XorNat(a / 2, b / 2)
  {
    if a > 0 && b > 0 {
      Halved(if a % 2 == b % 2 then 0 else 1, XorNat(a / 2, b / 2));
    }
  }

  lemma {:induction false} XorBit(a: nat, b: nat, i: nat)
    ensures Bit(XorNat(a, b), i) == if Bit(a, i) == Bit(b, i) then 0 else 1
    decreases i
  {
    XorHalves(a, b);
    if i == 0 {
      BitUp(a, 0);
      BitUp(b, 0);
      BitUp(XorNat(a, b), 0);
    } else {
      BitUp(a, i - 1);
      BitUp(b, i - 1);
      BitUp(XorNat(a, b), i - 1);
      XorBit(a / 2, b / 2, i - 1);
    }
  }

  lemma AndHalves(a: nat, b: nat)
    ensures AndNat(a, b) % 2 == if a % 2 == 1 then b % 2 else 0
    ensures AndNat(a, b) / 2 == AndNat(a / 2, b / 2)
  {
  }

  lemma {:induction false} AndBit(a: nat, b: nat, i: nat)
    ensures Bit(AndNat(a, b), i) == if Bit(a, i) == 1 then Bit(b, i) else 0
    decreases i
  {
    AndHalves(a, b);
    if i == 0 {
      BitUp(a, 0);
      BitUp(b, 0);
      BitUp(AndNat(a, b), 0);
    } else {
      BitUp(a, i - 1);
      BitUp(b, i - 1);
      BitUp(AndNat(a, b), i - 1);
      AndBit(a / 2, b / 2, i - 1);
    }
  }

  lemma OrHalves(a: nat, b: nat)
    ensures OrNat(a, b) % 2 == if a % 2 == 1 then 1 else b % 2
    ensures OrNat(a, b) / 2 == OrNat(a / 2, b / 2)
  {
  }

  lemma {:induction false} OrBit(a: nat, b: nat, i: nat)
    ensures Bit(OrNat(a, b), i) == if Bit(a, i) == 1 then 1 else Bit(b, i)
    decreases i
  {
    OrHalves(a, b);
    if i == 0 {
      BitUp(a, 0);
      BitUp(b, 0);
      BitUp(OrNat(a, b), 0);
    } else {
      BitUp(a, i - 1);
      BitUp(b, i - 1);
      BitUp(OrNat(a, b), i - 1);
      OrBit(a / 2, b / 2, i - 1);
    }
  }

  lemma {:induction false} ComplementBit(a: nat, n: nat, i: nat)
    requires a < Pow2(n) && i < n
    ensures Bit(Pow2(n) - 1 - a, i) == 1 - Bit(a, i)
    decreases i
  {
    var p := Pow2(n - 1);
    var x := 2 * p - 1 - a;
    assert Pow2(n) == 2 * p;
    assert x % 2 == 1 - a % 2 && x / 2 == p - 1 - a / 2;
    if i == 0 {
      BitUp(a, 0);
      BitUp(x, 0);
    } else {
      BitUp(a, i - 1);
      BitUp(x, i - 1);
      ComplementBit(a / 2, n - 1, i - 1);
    }
  }

  /** A number put together from its low `k` bits and the bits above. */
  lemma {:induction false} JoinedBit(high: nat, low: nat, k: nat, i: nat)
    requires low < Pow2(k)
    ensures Bit(high * Pow2(k) + low, i) == if i < k then Bit(low, i) else Bit(high, i - k)
    decreases k
  {
    var x := high * Pow2(k) + low;
    if k > 0 {
      var p := high * Pow2(k - 1);
      assert high * Pow2(k) == 2 * p;
      assert x % 2 == low % 2 && x / 2 == p + low / 2;
      if i == 0 {
        BitUp(x, 0);
        BitUp(low, 0);
      } else {
        BitUp(x, i - 1);
        BitUp(low, i - 1);
        JoinedBit(high, low / 2, k - 1, i - 1);
      }
    }
  }

  /** Numbers of `n` bits with the same bits are equal. */
  lemma {:induction false} SameBits(x: nat, y: nat, n: nat)
    requires x < Pow2(n) && y < Pow2(n)
    requires forall i: nat {:trigger Bit(x, i)} {:trigger Bit(y, i)} :: i < n ==> Bit(x, i) == Bit(y, i)
    ensures x == y
  {
    if n > 0 {
      BitUp(x, 0);
      BitUp(y, 0);
      forall i: nat | i < n - 1
        ensures Bit(x / 2, i) == Bit(y / 2, i)
      {
        BitUp(x, i);
        BitUp(y, i);
      }
      SameBits(x / 2, y / 2, n - 1);
    }
  }

  // ---------- 32-bit words ----------

  /** The word `y` is `x` rotated left by `k`. */
  ghost predicate IsRotation(y: word, x: word, k: nat) {
    forall i: nat {:trigger Bit(x, i)} :: i < 32 ==> Bit(y, (i + k) % 32) == Bit(x, i)
  }

  /** Cutting a word in two and exchanging the parts is a rotation. */
  lemma ExchangeRotates(y: word, low: nat, high: nat, k: nat, x: word)
    requires k < 32 && low < Pow2(32 - k) && high < Pow2(k)
    requires x == high * Pow2(32 - k) + low && y == low * Pow2(k) + high
    ensures IsRotation(y, x, k)
  {
    forall i: nat | i < 32
      ensures Bit(y, (i + k) % 32) == Bit(x, i)
    {
      JoinedBit(high, low, 32 - k, i);
      Around(i, k);
      JoinedBit(low, high, k, (i + k) % 32);
    }
  }

  lemma Around(i: nat, k: nat)
    requires i < 32 && k < 32
    ensures (i + k) % 32 == if i < 32 - k then i + k else i - (32 - k)
  {
  }

  /** A word has only one rotation. */
  lemma OneRotation(y: word, z: word, x: word, k: nat)
    requires IsRotation(y, x, k) && IsRotation(z, x, k) && k < 32
    ensures y == z
  {
    WordBound();
    forall j: nat | j < 32
      ensures Bit(y, j) == Bit(z, j)
    {
      var i: nat := if j >= k then j - k else j + 32 - k;
      Around(i, k);
      assert Bit(y, (i + k) % 32) == Bit(x, i) == Bit(z, (i + k) % 32);
    }
    SameBits(y, z, 32);
  }

  lemma Not32Bit(x: word, i: nat)
    requires i < 32
    ensures Bit(Not32(x), i) == 1 - Bit(x, i)
  {
    WordBound();
    ComplementBit(x, 32, i);
  }
}
