/** Octets, masking and fixed-width integers in network byte order. */
module Bytes {

  /** An `unsigned char`. Shifts and masks by powers of two are written with `/` and `%`. */
  type byte = b: int | 0 <= b < 256

  /** The status codes returned by the modelled functions. */
  datatype Status = Success | Invalid | NoMemory | Framing | TooBig | BadHandshake

  datatype Option<T> = None | Some(value: T)

  function Min(a: int, b: int): int {
    if a < b then a else b
  }

  function Max(a: int, b: int): int {
    if a < b then b else a
  }

  /** The octets of a string of ASCII characters. */
  function Ascii(s: string): (r: seq<byte>)
    ensures |r| == |s|
  {
    seq(|s|, i requires 0 <= i < |s| => s[i] as int % 256)
  }

  /** Doubles a capacity until it holds `need`. */
  function Grow(cap: nat, need: nat): (r: nat)
    requires cap > 0
    ensures r >= cap && r >= need
    ensures r == cap || r < 2 * need
    decreases need - cap
  {
    if cap < need then Grow(2 * cap, need) else cap
  }

  lemma {:induction false} GrowTwice(c: nat, n: nat, more: nat)
    requires c > 0 && n < more
    ensures Grow(c, n) < more ==> Grow(c, more) == Grow(2 * Grow(c, n), more)
    ensures Grow(c, n) >= more ==> Grow(c, more) == Grow(c, n)
    decreases n - c
  {
    if c < n {
      GrowTwice(2 * c, n, more);
    }
  }

  // ---------- exclusive or ----------

  /** Bitwise exclusive or of two naturals, low bit first. */
  function XorNat(a: nat, b: nat): nat {
    if a == 0 then b
    else if b == 0 then a
    else (if a % 2 == b % 2 then 0 else 1) + 2 * XorNat(a / 2, b / 2)
  }

  lemma {:induction false} XorNatTwice(a: nat, k: nat)
    ensures XorNat(XorNat(a, k), k) == a
    decreases a + k
  {
    if a == 0 {
      if k > 0 {
        XorNatTwice(0, k / 2);
      }
    } else if k > 0 {
      XorNatTwice(a / 2, k / 2);
    }
  }

  function Pow2(n: nat): (r: nat)
    ensures r >= 1
  {
    if n == 0 then 1 else 2 * Pow2(n - 1)
  }

  lemma {:induction false} XorNatBound(a: nat, b: nat, n: nat)
    requires a < Pow2(n) && b < Pow2(n)
    ensures XorNat(a, b) < Pow2(n)
  {
    if a > 0 && b > 0 {
      XorNatBound(a / 2, b / 2, n - 1);
    }
  }

  /** `a ^ b` on octets. */
  function Xor(a: byte, b: byte): byte {
    assert Pow2(8) == 256;
    XorNatBound(a, b, 8);
    XorNat(a, b)
  }

  lemma XorTwice(a: byte, k: byte)
    ensures Xor(Xor(a, k), k) == a
  {
    XorNatTwice(a, k);
  }

  // ---------- 32-bit words ----------

  /** A `uint32_t`: addition wraps around, `/` and `%` by powers of two are shifts and masks. */
  type word = x: int | 0 <= x < 0x1_0000_0000

  function AndNat(a: nat, b: nat): (r: nat)
    ensures r <= a
  {
    if a == 0 || b == 0 then 0
    else (if a % 2 == 1 && b % 2 == 1 then 1 else 0) + 2 * AndNat(a / 2, b / 2)
  }

  function OrNat(a: nat, b: nat): nat {
    if a == 0 then b
    else if b == 0 then a
    else (if a % 2 == 1 || b % 2 == 1 then 1 else 0) + 2 * OrNat(a / 2, b / 2)
  }

  lemma {:induction false} OrNatBound(a: nat, b: nat, n: nat)
    requires a < Pow2(n) && b < Pow2(n)
    ensures OrNat(a, b) < Pow2(n)
  {
    if a > 0 && b > 0 {
      OrNatBound(a / 2, b / 2, n - 1);
    }
  }

  lemma WordBound()
    ensures Pow2(32) == 0x1_0000_0000
  {
    assert Pow2(8) == 256;
    assert Pow2(16) == 0x1_0000;
    assert Pow2(24) == 0x100_0000;
  }

  function Add32(a: word, b: word): word {
    (a + b) % 0x1_0000_0000
  }

  function And32(a: word, b: word): word {
    AndNat(a, b)
  }

  function Or32(a: word, b: word): word {
    WordBound();
    OrNatBound(a, b, 32);
    OrNat(a, b)
  }

  function Xor32(a: word, b: word): word {
    WordBound();
    XorNatBound(a, b, 32);
    XorNat(a, b)
  }

  function Not32(a: word): word {
    0xFFFF_FFFF - a
  }

  // ---------- division ----------

  lemma QuotientUnique(n: nat, d: nat, q: nat, r: nat)
    requires d > 0 && n == q * d + r && r < d
    ensures n / d == q && n % d == r
  {
    var q', r' := n / d, n % d;
    assert n == q' * d + r';
    Distinct(q, q', d);
    Distinct(q', q, d);
  }

  lemma Distinct(x: nat, y: nat, d: nat)
    ensures x < y ==> x * d + d <= y * d
  {
    if x < y {
      Multiple(y - x, d);
      assert y * d == x * d + (y - x) * d;
    }
  }

  lemma Multiple(x: nat, d: nat)
    requires x >= 1
    ensures x * d >= d
  {
  }

  // ---------- big-endian integers ----------

  function Pow256(k: nat): (r: nat)
    ensures r >= 1
  {
    if k == 0 then 1 else 256 * Pow256(k - 1)
  }

  /** The low `k` octets of `n`, most significant first. */
  function BigEndian(n: nat, k: nat): (r: seq<byte>)
    ensures |r| == k
  {
    if k == 0 then [] else BigEndian(n / 256, k - 1) + [n % 256]
  }

  function FromBigEndian(s: seq<byte>): nat {
    if s == [] then 0 else 256 * FromBigEndian(s[..|s| - 1]) + s[|s| - 1]
  }

  lemma {:induction false} BigEndianRoundTrip(n: nat, k: nat)
    requires n < Pow256(k)
    ensures FromBigEndian(BigEndian(n, k)) == n
  {
    if k > 0 {
      BigEndianRoundTrip(n / 256, k - 1);
      var s := BigEndian(n, k);
      assert s[..|s| - 1] == BigEndian(n / 256, k - 1);
    }
  }

  lemma {:induction false} BigEndianMod(n: nat, m: nat, k: nat)
    requires n % Pow256(k) == m % Pow256(k)
    ensures BigEndian(n, k) == BigEndian(m, k)
  {
    if k > 0 {
      LastOctet(n, m, k);
      BigEndianMod(n / 256, m / 256, k - 1);
    }
  }

  lemma LastOctet(n: nat, m: nat, k: nat)
    requires k > 0 && n % Pow256(k) == m % Pow256(k)
    ensures n % 256 == m % 256 && n / 256 % Pow256(k - 1) == m / 256 % Pow256(k - 1)
  {
    var p := Pow256(k - 1);
    var x, y := n / 256 % p, m / 256 % p;
    assert Pow256(k) == 256 * p;
    DivideOut(n, p);
    DivideOut(m, p);
    SameDigits(x, n % 256, y, m % 256);
  }

  lemma SameDigits(x: nat, r: nat, y: nat, q: nat)
    requires r < 256 && q < 256 && x * 256 + r == y * 256 + q
    ensures x == y && r == q
  {
  }

  lemma DivideOut(n: nat, p: nat)
    requires p > 0
    ensures n % (256 * p) == n / 256 % p * 256 + n % 256
  {
    var q, r := n / 256, n % 256;
    var a, b := q / p, q % p;
    assert n == 256 * (a * p + b) + r;
    assert n == a * (256 * p) + (256 * b + r);
    assert 256 * b + r < 256 * p;
    QuotientUnique(n, 256 * p, a, 256 * b + r);
  }

  lemma ModTwice(n: nat, p: nat)
    requires p > 0
    ensures n % p % p == n % p < p
  {
    QuotientUnique(n % p, p, 0, n % p);
  }

  /** Only the low `k` octets count. */
  lemma BigEndianLow(n: nat, k: nat)
    ensures FromBigEndian(BigEndian(n, k)) == n % Pow256(k)
  {
    ModTwice(n, Pow256(k));
    BigEndianMod(n, n % Pow256(k), k);
    BigEndianRoundTrip(n % Pow256(k), k);
  }

  /** Octets of the same number and length are the same. */
  lemma {:induction false} FromBigEndianInjective(a: seq<byte>, b: seq<byte>)
    requires |a| == |b| && FromBigEndian(a) == FromBigEndian(b)
    ensures a == b
  {
    if a != [] {
      var k := |a| - 1;
      SameDigits(FromBigEndian(a[..k]), a[k], FromBigEndian(b[..k]), b[k]);
      FromBigEndianInjective(a[..k], b[..k]);
      assert a == a[..k] + [a[k]] && b == b[..k] + [b[k]];
    }
  }

  /** Octet `j` counts `Pow256` of its distance from the end. */
  lemma {:induction false} BigEndianAt(n: nat, k: nat, j: nat)
    requires j < k
    ensures BigEndian(n, k)[j] == n / Pow256(k - 1 - j) % 256
  {
    if j < k - 1 {
      BigEndianAt(n / 256, k - 1, j);
      DivideTwice(n, Pow256(k - 2 - j));
    }
  }

  lemma DivideTwice(n: nat, p: nat)
    requires p > 0
    ensures n / 256 / p == n / (256 * p)
  {
    var q, r := n / 256, n % 256;
    var a, b := q / p, q % p;
    assert n == a * (256 * p) + (256 * b + r) by {
      assert n == 256 * (a * p + b) + r;
      assert 256 * (a * p) == a * (256 * p);
    }
    QuotientUnique(n, 256 * p, a, 256 * b + r);
  }

  // ---------- sequences ----------

  /** Names a value for which a definition behind a quantifier is to be opened. */
  predicate Opened<T>(x: T) {
    true
  }

  lemma Regroup<T>(a: seq<T>, b: seq<T>, c: seq<T>)
    ensures a + b + c == a + (b + c)
  {
  }

  function Flatten<T>(chunks: seq<seq<T>>): seq<T> {
    if chunks == [] then [] else chunks[0] + Flatten(chunks[1..])
  }

  lemma {:induction false} FlattenAppend<T>(a: seq<seq<T>>, b: seq<seq<T>>)
    ensures Flatten(a + b) == Flatten(a) + Flatten(b)
  {
    if a == [] {
      assert a + b == b;
    } else {
      assert (a + b)[1..] == a[1..] + b;
      FlattenAppend(a[1..], b);
    }
  }

  lemma FlattenSnoc<T>(a: seq<seq<T>>, x: seq<T>)
    ensures Flatten(a + [x]) == Flatten(a) + x
  {
    FlattenAppend(a, [x]);
    assert Flatten([x]) == x + Flatten([]);
  }
}
