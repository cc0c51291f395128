/**
 * The compression function of RFC 3174 told bit by bit: the message schedule, the round and the
 * constants, apart from the formulas of `Sha1`, and that it is the one they compute.
 */
module Sha1Bits {
  import opened Bytes
  import opened Bits
  import opened BlockFold
  import opened Sha1

  // ---------- the message schedule ----------

  /** How many of four words have bit `i` set. */
  function Ones4(x: word, y: word, z: word, u: word, i: nat): nat {
    Bit(x, i) + Bit(y, i) + Bit(z, i) + Bit(u, i)
  }

  /** Bit `i` moves up by one place: there `w` has the parity of four words. */
  ghost predicate Mixes(w: word, x: word, y: word, z: word, u: word) {
    forall i: nat {:trigger Bit(x, i)} :: i < 32 ==> Bit(w, (i + 1) % 32) == Ones4(x, y, z, u, i) % 2
  }

  /** The first sixteen words are those of the block. */
  ghost predicate IsLoaded(block: seq<byte>, w: seq<word>)
    requires |block| == 64
  {
    |w| == 80 && forall t :: 0 <= t < 16 ==> w[t] == FromBigEndian(block[4 * t..4 * t + 4])
  }

  /** Word `t` is mixed from the words 3, 8, 14 and 16 places before. */
  ghost predicate MixedAt(w: seq<word>, t: nat)
    requires 16 <= t < |w|
  {
    Mixes(w[t], w[t - 3], w[t - 8], w[t - 14], w[t - 16])
  }

  ghost predicate IsMixed(w: seq<word>) {
    |w| == 80 && forall t {:trigger MixedAt(w, t)} :: 16 <= t < 80 ==> MixedAt(w, t)
  }

  ghost predicate IsSchedule(block: seq<byte>, w: seq<word>)
    requires |block| == 64
  {
    IsLoaded(block, w) && IsMixed(w)
  }

  /** The powers at which the rotations cut. */
  lemma Powers(a: nat, b: nat)
    requires (a, b) == (31, 1) || (a, b) == (27, 5) || (a, b) == (2, 30)
    ensures Pow2(a) * Pow2(b) == 0x1_0000_0000
    ensures b == 1 ==> Pow2(b) == 2
    ensures b == 5 ==> Pow2(b) == 32
    ensures a == 2 ==> Pow2(a) == 4
  {
    WordBound();
    Pow2Sum(a, b);
    assert Pow2(1) == 2 && Pow2(2) == 4 && Pow2(5) == 32;
  }

  lemma Rotl1Rotates(x: word)
    ensures IsRotation(Rotl1(x), x, 1)
  {
    Powers(31, 1);
    ExchangeRotates(Rotl1(x), x % 0x8000_0000, x / 0x8000_0000, 1, x);
  }

  lemma XorOnes(x: word, y: word, z: word, u: word, i: nat)
    ensures Bit(Xor32(Xor32(Xor32(x, y), z), u), i) == Ones4(x, y, z, u, i) % 2
  {
    XorBit(x, y, i);
    XorBit(Xor32(x, y), z, i);
    XorBit(Xor32(Xor32(x, y), z), u, i);
    Parity(Bit(x, i), Bit(y, i), Bit(z, i), Bit(u, i));
  }

  lemma Parity(x: nat, y: nat, z: nat, u: nat)
    requires x <= 1 && y <= 1 && z <= 1 && u <= 1
    ensures var a := if x == y then 0 else 1;
            var b := if a == z then 0 else 1;
            (if b == u then 0 else 1) == (x + y + z + u) % 2
            && b == (x + y + z) % 2
  {
  }

  lemma NextMixes(x: word, y: word, z: word, u: word)
    ensures Mixes(NextWord(x, y, z, u), x, y, z, u)
  {
    var c := Xor32(Xor32(Xor32(x, y), z), u);
    Rotl1Rotates(c);
    forall i: nat | i < 32
      ensures Bit(Rotl1(c), (i + 1) % 32) == Ones4(x, y, z, u, i) % 2
    {
      XorOnes(x, y, z, u, i);
    }
  }

  /** No other word has these bits. */
  lemma OneMix(v: word, w: word, x: word, y: word, z: word, u: word)
    requires Mixes(v, x, y, z, u) && Mixes(w, x, y, z, u)
    ensures v == w
  {
    WordBound();
    forall j: nat | j < 32
      ensures Bit(v, j) == Bit(w, j)
    {
      var i: nat := if j >= 1 then j - 1 else 31;
      Around(i, 1);
      assert Bit(v, (i + 1) % 32) == Ones4(x, y, z, u, i) % 2 == Bit(w, (i + 1) % 32);
    }
    SameBits(v, w, 32);
  }

  lemma BlockWordRight(block: seq<byte>, t: nat)
    requires |block| == 64 && t < 16
    ensures BlockWord(block, t) == FromBigEndian(block[4 * t..4 * t + 4])
  {
    var b := block[4 * t..4 * t + 4];
    assert b[..3][..2] == b[..2] && b[..2][..1] == b[..1] && b[..1][..0] == [];
    assert FromBigEndian(b[..1]) == b[0];
    assert FromBigEndian(b[..2]) == 256 * FromBigEndian(b[..1]) + b[1];
    assert FromBigEndian(b[..3]) == 256 * FromBigEndian(b[..2]) + b[2];
  }

  /** The words of `Schedule`. */
  function Words(block: seq<byte>): (w: seq<word>)
    requires |block| == 64
    ensures |w| == 80
  {
    seq(80, t requires 0 <= t < 80 => Schedule(block, t))
  }

  lemma LoadedIf(block: seq<byte>, w: seq<word>)
    requires |block| == 64 && |w| == 80 && forall t :: 0 <= t < 16 ==> w[t] == BlockWord(block, t)
    ensures IsLoaded(block, w)
  {
    forall t | 0 <= t < 16
      ensures w[t] == FromBigEndian(block[4 * t..4 * t + 4])
    {
      BlockWordRight(block, t);
    }
  }

  lemma MixedIf(w: seq<word>, t: nat)
    requires 16 <= t < |w| && w[t] == NextWord(w[t - 3], w[t - 8], w[t - 14], w[t - 16])
    ensures MixedAt(w, t)
  {
    NextMixes(w[t - 3], w[t - 8], w[t - 14], w[t - 16]);
  }

  lemma WordsMix(block: seq<byte>)
    requires |block| == 64
    ensures IsSchedule(block, Words(block))
  {
    var w := Words(block);
    LoadedIf(block, w);
    forall t | 16 <= t < 80
      ensures MixedAt(w, t)
    {
      MixedIf(w, t);
    }
  }

  lemma NextAlike(v: seq<word>, w: seq<word>, k: nat)
    requires IsMixed(v) && IsMixed(w) && 16 <= k < 80 && v[..k] == w[..k]
    ensures v[k] == w[k]
  {
    assert MixedAt(v, k) && MixedAt(w, k);
    var x, y, z, u := v[k - 3], v[k - 8], v[k - 14], v[k - 16];
    assert v[..k][k - 3] == w[k - 3] && v[..k][k - 8] == w[k - 8];
    assert v[..k][k - 14] == w[k - 14] && v[..k][k - 16] == w[k - 16];
    OneMix(v[k], w[k], x, y, z, u);
  }

  /** What is mixed from the same sixteen words is the same. */
  lemma {:induction false} OneContinuation(v: seq<word>, w: seq<word>, t: nat)
    requires IsMixed(v) && IsMixed(w) && v[..16] == w[..16] && 16 <= t <= 80
    ensures v[..t] == w[..t]
  {
    if t > 16 {
      var k := t - 1;
      OneContinuation(v, w, k);
      NextAlike(v, w, k);
      assert v[..t] == v[..k] + [v[k]] && w[..t] == w[..k] + [w[k]];
    }
  }

  lemma LoadedAlike(block: seq<byte>, v: seq<word>, w: seq<word>)
    requires |block| == 64 && IsLoaded(block, v) && IsLoaded(block, w)
    ensures v[..16] == w[..16]
  {
  }

  /** A block has one schedule only. */
  lemma OneSchedule(block: seq<byte>, v: seq<word>, w: seq<word>)
    requires |block| == 64 && IsSchedule(block, v) && IsSchedule(block, w)
    ensures v == w
  {
    LoadedAlike(block, v, w);
    OneContinuation(v, w, 80);
    assert v[..80] == v && w[..80] == w;
  }

  /** The words of `Schedule` are the schedule, and there is no other. */
  lemma ScheduleExactly(block: seq<byte>, w: seq<word>)
    requires |block| == 64
    ensures IsSchedule(block, w) <==> w == Words(block)
  {
    WordsMix(block);
    if IsSchedule(block, w) {
      OneSchedule(block, Words(block), w);
    }
  }

  // ---------- a round ----------

  /** Choice, parity and majority. */
  function MixBit(t: nat, b: word, c: word, d: word, i: nat): nat {
    if t < 20 then (if Bit(b, i) == 1 then Bit(c, i) else Bit(d, i))
    else if 40 <= t < 60 then (if Bit(b, i) + Bit(c, i) + Bit(d, i) >= 2 then 1 else 0)
    else (Bit(b, i) + Bit(c, i) + Bit(d, i)) % 2
  }

  ghost predicate IsMix(t: nat, f: word, b: word, c: word, d: word) {
    forall i: nat {:trigger Bit(f, i)} :: i < 32 ==> Bit(f, i) == MixBit(t, b, c, d, i)
  }

  /** The square root that a round's constant is cut from. */
  function Radicand(t: nat): nat {
    if t < 20 then 2 else if t < 40 then 3 else if t < 60 then 5 else 10
  }

  /** The first 32 bits of a quarter of the root of `n`. */
  predicate IsConstant(k: word, n: nat) {
    k * k <= n * 0x1000_0000_0000_0000 < (k + 1) * (k + 1)
  }

  lemma KIsConstant(t: nat)
    ensures IsConstant(K(t), Radicand(t))
  {
  }

  lemma OneConstant(k: word, l: word, n: nat)
    requires IsConstant(k, n) && IsConstant(l, n)
    ensures k == l
  {
    if k < l {
      Squares(k + 1, l);
    } else if l < k {
      Squares(l + 1, k);
    }
  }

  lemma Squares(x: nat, y: nat)
    requires x <= y
    ensures x * x <= y * y
  {
  }

  lemma ChoiceBit(b: word, c: word, d: word, i: nat)
    requires i < 32
    ensures Bit(Or32(And32(b, c), And32(Not32(b), d)), i) == if Bit(b, i) == 1 then Bit(c, i) else Bit(d, i)
  {
    Not32Bit(b, i);
    AndBit(b, c, i);
    AndBit(Not32(b), d, i);
    OrBit(And32(b, c), And32(Not32(b), d), i);
  }

  lemma ParityBit(b: word, c: word, d: word, i: nat)
    ensures Bit(Xor32(Xor32(b, c), d), i) == (Bit(b, i) + Bit(c, i) + Bit(d, i)) % 2
  {
    XorBit(b, c, i);
    XorBit(Xor32(b, c), d, i);
    Parity(Bit(b, i), Bit(c, i), Bit(d, i), 0);
  }

  lemma MajorityBit(b: word, c: word, d: word, i: nat)
    ensures Bit(Or32(Or32(And32(b, c), And32(b, d)), And32(c, d)), i) ==
            if Bit(b, i) + Bit(c, i) + Bit(d, i) >= 2 then 1 else 0
  {
    AndBit(b, c, i);
    AndBit(b, d, i);
    AndBit(c, d, i);
    OrBit(And32(b, c), And32(b, d), i);
    OrBit(Or32(And32(b, c), And32(b, d)), And32(c, d), i);
  }

  lemma FMixes(t: nat, b: word, c: word, d: word)
    ensures IsMix(t, F(t, b, c, d), b, c, d)
  {
    forall i: nat | i < 32
      ensures Bit(F(t, b, c, d), i) == MixBit(t, b, c, d, i)
    {
      if t < 20 {
        ChoiceBit(b, c, d, i);
      } else if 40 <= t < 60 {
        MajorityBit(b, c, d, i);
      } else {
        ParityBit(b, c, d, i);
      }
    }
  }

  lemma OneMixture(t: nat, f: word, g: word, b: word, c: word, d: word)
    requires IsMix(t, f, b, c, d) && IsMix(t, g, b, c, d)
    ensures f == g
  {
    WordBound();
    SameBits(f, g, 32);
  }

  lemma Rotl5Rotates(x: word)
    ensures IsRotation(Rotl5(x), x, 5)
  {
    Powers(27, 5);
    ExchangeRotates(Rotl5(x), x % 0x800_0000, x / 0x800_0000, 5, x);
  }

  lemma Rotl30Rotates(x: word)
    ensures IsRotation(Rotl30(x), x, 30)
  {
    Powers(2, 30);
    ExchangeRotates(Rotl30(x), x % 4, x / 4, 30, x);
  }

  lemma {:induction false} Pow2Sum(a: nat, b: nat)
    ensures Pow2(a + b) == Pow2(a) * Pow2(b)
  {
    if a > 0 {
      Pow2Sum(a - 1, b);
      assert 2 * Pow2(a - 1) * Pow2(b) == 2 * (Pow2(a - 1) * Pow2(b));
    }
  }

  /** The parts of a sum: the first variable rotated by 5, the mixture, and the constant. */
  ghost predicate AreParts(t: nat, h: Hash, r: word, f: word, k: word) {
    IsRotation(r, h.a, 5) && IsMix(t, f, h.b, h.c, h.d) && IsConstant(k, Radicand(t))
  }

  /** Round `t` with word `w` leads from `h` to `g`. */
  ghost predicate IsRound(t: nat, w: word, h: Hash, g: Hash) {
    && g.b == h.a && IsRotation(g.c, h.b, 30) && g.d == h.c && g.e == h.d
    && exists r: word, f: word, k: word :: AreParts(t, h, r, f, k) && g.a == (r + f + h.e + k + w) % 0x1_0000_0000
  }

  lemma StepParts(t: nat, h: Hash)
    ensures AreParts(t, h, Rotl5(h.a), F(t, h.b, h.c, h.d), K(t))
  {
    Rotl5Rotates(h.a);
    FMixes(t, h.b, h.c, h.d);
    KIsConstant(t);
  }

  lemma OneParts(t: nat, h: Hash, r: word, f: word, k: word, r': word, f': word, k': word)
    requires AreParts(t, h, r, f, k) && AreParts(t, h, r', f', k')
    ensures r == r' && f == f' && k == k'
  {
    OneRotation(r, r', h.a, 5);
    OneMixture(t, f, f', h.b, h.c, h.d);
    OneConstant(k, k', Radicand(t));
  }

  lemma StepIsRound(t: nat, w: word, h: Hash)
    ensures IsRound(t, w, h, Step(h, t, w))
  {
    StepParts(t, h);
    Rotl30Rotates(h.b);
    SumWraps(Rotl5(h.a), F(t, h.b, h.c, h.d), h.e, K(t), w);
    WithParts(t, w, h, Step(h, t, w), Rotl5(h.a), F(t, h.b, h.c, h.d), K(t));
  }

  lemma WithParts(t: nat, w: word, h: Hash, g: Hash, r: word, f: word, k: word)
    requires AreParts(t, h, r, f, k) && g.a == (r + f + h.e + k + w) % 0x1_0000_0000
    requires g.b == h.a && IsRotation(g.c, h.b, 30) && g.d == h.c && g.e == h.d
    ensures IsRound(t, w, h, g)
  {
  }

  lemma OneRound(t: nat, w: word, h: Hash, g: Hash, g': Hash)
    requires IsRound(t, w, h, g) && IsRound(t, w, h, g')
    ensures g == g'
  {
    var r: word, f: word, k: word :| AreParts(t, h, r, f, k) && g.a == (r + f + h.e + k + w) % 0x1_0000_0000;
    var r': word, f': word, k': word :|
      AreParts(t, h, r', f', k') && g'.a == (r' + f' + h.e + k' + w) % 0x1_0000_0000;
    OneParts(t, h, r, f, k, r', f', k');
    OneRotation(g.c, g'.c, h.b, 30);
  }

  /** A round leads to what `Step` computes, and nowhere else. */
  lemma RoundExactly(t: nat, w: word, h: Hash, g: Hash)
    ensures IsRound(t, w, h, g) <==> g == Step(h, t, w)
  {
    StepIsRound(t, w, h);
    if IsRound(t, w, h, g) {
      OneRound(t, w, h, g, Step(h, t, w));
    }
  }

  lemma SumWraps(r: word, f: word, e: word, k: word, w: word)
    ensures Add32(Add32(Add32(Add32(r, f), e), k), w) == (r + f + e + k + w) % 0x1_0000_0000
  {
    OneSum(r + f, e);
    OneSum(r + f + e, k);
    OneSum(r + f + e + k, w);
  }

  lemma OneSum(a: nat, b: nat)
    ensures (a % 0x1_0000_0000 + b) % 0x1_0000_0000 == (a + b) % 0x1_0000_0000
  {
  }

  // ---------- the compression function ----------

  ghost predicate RoundAt(w: seq<word>, hs: seq<Hash>, t: nat)
    requires t < |w| && t + 1 < |hs|
  {
    IsRound(t, w[t], hs[t], hs[t + 1])
  }

  /** From each state a round leads to the next one. */
  ghost predicate AreRounds(w: seq<word>, hs: seq<Hash>) {
    |hs| == |w| + 1 && forall t: nat {:trigger RoundAt(w, hs, t)} :: t < |w| ==> RoundAt(w, hs, t)
  }

  /** The states of `Rounds`. */
  function States(h: Hash, block: seq<byte>): (hs: seq<Hash>)
    requires |block| == 64
    ensures |hs| == |Words(block)| + 1
  {
    seq(|Words(block)| + 1, t requires 0 <= t <= |Words(block)| => Rounds(h, block, t))
  }

  lemma StatesAreRounds(h: Hash, block: seq<byte>)
    requires |block| == 64
    ensures AreRounds(Words(block), States(h, block))
  {
    var w, hs := Words(block), States(h, block);
    forall t: nat | t < |w|
      ensures RoundAt(w, hs, t)
    {
      StateIsNext(h, block, t);
      RoundExactly(t, w[t], hs[t], hs[t + 1]);
    }
  }

  lemma StateIsNext(h: Hash, block: seq<byte>, t: nat)
    requires |block| == 64 && t < |Words(block)|
    ensures States(h, block)[t + 1] == Step(States(h, block)[t], t, Words(block)[t])
  {
  }

  /** Rounds from the same state with the same words go through the same states. */
  lemma {:induction false} OnePath(w: seq<word>, hs: seq<Hash>, gs: seq<Hash>, t: nat)
    requires AreRounds(w, hs) && AreRounds(w, gs) && hs[0] == gs[0] && t <= |w|
    ensures hs[t] == gs[t]
  {
    if t > 0 {
      OnePath(w, hs, gs, t - 1);
      assert RoundAt(w, hs, t - 1) && RoundAt(w, gs, t - 1);
      OneRound(t - 1, w[t - 1], hs[t - 1], hs[t], gs[t]);
    }
  }

  ghost predicate AreSums(r: Hash, h: Hash, g: Hash) {
    && r.a == (h.a + g.a) % 0x1_0000_0000 && r.b == (h.b + g.b) % 0x1_0000_0000
    && r.c == (h.c + g.c) % 0x1_0000_0000 && r.d == (h.d + g.d) % 0x1_0000_0000
    && r.e == (h.e + g.e) % 0x1_0000_0000
  }

  /** A schedule, its rounds from `h` on, and what they lead to added to `h`. */
  ghost predicate Compresses(h: Hash, block: seq<byte>, r: Hash, w: seq<word>, hs: seq<Hash>)
    requires |block| == 64
  {
    IsSchedule(block, w) && AreRounds(w, hs) && hs[0] == h && AreSums(r, h, hs[|w|])
  }

  ghost predicate IsCompression(h: Hash, block: seq<byte>, r: Hash)
    requires |block| == 64
  {
    exists w, hs :: Compresses(h, block, r, w, hs)
  }

  lemma SumsExactly(r: Hash, h: Hash, g: Hash)
    ensures AreSums(r, h, g) <==> r == Sum(h, g)
  {
  }

  lemma OneResult(h: Hash, block: seq<byte>, r: Hash, w: seq<word>, hs: seq<Hash>)
    requires |block| == 64 && Compresses(h, block, r, w, hs)
    ensures r == Compress(h, block)
  {
    ScheduleExactly(block, w);
    StatesAreRounds(h, block);
    OnePath(w, hs, States(h, block), |w|);
    SumsExactly(r, h, hs[|w|]);
  }

  /** The compression function computes it, and nothing else is. */
  lemma CompressExactly(h: Hash, block: seq<byte>, r: Hash)
    requires |block| == 64
    ensures IsCompression(h, block, r) <==> r == Compress(h, block)
  {
    var w, hs := Words(block), States(h, block);
    ScheduleExactly(block, w);
    StatesAreRounds(h, block);
    SumsExactly(Compress(h, block), h, hs[|w|]);
    assert Compresses(h, block, Compress(h, block), w, hs);
    if IsCompression(h, block, r) {
      var w', hs' :| Compresses(h, block, r, w', hs');
      OneResult(h, block, r, w', hs');
    }
  }

  // ---------- the digest ----------

  ghost predicate CompressionAt(s: seq<byte>, hs: seq<Hash>, k: nat)
    requires 64 * k + 64 <= |s| && k + 1 < |hs|
  {
    IsCompression(hs[k], s[64 * k..64 * k + 64], hs[k + 1])
  }

  /** Each block compresses a state into the next one. */
  ghost predicate AreCompressions(s: seq<byte>, hs: seq<Hash>) {
    && |hs| == |s| / 64 + 1
    && forall k: nat {:trigger CompressionAt(s, hs, k)} :: k < |s| / 64 ==> CompressionAt(s, hs, k)
  }

  /** The octets of the words where hashing starts count up, down, and up again from their low ends. */
  lemma InitialOctets()
    ensures var h := InitialHash;
            && (forall k :: 0 <= k < 4 ==> WordOctet(h.a, 3 - k) == 0x01 + 0x22 * k)
            && (forall k :: 0 <= k < 4 ==> WordOctet(h.b, 3 - k) == 0x89 + 0x22 * k)
            && (forall k :: 0 <= k < 4 ==> WordOctet(h.c, 3 - k) == 0xFE - 0x22 * k)
            && (forall k :: 0 <= k < 4 ==> WordOctet(h.d, 3 - k) == 0x76 - 0x22 * k)
            && (forall k :: 0 <= k < 4 ==> WordOctet(h.e, 3 - k) == 0xF0 - 0x0F * k)
  {
  }

  /** Behind the message one set bit, fewer than 64 zero octets, and the number of its bits, to whole blocks. */
  ghost predicate IsPadding(m: seq<byte>, p: seq<byte>) {
    && |p| % 64 == 0 && |m| + 9 <= |p| < |m| + 73
    && p[..|m|] == m && p[|m|] == 0x80
    && (forall i :: |m| < i < |p| - 8 ==> p[i] == 0)
    && FromBigEndian(p[|p| - 8..]) == 8 * |m| % 0x1_0000_0000_0000_0000
  }

  /** The five words, each in four octets. */
  ghost predicate AreOctets(d: seq<byte>, h: Hash) {
    && |d| == 20
    && FromBigEndian(d[0..4]) == h.a && FromBigEndian(d[4..8]) == h.b && FromBigEndian(d[8..12]) == h.c
    && FromBigEndian(d[12..16]) == h.d && FromBigEndian(d[16..20]) == h.e
  }

  /** A padding, compressed block by block from the initial words on, and the words that come out. */
  ghost predicate Digests(m: seq<byte>, d: seq<byte>, p: seq<byte>, hs: seq<Hash>) {
    IsPadding(m, p) && AreCompressions(p, hs) && hs[0] == InitialHash && AreOctets(d, hs[|p| / 64])
  }

  ghost predicate IsDigest(m: seq<byte>, d: seq<byte>) {
    exists p, hs :: Digests(m, d, p, hs)
  }

  // ---------- it is the digest of the model ----------

  lemma PaddingTail(m: seq<byte>)
    ensures var p := Padded(m); FromBigEndian(p[|p| - 8..]) == 8 * |m| % 0x1_0000_0000_0000_0000
  {
    var p, tail := Padded(m), BigEndian(8 * |m|, 8);
    assert p[|p| - 8..] == tail;
    assert Pow256(4) == 0x1_0000_0000 && Pow256(8) == 0x1_0000_0000_0000_0000;
    BigEndianLow(8 * |m|, 8);
  }

  lemma PaddedIsPadding(m: seq<byte>)
    ensures IsPadding(m, Padded(m))
  {
    PaddingTail(m);
    var p, z := Padded(m), Zeros(ZeroCount(|m|));
    assert p == m + ([0x80] + z + BigEndian(8 * |m|, 8));
    assert forall i :: |m| < i < |p| - 8 ==> p[i] == z[i - |m| - 1];
  }

  lemma OnePadding(m: seq<byte>, p: seq<byte>, q: seq<byte>)
    requires IsPadding(m, p) && IsPadding(m, q)
    ensures p == q
  {
    OneMultiple(|p|, |q|, |m| + 9);
    var n := |p| - 8;
    FromBigEndianInjective(p[n..], q[n..]);
    assert p[..|m|] == q[..|m|];
    assert forall i :: 0 <= i < |m| ==> p[i] == p[..|m|][i] && q[i] == q[..|m|][i];
    assert forall i :: n <= i < |p| ==> p[i] == p[n..][i - n] && q[i] == q[n..][i - n];
  }

  lemma OneMultiple(a: nat, b: nat, low: nat)
    requires a % 64 == 0 && b % 64 == 0 && low <= a < low + 64 && low <= b < low + 64
    ensures a == b
  {
  }

  lemma HashSlice(h: Hash, i: nat)
    requires i < 5
    ensures HashOctets(h)[4 * i..4 * i + 4] == BigEndian(WordAt(h, i), 4)
  {
    WordOctets(WordAt(h, i));
    var o := HashOctets(h)[4 * i..4 * i + 4];
    forall k | 0 <= k < 4
      ensures o[k] == BigEndian(WordAt(h, i), 4)[k]
    {
      assert (4 * i + k) / 4 == i && (4 * i + k) % 4 == k;
    }
  }

  lemma WordRead(d: seq<byte>, h: Hash, i: nat)
    requires |d| == 20 && i < 5
    ensures FromBigEndian(d[4 * i..4 * i + 4]) == WordAt(h, i) <==>
            d[4 * i..4 * i + 4] == HashOctets(h)[4 * i..4 * i + 4]
  {
    var w := WordAt(h, i);
    HashSlice(h, i);
    assert Pow256(4) == 0x1_0000_0000;
    BigEndianRoundTrip(w, 4);
    if FromBigEndian(d[4 * i..4 * i + 4]) == w {
      FromBigEndianInjective(d[4 * i..4 * i + 4], BigEndian(w, 4));
    }
  }

  lemma FiveSlices(d: seq<byte>)
    requires |d| == 20
    ensures d == d[0..4] + d[4..8] + d[8..12] + d[12..16] + d[16..20]
  {
  }

  lemma OctetsExactly(d: seq<byte>, h: Hash)
    ensures AreOctets(d, h) <==> d == HashOctets(h)
  {
    if |d| == 20 {
      WordRead(d, h, 0);
      WordRead(d, h, 1);
      WordRead(d, h, 2);
      WordRead(d, h, 3);
      WordRead(d, h, 4);
      FiveSlices(d);
      FiveSlices(HashOctets(h));
    }
  }

  /** The states between the blocks. */
  function BlockStates(h: Hash, s: seq<byte>): (hs: seq<Hash>)
    ensures |hs| == |s| / 64 + 1
  {
    seq(|s| / 64 + 1, k requires 0 <= k <= |s| / 64 => Blocks(COMPRESS, h, s[..64 * k]))
  }

  lemma NextBlockState(h: Hash, s: seq<byte>, k: nat)
    requires k < |s| / 64
    ensures BlockStates(h, s)[k + 1] == Compress(BlockStates(h, s)[k], s[64 * k..64 * k + 64])
  {
    var front, block := s[..64 * k], s[64 * k..64 * k + 64];
    assert s[..64 * (k + 1)] == front + block;
    BlocksSnoc(COMPRESS, h, front, block);
    CompressIs(Blocks(COMPRESS, h, front), block);
  }

  lemma BlockStatesCompress(h: Hash, s: seq<byte>)
    ensures AreCompressions(s, BlockStates(h, s)) && BlockStates(h, s)[0] == h
  {
    var hs := BlockStates(h, s);
    forall k: nat | k < |s| / 64
      ensures CompressionAt(s, hs, k)
    {
      NextBlockState(h, s, k);
      CompressExactly(hs[k], s[64 * k..64 * k + 64], hs[k + 1]);
    }
  }

  lemma {:induction false} OneChain(s: seq<byte>, hs: seq<Hash>, gs: seq<Hash>, k: nat)
    requires AreCompressions(s, hs) && AreCompressions(s, gs) && hs[0] == gs[0] && k <= |s| / 64
    ensures hs[k] == gs[k]
  {
    if k > 0 {
      var i: nat := k - 1;
      OneChain(s, hs, gs, i);
      assert CompressionAt(s, hs, i) && CompressionAt(s, gs, i);
      CompressExactly(hs[i], s[64 * i..64 * i + 64], hs[k]);
      CompressExactly(gs[i], s[64 * i..64 * i + 64], gs[k]);
    }
  }

  lemma OneDigest(m: seq<byte>, d: seq<byte>, p: seq<byte>, hs: seq<Hash>)
    requires Digests(m, d, p, hs)
    ensures d == Digest(m)
  {
    var n := |p| / 64;
    PaddedIsPadding(m);
    OnePadding(m, p, Padded(m));
    BlockStatesCompress(InitialHash, p);
    OneChain(p, hs, BlockStates(InitialHash, p), n);
    assert p[..64 * n] == p;
    OctetsExactly(d, hs[n]);
  }

  lemma DigestDigests(m: seq<byte>)
    ensures Digests(m, Digest(m), Padded(m), BlockStates(InitialHash, Padded(m)))
  {
    var p := Padded(m);
    var n := |p| / 64;
    PaddedIsPadding(m);
    BlockStatesCompress(InitialHash, p);
    assert p[..64 * n] == p;
    OctetsExactly(Digest(m), Blocks(COMPRESS, InitialHash, p));
  }

  /** The digest of the model is the digest, and there is no other. */
  lemma DigestExactly(m: seq<byte>, d: seq<byte>)
    ensures IsDigest(m, d) <==> d == Digest(m)
  {
    DigestDigests(m);
    if IsDigest(m, d) {
      var p, hs :| Digests(m, d, p, hs);
      OneDigest(m, d, p, hs);
    }
  }
}
