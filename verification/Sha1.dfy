/**
 * SHA-1 as published in RFC 3174: padding of section 4, functions and constants of section 5,
 * method 1 of section 6.1.
 */
module Sha1 {
  import opened Bytes
  import opened BlockFold

  datatype Hash = Hash(a: word, b: word, c: word, d: word, e: word)

  const InitialHash := Hash(0x67452301, 0xEFCDAB89, 0x98BADCFE, 0x10325476, 0xC3D2E1F0)

  /** Circular left shifts. */
  function Rotl1(x: word): word {
    x % 0x8000_0000 * 2 + x / 0x8000_0000
  }

  function Rotl5(x: word): word {
    x % 0x800_0000 * 32 + x / 0x800_0000
  }

  function Rotl30(x: word): word {
    x % 4 * 0x4000_0000 + x / 4
  }

  function F(t: nat, b: word, c: word, d: word): word {
    if t < 20 then Or32(And32(b, c), And32(Not32(b), d))
    else if t < 40 then Xor32(Xor32(b, c), d)
    else if t < 60 then Or32(Or32(And32(b, c), And32(b, d)), And32(c, d))
    else Xor32(Xor32(b, c), d)
  }

  function K(t: nat): word {
    if t < 20 then 0x5A827999
    else if t < 40 then 0x6ED9EBA1
    else if t < 60 then 0x8F1BBCDC
    else 0xCA62C1D6
  }

  /** Word `t` of a block, most significant octet first. */
  function BlockWord(block: seq<byte>, t: nat): word
    requires |block| == 64 && t < 16
  {
    var b: seq<int> := block[4 * t..4 * t + 4];
    0x100_0000 * b[0] + 0x1_0000 * b[1] + 0x100 * b[2] + b[3]
  }

  function NextWord(x: word, y: word, z: word, u: word): word {
    Rotl1(Xor32(Xor32(Xor32(x, y), z), u))
  }

  /** The message schedule W(t). */
  function Schedule(block: seq<byte>, t: nat): word
    requires |block| == 64
  {
    if t < 16 then BlockWord(block, t)
    else NextWord(Schedule(block, t - 3), Schedule(block, t - 8), Schedule(block, t - 14), Schedule(block, t - 16))
  }

  function Step(h: Hash, t: nat, w: word): Hash {
    Hash(Add32(Add32(Add32(Add32(Rotl5(h.a), F(t, h.b, h.c, h.d)), h.e), K(t)), w), h.a, Rotl30(h.b), h.c, h.d)
  }

  /** The five words after `t` rounds. */
  function Rounds(h: Hash, block: seq<byte>, t: nat): Hash
    requires |block| == 64
    decreases |block|, t
  {
    if t == 0 then h else Step(Rounds(h, block, t - 1), t - 1, Schedule(block, t - 1))
  }

  function Sum(h: Hash, g: Hash): Hash {
    Hash(Add32(h.a, g.a), Add32(h.b, g.b), Add32(h.c, g.c), Add32(h.d, g.d), Add32(h.e, g.e))
  }

  function Compress(h: Hash, block: seq<byte>): Hash
    requires |block| == 64
  {
    Sum(h, Rounds(h, block, 80))
  }

  /** The compression function as a value, so that hashing a message is folding it over blocks. */
  const COMPRESS: (Hash, seq<byte>) -> Hash :=
    (h: Hash, block: seq<byte>) => if |block| == 64 then Compress(h, block) else h

  lemma CompressIs(h: Hash, block: seq<byte>)
    requires |block| == 64
    ensures COMPRESS(h, block) == Compress(h, block)
  {
  }

  function Zeros(n: nat): (r: seq<byte>)
    ensures |r| == n
  {
    seq(n, _ => 0)
  }

  /** How many zero octets follow the 1 bit's octet so that the length field ends a block. */
  function ZeroCount(len: nat): (z: nat)
    ensures z < 64 && (len + 1 + z) % 64 == 56
  {
    (119 - len % 64) % 64
  }

  /** Section 4: a 1 bit, zeros, and the length in bits as a 64-bit number. */
  function Padded(m: seq<byte>): (r: seq<byte>)
    ensures |r| % 64 == 0
  {
    PaddedSize(|m|);
    m + [0x80] + Zeros(ZeroCount(|m|)) + BigEndian(8 * |m|, 8)
  }

  lemma PaddedSize(len: nat)
    ensures (len + 1 + ZeroCount(len) + 8) % 64 == 0
  {
  }

  /** An octet of a word, most significant first. */
  function WordOctet(w: word, k: nat): byte
    requires k < 4
  {
    if k == 0 then w / 0x100_0000
    else if k == 1 then w / 0x1_0000 % 256
    else if k == 2 then w / 0x100 % 256
    else w % 256
  }

  lemma WordOctets(w: nat)
    requires w < 0x1_0000_0000
    ensures forall k :: 0 <= k < 4 ==> BigEndian(w, 4)[k] == WordOctet(w, k)
  {
    var a, b, c := w / 0x100, w / 0x1_0000, w / 0x100_0000;
    assert a / 256 == b && b / 256 == c && c % 256 == c;
    assert BigEndian(c, 1) == [c];
    assert BigEndian(b, 2) == [c] + [b % 256];
    assert BigEndian(a, 3) == [c] + [b % 256] + [a % 256];
    assert BigEndian(w, 4) == [c] + [b % 256] + [a % 256] + [w % 256];
  }

  function WordAt(h: Hash, i: nat): word
    requires i < 5
  {
    if i == 0 then h.a else if i == 1 then h.b else if i == 2 then h.c else if i == 3 then h.d else h.e
  }

  function HashOctets(h: Hash): (r: seq<byte>)
    ensures |r| == 20
  {
    seq(20, i requires 0 <= i < 20 => WordOctet(WordAt(h, i / 4), i % 4))
  }

  /** The message digest. */
  function Digest(m: seq<byte>): (r: seq<byte>)
    ensures |r| == 20
  {
    HashOctets(Blocks(COMPRESS, InitialHash, Padded(m)))
  }
}
