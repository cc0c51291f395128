/** The streaming SHA-1 of src/crypto_utils.c: a block buffer and a two-word bit counter. */
module Sha1Stream {
  import opened Bytes
  import opened BlockFold
  import opened Sha1
  import opened Sha1Bits

  const TWO32 := 0x1_0000_0000

  /** `math_sha1_transform`: the schedule in an array of 80 words, then the 80 rounds. */
  method Transform(state: Hash, block: seq<byte>) returns (r: Hash)
    requires |block| == 64
    ensures r == Compress(state, block) && IsCompression(state, block, r)
  {
    var w := new word[80](_ => 0);
    FillSchedule(w, block);
    r := state;
    for i := 0 to 80
      invariant r == Rounds(state, block, i)
      invariant forall t :: 0 <= t < 80 ==> w[t] == Schedule(block, t)
    {
      r := RoundBody(r, i, w[i]);
    }
    r := Sum(state, r);
    CompressExactly(state, block, r);
  }

  method FillSchedule(w: array<word>, block: seq<byte>)
    requires |block| == 64 && w.Length == 80
    modifies w
    ensures forall t :: 0 <= t < 80 ==> w[t] == Schedule(block, t)
    ensures IsSchedule(block, w[..])
  {
    for i := 0 to 16
      invariant forall t :: 0 <= t < i ==> w[t] == Schedule(block, t)
    {
      w[i] := BlockWord(block, i);
    }
    for i := 16 to 80
      invariant forall t :: 0 <= t < i ==> w[t] == Schedule(block, t)
    {
      w[i] := NextWord(w[i - 3], w[i - 8], w[i - 14], w[i - 16]);
    }
    assert w[..] == Words(block);
    ScheduleExactly(block, w[..]);
  }

  /** One round as the code writes it: the five variables are shifted through one another. */
  method RoundBody(h: Hash, i: nat, w: word) returns (r: Hash)
    requires i < 80
    ensures r == Step(h, i, w) && IsRound(i, w, h, r)
  {
    var a, b, c, d, e := h.a, h.b, h.c, h.d, h.e;
    var f: word, k: word;
    if i < 20 {
      f := Or32(And32(b, c), And32(Not32(b), d));
      k := 0x5A827999;
    } else if i < 40 {
      f := Xor32(Xor32(b, c), d);
      k := 0x6ED9EBA1;
    } else if i < 60 {
      f := Or32(Or32(And32(b, c), And32(b, d)), And32(c, d));
      k := 0x8F1BBCDC;
    } else {
      f := Xor32(Xor32(b, c), d);
      k := 0xCA62C1D6;
    }
    var temp := Add32(Add32(Add32(Add32(Rotl5(a), f), e), k), w);
    e := d;
    d := c;
    c := Rotl30(b);
    b := a;
    a := temp;
    r := Hash(a, b, c, d, e);
    RoundExactly(i, w, h, r);
  }

  // ---------- the bit counter ----------

  /** The two counter words after `len` more octets, as the code computes them. */
  function Counted(low: nat, high: nat, len: nat): (nat, nat) {
    var bits := 8 * len % 0x1_0000_0000_0000_0000;
    var low' := (low + bits % TWO32) % TWO32;
    var carried := if low' < bits then high + 1 else high;
    (low', (carried + len / 0x2000_0000 % TWO32) % TWO32)
  }

  /** The counter as one number. */
  function Count(words: (nat, nat)): nat {
    words.1 * TWO32 + words.0
  }

  /**
   * The carry test compares a 32-bit word with an unmasked product. The counter is right, modulo
   * 2^64, if and only if the call brings less than 2^29 octets or the low word really overflows.
   */
  lemma CounterRight(low: nat, high: nat, len: nat)
    requires low < TWO32 && high < TWO32 && len < 0x2000_0000_0000_0000
    ensures Count(Counted(low, high, len)) == (Count((low, high)) + 8 * len) % 0x1_0000_0000_0000_0000 <==>
            len < 0x2000_0000 || low + 8 * len % TWO32 >= TWO32
  {
    var q, r := len / 0x2000_0000, len % 0x2000_0000;
    LenSplit(len);
    var carry := if low + 8 * r >= TWO32 then 1 else 0;
    var low' := low + 8 * r - carry * TWO32;
    LowWord(low, high, len, low', carry);
    HighWord(high + carry + q, low');
    assert Count((low, high)) + 8 * len == (high + carry + q) * TWO32 + low';
    NextDiffers(high + q);
  }

  lemma LenSplit(len: nat)
    requires len < 0x2000_0000_0000_0000
    ensures var q, r := len / 0x2000_0000, len % 0x2000_0000;
            8 * len == q * TWO32 + 8 * r && 8 * len % TWO32 == 8 * r && q < TWO32
    ensures 8 * len % 0x1_0000_0000_0000_0000 == 8 * len
  {
  }

  /** What the code computes, in terms of the true low word and the true carry. */
  lemma LowWord(low: nat, high: nat, len: nat, low': nat, carry: nat)
    requires low < TWO32 && len < 0x2000_0000_0000_0000
    requires var r := len % 0x2000_0000;
             carry == (if low + 8 * r >= TWO32 then 1 else 0) && low' == low + 8 * r - carry * TWO32
    ensures Counted(low, high, len) ==
            (low', (high + (if len < 0x2000_0000 then carry else 1) + len / 0x2000_0000) % TWO32)
  {
    LenSplit(len);
    assert (low + 8 * (len % 0x2000_0000)) % TWO32 == low';
    assert low' < 8 * len <==> (if len < 0x2000_0000 then carry else 1) == 1;
    SumMod(high + (if len < 0x2000_0000 then carry else 1), len / 0x2000_0000);
  }

  lemma SumMod(x: nat, q: nat)
    requires q < TWO32
    ensures (x + q % TWO32) % TWO32 == (x + q) % TWO32
  {
  }

  lemma HighWord(h: nat, low: nat)
    requires low < TWO32
    ensures (h * TWO32 + low) % 0x1_0000_0000_0000_0000 == h % TWO32 * TWO32 + low
  {
    var q, r := h / TWO32, h % TWO32;
    assert h * TWO32 + low == q * 0x1_0000_0000_0000_0000 + (r * TWO32 + low);
  }

  lemma NextDiffers(h: nat)
    ensures (h + 1) % TWO32 != h % TWO32
  {
  }

  /** `Counted` for the calls that the class admits. */
  lemma CounterStep(low: nat, high: nat, len: nat, total: nat)
    requires low < TWO32 && high < TWO32 && Admitted(total, len)
    requires Count((low, high)) == 8 * total % 0x1_0000_0000_0000_0000
    ensures Count(Counted(low, high, len)) == 8 * (total + len) % 0x1_0000_0000_0000_0000
  {
    LowIs(low, high, total);
    CounterRight(low, high, len);
    Wrap(8 * total, 8 * len);
  }

  lemma LowIs(low: nat, high: nat, total: nat)
    requires low < TWO32 && high < TWO32
    requires Count((low, high)) == 8 * total % 0x1_0000_0000_0000_0000
    ensures low == 8 * total % TWO32
  {
    var q := 8 * total / 0x1_0000_0000_0000_0000;
    assert 8 * total == q * 0x1_0000_0000_0000_0000 + (high * TWO32 + low);
    QuotientUnique(8 * total, TWO32, q * TWO32 + high, low);
  }

  lemma Wrap(x: nat, y: nat)
    ensures (x % 0x1_0000_0000_0000_0000 + y) % 0x1_0000_0000_0000_0000 == (x + y) % 0x1_0000_0000_0000_0000
  {
    var q := x / 0x1_0000_0000_0000_0000;
    assert x + y == q * 0x1_0000_0000_0000_0000 + (x % 0x1_0000_0000_0000_0000 + y);
  }

  lemma CounterPosition(low: nat, high: nat, total: nat)
    requires low < TWO32 && high < TWO32
    requires Count((low, high)) == 8 * total % 0x1_0000_0000_0000_0000
    ensures low / 8 % 64 == total % 64
  {
    var q := 8 * total / 0x1_0000_0000_0000_0000;
    var k := q * 0x80_0000_0000_0000 + high * 0x80_0000;
    assert 8 * total == low + 8 * (64 * k);
    assert low / 8 == total - 64 * k;
  }

  // ---------- how much one call may bring ----------

  /** The counter takes `len` octets behind `total` rightly, by the condition of `CounterRight`. */
  predicate CounterTakes(total: nat, len: nat) {
    len < 0x2000_0000 || 8 * total % TWO32 + 8 * len % TWO32 >= TWO32
  }

  /** The block loop counts in 32 bits; it ends if and only if the last index it tests does not wrap around. */
  predicate LoopEnds(total: nat, len: nat) {
    total % 64 + len < TWO32
  }

  /** A call that is hashed as it should be; every call under 2^29 octets is one. */
  predicate Admitted(total: nat, len: nat) {
    CounterTakes(total, len) && LoopEnds(total, len)
  }

  /** The guard `i + 63 < len` of the block loop, with its 32-bit sum. */
  predicate Guard(i: nat, len: nat) {
    (i + 63) % TWO32 < len
  }

  /** While the loop ends in time, the guard is what it looks like. */
  lemma GuardRight(total: nat, len: nat, i: nat)
    requires LoopEnds(total, len) && i <= len && (total + i) % 64 == 0
    ensures Guard(i, len) <==> i + 63 < len
  {
    var j := total % 64;
    assert (j + i) % 64 == 0;
    NextMultiple(j + i);
  }

  lemma NextMultiple(n: nat)
    requires n % 64 == 0 && n < TWO32
    ensures n <= TWO32 - 64
  {
  }

  /** Otherwise every index that the loop can reach passes the guard: the loop never ends. */
  lemma LoopNeverEnds(total: nat, len: nat, i: nat)
    requires !LoopEnds(total, len) && total % 64 + len > 63 && i < TWO32 && (total + i) % 64 == 0
    ensures Guard(i, len)
    ensures (total + (i + 64) % TWO32) % 64 == 0
  {
    var j := total % 64;
    assert (j + i) % 64 == 0;
    if i + 63 < TWO32 {
      NextMultiple(j + i);
    }
  }

  /** A call that the counter does not take: 2^29 octets at the start. */
  lemma CounterFails()
    ensures !CounterTakes(0, 0x2000_0000) && LoopEnds(0, 0x2000_0000)
    ensures Count(Counted(0, 0, 0x2000_0000)) == 2 * (8 * 0x2000_0000)
  {
  }

  /** Every call of the sequence is admitted at its place. */
  predicate AllAdmitted(total: nat, chunks: seq<seq<byte>>)
    decreases |chunks|
  {
    chunks == [] || (Admitted(total, |chunks[0]|) && AllAdmitted(total + |chunks[0]|, chunks[1..]))
  }

  lemma {:induction false} ShortAdmitted(total: nat, chunks: seq<seq<byte>>)
    requires forall c <- chunks :: |c| < 0x2000_0000
    ensures AllAdmitted(total, chunks)
    decreases |chunks|
  {
    if chunks != [] {
      assert chunks[0] in chunks && forall c <- chunks[1..] :: c in chunks;
      ShortAdmitted(total + |chunks[0]|, chunks[1..]);
    }
  }

  /** The octets of `n` that are in whole blocks. */
  function Whole(n: nat): (w: nat)
    ensures w <= n && w % 64 == 0 && n - w == n % 64
  {
    n - n % 64
  }

  lemma WholeUnique(n: nat, cut: nat)
    requires cut % 64 == 0 && cut <= n < cut + 64
    ensures cut == Whole(n) && n % 64 == n - cut
  {
  }

  /** `f` is the compression function; its definition stays out of the buffering proofs. */
  ghost predicate IsCompress(f: (Hash, seq<byte>) -> Hash) {
    forall g: (Hash, seq<byte>) -> Hash {:trigger Opened(g)} :: Opened(g) && g == f ==> g == COMPRESS
  }

  lemma CompressIsCompress()
    ensures IsCompress(COMPRESS)
  {
  }

  method TransformAs(state: Hash, block: seq<byte>, ghost f: (Hash, seq<byte>) -> Hash) returns (r: Hash)
    requires |block| == 64 && IsCompress(f)
    ensures r == f(state, block)
  {
    r := Transform(state, block);
    assert Opened(f);
    CompressIs(state, block);
  }

  lemma DigestIs(f: (Hash, seq<byte>) -> Hash, m: seq<byte>)
    requires IsCompress(f)
    ensures HashOctets(Blocks(f, InitialHash, Padded(m))) == Digest(m)
  {
    assert Opened(f);
  }

  class Context {
    ghost const f: (Hash, seq<byte>) -> Hash
    var state: Hash
    var countLow: nat
    var countHigh: nat
    const buffer: array<byte>
    /** Everything hashed since initialisation. */
    ghost var message: seq<byte>

    ghost predicate Valid()
      reads this, buffer
    {
      && buffer.Length == 64 && IsCompress(f)
      && countLow < TWO32 && countHigh < TWO32
      && Count((countLow, countHigh)) == 8 * |message| % 0x1_0000_0000_0000_0000
      && var whole := Whole(|message|);
        && state == Blocks(f, InitialHash, message[..whole])
        && buffer[..|message| % 64] == message[whole..]
    }

    /** `sha1_init` */
    constructor ()
      ensures Valid() && fresh(buffer) && message == []
    {
      f := COMPRESS;
      CompressIsCompress();
      state := InitialHash;
      countLow, countHigh := 0, 0;
      buffer := new byte[64](_ => 0);
      message := [];
    }

    /** The state is that of `hashed`, a whole number of blocks. */
    ghost predicate Hashed(hashed: seq<byte>)
      reads this
    {
      |hashed| % 64 == 0 && state == Blocks(f, InitialHash, hashed)
    }

    /** `memcpy` into the buffer. */
    method Put(at: nat, data: seq<byte>)
      requires at + |data| <= buffer.Length
      modifies buffer
      ensures buffer[..at + |data|] == old(buffer[..at]) + data
    {
      forall k | 0 <= k < |data| {
        buffer[at + k] := data[k];
      }
    }

    method HashBlock(block: seq<byte>, ghost hashed: seq<byte>)
      requires |block| == 64 && Hashed(hashed) && IsCompress(f)
      modifies this`state
      ensures Hashed(hashed + block)
    {
      ghost var h := state;
      state := TransformAs(state, block, f);
      BlocksSnoc(f, InitialHash, hashed, block);
    }

    /** Completes the buffered block and hashes every further whole block directly from the input. */
    method HashWhole(j: nat, data: seq<byte>, ghost before: seq<byte>) returns (i: nat)
      requires IsCompress(f) && buffer.Length == 64 && j < 64 <= j + |data| && LoopEnds(|before|, |data|)
      requires |before| % 64 == j && Hashed(before[..|before| - j]) && buffer[..j] == before[|before| - j..]
      modifies this`state, buffer
      ensures i <= |data| < i + 64 && Hashed(before + data[..i])
    {
      i := 64 - j;
      Put(j, data[..i]);
      ghost var whole, rest := before[..|before| - j], before[|before| - j..];
      assert buffer[..] == rest + data[..i];
      assert before == whole + rest && whole + (rest + data[..i]) == before + data[..i];
      HashBlock(buffer[..], whole);
      GuardRight(|before|, |data|, i);
      while Guard(i, |data|)
        invariant i <= |data| && Hashed(before + data[..i])
        invariant (|before| + i) % 64 == 0 && (Guard(i, |data|) <==> i + 63 < |data|)
        decreases |data| - i
      {
        assert before + data[..i + 64] == (before + data[..i]) + data[i..i + 64];
        HashBlock(data[i..i + 64], before + data[..i]);
        i := i + 64;
        GuardRight(|before|, |data|, i);
      }
    }

    /** `sha1_update` */
    method Update(data: seq<byte>)
      requires Valid() && Admitted(|message|, |data|)
      modifies this, buffer
      ensures Valid() && message == old(message) + data
    {
      ghost var before := message;
      var j := countLow / 8 % 64;
      CounterPosition(countLow, countHigh, |message|);
      CounterStep(countLow, countHigh, |data|, |message|);
      Advance(|data|);
      message := before + data;
      ghost var cut := Store(j, data, before);
      WholeUnique(|message|, cut);
    }

    /** The counter update: right modulo 2^64 exactly under the condition of `CounterRight`. */
    method Advance(len: nat)
      requires countLow < TWO32 && countHigh < TWO32 && len < 0x2000_0000_0000_0000
      modifies this`countLow, this`countHigh
      ensures (countLow, countHigh) == Counted(old(countLow), old(countHigh), len)
      ensures countLow < TWO32 && countHigh < TWO32
      ensures Count((countLow, countHigh)) ==
              (Count((old(countLow), old(countHigh))) + 8 * len) % 0x1_0000_0000_0000_0000 <==>
              len < 0x2000_0000 || old(countLow) + 8 * len % TWO32 >= TWO32
    {
      CounterRight(countLow, countHigh, len);
      var bits := 8 * len % 0x1_0000_0000_0000_0000;
      countLow := (countLow + bits % TWO32) % TWO32;
      var carried := countHigh;
      if countLow < bits {
        carried := carried + 1;
      }
      countHigh := (carried + len / 0x2000_0000 % TWO32) % TWO32;
    }

    /** The block part of update: `cut` octets are now hashed, the rest is buffered. */
    method Store(j: nat, data: seq<byte>, ghost before: seq<byte>) returns (ghost cut: nat)
      requires IsCompress(f) && buffer.Length == 64 && j == |before| % 64 && LoopEnds(|before|, |data|)
      requires Hashed(before[..|before| - j]) && buffer[..j] == before[|before| - j..]
      modifies this`state, buffer
      ensures var all := before + data;
              cut <= |all| < cut + 64 && Hashed(all[..cut]) && buffer[..|all| - cut] == all[cut..]
    {
      ghost var all := before + data;
      if j + |data| > 63 {
        var i := HashWhole(j, data, before);
        cut := |before| + i;
        Put(0, data[i..]);
        CutAt(before, data, i);
      } else {
        cut := |before| - j;
        Put(j, data);
        assert all[..cut] == before[..cut] && all[cut..] == before[cut..] + data;
      }
    }

    /** The counter as eight octets. */
    method FinalCount() returns (r: seq<byte>)
      requires countLow < TWO32 && countHigh < TWO32
      ensures r == BigEndian(Count((countLow, countHigh)), 8)
    {
      r := [];
      for i := 0 to 8
        invariant r == (BigEndian(countHigh, 4) + BigEndian(countLow, 4))[..i]
      {
        WordOctets(countHigh);
        WordOctets(countLow);
        r := r + [WordOctet(if i >= 4 then countLow else countHigh, i % 4)];
      }
      BigEndianWords(countHigh, countLow);
    }

    /** Zero octets until the length field will end a block. */
    method PadZeros(ghost m: seq<byte>)
      requires Valid() && message == m + [0x80]
      modifies this, buffer
      ensures Valid() && message == m + [0x80] + Zeros(ZeroCount(|m|))
    {
      ghost var k := 0;
      assert m + [0x80] + Zeros(0) == m + [0x80];
      CounterPosition(countLow, countHigh, |message|);
      while countLow / 8 % 64 * 8 != 448
        invariant Valid() && Padding(m, k) && countLow / 8 % 64 == |message| % 64
        decreases ZeroCount(|m|) - k
      {
        NotYet(|m|, k);
        PadOne(m, k);
        k := k + 1;
      }
      Enough(|m|, k);
    }

    ghost predicate Padding(m: seq<byte>, k: nat)
      reads this
    {
      k <= ZeroCount(|m|) && message == m + [0x80] + Zeros(k)
    }

    method PadOne(ghost m: seq<byte>, ghost k: nat)
      requires Valid() && Padding(m, k) && k < ZeroCount(|m|)
      modifies this, buffer
      ensures Valid() && Padding(m, k + 1) && countLow / 8 % 64 == |message| % 64
    {
      Update([0]);
      assert Zeros(k) + [0] == Zeros(k + 1);
      assert m + [0x80] + Zeros(k) + [0] == m + [0x80] + Zeros(k + 1);
      CounterPosition(countLow, countHigh, |message|);
    }

    /** `sha1_final`: the digest of everything hashed; the context is wiped. */
    method Final() returns (digest: seq<byte>)
      requires Valid()
      modifies this, buffer
      ensures digest == Digest(old(message)) && IsDigest(old(message), digest)
      ensures state == Hash(0, 0, 0, 0, 0) && countLow == 0 == countHigh
      ensures forall k :: 0 <= k < buffer.Length ==> buffer[k] == 0
    {
      ghost var m := message;
      CountOctets(countLow, countHigh, |m|);
      var finalCount := FinalCount();
      Update([0x80]);
      PadZeros(m);
      Update(finalCount);
      assert message == Padded(m) && message[..|message|] == message;
      digest := HashOctets(state);
      DigestIs(f, m);
      DigestExactly(m, digest);
      state := Hash(0, 0, 0, 0, 0);
      countLow, countHigh := 0, 0;
      forall k | 0 <= k < buffer.Length {
        buffer[k] := 0;
      }
    }
  }

  /** One update of a sequence. */
  method Absorb(context: Context, chunks: seq<seq<byte>>, i: nat)
    requires i < |chunks| && Admitted(|context.message|, |chunks[i]|)
    requires context.Valid() && context.message == Flatten(chunks[..i])
    modifies context, context.buffer
    ensures context.Valid() && context.message == Flatten(chunks[..i + 1])
    ensures |context.message| == |old(context.message)| + |chunks[i]|
  {
    FlattenPrefix(chunks, i);
    context.Update(chunks[i]);
  }

  method AbsorbAll(context: Context, chunks: seq<seq<byte>>)
    requires context.Valid() && context.message == [] && AllAdmitted(0, chunks)
    modifies context, context.buffer
    ensures context.Valid() && context.message == Flatten(chunks)
  {
    var i: nat := 0;
    while i < |chunks|
      invariant i <= |chunks| && context.Valid() && context.message == Flatten(chunks[..i])
      invariant AllAdmitted(|context.message|, chunks[i..])
    {
      assert chunks[i..][1..] == chunks[i + 1..];
      Absorb(context, chunks, i);
      i := i + 1;
    }
    assert chunks[..i] == chunks;
  }

  /** Init, any sequence of admitted updates, and final: the digest of the concatenation. */
  method DigestOf(chunks: seq<seq<byte>>) returns (digest: seq<byte>)
    requires AllAdmitted(0, chunks)
    ensures digest == Digest(Flatten(chunks)) && IsDigest(Flatten(chunks), digest)
  {
    var context := new Context();
    AbsorbAll(context, chunks);
    digest := context.Final();
  }

  lemma FlattenPrefix(chunks: seq<seq<byte>>, i: nat)
    requires i < |chunks|
    ensures Flatten(chunks[..i + 1]) == Flatten(chunks[..i]) + chunks[i]
  {
    FlattenSnoc(chunks[..i], chunks[i]);
    assert chunks[..i + 1] == chunks[..i] + [chunks[i]];
  }

  lemma NotYet(len: nat, k: nat)
    requires k <= ZeroCount(len) && (len + 1 + k) % 64 != 56
    ensures k < ZeroCount(len)
  {
  }

  lemma Enough(len: nat, k: nat)
    requires k <= ZeroCount(len) && (len + 1 + k) % 64 == 56
    ensures k == ZeroCount(len)
  {
  }

  lemma CutAt(a: seq<byte>, b: seq<byte>, i: nat)
    requires i <= |b|
    ensures (a + b)[..|a| + i] == a + b[..i] && (a + b)[|a| + i..] == b[i..]
  {
  }

  // ---------- the length field ----------

  lemma CountOctets(low: nat, high: nat, total: nat)
    requires low < TWO32 && high < TWO32
    requires Count((low, high)) == 8 * total % 0x1_0000_0000_0000_0000
    ensures BigEndian(Count((low, high)), 8) == BigEndian(8 * total, 8)
  {
    assert Pow256(4) == TWO32;
    assert Pow256(8) == 0x1_0000_0000_0000_0000;
    BigEndianMod(Count((low, high)), 8 * total, 8);
  }

  lemma BigEndianWords(high: nat, low: nat)
    requires low < TWO32 && high < TWO32
    ensures BigEndian(high * TWO32 + low, 8) == BigEndian(high, 4) + BigEndian(low, 4)
  {
    assert Pow256(4) == TWO32;
    BigEndianSplit(high, low, 4);
  }

  lemma {:induction false} BigEndianSplit(high: nat, low: nat, k: nat)
    requires low < Pow256(k)
    ensures BigEndian(high * Pow256(k) + low, 4 + k) == BigEndian(high, 4) + BigEndian(low, k)
  {
    if k == 0 {
      assert BigEndian(low, 0) == [];
    } else {
      var n, p := high * Pow256(k) + low, Pow256(k - 1);
      assert n == 256 * (high * p) + low;
      assert n / 256 == high * p + low / 256 && n % 256 == low % 256;
      BigEndianSplit(high, low / 256, k - 1);
    }
  }
}
