/** Folding a message over its 64-octet blocks. */
module BlockFold {
  import opened Bytes

  /** The value after all whole blocks of `m`. */
  function Blocks<H>(f: (H, seq<byte>) -> H, h: H, m: seq<byte>): H
    decreases |m|
  {
    if |m| < 64 then h else Blocks(f, f(h, m[..64]), m[64..])
  }

  /** Whole blocks first and the rest later. */
  lemma {:induction false} BlocksConcat<H>(f: (H, seq<byte>) -> H, h: H, a: seq<byte>, b: seq<byte>)
    requires |a| % 64 == 0
    ensures Blocks(f, h, a + b) == Blocks(f, Blocks(f, h, a), b)
    decreases |a|
  {
    if |a| == 0 {
      assert a + b == b;
    } else {
      assert (a + b)[..64] == a[..64] && (a + b)[64..] == a[64..] + b;
      BlocksConcat(f, f(h, a[..64]), a[64..], b);
    }
  }

  /** One more block. */
  lemma BlocksSnoc<H>(f: (H, seq<byte>) -> H, h: H, a: seq<byte>, block: seq<byte>)
    requires |a| % 64 == 0 && |block| == 64
    ensures Blocks(f, h, a + block) == f(Blocks(f, h, a), block)
  {
    BlocksConcat(f, h, a, block);
    var g := Blocks(f, h, a);
    assert block[..64] == block && block[64..] == [];
    assert Blocks(f, f(g, block), []) == f(g, block);
  }
}
