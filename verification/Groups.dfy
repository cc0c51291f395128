/** Applying a function to successive groups of octets, the last of which may be short. */
module Groups {
  import opened Bytes

  function MapGroups(f: seq<byte> -> seq<byte>, n: nat, s: seq<byte>): seq<byte>
    requires n > 0
    decreases |s|
  {
    if s == [] then [] else f(s[..Min(n, |s|)]) + MapGroups(f, n, s[Min(n, |s|)..])
  }

  /** Every group of at most `n` octets gives `k` octets. */
  ghost predicate Gives(f: seq<byte> -> seq<byte>, n: nat, k: nat) {
    forall g: seq<byte> :: 0 < |g| <= n ==> |f(g)| == k
  }

  function Ceil3(len: nat): nat {
    (len + 2) / 3
  }

  lemma {:induction false} MapLength3(f: seq<byte> -> seq<byte>, s: seq<byte>)
    requires Gives(f, 3, 4)
    ensures |MapGroups(f, 3, s)| == 4 * Ceil3(|s|)
    decreases |s|
  {
    if s != [] {
      MapLength3(f, s[Min(3, |s|)..]);
    }
  }

  lemma {:induction false} MapLength4(f: seq<byte> -> seq<byte>, s: seq<byte>)
    requires Gives(f, 4, 3) && |s| % 4 == 0
    ensures |MapGroups(f, 4, s)| == |s| / 4 * 3
    decreases |s|
  {
    if s != [] {
      MapLength4(f, s[4..]);
    }
  }

  lemma {:induction false} MapConcat4(f: seq<byte> -> seq<byte>, a: seq<byte>, b: seq<byte>)
    requires |a| % 4 == 0
    ensures MapGroups(f, 4, a + b) == MapGroups(f, 4, a) + MapGroups(f, 4, b)
    decreases |a|
  {
    if a == [] {
      assert a + b == b;
    } else {
      assert (a + b)[..4] == a[..4] && (a + b)[4..] == a[4..] + b;
      MapConcat4(f, a[4..], b);
    }
  }

  /** How far the last group of three falls short. */
  function PadCount(len: nat): (p: nat)
    ensures p <= 2
  {
    (3 - len % 3) % 3
  }

  lemma PadFacts(len: nat)
    ensures 0 < len <= 3 ==> PadCount(len) == 3 - len
    ensures len > 3 ==> PadCount(len - 3) == PadCount(len)
    ensures len == 0 ==> PadCount(len) == 0
  {
  }

  lemma OneGroup(f: seq<byte> -> seq<byte>, n: nat, s: seq<byte>)
    requires 0 < |s| <= n
    ensures MapGroups(f, n, s) == f(s)
  {
    assert s[..|s|] == s && s[|s|..] == [];
    assert MapGroups(f, n, []) == [];
    assert f(s) + [] == f(s);
  }

  lemma FirstGroup(f: seq<byte> -> seq<byte>, n: nat, x: seq<byte>, more: seq<byte>)
    requires |x| == n > 0
    ensures MapGroups(f, n, x + more) == f(x) + MapGroups(f, n, more)
  {
    assert (x + more)[..n] == x && (x + more)[n..] == more;
  }

  function Fill(c: byte, k: nat): (r: seq<byte>)
    ensures |r| == k
  {
    seq(k, _ => c)
  }

  /** `f` is `g` with the end of short groups overwritten by padding. */
  ghost predicate Overwrites(f: seq<byte> -> seq<byte>, g: seq<byte> -> seq<byte>, pad: byte)
    requires Gives(g, 3, 4)
  {
    forall x: seq<byte> :: 0 < |x| <= 3 ==> f(x) == g(x)[..1 + |x|] + Fill(pad, 3 - |x|)
  }

  /** `e` is `q` with its last `p` octets overwritten. */
  ghost predicate PaddedEnd(e: seq<byte>, q: seq<byte>, pad: byte, p: nat) {
    p <= |q| && e == q[..|q| - p] + Fill(pad, p)
  }

  lemma PaddedShort(f: seq<byte> -> seq<byte>, g: seq<byte> -> seq<byte>, pad: byte, s: seq<byte>)
    requires Gives(g, 3, 4) && Overwrites(f, g, pad) && 0 < |s| <= 3
    ensures PaddedEnd(MapGroups(f, 3, s), MapGroups(g, 3, s), pad, 3 - |s|)
  {
    OneGroup(f, 3, s);
    OneGroup(g, 3, s);
    assert |g(s)| == 4;
  }

  lemma WholeGroup(f: seq<byte> -> seq<byte>, g: seq<byte> -> seq<byte>, pad: byte, x: seq<byte>)
    requires Gives(g, 3, 4) && Overwrites(f, g, pad) && |x| == 3
    ensures f(x) == g(x)
  {
    assert |g(x)| == 4;
    assert f(x) == g(x)[..4] + Fill(pad, 0);
  }

  lemma PaddedStep(x: seq<byte>, e: seq<byte>, q: seq<byte>, pad: byte, p: nat)
    requires PaddedEnd(e, q, pad, p)
    ensures PaddedEnd(x + e, x + q, pad, p)
  {
    assert (x + q)[..|x + q| - p] == x + q[..|q| - p];
    Regroup(x, q[..|q| - p], Fill(pad, p));
  }

  lemma PaddedMore(f: seq<byte> -> seq<byte>, g: seq<byte> -> seq<byte>, pad: byte,
                   x: seq<byte>, more: seq<byte>, p: nat)
    requires |x| == 3 && f(x) == g(x) && PaddedEnd(MapGroups(f, 3, more), MapGroups(g, 3, more), pad, p)
    ensures PaddedEnd(MapGroups(f, 3, x + more), MapGroups(g, 3, x + more), pad, p)
  {
    FirstGroup(f, 3, x, more);
    FirstGroup(g, 3, x, more);
    PaddedStep(f(x), MapGroups(f, 3, more), MapGroups(g, 3, more), pad, p);
  }

  /** Then the texts differ by padding at the end only. */
  lemma {:induction false} MapPadded(f: seq<byte> -> seq<byte>, g: seq<byte> -> seq<byte>, pad: byte, s: seq<byte>)
    requires Gives(g, 3, 4) && Overwrites(f, g, pad)
    ensures PaddedEnd(MapGroups(f, 3, s), MapGroups(g, 3, s), pad, PadCount(|s|))
    decreases |s|
  {
    PadFacts(|s|);
    if 0 < |s| <= 3 {
      PaddedShort(f, g, pad, s);
    } else if |s| > 3 {
      var x, more := s[..3], s[3..];
      assert s == x + more;
      MapPadded(f, g, pad, more);
      WholeGroup(f, g, pad, x);
      PaddedMore(f, g, pad, x, more, PadCount(|s|));
    }
  }

  /** `dec` undoes `enc` on each group, up to zeros behind a short one. */
  ghost predicate Undoes(dec: seq<byte> -> seq<byte>, enc: seq<byte> -> seq<byte>) {
    forall x: seq<byte> :: 0 < |x| <= 3 ==> dec(enc(x)) == x + Fill(0, 3 - |x|)
  }

  /** Then it undoes it on the whole. */
  lemma {:induction false} MapInverse(enc: seq<byte> -> seq<byte>, dec: seq<byte> -> seq<byte>, s: seq<byte>)
    requires Gives(enc, 3, 4) && Undoes(dec, enc)
    ensures MapGroups(dec, 4, MapGroups(enc, 3, s)) == s + Fill(0, PadCount(|s|))
    decreases |s|
  {
    PadFacts(|s|);
    if 0 < |s| <= 3 {
      InverseShort(enc, dec, s);
    } else if |s| > 3 {
      var x, more := s[..3], s[3..];
      assert s == x + more;
      MapInverse(enc, dec, more);
      InverseStep(enc, dec, x, more, PadCount(|s|));
    }
  }

  lemma InverseShort(enc: seq<byte> -> seq<byte>, dec: seq<byte> -> seq<byte>, s: seq<byte>)
    requires Gives(enc, 3, 4) && Undoes(dec, enc) && 0 < |s| <= 3
    ensures MapGroups(dec, 4, MapGroups(enc, 3, s)) == s + Fill(0, 3 - |s|)
  {
    OneGroup(enc, 3, s);
    OneGroup(dec, 4, enc(s));
  }

  lemma InverseStep(enc: seq<byte> -> seq<byte>, dec: seq<byte> -> seq<byte>, x: seq<byte>, more: seq<byte>, p: nat)
    requires Gives(enc, 3, 4) && Undoes(dec, enc) && |x| == 3
    requires MapGroups(dec, 4, MapGroups(enc, 3, more)) == more + Fill(0, p)
    ensures MapGroups(dec, 4, MapGroups(enc, 3, x + more)) == (x + more) + Fill(0, p)
  {
    FirstGroup(enc, 3, x, more);
    FirstGroup(dec, 4, enc(x), MapGroups(enc, 3, more));
    InverseBehind(x, dec(enc(x)), more, Fill(0, p));
  }

  lemma InverseBehind(x: seq<byte>, y: seq<byte>, more: seq<byte>, z: seq<byte>)
    requires y == x + Fill(0, 0)
    ensures y + (more + z) == (x + more) + z
  {
    assert y == x;
  }

  /** The last two characters of a text tell how short the last group was. */
  ghost predicate Marks(f: seq<byte> -> seq<byte>, pad: byte)
    requires Gives(f, 3, 4)
  {
    forall x: seq<byte> :: 0 < |x| <= 3 ==> (f(x)[3] == pad <==> |x| < 3) && (f(x)[2] == pad <==> |x| == 1)
  }

  /** The text ends with `p` of at most two padding characters. */
  ghost predicate EndsLike(e: seq<byte>, pad: byte, p: nat) {
    |e| >= 4 && (e[|e| - 1] == pad <==> p >= 1) && (e[|e| - 2] == pad <==> p == 2)
  }

  lemma {:induction false} MapEnd(f: seq<byte> -> seq<byte>, pad: byte, s: seq<byte>)
    requires s != [] && Gives(f, 3, 4) && Marks(f, pad)
    ensures EndsLike(MapGroups(f, 3, s), pad, PadCount(|s|))
    decreases |s|
  {
    PadFacts(|s|);
    if |s| <= 3 {
      OneGroup(f, 3, s);
    } else {
      var x, more := s[..3], s[3..];
      assert s == x + more;
      FirstGroup(f, 3, x, more);
      MapEnd(f, pad, more);
    }
  }

  /** One step through the groups, for loops that have `done` behind them. */
  lemma MapStep(f: seq<byte> -> seq<byte>, n: nat, s: seq<byte>, at: nat, all: seq<byte>, done: seq<byte>)
    requires n > 0 && at < |s| && all == done + MapGroups(f, n, s[at..])
    ensures var next := Min(at + n, |s|);
            all == (done + f(s[at..next])) + MapGroups(f, n, s[next..])
  {
    var next := Min(at + n, |s|);
    assert s[at..][..Min(n, |s| - at)] == s[at..next];
    assert s[at..][Min(n, |s| - at)..] == s[next..];
  }

  lemma MapStart(f: seq<byte> -> seq<byte>, n: nat, s: seq<byte>)
    requires n > 0
    ensures MapGroups(f, n, s) == [] + MapGroups(f, n, s[0..])
  {
    assert s[0..] == s;
  }

  lemma MapStop(f: seq<byte> -> seq<byte>, n: nat, s: seq<byte>, all: seq<byte>, done: seq<byte>)
    requires n > 0 && all == done + MapGroups(f, n, s[|s|..])
    ensures all == done
  {
    assert s[|s|..] == [];
  }
}
