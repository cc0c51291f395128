/**
 * Base64 (RFC 4648 section 4): the encoder and decoder of src/crypto_utils.c and the second,
 * independent encoder of src/http_types.c.
 */
module Base64 {
  import opened Bytes
  import opened Groups

  const PAD: byte := 61

  /** The character for six bits. */
  function Symbol(v: int): (c: byte)
    requires 0 <= v < 64
    ensures c != PAD
  {
    if v < 26 then 65 + v
    else if v < 52 then 97 + (v - 26)
    else if v < 62 then 48 + (v - 52)
    else if v == 62 then 43
    else 47
  }

  /** The decoding table: 64 marks a character outside the alphabet. */
  function Value(c: byte): int {
    if 65 <= c <= 90 then c - 65
    else if 97 <= c <= 122 then c - 97 + 26
    else if 48 <= c <= 57 then c - 48 + 52
    else if c == 43 then 62
    else if c == 47 then 63
    else 64
  }

  lemma ValueOfSymbol(v: int)
    requires 0 <= v < 64
    ensures Value(Symbol(v)) == v
  {
  }

  // ---------- the encoding ----------

  /** The standard's description of one group: six bits at a time, a short group padded. */
  function EncodeGroup(g: seq<byte>): (r: seq<byte>)
    requires 0 < |g| <= 3
    ensures |r| == 4
  {
    if |g| == 1 then [Symbol(g[0] / 4), Symbol(g[0] % 4 * 16), PAD, PAD]
    else if |g| == 2 then [Symbol(g[0] / 4), Symbol(g[0] % 4 * 16 + g[1] / 16), Symbol(g[1] % 16 * 4), PAD]
    else [Symbol(g[0] / 4), Symbol(g[0] % 4 * 16 + g[1] / 16), Symbol(g[1] % 16 * 4 + g[2] / 64), Symbol(g[2] % 64)]
  }

  const ENCODE: seq<byte> -> seq<byte> := (g: seq<byte>) => if 0 < |g| <= 3 then EncodeGroup(g) else []

  function Encoded(s: seq<byte>): seq<byte> {
    MapGroups(ENCODE, 3, s)
  }

  /** The octet at `k`, or zero behind the end. */
  function OctetOr0(g: seq<byte>, k: nat): byte {
    if k < |g| then g[k] else 0
  }

  function Combined(a: byte, b: byte, c: byte): (t: int)
    ensures 0 <= t < 0x100_0000
  {
    var x: int, y: int, z: int := a, b, c;
    x * 0x1_0000 + y * 0x100 + z
  }

  /** The four symbols of a group continued with zeros, cut from the 24-bit number. */
  function Quad(a: byte, b: byte, c: byte): (r: seq<byte>)
    ensures |r| == 4
  {
    var t := Combined(a, b, c);
    [Symbol(t / 0x4_0000 % 64), Symbol(t / 0x1000 % 64), Symbol(t / 64 % 64), Symbol(t % 64)]
  }

  const QUAD: seq<byte> -> seq<byte> := (g: seq<byte>) => Quad(OctetOr0(g, 0), OctetOr0(g, 1), OctetOr0(g, 2))

  lemma Sextets(a: byte, b: byte, c: byte)
    ensures var t := Combined(a, b, c);
            && t / 0x4_0000 % 64 == a / 4
            && t / 0x1000 % 64 == a % 4 * 16 + b / 16
            && t / 64 % 64 == b % 16 * 4 + c / 64
            && t % 64 == c % 64
  {
    var t := Combined(a, b, c);
    SplitAt4(a, b, c, t);
    SplitAt16(a, b, c, t);
    SplitAt64(a, b, c, t);
  }

  lemma SplitAt4(a: byte, b: byte, c: byte, t: int)
    requires t == Combined(a, b, c)
    ensures t / 0x4_0000 % 64 == a / 4
  {
    var q, r := a / 4, a % 4;
    assert t == q * 0x4_0000 + (r * 0x1_0000 + b * 0x100 as int + c);
  }

  lemma SplitAt16(a: byte, b: byte, c: byte, t: int)
    requires t == Combined(a, b, c)
    ensures t / 0x1000 % 64 == a % 4 * 16 + b / 16
  {
    var q: int, r: int, u: int, v: int := a / 4, a % 4, b / 16, b % 16;
    LastDigit4096(64 * q + (r * 16 + u), v * 0x100 + c);
    LastDigit64(q, r * 16 + u);
  }

  lemma LastDigit4096(q: int, r: int)
    requires 0 <= r < 0x1000
    ensures (0x1000 * q + r) / 0x1000 == q
  {
  }

  lemma LastDigit64(q: int, r: int)
    requires 0 <= r < 64
    ensures (64 * q + r) / 64 == q && (64 * q + r) % 64 == r
  {
  }

  lemma SplitAt64(a: byte, b: byte, c: byte, t: int)
    requires t == Combined(a, b, c)
    ensures t / 64 % 64 == b % 16 * 4 + c / 64 && t % 64 == c % 64
  {
    var x: int, u: int, v: int, w: int, z: int := a, b / 16, b % 16, c / 64, c % 64;
    LastDigit64(64 * (x * 16 + u) + (v * 4 + w), z);
    LastDigit64(x * 16 + u, v * 4 + w);
  }

  lemma QuadSymbols(a: byte, b: byte, c: byte)
    ensures Quad(a, b, c) ==
            [Symbol(a / 4), Symbol(a % 4 * 16 + b / 16), Symbol(b % 16 * 4 + c / 64), Symbol(c % 64)]
  {
    Sextets(a, b, c);
  }

  lemma QuadOfGroup(g: seq<byte>)
    requires 0 < |g| <= 3
    ensures EncodeGroup(g) == QUAD(g)[..1 + |g|] + Fill(PAD, 3 - |g|)
  {
    var a, b, c := OctetOr0(g, 0), OctetOr0(g, 1), OctetOr0(g, 2);
    QuadSymbols(a, b, c);
    PaddedSymbols(Symbol(a / 4), Symbol(a % 4 * 16 + b / 16), Symbol(b % 16 * 4 + c / 64), Symbol(c % 64));
  }

  lemma PaddedSymbols(w: byte, x: byte, y: byte, z: byte)
    ensures [w, x, y, z][..2] + Fill(PAD, 2) == [w, x, PAD, PAD]
    ensures [w, x, y, z][..3] + Fill(PAD, 1) == [w, x, y, PAD]
    ensures [w, x, y, z][..4] + Fill(PAD, 0) == [w, x, y, z]
  {
  }

  /** Overwriting the end of the quads with padding gives the encoding. */
  lemma EncodedIsPadded(s: seq<byte>)
    ensures var q := MapGroups(QUAD, 3, s); var p := PadCount(|s|);
            |q| == 4 * Ceil3(|s|) && p <= |q| && Encoded(s) == q[..|q| - p] + Fill(PAD, p)
  {
    forall g: seq<byte> | 0 < |g| <= 3
      ensures ENCODE(g) == QUAD(g)[..1 + |g|] + Fill(PAD, 3 - |g|)
    {
      QuadOfGroup(g);
    }
    MapLength3(QUAD, s);
    MapPadded(ENCODE, QUAD, PAD, s);
  }

  lemma EncodedLength(s: seq<byte>)
    ensures |Encoded(s)| == 4 * Ceil3(|s|)
  {
    EncodedIsPadded(s);
  }

  /** `f` is `g`, without opening what `g` is. */
  ghost predicate Is(f: seq<byte> -> seq<byte>, g: seq<byte> -> seq<byte>) {
    forall h: seq<byte> -> seq<byte> {:trigger Opened(h)} :: Opened(h) && h == f ==> h == g
  }

  /** The three reads at the head of the encoders' loop, each guarded by the end of the input. */
  method NextQuad(input: seq<byte>, at: nat, ghost f: seq<byte> -> seq<byte>) returns (quad: seq<byte>, next: nat)
    requires at < |input| && Is(f, QUAD)
    ensures next == Min(at + 3, |input|) && |quad| == 4 && quad == f(input[at..next])
  {
    var i := at;
    var a := input[i];
    i := i + 1;
    var b: byte := 0;
    if i < |input| {
      b := input[i];
      i := i + 1;
    }
    var c: byte := 0;
    if i < |input| {
      c := input[i];
      i := i + 1;
    }
    next := i;
    quad := Quad(a, b, c);
    assert Opened(f);
    ghost var g := input[at..next];
    assert OctetOr0(g, 0) == a && OctetOr0(g, 1) == b && OctetOr0(g, 2) == c;
  }

  method Write(out: array<byte>, at: nat, data: seq<byte>)
    requires at + |data| <= out.Length
    modifies out
    ensures out[..at + |data|] == old(out[..at]) + data
  {
    forall k | 0 <= k < |data| {
      out[at + k] := data[k];
    }
  }

  /** The encoders' loop stands at `i`, having written `done`. */
  ghost predicate Encoding(input: seq<byte>, f: seq<byte> -> seq<byte>, i: nat, done: seq<byte>, written: seq<byte>) {
    && i <= |input| && |MapGroups(f, 3, input)| == 4 * Ceil3(|input|)
    && MapGroups(f, 3, input) == done + MapGroups(f, 3, input[i..]) && written == done
  }

  /** One group. */
  method EncodeStep(input: seq<byte>, i: nat, out: array<byte>, j: nat,
                    ghost f: seq<byte> -> seq<byte>, ghost done: seq<byte>)
    returns (next: nat, ghost done': seq<byte>)
    requires i < |input| && Is(f, QUAD) && Gives(f, 3, 4)
    requires j == |done| <= out.Length == 4 * Ceil3(|input|) && Encoding(input, f, i, done, out[..j])
    modifies out
    ensures i < next && |done'| == j + 4 <= out.Length && Encoding(input, f, next, done', out[..j + 4])
  {
    var quad;
    quad, next := NextQuad(input, i, f);
    MapStep(f, 3, input, i, MapGroups(f, 3, input), done);
    done' := done + quad;
    assert |done'| == j + 4 <= out.Length;
    Write(out, j, quad);
  }

  /** The main loop of both encoders. */
  method EncodeGroups(input: seq<byte>, ghost f: seq<byte> -> seq<byte>) returns (out: array<byte>)
    requires Is(f, QUAD) && Gives(f, 3, 4)
    ensures fresh(out) && out[..] == MapGroups(f, 3, input)
  {
    var len := 4 * Ceil3(|input|);
    out := new byte[len](_ => 0);
    ghost var done: seq<byte> := [];
    MapLength3(f, input);
    MapStart(f, 3, input);
    var i: nat, j: nat := 0, 0;
    while i < |input|
      invariant j == |done| <= out.Length && Encoding(input, f, i, done, out[..j])
      decreases |input| - i
    {
      i, done := EncodeStep(input, i, out, j, f, done);
      j := j + 4;
    }
    MapStop(f, 3, input, MapGroups(f, 3, input), done);
    assert out[..j] == out[..];
  }

  /** Padding written by a loop from the end. */
  method PadByLoop(out: array<byte>, n: nat)
    requires PadCount(n) <= out.Length
    modifies out
    ensures out[..] == old(out[..])[..out.Length - PadCount(n)] + Fill(PAD, PadCount(n))
  {
    var len := out.Length;
    for i := 0 to (3 - n % 3) % 3
      invariant out[..len - i] == old(out[..])[..len - i]
      invariant forall k :: len - i <= k < len ==> out[k] == PAD
    {
      out[len - 1 - i] := PAD;
    }
  }

  /** Padding written case by case. */
  method PadByCases(out: array<byte>, n: nat)
    requires PadCount(n) <= out.Length
    modifies out
    ensures out[..] == old(out[..])[..out.Length - PadCount(n)] + Fill(PAD, PadCount(n))
  {
    var len := out.Length;
    if n % 3 == 1 {
      out[len - 1] := PAD;
      out[len - 2] := PAD;
    } else if n % 3 == 2 {
      out[len - 1] := PAD;
    }
  }

  /** `base64_encode` of src/crypto_utils.c */
  method Encode(input: seq<byte>) returns (text: seq<byte>)
    ensures text == Encoded(input)
  {
    EncodedIsPadded(input);
    var out := EncodeGroups(input, QUAD);
    PadByLoop(out, |input|);
    text := out[..];
  }

  /** `base64_encode` of src/http_types.c */
  method EncodeByCases(input: seq<byte>) returns (text: seq<byte>)
    ensures text == Encoded(input)
  {
    EncodedIsPadded(input);
    var out := EncodeGroups(input, QUAD);
    PadByCases(out, |input|);
    text := out[..];
  }

  // ---------- decoding ----------

  function Sextet(c: byte): (v: int)
    ensures 0 <= v <= 64
  {
    if c == PAD then 0 else Value(c)
  }

  /** The three octets of four characters. */
  function Triple(w: byte, x: byte, y: byte, z: byte): (r: seq<byte>)
    ensures |r| == 3
  {
    var t := Sextet(w) * 0x4_0000 + Sextet(x) * 0x1000 + Sextet(y) * 64 + Sextet(z);
    [t / 0x1_0000 % 256, t / 0x100 % 256, t % 256]
  }

  const TRIPLE: seq<byte> -> seq<byte> :=
    (g: seq<byte>) => Triple(OctetOr0(g, 0), OctetOr0(g, 1), OctetOr0(g, 2), OctetOr0(g, 3))

  /** The size computed from the last two characters. */
  function DecodedSize(text: seq<byte>): (n: nat)
    requires |text| % 4 == 0
    ensures text != [] ==> |text| / 4 * 3 - 2 <= n
    ensures n <= |text| / 4 * 3
  {
    if text == [] then 0
    else
      |text| / 4 * 3 - (if text[|text| - 1] == PAD then 1 else 0) - if text[|text| - 2] == PAD then 1 else 0
  }

  function Decoded(text: seq<byte>): seq<byte>
    requires |text| % 4 == 0
  {
    MapLength4(TRIPLE, text);
    MapGroups(TRIPLE, 4, text)[..DecodedSize(text)]
  }

  method NextTriple(text: seq<byte>, at: nat, ghost f: seq<byte> -> seq<byte>) returns (triple: seq<byte>)
    requires at + 4 <= |text| && Is(f, TRIPLE)
    ensures |triple| == 3 && triple == f(text[at..at + 4])
  {
    triple := Triple(text[at], text[at + 1], text[at + 2], text[at + 3]);
    assert Opened(f);
  }

  /** Writes one octet, and two more as far as they fit. */
  method WriteTriple(out: array<byte>, at: nat, triple: seq<byte>) returns (next: nat)
    requires at < out.Length && |triple| == 3
    modifies out
    ensures next == Min(at + 3, out.Length)
    ensures out[..next] == old(out[..at]) + triple[..next - at]
  {
    next := at;
    out[next] := triple[0];
    next := next + 1;
    if next < out.Length {
      out[next] := triple[1];
      next := next + 1;
    }
    if next < out.Length {
      out[next] := triple[2];
      next := next + 1;
    }
  }

  /** The decoder's loop stands at `i`, having decoded `done` and written as much of it as fits. */
  ghost predicate Decoding(text: seq<byte>, f: seq<byte> -> seq<byte>, size: nat,
                           i: nat, done: seq<byte>, written: seq<byte>)
  {
    && |text| % 4 == 0 && i % 4 == 0 && i <= |text|
    && |done| == i / 4 * 3
    && written == done[..Min(|done|, size)]
    && MapGroups(f, 4, text) == done + MapGroups(f, 4, text[i..])
  }

  lemma CutBehind(done: seq<byte>, triple: seq<byte>, size: nat)
    requires |done| < size && |triple| == 3
    ensures done[..Min(|done|, size)] == done
    ensures (done + triple)[..Min(|done| + 3, size)] == done + triple[..Min(|done| + 3, size) - |done|]
  {
  }

  /** Three more octets are written, as far as they fit. */
  method WriteMore(out: array<byte>, j: nat, triple: seq<byte>, ghost done: seq<byte>) returns (next: nat)
    requires j == |done| < out.Length && out[..j] == done && |triple| == 3
    modifies out
    ensures next <= out.Length && out[..next] == (done + triple)[..Min(|done + triple|, out.Length)]
  {
    CutBehind(done, triple, out.Length);
    next := WriteTriple(out, j, triple);
  }

  /** One group: three octets are decoded, and written as far as they fit. */
  method DecodeStep(text: seq<byte>, i: nat, out: array<byte>, j: nat,
                    ghost f: seq<byte> -> seq<byte>, ghost done: seq<byte>)
    returns (next: nat, ghost done': seq<byte>)
    requires i < |text| && Is(f, TRIPLE) && j <= out.Length
    requires Decoding(text, f, out.Length, i, done, out[..j]) && |text| / 4 * 3 - 2 <= out.Length
    modifies out
    ensures next <= out.Length && Decoding(text, f, out.Length, i + 4, done', out[..next])
  {
    MapStep(f, 4, text, i, MapGroups(f, 4, text), done);
    var triple := NextTriple(text, i, f);
    assert done[..|done|] == done;
    next := WriteMore(out, j, triple, done);
    done' := done + triple;
  }

  /** The decoder's loop. */
  method DecodeGroups(text: seq<byte>, size: nat, ghost f: seq<byte> -> seq<byte>) returns (out: array<byte>)
    requires |text| % 4 == 0 && Is(f, TRIPLE)
    requires text != [] ==> |text| / 4 * 3 - 2 <= size
    requires size <= |text| / 4 * 3
    ensures size <= |MapGroups(f, 4, text)| && out[..] == MapGroups(f, 4, text)[..size]
  {
    out := new byte[size](_ => 0);
    var i: nat, j: nat := 0, 0;
    ghost var done: seq<byte> := [];
    MapStart(f, 4, text);
    while i < |text|
      invariant j <= out.Length && Decoding(text, f, size, i, done, out[..j])
      decreases |text| - i
    {
      j, done := DecodeStep(text, i, out, j, f, done);
      i := i + 4;
    }
    MapStop(f, 4, text, MapGroups(f, 4, text), done);
    assert out[..] == out[..j];
  }

  /** `base64_decode` */
  method Decode(text: seq<byte>) returns (rc: Status, data: seq<byte>)
    ensures rc == if |text| % 4 == 0 then Success else Invalid
    ensures rc == Success ==> data == Decoded(text)
  {
    if |text| % 4 != 0 {
      return Invalid, [];
    }
    var size := |text| / 4 * 3;
    if |text| > 0 && text[|text| - 1] == PAD {
      size := size - 1;
    }
    if |text| > 1 && text[|text| - 2] == PAD {
      size := size - 1;
    }
    var out := DecodeGroups(text, size, TRIPLE);
    data := out[..];
    rc := Success;
  }

  // ---------- round trip ----------

  lemma TripleOfGroup(g: seq<byte>)
    requires 0 < |g| <= 3
    ensures TRIPLE(ENCODE(g)) == g + Fill(0, 3 - |g|)
  {
    var a, b, c := OctetOr0(g, 0), OctetOr0(g, 1), OctetOr0(g, 2);
    SextetsOfGroup(g);
    FromSextets(a, b, c);
    assert g + Fill(0, 3 - |g|) == [a, b, c];
  }

  lemma SextetsOfGroup(g: seq<byte>)
    requires 0 < |g| <= 3
    ensures var a, b, c, e := OctetOr0(g, 0), OctetOr0(g, 1), OctetOr0(g, 2), EncodeGroup(g);
            && Sextet(e[0]) == a / 4 && Sextet(e[1]) == a % 4 * 16 + b / 16
            && Sextet(e[2]) == b % 16 * 4 + c / 64 && Sextet(e[3]) == c % 64
  {
    var a, b, c := OctetOr0(g, 0), OctetOr0(g, 1), OctetOr0(g, 2);
    ValueOfSymbol(a / 4);
    ValueOfSymbol(a % 4 * 16 + b / 16);
    ValueOfSymbol(b % 16 * 4 + c / 64);
    ValueOfSymbol(c % 64);
  }

  lemma FromSextets(a: byte, b: byte, c: byte)
    ensures var t := a / 4 * 0x4_0000 + (a % 4 * 16 + b / 16) * 0x1000 + (b % 16 * 4 + c / 64) * 64 + c % 64;
            t / 0x1_0000 % 256 == a && t / 0x100 % 256 == b && t % 256 == c
  {
    Recombined(a, b, c);
    OctetsOfCombined(a, b, c, Combined(a, b, c));
  }

  lemma Recombined(a: byte, b: byte, c: byte)
    ensures a / 4 * 0x4_0000 + (a % 4 * 16 + b / 16) * 0x1000 + (b % 16 * 4 + c / 64) * 64 + c % 64 == Combined(a, b, c)
  {
    var x: int, y: int, z: int := a, b, c;
    var x1, x0, y1, y0, z1, z0 := x / 4, x % 4, y / 16, y % 16, z / 64, z % 64;
    assert x == 4 * x1 + x0 && y == 16 * y1 + y0 && z == 64 * z1 + z0;
  }

  lemma OctetsOfCombined(a: byte, b: byte, c: byte, t: int)
    requires t == Combined(a, b, c)
    ensures t / 0x1_0000 % 256 == a && t / 0x100 % 256 == b && t % 256 == c
  {
    var x: int, y: int, z: int := a, b, c;
    assert t == x * 0x1_0000 + (y * 0x100 + z) && t == (x * 0x100 + y) * 0x100 + z;
  }

  lemma Undone()
    ensures Undoes(TRIPLE, ENCODE)
  {
    forall x: seq<byte> | 0 < |x| <= 3
      ensures TRIPLE(ENCODE(x)) == x + Fill(0, 3 - |x|)
    {
      TripleOfGroup(x);
    }
  }

  lemma Marked()
    ensures Marks(ENCODE, PAD)
  {
  }

  /** Decoding an encoded octet string, of any length, gives it back. */
  lemma RoundTrip(s: seq<byte>)
    ensures |Encoded(s)| % 4 == 0 && Decoded(Encoded(s)) == s
  {
    Undone();
    Marked();
    RoundTripBy(ENCODE, TRIPLE, s);
  }

  lemma RoundTripBy(enc: seq<byte> -> seq<byte>, dec: seq<byte> -> seq<byte>, s: seq<byte>)
    requires Gives(enc, 3, 4) && Undoes(dec, enc) && Marks(enc, PAD)
    ensures var e := MapGroups(enc, 3, s);
            && |e| % 4 == 0
            && DecodedSize(e) == |s| <= |MapGroups(dec, 4, e)|
            && MapGroups(dec, 4, e)[..|s|] == s
  {
    SizeBy(enc, s);
    Cut(MapGroups(dec, 4, MapGroups(enc, 3, s)), s, PadCount(|s|)) by {
      MapInverse(enc, dec, s);
    }
  }

  lemma Cut(d: seq<byte>, s: seq<byte>, p: nat)
    requires d == s + Fill(0, p)
    ensures |s| <= |d| && d[..|s|] == s
  {
  }

  lemma SizeBy(enc: seq<byte> -> seq<byte>, s: seq<byte>)
    requires Gives(enc, 3, 4) && Marks(enc, PAD)
    ensures var e := MapGroups(enc, 3, s);
            |e| % 4 == 0 && DecodedSize(e) == |s|
  {
    MapLength3(enc, s);
    if s != [] {
      MapEnd(enc, PAD, s);
    }
    SizeFits(MapGroups(enc, 3, s), |s|);
  }

  lemma SizeFits(e: seq<byte>, n: nat)
    requires |e| == 4 * Ceil3(n)
    requires n > 0 ==> EndsLike(e, PAD, PadCount(n))
    ensures |e| % 4 == 0 && DecodedSize(e) == n
  {
    PadRest(n);
  }

  lemma PadRest(n: nat)
    ensures 4 * Ceil3(n) / 4 * 3 - PadCount(n) == n
  {
    var q := n / 3;
    if n % 3 == 0 {
      assert Ceil3(n) == q;
    } else {
      assert Ceil3(n) == q + 1;
    }
  }

  /** The alphabet of RFC 4648 section 4, table 1: upper case, lower case, digits, plus, slash. */
  lemma Alphabet(v: int)
    requires 0 <= v < 64
    ensures v < 26 ==> Symbol(v) == 'A' as int + v
    ensures 26 <= v < 52 ==> Symbol(v) == 'a' as int + v - 26
    ensures 52 <= v < 62 ==> Symbol(v) == '0' as int + v - 52
    ensures v == 62 ==> Symbol(v) == '+' as int
    ensures v == 63 ==> Symbol(v) == '/' as int
    ensures PAD == '=' as int
  {
  }

  /** The decoding table knows the alphabet and nothing else. */
  lemma TableExactly(c: byte)
    ensures Value(c) == 64 <==> !exists v :: 0 <= v < 64 && Symbol(v) == c
    ensures Value(c) != 64 ==> 0 <= Value(c) < 64 && Symbol(Value(c)) == c
  {
    if v :| 0 <= v < 64 && Symbol(v) == c {
      ValueOfSymbol(v);
    }
    if Value(c) != 64 {
      assert Symbol(Value(c)) == c;
    }
  }
}
