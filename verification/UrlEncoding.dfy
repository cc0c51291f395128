/** Percent-encoding of form values in src/http_types.c (RFC 3986 sections 2.1 and 2.3, `+` for a space). */
module UrlEncoding {
  import opened Bytes

  /** A C `char`, seen as unsigned. */
  type octet = c: char | c as int < 256 witness 'a'

  /** The octets of a C string in front of its terminator, or of a buffer. */
  type text = seq<octet>

  predicate Unreserved(c: octet) {
    'a' <= c <= 'z' || 'A' <= c <= 'Z' || '0' <= c <= '9' || c == '-' || c == '_' || c == '.' || c == '~'
  }

  const HEX: text := "0123456789ABCDEF"

  /** One upper-case hexadecimal digit. */
  function HexDigit(n: nat): octet
    requires n < 16
  {
    assert |HEX| == 16;
    HEX[n]
  }

  function EncodeOne(c: octet): (r: text)
    ensures 1 <= |r| <= 3
  {
    if Unreserved(c) then [c]
    else if c == ' ' then ['+']
    else ['%', HexDigit(c as int / 16), HexDigit(c as int % 16)]
  }

  const ENCODE_ONE: octet -> text := (c: octet) => EncodeOne(c)

  function MapOctets(f: octet -> text, s: text): text {
    if s == [] then [] else f(s[0]) + MapOctets(f, s[1..])
  }

  function Encode(s: text): text {
    MapOctets(ENCODE_ONE, s)
  }

  lemma {:induction false} MapConcat(f: octet -> text, a: text, b: text)
    ensures MapOctets(f, a + b) == MapOctets(f, a) + MapOctets(f, b)
  {
    if a == [] {
      assert a + b == b;
    } else {
      assert (a + b)[0] == a[0] && (a + b)[1..] == a[1..] + b;
      MapConcat(f, a[1..], b);
    }
  }

  lemma MapSnoc(f: octet -> text, s: text, i: nat)
    requires i < |s|
    ensures MapOctets(f, s[..i + 1]) == MapOctets(f, s[..i]) + f(s[i])
    ensures |MapOctets(f, s[..i + 1])| <= |MapOctets(f, s)|
  {
    MapConcat(f, s[..i], [s[i]]);
    assert s[..i + 1] == s[..i] + [s[i]];
    assert [s[i]][1..] == [] && MapOctets(f, [s[i]]) == f(s[i]) + MapOctets(f, []);
    MapConcat(f, s[..i + 1], s[i + 1..]);
    assert s == s[..i + 1] + s[i + 1..];
  }

  // ---------- decoding ----------

  function ToLower(c: octet): (r: octet)
    ensures !('A' <= c <= 'Z') ==> r == c
  {
    if 'A' <= c <= 'Z' then (c as int + 32) as char else c
  }

  /** The value the decoder gives to what it takes for a hexadecimal digit; any octet is taken for one. */
  function DigitValue(c: octet): int {
    if '0' <= c <= '9' then c as int - '0' as int else ToLower(c) as int - 'a' as int + 10
  }

  /** `(char) ((a << 4) | b)`: the low eight bits. */
  function FromNibbles(a: int, b: int): octet {
    assert Pow2(8) == 256;
    OrNatBound(16 * a % 256, b % 256, 8);
    OrNat(16 * a % 256, b % 256) as char
  }

  const PAIR: (octet, octet) -> octet := (x: octet, y: octet) => FromNibbles(DigitValue(x), DigitValue(y))

  /** A per cent sign with fewer than two octets behind it is dropped. */
  function DecodeBy(g: (octet, octet) -> octet, s: text): (r: text)
    ensures |r| <= |s|
    decreases |s|
  {
    if s == [] then []
    else if s[0] == '%' then
      if |s| > 2 then [g(s[1], s[2])] + DecodeBy(g, s[3..]) else DecodeBy(g, s[1..])
    else [if s[0] == '+' then ' ' else s[0]] + DecodeBy(g, s[1..])
  }

  function Decode(s: text): (r: text)
    ensures |r| <= |s|
  {
    DecodeBy(PAIR, s)
  }

  lemma OrStep(x: nat, b: nat)
    ensures OrNat(2 * x, b) == b % 2 + 2 * OrNat(x, b / 2)
  {
  }

  ghost predicate Halves(f: (nat, nat) -> nat, x: nat, b: nat) {
    f(2 * x, b) == b % 2 + 2 * f(x, b / 2)
  }

  lemma NibbleBy(f: (nat, nat) -> nat, a: nat, b: nat)
    requires b < 16 && f(a, 0) == a
    requires forall x: nat, y: nat {:trigger Halves(f, x, y)} :: Halves(f, x, y)
    ensures f(16 * a, b) == 16 * a + b
  {
    assert Halves(f, 8 * a, b) && Halves(f, 4 * a, b / 2) && Halves(f, 2 * a, b / 4) && Halves(f, a, b / 8);
  }

  lemma OrNibble(a: nat, b: nat)
    requires b < 16
    ensures OrNat(16 * a, b) == 16 * a + b
  {
    var f := (x: nat, y: nat) => OrNat(x, y);
    forall x: nat, y: nat
      ensures Halves(f, x, y)
    {
      OrStep(x, y);
    }
    NibbleBy(f, a, b);
  }

  lemma SmallMod(n: nat)
    requires n < 256
    ensures n % 256 == n
  {
  }

  lemma NibblesJoin(a: nat, b: nat)
    requires a < 16 && b < 16
    ensures FromNibbles(a, b) as int == 16 * a + b
  {
    OrNibble(a, b);
    SmallMod(16 * a);
    SmallMod(b);
  }

  lemma DigitRoundTrip(n: nat)
    requires n < 16
    ensures DigitValue(HexDigit(n)) == n
  {
    assert HEX[0] == '0' && HEX[1] == '1' && HEX[2] == '2' && HEX[3] == '3' && HEX[4] == '4' && HEX[5] == '5';
    assert HEX[6] == '6' && HEX[7] == '7' && HEX[8] == '8' && HEX[9] == '9' && HEX[10] == 'A' && HEX[11] == 'B';
    assert HEX[12] == 'C' && HEX[13] == 'D' && HEX[14] == 'E' && HEX[15] == 'F';
  }

  lemma DecodeFirst(c: octet, rest: text)
    ensures Decode(EncodeOne(c) + rest) == [c] + Decode(rest)
  {
    var t := EncodeOne(c) + rest;
    if Unreserved(c) || c == ' ' {
      assert t[1..] == rest;
    } else {
      var n := c as int;
      DigitRoundTrip(n / 16);
      DigitRoundTrip(n % 16);
      NibblesJoin(n / 16, n % 16);
      assert PAIR(t[1], t[2]) == c;
      assert t[3..] == rest;
    }
  }

  /** `g` undoes what `f` writes for one octet. */
  ghost predicate Undoes(f: octet -> text, g: (octet, octet) -> octet) {
    forall c: octet, rest: text {:trigger f(c) + rest} :: DecodeBy(g, f(c) + rest) == [c] + DecodeBy(g, rest)
  }

  lemma {:induction false} DecodeMapped(f: octet -> text, g: (octet, octet) -> octet, s: text)
    requires Undoes(f, g)
    ensures DecodeBy(g, MapOctets(f, s)) == s
  {
    if s != [] {
      DecodeMapped(f, g, s[1..]);
      assert MapOctets(f, s) == f(s[0]) + MapOctets(f, s[1..]);
    }
  }

  /** Decoding what was encoded gives it back. */
  lemma RoundTrip(s: text)
    ensures Decode(Encode(s)) == s
  {
    forall c: octet, rest: text
      ensures DecodeBy(PAIR, ENCODE_ONE(c) + rest) == [c] + DecodeBy(PAIR, rest)
    {
      DecodeFirst(c, rest);
    }
    DecodeMapped(ENCODE_ONE, PAIR, s);
  }

  /** What an encoded text is made of. */
  predicate Safe(c: octet) {
    Unreserved(c) || c == '+' || c == '%'
  }

  lemma {:induction false} MapAll(f: octet -> text, good: octet -> bool, s: text)
    requires forall c: octet, d: octet {:trigger d in f(c)} :: d in f(c) ==> good(d)
    ensures forall d <- MapOctets(f, s) :: good(d)
  {
    if s != [] {
      MapAll(f, good, s[1..]);
      forall d | d in MapOctets(f, s)
        ensures good(d)
      {
        assert d in f(s[0]) || d in MapOctets(f, s[1..]);
      }
    }
  }

  /** So no `&`, `=`, `?`, space, line end or NUL of a value survives to be taken for a delimiter. */
  lemma EncodedSafe(s: text)
    ensures forall c <- Encode(s) :: Safe(c)
  {
    var good := (c: octet) => Safe(c);
    forall c: octet, d: octet | d in ENCODE_ONE(c)
      ensures good(d)
    {
      OneSafe(c, d);
    }
    MapAll(ENCODE_ONE, good, s);
    assert forall c <- Encode(s) :: good(c);
  }

  lemma OneSafe(c: octet, d: octet)
    requires d in EncodeOne(c)
    ensures Safe(d)
  {
    DigitUpper(c as int / 16);
    DigitUpper(c as int % 16);
  }

  predicate UpperHex(c: octet) {
    '0' <= c <= '9' || 'A' <= c <= 'F'
  }

  /** Unreserved characters, `+`, and per cent signs with two upper-case hexadecimal digits behind them. */
  predicate WellEncoded(t: text)
    decreases |t|
  {
    t == [] ||
    if t[0] == '%' then |t| > 2 && UpperHex(t[1]) && UpperHex(t[2]) && WellEncoded(t[3..])
    else (Unreserved(t[0]) || t[0] == '+') && WellEncoded(t[1..])
  }

  lemma WellFirst(c: octet, rest: text)
    requires WellEncoded(rest)
    ensures WellEncoded(EncodeOne(c) + rest)
  {
    var t := EncodeOne(c) + rest;
    if Unreserved(c) || c == ' ' {
      assert t[1..] == rest;
    } else {
      DigitUpper(c as int / 16);
      DigitUpper(c as int % 16);
      assert t[3..] == rest;
    }
  }

  lemma DigitUpper(n: nat)
    requires n < 16
    ensures UpperHex(HexDigit(n))
  {
    assert HEX[0] == '0' && HEX[1] == '1' && HEX[2] == '2' && HEX[3] == '3' && HEX[4] == '4' && HEX[5] == '5';
    assert HEX[6] == '6' && HEX[7] == '7' && HEX[8] == '8' && HEX[9] == '9' && HEX[10] == 'A' && HEX[11] == 'B';
    assert HEX[12] == 'C' && HEX[13] == 'D' && HEX[14] == 'E' && HEX[15] == 'F';
  }

  ghost predicate KeepsWell(f: octet -> text) {
    forall c: octet, rest: text {:trigger f(c) + rest} :: WellEncoded(rest) ==> WellEncoded(f(c) + rest)
  }

  lemma {:induction false} WellMapped(f: octet -> text, s: text)
    requires KeepsWell(f)
    ensures WellEncoded(MapOctets(f, s))
  {
    if s != [] {
      WellMapped(f, s[1..]);
      assert MapOctets(f, s) == f(s[0]) + MapOctets(f, s[1..]);
    }
  }

  /** Every text is encoded as RFC 3986 section 2.1 has it, in upper-case digits. */
  lemma EncodedWell(s: text)
    ensures WellEncoded(Encode(s))
  {
    forall c: octet, rest: text | WellEncoded(rest)
      ensures WellEncoded(ENCODE_ONE(c) + rest)
    {
      WellFirst(c, rest);
    }
    WellMapped(ENCODE_ONE, s);
  }

  // ---------- the loops ----------

  /** The counting pass. */
  method EncodedLength(src: text) returns (len: nat)
    ensures len == |Encode(src)|
  {
    len := 0;
    var p: nat := 0;
    while p < |src|
      invariant p <= |src|
      invariant len == |Encode(src[..p])|
    {
      MapSnoc(ENCODE_ONE, src, p);
      var c := src[p];
      if Unreserved(c) {
        len := len + 1;
      } else if c == ' ' {
        len := len + 1;
      } else {
        len := len + 3;
      }
      p := p + 1;
    }
    assert src[..p] == src;
  }

  /** The loop body of the writing pass. */
  method AppendOne(dest: array<octet>, at: nat, c: octet) returns (q: nat)
    requires at + |EncodeOne(c)| <= dest.Length
    modifies dest
    ensures q == at + |EncodeOne(c)|
    ensures dest[..] == old(dest[..at]) + EncodeOne(c) + old(dest[q..])
  {
    q := at;
    if Unreserved(c) {
      dest[q] := c;
      q := q + 1;
    } else if c == ' ' {
      dest[q] := '+';
      q := q + 1;
    } else {
      dest[q] := '%';
      q := q + 1;
      dest[q] := HexDigit(c as int / 16);
      q := q + 1;
      dest[q] := HexDigit(c as int % 16);
      q := q + 1;
    }
  }

  /** Writing one more piece behind those already written. */
  lemma OneMore(was: text, before: text, now: text, at: nat, done: text, piece: text)
    requires at + |done| + |piece| <= |was|
    requires before == was[..at] + done + was[at + |done|..]
    requires now == before[..at + |done|] + piece + before[at + |done| + |piece|..]
    ensures now == was[..at] + (done + piece) + was[at + |done| + |piece|..]
  {
    assert before[..at + |done|] == was[..at] + done;
    assert before[at + |done| + |piece|..] == was[at + |done| + |piece|..];
    assert was[..at] + (done + piece) == was[..at] + done + piece;
  }

  /** The writing pass: the cursor moves by exactly the counted length, and nothing else is touched. */
  method Append(dest: array<octet>, at: nat, src: text) returns (q: nat)
    requires at + |Encode(src)| <= dest.Length
    modifies dest
    ensures q == at + |Encode(src)|
    ensures dest[..] == old(dest[..at]) + Encode(src) + old(dest[q..])
  {
    q := at;
    ghost var was := dest[..];
    var p: nat := 0;
    while p < |src|
      invariant p <= |src|
      invariant |Encode(src[..p])| <= |Encode(src)|
      invariant q == at + |Encode(src[..p])|
      invariant dest[..] == was[..at] + Encode(src[..p]) + was[q..]
    {
      MapSnoc(ENCODE_ONE, src, p);
      ghost var before, done, piece := dest[..], Encode(src[..p]), ENCODE_ONE(src[p]);
      q := AppendOne(dest, q, src[p]);
      OneMore(was, before, dest[..], at, done, piece);
      p := p + 1;
    }
    assert src[..p] == src;
  }

  /** One turn of the decoder at `src[i]`, behind what is already decoded. */
  lemma DecodeTurn(done: text, src: text, i: nat)
    requires i < |src|
    ensures src[i] == '%' && i + 2 < |src| ==>
              (done + [PAIR(src[i + 1], src[i + 2])]) + Decode(src[i + 3..]) == done + Decode(src[i..])
    ensures src[i] == '%' && i + 2 >= |src| ==> Decode(src[i + 1..]) == Decode(src[i..])
    ensures src[i] != '%' ==>
              (done + [if src[i] == '+' then ' ' else src[i]]) + Decode(src[i + 1..]) == done + Decode(src[i..])
  {
    var s := src[i..];
    assert s[1..] == src[i + 1..];
    if i + 2 < |src| {
      assert s[3..] == src[i + 3..];
    }
  }

  method Emit(dst: array<octet>, at: nat, c: octet) returns (j: nat)
    requires at < dst.Length
    modifies dst
    ensures j == at + 1 && dst[..j] == old(dst[..at]) + [c]
  {
    dst[at] := c;
    j := at + 1;
  }

  /** Decoding into a buffer one octet longer than the input, NUL-terminated. */
  method DecodeAlloc(src: text) returns (dst: array<octet>, j: nat)
    ensures fresh(dst) && dst.Length == |src| + 1
    ensures j < dst.Length && dst[..j] == Decode(src) && dst[j] == '\0'
  {
    dst := new octet[|src| + 1];
    j := 0;
    var i: nat := 0;
    while i < |src|
      invariant j <= i <= |src|
      invariant dst[..j] + Decode(src[i..]) == Decode(src)
    {
      DecodeTurn(dst[..j], src, i);
      if src[i] == '%' {
        if i + 2 < |src| {
          j := Emit(dst, j, PAIR(src[i + 1], src[i + 2]));
          i := i + 2;
        }
      } else if src[i] == '+' {
        j := Emit(dst, j, ' ');
      } else {
        j := Emit(dst, j, src[i]);
      }
      i := i + 1;
    }
    assert dst[..j] + [] == dst[..j];
    dst[j] := '\0';
  }

  /** The unreserved characters of RFC 3986 section 2.3, by their codes: letters, digits, four others. */
  lemma UnreservedAre(c: octet)
    ensures var n := c as int;
            Unreserved(c) <==> 65 <= n <= 90 || 97 <= n <= 122 || 48 <= n <= 57 || n in {45, 46, 95, 126}
  {
  }

  /** Hexadecimal digits are read in either case. */
  lemma DigitsInEitherCase(n: nat)
    requires n < 16
    ensures n < 10 ==> DigitValue((48 + n) as char) == n
    ensures n >= 10 ==> DigitValue((55 + n) as char) == n && DigitValue((87 + n) as char) == n
  {
  }
}
