/**
 * The binary exchange format of src/process.c: little-endian integers, length-prefixed strings, a
 * counted list of headers, a length-prefixed body. Serializer and deserializer move a cursor.
 */
module Ipc {
  import opened Bytes

  /** A C string; `None` is the null pointer. */
  type Text = Option<seq<byte>>

  datatype Header = Header(key: Text, value: Text)

  /** Headers and body, which requests and responses share. */
  datatype Content = Content(headers: seq<Header>, bodyLen: nat, body: Option<seq<byte>>)

  datatype Request = Request(httpMethod: int, url: Text, content: Content)

  datatype Response = Response(statusCode: int, content: Content)

  const SIZE_MAX := 0x1_0000_0000_0000_0000

  // ---------- what the source can hold ----------

  ghost predicate IsInt(n: int) {
    -0x8000_0000 <= n < 0x8000_0000
  }

  ghost predicate IsText(t: Text) {
    t.Some? ==> 0 !in t.value && |t.value| < SIZE_MAX
  }

  ghost predicate IsContent(c: Content) {
    && |c.headers| < SIZE_MAX && c.bodyLen < SIZE_MAX
    && (c.body.Some? ==> |c.body.value| == c.bodyLen)
    && forall h <- c.headers :: IsText(h.key) && IsText(h.value)
  }

  // ---------- the format ----------

  function LittleEndian(n: nat, k: nat): (r: seq<byte>)
    ensures |r| == k
    decreases k, n
  {
    if k == 0 then [] else [n % 256] + LittleEndian(n / 256, k - 1)
  }

  function FromLittleEndian(s: seq<byte>): nat {
    if s == [] then 0 else s[0] + 256 * FromLittleEndian(s[1..])
  }

  lemma {:induction false} LittleEndianRoundTrip(n: nat, k: nat)
    requires n < Pow256(k)
    ensures FromLittleEndian(LittleEndian(n, k)) == n
  {
    if k > 0 {
      LittleEndianRoundTrip(n / 256, k - 1);
    }
  }

  lemma {:induction false} LittleEndianBound(s: seq<byte>)
    ensures FromLittleEndian(s) < Pow256(|s|)
  {
    if s != [] {
      LittleEndianBound(s[1..]);
    }
  }

  /** Two's complement. */
  function IntOctets(n: int): (r: seq<byte>)
    ensures |r| == 4
  {
    LittleEndian(n % 0x1_0000_0000, 4)
  }

  function SizeOctets(n: nat): (r: seq<byte>)
    ensures |r| == 8
  {
    LittleEndian(n, 8)
  }

  function Chars(t: Text): seq<byte> {
    if t.Some? then t.value else []
  }

  function TextOctets(t: Text): (r: seq<byte>)
    ensures |r| == 8 + |Chars(t)|
  {
    SizeOctets(|Chars(t)|) + Chars(t)
  }

  function OneHeaderOctets(h: Header): (r: seq<byte>)
    ensures |r| == 16 + |Chars(h.key)| + |Chars(h.value)|
  {
    TextOctets(h.key) + TextOctets(h.value)
  }

  const HEADER_OCTETS: Header -> seq<byte> := (h: Header) => OneHeaderOctets(h)

  /** Items one behind the other. */
  function ManyOctets(enc: Header -> seq<byte>, hs: seq<Header>): seq<byte> {
    if hs == [] then [] else enc(hs[0]) + ManyOctets(enc, hs[1..])
  }

  function HeaderOctets(hs: seq<Header>): seq<byte> {
    ManyOctets(HEADER_OCTETS, hs)
  }

  function BodyOctets(c: Content): seq<byte> {
    if c.bodyLen > 0 && c.body.Some? then c.body.value else []
  }

  function ContentOctets(c: Content): seq<byte> {
    SizeOctets(|c.headers|) + HeaderOctets(c.headers) + SizeOctets(c.bodyLen) + BodyOctets(c)
  }

  function RequestOctets(r: Request): seq<byte> {
    IntOctets(r.httpMethod) + TextOctets(r.url) + ContentOctets(r.content)
  }

  function ResponseOctets(r: Response): seq<byte> {
    IntOctets(r.statusCode) + ContentOctets(r.content)
  }

  // ---------- the size estimate ----------

  function HeaderEstimate(hs: seq<Header>): nat {
    if hs == [] then 0 else 16 + |Chars(hs[0].key)| + |Chars(hs[0].value)| + HeaderEstimate(hs[1..])
  }

  function ContentEstimate(c: Content): nat {
    16 + HeaderEstimate(c.headers) + c.bodyLen
  }

  lemma {:induction false} HeaderEstimateRight(hs: seq<Header>)
    ensures |HeaderOctets(hs)| == HeaderEstimate(hs)
  {
    if hs != [] {
      HeaderEstimateRight(hs[1..]);
    }
  }

  /** The serializer writes exactly its estimate, if and only if a body of positive length is there. */
  lemma EstimateRight(c: Content)
    requires IsContent(c)
    ensures |ContentOctets(c)| <= ContentEstimate(c)
    ensures |ContentOctets(c)| == ContentEstimate(c) <==> (c.bodyLen > 0 ==> c.body.Some?)
  {
    HeaderEstimateRight(c.headers);
  }

  // ---------- parsing ----------

  /**
   * A parse result: the value and the octets left over, or refusal, or a length that passes the end
   * test although the octets are not there.
   */
  datatype Parsed<T> = Refused | Beyond | Got(value: T, rest: seq<byte>)

  function Fail<T>(beyond: bool): Parsed<T> {
    if beyond then Beyond else Refused
  }

  /**
   * The next `n` octets. Addresses have 64 bits, and `gap` of them lie behind the buffer: from there
   * on, the address behind the octets wraps around, and passes for one in front of the end.
   */
  function ParseOctets(s: seq<byte>, n: nat, gap: nat): Parsed<seq<byte>> {
    if n <= |s| then Got(s[..n], s[n..]) else Fail(n >= |s| + gap)
  }

  function ParseSize(s: seq<byte>, gap: nat): Parsed<nat> {
    var p := ParseOctets(s, 8, gap);
    if p.Got? then Got(FromLittleEndian(p.value), p.rest) else Fail(p.Beyond?)
  }

  function Signed(n: nat): int {
    if n < 0x8000_0000 then n else n - 0x1_0000_0000
  }

  function ParseInt(s: seq<byte>, gap: nat): Parsed<int> {
    var p := ParseOctets(s, 4, gap);
    if p.Got? then Got(Signed(FromLittleEndian(p.value)), p.rest) else Fail(p.Beyond?)
  }

  /** What a C reader sees of a buffer: the octets in front of the first NUL. */
  function CString(s: seq<byte>): seq<byte> {
    if s == [] || s[0] == 0 then [] else [s[0]] + CString(s[1..])
  }

  lemma {:induction false} CStringCut(a: seq<byte>, b: seq<byte>)
    requires 0 !in a && (b == [] || b[0] == 0)
    ensures CString(a + b) == a
  {
    if a == [] {
      assert a + b == b;
    } else {
      assert (a + b)[0] == a[0] && (a + b)[1..] == a[1..] + b;
      assert a[0] in a && forall c <- a[1..] :: c in a;
      CStringCut(a[1..], b);
      assert a == [a[0]] + a[1..];
    }
  }

  /** A length and as many octets, which are absent for length zero. */
  function ParseCounted(s: seq<byte>, gap: nat): Parsed<Option<seq<byte>>> {
    var n := ParseSize(s, gap);
    if !n.Got? then Fail(n.Beyond?)
    else if n.value == 0 then Got(None, n.rest)
    else
      var p := ParseOctets(n.rest, n.value, gap);
      if p.Got? then Got(Some(p.value), p.rest) else Fail(p.Beyond?)
  }

  /** Length zero is the null pointer. */
  function ParseText(s: seq<byte>, gap: nat): Parsed<Text> {
    var p := ParseCounted(s, gap);
    if !p.Got? then Fail(p.Beyond?)
    else Got(if p.value.Some? then Some(CString(p.value.value)) else None, p.rest)
  }

  /** A null key or value is refused by `http_headers_add`. */
  function ParseHeader(s: seq<byte>, gap: nat): Parsed<Header> {
    var k := ParseText(s, gap);
    if !k.Got? then Fail(k.Beyond?) else
    var v := ParseText(k.rest, gap);
    if !v.Got? then Fail(v.Beyond?)
    else if k.value == None || v.value == None then Refused
    else Got(Header(k.value, v.value), v.rest)
  }

  /** The parser of one header as a value. */
  function HeaderParser(gap: nat): seq<byte> -> Parsed<Header> {
    (s: seq<byte>) => ParseHeader(s, gap)
  }

  function Behind(h: Header, more: Parsed<seq<Header>>): Parsed<seq<Header>> {
    if more.Got? then Got([h] + more.value, more.rest) else more
  }

  /** `n` items one after the other. */
  function ParseMany(f: seq<byte> -> Parsed<Header>, s: seq<byte>, n: nat): Parsed<seq<Header>>
    decreases n
  {
    if n == 0 then Got([], s)
    else if !f(s).Got? then Fail(f(s).Beyond?)
    else Behind(f(s).value, ParseMany(f, f(s).rest, n - 1))
  }

  function ParseHeaders(s: seq<byte>, n: nat, gap: nat): Parsed<seq<Header>> {
    ParseMany(HeaderParser(gap), s, n)
  }

  function ParseBody(s: seq<byte>, hs: seq<Header>, gap: nat): Parsed<Content> {
    var p := ParseCounted(s, gap);
    if !p.Got? then Fail(p.Beyond?)
    else Got(Content(hs, if p.value.Some? then |p.value.value| else 0, p.value), p.rest)
  }

  function ParseContent(s: seq<byte>, gap: nat): Parsed<Content> {
    var n := ParseSize(s, gap);
    if !n.Got? then Fail(n.Beyond?) else
    var hs := ParseHeaders(n.rest, n.value, gap);
    if hs.Got? then ParseBody(hs.rest, hs.value, gap) else Fail(hs.Beyond?)
  }

  function ParseRequest(s: seq<byte>, gap: nat): Parsed<Request> {
    var i := ParseInt(s, gap);
    if !i.Got? then Fail(i.Beyond?) else
    var u := ParseText(i.rest, gap);
    if !u.Got? then Fail(u.Beyond?) else
    var c := ParseContent(u.rest, gap);
    if c.Got? then Got(Request(i.value, u.value, c.value), c.rest) else Fail(c.Beyond?)
  }

  function ParseResponse(s: seq<byte>, gap: nat): Parsed<Response> {
    var i := ParseInt(s, gap);
    if !i.Got? then Fail(i.Beyond?) else
    var c := ParseContent(i.rest, gap);
    if c.Got? then Got(Response(i.value, c.value), c.rest) else Fail(c.Beyond?)
  }

  // ---------- parsing what was written ----------

  lemma OctetsRead(a: seq<byte>, rest: seq<byte>, gap: nat)
    ensures ParseOctets(a + rest, |a|, gap) == Got(a, rest)
  {
    assert (a + rest)[..|a|] == a && (a + rest)[|a|..] == rest;
  }

  lemma SizeRead(n: nat, rest: seq<byte>, gap: nat)
    requires n < SIZE_MAX
    ensures ParseSize(SizeOctets(n) + rest, gap) == Got(n, rest)
  {
    assert Pow256(4) == 0x1_0000_0000 && Pow256(8) == SIZE_MAX;
    LittleEndianRoundTrip(n, 8);
    OctetsRead(SizeOctets(n), rest, gap);
  }

  lemma IntRead(n: int, rest: seq<byte>, gap: nat)
    requires IsInt(n)
    ensures ParseInt(IntOctets(n) + rest, gap) == Got(n, rest)
  {
    assert Pow256(4) == 0x1_0000_0000;
    LittleEndianRoundTrip(n % 0x1_0000_0000, 4);
    OctetsRead(IntOctets(n), rest, gap);
  }

  /** A length with its octets is read back; without them, the octets behind count. */
  lemma CountedRead(a: seq<byte>, rest: seq<byte>, gap: nat)
    requires |a| < SIZE_MAX
    ensures ParseCounted(SizeOctets(|a|) + (a + rest), gap) == Got(if a == [] then None else Some(a), rest)
  {
    SizeRead(|a|, a + rest, gap);
    OctetsRead(a, rest, gap);
    if a == [] {
      assert a + rest == rest;
    }
  }

  lemma {:induction false} NoNul(s: seq<byte>)
    requires 0 !in s
    ensures CString(s) == s
  {
    if s != [] {
      NoNul(s[1..]);
    }
  }

  /** An empty string comes back as the null pointer. */
  function Normal(t: Text): Text {
    if Chars(t) == [] then None else t
  }

  lemma TextRead(t: Text, rest: seq<byte>, gap: nat)
    requires IsText(t)
    ensures ParseText(TextOctets(t) + rest, gap) == Got(Normal(t), rest)
  {
    var c := Chars(t);
    Regroup(SizeOctets(|c|), c, rest);
    CountedRead(c, rest, gap);
    NoNul(c);
  }

  /** Keys and values that survive: present and not empty. */
  predicate Full(h: Header) {
    Chars(h.key) != [] && Chars(h.value) != []
  }

  lemma HeaderRead(h: Header, x: seq<byte>, gap: nat)
    requires IsText(h.key) && IsText(h.value)
    ensures ParseHeader(OneHeaderOctets(h) + x, gap) == if Full(h) then Got(h, x) else Refused
  {
    Regroup(TextOctets(h.key), TextOctets(h.value), x);
    TextRead(h.key, TextOctets(h.value) + x, gap);
    TextRead(h.value, x, gap);
  }

  /** `dec` reads back what `enc` writes for the items of `hs`, if they are good, and refuses it otherwise. */
  ghost predicate Reads(enc: Header -> seq<byte>, dec: seq<byte> -> Parsed<Header>, good: Header -> bool,
                        hs: seq<Header>)
  {
    forall h, x {:trigger h in hs, dec(enc(h) + x)} ::
      h in hs ==> dec(enc(h) + x) == if good(h) then Got(h, x) else Refused
  }

  lemma {:induction false} ManyRead(enc: Header -> seq<byte>, dec: seq<byte> -> Parsed<Header>, good: Header -> bool,
                                    hs: seq<Header>, rest: seq<byte>)
    requires Reads(enc, dec, good, hs)
    ensures ParseMany(dec, ManyOctets(enc, hs) + rest, |hs|) ==
            if forall h <- hs :: good(h) then Got(hs, rest) else Refused
    decreases |hs|
  {
    if hs == [] {
      assert ManyOctets(enc, hs) + rest == rest;
    } else {
      var h, more := hs[0], hs[1..];
      assert hs == [h] + more;
      var x := ManyOctets(enc, more) + rest;
      assert ManyOctets(enc, hs) + rest == enc(h) + x;
      assert h in hs && forall g <- more :: g in hs;
      assert dec(enc(h) + x) == if good(h) then Got(h, x) else Refused;
      ManyRead(enc, dec, good, more, rest);
    }
  }

  lemma HeadersRead(hs: seq<Header>, rest: seq<byte>, gap: nat)
    requires forall h <- hs :: IsText(h.key) && IsText(h.value)
    ensures ParseHeaders(HeaderOctets(hs) + rest, |hs|, gap) ==
            if forall h <- hs :: Full(h) then Got(hs, rest) else Refused
  {
    var good, dec := (h: Header) => Full(h), HeaderParser(gap);
    forall h, x | h in hs
      ensures dec(HEADER_OCTETS(h) + x) == if good(h) then Got(h, x) else Refused
    {
      HeaderRead(h, x, gap);
    }
    ManyRead(HEADER_OCTETS, dec, good, hs, rest);
    assert (forall h <- hs :: good(h)) <==> forall h <- hs :: Full(h);
  }

  /** The body is there when it has a length, and only then. */
  predicate BodyPresent(c: Content) {
    c.body.Some? <==> c.bodyLen > 0
  }

  /** Without its octets, the length of a body is taken for that of what lies behind. */
  lemma BodyRead(c: Content, rest: seq<byte>, gap: nat)
    requires IsContent(c)
    ensures var p := ParseBody(SizeOctets(c.bodyLen) + (BodyOctets(c) + rest), c.headers, gap);
            && (c.bodyLen == 0 || c.body.Some? ==>
                  p == Got(c.(body := if c.bodyLen > 0 then c.body else None), rest))
            && (c.bodyLen > |rest| && c.body == None ==> !p.Got?)
  {
    var b := BodyOctets(c);
    if c.bodyLen == |b| {
      CountedRead(b, rest, gap);
    } else {
      assert b + rest == rest;
      SizeRead(c.bodyLen, rest, gap);
    }
  }

  lemma ContentRead(c: Content, rest: seq<byte>, gap: nat)
    requires IsContent(c)
    ensures (forall h <- c.headers :: Full(h)) && BodyPresent(c) ==>
              ParseContent(ContentOctets(c) + rest, gap) == Got(c, rest)
    ensures ParseContent(ContentOctets(c), gap) == Got(c, []) ==>
              (forall h <- c.headers :: Full(h)) && BodyPresent(c)
  {
    ContentHead(c, rest, gap);
    ContentHead(c, [], gap);
    assert ContentOctets(c) + [] == ContentOctets(c);
    BodyRead(c, rest, gap);
    BodyRead(c, [], gap);
  }

  lemma RegroupContent(a: seq<byte>, b: seq<byte>, c: seq<byte>, d: seq<byte>, e: seq<byte>)
    ensures a + b + c + d + e == a + (b + (c + (d + e)))
  {
  }

  /** Everything in front of the body. */
  lemma ContentHead(c: Content, rest: seq<byte>, gap: nat)
    requires IsContent(c)
    ensures ParseContent(ContentOctets(c) + rest, gap) ==
            if forall h <- c.headers :: Full(h)
            then ParseBody(SizeOctets(c.bodyLen) + (BodyOctets(c) + rest), c.headers, gap)
            else Refused
  {
    var b := SizeOctets(c.bodyLen) + (BodyOctets(c) + rest);
    RegroupContent(SizeOctets(|c.headers|), HeaderOctets(c.headers), SizeOctets(c.bodyLen), BodyOctets(c), rest);
    SizeRead(|c.headers|, HeaderOctets(c.headers) + b, gap);
    HeadersRead(c.headers, b, gap);
  }

  // ---------- round trip ----------

  /** What a request must be like to survive the exchange; a caller can check it beforehand. */
  predicate Survives(c: Content) {
    (forall h <- c.headers :: Full(h)) && BodyPresent(c)
  }

  /** Everything in front of the content. */
  lemma RequestHead(r: Request, rest: seq<byte>, gap: nat)
    requires IsInt(r.httpMethod) && IsText(r.url)
    ensures ParseRequest(RequestOctets(r) + rest, gap) ==
            var c := ParseContent(ContentOctets(r.content) + rest, gap);
            if c.Got? then Got(Request(r.httpMethod, Normal(r.url), c.value), c.rest) else Fail(c.Beyond?)
  {
    var c := ContentOctets(r.content) + rest;
    assert RequestOctets(r) + rest == IntOctets(r.httpMethod) + (TextOctets(r.url) + c);
    IntRead(r.httpMethod, TextOctets(r.url) + c, gap);
    TextRead(r.url, c, gap);
  }

  /** Round trip, with trailing octets ignored. */
  lemma RequestRead(r: Request, trailing: seq<byte>, gap: nat)
    requires IsInt(r.httpMethod) && IsText(r.url) && IsContent(r.content)
    requires r.url != Some([]) && Survives(r.content)
    ensures ParseRequest(RequestOctets(r) + trailing, gap) == Got(r, trailing)
  {
    RequestHead(r, trailing, gap);
    ContentRead(r.content, trailing, gap);
  }

  /** The condition is exact: a request comes back unchanged if and only if it meets it. */
  lemma RequestRoundTrip(r: Request, gap: nat)
    requires IsInt(r.httpMethod) && IsText(r.url) && IsContent(r.content)
    ensures ParseRequest(RequestOctets(r), gap) == Got(r, []) <==> r.url != Some([]) && Survives(r.content)
  {
    RequestHead(r, [], gap);
    assert RequestOctets(r) + [] == RequestOctets(r);
    assert ContentOctets(r.content) + [] == ContentOctets(r.content);
    ContentRead(r.content, [], gap);
  }

  lemma ResponseHead(r: Response, rest: seq<byte>, gap: nat)
    requires IsInt(r.statusCode)
    ensures ParseResponse(ResponseOctets(r) + rest, gap) ==
            var c := ParseContent(ContentOctets(r.content) + rest, gap);
            if c.Got? then Got(Response(r.statusCode, c.value), c.rest) else Fail(c.Beyond?)
  {
    Regroup(IntOctets(r.statusCode), ContentOctets(r.content), rest);
    IntRead(r.statusCode, ContentOctets(r.content) + rest, gap);
  }

  lemma ResponseRead(r: Response, trailing: seq<byte>, gap: nat)
    requires IsInt(r.statusCode) && IsContent(r.content) && Survives(r.content)
    ensures ParseResponse(ResponseOctets(r) + trailing, gap) == Got(r, trailing)
  {
    ResponseHead(r, trailing, gap);
    ContentRead(r.content, trailing, gap);
  }

  lemma ResponseRoundTrip(r: Response, gap: nat)
    requires IsInt(r.statusCode) && IsContent(r.content)
    ensures ParseResponse(ResponseOctets(r), gap) == Got(r, []) <==> Survives(r.content)
  {
    ResponseHead(r, [], gap);
    assert ResponseOctets(r) + [] == ResponseOctets(r);
    assert ContentOctets(r.content) + [] == ContentOctets(r.content);
    ContentRead(r.content, [], gap);
  }

  /** A request that does not survive: an empty URL comes back as the null pointer. */
  lemma EmptyUrl(gap: nat)
    ensures var r := Request(0, Some([]), Content([], 0, None));
            ParseRequest(RequestOctets(r), gap) == Got(r.(url := None), [])
  {
    var r := Request(0, Some([]), Content([], 0, None));
    RequestHead(r, [], gap);
    assert RequestOctets(r) + [] == RequestOctets(r);
    ContentRead(r.content, [], gap);
  }

  /** A response that does not survive: a header with an empty value is refused. */
  lemma EmptyValue(key: seq<byte>, gap: nat)
    requires 0 !in key && |key| < SIZE_MAX
    ensures var r := Response(200, Content([Header(Some(key), Some([]))], 0, None));
            ParseResponse(ResponseOctets(r), gap) == Refused
  {
    var r := Response(200, Content([Header(Some(key), Some([]))], 0, None));
    ResponseHead(r, [], gap);
    assert ResponseOctets(r) + [] == ResponseOctets(r);
    ContentHead(r.content, [], gap);
    assert !Full(r.content.headers[0]);
  }

  /**
   * A length that reaches the end of the addresses passes the end test, here that of a URL of which
   * nothing is there.
   */
  lemma LengthWraps(httpMethod: int, len: nat, gap: nat)
    requires IsInt(httpMethod) && 0 < len < SIZE_MAX
    ensures ParseRequest(IntOctets(httpMethod) + SizeOctets(len), gap) == if len < gap then Refused else Beyond
  {
    var none: seq<byte> := [];
    assert SizeOctets(len) + none == SizeOctets(len);
    IntRead(httpMethod, SizeOctets(len), gap);
    SizeRead(len, none, gap);
  }

  // ---------- truncation ----------

  /**
   * `q` parses a continuation by `more` of what `p` parses: what is accepted stays accepted, and
   * leaves the continuation; what passed the end test by wrapping around is not accepted, as long as
   * the continuation lies in memory.
   */
  ghost predicate Continues<T>(p: Parsed<T>, q: Parsed<T>, more: seq<byte>, gap: nat) {
    && (p.Got? ==> q == Got(p.value, p.rest + more))
    && (p.Beyond? && |more| < gap ==> !q.Got?)
  }

  lemma OctetsExtend(s: seq<byte>, n: nat, more: seq<byte>, gap: nat)
    ensures Continues(ParseOctets(s, n, gap), ParseOctets(s + more, n, gap), more, gap)
  {
    if n <= |s| {
      assert (s + more)[..n] == s[..n] && (s + more)[n..] == s[n..] + more;
    }
  }

  lemma SizeExtends(s: seq<byte>, more: seq<byte>, gap: nat)
    ensures Continues(ParseSize(s, gap), ParseSize(s + more, gap), more, gap)
  {
    OctetsExtend(s, 8, more, gap);
  }

  lemma IntExtends(s: seq<byte>, more: seq<byte>, gap: nat)
    ensures Continues(ParseInt(s, gap), ParseInt(s + more, gap), more, gap)
  {
    OctetsExtend(s, 4, more, gap);
  }

  lemma CountedExtends(s: seq<byte>, more: seq<byte>, gap: nat)
    ensures Continues(ParseCounted(s, gap), ParseCounted(s + more, gap), more, gap)
  {
    SizeExtends(s, more, gap);
    var n := ParseSize(s, gap);
    if n.Got? {
      OctetsExtend(n.rest, n.value, more, gap);
    }
  }

  lemma TextExtends(s: seq<byte>, more: seq<byte>, gap: nat)
    ensures Continues(ParseText(s, gap), ParseText(s + more, gap), more, gap)
  {
    CountedExtends(s, more, gap);
  }

  lemma HeaderExtends(s: seq<byte>, more: seq<byte>, gap: nat)
    ensures Continues(ParseHeader(s, gap), ParseHeader(s + more, gap), more, gap)
  {
    TextExtends(s, more, gap);
    if ParseText(s, gap).Got? {
      TextExtends(ParseText(s, gap).rest, more, gap);
    }
  }

  ghost predicate Extends(f: seq<byte> -> Parsed<Header>, gap: nat) {
    forall s, more {:trigger f(s + more)} :: Continues(f(s), f(s + more), more, gap)
  }

  lemma {:induction false} ManyExtend(f: seq<byte> -> Parsed<Header>, s: seq<byte>, n: nat, more: seq<byte>, gap: nat)
    requires Extends(f, gap)
    ensures Continues(ParseMany(f, s, n), ParseMany(f, s + more, n), more, gap)
    decreases n
  {
    if n > 0 {
      assert Continues(f(s), f(s + more), more, gap);
      if f(s).Got? {
        ManyExtend(f, f(s).rest, n - 1, more, gap);
      }
    }
  }

  lemma HeadersExtend(s: seq<byte>, n: nat, more: seq<byte>, gap: nat)
    ensures Continues(ParseHeaders(s, n, gap), ParseHeaders(s + more, n, gap), more, gap)
  {
    var f := HeaderParser(gap);
    forall t, x
      ensures Continues(f(t), f(t + x), x, gap)
    {
      HeaderExtends(t, x, gap);
    }
    ManyExtend(f, s, n, more, gap);
  }

  lemma BodyExtends(s: seq<byte>, hs: seq<Header>, more: seq<byte>, gap: nat)
    ensures Continues(ParseBody(s, hs, gap), ParseBody(s + more, hs, gap), more, gap)
  {
    CountedExtends(s, more, gap);
  }

  lemma ContentExtends(s: seq<byte>, more: seq<byte>, gap: nat)
    ensures Continues(ParseContent(s, gap), ParseContent(s + more, gap), more, gap)
  {
    SizeExtends(s, more, gap);
    var n := ParseSize(s, gap);
    if n.Got? {
      HeadersExtend(n.rest, n.value, more, gap);
      var hs := ParseHeaders(n.rest, n.value, gap);
      if hs.Got? {
        BodyExtends(hs.rest, hs.value, more, gap);
      }
    }
  }

  lemma RequestExtends(s: seq<byte>, more: seq<byte>, gap: nat)
    ensures Continues(ParseRequest(s, gap), ParseRequest(s + more, gap), more, gap)
  {
    IntExtends(s, more, gap);
    var i := ParseInt(s, gap);
    if i.Got? {
      TextExtends(i.rest, more, gap);
      var u := ParseText(i.rest, gap);
      if u.Got? {
        ContentExtends(u.rest, more, gap);
      }
    }
  }

  lemma ResponseExtends(s: seq<byte>, more: seq<byte>, gap: nat)
    ensures Continues(ParseResponse(s, gap), ParseResponse(s + more, gap), more, gap)
  {
    IntExtends(s, more, gap);
    var i := ParseInt(s, gap);
    if i.Got? {
      ContentExtends(i.rest, more, gap);
    }
  }

  lemma Truncated<T>(p: Parsed<T>, q: Parsed<T>, value: T, more: seq<byte>, gap: nat)
    requires Continues(p, q, more, gap) && q == Got(value, []) && more != []
    ensures !p.Got? && (|more| < gap ==> p == Refused)
  {
    assert forall s: seq<byte> :: |s + more| > 0;
  }

  /**
   * No strict prefix of a serialized request is accepted; it is refused as long as the whole would
   * still fit in memory where the prefix lies.
   */
  lemma RequestTruncated(r: Request, k: nat, gap: nat)
    requires IsInt(r.httpMethod) && IsText(r.url) && IsContent(r.content)
    requires r.url != Some([]) && Survives(r.content)
    requires k < |RequestOctets(r)|
    ensures var p := ParseRequest(RequestOctets(r)[..k], gap);
            !p.Got? && (|RequestOctets(r)| < k + gap ==> p == Refused)
  {
    var s, more := RequestOctets(r)[..k], RequestOctets(r)[k..];
    assert s + more == RequestOctets(r);
    RequestRoundTrip(r, gap);
    RequestExtends(s, more, gap);
    Truncated(ParseRequest(s, gap), ParseRequest(s + more, gap), r, more, gap);
  }

  /** The same for a serialized response. */
  lemma ResponseTruncated(r: Response, k: nat, gap: nat)
    requires IsInt(r.statusCode) && IsContent(r.content) && Survives(r.content)
    requires k < |ResponseOctets(r)|
    ensures var p := ParseResponse(ResponseOctets(r)[..k], gap);
            !p.Got? && (|ResponseOctets(r)| < k + gap ==> p == Refused)
  {
    var s, more := ResponseOctets(r)[..k], ResponseOctets(r)[k..];
    assert s + more == ResponseOctets(r);
    ResponseRoundTrip(r, gap);
    ResponseExtends(s, more, gap);
    Truncated(ParseResponse(s, gap), ParseResponse(s + more, gap), r, more, gap);
  }

  /** Octet `j` counts `Pow256(j)`: the least significant one comes first. */
  lemma {:induction false} LittleEndianAt(n: nat, k: nat, j: nat)
    requires j < k
    ensures LittleEndian(n, k)[j] == n / Pow256(j) % 256
    decreases j
  {
    if j > 0 {
      LittleEndianAt(n / 256, k - 1, j - 1);
      DivideTwice(n, Pow256(j - 1));
    }
  }

  /** The sign is two's complement: the octets of an `int` count its value modulo 2^32. */
  lemma IntOctetsAt(n: int, j: nat)
    requires IsInt(n) && j < 4
    ensures IntOctets(n)[j] == (if n >= 0 then n else n + 0x1_0000_0000) / Pow256(j) % 256
  {
    LittleEndianAt(n % 0x1_0000_0000, 4, j);
  }
}
