/** The serializer and deserializer of src/process.c: a cursor moves through one buffer. */
module IpcCodec {
  import opened Bytes
  import opened Ipc

  // ---------- writing ----------

  /** The first `p` octets are written, `rest` is still to come, and the whole fits. */
  ghost predicate Writing(buf: array<byte>, p: nat, rest: seq<byte>, full: seq<byte>)
    reads buf
  {
    p <= buf.Length && |full| <= buf.Length && buf[..p] + rest == full
  }

  /** `memcpy` at the cursor. */
  method Put(buf: array<byte>, p: nat, d: seq<byte>, ghost rest: seq<byte>, ghost full: seq<byte>) returns (q: nat)
    requires Writing(buf, p, d + rest, full)
    modifies buf
    ensures q == p + |d| && Writing(buf, q, rest, full)
  {
    assert |buf[..p] + (d + rest)| == p + |d| + |rest|;
    forall k | 0 <= k < |d| {
      buf[p + k] := d[k];
    }
    q := p + |d|;
    assert buf[..q] == old(buf[..p]) + d;
    assert (old(buf[..p]) + d) + rest == old(buf[..p]) + (d + rest);
  }

  /** `write_str` */
  method WriteText(buf: array<byte>, p: nat, t: Text, ghost rest: seq<byte>, ghost full: seq<byte>) returns (q: nat)
    requires Writing(buf, p, TextOctets(t) + rest, full)
    modifies buf
    ensures Writing(buf, q, rest, full)
  {
    var c := Chars(t);
    Regroup(SizeOctets(|c|), c, rest);
    q := Put(buf, p, SizeOctets(|c|), c + rest, full);
    if |c| > 0 {
      q := Put(buf, q, c, rest, full);
    } else {
      assert c + rest == rest;
    }
  }

  method WriteHeader(buf: array<byte>, p: nat, h: Header, ghost rest: seq<byte>, ghost full: seq<byte>) returns (q: nat)
    requires Writing(buf, p, OneHeaderOctets(h) + rest, full)
    modifies buf
    ensures Writing(buf, q, rest, full)
  {
    assert OneHeaderOctets(h) + rest == TextOctets(h.key) + (TextOctets(h.value) + rest);
    q := WriteText(buf, p, h.key, TextOctets(h.value) + rest, full);
    q := WriteText(buf, q, h.value, rest, full);
  }

  lemma NextHeader(hs: seq<Header>, i: nat, rest: seq<byte>)
    requires i < |hs|
    ensures HeaderOctets(hs[i..]) + rest == OneHeaderOctets(hs[i]) + (HeaderOctets(hs[i + 1..]) + rest)
  {
    assert hs[i..][0] == hs[i] && hs[i..][1..] == hs[i + 1..];
  }

  method WriteHeaders(buf: array<byte>, p: nat, hs: seq<Header>, ghost rest: seq<byte>, ghost full: seq<byte>)
    returns (q: nat)
    requires Writing(buf, p, HeaderOctets(hs) + rest, full)
    modifies buf
    ensures Writing(buf, q, rest, full)
  {
    q := p;
    assert hs[0..] == hs;
    for i := 0 to |hs|
      invariant Writing(buf, q, HeaderOctets(hs[i..]) + rest, full)
    {
      NextHeader(hs, i, rest);
      q := WriteHeader(buf, q, hs[i], HeaderOctets(hs[i + 1..]) + rest, full);
    }
    assert HeaderOctets(hs[|hs|..]) + rest == rest;
  }

  method WriteBody(buf: array<byte>, p: nat, c: Content, ghost full: seq<byte>) returns (q: nat)
    requires Writing(buf, p, SizeOctets(c.bodyLen) + BodyOctets(c), full)
    modifies buf
    ensures Writing(buf, q, [], full)
  {
    q := Put(buf, p, SizeOctets(c.bodyLen), BodyOctets(c), full);
    if c.bodyLen > 0 && c.body.Some? {
      assert BodyOctets(c) == c.body.value + [];
      q := Put(buf, q, c.body.value, [], full);
    }
  }

  method WriteContent(buf: array<byte>, p: nat, c: Content, ghost full: seq<byte>) returns (q: nat)
    requires Writing(buf, p, ContentOctets(c), full)
    modifies buf
    ensures Writing(buf, q, [], full)
  {
    ghost var tail := SizeOctets(c.bodyLen) + BodyOctets(c);
    ghost var more := HeaderOctets(c.headers) + tail;
    ContentParts(c);
    q := Put(buf, p, SizeOctets(|c.headers|), more, full);
    q := WriteHeaders(buf, q, c.headers, tail, full);
    q := WriteBody(buf, q, c, full);
  }

  lemma ContentParts(c: Content)
    ensures ContentOctets(c) ==
            SizeOctets(|c.headers|) + (HeaderOctets(c.headers) + (SizeOctets(c.bodyLen) + BodyOctets(c)))
  {
  }

  /** The loop that adds up the headers' sizes. */
  method EstimateHeaders(hs: seq<Header>) returns (n: nat)
    ensures n == HeaderEstimate(hs)
  {
    n := 0;
    assert hs[0..] == hs;
    for i := 0 to |hs|
      invariant n + HeaderEstimate(hs[i..]) == HeaderEstimate(hs)
    {
      assert hs[i..][0] == hs[i] && hs[i..][1..] == hs[i + 1..];
      n := n + 8 + |Chars(hs[i].key)| + 8 + |Chars(hs[i].value)|;
    }
    assert hs[|hs|..] == [];
  }

  method WriteRequest(buf: array<byte>, r: Request, ghost full: seq<byte>) returns (p: nat)
    requires Writing(buf, 0, full, full) && full == RequestOctets(r)
    modifies buf
    ensures Writing(buf, p, [], full)
  {
    ghost var c := ContentOctets(r.content);
    ghost var text := TextOctets(r.url) + c;
    RequestParts(r);
    p := Put(buf, 0, IntOctets(r.httpMethod), text, full);
    p := WriteText(buf, p, r.url, c, full);
    p := WriteContent(buf, p, r.content, full);
  }

  lemma RequestParts(r: Request)
    ensures RequestOctets(r) == IntOctets(r.httpMethod) + (TextOctets(r.url) + ContentOctets(r.content))
  {
  }

  /** `abstract_http_ipc_serialize_request` */
  method SerializeRequest(r: Request) returns (data: seq<byte>)
    requires IsContent(r.content)
    ensures data == RequestOctets(r)
  {
    var headers := EstimateHeaders(r.content.headers);
    var estimate := 4 + 8 + 8 + |Chars(r.url)| + 8 + headers + r.content.bodyLen;
    EstimateRight(r.content);
    var buf := new byte[estimate](_ => 0);
    assert buf[..0] + RequestOctets(r) == RequestOctets(r);
    var p := WriteRequest(buf, r, RequestOctets(r));
    data := buf[..p];
    assert data + [] == data;
  }

  method WriteResponse(buf: array<byte>, r: Response, ghost full: seq<byte>) returns (p: nat)
    requires Writing(buf, 0, full, full) && full == ResponseOctets(r)
    modifies buf
    ensures Writing(buf, p, [], full)
  {
    p := Put(buf, 0, IntOctets(r.statusCode), ContentOctets(r.content), full);
    p := WriteContent(buf, p, r.content, full);
  }

  /** `abstract_http_ipc_serialize_response` */
  method SerializeResponse(r: Response) returns (data: seq<byte>)
    requires IsContent(r.content)
    ensures data == ResponseOctets(r)
  {
    var headers := EstimateHeaders(r.content.headers);
    var estimate := 4 + 8 + 8 + headers + r.content.bodyLen;
    EstimateRight(r.content);
    var buf := new byte[estimate](_ => 0);
    assert buf[..0] + ResponseOctets(r) == ResponseOctets(r);
    var p := WriteResponse(buf, r, ResponseOctets(r));
    data := buf[..p];
    assert data + [] == data;
  }

  // ---------- reading ----------

  /** `Overrun`: a length has passed the end test although the octets are not there. */
  datatype Verdict = Accepted | Rejected | Overrun

  function VerdictOf<T>(p: Parsed<T>): Verdict {
    match p
    case Got(_, _) => Accepted
    case Refused => Rejected
    case Beyond => Overrun
  }

  /** How many addresses lie behind a buffer. */
  function Gap(start: nat, size: nat): nat
    requires start + size < SIZE_MAX
  {
    SIZE_MAX - (start + size)
  }

  /** A buffer at its address. */
  predicate InMemory(start: nat, buf: seq<byte>) {
    start + |buf| < SIZE_MAX
  }

  /** A parser at a cursor agrees with a parse function on what is left. */
  ghost predicate Agrees<T>(v: Verdict, value: T, buf: seq<byte>, q: nat, p: Parsed<T>) {
    v == VerdictOf(p) && (v == Accepted ==> q <= |buf| && p.value == value && p.rest == buf[q..])
  }

  /** The test that `len` octets behind the cursor lie within the buffer, on 64-bit addresses that wrap around. */
  predicate PointerTest(start: nat, pos: nat, len: nat, size: nat) {
    (start + pos + len) % SIZE_MAX <= start + size
  }

  /** The test is right for exactly the lengths for which the address does not wrap; beyond, it always passes. */
  lemma PointerTestRight(start: nat, pos: nat, len: nat, size: nat)
    requires start + size < SIZE_MAX && pos <= size && len < SIZE_MAX
    ensures (PointerTest(start, pos, len, size) <==> pos + len <= size) <==> start + pos + len < SIZE_MAX
    ensures start + pos + len >= SIZE_MAX ==> PointerTest(start, pos, len, size)
  {
    var sum := start + pos + len;
    assert sum % SIZE_MAX == if sum < SIZE_MAX then sum else sum - SIZE_MAX;
  }

  /** The end test of all parsers, and the cursor behind the octets that it lets pass. */
  method Take(start: nat, buf: seq<byte>, p: nat, n: nat) returns (v: Verdict, q: nat)
    requires InMemory(start, buf) && p <= |buf| && n < SIZE_MAX
    ensures v == VerdictOf(ParseOctets(buf[p..], n, Gap(start, |buf|)))
    ensures v == Accepted ==> p <= q <= |buf| && ParseOctets(buf[p..], n, Gap(start, |buf|)) == Got(buf[p..q], buf[q..])
  {
    PointerTestRight(start, p, n, |buf|);
    q := p;
    if !PointerTest(start, p, n, |buf|) {
      return Rejected, q;
    }
    if p + n > |buf| {
      return Overrun, q;
    }
    assert buf[p..][..n] == buf[p..p + n] && buf[p..][n..] == buf[p + n..];
    return Accepted, p + n;
  }

  /** `parse_size` */
  method ReadSize(start: nat, buf: seq<byte>, p: nat) returns (v: Verdict, n: nat, q: nat)
    requires InMemory(start, buf) && p <= |buf|
    ensures Agrees(v, n, buf, q, ParseSize(buf[p..], Gap(start, |buf|)))
    ensures n < SIZE_MAX
  {
    n := 0;
    v, q := Take(start, buf, p, 8);
    if v == Accepted {
      n := FromLittleEndian(buf[p..q]);
      assert Pow256(4) == 0x1_0000_0000 && Pow256(8) == SIZE_MAX;
      LittleEndianBound(buf[p..q]);
    }
  }

  /** `parse_int` */
  method ReadInt(start: nat, buf: seq<byte>, p: nat) returns (v: Verdict, n: int, q: nat)
    requires InMemory(start, buf) && p <= |buf|
    ensures Agrees(v, n, buf, q, ParseInt(buf[p..], Gap(start, |buf|)))
  {
    n := 0;
    v, q := Take(start, buf, p, 4);
    if v == Accepted {
      n := FromLittleEndian(buf[p..q]);
      if n >= 0x8000_0000 {
        n := n - 0x1_0000_0000;
      }
    }
  }

  /** A length, and as many octets. */
  method ReadCounted(start: nat, buf: seq<byte>, p: nat) returns (v: Verdict, d: Option<seq<byte>>, q: nat)
    requires InMemory(start, buf) && p <= |buf|
    ensures Agrees(v, d, buf, q, ParseCounted(buf[p..], Gap(start, |buf|)))
  {
    d := None;
    var len;
    v, len, q := ReadSize(start, buf, p);
    if v == Accepted && len > 0 {
      var at := q;
      v, q := Take(start, buf, at, len);
      if v == Accepted {
        d := Some(buf[at..q]);
      }
    }
  }

  /** `parse_str` */
  method ReadText(start: nat, buf: seq<byte>, p: nat) returns (v: Verdict, t: Text, q: nat)
    requires InMemory(start, buf) && p <= |buf|
    ensures Agrees(v, t, buf, q, ParseText(buf[p..], Gap(start, |buf|)))
  {
    t := None;
    var d;
    v, d, q := ReadCounted(start, buf, p);
    if v == Accepted && d.Some? {
      t := Some(CString(d.value));
    }
  }

  /** One turn of the header loop. */
  method ReadHeader(start: nat, buf: seq<byte>, p: nat) returns (v: Verdict, h: Header, q: nat)
    requires InMemory(start, buf) && p <= |buf|
    ensures Agrees(v, h, buf, q, ParseHeader(buf[p..], Gap(start, |buf|)))
  {
    h := Header(None, None);
    var key, value;
    v, key, q := ReadText(start, buf, p);
    if v != Accepted {
      return;
    }
    v, value, q := ReadText(start, buf, q);
    if v != Accepted {
      return;
    }
    if key == None || value == None {
      return Rejected, h, q;
    }
    h := Header(key, value);
  }

  function Onto(hs: seq<Header>, p: Parsed<seq<Header>>): Parsed<seq<Header>> {
    if p.Got? then Got(hs + p.value, p.rest) else p
  }

  lemma OntoNothing(p: Parsed<seq<Header>>)
    ensures Onto([], p) == p
  {
    if p.Got? {
      assert [] + p.value == p.value;
    }
  }

  lemma OntoStep(hs: seq<Header>, h: Header, p: Parsed<seq<Header>>)
    ensures Onto(hs, Behind(h, p)) == Onto(hs + [h], p)
  {
    if p.Got? {
      assert hs + ([h] + p.value) == (hs + [h]) + p.value;
    }
  }

  /** `f` parses one header; what that means stays out of the loop. */
  ghost predicate IsHeader(f: seq<byte> -> Parsed<Header>, gap: nat) {
    forall g: seq<byte> -> Parsed<Header> {:trigger Opened(g)} :: Opened(g) && g == f ==> g == HeaderParser(gap)
  }

  method ReadHeaderAs(start: nat, buf: seq<byte>, p: nat, ghost f: seq<byte> -> Parsed<Header>)
    returns (v: Verdict, h: Header, q: nat)
    requires InMemory(start, buf) && p <= |buf| && IsHeader(f, Gap(start, |buf|))
    ensures Agrees(v, h, buf, q, f(buf[p..]))
  {
    v, h, q := ReadHeader(start, buf, p);
    assert Opened(f);
  }

  /** The loop's invariant: the headers so far, put in front of the rest, are the whole. */
  ghost predicate Reading(f: seq<byte> -> Parsed<Header>, buf: seq<byte>, q: nat, hs: seq<Header>, left: nat,
                          whole: Parsed<seq<Header>>)
  {
    q <= |buf| && Onto(hs, ParseMany(f, buf[q..], left)) == whole
  }

  /** One turn of the loop. */
  method ReadOneMore(start: nat, buf: seq<byte>, q: nat, hs: seq<Header>, ghost left: nat,
                     ghost f: seq<byte> -> Parsed<Header>, ghost whole: Parsed<seq<Header>>)
    returns (v: Verdict, hs': seq<Header>, next: nat)
    requires InMemory(start, buf) && left > 0 && Reading(f, buf, q, hs, left, whole)
    requires IsHeader(f, Gap(start, |buf|))
    ensures if v == Accepted then Reading(f, buf, next, hs', left - 1, whole) else v == VerdictOf(whole)
  {
    var h;
    v, h, next := ReadHeaderAs(start, buf, q, f);
    hs' := hs + [h];
    if v == Accepted {
      OntoStep(hs, h, ParseMany(f, buf[next..], left - 1));
    }
  }

  method ReadMany(start: nat, buf: seq<byte>, p: nat, n: nat, ghost f: seq<byte> -> Parsed<Header>)
    returns (v: Verdict, hs: seq<Header>, q: nat)
    requires InMemory(start, buf) && p <= |buf| && IsHeader(f, Gap(start, |buf|))
    ensures Agrees(v, hs, buf, q, ParseMany(f, buf[p..], n))
  {
    ghost var whole := ParseMany(f, buf[p..], n);
    hs, q, v := [], p, Accepted;
    OntoNothing(whole);
    var i := 0;
    while i < n
      invariant i <= n && v == Accepted && Reading(f, buf, q, hs, n - i, whole)
    {
      v, hs, q := ReadOneMore(start, buf, q, hs, n - i, f, whole);
      if v != Accepted {
        return;
      }
      i := i + 1;
    }
    ReadingEnds(f, buf, q, hs, whole);
  }

  lemma ReadingEnds(f: seq<byte> -> Parsed<Header>, buf: seq<byte>, q: nat, hs: seq<Header>, whole: Parsed<seq<Header>>)
    requires Reading(f, buf, q, hs, 0, whole)
    ensures whole == Got(hs, buf[q..])
  {
    assert hs + [] == hs;
  }

  method ReadHeaders(start: nat, buf: seq<byte>, p: nat, n: nat) returns (v: Verdict, hs: seq<Header>, q: nat)
    requires InMemory(start, buf) && p <= |buf|
    ensures Agrees(v, hs, buf, q, ParseHeaders(buf[p..], n, Gap(start, |buf|)))
  {
    v, hs, q := ReadMany(start, buf, p, n, HeaderParser(Gap(start, |buf|)));
  }

  method ReadBody(start: nat, buf: seq<byte>, p: nat, hs: seq<Header>) returns (v: Verdict, c: Content, q: nat)
    requires InMemory(start, buf) && p <= |buf|
    ensures Agrees(v, c, buf, q, ParseBody(buf[p..], hs, Gap(start, |buf|)))
  {
    var d;
    v, d, q := ReadCounted(start, buf, p);
    c := Content(hs, if d.Some? then |d.value| else 0, d);
  }

  method ReadContent(start: nat, buf: seq<byte>, p: nat) returns (v: Verdict, c: Content, q: nat)
    requires InMemory(start, buf) && p <= |buf|
    ensures Agrees(v, c, buf, q, ParseContent(buf[p..], Gap(start, |buf|)))
  {
    c := Content([], 0, None);
    var n, hs;
    v, n, q := ReadSize(start, buf, p);
    if v != Accepted {
      return;
    }
    v, hs, q := ReadHeaders(start, buf, q, n);
    if v != Accepted {
      return;
    }
    v, c, q := ReadBody(start, buf, q, hs);
  }

  /**
   * `abstract_http_ipc_deserialize_request` on a buffer at any address; octets behind the body are
   * ignored.
   */
  method DeserializeRequest(start: nat, buf: seq<byte>) returns (v: Verdict, r: Request)
    requires InMemory(start, buf)
    ensures var p := ParseRequest(buf, Gap(start, |buf|));
            v == VerdictOf(p) && (v == Accepted ==> r == p.value)
  {
    r := Request(0, None, Content([], 0, None));
    var code, url, c, p;
    assert buf[0..] == buf;
    v, code, p := ReadInt(start, buf, 0);
    if v != Accepted {
      return;
    }
    v, url, p := ReadText(start, buf, p);
    if v != Accepted {
      return;
    }
    v, c, p := ReadContent(start, buf, p);
    if v != Accepted {
      return;
    }
    r := Request(code, url, c);
  }

  /** `abstract_http_ipc_deserialize_response` */
  method DeserializeResponse(start: nat, buf: seq<byte>) returns (v: Verdict, r: Response)
    requires InMemory(start, buf)
    ensures var p := ParseResponse(buf, Gap(start, |buf|));
            v == VerdictOf(p) && (v == Accepted ==> r == p.value)
  {
    r := Response(0, Content([], 0, None));
    var code, c, p;
    assert buf[0..] == buf;
    v, code, p := ReadInt(start, buf, 0);
    if v != Accepted {
      return;
    }
    v, c, p := ReadContent(start, buf, p);
    if v != Accepted {
      return;
    }
    r := Response(code, c);
  }
}
