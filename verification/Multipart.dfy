/**
 * `http_request_flatten_parts` of src/http_types.c: a size estimate, then a write relying on it
 * (RFC 2046 section 5.1.1).
 */
module Multipart {
  import opened Bytes
  import opened UrlEncoding

  datatype PartHeader = PartHeader(key: text, value: text)

  datatype Part =
    Part(name: text, filename: Option<text>, contentType: Option<text>, headers: seq<PartHeader>, data: text)

  // ---------- the format ----------

  const CRLF: text := "\r\n"
  const DASHES: text := "--"
  const QUOTE: text := "\""
  const DISPOSITION: text := "Content-Disposition: form-data; name=\""
  const FILENAME: text := "; filename=\""
  const CONTENT_TYPE: text := "Content-Type: "
  const OCTET_STREAM: text := "application/octet-stream"
  const COLON: text := ": "

  function NameLine(name: text): (r: text)
    ensures |r| == 39 + |name|
  {
    DISPOSITION + name + QUOTE
  }

  function FileText(filename: Option<text>): (r: text)
    ensures |r| == if filename.Some? then 13 + |filename.value| else 0
  {
    if filename.Some? then FILENAME + filename.value + QUOTE else []
  }

  /** Files without a type are octet streams. */
  function TypeLine(p: Part): (r: text)
    ensures |r| == if p.contentType.Some? then 16 + |p.contentType.value| else if p.filename.Some? then 40 else 0
  {
    if p.contentType.Some? then CONTENT_TYPE + p.contentType.value + CRLF
    else if p.filename.Some? then CONTENT_TYPE + OCTET_STREAM + CRLF
    else []
  }

  function HeaderLine(h: PartHeader): (r: text)
    ensures |r| == |h.key| + |h.value| + 4
  {
    h.key + COLON + h.value + CRLF
  }

  function HeaderLines(hs: seq<PartHeader>): text {
    if hs == [] then [] else HeaderLines(hs[..|hs| - 1]) + HeaderLine(hs[|hs| - 1])
  }

  /** The head of a part, up to its data. */
  function Head(p: Part): text {
    NameLine(p.name) + FileText(p.filename) + CRLF + TypeLine(p) + HeaderLines(p.headers) + CRLF
  }

  function PartText(boundary: text, p: Part): text {
    DASHES + boundary + CRLF + Head(p) + p.data + CRLF
  }

  /** The encoding of parts with one boundary, as a value. */
  function Encoder(boundary: text): Part -> text {
    (p: Part) => PartText(boundary, p)
  }

  function PartsBy(g: Part -> text, ps: seq<Part>): text {
    if ps == [] then [] else PartsBy(g, ps[..|ps| - 1]) + g(ps[|ps| - 1])
  }

  function PartsText(boundary: text, ps: seq<Part>): text {
    PartsBy(Encoder(boundary), ps)
  }

  function Closing(boundary: text): (r: text)
    ensures |r| == |boundary| + 6
  {
    DASHES + boundary + DASHES + CRLF
  }

  /** The concatenation of the encoded parts, and the closing delimiter. */
  function Body(boundary: text, ps: seq<Part>): text {
    PartsText(boundary, ps) + Closing(boundary)
  }

  // ---------- the estimate ----------

  function HeadersEstimate(hs: seq<PartHeader>): nat {
    if hs == [] then 0
    else HeadersEstimate(hs[..|hs| - 1]) + |hs[|hs| - 1].key| + 2 + |hs[|hs| - 1].value| + 2
  }

  function PartEstimate(boundary: text, p: Part): nat {
    |boundary| + 6 + (38 + |p.name| + 4)
    + (if p.filename.Some? then 13 + |p.filename.value| + 1 else 0) + 2
    + (if p.contentType.Some? then 14 + |p.contentType.value| + 2 else if p.filename.Some? then 14 + 24 + 2 else 0)
    + HeadersEstimate(p.headers) + 2 + |p.data| + 2
  }

  function PartsEstimate(boundary: text, ps: seq<Part>): nat {
    if ps == [] then 0 else PartsEstimate(boundary, ps[..|ps| - 1]) + PartEstimate(boundary, ps[|ps| - 1])
  }

  function Estimate(boundary: text, ps: seq<Part>): nat {
    PartsEstimate(boundary, ps) + |boundary| + 8
  }

  lemma {:induction false} HeadersExact(hs: seq<PartHeader>)
    ensures |HeaderLines(hs)| == HeadersEstimate(hs)
  {
    if hs != [] {
      HeadersExact(hs[..|hs| - 1]);
    }
  }

  lemma PartSlack(boundary: text, p: Part)
    ensures PartEstimate(boundary, p) == |PartText(boundary, p)| + 5 + if p.filename.Some? then 1 else 0
  {
    HeadersExact(p.headers);
  }

  function Files(ps: seq<Part>): nat {
    if ps == [] then 0 else Files(ps[..|ps| - 1]) + if ps[|ps| - 1].filename.Some? then 1 else 0
  }

  lemma {:induction false} PartsSlack(boundary: text, ps: seq<Part>)
    ensures PartsEstimate(boundary, ps) == |PartsText(boundary, ps)| + 5 * |ps| + Files(ps)
  {
    if ps != [] {
      PartsSlack(boundary, ps[..|ps| - 1]);
      PartSlack(boundary, ps[|ps| - 1]);
    }
  }

  /** By how much the estimate exceeds the body: five octets a part, one more a file, two at the end. */
  lemma EstimateSlack(boundary: text, ps: seq<Part>)
    ensures Estimate(boundary, ps) == |Body(boundary, ps)| + 5 * |ps| + Files(ps) + 2
  {
    PartsSlack(boundary, ps);
  }

  // ---------- the first pass ----------

  method EstimateHeaders(hs: seq<PartHeader>, size: nat) returns (r: nat)
    ensures r == size + HeadersEstimate(hs)
  {
    r := size;
    var h: nat := 0;
    while h < |hs|
      invariant h <= |hs|
      invariant r == size + HeadersEstimate(hs[..h])
    {
      assert hs[..h + 1][..h] == hs[..h];
      r := r + (|hs[h].key| + 2 + |hs[h].value| + 2);
      h := h + 1;
    }
    assert hs[..h] == hs;
  }

  method EstimateSize(boundary: text, ps: seq<Part>) returns (size: nat)
    ensures size == Estimate(boundary, ps)
  {
    size := 0;
    var i: nat := 0;
    while i < |ps|
      invariant i <= |ps|
      invariant size == PartsEstimate(boundary, ps[..i])
    {
      assert ps[..i + 1][..i] == ps[..i];
      var p := ps[i];
      size := size + (|boundary| + 6);
      size := size + (38 + |p.name| + 4);
      if p.filename.Some? {
        size := size + (13 + |p.filename.value| + 1);
      }
      size := size + 2;
      if p.contentType.Some? {
        size := size + (14 + |p.contentType.value| + 2);
      } else if p.filename.Some? {
        size := size + (14 + 24 + 2);
      }
      size := EstimateHeaders(p.headers, size);
      size := size + 2;
      size := size + |p.data|;
      size := size + 2;
      i := i + 1;
    }
    assert ps[..i] == ps;
    size := size + (|boundary| + 8);
  }

  // ---------- the second pass ----------

  /** `sprintf_s_wrapper`: the octets and their terminator must fit. */
  method Print(buf: array<octet>, pos: nat, s: text, ghost done: text, ghost acc: text) returns (q: nat)
    requires pos + |s| + 1 <= buf.Length
    requires buf[..pos] == done + acc
    modifies buf
    ensures q == pos + |s| && buf[..q] == done + (acc + s)
  {
    q := Copy(buf, pos, s, done, acc);
    buf[q] := '\0';
  }

  /** `memcpy`, which stores no terminator. */
  method Copy(buf: array<octet>, pos: nat, s: text, ghost done: text, ghost acc: text) returns (q: nat)
    requires pos + |s| <= buf.Length
    requires buf[..pos] == done + acc
    modifies buf
    ensures q == pos + |s| && buf[..q] == done + (acc + s)
  {
    forall i | 0 <= i < |s| {
      buf[pos + i] := s[i];
    }
    q := pos + |s|;
    assert buf[..q] == old(buf[..pos]) + s;
    Regroup(done, acc, s);
  }

  method PrintHeaders(buf: array<octet>, pos: nat, hs: seq<PartHeader>, ghost done: text, ghost acc: text)
    returns (q: nat)
    requires pos + |HeaderLines(hs)| < buf.Length
    requires buf[..pos] == done + acc
    modifies buf
    ensures q == pos + |HeaderLines(hs)| && buf[..q] == done + (acc + HeaderLines(hs))
  {
    q := pos;
    var h: nat := 0;
    assert acc + [] == acc;
    while h < |hs|
      invariant h <= |hs|
      invariant q == pos + |HeaderLines(hs[..h])| <= buf.Length
      invariant buf[..q] == done + (acc + HeaderLines(hs[..h]))
    {
      assert hs[..h + 1][..h] == hs[..h];
      HeadersPrefix(hs, h + 1);
      q := Print(buf, q, HeaderLine(hs[h]), done, acc + HeaderLines(hs[..h]));
      Regroup(acc, HeaderLines(hs[..h]), HeaderLine(hs[h]));
      h := h + 1;
    }
    assert hs[..h] == hs;
  }

  lemma {:induction false} HeadersPrefix(hs: seq<PartHeader>, h: nat)
    requires h <= |hs|
    ensures |HeaderLines(hs[..h])| <= |HeaderLines(hs)|
  {
    if h < |hs| {
      HeadersPrefix(hs[..|hs| - 1], h);
      assert hs[..|hs| - 1][..h] == hs[..h];
    } else {
      assert hs[..h] == hs;
    }
  }

  method PrintHead(buf: array<octet>, pos: nat, p: Part) returns (q: nat)
    requires pos + |Head(p)| < buf.Length
    modifies buf
    ensures q == pos + |Head(p)| && buf[..q] == old(buf[..pos]) + Head(p)
  {
    ghost var done := buf[..pos];
    assert done + [] == done;
    q := Print(buf, pos, NameLine(p.name), done, []);
    assert [] + NameLine(p.name) == NameLine(p.name);
    ghost var acc := NameLine(p.name);
    if p.filename.Some? {
      q := Print(buf, q, FILENAME + p.filename.value + QUOTE, done, acc);
    } else {
      assert acc + FileText(p.filename) == acc;
    }
    acc := acc + FileText(p.filename);
    q := Print(buf, q, CRLF, done, acc);
    acc := acc + CRLF;
    if p.contentType.Some? {
      q := Print(buf, q, CONTENT_TYPE + p.contentType.value + CRLF, done, acc);
    } else if p.filename.Some? {
      q := Print(buf, q, CONTENT_TYPE + OCTET_STREAM + CRLF, done, acc);
    } else {
      assert acc + TypeLine(p) == acc;
    }
    acc := acc + TypeLine(p);
    q := PrintHeaders(buf, q, p.headers, done, acc);
    acc := acc + HeaderLines(p.headers);
    q := Print(buf, q, CRLF, done, acc);
  }

  method PrintPart(buf: array<octet>, pos: nat, boundary: text, p: Part) returns (q: nat)
    requires pos + |PartText(boundary, p)| < buf.Length
    modifies buf
    ensures q == pos + |PartText(boundary, p)| && buf[..q] == old(buf[..pos]) + PartText(boundary, p)
  {
    ghost var done := buf[..pos];
    assert done + [] == done;
    ghost var acc := DASHES + boundary + CRLF;
    q := Print(buf, pos, DASHES + boundary + CRLF, done, []);
    assert [] + acc == acc;
    q := PrintHead(buf, q, p);
    Regroup(done, acc, Head(p));
    acc := acc + Head(p);
    if |p.data| > 0 {
      q := Copy(buf, q, p.data, done, acc);
    } else {
      assert acc + p.data == acc;
    }
    acc := acc + p.data;
    q := Print(buf, q, CRLF, done, acc);
  }

  lemma {:induction false} PartsPrefix(g: Part -> text, ps: seq<Part>, i: nat)
    requires i <= |ps|
    ensures |PartsBy(g, ps[..i])| <= |PartsBy(g, ps)|
  {
    if i < |ps| {
      PartsPrefix(g, ps[..|ps| - 1], i);
      assert ps[..|ps| - 1][..i] == ps[..i];
    } else {
      assert ps[..i] == ps;
    }
  }

  lemma PartsNext(g: Part -> text, ps: seq<Part>, i: nat)
    requires i < |ps|
    ensures PartsBy(g, ps[..i + 1]) == PartsBy(g, ps[..i]) + g(ps[i])
    ensures |PartsBy(g, ps[..i + 1])| <= |PartsBy(g, ps)|
  {
    assert ps[..i + 1][..i] == ps[..i];
    PartsPrefix(g, ps, i + 1);
  }

  /** `g` encodes parts with this boundary. */
  ghost predicate Encodes(g: Part -> text, boundary: text) {
    forall p {:trigger PartText(boundary, p)} :: g(p) == PartText(boundary, p)
  }

  /** The parts in front of `i` are written. */
  ghost predicate Written(buf: array<octet>, pos: nat, g: Part -> text, ps: seq<Part>, i: nat)
    reads buf
  {
    i <= |ps| && pos <= buf.Length && buf[..pos] == PartsBy(g, ps[..i])
  }

  method PrintNext(buf: array<octet>, pos: nat, boundary: text, ps: seq<Part>, i: nat, ghost g: Part -> text)
    returns (q: nat)
    requires i < |ps| && Encodes(g, boundary) && |PartsBy(g, ps)| < buf.Length
    requires Written(buf, pos, g, ps, i)
    modifies buf
    ensures Written(buf, q, g, ps, i + 1)
  {
    PartsNext(g, ps, i);
    assert g(ps[i]) == PartText(boundary, ps[i]);
    q := PrintPart(buf, pos, boundary, ps[i]);
  }

  method PrintParts(buf: array<octet>, boundary: text, ps: seq<Part>, ghost g: Part -> text) returns (pos: nat)
    requires Encodes(g, boundary) && |PartsBy(g, ps)| < buf.Length
    modifies buf
    ensures pos < buf.Length && buf[..pos] == PartsBy(g, ps)
  {
    pos := 0;
    var i: nat := 0;
    while i < |ps|
      invariant i <= |ps| && Written(buf, pos, g, ps, i)
    {
      pos := PrintNext(buf, pos, boundary, ps, i, g);
      i := i + 1;
    }
    assert ps[..i] == ps;
  }

  const MULTIPART: text := "multipart/form-data; boundary="

  const CONTENT_TYPE_KEY: text := "Content-Type"

  /** The fields of `struct HttpRequest` that flattening reads or writes. */
  class Request {
    var parts: seq<Part>
    var headers: seq<PartHeader>
    var body: array?<octet>
    var bodyLen: nat

    constructor ()
      ensures parts == [] && headers == [] && body == null && bodyLen == 0
    {
      parts, headers, body, bodyLen := [], [], null, 0;
    }

    /** With a boundary drawn beforehand. A request without parts is left alone, one with a body is refused. */
    method FlattenParts(boundary: text) returns (rc: Status)
      modifies this
      ensures parts == old(parts)
      ensures rc == if parts != [] && old(body) != null then Invalid else Success
      ensures parts == [] || old(body) != null ==>
                headers == old(headers) && body == old(body) && bodyLen == old(bodyLen)
      ensures parts != [] && old(body) == null ==>
                && body != null && fresh(body) && body.Length == Estimate(boundary, parts)
                && bodyLen <= body.Length && body[..bodyLen] == Body(boundary, parts)
                && headers == old(headers) + [PartHeader(CONTENT_TYPE_KEY, MULTIPART + boundary)]
    {
      if parts == [] {
        return Success;
      }
      if body != null {
        return Invalid;
      }
      var size := EstimateSize(boundary, parts);
      EstimateSlack(boundary, parts);
      var buffer := new octet[size];
      var pos := PrintParts(buffer, boundary, parts, Encoder(boundary));
      ghost var done := buffer[..pos];
      assert done + [] == done && [] + Closing(boundary) == Closing(boundary);
      pos := Print(buffer, pos, Closing(boundary), done, []);
      body := buffer;
      bodyLen := pos;
      headers := headers + [PartHeader(CONTENT_TYPE_KEY, MULTIPART + boundary)];
      return Success;
    }
  }

  // ---------- the body can be taken apart again ----------

  /** `d` stands in `s` at `i`. */
  predicate At(s: text, d: text, i: nat) {
    i + |d| <= |s| && s[i..i + |d|] == d
  }

  ghost predicate Contains(s: text, d: text) {
    exists i: nat :: At(s, d, i)
  }

  /** The pieces between the delimiters, read from the front. */
  function Split(s: text, d: text, from: nat): (r: seq<text>)
    requires from <= |s| && d != []
    ensures |r| >= 1
    decreases |s|, |s| - from
  {
    if from == |s| then [s]
    else if At(s, d, from) then [s[..from]] + Split(s[from + |d|..], d, 0)
    else Split(s, d, from + 1)
  }

  function Delimited(segments: seq<text>, d: text): text
    requires segments != []
  {
    if |segments| == 1 then segments[0] else segments[0] + d + Delimited(segments[1..], d)
  }

  /** The first octet of the delimiter does not occur in it again. */
  predicate Marked(d: text) {
    d != [] && d[0] !in d[1..]
  }

  /** A delimiter begins right behind the segment, and not before. */
  lemma NotBefore(seg: text, d: text, rest: text, i: nat)
    requires Marked(d) && !Contains(seg, d) && i < |seg|
    ensures !At(seg + d + rest, d, i)
  {
    var s := seg + d + rest;
    assert !At(seg, d, i);
    if i + |d| <= |seg| {
      assert s[i..i + |d|] == seg[i..i + |d|];
    } else {
      var k := |seg| - i;
      assert d[1..][k - 1] == d[k];
      assert s[i..][k] == d[0];
    }
  }

  lemma {:induction false} SplitFirst(seg: text, d: text, rest: text, from: nat)
    requires Marked(d) && !Contains(seg, d) && from <= |seg|
    ensures Split(seg + d + rest, d, from) == [seg] + Split(rest, d, 0)
    decreases |seg| - from
  {
    var s := seg + d + rest;
    if from < |seg| {
      NotBefore(seg, d, rest, from);
      SplitFirst(seg, d, rest, from + 1);
    } else {
      assert s[from..from + |d|] == d && s[..from] == seg && s[from + |d|..] == rest;
    }
  }

  lemma {:induction false} SplitLast(seg: text, d: text, from: nat)
    requires d != [] && !Contains(seg, d) && from <= |seg|
    ensures Split(seg, d, from) == [seg]
    decreases |seg| - from
  {
    if from < |seg| {
      assert !At(seg, d, from);
      SplitLast(seg, d, from + 1);
    }
  }

  lemma {:induction false} SplitDelimited(segments: seq<text>, d: text)
    requires Marked(d) && segments != [] && forall seg <- segments :: !Contains(seg, d)
    ensures Split(Delimited(segments, d), d, 0) == segments
  {
    var seg, more := segments[0], segments[1..];
    assert segments == [seg] + more;
    if |segments| == 1 {
      SplitLast(seg, d, 0);
    } else {
      SplitDelimited(more, d);
      SplitFirst(seg, d, Delimited(more, d), 0);
    }
  }

  lemma {:induction false} SplitClear(s: text, d: text, from: nat)
    requires d != [] && from <= |s| && forall i: nat :: i < from ==> !At(s, d, i)
    ensures forall seg <- Split(s, d, from) :: !Contains(seg, d)
    decreases |s|, |s| - from
  {
    if from == |s| {
      assert forall i: nat :: At(s, d, i) ==> i < from;
    } else if At(s, d, from) {
      SplitClear(s[from + |d|..], d, 0);
      forall i: nat
        ensures !At(s[..from], d, i)
      {
        if i + |d| <= from {
          assert s[..from][i..i + |d|] == s[i..i + |d|];
          assert !At(s, d, i);
        }
      }
    } else {
      SplitClear(s, d, from + 1);
    }
  }

  /** Splitting recovers the segments if and only if none of them holds the delimiter. */
  lemma SplitRoundTrip(segments: seq<text>, d: text)
    requires Marked(d) && segments != []
    ensures Split(Delimited(segments, d), d, 0) == segments <==> forall seg <- segments :: !Contains(seg, d)
  {
    SplitClear(Delimited(segments, d), d, 0);
    if forall seg <- segments :: !Contains(seg, d) {
      SplitDelimited(segments, d);
    }
  }

  function Delimiter(boundary: text): text {
    CRLF + DASHES + boundary
  }

  /** What stands between the delimiters: the parts, and what closes the body. */
  function Segments(ps: seq<Part>): (r: seq<text>)
    ensures r != []
  {
    if ps == [] then [DASHES + CRLF] else [CRLF + Head(ps[0]) + ps[0].data] + Segments(ps[1..])
  }

  lemma {:induction false} PartsFront(g: Part -> text, ps: seq<Part>)
    requires ps != []
    ensures PartsBy(g, ps) == g(ps[0]) + PartsBy(g, ps[1..])
  {
    var most, last := ps[..|ps| - 1], ps[|ps| - 1];
    if |ps| == 1 {
      assert most == [] && ps[1..] == [];
    } else {
      PartsFront(g, most);
      assert ps[1..][..|ps| - 2] == most[1..];
      Regroup(g(ps[0]), PartsBy(g, most[1..]), g(last));
    }
  }

  lemma RegroupPart(c: text, d: text, b: text, h: text, x: text, r: text)
    ensures c + d + b + ((c + h + x) + (c + r)) == c + ((d + b + c + h + x + c) + r)
  {
    Regroup(c + d, b, (c + h + x) + (c + r));
    Regroup(c, d, b + ((c + h + x) + (c + r)));
    assert d + (b + ((c + h + x) + (c + r))) == (d + b + c + h + x + c) + r;
  }

  lemma RegroupClosing(c: text, d: text, b: text)
    ensures c + d + b + (d + c) == c + (d + b + d + c)
  {
  }

  lemma {:induction false} BodySegments(boundary: text, ps: seq<Part>)
    ensures Delimiter(boundary) + Delimited(Segments(ps), Delimiter(boundary)) == CRLF + Body(boundary, ps)
  {
    var d := Delimiter(boundary);
    if ps == [] {
      assert PartsText(boundary, ps) + Closing(boundary) == Closing(boundary);
      RegroupClosing(CRLF, DASHES, boundary);
    } else {
      var seg, more := CRLF + Head(ps[0]) + ps[0].data, ps[1..];
      BodySegments(boundary, more);
      assert Segments(ps)[1..] == Segments(more);
      Regroup(seg, d, Delimited(Segments(more), d));
      RegroupPart(CRLF, DASHES, boundary, Head(ps[0]), ps[0].data, Body(boundary, more));
      PartsFront(Encoder(boundary), ps);
      Regroup(PartText(boundary, ps[0]), PartsText(boundary, more), Closing(boundary));
    }
  }

  lemma DelimiterMarked(boundary: text)
    requires '\r' !in boundary
    ensures Marked(Delimiter(boundary))
  {
    var d := Delimiter(boundary);
    assert d[0] == '\r' && d[1..] == ['\n'] + DASHES + boundary;
  }

  /** An empty segment in front of the first delimiter. */
  lemma EmptyFront(segments: seq<text>, d: text)
    requires segments != []
    ensures Delimited([[]] + segments, d) == d + Delimited(segments, d)
  {
    assert ([[]] + segments)[1..] == segments;
    assert [] + d == d;
  }

  /**
   * A reader that splits the body at its delimiters finds exactly the parts, if and only if the
   * delimiter does not occur inside a part. The first delimiter lacks its line end, which is supplied.
   */
  lemma PartsRecovered(boundary: text, ps: seq<Part>)
    requires '\r' !in boundary
    ensures Split(CRLF + Body(boundary, ps), Delimiter(boundary), 0) == [[]] + Segments(ps) <==>
            forall seg <- [[]] + Segments(ps) :: !Contains(seg, Delimiter(boundary))
  {
    DelimiterMarked(boundary);
    BodySegments(boundary, ps);
    EmptyFront(Segments(ps), Delimiter(boundary));
    SplitRoundTrip([[]] + Segments(ps), Delimiter(boundary));
  }

  /** What a part's data must hold to be taken for the end of that part and another part. */
  function Merged(boundary: text, p: Part, q: Part): Part {
    p.(data := p.data + (CRLF + DASHES + boundary + CRLF + Head(q) + q.data))
  }

  lemma RegroupMerged(a: text, x: text, c: text, d: text, b: text, h: text, y: text)
    ensures a + (x + (c + d + b + c + h + y)) + c == (a + x + c) + (d + b + c + h + y + c)
  {
    assert x + (c + d + b + c + h + y) == x + c + (d + b + c + h + y);
    assert a + (x + c + (d + b + c + h + y)) + c == (a + x + c) + (d + b + c + h + y + c);
  }

  lemma MergedText(boundary: text, p: Part, q: Part)
    ensures PartText(boundary, Merged(boundary, p, q)) == PartText(boundary, p) + PartText(boundary, q)
  {
    RegroupMerged(DASHES + boundary + CRLF + Head(p), p.data, CRLF, DASHES, boundary, Head(q), q.data);
  }

  lemma FewParts(g: Part -> text, p: Part, q: Part)
    ensures PartsBy(g, [p]) == g(p) && PartsBy(g, [p, q]) == g(p) + g(q)
  {
    assert [p][..0] == [] && [p, q][..1] == [p];
    assert [] + g(p) == g(p);
  }

  /** Such a part has the body of two parts: the delimiter occurs inside it. */
  lemma TwoForOne(boundary: text, p: Part, q: Part)
    ensures Body(boundary, [Merged(boundary, p, q)]) == Body(boundary, [p, q])
  {
    MergedText(boundary, p, q);
    FewParts(Encoder(boundary), Merged(boundary, p, q), q);
    FewParts(Encoder(boundary), p, q);
  }
}
