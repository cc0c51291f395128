/**
 * A reader of multipart bodies (RFC 2046 section 5.1.1, RFC 7578 section 4), apart from the code that
 * writes them: lines up to the first empty one, header fields, quoted parameters. When it finds
 * what src/http_types.c was given to write.
 */
module MultipartReader {
  import opened Bytes
  import opened UrlEncoding
  import opened Multipart

  // ---------- the reader ----------

  /** Where the first line ends, or the length of the text. */
  function LineEnd(s: text): (k: nat)
    ensures k <= |s|
  {
    if s == [] then 0 else if |s| >= 2 && s[0] == '\r' && s[1] == '\n' then 0 else 1 + LineEnd(s[1..])
  }

  datatype Cut = Cut(lines: seq<text>, rest: text)

  /** The lines in front of the first empty one, and what follows it. */
  function CutLines(s: text): Cut
    decreases |s|
  {
    var k := LineEnd(s);
    if k + 2 > |s| then Cut([], s)
    else if k == 0 then Cut([], s[2..])
    else
      var c := CutLines(s[k + 2..]);
      Cut([s[..k]] + c.lines, c.rest)
  }

  /** Where `c` first stands, or the length of the text. */
  function Until(c: octet, s: text): (k: nat)
    ensures k <= |s|
    ensures c !in s[..k]
    ensures k < |s| ==> s[k] == c
  {
    if s == [] || s[0] == c then 0
    else
      assert s[..1 + Until(c, s[1..])] == [s[0]] + s[1..][..Until(c, s[1..])];
      1 + Until(c, s[1..])
  }

  /** Name and value around the first colon; one space in front of the value is not part of it. */
  function ReadHeader(line: text): PartHeader {
    var k := Until(':', line);
    var v := if k < |line| then line[k + 1..] else [];
    PartHeader(line[..k], if v != [] && v[0] == ' ' then v[1..] else v)
  }

  /** What stands behind `opening` up to the next quote; nothing if the text opens otherwise. */
  function ReadQuoted(opening: text, s: text): Option<text> {
    if opening <= s then Some(s[|opening|..][..Until('"', s[|opening|..])]) else None
  }

  /** What stands behind that quote. */
  function BehindQuoted(opening: text, s: text): text {
    if !(opening <= s) then []
    else
      var t := s[|opening|..];
      if Until('"', t) < |t| then t[Until('"', t) + 1..] else []
  }

  const NAME_OPENS: text := "Content-Disposition: form-data; name=\""
  const FILE_OPENS: text := "; filename=\""

  function ReadHeaders(lines: seq<text>): (hs: seq<PartHeader>)
    ensures |hs| == |lines|
  {
    seq(|lines|, i requires 0 <= i < |lines| => ReadHeader(lines[i]))
  }

  /** A part: the first line names it, a content type may come next, the other lines are its headers. */
  function ReadLines(lines: seq<text>, data: text): Part {
    if lines == [] then Part([], None, None, [], data)
    else
      var name := ReadQuoted(NAME_OPENS, lines[0]);
      var filename := ReadQuoted(FILE_OPENS, BehindQuoted(NAME_OPENS, lines[0]));
      var hs := ReadHeaders(lines[1..]);
      var named := if name.Some? then name.value else [];
      if hs != [] && hs[0].key == "Content-Type" then Part(named, filename, Some(hs[0].value), hs[1..], data)
      else Part(named, filename, None, hs, data)
  }

  /** What stands between two delimiters, behind the line end of the first. */
  function ReadPart(segment: text): Part {
    var c := CutLines(if "\r\n" <= segment then segment[2..] else segment);
    ReadLines(c.lines, c.rest)
  }

  // ---------- when it finds what was written ----------

  /** What was given, a file without a type being an octet stream. */
  function Meant(p: Part): Part {
    if p.contentType == None && p.filename.Some? then p.(contentType := Some("application/octet-stream")) else p
  }

  /** No line end inside. */
  predicate OneLine(s: text) {
    forall i :: 0 <= i < |s| - 1 && s[i] == '\r' ==> s[i + 1] != '\n'
  }

  predicate CleanHeader(h: PartHeader) {
    OneLine(h.key) && OneLine(h.value) && ':' !in h.key
  }

  /**
   * No line ends in what goes into lines, no quotes in names, no colons in keys, and no header that
   * would be taken for the content type.
   */
  predicate Readable(p: Part) {
    && OneLine(p.name) && '"' !in p.name
    && (p.filename.Some? ==> OneLine(p.filename.value) && '"' !in p.filename.value)
    && (p.contentType.Some? ==> OneLine(p.contentType.value))
    && (forall h <- p.headers :: CleanHeader(h))
    && (p.contentType == None == p.filename && p.headers != [] ==> p.headers[0].key != "Content-Type")
  }

  // ---------- lines ----------

  lemma {:induction false} LineEndFirst(line: text, rest: text)
    requires OneLine(line)
    ensures LineEnd(line + "\r\n" + rest) == |line|
  {
    var s := line + "\r\n" + rest;
    if line == [] {
      assert s[0] == '\r' && s[1] == '\n';
    } else {
      assert s[1..] == line[1..] + "\r\n" + rest;
      assert forall i :: 0 <= i < |line[1..]| ==> line[1..][i] == line[i + 1];
      LineEndFirst(line[1..], rest);
      assert s[0] == line[0] && (|line| >= 2 ==> s[1] == line[1]) && (|line| == 1 ==> s[1] == '\r');
    }
  }

  lemma {:induction false} LineEndClear(s: text)
    ensures OneLine(s[..LineEnd(s)])
    ensures LineEnd(s) + 2 <= |s| ==> s[LineEnd(s)] == '\r' && s[LineEnd(s) + 1] == '\n'
  {
    if s != [] && !(|s| >= 2 && s[0] == '\r' && s[1] == '\n') {
      LineEndClear(s[1..]);
      var k := LineEnd(s[1..]);
      var line, more := s[..k + 1], s[1..][..k];
      assert line == [s[0]] + more;
      forall i | 0 <= i < |line| - 1 && line[i] == '\r'
        ensures line[i + 1] != '\n'
      {
        if i > 0 {
          assert more[i - 1] == '\r';
        }
      }
    }
  }

  lemma Infix(s: text, a: nat, b: nat)
    requires OneLine(s) && a <= b <= |s|
    ensures OneLine(s[a..b])
  {
    var t := s[a..b];
    assert forall i :: 0 <= i < |t| ==> t[i] == s[a + i];
  }

  function Terminated(lines: seq<text>): text {
    if lines == [] then [] else lines[0] + "\r\n" + Terminated(lines[1..])
  }

  /** Lines with an empty one behind them are cut as that. */
  lemma {:induction false} LinesCut(lines: seq<text>, data: text)
    requires forall l <- lines :: OneLine(l) && l != []
    ensures CutLines(Terminated(lines) + ("\r\n" + data)) == Cut(lines, data)
    decreases |lines|
  {
    var s := Terminated(lines) + ("\r\n" + data);
    if lines == [] {
      assert s == "\r\n" + data && s[2..] == data;
    } else {
      var l, rest := lines[0], Terminated(lines[1..]) + ("\r\n" + data);
      assert s == l + "\r\n" + rest;
      assert l in lines && forall x <- lines[1..] :: x in lines;
      LineEndFirst(l, rest);
      assert s[..|l|] == l && s[|l| + 2..] == rest;
      LinesCut(lines[1..], data);
      assert lines == [l] + lines[1..];
    }
  }

  lemma {:induction false} CutClear(s: text)
    ensures forall l <- CutLines(s).lines :: OneLine(l)
    decreases |s|
  {
    var k := LineEnd(s);
    LineEndClear(s);
    if 0 < k <= |s| - 2 {
      CutClear(s[k + 2..]);
    }
  }

  // ---------- the written head, line by line ----------

  function FirstLine(p: Part): text {
    NAME_OPENS + p.name + "\"" + if p.filename.Some? then FILE_OPENS + p.filename.value + "\"" else []
  }

  function FieldLine(key: text, value: text): text {
    key + ": " + value
  }

  function TypeLines(p: Part): seq<text> {
    var t := Meant(p).contentType;
    if t.Some? then [FieldLine("Content-Type", t.value)] else []
  }

  function FieldLines(hs: seq<PartHeader>): (r: seq<text>)
    ensures |r| == |hs|
  {
    seq(|hs|, i requires 0 <= i < |hs| => FieldLine(hs[i].key, hs[i].value))
  }

  function WrittenLines(p: Part): seq<text> {
    [FirstLine(p)] + (TypeLines(p) + FieldLines(p.headers))
  }

  lemma {:induction false} TerminatedConcat(a: seq<text>, b: seq<text>)
    ensures Terminated(a + b) == Terminated(a) + Terminated(b)
  {
    if a == [] {
      assert a + b == b;
    } else {
      assert (a + b)[0] == a[0] && (a + b)[1..] == a[1..] + b;
      TerminatedConcat(a[1..], b);
      Regroup(a[0] + "\r\n", Terminated(a[1..]), Terminated(b));
    }
  }

  lemma OneTerminated(l: text)
    ensures Terminated([l]) == l + "\r\n"
  {
    assert [l][1..] == [];
  }

  lemma {:induction false} HeadersWritten(hs: seq<PartHeader>)
    ensures HeaderLines(hs) == Terminated(FieldLines(hs))
  {
    if hs != [] {
      var most, h := hs[..|hs| - 1], hs[|hs| - 1];
      var l := FieldLine(h.key, h.value);
      HeadersWritten(most);
      assert FieldLines(hs) == FieldLines(most) + [l];
      TerminatedConcat(FieldLines(most), [l]);
      OneTerminated(l);
    }
  }

  lemma TypeWritten(p: Part)
    ensures TypeLine(p) == Terminated(TypeLines(p))
  {
    var t := Meant(p).contentType;
    if t.Some? {
      OneTerminated(FieldLine("Content-Type", t.value));
    }
  }

  lemma FirstWritten(p: Part)
    ensures NameLine(p.name) + FileText(p.filename) == FirstLine(p)
  {
    if p.filename.Some? {
      Regroup(NAME_OPENS + p.name, "\"", FILE_OPENS + p.filename.value + "\"");
    }
  }

  /** The head that the code writes is these lines and an empty one. */
  lemma HeadWritten(p: Part)
    ensures Head(p) == Terminated(WrittenLines(p)) + "\r\n"
  {
    FirstWritten(p);
    TypeWritten(p);
    HeadersWritten(p.headers);
    OneTerminated(FirstLine(p));
    TerminatedConcat(TypeLines(p), FieldLines(p.headers));
    TerminatedConcat([FirstLine(p)], TypeLines(p) + FieldLines(p.headers));
    Regroup(FirstLine(p) + "\r\n", TypeLine(p), HeaderLines(p.headers));
  }

  // ---------- reading it ----------

  lemma {:induction false} UntilAt(c: octet, a: text, b: text)
    requires c !in a && b != [] && b[0] == c
    ensures Until(c, a + b) == |a|
  {
    if a == [] {
      assert a + b == b;
    } else {
      assert (a + b)[0] == a[0] && (a + b)[1..] == a[1..] + b;
      assert a[0] in a && forall x <- a[1..] :: x in a;
      UntilAt(c, a[1..], b);
    }
  }

  lemma QuotedRead(opening: text, value: text, rest: text)
    requires '"' !in value
    ensures var s := opening + value + "\"" + rest;
            ReadQuoted(opening, s) == Some(value) && BehindQuoted(opening, s) == rest
  {
    var s, t := opening + value + "\"" + rest, value + ("\"" + rest);
    assert s == opening + t;
    assert s[..|opening|] == opening && s[|opening|..] == t;
    UntilAt('"', value, "\"" + rest);
    assert t[..|value|] == value && t[|value| + 1..] == rest;
  }

  lemma FirstLineRead(p: Part)
    requires '"' !in p.name && (p.filename.Some? ==> '"' !in p.filename.value)
    ensures ReadQuoted(NAME_OPENS, FirstLine(p)) == Some(p.name)
    ensures ReadQuoted(FILE_OPENS, BehindQuoted(NAME_OPENS, FirstLine(p))) == p.filename
  {
    var rest := if p.filename.Some? then FILE_OPENS + p.filename.value + "\"" else [];
    QuotedRead(NAME_OPENS, p.name, rest);
    if p.filename.Some? {
      QuotedRead(FILE_OPENS, p.filename.value, []);
      assert rest + [] == rest;
    }
  }

  lemma HeaderRead(key: text, value: text)
    requires ':' !in key
    ensures ReadHeader(FieldLine(key, value)) == PartHeader(key, value)
  {
    var line := FieldLine(key, value);
    assert line == key + (": " + value);
    UntilAt(':', key, ": " + value);
    assert line[..|key|] == key && line[|key| + 1..] == " " + value && (" " + value)[1..] == value;
  }

  lemma HeadersRead(hs: seq<PartHeader>)
    requires forall h <- hs :: ':' !in h.key
    ensures ReadHeaders(FieldLines(hs)) == hs
  {
    forall i | 0 <= i < |hs|
      ensures ReadHeader(FieldLines(hs)[i]) == hs[i]
    {
      assert hs[i] in hs;
      HeaderRead(hs[i].key, hs[i].value);
    }
  }

  lemma TypeAndHeadersRead(p: Part)
    requires forall h <- p.headers :: ':' !in h.key
    ensures var hs, t := ReadHeaders(TypeLines(p) + FieldLines(p.headers)), Meant(p).contentType;
            hs == (if t.Some? then [PartHeader("Content-Type", t.value)] else []) + p.headers
  {
    HeadersRead(p.headers);
    var t := Meant(p).contentType;
    if t.Some? {
      HeaderRead("Content-Type", t.value);
    }
    assert ReadHeaders(TypeLines(p) + FieldLines(p.headers)) ==
           ReadHeaders(TypeLines(p)) + ReadHeaders(FieldLines(p.headers));
  }

  lemma LinesRead(p: Part)
    requires Readable(p)
    ensures ReadLines(WrittenLines(p), p.data) == Meant(p)
  {
    var lines, more := WrittenLines(p), TypeLines(p) + FieldLines(p.headers);
    assert lines[0] == FirstLine(p) && lines[1..] == more;
    FirstLineRead(p);
    TypeAndHeadersRead(p);
    var hs, t := ReadHeaders(more), Meant(p).contentType;
    if t.Some? {
      assert hs[0].key == "Content-Type" && hs[1..] == p.headers;
    } else {
      assert hs == p.headers;
    }
  }

  lemma OneLineConcat(a: text, b: text)
    requires OneLine(a) && OneLine(b) && (a == [] || a[|a| - 1] != '\r' || b == [] || b[0] != '\n')
    ensures OneLine(a + b)
  {
    var s := a + b;
    forall i | 0 <= i < |s| - 1 && s[i] == '\r'
      ensures s[i + 1] != '\n'
    {
      if i >= |a| {
        assert b[i - |a|] == '\r';
      }
    }
  }

  lemma FirstLineClean(p: Part)
    requires OneLine(p.name) && (p.filename.Some? ==> OneLine(p.filename.value))
    ensures OneLine(FirstLine(p)) && FirstLine(p) != []
  {
    OneLineConcat(NAME_OPENS, p.name);
    OneLineConcat(NAME_OPENS + p.name, "\"");
    if p.filename.Some? {
      OneLineConcat(FILE_OPENS, p.filename.value);
      OneLineConcat(FILE_OPENS + p.filename.value, "\"");
      OneLineConcat(NAME_OPENS + p.name + "\"", FILE_OPENS + p.filename.value + "\"");
    }
    assert FirstLine(p)[0] == 'C';
  }

  lemma FieldLineClean(key: text, value: text)
    requires OneLine(key) && OneLine(value)
    ensures OneLine(FieldLine(key, value)) && FieldLine(key, value) != []
  {
    OneLineConcat(key, ": ");
    OneLineConcat(key + ": ", value);
    assert |FieldLine(key, value)| >= 2;
  }

  lemma LinesClean(p: Part)
    requires Readable(p)
    ensures forall l <- WrittenLines(p) :: OneLine(l) && l != []
  {
    FirstLineClean(p);
    var t := Meant(p).contentType;
    if t.Some? {
      FieldLineClean("Content-Type", t.value);
    }
    forall i | 0 <= i < |p.headers|
      ensures OneLine(FieldLines(p.headers)[i]) && FieldLines(p.headers)[i] != []
    {
      assert p.headers[i] in p.headers;
      FieldLineClean(p.headers[i].key, p.headers[i].value);
    }
  }

  /** What the code writes between two delimiters. */
  function Written(p: Part): text {
    CRLF + Head(p) + p.data
  }

  lemma WrittenRead(p: Part)
    requires Readable(p)
    ensures ReadPart(Written(p)) == Meant(p)
  {
    LinesClean(p);
    LinesCut(WrittenLines(p), p.data);
    LinesRead(p);
    WrittenBehindLineEnd(p);
  }

  lemma WrittenBehindLineEnd(p: Part)
    ensures "\r\n" <= Written(p) && Written(p)[2..] == Terminated(WrittenLines(p)) + ("\r\n" + p.data)
  {
    HeadWritten(p);
    Regroup(CRLF, Head(p), p.data);
    Regroup(Terminated(WrittenLines(p)), "\r\n", p.data);
    Behind(Head(p) + p.data);
  }

  lemma Behind(s: text)
    ensures "\r\n" <= CRLF + s && (CRLF + s)[2..] == s
  {
  }

  // ---------- what is read is clean ----------

  lemma QuotedClean(opening: text, s: text)
    requires OneLine(s)
    ensures var q := ReadQuoted(opening, s); q.Some? ==> OneLine(q.value) && '"' !in q.value
    ensures OneLine(BehindQuoted(opening, s))
  {
    if opening <= s {
      var t := s[|opening|..];
      var k := Until('"', t);
      Infix(s, |opening|, |s|);
      Infix(t, 0, k);
      if k < |t| {
        Infix(t, k + 1, |t|);
      }
    }
  }

  lemma HeaderClean(line: text)
    requires OneLine(line)
    ensures CleanHeader(ReadHeader(line))
  {
    var k := Until(':', line);
    Infix(line, 0, k);
    if k < |line| {
      Infix(line, k + 1, |line|);
      var v := line[k + 1..];
      if v != [] {
        Infix(v, 1, |v|);
      }
    }
  }

  /** Of any text: the part that is read is readable, type and headers included. */
  lemma ReadIsClean(segment: text)
    ensures var q := ReadPart(segment);
            && OneLine(q.name) && '"' !in q.name
            && (q.filename.Some? ==> OneLine(q.filename.value) && '"' !in q.filename.value)
            && (q.contentType.Some? ==> OneLine(q.contentType.value))
            && (forall h <- q.headers :: CleanHeader(h))
            && (q.contentType == None && q.headers != [] ==> q.headers[0].key != "Content-Type")
  {
    var s := if "\r\n" <= segment then segment[2..] else segment;
    var lines := CutLines(s).lines;
    CutClear(s);
    if lines != [] {
      assert lines[0] in lines;
      QuotedClean(NAME_OPENS, lines[0]);
      QuotedClean(FILE_OPENS, BehindQuoted(NAME_OPENS, lines[0]));
      forall i | 0 <= i < |lines[1..]|
        ensures CleanHeader(ReadHeaders(lines[1..])[i])
      {
        assert lines[1..][i] in lines;
        HeaderClean(lines[1..][i]);
      }
    }
  }

  /** The reader finds the part that was given if and only if the part is readable. */
  lemma PartRead(p: Part)
    ensures ReadPart(Written(p)) == Meant(p) <==> Readable(p)
  {
    if Readable(p) {
      WrittenRead(p);
    }
    if ReadPart(Written(p)) == Meant(p) {
      ReadIsClean(Written(p));
    }
  }

  // ---------- whole bodies ----------

  function ReadParts(segments: seq<text>): (ps: seq<Part>)
    ensures |ps| == |segments|
  {
    seq(|segments|, i requires 0 <= i < |segments| => ReadPart(segments[i]))
  }

  /** What stands between the first delimiter and the last; the line end of the first one is supplied. */
  function ReadBody(boundary: text, body: text): seq<Part> {
    var segments := Split("\r\n" + body, "\r\n--" + boundary, 0);
    if |segments| < 2 then [] else ReadParts(segments[1..|segments| - 1])
  }

  function AllMeant(ps: seq<Part>): (r: seq<Part>)
    ensures |r| == |ps|
  {
    seq(|ps|, i requires 0 <= i < |ps| => Meant(ps[i]))
  }

  lemma {:induction false} SegmentsWritten(ps: seq<Part>)
    ensures |Segments(ps)| == |ps| + 1
    ensures forall i :: 0 <= i < |ps| ==> Segments(ps)[i] == Written(ps[i])
  {
    if ps != [] {
      SegmentsWritten(ps[1..]);
      assert forall i :: 0 < i <= |ps| ==> Segments(ps)[i] == Segments(ps[1..])[i - 1];
    }
  }

  /** No part holds the delimiter. */
  ghost predicate Separable(boundary: text, ps: seq<Part>) {
    forall seg <- [[]] + Segments(ps) :: !Contains(seg, Delimiter(boundary))
  }

  lemma SegmentsRead(ps: seq<Part>)
    ensures |Segments(ps)| == |ps| + 1
    ensures ReadParts(Segments(ps)[..|ps|]) == AllMeant(ps) <==> forall p <- ps :: Readable(p)
  {
    SegmentsWritten(ps);
    var read := ReadParts(Segments(ps)[..|ps|]);
    forall i | 0 <= i < |ps|
      ensures read[i] == AllMeant(ps)[i] <==> Readable(ps[i])
    {
      PartRead(ps[i]);
    }
  }

  /**
   * A body without its delimiter inside a part: the reader finds all parts as they were given if and
   * only if each of them is readable.
   */
  lemma BodyRead(boundary: text, ps: seq<Part>)
    requires '\r' !in boundary && Separable(boundary, ps)
    ensures ReadBody(boundary, Body(boundary, ps)) == AllMeant(ps) <==> forall p <- ps :: Readable(p)
  {
    var segments := [[]] + Segments(ps);
    PartsRecovered(boundary, ps);
    SegmentsRead(ps);
    DelimiterSpelled(boundary);
    assert segments[1..|segments| - 1] == Segments(ps)[..|ps|];
  }

  lemma DelimiterSpelled(boundary: text)
    ensures "\r\n--" + boundary == Delimiter(boundary) && CRLF == "\r\n"
  {
  }

  /** The boundary that a multipart content type names. */
  function ReadBoundary(h: PartHeader): Option<text> {
    var opening: text := "multipart/form-data; boundary=";
    if h.key == "Content-Type" && opening <= h.value then Some(h.value[|opening|..]) else None
  }

  /** A request is flattened, and read by someone who sees its last header and its body only. */
  method FlattenAndRead(request: Request, boundary: text) returns (rc: Status)
    requires request.parts != [] && request.body == null
    requires '\r' !in boundary && Separable(boundary, request.parts)
    modifies request
    ensures rc == Success && request.body != null && request.bodyLen <= request.body.Length && request.headers != []
    ensures ReadBoundary(request.headers[|request.headers| - 1]) == Some(boundary)
    ensures ReadBody(boundary, request.body[..request.bodyLen]) == AllMeant(old(request.parts)) <==>
            forall p <- old(request.parts) :: Readable(p)
  {
    BodyRead(boundary, request.parts);
    rc := request.FlattenParts(boundary);
    var value := request.headers[|request.headers| - 1].value;
    assert value == "multipart/form-data; boundary=" + boundary;
  }
}
