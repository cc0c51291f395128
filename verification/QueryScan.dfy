/** The scan of a redirect's query string in `http_oauth2_localhost_intercept`, src/http_types.c. */
module QueryScan {
  import opened Bytes
  import opened UrlEncoding

  /** One parameter; without `=` there is no value. */
  datatype Pair = Pair(key: text, value: Option<text>)

  datatype Step = Step(pair: Pair, rest: text)

  const KEY_STOP: octet -> bool := (c: octet) => c == '\0' || c == '=' || c == '&' || c == ' '

  const VALUE_STOP: octet -> bool := (c: octet) => c == '\0' || c == '&' || c == ' '

  const PATH_STOP: octet -> bool := (c: octet) => c == '\0' || c == '?' || c == ' ' || c == '\r' || c == '\n'

  /** The position of the first octet that stops the scan, or the length of the text. */
  function Span(stop: octet -> bool, s: text): (k: nat)
    ensures k <= |s|
    ensures k < |s| ==> stop(s[k])
  {
    if s == [] || stop(s[0]) then 0 else 1 + Span(stop, s[1..])
  }

  lemma {:induction false} SpanClear(stop: octet -> bool, s: text)
    ensures forall c <- s[..Span(stop, s)] :: !stop(c)
  {
    if s != [] && !stop(s[0]) {
      SpanClear(stop, s[1..]);
      assert s[..Span(stop, s)] == [s[0]] + s[1..][..Span(stop, s[1..])];
    }
  }

  lemma {:induction false} SpanIs(stop: octet -> bool, a: text, b: text)
    requires forall c <- a :: !stop(c)
    requires b == [] || stop(b[0])
    ensures Span(stop, a + b) == |a|
  {
    if a == [] {
      assert a + b == b;
    } else {
      assert (a + b)[0] == a[0] && (a + b)[1..] == a[1..] + b;
      SpanIs(stop, a[1..], b);
    }
  }

  // ---------- the specification ----------

  /** The scan ends at a NUL or a space. */
  predicate Ends(s: text) {
    s == [] || s[0] == '\0' || s[0] == ' '
  }

  function SkipAmpersand(s: text): (r: text)
    ensures |r| <= |s|
  {
    if s != [] && s[0] == '&' then s[1..] else s
  }

  function ReadPairBy(keyStop: octet -> bool, valueStop: octet -> bool, s: text): (r: Step)
    ensures s != [] && (keyStop(s[0]) ==> s[0] == '=' || s[0] == '&') ==> |r.rest| < |s|
  {
    var k := Span(keyStop, s);
    if k < |s| && s[k] == '=' then
      var v := Span(valueStop, s[k + 1..]);
      Step(Pair(s[..k], Some(s[k + 1..][..v])), SkipAmpersand(s[k + 1..][v..]))
    else
      Step(Pair(s[..k], None), SkipAmpersand(s[k..]))
  }

  function ReadPair(s: text): (r: Step)
    ensures !Ends(s) ==> |r.rest| < |s|
  {
    ReadPairBy(KEY_STOP, VALUE_STOP, s)
  }

  function Pairs(s: text): seq<Pair>
    decreases |s|
  {
    if Ends(s) then [] else [ReadPair(s).pair] + Pairs(ReadPair(s).rest)
  }

  /** What follows the first `?` of the target of a GET request; empty if there is none. */
  function Query(request: text): text {
    if !("GET " <= request) then []
    else
      var t := request[4..];
      var k := Span(PATH_STOP, t);
      if k < |t| && t[k] == '?' then t[k + 1..] else []
  }

  /** The decoded value of the last parameter of that name which has one. */
  function LastValue(ps: seq<Pair>, name: text): Option<text> {
    if ps == [] then None
    else
      var p := ps[|ps| - 1];
      if p.key == name && p.value.Some? then Some(Decode(p.value.value)) else LastValue(ps[..|ps| - 1], name)
  }

  // ---------- the scan recovers what was joined ----------

  function PairText(p: Pair): text {
    if p.value.Some? then p.key + "=" + p.value.value else p.key
  }

  function Join(ps: seq<Pair>): text {
    if ps == [] then []
    else if |ps| == 1 then PairText(ps[0])
    else PairText(ps[0]) + "&" + Join(ps[1..])
  }

  /** No delimiter inside. */
  predicate Clean(p: Pair) {
    && (forall c <- p.key :: !KEY_STOP(c))
    && (p.value.Some? ==> forall c <- p.value.value :: !VALUE_STOP(c))
  }

  predicate AllClean(ps: seq<Pair>) {
    forall p <- ps :: Clean(p)
  }

  /** A parameter that leaves a trace even at the end of the list. */
  predicate Visible(p: Pair) {
    p.value.Some? || p.key != []
  }

  lemma WithValue(keyStop: octet -> bool, valueStop: octet -> bool,
                  s: text, key: text, t: text, value: text, rest: text)
    requires |key| == Span(keyStop, s) < |s| && key == s[..|key|] && s[|key|] == '=' && t == s[|key| + 1..]
    requires |value| == Span(valueStop, t) && value == t[..|value|] && rest == t[|value|..]
    ensures ReadPairBy(keyStop, valueStop, s) == Step(Pair(key, Some(value)), SkipAmpersand(rest))
  {
  }

  lemma WithoutValue(keyStop: octet -> bool, valueStop: octet -> bool, s: text, key: text, rest: text)
    requires |key| == Span(keyStop, s) && key == s[..|key|] && rest == s[|key|..] && (rest == [] || rest[0] != '=')
    ensures ReadPairBy(keyStop, valueStop, s) == Step(Pair(key, None), SkipAmpersand(rest))
  {
  }

  lemma ValueRead(keyStop: octet -> bool, valueStop: octet -> bool, key: text, value: text, rest: text)
    requires (forall c <- key :: !keyStop(c)) && (forall c <- value :: !valueStop(c)) && keyStop('=')
    requires rest == [] || valueStop(rest[0])
    ensures ReadPairBy(keyStop, valueStop, key + ("=" + (value + rest))) ==
            Step(Pair(key, Some(value)), SkipAmpersand(rest))
  {
    var t := value + rest;
    var u: text := "=" + t;
    var s := key + u;
    SpanIs(keyStop, key, u);
    SpanIs(valueStop, value, rest);
    assert s[..|key|] == key && s[|key| + 1..] == t;
    assert t[..|value|] == value && t[|value|..] == rest;
    WithValue(keyStop, valueStop, s, key, t, value, rest);
  }

  lemma KeyRead(keyStop: octet -> bool, valueStop: octet -> bool, key: text, rest: text)
    requires forall c <- key :: !keyStop(c)
    requires rest == [] || (keyStop(rest[0]) && rest[0] != '=')
    ensures ReadPairBy(keyStop, valueStop, key + rest) == Step(Pair(key, None), SkipAmpersand(rest))
  {
    var s := key + rest;
    SpanIs(keyStop, key, rest);
    assert s[..|key|] == key && s[|key|..] == rest;
    WithoutValue(keyStop, valueStop, s, key, rest);
  }

  lemma PairRead(p: Pair, rest: text)
    requires Clean(p)
    requires rest == [] || VALUE_STOP(rest[0])
    ensures ReadPair(PairText(p) + rest) == Step(p, SkipAmpersand(rest))
  {
    if p.value.Some? {
      Regroup(p.key + "=", p.value.value, rest);
      Regroup(p.key, "=", p.value.value + rest);
      ValueRead(KEY_STOP, VALUE_STOP, p.key, p.value.value, rest);
    } else {
      KeyRead(KEY_STOP, VALUE_STOP, p.key, rest);
    }
  }

  lemma VisibleStart(p: Pair, rest: text)
    requires Clean(p)
    requires Visible(p) || (rest != [] && rest[0] == '&')
    ensures !Ends(PairText(p) + rest)
  {
    if p.key != [] {
      assert !KEY_STOP(p.key[0]);
    }
  }

  lemma PairsTurn(p: Pair, rest: text)
    requires Clean(p)
    requires rest == [] || VALUE_STOP(rest[0])
    requires Visible(p) || (rest != [] && rest[0] == '&')
    ensures Pairs(PairText(p) + rest) == [p] + Pairs(SkipAmpersand(rest))
  {
    PairRead(p, rest);
    VisibleStart(p, rest);
  }

  lemma JoinedLast(p: Pair, tail: text)
    requires Clean(p) && Ends(tail)
    ensures Pairs(PairText(p) + tail) == if Visible(p) then [p] else []
  {
    if Visible(p) {
      PairsTurn(p, tail);
    } else {
      assert PairText(p) + tail == tail;
    }
  }

  lemma JoinedMore(p: Pair, rest: text)
    requires Clean(p)
    ensures Pairs(PairText(p) + "&" + rest) == [p] + Pairs(rest)
  {
    var more := ['&'] + rest;
    assert PairText(p) + "&" + rest == PairText(p) + more;
    assert more[1..] == rest;
    PairsTurn(p, more);
  }

  /** `scan` reads the first parameter of a longer list. */
  ghost predicate TakesFirst(scan: text -> seq<Pair>) {
    forall p, rest {:trigger PairText(p) + "&" + rest} ::
      Clean(p) ==> scan(PairText(p) + "&" + rest) == [p] + scan(rest)
  }

  /** `scan` reads the last parameter in front of `tail`. */
  ghost predicate TakesLast(scan: text -> seq<Pair>, tail: text) {
    && scan(tail) == []
    && forall p {:trigger Visible(p)} :: Clean(p) ==> scan(PairText(p) + tail) == if Visible(p) then [p] else []
  }

  const PAIRS: text -> seq<Pair> := (s: text) => Pairs(s)

  lemma FirstTaken()
    ensures TakesFirst(PAIRS)
  {
    forall p, rest | Clean(p)
      ensures PAIRS(PairText(p) + "&" + rest) == [p] + PAIRS(rest)
    {
      JoinedMore(p, rest);
    }
  }

  lemma LastTaken(tail: text)
    requires Ends(tail)
    ensures TakesLast(PAIRS, tail)
  {
    forall p | Clean(p)
      ensures PAIRS(PairText(p) + tail) == if Visible(p) then [p] else []
    {
      JoinedLast(p, tail);
    }
  }

  lemma JoinFirst(ps: seq<Pair>, tail: text)
    requires |ps| > 1
    ensures Join(ps) + tail == PairText(ps[0]) + "&" + (Join(ps[1..]) + tail)
  {
    Regroup(PairText(ps[0]) + "&", Join(ps[1..]), tail);
  }

  lemma ListShape(ps: seq<Pair>)
    requires |ps| > 1
    ensures ps == [ps[0]] + ps[1..]
    ensures ps[..|ps| - 1] == [ps[0]] + ps[1..][..|ps| - 2]
  {
  }

  /** A list without its last element, if that is invisible. */
  function Shown(ps: seq<Pair>): seq<Pair> {
    if ps == [] || Visible(ps[|ps| - 1]) then ps else ps[..|ps| - 1]
  }

  lemma {:induction false} ReadBy(scan: text -> seq<Pair>, ps: seq<Pair>, tail: text)
    requires AllClean(ps) && TakesFirst(scan) && TakesLast(scan, tail)
    ensures scan(Join(ps) + tail) == Shown(ps)
  {
    if ps == [] {
      assert Join(ps) + tail == tail;
    } else if |ps| == 1 {
      assert ps == [ps[0]];
    } else {
      JoinFirst(ps, tail);
      ListShape(ps);
      ReadBy(scan, ps[1..], tail);
    }
  }

  /** A parameter without key and value at the end of the list is lost; nothing else is. */
  lemma JoinedRead(ps: seq<Pair>, tail: text)
    requires AllClean(ps) && Ends(tail)
    ensures Pairs(Join(ps) + tail) == Shown(ps)
  {
    FirstTaken();
    LastTaken(tail);
    ReadBy(PAIRS, ps, tail);
  }

  lemma {:induction false} PairsClean(s: text)
    ensures AllClean(Pairs(s))
    decreases |s|
  {
    if !Ends(s) {
      PairClean(s);
      PairsClean(ReadPair(s).rest);
    }
  }

  lemma PairClean(s: text)
    ensures Clean(ReadPair(s).pair)
  {
    var k := Span(KEY_STOP, s);
    SpanClear(KEY_STOP, s);
    if k < |s| && s[k] == '=' {
      SpanClear(VALUE_STOP, s[k + 1..]);
    }
  }

  /** The exact condition under which the scan gives back the list that was joined. */
  lemma JoinedRoundTrip(ps: seq<Pair>, tail: text)
    requires Ends(tail)
    ensures Pairs(Join(ps) + tail) == ps <==> AllClean(ps) && (ps == [] || Visible(ps[|ps| - 1]))
  {
    PairsClean(Join(ps) + tail);
    if AllClean(ps) {
      JoinedRead(ps, tail);
    }
  }

  /** A value with an ampersand is taken for a value and another parameter. */
  lemma AmpersandSplits(key: text, a: text, b: text)
    requires Clean(Pair(key, Some(a))) && Clean(Pair(b, None)) && b != []
    ensures Pairs(PairText(Pair(key, Some(a + "&" + b)))) == [Pair(key, Some(a)), Pair(b, None)]
  {
    var ps := [Pair(key, Some(a)), Pair(b, None)];
    assert Join(ps[1..]) == b;
    assert PairText(Pair(key, Some(a + "&" + b))) == Join(ps) + [];
    JoinedRoundTrip(ps, []);
  }

  /** A last parameter without key and value leaves no trace. */
  lemma EmptyLast(key: text)
    requires Clean(Pair(key, None)) && key != []
    ensures Pairs(Join([Pair(key, None), Pair([], None)])) == [Pair(key, None)]
  {
    var ps := [Pair(key, None), Pair([], None)];
    assert Join(ps) + [] == Join(ps);
    JoinedRead(ps, []);
  }

  // ---------- fields, as the builders of src/http_types.c write them ----------

  /** A parameter before its value is encoded. */
  datatype Field = Field(name: text, value: text)

  function Coded(fs: seq<Field>): (ps: seq<Pair>)
    ensures |ps| == |fs|
    ensures forall i :: 0 <= i < |fs| ==> ps[i] == Pair(fs[i].name, Some(Encode(fs[i].value)))
  {
    seq(|fs|, i requires 0 <= i < |fs| => Pair(fs[i].name, Some(Encode(fs[i].value))))
  }

  /** The `application/x-www-form-urlencoded` text. */
  function Form(fs: seq<Field>): text {
    Join(Coded(fs))
  }

  predicate Named(fs: seq<Field>) {
    forall f <- fs :: forall c <- f.name :: !KEY_STOP(c)
  }

  lemma FormRead(fs: seq<Field>, tail: text)
    requires Named(fs) && Ends(tail)
    ensures Pairs(Form(fs) + tail) == Coded(fs)
  {
    forall p | p in Coded(fs)
      ensures Clean(p)
    {
      var i :| 0 <= i < |fs| && Coded(fs)[i] == p;
      EncodedSafe(fs[i].value);
      forall c | c in p.value.value
        ensures !VALUE_STOP(c)
      {
        assert Safe(c);
      }
    }
    JoinedRead(Coded(fs), tail);
  }

  function LastField(fs: seq<Field>, name: text): Option<text> {
    if fs == [] then None
    else if fs[|fs| - 1].name == name then Some(fs[|fs| - 1].value)
    else LastField(fs[..|fs| - 1], name)
  }

  lemma {:induction false} LastCoded(fs: seq<Field>, name: text)
    ensures LastValue(Coded(fs), name) == LastField(fs, name)
  {
    if fs != [] {
      var most := fs[..|fs| - 1];
      assert Coded(fs)[..|fs| - 1] == Coded(most);
      RoundTrip(fs[|fs| - 1].value);
      LastCoded(most, name);
    }
  }

  lemma QueryRead(path: text, q: text)
    requires forall c <- path :: !PATH_STOP(c)
    ensures Query("GET " + path + "?" + q) == q
  {
    var t := path + (['?'] + q);
    assert "GET " + path + "?" + q == "GET " + t;
    assert ("GET " + t)[4..] == t;
    SpanIs(PATH_STOP, path, ['?'] + q);
    assert t[|path| + 1..] == q;
  }

  /** A redirect that carries a form in its query hands every value over as it was before encoding. */
  lemma RedirectRead(path: text, fs: seq<Field>, tail: text, name: text)
    requires forall c <- path :: !PATH_STOP(c)
    requires Named(fs) && Ends(tail)
    ensures LastValue(Pairs(Query("GET " + path + "?" + (Form(fs) + tail))), name) == LastField(fs, name)
  {
    QueryRead(path, Form(fs) + tail);
    FormRead(fs, tail);
    LastCoded(fs, name);
  }

  // ---------- the loops ----------

  /** A scan for the next stop; the terminator of the buffer stops every scan. */
  method SkipTo(buf: text, from: nat, stop: octet -> bool) returns (p: nat)
    requires from < |buf| && buf[|buf| - 1] == '\0' && stop('\0')
    ensures p == from + Span(stop, buf[from..]) && p < |buf|
  {
    p := from;
    while !stop(buf[p])
      invariant from <= p < |buf|
      invariant from + Span(stop, buf[from..]) == p + Span(stop, buf[p..])
      decreases |buf| - p
    {
      assert buf[p..][1..] == buf[p + 1..];
      p := p + 1;
    }
  }

  lemma SliceOfSlice(b: text, from: nat, n: nat)
    requires from + n <= |b|
    ensures b[from..][..n] == b[from..from + n]
    ensures b[from..][n..] == b[from + n..]
  {
  }

  /** The key ends at `at`, the value at `p`. */
  lemma PairAt(keyStop: octet -> bool, valueStop: octet -> bool, b: text, from: nat, at: nat, p: nat)
    requires from <= at < p <= |b| && at == from + Span(keyStop, b[from..])
    requires b[at] == '=' && p == at + 1 + Span(valueStop, b[at + 1..])
    ensures ReadPairBy(keyStop, valueStop, b[from..]) ==
            Step(Pair(b[from..at], Some(b[at + 1..p])), SkipAmpersand(b[p..]))
  {
    var s, key, t, value := b[from..], b[from..at], b[at + 1..], b[at + 1..p];
    SliceOfSlice(b, from, |key|);
    SliceOfSlice(b, from, |key| + 1);
    SliceOfSlice(b, at + 1, |value|);
    assert s[|key|] == b[at];
    WithValue(keyStop, valueStop, s, key, t, value, b[p..]);
  }

  /** The key ends at `at`, and there is no value. */
  lemma KeyAt(keyStop: octet -> bool, valueStop: octet -> bool, b: text, from: nat, at: nat)
    requires from <= at < |b| && at == from + Span(keyStop, b[from..]) && b[at] != '='
    ensures ReadPairBy(keyStop, valueStop, b[from..]) == Step(Pair(b[from..at], None), SkipAmpersand(b[at..]))
  {
    SliceOfSlice(b, from, at - from);
  }

  /** A value behind `=`, if there is one. */
  method ReadValue(buf: text, from: nat) returns (p: nat, value: Option<text>)
    requires from < |buf| && buf[|buf| - 1] == '\0'
    ensures from <= p < |buf|
    ensures buf[from] != '=' ==> p == from && value == None
    ensures buf[from] == '=' ==> p == from + 1 + Span(VALUE_STOP, buf[from + 1..]) && value == Some(buf[from + 1..p])
  {
    p, value := from, None;
    if buf[p] == '=' {
      p := p + 1;
      var start := p;
      p := SkipTo(buf, p, VALUE_STOP);
      value := Some(buf[start..p]);
    }
  }

  method SkipSeparator(buf: text, from: nat) returns (p: nat)
    requires from < |buf| && buf[|buf| - 1] == '\0'
    ensures from <= p < |buf| && buf[p..] == SkipAmpersand(buf[from..])
  {
    p := from;
    if buf[p] == '&' {
      assert buf[p..][1..] == buf[p + 1..];
      p := p + 1;
    }
  }

  /** One turn of the outer loop: a key, a value, a separator. */
  method NextPair(buf: text, from: nat) returns (p: nat, key: text, value: Option<text>)
    requires from < |buf| && buf[|buf| - 1] == '\0' && !Ends(buf[from..])
    ensures from < p < |buf|
    ensures ReadPair(buf[from..]) == Step(Pair(key, value), buf[p..])
  {
    p := SkipTo(buf, from, KEY_STOP);
    key := buf[from..p];
    ghost var at := p;
    p, value := ReadValue(buf, p);
    if buf[at] == '=' {
      PairAt(KEY_STOP, VALUE_STOP, buf, from, at, p);
    } else {
      KeyAt(KEY_STOP, VALUE_STOP, buf, from, at);
    }
    p := SkipSeparator(buf, p);
  }

  /** What the intercept reports of a received request. */
  datatype Answer = Answer(code: Option<text>, state: Option<text>, error: Option<text>, description: Option<text>)

  function Answers(ps: seq<Pair>): Answer {
    Answer(LastValue(ps, "code"), LastValue(ps, "state"), LastValue(ps, "error"), LastValue(ps, "error_description"))
  }

  /** Assigning one parameter to the answer. */
  method Assign(a: Answer, key: text, value: Option<text>, ghost ps: seq<Pair>) returns (r: Answer)
    requires a == Answers(ps)
    ensures r == Answers(ps + [Pair(key, value)])
  {
    assert (ps + [Pair(key, value)])[..|ps|] == ps;
    r := a;
    if value.Some? {
      var dst, j := DecodeAlloc(value.value);
      if |key| == 4 && key == "code" {
        r := a.(code := Some(dst[..j]));
      } else if |key| == 5 && key == "state" {
        r := a.(state := Some(dst[..j]));
      } else if |key| == 5 && key == "error" {
        r := a.(error := Some(dst[..j]));
      } else if |key| == 17 && key == "error_description" {
        r := a.(description := Some(dst[..j]));
      }
    }
  }

  /** The outer loop. */
  method ScanPairs(buf: text, from: nat) returns (a: Answer)
    requires from < |buf| && buf[|buf| - 1] == '\0'
    ensures a == Answers(Pairs(buf[from..]))
  {
    a := Answer(None, None, None, None);
    var p := from;
    ghost var done: seq<Pair> := [];
    while buf[p] != '\0' && buf[p] != ' '
      invariant p < |buf|
      invariant a == Answers(done)
      invariant done + Pairs(buf[p..]) == Pairs(buf[from..])
      decreases |buf| - p
    {
      ghost var s := buf[p..];
      var key, value;
      p, key, value := NextPair(buf, p);
      a := Assign(a, key, value, done);
      OneMorePair(done, s, Pair(key, value), buf[p..]);
      done := done + [Pair(key, value)];
    }
    assert Ends(buf[p..]) && done + [] == done;
  }

  lemma OneMorePair(done: seq<Pair>, s: text, p: Pair, rest: text)
    requires !Ends(s) && ReadPair(s) == Step(p, rest)
    ensures (done + [p]) + Pairs(rest) == done + Pairs(s)
  {
  }

  /** The query begins behind the `?` at which the scan of the target stops. */
  lemma QueryAt(buf: text, p: nat)
    requires "GET " <= buf && 4 <= p < |buf| && p == 4 + Span(PATH_STOP, buf[4..])
    ensures Query(buf) == if buf[p] == '?' then buf[p + 1..] else []
  {
    SliceOfSlice(buf, 4, p - 4);
    if buf[p] == '?' {
      SliceOfSlice(buf, 4, p + 1 - 4);
    }
  }

  /** The whole intercept, once the request is in the buffer. */
  method Intercept(buf: text) returns (rc: Status, a: Answer)
    requires |buf| > 0 && buf[|buf| - 1] == '\0'
    ensures rc == if "GET " <= buf then Success else Invalid
    ensures a == Answers(Pairs(Query(buf)))
  {
    a := Answer(None, None, None, None);
    if |buf| < 4 || buf[..4] != "GET " {
      return Invalid, a;
    }
    rc := Success;
    a := Redirect(buf);
  }

  /** The query of a GET request, if its target has one. */
  method Redirect(buf: text) returns (a: Answer)
    requires "GET " <= buf && |buf| > 4 && buf[|buf| - 1] == '\0'
    ensures a == Answers(Pairs(Query(buf)))
  {
    ghost var query := Query(buf);
    var p := SkipTo(buf, 4, PATH_STOP);
    QueryAt(buf, p);
    if buf[p] == '?' {
      assert query == buf[p + 1..];
      a := ScanPairs(buf, p + 1);
    } else {
      assert query == [] && Pairs(query) == [];
      a := Answer(None, None, None, None);
    }
  }

  /** What may not stand in a key or a value: the delimiters of the query and its end. */
  lemma CleanExactly(p: Pair)
    ensures Clean(p) <==>
            && (forall c <- p.key :: c !in "=& \0")
            && (p.value.Some? ==> forall c <- p.value.value :: c !in "& \0")
  {
  }

  /** The target of a GET request ends at white space or a NUL, its path at the first question mark. */
  lemma QueryExactly(path: text, query: text, rest: text)
    requires forall c <- path :: c !in "? \r\n\0"
    ensures Query("GET " + path + "?" + query) == query
    ensures rest != [] && rest[0] in " \r\n\0" ==> Query("GET " + path + rest) == []
  {
    var behind := "?" + query;
    var a, b := "GET " + path + "?" + query, "GET " + path + rest;
    assert a[4..] == path + behind && b[4..] == path + rest && a[..4] == "GET " == b[..4];
    SpanIs(PATH_STOP, path, behind);
    assert (path + behind)[|path|] == '?' && (path + behind)[|path| + 1..] == query;
    if rest != [] && rest[0] in " \r\n\0" {
      SpanIs(PATH_STOP, path, rest);
    }
  }
}
