/**
 * What WHATWG HTML section 9.2.6 makes of the lines of an event stream, and where src/http_sse.c
 * differs from it. Decoding, a byte order mark included, has already been done.
 */
module SseStandard {
  import opened Bytes
  import opened SseMachine

  /** One event as the standard describes it. */
  datatype Occurrence = Occurrence(id: seq<byte>, kind: seq<byte>, data: seq<byte>)

  /** The data buffer, the event type buffer and the last event ID buffer. */
  datatype Buffers = Buffers(data: seq<byte>, kind: seq<byte>, id: seq<byte>)

  const NUL: byte := 0

  // ---------- the standard ----------

  /** Lines end with CR LF, with LF or with CR. */
  function StandardLines(cur: seq<byte>, s: seq<byte>): seq<seq<byte>>
    decreases |s|
  {
    if s == [] then []
    else if s[0] == CR && |s| > 1 && s[1] == LF then [cur] + StandardLines([], s[2..])
    else if s[0] == CR || s[0] == LF then [cur] + StandardLines([], s[1..])
    else StandardLines(cur + [s[0]], s[1..])
  }

  /** The characters in front of the first colon, or all of them. */
  function NameOf(line: seq<byte>): seq<byte> {
    if line == [] || line[0] == ':' as int then [] else [line[0]] + NameOf(line[1..])
  }

  /** The characters behind the first colon, none without a colon. */
  function AfterColon(line: seq<byte>): seq<byte> {
    if line == [] then [] else if line[0] == ':' as int then line[1..] else AfterColon(line[1..])
  }

  /** One space in front of the value is removed. */
  function ValueOfField(line: seq<byte>): seq<byte> {
    var v := AfterColon(line);
    if v != [] && v[0] == ' ' as int then v[1..] else v
  }

  /** Processing a line: comments and unknown fields are ignored, and so is an id that holds a NUL. */
  function Interpret(b: Buffers, line: seq<byte>): Buffers
    requires line != []
  {
    var name, value := NameOf(line), ValueOfField(line);
    if line[0] == ':' as int then b
    else if name == Ascii("event") then b.(kind := value)
    else if name == Ascii("data") then b.(data := b.data + value + ['\n' as int])
    else if name == Ascii("id") then if 0 in value then b else b.(id := value)
    else b
  }

  /** Dispatching: nothing without data; an empty type is `message`; one final line feed is removed. */
  function Fired(b: Buffers): seq<Occurrence> {
    if b.data == [] then []
    else
      [Occurrence(b.id, if b.kind == [] then Ascii("message") else b.kind,
                  if b.data[|b.data| - 1] == '\n' as int then b.data[..|b.data| - 1] else b.data)]
  }

  /** The events of the lines; what an incomplete last block has collected is discarded. */
  function Occurrences(b: Buffers, ls: seq<seq<byte>>): seq<Occurrence>
    decreases |ls|
  {
    if ls == [] then []
    else if ls[0] == [] then Fired(b) + Occurrences(Buffers([], [], b.id), ls[1..])
    else Occurrences(Interpret(b, ls[0]), ls[1..])
  }

  // ---------- the standard's reading of a line and the code's ----------

  lemma {:induction false} FieldsAlike(line: seq<byte>)
    ensures NameOf(line) == Field(line)
    ensures AfterColon(line) == if ColonAt(line) < |line| then line[ColonAt(line) + 1..] else []
    decreases |line|
  {
    if line != [] && line[0] != COLON {
      FieldsAlike(line[1..]);
      assert line[..ColonAt(line)] == [line[0]] + line[1..][..ColonAt(line[1..])];
    }
  }

  lemma Spellings()
    ensures EVENT == Ascii("event") && DATA == Ascii("data") && ID == Ascii("id") && MESSAGE == Ascii("message")
    ensures RETRY == Ascii("retry")
  {
  }

  /** What the standard does with a line, in terms of the code's fields and values. */
  function ByField(b: Buffers, line: seq<byte>): Buffers {
    if HasField(line, EVENT) then b.(kind := Value(line))
    else if HasField(line, DATA) then b.(data := b.data + Value(line) + [LF])
    else if HasField(line, ID) then if NUL in Value(line) then b else b.(id := Value(line))
    else b
  }

  function FiredBy(b: Buffers): seq<Occurrence> {
    if b.data == [] then []
    else
      [Occurrence(b.id, if b.kind == [] then MESSAGE else b.kind,
                  if b.data[|b.data| - 1] == LF then b.data[..|b.data| - 1] else b.data)]
  }

  /** The events in terms of the code's fields and values. */
  function Collected(b: Buffers, ls: seq<seq<byte>>): seq<Occurrence>
    decreases |ls|
  {
    if ls == [] then []
    else if ls[0] == [] then FiredBy(b) + Collected(Buffers([], [], b.id), ls[1..])
    else Collected(ByField(b, ls[0]), ls[1..])
  }

  lemma {:induction false} CollectedAlike(b: Buffers, ls: seq<seq<byte>>)
    ensures Occurrences(b, ls) == Collected(b, ls)
    decreases |ls|
  {
    Spellings();
    if ls != [] {
      if ls[0] == [] {
        assert Fired(b) == FiredBy(b);
        CollectedAlike(Buffers([], [], b.id), ls[1..]);
      } else {
        InterpretByField(b, ls[0]);
        CollectedAlike(ByField(b, ls[0]), ls[1..]);
      }
    }
  }

  lemma InterpretByField(b: Buffers, line: seq<byte>)
    requires line != []
    ensures Interpret(b, line) == ByField(b, line)
  {
    FieldsAlike(line);
    Spellings();
    assert ValueOfField(line) == Value(line);
  }

  // ---------- what the code reports, seen in the same way ----------

  /** The null pointer stands for no id. */
  function IdText(id: Option<seq<byte>>): seq<byte> {
    if id.Some? then id.value else []
  }

  function Seen(r: Report): seq<Occurrence> {
    if r.Dispatched? then [Occurrence(IdText(r.id), r.event, r.data)] else []
  }

  function Observed(out: seq<Report>): seq<Occurrence> {
    if out == [] then [] else Seen(out[0]) + Observed(out[1..])
  }

  lemma {:induction false} ObservedConcat(a: seq<Report>, b: seq<Report>)
    ensures Observed(a + b) == Observed(a) + Observed(b)
  {
    if a == [] {
      assert a + b == b;
    } else {
      assert (a + b)[0] == a[0] && (a + b)[1..] == a[1..] + b;
      ObservedConcat(a[1..], b);
      Regroup(Seen(a[0]), Observed(a[1..]), Observed(b));
    }
  }

  // ---------- the condition ----------

  /** The lines since the last empty line. */
  function Since(ls: seq<seq<byte>>): seq<seq<byte>> {
    if ls == [] || ls[|ls| - 1] == [] then [] else Since(ls[..|ls| - 1]) + [ls[|ls| - 1]]
  }

  /** The block in front of an empty line has data, so that an event is dispatched. */
  predicate HasEvent(before: seq<seq<byte>>) {
    Values(Since(before), DATA) != []
  }

  /** Its last event type, if it has one, is not empty; the last id so far, if there is one, holds no NUL. */
  predicate Conforms(before: seq<seq<byte>>) {
    var kinds, ids := Values(Since(before), EVENT), Values(before, ID);
    && (kinds != [] ==> kinds[|kinds| - 1] != [])
    && (ids != [] ==> NUL !in ids[|ids| - 1])
  }

  /** Every event that is dispatched conforms. */
  predicate AllConform(ls: seq<seq<byte>>) {
    forall k :: 0 <= k < |ls| && ls[k] == [] && HasEvent(ls[..k]) ==> Conforms(ls[..k])
  }

  /** The same, of the events behind the lines `done`. */
  predicate RestConforms(done: seq<seq<byte>>, ls: seq<seq<byte>>)
    decreases |ls|
  {
    ls == [] ||
    ((ls[0] == [] && HasEvent(done) ==> Conforms(done)) && RestConforms(done + [ls[0]], ls[1..]))
  }

  lemma {:induction false} RestIsAll(done: seq<seq<byte>>, ls: seq<seq<byte>>)
    ensures RestConforms(done, ls) <==>
            forall k :: |done| <= k < |done + ls| && (done + ls)[k] == [] && HasEvent((done + ls)[..k]) ==>
              Conforms((done + ls)[..k])
    decreases |ls|
  {
    if ls != [] {
      var all := done + ls;
      assert (done + [ls[0]]) + ls[1..] == all;
      RestIsAll(done + [ls[0]], ls[1..]);
      assert all[..|done|] == done && all[|done|] == ls[0];
    }
  }

  // ---------- line by line ----------

  lemma {:induction false} ValuesSnoc(ls: seq<seq<byte>>, line: seq<byte>, name: seq<byte>)
    ensures Values(ls + [line], name) == Values(ls, name) + ValueOf(line, name)
  {
    if ls == [] {
      ValuesCons(line, ls, name);
      assert ls + [line] == [line] + ls;
    } else {
      var first, more := ls[0], ls[1..];
      assert ls == [first] + more && ls + [line] == [first] + (more + [line]);
      ValuesSnoc(more, line, name);
      ValuesCons(first, more, name);
      ValuesCons(first, more + [line], name);
      Regroup(ValueOf(first, name), Values(more, name), ValueOf(line, name));
    }
  }

  lemma ValuesCons(line: seq<byte>, more: seq<seq<byte>>, name: seq<byte>)
    ensures Values([line] + more, name) == ValueOf(line, name) + Values(more, name)
  {
    ValuesFirst(line, more, name);
  }

  lemma SinceSnoc(ls: seq<seq<byte>>, line: seq<byte>)
    ensures Since(ls + [line]) == if line == [] then [] else Since(ls) + [line]
  {
    var all := ls + [line];
    assert all[..|all| - 1] == ls && all[|all| - 1] == line;
  }

  /** How the code's state and the standard's are related, given the event types and ids so far. */
  ghost predicate DataMatches(m: Machine, b: Buffers, hasData: bool) {
    b.data == m.data && (m.data != [] <==> hasData) && (m.data != [] ==> m.data[|m.data| - 1] == LF)
  }

  ghost predicate KindMatches(m: Machine, b: Buffers, kinds: seq<seq<byte>>) {
    m.event == LastOr(kinds, MESSAGE) && b.kind == LastOr(kinds, [])
  }

  ghost predicate IdMatches(m: Machine, b: Buffers, ids: seq<seq<byte>>) {
    && NUL !in b.id
    && (NUL in IdText(m.id) <==> ids != [] && NUL in ids[|ids| - 1])
    && (NUL !in IdText(m.id) ==> b.id == IdText(m.id))
  }

  ghost predicate Matches(m: Machine, b: Buffers, hasData: bool, kinds: seq<seq<byte>>, ids: seq<seq<byte>>) {
    DataMatches(m, b, hasData) && KindMatches(m, b, kinds) && IdMatches(m, b, ids)
  }

  ghost predicate Related(m: Machine, b: Buffers, done: seq<seq<byte>>) {
    Matches(m, b, HasEvent(done), Values(Since(done), EVENT), Values(done, ID))
  }

  function ValueOf(line: seq<byte>, name: seq<byte>): seq<seq<byte>> {
    if HasField(line, name) then [Value(line)] else []
  }

  lemma DataFollows(m: Machine, b: Buffers, hasData: bool, line: seq<byte>)
    requires Wf(m) && DataMatches(m, b, hasData) && line != [] && ProcessLine(m, line).rc == Success
    ensures DataMatches(ProcessLine(m, line).m, ByField(b, line), hasData || HasField(line, DATA))
  {
    LineEffect(m, line);
    FieldNames();
    if HasField(line, DATA) {
      Regroup(m.data, Value(line), [LF]);
    }
  }

  lemma KindFollows(m: Machine, b: Buffers, kinds: seq<seq<byte>>, line: seq<byte>)
    requires Wf(m) && KindMatches(m, b, kinds) && line != [] && ProcessLine(m, line).rc == Success
    ensures KindMatches(ProcessLine(m, line).m, ByField(b, line), kinds + ValueOf(line, EVENT))
  {
    LineEffect(m, line);
    FieldNames();
    LastBehind(kinds, ValueOf(line, EVENT));
  }

  lemma IdFollows(m: Machine, b: Buffers, ids: seq<seq<byte>>, line: seq<byte>)
    requires Wf(m) && IdMatches(m, b, ids) && line != [] && ProcessLine(m, line).rc == Success
    ensures IdMatches(ProcessLine(m, line).m, ByField(b, line), ids + ValueOf(line, ID))
  {
    LineEffect(m, line);
    FieldNames();
    LastBehind(ids, ValueOf(line, ID));
  }

  lemma FieldMatches(m: Machine, b: Buffers, hasData: bool, kinds: seq<seq<byte>>, ids: seq<seq<byte>>, line: seq<byte>)
    requires Wf(m) && Matches(m, b, hasData, kinds, ids) && line != [] && ProcessLine(m, line).rc == Success
    ensures Matches(ProcessLine(m, line).m, ByField(b, line), hasData || HasField(line, DATA),
                    kinds + ValueOf(line, EVENT), ids + ValueOf(line, ID))
  {
    DataFollows(m, b, hasData, line);
    KindFollows(m, b, kinds, line);
    IdFollows(m, b, ids, line);
  }

  /** The last of a list behind which at most one value is put. */
  lemma LastBehind(values: seq<seq<byte>>, more: seq<seq<byte>>)
    requires |more| <= 1
    ensures more == [] ==> values + more == values
    ensures more != [] ==> values + more != [] && (values + more)[|values + more| - 1] == more[0]
  {
  }

  lemma FieldRelated(m: Machine, b: Buffers, done: seq<seq<byte>>, line: seq<byte>)
    requires Wf(m) && Related(m, b, done) && line != [] && ProcessLine(m, line).rc == Success
    ensures Related(ProcessLine(m, line).m, ByField(b, line), done + [line])
  {
    var block := Since(done);
    FieldMatches(m, b, HasEvent(done), Values(block, EVENT), Values(done, ID), line);
    SinceSnoc(done, line);
    ValuesSnoc(block, line, EVENT);
    ValuesSnoc(block, line, DATA);
    ValuesSnoc(done, line, ID);
  }

  /** A dispatch: the same event if and only if it conforms. */
  lemma DispatchRelated(m: Machine, b: Buffers, done: seq<seq<byte>>)
    requires Wf(m) && Related(m, b, done)
    ensures |Observed(Dispatch(m).out)| == |FiredBy(b)| == if HasEvent(done) then 1 else 0
    ensures Observed(Dispatch(m).out) == FiredBy(b) <==> (HasEvent(done) ==> Conforms(done))
    ensures Related(Dispatch(m).m, Buffers([], [], b.id), done + [[]])
  {
    SinceSnoc(done, []);
    ValuesSnoc(done, [], ID);
    var none: seq<seq<byte>> := [];
    assert Values(none, DATA) == [] && Values(none, EVENT) == [];
    var out := Dispatch(m).out;
    if out != [] {
      assert out[1..] == [];
      assert Observed(out) == Seen(out[0]) + Observed([]);
      SameEvent(m, b, done);
    }
  }

  lemma SameEvent(m: Machine, b: Buffers, done: seq<seq<byte>>)
    requires Wf(m) && Related(m, b, done) && HasEvent(done)
    ensures Seen(Dispatch(m).out[0]) == FiredBy(b) <==> Conforms(done)
  {
    var c, f := Seen(Dispatch(m).out[0])[0], FiredBy(b)[0];
    assert c.data == f.data;
    assert c.kind == f.kind <==> (b.kind == [] ==> m.event == MESSAGE);
    assert MESSAGE[0] == 109;
    assert c.id == f.id <==> NUL !in IdText(m.id);
    assert Seen(Dispatch(m).out[0]) == [c] && FiredBy(b) == [f];
  }

  lemma SameLists(a: seq<Occurrence>, b: seq<Occurrence>, x: seq<Occurrence>, y: seq<Occurrence>)
    requires |a| == |b|
    ensures a + x == b + y <==> a == b && x == y
  {
    if a + x == b + y {
      assert a == (a + x)[..|a|] && b == (b + y)[..|a|];
      assert x == (a + x)[|a|..] && y == (b + y)[|a|..];
    }
  }

  lemma {:induction false} EventsRelated(m: Machine, b: Buffers, done: seq<seq<byte>>, ls: seq<seq<byte>>)
    requires Wf(m) && Related(m, b, done) && RunLines(m, ls).rc == Success
    ensures Observed(RunLines(m, ls).out) == Collected(b, ls) <==> RestConforms(done, ls)
    decreases |ls|
  {
    if ls != [] {
      var line, more := ls[0], ls[1..];
      var o := ProcessLine(m, line);
      ObservedConcat(o.out, RunLines(o.m, more).out);
      if line == [] {
        DispatchRelated(m, b, done);
        EventsRelated(o.m, Buffers([], [], b.id), done + [line], more);
        SameLists(Observed(o.out), FiredBy(b), Observed(RunLines(o.m, more).out),
                  Collected(Buffers([], [], b.id), more));
      } else {
        LineEffect(m, line);
        FieldRelated(m, b, done, line);
        EventsRelated(o.m, ByField(b, line), done + [line], more);
      }
    }
  }

  /**
   * Over lines: a fresh parser reports the standard's events if and only if no event it dispatches
   * has an empty last `event` value or the id of an `id` value with a NUL.
   */
  lemma StandardExactly(limit: nat, id: Option<seq<byte>>, retry: int, ls: seq<seq<byte>>)
    requires NUL !in IdText(id)
    ensures var o := RunLines(Initial(limit, id, retry), ls);
            o.rc == Success ==>
              (Observed(o.out) == Occurrences(Buffers([], [], IdText(id)), ls) <==> AllConform(ls))
  {
    CollectedAlike(Buffers([], [], IdText(id)), ls);
    var m := Initial(limit, id, retry);
    var none: seq<seq<byte>> := [];
    assert Values(none, DATA) == [] && Values(none, EVENT) == [] && Values(none, ID) == [];
    if RunLines(m, ls).rc == Success {
      EventsRelated(m, Buffers([], [], IdText(id)), none, ls);
      RestIsAll(none, ls);
      assert none + ls == ls;
    }
  }

  // ---------- octets ----------

  /** Every CR stands in front of an LF. */
  predicate CrInFrontOfLf(s: seq<byte>) {
    forall i :: 0 <= i < |s| && s[i] == CR ==> i + 1 < |s| && s[i + 1] == LF
  }

  /** The code drops a CR; it never sees more lines than there are, and as many only without lone CRs. */
  lemma {:induction false} LineCount(cur: seq<byte>, other: seq<byte>, s: seq<byte>)
    ensures |Lines(cur, s)| <= |StandardLines(other, s)|
    ensures |Lines(cur, s)| == |StandardLines(other, s)| <==> CrInFrontOfLf(s)
    decreases |s|
  {
    if s != [] {
      if s[0] == CR && |s| > 1 && s[1] == LF {
        assert s[1..][1..] == s[2..];
        LineCount([], [], s[2..]);
        Behind(s, 2);
      } else if s[0] == CR {
        LineCount(cur, [], s[1..]);
      } else {
        LineCount(if s[0] == LF then [] else cur + [s[0]], if s[0] == LF then [] else other + [s[0]], s[1..]);
        Behind(s, 1);
      }
    }
  }

  lemma Behind(s: seq<byte>, n: nat)
    requires n <= |s| && ((n == 1 && s[0] != CR) || (n == 2 && s[0] == CR && s[1] == LF))
    ensures CrInFrontOfLf(s) <==> CrInFrontOfLf(s[n..])
  {
    var t := s[n..];
    assert forall i :: 0 <= i < |t| ==> t[i] == s[n + i];
    assert forall i :: n <= i < |s| ==> s[i] == t[i - n];
  }

  lemma {:induction false} LinesAlike(cur: seq<byte>, s: seq<byte>)
    requires CrInFrontOfLf(s)
    ensures StandardLines(cur, s) == Lines(cur, s)
    decreases |s|
  {
    if s != [] {
      if s[0] == CR {
        Behind(s, 2);
        assert s[1..][1..] == s[2..];
        LinesAlike([], s[2..]);
        assert Lines(cur, s[1..]) == [cur] + Lines([], s[2..]);
      } else {
        Behind(s, 1);
        LinesAlike(if s[0] == LF then [] else cur + [s[0]], s[1..]);
      }
    }
  }

  /** The code sees the standard's lines if and only if every CR stands in front of an LF. */
  lemma SameLines(s: seq<byte>)
    ensures Lines([], s) == StandardLines([], s) <==> CrInFrontOfLf(s)
  {
    LineCount([], [], s);
    if CrInFrontOfLf(s) {
      LinesAlike([], s);
    }
  }

  /**
   * Over octets, cut in any way, an incomplete last block included: up to the first size error, if
   * there is one, exactly the standard's events are reported, under the same condition. The lines
   * are the standard's if and only if each line ends with LF or CR LF.
   */
  lemma StreamExactly(limit: nat, id: Option<seq<byte>>, retry: int, chunks: seq<seq<byte>>)
    requires NUL !in IdText(id)
    ensures var m, s := Initial(limit, id, retry), Flatten(chunks);
            var o, ls := RunChunks(m, chunks), Lines([], s[..Read(m, s)]);
            && (Observed(o.out) == Occurrences(Buffers([], [], IdText(id)), ls) <==> AllConform(ls))
            && (o.rc == Success ==> (ls == StandardLines([], s) <==> CrInFrontOfLf(s)))
  {
    var m, s := Initial(limit, id, retry), Flatten(chunks);
    var p := s[..Read(m, s)];
    ChunkingIndependence(m, chunks);
    ReadPrefix(m, s);
    RunIsLines(m, p);
    StandardExactly(limit, id, retry, Lines([], p));
    ErrorsUnseen(Run(m, p).out, Run(m, s).rc);
    if Run(m, s).rc == Success {
      assert p == s;
      SameLines(s);
    }
  }

  /** Octets in which every CR stands in front of an LF, and all of which are accepted: the standard, exactly. */
  lemma StandardStream(limit: nat, id: Option<seq<byte>>, retry: int, chunks: seq<seq<byte>>)
    requires NUL !in IdText(id) && CrInFrontOfLf(Flatten(chunks))
    ensures var o, ls := RunChunks(Initial(limit, id, retry), chunks), StandardLines([], Flatten(chunks));
            o.rc == Success ==>
              (Observed(o.out) == Occurrences(Buffers([], [], IdText(id)), ls) <==> AllConform(ls))
  {
    var m, s := Initial(limit, id, retry), Flatten(chunks);
    StreamExactly(limit, id, retry, chunks);
    ChunkingIndependence(m, chunks);
    ReadPrefix(m, s);
    if Run(m, s).rc == Success {
      assert s[..Read(m, s)] == s;
    }
  }

  lemma ErrorsUnseen(out: seq<Report>, rc: Status)
    ensures Observed(out + (if rc == Success then [] else [Failed(rc)])) == Observed(out)
  {
    assert out + [] == out && [Failed(rc)][1..] == [];
    assert Observed([Failed(rc)]) == Seen(Failed(rc)) + Observed([]);
    ObservedConcat(out, [Failed(rc)]);
    assert Observed(out) + [] == Observed(out);
  }

  // ---------- two streams that differ ----------

  /** A field, `data:x` and an empty line. */
  function Short(field: seq<byte>): seq<seq<byte>> {
    [field, DATA + [COLON] + [120], []]
  }

  /** A quiet first line, and then one event. */
  lemma ShortRun(m: Machine, field: seq<byte>, q: Machine)
    requires Wf(m) && Wf(q) && ProcessLine(m, field) == Quiet(q) && q.data == [] && q.dataCap >= 4096
    ensures var o := RunLines(m, Short(field));
            o.rc == Success && o.out == [Dispatched(q.id, q.event, [120])]
  {
    var line := DATA + [COLON] + [120];
    DataLine([120]);
    FieldNames();
    var q2 := AppendData(q, [120]).m;
    assert q2.data == [120, LF] && q2.data[..1] == [120];
    assert ProcessLine(q, line) == Quiet(q2);
    var rest: seq<seq<byte>> := [line, []];
    var last: seq<seq<byte>> := [[]];
    assert Short(field)[1..] == rest && rest[1..] == last && last[1..] == [];
    assert RunLines(q2, last).out == [Dispatched(q.id, q.event, [120])];
    assert RunLines(q, rest).out == [Dispatched(q.id, q.event, [120])];
  }

  lemma ShortStandard(b: Buffers, field: seq<byte>)
    requires b.data == [] && field != [] && ByField(b, field).data == []
    ensures var c := ByField(b, field);
            Collected(b, Short(field)) == [Occurrence(c.id, if c.kind == [] then MESSAGE else c.kind, [120])]
  {
    var c, line := ByField(b, field), DATA + [COLON] + [120];
    DataLine([120]);
    FieldNames();
    var d := ByField(c, line);
    assert d.data == [120, LF] && d.data[..1] == [120];
    var rest: seq<seq<byte>> := [line, []];
    var last: seq<seq<byte>> := [[]];
    assert Short(field)[1..] == rest && rest[1..] == last && last[1..] == [];
    assert Collected(d, last) == FiredBy(d) + [];
  }

  lemma ShortOctets(limit: nat, retry: int, field: seq<byte>)
    requires Plain(field) && |field| < 1024
    ensures var m := Initial(limit, None, retry);
            var o, q := Run(m, Octets(Short(field))), RunLines(m, Short(field));
            o.out == q.out && o.rc == q.rc
  {
    var m, ls := Initial(limit, None, retry), Short(field);
    assert Plain(DATA + [COLON] + [120]);
    OctetsSplit(ls);
    assert AllFit(m.lineCap, m.limit, m.line, Octets(ls));
    LineRefinement(m, m, Octets(ls));
  }

  const NOTHING := Buffers([], [], [])

  /** `event:`, `data:x`: the standard dispatches a `message`, the code an event without type. */
  lemma EmptyType(limit: nat, retry: int)
    ensures var ls := Short(EVENT + [COLON]);
            && Observed(Run(Initial(limit, None, retry), Octets(ls)).out) == [Occurrence([], [], [120])]
            && Occurrences(NOTHING, ls) == [Occurrence([], MESSAGE, [120])]
  {
    CollectedAlike(NOTHING, Short(EVENT + [COLON]));
    var m, field := Initial(limit, None, retry), EVENT + [COLON];
    FieldLine(EVENT, []);
    assert EVENT + [COLON] + [] == field;
    ShortOctets(limit, retry, field);
    ShortRun(m, field, m.(event := []));
    ShortStandard(NOTHING, field);
    OneSeen(Dispatched(None, [], [120]));
  }

  /** `id:` with a NUL, `data:x`: the standard ignores the id, the code stores it. */
  lemma NulId(limit: nat, retry: int)
    ensures var ls := Short(ID + [COLON] + [NUL]);
            && Observed(Run(Initial(limit, None, retry), Octets(ls)).out) == [Occurrence([NUL], MESSAGE, [120])]
            && Occurrences(NOTHING, ls) == [Occurrence([], MESSAGE, [120])]
  {
    CollectedAlike(NOTHING, Short(ID + [COLON] + [NUL]));
    var m, field := Initial(limit, None, retry), ID + [COLON] + [NUL];
    FieldLine(ID, [NUL]);
    FieldNames();
    ShortOctets(limit, retry, field);
    ShortRun(m, field, m.(id := Some([NUL])));
    ShortStandard(NOTHING, field);
    OneSeen(Dispatched(Some([NUL]), MESSAGE, [120]));
  }

  lemma {:induction false} PlainFirst(cur: seq<byte>, line: seq<byte>, rest: seq<byte>)
    requires Plain(line)
    ensures Lines(cur, line + rest) == Lines(cur + line, rest)
    ensures Tail(cur, line + rest) == Tail(cur + line, rest)
    ensures StandardLines(cur, line + rest) == StandardLines(cur + line, rest)
    decreases |line|
  {
    var s := line + rest;
    if line == [] {
      assert s == rest && cur + line == cur;
    } else {
      assert s[1..] == line[1..] + rest && s[0] == line[0];
      assert line[0] in line && forall c <- line[1..] :: c in line;
      PlainFirst(cur + [line[0]], line[1..], rest);
      assert cur + [line[0]] + line[1..] == cur + line;
    }
  }

  lemma TwoCrs(line: seq<byte>)
    ensures Lines(line, [CR, CR]) == [] && Tail(line, [CR, CR]) == line
    ensures StandardLines(line, [CR, CR]) == [line, []]
  {
    var one, none: seq<byte> := [CR], [];
    assert [CR, CR][1..] == one && one[1..] == none;
    assert Lines(line, one) == Lines(line, none) && Tail(line, one) == Tail(line, none);
    assert StandardLines([], one) == [[]] + StandardLines([], none);
  }

  /** `data:x` and two CRs: the standard dispatches a `message`, the code waits for an LF. */
  lemma LoneCr(limit: nat, retry: int)
    ensures var s := DATA + [COLON] + [120] + [CR, CR];
            && Observed(Run(Initial(limit, None, retry), s).out) == []
            && Occurrences(NOTHING, StandardLines([], s)) == [Occurrence([], MESSAGE, [120])]
  {
    CollectedAlike(NOTHING, StandardLines([], DATA + [COLON] + [120] + [CR, CR]));
    var m, line := Initial(limit, None, retry), DATA + [COLON] + [120];
    var s := line + [CR, CR];
    assert Plain(line) && [] + line == line;
    PlainFirst([], line, [CR, CR]);
    TwoCrs(line);
    assert AllFit(m.lineCap, m.limit, m.line, s);
    LineRefinement(m, m, s);
    OneBlock(line);
  }

  /** A lone CR between comments changes the lines, and not the events. */
  lemma LoneCrInComment()
    ensures var s := [COLON, CR, COLON, LF];
            && Lines([], s) != StandardLines([], s)
            && Occurrences(NOTHING, Lines([], s)) == [] == Occurrences(NOTHING, StandardLines([], s))
  {
    CollectedAlike(NOTHING, Lines([], [COLON, CR, COLON, LF]));
    CollectedAlike(NOTHING, StandardLines([], [COLON, CR, COLON, LF]));
    var none: seq<byte> := [];
    var s: seq<byte> := [COLON, CR, COLON, LF];
    var s1: seq<byte>, s2: seq<byte>, s3: seq<byte> := [CR, COLON, LF], [COLON, LF], [LF];
    assert s[1..] == s1 && s1[1..] == s2 && s2[1..] == s3 && s3[1..] == none;
    assert none + [COLON] == [COLON];
    var code, standard := [[COLON, COLON]], [[COLON], [COLON]];
    assert Lines([COLON, COLON], s3) == [[COLON, COLON]] + Lines(none, none);
    assert [COLON] + [COLON] == [COLON, COLON];
    assert Lines([COLON], s2) == Lines([COLON, COLON], s3) == code;
    assert Lines(none, s) == Lines([COLON], s1) == Lines([COLON], s2);
    assert StandardLines([COLON], s3) == [[COLON]] + StandardLines(none, none);
    assert StandardLines(none, s2) == StandardLines([COLON], s3);
    assert StandardLines(none, s2) == [[COLON]];
    assert StandardLines([COLON], s1) == [[COLON]] + StandardLines(none, s2);
    assert StandardLines(none, s) == StandardLines([COLON], s1) == standard;
    OnlyComments(code);
    OnlyComments(standard);
  }

  /** Comments do nothing. */
  lemma {:induction false} OnlyComments(ls: seq<seq<byte>>)
    requires forall l <- ls :: l != [] && l[0] == COLON
    ensures Collected(NOTHING, ls) == []
    decreases |ls|
  {
    if ls != [] {
      assert ls[0] in ls && forall l <- ls[1..] :: l in ls;
      OnlyComments(ls[1..]);
    }
  }

  lemma OneBlock(line: seq<byte>)
    requires line == DATA + [COLON] + [120]
    ensures Collected(NOTHING, [line, []]) == [Occurrence([], MESSAGE, [120])]
  {
    DataLine([120]);
    FieldNames();
    var last: seq<seq<byte>> := [[]];
    assert [line, []][1..] == last && last[1..] == [];
    var d := ByField(NOTHING, line);
    assert d.data == [120, LF] && d.data[..1] == [120];
    assert Collected(d, last) == FiredBy(d) + [];
  }

  lemma OneSeen(r: Report)
    ensures Observed([r]) == Seen(r)
  {
    assert [r][1..] == [];
    assert Observed([r]) == Seen(r) + Observed([]);
  }
}
