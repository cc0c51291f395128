/**
 * What the server-sent events parser of src/http_sse.c does with one octet at a time, and what
 * that amounts to line by line and event by event (WHATWG HTML section 9.2.6, LF-terminated lines).
 */
module SseMachine {
  import opened Bytes

  const LF: byte := 10
  const CR: byte := 13
  const COLON: byte := 58
  const SPACE: byte := 32
  const MESSAGE: seq<byte> := [109, 101, 115, 115, 97, 103, 101]
  const EVENT: seq<byte> := [101, 118, 101, 110, 116]
  const DATA: seq<byte> := [100, 97, 116, 97]
  const ID: seq<byte> := [105, 100]
  const RETRY: seq<byte> := [114, 101, 116, 114, 121]

  /** One callback invocation: on_event or on_error. */
  datatype Report =
    | Dispatched(id: Option<seq<byte>>, event: seq<byte>, data: seq<byte>)
    | Failed(code: Status)

  /**
   * `line` and `data` are the filled parts of the two buffers. `overrun` records that the
   * terminator of the data was stored one past the end of its buffer.
   */
  datatype Machine = Machine(
    limit: nat, line: seq<byte>, lineCap: nat, event: seq<byte>, data: seq<byte>, dataCap: nat,
    id: Option<seq<byte>>, retry: int, overrun: bool)

  datatype Outcome = Outcome(m: Machine, out: seq<Report>, rc: Status)

  /** The line has room for its terminator; the data stays inside its buffer. */
  ghost predicate Wf(m: Machine) {
    |m.line| < m.lineCap && |m.data| <= m.dataCap && 0 < m.dataCap
  }

  function Initial(limit: nat, id: Option<seq<byte>>, retry: int): (m: Machine)
    ensures Wf(m)
  {
    Machine(limit, [], 1024, MESSAGE, [], 4096, id, if retry > 0 then retry else 3000, false)
  }

  function Quiet(m: Machine): Outcome {
    Outcome(m, [], Success)
  }

  // ---------- a line ----------

  /** The position of the first colon, or the length of the line. */
  function ColonAt(line: seq<byte>): (k: nat)
    ensures k <= |line|
    ensures forall i :: 0 <= i < k ==> line[i] != COLON
    ensures k < |line| ==> line[k] == COLON
  {
    if line == [] || line[0] == COLON then 0 else 1 + ColonAt(line[1..])
  }

  function Field(line: seq<byte>): seq<byte> {
    line[..ColonAt(line)]
  }

  /** What follows the colon, without one leading space; empty without a colon. */
  function Value(line: seq<byte>): seq<byte> {
    var k := ColonAt(line);
    if k == |line| then []
    else if k + 1 < |line| && line[k + 1] == SPACE then line[k + 2..]
    else line[k + 1..]
  }

  predicate Digit(c: byte) {
    48 <= c <= 57
  }

  function Digits(s: seq<byte>, acc: int): int
    decreases |s|
  {
    if s == [] || !Digit(s[0]) then acc else Digits(s[1..], 10 * acc + (s[0] - 48))
  }

  /** `atoi`, without its overflow: leading white space, a sign, digits. */
  function Atoi(s: seq<byte>): int
    decreases |s|
  {
    if s == [] then 0
    else if s[0] == SPACE || 9 <= s[0] <= 13 then Atoi(s[1..])
    else if s[0] == 45 then -Digits(s[1..], 0)
    else if s[0] == 43 then Digits(s[1..], 0)
    else Digits(s, 0)
  }

  /** A `data` line: the value and a line feed are appended; the terminator is stored behind them. */
  function AppendData(m: Machine, value: seq<byte>): (o: Outcome)
    requires Wf(m)
    ensures Wf(o.m) && o.m.line == m.line && o.m.lineCap == m.lineCap && o.m.limit == m.limit
  {
    var need := |m.data| + |value| + 1;
    if need > m.dataCap then
      var cap := Grow(2 * m.dataCap, need + 1);
      if cap > m.limit then Outcome(m, [Failed(TooBig)], TooBig)
      else Quiet(m.(data := m.data + value + [LF], dataCap := cap))
    else
      Quiet(m.(data := m.data + value + [LF], overrun := m.overrun || need == m.dataCap))
  }

  /** An empty line: dispatch, if there is data, and reset for the next event. */
  function Dispatch(m: Machine): (o: Outcome)
    requires Wf(m)
    ensures Wf(o.m) && o.m.line == m.line && o.m.lineCap == m.lineCap && o.m.limit == m.limit
  {
    Outcome(m.(event := MESSAGE, data := []),
            if m.data == [] then [] else [Dispatched(m.id, m.event, m.data[..|m.data| - 1])], Success)
  }

  function ProcessLine(m: Machine, line: seq<byte>): (o: Outcome)
    requires Wf(m)
    ensures Wf(o.m) && o.m.line == m.line && o.m.lineCap == m.lineCap && o.m.limit == m.limit
  {
    if line == [] then Dispatch(m)
    else if line[0] == COLON then Quiet(m)
    else if Field(line) == EVENT then Quiet(m.(event := Value(line)))
    else if Field(line) == DATA then AppendData(m, Value(line))
    else if Field(line) == ID then Quiet(m.(id := Some(Value(line))))
    else if Field(line) == RETRY then Quiet(m.(retry := Atoi(Value(line)[..Min(|Value(line)|, 31)])))
    else Quiet(m)
  }

  // ---------- octets ----------

  function StepByte(m: Machine, c: byte): (o: Outcome)
    requires Wf(m)
    ensures Wf(o.m)
  {
    if c == CR then Quiet(m)
    else if c == LF then
      var o := ProcessLine(m, m.line);
      if o.rc != Success then o else o.(m := o.m.(line := []))
    else if |m.line| + 1 >= m.lineCap then
      if 2 * m.lineCap > m.limit then Outcome(m, [Failed(NoMemory)], NoMemory)
      else Quiet(m.(lineCap := 2 * m.lineCap, line := m.line + [c]))
    else Quiet(m.(line := m.line + [c]))
  }

  function Prepend(out: seq<Report>, o: Outcome): Outcome {
    o.(out := out + o.out)
  }

  /** Feeds octets until the first error. */
  function Run(m: Machine, bytes: seq<byte>): (o: Outcome)
    requires Wf(m)
    ensures Wf(o.m)
    decreases |bytes|
  {
    if bytes == [] then Quiet(m)
    else
      var o := StepByte(m, bytes[0]);
      if o.rc != Success then o else Prepend(o.out, Run(o.m, bytes[1..]))
  }

  function RunChunks(m: Machine, chunks: seq<seq<byte>>): (o: Outcome)
    requires Wf(m)
    ensures Wf(o.m)
    decreases |chunks|
  {
    if chunks == [] then Quiet(m)
    else
      var o := Run(m, chunks[0]);
      if o.rc != Success then o else Prepend(o.out, RunChunks(o.m, chunks[1..]))
  }

  /** Feeding `a` and then `b` is feeding `a + b`. */
  lemma {:induction false} RunConcat(m: Machine, a: seq<byte>, b: seq<byte>)
    requires Wf(m)
    ensures var o := Run(m, a);
            Run(m, a + b) == if o.rc != Success then o else Prepend(o.out, Run(o.m, b))
    decreases |a|
  {
    if a == [] {
      assert a + b == b;
    } else {
      var o := StepByte(m, a[0]);
      assert (a + b)[1..] == a[1..] + b;
      if o.rc == Success {
        RunConcat(o.m, a[1..], b);
        var r := Run(o.m, a[1..]);
        assert o.out + (r.out + Run(r.m, b).out) == (o.out + r.out) + Run(r.m, b).out;
      }
    }
  }

  /** Chunking independence. */
  lemma {:induction false} ChunkingIndependence(m: Machine, chunks: seq<seq<byte>>)
    requires Wf(m)
    ensures RunChunks(m, chunks) == Run(m, Flatten(chunks))
    decreases |chunks|
  {
    if chunks != [] {
      RunConcat(m, chunks[0], Flatten(chunks[1..]));
      var o := Run(m, chunks[0]);
      if o.rc == Success {
        ChunkingIndependence(o.m, chunks[1..]);
      }
    }
  }

  /**
   * Having reported `out`, the machine `m` with `rest` still to read leads to `goal`; the
   * quantifier keeps the definition of `Run` out of the parser's loop.
   */
  ghost predicate Leads(goal: Outcome, out: seq<Report>, m: Machine, rest: seq<byte>)
    requires Wf(m)
  {
    forall bytes: seq<byte> {:trigger Opened(bytes)} ::
      Opened(bytes) && bytes == rest ==> goal == Prepend(out, Run(m, bytes))
  }

  lemma LeadsStart(m: Machine, bytes: seq<byte>)
    requires Wf(m)
    ensures Leads(Run(m, bytes), [], m, bytes)
  {
  }

  lemma LeadsStep(goal: Outcome, out: seq<Report>, m: Machine, rest: seq<byte>)
    requires Wf(m) && rest != [] && Leads(goal, out, m, rest)
    ensures var o := StepByte(m, rest[0]);
            if o.rc != Success then goal == Prepend(out, o) else Leads(goal, out + o.out, o.m, rest[1..])
  {
    assert Opened(rest);
    var o := StepByte(m, rest[0]);
    if o.rc == Success {
      PrependTwice(out, o.out, Run(o.m, rest[1..]));
    }
  }

  lemma PrependTwice(a: seq<Report>, b: seq<Report>, o: Outcome)
    ensures Prepend(a, Prepend(b, o)) == Prepend(a + b, o)
  {
    assert a + (b + o.out) == (a + b) + o.out;
  }

  lemma LeadsEnd(goal: Outcome, out: seq<Report>, m: Machine)
    requires Wf(m) && Leads(goal, out, m, [])
    ensures goal == Outcome(m, out, Success)
  {
    var none: seq<byte> := [];
    assert Opened(none);
  }

  lemma {:induction false} ColonBehind(name: seq<byte>, value: seq<byte>)
    requires COLON !in name
    ensures ColonAt(name + [COLON] + value) == |name|
  {
    var line := name + [COLON] + value;
    if name != [] {
      assert line[0] == name[0] && line[1..] == name[1..] + [COLON] + value;
      assert name[0] in name && forall c <- name[1..] :: c in name;
      ColonBehind(name[1..], value);
    }
  }

  /** A line made of a field name and a value is read as that. */
  lemma FieldLine(name: seq<byte>, value: seq<byte>)
    requires COLON !in name && (value == [] || value[0] != SPACE)
    ensures var line := name + [COLON] + value;
            Field(line) == name && Value(line) == value
  {
    var line := name + [COLON] + value;
    ColonBehind(name, value);
    assert line[..|name|] == name && line[|name| + 1..] == value;
  }

  lemma DataLine(value: seq<byte>)
    requires value == [] || value[0] != SPACE
    ensures var line := DATA + [COLON] + value;
            Field(line) == DATA && Value(line) == value
  {
    FieldLine(DATA, value);
  }

  /**
   * A line that spells a field: the name without a colon, a colon, at most one space that is not part
   * of the value, and the value; or the name alone, with an empty value.
   */
  ghost predicate Spells(line: seq<byte>, name: seq<byte>, value: seq<byte>) {
    && COLON !in name
    && (|| line == name + [COLON, SPACE] + value
        || (line == name + [COLON] + value && (value == [] || value[0] != SPACE))
        || (line == name && value == []))
  }

  lemma {:induction false} NoColon(name: seq<byte>)
    requires COLON !in name
    ensures ColonAt(name) == |name|
  {
    if name != [] {
      assert name[0] in name && forall c <- name[1..] :: c in name;
      NoColon(name[1..]);
    }
  }

  lemma SpelledIsRead(line: seq<byte>, name: seq<byte>, value: seq<byte>)
    requires Spells(line, name, value)
    ensures Field(line) == name && Value(line) == value
  {
    if line == name + [COLON, SPACE] + value {
      var rest := [SPACE] + value;
      assert line == name + [COLON] + rest;
      ColonBehind(name, rest);
      assert line[..|name|] == name && line[|name| + 1] == SPACE && line[|name| + 2..] == value;
    } else if line == name {
      NoColon(name);
    } else {
      FieldLine(name, value);
    }
  }

  /** Every line spells exactly one field and value, and these are what the code reads. */
  lemma FieldExactly(line: seq<byte>, name: seq<byte>, value: seq<byte>)
    ensures Spells(line, name, value) <==> Field(line) == name && Value(line) == value
  {
    if Spells(line, name, value) {
      SpelledIsRead(line, name, value);
    }
    if Field(line) == name && Value(line) == value {
      var k := ColonAt(line);
      assert COLON !in line[..k];
      if k + 1 < |line| && line[k + 1] == SPACE {
        assert line == line[..k] + [COLON, SPACE] + line[k + 2..];
      } else if k < |line| {
        assert line == line[..k] + [COLON] + line[k + 1..];
      }
    }
  }

  // ---------- line by line ----------

  /** The complete lines of `s` behind a partial line `cur`: split at LF, CR dropped. */
  function Lines(cur: seq<byte>, s: seq<byte>): seq<seq<byte>>
    decreases |s|
  {
    if s == [] then []
    else if s[0] == CR then Lines(cur, s[1..])
    else if s[0] == LF then [cur] + Lines([], s[1..])
    else Lines(cur + [s[0]], s[1..])
  }

  /** The line left over. */
  function Tail(cur: seq<byte>, s: seq<byte>): seq<byte>
    decreases |s|
  {
    if s == [] then cur
    else if s[0] == CR then Tail(cur, s[1..])
    else if s[0] == LF then Tail([], s[1..])
    else Tail(cur + [s[0]], s[1..])
  }

  function RunLines(m: Machine, ls: seq<seq<byte>>): (o: Outcome)
    requires Wf(m)
    ensures Wf(o.m)
    decreases |ls|
  {
    if ls == [] then Quiet(m)
    else
      var o := ProcessLine(m, ls[0]);
      if o.rc != Success then o else Prepend(o.out, RunLines(o.m, ls[1..]))
  }

  /** A line of `n` octets can be stored, doubling the buffer within the limit. */
  predicate LineFits(cap: nat, limit: nat, n: nat)
    requires cap > 0
    decreases n - cap
  {
    n < cap || (2 * cap <= limit && LineFits(2 * cap, limit, n))
  }

  lemma {:induction false} ShorterFits(cap: nat, limit: nat, n: nat, k: nat)
    requires cap > 0 && k <= n && LineFits(cap, limit, n)
    ensures LineFits(cap, limit, k)
    decreases n - cap
  {
    if n >= cap {
      ShorterFits(2 * cap, limit, n, k);
    }
  }

  ghost predicate AllFit(cap: nat, limit: nat, cur: seq<byte>, s: seq<byte>)
    requires cap > 0
  {
    (forall l <- Lines(cur, s) :: LineFits(cap, limit, |l|)) && LineFits(cap, limit, |Tail(cur, s)|)
  }

  /** The line under construction is at least as long as what is there of it. */
  lemma {:induction false} CurrentFits(cap: nat, limit: nat, cur: seq<byte>, s: seq<byte>)
    requires cap > 0 && AllFit(cap, limit, cur, s)
    ensures LineFits(cap, limit, |cur|)
    decreases |s|
  {
    if s != [] {
      if s[0] == CR {
        CurrentFits(cap, limit, cur, s[1..]);
      } else if s[0] == LF {
        assert Lines(cur, s)[0] == cur;
      } else {
        CurrentFits(cap, limit, cur + [s[0]], s[1..]);
        ShorterFits(cap, limit, |cur| + 1, |cur|);
      }
    }
  }

  lemma GrownFits(cap: nat, limit: nat, cur: seq<byte>, s: seq<byte>)
    requires cap > 0 && AllFit(cap, limit, cur, s) && 2 * cap <= limit
    ensures AllFit(2 * cap, limit, cur, s)
  {
  }

  /** The octets of lines, each with a line feed. */
  function Octets(ls: seq<seq<byte>>): seq<byte> {
    if ls == [] then [] else ls[0] + [LF] + Octets(ls[1..])
  }

  predicate Plain(line: seq<byte>) {
    LF !in line && CR !in line
  }

  lemma {:induction false} LineSplit(cur: seq<byte>, line: seq<byte>, rest: seq<byte>)
    requires Plain(line)
    ensures Lines(cur, line + [LF] + rest) == [cur + line] + Lines([], rest)
    ensures Tail(cur, line + [LF] + rest) == Tail([], rest)
    decreases |line|
  {
    var s := line + [LF] + rest;
    if line == [] {
      assert s[1..] == rest && cur + line == cur;
    } else {
      assert s[1..] == line[1..] + [LF] + rest;
      assert line[0] in line && forall c <- line[1..] :: c in line;
      LineSplit(cur + [line[0]], line[1..], rest);
      assert cur + [line[0]] + line[1..] == cur + line;
    }
  }

  lemma {:induction false} OctetsSplit(ls: seq<seq<byte>>)
    requires forall l <- ls :: Plain(l)
    ensures Lines([], Octets(ls)) == ls && Tail([], Octets(ls)) == []
  {
    if ls != [] {
      OctetsSplit(ls[1..]);
      LineSplit([], ls[0], Octets(ls[1..]));
      assert [] + ls[0] == ls[0];
    }
  }

  /** Two machines that differ in the line buffer only. */
  ghost predicate Alike(a: Machine, b: Machine) {
    a.(line := [], lineCap := 0) == b.(line := [], lineCap := 0)
  }

  /** `b` with the line buffer of `a`. */
  function WithLine(b: Machine, a: Machine): Machine {
    b.(line := a.line, lineCap := a.lineCap)
  }

  lemma AppendAlike(a: Machine, b: Machine, value: seq<byte>)
    requires Wf(a) && Wf(b) && a == WithLine(b, a)
    ensures var o, q := AppendData(a, value), AppendData(b, value);
            o.m == WithLine(q.m, a) && o.out == q.out && o.rc == q.rc
  {
  }

  lemma ProcessAlike(a: Machine, b: Machine, line: seq<byte>)
    requires Wf(a) && Wf(b) && Alike(a, b)
    ensures var o, q := ProcessLine(a, line), ProcessLine(b, line);
            Alike(o.m, q.m) && o.out == q.out && o.rc == q.rc
  {
    assert a == WithLine(b, a);
    AppendAlike(a, b, Value(line));
  }

  /**
   * Refinement: as long as the lines fit, feeding octets is processing the lines they consist of,
   * in order and up to the first error, with the last unterminated line left in the buffer.
   */
  lemma {:induction false} LineRefinement(m: Machine, b: Machine, s: seq<byte>)
    requires Wf(m) && Wf(b) && Alike(m, b) && AllFit(m.lineCap, m.limit, m.line, s)
    ensures var o, q := Run(m, s), RunLines(b, Lines(m.line, s));
            && o.out == q.out && o.rc == q.rc && Alike(o.m, q.m)
            && (o.rc == Success ==> o.m.line == Tail(m.line, s))
    decreases |s|
  {
    if s != [] {
      var c, more := s[0], s[1..];
      if c == CR {
        LineRefinement(m, b, more);
        assert Prepend([], Run(m, more)) == Run(m, more);
      } else if c == LF {
        NextLineFits(m.lineCap, m.limit, m.line, s);
        EndLine(m, b);
        if StepByte(m, c).rc == Success {
          LineRefinement(StepByte(m, c).m, ProcessLine(b, m.line).m, more);
        }
      } else {
        StoreOctet(m, b, c, more);
        LineRefinement(StepByte(m, c).m, b, more);
        var r := Run(StepByte(m, c).m, more);
        assert Prepend([], r) == r;
      }
    }
  }

  lemma NextLineFits(cap: nat, limit: nat, cur: seq<byte>, s: seq<byte>)
    requires cap > 0 && s != [] && s[0] == LF && AllFit(cap, limit, cur, s)
    ensures AllFit(cap, limit, [], s[1..])
    ensures Lines(cur, s) == [cur] + Lines([], s[1..])
    ensures ([cur] + Lines([], s[1..]))[1..] == Lines([], s[1..])
  {
    assert forall l <- Lines([], s[1..]) :: l in Lines(cur, s);
  }

  lemma EndLine(m: Machine, b: Machine)
    requires Wf(m) && Wf(b) && Alike(m, b)
    ensures var o, q := StepByte(m, LF), ProcessLine(b, m.line);
            && o.out == q.out && o.rc == q.rc && Alike(o.m, q.m)
            && (o.rc == Success ==> o.m.line == [] && o.m.lineCap == m.lineCap && o.m.limit == m.limit)
  {
    ProcessAlike(m, b, m.line);
  }

  lemma StoreOctet(m: Machine, b: Machine, c: byte, more: seq<byte>)
    requires Wf(m) && Alike(m, b) && c != CR && c != LF && AllFit(m.lineCap, m.limit, m.line, [c] + more)
    ensures var o := StepByte(m, c);
            && o.rc == Success && o.out == [] && o.m.line == m.line + [c] && Alike(o.m, b)
            && AllFit(o.m.lineCap, o.m.limit, o.m.line, more)
  {
    assert ([c] + more)[1..] == more;
    assert AllFit(m.lineCap, m.limit, m.line + [c], more);
    CurrentFits(m.lineCap, m.limit, m.line + [c], more);
    if |m.line| + 1 >= m.lineCap {
      GrownFits(m.lineCap, m.limit, m.line + [c], more);
    }
  }

  /** The limit on one line is exact: its octets are stored if and only if it fits. */
  lemma {:induction false} LineLimit(m: Machine, s: seq<byte>)
    requires Wf(m) && LF !in s && CR !in s
    ensures Run(m, s).rc == if LineFits(m.lineCap, m.limit, |m.line| + |s|) then Success else NoMemory
    decreases |s|
  {
    if s != [] {
      var o := StepByte(m, s[0]);
      if |m.line| + 1 < m.lineCap {
        LineLimit(o.m, s[1..]);
      } else if 2 * m.lineCap <= m.limit {
        LineLimit(o.m, s[1..]);
      }
    }
  }

  /** How many octets are read before the first error. */
  function Read(m: Machine, s: seq<byte>): (r: nat)
    requires Wf(m)
    ensures r <= |s|
    decreases |s|
  {
    if s == [] || StepByte(m, s[0]).rc != Success then 0 else 1 + Read(StepByte(m, s[0]).m, s[1..])
  }

  lemma FailedStep(m: Machine, c: byte)
    requires Wf(m) && StepByte(m, c).rc != Success
    ensures StepByte(m, c) == Outcome(m, [Failed(StepByte(m, c).rc)], StepByte(m, c).rc)
  {
  }

  /** An error is reported once and changes nothing: the state is that of the octets read before it. */
  lemma {:induction false} ReadPrefix(m: Machine, s: seq<byte>)
    requires Wf(m)
    ensures var o, q := Run(m, s), Run(m, s[..Read(m, s)]);
            && q.rc == Success && o.m == q.m
            && o.out == q.out + (if o.rc == Success then [] else [Failed(o.rc)])
            && (o.rc == Success <==> Read(m, s) == |s|)
    decreases |s|
  {
    if s == [] {
      assert s[..0] == s;
    } else {
      var o := StepByte(m, s[0]);
      if o.rc != Success {
        FailedStep(m, s[0]);
      } else {
        var r := Read(o.m, s[1..]);
        ReadPrefix(o.m, s[1..]);
        assert s[..1 + r][1..] == s[1..][..r];
        var q := Run(o.m, s[1..][..r]);
        assert o.out + (q.out + []) == (o.out + q.out) + [];
        Regroup(o.out, q.out, [Failed(Run(o.m, s[1..]).rc)]);
      }
    }
  }

  /** Octets that are read without error consist of lines that fit. */
  lemma {:induction false} ReadFits(m: Machine, s: seq<byte>)
    requires Wf(m) && Run(m, s).rc == Success
    ensures AllFit(m.lineCap, m.limit, m.line, s)
    decreases |s|
  {
    if s != [] {
      var o := StepByte(m, s[0]);
      ReadFits(o.m, s[1..]);
      if s[0] == LF {
        assert Lines(m.line, s) == [m.line] + Lines([], s[1..]);
      }
    }
  }

  /** So a run that succeeds is a run over its lines. */
  lemma RunIsLines(m: Machine, s: seq<byte>)
    requires Wf(m) && m.line == [] && Run(m, s).rc == Success
    ensures var o, q := Run(m, s), RunLines(m, Lines([], s));
            o.out == q.out && q.rc == Success && Alike(o.m, q.m)
  {
    ReadFits(m, s);
    LineRefinement(m, m, s);
  }

  // ---------- event by event ----------

  predicate HasField(line: seq<byte>, name: seq<byte>) {
    line != [] && line[0] != COLON && Field(line) == name
  }

  /** The values of the lines with a given field name, in order. */
  function Values(ls: seq<seq<byte>>, name: seq<byte>): seq<seq<byte>> {
    if ls == [] then []
    else (if HasField(ls[0], name) then [Value(ls[0])] else []) + Values(ls[1..], name)
  }

  function LastOr(vs: seq<seq<byte>>, default: seq<byte>): seq<byte> {
    if vs == [] then default else vs[|vs| - 1]
  }

  function LastIdOr(vs: seq<seq<byte>>, default: Option<seq<byte>>): Option<seq<byte>> {
    if vs == [] then default else Some(vs[|vs| - 1])
  }

  /** The values joined by line feeds. */
  function Joined(vs: seq<seq<byte>>): seq<byte>
    requires vs != []
  {
    if |vs| == 1 then vs[0] else vs[0] + [LF] + Joined(vs[1..])
  }

  /** Every value with a line feed behind it. */
  function Terminated(vs: seq<seq<byte>>): seq<byte> {
    if vs == [] then [] else vs[0] + [LF] + Terminated(vs[1..])
  }

  lemma {:induction false} TerminatedIsJoined(vs: seq<seq<byte>>)
    requires vs != []
    ensures Terminated(vs) == Joined(vs) + [LF]
  {
    if |vs| == 1 {
      assert Terminated(vs) == vs[0] + [LF] + Terminated([]);
    } else {
      TerminatedIsJoined(vs[1..]);
    }
  }

  /** What non-empty lines leave behind: accumulated values, or a data size error. */
  ghost predicate Accumulated(m: Machine, ls: seq<seq<byte>>, o: Outcome) {
    && (o.rc == Success ==>
          && o.out == []
          && o.m.data == m.data + Terminated(Values(ls, DATA))
          && o.m.event == LastOr(Values(ls, EVENT), m.event)
          && o.m.id == LastIdOr(Values(ls, ID), m.id))
    && (o.rc != Success ==> o.rc == TooBig && o.out == [Failed(TooBig)])
  }

  lemma {:induction false} Accumulate(m: Machine, ls: seq<seq<byte>>)
    requires Wf(m) && [] !in ls
    ensures Accumulated(m, ls, RunLines(m, ls))
    decreases |ls|
  {
    if ls == [] {
      assert m.data + [] == m.data;
    } else {
      var line, more := ls[0], ls[1..];
      assert line != [] && ls == [line] + more;
      var o := ProcessLine(m, line);
      LineEffect(m, line);
      if o.rc == Success {
        Accumulate(o.m, more);
        AccumulateFirst(m, line, more, o.m, RunLines(o.m, more));
      }
    }
  }

  lemma AccumulateFirst(m: Machine, line: seq<byte>, more: seq<seq<byte>>, m1: Machine, o: Outcome)
    requires m1.data == m.data + (if HasField(line, DATA) then Value(line) + [LF] else [])
    requires m1.event == (if HasField(line, EVENT) then Value(line) else m.event)
    requires m1.id == (if HasField(line, ID) then Some(Value(line)) else m.id)
    requires Accumulated(m1, more, o)
    ensures Accumulated(m, [line] + more, Prepend([], o))
  {
    ValuesFirst(line, more, EVENT);
    ValuesFirst(line, more, ID);
    LastFirst(Value(line), Values(more, EVENT), m.event);
    LastIdFirst(Value(line), Values(more, ID), m.id);
    DataFirst(m.data, line, more);
  }

  lemma LastFirst(v: seq<byte>, vs: seq<seq<byte>>, default: seq<byte>)
    ensures LastOr([v] + vs, default) == LastOr(vs, v)
  {
  }

  lemma LastIdFirst(v: seq<byte>, vs: seq<seq<byte>>, default: Option<seq<byte>>)
    ensures LastIdOr([v] + vs, default) == LastIdOr(vs, Some(v))
  {
  }

  lemma ValuesFirst(line: seq<byte>, more: seq<seq<byte>>, name: seq<byte>)
    ensures Values([line] + more, name) ==
            if HasField(line, name) then [Value(line)] + Values(more, name) else Values(more, name)
  {
    assert ([line] + more)[1..] == more;
  }

  lemma DataFirst(data: seq<byte>, line: seq<byte>, more: seq<seq<byte>>)
    ensures (data + (if HasField(line, DATA) then Value(line) + [LF] else [])) + Terminated(Values(more, DATA)) ==
            data + Terminated(Values([line] + more, DATA))
  {
    ValuesFirst(line, more, DATA);
    if HasField(line, DATA) {
      TerminatedFirst(data, Value(line), Values(more, DATA));
    } else {
      assert data + [] == data;
    }
  }

  lemma TerminatedFirst(data: seq<byte>, v: seq<byte>, vs: seq<seq<byte>>)
    ensures (data + (v + [LF])) + Terminated(vs) == data + Terminated([v] + vs)
  {
    assert ([v] + vs)[1..] == vs;
    Regroup(data, v + [LF], Terminated(vs));
  }

  lemma LineEffect(m: Machine, line: seq<byte>)
    requires Wf(m) && line != []
    ensures var o := ProcessLine(m, line);
            o.rc != Success ==> o.rc == TooBig && o.out == [Failed(TooBig)]
    ensures var o := ProcessLine(m, line);
            o.rc == Success ==>
            && o.out == []
            && o.m.data == m.data + (if HasField(line, DATA) then Value(line) + [LF] else [])
            && o.m.event == (if HasField(line, EVENT) then Value(line) else m.event)
            && o.m.id == (if HasField(line, ID) then Some(Value(line)) else m.id)
  {
    FieldNames();
  }

  lemma FieldNames()
    ensures EVENT != DATA && EVENT != ID && DATA != ID && RETRY != DATA
  {
    assert EVENT[0] != DATA[0] && EVENT[0] != ID[0] && DATA[0] != ID[0] && RETRY[0] != DATA[0];
  }

  /** A block of lines and the empty line behind it. */
  function Block(ls: seq<seq<byte>>): seq<seq<byte>> {
    ls + [[]]
  }

  /**
   * One event: the data is the `data` values since the last empty line joined by line feeds, the
   * type is the last `event` value, and the id persists; without data nothing is dispatched.
   */
  lemma EventDispatched(m: Machine, ls: seq<seq<byte>>)
    requires Wf(m) && m.data == [] && m.event == MESSAGE && [] !in ls
    ensures var o, data := RunLines(m, Block(ls)), Values(ls, DATA);
            && (o.rc == Success ==>
                  && o.out == (if data == [] then [] else
                       [Dispatched(LastIdOr(Values(ls, ID), m.id), LastOr(Values(ls, EVENT), MESSAGE), Joined(data))])
                  && o.m.data == [] && o.m.event == MESSAGE && o.m.id == LastIdOr(Values(ls, ID), m.id))
            && (o.rc != Success ==> o.rc == TooBig && o.out == [Failed(TooBig)])
  {
    Accumulate(m, ls);
    LinesConcat(m, ls, [[]]);
    var o, data := RunLines(m, ls), Values(ls, DATA);
    if o.rc == Success {
      assert m.data + Terminated(data) == Terminated(data);
      if data != [] {
        TerminatedIsJoined(data);
      }
      assert RunLines(Dispatch(o.m).m, [[]][1..]) == Quiet(Dispatch(o.m).m);
    }
  }

  lemma {:induction false} LinesConcat(m: Machine, a: seq<seq<byte>>, b: seq<seq<byte>>)
    requires Wf(m)
    ensures var o := RunLines(m, a);
            RunLines(m, a + b) == if o.rc != Success then o else Prepend(o.out, RunLines(o.m, b))
    decreases |a|
  {
    if a == [] {
      assert a + b == b;
    } else {
      var o := ProcessLine(m, a[0]);
      assert (a + b)[1..] == a[1..] + b;
      if o.rc == Success {
        LinesConcat(o.m, a[1..], b);
        var r := RunLines(o.m, a[1..]);
        assert o.out + (r.out + RunLines(r.m, b).out) == (o.out + r.out) + RunLines(r.m, b).out;
      }
    }
  }

  /** The lines of a stream of events: blocks, each with an empty line behind it. */
  function StreamLines(blocks: seq<seq<seq<byte>>>): seq<seq<byte>> {
    if blocks == [] then [] else Block(blocks[0]) + StreamLines(blocks[1..])
  }

  /** What a stream dispatches, the id carried from block to block. */
  function StreamEvents(blocks: seq<seq<seq<byte>>>, id: Option<seq<byte>>): seq<Report>
    decreases |blocks|
  {
    if blocks == [] then []
    else
      var ls := blocks[0];
      var next := LastIdOr(Values(ls, ID), id);
      (if Values(ls, DATA) == [] then [] else
         [Dispatched(next, LastOr(Values(ls, EVENT), MESSAGE), Joined(Values(ls, DATA)))]) +
      StreamEvents(blocks[1..], next)
  }

  /** Whole streams: unless an event's data is refused for its size, exactly the stream's events come out. */
  lemma {:induction false} StreamDispatched(m: Machine, blocks: seq<seq<seq<byte>>>)
    requires Wf(m) && m.data == [] && m.event == MESSAGE && forall ls <- blocks :: [] !in ls
    ensures var o := RunLines(m, StreamLines(blocks));
            (o.rc == Success ==> o.out == StreamEvents(blocks, m.id)) && (o.rc == Success || o.rc == TooBig)
    decreases |blocks|
  {
    if blocks != [] {
      var ls, more := blocks[0], blocks[1..];
      EventDispatched(m, ls);
      LinesConcat(m, Block(ls), StreamLines(more));
      var o := RunLines(m, Block(ls));
      if o.rc == Success {
        StreamDispatched(o.m, more);
      }
    }
  }

  // ---------- one event ----------

  /** The data value finds room, in the first buffer or by doubling. */
  predicate DataFits(limit: nat, n: nat) {
    n + 1 <= 4096 || Grow(8192, n + 2) <= limit
  }

  lemma OneBlockLines(limit: nat, id: Option<seq<byte>>, retry: int, line: seq<byte>, value: seq<byte>)
    requires Spells(line, DATA, value) && DataFits(limit, |value|)
    ensures var o := RunLines(Initial(limit, id, retry), [line, []]);
            o.rc == Success && o.out == [Dispatched(id, MESSAGE, value)]
  {
    var m := Initial(limit, id, retry);
    var none: seq<byte> := [];
    var last: seq<seq<byte>> := [none];
    SpelledIsRead(line, DATA, value);
    FieldNames();
    assert line[0] == DATA[0];
    var o := AppendData(m, value);
    assert ProcessLine(m, line) == o && o.rc == Success && o.out == [];
    assert o.m.data == value + [LF] && o.m.data[..|value|] == value;
    assert [line, none][1..] == last && last[1..] == [];
    assert RunLines(o.m, last).out == [Dispatched(id, MESSAGE, value)];
  }

  /** A line that spells a data value, and an empty line: the value is dispatched. */
  lemma OneEvent(limit: nat, id: Option<seq<byte>>, retry: int, line: seq<byte>, value: seq<byte>)
    requires Spells(line, DATA, value) && Plain(line)
    requires LineFits(1024, limit, |line|) && DataFits(limit, |value|)
    ensures var o := Run(Initial(limit, id, retry), line + [LF, LF]);
            o.rc == Success && o.out == [Dispatched(id, MESSAGE, value)]
  {
    var m := Initial(limit, id, retry);
    var none: seq<byte> := [];
    var ls := [line, none];
    OctetsSplit(ls);
    assert ls[1..] == [none] && [none][1..] == [];
    assert Octets([none]) == none + [LF] + Octets([]);
    assert Octets(ls) == line + [LF] + Octets([none]);
    assert Octets(ls) == line + [LF, LF];
    assert AllFit(m.lineCap, m.limit, m.line, Octets(ls));
    LineRefinement(m, m, Octets(ls));
    OneBlockLines(limit, id, retry, line, value);
  }

  /** With one space behind the colon, as streams have it: the space is not part of the value. */
  lemma SpacedEvent(limit: nat, id: Option<seq<byte>>, retry: int, value: seq<byte>)
    requires Plain(value) && LineFits(1024, limit, |value| + 6) && DataFits(limit, |value|)
    ensures var o := Run(Initial(limit, id, retry), Ascii("data: ") + value + Ascii("\n\n"));
            o.rc == Success && o.out == [Dispatched(id, Ascii("message"), value)]
  {
    var line := DATA + [COLON, SPACE] + value;
    assert Ascii("data: ") == DATA + [COLON, SPACE] && Ascii("\n\n") == [LF, LF] && Ascii("message") == MESSAGE;
    OneEvent(limit, id, retry, line, value);
  }

  // ---------- the reconnection time ----------

  function Decimal(n: nat): (s: seq<byte>)
    ensures s != []
  {
    (if n < 10 then [] else Decimal(n / 10)) + ['0' as int + n % 10]
  }

  lemma {:induction false} DigitsConcat(a: seq<byte>, b: seq<byte>, acc: int)
    requires forall c <- a :: '0' as int <= c <= '9' as int
    ensures Digits(a + b, acc) == Digits(b, Digits(a, acc))
    decreases |a|
  {
    if a == [] {
      assert a + b == b;
    } else {
      assert (a + b)[0] == a[0] && (a + b)[1..] == a[1..] + b;
      assert a[0] in a && forall c <- a[1..] :: c in a;
      DigitsConcat(a[1..], b, 10 * acc + (a[0] - 48));
    }
  }

  lemma {:induction false} DecimalDigits(n: nat, rest: seq<byte>)
    requires rest == [] || !('0' as int <= rest[0] <= '9' as int)
    ensures Digits(Decimal(n) + rest, 0) == n && forall c <- Decimal(n) :: '0' as int <= c <= '9' as int
  {
    var last: seq<byte> := ['0' as int + n % 10];
    LastDigit(if n < 10 then 0 else n / 10, n % 10, rest);
    if n >= 10 {
      var front := Decimal(n / 10);
      DecimalDigits(n / 10, []);
      assert front + [] == front;
      DigitsConcat(front, last + rest, 0);
      Regroup(front, last, rest);
    } else {
      assert Decimal(n) == last;
    }
  }

  lemma LastDigit(acc: nat, digit: nat, rest: seq<byte>)
    requires digit < 10 && (rest == [] || !('0' as int <= rest[0] <= '9' as int))
    ensures Digits(['0' as int + digit] + rest, acc) == 10 * acc + digit
  {
    var s: seq<byte> := ['0' as int + digit] + rest;
    assert s[1..] == rest;
  }

  /** Spaces, a sign, decimal digits, anything else: the number is read, up to what is no digit. */
  lemma AtoiReads(n: nat, spaces: nat, rest: seq<byte>)
    requires rest == [] || !('0' as int <= rest[0] <= '9' as int)
    ensures var s := Decimal(n) + rest;
            && Atoi(seq(spaces, _ => ' ' as int) + s) == n
            && Atoi(seq(spaces, _ => ' ' as int) + (['-' as int] + s)) == -(n as int)
            && Atoi(seq(spaces, _ => ' ' as int) + (['+' as int] + s)) == n
  {
    var s := Decimal(n) + rest;
    DecimalDigits(n, rest);
    assert s[0] == Decimal(n)[0] && Decimal(n)[0] in Decimal(n);
    assert (['-' as int] + s)[1..] == s && (['+' as int] + s)[1..] == s;
    SpacesSkipped(s, spaces);
    SpacesSkipped(['-' as int] + s, spaces);
    SpacesSkipped(['+' as int] + s, spaces);
  }

  lemma {:induction false} SpacesSkipped(s: seq<byte>, spaces: nat)
    ensures Atoi(seq(spaces, _ => ' ' as int) + s) == Atoi(s)
  {
    var sp: seq<byte> := seq(spaces, _ => ' ' as int);
    if spaces == 0 {
      assert sp + s == s;
    } else {
      var less: seq<byte> := seq(spaces - 1, _ => ' ' as int);
      SpacesSkipped(s, spaces - 1);
      assert (sp + s)[1..] == less + s;
    }
  }
}
