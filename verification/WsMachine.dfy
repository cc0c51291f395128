/**
 * What the WebSocket frame parser of src/http_ws.c does with one octet at a time:
 * the reference against which the chunk-copying parser is proved.
 */
module WsMachine {
  import opened Bytes
  import opened WsFrame

  datatype Phase = ReadOpcode | ReadLen | ReadExt16 | ReadExt64 | ReadMask | ReadPayload

  /** One callback invocation: on_message, on_close or on_error. */
  datatype Event =
    | Message(opcode: nat, payload: seq<byte>, fin: bool)
    | Closed(status: nat)
    | Failed(code: Status)

  /** The reassembly buffer: its used part and its capacity. */
  datatype Assembly = Assembly(data: seq<byte>, cap: nat)

  /**
   * The parser's state. `key`, `ext` and `payload` are the filled parts of the buffers,
   * so their lengths are the offsets of the same names.
   */
  datatype Machine = Machine(
    limit: nat, phase: Phase, fin: bool, opcode: nat, masked: bool, payloadLen: nat,
    key: seq<byte>, ext: seq<byte>, payload: seq<byte>, payloadCap: nat, assembly: Assembly)

  datatype Outcome = Outcome(m: Machine, out: seq<Event>, rc: Status)

  /** Every offset stands inside its buffer, and the mask is complete before payload is read. */
  ghost predicate Wf(m: Machine) {
    && m.opcode < 16
    && |m.key| <= 4 && |m.ext| <= 8
    && |m.payload| <= m.payloadCap
    && |m.assembly.data| <= m.assembly.cap
    && match m.phase
       case ReadOpcode => m.key == [] && m.ext == []
       case ReadLen => m.key == [] && m.ext == []
       case ReadExt16 => m.key == [] && |m.ext| < 2
       case ReadExt64 => m.key == [] && |m.ext| < 8
       case ReadMask => m.masked && |m.key| < 4 && m.payload == []
       case ReadPayload => (m.masked ==> |m.key| == 4) && |m.payload| <= m.payloadLen
  }

  function Initial(limit: nat): (m: Machine)
    ensures Wf(m)
  {
    Machine(limit, ReadOpcode, false, 0, false, 0, [], [], [], 4096, Assembly([], 0))
  }

  // ---------- a complete frame ----------

  datatype Delivery = Delivery(assembly: Assembly, out: seq<Event>, rc: Status)

  function CloseStatus(payload: seq<byte>): nat {
    if |payload| >= 2 then 256 * payload[0] as int + payload[1] as int else 1005
  }

  /** What a complete frame does to the reassembly buffer and which callback it triggers. */
  function Deliver(limit: nat, a: Assembly, fin: bool, opcode: nat, payload: seq<byte>): (d: Delivery)
    requires |a.data| <= a.cap
    ensures |d.assembly.data| <= d.assembly.cap
  {
    if opcode == CLOSE then
      Delivery(a, [Closed(CloseStatus(payload))], Success)
    else if opcode == PING || opcode == PONG then
      Delivery(a, [Message(opcode, payload, fin)], Success)
    else if !fin then
      if opcode != CONTINUATION && |a.data| > 0 then
        Delivery(a, [Failed(Framing)], Framing)
      else
        var whole := a.data + payload;
        if |whole| <= a.cap then
          Delivery(Assembly(whole, a.cap), [], Success)
        else
          var cap := Grow(if a.cap == 0 then 4096 else 2 * a.cap, |whole|);
          if cap > limit then Delivery(a, [Failed(TooBig)], TooBig)
          else Delivery(Assembly(whole, cap), [], Success)
    else if |a.data| > 0 then
      var whole := a.data + payload;
      Delivery(Assembly([], Max(a.cap, |whole|)), [Message(opcode, whole, true)], Success)
    else
      Delivery(a, [Message(opcode, payload, true)], Success)
  }

  /** The current frame's payload is complete: deliver it and, on success, reset for the next frame. */
  function Finish(m: Machine): (o: Outcome)
    requires Wf(m) && m.phase == ReadPayload && |m.payload| == m.payloadLen
    ensures Wf(o.m)
  {
    var d := Deliver(m.limit, m.assembly, m.fin, m.opcode, m.payload);
    if d.rc != Success then Outcome(m.(assembly := d.assembly), d.out, d.rc)
    else
      Outcome(m.(assembly := d.assembly, phase := ReadOpcode, key := [], ext := [],
                 fin := false, opcode := 0, masked := false, payloadLen := 0), d.out, Success)
  }

  // ---------- one octet ----------

  function Quiet(m: Machine): Outcome {
    Outcome(m, [], Success)
  }

  function Fail(m: Machine, rc: Status): Outcome {
    Outcome(m, [Failed(rc)], rc)
  }

  function OpcodeByte(m: Machine, b: byte): Outcome {
    var m1 := m.(fin := b / 128 == 1, opcode := b % 16);
    if b / 16 % 8 != 0 then Fail(m1, Framing)
    else if !m1.fin && m1.opcode >= 8 then Fail(m1, Framing)
    else Quiet(m1.(phase := ReadLen))
  }

  /** The payload length is known: go on to the mask, or straight to the payload. */
  function LengthKnown(m: Machine, n: nat): Machine {
    m.(payloadLen := n, phase := if m.masked then ReadMask else ReadPayload, payload := [])
  }

  function LenByte(m: Machine, b: byte): Outcome {
    var m1 := m.(masked := b / 128 == 1);
    if b % 128 == 126 then Quiet(m1.(phase := ReadExt16, ext := []))
    else if b % 128 == 127 then Quiet(m1.(phase := ReadExt64, ext := []))
    else Quiet(LengthKnown(m1, b % 128))
  }

  function Ext16Byte(m: Machine, b: byte): Outcome {
    var m1 := m.(ext := m.ext + [b]);
    if |m1.ext| == 2 then Quiet(LengthKnown(m1, FromBigEndian(m1.ext))) else Quiet(m1)
  }

  function Ext64Byte(m: Machine, b: byte): Outcome {
    var m1 := m.(ext := m.ext + [b]);
    if |m1.ext| == 8 then
      var m2 := LengthKnown(m1, FromBigEndian(m1.ext));
      if m2.payloadLen > m2.limit then Fail(m2, TooBig) else Quiet(m2)
    else Quiet(m1)
  }

  function MaskByte(m: Machine, b: byte): Outcome {
    var m1 := m.(key := m.key + [b]);
    if |m1.key| == 4 then Quiet(m1.(phase := ReadPayload, payload := [])) else Quiet(m1)
  }

  /** Payload octets as they are stored: unmasked according to their position. */
  function Unmask(m: Machine, data: seq<byte>): (r: seq<byte>)
    requires m.masked ==> |m.key| == 4
    ensures |r| == |data|
  {
    if m.masked then Mask(data, m.key, |m.payload|) else data
  }

  /** Stores payload octets, after growing the payload buffer to the frame's length. */
  function Absorb(m: Machine, data: seq<byte>): (m': Machine)
    requires Wf(m) && m.phase == ReadPayload && |m.payload| + |data| <= m.payloadLen
    ensures Wf(m')
  {
    m.(payloadCap := Max(m.payloadCap, m.payloadLen), payload := m.payload + Unmask(m, data))
  }

  /** An empty payload is complete as soon as its header is, but is only noticed with the next octet. */
  predicate Pending(m: Machine) {
    m.phase == ReadPayload && |m.payload| == m.payloadLen
  }

  function PayloadByte(m: Machine, b: byte): (o: Outcome)
    requires Wf(m) && m.phase == ReadPayload && !Pending(m)
    ensures Wf(o.m)
  {
    Absorbed(m, [b])
  }

  lemma LenKeepsWf(m: Machine, b: byte)
    requires Wf(m) && m.phase == ReadLen
    ensures Wf(LenByte(m, b).m)
  {
  }

  lemma Ext16KeepsWf(m: Machine, b: byte)
    requires Wf(m) && m.phase == ReadExt16
    ensures Wf(Ext16Byte(m, b).m)
  {
  }

  lemma Ext64KeepsWf(m: Machine, b: byte)
    requires Wf(m) && m.phase == ReadExt64
    ensures Wf(Ext64Byte(m, b).m)
  {
  }

  lemma ByteKeepsWf(m: Machine, b: byte)
    requires Wf(m)
    ensures m.phase == ReadLen ==> Wf(LenByte(m, b).m)
    ensures m.phase == ReadExt16 ==> Wf(Ext16Byte(m, b).m)
    ensures m.phase == ReadExt64 ==> Wf(Ext64Byte(m, b).m)
  {
    if m.phase == ReadLen {
      LenKeepsWf(m, b);
    } else if m.phase == ReadExt16 {
      Ext16KeepsWf(m, b);
    } else if m.phase == ReadExt64 {
      Ext64KeepsWf(m, b);
    }
  }

  /** A step that never starts from a completed payload: each consumes its octet. */
  function ByteOf(m: Machine, b: byte): (o: Outcome)
    requires Wf(m) && !Pending(m)
    ensures Wf(o.m)
  {
    ByteKeepsWf(m, b);
    match m.phase
    case ReadOpcode => OpcodeByte(m, b)
    case ReadLen => LenByte(m, b)
    case ReadExt16 => Ext16Byte(m, b)
    case ReadExt64 => Ext64Byte(m, b)
    case ReadMask => MaskByte(m, b)
    case ReadPayload => PayloadByte(m, b)
  }

  /** Delivers a pending empty frame, if there is one. */
  function Settle(m: Machine): (o: Outcome)
    requires Wf(m)
    ensures Wf(o.m) && (o.rc == Success ==> !Pending(o.m))
  {
    if Pending(m) then
      // the capacity test precedes the completion test, and is a no-op for every reachable state
      Finish(m.(payloadCap := Max(m.payloadCap, m.payloadLen)))
    else Quiet(m)
  }

  function Prepend(out: seq<Event>, o: Outcome): Outcome {
    o.(out := out + o.out)
  }

  function StepByte(m: Machine, b: byte): (o: Outcome)
    requires Wf(m)
    ensures Wf(o.m)
  {
    var s := Settle(m);
    if s.rc != Success then s else Prepend(s.out, ByteOf(s.m, b))
  }

  /** Feeds octets until the first error. */
  function Run(m: Machine, bytes: seq<byte>): (o: Outcome)
    requires Wf(m)
    ensures Wf(o.m)
    decreases |bytes|
  {
    if bytes == [] then Quiet(m)
    else
      var o := StepByte(m, bytes[0]);
      if o.rc != Success then o else Prepend(o.out, Run(o.m, bytes[1..]))
  }

  /** Feeds a list of chunks, stopping at the first error. */
  function RunChunks(m: Machine, chunks: seq<seq<byte>>): (o: Outcome)
    requires Wf(m)
    ensures Wf(o.m)
    decreases |chunks|
  {
    if chunks == [] then Quiet(m)
    else
      var o := Run(m, chunks[0]);
      if o.rc != Success then o else Prepend(o.out, RunChunks(o.m, chunks[1..]))
  }

  // ---------- cutting the input ----------

  /** Goes on from where an outcome stopped, unless it stopped at an error. */
  function Continue(o: Outcome, bytes: seq<byte>): Outcome
    requires Wf(o.m)
  {
    if o.rc != Success then o else Prepend(o.out, Run(o.m, bytes))
  }

  lemma PrependNothing(o: Outcome)
    ensures Prepend([], o) == o
  {
  }

  lemma ContinueTrace(out: seq<Event>, o: Outcome, bytes: seq<byte>)
    requires Wf(o.m)
    ensures Prepend(out, Continue(o, bytes)) ==
            if o.rc != Success then Prepend(out, o) else Prepend(out + o.out, Run(o.m, bytes))
  {
    assert out + (o.out + Run(o.m, bytes).out) == (out + o.out) + Run(o.m, bytes).out;
  }

  /** Feeding `a` and then `b` is feeding `a + b`. */
  lemma {:induction false} RunConcat(m: Machine, a: seq<byte>, b: seq<byte>)
    requires Wf(m)
    ensures Run(m, a + b) == Continue(Run(m, a), b)
    decreases |a|
  {
    if a == [] {
      assert a + b == b;
    } else {
      var o := StepByte(m, a[0]);
      assert (a + b)[1..] == a[1..] + b;
      if o.rc == Success {
        RunConcat(o.m, a[1..], b);
        var r := Run(o.m, a[1..]);
        assert o.out + (r.out + Run(r.m, b).out) == (o.out + r.out) + Run(r.m, b).out;
      }
    }
  }

  lemma {:induction false} FedWhole(m: Machine, chunks: seq<seq<byte>>)
    requires Wf(m)
    ensures RunChunks(m, chunks) == Run(m, Flatten(chunks))
    decreases |chunks|
  {
    if chunks != [] {
      RunConcat(m, chunks[0], Flatten(chunks[1..]));
      var o := Run(m, chunks[0]);
      if o.rc == Success {
        FedWhole(o.m, chunks[1..]);
      }
    }
  }

  /**
   * Chunking independence: two ways of cutting the same octets give the same callbacks, status
   * and state, those of feeding the octets whole.
   */
  lemma ChunkingIndependence(m: Machine, chunks: seq<seq<byte>>, others: seq<seq<byte>>)
    requires Wf(m) && Flatten(chunks) == Flatten(others)
    ensures RunChunks(m, chunks) == RunChunks(m, others) == Run(m, Flatten(chunks))
  {
    FedWhole(m, chunks);
    FedWhole(m, others);
  }

  lemma AbsorbTwice(m: Machine, a: seq<byte>, b: seq<byte>)
    requires Wf(m) && m.phase == ReadPayload && |m.payload| + |a| + |b| <= m.payloadLen
    ensures Absorb(Absorb(m, a), b) == Absorb(m, a + b)
  {
    var m1 := Absorb(m, a);
    var u, v, w := Unmask(m, a), Unmask(m1, b), Unmask(m, a + b);
    assert u + v == w by {
      if m.masked {
        MaskSplit(a, b, m.key, |m.payload|);
      }
    }
    assert m.payload + (u + v) == (m.payload + u) + v;
    assert m1.payload == m.payload + u;
    assert Absorb(m1, b).payload == m1.payload + v;
  }

  lemma StepPayload(m: Machine, b: byte)
    requires Wf(m) && m.phase == ReadPayload && !Pending(m)
    ensures StepByte(m, b) == PayloadByte(m, b)
  {
    var o := PayloadByte(m, b);
    assert Prepend([], o) == o;
  }

  /** Storing `data` as one piece, and finishing the frame when that completes it. */
  function Absorbed(m: Machine, data: seq<byte>): (o: Outcome)
    requires Wf(m) && m.phase == ReadPayload && |m.payload| + |data| <= m.payloadLen
    ensures Wf(o.m)
  {
    var m1 := Absorb(m, data);
    if Pending(m1) then Finish(m1) else Quiet(m1)
  }

  /** A run of payload octets is stored as one piece. */
  lemma {:induction false} PayloadPiece(m: Machine, data: seq<byte>, rest: seq<byte>)
    requires Wf(m) && m.phase == ReadPayload
    requires 0 < |data| <= m.payloadLen - |m.payload|
    ensures Run(m, data + rest) == Continue(Absorbed(m, data), rest)
    decreases |data|
  {
    var d, more := data[0], data[1..];
    var m1 := Absorb(m, [d]);
    assert (data + rest)[0] == d && (data + rest)[1..] == more + rest;
    StepPayload(m, d);
    if more == [] {
      assert data == [d] && more + rest == rest;
      if !Pending(m1) {
        assert Prepend([], Run(m1, rest)) == Run(m1, rest);
      }
    } else {
      PayloadPiece(m1, more, rest);
      AbsorbTwice(m, [d], more);
      assert data == [d] + more;
      assert Prepend([], Run(m1, more + rest)) == Run(m1, more + rest);
    }
  }

  /** An octet that does not follow a completed payload. */
  lemma OneByte(m: Machine, bytes: seq<byte>)
    requires Wf(m) && !Pending(m) && bytes != []
    ensures Run(m, bytes) == Continue(ByteOf(m, bytes[0]), bytes[1..])
  {
    PrependNothing(ByteOf(m, bytes[0]));
  }

  /** A single octet that does not follow a completed payload. */
  lemma SingleByte(m: Machine, b: byte)
    requires Wf(m) && !Pending(m)
    ensures Run(m, [b]) == ByteOf(m, b)
  {
    OneByte(m, [b]);
    var o := ByteOf(m, b);
    assert Run(o.m, []) == Quiet(o.m);
    assert Prepend(o.out, Quiet(o.m)) == Outcome(o.m, o.out, Success);
  }

  /** Octets that only change the state can be skipped over. */
  lemma QuietThen(m: Machine, a: seq<byte>, m1: Machine, b: seq<byte>)
    requires Wf(m) && Wf(m1) && Run(m, a) == Quiet(m1)
    ensures Run(m, a + b) == Run(m1, b)
  {
    RunConcat(m, a, b);
    PrependNothing(Run(m1, b));
  }

  /** A pending empty frame is delivered before anything else is read. */
  lemma SettleFirst(m: Machine, bytes: seq<byte>)
    requires Wf(m) && bytes != []
    ensures Run(m, bytes) == Continue(Settle(m), bytes)
  {
    var s := Settle(m);
    if s.rc == Success {
      OneByte(s.m, bytes);
      var o := ByteOf(s.m, bytes[0]);
      ContinueTrace(s.out, o, bytes[1..]);
      assert StepByte(m, bytes[0]) == Prepend(s.out, o);
    }
  }

  /** One round of the payload branch: octets are stored, or an empty payload is noticed. */
  lemma PayloadOrSettle(m: Machine, data: seq<byte>, rest: seq<byte>)
    requires Wf(m) && m.phase == ReadPayload && |data| <= m.payloadLen - |m.payload|
    requires data != [] || (Pending(m) && rest != [])
    ensures Run(m, data + rest) == Continue(Absorbed(m, data), rest)
  {
    if data != [] {
      PayloadPiece(m, data, rest);
    } else {
      assert data + rest == rest;
      assert m.payload + Unmask(m, data) == m.payload;
      SettleFirst(m, rest);
    }
  }

  // ---------- one round of the parser's loop ----------

  /** How many of `bytes` the next round of the loop consumes; none when an empty payload is noticed. */
  function Consumed(m: Machine, bytes: seq<byte>): (n: nat)
    requires Wf(m) && bytes != []
    ensures n <= |bytes|
    ensures n == 0 ==> Pending(m)
  {
    if m.phase == ReadPayload then Min(|bytes|, m.payloadLen - |m.payload|) else 1
  }

  function Round(m: Machine, bytes: seq<byte>): (o: Outcome)
    requires Wf(m) && bytes != []
    ensures Wf(o.m)
  {
    if m.phase == ReadPayload then Absorbed(m, bytes[..Consumed(m, bytes)]) else ByteOf(m, bytes[0])
  }

  lemma RoundStep(m: Machine, bytes: seq<byte>)
    requires Wf(m) && bytes != []
    ensures Run(m, bytes) == Continue(Round(m, bytes), bytes[Consumed(m, bytes)..])
  {
    if m.phase == ReadPayload {
      PayloadRound(m, bytes, Consumed(m, bytes));
    } else {
      OneByte(m, bytes);
    }
  }

  lemma PayloadRound(m: Machine, bytes: seq<byte>, n: nat)
    requires Wf(m) && m.phase == ReadPayload && n <= |bytes| && n <= m.payloadLen - |m.payload|
    requires n > 0 || (Pending(m) && bytes != [])
    ensures Run(m, bytes) == Continue(Absorbed(m, bytes[..n]), bytes[n..])
  {
    PayloadOrSettle(m, bytes[..n], bytes[n..]);
    assert bytes[..n] + bytes[n..] == bytes;
  }

  /**
   * Having reported `out`, the machine `m` with `rest` still to read leads to `goal`. The
   * quantifier keeps the definition of `Run` out of the parser's loop: it opens at `Opened(rest)` only.
   */
  ghost predicate Leads(goal: Outcome, out: seq<Event>, m: Machine, rest: seq<byte>)
    requires Wf(m)
  {
    forall bytes: seq<byte> {:trigger Opened(bytes)} ::
      Opened(bytes) && bytes == rest ==> goal == Prepend(out, Run(m, bytes))
  }

  lemma LeadsStart(m: Machine, bytes: seq<byte>)
    requires Wf(m)
    ensures Leads(Run(m, bytes), [], m, bytes)
  {
  }

  lemma LeadsEnd(goal: Outcome, out: seq<Event>, m: Machine)
    requires Wf(m) && Leads(goal, out, m, [])
    ensures goal == Outcome(m, out, Success)
  {
    var none: seq<byte> := [];
    assert Opened(none);
  }

  /** A round keeps the loop's invariant, and one that consumes nothing leaves the payload phase. */
  lemma LeadsRound(goal: Outcome, out: seq<Event>, m: Machine, rest: seq<byte>)
    requires Wf(m) && rest != [] && Leads(goal, out, m, rest)
    ensures var o, n := Round(m, rest), Consumed(m, rest);
            if o.rc != Success then goal == Prepend(out, o)
            else
              && Leads(goal, out + o.out, o.m, rest[n..])
              && (n > 0 || (m.phase == ReadPayload && o.m.phase == ReadOpcode))
  {
    assert Opened(rest);
    RoundStep(m, rest);
    ContinueTrace(out, Round(m, rest), rest[Consumed(m, rest)..]);
  }
}
