/**
 * The parser seen frame by frame: octets that encode frames do what the frames do, and
 * fragments become messages (RFC 6455 sections 5.2 to 5.5).
 */
module WsAssembly {
  import opened Bytes
  import opened WsFrame
  import opened WsMachine

  /** Frames whose header the parser accepts. */
  ghost predicate Receivable(limit: nat, f: Frame) {
    && Encodable(f)
    && (f.opcode >= 8 ==> f.fin)
    && (|f.payload| > 65535 ==> |f.payload| <= limit)
  }

  ghost predicate AllReceivable(limit: nat, fs: seq<Frame>) {
    forall f <- fs :: Receivable(limit, f)
  }

  /** What a list of frames does, up to the first error. */
  function RunFrames(limit: nat, a: Assembly, fs: seq<Frame>): (d: Delivery)
    requires |a.data| <= a.cap
    ensures |d.assembly.data| <= d.assembly.cap
    decreases |fs|
  {
    if fs == [] then Delivery(a, [], Success)
    else
      var d := Deliver(limit, a, fs[0].fin, fs[0].opcode, fs[0].payload);
      if d.rc != Success then d
      else
        var e := RunFrames(limit, d.assembly, fs[1..]);
        Delivery(e.assembly, d.out + e.out, e.rc)
  }

  // ---------- from octets to frames ----------

  /** The parser stands between two frames. */
  ghost predicate Between(m: Machine) {
    Wf(m) && m.phase == ReadOpcode && !m.fin && m.opcode == 0 && !m.masked && m.payloadLen == 0
  }

  /** The machine once the header of `f` has been read. */
  ghost function HeaderRead(m: Machine, f: Frame): Machine
  {
    var len := |f.payload|;
    m.(phase := if f.masked then ReadMask else ReadPayload,
       fin := f.fin, opcode := f.opcode, masked := f.masked, payloadLen := len, payload := [],
       ext := if len <= 125 then [] else if len <= 65535 then BigEndian(len, 2) else BigEndian(len, 8))
  }

  /** Extended length octets but the last are only stored. */
  lemma {:induction false} ExtPrefix(m: Machine, bytes: seq<byte>)
    requires Wf(m) && (m.phase == ReadExt16 || m.phase == ReadExt64)
    requires |m.ext| + |bytes| < if m.phase == ReadExt16 then 2 else 8
    ensures Run(m, bytes) == Quiet(m.(ext := m.ext + bytes))
    decreases |bytes|
  {
    if bytes == [] {
      assert m.ext + bytes == m.ext;
    } else {
      var b, more := bytes[0], bytes[1..];
      ExtStored(m, b, more);
      ExtPrefix(m.(ext := m.ext + [b]), more);
      assert bytes == [b] + more;
      Regroup(m.ext, [b], more);
    }
  }

  lemma ExtStored(m: Machine, b: byte, more: seq<byte>)
    requires Wf(m) && (m.phase == ReadExt16 || m.phase == ReadExt64)
    requires |m.ext| + 1 < if m.phase == ReadExt16 then 2 else 8
    ensures Wf(m.(ext := m.ext + [b]))
    ensures Run(m, [b] + more) == Run(m.(ext := m.ext + [b]), more)
  {
    SingleByte(m, b);
    QuietThen(m, [b], m.(ext := m.ext + [b]), more);
  }

  lemma ExtLength(m: Machine, n: nat)
    requires Wf(m) && m.ext == []
    requires m.phase == ReadExt16 || m.phase == ReadExt64
    requires m.phase == ReadExt16 ==> n < Pow256(2)
    requires m.phase == ReadExt64 ==> n < Pow256(8) && n <= m.limit
    ensures var bytes := BigEndian(n, if m.phase == ReadExt16 then 2 else 8);
            Run(m, bytes) == Quiet(LengthKnown(m.(ext := bytes), n))
  {
    var k := if m.phase == ReadExt16 then 2 else 8;
    var bytes := BigEndian(n, k);
    var front, last := bytes[..k - 1], bytes[k - 1];
    BigEndianRoundTrip(n, k);
    var m1 := m.(ext := m.ext + front);
    ExtPrefix(m, front);
    assert bytes == front + [last];
    QuietThen(m, front, m1, [last]);
    SingleByte(m1, last);
    assert m1.ext + [last] == bytes;
  }

  /** The fields of a header octet. */
  lemma OctetFields(top: bool, low: nat)
    requires low < 128
    ensures var b := Bit7(top) + low;
            0 <= b < 256 && b % 128 == low && (b / 128 == 1 <==> top) &&
            (low < 16 ==> b % 16 == low && b / 16 % 8 == 0)
  {
  }

  lemma OpcodeOctet(m: Machine, f: Frame, b: byte)
    requires f.opcode < 16 && (f.opcode >= 8 ==> f.fin) && b == Bit7(f.fin) + f.opcode
    ensures OpcodeByte(m, b) == Quiet(m.(phase := ReadLen, fin := f.fin, opcode := f.opcode))
  {
    OctetFields(f.fin, f.opcode);
  }

  lemma HeaderStart(m: Machine, f: Frame, b: byte)
    requires Between(m) && f.opcode < 16 && (f.opcode >= 8 ==> f.fin) && b == Bit7(f.fin) + f.opcode
    ensures Run(m, [b]) == Quiet(m.(phase := ReadLen, fin := f.fin, opcode := f.opcode))
  {
    OpcodeOctet(m, f, b);
    SingleByte(m, b);
  }

  ghost function LenRead(m: Machine, masked: bool, base: nat): Machine {
    var m1 := m.(masked := masked);
    if base == 126 then m1.(phase := ReadExt16, ext := [])
    else if base == 127 then m1.(phase := ReadExt64, ext := [])
    else LengthKnown(m1, base)
  }

  lemma LenOctet(m: Machine, masked: bool, base: nat, b: byte)
    requires base < 128 && b == Bit7(masked) + base
    ensures LenByte(m, b) == Quiet(LenRead(m, masked, base))
  {
    OctetFields(masked, base);
  }

  lemma HeaderLenOctet(m: Machine, masked: bool, base: nat, b: byte)
    requires Wf(m) && m.phase == ReadLen && base < 128 && b == Bit7(masked) + base
    ensures Run(m, [b]) == Quiet(LenRead(m, masked, base))
  {
    LenOctet(m, masked, base, b);
    SingleByte(m, b);
  }

  /** The second octet and the extended length. */
  lemma LengthRun(m: Machine, f: Frame)
    requires Wf(m) && m.phase == ReadLen && m.fin == f.fin && m.opcode == f.opcode
    requires Receivable(m.limit, f)
    ensures Run(m, Header(f.fin, f.opcode, f.masked, |f.payload|)[1..]) == Quiet(HeaderRead(m, f))
  {
    var len := |f.payload|;
    var b1: byte := Bit7(f.masked) + LengthCode(len);
    HeaderTail(f.fin, f.opcode, f.masked, len);
    HeaderLenOctet(m, f.masked, LengthCode(len), b1);
    if len > 125 {
      LongLength(m, f, if len <= 65535 then 2 else 8, b1);
    }
  }

  /** What the second octet says of the length: itself, or how many octets it has. */
  function LengthCode(len: nat): (n: nat)
    ensures n < 128
  {
    if len <= 125 then len else if len <= 65535 then 126 else 127
  }

  lemma HeaderTail(fin: bool, opcode: nat, masked: bool, len: nat)
    ensures var b1: byte := Bit7(masked) + LengthCode(len);
            Header(fin, opcode, masked, len)[1..] ==
            if len <= 125 then [b1] else [b1] + BigEndian(len, if len <= 65535 then 2 else 8)
  {
  }

  lemma LongLength(m: Machine, f: Frame, k: nat, b1: byte)
    requires Wf(m) && m.phase == ReadLen && m.fin == f.fin && m.opcode == f.opcode
    requires Receivable(m.limit, f) && |f.payload| > 125
    requires k == if |f.payload| <= 65535 then 2 else 8
    requires Run(m, [b1]) == Quiet(LenRead(m, f.masked, if k == 2 then 126 else 127))
    ensures Run(m, [b1] + BigEndian(|f.payload|, k)) == Quiet(HeaderRead(m, f))
  {
    var len := |f.payload|;
    var m2 := LenRead(m, f.masked, if k == 2 then 126 else 127);
    assert Pow256(2) == 65536;
    QuietThen(m, [b1], m2, BigEndian(len, k));
    ExtLength(m2, len);
  }

  /** The header octets of a frame, in any of the three widths. */
  lemma HeaderRun(m: Machine, f: Frame)
    requires Between(m) && Receivable(m.limit, f)
    ensures Run(m, Header(f.fin, f.opcode, f.masked, |f.payload|)) == Quiet(HeaderRead(m, f))
  {
    var h := Header(f.fin, f.opcode, f.masked, |f.payload|);
    var m1 := m.(phase := ReadLen, fin := f.fin, opcode := f.opcode);
    HeaderStart(m, f, h[0]);
    assert h == [h[0]] + h[1..];
    QuietThen(m, [h[0]], m1, h[1..]);
    LengthRun(m1, f);
  }

  // ---------- refused headers ----------

  /** Stopping at an error, whatever follows. */
  lemma FailedStays(m: Machine, a: seq<byte>, b: seq<byte>)
    requires Wf(m) && Run(m, a).rc != Success
    ensures Run(m, a + b) == Run(m, a)
  {
    RunConcat(m, a, b);
  }

  /** A reserved bit between frames is a framing error, whatever follows. */
  lemma ReservedBitRefused(m: Machine, b: byte, rest: seq<byte>)
    requires Between(m) && b / 16 % 8 != 0
    ensures Run(m, [b] + rest).rc == Framing && Run(m, [b] + rest).out == [Failed(Framing)]
  {
    SingleByte(m, b);
    FailedStays(m, [b], rest);
  }

  /** The status with which the header of `f` is read. */
  function Verdict(limit: nat, f: Frame): Status {
    if f.opcode >= 8 && !f.fin then Framing
    else if |f.payload| > 65535 && |f.payload| > limit then TooBig
    else Success
  }

  lemma TooLongOctets(m: Machine, bytes: seq<byte>)
    requires Wf(m) && m.phase == ReadExt64 && m.ext == [] && |bytes| == 8 && m.limit < FromBigEndian(bytes)
    ensures Run(m, bytes).rc == TooBig && Run(m, bytes).out == [Failed(TooBig)]
  {
    var front, last := bytes[..7], bytes[7];
    var m1 := m.(ext := m.ext + front);
    ExtPrefix(m, front);
    assert bytes == front + [last];
    QuietThen(m, front, m1, [last]);
    SingleByte(m1, last);
    assert m1.ext + [last] == bytes;
  }

  lemma TooLong(m: Machine, n: nat)
    requires Wf(m) && m.phase == ReadExt64 && m.ext == [] && m.limit < n < Pow256(8)
    ensures Run(m, BigEndian(n, 8)).rc == TooBig && Run(m, BigEndian(n, 8)).out == [Failed(TooBig)]
  {
    BigEndianRoundTrip(n, 8);
    TooLongOctets(m, BigEndian(n, 8));
  }

  /** A frame's header is accepted if and only if the frame is receivable; otherwise the error is reported. */
  lemma HeaderVerdict(m: Machine, f: Frame)
    requires Between(m) && Encodable(f)
    ensures var o := Run(m, Header(f.fin, f.opcode, f.masked, |f.payload|));
            && o.rc == Verdict(m.limit, f)
            && o.out == (if o.rc == Success then [] else [Failed(o.rc)])
            && (o.rc == Success <==> Receivable(m.limit, f))
  {
    var h := Header(f.fin, f.opcode, f.masked, |f.payload|);
    assert h == [h[0]] + h[1..];
    if f.opcode >= 8 && !f.fin {
      OctetFields(f.fin, f.opcode);
      SingleByte(m, h[0]);
      FailedStays(m, [h[0]], h[1..]);
    } else if Verdict(m.limit, f) == TooBig {
      TooLongFrame(m, f);
    } else {
      HeaderRun(m, f);
    }
  }

  lemma TooLongFrame(m: Machine, f: Frame)
    requires Between(m) && Encodable(f) && Verdict(m.limit, f) == TooBig
    ensures var o := Run(m, Header(f.fin, f.opcode, f.masked, |f.payload|));
            o.rc == TooBig && o.out == [Failed(TooBig)]
  {
    var h, len := Header(f.fin, f.opcode, f.masked, |f.payload|), |f.payload|;
    var m1 := m.(phase := ReadLen, fin := f.fin, opcode := f.opcode);
    HeaderStart(m, f, h[0]);
    assert h == [h[0]] + ([h[1]] + BigEndian(len, 8));
    QuietThen(m, [h[0]], m1, [h[1]] + BigEndian(len, 8));
    var m2 := LenRead(m1, f.masked, 127);
    HeaderLenOctet(m1, f.masked, 127, h[1]);
    QuietThen(m1, [h[1]], m2, BigEndian(len, 8));
    TooLong(m2, len);
  }

  /** The masking key. */
  lemma {:induction false} KeyRun(m: Machine, bytes: seq<byte>)
    requires Wf(m) && m.phase == ReadMask && |m.key| + |bytes| == 4
    ensures Run(m, bytes) == Quiet(m.(phase := ReadPayload, key := m.key + bytes, payload := []))
    decreases |bytes|
  {
    var b, more := bytes[0], bytes[1..];
    SingleByte(m, b);
    if more == [] {
      assert bytes == [b];
    } else {
      var m1 := m.(key := m.key + [b]);
      assert bytes == [b] + more;
      QuietThen(m, [b], m1, more);
      KeyRun(m1, more);
      assert m1.key + more == m.key + bytes;
    }
  }

  /** The machine in front of the payload of `f`. */
  ghost function PayloadNext(m: Machine, f: Frame): Machine {
    HeaderRead(m, f).(phase := ReadPayload, key := f.key)
  }

  ghost function Head(f: Frame): seq<byte> {
    Header(f.fin, f.opcode, f.masked, |f.payload|) + f.key
  }

  lemma PrefixRun(m: Machine, f: Frame)
    requires Between(m) && Receivable(m.limit, f)
    ensures Wf(PayloadNext(m, f))
    ensures Run(m, Head(f)) == Quiet(PayloadNext(m, f))
  {
    var h := Header(f.fin, f.opcode, f.masked, |f.payload|);
    HeaderRun(m, f);
    if f.masked {
      QuietThen(m, h, HeaderRead(m, f), f.key);
      KeyRun(HeaderRead(m, f), f.key);
      assert [] + f.key == f.key;
    } else {
      assert h + f.key == h;
    }
  }

  /** Feeding octets, and then letting an empty last frame be noticed. */
  function RunSettled(m: Machine, bytes: seq<byte>): (o: Outcome)
    requires Wf(m)
    ensures Wf(o.m)
    ensures o.rc == Success ==> !Pending(o.m)
  {
    var o := Run(m, bytes);
    if o.rc != Success then o else Prepend(o.out, Settle(o.m))
  }

  lemma SettledConcat(m: Machine, a: seq<byte>, b: seq<byte>)
    requires Wf(m)
    ensures b != [] ==> Run(m, a + b) == Continue(RunSettled(m, a), b)
  {
    var o := Run(m, a);
    RunConcat(m, a, b);
    if o.rc == Success && b != [] {
      SettleFirst(o.m, b);
      ContinueTrace(o.out, Settle(o.m), b);
    }
  }

  /** The same, with the empty last frame of `b` noticed as well. */
  lemma SettledAppend(m: Machine, a: seq<byte>, b: seq<byte>)
    requires Wf(m)
    ensures var s := RunSettled(m, a);
            RunSettled(m, a + b) == if s.rc != Success then s else Prepend(s.out, RunSettled(s.m, b))
  {
    var s := RunSettled(m, a);
    if b == [] {
      assert a + b == a;
      if s.rc == Success {
        SettledNothing(s);
      }
    } else {
      SettledConcat(m, a, b);
      if s.rc == Success {
        SettleContinued(s, b);
      }
    }
  }

  lemma SettledNothing(s: Outcome)
    requires Wf(s.m) && !Pending(s.m) && s.rc == Success
    ensures Prepend(s.out, RunSettled(s.m, [])) == s
  {
    assert Run(s.m, []) == Quiet(s.m);
    assert s.out + [] == s.out;
  }

  lemma SettleContinued(s: Outcome, b: seq<byte>)
    requires Wf(s.m) && s.rc == Success
    ensures var c := Continue(s, b);
            Prepend(s.out, RunSettled(s.m, b)) == if c.rc != Success then c else Prepend(c.out, Settle(c.m))
  {
    var r := Run(s.m, b);
    assert s.out + (r.out + Settle(r.m).out) == (s.out + r.out) + Settle(r.m).out;
  }

  /** An outcome that shows the frames' effect, with the parser between frames after success. */
  ghost predicate Shows(o: Outcome, m: Machine, d: Delivery) {
    && o.out == d.out && o.rc == d.rc
    && o.m.limit == m.limit && o.m.assembly == d.assembly
    && (d.rc == Success ==> Between(o.m))
  }

  /** The payload as sent. */
  function Body(f: Frame): (r: seq<byte>)
    requires f.masked ==> |f.key| == 4
    ensures |r| == |f.payload|
  {
    if f.masked then Mask(f.payload, f.key, 0) else f.payload
  }

  lemma EncodeParts(f: Frame)
    requires |f.key| == if f.masked then 4 else 0
    ensures Encode(f) == Head(f) + Body(f)
  {
  }

  lemma BodyRun(m: Machine, f: Frame)
    requires Between(m) && Receivable(m.limit, f)
    ensures Wf(PayloadNext(m, f))
    ensures Run(m, Encode(f)) == Run(PayloadNext(m, f), Body(f))
  {
    PrefixRun(m, f);
    EncodeParts(f);
    QuietThen(m, Head(f), PayloadNext(m, f), Body(f));
  }

  /** The octets of one frame do what the frame does; an empty one is still pending. */
  lemma FrameRun(m: Machine, f: Frame)
    requires Between(m) && Receivable(m.limit, f)
    ensures Shows(RunSettled(m, Encode(f)), m, Deliver(m.limit, m.assembly, f.fin, f.opcode, f.payload))
    ensures if f.payload == [] then Run(m, Encode(f)) == Quiet(PayloadNext(m, f))
            else Run(m, Encode(f)) == RunSettled(m, Encode(f))
  {
    BodyRun(m, f);
    if f.payload == [] {
      assert Body(f) == [];
      EmptyIsShown(PayloadNext(m, f), m, f);
    } else {
      MaskIsUndone(PayloadNext(m, f), f, Body(f));
      FinishedIsShown(PayloadNext(m, f), m, f, Body(f));
      SettledAlready(m, Encode(f));
    }
  }

  lemma SettledAlready(m: Machine, bytes: seq<byte>)
    requires Wf(m) && (Run(m, bytes).rc == Success ==> !Pending(Run(m, bytes).m))
    ensures Run(m, bytes) == RunSettled(m, bytes)
  {
    var o := Run(m, bytes);
    assert o.out + [] == o.out;
  }

  lemma MaskIsUndone(p: Machine, f: Frame, body: seq<byte>)
    requires p.masked == f.masked && p.key == f.key && p.payload == []
    requires f.masked ==> |f.key| == 4 && body == Mask(f.payload, f.key, 0)
    requires !f.masked ==> body == f.payload
    ensures Unmask(p, body) == f.payload
  {
    if f.masked {
      MaskTwice(f.payload, f.key, 0);
    }
  }

  lemma EmptyIsShown(p: Machine, m: Machine, f: Frame)
    requires Between(m) && Receivable(m.limit, f) && p == PayloadNext(m, f) && Wf(p) && f.payload == []
    ensures Run(p, []) == Quiet(p)
    ensures Shows(Prepend([], Settle(p)), m, Deliver(m.limit, m.assembly, f.fin, f.opcode, f.payload))
  {
    PrependNothing(Settle(p));
  }

  lemma FinishedIsShown(p: Machine, m: Machine, f: Frame, body: seq<byte>)
    requires Between(m) && Receivable(m.limit, f) && p == PayloadNext(m, f) && Wf(p)
    requires |body| == |f.payload| > 0 && Unmask(p, body) == f.payload
    ensures Shows(Run(p, body), m, Deliver(m.limit, m.assembly, f.fin, f.opcode, f.payload))
    ensures Run(p, body).rc == Success ==> !Pending(Run(p, body).m)
  {
    PayloadPiece(p, body, []);
    assert body + [] == body;
    AbsorbedIsShown(p, m, f, body);
    var o := Absorbed(p, body);
    if o.rc == Success {
      assert Run(o.m, []) == Quiet(o.m);
      assert o.out + [] == o.out;
    }
  }

  lemma AbsorbedIsShown(p: Machine, m: Machine, f: Frame, body: seq<byte>)
    requires Between(m) && p == PayloadNext(m, f) && Wf(p)
    requires |body| == |f.payload| > 0 && Unmask(p, body) == f.payload
    ensures Shows(Absorbed(p, body), m, Deliver(m.limit, m.assembly, f.fin, f.opcode, f.payload))
  {
    assert Absorb(p, body).payload == f.payload;
  }

  /** The octets of a list of frames do what the frames do. */
  lemma {:induction false} FramesRun(m: Machine, fs: seq<Frame>)
    requires Between(m) && AllReceivable(m.limit, fs)
    ensures Shows(RunSettled(m, EncodeAll(fs)), m, RunFrames(m.limit, m.assembly, fs))
    decreases |fs|
  {
    if fs != [] {
      assert forall f <- fs[1..] :: f in fs;
      FrameRun(m, fs[0]);
      SettledAppend(m, Encode(fs[0]), EncodeAll(fs[1..]));
      var s := RunSettled(m, Encode(fs[0]));
      if s.rc == Success {
        FramesRun(s.m, fs[1..]);
      }
    }
  }

  /** Without the next octet, everything is reported but a last frame without payload. */
  lemma LastFrameRun(m: Machine, fs: seq<Frame>, f: Frame)
    requires Between(m) && AllReceivable(m.limit, fs + [f])
    requires RunFrames(m.limit, m.assembly, fs).rc == Success
    ensures var o := Run(m, EncodeAll(fs + [f]));
            if f.payload == [] then
              o.rc == Success && o.out == RunFrames(m.limit, m.assembly, fs).out
            else
              o.rc == RunFrames(m.limit, m.assembly, fs + [f]).rc &&
              o.out == RunFrames(m.limit, m.assembly, fs + [f]).out
  {
    assert forall g <- fs :: g in fs + [f];
    assert f in fs + [f];
    EncodeAllAppend(fs, [f]);
    var a, b := EncodeAll(fs), Encode(f);
    assert EncodeAll([f]) == b;
    FramesRun(m, fs);
    var s := RunSettled(m, a);
    assert b != [];
    SettledConcat(m, a, b);
    FrameRun(s.m, f);
    if f.payload != [] {
      FramesRun(m, fs + [f]);
    }
  }

  // ---------- single-frame messages ----------

  /** The callback owed for a frame that is a message, or a control message, of its own. */
  function EventOf(f: Frame): Event {
    if f.opcode == CLOSE then Closed(CloseStatus(f.payload)) else Message(f.opcode, f.payload, true)
  }

  function EventsOf(fs: seq<Frame>): (r: seq<Event>)
    ensures |r| == |fs|
  {
    seq(|fs|, i requires 0 <= i < |fs| => EventOf(fs[i]))
  }

  /** Unfragmented frames are reported one by one, exactly as they were sent. */
  lemma {:induction false} WholeFrames(limit: nat, a: Assembly, fs: seq<Frame>)
    requires a.data == [] && forall f <- fs :: f.fin
    ensures RunFrames(limit, a, fs) == Delivery(a, EventsOf(fs), Success)
    decreases |fs|
  {
    if fs != [] {
      WholeFrames(limit, a, fs[1..]);
      assert EventsOf(fs) == [EventOf(fs[0])] + EventsOf(fs[1..]);
    }
  }

  // ---------- control frames between fragments ----------

  predicate IsControl(f: Frame) {
    f.opcode == CLOSE || f.opcode == PING || f.opcode == PONG
  }

  function Select(fs: seq<Frame>, control: bool): (r: seq<Frame>)
    ensures |r| <= |fs|
    ensures forall f <- r :: f in fs && IsControl(f) == control
  {
    if fs == [] then [] else
    (if IsControl(fs[0]) == control then [fs[0]] else []) + Select(fs[1..], control)
  }

  predicate IsControlEvent(e: Event) {
    match e
    case Closed(_) => true
    case Message(opcode, _, _) => opcode == PING || opcode == PONG
    case Failed(_) => false
  }

  function Keep<T>(good: T -> bool, s: seq<T>): (r: seq<T>)
    ensures |r| <= |s|
  {
    if s == [] then [] else (if good(s[0]) then [s[0]] else []) + Keep(good, s[1..])
  }

  lemma {:induction false} KeepConcat<T>(good: T -> bool, a: seq<T>, b: seq<T>)
    ensures Keep(good, a + b) == Keep(good, a) + Keep(good, b)
  {
    if a == [] {
      assert a + b == b;
    } else {
      assert (a + b)[0] == a[0] && (a + b)[1..] == a[1..] + b;
      KeepConcat(good, a[1..], b);
      Regroup(if good(a[0]) then [a[0]] else [], Keep(good, a[1..]), Keep(good, b));
    }
  }

  function SelectEvents(es: seq<Event>, control: bool): (r: seq<Event>)
    ensures |r| <= |es|
  {
    Keep((e: Event) => IsControlEvent(e) == control, es)
  }

  lemma SelectEventsConcat(a: seq<Event>, b: seq<Event>, control: bool)
    ensures SelectEvents(a + b, control) == SelectEvents(a, control) + SelectEvents(b, control)
  {
    KeepConcat((e: Event) => IsControlEvent(e) == control, a, b);
  }

  /** What one frame reports, seen separately for control and data. */
  lemma DeliveryKinds(limit: nat, a: Assembly, f: Frame)
    requires |a.data| <= a.cap
    ensures var d := Deliver(limit, a, f.fin, f.opcode, f.payload);
            && SelectEvents(d.out, false) == (if IsControl(f) then [] else d.out)
            && (IsControl(f) ==> d.rc == Success && d.assembly == a)
            && (!IsControl(f) ==> SelectEvents(d.out, true) == [])
            && (IsControl(f) && f.fin ==> SelectEvents(d.out, true) == [EventOf(f)])
  {
    var d := Deliver(limit, a, f.fin, f.opcode, f.payload);
    assert |d.out| <= 1;
    if d.out != [] {
      assert SelectEvents(d.out[1..], false) == [] && SelectEvents(d.out[1..], true) == [];
    }
  }

  /** Erasing the control frames leaves the data trace, the buffer and the status unchanged. */
  lemma {:induction false} ControlErasable(limit: nat, a: Assembly, fs: seq<Frame>)
    requires |a.data| <= a.cap
    ensures var d, e := RunFrames(limit, a, fs), RunFrames(limit, a, Select(fs, false));
            SelectEvents(d.out, false) == e.out && d.assembly == e.assembly && d.rc == e.rc
    decreases |fs|
  {
    if fs != [] {
      var f, more := fs[0], fs[1..];
      var d := Deliver(limit, a, f.fin, f.opcode, f.payload);
      DeliveryKinds(limit, a, f);
      if IsControl(f) {
        assert Select(fs, false) == Select(more, false);
      } else {
        assert Select(fs, false)[1..] == Select(more, false);
      }
      if d.rc == Success {
        ControlErasable(limit, d.assembly, more);
        SelectEventsConcat(d.out, RunFrames(limit, d.assembly, more).out, false);
      }
    }
  }

  /** Control frames are all reported, in order, wherever they stand. */
  lemma {:induction false} ControlReported(limit: nat, a: Assembly, fs: seq<Frame>)
    requires |a.data| <= a.cap && RunFrames(limit, a, fs).rc == Success
    requires forall f <- fs :: IsControl(f) ==> f.fin
    ensures SelectEvents(RunFrames(limit, a, fs).out, true) == EventsOf(Select(fs, true))
    decreases |fs|
  {
    if fs != [] {
      var f, more := fs[0], fs[1..];
      var d := Deliver(limit, a, f.fin, f.opcode, f.payload);
      ControlReported(limit, d.assembly, more);
      DeliveryKinds(limit, a, f);
      SelectEventsConcat(d.out, RunFrames(limit, d.assembly, more).out, true);
      EventsOfFirst(f, Select(more, true));
    }
  }

  lemma EventsOfFirst(f: Frame, fs: seq<Frame>)
    ensures EventsOf([f] + fs) == [EventOf(f)] + EventsOf(fs)
  {
  }

  // ---------- fragments ----------

  function Payloads(fs: seq<Frame>): seq<byte> {
    if fs == [] then [] else fs[0].payload + Payloads(fs[1..])
  }

  /** Data frames of one message: the last alone has FIN. */
  ghost predicate OneMessage(fs: seq<Frame>) {
    && fs != []
    && (forall f <- fs :: !IsControl(f))
    && forall i :: 0 <= i < |fs| ==> (fs[i].fin <==> i == |fs| - 1)
  }

  /** Behind a non-empty part, non-final fragments are continuation frames. */
  ghost predicate Continued(collected: nat, fs: seq<Frame>)
    decreases |fs|
  {
    |fs| <= 1 ||
    ((fs[0].opcode == CONTINUATION || collected == 0) &&
     Continued(collected + |fs[0].payload|, fs[1..]))
  }

  /** The reassembly buffer of capacity `cap` can be made to hold `n` octets. */
  ghost predicate Fits(limit: nat, cap: nat, n: nat) {
    n <= cap || Grow(if cap == 0 then 4096 else 2 * cap, n) <= limit
  }

  function GrownCap(cap: nat, n: nat): nat {
    if n <= cap then cap else Grow(if cap == 0 then 4096 else 2 * cap, n)
  }

  /** The capacity test at each fragment amounts to one test of the total. */
  lemma FitsLater(limit: nat, cap: nat, n: nat, total: nat)
    requires n <= total
    ensures var cap' := GrownCap(cap, n);
            Fits(limit, cap, total) <==> Fits(limit, cap, n) && Fits(limit, cap', total)
  {
    var start := if cap == 0 then 4096 else 2 * cap;
    if cap < n < total {
      GrowTwice(start, n, total);
    }
  }

  /** How a non-final data frame is taken. */
  ghost predicate Stored(limit: nat, a: Assembly, f: Frame, d: Delivery) {
    var n := |a.data| + |f.payload|;
    && (d.rc == Success <==> (f.opcode == CONTINUATION || a.data == []) && Fits(limit, a.cap, n))
    && (d.rc == Success ==> d.out == [] && d.assembly == Assembly(a.data + f.payload, GrownCap(a.cap, n)))
    && (d.rc != Success ==> d.out == [Failed(d.rc)])
  }

  /** A non-final data frame is stored, or refused for one of two reasons. */
  lemma FragmentStored(limit: nat, a: Assembly, f: Frame)
    requires |a.data| <= a.cap && !IsControl(f) && !f.fin
    ensures Stored(limit, a, f, Deliver(limit, a, f.fin, f.opcode, f.payload))
  {
  }

  lemma LastFragment(limit: nat, a: Assembly, f: Frame)
    requires |a.data| <= a.cap && !IsControl(f) && f.fin
    ensures var d := Deliver(limit, a, f.fin, f.opcode, f.payload);
            d.rc == Success && d.assembly.data == [] && d.out == [Message(f.opcode, a.data + f.payload, true)]
  {
    assert a.data == [] ==> a.data + f.payload == f.payload;
  }

  /** How many octets all but the last frame bring. */
  function Front(fs: seq<Frame>): nat
    requires fs != []
  {
    |Payloads(fs[..|fs| - 1])|
  }

  lemma FrontStep(fs: seq<Frame>)
    requires |fs| > 1
    ensures Front(fs) == |fs[0].payload| + Front(fs[1..])
  {
    assert fs[..|fs| - 1][1..] == fs[1..][..|fs| - 2];
  }

  /** The outcome of the data frames `fs` of one message, behind the octets collected so far. */
  ghost predicate Reassembled(limit: nat, a: Assembly, fs: seq<Frame>, d: Delivery)
    requires fs != []
  {
    && (d.rc == Success <==> Continued(|a.data|, fs) && Fits(limit, a.cap, |a.data| + Front(fs)))
    && (d.rc == Success ==>
          d.out == [Message(fs[|fs| - 1].opcode, a.data + Payloads(fs), true)] && d.assembly.data == [])
    && (d.rc != Success ==> d.out == [Failed(d.rc)])
  }

  lemma ReassemblyEnds(limit: nat, a: Assembly, fs: seq<Frame>)
    requires |a.data| <= a.cap && OneMessage(fs) && |fs| == 1
    ensures Reassembled(limit, a, fs, RunFrames(limit, a, fs))
  {
    var f := fs[0];
    LastFragment(limit, a, f);
    var d := Deliver(limit, a, f.fin, f.opcode, f.payload);
    assert RunFrames(limit, d.assembly, fs[1..]) == Delivery(d.assembly, [], Success);
    assert Payloads(fs) == f.payload by {
      assert Payloads(fs[1..]) == [];
    }
    assert Front(fs) == 0;
  }

  lemma ReassemblyStep(limit: nat, a: Assembly, fs: seq<Frame>, d: Delivery, e: Delivery)
    requires |a.data| <= a.cap && |fs| > 1 && Stored(limit, a, fs[0], d)
    requires d.rc == Success ==> Reassembled(limit, d.assembly, fs[1..], e)
    ensures Reassembled(limit, a, fs, if d.rc != Success then d else Delivery(e.assembly, d.out + e.out, e.rc))
  {
    FrontStep(fs);
    FitsLater(limit, a.cap, |a.data| + |fs[0].payload|, |a.data| + Front(fs));
    Regroup(a.data, fs[0].payload, Payloads(fs[1..]));
    if d.rc == Success {
      assert fs[1..][|fs| - 2] == fs[|fs| - 1];
      assert d.out + e.out == e.out;
    }
  }

  /**
   * Reassembly: one message is delivered, whose payload is the concatenation of the fragments and
   * whose opcode is the last frame's, if and only if the non-final fragments fit and are continued
   * properly. Otherwise the one report is the error.
   */
  lemma {:induction false} Reassembly(limit: nat, a: Assembly, fs: seq<Frame>)
    requires |a.data| <= a.cap && OneMessage(fs)
    ensures Reassembled(limit, a, fs, RunFrames(limit, a, fs))
    decreases |fs|
  {
    if |fs| == 1 {
      ReassemblyEnds(limit, a, fs);
    } else {
      var f := fs[0];
      var d := Deliver(limit, a, f.fin, f.opcode, f.payload);
      FragmentStored(limit, a, f);
      if d.rc == Success {
        RestOfMessage(fs);
        Reassembly(limit, d.assembly, fs[1..]);
      }
      ReassemblyStep(limit, a, fs, d, RunFrames(limit, d.assembly, fs[1..]));
    }
  }

  lemma RestOfMessage(fs: seq<Frame>)
    requires OneMessage(fs) && |fs| > 1
    ensures OneMessage(fs[1..])
  {
    forall g | g in fs[1..]
      ensures !IsControl(g)
    {
      assert g in fs;
    }
  }

  /** What is reported for the fragments of one message and the control frames between them. */
  ghost predicate Interleaved(limit: nat, a: Assembly, fs: seq<Frame>, out: seq<Event>, rc: Status)
    requires Select(fs, false) != []
  {
    var data := Select(fs, false);
    && (rc == Success <==> Continued(|a.data|, data) && Fits(limit, a.cap, |a.data| + Front(data)))
    && (rc == Success ==>
          && SelectEvents(out, false) == [Message(data[|data| - 1].opcode, a.data + Payloads(data), true)]
          && SelectEvents(out, true) == EventsOf(Select(fs, true)))
    && (rc != Success ==> SelectEvents(out, false) == [Failed(rc)])
  }

  lemma InterleavedMessage(limit: nat, a: Assembly, fs: seq<Frame>)
    requires |a.data| <= a.cap && OneMessage(Select(fs, false)) && forall f <- fs :: IsControl(f) ==> f.fin
    ensures Interleaved(limit, a, fs, RunFrames(limit, a, fs).out, RunFrames(limit, a, fs).rc)
  {
    var d, e := RunFrames(limit, a, fs), RunFrames(limit, a, Select(fs, false));
    ControlErasable(limit, a, fs);
    Reassembly(limit, a, Select(fs, false));
    if d.rc == Success {
      ControlReported(limit, a, fs);
    }
    Conclude(limit, a, fs, d, e);
  }

  lemma Conclude(limit: nat, a: Assembly, fs: seq<Frame>, d: Delivery, e: Delivery)
    requires Select(fs, false) != [] && Reassembled(limit, a, Select(fs, false), e)
    requires SelectEvents(d.out, false) == e.out && d.rc == e.rc
    requires d.rc == Success ==> SelectEvents(d.out, true) == EventsOf(Select(fs, true))
    ensures Interleaved(limit, a, fs, d.out, d.rc)
  {
  }

  /**
   * A fragmented message on the wire, control frames anywhere between its fragments: one data
   * message comes out, and every control frame is reported.
   */
  lemma FragmentedMessage(m: Machine, fs: seq<Frame>)
    requires Between(m) && m.assembly.data == [] && AllReceivable(m.limit, fs)
    requires OneMessage(Select(fs, false))
    ensures var o := RunSettled(m, EncodeAll(fs));
            Interleaved(m.limit, m.assembly, fs, o.out, o.rc)
  {
    FramesRun(m, fs);
    InterleavedMessage(m.limit, m.assembly, fs);
  }
}
