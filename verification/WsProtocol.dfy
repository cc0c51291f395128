/**
 * The outbound queue of src/http_ws.c under concurrency: any number of senders and closers, and
 * the one transport that reads. Every critical section is one step; the reader's wait on the
 * condition variable, with spurious wakeups, and the gap between the two critical sections of
 * close are explicit.
 */
module WsProtocol {
  import opened Bytes
  import opened WsFrame
  import opened WsStream
  import opened WsMachine
  import opened WsAssembly
  import opened WsParser

  /** The reader: outside, waiting on the condition variable, or about to test the loop condition. */
  datatype Reader = Idle | Waiting(bufLen: nat) | Testing(bufLen: nat)

  /**
   * `accepted` and `returned` record history: the frames taken by send, and what each read returned.
   * `closing` counts calls of close that have sent their frame and not yet set the flag.
   */
  datatype State = State(
    queue: seq<byte>, closed: bool, reader: Reader, closing: nat,
    accepted: seq<Frame>, returned: seq<seq<byte>>, ended: bool)

  const Start := State([], false, Idle, 0, [], [], false)

  datatype Action =
    | Send(opcode: nat, payload: seq<byte>, key: seq<byte>)
    | CloseFrame(status: int, closeKey: seq<byte>)
    | CloseFlag
    | BeginRead(bufLen: nat)
    | Test
    | Spurious

  ghost predicate Fair(a: Action) {
    match a
    case Send(_, payload, key) => |key| == 4 && |payload| < Pow256(8)
    case CloseFrame(_, key) => |key| == 4
    case _ => true
  }

  /** Signalling the condition variable wakes the reader if it waits. */
  function Signal(r: Reader): Reader {
    if r.Waiting? then Testing(r.bufLen) else r
  }

  /** The critical section of send: refused after close, otherwise the whole frame is queued. */
  function Accept(s: State, f: Frame): State
    requires |f.key| == 4
  {
    if s.closed then s
    else s.(queue := s.queue + Encode(f), accepted := s.accepted + [f], reader := Signal(s.reader))
  }

  predicate Enabled(s: State, a: Action) {
    match a
    case Send(_, _, _) => true
    case CloseFrame(_, _) => true
    case CloseFlag => s.closing > 0
    case BeginRead(_) => s.reader.Idle?
    case Test => s.reader.Testing?
    case Spurious => s.reader.Waiting?
  }

  function Apply(s: State, a: Action): State
    requires Fair(a) && Enabled(s, a)
  {
    match a
    case Send(opcode, payload, key) => Accept(s, Sent(opcode, payload, key))
    case CloseFrame(status, key) =>
      var s' := Accept(s, Sent(CLOSE, StatusPayload(status), key));
      if s.closed then s' else s'.(closing := s.closing + 1)
    case CloseFlag => s.(closed := true, closing := s.closing - 1, reader := Signal(s.reader))
    case BeginRead(n) => s.(reader := Testing(n))
    case Test =>
      var n := s.reader.bufLen;
      if s.queue == [] && !s.closed then s.(reader := Waiting(n))
      else
        var k := Min(n, |s.queue|);
        s.(reader := Idle, returned := s.returned + [s.queue[..k]], queue := s.queue[k..],
           ended := s.ended || (k == 0 && n > 0))
    case Spurious => s.(reader := Signal(s.reader))
  }

  /** The state after a sequence of steps, if each of them was possible. */
  ghost predicate Runs(s: State, actions: seq<Action>, t: State)
    decreases |actions|
  {
    if actions == [] then s == t
    else Fair(actions[0]) && Enabled(s, actions[0]) && Runs(Apply(s, actions[0]), actions[1..], t)
  }

  ghost predicate Invariant(s: State) {
    && (forall f <- s.accepted :: f.fin && f.masked && Encodable(f))
    && Flatten(s.returned) + s.queue == EncodeAll(s.accepted)
    // no lost wakeup: the reader waits only while there is nothing for it
    && (s.reader.Waiting? ==> s.queue == [] && !s.closed)
    // the end of the stream is final
    && (s.ended ==> s.closed && s.queue == [])
    // the flag follows a CLOSE frame
    && (s.closed || s.closing > 0 ==> exists f :: f in s.accepted && f.opcode == CLOSE)
  }

  lemma StartInvariant()
    ensures Invariant(Start)
  {
  }

  lemma SentIsEncodable(opcode: nat, payload: seq<byte>, key: seq<byte>)
    requires |key| == 4 && |payload| < Pow256(8)
    ensures Encodable(Sent(opcode, payload, key))
  {
  }

  lemma AcceptConserves(s: State, f: Frame)
    requires (forall g <- s.accepted :: |g.key| == 4) && |f.key| == 4
    requires Flatten(s.returned) + s.queue == EncodeAll(s.accepted)
    ensures Flatten(s.returned) + (s.queue + Encode(f)) == EncodeAll(s.accepted + [f])
  {
    EncodeAllAppend(s.accepted, [f]);
    assert EncodeAll([f]) == Encode(f) + EncodeAll([]);
    assert Encode(f) + [] == Encode(f);
    Regroup(Flatten(s.returned), s.queue, Encode(f));
  }

  lemma AcceptInvariant(s: State, f: Frame)
    requires Invariant(s) && f.fin && f.masked && Encodable(f)
    ensures Invariant(Accept(s, f))
    ensures f.opcode == CLOSE && !s.closed ==> f in Accept(s, f).accepted
  {
    var t := Accept(s, f);
    if !s.closed {
      AcceptConserves(s, f);
      assert forall g <- s.accepted :: g in t.accepted;
      assert f in t.accepted;
    }
  }

  lemma TestInvariant(s: State)
    requires Invariant(s) && s.reader.Testing?
    ensures Invariant(Apply(s, Test))
  {
    if s.queue != [] || s.closed {
      var k := Min(s.reader.bufLen, |s.queue|);
      FlattenSnoc(s.returned, s.queue[..k]);
      assert (Flatten(s.returned) + s.queue[..k]) + s.queue[k..] == Flatten(s.returned) + s.queue;
    }
  }

  lemma InvariantStep(s: State, a: Action)
    requires Invariant(s) && Fair(a) && Enabled(s, a)
    ensures Invariant(Apply(s, a))
  {
    match a
    case Send(opcode, payload, key) =>
      SentIsEncodable(opcode, payload, key);
      AcceptInvariant(s, Sent(opcode, payload, key));
    case CloseFrame(status, key) =>
      var f := Sent(CLOSE, StatusPayload(status), key);
      assert Pow256(8) > 2;
      SentIsEncodable(CLOSE, StatusPayload(status), key);
      AcceptInvariant(s, f);
    case Test => TestInvariant(s);
    case _ =>
  }

  /** What can no longer change: history, the close flag, the accepted frames once it is set, the end. */
  ghost predicate Later(s: State, t: State) {
    && s.accepted <= t.accepted && s.returned <= t.returned
    && (s.closed ==> t.closed && t.accepted == s.accepted)
    && (s.ended ==> t.ended && Flatten(t.returned) == Flatten(s.returned))
  }

  lemma LaterStep(s: State, a: Action)
    requires Invariant(s) && Fair(a) && Enabled(s, a)
    ensures Later(s, Apply(s, a))
  {
    if a.Test? && s.ended {
      FlattenSnoc(s.returned, []);
    }
  }

  /** Safety over whole runs, from any state that satisfies the invariant. */
  lemma {:induction false} RunInvariant(s: State, actions: seq<Action>, t: State)
    requires Invariant(s) && Runs(s, actions, t)
    ensures Invariant(t) && Later(s, t)
    decreases |actions|
  {
    if actions != [] {
      var s1 := Apply(s, actions[0]);
      InvariantStep(s, actions[0]);
      LaterStep(s, actions[0]);
      RunInvariant(s1, actions[1..], t);
    }
  }

  ghost predicate Reachable(s: State) {
    exists actions :: Runs(Start, actions, s)
  }

  lemma {:induction false} RunsOneMore(s: State, actions: seq<Action>, t: State, a: Action)
    requires Runs(s, actions, t) && Fair(a) && Enabled(t, a)
    ensures Runs(s, actions + [a], Apply(t, a))
    decreases |actions|
  {
    if actions == [] {
      assert [a][1..] == [];
    } else {
      assert (actions + [a])[1..] == actions[1..] + [a];
      RunsOneMore(Apply(s, actions[0]), actions[1..], t, a);
    }
  }

  lemma ReachableStep(s: State, a: Action)
    requires Reachable(s) && Fair(a) && Enabled(s, a)
    ensures Reachable(Apply(s, a))
  {
    var actions :| Runs(Start, actions, s);
    RunsOneMore(Start, actions, s, a);
  }

  lemma ReachableInvariant(s: State)
    requires Reachable(s)
    ensures Invariant(s)
  {
    var actions :| Runs(Start, actions, s);
    StartInvariant();
    RunInvariant(Start, actions, s);
  }

  /** In every reachable state: what was read and what is queued are the accepted frames, whole. */
  lemma QueueConserved(t: State)
    requires Reachable(t)
    ensures forall f <- t.accepted :: f.fin && f.masked && |f.key| == 4
    ensures Flatten(t.returned) + t.queue == EncodeAll(t.accepted)
    ensures t.reader.Waiting? ==> t.queue == [] && !t.closed
    ensures t.closed ==> exists f :: f in t.accepted && f.opcode == CLOSE
  {
    ReachableInvariant(t);
  }

  /** Once close is requested, no later step of any thread adds a frame. */
  lemma NothingAfterClose(s: State, after: seq<Action>, t: State)
    requires Reachable(s) && Runs(s, after, t) && s.closed
    ensures t.closed && t.accepted == s.accepted
  {
    ReachableInvariant(s);
    RunInvariant(s, after, t);
  }

  /**
   * A read with a positive-size buffer returns nothing exactly when close is requested and the
   * queue is empty.
   */
  lemma EndOfStream(s: State)
    requires Reachable(s) && s.reader.Testing? && s.reader.bufLen > 0
    ensures var t := Apply(s, Test);
            && (t.returned == s.returned + [[]] <==> s.closed && s.queue == [])
            && (s.closed && s.queue == [] ==> t.ended)
  {
    if s.queue != [] {
      assert Apply(s, Test).returned[|s.returned|] != [];
    }
  }

  /** From then on every read returns nothing. */
  lemma EndIsFinal(s: State, after: seq<Action>, t: State)
    requires Reachable(s) && s.ended && Runs(s, after, t)
    ensures t.ended && t.closed && t.queue == [] && Flatten(t.returned) == Flatten(s.returned)
  {
    ReachableInvariant(s);
    RunInvariant(s, after, t);
  }

  /** A read can begin whenever none is under way, and a waiting reader can be woken at any time, for no reason. */
  lemma ReadsAnytime(s: State, bufLen: nat)
    ensures s.reader == Idle ==>
              Enabled(s, BeginRead(bufLen)) && Apply(s, BeginRead(bufLen)) == s.(reader := Testing(bufLen))
    ensures s.reader == Waiting(bufLen) ==> Enabled(s, Spurious) && Apply(s, Spurious) == s.(reader := Testing(bufLen))
  {
  }

  // ---------- the steps are the critical sections of the class ----------

  /** The stream object is in the state of the step system. */
  ghost predicate Shows(stream: Stream, s: State)
    reads stream, stream.queue
  {
    stream.Valid() && stream.Contents() == s.queue && stream.closeRequested == s.closed
  }

  /** The critical section of send is the step `Send`. */
  method SendStep(stream: Stream, opcode: nat, payload: seq<byte>, key: seq<byte>, ghost s: State) returns (rc: Status)
    requires Shows(stream, s) && |key| == 4 && |payload| < Pow256(8)
    modifies stream`queue, stream`queueLen, stream.queue
    ensures Shows(stream, Apply(s, Send(opcode, payload, key)))
    ensures rc == Success <==> Apply(s, Send(opcode, payload, key)).accepted != s.accepted
  {
    rc := stream.Send(opcode, payload, key);
  }

  /** The copying part of a read is the step `Test` that ends it. */
  method ReadStep(stream: Stream, ghost s: State, bufLen: nat) returns (data: seq<byte>)
    requires Shows(stream, s) && s.reader == Testing(bufLen) && (s.queue != [] || s.closed)
    modifies stream`queueLen, stream.queue
    ensures Shows(stream, Apply(s, Test)) && Apply(s, Test).returned == s.returned + [data]
  {
    data := stream.Read(bufLen);
    assert data == s.queue[..Min(bufLen, |s.queue|)];
  }

  /** The second critical section of close is the step `CloseFlag`. */
  method FlagStep(stream: Stream, ghost s: State)
    requires Shows(stream, s) && s.closing > 0
    modifies stream`closeRequested
    ensures Shows(stream, Apply(s, CloseFlag))
  {
    stream.RequestClose();
  }

  // ---------- what stands behind the CLOSE frame ----------

  /** The steps that put a frame into the queue while the flag is not set. */
  predicate Sends(a: Action) {
    a.Send? || a.CloseFrame?
  }

  function FrameOf(a: Action): Frame
    requires Sends(a)
  {
    if a.Send? then Sent(a.opcode, a.payload, a.key) else Sent(CLOSE, StatusPayload(a.status), a.closeKey)
  }

  /** The frames sent in front of the first `CloseFlag`. */
  function FramesOf(actions: seq<Action>): seq<Frame> {
    if actions == [] || actions[0] == CloseFlag then []
    else (if Sends(actions[0]) then [FrameOf(actions[0])] else []) + FramesOf(actions[1..])
  }

  /** Over every run: exactly the frames sent in front of the flag are accepted, in order. */
  lemma {:induction false} AcceptedExactly(s: State, actions: seq<Action>, t: State)
    requires !s.closed && Runs(s, actions, t)
    ensures t.accepted == s.accepted + FramesOf(actions)
    ensures t.closed <==> CloseFlag in actions
    decreases |actions|
  {
    if actions == [] {
      assert s.accepted + [] == s.accepted;
    } else {
      var a, s1 := actions[0], Apply(s, actions[0]);
      if a == CloseFlag {
        StaysClosed(s1, actions[1..], t);
        assert s.accepted + [] == s.accepted;
      } else {
        AcceptedExactly(s1, actions[1..], t);
        AcceptedStep(s, a);
        Regroup(s.accepted, if Sends(a) then [FrameOf(a)] else [], FramesOf(actions[1..]));
      }
    }
  }

  lemma AcceptedStep(s: State, a: Action)
    requires !s.closed && Fair(a) && Enabled(s, a) && a != CloseFlag
    ensures !Apply(s, a).closed
    ensures Apply(s, a).accepted == s.accepted + if Sends(a) then [FrameOf(a)] else []
  {
    assert s.accepted + [] == s.accepted;
  }

  lemma {:induction false} StaysClosed(s: State, actions: seq<Action>, t: State)
    requires s.closed && Runs(s, actions, t)
    ensures t.closed && t.accepted == s.accepted
    decreases |actions|
  {
    if actions != [] {
      StaysClosed(Apply(s, actions[0]), actions[1..], t);
    }
  }

  /** Whatever sends does so behind the flag. */
  predicate QuietUntilFlag(actions: seq<Action>) {
    forall k :: 0 <= k < |actions| && Sends(actions[k]) ==> CloseFlag in actions[..k]
  }

  lemma {:induction false} QuietExactly(actions: seq<Action>)
    ensures QuietUntilFlag(actions) <==> FramesOf(actions) == []
  {
    if actions != [] {
      var a, more := actions[0], actions[1..];
      QuietExactly(more);
      assert forall k :: 0 < k <= |actions| ==> actions[..k] == [a] + more[..k - 1];
      if a == CloseFlag {
        assert forall k :: 0 < k <= |actions| ==> a in actions[..k];
      } else if !Sends(a) {
        assert forall k :: 0 < k <= |actions| ==> (CloseFlag in actions[..k] <==> CloseFlag in more[..k - 1]);
        assert forall k :: 0 <= k < |more| ==> more[k] == actions[k + 1];
      } else {
        assert CloseFlag !in actions[..0];
      }
    }
  }

  /**
   * The exact condition: behind a frame just accepted - the CLOSE frame of a call of close, or any
   * other - nothing is accepted in the rest of the run if and only if every send of any thread
   * lies behind the flag.
   */
  lemma LastAccepted(s: State, a: Action, after: seq<Action>, t: State)
    requires !s.closed && Sends(a) && Fair(a) && Runs(Apply(s, a), after, t)
    ensures Apply(s, a).accepted == s.accepted + [FrameOf(a)]
    ensures t.accepted == Apply(s, a).accepted <==> QuietUntilFlag(after)
  {
    AcceptedStep(s, a);
    AcceptedExactly(Apply(s, a), after, t);
    QuietExactly(after);
    assert FramesOf(after) == [] ==> Apply(s, a).accepted + FramesOf(after) == Apply(s, a).accepted;
  }

  /**
   * A call of close: between its CLOSE frame and a flag, the accepted frames are unchanged - and
   * CLOSE is the last frame for ever - if and only if none of the steps in between sends.
   */
  lemma CloseIsLast(s: State, close: Action, between: seq<Action>, after: seq<Action>, t: State)
    requires !s.closed && close.CloseFrame? && Fair(close) && CloseFlag !in between
    requires Runs(Apply(s, close), between + [CloseFlag] + after, t)
    ensures t.closed
    ensures t.accepted == s.accepted + [FrameOf(close)] <==> forall a <- between :: !Sends(a)
  {
    var rest := between + [CloseFlag] + after;
    AcceptedStep(s, close);
    AcceptedExactly(Apply(s, close), rest, t);
    assert rest[|between|] == CloseFlag;
    LastAccepted(s, close, rest, t);
    forall k | 0 <= k < |between|
      ensures rest[k] == between[k] && CloseFlag !in rest[..k]
    {
      assert rest[..k] == between[..k];
    }
    forall k | |between| < k < |rest|
      ensures CloseFlag in rest[..k]
    {
      assert rest[..k][|between|] == CloseFlag;
    }
    assert !Sends(CloseFlag);
  }

  /**
   * A CLOSE frame sent with plain send never sets the flag: as long as nobody calls close, every
   * send is accepted behind it and the stream does not end.
   */
  lemma PlainSendNeverCloses(s: State, actions: seq<Action>, t: State)
    requires !s.closed && s.closing == 0 && !s.ended && Runs(s, actions, t)
    requires forall a <- actions :: !a.CloseFrame?
    ensures !t.closed && !t.ended && t.accepted == s.accepted + FramesOf(actions)
  {
    NeverClosed(s, actions, t);
    AcceptedExactly(s, actions, t);
  }

  lemma {:induction false} NeverClosed(s: State, actions: seq<Action>, t: State)
    requires !s.closed && s.closing == 0 && !s.ended && Runs(s, actions, t)
    requires forall a <- actions :: !a.CloseFrame?
    ensures !t.closed && !t.ended
    decreases |actions|
  {
    if actions != [] {
      assert forall a <- actions[1..] :: a in actions;
      NeverClosed(Apply(s, actions[0]), actions[1..], t);
    }
  }

  /** Between the two critical sections of close. */
  ghost predicate HalfClosed(s: State) {
    Reachable(s) && s.closing > 0 && !s.closed && |s.accepted| == 1 && s.accepted[0].opcode == CLOSE
  }

  lemma CloseBegun(status: int, key: seq<byte>) returns (s: State)
    requires |key| == 4
    ensures HalfClosed(s)
  {
    assert Runs(Start, [], Start);
    ReachableStep(Start, CloseFrame(status, key));
    s := Apply(Start, CloseFrame(status, key));
  }

  lemma SentBetween(s: State, a: Action) returns (t: State)
    requires HalfClosed(s) && a.Send? && a.opcode == 1 && Fair(a)
    ensures Reachable(t) && t.closed && |t.accepted| == 2
    ensures t.accepted[0].opcode == CLOSE && t.accepted[1].opcode == 1
  {
    ReachableStep(s, a);
    ReachableStep(Apply(s, a), CloseFlag);
    t := Apply(Apply(s, a), CloseFlag);
  }

  /**
   * Close is two critical sections: a frame sent between them is queued behind the CLOSE frame.
   */
  lemma FrameBehindClose()
    ensures exists t :: Reachable(t) && t.closed && |t.accepted| == 2
                        && t.accepted[0].opcode == CLOSE && t.accepted[1].opcode == 1
  {
    var key: seq<byte> := [0, 0, 0, 0];
    var s := CloseBegun(1000, key);
    assert Pow256(8) > 1;
    var _ := SentBetween(s, Send(1, [65], key));
  }

  // ---------- end to end ----------

  /** The frames are within the limit of the receiving parser. */
  ghost predicate Within(limit: nat, fs: seq<Frame>) {
    forall f <- fs :: |f.payload| > 65535 ==> |f.payload| <= limit
  }

  lemma AcceptedReceivable(limit: nat, t: State)
    requires Invariant(t) && Within(limit, t.accepted)
    ensures AllReceivable(limit, t.accepted) && forall f <- t.accepted :: f.fin
  {
  }

  /**
   * Round trip: whatever the interleaving, the keys and the sizes of the reads, feeding what was
   * read to a fresh parser reports the accepted frames in order. Nothing is reported wrongly
   * before the queue is drained; a last frame without payload is reported with the next octet.
   */
  lemma EndToEnd(t: State, limit: nat)
    requires Reachable(t) && Within(limit, t.accepted)
    ensures var o := RunChunks(Initial(limit), t.returned);
            && o.rc == Success
            && o.out <= EventsOf(t.accepted)
            && (t.queue == [] ==> Prepend(o.out, Settle(o.m)).out == EventsOf(t.accepted))
            && (t.queue == [] && t.accepted != [] && t.accepted[|t.accepted| - 1].payload != [] ==>
                  o.out == EventsOf(t.accepted))
  {
    ReachableInvariant(t);
    FedWhole(Initial(limit), t.returned);
    AcceptedReported(t, limit);
    PrefixReported(Initial(limit), Flatten(t.returned), t.queue);
    if t.queue == [] {
      assert Flatten(t.returned) + [] == Flatten(t.returned);
      if t.accepted != [] {
        LastReported(t, limit);
      }
    }
  }

  lemma AcceptedReported(t: State, limit: nat)
    requires Invariant(t) && Within(limit, t.accepted)
    ensures var o := RunSettled(Initial(limit), EncodeAll(t.accepted));
            o.rc == Success && o.out == EventsOf(t.accepted)
  {
    AcceptedReceivable(limit, t);
    FramesRun(Initial(limit), t.accepted);
    WholeFrames(limit, Initial(limit).assembly, t.accepted);
  }

  lemma LastReported(t: State, limit: nat)
    requires Invariant(t) && Within(limit, t.accepted) && t.accepted != []
    ensures t.accepted[|t.accepted| - 1].payload != [] ==>
            Run(Initial(limit), EncodeAll(t.accepted)).out == EventsOf(t.accepted)
  {
    AcceptedReceivable(limit, t);
    var front, last := t.accepted[..|t.accepted| - 1], t.accepted[|t.accepted| - 1];
    assert t.accepted == front + [last];
    assert forall f <- front :: f in t.accepted;
    WholeFrames(limit, Initial(limit).assembly, front);
    WholeFrames(limit, Initial(limit).assembly, t.accepted);
    LastFrameRun(Initial(limit), front, last);
  }

  /** What a part of the input reports is a prefix of what the whole reports. */
  lemma PrefixReported(m: Machine, a: seq<byte>, b: seq<byte>)
    requires Wf(m) && RunSettled(m, a + b).rc == Success
    ensures Run(m, a).rc == Success && Run(m, a).out <= RunSettled(m, a + b).out
  {
    RunConcat(m, a, b);
  }

  // ---------- what the senders gave is what is reported ----------

  /** What the peer is to hear of a call: the message, or the status of a close in sixteen bits. */
  function HeardOf(a: Action): Event
    requires Sends(a)
  {
    if a.CloseFrame? then Closed(a.status % 65536)
    else if a.opcode % 16 != CLOSE then Message(a.opcode % 16, a.payload, true)
    else Closed(if |a.payload| < 2 then 1005 else FromBigEndian(a.payload[..2]))
  }

  /** Of all calls that send in front of the first `CloseFlag`, in order. */
  function HeardOfAll(actions: seq<Action>): seq<Event> {
    if actions == [] || actions[0] == CloseFlag then []
    else (if Sends(actions[0]) then [HeardOf(actions[0])] else []) + HeardOfAll(actions[1..])
  }

  lemma StatusHeard(payload: seq<byte>)
    ensures CloseStatus(payload) == if |payload| < 2 then 1005 else FromBigEndian(payload[..2])
  {
    if |payload| >= 2 {
      var two := payload[..2];
      assert two[..1] == [payload[0]] && two[..1][..0] == [];
      assert FromBigEndian(two[..1]) == payload[0];
    }
  }

  lemma FrameHeard(a: Action)
    requires Sends(a)
    ensures EventOf(FrameOf(a)) == HeardOf(a)
  {
    if a.Send? {
      StatusHeard(a.payload);
    } else {
      var p := StatusPayload(a.status);
      StatusHeard(p);
      StatusRead(a.status);
      assert p[..2] == p;
    }
  }

  lemma {:induction false} FramesHeard(actions: seq<Action>)
    ensures EventsOf(FramesOf(actions)) == HeardOfAll(actions)
  {
    if actions != [] && actions[0] != CloseFlag {
      FramesHeard(actions[1..]);
      if Sends(actions[0]) {
        FrameHeard(actions[0]);
        var f, more := FrameOf(actions[0]), FramesOf(actions[1..]);
        assert EventsOf([f] + more) == [EventOf(f)] + EventsOf(more);
      } else {
        assert [] + FramesOf(actions[1..]) == FramesOf(actions[1..]);
        assert [] + HeardOfAll(actions[1..]) == HeardOfAll(actions[1..]);
      }
    }
  }

  /**
   * From the calls to the callbacks: over every run, a fresh parser fed with what was read reports
   * what the senders and closers gave, in order - every message with its opcode and payload, every
   * close with the status of its call.
   */
  lemma SentIsHeard(actions: seq<Action>, t: State, limit: nat)
    requires Runs(Start, actions, t) && Within(limit, t.accepted)
    ensures var o := RunChunks(Initial(limit), t.returned);
            && o.rc == Success
            && o.out <= HeardOfAll(actions)
            && (t.queue == [] ==> Prepend(o.out, Settle(o.m)).out == HeardOfAll(actions))
  {
    AcceptedExactly(Start, actions, t);
    assert [] + FramesOf(actions) == FramesOf(actions);
    FramesHeard(actions);
    EndToEnd(t, limit);
  }

  lemma CloseFrameRun(limit: nat, status: int, key: seq<byte>)
    requires |key| == 4
    ensures var o := Run(Initial(limit), Encode(Sent(CLOSE, StatusPayload(status), key)));
            o.rc == Success && o.out == [Closed(status % 65536)]
  {
    var f := Sent(CLOSE, StatusPayload(status), key);
    assert Pow256(8) > 2;
    SentIsEncodable(CLOSE, StatusPayload(status), key);
    WholeFrames(limit, Initial(limit).assembly, []);
    WholeFrames(limit, Initial(limit).assembly, [f]);
    assert [] + [f] == [f];
    LastFrameRun(Initial(limit), [], f);
    assert EncodeAll([f]) == Encode(f) + EncodeAll([]);
    assert Encode(f) + [] == Encode(f);
    FrameHeard(CloseFrame(status, key));
    assert EventsOf([f]) == [EventOf(f)];
  }

  /** A stream is closed, drained, and what it held is fed to a parser: the status arrives. */
  method CloseIsHeard(limit: nat, status: int, key: seq<byte>) returns (parser: Parser)
    requires |key| == 4
    ensures parser.delivered == [Closed(status % 65536)]
  {
    var stream := new Stream();
    ghost var octets := Encode(Sent(CLOSE, StatusPayload(status), key));
    var rc := stream.Close(status, key);
    assert [] + octets == octets && |octets| == 8;
    var data := stream.Read(4096);
    assert data == octets;
    parser := new Parser(limit);
    CloseFrameRun(limit, status, key);
    rc := parser.Feed(data);
  }
}
