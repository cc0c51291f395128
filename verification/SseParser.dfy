/** The server-sent events parser of src/http_sse.c: line and data buffers filled in place. */
module SseParser {
  import opened Bytes
  import opened SseMachine

  class Parser {
    const limit: nat
    var lineBuffer: array<byte>
    var lineOffset: nat
    var currentEvent: seq<byte>
    var currentData: array<byte>
    var dataOffset: nat
    var lastEventId: Option<seq<byte>>
    var retryMs: int
    /** Set when the data's terminator was stored one past its buffer. */
    var overrun: bool
    /** The callbacks invoked so far, in order. */
    var delivered: seq<Report>

    ghost function Repr(): set<object>
      reads this
    {
      {this, lineBuffer, currentData}
    }

    ghost predicate Valid()
      reads this
    {
      && lineBuffer != currentData
      && lineOffset < lineBuffer.Length
      && dataOffset <= currentData.Length && 0 < currentData.Length
    }

    ghost function Abs(): (m: Machine)
      requires Valid()
      reads this, Repr()
      ensures Wf(m)
    {
      Machine(limit, lineBuffer[..lineOffset], lineBuffer.Length, currentEvent,
              currentData[..dataOffset], currentData.Length, lastEventId, retryMs, overrun)
    }

    /** `sse_parser_init` */
    constructor (limit: nat, id: Option<seq<byte>>, retry: int)
      ensures Valid() && fresh(Repr())
      ensures Abs() == Initial(limit, id, retry) && delivered == []
    {
      this.limit := limit;
      lineBuffer := new byte[1024](_ => 0);
      lineOffset := 0;
      currentEvent := MESSAGE;
      currentData := new byte[4096](_ => 0);
      dataOffset := 0;
      lastEventId := id;
      retryMs := if retry > 0 then retry else 3000;
      overrun := false;
      delivered := [];
    }

    /** `realloc` */
    static method Reallocate(buffer: array<byte>, cap: nat) returns (r: array<byte>)
      requires buffer.Length <= cap
      ensures fresh(r) && r.Length == cap && r[..buffer.Length] == buffer[..]
    {
      r := new byte[cap](_ => 0);
      forall k | 0 <= k < buffer.Length {
        r[k] := buffer[k];
      }
    }

    /** Makes room for `need` octets of data and a terminator, or reports that the limit is passed. */
    method ReserveData(need: nat) returns (rc: Status)
      requires Valid()
      modifies this`currentData, this`delivered
      ensures currentData == old(currentData) || fresh(currentData)
      ensures Valid()
      ensures if need <= old(currentData.Length) then
                rc == Success && Abs() == old(Abs()) && delivered == old(delivered)
              else
                var cap := Grow(2 * old(currentData.Length), need + 1);
                if cap > limit then
                  rc == TooBig && Abs() == old(Abs()) && delivered == old(delivered) + [Failed(TooBig)]
                else rc == Success && Abs() == old(Abs()).(dataCap := cap) && delivered == old(delivered)
    {
      if need > currentData.Length {
        var start := 2 * currentData.Length;
        var cap := start;
        while cap < need + 1
          invariant cap >= start && Grow(start, need + 1) == Grow(cap, need + 1)
          decreases need + 1 - cap
        {
          cap := cap * 2;
        }
        if cap > limit {
          delivered := delivered + [Failed(TooBig)];
          return TooBig;
        }
        currentData := Reallocate(currentData, cap);
        assert currentData[..dataOffset] == old(currentData[..dataOffset]);
      }
      return Success;
    }

    /** Copies a value and a line feed behind the data, and stores the terminator. */
    method StoreData(value: seq<byte>)
      requires Valid() && dataOffset + |value| + 1 <= currentData.Length
      modifies this`dataOffset, this`overrun, currentData
      ensures Valid()
      ensures currentData[..dataOffset] == old(currentData[..dataOffset]) + value + [LF]
      ensures overrun == (old(overrun) || dataOffset == currentData.Length)
    {
      forall k | 0 <= k < |value| {
        currentData[dataOffset + k] := value[k];
      }
      dataOffset := dataOffset + |value|;
      currentData[dataOffset] := LF;
      dataOffset := dataOffset + 1;
      assert currentData[..dataOffset] == old(currentData[..dataOffset]) + value + [LF];
      if dataOffset < currentData.Length {
        currentData[dataOffset] := 0;
      } else {
        overrun := true;
      }
    }

    method OnData(value: seq<byte>) returns (rc: Status)
      requires Valid()
      modifies this`currentData, this`dataOffset, this`overrun, this`delivered, currentData
      ensures currentData == old(currentData) || fresh(currentData)
      ensures Valid()
      ensures var o := AppendData(old(Abs()), value);
              Abs() == o.m && delivered == old(delivered) + o.out && rc == o.rc
    {
      rc := ReserveData(dataOffset + |value| + 1);
      if rc == Success {
        StoreData(value);
      }
    }

    method OnEmptyLine()
      requires Valid()
      modifies this`currentEvent, this`dataOffset, this`delivered, currentData
      ensures Valid()
      ensures var o := Dispatch(old(Abs()));
              Abs() == o.m && delivered == old(delivered) + o.out
    {
      if dataOffset > 0 {
        ghost var data := currentData[..dataOffset];
        currentData[dataOffset - 1] := 0;
        dataOffset := dataOffset - 1;
        assert currentData[..dataOffset] == data[..|data| - 1];
        delivered := delivered + [Dispatched(lastEventId, currentEvent, currentData[..dataOffset])];
      }
      currentEvent := MESSAGE;
      dataOffset := 0;
      currentData[0] := 0;
    }

    /** `memchr` for the colon. */
    static method FindColon(line: seq<byte>) returns (k: nat)
      ensures k == ColonAt(line)
    {
      k := 0;
      while k < |line| && line[k] != COLON
        invariant k <= |line| && ColonAt(line) == k + ColonAt(line[k..])
      {
        assert line[k..][1..] == line[k + 1..];
        k := k + 1;
      }
    }

    /** `sse_process_line` */
    method ProcessOneLine(line: seq<byte>) returns (rc: Status)
      requires Valid()
      modifies this`currentEvent, this`currentData, this`dataOffset, this`lastEventId, this`retryMs
      modifies this`overrun, this`delivered, currentData
      ensures currentData == old(currentData) || fresh(currentData)
      ensures Valid()
      ensures var o := ProcessLine(old(Abs()), line);
              Abs() == o.m && delivered == old(delivered) + o.out && rc == o.rc
    {
      rc := Success;
      if |line| == 0 {
        OnEmptyLine();
        return;
      }
      if line[0] == COLON {
        return;
      }
      var k := FindColon(line);
      var field, value := line[..k], [];
      if k < |line| {
        value := line[k + 1..];
        if |value| > 0 && value[0] == SPACE {
          value := value[1..];
        }
      }
      assert value == Value(line);
      if field == EVENT {
        currentEvent := value;
      } else if field == DATA {
        rc := OnData(value);
      } else if field == ID {
        lastEventId := Some(value);
      } else if field == RETRY {
        var copyLen := if |value| < 31 then |value| else 31;
        retryMs := Atoi(value[..copyLen]);
      }
    }

    /** An ordinary octet joins the line. */
    method OnOctet(c: byte) returns (rc: Status)
      requires Valid() && c != CR && c != LF
      modifies this`lineBuffer, this`lineOffset, this`delivered, lineBuffer
      ensures lineBuffer == old(lineBuffer) || fresh(lineBuffer)
      ensures Valid()
      ensures var o := StepByte(old(Abs()), c);
              Abs() == o.m && delivered == old(delivered) + o.out && rc == o.rc
    {
      if lineOffset + 1 >= lineBuffer.Length {
        var cap := lineBuffer.Length * 2;
        if cap > limit {
          delivered := delivered + [Failed(NoMemory)];
          return NoMemory;
        }
        lineBuffer := Reallocate(lineBuffer, cap);
        assert lineBuffer[..lineOffset] == old(lineBuffer[..lineOffset]);
      }
      lineBuffer[lineOffset] := c;
      lineOffset := lineOffset + 1;
      assert lineBuffer[..lineOffset] == old(lineBuffer[..lineOffset]) + [c];
      return Success;
    }

    /** One turn of the loop. */
    method OneOctet(c: byte) returns (rc: Status)
      requires Valid()
      modifies this, lineBuffer, currentData
      ensures fresh(Repr() - old(Repr()))
      ensures Valid()
      ensures var o := StepByte(old(Abs()), c);
              Abs() == o.m && delivered == old(delivered) + o.out && rc == o.rc
    {
      rc := Success;
      if c == CR || c == LF {
        TerminateLine();
      }
      if c == CR {
      } else if c == LF {
        rc := ProcessOneLine(lineBuffer[..lineOffset]);
        if rc == Success {
          lineOffset := 0;
        }
      } else {
        rc := OnOctet(c);
      }
    }

    /** The line's terminator always has room. */
    method TerminateLine()
      requires Valid()
      modifies lineBuffer
      ensures Abs() == old(Abs())
    {
      lineBuffer[lineOffset] := 0;
      assert lineBuffer[..lineOffset] == old(lineBuffer[..lineOffset]);
    }

    /** One turn, which keeps the outcome of the whole chunk in view. */
    method NextOctet(chunk: seq<byte>, i: nat, ghost goal: Outcome, ghost before: seq<Report>, ghost out: seq<Report>)
      returns (rc: Status, ghost out': seq<Report>)
      requires Valid() && i < |chunk| && Leads(goal, out, Abs(), chunk[i..]) && delivered == before + out
      modifies this, lineBuffer, currentData
      ensures fresh(Repr() - old(Repr()))
      ensures Valid() && delivered == before + out'
      ensures if rc != Success then goal == Outcome(Abs(), out', rc) else Leads(goal, out', Abs(), chunk[i + 1..])
    {
      ghost var o := StepByte(Abs(), chunk[i]);
      assert chunk[i..][1..] == chunk[i + 1..];
      LeadsStep(goal, out, Abs(), chunk[i..]);
      out' := out + o.out;
      Regroup(before, out, o.out);
      rc := OneOctet(chunk[i]);
    }

    /** `sse_parser_feed`: what the octets do one by one, up to the first error. */
    method Feed(chunk: seq<byte>) returns (rc: Status)
      requires Valid()
      modifies Repr()
      ensures fresh(Repr() - old(Repr()))
      ensures Valid()
      ensures var o := Run(old(Abs()), chunk);
              Abs() == o.m && delivered == old(delivered) + o.out && rc == o.rc
    {
      ghost var goal, before, out := Run(Abs(), chunk), delivered, [];
      rc := Success;
      LeadsStart(Abs(), chunk);
      assert chunk[0..] == chunk;
      for i := 0 to |chunk|
        invariant rc == Success && Valid() && fresh(Repr() - old(Repr()))
        invariant delivered == before + out
        invariant Leads(goal, out, Abs(), chunk[i..])
      {
        rc, out := NextOctet(chunk, i, goal, before, out);
        if rc != Success {
          return;
        }
      }
      assert chunk[|chunk|..] == [];
      LeadsEnd(goal, out, Abs());
    }
  }

  /** A parser fed with one event, the usual space behind the colon: it reports the value as it was meant. */
  method FeedEvent(limit: nat, id: Option<seq<byte>>, retry: int, value: seq<byte>) returns (parser: Parser)
    requires Plain(value) && LineFits(1024, limit, |value| + 6) && DataFits(limit, |value|)
    ensures parser.delivered == [Dispatched(id, Ascii("message"), value)]
  {
    parser := new Parser(limit, id, retry);
    SpacedEvent(limit, id, retry, value);
    var _ := parser.Feed(Ascii("data: ") + value + Ascii("\n\n"));
  }
}
