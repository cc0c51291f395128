/** The WebSocket frame parser of src/http_ws.c: buffers updated in place, chunk by chunk. */
module WsParser {
  import opened Bytes
  import opened WsFrame
  import opened WsMachine

  class Parser {
    const limit: nat
    const maskingKey: array<byte>
    const extLenBuffer: array<byte>

    var state: Phase
    var fin: bool
    var opcode: nat
    var masked: bool
    var payloadLen: nat
    var payloadBuffer: array<byte>
    var payloadOffset: nat
    var extLenOffset: nat
    var maskOffset: nat
    var reassemblyBuffer: array<byte>
    var reassemblyOffset: nat
    /** The callbacks invoked so far, in order. */
    var delivered: seq<Event>

    ghost function Repr(): set<object>
      reads this
    {
      {this, maskingKey, extLenBuffer, payloadBuffer, reassemblyBuffer}
    }

    ghost predicate Shape()
      reads this
    {
      && maskingKey.Length == 4 && extLenBuffer.Length == 8
      && maskingKey != extLenBuffer
      && payloadBuffer != maskingKey && payloadBuffer != extLenBuffer
      && reassemblyBuffer != maskingKey && reassemblyBuffer != extLenBuffer
      && reassemblyBuffer != payloadBuffer
      && maskOffset <= 4 && extLenOffset <= 8
      && payloadOffset <= payloadBuffer.Length
      && reassemblyOffset <= reassemblyBuffer.Length
    }

    ghost function Collected(): Assembly
      requires Shape()
      reads this, reassemblyBuffer
    {
      Assembly(reassemblyBuffer[..reassemblyOffset], reassemblyBuffer.Length)
    }

    /** The abstract machine this object stands for. */
    ghost function Abs(): Machine
      requires Shape()
      reads this, Repr()
    {
      Machine(limit, state, fin, opcode, masked, payloadLen,
              maskingKey[..maskOffset], extLenBuffer[..extLenOffset],
              payloadBuffer[..payloadOffset], payloadBuffer.Length,
              Collected())
    }

    ghost predicate Valid()
      reads this, Repr()
    {
      Shape() && Wf(Abs())
    }

    /** `ws_parser_init` */
    constructor (limit: nat)
      ensures Valid() && fresh(Repr())
      ensures Abs() == Initial(limit) && delivered == []
    {
      this.limit := limit;
      maskingKey := new byte[4](_ => 0);
      extLenBuffer := new byte[8](_ => 0);
      state, fin, opcode, masked, payloadLen := ReadOpcode, false, 0, false, 0;
      payloadBuffer := new byte[4096](_ => 0);
      payloadOffset, extLenOffset, maskOffset := 0, 0, 0;
      reassemblyBuffer := new byte[0];
      reassemblyOffset := 0;
      delivered := [];
    }

    /** The effect of one outcome of the abstract machine. */
    twostate predicate Does(o: Outcome, rc: Status)
      requires old(Valid())
      reads this, Repr()
    {
      && Valid()
      && Abs() == o.m
      && delivered == old(delivered) + o.out
      && rc == o.rc
    }

    method OnOpcode(b: byte) returns (rc: Status)
      requires Valid() && state == ReadOpcode
      modifies this
      ensures Repr() == old(Repr())
      ensures Does(OpcodeByte(old(Abs()), b), rc)
    {
      fin := b / 128 == 1;
      opcode := b % 16;
      if b / 16 % 8 != 0 {
        delivered := delivered + [Failed(Framing)];
        return Framing;
      }
      if !fin && opcode >= 8 {
        delivered := delivered + [Failed(Framing)];
        return Framing;
      }
      state := ReadLen;
      return Success;
    }

    method OnLen(b: byte) returns (rc: Status)
      requires Valid() && state == ReadLen
      modifies this
      ensures Repr() == old(Repr())
      ensures Does(LenByte(old(Abs()), b), rc)
    {
      masked := b / 128 == 1;
      if b % 128 == 126 {
        state := ReadExt16;
        extLenOffset := 0;
      } else if b % 128 == 127 {
        state := ReadExt64;
        extLenOffset := 0;
      } else {
        payloadLen := b % 128;
        state := if masked then ReadMask else ReadPayload;
        payloadOffset := 0;
      }
      return Success;
    }

    /** Stores one octet of an extended length. */
    method PushExt(b: byte)
      requires Shape() && extLenOffset < 8
      modifies this`extLenOffset, extLenBuffer
      ensures Shape() && Abs() == old(Abs()).(ext := old(Abs()).ext + [b])
      ensures extLenOffset == old(extLenOffset) + 1
    {
      extLenBuffer[extLenOffset] := b;
      extLenOffset := extLenOffset + 1;
      assert extLenBuffer[..extLenOffset] == old(Abs()).ext + [b];
    }

    method SetLength(n: nat)
      requires Shape()
      modifies this`payloadLen, this`state, this`payloadOffset
      ensures Shape() && Abs() == LengthKnown(old(Abs()), n)
    {
      payloadLen := n;
      state := if masked then ReadMask else ReadPayload;
      payloadOffset := 0;
    }

    method OnExt16(b: byte) returns (rc: Status)
      requires Valid() && state == ReadExt16
      modifies this, extLenBuffer
      ensures Repr() == old(Repr())
      ensures Does(Ext16Byte(old(Abs()), b), rc)
    {
      ghost var m := Abs();
      PushExt(b);
      ByteKeepsWf(m, b);
      if extLenOffset == 2 {
        SetLength(FromBigEndian(extLenBuffer[..2]));
      }
      return Success;
    }

    method OnExt64(b: byte) returns (rc: Status)
      requires Valid() && state == ReadExt64
      modifies this, extLenBuffer
      ensures Repr() == old(Repr())
      ensures Does(Ext64Byte(old(Abs()), b), rc)
    {
      ghost var m := Abs();
      PushExt(b);
      ByteKeepsWf(m, b);
      rc := Success;
      if extLenOffset == 8 {
        rc := CheckLength();
      }
      assert Abs() == Ext64Byte(m, b).m;
    }

    /** The eight octets of the length are there: it is refused and reported beyond the limit. */
    method CheckLength() returns (rc: Status)
      requires Shape() && extLenOffset == 8
      modifies this`payloadLen, this`state, this`payloadOffset, this`delivered
      ensures var n := FromBigEndian(old(Abs().ext));
              && Shape() && Abs() == LengthKnown(old(Abs()), n)
              && rc == (if n > limit then TooBig else Success)
              && delivered == old(delivered) + if n > limit then [Failed(TooBig)] else []
    {
      SetLength(FromBigEndian(extLenBuffer[..8]));
      rc := Success;
      if payloadLen > limit {
        delivered := delivered + [Failed(TooBig)];
        rc := TooBig;
      }
    }

    method OnMask(b: byte) returns (rc: Status)
      requires Valid() && state == ReadMask
      modifies this, maskingKey
      ensures Repr() == old(Repr())
      ensures Does(MaskByte(old(Abs()), b), rc)
    {
      maskingKey[maskOffset] := b;
      maskOffset := maskOffset + 1;
      assert maskingKey[..maskOffset] == old(Abs().key) + [b];
      if maskOffset == 4 {
        state := ReadPayload;
        payloadOffset := 0;
      }
      return Success;
    }

    /** `realloc`: a buffer of `cap` octets that starts with the old contents. */
    static method Reallocate(buffer: array<byte>, cap: nat) returns (r: array<byte>)
      requires buffer.Length <= cap
      ensures fresh(r) && r.Length == cap && r[..buffer.Length] == buffer[..]
    {
      r := new byte[cap](_ => 0);
      forall k | 0 <= k < buffer.Length {
        r[k] := buffer[k];
      }
    }

    /** Grows the payload buffer to the length of the frame. */
    method Reserve()
      requires Valid() && state == ReadPayload
      modifies this`payloadBuffer
      ensures payloadBuffer == old(payloadBuffer) || fresh(payloadBuffer)
      ensures Valid()
      ensures Abs() == old(Abs()).(payloadCap := Max(old(payloadBuffer.Length), payloadLen))
    {
      if payloadLen > payloadBuffer.Length {
        payloadBuffer := Reallocate(payloadBuffer, payloadLen);
        assert payloadBuffer[..payloadOffset] == old(payloadBuffer[..payloadOffset]);
      }
    }

    /** `memcpy` of `data` behind the payload offset. */
    method CopyIn(data: seq<byte>)
      requires Shape() && payloadOffset + |data| <= payloadBuffer.Length
      modifies payloadBuffer
      ensures payloadBuffer[..payloadOffset + |data|] == old(payloadBuffer[..payloadOffset]) + data
    {
      forall k | 0 <= k < |data| {
        payloadBuffer[payloadOffset + k] := data[k];
      }
    }

    /** Copies `data` behind the payload offset and unmasks it there. */
    method CopyUnmasked(data: seq<byte>)
      requires Shape() && (masked ==> maskOffset == 4) && payloadOffset + |data| <= payloadBuffer.Length
      modifies payloadBuffer
      ensures payloadBuffer[..payloadOffset + |data|] == old(payloadBuffer[..payloadOffset]) +
              if masked then Mask(data, maskingKey[..4], payloadOffset) else data
    {
      CopyIn(data);
      if masked {
        UnmaskCopied(data, old(payloadBuffer[..payloadOffset]));
      }
    }

    method UnmaskCopied(data: seq<byte>, ghost before: seq<byte>)
      requires Shape() && maskOffset == 4 && payloadOffset == |before|
      requires payloadOffset + |data| <= payloadBuffer.Length
      requires payloadBuffer[..payloadOffset + |data|] == before + data
      modifies payloadBuffer
      ensures payloadBuffer[..payloadOffset + |data|] == before + Mask(data, old(maskingKey[..4]), payloadOffset)
    {
      Copied(payloadBuffer[..], before, data);
      assert payloadBuffer[..][..|before|] == payloadBuffer[..|before|];
      UnmaskInPlace(|data|);
    }

    /** Stores payload octets. */
    method Store(data: seq<byte>)
      requires Valid() && state == ReadPayload && payloadOffset + |data| <= payloadLen
      modifies this`payloadBuffer, this`payloadOffset, payloadBuffer
      ensures payloadBuffer == old(payloadBuffer) || fresh(payloadBuffer)
      ensures Shape() && Abs() == Absorb(old(Abs()), data)
    {
      ghost var m := Abs();
      Reserve();
      CopyUnmasked(data);
      payloadOffset := payloadOffset + |data|;
      assert Abs().payload == m.payload + Unmask(m, data);
    }

    /** Unmasks the `count` octets just copied behind the payload offset. */
    method UnmaskInPlace(count: nat)
      requires Shape() && maskOffset == 4
      requires payloadOffset + count <= payloadBuffer.Length
      modifies payloadBuffer
      ensures payloadBuffer[..payloadOffset + count] == old(payloadBuffer[..payloadOffset]) +
              Mask(old(payloadBuffer[payloadOffset..payloadOffset + count]), maskingKey[..4], payloadOffset)
    {
      for j := 0 to count
        invariant forall k :: 0 <= k < payloadOffset ==> payloadBuffer[k] == old(payloadBuffer[k])
        invariant forall k :: payloadOffset <= k < payloadOffset + j ==>
          payloadBuffer[k] == Xor(old(payloadBuffer[k]), maskingKey[k % 4])
        invariant forall k :: payloadOffset + j <= k < payloadOffset + count ==>
          payloadBuffer[k] == old(payloadBuffer[k])
      {
        payloadBuffer[payloadOffset + j] := Xor(payloadBuffer[payloadOffset + j], maskingKey[(payloadOffset + j) % 4]);
      }
    }

    /** Copies the payload behind the reassembly offset and advances the offset. */
    method AppendPayload()
      requires Shape() && payloadOffset == payloadLen
      requires reassemblyOffset + payloadLen <= reassemblyBuffer.Length
      modifies this`reassemblyOffset, reassemblyBuffer
      ensures Shape()
      ensures Collected() ==
              Assembly(old(Collected()).data + payloadBuffer[..payloadLen], reassemblyBuffer.Length)
    {
      forall k | 0 <= k < payloadLen {
        reassemblyBuffer[reassemblyOffset + k] := payloadBuffer[k];
      }
      reassemblyOffset := reassemblyOffset + payloadLen;
    }

    /** Grows the reassembly buffer to `cap`. */
    method GrowReassembly(cap: nat)
      requires Shape() && reassemblyBuffer.Length <= cap
      modifies this`reassemblyBuffer
      ensures Shape() && fresh(reassemblyBuffer)
      ensures Collected() == Assembly(old(Collected()).data, cap)
    {
      reassemblyBuffer := Reallocate(reassemblyBuffer, cap);
      assert reassemblyBuffer[..reassemblyOffset] == old(reassemblyBuffer[..reassemblyOffset]);
    }

    /** The capacity-doubling loop. */
    method DoubleUntil(start: nat, need: nat) returns (cap: nat)
      requires start > 0
      ensures cap == Grow(start, need)
    {
      cap := start;
      while cap < need
        invariant cap > 0 && Grow(start, need) == Grow(cap, need)
        decreases need - cap
      {
        cap := cap * 2;
      }
    }

    /** Room for `need` octets by doubling, unless that exceeds the limit. */
    method MakeRoom(need: nat) returns (fits: bool)
      requires Shape()
      modifies this`reassemblyBuffer
      ensures Shape() && (reassemblyBuffer == old(reassemblyBuffer) || fresh(reassemblyBuffer))
      ensures var was := old(reassemblyBuffer.Length);
              var cap := Grow(if was == 0 then 4096 else 2 * was, need);
              && (fits <==> need <= was || cap <= limit)
              && Collected() == Assembly(old(Collected()).data, if need <= was || cap > limit then was else cap)
      ensures fits ==> need <= reassemblyBuffer.Length
    {
      fits := true;
      if need > reassemblyBuffer.Length {
        var start := if reassemblyBuffer.Length == 0 then 4096 else 2 * reassemblyBuffer.Length;
        var cap := DoubleUntil(start, need);
        fits := cap <= limit;
        if fits {
          GrowReassembly(cap);
        }
      }
    }

    ghost predicate DataFrame()
      requires Shape()
      reads this
    {
      payloadOffset == payloadLen && opcode != CLOSE && opcode != PING && opcode != PONG
    }

    /** A non-final data frame: appends the payload to the reassembly buffer. */
    method AppendFragment() returns (rc: Status)
      requires Shape() && DataFrame() && !fin
      modifies this`reassemblyBuffer, this`reassemblyOffset, this`delivered, reassemblyBuffer
      ensures Shape()
      ensures reassemblyBuffer == old(reassemblyBuffer) || fresh(reassemblyBuffer)
      ensures var d := Deliver(limit, old(Collected()), false, opcode, old(payloadBuffer[..payloadLen]));
              Collected() == d.assembly && delivered == old(delivered) + d.out && rc == d.rc
    {
      ghost var a, p := Collected(), payloadBuffer[..payloadLen];
      ghost var d := Deliver(limit, a, false, opcode, p);
      if opcode != CONTINUATION && reassemblyOffset > 0 {
        delivered := delivered + [Failed(Framing)];
        return Framing;
      }
      assert |a.data + p| == reassemblyOffset + payloadLen;
      var fits := MakeRoom(reassemblyOffset + payloadLen);
      if !fits {
        delivered := delivered + [Failed(TooBig)];
        return TooBig;
      }
      AppendPayload();
      assert Collected() == d.assembly && d.out == [];
      assert delivered == old(delivered) + [];
      return Success;
    }

    /** A final data frame: delivers it, alone or behind the fragments collected so far. */
    method DeliverFinal()
      requires Shape() && DataFrame() && fin
      modifies this`reassemblyBuffer, this`reassemblyOffset, this`delivered, reassemblyBuffer
      ensures Shape()
      ensures reassemblyBuffer == old(reassemblyBuffer) || fresh(reassemblyBuffer)
      ensures var d := Deliver(limit, old(Collected()), true, opcode, old(payloadBuffer[..payloadLen]));
              Collected() == d.assembly && delivered == old(delivered) + d.out && d.rc == Success
    {
      if reassemblyOffset > 0 {
        if reassemblyOffset + payloadLen > reassemblyBuffer.Length {
          GrowReassembly(reassemblyOffset + payloadLen);
        }
        AppendPayload();
        delivered := delivered + [Message(opcode, reassemblyBuffer[..reassemblyOffset], true)];
        reassemblyOffset := 0;
      } else {
        delivered := delivered + [Message(opcode, payloadBuffer[..payloadLen], true)];
      }
    }

    /** The dispatch on the opcode of a complete frame. */
    method Dispatch() returns (rc: Status)
      requires Shape() && payloadOffset == payloadLen
      modifies this`reassemblyBuffer, this`reassemblyOffset, this`delivered, reassemblyBuffer
      ensures Shape()
      ensures reassemblyBuffer == old(reassemblyBuffer) || fresh(reassemblyBuffer)
      ensures var d := Deliver(limit, old(Collected()), fin, opcode, old(payloadBuffer[..payloadLen]));
              Collected() == d.assembly && delivered == old(delivered) + d.out && rc == d.rc
    {
      rc := Success;
      if opcode == CLOSE {
        var status: nat := 1005;
        if payloadLen >= 2 {
          status := 256 * payloadBuffer[0] as int + payloadBuffer[1] as int;
        }
        delivered := delivered + [Closed(status)];
      } else if opcode == PING || opcode == PONG {
        delivered := delivered + [Message(opcode, payloadBuffer[..payloadLen], fin)];
      } else if !fin {
        rc := AppendFragment();
      } else {
        DeliverFinal();
      }
    }

    /** The frame is complete: dispatches it and, on success, resets for the next one. */
    method FinishFrame() returns (rc: Status)
      requires Valid() && Pending(Abs())
      modifies this`state, this`maskOffset, this`extLenOffset, this`fin, this`opcode, this`masked, this`payloadLen
      modifies this`reassemblyBuffer, this`reassemblyOffset, this`delivered, reassemblyBuffer
      ensures reassemblyBuffer == old(reassemblyBuffer) || fresh(reassemblyBuffer)
      ensures Does(Finish(old(Abs())), rc)
    {
      rc := Dispatch();
      if rc == Success {
        ResetFrame();
      }
    }

    method ResetFrame()
      requires Valid()
      modifies this`state, this`maskOffset, this`extLenOffset, this`fin, this`opcode, this`masked, this`payloadLen
      ensures Valid()
      ensures Abs() == old(Abs()).(phase := ReadOpcode, key := [], ext := [],
                         fin := false, opcode := 0, masked := false, payloadLen := 0)
    {
      state := ReadOpcode;
      maskOffset := 0;
      extLenOffset := 0;
      fin, opcode, masked, payloadLen := false, 0, false, 0;
    }

    /** One octet outside the payload. */
    method OnHeader(b: byte) returns (rc: Status)
      requires Valid() && state != ReadPayload
      modifies this, maskingKey, extLenBuffer
      ensures Repr() == old(Repr())
      ensures Does(ByteOf(old(Abs()), b), rc)
    {
      match state
      case ReadOpcode => rc := OnOpcode(b);
      case ReadLen => rc := OnLen(b);
      case ReadExt16 => rc := OnExt16(b);
      case ReadExt64 => rc := OnExt64(b);
      case ReadMask => rc := OnMask(b);
    }

    /** One round of the payload branch. */
    method OnPayload(data: seq<byte>) returns (rc: Status)
      requires Valid() && state == ReadPayload && payloadOffset + |data| <= payloadLen
      modifies this, payloadBuffer, reassemblyBuffer
      ensures fresh(Repr() - old(Repr()))
      ensures Does(Absorbed(old(Abs()), data), rc)
    {
      Store(data);
      if payloadOffset == payloadLen {
        rc := FinishFrame();
      } else {
        rc := Success;
      }
    }

    /** One round of the loop, from position `at` of the chunk. */
    method OneRound(chunk: seq<byte>, at: nat) returns (rc: Status, next: nat)
      requires Valid() && at < |chunk|
      modifies this, maskingKey, extLenBuffer, payloadBuffer, reassemblyBuffer
      ensures fresh(Repr() - old(Repr()))
      ensures Valid()
      ensures var o := Round(old(Abs()), chunk[at..]);
              Abs() == o.m && delivered == old(delivered) + o.out && rc == o.rc
      ensures next == at + Consumed(old(Abs()), chunk[at..])
      ensures chunk[at..][Consumed(old(Abs()), chunk[at..])..] == chunk[next..]
    {
      ghost var m, rest := Abs(), chunk[at..];
      if state != ReadPayload {
        assert rest[0] == chunk[at] && Round(m, rest) == ByteOf(m, chunk[at]);
        rc := OnHeader(chunk[at]);
        next := at + 1;
      } else {
        var toCopy := Min(|chunk| - at, payloadLen - payloadOffset);
        ChunkPiece(chunk, at, toCopy);
        assert Round(m, rest) == Absorbed(m, chunk[at..at + toCopy]);
        rc := OnPayload(chunk[at..at + toCopy]);
        next := at + toCopy;
      }
    }

    /** One round, which keeps the outcome of the whole chunk in view. */
    method NextRound(chunk: seq<byte>, at: nat, ghost goal: Outcome,
                     ghost before: seq<Event>, ghost out: seq<Event>)
      returns (rc: Status, next: nat, ghost out': seq<Event>)
      requires Valid() && at < |chunk| && Leads(goal, out, Abs(), chunk[at..])
      requires delivered == before + out
      modifies this, maskingKey, extLenBuffer, payloadBuffer, reassemblyBuffer
      ensures fresh(Repr() - old(Repr()))
      ensures Valid() && at <= next <= |chunk|
      ensures delivered == before + out'
      ensures rc != Success ==> goal == Outcome(Abs(), out', rc)
      ensures rc == Success ==> Leads(goal, out', Abs(), chunk[next..])
      ensures rc == Success ==> at < next || (old(state) == ReadPayload && state == ReadOpcode)
    {
      ghost var m, rest := Abs(), chunk[at..];
      LeadsRound(goal, out, m, rest);
      ghost var o := Round(m, rest);
      out' := out + o.out;
      Regroup(before, out, o.out);
      rc, next := OneRound(chunk, at);
    }

    /** `ws_parser_feed`: exactly what the octets do one by one, up to the first error. */
    method Feed(chunk: seq<byte>) returns (rc: Status)
      requires Valid()
      modifies Repr()
      ensures fresh(Repr() - old(Repr()))
      ensures Valid()
      ensures var o := Run(old(Abs()), chunk);
              Abs() == o.m && delivered == old(delivered) + o.out && rc == o.rc
    {
      ghost var goal, before, out := Run(Abs(), chunk), delivered, [];
      var i := 0;
      rc := Success;
      LeadsStart(Abs(), chunk);
      assert chunk[i..] == chunk;
      while i < |chunk|
        invariant i <= |chunk| && rc == Success
        invariant Valid() && fresh(Repr() - old(Repr()))
        invariant delivered == before + out
        invariant Leads(goal, out, Abs(), chunk[i..])
        decreases |chunk| - i, if state == ReadPayload then 1 else 0
      {
        rc, i, out := NextRound(chunk, i, goal, before, out);
        if rc != Success {
          return;
        }
      }
      LeadsEnd(goal, out, Abs());
    }
  }

  lemma Copied(buf: seq<byte>, before: seq<byte>, data: seq<byte>)
    requires |before| + |data| <= |buf| && buf[..|before| + |data|] == before + data
    ensures buf[..|before|] == before && buf[|before|..|before| + |data|] == data
  {
    assert buf[..|before|] == (before + data)[..|before|];
    assert buf[|before|..|before| + |data|] == (before + data)[|before|..];
  }

  lemma ChunkPiece(chunk: seq<byte>, at: nat, n: nat)
    requires at + n <= |chunk|
    ensures chunk[at..at + n] == chunk[at..][..n] && chunk[at + n..] == chunk[at..][n..]
  {
  }
}
