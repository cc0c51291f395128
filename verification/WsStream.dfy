/** The outbound side of src/http_ws.c: frames are appended to a byte queue, a reader drains it. */
module WsStream {
  import opened Bytes
  import opened WsFrame

  /** The frame that `c_abstract_http_ws_send` writes: final, masked, opcode cut to four bits. */
  function Sent(opcode: nat, payload: seq<byte>, key: seq<byte>): Frame {
    Frame(true, opcode % 16, true, key, payload)
  }

  /** The payload of a CLOSE frame: the status cut to sixteen bits, in network order. */
  function StatusPayload(status: int): (r: seq<byte>)
    ensures |r| == 2
  {
    [status % 65536 / 256, status % 256]
  }

  /** The peer reads the low sixteen bits of the status. */
  lemma StatusRead(status: int)
    ensures FromBigEndian(StatusPayload(status)) == status % 65536
  {
    var p := StatusPayload(status);
    assert p[..1] == [p[0]] && p[..1][..0] == [];
    assert FromBigEndian(p[..1]) == p[0];
  }

  class Stream {
    var queue: array<byte>
    var queueLen: nat
    var closeRequested: bool

    ghost predicate Valid()
      reads this
    {
      queueLen <= queue.Length
    }

    ghost function Contents(): seq<byte>
      requires Valid()
      reads this, queue
    {
      queue[..queueLen]
    }

    constructor ()
      ensures Valid() && fresh(queue)
      ensures Contents() == [] && !closeRequested
    {
      queue := new byte[4096](_ => 0);
      queueLen := 0;
      closeRequested := false;
    }

    /** Makes room for `extra` octets by doubling the capacity. */
    method Reserve(extra: nat)
      requires Valid()
      modifies this`queue
      ensures Valid() && Contents() == old(Contents())
      ensures queueLen + extra <= queue.Length
      ensures queue == old(queue) || fresh(queue)
    {
      if queueLen + extra > queue.Length {
        var cap := if queue.Length == 0 then 4096 else queue.Length * 2;
        while cap < queueLen + extra
          invariant cap > 0 && cap >= queue.Length
          decreases queueLen + extra - cap
        {
          cap := cap * 2;
        }
        var grown := new byte[cap](_ => 0);
        forall k | 0 <= k < queueLen {
          grown[k] := queue[k];
        }
        assert grown[..queueLen] == queue[..queueLen];
        queue := grown;
      }
    }

    method Append(data: seq<byte>)
      requires Valid() && queueLen + |data| <= queue.Length
      modifies this`queueLen, queue
      ensures Valid() && Contents() == old(Contents()) + data
    {
      forall k | 0 <= k < |data| {
        queue[queueLen + k] := data[k];
      }
      queueLen := queueLen + |data|;
    }

    /** Appends one frame's octets. */
    method Enqueue(head: seq<byte>, key: seq<byte>, body: seq<byte>)
      requires Valid()
      modifies this`queue, this`queueLen, queue
      ensures Valid() && (queue == old(queue) || fresh(queue))
      ensures Contents() == old(Contents()) + (head + (key + body))
    {
      Reserve(|head| + |key| + |body|);
      Append(head);
      Append(key);
      Append(body);
    }

    /** `c_abstract_http_ws_send`, with the masking key as an input. */
    method Send(opcode: nat, payload: seq<byte>, key: seq<byte>) returns (rc: Status)
      requires Valid() && |key| == 4
      modifies this`queue, this`queueLen, queue
      ensures Valid() && (queue == old(queue) || fresh(queue))
      ensures rc == if closeRequested then Invalid else Success
      ensures Contents() == old(Contents()) + if rc == Success then Encode(Sent(opcode, payload, key)) else []
    {
      var body := MaskedCopy(payload, key);
      var head := PackHeader(opcode, |payload|);
      if closeRequested {
        return Invalid;
      }
      SentOctets(opcode, payload, key, head, body);
      Enqueue(head, key, body);
      return Success;
    }

    /** The copying part of `ws_read_chunk_cb`, entered once there is data or a close request. */
    method Read(bufLen: nat) returns (data: seq<byte>)
      requires Valid() && (queueLen > 0 || closeRequested)
      modifies this`queueLen, queue
      ensures Valid()
      ensures data + Contents() == old(Contents())
      ensures |data| == Min(bufLen, |old(Contents())|)
    {
      if queueLen > 0 {
        var toCopy := Min(queueLen, bufLen);
        data := queue[..toCopy];
        forall k | 0 <= k < queueLen - toCopy {
          queue[k] := queue[k + toCopy];
        }
        queueLen := queueLen - toCopy;
      } else {
        data := [];
      }
    }

    /** The second critical section of `c_abstract_http_ws_close`. */
    method RequestClose()
      requires Valid()
      modifies this`closeRequested
      ensures Valid() && Contents() == old(Contents()) && closeRequested
    {
      closeRequested := true;
    }

    /** `c_abstract_http_ws_close` without interference between its two critical sections. */
    method Close(status: int, key: seq<byte>) returns (rc: Status)
      requires Valid() && |key| == 4
      modifies this, queue
      ensures Valid() && (queue == old(queue) || fresh(queue))
      ensures rc == (if old(closeRequested) then Invalid else Success) && closeRequested
      ensures Contents() == old(Contents()) +
              if rc == Success then Encode(Sent(CLOSE, StatusPayload(status), key)) else []
      ensures FromBigEndian(StatusPayload(status)) == status % 65536
    {
      StatusRead(status);
      rc := Send(CLOSE, StatusPayload(status), key);
      if rc != Success {
        return;
      }
      RequestClose();
    }
  }

  method MaskedCopy(payload: seq<byte>, key: seq<byte>) returns (body: seq<byte>)
    requires |key| == 4
    ensures body == Mask(payload, key, 0)
  {
    var len := |payload|;
    var masked := new byte[len](i requires 0 <= i < len => payload[i]);
    assert masked[..len] == payload;
    ApplyMask(masked, len, key);
    body := masked[..len];
  }

  /** Chooses among the three header widths. */
  method PackHeader(opcode: nat, len: nat) returns (head: seq<byte>)
    ensures head == Header(true, opcode, true, len)
  {
    var header := new byte[10](_ => 0);
    var rc, n;
    if len <= 125 {
      rc, n := PackSmall(header, true, opcode, true, len);
    } else if len <= 65535 {
      rc, n := PackMedium(header, true, opcode, true, len);
    } else {
      rc, n := PackLarge(header, true, opcode, true, len);
    }
    head := header[..n];
  }

  lemma SentOctets(opcode: nat, payload: seq<byte>, key: seq<byte>, head: seq<byte>, body: seq<byte>)
    requires |key| == 4
    requires head == Header(true, opcode, true, |payload|) && body == Mask(payload, key, 0)
    ensures Encode(Sent(opcode, payload, key)) == head + (key + body)
  {
    assert opcode % 16 % 16 == opcode % 16;
  }
}
