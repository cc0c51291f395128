/**
 * WebSocket frames on the wire (RFC 6455 sections 5.2 and 5.3): masking and the
 * three header widths, as written by the sending half of src/http_ws.c.
 */
module WsFrame {
  import opened Bytes
  import opened Bits

  datatype Frame = Frame(fin: bool, opcode: nat, masked: bool, key: seq<byte>, payload: seq<byte>)

  const CONTINUATION := 0
  const CLOSE := 8
  const PING := 9
  const PONG := 10

  ghost predicate Encodable(f: Frame) {
    && f.opcode < 16
    && |f.key| == (if f.masked then 4 else 0)
    && |f.payload| < Pow256(8)
  }

  // ---------- masking ----------

  /** `data` masked with `key`, when its first octet stands at `offset` in the payload. */
  function Mask(data: seq<byte>, key: seq<byte>, offset: nat): (r: seq<byte>)
    requires |key| == 4
    ensures |r| == |data|
  {
    seq(|data|, i requires 0 <= i < |data| => Xor(data[i], key[(offset + i) % 4]))
  }

  lemma MaskTwice(data: seq<byte>, key: seq<byte>, offset: nat)
    requires |key| == 4
    ensures Mask(Mask(data, key, offset), key, offset) == data
  {
    forall i | 0 <= i < |data|
      ensures Mask(Mask(data, key, offset), key, offset)[i] == data[i]
    {
      XorTwice(data[i], key[(offset + i) % 4]);
    }
  }

  /** Masking a payload piece by piece is masking it at once. */
  lemma MaskSplit(a: seq<byte>, b: seq<byte>, key: seq<byte>, offset: nat)
    requires |key| == 4
    ensures Mask(a + b, key, offset) == Mask(a, key, offset) + Mask(b, key, offset + |a|)
  {
  }

  /** `ws_apply_mask`: masks the first `len` octets in place. */
  method ApplyMask(payload: array<byte>, len: nat, key: seq<byte>)
    requires len <= payload.Length && |key| == 4
    modifies payload
    ensures payload[..len] == Mask(old(payload[..len]), key, 0)
    ensures payload[len..] == old(payload[len..])
  {
    for i := 0 to len
      invariant forall k :: 0 <= k < i ==> payload[k] == Xor(old(payload[k]), key[k % 4])
      invariant forall k :: i <= k < payload.Length ==> payload[k] == old(payload[k])
    {
      payload[i] := Xor(payload[i], key[i % 4]);
    }
  }

  // ---------- headers ----------

  function Bit7(b: bool): int {
    if b then 128 else 0
  }

  /** The header octets of a frame, with the shortest length form that fits. */
  function Header(fin: bool, opcode: nat, masked: bool, len: nat): (r: seq<byte>)
    ensures |r| == HeaderLen(len)
  {
    [Bit7(fin) + opcode % 16] +
    if len <= 125 then [Bit7(masked) + len]
    else if len <= 65535 then [Bit7(masked) + 126] + BigEndian(len, 2)
    else [Bit7(masked) + 127] + BigEndian(len, 8)
  }

  function HeaderLen(len: nat): nat {
    if len <= 125 then 2 else if len <= 65535 then 4 else 10
  }

  /** `ws_pack_header_small` */
  method PackSmall(buf: array<byte>, fin: bool, opcode: nat, masked: bool, len: nat)
    returns (rc: Status, outLen: nat)
    requires buf.Length >= 10
    modifies buf
    ensures rc == (if len > 125 then Invalid else Success)
    ensures rc == Success ==> outLen == HeaderLen(len) && buf[..outLen] == Header(fin, opcode, masked, len)
    ensures rc != Success ==> buf[..] == old(buf[..])
  {
    if len > 125 {
      return Invalid, 0;
    }
    buf[0] := Bit7(fin) + opcode % 16;
    buf[1] := Bit7(masked) + len % 128;
    return Success, 2;
  }

  /** `ws_pack_header_medium` */
  method PackMedium(buf: array<byte>, fin: bool, opcode: nat, masked: bool, len: nat)
    returns (rc: Status, outLen: nat)
    requires buf.Length >= 10
    modifies buf
    ensures rc == (if len <= 125 || len > 65535 then Invalid else Success)
    ensures rc == Success ==> outLen == HeaderLen(len) && buf[..outLen] == Header(fin, opcode, masked, len)
    ensures rc != Success ==> buf[..] == old(buf[..])
  {
    if len <= 125 || len > 65535 {
      return Invalid, 0;
    }
    buf[0] := Bit7(fin) + opcode % 16;
    buf[1] := Bit7(masked) + 126;
    var net := BigEndian(len, 2);
    forall k | 0 <= k < 2 {
      buf[2 + k] := net[k];
    }
    return Success, 4;
  }

  /** `ws_pack_header_large` */
  method PackLarge(buf: array<byte>, fin: bool, opcode: nat, masked: bool, len: nat)
    returns (rc: Status, outLen: nat)
    requires buf.Length >= 10
    modifies buf
    ensures rc == (if len <= 65535 then Invalid else Success)
    ensures rc == Success ==> outLen == HeaderLen(len) && buf[..outLen] == Header(fin, opcode, masked, len)
    ensures rc != Success ==> buf[..] == old(buf[..])
  {
    if len <= 65535 {
      return Invalid, 0;
    }
    buf[0] := Bit7(fin) + opcode % 16;
    buf[1] := Bit7(masked) + 127;
    var net := BigEndian(len, 8);
    forall k | 0 <= k < 8 {
      buf[2 + k] := net[k];
    }
    return Success, 10;
  }

  // ---------- whole frames ----------

  /** The octets of one frame: header, masking key, masked payload. */
  function Encode(f: Frame): seq<byte>
    requires f.masked ==> |f.key| == 4
  {
    Header(f.fin, f.opcode, f.masked, |f.payload|) +
    if f.masked then f.key + Mask(f.payload, f.key, 0) else f.payload
  }

  function EncodeAll(fs: seq<Frame>): seq<byte>
    requires forall f <- fs :: f.masked ==> |f.key| == 4
  {
    if fs == [] then [] else Encode(fs[0]) + EncodeAll(fs[1..])
  }

  lemma EncodeAllAppend(a: seq<Frame>, b: seq<Frame>)
    requires forall f <- a + b :: f.masked ==> |f.key| == 4
    ensures forall f <- a :: f in a + b
    ensures forall f <- b :: f in a + b
    ensures EncodeAll(a + b) == EncodeAll(a) + EncodeAll(b)
  {
    EncodeAllConcat(a, b);
  }

  /** Every masked frame has a key of four octets. */
  ghost predicate Keyed(fs: seq<Frame>) {
    forall f <- fs :: f.masked ==> |f.key| == 4
  }

  lemma {:induction false} EncodeAllConcat(a: seq<Frame>, b: seq<Frame>)
    requires Keyed(a) && Keyed(b) && Keyed(a + b)
    ensures EncodeAll(a + b) == EncodeAll(a) + EncodeAll(b)
  {
    if a == [] {
      assert a + b == b;
    } else {
      assert (a + b)[0] == a[0] && (a + b)[1..] == a[1..] + b;
      EncodeAllConcat(a[1..], b);
      Regroup(Encode(a[0]), EncodeAll(a[1..]), EncodeAll(b));
    }
  }

  /** Every bit of a masked octet is the sum modulo 2 of the data's and the key's; the key's octets take turns. */
  lemma MaskBit(data: seq<byte>, key: seq<byte>, offset: nat, k: nat, i: nat)
    requires |key| == 4 && k < |data|
    ensures Bit(Mask(data, key, offset)[k], i) == (Bit(data[k], i) + Bit(key[(offset + k) % 4], i)) % 2
  {
    XorBit(data[k], key[(offset + k) % 4], i);
  }

  /** The opcodes of RFC 6455 section 11.8. */
  lemma OpcodesAssigned()
    ensures CONTINUATION == 0x0 && CLOSE == 0x8 && PING == 0x9 && PONG == 0xA
  {
  }
}
