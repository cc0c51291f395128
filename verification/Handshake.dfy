/**
 * The opening handshake of src/http_ws.c: signing a client key and checking the server's answer
 * (RFC 6455 section 4.2.2).
 */
module Handshake {
  import opened Bytes
  import B64 = Base64
  import Sha1
  import Sha1Stream

  /** The 36 octets of 258EAFA5-E914-47DA-95CA-C5AB0DC85B11. */
  const GUID: seq<byte> :=
    [50, 53, 56, 69, 65, 70, 65, 53, 45, 69, 57, 49, 52, 45, 52, 55, 68, 65]
    + [45, 57, 53, 67, 65, 45, 67, 53, 65, 66, 48, 68, 67, 56, 53, 66, 49, 49]

  lemma GuidLength()
    ensures |GUID| == 36
  {
  }

  function Accept(key: seq<byte>): seq<byte> {
    B64.Encoded(Sha1.Digest(key + GUID))
  }

  /** The Base64 text of a digest. */
  method DigestText(message: seq<byte>) returns (text: seq<byte>)
    requires |message| < 0x2000_0000
    ensures text == B64.Encoded(Sha1.Digest(message)) && |text| == 28
  {
    Sha1Stream.ShortAdmitted(0, [message]);
    var digest := Sha1Stream.DigestOf([message]);
    assert [message][1..] == [] && Flatten([message]) == message + Flatten([]);
    assert message + [] == message;
    text := B64.Encode(digest);
    B64.EncodedLength(digest);
  }

  /** `ws_sign_key`: keys of 64 octets and more are refused. */
  method Sign(key: seq<byte>) returns (rc: Status, accept: seq<byte>)
    ensures rc == if |key| < 64 then Success else Invalid
    ensures rc == Success ==> accept == Accept(key) && |accept| == 28
  {
    GuidLength();
    if |key| + |GUID| >= 100 {
      return Invalid, [];
    }
    accept := DigestText(key + GUID);
    rc := Success;
  }

  lemma {:induction false} OrNatZero(a: nat, b: nat)
    ensures OrNat(a, b) == 0 <==> a == 0 && b == 0
  {
    if a > 0 && b > 0 {
      OrNatZero(a / 2, b / 2);
    }
  }

  lemma {:induction false} XorNatZero(a: nat, b: nat)
    ensures XorNat(a, b) == 0 <==> a == b
  {
    if a > 0 && b > 0 {
      XorNatZero(a / 2, b / 2);
    }
  }

  /** `math_is_const_time_streq`: every octet is looked at, whatever the outcome. */
  method ConstantTimeEqual(a: seq<byte>, b: seq<byte>) returns (equal: bool)
    ensures equal <==> a == b
  {
    if |a| != |b| {
      return false;
    }
    var diff: nat := 0;
    for i := 0 to |a|
      invariant diff == 0 <==> a[..i] == b[..i]
    {
      OrNatZero(diff, Xor(a[i], b[i]));
      XorNatZero(a[i], b[i]);
      assert a[..i + 1] == a[..i] + [a[i]] && b[..i + 1] == b[..i] + [b[i]];
      diff := OrNat(diff, Xor(a[i], b[i]));
    }
    assert a[..|a|] == a && b[..|b|] == b;
    equal := diff == 0;
  }

  /** `ws_verify_accept` */
  method Verify(key: seq<byte>, serverAccept: seq<byte>) returns (rc: Status)
    ensures rc == if |key| >= 64 then Invalid else if serverAccept == Accept(key) then Success else BadHandshake
  {
    var accept;
    rc, accept := Sign(key);
    if rc != Success {
      return;
    }
    var equal := ConstantTimeEqual(accept, serverAccept);
    if equal {
      return Success;
    }
    return BadHandshake;
  }

  /** An accepted answer decodes to the digest of the key and the GUID. */
  lemma AcceptDecodes(key: seq<byte>)
    ensures |Accept(key)| % 4 == 0 && B64.Decoded(Accept(key)) == Sha1.Digest(key + GUID)
  {
    B64.EncodedLength(Sha1.Digest(key + GUID));
    B64.RoundTrip(Sha1.Digest(key + GUID));
  }

  /** The identifier of RFC 6455 section 1.3, in its own spelling. */
  lemma GuidSpelled()
    ensures GUID == Ascii("258EAFA5-E914-47DA-95CA-C5AB0DC85B11")
  {
  }
}
