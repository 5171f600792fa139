/** Handshake messages of section 4 of RFC 8446: a type, the length of the body in
    three bytes, the most significant first, and the body. */
module TlsMessages {
  import opened Basics
  import opened Bits

  type Bytes = seq<byte>

  /** The bound on retained handshake data. */
  const Max: nat := 1024 * 1024

  /** The length a message's header states, header included. */
  function Size(m: Bytes): (n: nat)
    requires |m| >= 4
    ensures n >= 4
  {
    var high: int, middle: int, low: int := m[1], m[2], m[3];
    4 + high * 65536 + middle * 256 + low
  }

  function Handshake(kind: byte, body: Bytes): Bytes {
    [kind] + (BigEndian(|body|, 3) + body)
  }

  /** One whole message of this type, within the bound. */
  ghost predicate Message(m: Bytes, kind: byte) {
    exists body :: m == Handshake(kind, body) && |m| <= Max
  }

  /** The length read from the header is the message's length exactly for messages. */
  lemma MessageIs(m: Bytes, kind: byte)
    ensures Message(m, kind) <==> |m| >= 4 && Size(m) == |m| <= Max && m[0] == kind
  {
    if Message(m, kind) {
      var body :| m == Handshake(kind, body) && |m| <= Max;
      assert m[1..4] == BigEndian(|body|, 3);
      Small(|body|);
      NumberOf(|body|, 3);
      ThreeBytes(m[1..4]);
    }
    if |m| >= 4 && Size(m) == |m| <= Max && m[0] == kind {
      var body := m[4..];
      ThreeBytes(m[1..4]);
      BigEndianOf(m[1..4]);
      assert m == [kind] + (m[1..4] + body);
      assert m == Handshake(kind, body);
    }
  }

  lemma Small(v: nat)
    requires v < Max
    ensures Shifted(v, 3) == 0
  {
    assert Shifted(v, 1) < 65536;
    assert Shifted(v, 2) < 256;
  }

  lemma ThreeBytes(s: Bytes)
    requires |s| == 3
    ensures var high: int, middle: int, low: int := s[0], s[1], s[2];
            Number(s) == high * 65536 + middle * 256 + low
  {
    assert s[..2][..1] == s[..1] && s[..1][..0] == [];
    assert Number(s[..1]) == s[0];
    assert Number(s[..2]) == Number(s[..1]) * 256 + s[1];
  }
}
