/** Protected records of src/nxt/tls.hpp and the writing side of src/nxtrt/tls.cpp.
    The cipher and the key schedule are functions of which two laws are used. */
module TlsRecords {
  import opened Basics
  import opened Bits

  type Bytes = seq<byte>

  /** The AEAD, the key and IV derived from a traffic secret, and the next secret. */
  datatype Suite = Suite(
    seal: (Bytes, Bytes, Bytes, Bytes) -> Bytes,
    open: (Bytes, Bytes, Bytes, Bytes) -> Option<Bytes>,
    key: Bytes -> Bytes,
    iv: Bytes -> Bytes,
    next: Bytes -> Bytes)

  /** Opening undoes sealing, a tag is 16 bytes, an IV is 12. */
  ghost predicate Lawful(suite: Suite) {
    && (forall k, n, a, p :: suite.open(k, n, a, suite.seal(k, n, a, p)) == Some(p))
    && (forall k, n, a, p :: |suite.seal(k, n, a, p)| == |p| + 16)
    && (forall s :: |suite.iv(s)| == 12)
  }

  const Wrap: nat := 0x1_0000_0000_0000_0000

  // ----- nonces -----

  /** Byte `i` of eight, the most significant first. */
  function Digit(sequence: nat, i: nat): byte
    requires i < 8
  {
    Shifted(sequence, 7 - i) % 256
  }

  function NonceOf(iv: Bytes, sequence: nat): Bytes
    requires |iv| == 12
  {
    seq(12, k requires 0 <= k < 12 => if k < 4 then iv[k] else Xor(iv[k], Digit(sequence, k - 4)))
  }

  /** `tls13_record_nonce`, in place on the copy of the IV. */
  method RecordNonce(iv: Bytes, sequence: nat) returns (nonce: array<byte>)
    requires |iv| == 12
    ensures fresh(nonce) && nonce[..] == NonceOf(iv, sequence)
  {
    nonce := new byte[12];
    for i := 0 to 12
      invariant forall k :: 0 <= k < i ==> nonce[k] == iv[k]
    {
      nonce[i] := iv[i];
    }
    for i := 0 to 8
      invariant forall k :: 0 <= k < 12 ==> nonce[k] == if 4 <= k < 4 + i then NonceOf(iv, sequence)[k] else iv[k]
    {
      nonce[4 + i] := Xor(nonce[4 + i], Digit(sequence, i));
    }
  }

  lemma ShiftedOut(x: nat)
    requires x < Wrap
    ensures Shifted(x, 8) == 0
  {
    assert Shifted(x, 1) < 0x100_0000_0000_0000;
    assert Shifted(x, 2) < 0x1_0000_0000_0000;
    assert Shifted(x, 3) < 0x100_0000_0000;
    assert Shifted(x, 4) < 0x1_0000_0000;
    assert Shifted(x, 5) < 0x100_0000;
    assert Shifted(x, 6) < 0x1_0000;
    assert Shifted(x, 7) < 0x100;
  }

  lemma {:induction false} SameDigits(x: nat, y: nat, n: nat)
    requires n <= 8 && x < Wrap && y < Wrap
    requires forall i :: 0 <= i < 8 ==> Digit(x, i) == Digit(y, i)
    ensures Shifted(x, n) == Shifted(y, n)
    decreases 8 - n
  {
    if n == 8 {
      ShiftedOut(x);
      ShiftedOut(y);
    } else {
      SameDigits(x, y, n + 1);
      assert Digit(x, 7 - n) == Digit(y, 7 - n);
    }
  }

  /** Under one IV, two sequence numbers have one nonce only if they are equal. */
  lemma NonceInjective(iv: Bytes, x: nat, y: nat)
    requires |iv| == 12 && x < Wrap && y < Wrap && NonceOf(iv, x) == NonceOf(iv, y)
    ensures x == y
  {
    forall i | 0 <= i < 8
      ensures Digit(x, i) == Digit(y, i)
    {
      assert NonceOf(iv, x)[i + 4] == NonceOf(iv, y)[i + 4];
      XorInjective(iv[i + 4], Digit(x, i), Digit(y, i));
    }
    SameDigits(x, y, 0);
  }

  // ----- sealing and opening one record -----

  datatype Plain = Plain(inner: byte, content: Bytes)

  /** `tls13_record_aad`: the record's header. */
  function Header(kind: byte, version: nat, length: nat): Bytes {
    [kind, version / 256 % 256, version % 256, length / 256 % 256, length % 256]
  }

  /** The length a header states. */
  function LengthField(header: Bytes): nat
    requires |header| >= 5
  {
    var high: int, low: int := header[3], header[4];
    high * 256 + low
  }

  /** The record `seal_tls13_record` makes. */
  function SealedRecord(suite: Suite, secret: Bytes, sequence: nat, p: Plain): Bytes
    requires |suite.iv(secret)| == 12
  {
    RecordWith(suite, secret, NonceOf(suite.iv(secret), sequence), p)
  }

  /** A record sealed under a secret with the nonce given. */
  function RecordWith(suite: Suite, secret: Bytes, nonce: Bytes, p: Plain): Bytes {
    var header := Header(23, 0x0303, |p.content| + 1 + 16);
    header + suite.seal(suite.key(secret), nonce, header, p.content + [p.inner])
  }

  /** Without trailing zeros. */
  function Stripped(s: Bytes): Bytes {
    if s != [] && s[|s| - 1] == 0 then Stripped(s[..|s| - 1]) else s
  }

  /** What `open_tls13_record` finds. */
  function Opened(suite: Suite, secret: Bytes, sequence: nat, kind: byte, version: nat, payload: Bytes): Option<Plain>
    requires |suite.iv(secret)| == 12
  {
    if kind != 23 then None else
    var text := suite.open(suite.key(secret), NonceOf(suite.iv(secret), sequence), Header(kind, version, |payload|), payload);
    if text.None? then None else
    var inner := Stripped(text.value);
    if inner == [] then None else Some(Plain(inner[|inner| - 1], inner[..|inner| - 1]))
  }

  /** `tls13_read_keys`. */
  class TrafficKeys {
    var secret: Bytes
    var sequence: nat

    constructor (secret: Bytes)
      ensures this.secret == secret && sequence == 0
    {
      this.secret, sequence := secret, 0;
    }

    /** `seal_tls13_record`, and the nonce it used. */
    method Seal(suite: Suite, p: Plain) returns (record: Bytes, ghost used: Bytes)
      requires |suite.iv(secret)| == 12
      modifies `sequence
      ensures used == NonceOf(suite.iv(secret), old(sequence)) && record == RecordWith(suite, secret, used, p)
      ensures sequence == (old(sequence) + 1) % Wrap
    {
      var inner := p.content + [p.inner];
      var aad := Header(23, 0x0303, |inner| + 16);
      var nonce := RecordNonce(suite.iv(secret), sequence);
      sequence := (sequence + 1) % Wrap;
      used := nonce[..];
      record := aad + suite.seal(suite.key(secret), nonce[..], aad, inner);
    }

    /** `open_tls13_record` and `open_tls13_record_in_place`. */
    method Open(suite: Suite, kind: byte, version: nat, payload: Bytes) returns (r: Option<Plain>)
      requires |suite.iv(secret)| == 12
      modifies `sequence
      ensures r == Opened(suite, secret, old(sequence), kind, version, payload)
      ensures sequence == if kind == 23 then (old(sequence) + 1) % Wrap else old(sequence)
    {
      if kind != 23 {
        return None;
      }
      var nonce := RecordNonce(suite.iv(secret), sequence);
      sequence := (sequence + 1) % Wrap;
      var text := suite.open(suite.key(secret), nonce[..], Header(kind, version, |payload|), payload);
      if text.None? {
        return None;
      }
      var inner := text.value;
      while inner != [] && inner[|inner| - 1] == 0
        invariant Stripped(inner) == Stripped(text.value)
        decreases |inner|
      {
        inner := inner[..|inner| - 1];
      }
      if inner == [] {
        return None;
      }
      r := Some(Plain(inner[|inner| - 1], inner[..|inner| - 1]));
    }
  }

  /** The length field is exact exactly when the record fits in sixteen bits. */
  lemma LengthExact(suite: Suite, secret: Bytes, sequence: nat, p: Plain)
    requires Lawful(suite)
    ensures var r := SealedRecord(suite, secret, sequence, p);
            |r| == |p.content| + 22 && (LengthField(r) == |r| - 5 <==> |p.content| + 17 < 0x1_0000)
  {
    var n := |p.content| + 17;
    var header := Header(23, 0x0303, n);
    assert SealedRecord(suite, secret, sequence, p)[..5] == header;
  }

  /** A record of any content and a nonzero type opens to what was sealed. */
  lemma OpenSealed(suite: Suite, secret: Bytes, sequence: nat, p: Plain)
    requires Lawful(suite) && p.inner != 0
    ensures var r := SealedRecord(suite, secret, sequence, p);
            |r| >= 5 && r[0] == 23 && Opened(suite, secret, sequence, 23, 0x0303, r[5..]) == Some(p)
  {
    var header := Header(23, 0x0303, |p.content| + 1 + 16);
    var text := p.content + [p.inner];
    var cipher := suite.seal(suite.key(secret), NonceOf(suite.iv(secret), sequence), header, text);
    assert (header + cipher)[5..] == cipher;
    assert text[..|text| - 1] == p.content;
  }

  // ----- the formats, byte by byte -----

  /** The nonce is the IV, exclusive-or the counter in its last eight bytes, the most
      significant first (section 5.3 of RFC 8446). */
  lemma NonceIs(iv: Bytes, n: nat, k: nat)
    requires |iv| == 12 && k < 12
    ensures NonceOf(iv, n)[k] == Xor(iv[k], ([0, 0, 0, 0] + BigEndian(n, 8))[k])
  {
    hide Xor, BigEndian, Shifted;
    if k < 4 {
      XorZero(iv[k]);
    } else {
      BigEndianAt(n, 8, k - 4);
    }
  }

  /** A header is the type, and version and length in two bytes each, the most
      significant first; lengths are taken modulo two to the 16. */
  lemma HeaderIs(kind: byte, version: nat, length: nat)
    ensures Header(kind, version, length) == [kind] + BigEndian(version, 2) + BigEndian(length, 2)
    ensures LengthField(Header(kind, version, length)) == Number(BigEndian(length, 2))
  {
    TwoBigEndian(version);
    TwoBigEndian(length);
  }

  lemma TwoBigEndian(v: nat)
    ensures BigEndian(v, 2) == [v / 256 % 256, v % 256]
    ensures Number(BigEndian(v, 2)) == v / 256 % 256 * 256 + v % 256
  {
    assert BigEndian(v / 256, 1) == [v / 256 % 256];
    var s := BigEndian(v, 2);
    assert s[..1] == [v / 256 % 256] && s[..1][..0] == [];
    assert Number(s[..1]) == v / 256 % 256;
  }

  /** Opening finds the content and its type in front of any padding, and refuses a
      text of padding alone. */
  lemma OpenedIs(suite: Suite, secret: Bytes, sequence: nat, version: nat, payload: Bytes, content: Bytes, inner: byte, padding: nat)
    requires |suite.iv(secret)| == 12
    ensures var text := suite.open(suite.key(secret), NonceOf(suite.iv(secret), sequence), Header(23, version, |payload|), payload);
            var found := Opened(suite, secret, sequence, 23, version, payload);
            && (inner != 0 && text == Some(content + [inner] + Zeros(padding)) ==> found == Some(Plain(inner, content)))
            && (text == Some(Zeros(padding)) ==> found.None?)
            && (text.None? ==> found.None?)
  {
    hide NonceOf, Header;
    StripZeros([], padding);
    StripZeros(content + [inner], padding);
    assert [] + Zeros(padding) == Zeros(padding);
    assert (content + [inner])[..|content|] == content;
  }

  function Zeros(n: nat): (r: Bytes)
    ensures |r| == n
  {
    seq(n, _ => 0)
  }

  lemma {:induction false} StripZeros(s: Bytes, n: nat)
    ensures Stripped(s + Zeros(n)) == Stripped(s)
    ensures s != [] && s[|s| - 1] != 0 ==> Stripped(s) == s
    decreases n
  {
    if n == 0 {
      assert s + Zeros(0) == s;
    } else {
      var t := s + Zeros(n);
      assert t[..|t| - 1] == s + Zeros(n - 1);
      StripZeros(s, n - 1);
    }
  }
}
