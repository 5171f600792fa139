/** Frames of src/nxtrt/websocket.hpp: what the client writes and what it takes
    for a frame (section 5.2 of RFC 6455). */
module WebSocketFrames {
  import opened Basics
  import opened Bits

  type Bytes = seq<byte>

  // ----- the head of a frame -----

  datatype Head = Head(fin: bool, opcode: nat, size: nat, width: nat)

  predicate KnownOpcode(opcode: nat) {
    opcode == 0 || opcode == 1 || opcode == 2 || opcode == 8 || opcode == 9 || opcode == 10
  }

  predicate Control(opcode: nat) {
    opcode >= 8
  }

  const Half: nat := 0x8000_0000_0000_0000

  /** The size and how many bytes stated it, unless in a longer form than needed. */
  ghost function LengthAt(b: Bytes): (r: Option<(nat, nat)>)
    ensures r.Some? ==> 1 <= r.value.1 <= |b| && r.value.0 < Half
  {
    if |b| == 0 then None
    else if b[0] % 128 == 126 then
      if |b| < 3 || Number(b[1..3]) < 126 then None
      else
        BigEndianOf(b[1..3]);
        ShortNumber(b[1..3]);
        Some((Number(b[1..3]), 3))
    else if b[0] % 128 == 127 then
      if |b| < 9 || Number(b[1..9]) < 65536 || Number(b[1..9]) >= Half then None else Some((Number(b[1..9]), 9))
    else Some((b[0] % 128, 1))
  }

  lemma ShortNumber(s: Bytes)
    requires |s| == 2
    ensures Number(s) < 65536
  {
    assert s[..1][..0] == [];
    assert Number(s[..1]) == s[0] <= 255;
  }

  /** What the client takes the first bytes of a frame for. */
  ghost function HeadOf(b: Bytes): (r: Option<Head>)
    ensures r.Some? ==> 2 <= r.value.width <= |b| && KnownOpcode(r.value.opcode)
    ensures r.Some? && Control(r.value.opcode) ==> r.value.fin && r.value.size <= 125
  {
    if |b| < 2 then None else
    var first: int, second: int := b[0], b[1];
    var fin, opcode := first >= 128, first % 16;
    if first / 16 % 8 != 0 || second >= 128 || !KnownOpcode(opcode) then None
    else if Control(opcode) && (!fin || second > 125) then None
    else
      var length := LengthAt(b[1..]);
      if length.None? then None else Some(Head(fin, opcode, length.value.0, 1 + length.value.1))
  }

  // ----- the length field -----

  /** The form of a length: the shortest. */
  function LengthForm(size: nat): Bytes {
    if size < 126 then [size]
    else if size <= 65535 then [126] + BigEndian(size, 2)
    else [127] + BigEndian(size, 8)
  }

  lemma ShiftedSmall(v: nat)
    ensures v < 0x1_0000 ==> Shifted(v, 2) == 0
    ensures v < Half ==> Shifted(v, 8) == 0
  {
    if v < 0x1_0000 {
      assert Shifted(v, 1) < 256;
    }
    if v < Half {
      assert Shifted(v, 1) < 0x80_0000_0000_0000;
      assert Shifted(v, 2) < 0x8000_0000_0000;
      assert Shifted(v, 3) < 0x80_0000_0000;
      assert Shifted(v, 4) < 0x8000_0000;
      assert Shifted(v, 5) < 0x80_0000;
      assert Shifted(v, 6) < 0x8000;
      assert Shifted(v, 7) < 0x80;
    }
  }

  /** The reader accepts a length exactly in the form the writer gives it. */
  lemma LengthCanonical(b: Bytes, size: nat)
    ensures b != [] && b[0] < 128 && LengthAt(b).Some? && LengthAt(b).value.0 == size ==>
              LengthForm(size) <= b && LengthAt(b).value.1 == |LengthForm(size)|
    ensures LengthForm(size) <= b && size < Half ==> LengthAt(b) == Some((size, |LengthForm(size)|))
  {
    hide Number, Shifted, BigEndian;
    var form := LengthForm(size);
    if b != [] && b[0] < 128 && LengthAt(b).Some? && LengthAt(b).value.0 == size {
      if b[0] == 126 {
        ShortNumber(b[1..3]);
      }
      if |form| == 3 {
        BigEndianOf(b[1..3]);
        assert b[..3] == [b[0]] + b[1..3];
      } else if |form| == 9 {
        BigEndianOf(b[1..9]);
        assert b[..9] == [b[0]] + b[1..9];
      } else {
        assert b[..1] == [b[0]];
      }
    }
    if form <= b && size < Half {
      ShiftedSmall(size);
      assert b[..|form|] == form;
      assert form[0] == b[0];
      if |form| == 3 {
        NumberOf(size, 2);
        assert b[1..3] == form[1..3] == BigEndian(size, 2);
      } else if |form| == 9 {
        NumberOf(size, 8);
        assert b[1..9] == form[1..9] == BigEndian(size, 8);
      }
    }
  }

  // ----- frames from the server -----

  datatype Frame = Frame(fin: bool, opcode: nat, payload: Bytes)

  predicate FrameOk(f: Frame) {
    && KnownOpcode(f.opcode) && |f.payload| < Half
    && (Control(f.opcode) ==> f.fin && |f.payload| <= 125)
  }

  function FrameBytes(f: Frame): Bytes
    requires FrameOk(f)
  {
    [(if f.fin then 128 else 0) + f.opcode] + LengthForm(|f.payload|) + f.payload
  }

  /** A frame's bytes, whatever follows, have that frame's head and payload. */
  lemma FrameRead(f: Frame, rest: Bytes)
    requires FrameOk(f)
    ensures var b := FrameBytes(f) + rest;
            var n := 1 + |LengthForm(|f.payload|)|;
            && HeadOf(b) == Some(Head(f.fin, f.opcode, |f.payload|, n))
            && n + |f.payload| <= |b|
            && b[n..n + |f.payload|] == f.payload && b[n + |f.payload|..] == rest
  {
    hide LengthAt, LengthForm;
    var form := LengthForm(|f.payload|);
    FormByte(|f.payload|);
    var b := FrameBytes(f) + rest;
    assert b == [(if f.fin then 128 else 0) + f.opcode] + (form + (f.payload + rest));
    assert b[1..] == form + (f.payload + rest);
    LengthCanonical(b[1..], |f.payload|);
    assert b[1] == form[0];
  }

  lemma FormByte(size: nat)
    ensures |LengthForm(size)| >= 1 && LengthForm(size)[0] < 128 && (size <= 125 ==> LengthForm(size)[0] == size)
  {
  }

  // ----- frames from the client -----

  function Masked(data: Bytes, mask: Bytes): (r: Bytes)
    requires |mask| == 4
    ensures |r| == |data|
  {
    seq(|data|, k requires 0 <= k < |data| => Xor(data[k], mask[k % 4]))
  }

  lemma MaskedAt(data: Bytes, mask: Bytes, k: nat)
    requires |mask| == 4 && k < |data|
    ensures Xor(Masked(data, mask)[k], mask[k % 4]) == data[k]
  {
    XorUndone(data[k], mask[k % 4]);
  }

  datatype Out = Out(opcode: nat, data: Bytes)

  /** A final, masked frame. */
  function ClientFrame(out: Out, mask: Bytes): Bytes
    requires |mask| == 4 && out.opcode < 16
  {
    var form := LengthForm(|out.data|);
    [128 + out.opcode] + (Marked(form) + (mask + Masked(out.data, mask)))
  }

  /** The length with the mask bit set in its first byte. */
  function Marked(form: Bytes): Bytes
    requires |form| >= 1
  {
    var first: int := form[0];
    [first % 128 + 128] + form[1..]
  }

  /** What a server reads from one client frame: the client's own length reader, with
      the mask bit taken off, and every payload byte exclusive-or mask byte `k % 4`. */
  ghost function ServerReads(b: Bytes): Option<Out> {
    if |b| < 2 || b[1] < 128 then None else
    var head := HeadOf(Unmarked(b));
    if head.None? || !head.value.fin || |b| != head.value.width + 4 + head.value.size then None
    else Some(Out(head.value.opcode, Unmasked(b, head.value.width, head.value.size)))
  }

  ghost function Unmarked(b: Bytes): Bytes
    requires |b| >= 2 && b[1] >= 128
  {
    var second: int := b[1];
    [b[0]] + ([second - 128] + b[2..])
  }

  /** `size` bytes behind the mask that stands at `n`, with the mask taken off. */
  ghost function Unmasked(b: Bytes, n: nat, size: nat): Bytes
    requires n + 4 + size <= |b|
  {
    seq(size, k requires 0 <= k < size => Xor(b[n + 4 + k], b[n + k % 4]))
  }

  lemma UnmaskedIs(front: Bytes, mask: Bytes, data: Bytes)
    requires |mask| == 4
    ensures Unmasked(front + (mask + Masked(data, mask)), |front|, |data|) == data
  {
    hide Xor;
    var b, n := front + (mask + Masked(data, mask)), |front|;
    forall k | 0 <= k < |data|
      ensures Xor(b[n + 4 + k], b[n + k % 4]) == data[k]
    {
      MaskedAt(data, mask, k);
    }
  }

  lemma ClientHead(out: Out, mask: Bytes)
    requires |mask| == 4 && KnownOpcode(out.opcode) && |out.data| < Half
    requires Control(out.opcode) ==> |out.data| <= 125
    ensures var b := ClientFrame(out, mask);
            && |b| >= 2 && b[1] >= 128
            && HeadOf(Unmarked(b)) == Some(Head(true, out.opcode, |out.data|, 1 + |LengthForm(|out.data|)|))
  {
    hide LengthAt, LengthForm, Masked;
    var form := LengthForm(|out.data|);
    FormByte(|out.data|);
    var tail := mask + Masked(out.data, mask);
    var b := ClientFrame(out, mask);
    var first: int := form[0];
    assert b == [128 + out.opcode] + ([first + 128] + (form[1..] + tail));
    assert b[2..] == form[1..] + tail;
    var plain := Unmarked(b);
    assert form == [form[0]] + form[1..];
    assert plain[1..] == form + tail;
    LengthCanonical(plain[1..], |out.data|);
  }

  lemma ClientFrameRead(out: Out, mask: Bytes)
    requires |mask| == 4 && KnownOpcode(out.opcode) && |out.data| < Half
    requires Control(out.opcode) ==> |out.data| <= 125
    ensures ServerReads(ClientFrame(out, mask)) == Some(out)
  {
    hide HeadOf, LengthForm, Masked, Unmarked, Unmasked;
    var form := LengthForm(|out.data|);
    FormByte(|out.data|);
    ClientHead(out, mask);
    var front := [128 + out.opcode] + Marked(form);
    assert ClientFrame(out, mask) == front + (mask + Masked(out.data, mask));
    UnmaskedIs(front, mask, out.data);
  }

  /** The length field of `frame`. */
  method EncodeLength(size: nat) returns (bytes: Bytes)
    requires size < Half
    ensures bytes == Marked(LengthForm(size))
  {
    hide BigEndian, Shifted;
    if size < 126 {
      return [128 + size];
    }
    var width := if size <= 65535 then 2 else 8;
    bytes := [if width == 2 then 254 else 255];
    ghost var head := bytes;
    var i := width - 1;
    while i >= 0
      invariant -1 <= i < width
      invariant bytes == head + BigEndian(size, width)[..width - 1 - i]
    {
      var digit := Shifted(size, i) % 256;
      BigEndianAt(size, width, width - 1 - i);
      bytes := bytes + [digit];
      i := i - 1;
    }
  }

  /** `frame`; the mask is random. */
  method EncodeFrame(out: Out, mask: Bytes) returns (bytes: Bytes)
    requires |mask| == 4 && out.opcode < 16 && |out.data| < Half
    ensures bytes == ClientFrame(out, mask)
  {
    hide LengthForm, Xor;
    FormByte(|out.data|);
    var length := EncodeLength(|out.data|);
    bytes := [128 + out.opcode] + length + mask;
    ghost var head := bytes;
    for i := 0 to |out.data|
      invariant bytes == head + Masked(out.data, mask)[..i]
    {
      bytes := bytes + [Xor(out.data[i], mask[i % 4])];
    }
    assert bytes == head + Masked(out.data, mask);
  }
}
