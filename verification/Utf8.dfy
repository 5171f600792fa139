/** UTF-8 as `append_utf8` writes it and as the WebSocket text check reads it.
    Bits are spelled as quotients and remainders by powers of two. */
module Utf8 {

  import opened Basics

  predicate IsScalar(x: int) {
    0 <= x <= 0x10FFFF && !(0xD800 <= x <= 0xDFFF)
  }

  type Scalar = x: int | 0 <= x <= 0x10FFFF && !(0xD800 <= x <= 0xDFFF)

  // ----- writing -----

  /** `append_utf8` for one code point. */
  function Encode(cp: Scalar): (r: seq<byte>)
    ensures 1 <= |r| <= 4
  {
    // cp >> 6, cp >> 12 and cp >> 18
    var q := cp / 64;
    var p := q / 64;
    var o := p / 64;
    if cp <= 0x7F then
      var b: byte := cp;
      [b]
    else if cp <= 0x7FF then
      [0xC0 + q, Tail(cp)]
    else if cp <= 0xFFFF then
      [0xE0 + p, Tail(q), Tail(cp)]
    else
      var lead: byte := 0xF0 + o;
      [lead, Tail(p), Tail(q), Tail(cp)]
  }

  /** `0x80 | (x & 0x3f)`. */
  function Tail(x: nat): byte {
    0x80 + x % 64
  }

  function EncodeAll(cps: seq<Scalar>): seq<byte> {
    if cps == [] then [] else Encode(cps[0]) + EncodeAll(cps[1..])
  }

  /** The bytes are the encodings of some scalar values, one after another. */
  ghost predicate WellFormed(bytes: seq<byte>) {
    exists cps: seq<Scalar> :: EncodeAll(cps) == bytes
  }

  // ----- a code point is read off the front in one way -----

  function Width(lead: byte): nat {
    if lead < 0x80 then 1 else if lead < 0xE0 then 2 else if lead < 0xF0 then 3 else 4
  }

  predicate Continuation(b: byte) {
    0x80 <= b < 0xC0
  }

  /** What every encoding looks like, and how its code point is recomputed. */
  lemma EncodeShape(cp: Scalar)
    ensures var r := Encode(cp);
            && |r| == Width(r[0])
            && (|r| > 1 ==> 0xC2 <= r[0] <= 0xF4)
            && (forall k :: 1 <= k < |r| ==> Continuation(r[k]))
            && cp == Assemble(r)
            && (|r| > 1 ==> cp >= Least(|r|))
  {
    var q := cp / 64;
    var p := q / 64;
    TailJoin(cp);
    TailJoin(q);
    TailJoin(p);
    hide Assemble, Join, Tail;
    var r := Encode(cp);
    if cp > 0xFFFF {
      var o := p / 64;
      assert r == [0xF0 + o, Tail(p), Tail(q), Tail(cp)];
      Assemble4(r);
    } else if cp > 0x7FF {
      assert r == [0xE0 + p, Tail(q), Tail(cp)];
      Assemble3(r);
    } else if cp > 0x7F {
      assert r == [0xC0 + q, Tail(cp)];
      Assemble2(r);
    } else {
      LeadAssembles(r[0]);
    }
  }

  lemma TailJoin(x: nat)
    ensures Join(x / 64, Tail(x)) == x && Continuation(Tail(x))
  {
  }

  function Least(width: nat): nat {
    if width == 2 then 0x80 else if width == 3 then 0x800 else 0x1_0000
  }

  /** The payload bits of a lead byte and its continuation bytes. */
  function Assemble(r: seq<byte>): int
    requires 1 <= |r|
  {
    if |r| > 1 then
      Assemble(r[..|r| - 1]) * 64 + r[|r| - 1] % 64
    else
      LeadBits(r[0])
  }

  /** A lead byte without its width marker. */
  function LeadBits(lead: byte): int {
    if lead < 0x80 then lead
    else if lead < 0xE0 then lead - 0xC0
    else if lead < 0xF0 then lead - 0xE0
    else lead - 0xF0
  }

  /** The converse: bytes of that look, assembled to a scalar value no smaller
      than their width's least, are that value's encoding. */
  lemma AssembleEncodes(r: seq<byte>)
    requires |r| > 1 && 0xC2 <= r[0] <= 0xF4 && |r| == Width(r[0])
    requires forall k :: 1 <= k < |r| ==> Continuation(r[k])
    requires IsScalar(Assemble(r)) && Assemble(r) >= Least(|r|)
    ensures Encode(Assemble(r)) == r
  {
    hide Assemble;
    var lead := LeadBits(r[0]);
    if |r| == 2 {
      Assemble2(r);
      Encode2(lead, r[1]);
    } else if |r| == 3 {
      Assemble3(r);
      Encode3(lead, r[1], r[2]);
    } else {
      Assemble4(r);
      Encode4(lead, r[1], r[2], r[3]);
    }
  }

  lemma Encode2(lead: nat, b: byte)
    requires 2 <= lead < 32 && Continuation(b)
    ensures Encode(Join(lead, b)) == [0xC0 + lead, b]
  {
    JoinSplit(lead, b);
  }

  lemma Encode3(lead: nat, b: byte, c: byte)
    requires lead < 16 && Continuation(b) && Continuation(c)
    requires var v := Join(Join(lead, b), c); IsScalar(v) && v >= 0x800
    ensures Encode(Join(Join(lead, b), c)) == [0xE0 + lead, b, c]
  {
    JoinSplit(lead, b);
    JoinSplit(Join(lead, b), c);
  }

  lemma Encode4(lead: nat, b: byte, c: byte, d: byte)
    requires lead < 5 && Continuation(b) && Continuation(c) && Continuation(d)
    requires var v := Join(Join(Join(lead, b), c), d); IsScalar(v) && v >= 0x1_0000
    ensures Encode(Join(Join(Join(lead, b), c), d)) == [0xF0 + lead, b, c, d]
  {
    JoinSplit(lead, b);
    JoinSplit(Join(lead, b), c);
    JoinSplit(Join(Join(lead, b), c), d);
  }

  lemma JoinSplit(high: int, low: byte)
    ensures Join(high, low) / 64 == high && Join(high, low) % 64 == low % 64
    ensures Continuation(low) ==> forall x: nat :: x % 64 == low % 64 ==> Tail(x) == low
  {
  }

  function Join(high: int, low: int): int {
    high * 64 + low % 64
  }

  lemma Assemble2(r: seq<byte>)
    requires |r| == 2
    ensures Assemble(r) == Join(LeadBits(r[0]), r[1])
  {
    assert r[..1] == [r[0]];
  }

  lemma Assemble3(r: seq<byte>)
    requires |r| == 3
    ensures Assemble(r) == Join(Join(LeadBits(r[0]), r[1]), r[2])
  {
    Assemble2(r[..2]);
  }

  lemma Assemble4(r: seq<byte>)
    requires |r| == 4
    ensures Assemble(r) == Join(Join(Join(LeadBits(r[0]), r[1]), r[2]), r[3])
  {
    Assemble3(r[..3]);
  }

  lemma FrontUnique(c: Scalar, x: seq<byte>, d: Scalar, y: seq<byte>)
    requires Encode(c) + x == Encode(d) + y
    ensures c == d && x == y
  {
    EncodeShape(c);
    EncodeShape(d);
    var t := Encode(c) + x;
    assert t[0] == Encode(c)[0] && t[0] == Encode(d)[0];
    var n := |Encode(c)|;
    assert t[..n] == Encode(c) && t[..n] == Encode(d);
    assert t[n..] == x && t[n..] == y;
  }

  /** The decomposition into code points is unique. */
  lemma {:induction false} DecompositionUnique(a: seq<Scalar>, b: seq<Scalar>)
    requires EncodeAll(a) == EncodeAll(b)
    ensures a == b
  {
    if a != [] && b != [] {
      FrontUnique(a[0], EncodeAll(a[1..]), b[0], EncodeAll(b[1..]));
      DecompositionUnique(a[1..], b[1..]);
      assert a == [a[0]] + a[1..] && b == [b[0]] + b[1..];
    }
  }

  /** Taking one encoded code point off the front changes nothing. */
  lemma FrontOff(c: Scalar, x: seq<byte>)
    ensures WellFormed(Encode(c) + x) <==> WellFormed(x)
  {
    if WellFormed(x) {
      var cps: seq<Scalar> :| EncodeAll(cps) == x;
      assert ([c] + cps)[1..] == cps;
      assert EncodeAll([c] + cps) == Encode(c) + x;
    }
    if WellFormed(Encode(c) + x) {
      var cps: seq<Scalar> :| EncodeAll(cps) == Encode(c) + x;
      assert cps != [];
      FrontUnique(cps[0], EncodeAll(cps[1..]), c, x);
    }
  }

  lemma FrontExists(t: seq<byte>)
    requires t != [] && WellFormed(t)
    ensures exists c: Scalar :: Encode(c) <= t
  {
    var cps: seq<Scalar> :| EncodeAll(cps) == t;
    assert Encode(cps[0]) <= t;
  }

  // ----- reading -----

  /** The state of the check inside a code point: `part` are the bytes read of
      it, `left` more are due. */
  ghost predicate Inside(part: seq<byte>, left: nat, minimum: nat, value: nat) {
    && 1 <= left <= 3
    && 1 <= |part|
    && 0xC2 <= part[0] <= 0xF4
    && |part| + left == Width(part[0])
    && minimum == Least(Width(part[0]))
    && (forall k :: 1 <= k < |part| ==> Continuation(part[k]))
    && value == Assemble(part)
  }

  lemma BadLead(t: seq<byte>)
    requires t != [] && t[0] >= 0x80 && !(0xC2 <= t[0] <= 0xF4)
    ensures !WellFormed(t)
  {
    if WellFormed(t) {
      FrontExists(t);
      var c: Scalar :| Encode(c) <= t;
      EncodeShape(c);
    }
  }

  /** If the front is one code point's bytes up to a byte that is no
      continuation, or the text ends there, no code point fits. */
  lemma CutShort(t: seq<byte>, n: nat, left: nat, minimum: nat, value: nat)
    requires n <= |t| && Inside(t[..n], left, minimum, value)
    requires n < |t| ==> !Continuation(t[n])
    ensures !WellFormed(t)
  {
    if WellFormed(t) {
      FrontExists(t);
      var c: Scalar :| Encode(c) <= t;
      var r := Encode(c);
      assert r[0] == t[..n][0] && (n < |r| ==> r[n] == t[n]);
      EncodeShape(c);
    }
  }

  lemma BadValue(t: seq<byte>, n: nat)
    requires 1 < n <= |t| && n == Width(t[0])
    requires var v := Assemble(t[..n]); v < Least(n) || !IsScalar(v)
    ensures !WellFormed(t)
  {
    if WellFormed(t) {
      FrontExists(t);
      var c: Scalar :| Encode(c) <= t;
      var r := Encode(c);
      assert r[0] == t[0];
      assert |r| == n ==> r == t[..n];
      EncodeShape(c);
    }
  }

  /** A continuation byte: one fewer is due, and the last one decides. */
  lemma Continues(text: seq<byte>, start: nat, i: nat, left: nat, minimum: nat, value: nat)
    requires start <= i < |text| && Inside(text[start..i], left, minimum, value)
    ensures var v: int := value * 64 + text[i] % 64;
            if !Continuation(text[i]) then !WellFormed(text[start..])
            else if left > 1 then Inside(text[start..i + 1], left - 1, minimum, v)
            else if v < minimum || !IsScalar(v) then !WellFormed(text[start..])
            else (WellFormed(text[start..]) <==> WellFormed(text[i + 1..]))
  {
    var t, n, c := text[start..], i - start, text[i];
    assert t[..n] == text[start..i] && t[n] == c;
    if !Continuation(c) {
      CutShort(t, n, left, minimum, value);
    } else {
      var whole := text[start..i + 1];
      assert whole == text[start..i] + [c] && whole == t[..n + 1];
      Grow(text[start..i], left, minimum, value, c);
      if left == 1 {
        Completes(t, n + 1);
        assert t[n + 1..] == text[i + 1..];
      }
    }
  }

  lemma Completes(t: seq<byte>, n: nat)
    requires 1 < n <= |t| && n == Width(t[0]) && 0xC2 <= t[0] <= 0xF4
    requires forall k :: 1 <= k < n ==> Continuation(t[k])
    ensures var v := Assemble(t[..n]);
            if v < Least(n) || !IsScalar(v) then !WellFormed(t)
            else (WellFormed(t) <==> WellFormed(t[n..]))
  {
    var v := Assemble(t[..n]);
    if v < Least(n) || !IsScalar(v) {
      BadValue(t, n);
    } else {
      AssembleEncodes(t[..n]);
      FrontOff(v, t[n..]);
      assert t == t[..n] + t[n..];
    }
  }

  /** The first byte of a code point. */
  lemma Begins(text: seq<byte>, i: nat)
    requires i < |text|
    ensures var c: int := text[i];
            if c < 0x80 then (WellFormed(text[i..]) <==> WellFormed(text[i + 1..]))
            else if 0xC2 <= c <= 0xDF then Inside(text[i..i + 1], 1, 0x80, c % 32)
            else if 0xE0 <= c <= 0xEF then Inside(text[i..i + 1], 2, 0x800, c % 16)
            else if 0xF0 <= c <= 0xF4 then Inside(text[i..i + 1], 3, 0x10000, c % 8)
            else !WellFormed(text[i..])
  {
    var c := text[i];
    assert text[i..i + 1] == [c];
    if c < 0x80 {
      FrontOff(c, text[i + 1..]);
      assert text[i..] == Encode(c) + text[i + 1..];
    } else if 0xC2 <= c <= 0xF4 {
      LeadAssembles(c);
    } else {
      BadLead(text[i..]);
    }
  }

  /** `detail::utf8`. */
  method Check(text: seq<byte>) returns (ok: bool)
    ensures ok <==> WellFormed(text)
  {
    hide Inside, WellFormed;
    var value: nat, minimum: nat, left: nat := 0, 0, 0;
    ghost var start: nat := 0;
    assert text[0..] == text;
    for i := 0 to |text|
      invariant start <= i
      invariant WellFormed(text) <==> WellFormed(text[start..])
      invariant left == 0 ==> start == i
      invariant left > 0 ==> Inside(text[start..i], left, minimum, value)
    {
      var c: int := text[i];
      if left != 0 {
        Continues(text, start, i, left, minimum, value);
        if !(0x80 <= c < 0xC0) {
          return false;
        }
        value := value * 64 + c % 64;
        left := left - 1;
        if left == 0 {
          if value < minimum || value > 0x10FFFF || 0xD800 <= value <= 0xDFFF {
            return false;
          }
          start := i + 1;
        }
      } else {
        Begins(text, i);
        if c >= 0x80 {
          if 0xC2 <= c <= 0xDF {
            left, minimum, value := 1, 0x80, c % 32;
          } else if 0xE0 <= c <= 0xEF {
            left, minimum, value := 2, 0x800, c % 16;
          } else if 0xF0 <= c <= 0xF4 {
            left, minimum, value := 3, 0x10000, c % 8;
          } else {
            return false;
          }
        } else {
          start := i + 1;
        }
      }
    }
    ok := left == 0;
    Ends(text, start, left, minimum, value);
  }

  lemma Ends(text: seq<byte>, start: nat, left: nat, minimum: nat, value: nat)
    requires start <= |text|
    requires if left == 0 then start == |text| else Inside(text[start..|text|], left, minimum, value)
    ensures WellFormed(text[start..]) <==> left == 0
  {
    var t := text[start..];
    if left == 0 {
      assert t == EncodeAll([]);
    } else {
      assert t[..|t|] == text[start..|text|];
      CutShort(t, |t|, left, minimum, value);
    }
  }

  lemma LeadAssembles(c: byte)
    ensures Assemble([c]) == LeadBits(c)
    ensures 0xC0 <= c < 0xE0 ==> LeadBits(c) == c % 32
    ensures 0xE0 <= c < 0xF0 ==> LeadBits(c) == c % 16
    ensures 0xF0 <= c < 0xF8 ==> LeadBits(c) == c % 8
  {
  }

  lemma Grow(part: seq<byte>, left: nat, minimum: nat, value: nat, c: byte)
    requires Inside(part, left, minimum, value) && Continuation(c)
    ensures Assemble(part + [c]) == value * 64 + c % 64
    ensures left > 1 ==> Inside(part + [c], left - 1, minimum, value * 64 + c % 64)
  {
    assert (part + [c])[..|part|] == part;
  }
}
