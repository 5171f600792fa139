/** Bits of numbers, spelled as quotients and remainders. */
module Bits {
  import opened Basics

  /** `x >> 8 * n`. */
  function Shifted(x: nat, n: nat): nat {
    if n == 0 then x else Shifted(x, n - 1) / 256
  }

  function Two(n: nat): nat {
    if n == 0 then 1 else 2 * Two(n - 1)
  }

  /** Exclusive or of the low `n` bits. */
  function XorBits(a: nat, b: nat, n: nat): nat {
    if n == 0 then 0
    else 2 * XorBits(a / 2, b / 2, n - 1) + if a % 2 == b % 2 then 0 else 1
  }

  lemma {:induction false} XorBound(a: nat, b: nat, n: nat)
    ensures XorBits(a, b, n) < Two(n)
  {
    if n > 0 {
      XorBound(a / 2, b / 2, n - 1);
    }
  }

  lemma {:induction false} XorTwice(a: nat, b: nat, n: nat)
    requires b < Two(n)
    ensures XorBits(a, XorBits(a, b, n), n) == b
  {
    if n > 0 {
      XorTwice(a / 2, b / 2, n - 1);
      var x := XorBits(a, b, n);
      assert x / 2 == XorBits(a / 2, b / 2, n - 1);
    }
  }

  function Xor(a: byte, b: byte): byte {
    XorBound(a, b, 8);
    assert Two(8) == 256 by {
      TwoEight();
    }
    XorBits(a, b, 8)
  }

  lemma TwoEight()
    ensures Two(8) == 256
  {
    assert Two(4) == 16;
  }

  lemma XorInjective(a: byte, b: byte, c: byte)
    requires Xor(a, b) == Xor(a, c)
    ensures b == c
  {
    TwoEight();
    XorTwice(a, b, 8);
    XorTwice(a, c, 8);
  }

  lemma {:induction false} XorZeroBits(a: nat, n: nat)
    requires a < Two(n)
    ensures XorBits(a, 0, n) == a
  {
    if n > 0 {
      XorZeroBits(a / 2, n - 1);
    }
  }

  /** Zero changes nothing. */
  lemma XorZero(a: byte)
    ensures Xor(a, 0) == a
  {
    TwoEight();
    XorZeroBits(a, 8);
  }

  lemma {:induction false} XorSymmetric(a: nat, b: nat, n: nat)
    ensures XorBits(a, b, n) == XorBits(b, a, n)
  {
    if n > 0 {
      XorSymmetric(a / 2, b / 2, n - 1);
    }
  }

  /** Applying the same mask twice changes nothing. */
  lemma XorUndone(a: byte, mask: byte)
    ensures Xor(Xor(a, mask), mask) == a
  {
    TwoEight();
    XorSymmetric(a, mask, 8);
    XorSymmetric(Xor(a, mask), mask, 8);
    XorTwice(mask, a, 8);
  }

  /** Bitwise or. */
  function Or(a: nat, b: nat): nat
    decreases a + b
  {
    if a == 0 && b == 0 then 0
    else 2 * Or(a / 2, b / 2) + if a % 2 == 1 || b % 2 == 1 then 1 else 0
  }

  lemma {:induction false} OrZero(b: nat)
    ensures Or(b, 0) == b && Or(0, b) == b
  {
    if b > 0 {
      OrZero(b / 2);
    }
  }

  lemma OrDouble(x: nat, low: nat)
    ensures Or(2 * x, low) == 2 * Or(x, low / 2) + low % 2
  {
    if x == 0 && low == 0 {
      OrZero(0);
    }
  }

  /** Bits above and bits below do not meet: their or is their sum. */
  lemma {:induction false} OrDisjoint(high: nat, low: nat, k: nat)
    requires low < Two(k)
    ensures Or(high * Two(k), low) == high * Two(k) + low
    decreases k
  {
    hide Or;
    if k == 0 {
      OrZero(high);
      assert high * Two(0) == high;
    } else {
      var t := Two(k - 1);
      var x: nat := high * t;
      assert high * (2 * t) == 2 * x;
      OrDisjoint(high, low / 2, k - 1);
      OrDouble(x, low);
    }
  }

  // ----- big-endian numbers -----

  /** The `width` low bytes of a number, the most significant first. */
  function BigEndian(v: nat, width: nat): (r: seq<byte>)
    ensures |r| == width
  {
    if width == 0 then [] else BigEndian(v / 256, width - 1) + [v % 256]
  }

  lemma {:induction false} ShiftedFirst(v: nat, n: nat)
    ensures Shifted(v / 256, n) == Shifted(v, n + 1)
  {
    if n > 0 {
      ShiftedFirst(v, n - 1);
    }
  }

  lemma {:induction false} BigEndianAt(v: nat, width: nat, k: nat)
    requires k < width
    ensures BigEndian(v, width)[k] == Shifted(v, width - 1 - k) % 256
  {
    if k < width - 1 {
      BigEndianAt(v / 256, width - 1, k);
      ShiftedFirst(v, width - 2 - k);
    }
  }

  /** The number that bytes stand for, the most significant first. */
  function Number(s: seq<byte>): nat {
    if |s| == 0 then 0 else Number(s[..|s| - 1]) * 256 + s[|s| - 1]
  }

  lemma {:induction false} NumberOf(v: nat, width: nat)
    requires Shifted(v, width) == 0
    ensures Number(BigEndian(v, width)) == v
  {
    if width > 0 {
      ShiftedFirst(v, width - 1);
      NumberOf(v / 256, width - 1);
      var r := BigEndian(v, width);
      assert r[..width - 1] == BigEndian(v / 256, width - 1);
    }
  }

  lemma {:induction false} BigEndianOf(s: seq<byte>)
    ensures BigEndian(Number(s), |s|) == s
    ensures Shifted(Number(s), |s|) == 0
  {
    if |s| > 0 {
      var front := s[..|s| - 1];
      BigEndianOf(front);
      assert Number(s) / 256 == Number(front);
      ShiftedFirst(Number(s), |s| - 1);
      assert s == front + [s[|s| - 1]];
    }
  }
}
