/** The big-integer arithmetic of src/nxt/crypto.cpp. `cpp_int` is unbounded, as
    `int` is; its `/` and `%` truncate toward zero. */
module Crypto {

  import opened Basics
  import opened Bits

  // ----- truncating division and plain residues -----

  function Abs(x: int): nat {
    if x < 0 then -x else x
  }

  function TruncDiv(a: int, b: int): int
    requires b != 0
  {
    var q := Abs(a) / Abs(b);
    if (a < 0) == (b < 0) then q else -q
  }

  function TruncMod(a: int, b: int): int
    requires b != 0
  {
    if a < 0 then -(Abs(a) % Abs(b)) else a % Abs(b)
  }

  lemma TruncSplit(a: int, b: int)
    requires b != 0
    ensures a == TruncDiv(a, b) * b + TruncMod(a, b)
    ensures Abs(TruncMod(a, b)) < Abs(b)
    ensures a >= 0 ==> TruncMod(a, b) >= 0
  {
    var q, r := Abs(a) / Abs(b), Abs(a) % Abs(b);
    assert Abs(a) == q * Abs(b) + r;
  }

  lemma ModOf(x: int, q: int, r: int, m: int)
    requires m > 0 && x == q * m + r && 0 <= r < m
    ensures x % m == r
  {
    var q', r' := x / m, x % m;
    assert (q - q') * m == r' - r;
    if q - q' >= 1 {
      Grows(q - q', m);
    } else if q - q' <= -1 {
      Grows(q' - q, m);
    }
  }

  lemma Grows(k: int, m: int)
    requires k >= 1 && m > 0
    ensures k * m >= m
  {
  }

  /** `mod`: for a positive modulus, the least nonnegative residue. */
  method Mod(value: int, modulus: int) returns (r: int)
    requires modulus != 0
    ensures modulus > 0 ==> r == value % modulus
    ensures exists k :: value == k * modulus + r
    ensures r == if TruncMod(value, modulus) < 0 then TruncMod(value, modulus) + modulus else TruncMod(value, modulus)
  {
    TruncSplit(value, modulus);
    r := TruncMod(value, modulus);
    ghost var k := TruncDiv(value, modulus);
    if r < 0 {
      r := r + modulus;
      k := k - 1;
      assert k * modulus == TruncDiv(value, modulus) * modulus - modulus;
    }
    assert value == k * modulus + r;
    if modulus > 0 {
      ModOf(value, k, r, modulus);
    }
  }

  // ----- the modular inverse -----

  ghost predicate Divides(d: int, a: int) {
    exists k :: a == k * d
  }

  /** No divisor above one in common. */
  ghost predicate Coprime(a: int, b: int) {
    forall d :: d > 1 && Divides(d, a) ==> !Divides(d, b)
  }

  /** How many divisions Euclid's algorithm takes. */
  ghost function Steps(a: nat, b: nat): nat
    decreases b
  {
    if b == 0 then 0 else 1 + Steps(b, a % b)
  }

  /** The extended Euclidean loop, with the combinations of the two inputs that
      its remainders are, and of its remainders that the two inputs are. Truncating
      division keeps the sign of every other remainder. */
  method Euclid(modulus: int, value: int) returns (g: int, s: int, ghost t: int, ghost a: int, ghost c: int)
    requires modulus != 0 && value != 0
    ensures g != 0 && g == t * modulus + s * value
    ensures modulus == a * g && value == c * g
    ensures modulus > 0 && value > 0 ==> g > 0
    ensures modulus < 0 && value < 0 ==> g < 0
    ensures modulus < 0 && value > 0 ==> (g > 0 <==> Steps(-modulus, value) % 2 == 1)
  {
    var oldR, r := modulus, value;
    var oldS, s' := 0, 1;
    ghost var oldT, t' := 1, 0;
    ghost var b, e := 0, 1;
    ghost var n := 0;
    a, c := 1, 0;
    while r != 0
      invariant oldR == oldT * modulus + oldS * value
      invariant r == t' * modulus + s' * value
      invariant modulus == a * oldR + b * r
      invariant value == c * oldR + e * r
      invariant Signs(modulus, value, n, oldR, r)
      invariant Steps(Abs(modulus), Abs(value)) == n + Steps(Abs(oldR), Abs(r))
      decreases Abs(r)
    {
      hide Signs, Steps;
      var q := TruncDiv(oldR, r);
      TruncSplit(oldR, r);
      var nextR := oldR - q * r;
      assert nextR == TruncMod(oldR, r);
      SignsStep(modulus, value, n, oldR, r);
      Combine(oldT, oldS, t', s', q, modulus, value);
      Recombine(a, b, q, r, nextR);
      Recombine(c, e, q, r, nextR);
      oldR, r := r, nextR;
      oldT, t' := t', oldT - q * t';
      oldS, s' := s', oldS - q * s';
      a, b := a * q + b, a;
      c, e := c * q + e, c;
      n := n + 1;
    }
    g, s, t := oldR, oldS, oldT;
  }

  /** The signs of the last two remainders after `n` divisions. */
  ghost predicate Signs(modulus: int, value: int, n: nat, oldR: int, r: int) {
    && oldR != 0
    && (modulus > 0 && value > 0 ==> oldR > 0 && r >= 0)
    && (modulus < 0 && value < 0 ==> oldR < 0 && r <= 0)
    && (modulus < 0 && value > 0 ==> if n % 2 == 0 then oldR < 0 && r >= 0 else oldR > 0 && r <= 0)
  }

  lemma SignsStep(modulus: int, value: int, n: nat, oldR: int, r: int)
    requires Signs(modulus, value, n, oldR, r) && r != 0
    ensures Signs(modulus, value, n + 1, r, TruncMod(oldR, r))
    ensures Steps(Abs(oldR), Abs(r)) == 1 + Steps(Abs(r), Abs(TruncMod(oldR, r)))
    ensures Abs(TruncMod(oldR, r)) < Abs(r)
  {
    assert Abs(TruncMod(oldR, r)) == Abs(oldR) % Abs(r);
  }

  lemma Combine(t0: int, s0: int, t1: int, s1: int, q: int, m: int, v: int)
    ensures (t0 * m + s0 * v) - q * (t1 * m + s1 * v) == (t0 - q * t1) * m + (s0 - q * s1) * v
  {
    assert q * (t1 * m + s1 * v) == (q * t1) * m + (q * s1) * v;
    assert (t0 - q * t1) * m == t0 * m - (q * t1) * m;
    assert (s0 - q * s1) * v == s0 * v - (q * s1) * v;
  }

  lemma Recombine(a: int, b: int, q: int, r: int, next: int)
    ensures a * (q * r + next) + b * r == (a * q + b) * r + a * next
  {
    assert a * (q * r + next) == (a * q) * r + a * next;
  }

  /** `mod_inverse`. For a positive modulus it succeeds exactly when the two
      numbers are coprime and the modulus is not one. For a negative one it does so
      only for a positive value, when Euclid's algorithm ends after an odd number of
      divisions: the other half of the time the last remainder is minus one. */
  method ModInverse(value: int, modulus: int) returns (r: Option<int>)
    ensures modulus == 0 ==> r.None?
    ensures modulus > 0 ==> (r.Some? <==> modulus > 1 && Coprime(value, modulus))
    ensures modulus > 0 && r.Some? ==> 0 <= r.value < modulus && (value * r.value) % modulus == 1
    ensures modulus < 0 ==> (r.Some? <==> value > 0 && Coprime(value, modulus)
                                          && Steps(-modulus, value % -modulus) % 2 == 1)
    ensures r.Some? ==> Inverse(value, r.value, modulus)
  {
    hide Coprime, Steps, Divides;
    if modulus == 0 {
      return None;
    }
    var v := Mod(value, modulus);
    ghost var k :| value == k * modulus + v;
    if v == 0 {
      Multiple(value, modulus, k);
      return None;
    }
    ReducedSign(value, modulus, k, v);
    var g, s, t, a, c := Euclid(modulus, v);
    if g != 1 {
      NotOne(value, modulus, k, v, g, a, c);
      return None;
    }
    var x := Mod(s, modulus);
    ghost var n :| s == n * modulus + x;
    InverseWorks(value, modulus, k, v, s, t, n, x);
    BezoutCoprime(value, modulus, x);
    if modulus > 0 {
      InversePositive(value, modulus, x);
    }
    r := Some(x);
  }

  /** The product is one more than a multiple of the modulus. */
  ghost predicate Inverse(value: int, x: int, modulus: int) {
    exists q :: value * x == q * modulus + 1
  }

  lemma InversePositive(value: int, modulus: int, x: int)
    requires modulus > 1 && Inverse(value, x, modulus)
    ensures (value * x) % modulus == 1
  {
    var q :| value * x == q * modulus + 1;
    ModOf(value * x, q, 1, modulus);
  }

  /** A multiple of the modulus has no inverse. */
  lemma Multiple(value: int, modulus: int, k: int)
    requires modulus != 0 && value == k * modulus
    ensures modulus > 1 || modulus < -1 ==> !Coprime(value, modulus)
    ensures modulus < 0 ==> Steps(-modulus, value % -modulus) == 0
  {
    if modulus > 1 {
      assert modulus == 1 * modulus;
      assert Divides(modulus, modulus) && Divides(modulus, value);
    } else if modulus < 0 {
      var m := -modulus;
      assert value == (-k) * m && modulus == (-1) * m;
      ModOf(value, -k, 0, m);
      assert Divides(m, modulus) && Divides(m, value);
    }
  }

  /** The reduced value of a negative modulus. */
  lemma ReducedSign(value: int, modulus: int, k: int, v: int)
    requires modulus != 0 && v != 0 && value == k * modulus + v
    requires v == TruncMod(value, modulus) || (TruncMod(value, modulus) < 0 && v == TruncMod(value, modulus) + modulus)
    ensures modulus < 0 && value > 0 ==> v == value % -modulus > 0
    ensures modulus < 0 && value <= 0 ==> v < 0
  {
  }

  lemma NotOne(value: int, modulus: int, k: int, v: int, g: int, a: int, c: int)
    requires g != 1 && g != 0 && value == k * modulus + v && modulus == a * g && v == c * g
    ensures g != -1 ==> !Coprime(value, modulus)
  {
    assert value == (k * a + c) * g by {
      assert k * (a * g) + c * g == (k * a + c) * g;
    }
    if g > 1 {
      assert Divides(g, modulus) && Divides(g, value);
    } else if g < -1 {
      assert modulus == (-a) * (-g) && value == (-(k * a + c)) * (-g);
      assert Divides(-g, modulus) && Divides(-g, value);
    }
  }

  lemma InverseWorks(value: int, modulus: int, k: int, v: int, s: int, t: int, n: int, x: int)
    requires value == k * modulus + v && s == n * modulus + x && 1 == t * modulus + s * v
    ensures Inverse(value, x, modulus)
  {
    var q := k * x - t - n * v;
    assert value * x == (k * x) * modulus + v * x;
    assert s * v == (n * v) * modulus + x * v;
    assert value * x == q * modulus + 1 by {
      assert q * modulus == (k * x) * modulus - t * modulus - (n * v) * modulus;
    }
  }

  lemma BezoutCoprime(value: int, modulus: int, x: int)
    requires Inverse(value, x, modulus)
    ensures Coprime(value, modulus)
  {
    var q :| value * x == q * modulus + 1;
    forall d | d > 1 && Divides(d, value)
      ensures !Divides(d, modulus)
    {
      if Divides(d, modulus) {
        var i :| value == i * d;
        var j :| modulus == j * d;
        NoUnitMultiple(d, i, j, x, q);
      }
    }
  }

  lemma NoUnitMultiple(d: int, i: int, j: int, x: int, q: int)
    requires d > 1
    ensures (i * d) * x != q * (j * d) + 1
  {
    var k := i * x - q * j;
    assert (i * d) * x - q * (j * d) == k * d;
    if k >= 1 {
      Grows(k, d);
    } else if k <= -1 {
      Grows(-k, d);
    }
  }

  /** There is only one inverse in range. */
  lemma InverseUnique(value: int, modulus: int, x: int, y: int)
    requires modulus > 1 && 0 <= x < modulus && 0 <= y < modulus
    requires (value * x) % modulus == 1 && (value * y) % modulus == 1
    ensures x == y
  {
    var p, q := (value * x) / modulus, (value * y) / modulus;
    assert value * x == p * modulus + 1 && value * y == q * modulus + 1;
    // x == x * (value * y - q * modulus), and value * x is one more than a multiple.
    assert x * (value * y) == (value * x) * y;
    assert x == y + (p * y - q * x) * modulus by {
      assert x * (q * modulus + 1) == (p * modulus + 1) * y;
      assert (p * y - q * x) * modulus == (p * modulus) * y - x * (q * modulus);
    }
    ModOf(x, p * y - q * x, y, modulus);
    ModOf(x, 0, x, modulus);
  }

  /** With modulus one every product is zero modulo it, so the numbers are
      coprime, and `mod_inverse` still refuses. */
  lemma ModulusOneRefused(value: int)
    ensures Coprime(value, 1) && (value * 0) % 1 == 1 % 1
  {
    forall d | d > 1
      ensures !Divides(d, 1)
    {
      if Divides(d, 1) {
        var k :| 1 == k * d;
        NoUnitMultiple(d, k, 0, 1, 0);
      }
    }
  }

  // ----- the modular power -----

  function Pow(b: int, e: nat): int {
    if e == 0 then 1 else b * Pow(b, e - 1)
  }

  /** The truncated remainder is the one with the number's sign. */
  lemma TruncIs(x: int, q: int, r: int, m: int)
    requires m != 0 && x == q * m + r && Abs(r) < Abs(m) && (r > 0 ==> x > 0) && (r < 0 ==> x < 0)
    ensures TruncMod(x, m) == r
  {
    var n: int := Abs(m);
    var k := if m < 0 then -q else q;
    Negated(q, m);
    Negated(k, n);
    assert x == k * n + r;
    if x < 0 {
      ModOf(-x, -k, -r, n);
    } else {
      ModOf(x, k, r, n);
    }
  }

  lemma Negated(a: int, b: int)
    ensures (-a) * (-b) == a * b && (-a) * b == -(a * b)
  {
  }

  lemma TruncSign(a: int, m: int)
    requires m != 0
    ensures TruncMod(a, m) > 0 ==> a > 0
    ensures TruncMod(a, m) < 0 ==> a < 0
  {
  }

  lemma TruncMul(a: int, b: int, m: int)
    requires m != 0
    ensures TruncMod(TruncMod(a, m) * b, m) == TruncMod(a * b, m)
  {
    hide TruncDiv, TruncMod;
    var q, r := TruncDiv(a, m), TruncMod(a, m);
    var k, t := TruncDiv(r * b, m), TruncMod(r * b, m);
    TruncSplit(a, m);
    TruncSplit(r * b, m);
    TruncSign(a, m);
    TruncSign(r * b, m);
    SameSign(a, r, b);
    Product(a, b, m, q, r, k, t);
    TruncIs(a * b, q * b + k, t, m);
  }

  lemma Product(a: int, b: int, m: int, q: int, r: int, k: int, t: int)
    requires a == q * m + r && r * b == k * m + t
    ensures a * b == (q * b + k) * m + t
  {
    assert (q * m + r) * b == (q * b) * m + r * b;
    assert (q * b) * m + k * m == (q * b + k) * m;
  }

  lemma SameSign(a: int, r: int, b: int)
    requires (r > 0 ==> a > 0) && (r < 0 ==> a < 0)
    ensures r * b > 0 ==> a * b > 0
    ensures r * b < 0 ==> a * b < 0
  {
    if r > 0 && b > 0 {
      assert a * b > 0 && r * b > 0;
    } else if r > 0 && b < 0 {
      assert a * (-b) > 0 && r * (-b) > 0;
    } else if r < 0 && b > 0 {
      assert (-a) * b > 0 && (-r) * b > 0;
    } else if r < 0 && b < 0 {
      assert (-a) * (-b) > 0 && (-r) * (-b) > 0;
    } else {
      assert r * b == 0;
    }
  }

  lemma {:induction false} PowOfResidue(a: int, e: nat, m: int)
    requires m != 0
    ensures TruncMod(Pow(TruncMod(a, m), e), m) == TruncMod(Pow(a, e), m)
  {
    if e > 0 {
      PowOfResidue(a, e - 1, m);
      var r := TruncMod(a, m);
      var p, q := Pow(r, e - 1), Pow(a, e - 1);
      assert Pow(r, e) == r * p && Pow(a, e) == a * q;
      hide Pow, TruncMod;
      TruncMul(a, p, m);
      SameResidue(a, p, q, m);
    }
  }

  lemma {:induction false} PowSquare(b: int, k: nat)
    ensures Pow(b, 2 * k) == Pow(b * b, k)
  {
    if k > 0 {
      PowSquare(b, k - 1);
      assert Pow(b, 2 * k) == b * (b * Pow(b, 2 * (k - 1)));
      assert b * (b * Pow(b, 2 * (k - 1))) == (b * b) * Pow(b, 2 * (k - 1));
    }
  }

  lemma {:induction false} PowSign(b: int, e: nat)
    ensures b >= 0 ==> Pow(b, e) >= 0
    ensures b < 0 ==> Pow(b, e) != 0 && (Pow(b, e) > 0 <==> e % 2 == 0)
  {
    if e > 0 {
      PowSign(b, e - 1);
      var p := Pow(b, e - 1);
      if b < 0 && p < 0 {
        assert (-b) * (-p) > 0;
      } else if b < 0 {
        assert (-b) * p > 0;
      }
    }
  }

  /** What the square-and-multiply loop returns: the truncated power, except that the
      accumulator's initial one is never reduced when the exponent is zero. */
  function PowerSpec(base: int, exponent: nat, modulus: int): int
    requires modulus != 0
  {
    if exponent == 0 then 1 else TruncMod(Pow(base, exponent), modulus)
  }

  /** For a positive modulus that is the modular power exactly when the exponent is
      zero and the modulus not one, or the power is not negative, or divisible. */
  lemma PowerSpecExact(base: int, exponent: nat, modulus: nat)
    requires modulus > 0
    ensures PowerSpec(base, exponent, modulus) == Pow(base, exponent) % modulus
            <==> if exponent == 0 then modulus > 1
                 else base >= 0 || exponent % 2 == 0 || Pow(base, exponent) % modulus == 0
    ensures base >= 0 ==> 0 <= PowerSpec(base, exponent, modulus)
    ensures modulus > 1 || exponent > 0 ==> PowerSpec(base, exponent, modulus) < modulus
  {
    var p := Pow(base, exponent);
    PowSign(base, exponent);
    if exponent == 0 {
      if modulus > 1 {
        ModOf(1, 0, 1, modulus);
      }
    } else if p < 0 {
      var q, r := (-p) / modulus, (-p) % modulus;
      assert -p == q * modulus + r;
      hide Pow;
      if r == 0 {
        ModOf(p, -q, 0, modulus);
      } else {
        assert p == (-q - 1) * modulus + (modulus - r);
        ModOf(p, -q - 1, modulus - r, modulus);
      }
    }
  }

  /** `pow_mod`, both overloads: the exponent's type is the only difference. */
  method PowMod(base: int, exponent: nat, modulus: int) returns (r: Option<int>)
    ensures r.Some? <==> modulus != 0
    ensures r.Some? ==> r.value == PowerSpec(base, exponent, modulus)
  {
    if modulus == 0 {
      return None;
    }
    hide Pow, Owed, TruncMod;
    var out := 1;
    var b, e: nat := TruncMod(base, modulus), exponent;
    ghost var goal := TruncMod(Pow(base, exponent), modulus);
    OwedFirst(base, exponent, modulus);
    while e != 0
      invariant Owed(out, b, e, modulus) == goal
      invariant Abs(out) < Abs(modulus) || (out == 1 && (e > 0 || exponent == 0))
      invariant exponent == 0 ==> out == 1
      decreases e
    {
      var half := e / 2;
      Halve(out, b, e, modulus);
      TruncBound(out * b, modulus);
      if e % 2 != 0 {
        out := TruncMod(out * b, modulus);
      }
      e := half;
      if e != 0 {
        b := TruncMod(b * b, modulus);
      }
    }
    OwedLast(out, b, modulus);
    r := Some(out);
  }

  lemma TruncBound(x: int, m: int)
    requires m != 0
    ensures Abs(TruncMod(x, m)) < Abs(m)
  {
    TruncSplit(x, m);
  }

  /** The accumulator times the power still to be multiplied in. */
  ghost function Owed(out: int, b: int, e: nat, m: int): int
    requires m != 0
  {
    TruncMod(out * Pow(b, e), m)
  }

  lemma OwedFirst(base: int, e: nat, m: int)
    requires m != 0
    ensures Owed(1, TruncMod(base, m), e, m) == TruncMod(Pow(base, e), m)
  {
    PowOfResidue(base, e, m);
  }

  lemma OwedLast(out: int, b: int, m: int)
    requires m != 0
    ensures Owed(out, b, 0, m) == TruncMod(out, m)
    ensures Abs(out) < Abs(m) ==> TruncMod(out, m) == out
  {
    if Abs(out) < Abs(m) {
      TruncIs(out, 0, out, m);
    }
  }

  /** One round keeps the product of the accumulator and the power still owed. */
  lemma Halve(out: int, b: int, e: nat, m: int)
    requires m != 0 && e > 0
    ensures var out' := if e % 2 != 0 then TruncMod(out * b, m) else out;
            var b' := if e / 2 != 0 then TruncMod(b * b, m) else b;
            Owed(out', b', e / 2, m) == Owed(out, b, e, m)
  {
    var h := e / 2;
    var whole := if e % 2 != 0 then out * b else out;
    var out' := if e % 2 != 0 then TruncMod(out * b, m) else out;
    var p := Pow(b * b, h);
    PowSquare(b, h);
    if e % 2 != 0 {
      assert Pow(b, e) == b * Pow(b, 2 * h);
      assert out * (b * p) == (out * b) * p;
    }
    assert out * Pow(b, e) == whole * p;
    TruncMul(whole, p, m);
    if h != 0 {
      PowOfResidue(b * b, h, m);
      SameResidue(out', Pow(TruncMod(b * b, m), h), p, m);
    }
  }

  lemma SameResidue(x: int, y: int, z: int, m: int)
    requires m != 0 && TruncMod(y, m) == TruncMod(z, m)
    ensures TruncMod(x * y, m) == TruncMod(x * z, m)
  {
    hide TruncMod;
    TruncMul(y, x, m);
    TruncMul(z, x, m);
    assert x * y == y * x && x * z == z * x;
  }

  // ----- integers as big-endian bytes -----

  function Radix(n: nat): nat
    ensures Radix(n) > 0
  {
    if n == 0 then 1 else 256 * Radix(n - 1)
  }

  lemma {:induction false} ValueBound(s: seq<byte>)
    ensures Number(s) < Radix(|s|)
  {
    if |s| > 0 {
      ValueBound(s[..|s| - 1]);
    }
  }

  lemma EmptyIsZero(s: seq<byte>)
    ensures |s| == 0 ==> Number(s) == 0
  {
  }

  /** A value and a length have one byte string. */
  lemma ValueInjective(s: seq<byte>, t: seq<byte>)
    requires |s| == |t| && Number(s) == Number(t)
    ensures s == t
  {
    hide Number;
    BigEndianOf(s);
    BigEndianOf(t);
  }

  lemma {:induction false} ValueSplit(s: seq<byte>, b: byte)
    ensures Number([b] + s) == b * Radix(|s|) + Number(s)
  {
    var t := [b] + s;
    if |s| == 0 {
      assert t[..0] == [];
    } else {
      var k := |s| - 1;
      ValueSplit(s[..k], b);
      assert t[..|t| - 1] == [b] + s[..k];
      assert 256 * (b * Radix(k)) == b * Radix(|s|) by {
        assert 256 * (b * Radix(k)) == b * (256 * Radix(k));
      }
    }
  }

  /** `int_from_bytes`. */
  method IntFromBytes(s: seq<byte>) returns (r: nat)
    ensures r == Number(s) < Radix(|s|)
  {
    r := 0;
    for i := 0 to |s|
      invariant r == Number(s[..i])
    {
      assert s[..i + 1][..i] == s[..i];
      r := r * 256 + s[i];
    }
    assert s[..|s|] == s;
    ValueBound(s);
  }

  /** `write_int_bytes`: fills the whole span with the low digits, then throws
      if anything is left. */
  method WriteIntBytes(value: nat, out: array<byte>) returns (ok: bool)
    modifies out
    ensures ok <==> value < Radix(out.Length)
    ensures Number(out[..]) == value % Radix(out.Length)
    ensures ok ==> Number(out[..]) == value
  {
    hide Radix, Number;
    var v := value;
    var n := out.Length;
    WriteStart(value, out[n..]);
    for i := 0 to n
      invariant v >= 0
      invariant value == v * Radix(i) + Number(out[n - i..])
    {
      ghost var low := out[n - i..];
      WriteStep(value, v, low);
      out[n - 1 - i] := v % 256;
      assert out[n - i..] == low;
      assert out[n - 1 - i..] == [v % 256] + low;
      v := v / 256;
    }
    assert out[0..] == out[..];
    WriteEnd(value, v, out[..]);
    ok := v == 0;
  }

  lemma WriteStart(value: nat, s: seq<byte>)
    requires |s| == 0
    ensures value == value * Radix(0) + Number(s)
  {
  }

  lemma WriteStep(value: nat, v: nat, low: seq<byte>)
    requires value == v * Radix(|low|) + Number(low)
    ensures value == v / 256 * Radix(|low| + 1) + Number([v % 256] + low)
  {
    hide Number;
    ValueSplit(low, v % 256);
    var q, d, r := v / 256, v % 256, Radix(|low|);
    assert (q * 256 + d) * r == q * (256 * r) + d * r;
  }

  lemma WriteEnd(value: nat, v: nat, s: seq<byte>)
    requires value == v * Radix(|s|) + Number(s)
    ensures v == 0 <==> value < Radix(|s|)
    ensures Number(s) == value % Radix(|s|)
  {
    ValueBound(s);
    hide Number, Radix;
    ModOf(value, v, Number(s), Radix(|s|));
    if v > 0 {
      Grows(v, Radix(|s|));
    }
  }

  /** `bytes_from_int`. */
  method BytesFromInt(value: nat, len: nat) returns (r: Option<seq<byte>>)
    ensures r.Some? <==> value < Radix(len)
    ensures r.Some? ==> |r.value| == len && Number(r.value) == value
  {
    var out := new byte[len];
    var ok := WriteIntBytes(value, out);
    r := if ok then Some(out[..]) else None;
  }

  /** Writing what was read gives the bytes back, and reading what was written
      gives the number back. */
  method ReadWrite(s: seq<byte>) returns (r: Option<seq<byte>>)
    ensures r == Some(s)
  {
    var v := IntFromBytes(s);
    r := BytesFromInt(v, |s|);
    ValueInjective(s, r.value);
  }

  /** `modular_exponentiate`. */
  method ModularExponentiate(base: seq<byte>, exponent: seq<byte>, modulus: seq<byte>, output: array<byte>)
    returns (ok: bool)
    modifies output
    ensures ok <==> Number(modulus) > 0 && output.Length > 0
                    && PowerSpec(Number(base), Number(exponent), Number(modulus)) < Radix(output.Length)
    ensures ok && (Number(modulus) > 1 || Number(exponent) > 0)
            ==> Number(output[..]) == Pow(Number(base), Number(exponent)) % Number(modulus)
  {
    hide Pow, Radix, Number, PowerSpec;
    if |modulus| == 0 || output.Length == 0 {
      EmptyIsZero(modulus);
      return false;
    }
    var n := IntFromBytes(modulus);
    var b := IntFromBytes(base);
    var e := IntFromBytes(exponent);
    var p := PowMod(b, e, n);
    if p.None? {
      return false;
    }
    PowerSpecExact(b, e, n);
    ok := WriteIntBytes(p.value, output);
  }

  /** `rsa_raw_public_encrypt`: the only failures are the argument checks. */
  method RsaRawPublicEncrypt(modulus: seq<byte>, exponent: nat, input: seq<byte>, output: array<byte>)
    returns (ok: bool)
    modifies output
    ensures ok <==> output.Length == |modulus| && |input| <= |modulus| && exponent >= 3 && exponent % 2 == 1
                    && Number(input) < Number(modulus)
    ensures ok ==> Number(output[..]) == Pow(Number(input), exponent) % Number(modulus)
    ensures !ok ==> output[..] == old(output[..])
  {
    if |modulus| == 0 || output.Length != |modulus| || |input| > |modulus| || exponent < 3 || exponent % 2 == 0 {
      return false;
    }
    var n := IntFromBytes(modulus);
    var m := IntFromBytes(input);
    if m >= n {
      return false;
    }
    var p := PowMod(m, exponent, n);
    PowerSpecExact(m, exponent, n);
    ok := WriteIntBytes(p.value, output);
  }
}
