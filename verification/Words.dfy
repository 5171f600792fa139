/** 64-bit words as their bits, most significant first, with the operators
    that src/nxtrt/land.hpp applies to them. */
module Words {

  type Word = w: seq<bool> | |w| == 64 witness seq(64, _ => false)

  function Zero(): Word {
    seq(64, _ => false)
  }

  /** `1 << (63 - j)`: only position `j` is set. */
  function Bit(j: nat): Word
    requires j < 64
  {
    seq(64, k => k == j)
  }

  function Or(a: Word, b: Word): Word {
    seq(64, k requires 0 <= k < 64 => a[k] || b[k])
  }

  function And(a: Word, b: Word): Word {
    seq(64, k requires 0 <= k < 64 => a[k] && b[k])
  }

  function Not(a: Word): Word {
    seq(64, k requires 0 <= k < 64 => !a[k])
  }

  function Shr(a: Word, n: nat): Word {
    seq(64, k requires 0 <= k < 64 => n <= k && a[k - n])
  }

  /** The word `fill` writes when the first `live` of its positions are in use. */
  function Leading(live: nat): (w: Word)
    requires live <= 64
    ensures forall j :: 0 <= j < 64 ==> (w[j] <==> j < live)
  {
    if live == 64 then Not(Zero()) else Not(Shr(Not(Zero()), live))
  }

  /** `std::countl_zero`: the lowest set position, or 64 when there is none. */
  function CountlZero(w: Word): (r: nat)
    ensures r <= 64
    ensures r < 64 ==> w[r]
    ensures forall j :: 0 <= j < r ==> !w[j]
  {
    FirstFrom(w, 0)
  }

  function FirstFrom(w: Word, k: nat): (r: nat)
    requires k <= 64
    requires forall j :: 0 <= j < k ==> !w[j]
    ensures k <= r <= 64
    ensures r < 64 ==> w[r]
    ensures forall j :: 0 <= j < r ==> !w[j]
    decreases 64 - k
  {
    if k == 64 || w[k] then k else FirstFrom(w, k + 1)
  }

  /** A word is nonzero exactly when some position is set. */
  lemma NonzeroHasBit(w: Word)
    ensures w == Zero() <==> CountlZero(w) == 64
  {
    if CountlZero(w) == 64 {
      assert forall j :: 0 <= j < 64 ==> w[j] == Zero()[j];
      assert w == Zero();
    }
  }
}
