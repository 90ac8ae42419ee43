/**
 Bit-level arithmetic on unsigned C integers. A right shift is division by a
 power of two and a low mask is the remainder; bitwise "or" is defined bit by
 bit, and shown to be addition where the operands do not overlap, which is how
 every packed field of the codec uses it.
 */
module Bits {

  function Pow2(k: nat): (r: nat)
    ensures r >= 1
  {
    if k == 0 then 1 else 2 * Pow2(k - 1)
  }

  function Quot(v: nat, p: nat): nat
    requires p >= 1
  {
    v / p
  }

  function Rem(v: nat, p: nat): nat
    requires p >= 1
  {
    v % p
  }

  /** v without its n low bits (v >> n), and those bits alone. */
  function High(v: nat, n: nat): nat { Quot(v, Pow2(n)) }
  function Low(v: nat, n: nat): nat { Rem(v, Pow2(n)) }

  lemma HighLow(v: nat, n: nat)
    ensures v == High(v, n) * Pow2(n) + Low(v, n) && Low(v, n) < Pow2(n)
  {
    Euclid(v, Pow2(n));
  }

  lemma Euclid(v: nat, p: nat)
    requires p >= 1
    ensures v == (v / p) * p + v % p && v % p < p
  {
  }

  /** Bitwise or. */
  function Or(a: nat, b: nat): nat
  {
    if a == 0 then b
    else 2 * Or(a / 2, b / 2) + (if a % 2 == 1 || b % 2 == 1 then 1 else 0)
  }

  lemma {:induction false} OrZero(a: nat)
    ensures Or(a, 0) == a
  {
    if a > 0 { OrZero(a / 2); }
  }

  /** Fields that do not overlap: or-ing is adding. */
  lemma {:induction false} OrDisjoint(c: nat, k: nat, b: nat)
    requires b < Pow2(k)
    ensures Or(c * Pow2(k), b) == c * Pow2(k) + b
  {
    var a := c * Pow2(k);
    if k == 0 {
      OrZero(a);
    } else if a > 0 {
      var h := c * Pow2(k - 1);
      assert a == 2 * h;
      assert a / 2 == h && a % 2 == 0;
      OrDisjoint(c, k - 1, b / 2);
    }
  }

  lemma {:induction false} OrCommutes(a: nat, b: nat)
    ensures Or(a, b) == Or(b, a)
  {
    if a == 0 {
      OrZero(b);
    } else if b == 0 {
      OrZero(a);
    } else {
      OrCommutes(a / 2, b / 2);
    }
  }

  lemma MulMono(x: int, y: int, p: int)
    requires x <= y && 0 <= p
    ensures x * p <= y * p
  {
  }

  lemma MulPow2(x: nat, k: nat)
    requires k >= 1
    ensures x * Pow2(k) == 2 * (x * Pow2(k - 1))
  {
    var p := Pow2(k - 1);
    assert Pow2(k) == 2 * p;
    DoubleMul(x, p);
  }

  lemma DoubleMul(x: nat, p: nat)
    ensures x * (2 * p) == 2 * (x * p)
  {
  }

  lemma {:induction false} Pow2Add(i: nat, j: nat)
    ensures Pow2(i + j) == Pow2(i) * Pow2(j)
  {
    if i > 0 {
      Pow2Add(i - 1, j);
      var p, q := Pow2(i - 1), Pow2(j);
      DoubleMul(q, p);
    }
  }

  lemma {:induction false} Pow2Monotone(i: nat, j: nat)
    requires i <= j
    ensures Pow2(i) <= Pow2(j)
  {
    if i < j { Pow2Monotone(i, j - 1); }
  }

  /** The powers used as field widths. */
  lemma Pow2Values()
    ensures Pow2(4) == 16 && Pow2(8) == 256 && Pow2(16) == 65536
    ensures Pow2(24) == 0x100_0000 && Pow2(32) == 0x1_0000_0000
  {
    assert Pow2(4) == 16;
    Pow2Add(4, 4);
    Pow2Add(8, 8);
    Pow2Add(16, 8);
    Pow2Add(16, 16);
  }
}
