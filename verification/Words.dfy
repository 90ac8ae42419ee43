/**
 32-bit words: exclusive-or and shifts by one under names of their own, so that
 proofs can treat them algebraically, and single bits.
 */
module Words {
  function Xor(a: bv32, b: bv32): bv32 { a ^ b }

  predicate Odd(c: bv32) { c & 1 == 1 }

  function Half(c: bv32): bv32 { c >> 1 }

  lemma XorAssoc(a: bv32, b: bv32, c: bv32)
    ensures Xor(Xor(a, b), c) == Xor(a, Xor(b, c))
  {
  }

  lemma XorComm(a: bv32, b: bv32)
    ensures Xor(a, b) == Xor(b, a)
  {
  }

  lemma XorCancel(a: bv32, b: bv32)
    ensures Xor(a, a) == 0 && Xor(0, b) == b && Xor(b, 0) == b && Xor(a, Xor(a, b)) == b
  {
  }

  lemma XorOdd(a: bv32, b: bv32)
    ensures Odd(Xor(a, b)) == (Odd(a) != Odd(b))
  {
  }

  lemma XorHalf(a: bv32, b: bv32)
    ensures Half(Xor(a, b)) == Xor(Half(a), Half(b))
  {
  }

  function Double(x: bv32): bv32 { x << 1 }

  /** The word with bit n alone. */
  function Unit(n: nat): bv32 { if n == 0 then 1 else Double(Unit(n - 1)) }

  function Or(a: bv32, b: bv32): bv32 { a | b }

  function RotateLeft(c: bv32): bv32 { (c << 1) | (c >> 31) }

  function And(a: bv32, b: bv32): bv32 { a & b }

  predicate Test(c: bv32, m: bv32) { And(c, m) != 0 }

  /** Bit j, the lowest being bit 0. */
  predicate Bit(c: bv32, j: nat)
    requires j < 32
  {
    Test(c, Unit(j))
  }

  // ---------- Units ----------

  lemma UnitValues()
    ensures Unit(0) == 0x1 && Unit(1) == 0x2 && Unit(2) == 0x4 && Unit(3) == 0x8
    ensures Unit(4) == 0x10 && Unit(5) == 0x20 && Unit(6) == 0x40 && Unit(7) == 0x80
    ensures Unit(8) == 0x100 && Unit(9) == 0x200 && Unit(10) == 0x400 && Unit(11) == 0x800
    ensures Unit(12) == 0x1000 && Unit(13) == 0x2000 && Unit(14) == 0x4000 && Unit(15) == 0x8000
    ensures Unit(16) == 0x1_0000 && Unit(17) == 0x2_0000 && Unit(18) == 0x4_0000 && Unit(19) == 0x8_0000
    ensures Unit(20) == 0x10_0000 && Unit(21) == 0x20_0000 && Unit(22) == 0x40_0000 && Unit(23) == 0x80_0000
    ensures Unit(24) == 0x100_0000 && Unit(25) == 0x200_0000 && Unit(26) == 0x400_0000 && Unit(27) == 0x800_0000
    ensures Unit(28) == 0x1000_0000 && Unit(29) == 0x2000_0000 && Unit(30) == 0x4000_0000 && Unit(31) == 0x8000_0000
  {
    assert Unit(3) == 0x8;
    assert Unit(7) == 0x80;
    assert Unit(11) == 0x800;
    assert Unit(15) == 0x8000;
    assert Unit(19) == 0x8_0000;
    assert Unit(23) == 0x80_0000;
    assert Unit(27) == 0x800_0000;
  }

  /** A unit is one bit, and only the last one is the top bit. */
  lemma UnitShape(j: nat)
    requires j < 32
    ensures Unit(j) != 0 && Unit(j) & (Unit(j) - 1) == 0
    ensures j < 31 ==> Unit(j) & 0x8000_0000 == 0 && Unit(j + 1) == Double(Unit(j))
  {
    UnitValues();
  }

  // ---------- Bits of results ----------

  lemma NoBit(j: nat)
    requires j < 32
    ensures !Bit(0, j)
  {
  }

  lemma BitXor(a: bv32, b: bv32, j: nat)
    requires j < 32
    ensures Bit(Xor(a, b), j) == (Bit(a, j) != Bit(b, j))
  {
    UnitShape(j);
    hide Unit, Test, Xor;
    TestXor(a, b, Unit(j));
  }

  lemma TestXor(a: bv32, b: bv32, m: bv32)
    requires m & (m - 1) == 0
    ensures Test(Xor(a, b), m) == (Test(a, m) != Test(b, m))
  {
    OneBit(a, m);
    OneBit(b, m);
    XorMasked(a, b, m);
    XorCancel(m, m);
    XorCancel(0, 0);
    hide And, Xor;
  }

  lemma OneBit(a: bv32, m: bv32)
    requires m & (m - 1) == 0
    ensures And(a, m) == 0 || And(a, m) == m
  {
  }

  lemma XorMasked(a: bv32, b: bv32, m: bv32)
    ensures And(Xor(a, b), m) == Xor(And(a, m), And(b, m))
  {
  }

  lemma BitOr(a: bv32, b: bv32, j: nat)
    requires j < 32
    ensures Bit(Or(a, b), j) == (Bit(a, j) || Bit(b, j))
  {
    hide Unit, Test, Or;
    TestOr(a, b, Unit(j));
  }

  lemma TestOr(a: bv32, b: bv32, m: bv32)
    ensures Test(Or(a, b), m) == (Test(a, m) || Test(b, m))
  {
    OrMasked(a, b, m);
    OrZero(And(a, m), And(b, m));
    hide And, Or;
  }

  lemma OrMasked(a: bv32, b: bv32, m: bv32)
    ensures And(Or(a, b), m) == Or(And(a, m), And(b, m))
  {
  }

  lemma OrZero(x: bv32, y: bv32)
    ensures Or(x, y) == 0 ==> x == 0 && y == 0
    ensures x == 0 && y == 0 ==> Or(x, y) == 0
  {
  }

  lemma BitHalf(c: bv32, j: nat)
    requires j < 32
    ensures Bit(Half(c), j) == (j < 31 && Bit(c, j + 1))
  {
    UnitShape(j);
    TopUnit();
    hide Unit, Test, Half, Double;
    TestHalf(c, Unit(j));
  }

  lemma TopUnit()
    ensures Unit(0) == 1 && Unit(31) == 0x8000_0000
  {
    UnitValues();
  }

  lemma TestHalf(c: bv32, m: bv32)
    ensures m & 0x8000_0000 == 0 ==> Test(Half(c), m) == Test(c, Double(m))
    ensures !Test(Half(c), 0x8000_0000)
  {
  }

  lemma BitOdd(c: bv32)
    ensures Odd(c) == Bit(c, 0)
  {
  }

  /** Every bit moves up one place, the top bit round to the bottom. */
  lemma BitRotate(c: bv32, j: nat)
    requires j < 32
    ensures Bit(RotateLeft(c), j) == Bit(c, if j == 0 then 31 else j - 1)
  {
    TopUnit();
    if j > 0 { UnitShape(j - 1); }
    hide Unit, Test, RotateLeft, Double;
    TestRotate(c, if j == 0 then 0 else Unit(j - 1));
  }

  lemma TestRotate(c: bv32, m: bv32)
    ensures m & 0x8000_0000 == 0 ==> Test(RotateLeft(c), Double(m)) == Test(c, m)
    ensures Test(RotateLeft(c), 1) == Test(c, 0x8000_0000)
  {
  }

  lemma {:induction false} BitUnit(k: nat, j: nat)
    requires k < 32 && j < 32
    ensures Bit(Unit(k), j) == (k == j)
    decreases k
  {
    TopUnit();
    if j > 0 { UnitShape(j - 1); }
    if k > 0 { UnitShape(k - 1); }
    if k > 0 && j > 0 { BitUnit(k - 1, j - 1); }
    hide Unit, Test, Double;
    TestDouble(if k > 0 then Unit(k - 1) else 0, if j > 0 then Unit(j - 1) else 0);
  }

  lemma TestDouble(a: bv32, m: bv32)
    ensures !Test(1, Double(m)) && !Test(Double(a), 1) && Test(1, 1)
    ensures a & 0x8000_0000 == 0 && m & 0x8000_0000 == 0 ==> Test(Double(a), Double(m)) == Test(a, m)
  {
  }

  /** Four bits from unit m on. */
  predicate SameFour(a: bv32, b: bv32, m: bv32) {
    && Test(a, m) == Test(b, m) && Test(a, Double(m)) == Test(b, Double(m))
    && Test(a, Double(Double(m))) == Test(b, Double(Double(m))) && Test(a, Double(Double(Double(m)))) == Test(b, Double(Double(Double(m))))
  }

  lemma FourBits(a: bv32, b: bv32, j: nat)
    requires j + 3 < 32 && forall k :: 0 <= k < 32 ==> Bit(a, k) == Bit(b, k)
    ensures SameFour(a, b, Unit(j))
  {
    hide Test, Double;
    assert Bit(a, j) == Bit(b, j) && Bit(a, j + 1) == Bit(b, j + 1) && Bit(a, j + 2) == Bit(b, j + 2) && Bit(a, j + 3) == Bit(b, j + 3);
  }

  /** Words with the same bits are the same. */
  lemma SameBits(a: bv32, b: bv32)
    requires forall j :: 0 <= j < 32 ==> Bit(a, j) == Bit(b, j)
    ensures a == b
  {
    hide SameFour, Unit;
    FourBits(a, b, 0);
    FourBits(a, b, 4);
    FourBits(a, b, 8);
    FourBits(a, b, 12);
    FourBits(a, b, 16);
    FourBits(a, b, 20);
    FourBits(a, b, 24);
    FourBits(a, b, 28);
    UnitValues();
    SameWords(a, b);
  }

  lemma SameWords(a: bv32, b: bv32)
    requires SameFour(a, b, 0x1) && SameFour(a, b, 0x10) && SameFour(a, b, 0x100) && SameFour(a, b, 0x1000)
    requires SameFour(a, b, 0x1_0000) && SameFour(a, b, 0x10_0000) && SameFour(a, b, 0x100_0000) && SameFour(a, b, 0x1000_0000)
    ensures a == b
  {
  }
}
