/**
 The CRC-32 of crc32.c, against its bit-serial definition (section 8 of RFC
 1952): the byte table, four bytes at a time, and combination by matrices over
 GF(2). Exclusive-or has a name so that proofs can treat it algebraically.
 */
module Crc32 {
  import opened Rotation
  import opened Wrappers
  import opened Words

  const POLY: bv32 := 0xedb8_8320
  const ONES: bv32 := 0xffff_ffff

  // ---------- Reference ----------

  /** Multiplication by x: one zero bit enters the register. */
  function Shift(c: bv32): bv32 { if Odd(c) then Xor(POLY, Half(c)) else Half(c) }

  /** n zero bits enter. */
  function Zeros(c: bv32, n: nat): bv32 { if n == 0 then c else Shift(Zeros(c, n - 1)) }

  function ByteBits(b: byte): bv32 { b as bv32 }

  /** The register after a buffer, a bit at a time. */
  function Register(c: bv32, buf: seq<byte>): bv32 {
    if buf == [] then c else Zeros(Xor(Register(c, buf[..|buf| - 1]), ByteBits(buf[|buf| - 1])), 8)
  }

  /** The CRC of a buffer that continues one whose CRC is crc. */
  function Crc(crc: bv32, buf: seq<byte>): bv32 { Xor(Register(Xor(crc, ONES), buf), ONES) }

  // ---------- The polynomial ----------

  /** x^32 plus these powers of x is the divisor. */
  const TERMS: seq<nat> := [0, 1, 2, 4, 5, 7, 8, 10, 11, 12, 16, 22, 23, 26]

  /** The first n terms as a word; the coefficient of x^t is bit 31 - t. */
  ghost function TermsWord(n: nat): bv32
    requires n <= |TERMS|
  {
    if n == 0 then 0 else Or(TermsWord(n - 1), Unit(31 - TERMS[n - 1]))
  }

  lemma {:induction false} TermsBits(n: nat, j: nat)
    requires n <= |TERMS| && j < 32
    ensures Bit(TermsWord(n), j) <==> 31 - j in TERMS[..n]
  {
    hide Or, Unit, Bit;
    if n == 0 {
      NoBit(j);
    } else {
      TermsBits(n - 1, j);
      BitOr(TermsWord(n - 1), Unit(31 - TERMS[n - 1]), j);
      BitUnit(31 - TERMS[n - 1], j);
      assert TERMS[..n] == TERMS[..n - 1] + [TERMS[n - 1]];
    }
  }

  /** The terms make the pattern that Shift uses. */
  lemma TermsPattern()
    ensures TermsWord(|TERMS|) == POLY
  {
    UnitValues();
    hide Unit;
    assert TermsWord(4) == 0xe800_0000;
    assert TermsWord(8) == 0xeda0_0000;
    assert TermsWord(11) == 0xedb8_8000;
  }

  /** The loop of make_crc_table that makes the pattern from the terms. */
  method MakePattern() returns (poly: bv32)
    ensures forall t :: 0 <= t < 32 ==> (Bit(poly, 31 - t) <==> t in TERMS)
    ensures poly == POLY
  {
    hide Or, Unit, Bit, TermsWord;
    poly := 0;
    NoTerms();
    for n := 0 to |TERMS|
      invariant poly == TermsWord(n)
    {
      NextTerm(n);
      poly := Or(poly, Unit(31 - TERMS[n]));
    }
    TermsPattern();
    assert TERMS[..|TERMS|] == TERMS;
    forall t | 0 <= t < 32 ensures Bit(poly, 31 - t) <==> t in TERMS { TermsBits(|TERMS|, 31 - t); }
  }

  lemma NoTerms()
    ensures TermsWord(0) == 0
  {
  }

  lemma NextTerm(n: nat)
    requires n < |TERMS|
    ensures TermsWord(n + 1) == Or(TermsWord(n), Unit(31 - TERMS[n]))
  {
  }

  /** What Shift does to the coefficients: multiplication by x, and where x^32
      arises, the terms of the divisor instead. */
  lemma ShiftDivides(c: bv32, t: nat)
    requires t < 32
    ensures Bit(Shift(c), 31 - t) <==> ((t > 0 && Bit(c, 31 - (t - 1))) != (Bit(c, 0) && t in TERMS))
  {
    hide Or, Unit, Bit, Xor, Half, Odd, TermsWord;
    TermsPattern();
    TermsBits(|TERMS|, 31 - t);
    assert TERMS[..|TERMS|] == TERMS;
    BitXor(POLY, Half(c), 31 - t);
    BitHalf(c, 31 - t);
    BitOdd(c);
  }

  /** Eight zero bits enter. */
  function EightShifts(c: bv32): bv32 { Shift(Shift(Shift(Shift(Shift(Shift(Shift(Shift(c)))))))) }

  lemma EightZeros(c: bv32)
    ensures Zeros(c, 8) == EightShifts(c)
  {
    hide Shift, Zeros;
    NoZeros(c);
    ZerosNext(c, 0);
    ZerosNext(c, 1);
    ZerosNext(c, 2);
    ZerosNext(c, 3);
    ZerosNext(c, 4);
    ZerosNext(c, 5);
    ZerosNext(c, 6);
    ZerosNext(c, 7);
  }

  lemma NextRegister(buf: seq<byte>, b: byte, c: bv32, c': bv32)
    requires Register(ONES, buf) == c && EightShifts(Xor(c, ByteBits(b))) == c'
    ensures Register(ONES, buf + [b]) == c'
  {
    hide EightShifts, Xor, Zeros;
    assert (buf + [b])[..|buf|] == buf;
    EightZeros(Xor(c, ByteBits(b)));
  }

  /** The register before and after each of the digits one to nine. */
  lemma DigitSteps()
    ensures EightShifts(0xffff_ffce) == 0x7c23_1048
    ensures EightShifts(0x7c23_107a) == 0xb0ac_bb32
    ensures EightShifts(0xb0ac_bb01) == 0x77b7_9c2d
    ensures EightShifts(0x77b7_9c19) == 0x641c_1f5c
    ensures EightShifts(0x641c_1f69) == 0x340a_c5e3
    ensures EightShifts(0x340a_c5d5) == 0xf68d_2c9e
    ensures EightShifts(0xf68d_2ca9) == 0xaffc_9660
    ensures EightShifts(0xaffc_9658) == 0x651f_2550
    ensures EightShifts(0x651f_2569) == 0x340b_c6d9
  {
  }

  lemma DigitBits()
    ensures Xor(0xffff_ffff, ByteBits(0x31)) == 0xffff_ffce
    ensures Xor(0x7c23_1048, ByteBits(0x32)) == 0x7c23_107a
    ensures Xor(0xb0ac_bb32, ByteBits(0x33)) == 0xb0ac_bb01
    ensures Xor(0x77b7_9c2d, ByteBits(0x34)) == 0x77b7_9c19
    ensures Xor(0x641c_1f5c, ByteBits(0x35)) == 0x641c_1f69
    ensures Xor(0x340a_c5e3, ByteBits(0x36)) == 0x340a_c5d5
    ensures Xor(0xf68d_2c9e, ByteBits(0x37)) == 0xf68d_2ca9
    ensures Xor(0xaffc_9660, ByteBits(0x38)) == 0xaffc_9658
    ensures Xor(0x651f_2550, ByteBits(0x39)) == 0x651f_2569
  {
  }

  /** The check value: the CRC of the digits one to nine. */
  lemma CheckValue()
    ensures Crc(0, [0x31, 0x32, 0x33, 0x34, 0x35, 0x36, 0x37, 0x38, 0x39]) == 0xcbf4_3926
  {
    NothingRead(ONES, []);
    DigitSteps();
    DigitBits();
    hide Register, EightShifts, ByteBits;
    NextRegister([], 0x31, 0xffff_ffff, 0x7c23_1048);
    assert [] + [0x31] == [0x31];
    NextRegister([0x31], 0x32, 0x7c23_1048, 0xb0ac_bb32);
    assert [0x31] + [0x32] == [0x31, 0x32];
    NextRegister([0x31, 0x32], 0x33, 0xb0ac_bb32, 0x77b7_9c2d);
    assert [0x31, 0x32] + [0x33] == [0x31, 0x32, 0x33];
    NextRegister([0x31, 0x32, 0x33], 0x34, 0x77b7_9c2d, 0x641c_1f5c);
    assert [0x31, 0x32, 0x33] + [0x34] == [0x31, 0x32, 0x33, 0x34];
    NextRegister([0x31, 0x32, 0x33, 0x34], 0x35, 0x641c_1f5c, 0x340a_c5e3);
    assert [0x31, 0x32, 0x33, 0x34] + [0x35] == [0x31, 0x32, 0x33, 0x34, 0x35];
    NextRegister([0x31, 0x32, 0x33, 0x34, 0x35], 0x36, 0x340a_c5e3, 0xf68d_2c9e);
    assert [0x31, 0x32, 0x33, 0x34, 0x35] + [0x36] == [0x31, 0x32, 0x33, 0x34, 0x35, 0x36];
    NextRegister([0x31, 0x32, 0x33, 0x34, 0x35, 0x36], 0x37, 0xf68d_2c9e, 0xaffc_9660);
    assert [0x31, 0x32, 0x33, 0x34, 0x35, 0x36] + [0x37] == [0x31, 0x32, 0x33, 0x34, 0x35, 0x36, 0x37];
    NextRegister([0x31, 0x32, 0x33, 0x34, 0x35, 0x36, 0x37], 0x38, 0xaffc_9660, 0x651f_2550);
    assert [0x31, 0x32, 0x33, 0x34, 0x35, 0x36, 0x37] + [0x38] == [0x31, 0x32, 0x33, 0x34, 0x35, 0x36, 0x37, 0x38];
    NextRegister([0x31, 0x32, 0x33, 0x34, 0x35, 0x36, 0x37, 0x38], 0x39, 0x651f_2550, 0x340b_c6d9);
    assert [0x31, 0x32, 0x33, 0x34, 0x35, 0x36, 0x37, 0x38] + [0x39] == [0x31, 0x32, 0x33, 0x34, 0x35, 0x36, 0x37, 0x38, 0x39];
  }

  // ---------- Algebra ----------

  lemma ShiftLinear(a: bv32, b: bv32)
    ensures Shift(Xor(a, b)) == Xor(Shift(a), Shift(b))
  {
    hide Xor, Odd, Half;
    var x, y := Half(a), Half(b);
    XorOdd(a, b);
    XorHalf(a, b);
    XorAssoc(POLY, x, y);
    XorAssoc(POLY, x, Xor(POLY, y));
    XorAssoc(x, POLY, y);
    XorComm(x, POLY);
    XorCancel(POLY, Xor(x, y));
  }

  lemma {:induction false} ZerosLinear(a: bv32, b: bv32, n: nat)
    ensures Zeros(Xor(a, b), n) == Xor(Zeros(a, n), Zeros(b, n))
  {
    hide Shift, Xor;
    if n > 0 {
      ZerosLinear(a, b, n - 1);
      ShiftLinear(Zeros(a, n - 1), Zeros(b, n - 1));
    }
  }

  lemma {:induction false} ZerosAdd(c: bv32, m: nat, n: nat)
    ensures Zeros(Zeros(c, m), n) == Zeros(c, m + n)
  {
    hide Shift;
    if n > 0 { ZerosAdd(c, m, n - 1); }
  }

  lemma {:induction false} ZerosZero(n: nat)
    ensures Zeros(0, n) == 0
  {
    if n > 0 { ZerosZero(n - 1); }
  }

  /** The register is affine in its start. */
  lemma {:induction false} RegisterLinear(x: bv32, y: bv32, buf: seq<byte>)
    ensures Register(Xor(x, y), buf) == Xor(Zeros(x, 8 * |buf|), Register(y, buf))
  {
    hide Shift, Xor, Zeros;
    if buf == [] {
      NoZeros(x);
    } else {
      var t, b := buf[..|buf| - 1], ByteBits(buf[|buf| - 1]);
      RegisterLinear(x, y, t);
      XorAssoc(Zeros(x, 8 * |t|), Register(y, t), b);
      ZerosLinear(Zeros(x, 8 * |t|), Xor(Register(y, t), b), 8);
      ZerosAdd(x, 8 * |t|, 8);
    }
  }

  lemma NoZeros(c: bv32)
    ensures Zeros(c, 0) == c
  {
  }

  lemma {:induction false} RegisterConcat(c: bv32, x: seq<byte>, y: seq<byte>)
    ensures Register(c, x + y) == Register(Register(c, x), y)
  {
    hide Xor, Zeros;
    if y == [] {
      assert x + y == x;
    } else {
      RegisterConcat(c, x, y[..|y| - 1]);
      assert (x + y)[..|x + y| - 1] == x + y[..|y| - 1];
    }
  }

  /** Checksumming in pieces. */
  lemma CrcConcat(crc: bv32, x: seq<byte>, y: seq<byte>)
    ensures Crc(Crc(crc, x), y) == Crc(crc, x + y)
  {
    hide Xor, Zeros, Register;
    var r := Register(Xor(crc, ONES), x);
    RegisterConcat(Xor(crc, ONES), x, y);
    XorAssoc(r, ONES, ONES);
    XorCancel(ONES, r);
  }

  // ---------- Table look-up ----------

  function LowByte(c: bv32): bv32 { c & 0xff }

  function Upper(c: bv32): bv32 { c & 0xffff_ff00 }

  function High(c: bv32): bv32 { c >> 8 }

  lemma SplitByte(c: bv32)
    ensures c == Xor(LowByte(c), Upper(c)) && High(Upper(c)) == High(c)
  {
  }

  lemma EightHalves(c: bv32)
    ensures Half(Half(Half(Half(Half(Half(Half(Half(c)))))))) == High(c)
  {
  }

  lemma UpperIsEven(c: bv32)
    ensures !Odd(Upper(c)) && !Odd(Half(Upper(c))) && !Odd(Half(Half(Upper(c)))) && !Odd(Half(Half(Half(Upper(c)))))
    ensures !Odd(Half(Half(Half(Half(Upper(c)))))) && !Odd(Half(Half(Half(Half(Half(Upper(c)))))))
    ensures !Odd(Half(Half(Half(Half(Half(Half(Upper(c))))))))
    ensures !Odd(Half(Half(Half(Half(Half(Half(Half(Upper(c)))))))))
  {
  }

  lemma ZerosNext(c: bv32, n: nat)
    ensures Zeros(c, n + 1) == Shift(Zeros(c, n))
  {
  }

  /** While the low bits are zero, shifting is just shifting. */
  lemma ZerosUpper(c: bv32)
    ensures Zeros(Upper(c), 8) == High(c)
  {
    hide Zeros, Xor, Odd, Half, Upper, High;
    UpperIsEven(c);
    EightHalves(Upper(c));
    SplitByte(c);
    var u := Upper(c);
    NoZeros(u);
    ZerosNext(u, 0);
    ZerosNext(u, 1);
    ZerosNext(u, 2);
    ZerosNext(u, 3);
    ZerosNext(u, 4);
    ZerosNext(u, 5);
    ZerosNext(u, 6);
    ZerosNext(u, 7);
  }

  /** The low byte acts through its table entry, the rest moves down. */
  lemma Peel(c: bv32, n: nat)
    ensures Zeros(c, 8 + n) == Xor(Zeros(LowByte(c), 8 + n), Zeros(High(c), n))
  {
    hide Xor, Zeros, LowByte, Upper, High;
    SplitByte(c);
    ZerosUpper(c);
    ZerosLinear(LowByte(c), Upper(c), 8 + n);
    ZerosAdd(Upper(c), 8, n);
  }

  /** Table k holds the effect of a byte followed by k zero bytes. */
  ghost predicate Table(t: seq<bv32>, k: nat) {
    |t| == 256 && forall n: nat :: n < 256 ==> t[n] == Zeros(ByteBits(n), 8 * (k + 1))
  }

  function Index(c: bv32): (i: nat)
    ensures i < 256
  {
    LowByteSmall(c);
    LowByte(c) as nat
  }

  lemma LowByteSmall(c: bv32)
    ensures LowByte(c) as nat < 256
  {
  }

  lemma BackAndForth(c: bv32)
    ensures (c as nat) as bv32 == c
  {
  }

  lemma IndexBits(c: bv32)
    ensures ByteBits(Index(c)) == LowByte(c)
  {
    BackAndForth(LowByte(c));
  }

  lemma LookUp(t: seq<bv32>, k: nat, c: bv32)
    requires Table(t, k)
    ensures t[Index(c)] == Zeros(LowByte(c), 8 * (k + 1))
  {
    hide Zeros, LowByte, Index, ByteBits;
    IndexBits(c);
  }

  lemma ByteSmall(b: byte)
    ensures LowByte(ByteBits(b)) == ByteBits(b)
  {
  }

  /** make_crc_table: the four little-endian tables. */
  method MakeTables() returns (tables: seq<seq<bv32>>)
    ensures |tables| == 4 && forall k :: 0 <= k < 4 ==> Table(tables[k], k)
  {
    hide Zeros, Xor, LowByte, High, Index;
    var table0 := FirstTable();
    tables := [table0];
    for k: nat := 1 to 4
      invariant |tables| == k && forall j :: 0 <= j < k ==> Table(tables[j], j)
    {
      var t: seq<bv32> := [];
      for n: nat := 0 to 256
        invariant |t| == n && forall m: nat :: m < n ==> t[m] == Zeros(ByteBits(m), 8 * (k + 1))
      {
        var c := tables[k - 1][n];
        LookUp(table0, 0, c);
        Peel(c, 0);
        NoZeros(High(c));
        ZerosAdd(ByteBits(n), 8 * k, 8);
        t := t + [Xor(table0[Index(c)], High(c))];
      }
      tables := tables + [t];
    }
  }

  method FirstTable() returns (t: seq<bv32>)
    ensures Table(t, 0)
  {
    var poly := MakePattern();
    t := [];
    hide Xor, Half, Odd;
    for n: nat := 0 to 256
      invariant |t| == n && forall m: nat :: m < n ==> t[m] == Zeros(ByteBits(m), 8)
    {
      var c := ByteBits(n);
      for k: nat := 0 to 8
        invariant c == Zeros(ByteBits(n), k)
      {
        c := if Odd(c) then Xor(poly, Half(c)) else Half(c);
      }
      t := t + [c];
    }
  }

  // ---------- crc32, a byte at a time ----------

  lemma XorHigh(c: bv32, x: bv32)
    requires LowByte(x) == x
    ensures High(Xor(c, x)) == High(c)
  {
  }

  /** DO1 is eight steps of the definition. */
  lemma ByteStep(table0: seq<bv32>, c: bv32, b: byte)
    requires Table(table0, 0)
    ensures Xor(table0[Index(Xor(c, ByteBits(b)))], High(c)) == Zeros(Xor(c, ByteBits(b)), 8)
  {
    hide Zeros, Xor, LowByte, High, Index, ByteBits;
    var x := Xor(c, ByteBits(b));
    LookUp(table0, 0, x);
    Peel(x, 0);
    NoZeros(High(x));
    ByteSmall(b);
    XorHigh(c, ByteBits(b));
  }

  lemma RegisterSnoc(c: bv32, buf: seq<byte>, i: nat)
    requires i < |buf|
    ensures Register(c, buf[..i + 1]) == Zeros(Xor(Register(c, buf[..i]), ByteBits(buf[i])), 8)
  {
    assert buf[..i + 1][..i] == buf[..i];
  }

  /** crc32 without BYFOUR. */
  method Crc32Bytes(crc: bv32, buf: Option<seq<byte>>, tables: seq<seq<bv32>>) returns (r: bv32)
    requires |tables| == 4 && forall k :: 0 <= k < 4 ==> Table(tables[k], k)
    ensures r == if buf.None? then 0 else Crc(crc, buf.value)
  {
    hide Zeros, Xor, LowByte, High, Index, Register;
    if buf.None? { return 0; }
    var c := Xor(crc, ONES);
    NothingRead(c, buf.value);
    var end := UpdateBytes(c, buf.value, 0, |buf.value|, tables[0], c);
    assert buf.value[..|buf.value|] == buf.value;
    r := Xor(end, ONES);
  }

  /** Bytes from position i up to position j. */
  method UpdateBytes(c0: bv32, buf: seq<byte>, i: nat, j: nat, table0: seq<bv32>, ghost start: bv32) returns (c: bv32)
    requires i <= j <= |buf| && Table(table0, 0) && c0 == Register(start, buf[..i])
    ensures c == Register(start, buf[..j])
  {
    hide Zeros, Xor, LowByte, High, Index, Register, ByteBits, Table;
    c := c0;
    for n: nat := i to j
      invariant c == Register(start, buf[..n])
    {
      ByteStep(table0, c, buf[n]);
      RegisterSnoc(start, buf, n);
      TableSize(table0, 0);
      c := Xor(table0[Index(Xor(c, ByteBits(buf[n])))], High(c));
    }
  }

  lemma TableSize(t: seq<bv32>, k: nat)
    requires Table(t, k)
    ensures |t| == 256
  {
  }

  // ---------- crc32_little, four bytes at a time ----------

  function Up(x: bv32): bv32 { x << 8 }

  /** The little-endian word made of four bytes. */
  function Word(buf: seq<byte>, i: nat): bv32
    requires i + 4 <= |buf|
  {
    Xor(ByteBits(buf[i]), Up(Xor(ByteBits(buf[i + 1]), Up(Xor(ByteBits(buf[i + 2]), Up(ByteBits(buf[i + 3])))))))
  }

  /** Nothing is lost by moving up a byte. */
  predicate Fits(x: bv32) { High(Up(x)) == x }

  lemma UpIsUpper(x: bv32)
    ensures Upper(Up(x)) == Up(x)
  {
  }

  lemma FitsByte(b: bv32)
    requires LowByte(b) == b
    ensures Fits(b) && Fits(Xor(b, Up(b))) && High(Up(b)) == b
  {
  }

  lemma FitsTwo(a: bv32, b: bv32)
    requires LowByte(a) == a && LowByte(b) == b
    ensures Fits(Xor(a, Up(b)))
  {
  }

  lemma FitsThree(a: bv32, b: bv32, c: bv32)
    requires LowByte(a) == a && LowByte(b) == b && LowByte(c) == c
    ensures Fits(Xor(a, Up(Xor(b, Up(c)))))
  {
  }

  /** A later byte, waiting higher up in the word, is there when its turn comes. */
  lemma Waits(c: bv32, b: bv32, w: bv32, n: nat)
    requires Fits(w)
    ensures Zeros(Xor(c, Xor(b, Up(w))), 8 + n) == Zeros(Xor(Zeros(Xor(c, b), 8), w), n)
  {
    hide Zeros, Xor, Up, Upper, High;
    var x := Xor(c, b);
    XorAssoc(c, b, Up(w));
    ZerosAdd(Xor(x, Up(w)), 8, n);
    ZerosLinear(x, Up(w), 8);
    UpIsUpper(w);
    ZerosUpper(Up(w));
  }

  /** Four bytes at once are four bytes in turn. */
  lemma WordStep(start: bv32, buf: seq<byte>, i: nat)
    requires i + 4 <= |buf|
    ensures Register(start, buf[..i + 4]) == Zeros(Xor(Register(start, buf[..i]), Word(buf, i)), 32)
  {
    hide Zeros, Xor, Up, Register, ByteBits, Fits;
    var c := Register(start, buf[..i]);
    var b0, b1, b2, b3 := ByteBits(buf[i]), ByteBits(buf[i + 1]), ByteBits(buf[i + 2]), ByteBits(buf[i + 3]);
    ByteSmall(buf[i]);
    ByteSmall(buf[i + 1]);
    ByteSmall(buf[i + 2]);
    ByteSmall(buf[i + 3]);
    hide LowByte;
    FitsByte(b3);
    FitsTwo(b2, b3);
    FitsThree(b1, b2, b3);
    RegisterSnoc(start, buf, i);
    RegisterSnoc(start, buf, i + 1);
    RegisterSnoc(start, buf, i + 2);
    RegisterSnoc(start, buf, i + 3);
    Waits(c, b0, Xor(b1, Up(Xor(b2, Up(b3)))), 24);
    Waits(Register(start, buf[..i + 1]), b1, Xor(b2, Up(b3)), 16);
    Waits(Register(start, buf[..i + 2]), b2, b3, 8);
  }

  /** DOLIT4 */
  function Lit4(tables: seq<seq<bv32>>, c: bv32): bv32
    requires |tables| == 4 && forall k :: 0 <= k < 4 ==> |tables[k]| == 256
  {
    Xor(Xor(Xor(tables[3][Index(c)], tables[2][Index(High(c))]), tables[1][Index(High(High(c)))]), tables[0][Index(High(High(High(c))))])
  }

  lemma TopByte(c: bv32)
    ensures LowByte(High(High(High(c)))) == High(High(High(c)))
  {
  }

  lemma Lit4Step(tables: seq<seq<bv32>>, c: bv32)
    requires |tables| == 4 && forall k :: 0 <= k < 4 ==> Table(tables[k], k)
    ensures forall k :: 0 <= k < 4 ==> |tables[k]| == 256
    ensures Lit4(tables, c) == Zeros(c, 32)
  {
    hide Zeros, Xor, LowByte, High, Index, Table;
    var c1 := High(c);
    var c2 := High(c1);
    var c3 := High(c2);
    LookUp(tables[3], 3, c);
    LookUp(tables[2], 2, c1);
    LookUp(tables[1], 1, c2);
    LookUp(tables[0], 0, c3);
    TableSize(tables[0], 0);
    TableSize(tables[1], 1);
    TableSize(tables[2], 2);
    TableSize(tables[3], 3);
    Peel(c, 24);
    Peel(c1, 16);
    Peel(c2, 8);
    TopByte(c);
    var x0, x1, x2, x3 := Zeros(LowByte(c), 32), Zeros(LowByte(c1), 24), Zeros(LowByte(c2), 16), Zeros(LowByte(c3), 8);
    XorAssoc(Xor(x0, x1), x2, x3);
    XorAssoc(x0, x1, Xor(x2, x3));
  }

  /** crc32_little: bytes up to a word boundary, words, and the bytes left over.
      addr is the address of the buffer. */
  method Crc32Little(crc: bv32, buf: seq<byte>, addr: nat, tables: seq<seq<bv32>>) returns (r: bv32)
    requires |tables| == 4 && forall k :: 0 <= k < 4 ==> Table(tables[k], k)
    ensures r == Crc(crc, buf)
  {
    hide Zeros, Xor, LowByte, High, Index, Register, ByteBits, Table, Word;
    ghost var start := Xor(crc, ONES);
    var c := Xor(crc, ONES);
    var i := 0;
    NothingRead(start, buf);
    while i < |buf| && (addr + i) % 4 != 0
      invariant i <= |buf| && c == Register(start, buf[..i])
    {
      c := UpdateBytes(c, buf, i, i + 1, tables[0], start);
      i := i + 1;
    }
    TableSize(tables[0], 0);
    TableSize(tables[1], 1);
    TableSize(tables[2], 2);
    TableSize(tables[3], 3);
    while |buf| - i >= 4
      invariant i <= |buf| && c == Register(start, buf[..i])
    {
      WordStep(start, buf, i);
      Lit4Step(tables, Xor(c, Word(buf, i)));
      c := Lit4(tables, Xor(c, Word(buf, i)));
      i := i + 4;
    }
    c := UpdateBytes(c, buf, i, |buf|, tables[0], start);
    assert buf[..|buf|] == buf;
    r := Xor(c, ONES);
  }

  lemma NothingRead(c: bv32, buf: seq<byte>)
    ensures Register(c, buf[..0]) == c
  {
  }

  // ---------- Combination ----------

  const GF2_DIM := 32

  /** v moved up n bits. */
  function Raised(v: bv32, n: nat): bv32 { if n == 0 then v else Double(Raised(v, n - 1)) }

  /** The matrix of the operator that lets k zero bits in. */
  ghost predicate Operator(mat: seq<bv32>, k: nat) {
    |mat| == GF2_DIM && forall n: nat :: n < GF2_DIM ==> mat[n] == Zeros(Unit(n), k)
  }

  lemma XorDouble(a: bv32, b: bv32)
    ensures Double(Xor(a, b)) == Xor(Double(a), Double(b))
  {
  }

  lemma {:induction false} RaisedLinear(a: bv32, b: bv32, n: nat)
    ensures Raised(Xor(a, b), n) == Xor(Raised(a, n), Raised(b, n))
  {
    hide Xor, Double;
    if n > 0 {
      RaisedLinear(a, b, n - 1);
      XorDouble(Raised(a, n - 1), Raised(b, n - 1));
    }
  }

  lemma {:induction false} RaisedDouble(v: bv32, n: nat)
    ensures Raised(Double(v), n) == Raised(v, n + 1)
  {
    hide Double;
    if n > 0 { RaisedDouble(v, n - 1); }
  }

  lemma {:induction false} RaisedUnit(n: nat)
    ensures Raised(1, n) == Unit(n) && Raised(0, n) == 0
  {
    if n > 0 {
      RaisedUnit(n - 1);
      assert Double(0) == 0;
      hide Double;
    }
  }

  lemma LowBit(v: bv32)
    ensures v == Xor(if Odd(v) then 1 else 0, Double(Half(v)))
  {
  }

  /** Splitting off the lowest bit. */
  lemma RaisedStep(v: bv32, n: nat)
    ensures Raised(v, n) == Xor(if Odd(v) then Unit(n) else 0, Raised(Half(v), n + 1))
  {
    hide Xor, Double, Odd, Half;
    LowBit(v);
    RaisedLinear(if Odd(v) then 1 else 0, Double(Half(v)), n);
    RaisedDouble(Half(v), n);
    RaisedUnit(n);
  }

  /** The largest value left after n halvings. */
  function Limit(n: nat): bv32 { if n == 0 then ONES else Half(Limit(n - 1)) }

  lemma HalfMono(x: bv32, y: bv32)
    requires x <= y
    ensures Half(x) <= Half(y)
  {
  }

  lemma LimitValues()
    ensures Limit(8) == 0xff_ffff && Limit(16) == 0xffff && Limit(24) == 0xff && Limit(31) == 1 && Limit(32) == 0
  {
    LimitDown(0);
    LimitDown(8);
    LimitDown(16);
    LimitDown(24);
  }

  lemma LimitDown(n: nat)
    ensures Limit(n + 8) == High(Limit(n)) && Half(Limit(n + 7)) == Limit(n + 8)
    ensures Limit(n) == 0xff ==> Limit(n + 7) == 1
  {
    var l := Limit(n);
    assert Limit(n + 1) == Half(l);
    assert Limit(n + 2) == Half(Half(l));
    assert Limit(n + 3) == Half(Half(Half(l)));
    assert Limit(n + 4) == Half(Half(Half(Half(l))));
    assert Limit(n + 5) == Half(Half(Half(Half(Half(l)))));
    assert Limit(n + 6) == Half(Half(Half(Half(Half(Half(l))))));
    assert Limit(n + 7) == Half(Half(Half(Half(Half(Half(Half(l)))))));
    EightHalves(l);
  }

  lemma {:induction false} UnitBound(n: nat)
    requires n <= 31
    ensures Unit(n) <= Limit(31 - n)
  {
    hide Half, Double;
    if n == 0 {
      LimitValues();
    } else {
      UnitBound(n - 1);
      DoubleBound(Unit(n - 1), Limit(31 - n));
    }
  }

  lemma DoubleBound(x: bv32, y: bv32)
    requires x <= Half(y)
    ensures Double(x) <= y && Half(Double(x)) == x && !Odd(Double(x))
  {
  }

  lemma LimitHalf(n: nat)
    ensures Limit(n + 1) == Half(Limit(n))
  {
  }

  lemma OneShift(x: bv32)
    ensures Zeros(x, 1) == Shift(x)
  {
    NoZeros(x);
    ZerosNext(x, 0);
  }

  lemma FirstShift()
    ensures Shift(1) == POLY
  {
  }

  /** One zero bit moves unit vector n down, and the last into the polynomial. */
  lemma UnitShift(n: nat)
    requires 1 <= n <= 31
    ensures Zeros(Unit(n), 1) == Unit(n - 1)
  {
    hide Xor, Odd, Half, Double, Zeros;
    UnitBound(n - 1);
    LimitHalf(31 - n);
    DoubleBound(Unit(n - 1), Limit(31 - n));
    OneShift(Unit(n));
  }

  /** gf2_matrix_times applies the operator. */
  method MatrixTimes(mat: array<bv32>, vec0: bv32, ghost k: nat) returns (sum: bv32)
    requires Operator(mat[..], k)
    ensures sum == Zeros(vec0, k)
  {
    hide Xor, Odd, Half, Zeros, Unit, Raised, Limit;
    var vec, n := vec0, 0;
    sum := 0;
    LimitValues();
    StartTimes(vec0, k);
    while vec != 0
      invariant 0 <= n <= GF2_DIM && vec <= Limit(n) && Xor(sum, Zeros(Raised(vec, n), k)) == Zeros(vec0, k)
      decreases GF2_DIM - n
    {
      TimesStep(sum, vec, n, k);
      HalfMono(vec, Limit(n));
      LimitHalf(n);
      if Odd(vec) { sum := Xor(sum, mat[..][n]); }
      vec := Half(vec);
      n := n + 1;
    }
    EndTimes(sum, n, k);
  }

  lemma StartTimes(vec: bv32, k: nat)
    ensures vec <= Limit(0) && Xor(0, Zeros(Raised(vec, 0), k)) == Zeros(vec, k)
  {
    XorCancel(0, Zeros(vec, k));
  }

  lemma TimesStep(sum: bv32, vec: bv32, n: nat, k: nat)
    ensures Xor(sum, Zeros(Raised(vec, n), k)) ==
            Xor(if Odd(vec) then Xor(sum, Zeros(Unit(n), k)) else sum, Zeros(Raised(Half(vec), n + 1), k))
  {
    hide Xor, Odd, Half, Zeros, Unit, Raised;
    var low, high := if Odd(vec) then Unit(n) else 0, Raised(Half(vec), n + 1);
    RaisedStep(vec, n);
    ZerosLinear(low, high, k);
    XorAssoc(sum, Zeros(low, k), Zeros(high, k));
    ZerosZero(k);
    XorCancel(0, sum);
  }

  lemma EndTimes(sum: bv32, n: nat, k: nat)
    ensures Xor(sum, Zeros(Raised(0, n), k)) == sum
  {
    RaisedUnit(n);
    ZerosZero(k);
    XorCancel(0, sum);
  }

  /** gf2_matrix_square doubles the number of zero bits. */
  method MatrixSquare(square: array<bv32>, mat: array<bv32>, ghost k: nat)
    requires square != mat && square.Length == GF2_DIM && Operator(mat[..], k)
    modifies square
    ensures Operator(square[..], 2 * k)
  {
    hide Zeros, Unit;
    for n: nat := 0 to GF2_DIM
      invariant Operator(mat[..], k)
      invariant forall m: nat :: m < n ==> square[m] == Zeros(Unit(m), 2 * k)
    {
      ZerosAdd(Unit(n), k, k);
      assert mat[..][n] == mat[n];
      var v := MatrixTimes(mat, mat[n], k);
      square[n] := v;
    }
  }

  /** The operators for one, two and four zero bits. */
  method FirstOperators(even: array<bv32>, odd: array<bv32>)
    requires even != odd && even.Length == odd.Length == GF2_DIM
    modifies even, odd
    ensures Operator(odd[..], 4)
  {
    hide Zeros, Double, Shift;
    OneShift(1);
    FirstShift();
    odd[0] := POLY;
    var row: bv32 := 1;
    for n: nat := 1 to GF2_DIM
      invariant row == Unit(n - 1)
      invariant forall m: nat :: m < n ==> odd[m] == Zeros(Unit(m), 1)
    {
      UnitShift(n);
      odd[n] := row;
      row := Double(row);
    }
    MatrixSquare(even, odd, 1);
    MatrixSquare(odd, even, 2);
  }

  /** One bit of the length: the operator is squared into to, and applied if the
      bit is set. */
  method CombineBit(from: array<bv32>, to: array<bv32>, crc1: bv32, len2: nat, ghost k: nat) returns (c: bv32, half: nat)
    requires from != to && to.Length == GF2_DIM && Operator(from[..], k)
    modifies to
    ensures Operator(to[..], 2 * k) && half == len2 / 2
    ensures Zeros(c, 4 * k * half) == Zeros(crc1, 2 * k * len2)
  {
    hide Zeros, Operator;
    MatrixSquare(to, from, k);
    c, half := crc1, len2 / 2;
    if len2 % 2 == 1 {
      c := MatrixTimes(to, crc1, 2 * k);
      ZerosAdd(crc1, 2 * k, 4 * k * half);
      assert 2 * k + 4 * k * half == 2 * k * len2 by { assert len2 == 2 * half + 1; }
    } else {
      assert 4 * k * half == 2 * k * len2 by { assert len2 == 2 * half; }
    }
  }

  /** crc32_combine_ lets 8 * len2 zero bits into crc1 and adds crc2: from the
      CRCs of two buffers it makes the CRC of their concatenation. */
  method Crc32Combine(crc1: bv32, crc2: bv32, len2: int) returns (r: bv32)
    ensures r == if len2 <= 0 then crc1 else Xor(Zeros(crc1, 8 * len2), crc2)
    ensures forall crc, x, y :: crc1 == Crc(crc, x) && crc2 == Crc(0, y) && len2 == |y| ==> r == Crc(crc, x + y)
  {
    hide Zeros, Operator, Xor, Register, Crc;
    forall crc, x, y | crc1 == Crc(crc, x) && crc2 == Crc(0, y) && len2 == |y|
      ensures (if len2 <= 0 then crc1 else Xor(Zeros(crc1, 8 * len2), crc2)) == Crc(crc, x + y)
    {
      CombineConcatenates(crc, x, y);
    }
    if len2 <= 0 { return crc1; }
    var even := new bv32[GF2_DIM];
    var odd := new bv32[GF2_DIM];
    FirstOperators(even, odd);
    var c, len: nat := crc1, len2;
    ghost var k: nat := 4;
    while true
      invariant Operator(odd[..], k) && Zeros(c, 2 * k * len) == Zeros(crc1, 8 * len2)
      decreases len
    {
      c, len := CombineBit(odd, even, c, len, k);
      if len == 0 { break; }
      c, len := CombineBit(even, odd, c, len, 2 * k);
      k := 4 * k;
      if len == 0 { break; }
    }
    NoZeros(c);
    r := Xor(c, crc2);
  }

  /** Combining the CRCs of two buffers gives the CRC of their concatenation. */
  lemma CombineConcatenates(crc: bv32, x: seq<byte>, y: seq<byte>)
    ensures Xor(Zeros(Crc(crc, x), 8 * |y|), Crc(0, y)) == Crc(crc, x + y)
    ensures |y| == 0 ==> Crc(crc, x) == Crc(crc, x + y)
  {
    hide Xor, Zeros, Register;
    var c1 := Crc(crc, x);
    CrcConcat(crc, x, y);
    RegisterLinear(c1, ONES, y);
    XorCancel(0, ONES);
    XorAssoc(Zeros(c1, 8 * |y|), Register(ONES, y), ONES);
    if y == [] { assert x + y == x; }
  }
}
