/**
 Known answers of the stream format, byte for byte: the empty stream, and a
 stream of two blocks that hold one byte each.
 */
module StreamSamples {
  import opened Sequences
  import opened Bits
  import opened BitSeq
  import opened BitStream
  import opened Words
  import opened Permutation
  import opened Rotation
  import opened InverseBwt
  import opened Mtf
  import opened BlockFormat
  import opened BlockCode
  import opened Stream
  import Counting
  import Huffman
  import Rle
  import BlockCrc

  // ---------- The empty stream ----------

  /** Header and trailer of an empty stream decode to nothing. */
  lemma EmptyStream()
    ensures DecodeStream(BytesToBits([0x42, 0x5a, 0x68, 0x39, 0x17, 0x72, 0x45, 0x38, 0x50, 0x90, 0, 0, 0, 0])) == Got([], [])
  {
    hide DecodeStream, BytesToBits, ToBits;
    var bits := StreamBits([], 9, []);
    StreamRoundTrip([], 9, [], []);
    assert bits + [] == bits;
    NoBlocks();
    BytesConcat(STREAM_MAGIC + [0x39], [0x17] + END_MAGIC);
    BytesConcat(STREAM_MAGIC + [0x39] + ([0x17] + END_MAGIC), [0, 0, 0, 0]);
    assert STREAM_MAGIC + [0x39] + ([0x17] + END_MAGIC) + [0, 0, 0, 0] == [0x42, 0x5a, 0x68, 0x39, 0x17, 0x72, 0x45, 0x38, 0x50, 0x90, 0, 0, 0, 0];
    Regroup(HeaderBits(9), BytesToBits([0x17] + END_MAGIC), BytesToBits([0, 0, 0, 0]));
  }

  /** Without blocks the trailer follows the header, with a combined CRC of zero. */
  lemma NoBlocks()
    ensures StreamBits([], 9, []) == HeaderBits(9) + (BytesToBits([0x17] + END_MAGIC) + BytesToBits([0, 0, 0, 0]))
    ensures Flatten([]) == []
  {
    hide BytesToBits, ToBits;
    ZeroWord();
    FourZeros();
    assert [] + TrailerBits([]) == TrailerBits([]);
  }

  lemma ZeroWord()
    ensures BlockCrc.WordBits(0) == seq(32, _ => 0) && ToBits(BlockCrc.Word(0), 32) == seq(32, _ => 0)
  {
    hide Bit, ToBits;
    BlockCrc.WordIsBits(0);
    forall i | 0 <= i < 32 ensures BlockCrc.WordBits(0)[i] == 0 { NoBit(31 - i); }
  }

  lemma FourZeros()
    ensures BytesToBits([0, 0, 0, 0]) == seq(32, _ => 0)
  {
    ByteThenBytes(0, [0, 0, 0]);
    ByteThenBytes(0, [0, 0]);
    ByteThenBytes(0, [0]);
    ByteThenBytes(0, []);
    assert ToBits(0, 8) == [0, 0, 0, 0, 0, 0, 0, 0];
    hide BytesToBits, ToBits;
    EmptyBytes();
    assert [0] + [0, 0, 0] == [0, 0, 0, 0] && [0] + [0, 0] == [0, 0, 0] && [0] + [0] == [0, 0] && [0] + [] == [0];
  }

  // ---------- A block of one byte ----------

  ghost function OnlyByte(c: byte): seq<bool> { seq(256, i => i == c) }

  const TABLE: seq<nat> := [2, 2, 1]

  /** One byte is one run of length one, and then the end. */
  ghost function BodyOf(c: byte): Body { Body(OnlyByte(c), [TABLE, TABLE], [0], [0, 2]) }

  ghost function PacketOf(c: byte): Packet { Packet([c], [0], 0, BodyOf(c)) }

  lemma OneUsed(c: byte)
    ensures Used(OnlyByte(c)) == [c]
  {
    var used := Used(OnlyByte(c));
    hide UsedBytes;
    assert c in used;
    assert Elements(used) == {c};
    DistinctSize(used);
  }

  /** The three codes are 10, 11 and 0. */
  lemma TableCodes()
    ensures Huffman.End(TABLE, 1) == 1 && Huffman.End(TABLE, 2) == 4
    ensures Huffman.CodeBits(TABLE, 0) == [1, 0] && Huffman.CodeBits(TABLE, 2) == [0]
  {
    assert multiset(TABLE) == multiset{2, 2, 1};
    assert TABLE[..0] == [] && TABLE[..2] == [2, 2];
    assert multiset(TABLE[..2]) == multiset{2, 2};
    assert Huffman.End(TABLE, 0) == 0;
    assert Huffman.First(TABLE, 2) == 2;
    assert Huffman.Code(TABLE, 0) == 2 && Huffman.Code(TABLE, 2) == 0;
    assert ToBits(2, 2) == [1, 0] && ToBits(0, 1) == [0];
  }

  lemma {:induction false} TableEnd(n: nat)
    requires n >= 2
    ensures Huffman.End(TABLE, n) == Pow2(n)
  {
    if n == 2 {
      TableCodes();
    } else {
      TableEnd(n - 1);
      assert multiset(TABLE) == multiset{2, 2, 1};
    }
  }

  lemma BodySent(c: byte)
    ensures Transmissible(BodyOf(c))
  {
    OneUsed(c);
    TableComplete();
    hide Huffman.Complete, Used;
  }

  lemma TableComplete()
    ensures Huffman.Complete(TABLE, 17)
  {
    hide Huffman.End, Pow2;
    TableEnd(17);
  }

  /** The transform of one byte is the byte. */
  lemma OneCarried(c: byte)
    ensures Carries(PacketOf(c), 9, [c])
  {
    BodySent(c);
    OneUsed(c);
    hide Transmissible, Used, BodyBits;
    OneSorted(c);
    OneValue(c);
    assert Rle.After([c], Rle.START) == Rle.State(c, 1) by { assert [c][1..] == []; }
    assert Rle.Expand([c], Rle.START) == [c] by { assert [c][1..] == []; }
  }

  lemma OneSorted(c: byte)
    ensures SortedRotations([c], [0]) && LastColumn([c], [0]) == [c]
  {
  }

  lemma OneValue(c: byte)
    ensures ValuesOf([c], [c]) == [0, 2]
  {
    assert SymbolsOf([c], [c]) == [0];
    assert [0][1..] == [];
    assert Encode(Identity(1), 1, []) == [0];
    assert Encode(Identity(1), 0, [0]) == [0];
  }

  // ---------- Its bits ----------

  /** Two numbers written one after the other are one number. */
  lemma Join(v: nat, n: nat, w: nat, m: nat, p: nat, x: nat)
    requires v < Pow2(n) && w < Pow2(m) && p == Pow2(m) && x == v * p + w
    ensures ToBits(v, n) + ToBits(w, m) == ToBits(x, n + m) && x < Pow2(n + m)
  {
    hide Pow2, ToBits;
    ToBitsConcat(v, n, w, m);
  }

  /** Powers of two that join the fields. */
  lemma MorePowers()
    ensures Pow2(1) == 2 && Pow2(3) == 8 && Pow2(5) == 32 && Pow2(10) == 0x400 && Pow2(15) == 0x8000
    ensures Pow2(16) == 0x1_0000 && Pow2(19) == 0x8_0000 && Pow2(20) == 0x10_0000 && Pow2(23) == 0x80_0000
  {
    Pow2Values();
    assert Pow2(5) == 32 && Pow2(4) == 16;
    Pow2Add(5, 5);
    Pow2Add(10, 5);
    Pow2Add(16, 3);
    Pow2Add(16, 4);
    Pow2Add(20, 3);
  }

  lemma SelectorTail()
    ensures SelectorBits(2, [0]) == ToBits(0x2_0002, 19)
  {
    MorePowers();
    SelectorsKnown(2, [0]);
    assert SelectorMtf(Identity(2), [0]) == [0] by { assert [0][1..] == []; }
    assert UnaryBits([0]) == ToBits(0, 1) by { assert [0][1..] == []; assert ToBits(0, 1) == [0]; }
    hide ToBits, UnaryBits, SelectorMtf, Pow2;
    Join(1, 15, 0, 1, 2, 2);
    Join(2, 3, 2, 16, 0x1_0000, 0x2_0002);
  }

  /** Two, then no step, no step, one step down. */
  lemma TableTail()
    ensures TablesBits([TABLE, TABLE]) == ToBits(0x1_1846, 20)
  {
    MorePowers();
    OneTable();
    assert [TABLE, TABLE][1..] == [TABLE] && [TABLE][1..] == [];
    hide ToBits, TableBits, Pow2;
    Join(0x46, 10, 0x46, 10, 0x400, 0x1_1846);
    assert TablesBits([]) == [];
    assert TablesBits([TABLE]) == TableBits(TABLE) + [];
    assert TableBits(TABLE) + [] == TableBits(TABLE);
  }

  lemma OneTable()
    ensures TableBits(TABLE) == ToBits(0x46, 10)
  {
    MorePowers();
    assert TABLE[1..] == [2, 1] && [2, 1][1..] == [1] && [1][1..] == [];
    assert Steps(2, 2) == [] && Steps(1, 1) == [];
    assert Steps(2, 1) == [1, 1];
    assert DeltaBits(1, []) == [];
    assert DeltaBits(2, [1]) == [1, 1, 0];
    assert DeltaBits(2, [2, 1]) == [0, 1, 1, 0];
    assert DeltaBits(2, TABLE) == [0, 0, 1, 1, 0];
    assert ToBits(6, 5) == [0, 0, 1, 1, 0];
    hide ToBits, DeltaBits, Pow2;
    Join(2, 5, 6, 5, 32, 0x46);
  }

  lemma ValueTail(c: byte)
    requires Transmissible(BodyOf(c))
    ensures forall i :: 0 <= i < 2 ==> Codable([TABLE, TABLE], [0], [0, 2], i)
    ensures ValueBits([TABLE, TABLE], [0], [0, 2], 0) == ToBits(4, 3)
  {
    hide Transmissible, Huffman.CodeBits, Huffman.End;
    TableCodes();
    assert ToBits(4, 3) == [1, 0, 0];
    hide ToBits;
    assert TableFor([TABLE, TABLE], [0], 0) == TABLE == TableFor([TABLE, TABLE], [0], 1);
    assert ValueBits([TABLE, TABLE], [0], [0, 2], 2) == [];
    assert ValueBits([TABLE, TABLE], [0], [0, 2], 1) == [0];
  }

  /** Selectors, tables and values. */
  lemma TailBits(c: byte)
    requires Transmissible(BodyOf(c))
    ensures BodyBits(BodyOf(c)) == MappingBits(OnlyByte(c)) + ToBits(0x100_0108_c234, 42)
  {
    SelectorTail();
    TableTail();
    ValueTail(c);
    MorePowers();
    hide MappingBits, SelectorBits, TablesBits, ValueBits, ToBits, Pow2;
    Join(0x1_1846, 20, 4, 3, 8, 0x8_c234);
    Join(0x2_0002, 19, 0x8_c234, 23, 0x80_0000, 0x100_0108_c234);
  }

  // ---------- The map of the byte in use ----------

  ghost function OnlyFlag(k: nat): seq<bool> { seq(16, i => i == k) }

  lemma {:induction false} FlagBitAt(flags: seq<bool>, i: nat)
    requires i < |flags|
    ensures FlagBits(flags)[i] == if flags[i] then 1 else 0
  {
    if i > 0 { FlagBitAt(flags[1..], i - 1); }
  }

  /** One row, and one flag in it. */
  lemma OneMapped(c: byte, hi: nat, lo: nat)
    requires hi < 16 && lo < 16 && c == 16 * hi + lo
    ensures MappingBits(OnlyByte(c)) == FlagBits(OnlyFlag(hi)) + FlagBits(OnlyFlag(lo))
  {
    hide FlagBits;
    forall i | 0 <= i < 16 ensures RowUsed(OnlyByte(c), i) == (i == hi) {
      if i == hi { assert OnlyByte(c)[c]; }
    }
    assert RowsUsed(OnlyByte(c)) == OnlyFlag(hi);
    RowsTo(c, hi, lo, 0);
  }

  lemma {:induction false} RowsTo(c: byte, hi: nat, lo: nat, i: nat)
    requires hi < 16 && lo < 16 && c == 16 * hi + lo && i <= 16
    requires forall i :: 0 <= i < 16 ==> RowUsed(OnlyByte(c), i) == (i == hi)
    ensures RowBits(OnlyByte(c), i) == if i <= hi then FlagBits(OnlyFlag(lo)) else []
    decreases 16 - i
  {
    hide FlagBits, RowUsed;
    if i < 16 {
      RowsTo(c, hi, lo, i + 1);
      if i == hi { assert OnlyByte(c)[16 * i..16 * i + 16] == OnlyFlag(lo); }
    }
  }

  lemma FlagNumbers()
    ensures FlagBits(OnlyFlag(6)) == ToBits(0x200, 16)
    ensures FlagBits(OnlyFlag(1)) == ToBits(0x4000, 16) && FlagBits(OnlyFlag(2)) == ToBits(0x2000, 16)
  {
    OneFlag(6);
    OneFlag(1);
    OneFlag(2);
    Pow2Values();
    assert Pow2(9) == 0x200 && Pow2(14) == 0x4000 && Pow2(13) == 0x2000;
  }

  lemma OneFlag(k: nat)
    requires k < 16
    ensures FlagBits(OnlyFlag(k)) == ToBits(Pow2(15 - k), 16)
  {
    hide FlagBits;
    forall i | 0 <= i < 16 ensures FlagBits(OnlyFlag(k))[i] == ToBits(Pow2(15 - k), 16)[i] {
      FlagBitAt(OnlyFlag(k), i);
      PowerBit(15 - k, 16, i);
    }
  }

  lemma {:induction false} PowerBit(k: nat, n: nat, i: nat)
    requires k < n && i < n
    ensures ToBits(Pow2(k), n)[i] == if i == n - 1 - k then 1 else 0
  {
    if k == 0 {
      ZeroBits(n - 1);
    } else if i < n - 1 {
      PowerBit(k - 1, n - 1, i);
    }
  }

  lemma {:induction false} ZeroBits(n: nat)
    ensures ToBits(0, n) == seq(n, _ => 0)
  {
    if n > 0 { ZeroBits(n - 1); }
  }

  // ---------- CRCs ----------

  lemma SampleEntries()
    ensures BlockCrc.TableEntry(0x9e00_0000, 8) == 0x1993_9b94
    ensures BlockCrc.TableEntry(0x9d00_0000, 8) == 0x14d0_bd4d
  {
  }

  lemma CrcOfOne(c: byte)
    ensures BlockCrc.Crc([c]) == BlockCrc.Finalise(BlockCrc.Update(BlockCrc.INITIAL, c))
  {
    hide BlockCrc.Update;
    BlockCrc.UpdateOne(BlockCrc.INITIAL, [], c);
    assert [] + [c] == [c];
  }

  lemma SampleCrcs()
    ensures BlockCrc.Crc([0x61]) == 0x1993_9b6b && BlockCrc.Crc([0x62]) == 0x14d0_bdb2
  {
    hide BlockCrc.TableEntry, BlockCrc.Crc;
    CrcOfOne(0x61);
    CrcOfOne(0x62);
    SampleEntries();
    assert BlockCrc.Update(BlockCrc.INITIAL, 0x61) == 0xe66c_6494;
    assert BlockCrc.Update(BlockCrc.INITIAL, 0x62) == 0xeb2f_424d;
  }

  lemma SampleCombined()
    ensures BlockCrc.Combined([[0x61], [0x62]]) == 0x27f7_8b64
  {
    SampleCrcs();
    hide BlockCrc.Crc;
    assert [[0x61], [0x62]][..1] == [[0x61]] && [[0x61]][..0] == [];
    assert BlockCrc.Combined([[0x61]]) == 0x1993_9b6b;
  }

  /** Four hexadecimal digits as a number, and as bits. */
  ghost function Four(a: nat, b: nat, c: nat, d: nat): nat { 0x1000 * a + 0x100 * b + 0x10 * c + d }

  ghost function FourBits(a: nat, b: nat, c: nat, d: nat): (r: seq<bit>)
    ensures |r| == 16
  {
    ToBits(a, 4) + ToBits(b, 4) + ToBits(c, 4) + ToBits(d, 4)
  }

  lemma FourSpelled(a: nat, b: nat, c: nat, d: nat)
    requires a < 16 && b < 16 && c < 16 && d < 16
    ensures Four(a, b, c, d) < Pow2(16) && ToBits(Four(a, b, c, d), 16) == FourBits(a, b, c, d)
  {
    Pow2Values();
    hide Pow2, ToBits;
    Join(a, 4, b, 4, 16, 16 * a + b);
    Join(16 * a + b, 8, c, 4, 16, 0x100 * a + 0x10 * b + c);
    Join(0x100 * a + 0x10 * b + c, 12, d, 4, 16, Four(a, b, c, d));
  }

  lemma DigitBits(d: nat)
    requires d < 16
    ensures ToBits(d, 4) == [d / 8 % 2, d / 4 % 2, d / 2 % 2, d % 2]
  {
  }

  /** Bits j + 3 to j of the word are those of a hexadecimal digit. */
  ghost predicate Shows(c: bv32, j: nat, d: nat)
    requires j + 3 < 32
  {
    && Bit(c, j + 3) == (d / 8 % 2 == 1) && Bit(c, j + 2) == (d / 4 % 2 == 1)
    && Bit(c, j + 1) == (d / 2 % 2 == 1) && Bit(c, j) == (d % 2 == 1)
  }

  /** The word shows four digits from bit j + 15 down. */
  ghost predicate ShowsFour(c: bv32, j: nat, p: nat, q: nat, r: nat, s: nat)
    requires j + 15 < 32
  {
    p < 16 && q < 16 && r < 16 && s < 16 && Shows(c, j + 12, p) && Shows(c, j + 8, q) && Shows(c, j + 4, r) && Shows(c, j, s)
  }

  lemma FourShown(c: bv32, j: nat, p: nat, q: nat, r: nat, s: nat)
    requires j + 15 < 32 && ShowsFour(c, j, p, q, r, s)
    ensures p < 16 && q < 16 && r < 16 && s < 16
    ensures forall i :: 0 <= i < 16 ==> (FourBits(p, q, r, s)[i] == 1 <==> Bit(c, j + 15 - i))
  {
    hide ToBits, Bit;
    DigitBits(p);
    DigitBits(q);
    DigitBits(r);
    DigitBits(s);
  }

  /** A word that shows two times four digits is their number. */
  lemma WordIs(x: bv32, a: nat, b: nat, c: nat, d: nat, e: nat, f: nat, g: nat, h: nat)
    requires ShowsFour(x, 16, a, b, c, d) && ShowsFour(x, 0, e, f, g, h)
    ensures ToBits(BlockCrc.Word(x), 32) == ToBits(0x1_0000 * Four(a, b, c, d) + Four(e, f, g, h), 32)
  {
    hide ToBits, Bit, Pow2, ShowsFour, FourBits, Four, BlockCrc.WordBits;
    FourShown(x, 16, a, b, c, d);
    FourShown(x, 0, e, f, g, h);
    BlockCrc.WordIsBits(x);
    MorePowers();
    FourSpelled(a, b, c, d);
    FourSpelled(e, f, g, h);
    Join(Four(a, b, c, d), 16, Four(e, f, g, h), 16, 0x1_0000, 0x1_0000 * Four(a, b, c, d) + Four(e, f, g, h));
    TwoHalves(x, FourBits(a, b, c, d), FourBits(e, f, g, h));
  }

  lemma TwoHalves(x: bv32, u: seq<bit>, v: seq<bit>)
    requires |u| == |v| == 16
    requires forall i :: 0 <= i < 16 ==> (u[i] == 1 <==> Bit(x, 31 - i))
    requires forall i :: 0 <= i < 16 ==> (v[i] == 1 <==> Bit(x, 15 - i))
    ensures BlockCrc.WordBits(x) == u + v
  {
    hide Bit;
    forall i | 0 <= i < 32 ensures BlockCrc.WordBits(x)[i] == (u + v)[i] {
      assert i < 16 || v[i - 16] == (u + v)[i];
    }
  }

  lemma FirstWord()
    ensures ToBits(BlockCrc.Word(0x1993_9b6b), 32) == ToBits(0x1993_9b6b, 32)
  {
    UnitValues();
    hide Unit;
    WordIs(0x1993_9b6b, 1, 9, 9, 3, 9, 0xb, 6, 0xb);
  }

  lemma SecondWord()
    ensures ToBits(BlockCrc.Word(0x14d0_bdb2), 32) == ToBits(0x14d0_bdb2, 32)
  {
    UnitValues();
    hide Unit;
    WordIs(0x14d0_bdb2, 1, 4, 0xd, 0, 0xb, 0xd, 0xb, 2);
  }

  lemma CombinedWord()
    ensures ToBits(BlockCrc.Word(0x27f7_8b64), 32) == ToBits(0x27f7_8b64, 32)
  {
    UnitValues();
    hide Unit;
    WordIs(0x27f7_8b64, 2, 7, 0xf, 7, 8, 0xb, 6, 4);
  }

  // ---------- Bytes as one number ----------

  ghost predicate Spells(s: seq<byte>, v: nat) { v < Pow2(8 * |s|) && BytesToBits(s) == ToBits(v, 8 * |s|) }

  lemma SpellOne(b: byte)
    ensures Spells([b], b)
  {
    Pow2Values();
    ByteThenBytes(b, []);
    EmptyBytes();
    hide BytesToBits, ToBits;
    assert [b] + [] == [b];
  }

  lemma SpellMore(s: seq<byte>, v: nat, t: seq<byte>, w: nat, p: nat, x: nat)
    requires Spells(s, v) && Spells(t, w) && p == Pow2(8 * |t|) && x == v * p + w
    ensures Spells(s + t, x)
  {
    hide BytesToBits, ToBits, Pow2;
    BytesConcat(s, t);
    Join(v, 8 * |s|, w, 8 * |t|, p, x);
  }

  lemma SpellFour(a: byte, b: byte, c: byte, d: byte)
    ensures Spells([a, b, c, d], 0x100_0000 * a + 0x1_0000 * b + 0x100 * c + d)
  {
    Pow2Values();
    hide Spells, Pow2;
    SpellOne(a);
    SpellOne(b);
    SpellOne(c);
    SpellOne(d);
    SpellMore([a], a, [b], b, 0x100, 0x100 * a + b);
    SpellMore([c], c, [d], d, 0x100, 0x100 * c + d);
    assert [a] + [b] == [a, b] && [c] + [d] == [c, d] && [a, b] + [c, d] == [a, b, c, d];
    SpellMore([a, b], 0x100 * a + b, [c, d], 0x100 * c + d, 0x1_0000, 0x100_0000 * a + 0x1_0000 * b + 0x100 * c + d);
  }

  lemma SpellTwo(a: byte, b: byte)
    ensures Spells([a, b], 0x100 * a + b)
  {
    Pow2Values();
    hide Spells, Pow2;
    SpellOne(a);
    SpellOne(b);
    SpellMore([a], a, [b], b, 0x100, 0x100 * a + b);
    assert [a] + [b] == [a, b];
  }

  lemma Magics()
    ensures Spells(STREAM_MAGIC + [0x39], 0x425a_6839)
    ensures Spells([0x31] + BLOCK_MAGIC, 0x3141_5926_5359) && Spells([0x17] + END_MAGIC, 0x1772_4538_5090)
  {
    Pow2Values();
    hide Spells, Pow2;
    SpellFour(0x42, 0x5a, 0x68, 0x39);
    SpellFour(0x31, 0x41, 0x59, 0x26);
    SpellTwo(0x53, 0x59);
    SpellFour(0x17, 0x72, 0x45, 0x38);
    SpellTwo(0x50, 0x90);
    SpellMore([0x31, 0x41, 0x59, 0x26], 0x3141_5926, [0x53, 0x59], 0x5359, 0x1_0000, 0x3141_5926_5359);
    SpellMore([0x17, 0x72, 0x45, 0x38], 0x1772_4538, [0x50, 0x90], 0x5090, 0x1_0000, 0x1772_4538_5090);
    assert STREAM_MAGIC + [0x39] == [0x42, 0x5a, 0x68, 0x39];
    assert [0x31] + BLOCK_MAGIC == [0x31, 0x41, 0x59, 0x26] + [0x53, 0x59];
    assert [0x17] + END_MAGIC == [0x17, 0x72, 0x45, 0x38] + [0x50, 0x90];
  }

  // ---------- The two blocks ----------

  lemma LargePowers()
    ensures Pow2(42) == 0x40000000000 && Pow2(74) == 0x4000000000000000000 && Pow2(99) == 0x8000000000000000000000000 && Pow2(131) == 0x800000000000000000000000000000000
    ensures Pow2(179) == 0x800000000000000000000000000000000000000000000 && Pow2(80) == 0x100000000000000000000
  {
    Pow2Values();
    assert Pow2(10) == 0x400;
    Pow2Add(32, 10);
    Pow2Add(32, 42);
    assert Pow2(25) == 0x200_0000;
    Pow2Add(74, 25);
    Pow2Add(99, 32);
    Pow2Add(32, 16);
    Pow2Add(131, 48);
    Pow2Add(48, 32);
  }

  /** The bits of a block of one byte: magic, CRC, row 0, flags, and the rest. */
  lemma BlockNumber(c: byte, crc: nat, flags: nat, x: nat, y: nat, z: nat)
    requires Carries(PacketOf(c), 9, [c]) && crc < 0x1_0000_0000 && flags < 0x1_0000_0000
    requires ToBits(BlockCrc.Word(BlockCrc.Crc([c])), 32) == ToBits(crc, 32) && MappingBits(OnlyByte(c)) == ToBits(flags, 32)
    requires x == flags * 0x40000000000 + 0x1000108c234 && y == crc * 0x8000000000000000000000000 + x && z == 0x3141_5926_5359 * 0x800000000000000000000000000000000 + y
    ensures PacketBits(PacketOf(c), [c]) == ToBits(z, 179) && z < 0x800000000000000000000000000000000000000000000
  {
    BodySent(c);
    TailBits(c);
    Magics();
    LargePowers();
    Pow2Values();
    assert Pow2(1) == 2 && Pow2(25) == 0x200_0000 && Pow2(24) == 0x100_0000;
    hide Carries, BodyBits, ToBits, BytesToBits, Pow2, BlockCrc.Word, BlockCrc.Crc, MappingBits, Transmissible;
    Join(flags, 32, 0x1000108c234, 42, 0x40000000000, x);
    ZeroFront(24, x, 74);
    ZeroFront(1, x, 98);
    Join(crc, 32, x, 99, 0x8000000000000000000000000, y);
    Join(0x3141_5926_5359, 48, y, 131, 0x800000000000000000000000000000000, z);
  }

  lemma ZeroFront(n: nat, x: nat, m: nat)
    requires x < Pow2(m)
    ensures ToBits(0, n) + ToBits(x, m) == ToBits(x, n + m) && x < Pow2(n + m)
  {
    hide Pow2, ToBits;
    Join(0, n, x, m, Pow2(m), x);
  }

  lemma TwoBlocks()
    ensures Carries(PacketOf(0x61), 9, [0x61]) && Carries(PacketOf(0x62), 9, [0x62])
    ensures PacketBits(PacketOf(0x61), [0x61]) == ToBits(0x18a0ac9329ac8cc9cdb5800000008010001000108c234, 179)
    ensures PacketBits(PacketOf(0x62), [0x62]) == ToBits(0x18a0ac9329ac8a685ed9000000008008001000108c234, 179)
  {
    hide Carries, PacketOf, PacketBits, MappingBits, ToBits, Pow2, FlagBits, BlockCrc.Crc, BlockCrc.Word;
    OneCarried(0x61);
    OneCarried(0x62);
    OneMapped(0x61, 6, 1);
    OneMapped(0x62, 6, 2);
    FlagNumbers();
    MorePowers();
    SampleCrcs();
    FirstWord();
    SecondWord();
    Join(0x200, 16, 0x4000, 16, 0x1_0000, 0x200_4000);
    Join(0x200, 16, 0x2000, 16, 0x1_0000, 0x200_2000);
    BlockNumber(0x61, 0x1993_9b6b, 0x200_4000, 0x8010001000108c234, 0xcc9cdb5800000008010001000108c234, 0x18a0ac9329ac8cc9cdb5800000008010001000108c234);
    BlockNumber(0x62, 0x14d0_bdb2, 0x200_2000, 0x8008001000108c234, 0xa685ed9000000008008001000108c234, 0x18a0ac9329ac8a685ed9000000008008001000108c234);
  }

  // ---------- The stream ----------

  /** Trailer and padding. */
  lemma TrailerNumber()
    ensures TrailerBits([[0x61], [0x62]]) == ToBits(0x17724538509027f78b64, 80)
  {
    Magics();
    SampleCombined();
    CombinedWord();
    LargePowers();
    Pow2Values();
    hide ToBits, BytesToBits, Pow2, BlockCrc.Word, BlockCrc.Combined;
    Join(0x1772_4538_5090, 48, 0x27f7_8b64, 32, 0x1_0000_0000, 0x17724538509027f78b64);
  }

  ghost function TwoPackets(): seq<Packet> { [PacketOf(0x61), PacketOf(0x62)] }

  ghost function TwoInputs(): seq<seq<byte>> { [[0x61], [0x62]] }

  /** The pieces of the stream as numbers. */
  lemma StreamPieces()
    ensures AllCarried(TwoPackets(), 9, TwoInputs())
    ensures StreamBits(TwoPackets(), 9, TwoInputs()) ==
            ToBits(0x425a_6839, 32) + (ToBits(0x18a0ac9329ac8cc9cdb5800000008010001000108c234, 179) + (ToBits(0x18a0ac9329ac8a685ed9000000008008001000108c234, 179) + ToBits(0x17724538509027f78b64, 80)))
  {
    TwoBlocks();
    TrailerNumber();
    Magics();
    TwoCarried();
    BlocksPieces();
    hide AllCarried, PacketBits, TrailerBits, BlocksBits, ToBits, BytesToBits, Pow2;
    Regroup(PacketBits(PacketOf(0x61), [0x61]), PacketBits(PacketOf(0x62), [0x62]), TrailerBits(TwoInputs()));
  }

  lemma TwoCarried()
    ensures AllCarried(TwoPackets(), 9, TwoInputs())
  {
    hide Carries, PacketOf;
    OneCarried(0x61);
    OneCarried(0x62);
  }

  lemma BlocksPieces()
    requires AllCarried(TwoPackets(), 9, TwoInputs()) && Carries(PacketOf(0x61), 9, [0x61]) && Carries(PacketOf(0x62), 9, [0x62])
    ensures BlocksBits(TwoPackets(), 9, TwoInputs(), 0) == PacketBits(PacketOf(0x61), [0x61]) + PacketBits(PacketOf(0x62), [0x62])
  {
    hide Carries, PacketBits, Transmissible, PacketOf;
    CarriedShape(PacketOf(0x61), 9, [0x61]);
    CarriedShape(PacketOf(0x62), 9, [0x62]);
    var ps, ins := TwoPackets(), TwoInputs();
    assert BlocksBits(ps, 9, ins, 2) == [];
    assert BlocksBits(ps, 9, ins, 1) == PacketBits(ps[1], ins[1]);
  }

  /** Pieces and padding as one number. */
  lemma StreamNumber()
    ensures ToBits(0x425a_6839, 32) + (ToBits(0x18a0ac9329ac8cc9cdb5800000008010001000108c234, 179) + (ToBits(0x18a0ac9329ac8a685ed9000000008008001000108c234, 179) + ToBits(0x17724538509027f78b64, 80))) + ToBits(0, 2) == ToBits(0x425a683931415926535919939b6b00000001002000200021184686282b24ca6b229a17b6400000002002000400042308d05dc914e142409fde2d90, 472)
  {
    BigPowers();
    TwoPowers();
    hide ToBits, Pow2;
    Join(0x18a0ac9329ac8a685ed9000000008008001000108c234, 179, 0x17724538509027f78b64, 80, 0x100000000000000000000, 0x18a0ac9329ac8a685ed9000000008008001000108c23417724538509027f78b64);
    Join(0x18a0ac9329ac8cc9cdb5800000008010001000108c234, 179, 0x18a0ac9329ac8a685ed9000000008008001000108c23417724538509027f78b64, 259, 0x80000000000000000000000000000000000000000000000000000000000000000, 0xc50564994d64664e6dac00000004008000800084611a18a0ac9329ac8a685ed9000000008008001000108c23417724538509027f78b64);
    Join(0x425a_6839, 32, 0xc50564994d64664e6dac00000004008000800084611a18a0ac9329ac8a685ed9000000008008001000108c23417724538509027f78b64, 438, 0x40000000000000000000000000000000000000000000000000000000000000000000000000000000000000000000000000000000000000, 0x10969a0e4c50564994d64664e6dac00000004008000800084611a18a0ac9329ac8a685ed9000000008008001000108c23417724538509027f78b64);
    Join(0x10969a0e4c50564994d64664e6dac00000004008000800084611a18a0ac9329ac8a685ed9000000008008001000108c23417724538509027f78b64, 470, 0, 2, 4, 0x425a683931415926535919939b6b00000001002000200021184686282b24ca6b229a17b6400000002002000400042308d05dc914e142409fde2d90);
  }

  lemma TwoPowers()
    ensures Pow2(2) == 4 && Pow2(10) == 0x400 && Pow2(32) == 0x1_0000_0000
  {
    Pow2Values();
  }

  lemma FirstPart()
    ensures Spells([0x42, 0x5a, 0x68, 0x39, 0x31, 0x41, 0x59, 0x26, 0x53, 0x59, 0x19, 0x93, 0x9b, 0x6b, 0x00, 0x00, 0x00, 0x01, 0x00, 0x20], 0x425a683931415926535919939b6b000000010020)
  {
    Pow2Values();
    hide Spells, Pow2;
    SpellFour(0x42, 0x5a, 0x68, 0x39);
    SpellFour(0x31, 0x41, 0x59, 0x26);
    SpellFour(0x53, 0x59, 0x19, 0x93);
    SpellFour(0x9b, 0x6b, 0x00, 0x00);
    SpellFour(0x00, 0x01, 0x00, 0x20);
    SpellMore([0x42, 0x5a, 0x68, 0x39], 0x425a6839, [0x31, 0x41, 0x59, 0x26], 0x31415926, 0x100000000, 0x425a683931415926);
    assert [0x42, 0x5a, 0x68, 0x39] + [0x31, 0x41, 0x59, 0x26] == [0x42, 0x5a, 0x68, 0x39, 0x31, 0x41, 0x59, 0x26];
    SpellMore([0x42, 0x5a, 0x68, 0x39, 0x31, 0x41, 0x59, 0x26], 0x425a683931415926, [0x53, 0x59, 0x19, 0x93], 0x53591993, 0x100000000, 0x425a68393141592653591993);
    assert [0x42, 0x5a, 0x68, 0x39, 0x31, 0x41, 0x59, 0x26] + [0x53, 0x59, 0x19, 0x93] == [0x42, 0x5a, 0x68, 0x39, 0x31, 0x41, 0x59, 0x26, 0x53, 0x59, 0x19, 0x93];
    SpellMore([0x42, 0x5a, 0x68, 0x39, 0x31, 0x41, 0x59, 0x26, 0x53, 0x59, 0x19, 0x93], 0x425a68393141592653591993, [0x9b, 0x6b, 0x00, 0x00], 0x9b6b0000, 0x100000000, 0x425a683931415926535919939b6b0000);
    assert [0x42, 0x5a, 0x68, 0x39, 0x31, 0x41, 0x59, 0x26, 0x53, 0x59, 0x19, 0x93] + [0x9b, 0x6b, 0x00, 0x00] == [0x42, 0x5a, 0x68, 0x39, 0x31, 0x41, 0x59, 0x26, 0x53, 0x59, 0x19, 0x93, 0x9b, 0x6b, 0x00, 0x00];
    SpellMore([0x42, 0x5a, 0x68, 0x39, 0x31, 0x41, 0x59, 0x26, 0x53, 0x59, 0x19, 0x93, 0x9b, 0x6b, 0x00, 0x00], 0x425a683931415926535919939b6b0000, [0x00, 0x01, 0x00, 0x20], 0x10020, 0x100000000, 0x425a683931415926535919939b6b000000010020);
    assert [0x42, 0x5a, 0x68, 0x39, 0x31, 0x41, 0x59, 0x26, 0x53, 0x59, 0x19, 0x93, 0x9b, 0x6b, 0x00, 0x00] + [0x00, 0x01, 0x00, 0x20] == [0x42, 0x5a, 0x68, 0x39, 0x31, 0x41, 0x59, 0x26, 0x53, 0x59, 0x19, 0x93, 0x9b, 0x6b, 0x00, 0x00, 0x00, 0x01, 0x00, 0x20];
  }

  lemma SecondPart()
    ensures Spells([0x00, 0x20, 0x00, 0x21, 0x18, 0x46, 0x86, 0x28, 0x2b, 0x24, 0xca, 0x6b, 0x22, 0x9a, 0x17, 0xb6, 0x40, 0x00, 0x00, 0x00], 0x200021184686282b24ca6b229a17b640000000)
  {
    Pow2Values();
    hide Spells, Pow2;
    SpellFour(0x00, 0x20, 0x00, 0x21);
    SpellFour(0x18, 0x46, 0x86, 0x28);
    SpellFour(0x2b, 0x24, 0xca, 0x6b);
    SpellFour(0x22, 0x9a, 0x17, 0xb6);
    SpellFour(0x40, 0x00, 0x00, 0x00);
    SpellMore([0x00, 0x20, 0x00, 0x21], 0x200021, [0x18, 0x46, 0x86, 0x28], 0x18468628, 0x100000000, 0x20002118468628);
    assert [0x00, 0x20, 0x00, 0x21] + [0x18, 0x46, 0x86, 0x28] == [0x00, 0x20, 0x00, 0x21, 0x18, 0x46, 0x86, 0x28];
    SpellMore([0x00, 0x20, 0x00, 0x21, 0x18, 0x46, 0x86, 0x28], 0x20002118468628, [0x2b, 0x24, 0xca, 0x6b], 0x2b24ca6b, 0x100000000, 0x200021184686282b24ca6b);
    assert [0x00, 0x20, 0x00, 0x21, 0x18, 0x46, 0x86, 0x28] + [0x2b, 0x24, 0xca, 0x6b] == [0x00, 0x20, 0x00, 0x21, 0x18, 0x46, 0x86, 0x28, 0x2b, 0x24, 0xca, 0x6b];
    SpellMore([0x00, 0x20, 0x00, 0x21, 0x18, 0x46, 0x86, 0x28, 0x2b, 0x24, 0xca, 0x6b], 0x200021184686282b24ca6b, [0x22, 0x9a, 0x17, 0xb6], 0x229a17b6, 0x100000000, 0x200021184686282b24ca6b229a17b6);
    assert [0x00, 0x20, 0x00, 0x21, 0x18, 0x46, 0x86, 0x28, 0x2b, 0x24, 0xca, 0x6b] + [0x22, 0x9a, 0x17, 0xb6] == [0x00, 0x20, 0x00, 0x21, 0x18, 0x46, 0x86, 0x28, 0x2b, 0x24, 0xca, 0x6b, 0x22, 0x9a, 0x17, 0xb6];
    SpellMore([0x00, 0x20, 0x00, 0x21, 0x18, 0x46, 0x86, 0x28, 0x2b, 0x24, 0xca, 0x6b, 0x22, 0x9a, 0x17, 0xb6], 0x200021184686282b24ca6b229a17b6, [0x40, 0x00, 0x00, 0x00], 0x40000000, 0x100000000, 0x200021184686282b24ca6b229a17b640000000);
    assert [0x00, 0x20, 0x00, 0x21, 0x18, 0x46, 0x86, 0x28, 0x2b, 0x24, 0xca, 0x6b, 0x22, 0x9a, 0x17, 0xb6] + [0x40, 0x00, 0x00, 0x00] == [0x00, 0x20, 0x00, 0x21, 0x18, 0x46, 0x86, 0x28, 0x2b, 0x24, 0xca, 0x6b, 0x22, 0x9a, 0x17, 0xb6, 0x40, 0x00, 0x00, 0x00];
  }

  lemma LastPart()
    ensures Spells([0x20, 0x02, 0x00, 0x04, 0x00, 0x04, 0x23, 0x08, 0xd0, 0x5d, 0xc9, 0x14, 0xe1, 0x42, 0x40, 0x9f, 0xde, 0x2d, 0x90], 0x2002000400042308d05dc914e142409fde2d90)
  {
    Pow2Values();
    hide Spells, Pow2;
    SpellFour(0x20, 0x02, 0x00, 0x04);
    SpellFour(0x00, 0x04, 0x23, 0x08);
    SpellFour(0xd0, 0x5d, 0xc9, 0x14);
    SpellFour(0xe1, 0x42, 0x40, 0x9f);
    SpellTwo(0xde, 0x2d);
    SpellOne(0x90);
    SpellMore([0xde, 0x2d], 0xde2d, [0x90], 0x90, 0x100, 0xde2d90);
    assert [0xde, 0x2d] + [0x90] == [0xde, 0x2d, 0x90];
    SpellMore([0x20, 0x02, 0x00, 0x04], 0x20020004, [0x00, 0x04, 0x23, 0x08], 0x42308, 0x100000000, 0x2002000400042308);
    assert [0x20, 0x02, 0x00, 0x04] + [0x00, 0x04, 0x23, 0x08] == [0x20, 0x02, 0x00, 0x04, 0x00, 0x04, 0x23, 0x08];
    SpellMore([0x20, 0x02, 0x00, 0x04, 0x00, 0x04, 0x23, 0x08], 0x2002000400042308, [0xd0, 0x5d, 0xc9, 0x14], 0xd05dc914, 0x100000000, 0x2002000400042308d05dc914);
    assert [0x20, 0x02, 0x00, 0x04, 0x00, 0x04, 0x23, 0x08] + [0xd0, 0x5d, 0xc9, 0x14] == [0x20, 0x02, 0x00, 0x04, 0x00, 0x04, 0x23, 0x08, 0xd0, 0x5d, 0xc9, 0x14];
    SpellMore([0x20, 0x02, 0x00, 0x04, 0x00, 0x04, 0x23, 0x08, 0xd0, 0x5d, 0xc9, 0x14], 0x2002000400042308d05dc914, [0xe1, 0x42, 0x40, 0x9f], 0xe142409f, 0x100000000, 0x2002000400042308d05dc914e142409f);
    assert [0x20, 0x02, 0x00, 0x04, 0x00, 0x04, 0x23, 0x08, 0xd0, 0x5d, 0xc9, 0x14] + [0xe1, 0x42, 0x40, 0x9f] == [0x20, 0x02, 0x00, 0x04, 0x00, 0x04, 0x23, 0x08, 0xd0, 0x5d, 0xc9, 0x14, 0xe1, 0x42, 0x40, 0x9f];
    SpellMore([0x20, 0x02, 0x00, 0x04, 0x00, 0x04, 0x23, 0x08, 0xd0, 0x5d, 0xc9, 0x14, 0xe1, 0x42, 0x40, 0x9f], 0x2002000400042308d05dc914e142409f, [0xde, 0x2d, 0x90], 0xde2d90, 0x1000000, 0x2002000400042308d05dc914e142409fde2d90);
    assert [0x20, 0x02, 0x00, 0x04, 0x00, 0x04, 0x23, 0x08, 0xd0, 0x5d, 0xc9, 0x14, 0xe1, 0x42, 0x40, 0x9f] + [0xde, 0x2d, 0x90] == [0x20, 0x02, 0x00, 0x04, 0x00, 0x04, 0x23, 0x08, 0xd0, 0x5d, 0xc9, 0x14, 0xe1, 0x42, 0x40, 0x9f, 0xde, 0x2d, 0x90];
  }

  const TWO_BLOCKS: seq<byte> :=
    [0x42, 0x5a, 0x68, 0x39, 0x31, 0x41, 0x59, 0x26, 0x53, 0x59, 0x19, 0x93, 0x9b, 0x6b, 0x00, 0x00, 0x00, 0x01, 0x00, 0x20] +
    [0x00, 0x20, 0x00, 0x21, 0x18, 0x46, 0x86, 0x28, 0x2b, 0x24, 0xca, 0x6b, 0x22, 0x9a, 0x17, 0xb6, 0x40, 0x00, 0x00, 0x00] +
    [0x20, 0x02, 0x00, 0x04, 0x00, 0x04, 0x23, 0x08, 0xd0, 0x5d, 0xc9, 0x14, 0xe1, 0x42, 0x40, 0x9f, 0xde, 0x2d, 0x90]

  lemma TwoBlocksSpelled()
    ensures Spells(TWO_BLOCKS, 0x425a683931415926535919939b6b00000001002000200021184686282b24ca6b229a17b6400000002002000400042308d05dc914e142409fde2d90)
  {
    FirstPart();
    SecondPart();
    LastPart();
    BigPowers();
    hide Spells, Pow2;
    SpellMore([0x42, 0x5a, 0x68, 0x39, 0x31, 0x41, 0x59, 0x26, 0x53, 0x59, 0x19, 0x93, 0x9b, 0x6b, 0x00, 0x00, 0x00, 0x01, 0x00, 0x20], 0x425a683931415926535919939b6b000000010020, [0x00, 0x20, 0x00, 0x21, 0x18, 0x46, 0x86, 0x28, 0x2b, 0x24, 0xca, 0x6b, 0x22, 0x9a, 0x17, 0xb6, 0x40, 0x00, 0x00, 0x00], 0x200021184686282b24ca6b229a17b640000000, 0x10000000000000000000000000000000000000000, 0x425a683931415926535919939b6b00000001002000200021184686282b24ca6b229a17b640000000);
    SpellMore([0x42, 0x5a, 0x68, 0x39, 0x31, 0x41, 0x59, 0x26, 0x53, 0x59, 0x19, 0x93, 0x9b, 0x6b, 0x00, 0x00, 0x00, 0x01, 0x00, 0x20] + [0x00, 0x20, 0x00, 0x21, 0x18, 0x46, 0x86, 0x28, 0x2b, 0x24, 0xca, 0x6b, 0x22, 0x9a, 0x17, 0xb6, 0x40, 0x00, 0x00, 0x00], 0x425a683931415926535919939b6b00000001002000200021184686282b24ca6b229a17b640000000, [0x20, 0x02, 0x00, 0x04, 0x00, 0x04, 0x23, 0x08, 0xd0, 0x5d, 0xc9, 0x14, 0xe1, 0x42, 0x40, 0x9f, 0xde, 0x2d, 0x90], 0x2002000400042308d05dc914e142409fde2d90, 0x100000000000000000000000000000000000000, 0x425a683931415926535919939b6b00000001002000200021184686282b24ca6b229a17b6400000002002000400042308d05dc914e142409fde2d90);
  }

  lemma BigPowers()
    ensures Pow2(80) == 0x100000000000000000000 && Pow2(152) == 0x100000000000000000000000000000000000000 && Pow2(160) == 0x10000000000000000000000000000000000000000
    ensures Pow2(179) == 0x800000000000000000000000000000000000000000000 && Pow2(259) == 0x80000000000000000000000000000000000000000000000000000000000000000 && Pow2(438) == 0x40000000000000000000000000000000000000000000000000000000000000000000000000000000000000000000000000000000000000
  {
    TwoPowers();
    LargePowers();
    hide Pow2;
    Pow2Add(80, 80);
    Pow2Add(10, 10);
    Pow2Add(20, 2);
    Pow2Add(131, 10);
    Pow2Add(141, 10);
    Pow2Add(2, 2);
    Pow2Add(42, 10);
    Pow2Add(52, 10);
    Pow2Add(62, 10);
    Pow2Add(80, 72);
    Pow2Add(179, 80);
    Pow2Add(259, 179);
  }

  /** The 59 bytes of a stream in which the byte 0x61 was followed by a flush, and
      the byte 0x62 by the end, decode to the two bytes. */
  lemma TwoBlockStream()
    ensures DecodeStream(BytesToBits(TWO_BLOCKS)) == Got([0x61, 0x62], [0, 0])
  {
    TwoBlocksSpelled();
    StreamPieces();
    StreamNumber();
    TwoZeros();
    hide DecodeStream, BytesToBits, StreamBits, AllCarried, ToBits, Pow2;
    StreamRoundTrip(TwoPackets(), 9, TwoInputs(), [0, 0]);
    TwoFlat();
  }

  lemma TwoZeros()
    ensures ToBits(0, 2) == [0, 0]
  {
  }

  lemma TwoFlat()
    ensures Flatten(TwoInputs()) == [0x61, 0x62]
  {
    assert TwoInputs()[1..] == [[0x62]] && [[0x62]][1..] == [];
  }
}
