/**
 The block CRC of bzlib_private.h, a fixed step function folded over the bytes
 of a block, and the combined CRC of the stream.
 */
module BlockCrc {
  import opened Bits
  import opened BitSeq
  import opened Words
  import opened Rotation

  /** Entry i of BZ2_crc32Table: i as the top byte, eight steps of the
      polynomial 0x04c11db7, most significant bit first. */
  function TableEntry(v: bv32, steps: nat): bv32
    decreases steps
  {
    if steps == 0 then v
    else TableEntry(if v & 0x8000_0000 != 0 then (v << 1) ^ 0x04c1_1db7 else v << 1, steps - 1)
  }

  /** BZ_UPDATE_CRC */
  function Update(crc: bv32, c: byte): bv32 {
    (crc << 8) ^ TableEntry(((crc >> 24) ^ (c as bv32)) << 24, 8)
  }

  function UpdateAll(crc: bv32, s: seq<byte>): bv32 {
    if s == [] then crc else Update(UpdateAll(crc, s[..|s| - 1]), s[|s| - 1])
  }

  lemma UpdateOne(crc: bv32, s: seq<byte>, c: byte)
    ensures UpdateAll(crc, s + [c]) == Update(UpdateAll(crc, s), c)
  {
    assert (s + [c])[..|s|] == s;
  }

  /** BZ_INITIALISE_CRC */
  const INITIAL: bv32 := 0xffff_ffff

  /** BZ_FINALISE_CRC */
  function Finalise(crc: bv32): bv32 { !crc }

  /** The CRC stored with a block of these bytes. */
  function Crc(s: seq<byte>): bv32 { Finalise(UpdateAll(INITIAL, s)) }

  /** The 32 bits of a CRC, the top one first. */
  function WordBits(crc: bv32): (r: seq<bit>)
    ensures |r| == 32 && forall i :: 0 <= i < 32 ==> (r[i] == 1 <==> Bit(crc, 31 - i))
  {
    seq(32, i requires 0 <= i < 32 => if Bit(crc, 31 - i) then 1 else 0)
  }

  /** A CRC as the 32-bit number that is written to the stream. */
  function Word(crc: bv32): (n: nat)
    ensures n < 0x1_0000_0000
  {
    FromBitsBound(WordBits(crc));
    Pow2Values();
    FromBits(WordBits(crc))
  }

  lemma WordIsBits(crc: bv32)
    ensures ToBits(Word(crc), 32) == WordBits(crc)
  {
    hide FromBits, ToBits, WordBits;
    ToFromBits(WordBits(crc));
  }

  /** Different CRCs are different numbers. */
  lemma WordInjective(a: bv32, b: bv32)
    requires Word(a) == Word(b)
    ensures a == b
  {
    hide Word, WordBits, Bit;
    WordIsBits(a);
    WordIsBits(b);
    forall j | 0 <= j < 32 ensures Bit(a, j) == Bit(b, j) {
      assert WordBits(a)[31 - j] == WordBits(b)[31 - j];
    }
    SameBits(a, b);
  }

  /** Rotate left by one and add. */
  function Combine(combined: bv32, crc: bv32): bv32 { Xor(RotateLeft(combined), crc) }

  /** The combined CRC of blocks holding these bytes. */
  function Combined(inputs: seq<seq<byte>>): bv32 {
    if inputs == [] then 0 else Combine(Combined(inputs[..|inputs| - 1]), Crc(inputs[|inputs| - 1]))
  }

  // ---------- What combining does to the bits ----------

  /** The bits move up one place cyclically, and those of the new CRC are added. */
  lemma CombineBits(c: bv32, x: bv32, j: nat)
    requires j < 32
    ensures Bit(Combine(c, x), j) <==> (Bit(c, (j - 1) % 32) != Bit(x, j))
  {
    hide Bit, Xor, RotateLeft;
    BitXor(RotateLeft(c), x, j);
    BitRotate(c, j);
  }

  /** The same of the numbers in the stream: top bit first, they move to the front. */
  lemma CombineWords(c: bv32, x: bv32, i: nat)
    requires i < 32
    ensures ToBits(Word(Combine(c, x)), 32)[i] == (ToBits(Word(c), 32)[(i + 1) % 32] as nat + ToBits(Word(x), 32)[i]) % 2
  {
    hide Bit, Combine, Word, ToBits;
    WordIsBits(c);
    WordIsBits(x);
    WordIsBits(Combine(c, x));
    CombineBits(c, x, 31 - i);
    assert WordBits(c)[(i + 1) % 32] == 1 <==> Bit(c, 31 - (i + 1) % 32);
  }

  /** Bit j of the first k of n block CRCs, each turned by the blocks after it,
      added up. */
  ghost predicate Parity(inputs: seq<seq<byte>>, n: nat, k: nat, j: nat)
    requires k <= |inputs| && k <= n && j < 32
  {
    k > 0 && (Parity(inputs, n, k - 1, j) != Bit(Crc(inputs[k - 1]), (j - (n - k)) % 32))
  }

  lemma {:induction false} ParityTurned(inputs: seq<seq<byte>>, more: seq<seq<byte>>, n: nat, k: nat, j: nat)
    requires k <= |inputs| && k <= n && j < 32 && inputs <= more
    ensures Parity(inputs, n, k, (j - 1) % 32) == Parity(more, n + 1, k, j)
  {
    hide Bit, Crc;
    if k > 0 {
      ParityTurned(inputs, more, n, k - 1, j);
      assert ((j - 1) % 32 - (n - k)) % 32 == (j - (n + 1 - k)) % 32;
    }
  }

  /** Bit j of the combined CRC of n blocks is the exclusive-or, over all k, of bit
      j - (n - 1 - k) modulo 32 of the CRC of block k. */
  lemma {:induction false} CombinedBits(inputs: seq<seq<byte>>, j: nat)
    requires j < 32
    ensures Bit(Combined(inputs), j) == Parity(inputs, |inputs|, |inputs|, j)
  {
    hide Bit, Crc, Combine;
    if inputs == [] {
      NoBit(j);
    } else {
      var n := |inputs|;
      var before := inputs[..n - 1];
      CombinedBits(before, (j - 1) % 32);
      ParityTurned(before, inputs, n - 1, n - 1, j);
      CombineBits(Combined(before), Crc(inputs[n - 1]), j);
    }
  }
}
