/**
 The whole compressed stream: header, blocks, trailer (BZ2_compressBlock in
 compress.c, BZ2_decompress in decompress.c, the block loop of BZ2_bzDecompress
 in bzlib.c). Decoding any stream the encoder can produce returns the input.
 */
module Stream {
  import opened Wrappers
  import opened Bits
  import opened BitSeq
  import opened BitStream
  import opened Rotation
  import opened InverseBwt
  import opened BlockCode
  import Rle
  import BlockCrc

  // ---------- Decoding ----------

  /** Reads these bytes and nothing else. */
  ghost function Expect(bits: seq<bit>, magic: seq<byte>): (r: Read<bool>)
    ensures r.Got? ==> |r.rest| == |bits| - 8 * |magic|
    decreases |magic|
  {
    if magic == [] then Got(true, bits)
    else
      var (c, left) :- GetBits(bits, 8);
      if c != magic[0] then DataError else Expect(left, magic[1..])
  }

  const BLOCK_MAGIC: seq<byte> := [0x41, 0x59, 0x26, 0x53, 0x59]
  const END_MAGIC: seq<byte> := [0x72, 0x45, 0x38, 0x50, 0x90]
  const STREAM_MAGIC: seq<byte> := [0x42, 0x5a, 0x68]

  /** The bytes of a parsed block, unless its run-length code breaks off or its
      CRC is not the stored one. */
  ghost function BlockOutput(block: Block): (r: Option<seq<byte>>)
    requires block.origPtr < |block.col|
  {
    var code := Walked(block.col, block.origPtr, |block.col|);
    var out := Rle.Expand(code, Rle.START);
    if Rle.Whole(code) && BlockCrc.Word(BlockCrc.Crc(out)) == block.crc then Some(out) else None
  }

  /** Blocks and trailer, with the combined CRC so far. */
  ghost function DecodeBlocks(bits: seq<bit>, level: nat, combined: bv32): (r: Read<seq<byte>>)
    decreases |bits|
  {
    hide ParseBlock, BlockOutput, Expect, FromBits;
    var (kind, left) :- GetBits(bits, 8);
    if kind == 0x17 then
      var (_, left1) :- Expect(left, END_MAGIC);
      var (stored, end) :- GetBits(left1, 32);
      if stored != BlockCrc.Word(combined) then DataError else Got([], end)
    else if kind != 0x31 then DataError
    else
      var (_, left1) :- Expect(left, BLOCK_MAGIC);
      var (block, left2) :- ParseBlock(left1, level);
      match BlockOutput(block)
      case None => DataError
      case Some(out) =>
        var (rest, end) :- DecodeBlocks(left2, level, BlockCrc.Combine(combined, BlockCrc.Crc(out)));
        Got(out + rest, end)
  }

  ghost function DecodeStream(bits: seq<bit>): (r: Read<seq<byte>>) {
    var (_, left) :- Expect(bits, STREAM_MAGIC);
    var (digit, left1) :- GetBits(left, 8);
    if digit < 0x31 || digit > 0x39 then DataError else DecodeBlocks(left1, digit - 0x30, 0)
  }

  // ---------- What the encoder produces ----------

  /** How one block was coded: its run-length code, a sorted rotation order, the
      row of rotation 0, and what was transmitted. */
  datatype Packet = Packet(code: seq<byte>, ptr: seq<nat>, orig: nat, body: Body)

  ghost predicate Carries(p: Packet, level: nat, input: seq<byte>) {
    && |p.code| <= BLOCK_UNIT * level && Transmits(p.body, p.code, p.ptr, p.orig)
    && Rle.Whole(p.code) && Rle.Expand(p.code, Rle.START) == input
  }

  ghost function PacketBits(p: Packet, input: seq<byte>): seq<bit>
    requires Transmissible(p.body)
  {
    BytesToBits([0x31] + BLOCK_MAGIC) + BlockBits(BlockCrc.Word(BlockCrc.Crc(input)), p.orig, p.body)
  }

  ghost predicate AllCarried(packets: seq<Packet>, level: nat, inputs: seq<seq<byte>>) {
    |packets| == |inputs| && forall k :: 0 <= k < |packets| ==> Carries(packets[k], level, inputs[k])
  }

  /** The blocks from the k-th on. */
  ghost function BlocksBits(packets: seq<Packet>, level: nat, inputs: seq<seq<byte>>, k: nat): seq<bit>
    requires AllCarried(packets, level, inputs) && k <= |packets|
    decreases |packets| - k
  {
    if k == |packets| then []
    else
      assert Carries(packets[k], level, inputs[k]);
      PacketBits(packets[k], inputs[k]) + BlocksBits(packets, level, inputs, k + 1)
  }

  ghost function HeaderBits(level: nat): seq<bit>
    requires level <= 9
  {
    BytesToBits(STREAM_MAGIC + [0x30 + level])
  }

  ghost function TrailerBits(inputs: seq<seq<byte>>): seq<bit> {
    BytesToBits([0x17] + END_MAGIC) + ToBits(BlockCrc.Word(BlockCrc.Combined(inputs)), 32)
  }

  ghost function StreamBits(packets: seq<Packet>, level: nat, inputs: seq<seq<byte>>): seq<bit>
    requires AllCarried(packets, level, inputs) && level <= 9
  {
    HeaderBits(level) + (BlocksBits(packets, level, inputs, 0) + TrailerBits(inputs))
  }

  function Flatten(inputs: seq<seq<byte>>): seq<byte> {
    if inputs == [] then [] else inputs[0] + Flatten(inputs[1..])
  }

  // ---------- Round trip ----------

  lemma {:induction false} ExpectWritten(magic: seq<byte>, rest: seq<bit>)
    ensures Expect(BytesToBits(magic) + rest, magic) == Got(true, rest)
  {
    hide ToBits, GetBits, BytesToBits;
    if magic == [] {
      EmptyBytes();
      assert [] + rest == rest;
    } else {
      var more := BytesToBits(magic[1..]) + rest;
      ByteThenBytes(magic[0], magic[1..]);
      assert magic == [magic[0]] + magic[1..];
      assert BytesToBits(magic) + rest == ToBits(magic[0], 8) + more;
      Pow2Values();
      GetWritten(magic[0], 8, more);
      ExpectWritten(magic[1..], rest);
    }
  }

  /** A packet's block is read back, and its output is the input it was made
      from: neither the run-length check nor the CRC check fires. */
  lemma PacketDecodes(p: Packet, level: nat, input: seq<byte>, rest: seq<bit>)
    requires Carries(p, level, input) && level <= 9
    ensures var block := Block(BlockCrc.Word(BlockCrc.Crc(input)), p.orig, LastColumn(p.code, p.ptr));
            && ParseBlock(BlockBits(BlockCrc.Word(BlockCrc.Crc(input)), p.orig, p.body) + rest, level) == Got(block, rest)
            && BlockOutput(block) == Some(input)
  {
    hide BlockBits, ParseBlock, BlockCrc.Crc, BlockCrc.Word, LastColumn, Walked, Rle.Expand, Transmissible;
    BlockParses(BlockCrc.Word(BlockCrc.Crc(input)), p.code, p.ptr, p.orig, p.body, level, rest);
    BlockRecovered(p.code, p.ptr, p.orig);
  }

  /** Reading one block in front of others. */
  lemma BlockStep(p: Packet, level: nat, input: seq<byte>, combined: bv32, rest: seq<bit>, out: seq<byte>, end: seq<bit>)
    requires Carries(p, level, input) && level <= 9
    requires DecodeBlocks(rest, level, BlockCrc.Combine(combined, BlockCrc.Crc(input))) == Got(out, end)
    ensures DecodeBlocks(PacketBits(p, input) + rest, level, combined) == Got(input + out, end)
  {
    hide BlockBits, ParseBlock, BlockOutput, BlockCrc.Crc, BlockCrc.Word, BlockCrc.Combine, LastColumn, Transmits, Transmissible, Expect, ToBits, FromBits, GetBits, BytesToBits, Rle.Expand;
    var crc := BlockCrc.Word(BlockCrc.Crc(input));
    CarriedShape(p, level, input);
    PacketDecodes(p, level, input, rest);
    var body := BlockBits(crc, p.orig, p.body) + rest;
    ExpectWritten(BLOCK_MAGIC, body);
    ByteThenBytes(0x31, BLOCK_MAGIC);
    EightBits(0x31, BytesToBits(BLOCK_MAGIC) + body);
    assert PacketBits(p, input) + rest == ToBits(0x31, 8) + (BytesToBits(BLOCK_MAGIC) + body);
  }

  lemma CarriedShape(p: Packet, level: nat, input: seq<byte>)
    requires Carries(p, level, input)
    ensures Transmissible(p.body) && |p.ptr| == |p.code| && p.orig < |p.code| && forall i :: 0 <= i < |p.ptr| ==> p.ptr[i] < |p.code|
  {
  }

  lemma EightBits(c: byte, rest: seq<bit>)
    ensures GetBits(ToBits(c, 8) + rest, 8) == Got(c, rest)
  {
    Pow2Values();
    GetWritten(c, 8, rest);
  }

  /** Reading the trailer. */
  lemma TrailerStep(inputs: seq<seq<byte>>, level: nat, rest: seq<bit>)
    ensures DecodeBlocks(TrailerBits(inputs) + rest, level, BlockCrc.Combined(inputs)) == Got([], rest)
  {
    hide BlockOutput, BlockCrc.Combined, BlockCrc.Word, Expect, ToBits, FromBits, GetBits, BytesToBits, ParseBlock;
    var crc := BlockCrc.Word(BlockCrc.Combined(inputs));
    var stored := ToBits(crc, 32) + rest;
    ExpectWritten(END_MAGIC, stored);
    ByteThenBytes(0x17, END_MAGIC);
    EightBits(0x17, BytesToBits(END_MAGIC) + stored);
    assert TrailerBits(inputs) + rest == ToBits(0x17, 8) + (BytesToBits(END_MAGIC) + stored);
    SmallPowers();
    GetWritten(crc, 32, rest);
  }

  lemma CombinedNext(inputs: seq<seq<byte>>, k: nat)
    requires k < |inputs|
    ensures BlockCrc.Combined(inputs[..k + 1]) == BlockCrc.Combine(BlockCrc.Combined(inputs[..k]), BlockCrc.Crc(inputs[k]))
  {
    assert inputs[..k + 1][..k] == inputs[..k];
  }

  lemma {:induction false} BlocksDecode(packets: seq<Packet>, level: nat, inputs: seq<seq<byte>>, k: nat, rest: seq<bit>)
    requires AllCarried(packets, level, inputs) && k <= |packets| && level <= 9
    ensures DecodeBlocks(BlocksBits(packets, level, inputs, k) + (TrailerBits(inputs) + rest), level, BlockCrc.Combined(inputs[..k]))
         == Got(Flatten(inputs[k..]), rest)
    decreases |packets| - k
  {
    hide DecodeBlocks, BlockCrc.Combined, PacketBits, TrailerBits, Carries;
    var tail := TrailerBits(inputs) + rest;
    if k == |packets| {
      assert inputs[..k] == inputs && inputs[k..] == [];
      assert BlocksBits(packets, level, inputs, k) + tail == tail;
      TrailerStep(inputs, level, rest);
    } else {
      assert Carries(packets[k], level, inputs[k]);
      CarriedShape(packets[k], level, inputs[k]);
      BlocksDecode(packets, level, inputs, k + 1, rest);
      CombinedNext(inputs, k);
      BlockStep(packets[k], level, inputs[k], BlockCrc.Combined(inputs[..k]), BlocksBits(packets, level, inputs, k + 1) + tail, Flatten(inputs[k + 1..]), rest);
      assert BlocksBits(packets, level, inputs, k) + tail == PacketBits(packets[k], inputs[k]) + (BlocksBits(packets, level, inputs, k + 1) + tail);
      assert inputs[k..][1..] == inputs[k + 1..];
    }
  }

  /** Decoding any stream the encoder can produce, whatever its choices of
      rotation order among ties, tables and selectors, returns the input bytes,
      with no error, and leaves what follows the stream. */
  lemma StreamRoundTrip(packets: seq<Packet>, level: nat, inputs: seq<seq<byte>>, rest: seq<bit>)
    requires AllCarried(packets, level, inputs) && 1 <= level <= 9
    ensures DecodeStream(StreamBits(packets, level, inputs) + rest) == Got(Flatten(inputs), rest)
  {
    hide DecodeBlocks, TrailerBits, BlocksBits, AllCarried, Expect, GetBits, ToBits, BytesToBits, Flatten;
    var tail := BlocksBits(packets, level, inputs, 0) + (TrailerBits(inputs) + rest);
    var digit: byte := 0x30 + level;
    HeaderSplit(digit);
    ExpectWritten(STREAM_MAGIC, ToBits(digit, 8) + tail);
    EightBits(digit, tail);
    assert StreamBits(packets, level, inputs) + rest == BytesToBits(STREAM_MAGIC) + (ToBits(digit, 8) + tail);
    BlocksFromStart(packets, level, inputs, rest);
  }

  lemma BlocksFromStart(packets: seq<Packet>, level: nat, inputs: seq<seq<byte>>, rest: seq<bit>)
    requires AllCarried(packets, level, inputs) && level <= 9
    ensures DecodeBlocks(BlocksBits(packets, level, inputs, 0) + (TrailerBits(inputs) + rest), level, 0) == Got(Flatten(inputs), rest)
  {
    hide DecodeBlocks, TrailerBits, BlocksBits, AllCarried;
    BlocksDecode(packets, level, inputs, 0, rest);
    assert inputs[..0] == [] && inputs[0..] == inputs;
  }

  lemma HeaderSplit(digit: byte)
    ensures BytesToBits(STREAM_MAGIC + [digit]) == BytesToBits(STREAM_MAGIC) + ToBits(digit, 8)
  {
    LastByte(STREAM_MAGIC, digit);
  }

  // ---------- More input ----------

  lemma {:induction false} ExpectSurvives(bits: seq<bit>, magic: seq<byte>, more: seq<bit>)
    ensures Survives(Expect(bits, magic), Expect(bits + more, magic), more)
    decreases |magic|
  {
    hide GetBits;
    if magic != [] {
      BitsSurvive(bits, 8, more);
      var c := GetBits(bits, 8);
      if c.Got? && c.value == magic[0] { ExpectSurvives(c.rest, magic[1..], more); }
    }
  }

  lemma {:induction false} BlocksSurvive(bits: seq<bit>, level: nat, combined: bv32, more: seq<bit>)
    ensures Survives(DecodeBlocks(bits, level, combined), DecodeBlocks(bits + more, level, combined), more)
    decreases |bits|
  {
    hide ParseBlock, BlockOutput, Expect, BlockCrc.Word, BlockCrc.Crc, BlockCrc.Combine;
    BitsSurvive(bits, 8, more);
    var kind := GetBits(bits, 8);
    if kind.Got? {
      ExpectSurvives(kind.rest, END_MAGIC, more);
      ExpectSurvives(kind.rest, BLOCK_MAGIC, more);
      var end, magic := Expect(kind.rest, END_MAGIC), Expect(kind.rest, BLOCK_MAGIC);
      if end.Got? { BitsSurvive(end.rest, 32, more); }
      if magic.Got? {
        BlockSurvives(magic.rest, level, more);
        var block := ParseBlock(magic.rest, level);
        if block.Got? && BlockOutput(block.value).Some? {
          BlocksSurvive(block.rest, level, BlockCrc.Combine(combined, BlockCrc.Crc(BlockOutput(block.value).value)), more);
        }
      }
    }
  }

  /** Once a stream has been decoded, or found corrupt, more input changes
      nothing. */
  lemma StreamSurvives(bits: seq<bit>, more: seq<bit>)
    ensures Survives(DecodeStream(bits), DecodeStream(bits + more), more)
  {
    hide GetBits, Expect, DecodeBlocks;
    ExpectSurvives(bits, STREAM_MAGIC, more);
    var magic := Expect(bits, STREAM_MAGIC);
    if magic.Got? {
      BitsSurvive(magic.rest, 8, more);
      var digit := GetBits(magic.rest, 8);
      if digit.Got? && 0x31 <= digit.value <= 0x39 { BlocksSurvive(digit.rest, digit.value - 0x30, 0, more); }
    }
  }
}
