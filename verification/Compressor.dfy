/**
 The streaming compressor of bzlib.c: BZ2_bzCompress with its mode machine,
 handle_compress, copy_input_until_stop and copy_output_until_stop. Calls come
 in any order and with any buffer sizes.
 */
module Compressor {
  import opened Sequences
  import opened Bits
  import opened BitSeq
  import opened BitStream
  import opened Rotation
  import opened BlockCode
  import opened BlockEncoder
  import opened Stream
  import Rle
  import BlockCrc

  datatype Mode = Idle | Running | Flushing | Finishing
  datatype Phase = Input | Output
  datatype Action = Run | Flush | Finish
  datatype Code = RunOk | FlushOk | FinishOk | StreamEnd | ParamError | SequenceError

  // ---------- The stream written so far ----------

  /** Header and blocks; nothing before the header. */
  ghost function SoFar(header: bool, packets: seq<Packet>, level: nat, inputs: seq<seq<byte>>): seq<bit>
    requires AllCarried(packets, level, inputs) && level <= 9
  {
    if header then HeaderBits(level) + BlocksBits(packets, level, inputs, 0) else []
  }

  lemma {:induction false} BlocksSnoc(packets: seq<Packet>, level: nat, inputs: seq<seq<byte>>, p: Packet, input: seq<byte>, k: nat)
    requires AllCarried(packets, level, inputs) && Carries(p, level, input) && k <= |packets|
    ensures AllCarried(packets + [p], level, inputs + [input])
    ensures BlocksBits(packets + [p], level, inputs + [input], k) == BlocksBits(packets, level, inputs, k) + PacketBits(p, input)
    decreases |packets| - k
  {
    hide Carries, PacketBits;
    var ps, ins := packets + [p], inputs + [input];
    assert Carries(ps[k], level, ins[k]);
    CarriedShape(ps[k], level, ins[k]);
    CarriedShape(p, level, input);
    if k == |packets| {
      assert BlocksBits(ps, level, ins, k + 1) == [];
    } else {
      BlocksSnoc(packets, level, inputs, p, input, k + 1);
      Regroup(PacketBits(ps[k], ins[k]), BlocksBits(packets, level, inputs, k + 1), PacketBits(p, input));
    }
  }

  lemma {:induction false} FlattenSnoc(inputs: seq<seq<byte>>, input: seq<byte>)
    ensures Flatten(inputs + [input]) == Flatten(inputs) + input
  {
    if inputs == [] {
      assert [input][1..] == [] && [] + [input] == [input];
    } else {
      FlattenSnoc(inputs[1..], input);
      assert (inputs + [input])[1..] == inputs[1..] + [input];
    }
  }

  lemma CombinedSnoc(inputs: seq<seq<byte>>, input: seq<byte>)
    ensures BlockCrc.Combined(inputs + [input]) == BlockCrc.Combine(BlockCrc.Combined(inputs), BlockCrc.Crc(input))
  {
    assert (inputs + [input])[..|inputs|] == inputs;
  }

  /** What a call takes from the input is its front, and is added to what has
      been consumed. */
  ghost predicate Took(before: seq<byte>, after: seq<byte>, consumed: seq<byte>, consumed': seq<byte>) {
    |after| <= |before| && before[|before| - |after|..] == after && consumed' == consumed + before[..|before| - |after|]
  }

  lemma TookTrans(x: seq<byte>, y: seq<byte>, z: seq<byte>, a: seq<byte>, b: seq<byte>, c: seq<byte>)
    requires Took(x, y, a, b) && Took(y, z, b, c)
    ensures Took(x, z, a, c)
  {
    var m, n := |x| - |y|, |y| - |z|;
    assert x[m + n..] == x[m..][n..];
    assert x[..m + n] == x[..m] + x[m..][..n];
  }

  /** Less input to take, or the trailer written, or fewer bytes waiting. */
  ghost predicate Closer(input: seq<byte>, trailer: bool, waiting: int, input0: seq<byte>, trailer0: bool, waiting0: int) {
    || |input| < |input0|
    || (|input| == |input0| && ((trailer && !trailer0) || (trailer == trailer0 && waiting < waiting0)))
  }

  class EState {
    const level: nat            // blockSize100k
    const workFactor: int
    const choose: Chooser
    const enc: Rle.Encoder
    const w: Writer             // numZ is |w.zbits|
    var mode: Mode
    var phase: Phase            // BZ_S_INPUT, BZ_S_OUTPUT
    var expected: nat             // avail_in_expect
    var blockNo: nat
    var combinedCRC: bv32
    var outPos: nat             // state_out_pos
    var input: seq<byte>        // next_in[..avail_in]
    var availOut: nat
    var output: seq<byte>       // everything delivered through next_out
    ghost var consumed: seq<byte>         // everything taken from next_in
    ghost var packets: seq<Packet>
    ghost var inputs: seq<seq<byte>>      // the input bytes of each block
    ghost var flushed: seq<byte>          // output before the block being drained
    ghost var trailer: bool               // the trailer has been written

    ghost predicate Fixed()
      reads this, enc, enc.block, enc.inUse
    {
      1 <= level <= 9 && enc.Valid() && enc.nblockMAX + Rle.SLACK == enc.block.Length == BLOCK_UNIT * level && ValidChooser(choose)
    }

    /** Output delivered, bytes waiting and residual bits spell the stream. */
    ghost predicate Spelled()
      reads this, w
    {
      && level <= 9 && AllCarried(packets, level, inputs) && combinedCRC == BlockCrc.Combined(inputs)
      && outPos <= |w.zbits| && output == flushed + w.zbits[..outPos]
      && blockNo >= 1
      && if trailer then
           BytesToBits(flushed + w.zbits) == StreamBits(packets, level, inputs) + Padding(|StreamBits(packets, level, inputs)|)
         else
           Begun(blockNo > 1 || phase.Output?)
    }

    /** The header and the blocks have been written. */
    ghost predicate Begun(header: bool)
      requires AllCarried(packets, level, inputs) && level <= 9
      reads this, w
    {
      w.Valid() && BytesToBits(flushed) + w.Written() == SoFar(header, packets, level, inputs)
    }

    /** Each byte consumed is in exactly one block, in the block being filled,
        or in the pending run. A block is drained without a pending run only
        after the trailer or at the end of a flush. */
    ghost predicate Placed()
      reads this, enc, enc.block, w
    {
      && enc.nblock <= enc.block.Length
      && (phase.Input? ==>
            && !trailer && w.zbits == [] && outPos == 0 && enc.Accepting() && (blockNo == 1 ==> inputs == [])
            && enc.nblock < enc.nblockMAX + 5 && consumed == Flatten(inputs) + (enc.Coded() + enc.Pending()))
      && (phase.Output? ==>
            && enc.nblock < enc.nblockMAX + 10 && consumed == Flatten(inputs) + enc.Pending()
            && (trailer || !enc.IsEmpty() || (mode.Flushing? && expected == 0)))
      && (trailer ==> phase.Output? && (mode.Finishing? || mode.Idle?) && enc.IsEmpty() && enc.Pending() == [] && expected == 0)
      && (mode.Idle? ==> trailer && outPos == |w.zbits|)
    }

    ghost predicate Core()
      reads this, enc, enc.block, enc.inUse, w
    {
      Fixed() && Spelled() && Placed()
    }

    ghost predicate Valid()
      reads this, enc, enc.block, enc.inUse, w
    {
      Core() && (phase.Input? ==> enc.nblock < enc.nblockMAX)
    }

    /** BZ2_bzCompressInit */
    constructor (blockSize100k: nat, workFactor: nat, choose: Chooser)
      requires 1 <= blockSize100k <= 9 && ValidChooser(choose)
      ensures Valid() && Awaiting() && mode == Running && consumed == [] && output == [] && level == blockSize100k
      ensures fresh(enc) && fresh(enc.block) && fresh(enc.inUse) && fresh(w)
    {
      hide StreamBits, Padding, Carries, BlocksBits, HeaderBits, Rle.Expand, Rle.After, BlockCrc.UpdateAll;
      level, this.choose := blockSize100k, choose;
      this.workFactor := if workFactor == 0 then 30 else workFactor;
      enc := new Rle.Encoder(BLOCK_UNIT * blockSize100k - Rle.SLACK);
      w := new Writer();
      mode, phase, expected, blockNo, combinedCRC, outPos := Running, Input, 0, 1, 0, 0;
      input, availOut, output, consumed, packets, inputs, flushed, trailer := [], 0, [], [], [], [], [], false;
      new;
      hide ValidChooser, Writer.Written, Writer.Valid, Rle.Encoder.Valid, Rle.Encoder.Coded, Rle.Encoder.Pending, BytesToBits;
      assert w.zbits[..0] == [];
      EmptyBytes();
      assert BytesToBits([]) + w.Written() == [];
    }

    /** The application sets next_in, avail_in, next_out and avail_out. */
    method Offer(chunk: seq<byte>, room: nat)
      requires Valid()
      modifies this`input, this`availOut
      ensures Valid() && input == chunk && availOut == room && (old(Awaiting()) ==> Awaiting())
    {
      hide ValidChooser, SoFar, StreamBits, AllCarried, Padding, BytesToBits, Flatten, BlockCrc.Combined, Writer.Valid, Writer.Written, Rle.Encoder.Valid, Rle.Encoder.Coded, Rle.Encoder.Pending, Rle.Encoder.IsEmpty, Rle.Encoder.Accepting;
      input, availOut := chunk, room;
    }

    /** prepare_new_block */
    method PrepareNewBlock()
      requires Core() && phase.Output? && !trailer && outPos == |w.zbits| && mode != Idle
      modifies this`blockNo, this`phase, this`outPos, this`flushed, enc, enc.inUse, w
      ensures Valid() && phase.Input? && enc.nblock == 0
      ensures enc.Pending() == old(enc.Pending()) && enc.IsEmpty() == old(enc.IsEmpty())
    {
      hide ValidChooser, SoFar, StreamBits, AllCarried, Padding, BytesToBits, Flatten, BlockCrc.Combined, Writer.Valid, Writer.Written, Rle.Encoder.Valid, Rle.Encoder.Coded, Rle.Encoder.Pending;
      enc.PrepareNewBlock();
      assert w.zbits[..outPos] == w.zbits;
      BytesConcat(flushed, w.zbits);
      ghost var sent := w.zbits;
      w.Restart();
      Regroup(BytesToBits(flushed), BytesToBits(sent), w.Written());
      flushed := output;
      outPos := 0;
      blockNo := blockNo + 1;
      phase := Input;
      assert output + [] == output;
      assert [] + enc.Pending() == enc.Pending();
    }

    // ---------- Input and output ----------

    /** Takes one byte. */
    method TakeByte()
      requires Core() && phase.Input? && enc.nblock < enc.nblockMAX && input != []
      requires mode != Running ==> 0 < expected == |input|
      modifies this`input, this`consumed, this`expected, enc, enc.block, enc.inUse
      ensures Core() && input == old(input)[1..] && consumed == old(consumed) + [old(input)[0]] && !enc.IsEmpty()
      ensures mode != Running ==> expected == |input|
    {
      hide ValidChooser, SoFar, StreamBits, AllCarried, Padding, BytesToBits, Flatten, BlockCrc.Combined, Writer.Valid, Writer.Written, Rle.Encoder.Valid, Rle.Encoder.Coded, Rle.Encoder.Pending;
      var c := input[0];
      Regroup(Flatten(inputs), enc.Coded() + enc.Pending(), [c]);
      enc.AddChar(c);
      consumed := consumed + [c];
      input := input[1..];
      if mode != Running { expected := expected - 1; }
    }

    /** copy_input_until_stop */
    method CopyInput() returns (progress: bool)
      requires Valid() && phase.Input? && (mode != Running ==> expected == |input|)
      modifies this`input, this`consumed, this`expected, enc, enc.block, enc.inUse
      ensures Core() && Took(old(input), input, old(consumed), consumed)
      ensures enc.nblock >= enc.nblockMAX || input == []
      ensures progress == (|input| < |old(input)|) && (mode != Running ==> expected == |input|)
      ensures if progress then !enc.IsEmpty() else enc.nblock < enc.nblockMAX
    {
      hide Fixed, Spelled, Placed, Took;
      progress := false;
      TookNone(input, consumed);
      while enc.nblock < enc.nblockMAX && input != [] && !(mode != Running && expected == 0)
        invariant Core() && Took(old(input), input, old(consumed), consumed)
        invariant progress == (|input| < |old(input)|) && (mode != Running ==> expected == |input|)
        invariant if progress then !enc.IsEmpty() else enc.nblock < enc.nblockMAX
        decreases |input|
      {
        progress := true;
        TookOne(old(input), input, old(consumed), consumed);
        TakeByte();
      }
    }

    /** copy_output_until_stop */
    method CopyOutput() returns (progress: bool)
      requires Core() && phase.Output?
      modifies this`outPos, this`output, this`availOut
      ensures Core() && old(output) <= output && |output| - |old(output)| == old(availOut) - availOut
      ensures progress == (|output| > |old(output)|) && (availOut == 0 || outPos == |w.zbits|)
      ensures outPos - old(outPos) == |output| - |old(output)|
    {
      hide ValidChooser, SoFar, StreamBits, AllCarried, Padding, BytesToBits, Flatten, BlockCrc.Combined, Writer.Valid, Writer.Written, Rle.Encoder.Valid, Rle.Encoder.Coded, Rle.Encoder.Pending, Rle.Encoder.IsEmpty, Rle.Encoder.Accepting;
      progress := false;
      while availOut != 0 && outPos < |w.zbits|
        invariant Core() && old(output) <= output && |output| - |old(output)| == old(availOut) - availOut
        invariant progress == (|output| > |old(output)|) && outPos - old(outPos) == |output| - |old(output)|
        decreases availOut
      {
        progress := true;
        assert w.zbits[..outPos + 1] == w.zbits[..outPos] + [w.zbits[outPos]];
        output := output + [w.zbits[outPos]];
        outPos := outPos + 1;
        availOut := availOut - 1;
      }
    }

    // ---------- Writing blocks ----------

    /** BZ2_compressBlock, at the start of the stream. */
    method WriteHeader()
      requires 1 <= level <= 9 && AllCarried(packets, level, inputs) && Begun(blockNo > 1)
      requires blockNo >= 1 && (blockNo == 1 ==> inputs == [])
      modifies w
      ensures Begun(true)
    {
      hide Writer.Valid, Writer.Written, BytesToBits, AllCarried, BlocksBits;
      if blockNo == 1 {
        NothingYet(packets, level, inputs);
        PutBytes(w, STREAM_MAGIC + [0x30 + level]);
      }
    }

    /** BZ2_compressBlock, the block. */
    method WriteBlock()
      requires Fixed() && enc.nblock > 0 && AllCarried(packets, level, inputs) && Begun(true)
      requires combinedCRC == BlockCrc.Combined(inputs)
      modifies w, this`combinedCRC, this`packets, this`inputs
      ensures AllCarried(packets, level, inputs) && Begun(true) && combinedCRC == BlockCrc.Combined(inputs)
      ensures inputs == old(inputs) + [enc.Coded()] && More(old(packets), packets, enc.nblock)
    {
      hide Writer.Valid, Writer.Written, BytesToBits, AllCarried, BlocksBits, ValidChooser, Transmits, Rle.Expand, Rle.After, BlockCrc.Update, BlockCrc.Combine, BlockCrc.Word, BlockBits;
      var crc := BlockCrc.Finalise(enc.blockCRC);
      ghost var data := enc.Coded();
      combinedCRC := BlockCrc.Combine(combinedCRC, crc);
      ghost var p := SendBlock(w, enc.block, enc.nblock, enc.inUse, crc, workFactor, choose);
      assert Carries(p, level, data);
      CarriedShape(p, level, data);
      BlocksSnoc(packets, level, inputs, p, data, 0);
      CombinedSnoc(inputs, data);
      SoFarSnoc(packets, level, inputs, p, data, BytesToBits(flushed), old(w.Written()));
      packets, inputs := packets + [p], inputs + [data];
    }

    /** BZ2_compressBlock, the end of the stream. */
    method WriteTrailer()
      requires 1 <= level <= 9 && AllCarried(packets, level, inputs) && Begun(true) && combinedCRC == BlockCrc.Combined(inputs)
      modifies w
      ensures w.zbits != []
      ensures BytesToBits(flushed + w.zbits) == StreamBits(packets, level, inputs) + Padding(|StreamBits(packets, level, inputs)|)
    {
      hide Writer.Valid, Writer.Written, BytesToBits, ToBits, AllCarried, BlockCrc.Combined, BlockCrc.Word, SoFar, StreamBits, Padding;
      ghost var start := w.Written();
      PutBytes(w, [0x17] + END_MAGIC);
      PutUInt32(w, BlockCrc.Word(combinedCRC));
      Regroup(start, BytesToBits([0x17] + END_MAGIC), ToBits(BlockCrc.Word(combinedCRC), 32));
      ghost var all := w.Written();
      w.Finish();
      BytesConcat(flushed, w.zbits);
      Ending(packets, level, inputs, flushed, start, all);
    }

    /** The state in which a block is compressed. */
    ghost predicate Filled()
      reads this, enc, enc.block, enc.inUse, w
    {
      && Fixed() && Spelled() && phase.Input? && mode != Idle
      && !trailer && w.zbits == [] && outPos == 0 && (blockNo == 1 ==> inputs == [])
      && enc.nblock < enc.nblockMAX + 10 && consumed == Flatten(inputs) + (enc.Coded() + enc.Pending())
    }

    /** BZ2_compressBlock and the change to the output state. */
    method CompressBlock(last: bool)
      requires Filled()
      requires if last then mode.Finishing? && expected == 0 && enc.IsEmpty() && enc.Pending() == []
               else !enc.IsEmpty() || (mode.Flushing? && expected == 0)
      modifies this`phase, this`combinedCRC, this`packets, this`inputs, this`trailer, w
      ensures Core() && phase.Output? && trailer == last && outPos == 0 && (last ==> w.zbits != [])
      ensures if enc.nblock > 0 then More(old(packets), packets, enc.nblock) else packets == old(packets)
    {
      hide ValidChooser, SoFar, StreamBits, AllCarried, Padding, BytesToBits, Flatten, BlockCrc.Combined, Writer.Valid, Writer.Written, Rle.Encoder.Valid, Rle.Encoder.Coded, Rle.Encoder.Pending, Rle.Encoder.IsEmpty, Rle.Encoder.Accepting;
      ghost var before, data, run := inputs, enc.Coded(), enc.Pending();
      WriteHeader();
      if enc.nblock > 0 {
        WriteBlock();
        FlattenSnoc(before, data);
        Regroup(Flatten(before), data, run);
      } else {
        NothingCoded(enc);
        assert [] + run == run;
      }
      if last { WriteTrailer(); }
      trailer := last;
      phase := Output;
      assert w.zbits[..0] == [];
      assert flushed + [] == flushed;
    }

    // ---------- handle_compress ----------

    /** flush_RL and BZ2_compressBlock at the end of a flush or finish. */
    method FlushBlock()
      requires Core() && phase.Input? && (mode.Flushing? || mode.Finishing?) && expected == 0
      modifies this`phase, this`combinedCRC, this`packets, this`inputs, this`trailer, enc, enc.block, enc.inUse, w
      ensures Core() && phase.Output? && trailer == mode.Finishing? && enc.IsEmpty()
      ensures outPos == 0 && (trailer ==> w.zbits != [])
      ensures packets == old(packets) || exists n: nat :: More(old(packets), packets, n)
    {
      hide ValidChooser, SoFar, StreamBits, AllCarried, Padding, BytesToBits, Flatten, BlockCrc.Combined, Writer.Valid, Writer.Written, Rle.Encoder.Valid, Rle.Encoder.Coded, Rle.Encoder.Pending, Rle.Encoder.Accepting, Rle.Encoder.IsEmpty;
      ghost var coded, run := enc.Coded(), enc.Pending();
      enc.Flush();
      assert coded + run + [] == coded + run;
      CompressBlock(mode == Finishing);
    }

    /** The output half of an iteration. */
    method Drain() returns (progress: bool, stop: bool)
      requires Valid() && phase.Output? && mode != Idle
      modifies this`blockNo, this`phase, this`outPos, this`output, this`availOut, this`flushed, enc, enc.inUse, w
      ensures Valid() && old(output) <= output && |output| - |old(output)| == old(availOut) - availOut
      ensures progress == (|output| > |old(output)|)
      ensures !stop ==> phase.Input? && !(mode != Running && expected == 0 && old(enc.IsEmpty()))
      ensures stop ==> Stopped()
      ensures stop && mode.Finishing? ==> |w.zbits| == |old(w.zbits)| && outPos - old(outPos) == |output| - |old(output)|
    {
      hide ValidChooser, SoFar, StreamBits, AllCarried, Padding, BytesToBits, Flatten, BlockCrc.Combined, Writer.Valid, Writer.Written, Rle.Encoder.Valid, Rle.Encoder.Coded, Rle.Encoder.Pending, Rle.Encoder.Accepting, Rle.Encoder.IsEmpty;
      stop := false;
      progress := CopyOutput();
      if outPos < |w.zbits| { return progress, true; }
      if mode == Finishing && expected == 0 && enc.IsEmpty() { return progress, true; }
      PrepareNewBlock();
      if mode == Flushing && expected == 0 && enc.IsEmpty() { stop := true; }
    }

    /** The input half of an iteration. */
    method Fill() returns (progress: bool, stop: bool)
      requires Valid() && phase.Input? && mode != Idle && (mode != Running ==> expected == |input|)
      modifies this`phase, this`input, this`consumed, this`expected, this`combinedCRC, this`packets, this`inputs, this`trailer
      modifies enc, enc.block, enc.inUse, w
      ensures Valid() && Took(old(input), input, old(consumed), consumed) && progress == (|input| < |old(input)|)
      ensures mode != Running ==> expected == |input|
      ensures !stop ==> phase.Output? && (progress || (mode != Running && expected == 0 && enc.IsEmpty()))
      ensures stop ==> Stopped()
      ensures mode.Finishing? ==> !stop && !old(trailer) && (progress || trailer) && outPos == 0 && (trailer ==> w.zbits != [])
      ensures MoreBlocks(old(packets), packets, enc.nblockMAX, mode != Running && expected == 0)
      ensures mode != Running && expected == 0 ==> enc.IsEmpty()
    {
      hide ValidChooser, SoFar, StreamBits, AllCarried, Padding, BytesToBits, Flatten, BlockCrc.Combined, Writer.Valid, Writer.Written, Rle.Encoder.Valid, Rle.Encoder.Coded, Rle.Encoder.Pending, Rle.Encoder.Accepting, Took, Rle.Encoder.IsEmpty;
      stop := false;
      progress := CopyInput();
      if mode != Running && expected == 0 {
        FlushBlock();
      } else if enc.nblock >= enc.nblockMAX {
        CompressBlock(false);
      } else if input == [] {
        stop := true;
      }
    }

    /** Where handle_compress leaves off: for lack of output space, at the end
        of what was asked, or for lack of input. */
    ghost predicate Stopped()
      reads this, enc, w
    {
      || (phase.Output? && availOut == 0 && outPos < |w.zbits|)
      || (mode.Finishing? && trailer && expected == 0 && enc.IsEmpty() && outPos >= |w.zbits|)
      || (mode.Flushing? && phase.Input? && expected == 0 && enc.IsEmpty() && outPos >= |w.zbits|)
      || (mode.Running? && phase.Input? && input == [])
    }

    /** Finishing can go on: the expected input is there and the trailer not all
        delivered. */
    ghost predicate CanFinish()
      reads this, w
    {
      mode.Running? || (mode.Finishing? && expected == |input| && !(trailer && outPos >= |w.zbits|))
    }

    /** The next iteration, if it gets past draining, ends the call. */
    predicate LastRound()
      reads this, enc
    {
      phase.Output? && mode != Running && expected == 0 && enc.IsEmpty()
    }

    /** handle_compress: it terminates, takes a prefix of the input, appends to
        the output no more than there is room for, and reports whether it did
        either. */
    method HandleCompress() returns (progress: bool)
      requires Valid() && mode != Idle && (mode != Running ==> expected == |input|)
      modifies this`blockNo, this`phase, this`outPos, this`output, this`availOut, this`flushed
      modifies this`input, this`consumed, this`expected, this`combinedCRC, this`packets, this`inputs, this`trailer
      modifies enc, enc.block, enc.inUse, w
      ensures Valid() && Took(old(input), input, old(consumed), consumed)
      ensures old(output) <= output && |output| - |old(output)| == old(availOut) - availOut
      ensures progress == (|input| < |old(input)| || |output| > |old(output)|)
      ensures Stopped() && (mode != Running ==> expected == |input|)
      ensures mode.Finishing? && old(availOut) > 0 && !(old(trailer) && old(outPos) >= |old(w.zbits)|) ==>
                progress && (outPos < |w.zbits| ==> Closer(input, trailer, |w.zbits| - outPos, old(input), old(trailer), |old(w.zbits)| - old(outPos)))
      ensures mode.Finishing? && trailer && !progress ==> outPos < |w.zbits| || (old(trailer) && old(outPos) >= |old(w.zbits)|)
      ensures MoreBlocks(old(packets), packets, enc.nblockMAX, mode != Running && expected == 0)
    {
      hide Core, Took;
      progress := false;
      ghost var moved := false;
      TookNone(input, consumed);
      while true
        invariant Valid() && mode != Idle && (mode != Running ==> expected == |input|)
        invariant Took(old(input), input, old(consumed), consumed) && |input| <= |old(input)|
        invariant old(output) <= output && |output| - |old(output)| == old(availOut) - availOut
        invariant progress == (|input| < |old(input)| || |output| > |old(output)|)
        invariant !moved ==> input == old(input) && trailer == old(trailer) && outPos == old(outPos) && w.zbits == old(w.zbits) && output == old(output)
        invariant moved && mode.Finishing? ==> |input| < |old(input)| || (trailer && !old(trailer))
        invariant moved && mode.Finishing? && trailer ==> outPos < |w.zbits|
        invariant MoreBlocks(old(packets), packets, enc.nblockMAX, LastRound())
        decreases |input|, !LastRound()
      {
        var p, stop;
        if phase == Output {
          p, stop := Drain();
          progress := progress || p;
          if stop { break; }
        }
        ghost var before, had := input, consumed;
        p, stop := Fill();
        moved := true;
        TookTrans(old(input), before, input, old(consumed), had, consumed);
        TookLess(before, input, had, consumed);
        assert |input| <= |before| <= |old(input)|;
        progress := progress || p;
        if stop { break; }
      }
    }

    // ---------- BZ2_bzCompress ----------

    /** Changes of mode that a new request makes. */
    method Begin(action: Action)
      requires Valid() && mode == Running && action != Run
      modifies this`mode, this`expected
      ensures Valid() && mode == (if action == Flush then Flushing else Finishing) && expected == |input| && !trailer
    {
      hide ValidChooser, SoFar, StreamBits, AllCarried, Padding, BytesToBits, Flatten, BlockCrc.Combined, Writer.Valid, Writer.Written, Rle.Encoder.Valid, Rle.Encoder.Coded, Rle.Encoder.Pending, Rle.Encoder.Accepting, Rle.Encoder.IsEmpty;
      expected := |input|;
      mode := if action == Flush then Flushing else Finishing;
    }

    /** The end of a flush or finish, once everything is drained. */
    method End()
      requires Valid() && Stopped() && (mode.Flushing? || mode.Finishing?)
      requires expected == 0 && enc.IsEmpty() && outPos >= |w.zbits|
      modifies this`mode
      ensures Valid() && mode == (if old(mode).Flushing? then Running else Idle)
      ensures (mode == Idle ==> trailer) && outPos == |w.zbits|
    {
      hide ValidChooser, SoFar, StreamBits, AllCarried, Padding, BytesToBits, Flatten, BlockCrc.Combined, Writer.Valid, Writer.Written, Rle.Encoder.Valid, Rle.Encoder.Coded, Rle.Encoder.Pending, Rle.Encoder.Accepting, Rle.Encoder.IsEmpty;
      mode := if mode == Flushing then Running else Idle;
    }

    /** A call that does not fit the state: the stream has ended, another request
        is under way, or the input is not what is left of it. */
    predicate Refuses(action: Action)
      reads this
    {
      || mode == Idle
      || (mode == Flushing && (action != Flush || expected != |input|))
      || (mode == Finishing && (action != Finish || expected != |input|))
    }

    /** Nothing is left of a flush or finish. */
    predicate Drained()
      reads this, enc, w
    {
      expected == 0 && enc.IsEmpty() && outPos >= |w.zbits|
    }

    /** The trailer, once written, has not all been delivered before the stream
        has ended. */
    ghost predicate Awaiting()
      reads this, w
    {
      mode.Finishing? && trailer ==> outPos < |w.zbits|
    }

    /** BZ2_bzCompress. Every call, in every reachable state, takes a prefix of
        the input and appends to the output, as far as input and room go; what it
        returns follows from the state before and after. The stream ends, once,
        only when the trailer has been drained, and then decoding the output gives
        back everything consumed. */
    method Compress(action: Action) returns (r: Code)
      requires Valid() && Awaiting()
      modifies this, enc, enc.block, enc.inUse, w
      ensures Valid() && Awaiting() && Took(old(input), input, old(consumed), consumed)
      ensures old(output) <= output && |output| - |old(output)| == old(availOut) - availOut
      ensures var moved := |input| < |old(input)| || |output| > |old(output)|;
              if old(Refuses(action)) then
                r == SequenceError && !moved && input == old(input) && output == old(output) && mode == old(mode)
              else match action
              case Run => (availOut == 0 || input == []) && mode == Running && r == if moved then RunOk else ParamError
              case Flush =>
                if Drained() then r == RunOk && mode == Running && input == [] && outPos == |w.zbits|
                else r == FlushOk && mode == Flushing && availOut == 0
              case Finish =>
                if !moved then r == SequenceError && mode == Finishing && old(availOut) == 0
                else if Drained() then r == StreamEnd && mode == Idle && input == []
                else r == FinishOk && mode == Finishing && availOut == 0
      ensures MoreBlocks(old(packets), packets, enc.nblockMAX, action != Run && expected == 0)
      ensures r == StreamEnd <==> old(mode) != Idle && mode == Idle
      ensures r == StreamEnd ==> Complete()
      ensures action == Finish && old(CanFinish()) && old(availOut) > 0 ==>
                r == StreamEnd ||
                (r == FinishOk && CanFinish() && mode.Finishing? &&
                 Closer(input, trailer, |w.zbits| - outPos, old(input), old(trailer), |old(w.zbits)| - old(outPos)))
    {
      hide Core, Took, BitSeq.GetBits, DecodeStream;
      TookNone(input, consumed);
      if mode == Idle { return SequenceError; }
      if mode == Running && action != Run { Begin(action); }
      if mode == Running {
        var progress := HandleCompress();
        TookLess(old(input), input, old(consumed), consumed);
        return if progress then RunOk else ParamError;
      }
      if action != (if mode == Flushing then Flush else Finish) || expected != |input| { return SequenceError; }
      var progress := HandleCompress();
      if mode == Finishing && !progress { return SequenceError; }
      if expected > 0 || !enc.IsEmpty() || outPos < |w.zbits| {
        return if mode == Flushing then FlushOk else FinishOk;
      }
      End();
      if mode == Idle { AllWritten(); }
      return if mode == Idle then StreamEnd else RunOk;
    }

    /** The output decodes, without error, to exactly the bytes consumed. */
    ghost predicate Complete()
      reads this
    {
      var d := DecodeStream(BytesToBits(output));
      d.Got? && d.value == consumed
    }

    lemma NoneOverdrawn()
      requires Valid()
      ensures outPos <= |w.zbits|
    {
    }

    lemma AllWritten()
      requires Valid() && mode == Idle
      ensures Complete()
    {
      hide ValidChooser, SoFar, StreamBits, AllCarried, Padding, BytesToBits, Flatten, DecodeStream, Writer.Valid, Rle.Encoder.Valid;
      assert w.zbits[..outPos] == w.zbits;
      StreamRoundTrip(packets, level, inputs, Padding(|StreamBits(packets, level, inputs)|));
      assert Flatten(inputs) + [] == Flatten(inputs);
    }
  }

  /** One more block, of n bytes. */
  ghost predicate More(before: seq<Packet>, after: seq<Packet>, n: nat) {
    |after| == |before| + 1 && after[..|before|] == before && |after[|before|].code| == n
  }

  /** More blocks, all of them full; the last one may be short if short ones may
      be written. */
  ghost predicate MoreBlocks(before: seq<Packet>, after: seq<Packet>, full: nat, short: bool) {
    && before <= after
    && forall k :: |before| <= k < |after| ==> |after[k].code| >= full || (short && k == |after| - 1)
  }

  lemma TookLess(x: seq<byte>, y: seq<byte>, a: seq<byte>, b: seq<byte>)
    requires Took(x, y, a, b)
    ensures |y| <= |x| && (|y| == |x| ==> y == x)
  {
    assert x[0..] == x;
  }

  lemma NothingCoded(enc: Rle.Encoder)
    requires enc.nblock == 0
    ensures enc.Coded() == []
  {
    assert enc.block[..0] == [];
  }

  lemma Ending(packets: seq<Packet>, level: nat, inputs: seq<seq<byte>>, flushed: seq<byte>, written: seq<bit>, all: seq<bit>)
    requires AllCarried(packets, level, inputs) && level <= 9
    requires BytesToBits(flushed) + written == SoFar(true, packets, level, inputs) && all == written + TrailerBits(inputs)
    ensures BytesToBits(flushed) + (all + Padding(|all|)) == StreamBits(packets, level, inputs) + Padding(|StreamBits(packets, level, inputs)|)
  {
    hide BytesToBits, AllCarried, BlocksBits, TrailerBits, Padding;
    Regroup(HeaderBits(level), BlocksBits(packets, level, inputs, 0), TrailerBits(inputs));
    Regroup(BytesToBits(flushed), written, TrailerBits(inputs));
    Regroup(BytesToBits(flushed), all, Padding(|all|));
    SamePadding(|flushed|, |all|);
  }

  lemma SamePadding(k: nat, n: nat)
    ensures Padding(8 * k + n) == Padding(n)
  {
  }

  lemma NothingYet(packets: seq<Packet>, level: nat, inputs: seq<seq<byte>>)
    requires AllCarried(packets, level, inputs) && level <= 9 && inputs == []
    ensures SoFar(true, packets, level, inputs) == HeaderBits(level)
  {
    assert HeaderBits(level) + [] == HeaderBits(level);
  }

  lemma SoFarSnoc(packets: seq<Packet>, level: nat, inputs: seq<seq<byte>>, p: Packet, data: seq<byte>, flushed: seq<bit>, written: seq<bit>)
    requires AllCarried(packets, level, inputs) && level <= 9 && Carries(p, level, data) && AllCarried(packets + [p], level, inputs + [data])
    requires flushed + written == SoFar(true, packets, level, inputs)
    ensures flushed + (written + PacketBits(p, data)) == SoFar(true, packets + [p], level, inputs + [data])
  {
    hide PacketBits, BlocksBits, Carries, AllCarried;
    CarriedShape(p, level, data);
    BlocksSnoc(packets, level, inputs, p, data, 0);
    Regroup(flushed, written, PacketBits(p, data));
    Regroup(HeaderBits(level), BlocksBits(packets, level, inputs, 0), PacketBits(p, data));
  }

  lemma TookNone(input: seq<byte>, consumed: seq<byte>)
    ensures Took(input, input, consumed, consumed)
  {
    assert input[..0] == [] && consumed + [] == consumed && input[0..] == input;
  }

  lemma TookOne(x: seq<byte>, y: seq<byte>, a: seq<byte>, b: seq<byte>)
    requires Took(x, y, a, b) && y != []
    ensures Took(x, y[1..], a, b + [y[0]])
  {
    assert Took(y, y[1..], b, b + [y[0]]);
    TookTrans(x, y, y[1..], a, b, b + [y[0]]);
  }
}
