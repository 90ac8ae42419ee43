/** unRLE_obuf_to_output_SMALL of bzlib.c, for blocks that are not randomised. */
module SmallOutput {
  import opened Permutation
  import opened Rotation
  import opened InverseBwt
  import opened Mtf
  import opened Rle
  import opened UnRle
  import SmallInverse
  import BlockCrc

  class Output {
    const walk: SmallInverse.Walk
    const nblock: nat            // save_nblock
    var len: nat                 // state_out_len
    var ch: byte                 // state_out_ch
    var used: nat                // nblock_used
    var k0: byte
    var crc: bv32                // calculatedBlockCRC
    var availOut: nat
    var output: seq<byte>        // everything delivered through next_out
    ghost var done: seq<byte>    // what this block has put out

    ghost predicate Owing(owed: nat)
      reads this, walk, walk.ll16, walk.ll4, walk.cftab
    {
      && walk.Valid() && nblock == |walk.col| && walk.fetched == used
      && Midway(walk.col, walk.orig, done, ch, owed, used, k0)
      && crc == BlockCrc.UpdateAll(BlockCrc.INITIAL, done)
    }

    ghost predicate Valid()
      reads this, walk, walk.ll16, walk.ll4, walk.cftab
    {
      Owing(len)
    }

    /** The start of a block, as BZ2_decompress leaves it. */
    constructor (walk: SmallInverse.Walk, nblock: nat)
      requires walk.Valid() && walk.fetched == 0 && nblock == |walk.col|
      modifies walk
      ensures Valid() && this.walk == walk && done == [] && output == [] && availOut == 0
    {
      hide SmallInverse.ReversedOn, Less, InverseBwt.Next, Row, Midway, WalkByte;
      this.walk, this.nblock := walk, nblock;
      len, ch, used, crc, availOut, output, done := 0, 0, 1, BlockCrc.INITIAL, 0, [], [];
      var bad, c := walk.Get();
      k0 := c;
      StartMidway(walk.col, walk.orig, 0, c);
    }

    /** BZ_GET_SMALL and nblock_used++. */
    method Fetch() returns (corrupt: bool, c: byte)
      requires walk.Valid() && walk.fetched == used
      modifies walk, this`used
      ensures walk.Valid() && walk.fetched == used == old(used) + 1 && !corrupt
      ensures c == WalkByte(walk.col, walk.orig, old(used))
    {
      hide SmallInverse.Walk.Valid, WalkByte;
      corrupt, c := walk.Get();
      used := used + 1;
    }

    /** *next_out = state_out_ch and its CRC. */
    method Emit(ghost owed: nat)
      requires Owing(owed) && owed > 0 && availOut > 0
      modifies this`output, this`availOut, this`crc, this`done
      ensures Owing(owed - 1) && availOut == old(availOut) - 1
      ensures output == old(output) + [ch] && done == old(done) + [ch]
    {
      hide SmallInverse.Walk.Valid, Midway, BlockCrc.UpdateAll, BlockCrc.Update;
      EmitStep(walk.col, walk.orig, done, ch, owed, used, k0);
      BlockCrc.UpdateOne(BlockCrc.INITIAL, done, ch);
      output := output + [ch];
      crc := BlockCrc.Update(crc, ch);
      availOut := availOut - 1;
      done := done + [ch];
    }

    /** Starts the next run: len is its length. */
    method StartRun() returns (corrupt: bool)
      requires Owing(0) && used <= nblock
      modifies walk, this`used, this`ch, this`k0, this`len
      ensures !corrupt && Owing(len) && used > old(used) && len > 0
    {
      hide SmallInverse.Walk.Valid, Midway, WalkByte, BlockCrc.UpdateAll;
      ghost var col, orig, c, u := walk.col, walk.orig, ch, used;
      FirstByte(col, orig, done, c, u, k0);
      len, ch := 1, k0;
      var k1;
      corrupt, k1 := Fetch();
      if used == nblock + 1 || k1 != k0 {
        FetchShort(col, orig, done, c, u, k0, 1, k1);
        if used != nblock + 1 { k0 := k1; } else { Forget(col, orig, done, ch, 1, used, k1, k0); }
        return;
      }
      len := 2;
      corrupt, k1 := Fetch();
      if used == nblock + 1 || k1 != k0 {
        FetchShort(col, orig, done, c, u, k0, 2, k1);
        if used != nblock + 1 { k0 := k1; } else { Forget(col, orig, done, ch, 2, used, k1, k0); }
        return;
      }
      len := 3;
      corrupt, k1 := Fetch();
      if used == nblock + 1 || k1 != k0 {
        FetchShort(col, orig, done, c, u, k0, 3, k1);
        if used != nblock + 1 { k0 := k1; } else { Forget(col, orig, done, ch, 3, used, k1, k0); }
        return;
      }
      corrupt, k1 := Fetch();
      len := k1 as int + 4;
      var next;
      corrupt, next := Fetch();
      FetchLong(col, orig, done, c, u, k0, k1, next);
      k0 := next;
    }

    ghost function Total(): seq<byte>
      requires walk.orig < |walk.col|
      reads walk
    {
      UnRle.Total(walk.col, walk.orig)
    }

    ghost predicate IsWhole()
      requires walk.orig < |walk.col|
      reads walk
    {
      Whole(CodeOf(walk.col, walk.orig))
    }

    /** Finishes the existing run; full if there is no room left, even when
        nothing of the run is. */
    method FinishRun() returns (full: bool)
      requires Owing(len)
      modifies this`output, this`availOut, this`crc, this`done, this`len
      ensures Owing(len) && if full then availOut == 0 else availOut > 0 && len == 0
      ensures Delivered(old(output), old(done), old(availOut), output, done, availOut)
    {
      hide SmallInverse.Walk.Valid, Midway, BlockCrc.UpdateAll, Delivered;
      DeliveredNone(output, done, availOut);
      while true
        invariant Owing(len)
        invariant Delivered(old(output), old(done), old(availOut), output, done, availOut)
        decreases len
      {
        if availOut == 0 { return true; }
        if len == 0 { return false; }
        DeliveredOne(old(output), old(done), old(availOut), output, done, availOut, ch);
        Emit(len);
        len := len - 1;
      }
    }

    /** unRLE_obuf_to_output_SMALL: puts out the same bytes as the fast loop.
        Corruption is reported only if there is room to spare after them. */
    method UnRleSmall() returns (corrupt: bool)
      requires Valid()
      modifies this, walk
      ensures walk.orig < |walk.col| && Delivered(old(output), old(done), old(availOut), output, done, availOut)
      ensures corrupt ==> !IsWhole() && done == Total() && availOut > 0
      ensures !corrupt ==> Valid() && (done == Total() && IsWhole() ==> len == 0 && used == nblock + 1)
      ensures !corrupt && (done != Total() || !IsWhole()) ==> availOut == 0
    {
      hide SmallInverse.Walk.Valid, Midway, BlockCrc.UpdateAll, Delivered;
      ghost var col, orig := walk.col, walk.orig;
      DeliveredNone(output, done, availOut);
      while true
        invariant Valid() && Delivered(old(output), old(done), old(availOut), output, done, availOut)
        decreases nblock + 2 - used
      {
        ghost var o, d, a := output, done, availOut;
        var full := FinishRun();
        DeliveredBoth(old(output), old(done), old(availOut), o, d, a, output, done, availOut);
        MidwayEnds(col, orig, done, ch, len, used, k0);
        if full { return false; }
        if used == nblock + 1 { return false; }
        if used > nblock + 1 { return true; }
        var bad := StartRun();
        MidwayEnds(col, orig, done, ch, len, used, k0);
      }
    }
  }
}
