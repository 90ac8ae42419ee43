/**
 The codec from end to end: whatever calls an application makes to compress, and
 whichever way it decompresses, in whatever pieces, it gets its bytes back.
 */
module Codec {
  import opened Rotation
  import opened BitStream
  import opened BitSeq
  import opened Stream
  import opened Compressor
  import opened BlockEncoder
  import opened Coroutine
  import opened Decompressor

  /** A call of the application: how much of its remaining input it offers, how
      much room it gives, and what it asks for. */
  datatype Call = Call(offer: nat, room: nat, action: Action)

  /** Runs any calls in order, up to the end of the stream. The first pos bytes
      of the data have been consumed; when the stream has ended, its output
      decodes to exactly those. */
  method Session(level: nat, workFactor: nat, choose: Chooser, data: seq<byte>, calls: seq<Call>) returns (ended: bool, pos: nat, output: seq<byte>)
    requires 1 <= level <= 9 && workFactor <= 250 && ValidChooser(choose)
    ensures pos <= |data|
    ensures ended ==> DecodeStream(BytesToBits(output)).Got? && DecodeStream(BytesToBits(output)).value == data[..pos]
  {
    hide ValidChooser, DecodeStream, BytesToBits, EState.Core, Took, MoreBlocks, EState.Drained, EState.Refuses;
    var c := new EState(level, workFactor, choose);
    ended, pos := false, 0;
    for i := 0 to |calls|
      invariant c.Valid() && c.Awaiting() && fresh(c) && fresh(c.enc) && fresh(c.enc.block) && fresh(c.enc.inUse) && fresh(c.w)
      invariant pos <= |data| && c.consumed == data[..pos]
      invariant ended ==> c.Complete()
    {
      if ended { break; }
      var end := if pos + calls[i].offer <= |data| then pos + calls[i].offer else |data|;
      c.Offer(data[pos..end], calls[i].room);
      ghost var before := c.consumed;
      var r := c.Compress(calls[i].action);
      TookFrom(data, pos, end, c.input, before, c.consumed);
      pos := end - |c.input|;
      ended := r == StreamEnd;
    }
    output := c.output;
  }

  lemma TookFrom(data: seq<byte>, pos: nat, end: nat, after: seq<byte>, consumed: seq<byte>, consumed': seq<byte>)
    requires pos <= end <= |data| && consumed == data[..pos] && Took(data[pos..end], after, consumed, consumed')
    ensures |after| <= end - pos && consumed' == data[..end - |after|] && after == data[end - |after|..end]
  {
  }

  /** A way of cutting bytes into chunks, empty ones allowed. */
  type Cut = seq<byte> -> seq<seq<byte>>

  ghost predicate Lossless(cut: Cut) { forall bytes :: Concat(cut(bytes)) == bytes }

  /** Compress, then decompress the output in chunks. */
  method RoundTrip(level: nat, workFactor: nat, choose: Chooser, data: seq<byte>, calls: seq<Call>, cut: Cut, small: bool, rooms: Rooms)
    returns (ended: bool, pos: nat, back: Outcome<seq<byte>>)
    requires 1 <= level <= 9 && workFactor <= 250 && ValidChooser(choose) && Lossless(cut) && Positive(rooms)
    ensures pos <= |data|
    ensures ended ==> back == Have(data[..pos])
  {
    hide ValidChooser, DecodeStream, BytesToBits, Positive;
    var output;
    ended, pos, output := Session(level, workFactor, choose, data, calls);
    back := Decompress(cut(output), small, rooms);
  }

  /** What is left of the input is the end of the data. */
  ghost predicate Left(data: seq<byte>, input: seq<byte>, consumed: seq<byte>) {
    |input| <= |data| && input == data[|data| - |input|..] && consumed == data[..|data| - |input|]
  }

  /** One FINISH call with some room: the stream ends, or comes closer to its end. */
  method FinishOnce(c: EState, data: seq<byte>, room: nat) returns (ended: bool)
    requires c.Valid() && c.Awaiting() && c.CanFinish() && Left(data, c.input, c.consumed) && room >= 1
    modifies c, c.enc, c.enc.block, c.enc.inUse, c.w
    ensures c.Valid() && c.Awaiting() && Left(data, c.input, c.consumed)
    ensures ended ==> c.Complete() && c.consumed == data
    ensures !ended ==> c.CanFinish() && Closer(c.input, c.trailer, |c.w.zbits| - c.outPos, old(c.input), old(c.trailer), old(|c.w.zbits| - c.outPos))
  {
    hide DecodeStream, BytesToBits, EState.Core, Took, MoreBlocks, EState.Drained, EState.Refuses;
    ghost var pos, before := |data| - |c.input|, c.consumed;
    assert data[pos..|data|] == data[pos..];
    c.Offer(c.input, room);
    var r := c.Compress(Finish);
    TookFrom(data, pos, |data|, c.input, before, c.consumed);
    assert data[|data| - |c.input|..|data|] == data[|data| - |c.input|..];
    ended := r == StreamEnd;
    if ended { assert data[..|data|] == data; }
  }

  /** Compresses all the data with FINISH calls, for any output buffers that are
      not empty. It always ends. */
  method CompressAll(level: nat, workFactor: nat, choose: Chooser, data: seq<byte>, rooms: Rooms) returns (output: seq<byte>)
    requires 1 <= level <= 9 && workFactor <= 250 && ValidChooser(choose) && Positive(rooms)
    ensures DecodeStream(BytesToBits(output)).Got? && DecodeStream(BytesToBits(output)).value == data
  {
    hide ValidChooser, DecodeStream, BytesToBits, EState.Core, Positive;
    var c := new EState(level, workFactor, choose);
    c.Offer(data, 0);
    c.NoneOverdrawn();
    var n: nat := 0;
    var ended := false;
    while !ended
      invariant c.Valid() && c.Awaiting() && fresh(c) && fresh(c.enc) && fresh(c.enc.block) && fresh(c.enc.inUse) && fresh(c.w)
      invariant Left(data, c.input, c.consumed) && |c.w.zbits| - c.outPos >= 0
      invariant if ended then c.Complete() && c.consumed == data else c.CanFinish()
      decreases !ended, |c.input|, !c.trailer, |c.w.zbits| - c.outPos
    {
      RoomAt(rooms, n);
      ended := FinishOnce(c, data, rooms(n));
      c.NoneOverdrawn();
      n := n + 1;
    }
    output := c.output;
  }

  lemma RoomAt(rooms: Rooms, n: nat)
    requires Positive(rooms)
    ensures rooms(n) >= 1
  {
  }

  /** Compressing and decompressing returns the data: for every byte string,
      block size, work factor, table heuristic, decoder, buffer sizes, and every way of cutting
      the compressed bytes into chunks. */
  method CompressDecompress(level: nat, workFactor: nat, choose: Chooser, data: seq<byte>, inRooms: Rooms, cut: Cut, small: bool, outRooms: Rooms)
    returns (back: Outcome<seq<byte>>)
    requires 1 <= level <= 9 && workFactor <= 250 && ValidChooser(choose) && Lossless(cut) && Positive(inRooms) && Positive(outRooms)
    ensures back == Have(data)
  {
    hide ValidChooser, DecodeStream, BytesToBits, Positive;
    var output := CompressAll(level, workFactor, choose, data, inRooms);
    back := Decompress(cut(output), small, outRooms);
  }

  /** Any beginning of the compressed bytes, in chunks: never an error, and what
      has been put out when the input runs out is a beginning of the data. */
  method DecompressBeginning(level: nat, workFactor: nat, choose: Chooser, data: seq<byte>, inRooms: Rooms, n: nat, cut: Cut, small: bool, outRooms: Rooms)
    returns (back: Outcome<seq<byte>>)
    requires 1 <= level <= 9 && workFactor <= 250 && ValidChooser(choose) && Lossless(cut) && Positive(inRooms) && Positive(outRooms)
    ensures back == Have(data) || (back.Starved? && back.soFar <= data)
  {
    hide ValidChooser, DecodeStream, BytesToBits, Positive;
    var output := CompressAll(level, workFactor, choose, data, inRooms);
    var k := if n <= |output| then n else |output|;
    BytesConcat(output[..k], output[k..]);
    assert output[..k] + output[k..] == output;
    StreamSurvives(BytesToBits(output[..k]), BytesToBits(output[k..]));
    back := Decompress(cut(output[..k]), small, outRooms);
    assert back.Starved? ==> ComesWith(DecodeStream(BytesToBits(output[..k]) + BytesToBits(output[k..])), BytesToBits(output[k..]), back.soFar, WantsInput);
  }
}
