/**
 The decompressor: the block loop of BZ2_bzDecompress in bzlib.c around
 BZ2_decompress, with its CRC checks. The input comes in chunks of any size, the
 output goes to buffers of any size, through either inverse transform.
 */
module Decompressor {
  import opened Bits
  import opened BitSeq
  import opened BitStream
  import opened Wrappers
  import opened Rotation
  import opened InverseBwt
  import opened Mtf
  import opened BlockCode
  import opened Stream
  import opened UnRle
  import opened Coroutine
  import opened DecoderStates
  import opened StreamDecoder
  import Rle
  import BlockCrc
  import FastInverse
  import SmallInverse
  import FastOutput
  import SmallOutput

  /** The room the application provides in its n-th output buffer. */
  type Rooms = nat -> nat

  ghost predicate Positive(rooms: Rooms) { forall n :: rooms(n) >= 1 }

  // ---------- Output ----------

  /** What the output loops must come to for a block. */
  ghost predicate PutsOut(col: seq<byte>, orig: nat, corrupt: bool, out: seq<byte>, crc: bv32) {
    && orig < |col| && corrupt == !Rle.Whole(CodeOf(col, orig))
    && (!corrupt ==> out == Rle.Expand(CodeOf(col, orig), Rle.START) && crc == BlockCrc.UpdateAll(BlockCrc.INITIAL, out))
  }

  /** The fast inverse transform, delivered through buffers of any size. */
  method OutputFast(tt: array<nat>, unzftab: array<nat>, nblock: nat, origPtr: nat, rooms: Rooms, ghost col: seq<byte>)
    returns (corrupt: bool, out: seq<byte>, crc: bv32)
    requires HoldsColumn(tt[..], unzftab[..], col) && tt != unzftab && origPtr < nblock == |col| && Positive(rooms)
    modifies tt
    ensures PutsOut(col, origPtr, corrupt, out, crc)
  {
    hide WalkByte, FastInverse.Packed, Rle.Expand, Rle.After, Less, Midway, Delivered, BlockCrc.UpdateAll, Row;
    var bad, cftab := FastInverse.CumulateCounts(unzftab, nblock, col);
    FastInverse.BuildLinks(tt, cftab, nblock, col);
    var walk := new FastInverse.Walk(tt, tt.Length, origPtr, col);
    var o := new FastOutput.Output(walk, nblock);
    var n: nat := 0;
    while true
      invariant o.walk == walk && fresh(o) && fresh(walk) && walk.tt == tt && walk.col == col && walk.orig == origPtr
      invariant o.Valid() && o.output == o.done && o.nblock == nblock
      decreases |o.Total()| - |o.done|
    {
      o.availOut := rooms(n);
      ghost var before := o.done;
      MidwayEnds(col, origPtr, o.done, o.ch, o.len, o.used, o.k0);
      corrupt := o.UnRleFast();
      DeliveredAll(before, o.output, o.done, rooms(n), o.availOut);
      if corrupt { return true, [], 0; }
      MidwayEnds(col, origPtr, o.done, o.ch, o.len, o.used, o.k0);
      if o.used == nblock + 1 && o.len == 0 { break; }
      n := n + 1;
    }
    TotalIsExpansion(col, origPtr);
    assert o.done + Repeat(o.ch, 0) == o.done;
    out, crc := o.output, o.crc;
  }

  lemma DeliveredAll(done: seq<byte>, out': seq<byte>, done': seq<byte>, room: nat, room': nat)
    requires Delivered(done, done, room, out', done', room')
    ensures out' == done' && |done'| == |done| + room - room'
  {
  }

  /** The low-memory links: T built in place and the cycle of origPtr reversed. */
  method LinkSmall(ll16: array<nat>, ll4: array<nat>, cftab: array<nat>, nblock: nat, origPtr: nat, ghost col: seq<byte>)
    returns (walk: SmallInverse.Walk)
    requires SmallInverse.Storage(ll16, ll4, nblock) && origPtr < nblock == |col| < 0x10_0000
    requires cftab != ll16 && cftab != ll4 && cftab.Length == 257
    requires forall i :: 0 <= i < nblock ==> ll16[i] == col[i]
    requires forall c :: 0 <= c <= 256 ==> cftab[c] == Less(col, c)
    modifies ll16, ll4
    ensures fresh(walk) && walk.Valid() && walk.fetched == 0 && walk.col == col && walk.orig == origPtr
    ensures walk.ll16 == ll16 && walk.ll4 == ll4 && walk.cftab == cftab
  {
    hide Less, Slot, InverseBwt.Next, SmallInverse.GetLL;
    var cftabCopy := new nat[257](i requires 0 <= i < 257 reads cftab => cftab[i]);
    SmallInverse.BuildForwardLinks(ll16, ll4, cftabCopy, nblock, col);
    ghost var cycle := SmallInverse.ReverseCycle(ll16, ll4, nblock, origPtr, col);
    walk := new SmallInverse.Walk(ll16, ll4, cftab, ll16.Length, origPtr, col, cycle);
  }

  /** The low-memory inverse transform comes to the same. */
  method OutputSmall(ll16: array<nat>, unzftab: array<nat>, nblock: nat, origPtr: nat, rooms: Rooms, ghost col: seq<byte>)
    returns (corrupt: bool, out: seq<byte>, crc: bv32)
    requires HoldsColumn(ll16[..], unzftab[..], col) && ll16 != unzftab && origPtr < nblock == |col| < 0x10_0000 && Positive(rooms)
    modifies ll16
    ensures PutsOut(col, origPtr, corrupt, out, crc)
  {
    hide WalkByte, SmallInverse.WalkTables, Rle.Expand, Rle.After, Less, Midway, Delivered, BlockCrc.UpdateAll, Row;
    var bad, cftab := FastInverse.CumulateCounts(unzftab, nblock, col);
    var ll4 := new nat[(1 + ll16.Length) / 2](_ => 0);
    var walk := LinkSmall(ll16, ll4, cftab, nblock, origPtr, col);
    var o := new SmallOutput.Output(walk, nblock);
    var n: nat := 0;
    while true
      invariant o.walk == walk && fresh(o) && fresh(walk) && walk.col == col && walk.orig == origPtr
      invariant walk.ll16 == ll16 && walk.ll4 == ll4 && walk.cftab == cftab
      invariant o.Valid() && o.output == o.done && o.nblock == nblock
      decreases |o.Total()| - |o.done|
    {
      o.availOut := rooms(n);
      ghost var before := o.done;
      MidwayEnds(col, origPtr, o.done, o.ch, o.len, o.used, o.k0);
      corrupt := o.UnRleSmall();
      DeliveredAll(before, o.output, o.done, rooms(n), o.availOut);
      if corrupt { return true, [], 0; }
      MidwayEnds(col, origPtr, o.done, o.ch, o.len, o.used, o.k0);
      if o.used == nblock + 1 && o.len == 0 { break; }
      n := n + 1;
    }
    TotalIsExpansion(col, origPtr);
    assert o.done + Repeat(o.ch, 0) == o.done;
    out, crc := o.output, o.crc;
  }

  // ---------- Blocks ----------

  /** A block that is ready is put out, or found corrupt. */
  method PutOut(s: DState, small: bool, rooms: Rooms) returns (corrupt: bool, out: seq<byte>)
    requires s.Valid() && s.st.Ready? && Positive(rooms)
    modifies s, s.tt
    ensures s.Footprint() == old(s.Footprint())
    ensures match BlockOutput(old(s.st).block)
            case None => corrupt
            case Some(x) =>
              && !corrupt && out == x && s.Valid()
              && s.st == Kind(Context(old(s.st).ctx.level, BlockCrc.Combine(old(s.st).ctx.combined, BlockCrc.Crc(x))))
  {
    hide Rle.Expand, Rle.After, Rle.Whole, BlockCrc.UpdateAll, BlockCrc.Word, BlockCrc.Combine, HoldsColumn, Positive;
    ghost var col := s.st.block.col;
    ReadyFields(s);
    ghost var block, f := s.st.block, s.Footprint();
    var sum;
    if small {
      corrupt, out, sum := OutputSmall(s.tt, s.column.unzftab, s.column.nblock, s.origPtr, rooms, col);
    } else {
      corrupt, out, sum := OutputFast(s.tt, s.column.unzftab, s.column.nblock, s.origPtr, rooms, col);
    }
    if corrupt { return; }
    var crc := BlockCrc.Finalise(sum);
    corrupt := BlockCrc.Word(crc) != s.storedBlockCrc;
    if corrupt { return; }
    s.BlockDone(crc);
  }

  lemma ReadyFields(s: DState)
    requires s.Valid() && s.st.Ready?
    ensures var b := s.st.block;
      && b.origPtr < |b.col| == s.column.nblock < 0x10_0000 && s.origPtr == b.origPtr && s.storedBlockCrc == b.crc
      && s.column.unzftab != s.tt && HoldsColumn(s.tt[..], s.column.unzftab[..], b.col)
      && s.Fixed() && GoodContext(s.st.ctx) && s.HasContext(s.st.ctx)
  {
    hide HoldsColumn;
  }

  // ---------- Calls ----------

  /** What BZ2_bzDecompress comes to: all output, a wish for more input after
      some output, corrupt data, or a store past the end of an array. */
  datatype Outcome<+T> = Have(value: T) | Starved(soFar: T) | Corrupt | PastEnd

  datatype Status = WantsInput | AtEnd | BadData | ArrayOverrun

  /** Whatever input follows, what the stream comes to is the output so far and
      then what decoding on from the state comes to. */
  ghost predicate GoesOn(supplied: seq<bit>, output: seq<byte>, st: State, pending: seq<bit>)
  {
    Good(st) && forall future: seq<bit> :: DecodeStream(supplied + future) == Prepend(output, Meaning(st, pending + future))
  }

  /** The application's side of the stream and the state behind it. */
  class DStream {
    const reader: Reader      // next_in, avail_in, bsBuff, bsLive
    const s: DState
    const small: bool
    var output: seq<byte>
    ghost var supplied: seq<bit>

    ghost predicate Valid()
      reads this, reader, s, s.Footprint()
    {
      && reader !in s.Footprint() && s.Valid() && reader.Valid()
      && GoesOn(supplied, output, s.st, reader.Pending())
    }

    constructor (small: bool)
      ensures Valid() && supplied == [] && output == [] && fresh(reader) && fresh(s) && fresh(s.Footprint())
    {
      hide DState.Valid, Reader.Valid, Reader.Pending, GoesOn;
      this.small := small;
      reader := new Reader([]);
      s := new DState();
      output, supplied := [], [];
      new;
      EmptyBytes();
      StartGoesOn();

    }

    /** Puts out the block that is ready. */
    method PutBlock(rooms: Rooms) returns (corrupt: bool)
      requires Valid() && s.st.Ready? && Positive(rooms)
      modifies this, s, s.tt
      ensures supplied == old(supplied) && reader.Pending() == old(reader.Pending()) && s.Footprint() == old(s.Footprint())
      ensures if corrupt then Comes(supplied, reader.Pending(), output, BadData)
              else Valid() && s.st.Kind?
    {
      hide DState.Valid, DState.Fixed, DState.HasContext, Reader.Valid, Reader.Pending, GoesOn, BlockOutput, Comes, Positive, BlockCrc.Combine, BlockCrc.Crc, Good, GoodContext;
      ReadyGoesOn(supplied, output, s.st.ctx, s.st.block, reader.Pending());
      var out;
      corrupt, out := PutOut(s, small, rooms);
      if !corrupt { output := output + out; }
    }

    /** Decodes until input is missing, a block is ready and put out, or decoding
        comes to an end. */
    method Round(rooms: Rooms) returns (stop: bool, status: Status)
      requires Valid() && Positive(rooms)
      modifies this, reader, s, s.Footprint()
      ensures fresh(s.Footprint() - old(s.Footprint())) && supplied == old(supplied)
      ensures stop ==> (status == WantsInput ==> Valid()) && Comes(supplied, reader.Pending(), output, status)
      ensures |reader.Pending()| <= old(|reader.Pending()|)
      ensures !stop ==> Valid() && s.st.Kind?
      ensures !stop ==> |reader.Pending()| < old(|reader.Pending()|) || old(s.st).Ready?
    {
      hide DState.Valid, Reader.Valid, Reader.Pending, GoesOn, Comes, Width, Positive, DecoderStates.Next;
      RunGoesOn(supplied, output, s.st, reader.Pending());
      s.Run(reader);
      StoppedComes(supplied, output, s.st, reader.Pending());
      ValidState(s);
      stop := s.state != OUTPUT;
      status := match s.state case IDLE => AtEnd case CORRUPT => BadData case OVERRUN => ArrayOverrun case _ => WantsInput;
      if !stop {
        stop := PutBlock(rooms);
        status := BadData;
      }
    }

    /** The application supplies a chunk, and the decompressor goes as far as it
        can. */
    method Supply(chunk: seq<byte>, rooms: Rooms) returns (status: Status)
      requires Valid() && Positive(rooms)
      modifies this, reader, s, s.Footprint()
      ensures fresh(s.Footprint() - old(s.Footprint()))
      ensures supplied == old(supplied) + BytesToBits(chunk)
      ensures status == WantsInput ==> Valid()
      ensures Comes(supplied, reader.Pending(), output, status)
    {
      hide DState.Valid, Reader.Valid, Reader.Pending, GoesOn, Comes, BytesToBits, Positive;
      FeedGoesOn(supplied, output, s.st, reader.Pending(), BytesToBits(chunk));
      supplied := supplied + BytesToBits(chunk);
      reader.Feed(chunk);
      var stop;
      stop, status := Round(rooms);
      while !stop
        invariant fresh(s.Footprint() - old(s.Footprint())) && supplied == old(supplied) + BytesToBits(chunk)
        invariant !stop || status == WantsInput ==> Valid()
        invariant !stop ==> s.st.Kind?
        invariant stop ==> Comes(supplied, reader.Pending(), output, status)
        decreases |reader.Pending()|, !stop
      {
        stop, status := Round(rooms);
      }
    }
  }

  lemma ValidState(s: DState)
    requires s.Valid()
    ensures s.state == LabelOf(s.st)
  {
    hide DState.Fields, Good;
  }

  lemma StartGoesOn()
    ensures GoesOn([], [], START, [])
  {
    hide DecodeStream, Meaning;
    forall future: seq<bit> ensures DecodeStream([] + future) == Prepend([], Meaning(START, [] + future)) {
      assert [] + future == future;
      StartMeans(future);
      PrependNone(DecodeStream(future));
    }
  }

  lemma FeedGoesOn(supplied: seq<bit>, output: seq<byte>, st: State, pending: seq<bit>, more: seq<bit>)
    requires GoesOn(supplied, output, st, pending)
    ensures GoesOn(supplied + more, output, st, pending + more)
  {
    hide DecodeStream, Meaning;
    forall future: seq<bit> ensures DecodeStream(supplied + more + future) == Prepend(output, Meaning(st, pending + more + future)) {
      assert supplied + more + future == supplied + (more + future);
      assert pending + more + future == pending + (more + future);
    }
  }

  /** After the requests that the input suffices for. */
  lemma RunGoesOn(supplied: seq<bit>, output: seq<byte>, st: State, pending: seq<bit>)
    requires GoesOn(supplied, output, st, pending)
    ensures var (st', left) := Drive(Width, DecoderStates.Next, st, pending);
            && GoesOn(supplied, output, st', left) && (Width(st') == 0 || |left| < Width(st'))
            && |left| <= |pending| && (|left| < |pending| || st' == st)
  {
    hide DecodeStream, Meaning, Drive, Good, DecoderStates.Next;
    var (st', left) := Drive(Width, DecoderStates.Next, st, pending);
    forall future: seq<bit> ensures Good(st') && DecodeStream(supplied + future) == Prepend(output, Meaning(st', left + future)) {
      DriveMeans(st, pending, future);
    }
    DriveMeans(st, pending, []);
    DriveShrinks(st, pending);
  }

  lemma {:induction false} DriveShrinks(st: State, bits: seq<bit>)
    ensures var (st', left) := Drive(Width, DecoderStates.Next, st, bits);
            |left| <= |bits| && (|left| < |bits| || st' == st)
    decreases |bits|
  {
    hide DecoderStates.Next, FromBits;
    var w := Width(st);
    if w > 0 && |bits| >= w { DriveShrinks(DecoderStates.Next(st, FromBits(bits[..w])), bits[w..]); }
  }

  /** A block that is ready is output, or the stream is corrupt. */
  lemma ReadyGoesOn(supplied: seq<bit>, output: seq<byte>, ctx: Context, block: Block, pending: seq<bit>)
    requires GoesOn(supplied, output, Ready(ctx, block), pending)
    ensures block.origPtr < |block.col|
    ensures match BlockOutput(block)
            case None => Comes(supplied, pending, output, BadData)
            case Some(x) => GoesOn(supplied, output + x, Kind(Context(ctx.level, BlockCrc.Combine(ctx.combined, BlockCrc.Crc(x)))), pending)
  {
    hide DecodeStream, BlockOutput, DecodeBlocks, BlockCrc.Combine, BlockCrc.Crc;
    if BlockOutput(block).Some? {
      var x := BlockOutput(block).value;
      var combined := BlockCrc.Combine(ctx.combined, BlockCrc.Crc(x));
      forall future: seq<bit> ensures DecodeStream(supplied + future) == Prepend(output + x, DecodeBlocks(pending + future, ctx.level, combined)) {
        PrependTwice(output, x, DecodeBlocks(pending + future, ctx.level, combined));
      }
    }
  }

  /** Where the machine stops without a block to put out. */
  lemma StoppedComes(supplied: seq<bit>, output: seq<byte>, st: State, pending: seq<bit>)
    requires GoesOn(supplied, output, st, pending) && (Width(st) == 0 || |pending| < Width(st))
    ensures st.Ended? ==> Comes(supplied, pending, output, AtEnd)
    ensures st.Bad? ==> Comes(supplied, pending, output, BadData)
    ensures st.Overran? ==> Comes(supplied, pending, output, ArrayOverrun)
    ensures Width(st) > 0 ==> Comes(supplied, pending, output, WantsInput)
    ensures Width(st) == 0 ==> st.Ended? || st.Bad? || st.Overran? || st.Ready?
  {
    hide DecodeStream, BytesToBits;
    if Width(st) > 0 {
      hide Meaning, Good;
      Serve(st, pending);
      assert pending + [] == pending && supplied + [] == supplied;
    } else if st.Ended? {
      forall future: seq<bit> ensures ComesWith(DecodeStream(supplied + future), pending + future, output, AtEnd) {
        assert output + [] == output;
      }
    }
  }

  /** What a call's status says of the whole stream: whatever input follows, it
      has been decoded to the output, or it is corrupt, or decoding it overruns
      an array; or it is incomplete, and the output so far begins the output of
      every continuation. */
  ghost predicate Comes(supplied: seq<bit>, pending: seq<bit>, output: seq<byte>, status: Status) {
    && (status == WantsInput ==> DecodeStream(supplied) == NeedMore)
    && forall future: seq<bit> :: ComesWith(DecodeStream(supplied + future), pending + future, output, status)
  }

  ghost predicate ComesWith(r: Read<seq<byte>>, left: seq<bit>, output: seq<byte>, status: Status) {
    match status
    case WantsInput => r.Got? ==> output <= r.value
    case AtEnd => r == Got(output, left)
    case BadData => r.DataError?
    case ArrayOverrun => r.Overrun?
  }

  lemma NoChunks()
    ensures BytesToBits(Concat([])) == []
  {
    EmptyBytes();
  }

  lemma NothingYet(pending: seq<bit>)
    ensures Comes([], pending, [], WantsInput)
  {
    hide DecodeBlocks;
  }

  lemma ComesNow(supplied: seq<bit>, pending: seq<bit>, output: seq<byte>)
    requires Comes(supplied, pending, output, WantsInput)
    ensures DecodeStream(supplied) == NeedMore
    ensures forall more: seq<bit> :: ComesWith(DecodeStream(supplied + more), more, output, WantsInput)
  {
    hide DecodeStream;
    forall more: seq<bit> ensures ComesWith(DecodeStream(supplied + more), more, output, WantsInput) {
      assert ComesWith(DecodeStream(supplied + more), pending + more, output, WantsInput);
    }
  }

  lemma ComesAtLast(supplied: seq<bit>, pending: seq<bit>, output: seq<byte>, status: Status, rest: seq<bit>)
    requires Comes(supplied, pending, output, status)
    ensures ComesWith(DecodeStream(supplied + rest), pending + rest, output, status)
  {
    hide DecodeStream, ComesWith;
  }

  lemma ChunksSplit(chunks: seq<seq<byte>>, i: nat)
    requires i <= |chunks|
    ensures BytesToBits(Concat(chunks)) == BytesToBits(Concat(chunks[..i])) + BytesToBits(Concat(chunks[i..]))
  {
    hide BytesToBits;
    ConcatSplit(chunks, i);
    BytesConcat(Concat(chunks[..i]), Concat(chunks[i..]));
  }

  lemma {:induction false} ConcatSplit(chunks: seq<seq<byte>>, i: nat)
    requires i <= |chunks|
    ensures Concat(chunks) == Concat(chunks[..i]) + Concat(chunks[i..])
    decreases i
  {
    if i == 0 {
      assert chunks[..0] == [] && chunks[0..] == chunks;
    } else {
      assert chunks[..i][1..] == chunks[1..][..i - 1] && chunks[i..] == chunks[1..][i - 1..];
      ConcatSplit(chunks[1..], i - 1);
    }
  }

  // ---------- A whole input ----------

  /** The decompressor fed chunk after chunk, empty ones included: for either
      inverse transform and any output buffers it comes to what the specification
      says of the chunks together, every error included. */
  method Decompress(chunks: seq<seq<byte>>, small: bool, rooms: Rooms) returns (o: Outcome<seq<byte>>)
    requires Positive(rooms)
    ensures match DecodeStream(BytesToBits(Concat(chunks)))
            case Got(out, _) => o == Have(out)
            case NeedMore => o.Starved?
            case DataError => o == Corrupt
            case Overrun => o == PastEnd
    ensures o.Starved? ==> forall more: seq<bit> ::
              ComesWith(DecodeStream(BytesToBits(Concat(chunks)) + more), more, o.soFar, WantsInput)
  {
    hide GoesOn, Comes, BytesToBits, Positive, DecodeStream, Reader.Pending, Reader.Valid, DState.Valid, Concat;
    var d := new DStream(small);
    ghost var all := BytesToBits(Concat(chunks));
    NoChunks();
    assert chunks[..0] == [];
    NothingYet(d.reader.Pending());
    for i := 0 to |chunks|
      invariant d.Valid() && fresh(d) && fresh(d.reader) && fresh(d.s) && fresh(d.s.Footprint()) && d.supplied == BytesToBits(Concat(chunks[..i]))
      invariant Comes(d.supplied, d.reader.Pending(), d.output, WantsInput)
    {
      ChunksSplit(chunks, i + 1);
      ConcatSnoc(chunks, i);
      BytesConcat(Concat(chunks[..i]), chunks[i]);
      var status := d.Supply(chunks[i], rooms);
      ComesAtLast(d.supplied, d.reader.Pending(), d.output, status, BytesToBits(Concat(chunks[i + 1..])));
      match status {
        case AtEnd => return Have(d.output);
        case BadData => return Corrupt;
        case ArrayOverrun => return PastEnd;
        case WantsInput =>
      }
    }
    assert chunks[..|chunks|] == chunks;
    ComesNow(d.supplied, d.reader.Pending(), d.output);
    o := Starved(d.output);
  }
}
