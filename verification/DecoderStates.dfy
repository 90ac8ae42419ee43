/**
 BZ2_decompress (decompress.c) as a machine that stops at every bit request. A
 state is the label it stops at with the locals it saves there; Next is the code
 from one request to the next; Meaning is what decoding the rest of the stream
 from a state comes to.
 */
module DecoderStates {
  import opened Wrappers
  import Bits
  import opened BitSeq
  import opened Rotation
  import opened Mtf
  import opened ValueDecoder
  import opened ValueCode
  import opened BlockFormat
  import opened BlockCode
  import opened Stream
  import Huffman
  import opened Coroutine
  import BlockCrc

  // ---------- States ----------

  /** Block size and combined CRC so far. */
  datatype Context = Context(level: nat, combined: bv32)

  datatype Head = Head(ctx: Context, crc: nat, origPtr: nat)

  /** A block's bytes in use, selectors, and the tables read so far. */
  datatype Coding = Coding(head: Head, used: seq<byte>, nGroups: nat, sels: seq<nat>, tables: seq<seq<nat>>)

  datatype State =
    | Magic(i: nat)                                      // BZ_X_MAGIC_1 to 3
    | Level                                              // BZ_X_MAGIC_4
    | Kind(ctx: Context)                                 // BZ_X_BLKHDR_1
    | BlockHeader(ctx: Context, i: nat)                  // BZ_X_BLKHDR_2 to 6
    | StoredCrc(ctx: Context, i: nat, v: nat)            // BZ_X_BCRC_1 to 4
    | RandBit(ctx: Context, crc: nat)                    // BZ_X_RANDBIT
    | OrigPtr(ctx: Context, crc: nat, randomised: nat, i: nat, v: nat)   // BZ_X_ORIGPTR_1 to 3
    | Mapping1(head: Head, used16: seq<bool>)
    | Mapping2(head: Head, used16: seq<bool>, inUse: seq<bool>)
    | Selector1(head: Head, used: seq<byte>)
    | Selector2(head: Head, used: seq<byte>, nGroups: nat)
    | Selector3(head: Head, used: seq<byte>, nGroups: nat, nSelectors: nat, js: seq<nat>, j: nat)
    | Coding1(c: Coding)
    | Coding2(c: Coding, lens: seq<nat>, curr: int)
    | Coding3(c: Coding, lens: seq<nat>, curr: int)
    | Symbol(c: Coding, k: nat, d: Decoding, zn: nat, zvec: nat, first: bool)   // BZ_X_MTF_1 to 6
    | EndHeader(ctx: Context, i: nat)                    // BZ_X_ENDHDR_2 to 6
    | CombinedCrc(ctx: Context, i: nat, v: nat)          // BZ_X_CCRC_1 to 4
    | Ready(ctx: Context, block: Block)                  // BZ_X_OUTPUT
    | Ended
    | Bad
    | Overran

  /** How many bits the machine asks for; none where it has something to report. */
  function Width(s: State): nat {
    match s
    case RandBit(_, _) | Mapping1(_, _) | Mapping2(_, _, _) | Selector3(_, _, _, _, _, _) | Coding2(_, _, _) | Coding3(_, _, _) => 1
    case Selector1(_, _) => 3
    case Selector2(_, _, _) => 15
    case Coding1(_) => 5
    case Symbol(_, _, _, zn, _, first) => if first then zn else 1
    case Ready(_, _) | Ended | Bad | Overran => 0
    case _ => 8
  }

  // ---------- Well-formed states ----------

  predicate GoodContext(ctx: Context) { 1 <= ctx.level <= 9 }

  predicate GoodHead(h: Head) { GoodContext(h.ctx) && h.origPtr <= 10 + BLOCK_UNIT * h.ctx.level }

  function Room(h: Head): nat { BLOCK_UNIT * h.ctx.level }

  ghost predicate GoodCoding(c: Coding) {
    && GoodHead(c.head) && 1 <= |c.used| <= 256 && 2 <= c.nGroups <= 6
    && |c.tables| <= c.nGroups && AllLengths(c.tables, |c.used| + 2)
    && forall i :: 0 <= i < |c.sels| ==> c.sels[i] < c.nGroups
  }

  /** All tables are there and value k has one. */
  ghost predicate GoodValue(c: Coding, k: nat, d: Decoding) {
    && GoodCoding(c) && |c.tables| == c.nGroups && k / GROUP_SIZE < |c.sels|
    && Within(d, |c.used|, Room(c.head))
  }

  ghost function CodeLengths(c: Coding, k: nat): (lens: seq<nat>)
    requires GoodCoding(c) && |c.tables| == c.nGroups && k / GROUP_SIZE < |c.sels|
    ensures Huffman.Announced(lens) && |lens| == |c.used| + 2
  {
    assert Lengths(c.tables[c.sels[k / GROUP_SIZE]], |c.used| + 2);
    c.tables[c.sels[k / GROUP_SIZE]]
  }

  ghost predicate Good(s: State) {
    match s
    case Magic(i) => i < |STREAM_MAGIC|
    case Level => true
    case Kind(ctx) => GoodContext(ctx)
    case BlockHeader(ctx, i) => GoodContext(ctx) && i < |BLOCK_MAGIC|
    case StoredCrc(ctx, i, _) => GoodContext(ctx) && i < 4
    case RandBit(ctx, _) => GoodContext(ctx)
    case OrigPtr(ctx, _, _, i, _) => GoodContext(ctx) && i < 3
    case Mapping1(h, used16) => GoodHead(h) && |used16| < 16
    case Mapping2(h, used16, inUse) => GoodHead(h) && |used16| == 16 && |inUse| < 256 && used16[|inUse| / 16]
    case Selector1(h, used) => GoodHead(h) && 1 <= |used| <= 256
    case Selector2(h, used, nGroups) => GoodHead(h) && 1 <= |used| <= 256 && 2 <= nGroups <= 6
    case Selector3(h, used, nGroups, n, js, j) =>
      && GoodHead(h) && 1 <= |used| <= 256 && 2 <= nGroups <= 6
      && |js| < n && |js| <= MAX_SELECTORS && j < nGroups && forall i :: 0 <= i < |js| ==> js[i] < nGroups
    case Coding1(c) => GoodCoding(c) && |c.tables| < c.nGroups
    case Coding2(c, lens, curr) => GoodLength(c, lens) && 1 <= curr <= Huffman.LONGEST_CODE
    case Coding3(c, lens, curr) => GoodLength(c, lens) && 1 <= curr <= Huffman.LONGEST_CODE
    case Symbol(c, k, d, zn, zvec, first) =>
      GoodValue(c, k, d) &&
      var lens := CodeLengths(c, k);
      if first then zn == Huffman.MinOf(lens)
      else zn <= Huffman.LONGEST_CODE && Huffman.Searching(lens, zn, zvec) && zvec > Huffman.TablesOf(lens).limit[zn]
    case EndHeader(ctx, i) => GoodContext(ctx) && i < |END_MAGIC|
    case CombinedCrc(ctx, i, _) => GoodContext(ctx) && i < 4
    case Ready(ctx, block) => GoodContext(ctx) && block.origPtr < |block.col| <= BLOCK_UNIT * ctx.level
    case _ => true
  }

  ghost predicate GoodLength(c: Coding, lens: seq<nat>) {
    GoodCoding(c) && |c.tables| < c.nGroups && |lens| < |c.used| + 2 && Lengths(lens, |lens|)
  }

  // ---------- From one request to the next ----------

  /** Rows without a byte in use are not read. */
  function GoRows(h: Head, used16: seq<bool>, inUse: seq<bool>): State
    requires |used16| == 16 && |inUse| <= 256
    decreases 256 - |inUse|
  {
    if |inUse| == 256 then GoUsed(h, inUse)
    else if used16[|inUse| / 16] then Mapping2(h, used16, inUse)
    else if |inUse| + 16 > 256 then Bad
    else GoRows(h, used16, inUse + NoFlags())
  }

  function GoUsed(h: Head, inUse: seq<bool>): State
    requires |inUse| == 256
  {
    if Used(inUse) == [] then Bad else Selector1(h, Used(inUse))
  }

  ghost function GoSelectors(h: Head, used: seq<byte>, nGroups: nat, nSelectors: nat, js: seq<nat>): State
    requires |js| <= nSelectors && forall i :: 0 <= i < |js| ==> js[i] < nGroups
  {
    if |js| < nSelectors then Selector3(h, used, nGroups, nSelectors, js, 0)
    else GoTables(Coding(h, used, nGroups, UndoSelectorMtf(Identity(nGroups), js), []))
  }

  ghost function GoTables(c: Coding): State {
    if |c.tables| < c.nGroups then Coding1(c) else GoValue(c, 0, StartDecoding())
  }

  ghost function GoLength(c: Coding, lens: seq<nat>, curr: int): State {
    if |lens| >= |c.used| + 2 then GoTables(c.(tables := c.tables + [lens]))
    else if curr < 1 || curr > Huffman.LONGEST_CODE then Bad
    else Coding2(c, lens, curr)
  }

  /** Running out of selectors is an error. */
  ghost function GoValue(c: Coding, k: nat, d: Decoding): State {
    if !GoodValue(c, k, d) then Bad
    else Symbol(c, k, d, Huffman.MinOf(CodeLengths(c, k)), 0, true)
  }

  /** The search for a code of zn bits or more. */
  ghost function Search(c: Coding, k: nat, d: Decoding, zn: nat, zvec: nat): State
    requires GoodValue(c, k, d)
  {
    var t := Huffman.TablesOf(CodeLengths(c, k));
    if zn > Huffman.LONGEST_CODE then Bad
    else if zvec > t.limit[zn] then Symbol(c, k, d, zn, zvec, false)
    else
      var i := zvec - t.base[zn];
      if i < 0 || i >= Huffman.MAX_ALPHA_SIZE then Bad else GoTaken(c, k, d, t.perm[i])
  }

  ghost function GoTaken(c: Coding, k: nat, d: Decoding, v: nat): State {
    match Take(d, v, |c.used| + 1, Room(c.head))
    case Refused => Bad
    case More(d') => GoValue(c, k + 1, d')
    case Finished(syms) => GoColumn(c, syms)
  }

  ghost function GoColumn(c: Coding, syms: seq<nat>): State {
    if !(c.used != [] && AtMost(syms, |c.used| - 1)) || c.head.origPtr >= |syms| then Bad
    else Ready(c.head.ctx, Block(c.head.crc, c.head.origPtr, Spelled(c.used, syms)))
  }

  /** The code from one request to the next, v being the bits asked for. */
  ghost function Next(s: State, v: nat): State {
    if !Good(s) then Bad
    else
      match s
      case Magic(i) => if v != STREAM_MAGIC[i] then Bad else if i == 2 then Level else Magic(i + 1)
      case Level => if v < 0x31 || v > 0x39 then Bad else Kind(Context(v - 0x30, 0))
      case Kind(ctx) => if v == 0x17 then EndHeader(ctx, 0) else if v == 0x31 then BlockHeader(ctx, 0) else Bad
      case BlockHeader(ctx, i) =>
        if v != BLOCK_MAGIC[i] then Bad else if i == 4 then StoredCrc(ctx, 0, 0) else BlockHeader(ctx, i + 1)
      case StoredCrc(ctx, i, crc) => if i == 3 then RandBit(ctx, crc * 256 + v) else StoredCrc(ctx, i + 1, crc * 256 + v)
      case RandBit(ctx, crc) => OrigPtr(ctx, crc, v, 0, 0)
      case OrigPtr(ctx, crc, randomised, i, p) =>
        var origPtr := p * 256 + v;
        if i < 2 then OrigPtr(ctx, crc, randomised, i + 1, origPtr)
        else if randomised == 1 || origPtr > 10 + BLOCK_UNIT * ctx.level then Bad
        else Mapping1(Head(ctx, crc, origPtr), [])
      case Mapping1(h, used16) =>
        var now := used16 + [v == 1];
        if |now| < 16 then Mapping1(h, now) else GoRows(h, now, [])
      case Mapping2(h, used16, inUse) =>
        var now := inUse + [v == 1];
        if |now| % 16 != 0 then Mapping2(h, used16, now) else GoRows(h, used16, now)
      case Selector1(h, used) => if v < 2 || v > 6 then Bad else Selector2(h, used, v)
      case Selector2(h, used, nGroups) => if v < 1 then Bad else GoSelectors(h, used, nGroups, v, [])
      case Selector3(h, used, nGroups, n, js, j) =>
        if v != 0 then (if j + 1 >= nGroups then Bad else Selector3(h, used, nGroups, n, js, j + 1))
        else if |js| >= MAX_SELECTORS then Overran
        else GoSelectors(h, used, nGroups, n, js + [j])
      case Coding1(c) => GoLength(c, [], v)
      case Coding2(c, lens, curr) => if v == 0 then GoLength(c, lens + [curr], curr) else Coding3(c, lens, curr)
      case Coding3(c, lens, curr) => GoLength(c, lens, if v == 0 then curr + 1 else curr - 1)
      case Symbol(c, k, d, zn, zvec, first) => if first then Search(c, k, d, zn, v) else Search(c, k, d, zn + 1, 2 * zvec + v)
      case EndHeader(ctx, i) =>
        if v != END_MAGIC[i] then Bad else if i == 4 then CombinedCrc(ctx, 0, 0) else EndHeader(ctx, i + 1)
      case CombinedCrc(ctx, i, crc) =>
        if i < 3 then CombinedCrc(ctx, i + 1, crc * 256 + v)
        else if crc * 256 + v != BlockCrc.Word(ctx.combined) then Bad else Ended
      case _ => s
  }

  // ---------- What a state means ----------

  /** n more bytes of a number that begins with v. */
  function ReadOn(bits: seq<bit>, n: nat, v: nat): (r: Read<nat>)
    ensures r.Got? ==> |r.rest| <= |bits|
    decreases n
  {
    if n == 0 then Got(v, bits)
    else
      var (b, left) :- GetBits(bits, 8);
      ReadOn(left, n - 1, v * 256 + b)
  }

  ghost function AfterLevel(bits: seq<bit>): Read<seq<byte>> {
    var (digit, left) :- GetBits(bits, 8);
    if digit < 0x31 || digit > 0x39 then DataError else DecodeBlocks(left, digit - 0x30, 0)
  }

  /** The block's output in front of what follows. */
  ghost function AfterBlock(ctx: Context, block: Block, bits: seq<bit>): Read<seq<byte>>
    requires block.origPtr < |block.col|
  {
    match BlockOutput(block)
    case None => DataError
    case Some(out) => Prepend(out, DecodeBlocks(bits, ctx.level, BlockCrc.Combine(ctx.combined, BlockCrc.Crc(out))))
  }

  ghost function AfterHeader(ctx: Context, bits: seq<bit>): Read<seq<byte>> {
    var (block, left) :- ParseBlock(bits, ctx.level);
    AfterBlock(ctx, block, left)
  }

  ghost function AfterColumn(h: Head, col: seq<byte>, bits: seq<bit>): Read<seq<byte>> {
    if h.origPtr >= |col| then DataError else AfterBlock(h.ctx, Block(h.crc, h.origPtr, col), bits)
  }

  ghost function AfterOrigPtr(ctx: Context, crc: nat, randomised: nat, origPtr: nat, bits: seq<bit>): Read<seq<byte>> {
    if randomised == 1 || origPtr > 10 + BLOCK_UNIT * ctx.level then DataError
    else
      var (col, left) :- ParseBody(bits, BLOCK_UNIT * ctx.level);
      AfterColumn(Head(ctx, crc, origPtr), col, left)
  }

  ghost function AfterCrc(ctx: Context, crc: nat, bits: seq<bit>): Read<seq<byte>> {
    var (randomised, left) :- GetBits(bits, 1);
    var (origPtr, left') :- ReadOn(left, 3, 0);
    AfterOrigPtr(ctx, crc, randomised, origPtr, left')
  }

  ghost function AfterUsed(h: Head, used: seq<byte>, bits: seq<bit>): Read<seq<byte>>
    requires 1 <= |used| <= 256
  {
    var (col, left) :- ParseCoded(bits, used, Room(h));
    AfterColumn(h, col, left)
  }

  ghost function AfterFlags(h: Head, inUse: seq<bool>, bits: seq<bit>): Read<seq<byte>>
    requires |inUse| == 256
  {
    if Used(inUse) == [] then DataError else AfterUsed(h, Used(inUse), bits)
  }

  /** With inUse already read, from the start of a row. */
  ghost function AfterRows(h: Head, used16: seq<bool>, inUse: seq<bool>, bits: seq<bit>): Read<seq<byte>>
    requires |used16| == 16 && |inUse| <= 256 && |inUse| % 16 == 0
  {
    var (rest, left) :- ParseRows(bits, used16[|inUse| / 16..]);
    AfterFlags(h, inUse + rest, left)
  }

  ghost function AfterSymbols(c: Coding, syms: seq<nat>, bits: seq<bit>): Read<seq<byte>> {
    if !(c.used != [] && AtMost(syms, |c.used| - 1)) then DataError else AfterColumn(c.head, Spelled(c.used, syms), bits)
  }

  /** From the request for value k on. */
  ghost function AtValue(c: Coding, k: nat, d: Decoding, bits: seq<bit>): Read<seq<byte>>
    requires AnnouncedTables(c.tables, c.sels)
  {
    var (syms, left) :- Syms(bits, c.tables, c.sels, |c.used| + 1, k, d, Room(c.head));
    AfterSymbols(c, syms, left)
  }

  /** With value k just found. */
  ghost function AfterValue(c: Coding, k: nat, d: Decoding, v: nat, bits: seq<bit>): Read<seq<byte>>
    requires AnnouncedTables(c.tables, c.sels) && k / GROUP_SIZE < |c.sels|
  {
    var (syms, left) :- AfterSymbol(v, bits, c.tables, c.sels, |c.used| + 1, k, d, Room(c.head));
    AfterSymbols(c, syms, left)
  }

  lemma CodingAnnounced(c: Coding)
    requires GoodCoding(c) && |c.tables| == c.nGroups
    ensures AnnouncedTables(c.tables, c.sels)
  {
    AnnouncedHere(c.tables, c.sels, |c.used| + 2);
  }

  /** With some tables read. */
  ghost function AtTable(c: Coding, bits: seq<bit>): Read<seq<byte>>
    requires GoodCoding(c)
  {
    var (rest, left) :- ParseTables(bits, |c.used| + 2, c.nGroups - |c.tables|);
    var all := c.(tables := c.tables + rest);
    TablesJoin(c.tables, rest, |c.used| + 2);
    CodingAnnounced(all);
    AtValue(all, 0, StartDecoding(), left)
  }

  lemma TablesJoin(tables: seq<seq<nat>>, rest: seq<seq<nat>>, alphaSize: nat)
    requires AllLengths(tables, alphaSize) && AllLengths(rest, alphaSize)
    ensures AllLengths(tables + rest, alphaSize)
  {
  }

  /** With some lengths of a table read. */
  ghost function AtLength(c: Coding, lens: seq<nat>, curr: int, bits: seq<bit>): Read<seq<byte>>
    requires GoodLength(c, lens)
  {
    var (rest, left) :- ParseDelta(bits, curr, |c.used| + 2 - |lens|);
    TablesJoin(c.tables, [lens + rest], |c.used| + 2);
    AtTable(c.(tables := c.tables + [lens + rest]), left)
  }

  /** With some selectors read. */
  ghost function AtSelector(h: Head, used: seq<byte>, nGroups: nat, n: nat, js: seq<nat>, bits: seq<bit>): Read<seq<byte>>
    requires GoodHead(h) && 1 <= |used| <= 256 && 2 <= nGroups <= 6 && |js| <= n && forall i :: 0 <= i < |js| ==> js[i] < nGroups
  {
    var (rest, left) :- StoreUnaries(bits, |js|, n, nGroups);
    UndoKnown(Identity(nGroups), js + rest, nGroups);
    AtTable(Coding(h, used, nGroups, UndoSelectorMtf(Identity(nGroups), js + rest), []), left)
  }

  ghost function AtMagic(i: nat, bits: seq<bit>): Read<seq<byte>>
    requires i <= |STREAM_MAGIC|
  {
    var (_, left) :- Expect(bits, STREAM_MAGIC[i..]);
    AfterLevel(left)
  }

  ghost function AtBlockHeader(ctx: Context, i: nat, bits: seq<bit>): Read<seq<byte>>
    requires i <= |BLOCK_MAGIC|
  {
    var (_, left) :- Expect(bits, BLOCK_MAGIC[i..]);
    AfterHeader(ctx, left)
  }

  ghost function AtStoredCrc(ctx: Context, i: nat, v: nat, bits: seq<bit>): Read<seq<byte>>
    requires i <= 4
  {
    var (crc, left) :- ReadOn(bits, 4 - i, v);
    AfterCrc(ctx, crc, left)
  }

  ghost function AtOrigPtr(ctx: Context, crc: nat, randomised: nat, i: nat, v: nat, bits: seq<bit>): Read<seq<byte>>
    requires i <= 3
  {
    var (origPtr, left) :- ReadOn(bits, 3 - i, v);
    AfterOrigPtr(ctx, crc, randomised, origPtr, left)
  }

  ghost function AtRowBit(h: Head, used16: seq<bool>, bits: seq<bit>): Read<seq<byte>>
    requires |used16| <= 16
  {
    var (rest, left) :- ParseFlags(bits, 16 - |used16|);
    AfterRows(h, used16 + rest, [], left)
  }

  ghost function AtFlagBit(h: Head, used16: seq<bool>, inUse: seq<bool>, bits: seq<bit>): Read<seq<byte>>
    requires |used16| == 16 && |inUse| < 256
  {
    var (rest, left) :- ParseFlags(bits, 16 - |inUse| % 16);
    AfterRows(h, used16, inUse + rest, left)
  }

  ghost function AtCount(h: Head, used: seq<byte>, nGroups: nat, bits: seq<bit>): Read<seq<byte>>
    requires GoodHead(h) && 1 <= |used| <= 256 && 2 <= nGroups <= 6
  {
    var (n, left) :- GetBits(bits, 15);
    if n < 1 then DataError else AtSelector(h, used, nGroups, n, [], left)
  }

  ghost function AtSelectorBit(h: Head, used: seq<byte>, nGroups: nat, n: nat, js: seq<nat>, j: nat, bits: seq<bit>): Read<seq<byte>>
    requires GoodHead(h) && 1 <= |used| <= 256 && 2 <= nGroups <= 6 && |js| < n && j < nGroups && forall i :: 0 <= i < |js| ==> js[i] < nGroups
  {
    var (x, left) :- ParseUnary(bits, j, nGroups);
    if |js| >= MAX_SELECTORS then Overrun else AtSelector(h, used, nGroups, n, js + [x], left)
  }

  ghost function AtDirection(c: Coding, lens: seq<nat>, curr: int, bits: seq<bit>): Read<seq<byte>>
    requires GoodLength(c, lens)
  {
    var (b, left) :- GetBits(bits, 1);
    AtLength(c, lens, if b == 0 then curr + 1 else curr - 1, left)
  }

  ghost function AtSymbol(c: Coding, k: nat, d: Decoding, zn: nat, zvec: nat, first: bool, bits: seq<bit>): Read<seq<byte>>
    requires GoodValue(c, k, d)
  {
    CodingAnnounced(c);
    var t := Huffman.TablesOf(CodeLengths(c, k));
    var r := if first then Huffman.ReadSymbol(t, bits) else Huffman.ReadCode(t, bits, zn, zvec);
    var (v, left) :- r;
    AfterValue(c, k, d, v, left)
  }

  ghost function AtEndHeader(ctx: Context, i: nat, bits: seq<bit>): Read<seq<byte>>
    requires i <= |END_MAGIC|
  {
    var (_, left) :- Expect(bits, END_MAGIC[i..]);
    AtCombinedCrc(ctx, 0, 0, left)
  }

  ghost function AtCombinedCrc(ctx: Context, i: nat, v: nat, bits: seq<bit>): Read<seq<byte>>
    requires i <= 4
  {
    var (stored, left) :- ReadOn(bits, 4 - i, v);
    if stored != BlockCrc.Word(ctx.combined) then DataError else Got([], left)
  }

  /** The rest of the stream's output, or how decoding it fails. */
  ghost function Meaning(s: State, bits: seq<bit>): Read<seq<byte>>
    requires Good(s)
  {
    match s
    case Magic(i) => AtMagic(i, bits)
    case Level => AfterLevel(bits)
    case Kind(ctx) => DecodeBlocks(bits, ctx.level, ctx.combined)
    case BlockHeader(ctx, i) => AtBlockHeader(ctx, i, bits)
    case StoredCrc(ctx, i, v) => AtStoredCrc(ctx, i, v, bits)
    case RandBit(ctx, crc) => AfterCrc(ctx, crc, bits)
    case OrigPtr(ctx, crc, randomised, i, v) => AtOrigPtr(ctx, crc, randomised, i, v, bits)
    case Mapping1(h, used16) => AtRowBit(h, used16, bits)
    case Mapping2(h, used16, inUse) => AtFlagBit(h, used16, inUse, bits)
    case Selector1(h, used) => AfterUsed(h, used, bits)
    case Selector2(h, used, nGroups) => AtCount(h, used, nGroups, bits)
    case Selector3(h, used, nGroups, n, js, j) => AtSelectorBit(h, used, nGroups, n, js, j, bits)
    case Coding1(c) => AtTable(c, bits)
    case Coding2(c, lens, curr) => AtLength(c, lens, curr, bits)
    case Coding3(c, lens, curr) => AtDirection(c, lens, curr, bits)
    case Symbol(c, k, d, zn, zvec, first) => AtSymbol(c, k, d, zn, zvec, first, bits)
    case EndHeader(ctx, i) => AtEndHeader(ctx, i, bits)
    case CombinedCrc(ctx, i, v) => AtCombinedCrc(ctx, i, v, bits)
    case Ready(ctx, block) => AfterBlock(ctx, block, bits)
    case Ended => Got([], bits)
    case Bad => DataError
    case Overran => Overrun
  }

  // ---------- Where the code goes next means what is to be read next ----------

  /** The machine goes to a state of the given meaning. */
  ghost predicate Means(s: State, bits: seq<bit>, r: Read<seq<byte>>) {
    Good(s) && Meaning(s, bits) == r
  }

  lemma ReadOnSkip(bits: seq<bit>, n: nat, v: nat)
    requires n > 0
    ensures ReadOn(bits, n, v) == (var (b, left) :- GetBits(bits, 8); ReadOn(left, n - 1, v * 256 + b))
  {
  }

  lemma GoUsedMeans(h: Head, inUse: seq<bool>, bits: seq<bit>)
    requires GoodHead(h) && |inUse| == 256
    ensures Means(GoUsed(h, inUse), bits, AfterFlags(h, inUse, bits))
  {
    hide ParseCoded, UsedBytes;
  }

  lemma RowsOnce(bits: seq<bit>, used: seq<bool>, r: nat)
    requires r < |used|
    ensures ParseRows(bits, used[r..]) ==
            (if used[r] then (var (row, left) :- ParseFlags(bits, 16); Prepend(row, ParseRows(left, used[r + 1..])))
             else Prepend(NoFlags(), ParseRows(bits, used[r + 1..])))
  {
    hide ParseFlags;
    assert used[r..][1..] == used[r + 1..] && used[r..][0] == used[r];
  }

  /** The meanings of two states, by themselves. */
  lemma FlagBitMeans(h: Head, used16: seq<bool>, inUse: seq<bool>, bits: seq<bit>)
    requires GoodHead(h) && |used16| == 16 && |inUse| < 256 && used16[|inUse| / 16]
    ensures Means(Mapping2(h, used16, inUse), bits, AtFlagBit(h, used16, inUse, bits))
  {
    hide AtFlagBit;
  }

  lemma TableMeans(c: Coding, bits: seq<bit>)
    requires GoodCoding(c) && |c.tables| < c.nGroups
    ensures Means(Coding1(c), bits, AtTable(c, bits))
  {
    hide AtTable, GoodCoding;
  }

  lemma {:induction false} GoRowsMeans(h: Head, used16: seq<bool>, inUse: seq<bool>, bits: seq<bit>)
    requires GoodHead(h) && |used16| == 16 && |inUse| <= 256 && |inUse| % 16 == 0
    ensures Means(GoRows(h, used16, inUse), bits, AfterRows(h, used16, inUse, bits))
    decreases 256 - |inUse|
  {
    hide ParseFlags, ParseRows, AfterFlags, Used, NoFlags, GoUsed, Meaning, Good;
    var r := |inUse| / 16;
    if |inUse| == 256 {
      NoRowsLeft(bits, used16);
      assert inUse + [] == inUse;
      GoUsedMeans(h, inUse, bits);
    } else {
      RowsOnce(bits, used16, r);
      if used16[r] {
        FlagBitMeans(h, used16, inUse, bits);
        var row := ParseFlags(bits, 16);
        if row.Got? {
          var rest := ParseRows(row.rest, used16[r + 1..]);
          if rest.Got? { assert inUse + (row.value + rest.value) == inUse + row.value + rest.value; }
        }
      } else {
        GoRowsMeans(h, used16, inUse + NoFlags(), bits);
        var rest := ParseRows(bits, used16[r + 1..]);
        if rest.Got? { assert inUse + (NoFlags() + rest.value) == inUse + NoFlags() + rest.value; }
      }
    }
  }

  lemma NoRowsLeft(bits: seq<bit>, used: seq<bool>)
    ensures ParseRows(bits, used[|used|..]) == Got([], bits)
  {
  }

  lemma GoColumnMeans(c: Coding, syms: seq<nat>, bits: seq<bit>)
    requires GoodCoding(c) && |syms| <= Room(c.head)
    ensures Means(GoColumn(c, syms), bits, AfterSymbols(c, syms, bits))
  {
    hide BlockOutput, DecodeBlocks;
  }

  lemma GoValueMeans(c: Coding, k: nat, d: Decoding, bits: seq<bit>)
    requires GoodCoding(c) && |c.tables| == c.nGroups && Within(d, |c.used|, Room(c.head))
    requires AnnouncedTables(c.tables, c.sels)
    ensures Means(GoValue(c, k, d), bits, AtValue(c, k, d, bits))
  {
    hide Huffman.ReadSymbol, Huffman.TablesOf, AfterSymbol, AfterSymbols, AllLengths, Within, AnnouncedTables;
  }

  lemma GoTakenMeans(c: Coding, k: nat, d: Decoding, v: nat, bits: seq<bit>)
    requires GoodValue(c, k, d) && AnnouncedTables(c.tables, c.sels) && v <= |c.used| + 1
    ensures Means(GoTaken(c, k, d, v), bits, AfterValue(c, k, d, v, bits))
  {
    hide Take, Syms, AfterSymbols, AllLengths, Within, AnnouncedTables, GoColumn, GoValue, AtMost;
    TakeWithin(d, v, |c.used|, Room(c.head));
    match Take(d, v, |c.used| + 1, Room(c.head))
    case Refused =>
    case More(d') => GoValueMeans(c, k + 1, d', bits);
    case Finished(syms) => GoColumnMeans(c, syms, bits);
  }

  lemma TablesEnd(bits: seq<bit>, alphaSize: nat)
    ensures ParseTables(bits, alphaSize, 0) == Got([], bits)
  {
  }

  lemma GoTablesMeans(c: Coding, bits: seq<bit>)
    requires GoodCoding(c)
    ensures Means(GoTables(c), bits, AtTable(c, bits))
  {
    hide ParseTables, GoValue, AtValue, AllLengths, Within, Meaning, Good;
    if |c.tables| < c.nGroups {
      TableMeans(c, bits);
    } else {
      TablesEnd(bits, |c.used| + 2);
      assert c.tables + [] == c.tables;
      CodingAnnounced(c);
      StartWithin(|c.used|, Room(c.head));
      GoValueMeans(c, 0, StartDecoding(), bits);
    }
  }

  lemma BadLength(bits: seq<bit>, curr: int, n: nat)
    requires n > 0 && !(1 <= curr <= Huffman.LONGEST_CODE)
    ensures ParseDelta(bits, curr, n) == DataError
  {
  }

  lemma GoLengthMeans(c: Coding, lens: seq<nat>, curr: int, bits: seq<bit>)
    requires GoodLength(c, lens)
    ensures Means(GoLength(c, lens, curr), bits, AtLength(c, lens, curr, bits))
  {
    hide ParseDelta, AtTable, AllLengths;
    if !(1 <= curr <= Huffman.LONGEST_CODE) { BadLength(bits, curr, |c.used| + 2 - |lens|); }
  }

  /** A table is complete. */
  lemma LastLengthMeans(c: Coding, lens: seq<nat>, curr: int, bits: seq<bit>)
    requires GoodCoding(c) && |c.tables| < c.nGroups && |lens| == |c.used| + 2 && Lengths(lens, |lens|)
    ensures GoodCoding(c.(tables := c.tables + [lens]))
    ensures Means(GoLength(c, lens, curr), bits, AtTable(c.(tables := c.tables + [lens]), bits))
  {
    hide AtTable, GoTables, Lengths;
    TablesJoin(c.tables, [lens], |c.used| + 2);
    GoTablesMeans(c.(tables := c.tables + [lens]), bits);
  }

  lemma SelectorsEnd(bits: seq<bit>, n: nat, nGroups: nat)
    requires nGroups >= 1
    ensures StoreUnaries(bits, n, n, nGroups) == Got([], bits)
  {
  }

  lemma SelectorOnce(bits: seq<bit>, i: nat, n: nat, nGroups: nat)
    requires nGroups >= 1 && i < n
    ensures StoreUnaries(bits, i, n, nGroups) ==
            (var (x, left) :- ParseUnary(bits, 0, nGroups);
             if i >= MAX_SELECTORS then Overrun else Prepend([x], StoreUnaries(left, i + 1, n, nGroups)))
  {
    hide ParseUnary;
  }

  lemma GoSelectorsMeans(h: Head, used: seq<byte>, nGroups: nat, n: nat, js: seq<nat>, bits: seq<bit>)
    requires GoodHead(h) && 1 <= |used| <= 256 && 2 <= nGroups <= 6 && |js| <= n && |js| <= MAX_SELECTORS && forall i :: 0 <= i < |js| ==> js[i] < nGroups
    ensures Means(GoSelectors(h, used, nGroups, n, js), bits, AtSelector(h, used, nGroups, n, js, bits))
  {
    hide ParseUnary, StoreUnaries, AtTable, GoTables, UndoSelectorMtf;
    if |js| == n {
      SelectorsEnd(bits, n, nGroups);
      assert js + [] == js;
      UndoKnown(Identity(nGroups), js, nGroups);
      GoTablesMeans(Coding(h, used, nGroups, UndoSelectorMtf(Identity(nGroups), js), []), bits);
    } else {
      SelectorOnce(bits, |js|, n, nGroups);
      var x := ParseUnary(bits, 0, nGroups);
      if x.Got? && |js| < MAX_SELECTORS {
        var rest := StoreUnaries(x.rest, |js| + 1, n, nGroups);
        if rest.Got? { assert js + ([x.value] + rest.value) == js + [x.value] + rest.value; }
      }
    }
  }

  // ---------- Values ----------

  lemma FoundSymbol(t: Huffman.Tables, lens: seq<nat>, zn: nat, zvec: nat)
    requires lens != [] && Huffman.SetUpFor(t, lens) && Huffman.Searching(lens, zn, zvec) && zn <= Huffman.LONGEST_CODE
    requires zvec <= t.limit[zn]
    ensures 0 <= zvec - t.base[zn] < Huffman.MAX_ALPHA_SIZE && t.perm[zvec - t.base[zn]] < |lens|
  {
    hide Huffman.End, Huffman.First, Huffman.TablesFor;
    Huffman.LimitOf(t, lens, zn);
    var i := Huffman.LookupIsCode(t, lens, Huffman.MaxOf(lens), zn, zvec);
  }

  ghost function AfterSearch(c: Coding, k: nat, d: Decoding, zn: nat, zvec: nat, bits: seq<bit>): Read<seq<byte>>
    requires GoodValue(c, k, d) && AnnouncedTables(c.tables, c.sels)
  {
    var (v, left) :- Huffman.ReadCode(Huffman.TablesOf(CodeLengths(c, k)), bits, zn, zvec);
    AfterValue(c, k, d, v, left)
  }

  lemma StillSearching(c: Coding, k: nat, d: Decoding, zn: nat, zvec: nat, bits: seq<bit>)
    requires GoodValue(c, k, d) && AnnouncedTables(c.tables, c.sels) && zn <= Huffman.LONGEST_CODE
    requires Huffman.Searching(CodeLengths(c, k), zn, zvec) && zvec > Huffman.TablesOf(CodeLengths(c, k)).limit[zn]
    ensures Means(Symbol(c, k, d, zn, zvec, false), bits, AfterSearch(c, k, d, zn, zvec, bits))
  {
    hide Huffman.ReadCode, Huffman.TablesOf, Huffman.Searching, AfterValue, GoodValue, CodeLengths, AnnouncedTables;
  }

  lemma SearchMeans(c: Coding, k: nat, d: Decoding, zn: nat, zvec: nat, bits: seq<bit>)
    requires GoodValue(c, k, d) && AnnouncedTables(c.tables, c.sels) && Huffman.Searching(CodeLengths(c, k), zn, zvec)
    ensures Means(Search(c, k, d, zn, zvec), bits, AfterSearch(c, k, d, zn, zvec, bits))
  {
    hide Huffman.TablesOf, Huffman.TablesFor, Huffman.First, AfterValue, GoTaken, GoodCoding, Within, AnnouncedTables, Meaning, Good;
    var lens := CodeLengths(c, k);
    var t := Huffman.TablesOf(lens);
    if zn <= Huffman.LONGEST_CODE { Huffman.LimitOf(t, lens, zn); }
    if zn > Huffman.LONGEST_CODE {
      BadMeans(bits);
    } else if zvec > t.limit[zn] {
      StillSearching(c, k, d, zn, zvec, bits);
    } else {
      FoundSymbol(t, lens, zn, zvec);
      GoTakenMeans(c, k, d, t.perm[zvec - t.base[zn]], bits);
    }
  }

  lemma BadMeans(bits: seq<bit>)
    ensures Means(Bad, bits, DataError)
  {
  }

  // ---------- One request ----------

  /** Serving one request does not change what the stream comes to. */
  ghost predicate Served(s: State, bits: seq<bit>)
    requires Good(s)
  {
    var w := Width(s);
    if |bits| < w then Meaning(s, bits) == NeedMore
    else Means(Next(s, FromBits(bits[..w])), bits[w..], Meaning(s, bits))
  }

  lemma ExpectOnce(bits: seq<bit>, magic: seq<byte>, i: nat)
    requires i < |magic|
    ensures Expect(bits, magic[i..]) == (var (c, left) :- GetBits(bits, 8); if c != magic[i] then DataError else Expect(left, magic[i + 1..]))
  {
    hide GetBits;
    assert magic[i..][1..] == magic[i + 1..] && magic[i..][0] == magic[i];
  }

  lemma ExpectNothing(bits: seq<bit>, magic: seq<byte>)
    ensures Expect(bits, magic[|magic|..]) == Got(true, bits)
  {
  }

  lemma ServeMagic(i: nat, bits: seq<bit>)
    requires i < |STREAM_MAGIC|
    ensures Served(Magic(i), bits)
  {
    hide Expect, AfterLevel, FromBits;
    ExpectOnce(bits, STREAM_MAGIC, i);
    if |bits| >= 8 { ExpectNothing(bits[8..], STREAM_MAGIC); }
  }

  lemma ServeLevel(bits: seq<bit>)
    ensures Served(Level, bits)
  {
    hide DecodeBlocks, FromBits;
  }

  lemma ReadOnBits(bits: seq<bit>)
    ensures ReadOn(bits, 4, 0) == GetBits(bits, 32) && ReadOn(bits, 3, 0) == GetBits(bits, 24)
  {
    ReadOnIs(bits, [], 4);
    ReadOnIs(bits, [], 3);
    assert FromBits([]) == 0;
    hide ReadOn, FromBits;
    if |bits| >= 32 { assert [] + bits[..32] == bits[..32]; }
    if |bits| >= 24 { assert [] + bits[..24] == bits[..24]; }
  }

  /** Byte by byte is all at once. */
  lemma {:induction false} ReadOnIs(bits: seq<bit>, before: seq<bit>, n: nat)
    ensures ReadOn(bits, n, FromBits(before)) ==
            if |bits| < 8 * n then NeedMore else Got(FromBits(before + bits[..8 * n]), bits[8 * n..])
  {
    hide FromBits;
    if n == 0 {
      assert before + bits[..0] == before && bits[0..] == bits;
    } else if |bits| >= 8 {
      var b, left := bits[..8], bits[8..];
      Bits.Pow2Values();
      FromBitsConcat(before, b);
      ReadOnIs(left, before + b, n - 1);
      if |left| >= 8 * (n - 1) {
        assert before + b + left[..8 * (n - 1)] == before + bits[..8 * n];
        assert left[8 * (n - 1)..] == bits[8 * n..];
      }
    }
  }

  lemma EndOnce(bits: seq<bit>, level: nat, combined: bv32)
    ensures DecodeBlocks(bits, level, combined) ==
            (var (kind, left) :- GetBits(bits, 8);
             if kind == 0x17 then AtEndHeader(Context(level, combined), 0, left)
             else if kind == 0x31 then AtBlockHeader(Context(level, combined), 0, left)
             else DataError)
  {
    hide GetBits, Expect, ParseBlock, BlockOutput, ReadOn, BlockCrc.Word, BlockCrc.Combine, BlockCrc.Crc;
    var kind := GetBits(bits, 8);
    if kind.Got? {
      var end := Expect(kind.rest, END_MAGIC);
      if end.Got? { ReadOnBits(end.rest); }
      assert END_MAGIC[0..] == END_MAGIC && BLOCK_MAGIC[0..] == BLOCK_MAGIC;
    }
  }

  lemma ServeKind(ctx: Context, bits: seq<bit>)
    requires GoodContext(ctx)
    ensures Served(Kind(ctx), bits)
  {
    hide DecodeBlocks, FromBits, AtEndHeader, AtBlockHeader;
    EndOnce(bits, ctx.level, ctx.combined);
  }

  lemma HeaderOnce(ctx: Context, bits: seq<bit>)
    ensures AfterHeader(ctx, bits) == AtStoredCrc(ctx, 0, 0, bits)
  {
    hide GetBits, ReadOn, ParseBody, BlockOutput, DecodeBlocks, AfterBlock;
    ReadOnBits(bits);
    var crc := GetBits(bits, 32);
    if crc.Got? {
      var randomised := GetBits(crc.rest, 1);
      if randomised.Got? { ReadOnBits(randomised.rest); }
    }
  }

  lemma ServeBlockHeader(ctx: Context, i: nat, bits: seq<bit>)
    requires GoodContext(ctx) && i < |BLOCK_MAGIC|
    ensures Served(BlockHeader(ctx, i), bits)
  {
    hide Expect, AfterHeader, AtStoredCrc, FromBits;
    ExpectOnce(bits, BLOCK_MAGIC, i);
    if |bits| >= 8 && i == 4 {
      ExpectNothing(bits[8..], BLOCK_MAGIC);
      HeaderOnce(ctx, bits[8..]);
    }
  }

  lemma ServeStoredCrc(ctx: Context, i: nat, v: nat, bits: seq<bit>)
    requires GoodContext(ctx) && i < 4
    ensures Served(StoredCrc(ctx, i, v), bits)
  {
    hide AfterCrc, FromBits;
    ReadOnSkip(bits, 4 - i, v);
  }

  lemma ServeRandBit(ctx: Context, crc: nat, bits: seq<bit>)
    requires GoodContext(ctx)
    ensures Served(RandBit(ctx, crc), bits)
  {
    hide AfterOrigPtr, FromBits, ReadOn;
  }

  lemma ServeOrigPtr(ctx: Context, crc: nat, randomised: nat, i: nat, v: nat, bits: seq<bit>)
    requires GoodContext(ctx) && i < 3
    ensures Served(OrigPtr(ctx, crc, randomised, i, v), bits)
  {
    hide ParseFlags, ParseRows, ParseBody, AfterColumn, FromBits, AtRowBit;
    ReadOnSkip(bits, 3 - i, v);
    if |bits| >= 8 && i == 2 {
      var h := Head(ctx, crc, v * 256 + FromBits(bits[..8]));
      BodyOnce(h, bits[8..]);
    }
  }

  lemma BodyOnce(h: Head, bits: seq<bit>)
    ensures AtRowBit(h, [], bits) == (var (col, left) :- ParseBody(bits, Room(h)); AfterColumn(h, col, left))
  {
    hide ParseFlags, ParseRows, ParseCoded, AfterColumn, UsedBytes;
    var rows := ParseFlags(bits, 16);
    if rows.Got? {
      assert [] + rows.value == rows.value && rows.value[0..] == rows.value;
      var flags := ParseRows(rows.rest, rows.value);
      if flags.Got? { assert [] + flags.value == flags.value; }
    }
  }

  lemma FlagOnce(bits: seq<bit>, n: nat)
    requires n > 0
    ensures ParseFlags(bits, n) == (var (v, left) :- GetBits(bits, 1); Prepend([v == 1], ParseFlags(left, n - 1)))
  {
    OneBit(bits);
  }

  lemma OneBit(bits: seq<bit>)
    ensures bits != [] ==> GetBits(bits, 1) == Got(bits[0], bits[1..]) && FromBits(bits[..1]) == bits[0]
  {
    if bits != [] {
      assert bits[..1][..0] == [];
      assert FromBits(bits[..1]) == bits[0];
    }
  }

  lemma NoFlagsLeft(bits: seq<bit>)
    ensures ParseFlags(bits, 0) == Got([], bits)
  {
  }

  lemma ServeMapping1(h: Head, used16: seq<bool>, bits: seq<bit>)
    requires GoodHead(h) && |used16| < 16
    ensures Served(Mapping1(h, used16), bits)
  {
    hide ParseFlags, AfterRows, FromBits, GoRows, AfterFlags, AtFlagBit;
    FlagOnce(bits, 16 - |used16|);
    if bits != [] {
      var now, left := used16 + [FromBits(bits[..1]) == 1], bits[1..];
      var rest := ParseFlags(left, 16 - |now|);
      if rest.Got? { assert used16 + ([FromBits(bits[..1]) == 1] + rest.value) == now + rest.value; }
      if |now| == 16 {
        NoFlagsLeft(left);
        assert now + [] == now;
        GoRowsMeans(h, now, [], left);
      }
    }
  }

  lemma ServeMapping2(h: Head, used16: seq<bool>, inUse: seq<bool>, bits: seq<bit>)
    requires GoodHead(h) && |used16| == 16 && |inUse| < 256 && used16[|inUse| / 16]
    ensures Served(Mapping2(h, used16, inUse), bits)
  {
    hide ParseFlags, AfterRows, FromBits, GoRows, AfterFlags;
    var n := 16 - |inUse| % 16;
    FlagOnce(bits, n);
    if bits != [] {
      var now, left := inUse + [FromBits(bits[..1]) == 1], bits[1..];
      var rest := ParseFlags(left, n - 1);
      if rest.Got? { assert inUse + ([FromBits(bits[..1]) == 1] + rest.value) == now + rest.value; }
      if n == 1 {
        NoFlagsLeft(left);
        assert now + [] == now;
        GoRowsMeans(h, used16, now, left);
      } else {
        SameRow(|inUse|);
        FlagBitMeans(h, used16, now, left);
      }
    }
  }

  lemma SameRow(n: nat)
    requires n < 256 && n % 16 != 15
    ensures (n + 1) / 16 == n / 16 && (n + 1) % 16 == n % 16 + 1 && n + 1 < 256
  {
  }

  lemma ServeSelector1(h: Head, used: seq<byte>, bits: seq<bit>)
    requires GoodHead(h) && 1 <= |used| <= 256
    ensures Served(Selector1(h, used), bits)
  {
    hide FromBits, ParseTables, StoreUnaries, Syms, AfterColumn, AtSelector, UndoSelectorMtf, Spelled;
    var n := GetBits(bits, 3);
    if n.Got? && 2 <= n.value <= 6 {
      var count := GetBits(n.rest, 15);
      if count.Got? && count.value >= 1 { CodedOnce(h, used, n.value, count.value, count.rest, bits); }
    }
  }

  /** Selectors, tables and values, unrolled from the selectors on. */
  lemma CodedOnce(h: Head, used: seq<byte>, nGroups: nat, n: nat, left: seq<bit>, bits: seq<bit>)
    requires GoodHead(h) && 1 <= |used| <= 256 && AnnouncesSelectors(bits, nGroups, n, left)
    ensures AfterUsed(h, used, bits) == AtSelector(h, used, nGroups, n, [], left)
  {
    hide GetBits, ParseTables, StoreUnaries, Syms, AfterColumn, UndoSelectorMtf, Spelled, AllLengths, AnnouncedTables, AtMost;
    var js := StoreUnaries(left, 0, n, nGroups);
    if js.Got? {
      assert [] + js.value == js.value;
      UndoKnown(Identity(nGroups), js.value, nGroups);
      var sels := UndoSelectorMtf(Identity(nGroups), js.value);
      var tables := ParseTables(js.rest, |used| + 2, nGroups);
      if tables.Got? {
        assert [] + tables.value == tables.value;
        AnnouncedHere(tables.value, sels, |used| + 2);
        SymbolsOnce(Coding(h, used, nGroups, sels, tables.value), tables.rest);
      }
    }
  }

  lemma SymbolsOnce(c: Coding, bits: seq<bit>)
    requires GoodCoding(c) && |c.tables| == c.nGroups && AnnouncedTables(c.tables, c.sels)
    ensures var r := Syms(bits, c.tables, c.sels, |c.used| + 1, 0, StartDecoding(), Room(c.head));
            r.Got? ==> AtMost(r.value, |c.used| - 1) && AtValue(c, 0, StartDecoding(), bits) == AfterColumn(c.head, Spelled(c.used, r.value), r.rest)
    ensures var r := Syms(bits, c.tables, c.sels, |c.used| + 1, 0, StartDecoding(), Room(c.head));
            !r.Got? ==> AtValue(c, 0, StartDecoding(), bits) == r.PropagateFailure()
  {
    hide Syms, AfterColumn, AtMost, Within, AllLengths;
    StartWithin(|c.used|, Room(c.head));
    SymsWithin(bits, c.tables, c.sels, |c.used|, 0, StartDecoding(), Room(c.head));
  }

  lemma ServeSelector2(h: Head, used: seq<byte>, nGroups: nat, bits: seq<bit>)
    requires GoodHead(h) && 1 <= |used| <= 256 && 2 <= nGroups <= 6
    ensures Served(Selector2(h, used, nGroups), bits)
  {
    hide FromBits, AtSelector, GoSelectors;
    var n := GetBits(bits, 15);
    if n.Got? && n.value >= 1 { GoSelectorsMeans(h, used, nGroups, n.value, [], n.rest); }
  }

  lemma UnaryOnce(bits: seq<bit>, j: nat, nGroups: nat)
    ensures ParseUnary(bits, j, nGroups) ==
            (var (v, left) :- GetBits(bits, 1);
             if v == 0 then Got(j, left) else if j + 1 >= nGroups then DataError else ParseUnary(left, j + 1, nGroups))
  {
    OneBit(bits);
  }

  lemma ServeSelector3(h: Head, used: seq<byte>, nGroups: nat, n: nat, js: seq<nat>, j: nat, bits: seq<bit>)
    requires Good(Selector3(h, used, nGroups, n, js, j))
    ensures Served(Selector3(h, used, nGroups, n, js, j), bits)
  {
    hide FromBits, ParseUnary, AtSelector, GoSelectors;
    UnaryOnce(bits, j, nGroups);
    if bits != [] && FromBits(bits[..1]) == 0 && |js| < MAX_SELECTORS {
      GoSelectorsMeans(h, used, nGroups, n, js + [j], bits[1..]);
    }
  }

  lemma TableOnce(bits: seq<bit>, alphaSize: nat, n: nat)
    requires n > 0
    ensures ParseTables(bits, alphaSize, n) ==
            (var (curr, left) :- GetBits(bits, 5);
             var (lens, left') :- ParseDelta(left, curr, alphaSize);
             Prepend([lens], ParseTables(left', alphaSize, n - 1)))
  {
    hide GetBits, ParseDelta;
  }

  ghost function AfterTables(c: Coding, rest: seq<seq<nat>>, bits: seq<bit>): Read<seq<byte>>
    requires GoodCoding(c)
  {
    var all := c.(tables := c.tables + rest);
    if AnnouncedTables(all.tables, all.sels) then AtValue(all, 0, StartDecoding(), bits) else DataError
  }

  lemma AtTableIs(c: Coding, bits: seq<bit>)
    requires GoodCoding(c)
    ensures AtTable(c, bits) == (var (rest, left) :- ParseTables(bits, |c.used| + 2, c.nGroups - |c.tables|); AfterTables(c, rest, left))
  {
    hide ParseTables, AtValue, AllLengths, AnnouncedTables;
    var rest := ParseTables(bits, |c.used| + 2, c.nGroups - |c.tables|);
    if rest.Got? {
      TablesJoin(c.tables, rest.value, |c.used| + 2);
      CodingAnnounced(c.(tables := c.tables + rest.value));
    }
  }

  /** A new table, from its first length on. */
  lemma TableBegins(c: Coding, curr: nat, bits: seq<bit>)
    requires GoodCoding(c) && |c.tables| < c.nGroups
    ensures GoodLength(c, [])
    ensures AtLength(c, [], curr, bits) ==
            (var (lens, left) :- ParseDelta(bits, curr, |c.used| + 2);
             var (rest, left') :- Prepend([lens], ParseTables(left, |c.used| + 2, c.nGroups - |c.tables| - 1));
             AfterTables(c, rest, left'))
  {
    hide ParseDelta, ParseTables, AtValue, AtTable, AnnouncedTables;
    var lens := ParseDelta(bits, curr, |c.used| + 2);
    if lens.Got? {
      assert [] + lens.value == lens.value;
      TablesJoin(c.tables, [lens.value], |c.used| + 2);
      AtTableIs(c.(tables := c.tables + [lens.value]), lens.rest);
      var more := ParseTables(lens.rest, |c.used| + 2, c.nGroups - |c.tables| - 1);
      if more.Got? { assert c.tables + [lens.value] + more.value == c.tables + ([lens.value] + more.value); }
    }
  }

  lemma ServeCoding1(c: Coding, bits: seq<bit>)
    requires GoodCoding(c) && |c.tables| < c.nGroups
    ensures Served(Coding1(c), bits)
  {
    hide FromBits, AtTable, AtLength, GoLength, GoodCoding, Good, Meaning;
    AtFirstLength(c, bits);
    if |bits| >= 5 { GoLengthMeans(c, [], FromBits(bits[..5]), bits[5..]); }
    Coding1Means(c, bits);
  }

  lemma Coding1Means(c: Coding, bits: seq<bit>)
    requires GoodCoding(c) && |c.tables| < c.nGroups
    ensures Good(Coding1(c)) && Meaning(Coding1(c), bits) == AtTable(c, bits)
  {
    hide AtTable, GoodCoding;
  }

  /** A table starts with five bits of its first length. */
  lemma AtFirstLength(c: Coding, bits: seq<bit>)
    requires GoodCoding(c) && |c.tables| < c.nGroups
    ensures GoodLength(c, [])
    ensures AtTable(c, bits) == if |bits| < 5 then NeedMore else AtLength(c, [], FromBits(bits[..5]), bits[5..])
  {
    hide FromBits, ParseTables, ParseDelta, AtTable, AtLength, AfterTables, GoodCoding, GoodLength;
    AtTableIs(c, bits);
    TableOnce(bits, |c.used| + 2, c.nGroups - |c.tables|);
    TableBegins(c, if |bits| < 5 then 0 else FromBits(bits[..5]), if |bits| < 5 then [] else bits[5..]);
  }

  lemma DeltaOnce(bits: seq<bit>, curr: nat, n: nat)
    requires n > 0 && 1 <= curr <= Huffman.LONGEST_CODE
    ensures ParseDelta(bits, curr, n) ==
            (var (v, left) :- GetBits(bits, 1);
             if v == 0 then Prepend([curr], ParseDelta(left, curr, n - 1))
             else
               var (w, left') :- GetBits(left, 1);
               ParseDelta(left', if w == 0 then curr + 1 else curr - 1, n))
  {
    OneBit(bits);
    if bits != [] {
      OneBit(bits[1..]);
      if |bits| > 1 { assert bits[1..][1..] == bits[2..]; }
    }
  }

  lemma NoLengthLeft(bits: seq<bit>, curr: int)
    ensures ParseDelta(bits, curr, 0) == Got([], bits)
  {
  }

  lemma ServeCoding2(c: Coding, lens: seq<nat>, curr: nat, bits: seq<bit>)
    requires GoodLength(c, lens) && 1 <= curr <= Huffman.LONGEST_CODE
    ensures Served(Coding2(c, lens, curr), bits)
  {
    hide FromBits, ParseDelta, AtTable, GoLength, GoodCoding, Meaning, AllLengths;
    var n := |c.used| + 2 - |lens|;
    DeltaOnce(bits, curr, n);
    LengthMeans(c, lens, curr, bits);
    if bits != [] {
      var left := bits[1..];
      if FromBits(bits[..1]) == 0 {
        var now := lens + [curr];
        var rest := ParseDelta(left, curr, n - 1);
        if rest.Got? { assert lens + ([curr] + rest.value) == now + rest.value; }
        if n == 1 {
          NoLengthLeft(left, curr);
          assert now + [] == now;
          LastLengthMeans(c, now, curr, left);
        } else {
          GoLengthMeans(c, now, curr, left);
        }
      } else {
        DirectionMeans(c, lens, curr, left);
      }
    }
  }

  lemma LengthMeans(c: Coding, lens: seq<nat>, curr: int, bits: seq<bit>)
    requires GoodLength(c, lens) && 1 <= curr <= Huffman.LONGEST_CODE
    ensures Means(Coding2(c, lens, curr), bits, AtLength(c, lens, curr, bits))
  {
    hide AtLength, GoodLength;
  }

  lemma DirectionMeans(c: Coding, lens: seq<nat>, curr: int, bits: seq<bit>)
    requires GoodLength(c, lens) && 1 <= curr <= Huffman.LONGEST_CODE
    ensures Means(Coding3(c, lens, curr), bits, AtDirection(c, lens, curr, bits))
  {
    hide AtDirection, GoodLength;
  }

  lemma ServeCoding3(c: Coding, lens: seq<nat>, curr: int, bits: seq<bit>)
    requires GoodLength(c, lens) && 1 <= curr <= Huffman.LONGEST_CODE
    ensures Served(Coding3(c, lens, curr), bits)
  {
    hide FromBits, AtLength, GoLength, GoodLength;
    if bits != [] { GoLengthMeans(c, lens, if FromBits(bits[..1]) == 0 then curr + 1 else curr - 1, bits[1..]); }
  }

  lemma SymbolMeans(c: Coding, k: nat, d: Decoding, zn: nat, zvec: nat, first: bool, bits: seq<bit>)
    requires Good(Symbol(c, k, d, zn, zvec, first))
    ensures Means(Symbol(c, k, d, zn, zvec, first), bits, AtSymbol(c, k, d, zn, zvec, first, bits))
  {
    hide AtSymbol, GoodValue;
  }

  lemma ServeSymbol(c: Coding, k: nat, d: Decoding, zn: nat, zvec: nat, first: bool, bits: seq<bit>)
    requires Good(Symbol(c, k, d, zn, zvec, first))
    ensures Served(Symbol(c, k, d, zn, zvec, first), bits)
  {
    hide FromBits, Huffman.TablesOf, Huffman.ReadCode, Huffman.Searching, AfterValue, Search, GoodValue, CodeLengths, AnnouncedTables, Meaning;
    ValueAnnounced(c, k, d);
    SymbolMeans(c, k, d, zn, zvec, first, bits);
    var lens := CodeLengths(c, k);
    var t := Huffman.TablesOf(lens);
    if first {
      FirstSearch(t, lens, bits);
      if |bits| >= zn { SearchMeans(c, k, d, zn, FromBits(bits[..zn]), bits[zn..]); }
    } else {
      NextSearch(t, lens, bits, zn, zvec);
      if bits != [] { SearchMeans(c, k, d, zn + 1, 2 * zvec + FromBits(bits[..1]), bits[1..]); }
    }
  }

  lemma ValueAnnounced(c: Coding, k: nat, d: Decoding)
    requires GoodValue(c, k, d)
    ensures AnnouncedTables(c.tables, c.sels) && GoodCoding(c) && |c.tables| == c.nGroups && k / GROUP_SIZE < |c.sels|
  {
    CodingAnnounced(c);
  }

  lemma FirstSearch(t: Huffman.Tables, lens: seq<nat>, bits: seq<bit>)
    requires lens != [] && Huffman.SetUpFor(t, lens)
    ensures Huffman.Shaped(t) && Huffman.MinOf(lens) >= 1
    ensures var zn := Huffman.MinOf(lens);
            Huffman.ReadSymbol(t, bits) == if |bits| < zn then NeedMore else Huffman.ReadCode(t, bits[zn..], zn, FromBits(bits[..zn]))
    ensures forall v: nat :: Huffman.Searching(lens, Huffman.MinOf(lens), v)
  {
    hide Huffman.ReadCode, Huffman.End, FromBits;
    Huffman.FirstIsZero(lens, Huffman.MinOf(lens));
  }

  lemma NextSearch(t: Huffman.Tables, lens: seq<nat>, bits: seq<bit>, zn: nat, zvec: nat)
    requires lens != [] && Huffman.SetUpFor(t, lens) && zn <= Huffman.LONGEST_CODE && Huffman.Searching(lens, zn, zvec) && zvec > t.limit[zn]
    ensures Huffman.Shaped(t)
    ensures Huffman.ReadCode(t, bits, zn, zvec) ==
            if bits == [] then NeedMore else Huffman.ReadCode(t, bits[1..], zn + 1, 2 * zvec + FromBits(bits[..1]))
    ensures bits != [] ==> Huffman.Searching(lens, zn + 1, 2 * zvec + FromBits(bits[..1]))
  {
    hide FromBits, Huffman.End, Huffman.First, Huffman.TablesFor;
    Huffman.LimitOf(t, lens, zn);
    OneBit(bits);
    if bits != [] { Huffman.SearchOn(lens, zn, zvec, bits[0]); }
  }

  lemma ServeEndHeader(ctx: Context, i: nat, bits: seq<bit>)
    requires GoodContext(ctx) && i < |END_MAGIC|
    ensures Served(EndHeader(ctx, i), bits)
  {
    hide Expect, AtCombinedCrc, FromBits;
    ExpectOnce(bits, END_MAGIC, i);
    if |bits| >= 8 { ExpectNothing(bits[8..], END_MAGIC); }
  }

  lemma ServeCombinedCrc(ctx: Context, i: nat, v: nat, bits: seq<bit>)
    requires GoodContext(ctx) && i < 4
    ensures Served(CombinedCrc(ctx, i, v), bits)
  {
    hide FromBits, BlockCrc.Word;
    ReadOnSkip(bits, 4 - i, v);
  }

  /** Every request, whatever the state. */
  lemma Serve(s: State, bits: seq<bit>)
    requires Good(s) && Width(s) > 0
    ensures Served(s, bits)
  {
    hide Meaning, Next, Served;
    match s
    case Magic(i) => ServeMagic(i, bits);
    case Level => ServeLevel(bits);
    case Kind(ctx) => ServeKind(ctx, bits);
    case BlockHeader(ctx, i) => ServeBlockHeader(ctx, i, bits);
    case StoredCrc(ctx, i, v) => ServeStoredCrc(ctx, i, v, bits);
    case RandBit(ctx, crc) => ServeRandBit(ctx, crc, bits);
    case OrigPtr(ctx, crc, randomised, i, v) => ServeOrigPtr(ctx, crc, randomised, i, v, bits);
    case Mapping1(h, used16) => ServeMapping1(h, used16, bits);
    case Mapping2(h, used16, inUse) => ServeMapping2(h, used16, inUse, bits);
    case Selector1(h, used) => ServeSelector1(h, used, bits);
    case Selector2(h, used, nGroups) => ServeSelector2(h, used, nGroups, bits);
    case Selector3(h, used, nGroups, n, js, j) => ServeSelector3(h, used, nGroups, n, js, j, bits);
    case Coding1(c) => ServeCoding1(c, bits);
    case Coding2(c, lens, curr) => ServeCoding2(c, lens, curr, bits);
    case Coding3(c, lens, curr) => ServeCoding3(c, lens, curr, bits);
    case Symbol(c, k, d, zn, zvec, first) => ServeSymbol(c, k, d, zn, zvec, first, bits);
    case EndHeader(ctx, i) => ServeEndHeader(ctx, i, bits);
    case CombinedCrc(ctx, i, v) => ServeCombinedCrc(ctx, i, v, bits);
    case _ => assert false;
  }

  // ---------- Stopping and resuming ----------

  const START := Magic(0)

  /** The machine started on a stream means what decoding the stream means. */
  lemma StartMeans(bits: seq<bit>)
    ensures Means(START, bits, DecodeStream(bits))
  {
    hide Expect, DecodeBlocks, GetBits;
    assert STREAM_MAGIC[0..] == STREAM_MAGIC;
  }

  /** Requests served as far as the bits go; it stops for lack of bits or with
      something to report, and what the stream comes to, whatever bits follow, is
      what it comes to from there. */
  lemma {:induction false} DriveMeans(s: State, bits: seq<bit>, future: seq<bit>)
    requires Good(s)
    ensures var (s', left) := Drive(Width, Next, s, bits);
            && Good(s') && Meaning(s', left + future) == Meaning(s, bits + future)
            && (Width(s') == 0 || |left| < Width(s'))
    decreases |bits|
  {
    hide Meaning, Next, FromBits, Good;
    var w := Width(s);
    if w > 0 && |bits| >= w {
      var all := bits + future;
      Serve(s, all);
      assert all[..w] == bits[..w] && all[w..] == bits[w..] + future;
      DriveMeans(Next(s, FromBits(bits[..w])), bits[w..], future);
    }
  }
}
