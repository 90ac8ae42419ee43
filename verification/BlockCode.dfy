/**
 A whole compressed block after its magic number (BZ2_compressBlock and
 sendMTFValues in compress.c, BZ2_decompress in decompress.c): its bits, its
 parser with every check the decoder makes, and the round trip.
 */
module BlockCode {
  import opened Wrappers
  import opened Bits
  import opened BitSeq
  import opened Rotation
  import opened Permutation
  import opened InverseBwt
  import opened Mtf
  import opened MtfEncoder
  import opened ValueDecoder
  import opened BlockFormat
  import opened ValueCode
  import Huffman

  /** What sendMTFValues transmits. */
  datatype Body = Body(inUse: seq<bool>, tables: seq<seq<nat>>, sels: seq<nat>, vals: seq<nat>)

  function Used(inUse: seq<bool>): (r: seq<byte>)
    requires |inUse| == 256
    ensures |r| <= 256 && Distinct(r) && forall c :: c in r <==> 0 <= c < 256 && inUse[c]
  {
    UsedBytes(inUse, 256)
  }

  /** The constraints on what sendMTFValues chooses: any two to six complete
      tables with lengths up to 17, and any selector for each group, no more than
      the selector arrays of either side hold. */
  ghost predicate Transmissible(x: Body) {
    && |x.inUse| == 256 && 2 <= |x.tables| <= 6 && 1 <= |x.sels| <= MAX_SELECTORS
    && 1 <= |Used(x.inUse)| && Sent(x.tables, x.sels, x.vals, |Used(x.inUse)| + 1)
  }

  lemma SelectorsKnown(n: nat, sels: seq<nat>)
    requires forall i :: 0 <= i < |sels| ==> sels[i] < n
    ensures forall s :: s in sels ==> s in Identity(n)
  {
    forall s | s in sels ensures s in Identity(n) {
      assert Identity(n)[s] == s;
    }
  }

  ghost function SelectorBits(nGroups: nat, sels: seq<nat>): seq<bit>
    requires forall i :: 0 <= i < |sels| ==> sels[i] < nGroups
  {
    SelectorsKnown(nGroups, sels);
    ToBits(nGroups, 3) + (ToBits(|sels|, 15) + UnaryBits(SelectorMtf(Identity(nGroups), sels)))
  }

  lemma TablesAnnounced(x: Body)
    requires Transmissible(x)
    ensures AnnouncedTables(x.tables, x.sels)
    ensures forall i :: 0 <= i < |x.vals| ==> Codable(x.tables, x.sels, x.vals, i)
    ensures AllLengths(x.tables, |Used(x.inUse)| + 2)
    ensures forall i :: 0 <= i < |x.sels| ==> x.sels[i] < |x.tables|
  {
    hide Huffman.End, Codable;
    SentCodable(x.tables, x.sels, x.vals, |Used(x.inUse)| + 1);
  }

  ghost function BodyBits(x: Body): seq<bit>
    requires Transmissible(x)
  {
    hide Sent, AnnouncedTables, Codable;
    TablesAnnounced(x);
    MappingBits(x.inUse) + (SelectorBits(|x.tables|, x.sels) + (TablesBits(x.tables) + ValueBits(x.tables, x.sels, x.vals, 0)))
  }

  // ---------- Parsing ----------

  /** Number of groups, number of selectors, the selectors themselves. */
  ghost function ParseSelectors(bits: seq<bit>): (r: Read<(nat, seq<nat>)>)
    ensures r.Got? ==> 2 <= r.value.0 <= 6 && |r.rest| <= |bits|
    ensures r.Got? ==> |r.value.1| <= MAX_SELECTORS && forall i :: 0 <= i < |r.value.1| ==> r.value.1[i] < r.value.0
  {
    var (nGroups, left) :- GetBits(bits, 3);
    if nGroups < 2 || nGroups > 6 then DataError
    else
      var (nSelectors, left') :- GetBits(left, 15);
      if nSelectors < 1 then DataError
      else
        var (js, left'') :- StoreUnaries(left', 0, nSelectors, nGroups);
        UndoKnown(Identity(nGroups), js, nGroups);
        Got((nGroups, UndoSelectorMtf(Identity(nGroups), js)), left'')
  }

  /** What the decoder has announced when it comes to the selectors. */
  ghost predicate AnnouncesSelectors(bits: seq<bit>, nGroups: nat, nSelectors: nat, left: seq<bit>) {
    && 2 <= nGroups <= 6 && nSelectors >= 1 && |bits| >= 18
    && GetBits(bits, 3) == Got(nGroups, bits[3..]) && GetBits(bits[3..], 15) == Got(nSelectors, left)
  }

  /** The decoder's stores stay inside its selector arrays exactly when it
      announces no more than MAX_SELECTORS, or its reading stops before it has
      read one selector more. */
  lemma SelectorsInBounds(bits: seq<bit>, nGroups: nat, nSelectors: nat, left: seq<bit>)
    requires AnnouncesSelectors(bits, nGroups, nSelectors, left)
    ensures !ParseSelectors(bits).Overrun? <==>
              nSelectors <= MAX_SELECTORS || !ParseUnaries(left, MAX_SELECTORS + 1, nGroups).Got?
  {
    hide GetBits, ParseUnaries, StoreUnaries;
    StoresInBounds(left, 0, nSelectors, nGroups);
  }

  /** One selector too many, all of them zero, is stored past the end. */
  lemma OneSelectorTooMany(rest: seq<bit>)
    ensures ParseSelectors(ToBits(2, 3) + (ToBits(MAX_SELECTORS + 1, 15) + (Repeat<bit>(0, MAX_SELECTORS + 1) + rest))).Overrun?
  {
    hide ToBits, GetBits, ParseUnaries, StoreUnaries, Repeat;
    SmallPowers();
    hide Pow2;
    var n := MAX_SELECTORS + 1;
    var zeros := Repeat<bit>(0, n) + rest;
    var counted := ToBits(n, 15) + zeros;
    GetWritten(2, 3, counted);
    GetWritten(n, 15, zeros);
    ZeroSelectors(n);
    UnariesParse(Repeat<nat>(0, n), 2, rest);
    StoresInBounds(zeros, 0, n, 2);
  }

  lemma {:induction false} ZeroSelectors(n: nat)
    ensures UnaryBits(Repeat<nat>(0, n)) == Repeat<bit>(0, n)
  {
    if n > 0 {
      ZeroSelectors(n - 1);
      assert Repeat<nat>(0, n)[1..] == Repeat<nat>(0, n - 1);
    }
  }

  lemma {:induction false} UndoKnown(pos: seq<nat>, js: seq<nat>, n: nat)
    requires forall i :: 0 <= i < |js| ==> js[i] < |pos|
    requires forall i :: 0 <= i < |pos| ==> pos[i] < n
    ensures forall i :: 0 <= i < |UndoSelectorMtf(pos, js)| ==> UndoSelectorMtf(pos, js)[i] < n
    decreases |js|
  {
    if js != [] { UndoKnown(Front(pos, js[0]), js[1..], n); }
  }

  /** Selectors, tables and values for the bytes in use: the last column. */
  ghost function ParseCoded(bits: seq<bit>, used: seq<byte>, room: nat): (r: Read<seq<byte>>)
    requires 1 <= |used| <= 256
    ensures r.Got? ==> |r.rest| <= |bits| && |r.value| <= room
  {
    hide AnnouncedTables, ParseTables, ParseSelectors, Syms, AllLengths, AtMost;
    var n := |used|;
    var (groups, left) :- ParseSelectors(bits);
    var (tables, left') :- ParseTables(left, n + 2, groups.0);
    AnnouncedHere(tables, groups.1, n + 2);
    StartWithin(n, room);
    SymsWithin(left', tables, groups.1, n, 0, StartDecoding(), room);
    var (syms, end) :- Syms(left', tables, groups.1, n + 1, 0, StartDecoding(), room);
    Got(Spelled(used, syms), end)
  }

  /** The last column. */
  ghost function ParseBody(bits: seq<bit>, room: nat): (r: Read<seq<byte>>)
    ensures r.Got? ==> |r.rest| <= |bits| && |r.value| <= room
  {
    hide ParseMapping, ParseCoded, UsedBytes;
    var (inUse, left) :- ParseMapping(bits);
    var used := Used(inUse);
    if used == [] then DataError else ParseCoded(left, used, room)
  }

  lemma AnnouncedHere(tables: seq<seq<nat>>, sels: seq<nat>, alphaSize: nat)
    requires 0 < alphaSize <= Huffman.MAX_ALPHA_SIZE && AllLengths(tables, alphaSize)
    requires forall i :: 0 <= i < |sels| ==> sels[i] < |tables|
    ensures AnnouncedTables(tables, sels)
  {
  }

  /** A block as the decoder holds it before the inverse transform. */
  datatype Block = Block(crc: nat, origPtr: nat, col: seq<byte>)

  const BLOCK_UNIT := 100000

  /** Symbols back to bytes. */
  function Spelled(used: seq<byte>, syms: seq<nat>): (r: seq<byte>)
    requires used != [] && AtMost(syms, |used| - 1)
    ensures |r| == |syms| && forall i :: 0 <= i < |r| ==> r[i] == used[syms[i]]
  {
    seq(|syms|, i requires 0 <= i < |syms| => used[syms[i]])
  }

  /** The last column that MTF values stand for. */
  ghost function Column(used: seq<byte>, vals: seq<nat>, room: nat): (r: Option<seq<byte>>)
    requires 1 <= |used| <= 256 && forall i :: 0 <= i < |vals| ==> vals[i] <= |used|
    ensures r.Some? ==> |r.value| <= room
  {
    DecodeWithin(Identity(256), vals, room, |used|);
    assert Decode(Identity(256), vals, room).Some? ==> AtMost(Decode(Identity(256), vals, room).value, |used| - 1);
    match Decode(Identity(256), vals, room)
    case None => None
    case Some(syms) => Some(Spelled(used, syms))
  }

  /** A block whose randomised bit is set is outside this model and rejected. */
  ghost function ParseBlock(bits: seq<bit>, level: nat): (r: Read<Block>)
    ensures r.Got? ==> r.value.origPtr < |r.value.col| <= BLOCK_UNIT * level && |r.rest| < |bits|
  {
    hide ParseBody, FromBits;
    var (crc, left) :- GetBits(bits, 32);
    var (randomised, left1) :- GetBits(left, 1);
    var (origPtr, left2) :- GetBits(left1, 24);
    if randomised == 1 || origPtr > 10 + BLOCK_UNIT * level then DataError
    else
      var (col, end) :- ParseBody(left2, BLOCK_UNIT * level);
      if origPtr >= |col| then DataError else Got(Block(crc, origPtr, col), end)
  }

  // ---------- Round trip ----------

  lemma SelectorsParse(nGroups: nat, sels: seq<nat>, rest: seq<bit>)
    requires 2 <= nGroups <= 6 && 1 <= |sels| <= MAX_SELECTORS && forall i :: 0 <= i < |sels| ==> sels[i] < nGroups
    ensures ParseSelectors(SelectorBits(nGroups, sels) + rest) == Got((nGroups, sels), rest)
  {
    hide ToBits, GetBits, UnaryBits, ParseUnaries, StoreUnaries, SelectorMtf, UndoSelectorMtf;
    SelectorsKnown(nGroups, sels);
    SelectorRoundTrip(Identity(nGroups), sels);
    var js := SelectorMtf(Identity(nGroups), sels);
    SmallPowers();
    hide Pow2;
    UnariesParse(js, nGroups, rest);
    StoresInBounds(UnaryBits(js) + rest, 0, |sels|, nGroups);
    GetWritten(|sels|, 15, UnaryBits(js) + rest);
    GetWritten(nGroups, 3, ToBits(|sels|, 15) + (UnaryBits(js) + rest));
    assert SelectorBits(nGroups, sels) + rest == ToBits(nGroups, 3) + (ToBits(|sels|, 15) + (UnaryBits(js) + rest));
  }

  lemma SmallPowers()
    ensures Pow2(1) == 2 && Pow2(3) == 8 && Pow2(15) == 32768 && Pow2(24) == 0x100_0000 && Pow2(32) == 0x1_0000_0000
  {
    Pow2Values();
    Pow2Add(8, 7);
    assert Pow2(7) == 128;
  }

  /** Whatever tables and selectors are chosen, the decoder gets the column that
      the values stand for. */
  lemma BodyParses(x: Body, room: nat, rest: seq<bit>)
    requires Transmissible(x)
    ensures |x.vals| > 0 && 1 <= |Used(x.inUse)| <= 256 && forall i :: 0 <= i < |x.vals| - 1 ==> x.vals[i] <= |Used(x.inUse)|
    ensures var col := Column(Used(x.inUse), x.vals[..|x.vals| - 1], room);
            col.Some? ==> ParseBody(BodyBits(x) + rest, room) == Got(col.value, rest)
  {
    hide Sent, AnnouncedTables, Codable, MappingBits, ParseMapping, ParseCoded, UsedBytes, SelectorBits, TablesBits, ValueBits, Column;
    ValuesInAlphabet(x);
    TablesAnnounced(x);
    var coded := SelectorBits(|x.tables|, x.sels) + (TablesBits(x.tables) + ValueBits(x.tables, x.sels, x.vals, 0));
    MappingParses(x.inUse, coded + rest);
    CodedParses(x, room, rest);
    assert BodyBits(x) + rest == MappingBits(x.inUse) + (coded + rest);
  }

  lemma ValuesInAlphabet(x: Body)
    requires Transmissible(x)
    ensures |x.vals| > 0 && 1 <= |Used(x.inUse)| <= 256 && x.vals[|x.vals| - 1] == |Used(x.inUse)| + 1
    ensures forall i :: 0 <= i < |x.vals| - 1 ==> x.vals[i] <= |Used(x.inUse)|
  {
  }

  lemma CodedParses(x: Body, room: nat, rest: seq<bit>)
    requires Transmissible(x) && AnnouncedTables(x.tables, x.sels)
    requires forall i :: 0 <= i < |x.vals| ==> Codable(x.tables, x.sels, x.vals, i)
    requires AllLengths(x.tables, |Used(x.inUse)| + 2)
    requires forall i :: 0 <= i < |x.sels| ==> x.sels[i] < |x.tables|
    requires |x.vals| > 0 && 1 <= |Used(x.inUse)| <= 256 && forall i :: 0 <= i < |x.vals| - 1 ==> x.vals[i] <= |Used(x.inUse)|
    ensures var coded := SelectorBits(|x.tables|, x.sels) + (TablesBits(x.tables) + ValueBits(x.tables, x.sels, x.vals, 0));
            var col := Column(Used(x.inUse), x.vals[..|x.vals| - 1], room);
            col.Some? ==> ParseCoded(coded + rest, Used(x.inUse), room) == Got(col.value, rest)
  {
    hide Sent, AnnouncedTables, Codable, Used, SelectorBits, ParseSelectors, TablesBits, ParseTables, ValueBits, ParseValues, Syms, Decode, TakeAll;
    var used, vals := Used(x.inUse), x.vals[..|x.vals| - 1];
    var n := |used|;
    var values := ValueBits(x.tables, x.sels, x.vals, 0) + rest;
    SelectorsParse(|x.tables|, x.sels, TablesBits(x.tables) + values);
    TablesParse(x.tables, n + 2, values);
    ValuesParse(x.tables, x.sels, x.vals, n + 1, 0, rest);
    assert x.vals[0..|x.vals| - 1] == vals;
    SymsDecode(values, x.tables, x.sels, n + 1, 0, StartDecoding(), room);
    TakeAllClean(vals, n, room);
    assert SelectorBits(|x.tables|, x.sels) + (TablesBits(x.tables) + ValueBits(x.tables, x.sels, x.vals, 0)) + rest
        == SelectorBits(|x.tables|, x.sels) + (TablesBits(x.tables) + values);
  }

  /** Taking the values one by one from the start is the clean decoder. */
  lemma TakeAllClean(vals: seq<nat>, n: nat, room: nat)
    requires 1 <= n <= 256 && forall i :: 0 <= i < |vals| ==> vals[i] <= n
    ensures TakeAll(StartDecoding(), vals, n + 1, room) == Decode(Identity(256), vals, room)
  {
    hide Decode, TakeAll;
    ValueDecoder.NoDigits();
    TakeAllDecodes(StartDecoding(), [], vals, n + 1, room);
    assert [] + vals == vals;
    var r := Decode(Identity(256), vals, room);
    if r.Some? { assert [] + r.value == r.value; }
  }

  lemma NonEmptyValues(x: Body)
    requires Transmissible(x)
    ensures |x.vals| > 0
  {
  }

  /** The symbols of a column: positions in the alphabet. */
  function SymbolsOf(used: seq<byte>, col: seq<byte>): (r: seq<nat>)
    requires forall c :: c in col ==> c in used
    ensures |r| == |col| && forall i :: 0 <= i < |col| ==> r[i] < |used| && used[r[i]] == col[i]
    ensures forall x :: x in r ==> x in Identity(|used|)
  {
    var r := seq(|col|, i requires 0 <= i < |col| => IndexOf(used, col[i]));
    SelectorsKnown(|used|, r);
    r
  }

  /** What generateMTFValues makes of a column. */
  function ValuesOf(used: seq<byte>, col: seq<byte>): seq<nat>
    requires used != [] && forall c :: c in col ==> c in used
  {
    Encode(Identity(|used|), 0, SymbolsOf(used, col)) + [|used| + 1]
  }

  lemma ColumnRoundTrip(used: seq<byte>, col: seq<byte>, room: nat)
    requires 1 <= |used| <= 256 && (forall c :: c in col ==> c in used) && |col| <= room < 0x3f_ffff
    ensures var vals := ValuesOf(used, col);
            && (forall i :: 0 <= i < |vals| - 1 ==> vals[i] <= |used|)
            && Column(used, vals[..|vals| - 1], room) == Some(col)
  {
    hide Decode, Encode, Repeat;
    var syms := SymbolsOf(used, col);
    var list := Identity(|used|);
    EncodeBound(list, 0, syms);
    DecodeEncode(list, Identity(256)[|used|..], 0, syms, room);
    assert list + Identity(256)[|used|..] == Identity(256);
    EmptyRepeat(list[0], syms);
    var vals := ValuesOf(used, col);
    assert vals[..|vals| - 1] == Encode(list, 0, syms);
    DecodeWithin(Identity(256), vals[..|vals| - 1], room, |used|);
    assert Spelled(used, syms) == col;
  }

  // ---------- The whole block ----------

  /** x transmits the sorted rotations of b, rotation 0 standing at row orig. */
  ghost predicate Transmits(x: Body, b: seq<byte>, ptr: seq<nat>, orig: nat) {
    && Transmissible(x) && b != [] && SortedRotations(b, ptr) && orig < |b| && ptr[orig] == 0
    && (forall c :: c in b ==> x.inUse[c])
    && (LastColumnBytes(b, ptr); x.vals == ValuesOf(Used(x.inUse), LastColumn(b, ptr)))
  }

  lemma LastColumnBytes(b: seq<byte>, ptr: seq<nat>)
    requires b != [] && SortedRotations(b, ptr)
    ensures forall c :: c in LastColumn(b, ptr) ==> c in b
  {
  }

  ghost function BlockBits(crc: nat, origPtr: nat, x: Body): seq<bit>
    requires Transmissible(x)
  {
    ToBits(crc, 32) + (ToBits(0, 1) + (ToBits(origPtr, 24) + BodyBits(x)))
  }

  /** The decoder parses what the encoder sends: no check fires, and it holds
      the block's CRC, starting row and last column. */
  lemma BlockParses(crc: nat, b: seq<byte>, ptr: seq<nat>, orig: nat, x: Body, level: nat, rest: seq<bit>)
    requires crc < 0x1_0000_0000 && Transmits(x, b, ptr, orig) && |b| <= BLOCK_UNIT * level && level <= 9
    ensures ParseBlock(BlockBits(crc, orig, x) + rest, level) == Got(Block(crc, orig, LastColumn(b, ptr)), rest)
  {
    hide ToBits, FromBits, GetBits, BodyBits, ParseBody, Column, ValuesOf, LastColumn, SortedRotations, Transmits, Transmissible, UsedBytes;
    ColumnReceived(x, b, ptr, orig, level);
    SmallPowers();
    hide Pow2;
    var used := Used(x.inUse);
    var tail2 := ToBits(orig, 24) + (BodyBits(x) + rest);
    var tail1 := ToBits(0, 1) + tail2;
    var bits := ToBits(crc, 32) + tail1;
    assert BlockBits(crc, orig, x) + rest == bits;
    GetWritten(crc, 32, tail1);
    GetWritten(0, 1, tail2);
    GetWritten(orig, 24, BodyBits(x) + rest);
    BodyParses(x, BLOCK_UNIT * level, rest);
  }

  lemma ColumnReceived(x: Body, b: seq<byte>, ptr: seq<nat>, orig: nat, level: nat)
    requires Transmits(x, b, ptr, orig) && |b| <= BLOCK_UNIT * level && level <= 9
    ensures Transmissible(x) && |x.inUse| == 256 && |x.vals| > 0 && orig < |b| <= 900000
    ensures |ptr| == |b| && (forall i :: 0 <= i < |ptr| ==> ptr[i] < |b|)
    ensures var used := Used(x.inUse);
            && 1 <= |used| <= 256 && (forall i :: 0 <= i < |x.vals| - 1 ==> x.vals[i] <= |used|)
            && Column(used, x.vals[..|x.vals| - 1], BLOCK_UNIT * level) == Some(LastColumn(b, ptr))
  {
    hide Column, ValuesOf, LastColumn, UsedBytes;
    AlphabetKnown(x);
    NonEmptyValues(x);
    LastColumnBytes(b, ptr);
    ColumnRoundTrip(Used(x.inUse), LastColumn(b, ptr), BLOCK_UNIT * level);
  }

  lemma AlphabetKnown(x: Body)
    requires Transmissible(x)
    ensures |x.inUse| == 256 && 1 <= |Used(x.inUse)| <= 256
  {
  }

  /** The first m bytes of the inverse transform. */
  ghost function Walked(col: seq<byte>, orig: nat, m: nat): (r: seq<byte>)
    requires orig < |col|
    ensures |r| == m && forall k :: 0 <= k < m ==> r[k] == WalkByte(col, orig, k)
  {
    seq(m, k requires 0 <= k < m => WalkByte(col, orig, k))
  }

  /** The inverse transform of a transmitted block is the block. */
  lemma BlockRecovered(b: seq<byte>, ptr: seq<nat>, orig: nat)
    requires b != [] && SortedRotations(b, ptr) && orig < |b| && ptr[orig] == 0
    ensures Walked(LastColumn(b, ptr), orig, |b|) == b
  {
    hide WalkByte, LastColumn;
    var col := LastColumn(b, ptr);
    forall k | 0 <= k < |b| ensures WalkByte(col, orig, k) == b[k] {
      WalkRecoversBlock(b, ptr, orig, k);
    }
  }

  // ---------- More input ----------

  lemma SelectorsSurvive(bits: seq<bit>, more: seq<bit>)
    ensures Survives(ParseSelectors(bits), ParseSelectors(bits + more), more)
  {
    hide GetBits, StoreUnaries, UndoSelectorMtf;
    BitsSurvive(bits, 3, more);
    var nGroups := GetBits(bits, 3);
    if nGroups.Got? && 2 <= nGroups.value <= 6 {
      BitsSurvive(nGroups.rest, 15, more);
      var count := GetBits(nGroups.rest, 15);
      if count.Got? { StoresSurvive(count.rest, 0, count.value, nGroups.value, more); }
    }
  }

  lemma CodedSurvives(bits: seq<bit>, used: seq<byte>, room: nat, more: seq<bit>)
    requires 1 <= |used| <= 256
    ensures Survives(ParseCoded(bits, used, room), ParseCoded(bits + more, used, room), more)
  {
    hide ParseSelectors, ParseTables, Syms, AnnouncedTables, AllLengths, Spelled;
    SelectorsSurvive(bits, more);
    var groups := ParseSelectors(bits);
    if groups.Got? {
      TablesSurvive(groups.rest, |used| + 2, groups.value.0, more);
      var tables := ParseTables(groups.rest, |used| + 2, groups.value.0);
      if tables.Got? {
        AnnouncedHere(tables.value, groups.value.1, |used| + 2);
        SymsSurvive(tables.rest, tables.value, groups.value.1, |used| + 1, 0, StartDecoding(), room, more);
      }
    }
  }

  lemma BodySurvives(bits: seq<bit>, room: nat, more: seq<bit>)
    ensures Survives(ParseBody(bits, room), ParseBody(bits + more, room), more)
  {
    hide ParseMapping, ParseCoded, UsedBytes;
    MappingSurvives(bits, more);
    var inUse := ParseMapping(bits);
    if inUse.Got? && Used(inUse.value) != [] { CodedSurvives(inUse.rest, Used(inUse.value), room, more); }
  }

  lemma BlockSurvives(bits: seq<bit>, level: nat, more: seq<bit>)
    ensures Survives(ParseBlock(bits, level), ParseBlock(bits + more, level), more)
  {
    hide GetBits, ParseBody;
    BitsSurvive(bits, 32, more);
    var crc := GetBits(bits, 32);
    if crc.Got? {
      BitsSurvive(crc.rest, 1, more);
      var randomised := GetBits(crc.rest, 1);
      if randomised.Got? {
        BitsSurvive(randomised.rest, 24, more);
        var origPtr := GetBits(randomised.rest, 24);
        if origPtr.Got? { BodySurvives(origPtr.rest, BLOCK_UNIT * level, more); }
      }
    }
  }
}
