/**
 BZ2_compressBlock of compress.c for one block: sort, generate the MTF values,
 make the coding tables, write everything.
 */
module BlockEncoder {
  import opened Sequences
  import opened Bits
  import opened BitSeq
  import opened BitStream
  import opened Permutation
  import opened Rotation
  import opened InverseBwt
  import opened Mtf
  import opened MtfEncoder
  import opened BlockFormat
  import opened BlockCode
  import opened BlockWriter
  import opened Stream
  import FallbackSort
  import MainCompare
  import MainRadix
  import MainSort
  import CodeLengths
  import Huffman
  import BlockCrc

  // ---------- Sorting and MTF values ----------

  /** fallbackSort on the block alone. */
  method SortByDoubling(block: array<byte>, nblock: nat, fmap: array<nat>)
    requires 0 < nblock <= block.Length && nblock == fmap.Length <= 900000
    modifies fmap
    ensures SortedRotations(block[..nblock], fmap[..])
  {
    var b := new byte[nblock](i requires 0 <= i < nblock <= block.Length reads block => block[i]);
    assert b[..] == block[..nblock];
    FallbackSort.Sort(b, fmap, nblock);
  }

  /** mainSort on the block with room for its overshoot. */
  method SortByBuckets(block: array<byte>, nblock: nat, fmap: array<nat>, budget0: int) returns (budget: int)
    requires MainCompare.N_OVERSHOOT < nblock <= block.Length && nblock == fmap.Length <= 900000 && budget0 >= 0
    modifies fmap
    ensures budget >= 0 ==> SortedRotations(block[..nblock], fmap[..])
  {
    var n := nblock + MainCompare.N_OVERSHOOT;
    var b := new byte[n](i requires 0 <= i reads block => if i < nblock <= block.Length then block[i] else 0);
    assert b[..nblock] == block[..nblock];
    var quadrant := new nat[n];
    var ftab := new nat[MainRadix.PAIRS + 1];
    budget := MainSort.Sort(fmap, b, quadrant, ftab, nblock, budget0);
  }

  /** How much work mainSort may do. */
  function Budget(nblock: nat, workFactor: int): (budget: nat) {
    var wfact := if workFactor < 1 then 1 else if workFactor > 100 then 100 else workFactor;
    nblock * ((wfact - 1) / 3)
  }

  /** BZ2_blockSort: small blocks by the fallback sorter, others by the main
      sorter unless it runs out of budget. The order, and where rotation 0 stands. */
  method BlockSort(block: array<byte>, nblock: nat, workFactor: int) returns (fmap: array<nat>, origPtr: nat)
    requires 0 < nblock <= block.Length && nblock <= 900000
    ensures fresh(fmap) && SortedRotations(block[..nblock], fmap[..]) && fmap.Length == nblock
    ensures origPtr < nblock && fmap[origPtr] == 0
  {
    hide InOrder;
    fmap := new nat[nblock];
    if nblock < 10000 {
      SortByDoubling(block, nblock, fmap);
    } else {
      var budget := SortByBuckets(block, nblock, fmap, Budget(nblock, workFactor));
      if budget < 0 { SortByDoubling(block, nblock, fmap); }
    }
    origPtr := FallbackSort.FindOrigin(fmap);
  }

  /** Both names of the array: 32-bit pointers stored as pairs of 16-bit cells. */
  method StorePointers(fmap: array<nat>) returns (arr1: array<nat>)
    ensures fresh(arr1) && arr1.Length == 2 * fmap.Length
    ensures Pointers(arr1[..], fmap.Length) == fmap[..]
  {
    var n := fmap.Length;
    arr1 := new nat[2 * n];
    for i := 0 to n
      invariant forall k :: 0 <= k < i ==> PtrAt(arr1[..], k) == fmap[k]
    {
      arr1[2 * i] := fmap[i] % 65536;
      arr1[2 * i + 1] := fmap[i] / 65536;
    }
  }

  lemma SymbolsAgree(b: seq<byte>, ptr: seq<nat>, used: seq<byte>, unseqToSeq: seq<nat>)
    requires b != [] && SortedRotations(b, ptr) && |unseqToSeq| == 256 && Distinct(used)
    requires forall c :: c in b ==> c in used && unseqToSeq[c] < |used| && used[unseqToSeq[c]] == c
    ensures forall c :: c in LastColumn(b, ptr) ==> c in used
    ensures Symbols(b, ptr, unseqToSeq) == SymbolsOf(used, LastColumn(b, ptr))
  {
    hide LastColumn, InOrder;
    LastColumnBytes(b, ptr);
    var col := LastColumn(b, ptr);
    forall i | 0 <= i < |b| ensures Symbols(b, ptr, unseqToSeq)[i] == SymbolsOf(used, col)[i] {
      assert col[i] in col;
    }
  }

  lemma MapsKnow(b: seq<byte>, used: seq<byte>, inUse: seq<bool>, unseqToSeq: seq<nat>, seqToUnseq: seq<byte>, n: nat)
    requires |inUse| == |unseqToSeq| == |seqToUnseq| == 256 && used == Used(inUse) && n == |used| && seqToUnseq[..n] == used
    requires forall c :: 0 <= c < 256 && inUse[c] ==> unseqToSeq[c] < n && seqToUnseq[unseqToSeq[c]] == c
    requires forall c :: c in b ==> inUse[c]
    ensures forall c :: c in b ==> c in used && unseqToSeq[c] < n && used[unseqToSeq[c]] == c
  {
    forall c | c in b ensures c in used && unseqToSeq[c] < n && used[unseqToSeq[c]] == c {
      assert seqToUnseq[..n][unseqToSeq[c]] == c;
    }
  }

  /** makeMaps_e and generateMTFValues: the values of the last column. */
  method MtfValues(block: array<byte>, nblock: nat, fmap: array<nat>, inUse: array<bool>) returns (vals: seq<nat>, nInUse: nat)
    requires 0 < nblock <= block.Length && inUse.Length == 256 && forall c :: c in block[..nblock] ==> inUse[c]
    requires fmap.Length == nblock && SortedRotations(block[..nblock], fmap[..])
    ensures nInUse == |Used(inUse[..])| && 1 <= nInUse <= 256 && 1 <= |vals| <= nblock + 1
    ensures var col := LastColumn(block[..nblock], fmap[..]);
            (forall c :: c in col ==> c in Used(inUse[..])) && vals == ValuesOf(Used(inUse[..]), col)
  {
    hide InOrder, LastColumn, Encode, UsedBytes;
    ghost var b, ptr, used := block[..nblock], fmap[..], Used(inUse[..]);
    var small := new byte[nblock](i requires 0 <= i < nblock reads block => block[i]);
    assert small[..] == b;
    var unseqToSeq, seqToUnseq;
    nInUse, unseqToSeq, seqToUnseq := MakeMaps(inUse);
    MapsKnow(b, used, inUse[..], unseqToSeq[..], seqToUnseq[..], nInUse);
    assert b[0] in b;
    var arr1 := StorePointers(fmap);
    var mtfFreq := new nat[nInUse + 2];
    SymbolsAgree(b, ptr, used, unseqToSeq[..]);
    assert forall i :: 0 <= i < nblock ==> PtrAt(arr1[..], i) == Pointers(arr1[..], nblock)[i];
    assert forall i :: 0 <= i < nblock ==> small[i] in b;
    var nMTF := GenerateMtfValues(arr1, small, nblock, nInUse, unseqToSeq, mtfFreq);
    vals := arr1[..nMTF];
  }

  // ---------- Tables and selectors ----------

  /** How many coding tables to use. */
  function GroupsFor(nMTF: nat): (n: nat)
    ensures 2 <= n <= 6
  {
    if nMTF < 200 then 2 else if nMTF < 600 then 3 else if nMTF < 1200 then 4 else if nMTF < 2400 then 5 else 6
  }

  /** What the iterations of sendMTFValues come to: frequencies for each table
      and a selector for each group of fifty. */
  datatype Choice = Choice(rfreq: seq<seq<nat>>, sels: seq<nat>)

  ghost predicate ValidChoice(c: Choice, nMTF: nat, alphaSize: nat) {
    && |c.rfreq| == GroupsFor(nMTF) && |c.sels| == (nMTF + GROUP_SIZE - 1) / GROUP_SIZE
    && (forall t :: 0 <= t < |c.rfreq| ==> |c.rfreq[t]| == alphaSize && CodeLengths.FreqSum(c.rfreq[t], alphaSize) <= nMTF + alphaSize)
    && (forall i :: 0 <= i < |c.sels| ==> c.sels[i] < |c.rfreq|)
  }

  lemma {:induction false} ZeroSum(n: nat, k: nat)
    requires k <= n
    ensures CodeLengths.FreqSum(Repeat(0, n), k) == k
  {
    if k > 0 { ZeroSum(n, k - 1); }
  }

  /** The heuristics of sendMTFValues: from the values and the size of the
      alphabet to a choice. */
  type Chooser = (seq<nat>, nat) -> Choice

  ghost predicate ValidChooser(choose: Chooser) {
    forall vals, n :: ValidChoice(choose(vals, n), |vals|, n)
  }

  /** Valid heuristics exist: use the first table for everything. */
  lemma FirstTable() returns (choose: Chooser)
    ensures ValidChooser(choose)
  {
    choose := (vals: seq<nat>, n: nat) =>
      Choice(Repeat(Repeat(0, n), GroupsFor(|vals|)), Repeat(0, (|vals| + GROUP_SIZE - 1) / GROUP_SIZE));
    forall vals: seq<nat>, n: nat ensures ValidChoice(choose(vals, n), |vals|, n) {
      ZeroSum(n, n);
    }
  }

  method MakeTables(rfreq: seq<seq<nat>>, alphaSize: nat) returns (tables: seq<seq<nat>>, codes: seq<seq<nat>>)
    requires 2 <= alphaSize <= Huffman.MAX_ALPHA_SIZE
    requires forall t :: 0 <= t < |rfreq| ==> |rfreq[t]| == alphaSize && CodeLengths.FreqSum(rfreq[t], alphaSize) < 0x80_0000
    ensures |tables| == |rfreq| && AllCodes(tables, codes, alphaSize)
    ensures forall t :: 0 <= t < |tables| ==> HuffmanFor(rfreq[t], tables[t])
  {
    hide CodesOf, HuffmanFor;
    tables, codes := [], [];
    for t := 0 to |rfreq|
      invariant |tables| == t && AllCodes(tables, codes, alphaSize)
      invariant forall k :: 0 <= k < t ==> HuffmanFor(rfreq[k], tables[k])
    {
      var lens, code := MakeTable(rfreq[t], alphaSize);
      tables, codes := tables + [lens], codes + [code];
    }
  }

  /** Values that generateMTFValues can produce for an alphabet of n bytes. */
  ghost predicate Generated(vals: seq<nat>, n: nat) {
    0 < |vals| <= 900001 && vals[|vals| - 1] == n + 1 && forall i :: 0 <= i < |vals| - 1 ==> vals[i] <= n
  }

  lemma SentHere(tables: seq<seq<nat>>, codes: seq<seq<nat>>, sels: seq<nat>, vals: seq<nat>, n: nat)
    requires AllCodes(tables, codes, n + 2) && Generated(vals, n)
    requires |sels| == (|vals| + GROUP_SIZE - 1) / GROUP_SIZE && forall i :: 0 <= i < |sels| ==> sels[i] < |tables|
    ensures Sent(tables, sels, vals, n + 1)
    ensures forall t :: 0 <= t < |tables| ==> |tables[t]| == n + 2 && tables[t] != [] && tables[t][0] < 32
  {
    hide Huffman.Code, Huffman.End;
    forall t | 0 <= t < |tables| ensures Sendable(tables[t], n + 2) && tables[t] != [] && tables[t][0] < 32 {
      assert CodesOf(tables[t], codes[t], n + 2);
    }
  }

  /** The encoder's array of selectors is long enough: a block of at most 900001
      values has at most 18001 groups (AssertH 3003). */
  lemma SelectorsFit(c: Choice, nMTF: nat, alphaSize: nat)
    requires ValidChoice(c, nMTF, alphaSize) && nMTF <= 900001
    ensures |c.sels| <= 18001 < MAX_SELECTORS == 2 + 900000 / GROUP_SIZE
  {
    hide CodeLengths.FreqSum;
  }

  /** Every store stays inside the array. */
  method StoreSelectors(sels: seq<nat>) returns (selector: array<nat>)
    requires |sels| <= MAX_SELECTORS
    ensures fresh(selector) && selector.Length == MAX_SELECTORS && selector[..|sels|] == sels
  {
    selector := new nat[MAX_SELECTORS];
    for i := 0 to |sels|
      invariant selector[..i] == sels[..i]
    {
      selector[i] := sels[i];
    }
  }

  /** sendMTFValues, for any valid choice. */
  method SendMtfValues(w: Writer, inUse: array<bool>, vals: seq<nat>, nInUse: nat, choice: Choice) returns (tables: seq<seq<nat>>)
    requires w.Valid() && inUse.Length == 256 && nInUse == |Used(inUse[..])| >= 1
    requires Generated(vals, nInUse) && ValidChoice(choice, |vals|, nInUse + 2)
    modifies w
    ensures w.Valid() && Transmissible(Body(inUse[..], tables, choice.sels, vals)) && |choice.sels| <= 18001
    ensures w.Written() == old(w.Written()) + BodyBits(Body(inUse[..], tables, choice.sels, vals))
    ensures |tables| == |choice.rfreq| && forall t :: 0 <= t < |tables| ==> HuffmanFor(choice.rfreq[t], tables[t])
  {
    hide HuffmanFor, AllCodes, UsedBytes, MappingBits, SelectorBits, TablesBits, ValueBits, Writer.Valid, Writer.Written, CodeLengths.FreqSum, Sent, Codable;
    var codes;
    SelectorsFit(choice, |vals|, nInUse + 2);
    tables, codes := MakeTables(choice.rfreq, nInUse + 2);
    SentHere(tables, codes, choice.sels, vals, nInUse);
    ghost var x := Body(inUse[..], tables, choice.sels, vals);
    SendMapping(w, inUse);
    var selector := StoreSelectors(choice.sels);
    SendSelectors(w, |tables|, selector, |choice.sels|);
    SendTables(w, tables);
    SendValues(w, tables, codes, choice.sels, vals, nInUse + 1);
    BodyInOrder(x, old(w.Written()));
  }

  lemma BodyInOrder(x: Body, before: seq<bit>)
    requires Transmissible(x)
    ensures (forall t :: 0 <= t < |x.tables| ==> x.tables[t] != []) && forall i :: 0 <= i < |x.vals| ==> Codable(x.tables, x.sels, x.vals, i)
    ensures forall i :: 0 <= i < |x.sels| ==> x.sels[i] < |x.tables|
    ensures before + MappingBits(x.inUse) + SelectorBits(|x.tables|, x.sels) + TablesBits(x.tables) + ValueBits(x.tables, x.sels, x.vals, 0)
         == before + BodyBits(x)
  {
    hide MappingBits, SelectorBits, TablesBits, ValueBits, Sent, Codable;
    TablesAnnounced(x);
  }

  // ---------- The block ----------

  /** bsPutUInt32 writes 32 bits. */
  method PutUInt32(w: Writer, u: nat)
    requires w.Valid() && u < 0x1_0000_0000
    modifies w
    ensures w.Valid() && w.Written() == old(w.Written()) + ToBits(u, 32)
  {
    hide ToBits, Writer.Valid, Writer.Written;
    Pow2Values();
    ghost var start := w.Written();
    w.W(8, u / 0x100_0000 % 256);
    w.W(8, u / 0x1_0000 % 256);
    w.W(8, u / 0x100 % 256);
    w.W(8, u % 256);
    FourBytes(u);
    assert w.Written() == start + (ToBits(u / 0x100_0000 % 256, 8) + ToBits(u / 0x1_0000 % 256, 8) + ToBits(u / 0x100 % 256, 8) + ToBits(u % 256, 8));
  }

  lemma ByteDigits(u: nat)
    requires u < 0x1_0000_0000
    ensures u / 0x100_0000 % 256 * 256 + u / 0x1_0000 % 256 == u / 0x1_0000
    ensures u / 0x1_0000 * 256 + u / 0x100 % 256 == u / 0x100
    ensures u / 0x100 * 256 + u % 256 == u
    ensures u / 0x1_0000 < 0x1_0000 && u / 0x100 < 0x100_0000
  {
  }

  lemma FourBytes(u: nat)
    requires u < 0x1_0000_0000
    ensures ToBits(u, 32) == ToBits(u / 0x100_0000 % 256, 8) + ToBits(u / 0x1_0000 % 256, 8) + ToBits(u / 0x100 % 256, 8) + ToBits(u % 256, 8)
  {
    hide ToBits;
    Pow2Values();
    hide Pow2;
    ByteDigits(u);
    ToBitsConcat(u / 0x100_0000 % 256, 8, u / 0x1_0000 % 256, 8);
    ToBitsConcat(u / 0x1_0000, 16, u / 0x100 % 256, 8);
    ToBitsConcat(u / 0x100, 24, u % 256, 8);
  }

  method PutBytes(w: Writer, bytes: seq<byte>)
    requires w.Valid()
    modifies w
    ensures w.Valid() && w.Written() == old(w.Written()) + BytesToBits(bytes)
  {
    hide ToBits, BytesToBits, Writer.Valid, Writer.Written;
    Pow2Values();
    EmptyBytes();
    assert bytes[..0] == [] && w.Written() + [] == w.Written();
    for i := 0 to |bytes|
      invariant w.Valid() && w.Written() == old(w.Written()) + BytesToBits(bytes[..i])
    {
      LastByte(bytes[..i], bytes[i]);
      assert bytes[..i + 1] == bytes[..i] + [bytes[i]];
      Regroup(old(w.Written()), BytesToBits(bytes[..i]), ToBits(bytes[i], 8));
      w.W(8, bytes[i]);
    }
    assert bytes[..|bytes|] == bytes;
  }

  lemma GeneratedHere(used: seq<byte>, col: seq<byte>)
    requires 1 <= |used| && (forall c :: c in col ==> c in used) && |ValuesOf(used, col)| <= 900001
    ensures Generated(ValuesOf(used, col), |used|)
  {
    EncodeBound(Identity(|used|), 0, SymbolsOf(used, col));
  }

  /** Magic number, CRC, the bit for randomisation, and the row of rotation 0. */
  method SendHeader(w: Writer, blockCRC: bv32, origPtr: nat)
    requires w.Valid() && origPtr < 900000
    modifies w
    ensures w.Valid()
    ensures w.Written() == old(w.Written()) + BytesToBits([0x31] + BLOCK_MAGIC) + ToBits(BlockCrc.Word(blockCRC), 32) + ToBits(0, 1) + ToBits(origPtr, 24)
  {
    hide ToBits, BytesToBits, Writer.Valid, Writer.Written, BlockCrc.Word;
    PutBytes(w, [0x31] + BLOCK_MAGIC);
    PutUInt32(w, BlockCrc.Word(blockCRC));
    SmallPowers();
    w.W(1, 0);
    w.W(24, origPtr);
  }

  /** A non-empty block, header and all. */
  method SendBlock(w: Writer, block: array<byte>, nblock: nat, inUse: array<bool>, blockCRC: bv32, workFactor: int, choose: Chooser) returns (ghost p: Packet)
    requires w.Valid() && ValidChooser(choose) && 0 < nblock <= block.Length && nblock <= 900000
    requires inUse.Length == 256 && forall c :: c in block[..nblock] ==> inUse[c]
    modifies w
    ensures w.Valid() && p.code == block[..nblock] && Transmits(p.body, p.code, p.ptr, p.orig)
    ensures w.Written() == old(w.Written()) + (BytesToBits([0x31] + BLOCK_MAGIC) + BlockBits(BlockCrc.Word(blockCRC), p.orig, p.body))
  {
    hide ToBits, BytesToBits, Writer.Valid, Writer.Written, BodyBits, LastColumn, ValuesOf, UsedBytes, Transmissible, Generated, ValidChoice, BlockCrc.Word, InOrder;
    ghost var b := block[..nblock];
    var fmap, origPtr := BlockSort(block, nblock, workFactor);
    SendHeader(w, blockCRC, origPtr);
    var vals, nInUse := MtfValues(block, nblock, fmap, inUse);
    GeneratedHere(Used(inUse[..]), LastColumn(b, fmap[..]));
    var choice := choose(vals, nInUse + 2);
    var tables := SendMtfValues(w, inUse, vals, nInUse, choice);
    p := Packet(b, fmap[..], origPtr, Body(inUse[..], tables, choice.sels, vals));
    BlockInOrder(old(w.Written()), BlockCrc.Word(blockCRC), origPtr, p.body);
  }

  lemma BlockInOrder(before: seq<bit>, crc: nat, orig: nat, x: Body)
    requires Transmissible(x)
    ensures before + BytesToBits([0x31] + BLOCK_MAGIC) + ToBits(crc, 32) + ToBits(0, 1) + ToBits(orig, 24) + BodyBits(x)
         == before + (BytesToBits([0x31] + BLOCK_MAGIC) + BlockBits(crc, orig, x))
  {
    hide ToBits, BytesToBits, BodyBits;
  }
}
