/**
 BZ2_decompress (decompress.c) over the fields of DState: what it does between
 two requests for bits, label by label. It can stop at every request and resume
 there, because all it needs is in the fields.
 */
module StreamDecoder {
  import opened Bits
  import opened BitSeq
  import opened BitStream
  import opened Wrappers
  import opened Rotation
  import opened Mtf
  import opened ValueDecoder
  import opened ValueCode
  import opened BlockFormat
  import opened BlockCode
  import opened Stream
  import opened DecoderStates
  import opened Coroutine
  import opened BlockReader
  import Counting
  import Huffman
  import MtfDecoder
  import BlockCrc

  /** Where BZ2_decompress stands. Labels that differ only in which byte of a
      number or magic comes next are one, the byte being counted by i. */
  datatype Label =
    | MAGIC | MAGIC_4 | BLKHDR_1 | BLKHDR | BCRC | RANDBIT | ORIGPTR | MAPPING_1 | MAPPING_2
    | SELECTOR_1 | SELECTOR_2 | SELECTOR_3 | CODING_1 | CODING_2 | CODING_3 | MTF_FIRST | MTF_MORE
    | ENDHDR | CCRC | OUTPUT | IDLE | CORRUPT | OVERRUN

  ghost function LabelOf(s: State): Label {
    match s
    case Magic(_) => MAGIC
    case Level => MAGIC_4
    case Kind(_) => BLKHDR_1
    case BlockHeader(_, _) => BLKHDR
    case StoredCrc(_, _, _) => BCRC
    case RandBit(_, _) => RANDBIT
    case OrigPtr(_, _, _, _, _) => ORIGPTR
    case Mapping1(_, _) => MAPPING_1
    case Mapping2(_, _, _) => MAPPING_2
    case Selector1(_, _) => SELECTOR_1
    case Selector2(_, _, _) => SELECTOR_2
    case Selector3(_, _, _, _, _, _) => SELECTOR_3
    case Coding1(_) => CODING_1
    case Coding2(_, _, _) => CODING_2
    case Coding3(_, _, _) => CODING_3
    case Symbol(_, _, _, _, _, first) => if first then MTF_FIRST else MTF_MORE
    case EndHeader(_, _) => ENDHDR
    case CombinedCrc(_, _, _) => CCRC
    case Ready(_, _) => OUTPUT
    case Ended => IDLE
    case Bad => CORRUPT
    case Overran => OVERRUN
  }

  /** A column stored byte by byte with its byte counts. */
  ghost predicate HoldsColumn(tt: seq<nat>, unzftab: seq<nat>, col: seq<byte>) {
    && |col| <= |tt| && |unzftab| == 256
    && (forall i :: 0 <= i < |col| ==> tt[i] == col[i])
    && (forall c :: 0 <= c < 256 ==> unzftab[c] == multiset(col)[c])
  }

  lemma NextGood(s: State, v: nat)
    requires Good(s) && Width(s) > 0 && v < Pow2(Width(s))
    ensures Good(Next(s, v))
  {
    hide Good, Next, Width, Pow2, FromBits, ToBits, Meaning;
    var bits := ToBits(v, Width(s));
    FromToBits(v, Width(s));
    Serve(s, bits);
    assert bits[..Width(s)] == bits;
  }

  /** Tables set up for a value find what the specification's do. */
  lemma SameSearch(t: Huffman.Tables, lens: seq<nat>, zn: nat, zvec: nat)
    requires Huffman.Announced(lens) && Huffman.SetUpFor(t, lens) && Huffman.Searching(lens, zn, zvec)
    ensures Huffman.Shaped(t) && var u := Huffman.TablesOf(lens);
      zn <= Huffman.LONGEST_CODE ==>
        && t.limit[zn] == u.limit[zn]
        && (zvec <= t.limit[zn] ==>
              var i, j := zvec - t.base[zn], zvec - u.base[zn];
              0 <= i < Huffman.MAX_ALPHA_SIZE && 0 <= j < Huffman.MAX_ALPHA_SIZE && t.perm[i] == u.perm[j] < |lens|)
  {
    hide Huffman.End, Huffman.First, Counting.Rank, Counting.Smaller, Huffman.Code, Huffman.PermAt, Huffman.TablesFor, Huffman.TablesOf;
    var u := Huffman.TablesOf(lens);
    if zn <= Huffman.LONGEST_CODE {
      Huffman.LimitOf(t, lens, zn);
      Huffman.LimitOf(u, lens, zn);
      if zvec <= t.limit[zn] {
        var i := Huffman.LookupIsCode(t, lens, Huffman.MaxOf(lens), zn, zvec);
        var j := Huffman.LookupIsCode(u, lens, Huffman.MaxOf(lens), zn, zvec);
        Huffman.SameCode(lens, i, j);
      }
    } else {
      Huffman.LimitOf(t, lens, Huffman.MinOf(lens));
    }
  }

  class DState {
    var state: Label
    var i: nat                      // rows, bytes, selectors or lengths done
    var j: nat
    var t: nat                      // coding tables done
    var blockSize100k: nat
    var combinedCrc: bv32
    var storedCombinedCrc: nat
    var storedBlockCrc: nat
    var blockRandomised: nat
    var origPtr: nat
    const inUse16: array<bool>
    const inUse: array<bool>
    var nInUse: nat
    var seqToUnseq: seq<byte>
    var nGroups: nat
    var nSelectors: nat
    const selectorMtf: array<nat>   // BZ_MAX_SELECTORS entries each
    const selector: array<nat>
    const len: array2<nat>
    var curr: int
    var tabs: seq<Huffman.Tables>   // limit, base, perm, minLens
    var groupNo: int
    var groupPos: nat
    var zn: nat
    var zvec: nat
    var tt: array<nat>              // tt, or ll16
    var column: Column              // mtfa, mtfbase, unzftab, nblock, es, N
    ghost var st: State             // what the fields stand for

    ghost function Footprint(): set<object>
      reads this`tt, this`column
    {
      {inUse16, inUse, selectorMtf, selector, len, tt, column, column.tt, column.unzftab, column.mtf, column.mtf.mtfa, column.mtf.mtfbase}
    }

    /** The buffers have their sizes and do not overlap. */
    ghost predicate Fixed()
      reads this`tt, this`column
    {
      && inUse16.Length == 16 && inUse.Length == 256 && inUse16 != inUse
      && selectorMtf.Length == selector.Length == MAX_SELECTORS && selectorMtf != selector
      && len.Length0 == 6 && len.Length1 == Huffman.MAX_ALPHA_SIZE
      && selectorMtf !in {tt, column.tt, column.unzftab, column.mtf.mtfa} && selector !in {tt, column.tt, column.unzftab, column.mtf.mtfa}
    }

    ghost predicate HasContext(ctx: Context)
      reads this`blockSize100k, this`combinedCrc, this`tt
    {
      blockSize100k == ctx.level && combinedCrc == ctx.combined && tt.Length == BLOCK_UNIT * ctx.level
    }

    ghost predicate HasHead(h: Head)
      reads this`blockSize100k, this`combinedCrc, this`tt, this`storedBlockCrc, this`origPtr
    {
      HasContext(h.ctx) && storedBlockCrc == h.crc && origPtr == h.origPtr
    }

    ghost predicate HasUsed(used: seq<byte>)
      reads this`nInUse, this`seqToUnseq
    {
      nInUse == |used| && |seqToUnseq| == 256 && used <= seqToUnseq
    }

    ghost predicate HasRows(used16: seq<bool>, flags: seq<bool>)
      reads inUse16, inUse
    {
      && inUse16[..] == used16 && |flags| <= inUse.Length && inUse[..|flags|] == flags
      && forall k :: |flags| <= k < inUse.Length ==> !inUse[k]
    }

    ghost predicate HasSelectors(sels: seq<nat>)
      reads this`nSelectors, selector
    {
      nSelectors == |sels| <= selector.Length && selector[..nSelectors] == sels
    }

    ghost predicate HasCoding(c: Coding)
      reads this`blockSize100k, this`combinedCrc, this`tt, this`storedBlockCrc, this`origPtr, this`nInUse, this`seqToUnseq, this`nGroups, this`nSelectors, selector, len
    {
      && HasHead(c.head) && HasUsed(c.used) && nGroups == c.nGroups <= len.Length0 && HasSelectors(c.sels)
      && Rows(len, c.tables, |c.used| + 2)
    }

    /** The table being read. */
    ghost predicate HasLengths(c: Coding, lens: seq<nat>)
      reads this`blockSize100k, this`combinedCrc, this`tt, this`storedBlockCrc, this`origPtr, this`nInUse, this`seqToUnseq, this`nGroups, this`nSelectors, selector, len, this`t, this`i
    {
      && HasCoding(c) && t == |c.tables| < len.Length0 && i == |lens| < |c.used| + 2
      && forall k :: 0 <= k < i ==> len[t, k] == lens[k]
    }

    ghost predicate HasValues(c: Coding, k: nat, d: Decoding)
      reads this`blockSize100k, this`combinedCrc, this`tt, this`storedBlockCrc, this`origPtr, this`nInUse, this`seqToUnseq, this`nGroups, this`nSelectors
      reads this`tabs, this`groupNo, this`groupPos, this`column, selector, len, column, column.tt, column.unzftab, column.mtf, column.mtf.mtfa, column.mtf.mtfbase
    {
      && HasCoding(c) && AllSetUp(tabs, c.tables) && column.tt == tt && column.seqToUnseq == seqToUnseq
      && column.Valid() && column.d == d && k == GROUP_SIZE * (groupNo + 1) - groupPos && groupPos <= GROUP_SIZE && groupNo >= -1
      && (groupPos > 0 ==> 0 <= groupNo < nSelectors)
    }

    /** In the header of the stream or of a block, or in the trailer. */
    ghost predicate HeaderFields()
      reads this
    {
      match st
      case Magic(k) => i == k && combinedCrc == 0
      case Level => combinedCrc == 0
      case Kind(ctx) => HasContext(ctx)
      case BlockHeader(ctx, k) => HasContext(ctx) && i == k
      case StoredCrc(ctx, k, v) => HasContext(ctx) && i == k && storedBlockCrc == v
      case RandBit(ctx, crc) => HasContext(ctx) && storedBlockCrc == crc
      case OrigPtr(ctx, crc, randomised, k, v) =>
        HasContext(ctx) && storedBlockCrc == crc && blockRandomised == randomised && i == k && origPtr == v
      case EndHeader(ctx, k) => HasContext(ctx) && i == k
      case CombinedCrc(ctx, k, v) => HasContext(ctx) && i == k && storedCombinedCrc == v
      case _ => true
    }

    /** In the mapping table or the selectors. */
    ghost predicate MappingFields()
      reads this, inUse16, inUse, selectorMtf
    {
      match st
      case Mapping1(h, used16) => HasHead(h) && i == |used16| <= inUse16.Length && inUse16[..i] == used16
      case Mapping2(h, used16, flags) => HasHead(h) && HasRows(used16, flags) && |flags| == 16 * i + j && j < 16
      case Selector1(h, used) => HasHead(h) && HasUsed(used)
      case Selector2(h, used, n) => HasHead(h) && HasUsed(used) && nGroups == n
      case Selector3(h, used, g, n, js, k) =>
        && HasHead(h) && HasUsed(used) && nGroups == g && nSelectors == n
        && i == |js| <= selectorMtf.Length && selectorMtf[..i] == js && j == k
      case _ => true
    }

    /** In the coding tables or the values. */
    ghost predicate CodingFields()
      reads this, Footprint()
    {
      match st
      case Coding1(c) => HasCoding(c) && t == |c.tables|
      case Coding2(c, lens, l) => HasLengths(c, lens) && curr == l
      case Coding3(c, lens, l) => HasLengths(c, lens) && curr == l
      case Symbol(c, k, d, n, v, first) =>
        HasValues(c, k + 1, d) && groupNo >= 0 && groupPos < GROUP_SIZE && zn == n && (!first ==> zvec == v)
      case _ => true
    }

    /** A block is ready to be put out. */
    ghost predicate BlockFields(ctx: Context, block: Block)
      reads this, Footprint()
    {
      && HasContext(ctx) && storedBlockCrc == block.crc && origPtr == block.origPtr && column.tt == tt && column.unzftab != tt
      && column.nblock == |block.col| && HoldsColumn(tt[..], column.unzftab[..], block.col)
    }

    ghost predicate Fields()
      reads this, Footprint()
    {
      match st
      case Mapping1(_, _) | Mapping2(_, _, _) | Selector1(_, _) | Selector2(_, _, _) | Selector3(_, _, _, _, _, _) => MappingFields()
      case Coding1(_) | Coding2(_, _, _) | Coding3(_, _, _) | Symbol(_, _, _, _, _, _) => CodingFields()
      case Ready(ctx, block) => BlockFields(ctx, block)
      case Ended | Bad | Overran => true
      case _ => HeaderFields()
    }

    /** The fields stand for s. */
    ghost predicate Shows(s: State)
      reads this, Footprint()
    {
      Fixed() && st == s && state == LabelOf(s) && Fields()
    }

    ghost predicate Valid()
      reads this, Footprint()
    {
      Shows(st) && Good(st)
    }

    constructor ()
      ensures Valid() && st == START && fresh(Footprint())
    {
      hide Column.Valid, Stored, AllBytes, MtfDecoder.Represents, MappingFields, CodingFields, BlockFields;
      state, i, j, t := MAGIC, 0, 0, 0;
      combinedCrc := 0;
      inUse16 := new bool[16];
      inUse := new bool[256];
      selectorMtf := new nat[MAX_SELECTORS];
      selector := new nat[MAX_SELECTORS];
      len := new nat[6, Huffman.MAX_ALPHA_SIZE];
      curr, tabs, groupNo := 0, [], -1;
      var none := new nat[0];
      tt := none;
      column := new Column(none, seq(256, _ => 0));
      st := START;
    }

    // ---------- Header and trailer ----------

    method OnMagic(v: nat)
      requires Valid() && st.Magic?
      modifies this
      ensures Shows(Next(old(st), v)) && Footprint() == old(Footprint())
    {
      hide MappingFields, CodingFields, BlockFields, Fixed, Footprint, GoodHead, GoodCoding, GoodLength, GoodValue, GoSelectors, GoRows, GoLength, Search;
      st := Next(st, v);
      if v != STREAM_MAGIC[i] {
        state := CORRUPT;
      } else if i == 2 {
        state := MAGIC_4;
      } else {
        i := i + 1;
      }
    }

    /** The block size is known: room for a block. */
    method OnLevel(v: nat)
      requires Valid() && st.Level?
      modifies this
      ensures Shows(Next(old(st), v)) && fresh(Footprint() - old(Footprint()))
    {
      hide MappingFields, CodingFields, BlockFields, GoSelectors, GoRows, GoLength, Search;
      st := Next(st, v);
      if v < 0x31 || v > 0x39 {
        state := CORRUPT;
      } else {
        blockSize100k := v - 0x30;
        tt := new nat[BLOCK_UNIT * blockSize100k];
        state := BLKHDR_1;
      }
    }

    method OnKind(v: nat)
      requires Valid() && st.Kind?
      modifies this
      ensures Shows(Next(old(st), v)) && Footprint() == old(Footprint())
    {
      hide MappingFields, CodingFields, BlockFields, Fixed, Footprint, GoodHead, GoodCoding, GoodLength, GoodValue, GoSelectors, GoRows, GoLength, Search;
      st := Next(st, v);
      i := 0;
      state := if v == 0x17 then ENDHDR else if v == 0x31 then BLKHDR else CORRUPT;
    }

    method OnBlockHeader(v: nat)
      requires Valid() && st.BlockHeader?
      modifies this
      ensures Shows(Next(old(st), v)) && Footprint() == old(Footprint())
    {
      hide MappingFields, CodingFields, BlockFields, Fixed, Footprint, GoodHead, GoodCoding, GoodLength, GoodValue, GoSelectors, GoRows, GoLength, Search;
      st := Next(st, v);
      if v != BLOCK_MAGIC[i] {
        state := CORRUPT;
      } else if i == 4 {
        i, storedBlockCrc, state := 0, 0, BCRC;
      } else {
        i := i + 1;
      }
    }

    method OnStoredCrc(v: nat)
      requires Valid() && st.StoredCrc?
      modifies this
      ensures Shows(Next(old(st), v)) && Footprint() == old(Footprint())
    {
      hide MappingFields, CodingFields, BlockFields, Fixed, Footprint, GoodHead, GoodCoding, GoodLength, GoodValue, GoSelectors, GoRows, GoLength, Search;
      st := Next(st, v);
      storedBlockCrc := storedBlockCrc * 256 + v;
      if i == 3 { state := RANDBIT; } else { i := i + 1; }
    }

    method OnRandBit(v: nat)
      requires Valid() && st.RandBit?
      modifies this
      ensures Shows(Next(old(st), v)) && Footprint() == old(Footprint())
    {
      hide MappingFields, CodingFields, BlockFields, Fixed, Footprint, GoodHead, GoodCoding, GoodLength, GoodValue, GoSelectors, GoRows, GoLength, Search;
      st := Next(st, v);
      blockRandomised, i, origPtr, state := v, 0, 0, ORIGPTR;
    }

    method OnOrigPtr(v: nat)
      requires Valid() && st.OrigPtr?
      modifies this
      ensures Shows(Next(old(st), v)) && Footprint() == old(Footprint())
    {
      hide CodingFields, BlockFields, Footprint, Fixed, GoSelectors, GoRows, GoLength, Search;
      st := Next(st, v);
      origPtr := origPtr * 256 + v;
      if i < 2 {
        i := i + 1;
      } else if blockRandomised == 1 || origPtr > 10 + BLOCK_UNIT * blockSize100k {
        state := CORRUPT;
      } else {
        i, state := 0, MAPPING_1;
      }
    }

    method OnEndHeader(v: nat)
      requires Valid() && st.EndHeader?
      modifies this
      ensures Shows(Next(old(st), v)) && Footprint() == old(Footprint())
    {
      hide MappingFields, CodingFields, BlockFields, Fixed, Footprint, GoodHead, GoodCoding, GoodLength, GoodValue, GoSelectors, GoRows, GoLength, Search;
      st := Next(st, v);
      if v != END_MAGIC[i] {
        state := CORRUPT;
      } else if i == 4 {
        i, storedCombinedCrc, state := 0, 0, CCRC;
      } else {
        i := i + 1;
      }
    }

    method OnCombinedCrc(v: nat)
      requires Valid() && st.CombinedCrc?
      modifies this
      ensures Shows(Next(old(st), v)) && Footprint() == old(Footprint())
    {
      hide BlockCrc.Word, MappingFields, CodingFields, BlockFields, Fixed, Footprint, GoodHead, GoodCoding, GoodLength, GoodValue, GoSelectors, GoRows, GoLength, Search;
      st := Next(st, v);
      storedCombinedCrc := storedCombinedCrc * 256 + v;
      if i < 3 {
        i := i + 1;
      } else {
        state := if storedCombinedCrc != BlockCrc.Word(combinedCrc) then CORRUPT else IDLE;
      }
    }

    // ---------- The bytes in use ----------

    method OnMapping1(v: nat)
      requires Valid() && st.Mapping1?
      modifies this, inUse16, inUse
      ensures Shows(Next(old(st), v)) && Footprint() == old(Footprint())
    {
      hide GoRows, HasHead, HasCoding, HasValues, HeaderFields, CodingFields, BlockFields, Footprint, GoodHead;
      ghost var h, used16, next := st.head, st.used16 + [v == 1], Next(st, v);
      inUse16[i] := v == 1;
      i := i + 1;
      assert inUse16[..i] == used16;
      if i < 16 {
        st := next;
      } else {
        ClearInUse();
        i := 0;
        assert inUse16[..16] == inUse16[..] && inUse[..0] == [];
        SkipRows(h, used16, []);
      }
    }

    method ClearInUse()
      modifies inUse
      ensures forall k :: 0 <= k < inUse.Length ==> !inUse[k]
    {
      for k := 0 to inUse.Length
        invariant forall n :: 0 <= n < k ==> !inUse[n]
      {
        inUse[k] := false;
      }
    }

    /** Goes to the next row with a byte in use; after the last row makes the maps. */
    method SkipRows(ghost h: Head, ghost used16: seq<bool>, ghost flags: seq<bool>)
      requires Fixed() && HasHead(h) && HasRows(used16, flags) && |flags| == 16 * i && i <= 16
      modifies this
      ensures Shows(GoRows(h, used16, flags)) && Footprint() == old(Footprint())
    {
      hide GoUsed, GoRows, HeaderFields, CodingFields, BlockFields, Footprint, HasHead, Fields;
      ghost var fs := flags;
      while i < 16 && !inUse16[i]
        invariant Fixed() && Footprint() == old(Footprint()) && HasHead(h) && HasRows(used16, fs) && |fs| == 16 * i && i <= 16
        invariant GoRows(h, used16, fs) == GoRows(h, used16, flags)
        decreases 16 - i
      {
        RowsGoOn(h, used16, fs);
        RowSkipped(inUse[..], fs);
        fs := fs + NoFlags();
        i := i + 1;
      }
      AtRow(h, used16, fs);
    }

    method AtRow(ghost h: Head, ghost used16: seq<bool>, ghost flags: seq<bool>)
      requires Fixed() && HasHead(h) && HasRows(used16, flags) && |flags| == 16 * i && i <= 16 && (i < 16 ==> inUse16[i])
      modifies this
      ensures Shows(GoRows(h, used16, flags)) && Footprint() == old(Footprint())
    {
      hide GoUsed, GoRows, HeaderFields, CodingFields, BlockFields, Footprint, HasHead;
      RowsStop(h, used16, flags);
      st := GoRows(h, used16, flags);
      if i == 16 {
        assert inUse[..256] == inUse[..];
        MakeMaps(h, flags);
      } else {
        j, state := 0, MAPPING_2;
      }
    }

    method MakeMaps(ghost h: Head, ghost flags: seq<bool>)
      requires Fixed() && HasHead(h) && inUse[..] == flags
      modifies this
      ensures Shows(GoUsed(h, flags)) && Footprint() == old(Footprint())
    {
      hide UsedBytes, CodingFields, BlockFields, Footprint, HasHead;
      var n, unseqToSeq, s2u := Mtf.MakeMaps(inUse);
      nInUse, seqToUnseq := n, s2u[..];
      st := GoUsed(h, flags);
      state := if nInUse == 0 then CORRUPT else SELECTOR_1;
    }

    method OnMapping2(v: nat)
      requires Valid() && st.Mapping2?
      modifies this, inUse
      ensures Shows(Next(old(st), v)) && Footprint() == old(Footprint())
    {
      hide GoRows, HasHead, HasCoding, HasValues, HeaderFields, CodingFields, BlockFields, Footprint, Next, Good;
      ghost var h, used16, flags := st.head, st.used16, st.inUse + [v == 1];
      NextMapping2(st, v);
      if v == 1 { inUse[i * 16 + j] := true; }
      assert HasRows(used16, flags);
      j := j + 1;
      if j < 16 {
        st := Mapping2(h, used16, flags);
      } else {
        i := i + 1;
        SkipRows(h, used16, flags);
      }
    }

    // ---------- Selectors ----------

    method OnSelector1(v: nat)
      requires Valid() && st.Selector1?
      modifies this
      ensures Shows(Next(old(st), v)) && Footprint() == old(Footprint())
    {
      hide CodingFields, BlockFields, Footprint, Fixed, HasHead, HasUsed, GoodHead, GoSelectors, GoRows, GoLength, Search;
      st := Next(st, v);
      nGroups := v;
      state := if nGroups < 2 || nGroups > 6 then CORRUPT else SELECTOR_2;
    }

    method OnSelector2(v: nat)
      requires Valid() && st.Selector2?
      modifies this
      ensures Shows(Next(old(st), v)) && Footprint() == old(Footprint())
    {
      hide Next, Good, Footprint, Fixed, HasHead, HasUsed, CodingFields, BlockFields, HeaderFields;
      NextSelector2(st, v);
      st := Next(st, v);
      nSelectors, i, j := v, 0, 0;
      assert selectorMtf[..0] == [];
      state := if nSelectors < 1 then CORRUPT else SELECTOR_3;
    }

    /** A bit of a selector. The arrays hold MAX_SELECTORS of them, and the code
        does not check that: a store past their end is reported as such. */
    method OnSelector3(v: nat)
      requires Valid() && st.Selector3?
      modifies this, selectorMtf, selector
      ensures Shows(Next(old(st), v)) && Footprint() == old(Footprint())
    {
      hide UndoSelectorMtf, GoSelectors, HasValues, CodingFields, BlockFields, HeaderFields, HasHead, HasUsed, GoodHead;
      ghost var next := Next(st, v);
      if v == 0 && i < selectorMtf.Length {
        StoreSelector(st.head, st.used, st.js);
        return;
      }
      if v != 0 { j := j + 1; }
      state := if v == 0 then OVERRUN else if j >= nGroups then CORRUPT else SELECTOR_3;
      st := next;
    }

    /** Selector i is stored; after the last, their move-to-front is undone. */
    method StoreSelector(ghost h: Head, ghost used: seq<byte>, ghost js: seq<nat>)
      requires Fixed() && HasHead(h) && HasUsed(used) && i == |js| < nSelectors && i < selectorMtf.Length && selectorMtf[..i] == js
      requires 1 <= nGroups <= 6 && j < nGroups && forall k :: 0 <= k < |js| ==> js[k] < nGroups
      modifies this, selectorMtf, selector
      ensures Shows(GoSelectors(h, used, old(nGroups), old(nSelectors), js + [old(j)])) && Footprint() == old(Footprint())
    {
      hide UndoSelectorMtf, GoSelectors, HasValues, HasCoding, CodingFields, BlockFields, HeaderFields, Footprint, HasHead, HasUsed, Fixed, GoTables;
      ghost var js' := js + [j];
      selectorMtf[i] := j;
      i, j := i + 1, 0;
      assert selectorMtf[..i] == js';
      if i < nSelectors {
        SelectorsGo(h, used, nGroups, nSelectors, js');
        st := GoSelectors(h, used, nGroups, nSelectors, js');
        state := SELECTOR_3;
      } else {
        EndSelectors(h, used, js');
      }
    }

    method EndSelectors(ghost h: Head, ghost used: seq<byte>, ghost js: seq<nat>)
      requires Fixed() && HasHead(h) && HasUsed(used) && |js| == nSelectors <= selectorMtf.Length && selectorMtf[..nSelectors] == js
      requires 1 <= nGroups <= 6 && forall k :: 0 <= k < |js| ==> js[k] < nGroups
      modifies this, selector
      ensures Shows(GoSelectors(h, used, old(nGroups), old(nSelectors), js)) && Footprint() == old(Footprint())
    {
      hide UndoSelectorMtf, GoSelectors, HasValues, MappingFields, BlockFields, HeaderFields, Footprint;
      UndoSelectors(selectorMtf, selector, nSelectors, nGroups);
      SelectorsGo(h, used, nGroups, nSelectors, js);
      st := GoSelectors(h, used, nGroups, nSelectors, js);
      t, state := 0, CODING_1;
    }

    // ---------- Coding tables ----------

    method OnCoding1(v: nat)
      requires Valid() && st.Coding1?
      modifies this
      ensures Shows(Next(old(st), v)) && Footprint() == old(Footprint())
    {
      hide GoLength, GoodCoding, HasValues, Rows, MappingFields, BlockFields, HeaderFields, Footprint;
      ghost var c := st.c;
      CodingFits(c);
      curr, i := v, 0;
      assert HasCoding(c);
      hide HasCoding;
      CheckLength(c, []);
    }

    /** The length must be one a code can have. */
    method CheckLength(ghost c: Coding, ghost lens: seq<nat>)
      requires Fixed() && HasLengths(c, lens)
      modifies this
      ensures Shows(GoLength(c, lens, old(curr))) && Footprint() == old(Footprint())
    {
      hide GoTables, HasValues, Rows, GoodCoding, MappingFields, BlockFields, HeaderFields, Footprint;
      st := GoLength(c, lens, curr);
      state := if curr < 1 || curr > Huffman.LONGEST_CODE then CORRUPT else CODING_2;
    }

    lemma CodingFits(c: Coding)
      requires HasCoding(c)
      ensures nGroups == c.nGroups <= len.Length0 && nInUse == |c.used| && |c.used| + 2 <= len.Length1
    {
    }

    lemma SelectorsFit(c: Coding)
      requires HasCoding(c)
      ensures nSelectors == |c.sels| <= selector.Length && forall g :: 0 <= g < nSelectors ==> selector[g] == c.sels[g]
    {
      assert forall g :: 0 <= g < nSelectors ==> selector[..nSelectors][g] == selector[g];
    }

    method OnCoding2(v: nat)
      requires Valid() && st.Coding2?
      modifies this, len
      ensures Shows(Next(old(st), v)) && fresh(Footprint() - old(Footprint()))
    {
      hide GoLength, GoodCoding, HasValues, Rows, AllLengths, MappingFields, BlockFields, HeaderFields, Footprint;
      ghost var c, lens := st.c, st.lens;
      CodingFits(c);
      if v != 0 {
        st := Next(st, v);
        state := CODING_3;
      } else {
        StoreLength(c, lens);
      }
    }

    method StoreLength(ghost c: Coding, ghost lens: seq<nat>)
      requires Fixed() && HasLengths(c, lens) && GoodLength(c, lens) && 1 <= curr <= Huffman.LONGEST_CODE
      modifies this, len
      ensures Shows(GoLength(c, lens + [old(curr)], old(curr))) && fresh(Footprint() - old(Footprint()))
    {
      hide GoLength, GoodCoding, HasValues, AllLengths, MappingFields, BlockFields, HeaderFields, Fields, HasSelectors, HasUsed, HasHead;
      ghost var lens' := lens + [curr];
      len[t, i] := curr;
      i := i + 1;
      assert HasCoding(c);
      hide HasCoding, Rows;
      CodingFits(c);
      if i < nInUse + 2 {
        CheckLength(c, lens');
      } else {
        TableEnds(c, lens', curr);
        EndTable(c, lens');
      }
    }

    method OnCoding3(v: nat)
      requires Valid() && st.Coding3?
      modifies this
      ensures Shows(Next(old(st), v)) && Footprint() == old(Footprint())
    {
      hide GoLength, GoodCoding, HasValues, Rows, AllLengths, MappingFields, BlockFields, HeaderFields, Footprint;
      ghost var c, lens := st.c, st.lens;
      curr := if v == 0 then curr + 1 else curr - 1;
      assert HasCoding(c);
      hide HasCoding;
      CheckLength(c, lens);
    }

    /** A table is complete; after the last, the values begin. */
    method EndTable(ghost c: Coding, ghost lens: seq<nat>)
      requires Fixed() && HasCoding(c) && GoodCoding(c) && t == |c.tables| < c.nGroups && Row(len, t, lens, |c.used| + 2) && Lengths(lens, |c.used| + 2)
      modifies this
      ensures Shows(GoTables(c.(tables := c.tables + [lens]))) && fresh(Footprint() - old(Footprint()))
    {
      hide HasValues, AllLengths, Lengths, Row, GoValue, MappingFields, BlockFields, HeaderFields;
      ghost var c' := c.(tables := c.tables + [lens]);
      TablesJoin(c.tables, [lens], |c.used| + 2);
      t := t + 1;
      assert HasCoding(c');
      hide Rows, HasSelectors, HasUsed, HasHead;
      if t < nGroups {
        state := CODING_1;
        st := GoTables(c');
      } else {
        StartValues(c');
      }
    }

    /** The decoding tables are set up, and the list and the counts initialised. */
    method StartValues(ghost c: Coding)
      requires Fixed() && HasCoding(c) && GoodCoding(c) && |c.tables| == c.nGroups
      modifies this
      ensures Shows(GoValue(c, 0, StartDecoding())) && fresh(Footprint() - old(Footprint()))
    {
      hide GoValue, Column.Valid, GoodCoding, StartDecoding, AllSetUp, MappingFields, HeaderFields, BlockFields, CodingFields, Fields, HasSelectors, HasHead, Rows;
      CodingAll(c);
      hide Huffman.Announced;
      tabs := SetUpAll(len, nGroups, nInUse + 2, c.tables);
      column := new Column(tt, seqToUnseq);
      groupNo, groupPos := -1, 0;
      StartWithin(|c.used|, Room(c.head));
      assert HasValues(c, 0, StartDecoding());
      hide HasValues;
      NextValue(c, 0, StartDecoding());
    }

    /** Before a value: a new group of fifty has to have a selector. */
    method NextValue(ghost c: Coding, ghost k: nat, ghost d: Decoding)
      requires Fixed() && HasValues(c, k, d) && GoodCoding(c) && |c.tables| == c.nGroups && Within(d, |c.used|, Room(c.head))
      modifies this
      ensures Shows(GoValue(c, k, d)) && Footprint() == old(Footprint())
    {
      hide GoValue, GoodValue, GoodCoding, Within, AllSetUp, Column.Valid, CodeLengths, HasCoding, MappingFields, BlockFields, HeaderFields, Footprint, Fixed;
      ValueGoes(c, k, d);
      SelectorsFit(c);
      st := GoValue(c, k, d);
      if groupPos == 0 {
        groupNo := groupNo + 1;
        if groupNo >= nSelectors {
          state := CORRUPT;
          return;
        }
        groupPos := GROUP_SIZE;
      }
      groupPos := groupPos - 1;
      FirstRequest(c, k, d);
    }

    /** The request for the shortest codes. */
    method FirstRequest(ghost c: Coding, ghost k: nat, ghost d: Decoding)
      requires Fixed() && HasValues(c, k + 1, d) && GoodCoding(c) && |c.tables| == c.nGroups && k / GROUP_SIZE < |c.sels|
      requires groupNo >= 0 && groupPos < GROUP_SIZE && st == Symbol(c, k, d, Huffman.MinOf(CodeLengths(c, k)), 0, true)
      modifies this
      ensures Shows(old(st)) && Footprint() == old(Footprint())
    {
      hide GoodCoding, AllSetUp, Column.Valid, CodeLengths, HasCoding, MappingFields, BlockFields, HeaderFields, Footprint, Fixed;
      SelectorsFit(c);
      SetUpHere(tabs, c, k);
      zn, state := tabs[selector[groupNo]].minLen, MTF_FIRST;
    }

    /** More bits of a code. */
    method OnSymbol(v: nat)
      requires Valid() && st.Symbol? && (st.first || v < 2)
      modifies this, column, column.tt, column.unzftab, column.mtf, column.mtf.mtfa, column.mtf.mtfbase
      ensures Shows(Next(old(st), v)) && Footprint() == old(Footprint())
    {
      hide HasValues, GoodValue, CodeLengths, Search, Next, MappingFields, BlockFields, HeaderFields, Footprint, Fixed, Huffman.Searching, Huffman.TablesOf;
      ghost var c, k, d := st.c, st.k, st.d;
      NextSymbol(st, v);
      if state == MTF_FIRST {
        zvec := v;
      } else {
        zn, zvec := zn + 1, 2 * zvec + v;
      }
      Look(c, k, d);
    }

    /** Are the bits read a code? */
    method Look(ghost c: Coding, ghost k: nat, ghost d: Decoding)
      requires Fixed() && HasValues(c, k + 1, d) && GoodValue(c, k, d) && groupNo >= 0 && groupPos < GROUP_SIZE
      requires Huffman.Searching(CodeLengths(c, k), zn, zvec)
      modifies this, column, column.tt, column.unzftab, column.mtf, column.mtf.mtfa, column.mtf.mtfbase
      ensures Shows(Search(c, k, d, old(zn), old(zvec))) && Footprint() == old(Footprint())
    {
      hide HasCoding, GoTaken, GoodCoding, Within, CodeLengths, Column.Valid, AllSetUp, MappingFields, BlockFields, HeaderFields, Footprint, Fixed, Huffman.Searching, Huffman.TablesOf;
      SelectorsFit(c);
      SetUpHere(tabs, c, k);
      var g := tabs[selector[groupNo]];
      SameSearch(g, CodeLengths(c, k), zn, zvec);
      ghost var next := Search(c, k, d, zn, zvec);
      if zn > Huffman.LONGEST_CODE {
        state := CORRUPT;
        st := next;
      } else if zvec > g.limit[zn] {
        state := MTF_MORE;
        st := next;
      } else {
        var z := zvec - g.base[zn];
        OnValue(g.perm[z], c, k, d);
      }
    }

    lemma ValuesFit(c: Coding, k: nat, d: Decoding)
      requires HasValues(c, k, d) && Within(d, |c.used|, Room(c.head))
      ensures nInUse == |c.used| && Room(c.head) == BLOCK_UNIT * blockSize100k == tt.Length && column.nblock <= tt.Length
    {
      hide Stored, AllBytes, AllSetUp;
    }

    /** A value: what the decoder makes of it. */
    method OnValue(nextSym: nat, ghost c: Coding, ghost k: nat, ghost d: Decoding)
      requires Fixed() && HasValues(c, k + 1, d) && GoodValue(c, k, d) && nextSym <= |c.used| + 1
      modifies this, column, column.tt, column.unzftab, column.mtf, column.mtf.mtfa, column.mtf.mtfbase
      ensures Shows(GoTaken(c, k, d, nextSym)) && Footprint() == old(Footprint())
    {
      hide HasCoding, GoodCoding, Within, AllSetUp, Column.Valid, CodeLengths, Take, GoValue, GoColumn, HeaderFields, MappingFields, CodingFields, BlockFields, Footprint;
      CodingSizes(c);
      ValuesFit(c, k + 1, d);
      TakeWithin(d, nextSym, |c.used|, Room(c.head));
      ghost var next := GoTaken(c, k, d, nextSym);
      var bad, end := column.TakeValue(nextSym, nInUse + 1, BLOCK_UNIT * blockSize100k);
      if bad {
        state := CORRUPT;
        st := next;
      } else if end {
        EndValues(c, column.d.done);
      } else {
        NextValue(c, k + 1, column.d);
      }
    }

    /** All values are there: the block is ready, if it has its row. */
    method EndValues(ghost c: Coding, ghost syms: seq<nat>)
      requires Fixed() && HasCoding(c) && GoodCoding(c) && AtMost(syms, |c.used| - 1)
      requires column.tt == tt && column.seqToUnseq == seqToUnseq && column.Valid() && column.d.done == syms
      modifies this
      ensures Shows(GoColumn(c, syms)) && Footprint() == old(Footprint())
    {
      hide HeaderFields, MappingFields, CodingFields, Footprint, Stored, HoldsColumn, MtfDecoder.List.Valid, AllBytes;
      st := GoColumn(c, syms);
      if origPtr >= column.nblock {
        state := CORRUPT;
      } else {
        StoredHolds(tt[..], column.unzftab[..], seqToUnseq, c.used, syms);
        state := OUTPUT;
      }
    }

    // ---------- Requests ----------

    /** How many bits come next. */
    method Wanted() returns (w: nat)
      requires Valid()
      ensures w == Width(st) <= 24
    {
      hide Fixed, MappingFields, HeaderFields, BlockFields, GoodHead, GoodCoding, GoodLength, HasValues, Huffman.TablesOf, Huffman.Searching;
      if state == MTF_FIRST { ShortestFits(st.c, st.k, st.d); }
      w := match state
        case MAGIC | MAGIC_4 | BLKHDR_1 | BLKHDR | BCRC | ORIGPTR | ENDHDR | CCRC => 8
        case RANDBIT | MAPPING_1 | MAPPING_2 | SELECTOR_3 | CODING_2 | CODING_3 | MTF_MORE => 1
        case SELECTOR_1 => 3
        case SELECTOR_2 => 15
        case CODING_1 => 5
        case MTF_FIRST => zn
        case _ => 0;
    }

    /** One request served. */
    method Step(v: nat)
      requires Valid() && Width(st) > 0 && v < Pow2(Width(st))
      modifies this, Footprint()
      ensures Valid() && st == Next(old(st), v) && fresh(Footprint() - old(Footprint()))
    {
      hide Fields, Fixed, Good, Next, Pow2;
      NextGood(st, v);
      match state
      case MAGIC => OnMagic(v);
      case MAGIC_4 => OnLevel(v);
      case BLKHDR_1 => OnKind(v);
      case BLKHDR => OnBlockHeader(v);
      case BCRC => OnStoredCrc(v);
      case RANDBIT => OnRandBit(v);
      case ORIGPTR => OnOrigPtr(v);
      case MAPPING_1 => OnMapping1(v);
      case MAPPING_2 => OnMapping2(v);
      case SELECTOR_1 => OnSelector1(v);
      case SELECTOR_2 => OnSelector2(v);
      case SELECTOR_3 => OnSelector3(v);
      case CODING_1 => OnCoding1(v);
      case CODING_2 => OnCoding2(v);
      case CODING_3 => OnCoding3(v);
      case MTF_FIRST => OnSymbol(v);
      case MTF_MORE =>
        BelowTwo(v);
        OnSymbol(v);
      case ENDHDR => OnEndHeader(v);
      case CCRC => OnCombinedCrc(v);
      case _ => assert false;
    }

    /** The next request, if the input supplied is enough for it. */
    method Request(reader: Reader) returns (served: bool)
      requires Valid() && reader.Valid() && reader !in Footprint()
      modifies this, Footprint(), reader
      ensures Valid() && reader.Valid() && fresh(Footprint() - old(Footprint()))
      ensures var w, bits := Width(old(st)), old(reader.Pending());
              served == (w > 0 && |bits| >= w) &&
              if served then st == Next(old(st), FromBits(bits[..w])) && reader.Pending() == bits[w..]
              else st == old(st) && reader.Pending() == bits
    {
      hide Shows, Good, Next, Reader.Valid, Reader.Pending, FromBits, ToBits, BytesToBits, Pow2;
      var w := Wanted();
      if w == 0 { return false; }
      ghost var bits := reader.Pending();
      var r := reader.Get(w);
      if r.None? { return false; }
      FromBitsBound(bits[..w]);
      Step(r.value);
      served := true;
    }

    /** BZ2_decompress: serves requests as far as the input supplied goes, from
        wherever the last call stopped. */
    method Run(reader: Reader)
      requires Valid() && reader.Valid() && reader !in Footprint()
      modifies this, Footprint(), reader
      ensures Valid() && reader.Valid() && fresh(Footprint() - old(Footprint())) && reader !in Footprint()
      ensures (st, reader.Pending()) == Drive(Width, Next, old(st), old(reader.Pending()))
    {
      hide Valid, Next, Width, Reader.Valid, Reader.Pending, FromBits, ToBits, BytesToBits, Pow2;
      var more := Request(reader);
      while more
        invariant Valid() && reader.Valid() && fresh(Footprint() - old(Footprint())) && reader !in Footprint()
        invariant Drive(Width, Next, st, reader.Pending()) == Drive(Width, Next, old(st), old(reader.Pending()))
        invariant !more ==> Width(st) == 0 || |reader.Pending()| < Width(st)
        decreases |reader.Pending()|, more
      {
        more := Request(reader);
      }
    }

    /** The block has been put out: its CRC is combined with the others. */
    method BlockDone(crc: bv32)
      requires Fixed() && st.Ready? && GoodContext(st.ctx) && HasContext(st.ctx)
      modifies this
      ensures Valid() && st == Kind(Context(old(st).ctx.level, BlockCrc.Combine(old(st).ctx.combined, crc))) && Footprint() == old(Footprint())
    {
      hide HoldsColumn, MappingFields, CodingFields, Fixed, Footprint, BlockCrc.Combine;
      combinedCrc := BlockCrc.Combine(combinedCrc, crc);
      st := Kind(Context(st.ctx.level, combinedCrc));
      state := BLKHDR_1;
    }
  }

  lemma BelowTwo(v: nat)
    requires v < Pow2(1)
    ensures v < 2
  {
    assert Pow2(1) == 2 * Pow2(0);
  }

  lemma ShortestFits(c: Coding, k: nat, d: Decoding)
    requires GoodValue(c, k, d)
    ensures Huffman.MinOf(CodeLengths(c, k)) <= Huffman.LONGEST_CODE
  {
  }

  lemma CodingSizes(c: Coding)
    requires GoodCoding(c)
    ensures 1 <= |c.used| <= 256 && 1 <= c.head.ctx.level <= 9
  {
  }

  /** Given all else, a value can be read if and only if it has a selector. */
  lemma ValueGoes(c: Coding, k: nat, d: Decoding)
    requires GoodCoding(c) && |c.tables| == c.nGroups && Within(d, |c.used|, Room(c.head))
    ensures GoValue(c, k, d) == if k / GROUP_SIZE < |c.sels| then Symbol(c, k, d, Huffman.MinOf(CodeLengths(c, k)), 0, true) else Bad
  {
    hide GoodCoding, Within, CodeLengths;
  }

  lemma NextSymbol(s: State, v: nat)
    requires Good(s) && s.Symbol?
    ensures GoodValue(s.c, s.k, s.d)
    ensures var n := if s.first then s.zn else s.zn + 1;
            var z := if s.first then v else 2 * s.zvec + v;
            Next(s, v) == Search(s.c, s.k, s.d, n, z) && (s.first || v < 2 ==> Huffman.Searching(CodeLengths(s.c, s.k), n, z))
  {
    hide Search, Huffman.TablesOf, Huffman.End, Huffman.First, Huffman.TablesFor;
    var lens := CodeLengths(s.c, s.k);
    var t := Huffman.TablesOf(lens);
    Huffman.LimitOf(t, lens, s.zn);
    if !s.first && v < 2 { Huffman.SearchOn(lens, s.zn, s.zvec, v); }
    if s.first { Huffman.FirstIsZero(lens, Huffman.MinOf(lens)); }
  }

  lemma NextMapping2(s: State, v: nat)
    requires Good(s) && s.Mapping2?
    ensures |s.used16| == 16 && |s.inUse| < 256
    ensures var now := s.inUse + [v == 1];
            Next(s, v) == if |now| % 16 != 0 then Mapping2(s.head, s.used16, now) else GoRows(s.head, s.used16, now)
  {
    hide GoRows;
  }

  lemma NextSelector2(s: State, v: nat)
    requires Good(s) && s.Selector2?
    ensures Next(s, v) == if v < 1 then Bad else Selector3(s.head, s.used, s.nGroups, v, [], 0)
  {
    hide GoTables, UndoSelectorMtf;
  }

  lemma SelectorsGo(h: Head, used: seq<byte>, nGroups: nat, n: nat, js: seq<nat>)
    requires 1 <= nGroups && |js| <= n && forall i :: 0 <= i < |js| ==> js[i] < nGroups
    ensures |UndoSelectorMtf(Identity(nGroups), js)| == |js|
    ensures GoSelectors(h, used, nGroups, n, js) ==
            if |js| < n then Selector3(h, used, nGroups, n, js, 0)
            else Coding1(Coding(h, used, nGroups, UndoSelectorMtf(Identity(nGroups), js), []))
  {
    hide UndoSelectorMtf;
    UndoKnown(Identity(nGroups), js, nGroups);
  }

  lemma CodingAll(c: Coding)
    requires GoodCoding(c) && |c.tables| == c.nGroups
    ensures forall t :: 0 <= t < |c.tables| ==> Huffman.Announced(c.tables[t])
    ensures 1 <= |c.used| <= 256
  {
    forall t | 0 <= t < |c.tables| ensures Huffman.Announced(c.tables[t]) {
      assert Lengths(c.tables[t], |c.used| + 2);
    }
  }

  /** Value k's tables have been set up. */
  lemma SetUpHere(tabs: seq<Huffman.Tables>, c: Coding, k: nat)
    requires GoodCoding(c) && |c.tables| == c.nGroups && k / GROUP_SIZE < |c.sels| && AllSetUp(tabs, c.tables)
    ensures c.sels[k / GROUP_SIZE] < |tabs|
    ensures Huffman.SetUpFor(tabs[c.sels[k / GROUP_SIZE]], CodeLengths(c, k))
    ensures tabs[c.sels[k / GROUP_SIZE]].minLen == Huffman.MinOf(CodeLengths(c, k))
  {
    hide Huffman.TablesFor;
  }

  lemma TableEnds(c: Coding, lens: seq<nat>, curr: int)
    requires |lens| == |c.used| + 2
    ensures GoLength(c, lens, curr) == GoTables(c.(tables := c.tables + [lens]))
  {
    hide GoTables;
  }

  lemma RowSkipped(inUse: seq<bool>, flags: seq<bool>)
    requires |flags| + 16 <= |inUse| && inUse[..|flags|] == flags && forall k :: |flags| <= k < |inUse| ==> !inUse[k]
    ensures inUse[..|flags| + 16] == flags + NoFlags()
  {
  }

  lemma RowsStop(h: Head, used16: seq<bool>, flags: seq<bool>)
    requires |used16| == 16 && |flags| % 16 == 0 && |flags| <= 256 && (|flags| < 256 ==> used16[|flags| / 16])
    ensures GoRows(h, used16, flags) == if |flags| == 256 then GoUsed(h, flags) else Mapping2(h, used16, flags)
  {
    hide GoUsed;
  }

  lemma RowsGoOn(h: Head, used16: seq<bool>, flags: seq<bool>)
    requires |used16| == 16 && |flags| % 16 == 0 && |flags| < 256 && !used16[|flags| / 16]
    ensures GoRows(h, used16, flags) == GoRows(h, used16, flags + NoFlags())
  {
    hide GoUsed;
  }

  /** The stored symbols are the block's last column. */
  lemma StoredHolds(tt: seq<nat>, unzftab: seq<nat>, seqToUnseq: seq<byte>, used: seq<byte>, syms: seq<nat>)
    requires 1 <= |used| <= 256 && |seqToUnseq| == 256 && used <= seqToUnseq
    requires AtMost(syms, |used| - 1) && Stored(tt, unzftab, seqToUnseq, syms)
    ensures HoldsColumn(tt, unzftab, Spelled(used, syms))
  {
    assert ToBytes(seqToUnseq, syms) == Spelled(used, syms);
  }
}
