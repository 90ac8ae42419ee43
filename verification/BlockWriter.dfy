/**
 sendMTFValues and BZ2_compressBlock of compress.c, writing through the bit
 stream. The choice of tables and selectors is left open.
 */
module BlockWriter {
  import opened Sequences
  import opened Bits
  import opened BitSeq
  import opened BitStream
  import opened Rotation
  import opened Mtf
  import opened MtfEncoder
  import opened BlockFormat
  import opened BlockCode
  import Huffman
  import CodeLengths
  import HuffmanTree

  // ---------- Mapping table ----------

  lemma OneBit(b: bit)
    ensures ToBits(b, 1) == [b]
  {
    assert ToBits(b / 2, 0) == [];
  }

  lemma FlagBitsFrom(flags: seq<bool>, i: nat)
    requires i < |flags|
    ensures FlagBits(flags[i..]) == [BitOf(flags[i])] + FlagBits(flags[i + 1..])
  {
    assert flags[i..][1..] == flags[i + 1..];
  }

  /** One flag as one bit. */
  method PutFlag(w: Writer, flag: bool)
    requires w.Valid()
    modifies w
    ensures w.Valid() && w.Written() == old(w.Written()) + [BitOf(flag)]
  {
    Pow2Values();
    OneBit(BitOf(flag));
    if flag { w.W(1, 1); } else { w.W(1, 0); }
  }

  method PutFlags(w: Writer, flags: seq<bool>)
    requires w.Valid()
    modifies w
    ensures w.Valid() && w.Written() == old(w.Written()) + FlagBits(flags)
  {
    hide FlagBits, Writer.Valid, Writer.Written;
    ghost var goal := w.Written() + FlagBits(flags);
    assert flags[0..] == flags;
    for i := 0 to |flags|
      invariant w.Valid() && w.Written() + FlagBits(flags[i..]) == goal
    {
      FlagBitsFrom(flags, i);
      ghost var before := w.Written();
      PutFlag(w, flags[i]);
      assert before + ([BitOf(flags[i])] + FlagBits(flags[i + 1..])) == w.Written() + FlagBits(flags[i + 1..]);
    }
    NoFlagBits(flags[|flags|..]);
  }

  lemma NoFlagBits(flags: seq<bool>)
    requires flags == []
    ensures FlagBits(flags) == []
  {
  }

  method SendMapping(w: Writer, inUse: array<bool>)
    requires w.Valid() && inUse.Length == 256
    modifies w
    ensures w.Valid() && w.Written() == old(w.Written()) + MappingBits(inUse[..])
  {
    hide FlagBits, RowUsed, RowBits, Writer.Valid, Writer.Written;
    ghost var flags := inUse[..];
    var inUse16 := RowFlags(inUse);
    PutFlags(w, inUse16[..]);
    SendRows(w, inUse, inUse16);
    Regroup(old(w.Written()), FlagBits(RowsUsed(flags)), RowBits(flags, 0));
  }

  lemma RowsFrom(inUse: seq<bool>, i: nat)
    requires |inUse| == 256 && i < 16
    ensures RowBits(inUse, i) == (if RowUsed(inUse, i) then FlagBits(inUse[16 * i..16 * i + 16]) else []) + RowBits(inUse, i + 1)
    ensures RowBits(inUse, 16) == []
  {
    hide FlagBits, RowUsed;
  }

  method SendRows(w: Writer, inUse: array<bool>, inUse16: array<bool>)
    requires w.Valid() && inUse.Length == 256 && inUse16[..] == RowsUsed(inUse[..])
    modifies w
    ensures w.Valid() && w.Written() == old(w.Written()) + RowBits(inUse[..], 0)
  {
    hide FlagBits, RowUsed, RowBits, Writer.Valid, Writer.Written;
    ghost var flags := inUse[..];
    ghost var goal := w.Written() + RowBits(flags, 0);
    for i: nat := 0 to 16
      invariant w.Valid() && w.Written() + RowBits(flags, i) == goal
    {
      RowsFrom(flags, i);
      assert inUse16[..][i] == RowUsed(flags, i);
      if inUse16[i] {
        Regroup(w.Written(), FlagBits(flags[16 * i..16 * i + 16]), RowBits(flags, i + 1));
        assert inUse[16 * i..16 * i + 16] == flags[16 * i..16 * i + 16];
        PutFlags(w, inUse[16 * i..16 * i + 16]);
      } else {
        assert [] + RowBits(flags, i + 1) == RowBits(flags, i + 1);
      }
    }
    RowsFrom(flags, 0);
  }

  method RowFlags(inUse: array<bool>) returns (inUse16: array<bool>)
    requires inUse.Length == 256
    ensures fresh(inUse16) && inUse16[..] == RowsUsed(inUse[..])
  {
    inUse16 := new bool[16];
    for i := 0 to 16
      invariant forall k :: 0 <= k < i ==> inUse16[k] == RowUsed(inUse[..], k)
    {
      inUse16[i] := false;
      for j := 0 to 16
        invariant forall k :: 0 <= k < i ==> inUse16[k] == RowUsed(inUse[..], k)
        invariant inUse16[i] == exists m :: 16 * i <= m < 16 * i + j && inUse[m]
      {
        if inUse[i * 16 + j] { inUse16[i] := true; }
      }
    }
  }

  // ---------- Selectors ----------

  /** The in-place move-to-front of the encoder: shifts until x is found. */
  method FindSelector(pos: array<nat>, x: nat) returns (j: nat)
    requires x in pos[..]
    modifies pos
    ensures j == IndexOf(old(pos[..]), x) && pos[..] == Front(old(pos[..]), j)
  {
    ghost var list := pos[..];
    ghost var goal := IndexOf(list, x);
    j := 0;
    var tmp := pos[j];
    while x != tmp
      invariant j <= goal && tmp == list[j] && pos.Length == |list|
      invariant forall k :: j < k < |list| ==> pos[k] == list[k]
      invariant forall k :: 1 <= k <= j ==> pos[k] == list[k - 1]
      decreases goal - j
    {
      j := j + 1;
      var tmp2 := tmp;
      tmp := pos[j];
      pos[j] := tmp2;
    }
    pos[0] := tmp;
  }

  lemma SelectorFrom(pos: seq<nat>, sels: seq<nat>, i: nat)
    requires i < |sels| && forall s :: s in sels[i..] ==> s in pos
    ensures sels[i] in pos
    ensures var j := IndexOf(pos, sels[i]);
            && (forall s :: s in sels[i + 1..] ==> s in Front(pos, j))
            && SelectorMtf(pos, sels[i..]) == [j] + SelectorMtf(Front(pos, j), sels[i + 1..])
  {
    assert sels[i..][0] == sels[i] && sels[i..][1..] == sels[i + 1..];
    FrontKeeps(pos, IndexOf(pos, sels[i]));
  }

  method PutUnary(w: Writer, j: nat)
    requires w.Valid()
    modifies w
    ensures w.Valid() && w.Written() == old(w.Written()) + Unary(j)
  {
    hide Writer.Valid, Writer.Written;
    ghost var goal := w.Written() + Unary(j);
    for k := 0 to j
      invariant w.Valid() && w.Written() + Unary(j - k) == goal
    {
      Regroup(w.Written(), [1], Unary(j - k - 1));
      PutFlag(w, true);
    }
    PutFlag(w, false);
  }

  /** The selectors' move-to-front values, in an array like that of the selectors. */
  method SelectorValues(nGroups: nat, selector: array<nat>, nSelectors: nat) returns (selectorMtf: array<nat>)
    requires nGroups > 0 && nSelectors <= selector.Length == MAX_SELECTORS && forall i :: 0 <= i < nSelectors ==> selector[i] < nGroups
    ensures fresh(selectorMtf) && selectorMtf.Length == MAX_SELECTORS && selector[..] == old(selector[..])
    ensures forall s :: s in selector[..nSelectors] ==> s in Identity(nGroups)
    ensures selectorMtf[..nSelectors] == SelectorMtf(Identity(nGroups), selector[..nSelectors])
  {
    hide SelectorMtf, IndexOf;
    ghost var sels := selector[..nSelectors];
    SelectorsKnown(nGroups, sels);
    selectorMtf := new nat[MAX_SELECTORS];
    var pos := new nat[nGroups](i => i);
    assert pos[..] == Identity(nGroups);
    ghost var goal := SelectorMtf(Identity(nGroups), sels);
    assert sels[0..] == sels && selectorMtf[..0] + goal == goal;
    for i := 0 to nSelectors
      invariant selector[..nSelectors] == sels && forall s :: s in sels[i..] ==> s in pos[..]
      invariant selectorMtf[..i] + SelectorMtf(pos[..], sels[i..]) == goal
    {
      SelectorFrom(pos[..], sels, i);
      ghost var before := selectorMtf[..i];
      var j := FindSelector(pos, selector[i]);
      Regroup(before, [j], SelectorMtf(pos[..], sels[i + 1..]));
      selectorMtf[i] := j;
      assert selectorMtf[..i + 1] == before + [j];
    }
    assert sels[nSelectors..] == [];
    assert SelectorMtf(pos[..], []) == [];
  }

  lemma UnaryBitsFrom(js: seq<nat>, i: nat)
    requires i < |js|
    ensures UnaryBits(js[i..]) == Unary(js[i]) + UnaryBits(js[i + 1..])
  {
    assert js[i..][1..] == js[i + 1..];
  }

  method SendSelectors(w: Writer, nGroups: nat, selector: array<nat>, nSelectors: nat)
    requires w.Valid() && 2 <= nGroups <= 6 && nSelectors <= selector.Length == MAX_SELECTORS
    requires forall i :: 0 <= i < nSelectors ==> selector[i] < nGroups
    modifies w
    ensures w.Valid() && w.Written() == old(w.Written()) + SelectorBits(nGroups, selector[..nSelectors])
  {
    hide ToBits, Unary, UnaryBits, SelectorMtf, Writer.Valid, Writer.Written;
    ghost var start, sels := w.Written(), selector[..nSelectors];
    var values := SelectorValues(nGroups, selector, nSelectors);
    ghost var selectorMtf := values[..nSelectors];
    SmallPowers();
    w.W(3, nGroups);
    w.W(15, nSelectors);
    ghost var head := w.Written();
    ghost var goal := head + UnaryBits(selectorMtf);
    Regroup(start, ToBits(nGroups, 3), ToBits(|sels|, 15));
    Regroup(start + ToBits(nGroups, 3), ToBits(|sels|, 15), UnaryBits(selectorMtf));
    Regroup(start, ToBits(nGroups, 3), ToBits(|sels|, 15) + UnaryBits(selectorMtf));
    assert start + SelectorBits(nGroups, sels) == goal;
    assert selectorMtf[0..] == selectorMtf;
    for i := 0 to nSelectors
      invariant w.Valid() && values[..nSelectors] == selectorMtf && w.Written() + UnaryBits(selectorMtf[i..]) == goal
    {
      UnaryBitsFrom(selectorMtf, i);
      Regroup(w.Written(), Unary(selectorMtf[i]), UnaryBits(selectorMtf[i + 1..]));
      PutUnary(w, values[i]);
    }
    NoUnaryBits(selectorMtf[nSelectors..]);
  }

  lemma NoUnaryBits(js: seq<nat>)
    requires js == []
    ensures UnaryBits(js) == []
  {
  }

  // ---------- Code lengths ----------

  lemma TwoBits(b: bit)
    ensures ToBits(2 + b, 2) == [1, b] && Pow2(2) == 4
  {
    OneBit(1);
    assert ToBits(2 + b, 2) == ToBits(1, 1) + [b];
  }

  lemma StepFrom(c: nat, t: nat)
    ensures c < t ==> Steps(c, t) == [1, 0] + Steps(c + 1, t)
    ensures c > t ==> Steps(c, t) == [1, 1] + Steps(c - 1, t)
    ensures c == t ==> Steps(c, t) == []
  {
  }

  /** From length curr to length t, and the stop bit. */
  method SendLength(w: Writer, curr: nat, t: nat)
    requires w.Valid()
    modifies w
    ensures w.Valid() && w.Written() == old(w.Written()) + (Steps(curr, t) + [0])
  {
    hide ToBits, Steps, Writer.Valid, Writer.Written;
    ghost var goal := w.Written() + Steps(curr, t);
    Regroup(w.Written(), Steps(curr, t), [0]);
    var c := curr;
    TwoBits(0);
    TwoBits(1);
    while c < t
      invariant w.Valid() && w.Written() + Steps(c, t) == goal
      decreases t - c
    {
      StepFrom(c, t);
      Regroup(w.Written(), [1, 0], Steps(c + 1, t));
      w.W(2, 2);
      c := c + 1;
    }
    while c > t
      invariant c >= t && w.Valid() && w.Written() + Steps(c, t) == goal
      decreases c
    {
      StepFrom(c, t);
      Regroup(w.Written(), [1, 1], Steps(c - 1, t));
      w.W(2, 3);
      c := c - 1;
    }
    StepFrom(c, t);
    PutFlag(w, false);
  }

  lemma DeltaFrom(curr: nat, lens: seq<nat>, i: nat)
    requires i < |lens|
    ensures DeltaBits(curr, lens[i..]) == (Steps(curr, lens[i]) + [0]) + DeltaBits(lens[i], lens[i + 1..])
  {
    assert lens[i..][1..] == lens[i + 1..] && lens[i..][0] == lens[i];
  }

  method SendTable(w: Writer, lens: seq<nat>)
    requires w.Valid() && lens != [] && lens[0] < 32
    modifies w
    ensures w.Valid() && w.Written() == old(w.Written()) + TableBits(lens)
  {
    hide ToBits, Steps, DeltaBits, Writer.Valid, Writer.Written;
    ghost var start := w.Written();
    Pow2Values();
    assert Pow2(5) == 2 * Pow2(4);
    var curr := lens[0];
    w.W(5, curr);
    ghost var goal := w.Written() + DeltaBits(curr, lens);
    Regroup(start, ToBits(curr, 5), DeltaBits(curr, lens));
    assert lens[0..] == lens;
    for i := 0 to |lens|
      invariant w.Valid() && w.Written() + DeltaBits(curr, lens[i..]) == goal
    {
      DeltaFrom(curr, lens, i);
      Regroup(w.Written(), Steps(curr, lens[i]) + [0], DeltaBits(lens[i], lens[i + 1..]));
      SendLength(w, curr, lens[i]);
      curr := lens[i];
    }
    NoDeltaBits(curr, lens[|lens|..]);
  }

  lemma NoDeltaBits(curr: nat, lens: seq<nat>)
    requires lens == []
    ensures DeltaBits(curr, lens) == []
  {
  }

  lemma TablesFrom(tables: seq<seq<nat>>, i: nat)
    requires i < |tables| && forall t :: 0 <= t < |tables| ==> tables[t] != []
    ensures TablesBits(tables[i..]) == TableBits(tables[i]) + TablesBits(tables[i + 1..])
  {
    assert tables[i..][1..] == tables[i + 1..];
  }

  method SendTables(w: Writer, tables: seq<seq<nat>>)
    requires w.Valid() && forall t :: 0 <= t < |tables| ==> tables[t] != [] && tables[t][0] < 32
    modifies w
    ensures w.Valid() && w.Written() == old(w.Written()) + TablesBits(tables)
  {
    hide TableBits, TablesBits, Writer.Valid, Writer.Written;
    ghost var goal := w.Written() + TablesBits(tables);
    assert tables[0..] == tables;
    for t := 0 to |tables|
      invariant w.Valid() && w.Written() + TablesBits(tables[t..]) == goal
    {
      TablesFrom(tables, t);
      Regroup(w.Written(), TableBits(tables[t]), TablesBits(tables[t + 1..]));
      SendTable(w, tables[t]);
    }
    NoTablesBits(tables[|tables|..]);
  }

  lemma NoTablesBits(tables: seq<seq<nat>>)
    requires tables == []
    ensures TablesBits(tables) == []
  {
  }

  // ---------- Making the tables ----------

  /** codes are the canonical codes of a sendable table. */
  ghost predicate CodesOf(lens: seq<nat>, codes: seq<nat>, alphaSize: nat) {
    && Sendable(lens, alphaSize) && |codes| == alphaSize
    && forall i :: 0 <= i < alphaSize ==> codes[i] == Huffman.Code(lens, i)
  }

  /** Lengths made for these frequencies. */
  ghost predicate HuffmanFor(rfreq: seq<nat>, lens: seq<nat>) {
    exists rounds: nat :: CodeLengths.MadeIn(rfreq, lens, 17, rounds)
  }

  method MakeTable(rfreq: seq<nat>, alphaSize: nat) returns (lens: seq<nat>, codes: seq<nat>)
    requires |rfreq| == alphaSize && 2 <= alphaSize <= Huffman.MAX_ALPHA_SIZE && CodeLengths.FreqSum(rfreq, alphaSize) < 0x80_0000
    ensures CodesOf(lens, codes, alphaSize) && HuffmanFor(rfreq, lens)
  {
    hide Huffman.Code, Huffman.End, CodeLengths.InForce, CodeLengths.Rejected, HuffmanTree.Optimal;
    var freq := new nat[alphaSize](i requires 0 <= i < alphaSize => rfreq[i]);
    assert freq[..] == rfreq;
    var len := new nat[alphaSize];
    var code := new nat[alphaSize];
    ghost var rounds := CodeLengths.MakeCodeLengths(len, freq, alphaSize, 17);
    var minLen, maxLen := Huffman.LengthRange(len);
    Huffman.AssignCodes(code, len, minLen, maxLen, alphaSize);
    lens, codes := len[..], code[..];
  }

  // ---------- Values ----------

  /** A code fits its length, and the length the bit buffer. */
  lemma CodeWritable(lens: seq<nat>, codes: seq<nat>, alphaSize: nat, v: nat)
    requires CodesOf(lens, codes, alphaSize) && v < alphaSize
    ensures 1 <= lens[v] <= 17 && codes[v] < Pow2(lens[v]) && Huffman.CodeBits(lens, v) == ToBits(codes[v], lens[v])
  {
    Huffman.CodeFits(lens, 17, v);
  }

  lemma ValuesFrom(tables: seq<seq<nat>>, sels: seq<nat>, vals: seq<nat>, k: nat)
    requires k < |vals| && forall i :: 0 <= i < |vals| ==> Codable(tables, sels, vals, i)
    ensures Codable(tables, sels, vals, k)
    ensures ValueBits(tables, sels, vals, k) == Huffman.CodeBits(TableFor(tables, sels, k), vals[k]) + ValueBits(tables, sels, vals, k + 1)
    ensures ValueBits(tables, sels, vals, |vals|) == []
  {
  }

  ghost predicate AllCodes(tables: seq<seq<nat>>, codes: seq<seq<nat>>, alphaSize: nat) {
    |codes| == |tables| && forall t :: 0 <= t < |tables| ==> CodesOf(tables[t], codes[t], alphaSize)
  }

  /** One value with its group's table. */
  method SendValue(w: Writer, tables: seq<seq<nat>>, codes: seq<seq<nat>>, sels: seq<nat>, vals: seq<nat>, eob: nat, i: nat, selCtr: nat)
    requires w.Valid() && Sent(tables, sels, vals, eob) && AllCodes(tables, codes, eob + 1)
    requires i < |vals| && selCtr == i / GROUP_SIZE < |sels| && forall i :: 0 <= i < |vals| ==> Codable(tables, sels, vals, i)
    modifies w
    ensures w.Valid() && w.Written() + ValueBits(tables, sels, vals, i + 1) == old(w.Written()) + ValueBits(tables, sels, vals, i)
  {
    hide Huffman.Code, Huffman.CodeBits, ValueBits, CodesOf, ToBits, Pow2, Sendable, Writer.Valid, Writer.Written;
    ValuesFrom(tables, sels, vals, i);
    var t := sels[selCtr];
    TableSize(tables, codes, eob + 1, t);
    CodeWritable(tables[t], codes[t], eob + 1, vals[i]);
    Regroup(w.Written(), ToBits(codes[t][vals[i]], tables[t][vals[i]]), ValueBits(tables, sels, vals, i + 1));
    w.W(tables[t][vals[i]], codes[t][vals[i]]);
  }

  lemma TableSize(tables: seq<seq<nat>>, codes: seq<seq<nat>>, alphaSize: nat, t: nat)
    requires AllCodes(tables, codes, alphaSize) && t < |tables|
    ensures CodesOf(tables[t], codes[t], alphaSize) && |tables[t]| == |codes[t]| == alphaSize
  {
  }

  /** The block data proper: groups of fifty values, each with its selector. */
  method SendValues(w: Writer, tables: seq<seq<nat>>, codes: seq<seq<nat>>, sels: seq<nat>, vals: seq<nat>, eob: nat)
    requires w.Valid() && Sent(tables, sels, vals, eob) && AllCodes(tables, codes, eob + 1)
    requires |sels| == (|vals| + GROUP_SIZE - 1) / GROUP_SIZE
    modifies w
    ensures w.Valid() && (forall i :: 0 <= i < |vals| ==> Codable(tables, sels, vals, i))
    ensures w.Written() == old(w.Written()) + ValueBits(tables, sels, vals, 0)
  {
    hide Sent, AllCodes, Codable, ValueBits, Writer.Valid, Writer.Written;
    SentCodable(tables, sels, vals, eob);
    NonEmpty(tables, sels, vals, eob);
    ghost var goal := w.Written() + ValueBits(tables, sels, vals, 0);
    var gs, selCtr := 0, 0;
    while gs < |vals|
      invariant 0 <= gs <= |vals| && w.Valid() && w.Written() + ValueBits(tables, sels, vals, gs) == goal
      invariant gs == (if GROUP_SIZE * selCtr <= |vals| then GROUP_SIZE * selCtr else |vals|) && 0 <= selCtr <= |sels|
      decreases |vals| - gs
    {
      var ge := gs + GROUP_SIZE - 1;
      if ge >= |vals| { ge := |vals| - 1; }
      for i := gs to ge + 1
        invariant w.Valid() && w.Written() + ValueBits(tables, sels, vals, i) == goal
      {
        SendValue(w, tables, codes, sels, vals, eob, i, selCtr);
      }
      gs := ge + 1;
      selCtr := selCtr + 1;
    }
    assert selCtr == |sels|;
    ValuesFrom(tables, sels, vals, 0);
  }

  lemma NonEmpty(tables: seq<seq<nat>>, sels: seq<nat>, vals: seq<nat>, eob: nat)
    requires Sent(tables, sels, vals, eob)
    ensures 0 < |vals| <= GROUP_SIZE * |sels|
  {
  }
}
