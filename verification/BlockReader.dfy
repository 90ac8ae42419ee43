/**
 BZ2_decompress (decompress.c) over the fields of DState: what it does between
 two requests for bits, label by label. It can stop at every request and resume
 there, because all it needs is in the fields.
 */
module BlockReader {
  import opened Sequences
  import opened Bits
  import opened BitSeq
  import opened BitStream
  import opened Wrappers
  import opened Rotation
  import opened Mtf
  import opened ValueDecoder
  import opened ValueCode
  import opened BlockFormat
  import opened BlockCode
  import opened Stream
  import opened DecoderStates
  import opened Coroutine
  import Huffman
  import MtfDecoder

  // ---------- Selectors ----------

  lemma UndoStep(pos: seq<nat>, js: seq<nat>, i: nat)
    requires i < |js| && forall k :: 0 <= k < |js| ==> js[k] < |pos|
    ensures UndoSelectorMtf(pos, js[i..]) == [pos[js[i]]] + UndoSelectorMtf(Front(pos, js[i]), js[i + 1..])
  {
    assert js[i..][1..] == js[i + 1..] && js[i..][0] == js[i];
  }

  /** Moves entry v of the list to the front, shifting in place. */
  method ShiftToFront(pos: array<nat>, v: nat) returns (tmp: nat)
    requires v < pos.Length
    modifies pos
    ensures tmp == old(pos[v]) && pos[..] == Front(old(pos[..]), v)
  {
    tmp := pos[v];
    var k := v;
    while k > 0
      invariant k <= v
      invariant forall i :: 0 <= i <= k ==> i < v ==> pos[i] == old(pos[i])
      invariant forall i :: k < i <= v ==> pos[i] == old(pos[i - 1])
      invariant forall i :: v < i < pos.Length ==> pos[i] == old(pos[i])
    {
      pos[k] := pos[k - 1];
      k := k - 1;
    }
    pos[0] := tmp;
  }

  lemma UndoNone(pos: seq<nat>, js: seq<nat>)
    requires js == []
    ensures UndoSelectorMtf(pos, js) == []
  {
  }

  /** Undoes the move-to-front of the selectors, within the two arrays. */
  method UndoSelectors(selectorMtf: array<nat>, selector: array<nat>, nSelectors: nat, nGroups: nat)
    requires selector != selectorMtf && nSelectors <= selector.Length && nSelectors <= selectorMtf.Length
    requires nGroups >= 1 && forall i :: 0 <= i < nSelectors ==> selectorMtf[i] < nGroups
    modifies selector
    ensures selector[..nSelectors] == UndoSelectorMtf(Identity(nGroups), selectorMtf[..nSelectors])
  {
    hide UndoSelectorMtf;
    ghost var js := selectorMtf[..nSelectors];
    ghost var goal := UndoSelectorMtf(Identity(nGroups), js);
    var pos := new nat[nGroups](v => v);
    assert pos[..] == Identity(nGroups) && js[0..] == js && selector[..0] + goal == goal;
    for i := 0 to nSelectors
      invariant fresh(pos) && pos.Length == nGroups && selectorMtf[..nSelectors] == js
      invariant selector[..i] + UndoSelectorMtf(pos[..], js[i..]) == goal
    {
      UndoStep(pos[..], js, i);
      ghost var done := selector[..i];
      Regroup(done, [pos[js[i]]], UndoSelectorMtf(Front(pos[..], js[i]), js[i + 1..]));
      var tmp := ShiftToFront(pos, selectorMtf[i]);
      selector[i] := tmp;
      assert selector[..i + 1] == done + [tmp];
    }
    UndoNone(pos[..], js[nSelectors..]);
    assert selector[..nSelectors] + [] == selector[..nSelectors];
  }

  // ---------- Coding tables ----------

  /** The first rows of len. */
  ghost predicate Rows(len: array2<nat>, tables: seq<seq<nat>>, alphaSize: nat)
    reads len
  {
    && |tables| <= len.Length0 && alphaSize <= len.Length1
    && forall t :: 0 <= t < |tables| ==> Row(len, t, tables[t], alphaSize)
  }

  ghost predicate Row(len: array2<nat>, t: nat, lens: seq<nat>, alphaSize: nat)
    requires t < len.Length0
    reads len
  {
    |lens| == alphaSize <= len.Length1 && forall i :: 0 <= i < alphaSize ==> len[t, i] == lens[i]
  }

  /** The decoding tables for one row of lengths. */
  method SetUp(len: array2<nat>, t: nat, alphaSize: nat, ghost lens: seq<nat>) returns (tab: Huffman.Tables)
    requires t < len.Length0 && Row(len, t, lens, alphaSize) && Huffman.Announced(lens)
    ensures Huffman.SetUpFor(tab, lens)
  {
    hide Huffman.TablesFor, Huffman.End;
    var length := new nat[alphaSize](i requires 0 <= i < alphaSize && t < len.Length0 && alphaSize <= len.Length1 reads len => len[t, i]);
    assert length[..] == lens;
    var minLen, maxLen := Huffman.LengthRange(length);
    tab := Huffman.CreateDecodeTables(length, minLen, maxLen, alphaSize);
  }

  ghost predicate AllSetUp(tabs: seq<Huffman.Tables>, tables: seq<seq<nat>>) {
    |tabs| == |tables| && forall t :: 0 <= t < |tables| ==> tables[t] != [] && Huffman.SetUpFor(tabs[t], tables[t])
  }

  method SetUpAll(len: array2<nat>, nGroups: nat, alphaSize: nat, ghost tables: seq<seq<nat>>) returns (tabs: seq<Huffman.Tables>)
    requires nGroups == |tables| && Rows(len, tables, alphaSize) && forall t :: 0 <= t < |tables| ==> Huffman.Announced(tables[t])
    ensures AllSetUp(tabs, tables)
  {
    hide Huffman.SetUpFor;
    tabs := [];
    for t := 0 to nGroups
      invariant AllSetUp(tabs, tables[..t])
    {
      var tab := SetUp(len, t, alphaSize, tables[t]);
      tabs := tabs + [tab];
    }
    assert tables[..|tables|] == tables;
  }
}
