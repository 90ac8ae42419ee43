/**
 The FAST inverse transform: the tt vector packs a column byte and a 24-bit
 successor index into each 32-bit entry (decompress.c and BZ_GET_FAST).
 */
module FastInverse {
  import opened Bits
  import opened Rotation
  import opened InverseBwt

  /** The links of the first `filled` column entries are packed above the bytes. */
  ghost predicate Packed(tt: seq<nat>, col: seq<byte>, filled: nat)
    requires |col| <= |tt|
  {
    forall k :: 0 <= k < |col| ==>
      tt[k] == col[k] + 256 * (if Next(col, k) < filled then Next(col, k) else 0)
  }

  /** cftab after `filled` column entries have claimed their slots. */
  ghost predicate Claimed(cftab: seq<nat>, col: seq<byte>, filled: nat)
    requires |cftab| == 257 && filled <= |col|
  {
    forall c :: 0 <= c < 256 ==> cftab[c] == Less(col, c) + multiset(col[..filled])[c]
  }

  lemma ClaimNext(cftab: seq<nat>, col: seq<byte>, i: nat)
    requires |cftab| == 257 && i < |col| && Claimed(cftab, col, i)
    ensures cftab[col[i]] == Slot(col, i)
    ensures Claimed(cftab[col[i] := cftab[col[i]] + 1], col, i + 1)
  {
    assert col[..i + 1] == col[..i] + [col[i]];
  }

  /** A byte and an index above it share an entry without disturbing each other. */
  lemma PackedEntry(c: byte, i: nat)
    ensures Or(c, i * 256) == c + 256 * i
    ensures (c + 256 * i) % 256 == c && (c + 256 * i) / 256 == i
  {
    hide Or, Pow2;
    Pow2Values();
    OrDisjoint(i, 8, c);
    OrCommutes(c, i * 256);
  }

  lemma NextOfSlot(col: seq<byte>, i: nat)
    requires i < |col|
    ensures Slot(col, i) < |col| && Next(col, Slot(col, i)) == i
  {
    SlotBounds(col, i);
    SlotInjective(col, i, Next(col, Slot(col, i)));
  }

  lemma PackNext(tt: seq<nat>, tt': seq<nat>, col: seq<byte>, i: nat)
    requires |col| <= |tt| && i < |col| && Packed(tt, col, i)
    requires Slot(col, i) < |col| && tt' == tt[Slot(col, i) := Or(tt[Slot(col, i)], i * 256)]
    ensures Packed(tt', col, i + 1)
  {
    hide Slot, Or, Next, Slots;
    NextOfSlot(col, i);
    var k := Slot(col, i);
    assert tt[k] == col[k];
    PackedEntry(col[k], i);
    forall l | 0 <= l < |col|
      ensures tt'[l] == col[l] + 256 * (if Next(col, l) < i + 1 then Next(col, l) else 0)
    {
      if l != k { assert Next(col, l) != i; }
    }
  }

  /** Turns the byte counts into starting positions. None of the range and
      monotonicity checks, which guard against corrupt streams, can fire. */
  method CumulateCounts(unzftab: array<nat>, nblock: nat, ghost col: seq<byte>)
    returns (dataError: bool, cftab: array<nat>)
    requires unzftab.Length == 256 && nblock == |col|
    requires forall c :: 0 <= c < 256 ==> unzftab[c] == multiset(col)[c]
    ensures !dataError && fresh(cftab) && cftab.Length == 257
    ensures forall c :: 0 <= c <= 256 ==> cftab[c] == Less(col, c)
  {
    hide Less;
    cftab := new nat[257];
    dataError := false;
    for i := 0 to 256
      invariant !dataError
    {
      LessStep(col, i + 1);
      dataError := dataError || unzftab[i] > nblock;
    }
    cftab[0] := 0;
    LessEnds(col);
    for i := 1 to 257
      invariant cftab[0] == 0
      invariant forall c :: 1 <= c < i ==> cftab[c] == unzftab[c - 1]
    {
      cftab[i] := unzftab[i - 1];
    }
    for i := 1 to 257
      invariant forall c :: 0 <= c < i ==> cftab[c] == Less(col, c)
      invariant forall c :: i <= c < 257 ==> cftab[c] == unzftab[c - 1]
    {
      LessStep(col, i);
      cftab[i] := cftab[i] + cftab[i - 1];
    }
    for i := 0 to 257
      invariant !dataError
      invariant forall c :: 0 <= c <= 256 ==> cftab[c] == Less(col, c)
    {
      LessMonotone(col, i, 256);
      dataError := dataError || cftab[i] > nblock;
    }
    for i := 1 to 257
      invariant !dataError
      invariant forall c :: 0 <= c <= 256 ==> cftab[c] == Less(col, c)
    {
      LessMonotone(col, i - 1, i);
      dataError := dataError || cftab[i - 1] > cftab[i];
    }
  }

  /** The T^(-1) vector, built in place above the column bytes. */
  method BuildLinks(tt: array<nat>, cftab: array<nat>, nblock: nat, ghost col: seq<byte>)
    requires tt != cftab && nblock == |col| <= tt.Length && cftab.Length == 257
    requires forall i :: 0 <= i < nblock ==> tt[i] == col[i]
    requires forall c :: 0 <= c <= 256 ==> cftab[c] == Less(col, c)
    modifies tt, cftab
    ensures Packed(tt[..], col, nblock)
    ensures forall i :: nblock <= i < tt.Length ==> tt[i] == old(tt[i])
  {
    hide Packed, Claimed, Less, Next;
    NoneLinked(tt[..], cftab[..], col);
    for i := 0 to nblock
      invariant Packed(tt[..], col, i) && Claimed(cftab[..], col, i)
      invariant forall i :: nblock <= i < tt.Length ==> tt[i] == old(tt[i])
    {
      Link(tt, cftab, i, nblock, col);
    }
  }

  lemma NoneLinked(tt: seq<nat>, cftab: seq<nat>, col: seq<byte>)
    requires |col| <= |tt| && |cftab| == 257
    requires forall i :: 0 <= i < |col| ==> tt[i] == col[i]
    requires forall c :: 0 <= c <= 256 ==> cftab[c] == Less(col, c)
    ensures Packed(tt, col, 0) && Claimed(cftab, col, 0)
  {
    hide Next, Less, Or;
  }

  /** The link of one row. */
  method Link(tt: array<nat>, cftab: array<nat>, i: nat, nblock: nat, ghost col: seq<byte>)
    requires tt != cftab && i < nblock == |col| <= tt.Length && cftab.Length == 257
    requires Packed(tt[..], col, i) && Claimed(cftab[..], col, i)
    modifies tt, cftab
    ensures Packed(tt[..], col, i + 1) && Claimed(cftab[..], col, i + 1)
    ensures forall i :: nblock <= i < tt.Length ==> tt[i] == old(tt[i])
  {
    hide Slot, Less, Or, Next, Slots;
    ghost var before, cbefore := tt[..], cftab[..];
    PackedEntry(col[i], if Next(col, i) < i then Next(col, i) else 0);
    var uc := tt[i] % 256;
    assert uc == col[i];
    ClaimNext(cbefore, col, i);
    NextOfSlot(col, i);
    tt[cftab[uc]] := Or(tt[cftab[uc]], i * 256);
    PackNext(before, tt[..], col, i);
    cftab[uc] := cftab[uc] + 1;
    assert cftab[..] == cbefore[col[i] := cbefore[col[i]] + 1];
  }

  /** The decoder's position in the tt vector. */
  class Walk {
    const tt: array<nat>
    const capacity: nat   // 100000 * blockSize100k
    var tPos: nat
    ghost const col: seq<byte>
    ghost const orig: nat
    ghost var fetched: nat

    ghost predicate Valid()
      reads this, tt
    {
      && orig < |col| <= capacity <= tt.Length
      && Packed(tt[..], col, |col|)
      && tPos == Row(col, orig, fetched + 1)
    }

    constructor (tt: array<nat>, capacity: nat, origPtr: nat, ghost col: seq<byte>)
      requires origPtr < |col| <= capacity <= tt.Length && Packed(tt[..], col, |col|)
      ensures Valid() && fetched == 0
      ensures this.tt == tt && this.col == col && this.orig == origPtr
    {
      this.tt, this.capacity, this.col, this.orig := tt, capacity, col, origPtr;
      fetched := 0;
      tPos := tt[origPtr] / 256;
      assert Row(col, origPtr, 1) == Next(col, Row(col, origPtr, 0));
    }

    /** BZ_GET_FAST: the range check never fires and the byte is the walk's next. */
    method Get() returns (corrupt: bool, c: byte)
      requires Valid()
      modifies this
      ensures Valid() && !corrupt
      ensures c == WalkByte(col, orig, old(fetched)) && fetched == old(fetched) + 1
    {
      hide Slot, Next, Slots;
      corrupt := tPos >= capacity;
      if !corrupt {
        PackedEntry(col[tPos], Next(col, tPos));
        var t := tt[tPos];
        c := t % 256;
        tPos := t / 256;
        fetched := fetched + 1;
        assert Row(col, orig, fetched + 1) == Next(col, Row(col, orig, fetched));
      }
    }
  }
}
