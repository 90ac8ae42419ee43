/**
 The SMALL inverse transform: 20-bit links split over a 16-bit and a 4-bit
 array, with the cycle through origPtr reversed in place (decompress.c,
 SET_LL/GET_LL and BZ_GET_SMALL in bzlib_private.h, BZ2_indexIntoF).
 */
module SmallInverse {
  import opened Bits
  import opened Permutation
  import opened Rotation
  import opened InverseBwt
  import FastInverse

  // ---------- 16+4-bit storage ----------

  /** Arrays able to hold `cells` links. */
  ghost predicate Storage(ll16: array<nat>, ll4: array<nat>, cells: nat)
    reads ll16, ll4
  {
    && ll16 != ll4 && cells <= ll16.Length && cells <= 2 * ll4.Length
    && (forall k :: 0 <= k < cells ==> ll16[k] < 65536)
    && (forall k :: 0 <= k < ll4.Length ==> ll4[k] < 256)
  }

  function GetLL4(ll4: array<nat>, i: nat): nat
    requires i < 2 * ll4.Length
    reads ll4
  {
    (ll4[i / 2] / (if i % 2 == 0 then 1 else 16)) % 16
  }

  function GetLL(ll16: array<nat>, ll4: array<nat>, i: nat): nat
    requires i < ll16.Length && i < 2 * ll4.Length
    reads ll16, ll4
  {
    Or(ll16[i], GetLL4(ll4, i) * 65536)
  }

  lemma LinkValue(lo: nat, hi: nat)
    requires lo < 65536
    ensures Or(lo, hi * 65536) == lo + 65536 * hi
  {
    Pow2Values();
    OrDisjoint(hi, 16, lo);
    OrCommutes(lo, hi * 65536);
  }

  lemma NibbleValue(old4: nat, n: nat)
    requires old4 < 256 && n < 16
    ensures Or(old4 / 16 * 16, n) == old4 / 16 * 16 + n
    ensures Or(old4 % 16, n * 16) == old4 % 16 + n * 16
  {
    Pow2Values();
    OrDisjoint(old4 / 16, 4, n);
    OrDisjoint(n, 4, old4 % 16);
    OrCommutes(old4 % 16, n * 16);
  }

  /** SET_LL: stores one link and disturbs no other, although two links share
      each byte of ll4. */
  method SetLL(ll16: array<nat>, ll4: array<nat>, ghost cells: nat, i: nat, n: nat)
    requires Storage(ll16, ll4, cells) && i < cells && n < 0x10_0000
    modifies ll16, ll4
    ensures Storage(ll16, ll4, cells)
    ensures GetLL(ll16, ll4, i) == n
    ensures forall k :: 0 <= k < cells && k != i ==> ll16[k] == old(ll16[k])
    ensures forall k :: 0 <= k < cells && k != i ==> GetLL(ll16, ll4, k) == old(GetLL(ll16, ll4, k))
  {
    hide Or;
    ll16[i] := n % 65536;
    var hi, w := n / 65536, ll4[i / 2];
    NibbleValue(w, hi);
    LinkValue(n % 65536, hi);
    if i % 2 == 0 {
      ll4[i / 2] := Or(w / 16 * 16, hi);
    } else {
      ll4[i / 2] := Or(w % 16, hi * 16);
    }
    assert GetLL4(ll4, i) == hi;
    forall k | 0 <= k < cells && k != i ensures GetLL4(ll4, k) == old(GetLL4(ll4, k)) {
      if k / 2 == i / 2 {
        assert k % 2 != i % 2;
      }
    }
  }

  // ---------- Building and reversing the links ----------

  /** The T vector replaces the column bytes, entry by entry. */
  method BuildForwardLinks(ll16: array<nat>, ll4: array<nat>, cftabCopy: array<nat>, nblock: nat, ghost col: seq<byte>)
    requires Storage(ll16, ll4, nblock) && nblock == |col| < 0x10_0000
    requires cftabCopy != ll16 && cftabCopy != ll4 && cftabCopy.Length == 257
    requires forall i :: 0 <= i < nblock ==> ll16[i] == col[i]
    requires forall c :: 0 <= c <= 256 ==> cftabCopy[c] == Less(col, c)
    modifies ll16, ll4, cftabCopy
    ensures Storage(ll16, ll4, nblock)
    ensures forall i :: 0 <= i < nblock ==> GetLL(ll16, ll4, i) == Slot(col, i)
  {
    hide Slot, Less, Or, Next, Slots, GetLL;
    for i := 0 to nblock
      invariant Storage(ll16, ll4, nblock)
      invariant FastInverse.Claimed(cftabCopy[..], col, i)
      invariant forall k :: i <= k < nblock ==> ll16[k] == col[k]
      invariant forall k :: 0 <= k < i ==> GetLL(ll16, ll4, k) == Slot(col, k)
    {
      ghost var before := cftabCopy[..];
      var uc := ll16[i] % 256;
      FastInverse.ClaimNext(before, col, i);
      SlotBounds(col, i);
      SetLL(ll16, ll4, nblock, i, cftabCopy[uc]);
      cftabCopy[uc] := cftabCopy[uc] + 1;
      assert cftabCopy[..] == before[col[i] := before[col[i]] + 1];
    }
  }

  /** The node before position t of a path out of orig. */
  ghost function Prior(orig: nat, path: seq<nat>, t: nat): nat
    requires t <= |path|
  {
    if t == 0 then orig else path[t - 1]
  }

  /** path runs forward from orig: orig -> path[0] -> path[1] -> ... */
  ghost predicate ForwardPath(col: seq<byte>, orig: nat, path: seq<nat>)
    requires orig < |col|
  {
    && (forall t :: 0 <= t < |path| ==> path[t] < |col|)
    && (forall t :: 0 <= t < |path| ==> path[t] == Slot(col, Prior(orig, path, t)))
    && Distinct(path)
  }

  /** Links reversed exactly on the path, still forward elsewhere. */
  ghost predicate ReversedOn(ll16: array<nat>, ll4: array<nat>, col: seq<byte>, path: seq<nat>)
    requires |col| <= ll16.Length && |col| <= 2 * ll4.Length
    reads ll16, ll4
  {
    forall k :: 0 <= k < |col| ==>
      GetLL(ll16, ll4, k) == if k in path then Next(col, k) else Slot(col, k)
  }

  /** Until the path closes, its next node is new. */
  lemma PathExtends(col: seq<byte>, orig: nat, path: seq<nat>, j: nat)
    requires orig < |col| && ForwardPath(col, orig, path) && orig !in path
    requires j < |col| && j == Slot(col, Prior(orig, path, |path|))
    ensures j !in path
    ensures ForwardPath(col, orig, path + [j])
    ensures Next(col, j) == Prior(orig, path, |path|)
    ensures |path| < |col|
  {
    hide Slot, Next, Slots;
    var i := Prior(orig, path, |path|);
    SlotInjective(col, i, Next(col, j));
    if j in path {
      var t :| 0 <= t < |path| && path[t] == j;
      SlotInjective(col, i, Prior(orig, path, t));
      assert false;
    }
    var path' := path + [j];
    forall t | 0 <= t < |path'| ensures path'[t] == Slot(col, Prior(orig, path', t)) {
      assert Prior(orig, path', t) == Prior(orig, path, t);
    }
    DistinctSize(path');
    SubsetSize(Elements(path'), Below(|col|));
  }

  /** A closed path is a cycle: every link on it now leads backwards and stays
      on it, however many other cycles the permutation has. */
  lemma ClosedPath(col: seq<byte>, orig: nat, path: seq<nat>)
    requires orig < |col| && ForwardPath(col, orig, path)
    requires path != [] && path[|path| - 1] == orig
    ensures forall k :: k in path ==> Next(col, k) in path
  {
    hide Slot, Next, Slots;
    forall k | k in path ensures Next(col, k) in path {
      var t :| 0 <= t < |path| && path[t] == k;
      SlotInjective(col, Next(col, k), Prior(orig, path, t));
    }
  }

  /** Pointer reversal on T from origPtr round to origPtr. */
  method ReverseCycle(ll16: array<nat>, ll4: array<nat>, nblock: nat, origPtr: nat, ghost col: seq<byte>)
    returns (ghost cycle: seq<nat>)
    requires Storage(ll16, ll4, nblock) && nblock == |col| < 0x10_0000 && origPtr < nblock
    requires forall i :: 0 <= i < nblock ==> GetLL(ll16, ll4, i) == Slot(col, i)
    modifies ll16, ll4
    ensures Storage(ll16, ll4, nblock)
    ensures origPtr in cycle
    ensures forall k :: k in cycle ==> k < nblock && Next(col, k) in cycle
    ensures ReversedOn(ll16, ll4, col, cycle)
  {
    hide Slot, Less, Or, Next, Slots;
    var i, j := origPtr, GetLL(ll16, ll4, origPtr);
    cycle := [];
    SlotBounds(col, origPtr);
    var more := true;
    while more
      invariant Storage(ll16, ll4, nblock)
      invariant ForwardPath(col, origPtr, cycle)
      invariant i < nblock && j < nblock
      invariant i == Prior(origPtr, cycle, |cycle|)
      invariant more ==> origPtr !in cycle && j == Slot(col, i)
      invariant !more ==> cycle != [] && i == origPtr
      invariant ReversedOn(ll16, ll4, col, cycle)
      decreases nblock - |cycle|, more
    {
      PathExtends(col, origPtr, cycle, j);
      SlotBounds(col, j);
      var tmp := GetLL(ll16, ll4, j);
      SetLL(ll16, ll4, nblock, j, i);
      cycle := cycle + [j];
      i := j;
      j := tmp;
      more := i != origPtr;
    }
    ClosedPath(col, origPtr, cycle);
  }

  /** BZ2_indexIntoF: the binary search finds the byte whose range of the first
      column holds the row. */
  method IndexIntoF(indx: nat, cftab: array<nat>) returns (nb: nat)
    requires cftab.Length == 257 && cftab[0] <= indx < cftab[256]
    ensures nb < 256 && cftab[nb] <= indx < cftab[nb + 1]
  {
    nb := 0;
    var na := 256;
    while na - nb != 1
      invariant nb < na <= 256
      invariant cftab[nb] <= indx < cftab[na]
      decreases na - nb
    {
      var mid := (nb + na) / 2;
      if indx >= cftab[mid] { nb := mid; } else { na := mid; }
    }
  }

  lemma ByteOfRow(col: seq<byte>, k: nat, c: nat)
    requires k < |col| && c < 256
    requires Less(col, c) <= k < Less(col, c + 1)
    ensures c == col[Next(col, k)]
  {
    var d := col[Next(col, k)];
    SlotBounds(col, Next(col, k));
    hide Slot, Next, Slots;
    if c < d { LessMonotone(col, c + 1, d); }
    if d < c { LessMonotone(col, d as int + 1, c); }
  }

  /** Everything the walk reads: the first column's table, and links reversed
      on a cycle that contains the starting row. */
  ghost predicate WalkTables(ll16: array<nat>, ll4: array<nat>, cftab: array<nat>, orig: nat, col: seq<byte>, cycle: seq<nat>)
    reads ll16, ll4, cftab
  {
    && orig < |col| && orig in cycle && Storage(ll16, ll4, |col|)
    && cftab.Length == 257 && (forall c :: 0 <= c <= 256 ==> cftab[c] == Less(col, c))
    && (forall k :: k in cycle ==> k < |col| && Next(col, k) in cycle)
    && ReversedOn(ll16, ll4, col, cycle)
  }

  lemma WalkStep(ll16: array<nat>, ll4: array<nat>, cftab: array<nat>, orig: nat, col: seq<byte>, cycle: seq<nat>, k: nat)
    requires WalkTables(ll16, ll4, cftab, orig, col, cycle) && k in cycle
    ensures k < |col| && k < ll16.Length && k < 2 * ll4.Length
    ensures GetLL(ll16, ll4, k) == Next(col, k) && Next(col, k) in cycle
    ensures cftab.Length == 257 && cftab[0] <= k < cftab[256]
    ensures forall c :: 0 <= c < 256 && cftab[c] <= k < cftab[c + 1] ==> c == col[Next(col, k)]
  {
    hide Slot, Less, Or, Next, Slots;
    LessEnds(col);
    forall c | 0 <= c < 256 && cftab[c] <= k < cftab[c + 1] ensures c == col[Next(col, k)] {
      ByteOfRow(col, k, c);
    }
  }

  /** The decoder's position in the split link arrays. */
  class Walk {
    const ll16: array<nat>
    const ll4: array<nat>
    const cftab: array<nat>
    const capacity: nat   // 100000 * blockSize100k
    var tPos: nat
    ghost const col: seq<byte>
    ghost const orig: nat
    ghost const cycle: seq<nat>
    ghost var fetched: nat

    ghost predicate Valid()
      reads this, ll16, ll4, cftab
    {
      && WalkTables(ll16, ll4, cftab, orig, col, cycle) && |col| <= capacity
      && tPos == Row(col, orig, fetched) && tPos in cycle
    }

    constructor (ll16: array<nat>, ll4: array<nat>, cftab: array<nat>, capacity: nat, origPtr: nat,
                 ghost col: seq<byte>, ghost cycle: seq<nat>)
      requires WalkTables(ll16, ll4, cftab, origPtr, col, cycle) && |col| <= capacity
      ensures Valid() && fetched == 0
      ensures this.ll16 == ll16 && this.ll4 == ll4 && this.cftab == cftab
      ensures this.col == col && this.orig == origPtr
    {
      hide Slot, Less, Or, Next, Slots, ReversedOn, Storage;
      this.ll16, this.ll4, this.cftab, this.capacity := ll16, ll4, cftab, capacity;
      this.col, this.orig, this.cycle := col, origPtr, cycle;
      fetched := 0;
      tPos := origPtr;
    }

    /** BZ_GET_SMALL yields, byte for byte, what BZ_GET_FAST yields. */
    method Get() returns (corrupt: bool, c: byte)
      requires Valid()
      modifies this
      ensures Valid() && !corrupt
      ensures c == WalkByte(col, orig, old(fetched)) && fetched == old(fetched) + 1
    {
      hide WalkTables, GetLL, Slot, Next;
      WalkStep(ll16, ll4, cftab, orig, col, cycle, tPos);
      corrupt := tPos >= capacity;
      if !corrupt {
        c := IndexIntoF(tPos, cftab);
        tPos := GetLL(ll16, ll4, tPos);
        fetched := fetched + 1;
      }
    }
  }
}
