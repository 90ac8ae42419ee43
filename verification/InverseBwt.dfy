/**
 The inverse Burrows-Wheeler transform of decompress.c, in both of its forms:
 the packed tt vector (FAST) and the split 16+4-bit array whose cycle through
 origPtr is reversed in place (SMALL).
 */
module InverseBwt {
  import opened Bits
  import opened Permutation
  import opened Rotation

  // ---------- The permutation behind both forms ----------

  /** How many bytes of the column are below c: entry c of cftab. */
  ghost function Less(col: seq<byte>, c: nat): nat
    requires c <= 256
  {
    if c == 0 then 0 else Less(col, c - 1) + multiset(col)[c - 1]
  }

  /** Where entry i of the last column stands in the first column. */
  ghost function Slot(col: seq<byte>, i: nat): nat
    requires i < |col|
  {
    Less(col, col[i]) + multiset(col[..i])[col[i]]
  }

  ghost function Slots(col: seq<byte>): (r: seq<nat>)
    ensures |r| == |col| && forall i :: 0 <= i < |col| ==> r[i] == Slot(col, i)
  {
    seq(|col|, i requires 0 <= i < |col| => Slot(col, i))
  }

  /** The row of the last column that feeds row k of the first: T^(-1). */
  ghost function Next(col: seq<byte>, k: nat): (i: nat)
    requires k < |col|
    ensures i < |col| && Slot(col, i) == k
  {
    SlotsPermute(col);
    Surjective(Slots(col), k);
    var i: nat :| i < |col| && Slots(col)[i] == k;
    i
  }

  lemma {:induction false} LessAppend(col: seq<byte>, x: byte, c: nat)
    requires c <= 256
    ensures Less(col + [x], c) == Less(col, c) + if x < c then 1 else 0
  {
    if c > 0 { LessAppend(col, x, c - 1); }
  }

  lemma {:induction false} LessEmpty(c: nat)
    requires c <= 256
    ensures Less([], c) == 0
  {
    if c > 0 { LessEmpty(c - 1); }
  }

  /** The cumulative table ends at the block length. */
  lemma {:induction false} LessTotal(col: seq<byte>)
    ensures Less(col, 256) == |col|
  {
    if col == [] {
      LessEmpty(256);
    } else {
      var m := |col| - 1;
      LessTotal(col[..m]);
      LessAppend(col[..m], col[m], 256);
      assert col == col[..m] + [col[m]];
    }
  }

  lemma {:induction false} LessMonotone(col: seq<byte>, c: nat, d: nat)
    requires c <= d <= 256
    ensures Less(col, c) <= Less(col, d)
  {
    if c < d { LessMonotone(col, c, d - 1); }
  }

  lemma LessEnds(col: seq<byte>)
    ensures Less(col, 0) == 0 && Less(col, 256) == |col|
  {
    LessTotal(col);
  }

  lemma LessStep(col: seq<byte>, c: nat)
    requires 1 <= c <= 256
    ensures Less(col, c) == Less(col, c - 1) + multiset(col)[c - 1] <= |col|
  {
    LessMonotone(col, c, 256);
    LessTotal(col);
  }

  lemma PrefixCount(col: seq<byte>, i: nat, j: nat, c: byte)
    requires i <= j <= |col|
    ensures multiset(col[..i])[c] <= multiset(col[..j])[c]
    ensures i < j && col[i] == c ==> multiset(col[..i])[c] < multiset(col[..j])[c]
  {
    assert col[..j] == col[..i] + col[i..j];
    if i < j {
      assert col[i..j] == [col[i]] + col[i + 1..j];
    }
  }

  lemma SlotBounds(col: seq<byte>, i: nat)
    requires i < |col|
    ensures Less(col, col[i]) <= Slot(col, i) < Less(col, col[i] as int + 1) <= |col|
  {
    PrefixCount(col, i, |col|, col[i]);
    assert col[..|col|] == col;
    LessMonotone(col, col[i] as int + 1, 256);
    LessTotal(col);
  }

  /** Slots follow the stable order of the column. */
  lemma SlotOrder(col: seq<byte>, i: nat, j: nat)
    requires i < |col| && j < |col|
    requires col[i] < col[j] || (col[i] == col[j] && i < j)
    ensures Slot(col, i) < Slot(col, j)
  {
    if col[i] == col[j] {
      PrefixCount(col, i, j, col[i]);
    } else {
      SlotBounds(col, i);
      SlotBounds(col, j);
      LessMonotone(col, col[i] as int + 1, col[j]);
    }
  }

  lemma SlotInjective(col: seq<byte>, i: nat, j: nat)
    requires i < |col| && j < |col| && Slot(col, i) == Slot(col, j)
    ensures i == j
  {
    if col[i] < col[j] || (col[i] == col[j] && i < j) {
      SlotOrder(col, i, j);
    } else if i != j {
      SlotOrder(col, j, i);
    }
  }

  lemma SlotsPermute(col: seq<byte>)
    ensures IsPermutation(Slots(col))
  {
    var s := Slots(col);
    forall i | 0 <= i < |s| ensures s[i] < |s| { SlotBounds(col, i); }
    forall i, j | 0 <= i < j < |s| ensures s[i] != s[j] {
      if s[i] == s[j] { SlotInjective(col, i, j); }
    }
  }

  // ---------- The walk and what it yields ----------

  /** The m-th row visited from origPtr. */
  ghost function Row(col: seq<byte>, orig: nat, m: nat): (r: nat)
    requires orig < |col|
    ensures r < |col|
  {
    if m == 0 then orig else Next(col, Row(col, orig, m - 1))
  }

  /** The m-th byte the decoder fetches. */
  ghost function WalkByte(col: seq<byte>, orig: nat, m: nat): byte
    requires orig < |col|
  {
    col[Row(col, orig, m + 1)]
  }

  /** The encoder's last column for a given rotation order. */
  function LastColumn(b: seq<byte>, ptr: seq<nat>): (r: seq<byte>)
    requires |ptr| == |b| && forall i :: 0 <= i < |ptr| ==> ptr[i] < |b|
    ensures |r| == |b|
  {
    seq(|b|, i requires 0 <= i < |b| => b[Previous(ptr[i], |b|)])
  }

  function Previous(i: nat, n: nat): (r: nat)
    requires i < n
    ensures r < n
  {
    if i == 0 then n - 1 else i - 1
  }

  /** The last column does not depend on the sorter: rotations that tie are the
      same string, so their last bytes are the same. */
  lemma LastColumnUnique(b: seq<byte>, p: seq<nat>, q: seq<nat>)
    requires b != [] && SortedRotations(b, p) && SortedRotations(b, q)
    ensures LastColumn(b, p) == LastColumn(b, q)
  {
    hide Cmp;
    var n := |b|;
    forall k | 0 <= k < n ensures b[Previous(p[k], n)] == b[Previous(q[k], n)] {
      SortedUnique(b, p, q, n, k);
      CmpIsLexicographic(b, p[k], q[k], n);
      assert Rot(b, p[k], n)[n - 1] == Rot(b, q[k], n)[n - 1];
      LastOfRot(b, p[k]);
      LastOfRot(b, q[k]);
    }
  }

  lemma LastOfRot(b: seq<byte>, i: nat)
    requires i < |b|
    ensures Rot(b, i, |b|)[|b| - 1] == b[Previous(i, |b|)]
  {
    var n := |b|;
    assert Rot(b, i, n)[n - 1] == At(b, i + (n - 1));
    assert Wrap(i + (n - 1), n) == Previous(i, n);
  }

  /** Rows of the last column, each extended by its own last byte and taken in
      slot order, are again the sorted rotations. */
  lemma ExtendedRowsSorted(b: seq<byte>, ptr: seq<nat>, q: seq<nat>)
    requires b != [] && SortedRotations(b, ptr)
    requires |q| == |b|
    requires forall k :: 0 <= k < |b| ==> q[k] == Previous(ptr[Next(LastColumn(b, ptr), k)], |b|)
    ensures SortedRotations(b, q)
  {
    var n, col := |b|, LastColumn(b, ptr);
    forall k, l | 0 <= k < l < n ensures q[k] != q[l] {
      var x, y := Next(col, k), Next(col, l);
      assert x != y;
      assert ptr[x] != ptr[y] by {
        if x < y { assert ptr[x] != ptr[y]; } else { assert ptr[y] != ptr[x]; }
      }
    }
    forall k, l | 0 <= k < l < n ensures InOrder(b, q, n, k, l) {
      var x, y := Next(col, k), Next(col, l);
      assert At(b, q[k]) == col[x] && At(b, q[l]) == col[y];
      if col[y] < col[x] || (col[x] == col[y] && y < x) {
        SlotOrder(col, y, x);
      } else if col[x] == col[y] {
        assert x != y;
        assert InOrder(b, ptr, n, x, y);
        CmpShift(b, q[k], q[l]);
        CmpWrapped(b, q[k] + 1, q[l] + 1, n);
        assert Wrap(q[k] + 1, n) == ptr[x] && Wrap(q[l] + 1, n) == ptr[y];
      }
    }
  }

  /** One step of the walk moves one byte along the block: the row it reaches
      holds the next rotation, as a string, whatever the tie order. */
  lemma StepAdvances(b: seq<byte>, ptr: seq<nat>, k: nat)
    requires b != [] && SortedRotations(b, ptr) && k < |b|
    ensures Cmp(b, ptr[Next(LastColumn(b, ptr), k)], ptr[k] + 1, |b|) == 0
    ensures LastColumn(b, ptr)[Next(LastColumn(b, ptr), k)] == b[ptr[k]]
  {
    hide Slot, Next, Slots;
    var n, col := |b|, LastColumn(b, ptr);
    var q := seq(n, l requires 0 <= l < n => Previous(ptr[Next(col, l)], n));
    assert SortedRotations(b, q) by { ExtendedRowsSorted(b, ptr, q); }
    assert Cmp(b, q[k], ptr[k], n) == 0 by { SortedUnique(b, q, ptr, n, k); }
    assert At(b, q[k]) == b[ptr[k]] by { SameShift(b, q[k], ptr[k]); }
    StepTarget(b, q[k], ptr[Next(col, k)], ptr[k]);
  }

  lemma StepTarget(b: seq<byte>, q: nat, p: nat, r: nat)
    requires b != [] && p < |b| && q == Previous(p, |b|)
    requires Cmp(b, q, r, |b|) == 0
    ensures Cmp(b, p, r + 1, |b|) == 0
  {
    SameShift(b, q, r);
    if p == 0 { CmpWrap(b, 0, r + 1, |b|); }
  }

  lemma RowStep(b: seq<byte>, ptr: seq<nat>, k: nat, m: nat)
    requires b != [] && SortedRotations(b, ptr) && k < |b|
    requires Cmp(b, ptr[k], m, |b|) == 0
    ensures Cmp(b, ptr[Next(LastColumn(b, ptr), k)], m + 1, |b|) == 0
  {
    var p := ptr[Next(LastColumn(b, ptr), k)];
    assert Cmp(b, ptr[k] + 1, m + 1, |b|) == 0 by { SameShift(b, ptr[k], m); }
    assert Cmp(b, p, ptr[k] + 1, |b|) == 0 by { StepAdvances(b, ptr, k); }
    SameTransitive(b, p, ptr[k] + 1, m + 1, |b|);
  }

  lemma {:induction false} RowHoldsRotation(b: seq<byte>, ptr: seq<nat>, orig: nat, m: nat)
    requires b != [] && SortedRotations(b, ptr) && orig < |b| && ptr[orig] == 0
    ensures Cmp(b, ptr[Row(LastColumn(b, ptr), orig, m)], m, |b|) == 0
  {
    hide Slot, Next, Slots;
    var col := LastColumn(b, ptr);
    if m == 0 {
      CmpReflexive(b, 0, |b|);
    } else {
      var k := Row(col, orig, m - 1);
      assert Row(col, orig, m) == Next(col, k);
      assert Cmp(b, ptr[k], m - 1, |b|) == 0 by { RowHoldsRotation(b, ptr, orig, m - 1); }
      RowStep(b, ptr, k, m - 1);
    }
  }

  /** The inverse transform recovers the block: for every sorted rotation order,
      including any order of the ties of a periodic block, the walk from the row
      of rotation 0 yields the block's bytes, cyclically and for ever. */
  lemma WalkRecoversBlock(b: seq<byte>, ptr: seq<nat>, orig: nat, m: nat)
    requires b != [] && SortedRotations(b, ptr) && orig < |b| && ptr[orig] == 0
    ensures WalkByte(LastColumn(b, ptr), orig, m) == At(b, m)
  {
    var k := Row(LastColumn(b, ptr), orig, m);
    assert At(b, ptr[k]) == At(b, m) by {
      RowHoldsRotation(b, ptr, orig, m);
      SameShift(b, ptr[k], m);
    }
    StepAdvances(b, ptr, k);
  }
}
