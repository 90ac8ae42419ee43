/**
 fallbackSort of blocksort.c: bucket sort on the first byte, then prefix
 doubling until every bucket is resolved, then reconstruction of the block.
 The packed header-bit words are modelled as an array of bits; a whole-word
 test reads its 32 bits.
 */
module FallbackSort {
  import opened Permutation
  import opened Rotation
  import opened InverseBwt
  import opened FallbackQSort
  import opened Buckets

  // ---------- The initial one-byte radix sort ----------

  /** Where the radix sort, which fills buckets from the top, puts rotation i. */
  ghost function RadixSlot(b: seq<byte>, i: nat): nat
    requires i < |b|
  {
    RadixRoom(b, i);
    Less(b, b[i] as int + 1) - 1 - multiset(b[..i])[b[i]]
  }

  ghost function RadixSlots(b: seq<byte>): (r: seq<nat>)
    ensures |r| == |b| && forall i :: 0 <= i < |b| ==> r[i] == RadixSlot(b, i)
  {
    seq(|b|, i requires 0 <= i < |b| => RadixSlot(b, i))
  }

  lemma RadixRoom(b: seq<byte>, i: nat)
    requires i < |b|
    ensures Less(b, b[i]) <= Less(b, b[i] as int + 1) - 1 - multiset(b[..i])[b[i]]
  {
    PrefixCount(b, i, |b|, b[i]);
    assert b[..|b|] == b;
    LessStep(b, b[i] as int + 1);
  }

  lemma RadixSlotBounds(b: seq<byte>, i: nat)
    requires i < |b|
    ensures Less(b, b[i]) <= RadixSlot(b, i) < Less(b, b[i] as int + 1) <= |b|
  {
    RadixRoom(b, i);
    LessStep(b, b[i] as int + 1);
  }

  lemma RadixSlotInjective(b: seq<byte>, i: nat, j: nat)
    requires i < j < |b|
    ensures RadixSlot(b, i) != RadixSlot(b, j)
  {
    if b[i] == b[j] {
      PrefixCount(b, i, j, b[i]);
    } else {
      RadixSlotBounds(b, i);
      RadixSlotBounds(b, j);
      hide RadixSlot, Less;
      if b[i] < b[j] { LessMonotone(b, b[i] as int + 1, b[j]); } else { LessMonotone(b, b[j] as int + 1, b[i]); }
    }
  }

  lemma RadixSlotsPermute(b: seq<byte>)
    ensures IsPermutation(RadixSlots(b))
  {
    forall i | 0 <= i < |b| ensures RadixSlots(b)[i] < |b| { RadixSlotBounds(b, i); }
    forall i, j | 0 <= i < j < |b| ensures RadixSlots(b)[i] != RadixSlots(b)[j] { RadixSlotInjective(b, i, j); }
  }

  /** The first `done` rotations are in their radix slots. */
  ghost predicate Placed(b: seq<byte>, f: seq<nat>, done: nat)
    requires |b| <= |f| && done <= |b|
  {
    forall i :: 0 <= i < done ==> RadixSlot(b, i) < |b| && f[RadixSlot(b, i)] == i
  }

  /** f[p] sits in the bucket of its first byte. */
  lemma PlacedAt(b: seq<byte>, f: seq<nat>, p: nat)
    requires |f| == |b| && Placed(b, f, |b|) && p < |b|
    ensures f[p] < |b| && RadixSlot(b, f[p]) == p
    ensures Less(b, b[f[p]]) <= p < Less(b, b[f[p]] as int + 1)
  {
    RadixSlotsPermute(b);
    Surjective(RadixSlots(b), p);
    var i :| 0 <= i < |b| && RadixSlots(b)[i] == p;
    RadixSlotBounds(b, i);
  }

  lemma PlacedPermutes(b: seq<byte>, f: seq<nat>)
    requires |f| == |b| && Placed(b, f, |b|)
    ensures IsPermutation(f)
  {
    hide RadixSlot, Less, Placed;
    forall p | 0 <= p < |f| ensures f[p] < |f| { PlacedAt(b, f, p); }
    forall p, q | 0 <= p < q < |f| ensures f[p] != f[q] {
      PlacedAt(b, f, p);
      PlacedAt(b, f, q);
    }
  }

  /** A header bit at the start of every byte's bucket and nowhere else below n. */
  ghost predicate BucketBits(b: seq<byte>, bh: seq<bool>)
    requires |b| <= |bh|
  {
    forall i :: 0 <= i < |b| ==> (bh[i] <==> exists c :: 0 <= c < 256 && Less(b, c) == i)
  }

  lemma CmpOne(b: seq<byte>, i: nat, j: nat)
    requires i < |b| && j < |b|
    ensures Cmp(b, i, j, 1) == b[i] as int - b[j] as int
  {
    assert Cmp(b, i + 1, j + 1, 0) == 0;
  }

  /** The radix sort establishes the invariant at depth 1. */
  lemma RadixDepth(b: seq<byte>, f: seq<nat>, bh: seq<bool>)
    requires b != [] && |f| == |b| <= |bh| && Placed(b, f, |b|) && BucketBits(b, bh)
    ensures Depth(b, f, bh, 1)
  {
    hide RadixSlot, Less, Placed, Cmp;
    PlacedPermutes(b, f);
    forall i, j | 0 <= i < j < |b| ensures InOrder(b, f, 1, i, j) {
      PlacedAt(b, f, i);
      PlacedAt(b, f, j);
      CmpOne(b, f[i], f[j]);
      if b[f[j]] < b[f[i]] { LessMonotone(b, b[f[j]] as int + 1, b[f[i]]); }
    }
    forall i | 0 < i < |b| ensures bh[i] <==> Edge(b, f, 1, i) {
      PlacedAt(b, f, i - 1);
      PlacedAt(b, f, i);
      CmpOne(b, f[i - 1], f[i]);
      var c, d := b[f[i - 1]], b[f[i]];
      if bh[i] {
        var s :| 0 <= s < 256 && Less(b, s) == i;
        if c == d {
          if s <= c { LessMonotone(b, s, c); } else { LessMonotone(b, d as int + 1, s); }
        }
      } else if c != d {
        if d < c { LessMonotone(b, d as int + 1, c); } else { LessMonotone(b, c as int + 1, d); }
      }
    }
    LessEnds(b);
    assert bh[0];
  }

  /** Entry c of ftab after `done` rotations have been placed. */
  ghost predicate Remaining(ftab: seq<int>, b: seq<byte>, done: nat)
    requires |ftab| == 257 && done <= |b|
  {
    forall c :: 0 <= c < 256 ==> ftab[c] == Less(b, c + 1) - multiset(b[..done])[c]
  }

  lemma PlaceNext(ftab: seq<int>, b: seq<byte>, f: seq<nat>, i: nat)
    requires |ftab| == 257 && i < |b| <= |f| && Remaining(ftab, b, i) && Placed(b, f, i)
    ensures ftab[b[i]] - 1 == RadixSlot(b, i) && RadixSlot(b, i) < |b|
    ensures Remaining(ftab[b[i] := ftab[b[i]] - 1], b, i + 1)
    ensures Placed(b, f[RadixSlot(b, i) := i], i + 1)
  {
    assert b[..i + 1] == b[..i] + [b[i]];
    RadixSlotBounds(b, i);
    var k := RadixSlot(b, i);
    forall j | 0 <= j < i ensures RadixSlot(b, j) != k { RadixSlotInjective(b, j, i); }
  }

  lemma RadixDone(b: seq<byte>, ftab: seq<int>)
    requires |ftab| == 257 && Remaining(ftab, b, |b|)
    ensures forall c :: 0 <= c < 256 ==> ftab[c] == Less(b, c)
  {
    assert b[..|b|] == b;
    forall c | 0 <= c < 256 ensures ftab[c] == Less(b, c) { LessStep(b, c + 1); }
  }

  /** Counts the bytes of the block, with a copy kept for the reconstruction. */
  method CountBytes(block: array<byte>, nblock: nat) returns (ftab: array<int>, ftabCopy: array<int>)
    requires nblock <= block.Length
    ensures fresh(ftab) && fresh(ftabCopy) && ftab != ftabCopy && ftab.Length == 257 && ftabCopy.Length == 256
    ensures forall c :: 0 <= c < 256 ==> ftab[c] == Less(block[..nblock], c + 1)
    ensures forall c :: 0 <= c < 256 ==> ftabCopy[c] == multiset(block[..nblock])[c]
  {
    hide Less;
    ghost var b := block[..nblock];
    ftab := new int[257](_ => 0);
    for i := 0 to nblock
      invariant forall c :: 0 <= c < 256 ==> ftab[c] == multiset(b[..i])[c]
      invariant ftab[256] == 0
    {
      assert b[..i + 1] == b[..i] + [b[i]];
      ftab[block[i]] := ftab[block[i]] + 1;
    }
    assert b[..nblock] == b;
    ftabCopy := new int[256];
    for i := 0 to 256
      invariant forall c :: 0 <= c < 256 ==> ftab[c] == multiset(b)[c]
      invariant forall c :: 0 <= c < i ==> ftabCopy[c] == multiset(b)[c]
    {
      ftabCopy[i] := ftab[i];
    }
    LessEnds(b);
    LessStep(b, 1);
    for i := 1 to 257
      invariant forall c :: 0 <= c < 256 ==> ftabCopy[c] == multiset(b)[c]
      invariant forall c :: 0 <= c < i && c < 256 ==> ftab[c] == Less(b, c + 1)
      invariant forall c :: i <= c < 256 ==> ftab[c] == multiset(b)[c]
    {
      if i < 256 { LessStep(b, i + 1); }
      ftab[i] := ftab[i] + ftab[i - 1];
    }
  }

  method RadixSort(block: array<byte>, fmap: array<nat>, ftab: array<int>, nblock: nat)
    requires nblock <= block.Length && nblock <= fmap.Length && ftab.Length == 257
    requires forall c :: 0 <= c < 256 ==> ftab[c] == Less(block[..nblock], c + 1)
    modifies fmap, ftab
    ensures Placed(block[..nblock], fmap[..nblock], nblock)
    ensures forall c :: 0 <= c < 256 ==> ftab[c] == Less(block[..nblock], c)
  {
    hide Less, RadixSlot;
    ghost var b := block[..nblock];
    for i := 0 to nblock
      invariant block[..nblock] == b
      invariant Placed(b, fmap[..nblock], i) && Remaining(ftab[..], b, i)
    {
      ghost var f, t := fmap[..nblock], ftab[..];
      PlaceNext(t, b, f, i);
      var j := block[i];
      assert j == b[i];
      var k := ftab[j] - 1;
      ftab[j] := k;
      fmap[k] := i;
      assert ftab[..] == t[b[i] := t[b[i]] - 1];
      assert fmap[..nblock] == f[RadixSlot(b, i) := i];
    }
    RadixDone(b, ftab[..]);
  }

  // ---------- Header bits ----------

  /** Bits for the block, then the alternating sentinels that stop the scans. */
  ghost predicate Sentinels(bh: seq<bool>, n: nat) {
    n + 64 <= |bh| && forall i :: 0 <= i < 32 ==> bh[n + 2 * i] && !bh[n + 2 * i + 1]
  }

  method SetInitialBits(bhtab: array<bool>, ftab: array<int>, nblock: nat, ghost b: seq<byte>)
    requires nblock == |b| && nblock + 96 <= bhtab.Length && ftab.Length == 257
    requires forall c :: 0 <= c < 256 ==> ftab[c] == Less(b, c)
    modifies bhtab
    ensures BucketBits(b, bhtab[..]) && Sentinels(bhtab[..], nblock)
  {
    hide Less;
    for i := 0 to nblock + 64
      invariant forall k :: 0 <= k < i ==> !bhtab[k]
    {
      bhtab[i] := false;
    }
    for i := 0 to 256
      invariant forall k :: 0 <= k < nblock ==> (bhtab[k] <==> exists c :: 0 <= c < i && Less(b, c) == k)
    {
      LessMonotone(b, i, 256);
      LessEnds(b);
      bhtab[ftab[i]] := true;
    }
    for i := 0 to 32
      invariant forall k :: 0 <= k < nblock ==> (bhtab[k] <==> exists c :: 0 <= c < 256 && Less(b, c) == k)
      invariant forall k :: 0 <= k < i ==> bhtab[nblock + 2 * k] && !bhtab[nblock + 2 * k + 1]
    {
      bhtab[nblock + 2 * i] := true;
      bhtab[nblock + 2 * i + 1] := false;
    }
  }

  /** Advances to the next clear bit, a whole word at a time where it can. */
  method SkipSet(bhtab: array<bool>, k0: nat, ghost stop: nat) returns (k: nat)
    requires k0 <= stop && stop + 32 <= bhtab.Length && !bhtab[stop]
    ensures k0 <= k <= stop && !bhtab[k] && forall i :: k0 <= i < k ==> bhtab[i]
  {
    k := k0;
    while bhtab[k] && k % 32 != 0
      invariant k0 <= k <= stop && forall i :: k0 <= i < k ==> bhtab[i]
      decreases stop - k
    {
      k := k + 1;
    }
    if bhtab[k] {
      while forall i :: k <= i < k + 32 ==> bhtab[i]
        invariant k0 <= k <= stop && forall i :: k0 <= i < k ==> bhtab[i]
        decreases stop - k
      {
        assert stop >= k + 32;
        k := k + 32;
      }
      while bhtab[k]
        invariant k0 <= k <= stop && forall i :: k0 <= i < k ==> bhtab[i]
        decreases stop - k
      {
        k := k + 1;
      }
    }
  }

  /** Advances to the next set bit. */
  method SkipClear(bhtab: array<bool>, k0: nat, ghost stop: nat) returns (k: nat)
    requires k0 <= stop && stop + 32 <= bhtab.Length && bhtab[stop]
    ensures k0 <= k <= stop && bhtab[k] && forall i :: k0 <= i < k ==> !bhtab[i]
  {
    k := k0;
    while !bhtab[k] && k % 32 != 0
      invariant k0 <= k <= stop && forall i :: k0 <= i < k ==> !bhtab[i]
      decreases stop - k
    {
      k := k + 1;
    }
    if !bhtab[k] {
      while forall i :: k <= i < k + 32 ==> !bhtab[i]
        invariant k0 <= k <= stop && forall i :: k0 <= i < k ==> !bhtab[i]
        decreases stop - k
      {
        assert stop >= k + 32;
        k := k + 32;
      }
      while !bhtab[k]
        invariant k0 <= k <= stop && forall i :: k0 <= i < k ==> !bhtab[i]
        decreases stop - k
      {
        k := k + 1;
      }
    }
  }

  // ---------- One round of prefix doubling ----------

  /** Records, for every rotation, the bucket of the rotation H bytes on. */
  method AssignClasses(fmap: array<nat>, eclass: array<nat>, bhtab: array<bool>, nblock: nat, H: nat)
    requires fmap != eclass && 0 < nblock == fmap.Length == eclass.Length && nblock <= bhtab.Length
    requires H <= nblock && IsPermutation(fmap[..]) && bhtab[0]
    modifies eclass
    ensures Classes(eclass[..], fmap[..], bhtab[..], H, nblock)
    ensures forall x :: 0 <= x < nblock ==> eclass[x] < nblock
  {
    ghost var f, bh := fmap[..], bhtab[..];
    var j := 0;
    for i := 0 to nblock
      invariant fmap[..] == f
      invariant i > 0 ==> j == Start(bh, i - 1)
      invariant i == 0 ==> j == 0
      invariant forall k :: 0 <= k < i ==> eclass[Back(f[k], H, nblock)] == Start(bh, k)
    {
      if bhtab[i] { j := i; }
      assert j == Start(bh, i);
      var k := fmap[i] - H;
      if k < 0 { k := k + nblock; }
      eclass[k] := j;
      assert k == Back(f[i], H, nblock);
      forall p | 0 <= p < i ensures Back(f[p], H, nblock) != k { assert f[p] != f[i]; }
    }
    forall x | 0 <= x < nblock ensures eclass[x] < nblock {
      var i := ClassOf(f, eclass[..], bh, H, x);
    }
  }

  /** A round in progress from the depth-H state (f0, bh0): positions below
      `done` are refined to depth 2H, the rest are untouched. */
  ghost predicate Round(b: seq<byte>, f0: seq<nat>, bh0: seq<bool>, f: seq<nat>, bh: seq<bool>, H: nat, done: int)
    requires b != []
  {
    && |f| == |f0| == |b| <= |bh0| == |bh| && 0 <= done <= |b|
    && RangePerm(f0, f, 0, done)
    && (forall k :: done <= k < |bh| ==> bh[k] == bh0[k])
    && bh[0]
    && (done < |b| ==> bh0[done])
    && Refined(b, f, bh, 2 * H, 0, done)
  }

  /** Earlier buckets hold strictly smaller rotations. */
  lemma EarlierBucket(b: seq<byte>, f0: seq<nat>, bh0: seq<bool>, f: seq<nat>, H: nat, l: int, i: int, j: int)
    requires b != [] && |f| == |f0| && |b| <= |bh0| && Depth(b, f0, bh0, H)
    requires RangePerm(f0, f, 0, l) && 0 <= i < l <= j < |b| && bh0[l]
    ensures Cmp(b, f[i], f0[j], H) < 0
  {
    hide Cmp, Refined;
    var i' := RangePermSource(f0, f, 0, l, i);
    BitSeparates(b, f0, bh0, H, l, i', j);
  }

  /** A singleton bucket needs no work. */
  lemma RoundSingle(b: seq<byte>, f0: seq<nat>, bh0: seq<bool>, f: seq<nat>, bh: seq<bool>, H: nat, done: int)
    requires b != [] && |b| <= |bh0| && Depth(b, f0, bh0, H)
    requires Round(b, f0, bh0, f, bh, H, done) && done < |b|
    requires done + 1 == |b| || bh0[done + 1]
    ensures Round(b, f0, bh0, f, bh, H, done + 1)
  {
    hide Cmp, RangePerm;
    RangePermWiden(f0, f, 0, done, 0, done + 1);
    var k := RangePermSource(f0, f, 0, done, done);
    forall i, j | 0 <= i < done && done <= j < done + 1 ensures Cmp(b, f[i], f[j], H) < 0 {
      EarlierBucket(b, f0, bh0, f, H, done, i, j);
    }
    RefinedJoin(b, f, bh, H, done, done + 1);
  }

  lemma {:induction false} RoundSingles(b: seq<byte>, f0: seq<nat>, bh0: seq<bool>, f: seq<nat>, bh: seq<bool>, H: nat, done: int, l: int)
    requires b != [] && |b| <= |bh0| && Depth(b, f0, bh0, H)
    requires Round(b, f0, bh0, f, bh, H, done) && done <= l <= |b|
    requires forall k :: done <= k <= l && k < |b| ==> bh0[k]
    ensures Round(b, f0, bh0, f, bh, H, l)
    decreases l - done
  {
    hide Cmp, RangePerm, Refined, Depth;
    if done < l {
      RoundSingle(b, f0, bh0, f, bh, H, done);
      RoundSingles(b, f0, bh0, f, bh, H, done + 1, l);
    }
  }

  /** A header bit wherever the class changes inside [l, r], nothing else changed. */
  ghost predicate Rebit(bh: seq<bool>, bh': seq<bool>, f: seq<nat>, e: seq<nat>, l: int, r: int)
    requires Indexes(f, e) && 0 <= l <= r < |f| <= |bh|
  {
    && |bh| == |bh'|
    && (forall k :: 0 <= k < |bh| && !(l < k <= r) ==> bh'[k] == bh[k])
    && (forall k :: l < k <= r ==> (bh'[k] <==> e[f[k - 1]] != e[f[k]]))
  }

  ghost predicate AllRanks(b: seq<byte>, e: seq<nat>, H: nat)
    requires b != []
  {
    |e| == |b| && forall x, y {:trigger Ranks(b, e, H, x, y)} :: 0 <= x < |e| && 0 <= y < |e| ==> Ranks(b, e, H, x, y)
  }

  /** All of [l, r] agreed on H bytes before, and still do after sorting. */
  lemma BucketSame(b: seq<byte>, f0: seq<nat>, bh0: seq<bool>, f: seq<nat>, g: seq<nat>, H: nat, l: int, r: int, i: int, j: int)
    requires b != [] && |f| == |f0| == |g| == |b| <= |bh0| && Depth(b, f0, bh0, H)
    requires 0 <= l <= i <= r < |b| && l <= j <= r
    requires forall k :: l < k <= r ==> !bh0[k]
    requires RangePerm(f0, f, 0, l) && RangePerm(f, g, l, r + 1)
    ensures Cmp(b, g[i], g[j], H) == 0
  {
    hide Cmp, Refined;
    var x := RangePermSource(f, g, l, r + 1, i);
    var y := RangePermSource(f, g, l, r + 1, j);
    var x' := RangePermSource(f0, f, 0, l, x);
    var y' := RangePermSource(f0, f, 0, l, y);
    if x <= y {
      NoBitSame(b, f0, bh0, H, x, y);
    } else {
      NoBitSame(b, f0, bh0, H, y, x);
      CmpSymmetric(b, f0[y], f0[x], H);
    }
  }

  lemma RefinedFrame(b: seq<byte>, f: seq<nat>, g: seq<nat>, bh: seq<bool>, bh': seq<bool>, h: nat, hi: int)
    requires b != [] && 0 <= hi <= |f| && hi <= |g| && hi <= |bh| && hi <= |bh'|
    requires Refined(b, f, bh, h, 0, hi)
    requires f[..hi] == g[..hi] && bh[..hi] == bh'[..hi]
    ensures Refined(b, g, bh', h, 0, hi)
  {
    hide Cmp;
    assert forall k :: 0 <= k < hi ==> f[..hi][k] == f[k] && g[..hi][k] == g[k] && bh[..hi][k] == bh[k] && bh'[..hi][k] == bh'[k];
    forall i, j | 0 <= i < j < hi ensures InOrder(b, g, h, i, j) { assert InOrder(b, f, h, i, j); }
    forall i | 0 < i < hi ensures bh'[i] <==> Edge(b, g, h, i) { assert bh[i] <==> Edge(b, f, h, i); }
  }

  /** And they follow everything already refined. */
  lemma BucketCross(b: seq<byte>, f0: seq<nat>, bh0: seq<bool>, f: seq<nat>, g: seq<nat>, H: nat, l: int, r: int, i: int, j: int)
    requires b != [] && |f| == |f0| == |g| == |b| <= |bh0| && Depth(b, f0, bh0, H)
    requires 0 <= i < l <= j <= r < |b| && bh0[l]
    requires RangePerm(f0, f, 0, l) && RangePerm(f, g, l, r + 1)
    ensures Cmp(b, g[i], g[j], H) < 0
  {
    hide Cmp, Depth;
    var w := RangePermSource(f, g, l, r + 1, i);
    var x := RangePermSource(f, g, l, r + 1, j);
    var y := RangePermSource(f0, f, 0, l, x);
    EarlierBucket(b, f0, bh0, f, H, l, i, x);
  }

  /** Sorting a bucket by class and marking the class changes refines it. */
  lemma RoundBucket(b: seq<byte>, f0: seq<nat>, bh0: seq<bool>, f: seq<nat>, bh: seq<bool>, g: seq<nat>, bh': seq<bool>,
                    e: seq<nat>, H: nat, l: int, r: int)
    requires b != [] && |b| <= |bh0| && Depth(b, f0, bh0, H) && AllRanks(b, e, H)
    requires Round(b, f0, bh0, f, bh, H, l) && l <= r < |b|
    requires |g| == |f| && Indexes(f, e) && Indexes(g, e)
    requires RangePerm(f, g, l, r + 1) && Sorted(g, e, l, r + 1) && Rebit(bh, bh', g, e, l, r)
    requires forall k :: l < k <= r ==> !bh0[k]
    requires r + 1 == |b| || bh0[r + 1]
    ensures Round(b, f0, bh0, g, bh', H, r + 1)
  {
    hide Cmp, Refined, Depth, RangePerm, Indexes, Sorted;
    forall i, j | l <= i <= r && l <= j <= r ensures Cmp(b, g[i], g[j], H) == 0 {
      BucketSame(b, f0, bh0, f, g, H, l, r, i, j);
    }
    BucketRefined(b, g, e, bh', H, l, r);
    PrefixKept(f, g, l, r + 1);
    assert bh[..l] == bh'[..l];
    RefinedFrame(b, f, g, bh, bh', 2 * H, l);
    forall i, j | 0 <= i < l && l <= j < r + 1 ensures Cmp(b, g[i], g[j], H) < 0 {
      BucketCross(b, f0, bh0, f, g, H, l, r, i, j);
    }
    RefinedJoin(b, g, bh', H, l, r + 1);
    RangePermWiden(f0, f, 0, l, 0, r + 1);
    RangePermWiden(f, g, l, r + 1, 0, r + 1);
    RangePermTrans(f0, f, g, 0, r + 1);
  }

  lemma PrefixKept(f: seq<nat>, g: seq<nat>, l: int, hi: int)
    requires RangePerm(f, g, l, hi) && 0 <= l <= hi <= |f|
    ensures |f| == |g| && f[..l] == g[..l]
  {
  }

  /** Scans a sorted bucket and sets a header bit at every class change. */
  method MarkEdges(fmap: array<nat>, eclass: array<nat>, bhtab: array<bool>, l: nat, r: nat)
    requires Indexes(fmap[..], eclass[..]) && l <= r < fmap.Length <= bhtab.Length
    requires bhtab[l] && forall k :: l < k <= r ==> !bhtab[k]
    modifies bhtab
    ensures Rebit(old(bhtab[..]), bhtab[..], fmap[..], eclass[..], l, r)
  {
    ghost var bh, f, e := bhtab[..], fmap[..], eclass[..];
    var cc: int := -1;
    for i := l to r + 1
      invariant i > l ==> cc == e[f[i - 1]]
      invariant i == l ==> cc == -1
      invariant forall k :: 0 <= k < |bh| && !(l < k < i) ==> bhtab[k] == bh[k]
      invariant forall k :: l < k < i ==> (bhtab[k] <==> e[f[k - 1]] != e[f[k]])
    {
      var cc1 := eclass[fmap[i]];
      assert cc1 == e[f[i]];
      if cc != cc1 {
        bhtab[i] := true;
        cc := cc1;
      }
    }
  }

  /** A completed round is the invariant at twice the depth. */
  lemma RoundDone(b: seq<byte>, f0: seq<nat>, bh0: seq<bool>, f: seq<nat>, bh: seq<bool>, H: nat)
    requires b != [] && |b| <= |bh0| && Depth(b, f0, bh0, H) && Round(b, f0, bh0, f, bh, H, |b|)
    ensures Depth(b, f, bh, 2 * H)
  {
    hide Cmp, Refined, RangePerm;
    RangePermWhole(f0, f, 0, |b|);
    SameContents(f0, f);
  }

  lemma ClassesAllRank(b: seq<byte>, f: seq<nat>, e: seq<nat>, bh: seq<bool>, h: nat)
    requires b != [] && |b| <= |bh| && Depth(b, f, bh, h) && h <= |b| == |e|
    requires Classes(e, f, bh, h, |f|)
    ensures AllRanks(b, e, h) && Indexes(f, e)
  {
    hide Cmp, Refined, Classes;
    forall x, y | 0 <= x < |e| && 0 <= y < |e| ensures Ranks(b, e, h, x, y) {
      ClassesRank(b, f, e, bh, h, x, y);
    }
  }

  lemma RoundStart(b: seq<byte>, f: seq<nat>, bh: seq<bool>, H: nat)
    requires b != [] && |b| <= |bh| && Depth(b, f, bh, H)
    ensures Round(b, f, bh, f, bh, H, 0)
  {
    hide Cmp;
  }

  /** One pass over the buckets of depth H. */
  method RefineBuckets(fmap: array<nat>, eclass: array<nat>, bhtab: array<bool>, nblock: nat, H: nat, ghost b: seq<byte>)
    returns (nNotDone: nat)
    requires fmap != eclass && 0 < nblock == |b| == fmap.Length == eclass.Length < 0x8000_0000
    requires nblock + 64 <= bhtab.Length && Sentinels(bhtab[..], nblock)
    requires Depth(b, fmap[..], bhtab[..], H) && H <= nblock
    requires Classes(eclass[..], fmap[..], bhtab[..], H, nblock)
    modifies fmap, bhtab
    ensures Depth(b, fmap[..], bhtab[..], 2 * H) && Sentinels(bhtab[..], nblock)
    ensures nNotDone == 0 ==> forall i :: 0 <= i < nblock ==> bhtab[i]
  {
    hide Cmp, Refined, Depth, RangePerm, Indexes, Sorted, Classes, AllRanks, Rebit;
    ghost var f0, bh0, e := fmap[..], bhtab[..], eclass[..];
    nNotDone := 0;
    ClassesAllRank(b, f0, e, bh0, H);
    RoundStart(b, f0, bh0, H);
    var r := -1;
    assert bhtab[nblock + 2 * 0] && !bhtab[nblock + 2 * 0 + 1];
    while true
      invariant -1 <= r < nblock && Indexes(fmap[..], e)
      invariant Round(b, f0, bh0, fmap[..], bhtab[..], H, r + 1)
      invariant nNotDone == 0 ==> r == -1
      decreases nblock - r
    {
      ghost var f, bh := fmap[..], bhtab[..];
      assert bh[nblock] && !bh[nblock + 1];
      var k := SkipSet(bhtab, r + 1, nblock + 1);
      var l := k - 1;
      if l >= nblock {
        RoundSingles(b, f0, bh0, f, bh, H, r + 1, nblock);
        break;
      }
      RoundSingles(b, f0, bh0, f, bh, H, r + 1, l);
      k := SkipClear(bhtab, k, nblock);
      r := k - 1;
      assert l < r < nblock;
      nNotDone := nNotDone + (r - l + 1);
      QSort3(fmap, eclass, l, r);
      MarkEdges(fmap, eclass, bhtab, l, r);
      RoundBucket(b, f0, bh0, f, bh, fmap[..], bhtab[..], e, H, l, r);
    }
    RoundDone(b, f0, bh0, fmap[..], bhtab[..], H);
  }

  // ---------- Reconstruction and the whole sort ----------

  /** The first bytes of the sorted rotations fill their buckets in order. */
  lemma ColumnByte(b: seq<byte>, f: seq<nat>, f1: seq<nat>, bh1: seq<bool>, i: nat)
    requires b != [] && SortedRotations(b, f) && |f1| == |b| <= |bh1|
    requires Placed(b, f1, |b|) && Depth(b, f1, bh1, 1) && i < |b|
    ensures Less(b, b[f[i]]) <= i < Less(b, b[f[i]] as int + 1)
  {
    hide Cmp, RadixSlot, Less, Placed;
    forall x, y | 0 <= x < y < |b| ensures InOrder(b, f, 1, x, y) {
      assert InOrder(b, f, |b|, x, y);
      CmpSplit(b, f[x], f[y], 1, |b| - 1);
    }
    SortedUnique(b, f, f1, 1, i);
    CmpOne(b, f[i], f1[i]);
    PlacedAt(b, f1, i);
  }

  lemma ByteAt(b: seq<byte>, c: nat, d: nat, i: nat)
    requires c < 256 && d < 256
    requires Less(b, c) <= i < Less(b, c + 1) && Less(b, d) <= i < Less(b, d + 1)
    ensures c == d
  {
    if c < d { LessMonotone(b, c + 1, d); }
    if d < c { LessMonotone(b, d + 1, c); }
  }

  /** Rebuilds the block bytes, whose storage the classes had overwritten, from
      the sorted order and the byte counts alone. */
  method Reconstruct(eclass8: array<byte>, fmap: array<nat>, ftabCopy: array<int>, nblock: nat,
                     ghost b: seq<byte>, ghost f1: seq<nat>, ghost bh1: seq<bool>)
    requires 0 < nblock == |b| == eclass8.Length == fmap.Length && ftabCopy.Length == 256
    requires SortedRotations(b, fmap[..]) && |f1| == |b| <= |bh1| && Placed(b, f1, |b|) && Depth(b, f1, bh1, 1)
    requires forall c :: 0 <= c < 256 ==> ftabCopy[c] == multiset(b)[c]
    modifies eclass8, ftabCopy
    ensures eclass8[..] == b
  {
    hide Cmp, RadixSlot, Less, Placed, Depth, SortedTo;
    ghost var f := fmap[..];
    var j := 0;
    LessEnds(b);
    LessStep(b, 1);
    SortedIsPermutation(b, f);
    for i := 0 to nblock
      invariant fmap[..] == f
      invariant 0 <= j < 256 && Less(b, j) <= i && ftabCopy[j] == Less(b, j + 1) - i >= 0
      invariant forall c :: j < c < 256 ==> ftabCopy[c] == multiset(b)[c]
      invariant forall k :: 0 <= k < i ==> eclass8[f[k]] == b[f[k]]
    {
      while ftabCopy[j] == 0
        invariant 0 <= j < 256 && Less(b, j) <= i && ftabCopy[j] == Less(b, j + 1) - i >= 0
        invariant forall c :: j < c < 256 ==> ftabCopy[c] == multiset(b)[c]
        invariant forall k :: 0 <= k < i ==> eclass8[f[k]] == b[f[k]]
        decreases 256 - j
      {
        assert j + 1 < 256;
        LessStep(b, j + 2);
        j := j + 1;
      }
      ColumnByte(b, f, f1, bh1, i);
      ByteAt(b, j, b[f[i]], i);
      ftabCopy[j] := ftabCopy[j] - 1;
      eclass8[fmap[i]] := j;
    }
    forall x | 0 <= x < nblock ensures eclass8[x] == b[x] { Surjective(f, x); }
  }

  lemma SortedIsPermutation(b: seq<byte>, f: seq<nat>)
    requires b != [] && SortedRotations(b, f)
    ensures |f| == |b| && IsPermutation(f)
  {
  }

  /** fallbackSort: for every block, terminates with fmap listing all rotations
      in non-decreasing order and the block bytes restored. */
  method Sort(block: array<byte>, fmap: array<nat>, nblock: nat)
    requires 0 < nblock == block.Length == fmap.Length < 0x4000_0000
    modifies block, fmap
    ensures block[..] == old(block[..])
    ensures SortedRotations(block[..], fmap[..])
  {
    hide Cmp, RadixSlot, Less, Depth, Placed, BucketBits, SortedTo, Classes;
    ghost var b := block[..];
    assert block[..nblock] == b;
    var ftab, ftabCopy := CountBytes(block, nblock);
    RadixSort(block, fmap, ftab, nblock);
    assert fmap[..nblock] == fmap[..];
    var bhtab := new bool[nblock + 96];
    SetInitialBits(bhtab, ftab, nblock, b);
    RadixDepth(b, fmap[..], bhtab[..]);
    ghost var f1, bh1 := fmap[..], bhtab[..];
    var eclass := new nat[nblock];
    var H := 1;
    while true
      invariant 1 <= H <= nblock
      invariant Depth(b, fmap[..], bhtab[..], H) && Sentinels(bhtab[..], nblock)
      invariant forall c :: 0 <= c < 256 ==> ftabCopy[c] == multiset(b)[c]
      decreases nblock - H
    {
      DepthFacts(b, fmap[..], bhtab[..], H);
      AssignClasses(fmap, eclass, bhtab, nblock, H);
      var nNotDone := RefineBuckets(fmap, eclass, bhtab, nblock, H, b);
      H := 2 * H;
      if H > nblock || nNotDone == 0 { break; }
    }
    DepthDone(b, fmap[..], bhtab[..], H);
    Reconstruct(block, fmap, ftabCopy, nblock, b, f1, bh1);
  }

  lemma DepthFacts(b: seq<byte>, f: seq<nat>, bh: seq<bool>, h: nat)
    requires b != [] && |b| <= |bh| && Depth(b, f, bh, h)
    ensures |f| == |b| && IsPermutation(f) && bh[0]
  {
  }

  /** BZ2_blockSort's choice of origPtr: the position of rotation 0 is found. */
  method FindOrigin(fmap: array<nat>) returns (origPtr: nat)
    requires fmap.Length > 0 && IsPermutation(fmap[..])
    ensures origPtr < fmap.Length && fmap[origPtr] == 0
  {
    Surjective(fmap[..], 0);
    origPtr := 0;
    while fmap[origPtr] != 0
      invariant origPtr < fmap.Length && forall k :: 0 <= k < origPtr ==> fmap[k] != 0
      decreases fmap.Length - origPtr
    {
      origPtr := origPtr + 1;
    }
  }
}
