/**
 The comparator of blocksort.c's main sort: mainGtU compares rotations through a
 block extended by a copy of its beginning, and through the quadrant cache of
 orders already established, which Step 3 of mainSort keeps up to date.
 */
module MainCompare {
  import opened Permutation
  import opened Rotation

  const N_OVERSHOOT := 34

  /** Rotation i is not larger than rotation j. */
  ghost predicate NotLarger(b: seq<byte>, i: nat, j: nat)
    requires b != []
  {
    Cmp(b, i, j, |b|) <= 0
  }

  /** The quadrant invariant: of two positions with equal bytes, the one with
      the smaller quadrant has no larger rotation. */
  ghost predicate Cached(b: seq<byte>, q: seq<nat>)
    requires b != [] && |b| <= |q|
  {
    forall i, j :: 0 <= i < |b| && 0 <= j < |b| && b[i] == b[j] && q[i] < q[j] ==> NotLarger(b, i, j)
  }

  /** The first N_OVERSHOOT entries repeat after the n-th. */
  ghost predicate Extended(a: seq<nat>, n: nat) {
    N_OVERSHOOT < n && n + N_OVERSHOOT <= |a| && forall i :: 0 <= i < N_OVERSHOOT ==> a[n + i] == a[i]
  }

  ghost predicate Workspace(block: seq<byte>, quadrant: seq<nat>, n: nat) {
    Extended(block, n) && Extended(quadrant, n) && Cached(block[..n], quadrant)
  }

  lemma WrapTwice(i: nat, n: nat)
    requires n > 0 && i < 2 * n
    ensures Wrap(i, n) == if i < n then i else i - n
  {
  }

  lemma {:induction false} WrapAdd(i: nat, n: nat, k: nat)
    requires n > 0
    ensures Wrap(i + n, n) == Wrap(i, n)
    ensures Wrap(Wrap(i, n) + k, n) == Wrap(i + k, n)
    decreases i
  {
    if i >= n { WrapAdd(i - n, n, k); }
  }

  /** Every index below n + N_OVERSHOOT reads a true cyclic copy. */
  lemma ReadsTrue(block: seq<byte>, quadrant: seq<nat>, n: nat, i: nat)
    requires Workspace(block, quadrant, n) && i < n + N_OVERSHOOT
    ensures Wrap(i, n) < n && block[i] == At(block[..n], i) && quadrant[i] == quadrant[Wrap(i, n)]
  {
    WrapTwice(i, n);
  }

  /** m common bytes do not change the order of whole rotations. */
  lemma {:induction false} SharedPrefix(b: seq<byte>, i: nat, j: nat, m: nat)
    requires b != [] && Cmp(b, i, j, m) == 0
    ensures Cmp(b, i, j, |b|) == Cmp(b, i + m, j + m, |b|)
    decreases m
  {
    if m > 0 {
      CmpShift(b, i, j);
      SharedPrefix(b, i + 1, j + 1, m - 1);
    }
  }

  /** The first byte that differs decides. */
  lemma FirstDifference(b: seq<byte>, i: nat, j: nat, m: nat)
    requires b != [] && Cmp(b, i, j, m) == 0 && At(b, i + m) < At(b, j + m)
    ensures Cmp(b, i, j, |b|) < 0 && Cmp(b, j, i, |b|) > 0
  {
    SharedPrefix(b, i, j, m);
    CmpSymmetric(b, i, j, |b|);
  }

  /** Otherwise a smaller quadrant does. */
  lemma QuadrantDecides(b: seq<byte>, q: seq<nat>, i: nat, j: nat, m: nat)
    requires b != [] && |b| <= |q| && Cached(b, q) && Cmp(b, i, j, m) == 0
    requires At(b, i + m) == At(b, j + m) && q[Wrap(i + m, |b|)] < q[Wrap(j + m, |b|)]
    ensures NotLarger(b, i, j)
  {
    hide Cmp;
    SharedPrefix(b, i, j, m);
    CmpWrapped(b, i + m, j + m, |b|);
    assert NotLarger(b, Wrap(i + m, |b|), Wrap(j + m, |b|));
  }

  lemma OneMore(b: seq<byte>, i: nat, j: nat, m: nat)
    requires b != [] && Cmp(b, i, j, m) == 0 && At(b, i + m) == At(b, j + m)
    ensures Cmp(b, i, j, m + 1) == 0
  {
    CmpSplit(b, i, j, m, 1);
    assert Cmp(b, i + m + 1, j + m + 1, 0) == 0;
  }

  // ---------- What a comparison costs ----------

  /** How often mainGtU goes round its loop at most. */
  function Rounds(n: nat): nat { (n + 8) / 8 + 1 }

  /** Comparing from a1 and a2 finds no difference at the first m positions:
      twelve by their bytes alone, the others by their quadrants as well. */
  ghost predicate Same(b: seq<byte>, q: seq<nat>, a1: nat, a2: nat, m: nat)
    requires b != [] && |b| <= |q|
  {
    Cmp(b, a1, a2, m) == 0 && forall k: nat :: 12 <= k < m ==> SameQuadrant(q, |b|, a1, a2, k)
  }

  ghost predicate SameQuadrant(q: seq<nat>, n: nat, a1: nat, a2: nat, k: nat)
    requires 0 < n <= |q|
  {
    q[Wrap(a1 + k, n)] == q[Wrap(a2 + k, n)]
  }

  /** c is the number of rounds of eight positions that find no difference. */
  ghost predicate Charged(b: seq<byte>, q: seq<nat>, a1: nat, a2: nat, c: int)
    requires b != [] && |b| <= |q|
  {
    && 0 <= c <= Rounds(|b|)
    && (c > 0 ==> Same(b, q, a1, a2, 12 + 8 * c))
    && (c < Rounds(|b|) ==> !Same(b, q, a1, a2, 20 + 8 * c))
  }

  lemma SameFewer(b: seq<byte>, q: seq<nat>, a1: nat, a2: nat, m: nat, l: nat)
    requires b != [] && |b| <= |q| && Same(b, q, a1, a2, m) && l <= m
    ensures Same(b, q, a1, a2, l)
  {
    CmpSplit(b, a1, a2, l, m - l);
  }

  /** A difference found within round c + 1. */
  lemma ChargedHere(b: seq<byte>, q: seq<nat>, a1: nat, a2: nat, c: nat, m: nat)
    requires b != [] && |b| <= |q| && 8 * c <= |b| + 8 && m < 20 + 8 * c
    requires c > 0 ==> Same(b, q, a1, a2, 12 + 8 * c)
    requires !Same(b, q, a1, a2, m + 1)
    ensures Charged(b, q, a1, a2, c)
  {
    hide Same;
    if Same(b, q, a1, a2, 20 + 8 * c) { SameFewer(b, q, a1, a2, 20 + 8 * c, m + 1); }
  }

  /** No two different rotations agree on h bytes. */
  ghost predicate Differ(b: seq<byte>, h: nat)
    requires b != []
  {
    forall i, j :: 0 <= i < |b| && 0 <= j < |b| && i != j ==> Cmp(b, i, j, h) != 0
  }

  /** Comparing different rotations takes at most r rounds. */
  ghost predicate Limit(b: seq<byte>, r: nat)
    requires b != []
  {
    r >= Rounds(|b|) || Differ(b, 20 + 8 * r)
  }

  /** The most rounds that comparing different rotations can take. */
  ghost function MostRounds(b: seq<byte>): (r: nat)
    requires b != []
    ensures r <= Rounds(|b|) && Limit(b, r) && forall s: nat :: Limit(b, s) ==> r <= s
  {
    LimitFrom(b, 0)
  }

  ghost function LimitFrom(b: seq<byte>, r: nat): (s: nat)
    requires b != [] && r <= Rounds(|b|) && forall t: nat :: t < r ==> !Limit(b, t)
    ensures s <= Rounds(|b|) && Limit(b, s) && forall t: nat :: Limit(b, t) ==> s <= t
    decreases Rounds(|b|) - r
  {
    if Limit(b, r) then r else LimitFrom(b, r + 1)
  }

  /** Rotations that differ within twenty bytes are compared free of charge. */
  lemma FreeOfCharge(b: seq<byte>, h: nat)
    requires b != [] && h <= 20 && Differ(b, h)
    ensures MostRounds(b) == 0
  {
    hide Cmp;
    forall i, j | 0 <= i < |b| && 0 <= j < |b| && i != j ensures Cmp(b, i, j, 20) != 0 {
      CmpSplit(b, i, j, h, 20 - h);
    }
    assert Limit(b, 0);
  }

  /** Different rotations, compared from d bytes in, cost no more than that. */
  lemma ChargeLimited(b: seq<byte>, q: seq<nat>, x: nat, y: nat, d: nat, c: int)
    requires b != [] && |b| <= |q| && x < |b| && y < |b| && x != y && Charged(b, q, x + d, y + d, c)
    ensures c <= MostRounds(b)
  {
    hide Cmp, MostRounds;
    var r, n := MostRounds(b), |b|;
    if c > r {
      CmpSplit(b, x + d, y + d, 20 + 8 * r, 8 * (c - r - 1));
      CmpWrapped(b, x + d, y + d, 20 + 8 * r);
      WrapApart(x, y, d, n);
    }
  }

  lemma {:induction false} WrapApart(x: nat, y: nat, d: nat, n: nat)
    requires x < n && y < n && x != y
    ensures Wrap(x + d, n) != Wrap(y + d, n)
    decreases d
  {
    if d > 0 {
      WrapApart(x, y, d - 1, n);
      WrapAdd(x + d - 1, n, 1);
      WrapAdd(y + d - 1, n, 1);
    }
  }

  /** A position m bytes further on, wrapped or not. */
  ghost predicate Along(i: nat, a: nat, m: nat, n: nat)
    requires n > 0
  {
    Wrap(i, n) == Wrap(a + m, n)
  }

  lemma AlongNext(i: nat, a: nat, m: nat, n: nat)
    requires n > 0 && Along(i, a, m, n)
    ensures Along(i + 1, a, m + 1, n) && (i >= n ==> Along(i - n, a, m, n))
  {
    WrapAdd(i, n, 1);
    WrapAdd(a + m, n, 1);
  }

  /** What a verdict must satisfy. */
  ghost predicate Verdict(b: seq<byte>, a1: nat, a2: nat, gt: bool)
    requires b != []
  {
    if gt then NotLarger(b, a2, a1) else NotLarger(b, a1, a2)
  }

  /** Compares the bytes, and if asked the quadrants, at one pair of positions.
      The verdict is about the rotations m bytes back. */
  method CompareAt(block: array<byte>, quadrant: array<nat>, nblock: nat, i1: nat, i2: nat, quadrants: bool,
                   ghost a1: nat, ghost a2: nat, ghost m: nat) returns (decided: bool, gt: bool)
    requires Workspace(block[..], quadrant[..], nblock) && i1 < nblock + N_OVERSHOOT && i2 < nblock + N_OVERSHOOT
    requires Along(i1, a1, m, nblock) && Along(i2, a2, m, nblock) && block[..nblock] != [] && Same(block[..nblock], quadrant[..], a1, a2, m)
    requires quadrants <==> m >= 12
    ensures decided ==> Verdict(block[..nblock], a1, a2, gt)
    ensures decided <==> !Same(block[..nblock], quadrant[..], a1, a2, m + 1)
  {
    ghost var b, q := block[..nblock], quadrant[..];
    hide Cmp, Cached, Extended, Verdict, Same, Along;
    Sizes(block[..], q, nblock);
    ReadsTrue(block[..], q, nblock, i1);
    ReadsTrue(block[..], q, nblock, i2);
    ReadsAlong(i1, a1, m, nblock);
    ReadsAlong(i2, a2, m, nblock);
    assert block[..][..nblock] == b;
    var c1, c2 := block[i1], block[i2];
    if c1 != c2 {
      BytesDecide(b, q, a1, a2, m);
      return true, c1 > c2;
    }
    if quadrants {
      var s1, s2 := quadrant[i1], quadrant[i2];
      if s1 != s2 {
        QuadrantsDecide(b, q, a1, a2, m);
        return true, s1 > s2;
      }
    }
    NothingDecides(b, q, a1, a2, m);
    return false, false;
  }

  lemma ReadsAlong(i: nat, a: nat, m: nat, n: nat)
    requires n > 0 && Along(i, a, m, n)
    ensures Wrap(i, n) == Wrap(a + m, n)
  {
  }

  lemma BytesDecide(b: seq<byte>, q: seq<nat>, a1: nat, a2: nat, m: nat)
    requires b != [] && |b| <= |q| && Same(b, q, a1, a2, m) && At(b, a1 + m) != At(b, a2 + m)
    ensures Verdict(b, a1, a2, At(b, a1 + m) > At(b, a2 + m)) && !Same(b, q, a1, a2, m + 1)
  {
    hide Cmp;
    CmpSymmetric(b, a1, a2, m);
    if At(b, a1 + m) < At(b, a2 + m) { FirstDifference(b, a1, a2, m); } else { FirstDifference(b, a2, a1, m); }
    DifferHere(b, a1, a2, m);
  }

  lemma QuadrantsDecide(b: seq<byte>, q: seq<nat>, a1: nat, a2: nat, m: nat)
    requires b != [] && |b| <= |q| && Cached(b, q) && m >= 12 && Same(b, q, a1, a2, m) && At(b, a1 + m) == At(b, a2 + m)
    requires q[Wrap(a1 + m, |b|)] != q[Wrap(a2 + m, |b|)]
    ensures Verdict(b, a1, a2, q[Wrap(a1 + m, |b|)] > q[Wrap(a2 + m, |b|)]) && !Same(b, q, a1, a2, m + 1)
  {
    hide Cmp, Cached;
    CmpSymmetric(b, a1, a2, m);
    assert !SameQuadrant(q, |b|, a1, a2, m);
    if q[Wrap(a1 + m, |b|)] < q[Wrap(a2 + m, |b|)] { QuadrantDecides(b, q, a1, a2, m); } else { QuadrantDecides(b, q, a2, a1, m); }
  }

  lemma NothingDecides(b: seq<byte>, q: seq<nat>, a1: nat, a2: nat, m: nat)
    requires b != [] && |b| <= |q| && Same(b, q, a1, a2, m) && At(b, a1 + m) == At(b, a2 + m)
    requires m >= 12 ==> q[Wrap(a1 + m, |b|)] == q[Wrap(a2 + m, |b|)]
    ensures Same(b, q, a1, a2, m + 1)
  {
    hide Cmp;
    OneMore(b, a1, a2, m);
  }

  lemma DifferHere(b: seq<byte>, i: nat, j: nat, m: nat)
    requires b != [] && Cmp(b, i, j, m) == 0 && At(b, i + m) != At(b, j + m)
    ensures Cmp(b, i, j, m + 1) != 0
  {
    CmpSplit(b, i, j, m, 1);
  }

  lemma Sizes(block: seq<byte>, quadrant: seq<nat>, n: nat)
    requires Workspace(block, quadrant, n)
    ensures N_OVERSHOOT < n && n + N_OVERSHOOT <= |block| && n + N_OVERSHOOT <= |quadrant|
  {
  }

  /** mainGtU: a weak comparison of two rotations, from positions up to fifteen
      bytes into them. It never reads past the overshoot, and it takes from the
      budget the number of rounds that find no difference. */
  method GtU(block: array<byte>, quadrant: array<nat>, nblock: nat, a1: nat, a2: nat, budget0: int) returns (gt: bool, budget: int)
    requires Workspace(block[..], quadrant[..], nblock) && a1 < nblock + 15 && a2 < nblock + 15
    ensures block[..nblock] != [] && |block[..nblock]| <= quadrant.Length && Verdict(block[..nblock], a1, a2, gt)
    ensures Charged(block[..nblock], quadrant[..], a1, a2, budget0 - budget)
  {
    hide Cmp, Workspace, Along, Same, Charged, Verdict;
    Sizes(block[..], quadrant[..], nblock);
    ghost var b, q := block[..nblock], quadrant[..];
    var i1: nat, i2: nat, decided := a1, a2, false;
    budget := budget0;
    StartCompare(b, q, a1, a2);
    for m: nat := 0 to 12
      invariant i1 == a1 + m && i2 == a2 + m && Same(b, q, a1, a2, m)
      invariant Along(i1, a1, m, nblock) && Along(i2, a2, m, nblock)
    {
      decided, gt := CompareAt(block, quadrant, nblock, i1, i2, false, a1, a2, m);
      if decided { ChargedHere(b, q, a1, a2, 0, m); return; }
      AlongNext(i1, a1, m, nblock);
      AlongNext(i2, a2, m, nblock);
      i1, i2 := i1 + 1, i2 + 1;
    }
    var k: int := nblock + 8;
    ghost var c: nat := 0;
    while true
      invariant k == nblock + 8 - 8 * c && k >= 0 && budget == budget0 - c && i1 < nblock + 27 && i2 < nblock + 27
      invariant Along(i1, a1, 12 + 8 * c, nblock) && Along(i2, a2, 12 + 8 * c, nblock) && Same(b, q, a1, a2, 12 + 8 * c)
      decreases k
    {
      ghost var m: nat := 12 + 8 * c;
      for step: nat := 0 to 8
        invariant m == 12 + 8 * c + step && i1 < nblock + 27 + step && i2 < nblock + 27 + step
        invariant Along(i1, a1, m, nblock) && Along(i2, a2, m, nblock) && Same(b, q, a1, a2, m)
      {
        decided, gt := CompareAt(block, quadrant, nblock, i1, i2, true, a1, a2, m);
        if decided { ChargedHere(b, q, a1, a2, c, m); return; }
        AlongNext(i1, a1, m, nblock);
        AlongNext(i2, a2, m, nblock);
        i1, i2, m := i1 + 1, i2 + 1, m + 1;
      }
      AlongNext(i1, a1, m, nblock);
      AlongNext(i2, a2, m, nblock);
      if i1 >= nblock { i1 := i1 - nblock; }
      if i2 >= nblock { i2 := i2 - nblock; }
      k, budget, c := k - 8, budget - 1, c + 1;
      if k < 0 { break; }
    }
    AllTied(b, q, a1, a2, c);
    gt := false;
  }

  /** Rotations that agree all along count as not larger, for the full charge. */
  lemma AllTied(b: seq<byte>, q: seq<nat>, a1: nat, a2: nat, c: nat)
    requires b != [] && |b| <= |q| && c == Rounds(|b|) && Same(b, q, a1, a2, 12 + 8 * c)
    ensures Verdict(b, a1, a2, false) && Charged(b, q, a1, a2, c)
  {
    hide Cmp;
    CmpLong(b, a1, a2, 12 + 8 * c);
  }

  lemma StartCompare(b: seq<byte>, q: seq<nat>, a1: nat, a2: nat)
    requires b != [] && |b| <= |q|
    ensures Same(b, q, a1, a2, 0) && Along(a1, a1, 0, |b|) && Along(a2, a2, 0, |b|)
  {
  }

  // ---------- Step 3 of mainSort ----------

  /** ptr[start..start + size] is big bucket ss in sorted order: it lists exactly
      the positions of that byte, once each. */
  ghost predicate BigBucket(b: seq<byte>, ptr: seq<nat>, start: nat, size: nat, ss: byte)
    requires b != []
  {
    && start + size <= |ptr| && Distinct(ptr[start..start + size])
    && (forall k :: start <= k < start + size ==> ptr[k] < |b| && b[ptr[k]] == ss)
    && (forall i :: 0 <= i < |b| && b[i] == ss ==> i in ptr[start..start + size])
    && (forall x, y {:trigger InOrder(b, ptr, |b|, x, y)} :: start <= x < y < start + size ==> InOrder(b, ptr, |b|, x, y))
  }

  function Shr(j: nat, shifts: nat): nat { if shifts == 0 then j else Shr(j, shifts - 1) / 2 }

  lemma {:induction false} ShrMonotone(i: nat, j: nat, shifts: nat)
    requires i <= j
    ensures Shr(i, shifts) <= Shr(j, shifts) <= j
  {
    if shifts > 0 { ShrMonotone(i, j, shifts - 1); }
  }

  /** Bucket entries from position j on have their new quadrants. */
  ghost predicate Updated(ptr: seq<nat>, q0: seq<nat>, q: seq<nat>, start: nat, size: nat, shifts: nat, j: nat, n: nat)
    requires n <= |q| && |q| == |q0| && start + size <= |ptr| && forall k :: start <= k < start + size ==> ptr[k] < n
  {
    && (forall k :: j <= k < size ==> q[ptr[start + k]] == Shr(k, shifts))
    && (forall i :: 0 <= i < n && i !in ptr[start..start + size] ==> q[i] == q0[i])
  }

  /** The quadrant invariant holds again. */
  lemma CachedAgain(b: seq<byte>, ptr: seq<nat>, q0: seq<nat>, q: seq<nat>, start: nat, size: nat, ss: byte, shifts: nat)
    requires b != [] && |b| <= |q| == |q0| && Cached(b, q0) && BigBucket(b, ptr, start, size, ss)
    requires Updated(ptr, q0, q, start, size, shifts, 0, |b|)
    ensures Cached(b, q)
  {
    hide Shr, Cmp;
    var bucket := ptr[start..start + size];
    forall i, j | 0 <= i < |b| && 0 <= j < |b| && b[i] == b[j] && q[i] < q[j] ensures NotLarger(b, i, j) {
      if b[i] == ss {
        var x :| 0 <= x < size && bucket[x] == i;
        var y :| 0 <= y < size && bucket[y] == j;
        assert ptr[start + x] == i && ptr[start + y] == j;
        if x >= y { ShrMonotone(y, x, shifts); }
        assert InOrder(b, ptr, |b|, start + x, start + y);
      } else {
        assert i !in bucket;
        assert j !in bucket;
      }
    }
  }

  /** One entry of the bucket and, near the start of the block, its copy. */
  method SetQuadrant(quadrant: array<nat>, nblock: nat, a2update: nat, qVal: nat)
    requires Extended(quadrant[..], nblock) && a2update < nblock
    modifies quadrant
    ensures Extended(quadrant[..], nblock) && quadrant[a2update] == qVal
    ensures forall i :: 0 <= i < nblock && i != a2update ==> quadrant[i] == old(quadrant[i])
  {
    quadrant[a2update] := qVal;
    if a2update < N_OVERSHOOT { quadrant[a2update + nblock] := qVal; }
  }

  method ShiftsFor(bbSize: nat) returns (shifts: nat)
    ensures Shr(bbSize, shifts) <= 65534
  {
    shifts := 0;
    while Shr(bbSize, shifts) > 65534
      decreases Shr(bbSize, shifts)
    {
      shifts := shifts + 1;
    }
  }

  /** Records the order of a finished big bucket: the workspace stays valid and
      the new quadrants fit 16 bits (AssertH 1002). */
  method UpdateQuadrants(ptr: array<nat>, block: array<byte>, quadrant: array<nat>, nblock: nat, bbStart: nat, bbSize: nat, ss: byte)
    requires ptr != quadrant && Workspace(block[..], quadrant[..], nblock)
    requires nblock <= block.Length && block[..nblock] != [] && BigBucket(block[..nblock], ptr[..], bbStart, bbSize, ss)
    modifies quadrant
    ensures Workspace(block[..], quadrant[..], nblock)
    ensures forall k :: bbStart <= k < bbStart + bbSize ==> ptr[k] < nblock && quadrant[ptr[k]] < 65536
    ensures forall i :: 0 <= i < nblock && block[i] != ss ==> quadrant[i] == old(quadrant[i])
  {
    hide Cached, Extended, Shr;
    ghost var b, f, q0 := block[..nblock], ptr[..], quadrant[..];
    Sizes(block[..], q0, nblock);
    assert block[..][..nblock] == b;
    var shifts := ShiftsFor(bbSize);
    var j: nat := bbSize;
    while j > 0
      invariant j <= bbSize && ptr[..] == f && Extended(quadrant[..], nblock) && Updated(f, q0, quadrant[..], bbStart, bbSize, shifts, j, nblock)
    {
      j := j - 1;
      ghost var q := quadrant[..];
      SetQuadrant(quadrant, nblock, ptr[bbStart + j], Shr(j, shifts));
      UpdatedNext(f, q0, q, quadrant[..], bbStart, bbSize, shifts, j, nblock);
    }
    CachedAgain(b, f, q0, quadrant[..], bbStart, bbSize, ss, shifts);
    forall k | bbStart <= k < bbStart + bbSize ensures quadrant[f[k]] < 65536 {
      ShrMonotone(k - bbStart, bbSize, shifts);
      assert quadrant[..][f[bbStart + (k - bbStart)]] == Shr(k - bbStart, shifts);
    }
    forall i | 0 <= i < nblock && block[i] != ss ensures quadrant[i] == q0[i] {
      assert i !in f[bbStart..bbStart + bbSize];
      assert quadrant[..][i] == q0[i];
    }
  }

  lemma UpdatedNext(ptr: seq<nat>, q0: seq<nat>, q: seq<nat>, q': seq<nat>, start: nat, size: nat, shifts: nat, j: nat, n: nat)
    requires n <= |q| && |q| == |q'| == |q0| && start + size <= |ptr| && j < size && Distinct(ptr[start..start + size])
    requires forall k :: start <= k < start + size ==> ptr[k] < n
    requires Updated(ptr, q0, q, start, size, shifts, j + 1, n)
    requires q'[ptr[start + j]] == Shr(j, shifts) && forall i :: 0 <= i < n && i != ptr[start + j] ==> q'[i] == q[i]
    ensures Updated(ptr, q0, q', start, size, shifts, j, n)
  {
    hide Shr;
    var bucket := ptr[start..start + size];
    assert bucket[j] == ptr[start + j];
    forall k | j <= k < size ensures q'[ptr[start + k]] == Shr(k, shifts) {
      assert bucket[k] == ptr[start + k];
    }
  }
}
