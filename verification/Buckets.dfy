/**
 The invariant of fallbackSort's prefix doubling: at depth H the header bits
 cut fmap into buckets, and the buckets are exactly the classes of rotations
 that agree on their first H bytes, in order.
 */
module Buckets {
  import opened Permutation
  import opened Rotation
  import opened FallbackQSort

  /** A new class begins at position i. */
  ghost predicate Edge(b: seq<byte>, f: seq<nat>, h: nat, i: int)
    requires b != [] && 0 < i < |f|
  {
    Cmp(b, f[i - 1], f[i], h) != 0
  }

  /** Positions [lo, hi) are in order, with a header bit at each class edge. */
  ghost predicate Refined(b: seq<byte>, f: seq<nat>, bh: seq<bool>, h: nat, lo: int, hi: int)
    requires b != [] && 0 <= lo && hi <= |f| && hi <= |bh|
  {
    && (forall i, j {:trigger InOrder(b, f, h, i, j)} :: lo <= i < j < hi ==> InOrder(b, f, h, i, j))
    && (forall i {:trigger Edge(b, f, h, i)} :: lo < i < hi ==> (bh[i] <==> Edge(b, f, h, i)))
  }

  /** The state between rounds. */
  ghost predicate Depth(b: seq<byte>, f: seq<nat>, bh: seq<bool>, h: nat)
    requires b != [] && |b| <= |bh|
  {
    |f| == |b| && IsPermutation(f) && bh[0] && Refined(b, f, bh, h, 0, |b|)
  }

  /** A header bit separates: everything before it is strictly smaller. */
  lemma BitSeparates(b: seq<byte>, f: seq<nat>, bh: seq<bool>, h: nat, i: int, x: int, y: int)
    requires b != [] && |f| <= |bh| && Refined(b, f, bh, h, 0, |f|)
    requires 0 <= x < i <= y < |f| && bh[i]
    ensures Cmp(b, f[x], f[y], h) < 0
  {
    assert Edge(b, f, h, i) && InOrder(b, f, h, i - 1, i);
    hide Cmp;
    if x < i - 1 {
      assert InOrder(b, f, h, x, i - 1);
      CmpTransitive(b, f[x], f[i - 1], f[i], h);
    }
    if i < y {
      assert InOrder(b, f, h, i, y);
      CmpTransitive(b, f[x], f[i], f[y], h);
    }
  }

  /** No header bit in between: the same class. */
  lemma {:induction false} NoBitSame(b: seq<byte>, f: seq<nat>, bh: seq<bool>, h: nat, x: int, y: int)
    requires b != [] && |f| <= |bh| && Refined(b, f, bh, h, 0, |f|)
    requires 0 <= x <= y < |f| && forall i :: x < i <= y ==> !bh[i]
    ensures Cmp(b, f[x], f[y], h) == 0
    decreases y - x
  {
    hide Cmp;
    if x == y {
      CmpReflexive(b, f[x], h);
    } else {
      NoBitSame(b, f, bh, h, x, y - 1);
      assert !Edge(b, f, h, y);
      SameTransitive(b, f[x], f[y - 1], f[y], h);
    }
  }

  // ---------- Equivalence classes as ranks ----------

  /** The start of the bucket that holds position i. */
  ghost function Start(bh: seq<bool>, i: int): (r: int)
    requires 0 <= i < |bh|
    ensures 0 <= r <= i
    ensures bh[0] ==> bh[r]
    ensures forall k :: r < k <= i ==> !bh[k]
  {
    if bh[i] || i == 0 then i else Start(bh, i - 1)
  }

  lemma StartRanks(b: seq<byte>, f: seq<nat>, bh: seq<bool>, h: nat, i: int, j: int)
    requires b != [] && |b| <= |bh| && Depth(b, f, bh, h)
    requires 0 <= i < |b| && 0 <= j < |b|
    ensures Start(bh, i) < Start(bh, j) ==> Cmp(b, f[i], f[j], h) < 0
    ensures Start(bh, i) == Start(bh, j) ==> Cmp(b, f[i], f[j], h) == 0
  {
    hide Cmp;
    if Start(bh, i) < Start(bh, j) {
      BitSeparates(b, f, bh, h, Start(bh, j), i, j);
    } else if Start(bh, i) == Start(bh, j) {
      if i <= j {
        NoBitSame(b, f, bh, h, i, j);
      } else {
        NoBitSame(b, f, bh, h, j, i);
        CmpSymmetric(b, f[j], f[i], h);
      }
    }
  }

  /** The rotation h bytes back. */
  function Back(x: nat, h: nat, n: nat): (r: nat)
    requires x < n && h <= n
    ensures r < n
  {
    if x >= h then x - h else x + n - h
  }

  /** eclass[x] is the bucket of the rotation h bytes after x. */
  ghost predicate Classes(e: seq<nat>, f: seq<nat>, bh: seq<bool>, h: nat, done: int)
    requires |f| <= |bh| && h <= |f| <= |e| && 0 <= done <= |f| && forall i :: 0 <= i < |f| ==> f[i] < |f|
  {
    forall i :: 0 <= i < done ==> e[Back(f[i], h, |f|)] == Start(bh, i)
  }

  /** eclass orders rotations x and y by their bytes h..2h. */
  ghost predicate Ranks(b: seq<byte>, e: seq<nat>, h: nat, x: nat, y: nat)
    requires b != [] && x < |e| && y < |e|
  {
    && (e[x] < e[y] <==> Cmp(b, x + h, y + h, h) < 0)
    && (e[x] == e[y] <==> Cmp(b, x + h, y + h, h) == 0)
  }

  lemma ClassOf(f: seq<nat>, e: seq<nat>, bh: seq<bool>, h: nat, x: nat) returns (i: nat)
    requires f != [] && |f| <= |bh| && h <= |f| <= |e| && IsPermutation(f) && x < |f|
    requires Classes(e, f, bh, h, |f|)
    ensures i < |f| && f[i] == Wrap(x + h, |f|) && e[x] == Start(bh, i)
  {
    var n := |f|;
    assert x + h >= n ==> Wrap(x + h, n) == Wrap(x + h - n, n) == x + h - n;
    Surjective(f, Wrap(x + h, n));
    i :| 0 <= i < |f| && f[i] == Wrap(x + h, |f|);
    assert Back(f[i], h, |f|) == x;
  }

  lemma ClassesRank(b: seq<byte>, f: seq<nat>, e: seq<nat>, bh: seq<bool>, h: nat, x: nat, y: nat)
    requires b != [] && |b| <= |bh| && Depth(b, f, bh, h) && h <= |b| <= |e|
    requires Classes(e, f, bh, h, |f|)
    requires x < |b| && y < |b|
    ensures Ranks(b, e, h, x, y)
  {
    var i := ClassOf(f, e, bh, h, x);
    var j := ClassOf(f, e, bh, h, y);
    hide Cmp, Classes, Start;
    CmpWrapped(b, x + h, y + h, h);
    StartRanks(b, f, bh, h, i, j);
    StartRanks(b, f, bh, h, j, i);
    CmpSymmetric(b, f[i], f[j], h);
  }

  // ---------- One bucket of a round ----------

  /** A bucket of depth h, sorted by class and given header bits where the
      class changes, is in order at depth 2h. */
  lemma BucketRefined(b: seq<byte>, f: seq<nat>, e: seq<nat>, bh: seq<bool>, h: nat, l: int, r: int)
    requires b != [] && 0 <= l <= r < |f| <= |bh| && Indexes(f, e)
    requires forall x, y {:trigger Ranks(b, e, h, x, y)} :: 0 <= x < |e| && 0 <= y < |e| ==> Ranks(b, e, h, x, y)
    requires forall i, j :: l <= i <= r && l <= j <= r ==> Cmp(b, f[i], f[j], h) == 0
    requires Sorted(f, e, l, r + 1)
    requires forall i :: l < i <= r ==> (bh[i] <==> e[f[i - 1]] != e[f[i]])
    ensures Refined(b, f, bh, 2 * h, l, r + 1)
  {
    hide Cmp;
    forall i, j | l <= i < j < r + 1 ensures InOrder(b, f, 2 * h, i, j) {
      CmpSplit(b, f[i], f[j], h, h);
      assert Ranks(b, e, h, f[i], f[j]);
    }
    forall i | l < i < r + 1 ensures bh[i] <==> Edge(b, f, 2 * h, i) {
      CmpSplit(b, f[i - 1], f[i], h, h);
      assert Ranks(b, e, h, f[i - 1], f[i]);
    }
  }

  /** Joining the refined part to the next refined bucket. */
  lemma RefinedJoin(b: seq<byte>, f: seq<nat>, bh: seq<bool>, h: nat, l: int, hi: int)
    requires b != [] && 0 <= l < hi <= |f| <= |bh| && bh[l]
    requires Refined(b, f, bh, 2 * h, 0, l) && Refined(b, f, bh, 2 * h, l, hi)
    requires forall i, j :: 0 <= i < l && l <= j < hi ==> Cmp(b, f[i], f[j], h) < 0
    ensures Refined(b, f, bh, 2 * h, 0, hi)
  {
    hide Cmp;
    forall i, j | 0 <= i < j < hi ensures InOrder(b, f, 2 * h, i, j) {
      if i < l <= j {
        CmpSplit(b, f[i], f[j], h, h);
      } else {
        assert InOrder(b, f, 2 * h, i, j);
      }
    }
    forall i | 0 < i < hi ensures bh[i] <==> Edge(b, f, 2 * h, i) {
      if i == l { CmpSplit(b, f[i - 1], f[i], h, h); }
    }
  }

  /** When the prefix covers the block, or every bucket is a singleton, the
      rotations are sorted. */
  lemma DepthDone(b: seq<byte>, f: seq<nat>, bh: seq<bool>, h: nat)
    requires b != [] && |b| <= |bh| && Depth(b, f, bh, h)
    requires h >= |b| || forall i :: 0 <= i < |b| ==> bh[i]
    ensures SortedRotations(b, f)
  {
    hide Cmp;
    var n := |b|;
    forall i, j | 0 <= i < j < n ensures InOrder(b, f, n, i, j) {
      assert InOrder(b, f, h, i, j);
      if h >= n {
        CmpLong(b, f[i], f[j], h);
      } else {
        BitSeparates(b, f, bh, h, j, i, j);
        CmpSplit(b, f[i], f[j], h, n - h);
      }
    }
  }
}
