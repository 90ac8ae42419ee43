/**
 Step 2 of mainSort in blocksort.c: scanning a big bucket from both ends puts the
 predecessors of its rotations in order, and completes the bucket itself while
 scanning it.
 */
module MainScan {
  import opened Permutation
  import opened Rotation
  import opened InverseBwt
  import opened MainCompare
  import opened MainQSort
  import opened MainRadix

  // ---------- Predecessors ----------

  /** The positions in front of those of p that hold byte c, in p's order. */
  ghost function Preds(b: seq<byte>, p: seq<nat>, c: nat): (r: seq<nat>)
    requires Positions(p, |b|)
    ensures Positions(r, |b|)
  {
    if p == [] then []
    else
      var y := Previous(p[|p| - 1], |b|);
      Preds(b, p[..|p| - 1], c) + if b[y] == c then [y] else []
  }

  lemma PredsNext(b: seq<byte>, p: seq<nat>, x: nat, c: nat)
    requires Positions(p, |b|) && x < |b|
    ensures Positions(p + [x], |b|)
    ensures Preds(b, p + [x], c) == Preds(b, p, c) + if b[Previous(x, |b|)] == c then [Previous(x, |b|)] else []
  {
    assert (p + [x])[..|p|] == p;
  }

  lemma SuccPrevious(x: nat, n: nat)
    requires x < n
    ensures Succ(Previous(x, n), n) == x && Previous(Succ(x, n), n) == x
  {
  }

  lemma {:induction false} PredsMembers(b: seq<byte>, p: seq<nat>, c: nat, y: nat)
    requires Positions(p, |b|)
    ensures y in Preds(b, p, c) <==> y < |b| && b[y] == c && Succ(y, |b|) in p
  {
    if p != [] {
      var q, x := p[..|p| - 1], p[|p| - 1];
      assert p == q + [x];
      PredsMembers(b, q, c, y);
      SuccPrevious(x, |b|);
      if y < |b| { SuccPrevious(y, |b|); }
    }
  }

  lemma {:induction false} PredsDistinct(b: seq<byte>, p: seq<nat>, c: nat)
    requires Positions(p, |b|) && Distinct(p)
    ensures Distinct(Preds(b, p, c))
  {
    if p != [] {
      var q, x := p[..|p| - 1], p[|p| - 1];
      PredsDistinct(b, q, c);
      var y := Previous(x, |b|);
      SuccPrevious(x, |b|);
      PredsMembers(b, q, c, y);
      assert x !in q;
    }
  }

  // ---------- Order ----------

  /** In the direction of the scan: up from the smallest or down from the largest. */
  ghost predicate InDir(b: seq<byte>, x: nat, y: nat, up: bool)
    requires b != []
  {
    if up then NotLarger(b, x, y) else NotLarger(b, y, x)
  }

  ghost predicate Runs(b: seq<byte>, p: seq<nat>, up: bool)
    requires b != []
  {
    forall i, j {:trigger p[i], p[j]} :: 0 <= i < j < |p| ==> InDir(b, p[i], p[j], up)
  }

  /** Positions with equal bytes are ordered like their successors. */
  lemma LikeSuccessors(b: seq<byte>, x: nat, y: nat)
    requires x < |b| && y < |b| && b[x] == b[y]
    ensures NotLarger(b, x, y) <==> NotLarger(b, Succ(x, |b|), Succ(y, |b|))
  {
    hide Cmp;
    CmpShift(b, x, y);
    CmpWrapped(b, x + 1, y + 1, |b|);
    WrapTwice(x + 1, |b|);
    WrapTwice(y + 1, |b|);
  }

  /** Positions in different small buckets are ordered by their keys. */
  lemma KeysDecide(b: seq<byte>, x: nat, y: nat)
    requires |b| >= 2 && x < |b| && y < |b| && Key(b, x) < Key(b, y)
    ensures NotLarger(b, x, y)
  {
    hide Cmp;
    var n := |b|;
    WrapTwice(x + 1, n);
    WrapTwice(y + 1, n);
    CmpNone(b, x, y);
    if b[x] == b[y] {
      OneMore(b, x, y, 0);
      FirstDifference(b, x, y, 1);
    } else {
      FirstDifference(b, x, y, 0);
    }
  }

  lemma {:induction false} PredsRun(b: seq<byte>, p: seq<nat>, c: nat, up: bool)
    requires b != [] && Positions(p, |b|) && Runs(b, p, up)
    ensures Runs(b, Preds(b, p, c), up)
  {
    if p != [] {
      hide NotLarger;
      var q, x := p[..|p| - 1], p[|p| - 1];
      PredsRun(b, q, c, up);
      var y, r := Previous(x, |b|), Preds(b, q, c);
      if b[y] == c {
        forall i | 0 <= i < |r| ensures InDir(b, r[i], y, up) {
          PredsMembers(b, q, c, r[i]);
          var k :| 0 <= k < |q| && q[k] == Succ(r[i], |b|);
          assert InDir(b, p[k], p[|p| - 1], up);
          SuccPrevious(x, |b|);
          LikeSuccessors(b, r[i], y);
          LikeSuccessors(b, y, r[i]);
        }
      }
    }
  }

  // ---------- Which end of the bucket ----------

  /** The byte i positions after x. */
  ghost function Ahead(b: seq<byte>, x: nat, i: nat): byte
    requires b != []
  {
    At(b, x + i)
  }

  ghost predicate Run(b: seq<byte>, x: nat, ss: nat, d: nat)
    requires b != []
  {
    forall i: nat :: i < d ==> Ahead(b, x, i) == ss
  }

  /** From x on there are d bytes ss and then a smaller one, or a larger one. */
  ghost predicate Differs(b: seq<byte>, x: nat, ss: nat, up: bool, d: nat)
    requires b != []
  {
    d < |b| && Run(b, x, ss, d) && if up then Ahead(b, x, d) < ss else Ahead(b, x, d) > ss
  }

  ghost predicate Side(b: seq<byte>, x: nat, ss: nat, up: bool)
    requires b != []
  {
    exists d: nat :: Differs(b, x, ss, up, d)
  }

  lemma SideOfPrevious(b: seq<byte>, x: nat, ss: nat, up: bool)
    requires x < |b| && Side(b, x, ss, up) && b[Previous(x, |b|)] == ss
    ensures Side(b, Previous(x, |b|), ss, up)
  {
    var y := Previous(x, |b|);
    var d: nat :| Differs(b, x, ss, up, d);
    if d == |b| - 1 { AheadBefore(b, x); }
    forall i: nat | i < d + 1 ensures Ahead(b, y, i) == ss {
      if i > 0 { AheadNext(b, x, i - 1); }
    }
    AheadNext(b, x, d);
    assert Differs(b, y, ss, up, d + 1);
  }

  /** Reading on from the predecessor is reading on from x. */
  lemma AheadNext(b: seq<byte>, x: nat, i: nat)
    requires x < |b|
    ensures Ahead(b, Previous(x, |b|), i + 1) == Ahead(b, x, i)
  {
    if x == 0 {
      WrapAdd(i, |b|, 0);
      assert Previous(x, |b|) + (i + 1) == i + |b|;
    }
  }

  /** The byte n - 1 further on is the one before. */
  lemma AheadBefore(b: seq<byte>, x: nat)
    requires x < |b|
    ensures Ahead(b, x, |b| - 1) == b[Previous(x, |b|)]
  {
    WrapTwice(x + (|b| - 1), |b|);
  }

  /** Up comes before down. */
  lemma SidesOrdered(b: seq<byte>, x: nat, y: nat, ss: nat)
    requires b != [] && Side(b, x, ss, true) && Side(b, y, ss, false)
    ensures NotLarger(b, x, y) && x != y
  {
    hide Cmp;
    var d: nat :| Differs(b, x, ss, true, d);
    var e: nat :| Differs(b, y, ss, false, e);
    var m := if d <= e then d else e;
    SameRun(b, x, y, ss, m);
    assert Ahead(b, x, m) <= ss <= Ahead(b, y, m) && Ahead(b, x, m) < Ahead(b, y, m);
    FirstDifference(b, x, y, m);
  }

  lemma {:induction false} SameRun(b: seq<byte>, x: nat, y: nat, ss: nat, m: nat)
    requires b != [] && Run(b, x, ss, m) && Run(b, y, ss, m)
    ensures Cmp(b, x, y, m) == 0
  {
    if m > 0 {
      SameRun(b, x, y, ss, m - 1);
      assert Ahead(b, x, m - 1) == ss == Ahead(b, y, m - 1);
      OneMore(b, x, y, m - 1);
    }
  }

  // ---------- The scan ----------

  /** One end of big bucket ss: its small buckets on one side of [ss, ss], in
      scan order. */
  ghost predicate Seeds(b: seq<byte>, seeds: seq<nat>, ss: nat, up: bool)
    requires |b| >= 2
  {
    && Positions(seeds, |b|) && Distinct(seeds) && Runs(b, seeds, up)
    && forall i {:trigger seeds[i]} :: 0 <= i < |seeds| ==> Seed(b, seeds[i], ss, up)
  }

  ghost predicate Seed(b: seq<byte>, x: nat, ss: nat, up: bool)
    requires x < |b|
  {
    b[x] == ss && if up then b[Succ(x, |b|)] < ss else b[Succ(x, |b|)] > ss
  }

  /** What is known of the bucket when p has been scanned. */
  ghost function Region(b: seq<byte>, seeds: seq<nat>, p: seq<nat>, ss: nat): seq<nat>
    requires Positions(p, |b|)
  {
    seeds + Preds(b, p, ss)
  }

  /** p has been scanned: every entry was the next one known. */
  ghost predicate Grown(b: seq<byte>, seeds: seq<nat>, p: seq<nat>, ss: nat)
    requires Positions(p, |b|)
    decreases |p|
  {
    p == [] ||
    var q := p[..|p| - 1];
    && Grown(b, seeds, q, ss)
    && |q| < |Region(b, seeds, q, ss)| && p[|p| - 1] == Region(b, seeds, q, ss)[|q|]
  }

  ghost predicate InBigBucket(b: seq<byte>, x: nat, ss: nat, up: bool)
    requires b != []
  {
    x < |b| && b[x] == ss && Side(b, x, ss, up)
  }

  /** What is known is in order, without repetition, and begins with what has
      been scanned. */
  ghost predicate Known(b: seq<byte>, r: seq<nat>, p: seq<nat>, ss: nat, up: bool)
    requires b != []
  {
    && Positions(r, |b|) && Distinct(r) && Runs(b, r, up) && p <= r
    && forall i {:trigger r[i]} :: 0 <= i < |r| ==> InBigBucket(b, r[i], ss, up)
  }

  lemma SeedSide(b: seq<byte>, x: nat, ss: nat, up: bool)
    requires |b| >= 2 && x < |b| && Seed(b, x, ss, up)
    ensures InBigBucket(b, x, ss, up)
  {
    WrapTwice(x + 1, |b|);
    assert Ahead(b, x, 0) == ss && Ahead(b, x, 1) == b[Succ(x, |b|)];
    assert Differs(b, x, ss, up, 1);
  }

  /** Seeds come before [ss, ss] in scan order. */
  lemma SeedBefore(b: seq<byte>, x: nat, y: nat, ss: nat, up: bool)
    requires |b| >= 2 && x < |b| && y < |b| && Seed(b, x, ss, up) && b[y] == ss && b[Succ(y, |b|)] == ss
    ensures InDir(b, x, y, up) && x != y
  {
    if up { KeysDecide(b, x, y); } else { KeysDecide(b, y, x); }
  }

  lemma {:induction false} GrownKnown(b: seq<byte>, seeds: seq<nat>, p: seq<nat>, ss: nat, up: bool)
    requires |b| >= 2 && Seeds(b, seeds, ss, up) && Positions(p, |b|) && Grown(b, seeds, p, ss)
    ensures Known(b, Region(b, seeds, p, ss), p, ss, up)
    decreases |p|
  {
    hide Cmp, Side;
    if p == [] {
      assert Region(b, seeds, p, ss) == seeds;
      forall i | 0 <= i < |seeds| ensures InBigBucket(b, seeds[i], ss, up) { SeedSide(b, seeds[i], ss, up); }
    } else {
      var q, x := p[..|p| - 1], p[|p| - 1];
      GrownKnown(b, seeds, q, ss, up);
      KnownGrows(b, seeds, q, x, ss, up);
      assert q + [x] == p;
    }
  }

  lemma KnownGrows(b: seq<byte>, seeds: seq<nat>, q: seq<nat>, x: nat, ss: nat, up: bool)
    requires |b| >= 2 && Seeds(b, seeds, ss, up) && Positions(q, |b|) && Known(b, Region(b, seeds, q, ss), q, ss, up)
    requires |q| < |Region(b, seeds, q, ss)| && x == Region(b, seeds, q, ss)[|q|]
    ensures Positions(q + [x], |b|) && Known(b, Region(b, seeds, q + [x], ss), q + [x], ss, up)
  {
    hide Cmp, Side, InDir;
    var r, y := Region(b, seeds, q, ss), Previous(x, |b|);
    PredsNext(b, q, x, ss);
    assert InBigBucket(b, r[|q|], ss, up);
    assert r[..|q| + 1] == q + [x];
    if b[y] == ss {
      var r' := Region(b, seeds, q + [x], ss);
      assert r' == r + [y];
      SideOfPrevious(b, x, ss, up);
      SuccPrevious(x, |b|);
      forall i | 0 <= i < |r| ensures InDir(b, r[i], y, up) && r[i] != y {
        NextAfter(b, seeds, q, x, ss, up, i);
      }
    } else {
      assert Region(b, seeds, q + [x], ss) == r;
    }
  }

  /** The predecessor found next comes after all that is known. */
  lemma NextAfter(b: seq<byte>, seeds: seq<nat>, q: seq<nat>, x: nat, ss: nat, up: bool, i: nat)
    requires |b| >= 2 && Seeds(b, seeds, ss, up) && Positions(q, |b|) && Known(b, Region(b, seeds, q, ss), q, ss, up)
    requires |q| < |Region(b, seeds, q, ss)| && x == Region(b, seeds, q, ss)[|q|] && x < |b| && b[x] == ss && b[Previous(x, |b|)] == ss
    requires i < |Region(b, seeds, q, ss)|
    ensures InDir(b, Region(b, seeds, q, ss)[i], Previous(x, |b|), up) && Region(b, seeds, q, ss)[i] != Previous(x, |b|)
  {
    hide Cmp, Side, NotLarger;
    var r, y := Region(b, seeds, q, ss), Previous(x, |b|);
    SuccPrevious(x, |b|);
    if i < |seeds| {
      SeedBefore(b, r[i], y, ss, up);
    } else {
      assert r[i] in Preds(b, q, ss);
      PredsMembers(b, q, ss, r[i]);
      var k :| 0 <= k < |q| && q[k] == Succ(r[i], |b|);
      assert r[k] == q[k] && InDir(b, r[k], r[|q|], up) && r[k] != r[|q|];
      LikeSuccessors(b, r[i], y);
      LikeSuccessors(b, y, r[i]);
    }
  }

  // ---------- The ends of the big bucket ----------

  /** Small bucket [c, ss] is [SmallStart, SmallEnd). */
  ghost function SmallStart(b: seq<byte>, ss: nat, c: nat): nat { BucketStart(b, 256 * c + ss) }

  ghost function SmallEnd(b: seq<byte>, ss: nat, c: nat): nat { BucketStart(b, 256 * c + ss + 1) }

  ghost function BigStart(b: seq<byte>, ss: nat): nat { BucketStart(b, 256 * ss) }

  ghost function BigEnd(b: seq<byte>, ss: nat): nat { BucketStart(b, 256 * (ss + 1)) }

  lemma Bounds(b: seq<byte>, ss: nat, c: nat)
    requires ss < 256 && c < 256
    ensures BigStart(b, c) <= SmallStart(b, ss, c) <= SmallEnd(b, ss, c) <= BigEnd(b, c) <= |b|
  {
    hide BucketStart;
    BucketsFollow(b, 256 * c, 256 * c + ss);
    BucketsFollow(b, 256 * c + ss, 256 * c + ss + 1);
    BucketsFollow(b, 256 * c + ss + 1, 256 * (c + 1));
  }

  /** Below [ss, ss], from the smallest; above it, from the largest. */
  ghost function Lower(b: seq<byte>, f: seq<nat>, ss: nat): seq<nat>
    requires BigStart(b, ss) <= SmallStart(b, ss, ss) <= |f|
  {
    f[BigStart(b, ss)..SmallStart(b, ss, ss)]
  }

  ghost function Upper(b: seq<byte>, f: seq<nat>, ss: nat): seq<nat>
    requires SmallEnd(b, ss, ss) <= BigEnd(b, ss) <= |f|
  {
    var m := BigEnd(b, ss);
    seq(m - SmallEnd(b, ss, ss), i requires 0 <= i < m - SmallEnd(b, ss, ss) => f[m - 1 - i])
  }

  ghost predicate SmallOrdered(b: seq<byte>, f: seq<nat>, s: nat)
    requires b != [] && |f| == |b|
  {
    BucketStart(b, s) <= BucketStart(b, s + 1) <= |f| && Ordered(b, f, BucketStart(b, s), BucketStart(b, s + 1))
  }

  /** Entries in different small buckets are in order, and so are those in the
      same one if it is. */
  lemma Across(b: seq<byte>, f: seq<nat>, k: nat, l: nat)
    requires |b| >= 2 && Bucketed(b, f) && k < l < |f| && SmallOrdered(b, f, Key(b, f[k]))
    ensures NotLarger(b, f[k], f[l])
  {
    hide BucketStart, Key, Cmp;
    assert InBucket(b, f[k], k) && InBucket(b, f[l], l);
    var s, t := Key(b, f[k]), Key(b, f[l]);
    if s < t {
      KeysDecide(b, f[k], f[l]);
    } else {
      if t < s { BucketsFollow(b, t + 1, s); }
      assert InOrder(b, f, |b|, k, l);
    }
  }

  /** All small buckets of big bucket ss but [ss, ss] are in order. */
  ghost predicate EndsOrdered(b: seq<byte>, f: seq<nat>, ss: nat)
    requires b != [] && |f| == |b|
  {
    forall s: nat :: 256 * ss <= s < 256 * (ss + 1) && s != 257 * ss ==> SmallOrdered(b, f, s)
  }

  lemma BigKey(b: seq<byte>, f: seq<nat>, ss: nat, k: nat)
    requires ss < 256 && Bucketed(b, f) && BigStart(b, ss) <= k < BigEnd(b, ss)
    ensures k < |f| && f[k] < |b| && b[f[k]] == ss
    ensures k < SmallStart(b, ss, ss) <==> b[Succ(f[k], |b|)] < ss
    ensures k >= SmallEnd(b, ss, ss) <==> b[Succ(f[k], |b|)] > ss
  {
    hide BucketStart;
    Bounds(b, ss, ss);
    assert InBucket(b, f[k], k);
    var s := Key(b, f[k]);
    if s < 256 * ss { BucketsFollow(b, s + 1, 256 * ss); }
    if s >= 256 * (ss + 1) { BucketsFollow(b, 256 * (ss + 1), s); }
    if s < 257 * ss { BucketsFollow(b, s + 1, 257 * ss); }
    if s > 257 * ss { BucketsFollow(b, 257 * ss + 1, s); }
    assert 256 * ss + ss == 257 * ss;
    if s == 257 * ss { assert BucketStart(b, 257 * ss) <= k < BucketStart(b, 257 * ss + 1); }
  }

  lemma LowerSeeds(b: seq<byte>, f: seq<nat>, ss: nat)
    requires |b| >= 2 && ss < 256 && Bucketed(b, f) && EndsOrdered(b, f, ss)
    ensures BigStart(b, ss) <= SmallStart(b, ss, ss) <= |f| && Seeds(b, Lower(b, f, ss), ss, true)
  {
    hide BucketStart, Key, NotLarger, SmallOrdered;
    Bounds(b, ss, ss);
    var lo, seeds := BigStart(b, ss), Lower(b, f, ss);
    forall i | 0 <= i < |seeds| ensures seeds[i] == f[lo + i] && seeds[i] < |b| && Seed(b, seeds[i], ss, true) {
      BigKey(b, f, ss, lo + i);
    }
    forall i, j | 0 <= i < j < |seeds| ensures InDir(b, seeds[i], seeds[j], true) {
      SeedOrdered(b, f, ss, lo + i);
      Across(b, f, lo + i, lo + j);
    }
  }

  lemma UpperSeeds(b: seq<byte>, f: seq<nat>, ss: nat)
    requires |b| >= 2 && ss < 256 && Bucketed(b, f) && EndsOrdered(b, f, ss)
    ensures SmallEnd(b, ss, ss) <= BigEnd(b, ss) <= |f| && Seeds(b, Upper(b, f, ss), ss, false)
  {
    hide BucketStart, Key, NotLarger, SmallOrdered;
    Bounds(b, ss, ss);
    var hi, seeds := BigEnd(b, ss), Upper(b, f, ss);
    forall i | 0 <= i < |seeds| ensures seeds[i] == f[hi - 1 - i] && seeds[i] < |b| && Seed(b, seeds[i], ss, false) {
      BigKey(b, f, ss, hi - 1 - i);
    }
    forall i, j | 0 <= i < j < |seeds| ensures InDir(b, seeds[i], seeds[j], false) {
      SeedOrdered(b, f, ss, hi - 1 - j);
      Across(b, f, hi - 1 - j, hi - 1 - i);
    }
  }

  lemma SeedOrdered(b: seq<byte>, f: seq<nat>, ss: nat, k: nat)
    requires |b| >= 2 && ss < 256 && Bucketed(b, f) && EndsOrdered(b, f, ss) && BigStart(b, ss) <= k < BigEnd(b, ss)
    requires k < SmallStart(b, ss, ss) || SmallEnd(b, ss, ss) <= k
    ensures k < |f| && f[k] < |b| && SmallOrdered(b, f, Key(b, f[k]))
  {
    hide BucketStart, SmallOrdered;
    BigKey(b, f, ss, k);
  }

  /** Every seed there is stands among the lower, or the upper, ones. */
  lemma AllSeeds(b: seq<byte>, f: seq<nat>, ss: nat, x: nat)
    requires |b| >= 2 && ss < 256 && Bucketed(b, f) && x < |b| && b[x] == ss && b[Succ(x, |b|)] != ss
    requires BigStart(b, ss) <= SmallStart(b, ss, ss) <= SmallEnd(b, ss, ss) <= BigEnd(b, ss) <= |f|
    ensures if b[Succ(x, |b|)] < ss then x in Lower(b, f, ss) else x in Upper(b, f, ss)
  {
    hide BucketStart;
    Surjective(f, x);
    var k :| 0 <= k < |f| && f[k] == x;
    assert InBucket(b, f[k], k);
    BucketsFollow(b, 256 * ss, Key(b, x));
    BucketsFollow(b, Key(b, x) + 1, 256 * (ss + 1));
    BigKey(b, f, ss, k);
    if b[Succ(x, |b|)] < ss {
      assert Lower(b, f, ss)[k - BigStart(b, ss)] == x;
    } else {
      assert Upper(b, f, ss)[BigEnd(b, ss) - 1 - k] == x;
    }
  }

  // ---------- Nothing is missed ----------

  /** When the scan has caught up with what is known, it has seen its whole side. */
  lemma {:induction false} SideScanned(b: seq<byte>, seeds: seq<nat>, p: seq<nat>, ss: nat, up: bool, x: nat, d: nat)
    requires |b| >= 2 && Positions(p, |b|) && p == Region(b, seeds, p, ss) && x < |b| && b[x] == ss && Differs(b, x, ss, up, d)
    requires forall z: nat :: z < |b| && Seed(b, z, ss, up) ==> z in seeds
    ensures x in p
    decreases d
  {
    var z := Succ(x, |b|);
    WrapTwice(x + 1, |b|);
    SuccPrevious(x, |b|);
    AheadNext(b, z, 0);
    assert Ahead(b, x, 0) == ss && Ahead(b, x, 1) == b[z];
    if d == 1 {
      assert Seed(b, x, ss, up);
    } else {
      forall i: nat | i < d - 1 ensures Ahead(b, z, i) == ss { AheadNext(b, z, i); }
      AheadNext(b, z, d - 1);
      assert Differs(b, z, ss, up, d - 1);
      SideScanned(b, seeds, p, ss, up, z, d - 1);
      PredsMembers(b, p, ss, x);
    }
  }

  lemma RunAll(b: seq<byte>, x: nat, ss: nat, z: nat)
    requires x < |b| && z < |b| && Run(b, x, ss, |b|)
    ensures b[z] == ss
  {
    var i := if z >= x then z - x else z + |b| - x;
    WrapTwice(x + i, |b|);
    assert Ahead(b, x, i) == b[z];
  }

  /** Unless all bytes are ss, every rotation has a side. */
  lemma {:induction false} FindSide(b: seq<byte>, x: nat, ss: nat, d: nat)
    requires x < |b| && d <= |b| && Run(b, x, ss, d) && exists z: nat :: z < |b| && b[z] != ss
    ensures Side(b, x, ss, true) || Side(b, x, ss, false)
    decreases |b| - d
  {
    if d == |b| {
      var z: nat :| z < |b| && b[z] != ss;
      RunAll(b, x, ss, z);
    } else if Ahead(b, x, d) == ss {
      FindSide(b, x, ss, d + 1);
    } else {
      assert Differs(b, x, ss, Ahead(b, x, d) < ss, d);
    }
  }

  // ---------- What has been written ----------

  /** Distinct positions of small bucket s fit it, and fill it if they are all. */
  lemma FitsBucket(b: seq<byte>, f: seq<nat>, s: nat, t: seq<nat>)
    requires s < PAIRS && Bucketed(b, f) && Distinct(t) && forall i {:trigger t[i]} :: 0 <= i < |t| ==> HasKey(b, t[i], s)
    ensures BucketStart(b, s) <= BucketStart(b, s + 1) <= |b|
    ensures |t| <= BucketStart(b, s + 1) - BucketStart(b, s)
    ensures (forall y: nat :: HasKey(b, y, s) ==> y in t) ==> |t| == BucketStart(b, s + 1) - BucketStart(b, s)
  {
    hide BucketStart, Key;
    BucketsFollow(b, s, s + 1);
    var bucket := f[BucketStart(b, s)..BucketStart(b, s + 1)];
    DistinctSize(t);
    DistinctSize(bucket);
    forall x | x in Elements(t) ensures x in Elements(bucket) {
      var i :| 0 <= i < |t| && t[i] == x;
      assert HasKey(b, t[i], s);
      InItsBucket(b, f, s, x);
    }
    SubsetSize(Elements(t), Elements(bucket));
    if forall y: nat :: HasKey(b, y, s) ==> y in t {
      forall x | x in Elements(bucket) ensures x in Elements(t) {
        var k :| 0 <= k < |bucket| && bucket[k] == x;
        BucketKey(b, f, s, BucketStart(b, s) + k);
        assert HasKey(b, x, s);
      }
      SubsetSize(Elements(bucket), Elements(t));
    }
  }

  ghost predicate HasKey(b: seq<byte>, y: nat, s: nat) { y < |b| && Key(b, y) == s }

  lemma InItsBucket(b: seq<byte>, f: seq<nat>, s: nat, x: nat)
    requires Bucketed(b, f) && HasKey(b, x, s) && BucketStart(b, s) <= BucketStart(b, s + 1) <= |f|
    ensures x in f[BucketStart(b, s)..BucketStart(b, s + 1)]
  {
    hide BucketStart, Key;
    Surjective(f, x);
    var k :| 0 <= k < |f| && f[k] == x;
    assert InBucket(b, f[k], k);
    assert f[BucketStart(b, s)..BucketStart(b, s + 1)][k - BucketStart(b, s)] == x;
  }

  /** Positions scanned from the two ends. */
  ghost predicate FromEnds(b: seq<byte>, p: seq<nat>, q: seq<nat>, ss: nat)
    requires b != []
  {
    && Positions(p, |b|) && Positions(q, |b|) && Distinct(p) && Distinct(q) && Runs(b, p, true) && Runs(b, q, false)
    && (forall i {:trigger p[i]} :: 0 <= i < |p| ==> InBigBucket(b, p[i], ss, true))
    && (forall i {:trigger q[i]} :: 0 <= i < |q| ==> InBigBucket(b, q[i], ss, false))
  }

  /** The predecessors with byte c, from either end. */
  ghost function BothEnds(b: seq<byte>, p: seq<nat>, q: seq<nat>, c: nat): seq<nat>
    requires Positions(p, |b|) && Positions(q, |b|)
  {
    Preds(b, p, c) + Preds(b, q, c)
  }

  lemma BothDistinct(b: seq<byte>, p: seq<nat>, q: seq<nat>, ss: nat, c: nat)
    requires b != [] && ss < 256 && c < 256 && FromEnds(b, p, q, ss)
    ensures Distinct(BothEnds(b, p, q, c))
    ensures forall i {:trigger BothEnds(b, p, q, c)[i]} :: 0 <= i < |BothEnds(b, p, q, c)| ==> HasKey(b, BothEnds(b, p, q, c)[i], 256 * c + ss)
  {
    hide Side, Cmp, Preds, Runs, NotLarger;
    var x, y := Preds(b, p, c), Preds(b, q, c);
    PredsDistinct(b, p, c);
    PredsDistinct(b, q, c);
    forall i | 0 <= i < |x| ensures HasKey(b, x[i], 256 * c + ss) && Succ(x[i], |b|) in p {
      PredsMembers(b, p, c, x[i]);
    }
    forall i | 0 <= i < |y| ensures HasKey(b, y[i], 256 * c + ss) && Succ(y[i], |b|) in q {
      PredsMembers(b, q, c, y[i]);
    }
    forall i, j | 0 <= i < |x| && 0 <= j < |y| ensures x[i] != y[j] {
      SidesOrdered(b, Succ(x[i], |b|), Succ(y[j], |b|), ss);
    }
  }

  lemma Room(b: seq<byte>, f: seq<nat>, p: seq<nat>, q: seq<nat>, ss: nat, c: nat)
    requires b != [] && ss < 256 && c < 256 && Bucketed(b, f) && FromEnds(b, p, q, ss)
    ensures SmallStart(b, ss, c) + |Preds(b, p, c)| + |Preds(b, q, c)| <= SmallEnd(b, ss, c)
  {
    hide Preds, BucketStart, Key, FromEnds, HasKey;
    EndsPositions(b, p, q, ss);
    BothDistinct(b, p, q, ss, c);
    FitsBucket(b, f, 256 * c + ss, BothEnds(b, p, q, c));
  }

  lemma EndsPositions(b: seq<byte>, p: seq<nat>, q: seq<nat>, ss: nat)
    requires b != [] && FromEnds(b, p, q, ss)
    ensures Positions(p, |b|) && Positions(q, |b|)
  {
  }

  /** Small bucket [c, ss]: predecessors from both ends, and between them what was
      there before. */
  ghost predicate Written(b: seq<byte>, f: seq<nat>, g: seq<nat>, ss: nat, c: nat, p: seq<nat>, q: seq<nat>)
    requires Positions(p, |b|) && Positions(q, |b|) && |f| == |g| == |b|
  {
    var lo, hi, x, y := SmallStart(b, ss, c), SmallEnd(b, ss, c), Preds(b, p, c), Preds(b, q, c);
    && lo + |x| + |y| <= hi <= |b|
    && (forall i :: 0 <= i < |x| ==> g[lo + i] == x[i])
    && (forall i :: 0 <= i < |y| ==> g[hi - 1 - i] == y[i])
    && (forall k :: lo + |x| <= k < hi - |y| ==> g[k] == f[k])
  }

  ghost predicate Kept(b: seq<byte>, f: seq<nat>, g: seq<nat>, s: nat)
    requires |f| == |g| == |b|
  {
    forall k :: BucketStart(b, s) <= k < BucketStart(b, s + 1) && k < |b| ==> g[k] == f[k]
  }

  /** The pointers after scanning p from the lower and q from the upper end. */
  ghost predicate Scanned(b: seq<byte>, f: seq<nat>, g: seq<nat>, bigDone: seq<bool>, ss: nat, p: seq<nat>, q: seq<nat>)
    requires Positions(p, |b|) && Positions(q, |b|)
  {
    && |f| == |g| == |b| && |bigDone| == 256
    && (forall c: nat :: c < 256 && !bigDone[c] ==> Written(b, f, g, ss, c, p, q))
    && (forall s: nat :: s < PAIRS && (s % 256 != ss || bigDone[s / 256]) ==> Kept(b, f, g, s))
  }

  /** Different small buckets do not overlap. */
  lemma SmallApart(b: seq<byte>, s: nat, t: nat, k: nat)
    requires BucketStart(b, s) <= k < BucketStart(b, s + 1) && BucketStart(b, t) <= k < BucketStart(b, t + 1)
    ensures s == t
  {
    hide BucketStart;
    if s < t { BucketsFollow(b, s + 1, t); }
    if t < s { BucketsFollow(b, t + 1, s); }
  }

  lemma NothingScanned(b: seq<byte>, f: seq<nat>, bigDone: seq<bool>, ss: nat)
    requires |f| == |b| && |bigDone| == 256 && ss < 256
    ensures Scanned(b, f, f, bigDone, ss, [], [])
  {
    hide BucketStart;
    forall c: nat | c < 256 ensures Written(b, f, f, ss, c, [], []) { Bounds(b, ss, c); }
  }

  /** The predecessor's bucket is done already: nothing is written. */
  lemma SkippedUp(b: seq<byte>, f: seq<nat>, g: seq<nat>, bigDone: seq<bool>, ss: nat, p: seq<nat>, q: seq<nat>, x: nat)
    requires ss < 256 && x < |b| && Positions(p, |b|) && Positions(q, |b|) && Positions(p + [x], |b|) && Scanned(b, f, g, bigDone, ss, p, q)
    requires bigDone[b[Previous(x, |b|)]]
    ensures Scanned(b, f, g, bigDone, ss, p + [x], q)
  {
    hide BucketStart, Preds, Written, Kept;
    forall e: nat | e < 256 && !bigDone[e] ensures Written(b, f, g, ss, e, p + [x], q) {
      PredsNext(b, p, x, e);
      SameWritten(b, f, g, g, ss, e, p, p + [x], q, q);
    }
  }

  /** One more predecessor written from the lower end. */
  lemma ScannedUp(b: seq<byte>, f: seq<nat>, g: seq<nat>, bigDone: seq<bool>, ss: nat, p: seq<nat>, q: seq<nat>, x: nat)
    requires ss < 256 && x < |b| && Positions(p, |b|) && Positions(q, |b|) && Positions(p + [x], |b|) && Scanned(b, f, g, bigDone, ss, p, q)
    requires Bucketed(b, f) && FromEnds(b, p + [x], q, ss) && !bigDone[b[Previous(x, |b|)]]
    ensures var y := Previous(x, |b|); var c := b[y]; var k := SmallStart(b, ss, c) + |Preds(b, p, c)|;
            k < SmallEnd(b, ss, c) <= |b| && Scanned(b, f, g[k := y], bigDone, ss, p + [x], q)
  {
    hide BucketStart, Preds, FromEnds, Written, Kept, Bucketed;
    var y := Previous(x, |b|);
    var c: nat := b[y];
    Room(b, f, p + [x], q, ss, c);
    PredsNext(b, p, x, c);
    Bounds(b, ss, c);
    WrittenUp(b, f, g, ss, c, p, q, x);
    var k: nat := SmallStart(b, ss, c) + |Preds(b, p, c)|;
    var g' := g[k := y];
    forall e: nat | e < 256 && !bigDone[e] && e != c ensures Written(b, f, g', ss, e, p + [x], q) {
      PredsNext(b, p, x, e);
      StillElsewhere(b, ss, c, e, k);
      SameWritten(b, f, g, g', ss, e, p, p + [x], q, q);
    }
    forall s: nat | s < PAIRS && (s % 256 != ss || bigDone[s / 256]) ensures Kept(b, f, g', s) {
      KeptElsewhere(b, f, g, s, 256 * c + ss, k, y);
    }
  }

  lemma StillElsewhere(b: seq<byte>, ss: nat, c: nat, e: nat, k: nat)
    requires ss < 256 && c < 256 && e < 256 && c != e && SmallStart(b, ss, c) <= k < SmallEnd(b, ss, c)
    ensures !(SmallStart(b, ss, e) <= k < SmallEnd(b, ss, e))
  {
    hide BucketStart;
    if SmallStart(b, ss, e) <= k < SmallEnd(b, ss, e) { SmallApart(b, 256 * c + ss, 256 * e + ss, k); }
  }

  lemma KeptElsewhere(b: seq<byte>, f: seq<nat>, g: seq<nat>, s: nat, t: nat, k: nat, y: nat)
    requires |f| == |g| == |b| && k < |b| && s != t && BucketStart(b, t) <= k < BucketStart(b, t + 1) && Kept(b, f, g, s)
    ensures Kept(b, f, g[k := y], s)
  {
    hide BucketStart;
    if BucketStart(b, s) <= k < BucketStart(b, s + 1) { SmallApart(b, s, t, k); }
  }

  lemma SameWritten(b: seq<byte>, f: seq<nat>, g: seq<nat>, g': seq<nat>, ss: nat, c: nat, p: seq<nat>, p': seq<nat>, q: seq<nat>, q': seq<nat>)
    requires Positions(p, |b|) && Positions(q, |b|) && Positions(p', |b|) && Positions(q', |b|) && |f| == |g| == |g'| == |b|
    requires Written(b, f, g, ss, c, p, q) && Preds(b, p', c) == Preds(b, p, c) && Preds(b, q', c) == Preds(b, q, c)
    requires forall k :: SmallStart(b, ss, c) <= k < SmallEnd(b, ss, c) && k < |b| ==> g'[k] == g[k]
    ensures Written(b, f, g', ss, c, p', q')
  {
    hide BucketStart, Preds;
  }

  lemma WrittenUp(b: seq<byte>, f: seq<nat>, g: seq<nat>, ss: nat, c: nat, p: seq<nat>, q: seq<nat>, x: nat)
    requires x < |b| && Positions(p, |b|) && Positions(q, |b|) && Positions(p + [x], |b|) && |f| == |g| == |b| && Written(b, f, g, ss, c, p, q)
    requires Preds(b, p + [x], c) == Preds(b, p, c) + [Previous(x, |b|)]
    requires SmallStart(b, ss, c) + |Preds(b, p, c)| + 1 + |Preds(b, q, c)| <= SmallEnd(b, ss, c)
    ensures SmallStart(b, ss, c) + |Preds(b, p, c)| < |b|
    ensures Written(b, f, g[SmallStart(b, ss, c) + |Preds(b, p, c)| := Previous(x, |b|)], ss, c, p + [x], q)
  {
    hide BucketStart, Preds;
  }

  lemma WrittenDown(b: seq<byte>, f: seq<nat>, g: seq<nat>, ss: nat, c: nat, p: seq<nat>, q: seq<nat>, x: nat)
    requires x < |b| && Positions(p, |b|) && Positions(q, |b|) && Positions(q + [x], |b|) && |f| == |g| == |b| && Written(b, f, g, ss, c, p, q)
    requires Preds(b, q + [x], c) == Preds(b, q, c) + [Previous(x, |b|)]
    requires SmallStart(b, ss, c) + |Preds(b, p, c)| + 1 + |Preds(b, q, c)| <= SmallEnd(b, ss, c)
    ensures 0 <= SmallEnd(b, ss, c) - 1 - |Preds(b, q, c)| < |b|
    ensures Written(b, f, g[SmallEnd(b, ss, c) - 1 - |Preds(b, q, c)| := Previous(x, |b|)], ss, c, p, q + [x])
  {
    hide BucketStart, Preds;
  }

  /** The predecessor's bucket is done already: nothing is written. */
  lemma SkippedDown(b: seq<byte>, f: seq<nat>, g: seq<nat>, bigDone: seq<bool>, ss: nat, p: seq<nat>, q: seq<nat>, x: nat)
    requires ss < 256 && x < |b| && Positions(p, |b|) && Positions(q, |b|) && Positions(q + [x], |b|) && Scanned(b, f, g, bigDone, ss, p, q)
    requires bigDone[b[Previous(x, |b|)]]
    ensures Scanned(b, f, g, bigDone, ss, p, q + [x])
  {
    hide BucketStart, Preds, Written, Kept;
    forall e: nat | e < 256 && !bigDone[e] ensures Written(b, f, g, ss, e, p, q + [x]) {
      PredsNext(b, q, x, e);
      SameWritten(b, f, g, g, ss, e, p, p, q, q + [x]);
    }
  }

  /** One more predecessor written from the upper end. */
  lemma ScannedDown(b: seq<byte>, f: seq<nat>, g: seq<nat>, bigDone: seq<bool>, ss: nat, p: seq<nat>, q: seq<nat>, x: nat)
    requires ss < 256 && x < |b| && Positions(p, |b|) && Positions(q, |b|) && Positions(q + [x], |b|) && Scanned(b, f, g, bigDone, ss, p, q)
    requires Bucketed(b, f) && FromEnds(b, p, q + [x], ss) && !bigDone[b[Previous(x, |b|)]]
    ensures var y := Previous(x, |b|); var c := b[y]; var k := SmallEnd(b, ss, c) - 1 - |Preds(b, q, c)|;
            SmallStart(b, ss, c) <= k < |b| && Scanned(b, f, g[k := y], bigDone, ss, p, q + [x])
  {
    hide BucketStart, Preds, FromEnds, Written, Kept, Bucketed;
    var y := Previous(x, |b|);
    var c: nat := b[y];
    Room(b, f, p, q + [x], ss, c);
    PredsNext(b, q, x, c);
    Bounds(b, ss, c);
    WrittenDown(b, f, g, ss, c, p, q, x);
    var k: nat := SmallEnd(b, ss, c) - 1 - |Preds(b, q, c)|;
    var g' := g[k := y];
    forall e: nat | e < 256 && !bigDone[e] && e != c ensures Written(b, f, g', ss, e, p, q + [x]) {
      PredsNext(b, q, x, e);
      StillElsewhere(b, ss, c, e, k);
      SameWritten(b, f, g, g', ss, e, p, p, q, q + [x]);
    }
    forall s: nat | s < PAIRS && (s % 256 != ss || bigDone[s / 256]) ensures Kept(b, f, g', s) {
      KeptElsewhere(b, f, g, s, 256 * c + ss, k, y);
    }
  }

  // ---------- The scan is complete ----------

  lemma EndsFrom(b: seq<byte>, lower: seq<nat>, upper: seq<nat>, p: seq<nat>, q: seq<nat>, ss: nat)
    requires |b| >= 2 && Seeds(b, lower, ss, true) && Seeds(b, upper, ss, false) && Positions(p, |b|) && Positions(q, |b|)
    requires Grown(b, lower, p, ss) && Grown(b, upper, q, ss)
    ensures FromEnds(b, p, q, ss) && p <= Region(b, lower, p, ss) && q <= Region(b, upper, q, ss)
  {
    hide Cmp, Side, Grown, Seeds, Region;
    GrownKnown(b, lower, p, ss, true);
    GrownKnown(b, upper, q, ss, false);
    PrefixKnown(b, Region(b, lower, p, ss), p, ss, true);
    PrefixKnown(b, Region(b, upper, q, ss), q, ss, false);
  }

  lemma PrefixKnown(b: seq<byte>, r: seq<nat>, p: seq<nat>, ss: nat, up: bool)
    requires b != [] && Known(b, r, p, ss, up)
    ensures Distinct(p) && Runs(b, p, up) && p <= r && forall i {:trigger p[i]} :: 0 <= i < |p| ==> InBigBucket(b, p[i], ss, up)
  {
    hide Cmp, Side, NotLarger;
    forall i, j | 0 <= i < j < |p| ensures InDir(b, p[i], p[j], up) { assert r[i] == p[i] && r[j] == p[j]; }
    forall i | 0 <= i < |p| ensures InBigBucket(b, p[i], ss, up) { assert r[i] == p[i]; }
  }

  /** Both scans have caught up. */
  ghost predicate CaughtUp(b: seq<byte>, f: seq<nat>, p: seq<nat>, q: seq<nat>, ss: nat) {
    && |b| >= 2 && ss < 256 && Bucketed(b, f) && EndsOrdered(b, f, ss) && FromEnds(b, p, q, ss)
    && Positions(p, |b|) && Positions(q, |b|) && BigStart(b, ss) <= SmallStart(b, ss, ss) <= SmallEnd(b, ss, ss) <= BigEnd(b, ss) <= |f|
    && Grown(b, Lower(b, f, ss), p, ss) && Grown(b, Upper(b, f, ss), q, ss)
    && p == Region(b, Lower(b, f, ss), p, ss) && q == Region(b, Upper(b, f, ss), q, ss)
  }

  ghost predicate Constant(b: seq<byte>, ss: nat) { forall z: nat :: z < |b| ==> b[z] == ss }

  /** Unless the block is constant, every rotation of the big bucket was scanned. */
  lemma AllScanned(b: seq<byte>, f: seq<nat>, p: seq<nat>, q: seq<nat>, ss: nat, x: nat)
    requires CaughtUp(b, f, p, q, ss) && !Constant(b, ss) && x < |b| && b[x] == ss
    ensures x in p || x in q
  {
    hide BucketStart, Cmp, EndsOrdered, Grown, FromEnds, Region;
    FindSide(b, x, ss, 0);
    if Side(b, x, ss, true) {
      var d: nat :| Differs(b, x, ss, true, d);
      forall z: nat | z < |b| && Seed(b, z, ss, true) ensures z in Lower(b, f, ss) { AllSeeds(b, f, ss, z); }
      SideScanned(b, Lower(b, f, ss), p, ss, true, x, d);
    } else {
      var d: nat :| Differs(b, x, ss, false, d);
      forall z: nat | z < |b| && Seed(b, z, ss, false) ensures z in Upper(b, f, ss) { AllSeeds(b, f, ss, z); }
      SideScanned(b, Upper(b, f, ss), q, ss, false, x, d);
    }
  }

  /** Then every small bucket [c, ss] is full. */
  lemma Full(b: seq<byte>, f: seq<nat>, p: seq<nat>, q: seq<nat>, ss: nat, c: nat)
    requires CaughtUp(b, f, p, q, ss) && !Constant(b, ss) && c < 256
    ensures Positions(p, |b|) && Positions(q, |b|)
    ensures SmallStart(b, ss, c) + |Preds(b, p, c)| + |Preds(b, q, c)| == SmallEnd(b, ss, c) <= |b|
  {
    hide BucketStart, Cmp, EndsOrdered, Grown, FromEnds, Region, Preds, Constant;
    var both := BothEnds(b, p, q, c);
    BothDistinct(b, p, q, ss, c);
    forall y: nat | HasKey(b, y, 256 * c + ss) ensures y in both {
      AllScanned(b, f, p, q, ss, Succ(y, |b|));
      PredsMembers(b, p, c, y);
      PredsMembers(b, q, c, y);
    }
    FitsBucket(b, f, 256 * c + ss, both);
  }

  /** Where an entry of a full bucket comes from. */
  ghost function Source(b: seq<byte>, ss: nat, c: nat, p: seq<nat>, q: seq<nat>, k: nat): nat
    requires Positions(p, |b|) && Positions(q, |b|)
    requires SmallStart(b, ss, c) + |Preds(b, p, c)| + |Preds(b, q, c)| == SmallEnd(b, ss, c)
    requires SmallStart(b, ss, c) <= k < SmallEnd(b, ss, c)
  {
    var i := k - SmallStart(b, ss, c);
    if i < |Preds(b, p, c)| then i else |Preds(b, p, c)| + (SmallEnd(b, ss, c) - 1 - k)
  }

  lemma FromSource(b: seq<byte>, f: seq<nat>, g: seq<nat>, ss: nat, c: nat, p: seq<nat>, q: seq<nat>, k: nat)
    requires Positions(p, |b|) && Positions(q, |b|) && |f| == |g| == |b| && Written(b, f, g, ss, c, p, q)
    requires SmallStart(b, ss, c) + |Preds(b, p, c)| + |Preds(b, q, c)| == SmallEnd(b, ss, c)
    requires SmallStart(b, ss, c) <= k < SmallEnd(b, ss, c)
    ensures Source(b, ss, c, p, q, k) < |BothEnds(b, p, q, c)| && g[k] == BothEnds(b, p, q, c)[Source(b, ss, c, p, q, k)]
  {
    hide BucketStart, Preds;
    var i, j := k - SmallStart(b, ss, c), SmallEnd(b, ss, c) - 1 - k;
    if i < |Preds(b, p, c)| {
      assert g[SmallStart(b, ss, c) + i] == Preds(b, p, c)[i];
    } else {
      assert g[SmallEnd(b, ss, c) - 1 - j] == Preds(b, q, c)[j];
    }
  }

  /** A full bucket is in order. */
  lemma FullOrdered(b: seq<byte>, f: seq<nat>, g: seq<nat>, ss: nat, c: nat, p: seq<nat>, q: seq<nat>)
    requires b != [] && ss < 256 && c < 256 && |f| == |g| == |b| && FromEnds(b, p, q, ss) && Written(b, f, g, ss, c, p, q)
    requires SmallStart(b, ss, c) + |Preds(b, p, c)| + |Preds(b, q, c)| == SmallEnd(b, ss, c)
    ensures SmallOrdered(b, g, 256 * c + ss)
  {
    hide BucketStart, Preds, Cmp, Side, Written;
    var lo, hi, x, y := SmallStart(b, ss, c), SmallEnd(b, ss, c), Preds(b, p, c), Preds(b, q, c);
    WrittenSize(b, f, g, ss, c, p, q);
    forall k, l | lo <= k < l < hi ensures InOrder(b, g, |b|, k, l) {
      FromSource(b, f, g, ss, c, p, q, k);
      FromSource(b, f, g, ss, c, p, q, l);
      BothOrdered(b, p, q, ss, c, Source(b, ss, c, p, q, k), Source(b, ss, c, p, q, l));
    }
  }

  lemma WrittenSize(b: seq<byte>, f: seq<nat>, g: seq<nat>, ss: nat, c: nat, p: seq<nat>, q: seq<nat>)
    requires Positions(p, |b|) && Positions(q, |b|) && |f| == |g| == |b| && Written(b, f, g, ss, c, p, q)
    ensures SmallStart(b, ss, c) <= SmallEnd(b, ss, c) <= |b|
  {
    hide BucketStart, Preds;
  }

  /** The entries from the lower end rise and come before those from the upper
      end, which fall. */
  lemma BothOrdered(b: seq<byte>, p: seq<nat>, q: seq<nat>, ss: nat, c: nat, i: nat, j: nat)
    requires b != [] && FromEnds(b, p, q, ss) && i < |BothEnds(b, p, q, c)| && j < |BothEnds(b, p, q, c)|
    requires if j < |Preds(b, p, c)| then i < j else i < |Preds(b, p, c)| || j < i
    ensures NotLarger(b, BothEnds(b, p, q, c)[i], BothEnds(b, p, q, c)[j])
  {
    hide Preds, Cmp, Side, NotLarger;
    var x, y := Preds(b, p, c), Preds(b, q, c);
    if j < |x| {
      PredsRun(b, p, c, true);
      assert InDir(b, x[i], x[j], true);
    } else if i >= |x| {
      PredsRun(b, q, c, false);
      assert InDir(b, y[j - |x|], y[i - |x|], false);
    } else {
      var u, v := x[i], y[j - |x|];
      PredsMembers(b, p, c, u);
      PredsMembers(b, q, c, v);
      SidesOrdered(b, Succ(u, |b|), Succ(v, |b|), ss);
      LikeSuccessors(b, u, v);
    }
  }

  /** What scanning a big bucket leaves: positions by small buckets, the buckets
      [c, ss] in order for all c not done, everything else untouched. */
  ghost predicate Synthesised(b: seq<byte>, f: seq<nat>, g: seq<nat>, bigDone: seq<bool>, ss: nat)
    requires b != []
  {
    && |f| == |g| == |b| && |bigDone| == 256 && Bucketed(b, g)
    && (forall c: nat :: c < 256 && !bigDone[c] ==> SmallOrdered(b, g, 256 * c + ss))
    && (forall s: nat :: s < PAIRS && (s % 256 != ss || bigDone[s / 256]) ==> Kept(b, f, g, s))
  }

  /** Entry k of g belongs to its small bucket. */
  lemma StillInBucket(b: seq<byte>, f: seq<nat>, g: seq<nat>, bigDone: seq<bool>, ss: nat, p: seq<nat>, q: seq<nat>, k: nat)
    requires CaughtUp(b, f, p, q, ss) && !Constant(b, ss) && Positions(p, |b|) && Positions(q, |b|) && Scanned(b, f, g, bigDone, ss, p, q)
    requires k < |b|
    ensures InBucket(b, g[k], k) && Key(b, g[k]) == Key(b, f[k])
  {
    hide BucketStart, Preds, Cmp, CaughtUp, Constant, Written;
    HomeBucket(b, f, p, q, ss, k);
    var s := Key(b, f[k]);
    if s % 256 != ss || bigDone[s / 256] {
      assert Kept(b, f, g, s);
    } else {
      var c := s / 256;
      Full(b, f, p, q, ss, c);
      assert s == 256 * c + ss;
      FromSource(b, f, g, ss, c, p, q, k);
      BothKeys(b, f, p, q, ss, c);
      assert HasKey(b, BothEnds(b, p, q, c)[Source(b, ss, c, p, q, k)], s);
    }
  }

  lemma HomeBucket(b: seq<byte>, f: seq<nat>, p: seq<nat>, q: seq<nat>, ss: nat, k: nat)
    requires CaughtUp(b, f, p, q, ss) && k < |b|
    ensures |f| == |b| && f[k] < |b| && InBucket(b, f[k], k)
  {
  }

  lemma BothKeys(b: seq<byte>, f: seq<nat>, p: seq<nat>, q: seq<nat>, ss: nat, c: nat)
    requires CaughtUp(b, f, p, q, ss) && c < 256
    ensures Positions(p, |b|) && Positions(q, |b|) && Distinct(BothEnds(b, p, q, c))
    ensures forall i {:trigger BothEnds(b, p, q, c)[i]} :: 0 <= i < |BothEnds(b, p, q, c)| ==> HasKey(b, BothEnds(b, p, q, c)[i], 256 * c + ss)
  {
    hide BucketStart, Preds, Cmp, FromEnds, Grown, Region;
    BothDistinct(b, p, q, ss, c);
  }

  lemma StillDistinct(b: seq<byte>, f: seq<nat>, g: seq<nat>, bigDone: seq<bool>, ss: nat, p: seq<nat>, q: seq<nat>, k: nat, l: nat)
    requires CaughtUp(b, f, p, q, ss) && !Constant(b, ss) && Positions(p, |b|) && Positions(q, |b|) && Scanned(b, f, g, bigDone, ss, p, q)
    requires k < l < |b|
    ensures g[k] != g[l]
  {
    hide BucketStart, Preds, Cmp, CaughtUp, Constant, Written;
    StillInBucket(b, f, g, bigDone, ss, p, q, k);
    StillInBucket(b, f, g, bigDone, ss, p, q, l);
    HomeBucket(b, f, p, q, ss, k);
    HomeBucket(b, f, p, q, ss, l);
    var s := Key(b, f[k]);
    if Key(b, f[l]) == s {
      if s % 256 != ss || bigDone[s / 256] {
        assert Kept(b, f, g, s);
        OrderDistinct(b, f, p, q, ss, k, l);
      } else {
        var c := s / 256;
        Full(b, f, p, q, ss, c);
        assert s == 256 * c + ss;
        FromSource(b, f, g, ss, c, p, q, k);
        FromSource(b, f, g, ss, c, p, q, l);
        BothKeys(b, f, p, q, ss, c);
        assert Source(b, ss, c, p, q, k) != Source(b, ss, c, p, q, l);
      }
    }
  }

  lemma OrderDistinct(b: seq<byte>, f: seq<nat>, p: seq<nat>, q: seq<nat>, ss: nat, k: nat, l: nat)
    requires CaughtUp(b, f, p, q, ss) && k < l < |b|
    ensures |f| == |b| && f[k] != f[l]
  {
  }

  /** The block is not constant: the scan has synthesised all buckets. */
  lemma ScanDone(b: seq<byte>, f: seq<nat>, g: seq<nat>, bigDone: seq<bool>, ss: nat, p: seq<nat>, q: seq<nat>)
    requires CaughtUp(b, f, p, q, ss) && !Constant(b, ss) && Positions(p, |b|) && Positions(q, |b|) && Scanned(b, f, g, bigDone, ss, p, q)
    ensures Synthesised(b, f, g, bigDone, ss)
  {
    hide BucketStart, Preds, Cmp, Constant, Written, SmallOrdered, Grown, Region, FromEnds;
    forall k | 0 <= k < |b| ensures InBucket(b, g[k], k) { StillInBucket(b, f, g, bigDone, ss, p, q, k); }
    forall k, l | 0 <= k < l < |b| ensures g[k] != g[l] { StillDistinct(b, f, g, bigDone, ss, p, q, k, l); }
    forall c: nat | c < 256 && !bigDone[c] ensures SmallOrdered(b, g, 256 * c + ss) {
      Full(b, f, p, q, ss, c);
      FullOrdered(b, f, g, ss, c, p, q);
    }
  }

  // ---------- A constant block ----------

  lemma {:induction false} NothingGrows(b: seq<byte>, p: seq<nat>, ss: nat)
    requires Positions(p, |b|) && Grown(b, [], p, ss)
    ensures p == []
    decreases |p|
  {
    if p != [] { NothingGrows(b, p[..|p| - 1], ss); }
  }

  lemma ConstantEqual(b: seq<byte>, ss: nat, x: nat, y: nat)
    requires Constant(b, ss) && x < |b| && y < |b|
    ensures NotLarger(b, x, y)
  {
    SameRun(b, x, y, ss, |b|);
  }

  /** All bytes are ss: nothing is scanned and nothing changes. */
  lemma ConstantDone(b: seq<byte>, f: seq<nat>, g: seq<nat>, bigDone: seq<bool>, ss: nat, p: seq<nat>, q: seq<nat>)
    requires CaughtUp(b, f, p, q, ss) && Constant(b, ss) && Scanned(b, f, g, bigDone, ss, p, q) && !bigDone[ss]
    ensures p == [] && q == [] && Synthesised(b, f, g, bigDone, ss)
    ensures SmallStart(b, ss, ss) == 0 && SmallEnd(b, ss, ss) == |b|
  {
    hide BucketStart, Cmp, FromEnds, Grown, Region;
    ConstantEnds(b, f, p, q, ss);
    NothingGrows(b, p, ss);
    NothingGrows(b, q, ss);
    ConstantBucket(b, f, p, q, ss);
    assert Written(b, f, g, ss, ss, p, q);
    assert forall k :: 0 <= k < |b| ==> g[k] == f[k];
    assert g == f;
    forall c: nat | c < 256 && !bigDone[c] ensures SmallOrdered(b, g, 256 * c + ss) {
      Bounds(b, ss, c);
      forall k, l | SmallStart(b, ss, c) <= k < l < SmallEnd(b, ss, c) ensures InOrder(b, g, |b|, k, l) {
        ConstantEqual(b, ss, g[k], g[l]);
      }
    }
  }

  lemma ConstantEnds(b: seq<byte>, f: seq<nat>, p: seq<nat>, q: seq<nat>, ss: nat)
    requires CaughtUp(b, f, p, q, ss) && Constant(b, ss)
    ensures Lower(b, f, ss) == [] && Upper(b, f, ss) == []
  {
    hide BucketStart, Cmp, FromEnds, Grown, Region, EndsOrdered;
    if BigStart(b, ss) < SmallStart(b, ss, ss) { BigKey(b, f, ss, BigStart(b, ss)); }
    if SmallEnd(b, ss, ss) < BigEnd(b, ss) { BigKey(b, f, ss, SmallEnd(b, ss, ss)); }
  }

  /** There is one small bucket. */
  lemma ConstantBucket(b: seq<byte>, f: seq<nat>, p: seq<nat>, q: seq<nat>, ss: nat)
    requires CaughtUp(b, f, p, q, ss) && Constant(b, ss)
    ensures SmallStart(b, ss, ss) == 0 && SmallEnd(b, ss, ss) == |b|
  {
    hide BucketStart, Cmp, FromEnds, Grown, Region, EndsOrdered;
    assert InBucket(b, f[0], 0) && InBucket(b, f[|b| - 1], |b| - 1);
    assert Key(b, f[0]) == 256 * ss + ss && Key(b, f[|b| - 1]) == 256 * ss + ss;
  }

  // ---------- Step 2 ----------

  /** Where the next predecessor goes, from either end. */
  ghost predicate Counters(b: seq<byte>, copyStart: seq<nat>, copyEnd: seq<int>, bigDone: seq<bool>, ss: nat, p: seq<nat>, q: seq<nat>)
    requires Positions(p, |b|) && Positions(q, |b|)
  {
    && |copyStart| == |copyEnd| == |bigDone| == 256
    && forall c :: 0 <= c < 256 && !bigDone[c] ==>
         && copyStart[c] == SmallStart(b, ss, c) + |Preds(b, p, c)|
         && copyEnd[c] == SmallEnd(b, ss, c) - 1 - |Preds(b, q, c)|
  }

  lemma CountersUp(b: seq<byte>, copyStart: seq<nat>, copyEnd: seq<int>, bigDone: seq<bool>, ss: nat, p: seq<nat>, q: seq<nat>, x: nat)
    requires x < |b| && Positions(p, |b|) && Positions(q, |b|) && Positions(p + [x], |b|) && Counters(b, copyStart, copyEnd, bigDone, ss, p, q)
    ensures var c := b[Previous(x, |b|)];
            Counters(b, if bigDone[c] then copyStart else copyStart[c := copyStart[c] + 1], copyEnd, bigDone, ss, p + [x], q)
  {
    hide Preds, BucketStart;
    forall c | 0 <= c < 256 ensures |Preds(b, p + [x], c)| == |Preds(b, p, c)| + if b[Previous(x, |b|)] == c then 1 else 0 {
      PredsNext(b, p, x, c);
    }
  }

  lemma CountersDown(b: seq<byte>, copyStart: seq<nat>, copyEnd: seq<int>, bigDone: seq<bool>, ss: nat, p: seq<nat>, q: seq<nat>, x: nat)
    requires x < |b| && Positions(p, |b|) && Positions(q, |b|) && Positions(q + [x], |b|) && Counters(b, copyStart, copyEnd, bigDone, ss, p, q)
    ensures var c := b[Previous(x, |b|)];
            Counters(b, copyStart, if bigDone[c] then copyEnd else copyEnd[c := copyEnd[c] - 1], bigDone, ss, p, q + [x])
  {
    hide Preds, BucketStart;
    forall c | 0 <= c < 256 ensures |Preds(b, q + [x], c)| == |Preds(b, q, c)| + if b[Previous(x, |b|)] == c then 1 else 0 {
      PredsNext(b, q, x, c);
    }
  }

  /** A scan under way: f is what it started from. */
  ghost predicate Scanning(b: seq<byte>, f: seq<nat>, g: seq<nat>, bigDone: seq<bool>, ss: nat, p: seq<nat>, q: seq<nat>) {
    && |b| >= 2 && ss < 256 && Bucketed(b, f) && EndsOrdered(b, f, ss) && Positions(p, |b|) && Positions(q, |b|)
    && |f| == |g| == |b| && |bigDone| == 256 && Scanned(b, f, g, bigDone, ss, p, q) && !bigDone[ss]
    && BigStart(b, ss) <= SmallStart(b, ss, ss) <= SmallEnd(b, ss, ss) <= BigEnd(b, ss) <= |f|
    && Grown(b, Lower(b, f, ss), p, ss) && Grown(b, Upper(b, f, ss), q, ss)
  }

  lemma ScanningEnds(b: seq<byte>, f: seq<nat>, g: seq<nat>, bigDone: seq<bool>, ss: nat, p: seq<nat>, q: seq<nat>)
    requires Scanning(b, f, g, bigDone, ss, p, q)
    ensures Seeds(b, Lower(b, f, ss), ss, true) && Seeds(b, Upper(b, f, ss), ss, false) && FromEnds(b, p, q, ss)
  {
    hide BucketStart, Cmp, Seeds, FromEnds, Grown, Region, EndsOrdered, Scanned;
    LowerSeeds(b, f, ss);
    UpperSeeds(b, f, ss);
    EndsFrom(b, Lower(b, f, ss), Upper(b, f, ss), p, q, ss);
  }

  /** The next entry from the lower end is known. */
  lemma ReadUp(b: seq<byte>, f: seq<nat>, g: seq<nat>, bigDone: seq<bool>, ss: nat, p: seq<nat>, q: seq<nat>)
    requires Scanning(b, f, g, bigDone, ss, p, q) && |p| < |Region(b, Lower(b, f, ss), p, ss)|
    ensures var k := BigStart(b, ss) + |p|; k < |b| == |g| && g[k] == Region(b, Lower(b, f, ss), p, ss)[|p|]
    ensures var x := Region(b, Lower(b, f, ss), p, ss)[|p|]; x < |b| && Positions(p + [x], |b|) && Grown(b, Lower(b, f, ss), p + [x], ss)
  {
    hide BucketStart, Cmp, Preds, EndsOrdered;
    var k, x := BigStart(b, ss) + |p|, Region(b, Lower(b, f, ss), p, ss)[|p|];
    assert Written(b, f, g, ss, ss, p, q);
    if |p| < |Lower(b, f, ss)| {
      KeptOutside(b, f, g, bigDone, ss, p, q, k);
    } else {
      var i := |p| - |Lower(b, f, ss)|;
      assert g[SmallStart(b, ss, ss) + i] == Preds(b, p, ss)[i];
    }
    assert (p + [x])[..|p|] == p;
  }

  lemma ReadDown(b: seq<byte>, f: seq<nat>, g: seq<nat>, bigDone: seq<bool>, ss: nat, p: seq<nat>, q: seq<nat>)
    requires Scanning(b, f, g, bigDone, ss, p, q) && |q| < |Region(b, Upper(b, f, ss), q, ss)|
    ensures var k := BigEnd(b, ss) - 1 - |q|; 0 <= k < |b| == |g| && g[k] == Region(b, Upper(b, f, ss), q, ss)[|q|]
    ensures var x := Region(b, Upper(b, f, ss), q, ss)[|q|]; x < |b| && Positions(q + [x], |b|) && Grown(b, Upper(b, f, ss), q + [x], ss)
  {
    hide BucketStart, Cmp, Preds, EndsOrdered;
    var k, x := BigEnd(b, ss) - 1 - |q|, Region(b, Upper(b, f, ss), q, ss)[|q|];
    assert Written(b, f, g, ss, ss, p, q);
    if |q| < |Upper(b, f, ss)| {
      KeptOutside(b, f, g, bigDone, ss, p, q, k);
    } else {
      var i := |q| - |Upper(b, f, ss)|;
      assert g[SmallEnd(b, ss, ss) - 1 - i] == Preds(b, q, ss)[i];
    }
    assert (q + [x])[..|q|] == q;
  }

  /** The big bucket outside [ss, ss] is not written. */
  lemma KeptOutside(b: seq<byte>, f: seq<nat>, g: seq<nat>, bigDone: seq<bool>, ss: nat, p: seq<nat>, q: seq<nat>, k: nat)
    requires Scanning(b, f, g, bigDone, ss, p, q) && BigStart(b, ss) <= k < BigEnd(b, ss)
    requires k < SmallStart(b, ss, ss) || SmallEnd(b, ss, ss) <= k
    ensures k < |b| == |g| == |f| && g[k] == f[k] < |b|
  {
    hide BucketStart, Cmp, Preds, EndsOrdered, Grown, Written;
    BigKey(b, f, ss, k);
    assert InBucket(b, f[k], k);
    assert Kept(b, f, g, Key(b, f[k]));
  }

  /** One predecessor, written or skipped, keeps the scan going. */
  lemma ScanningUp(b: seq<byte>, f: seq<nat>, g: seq<nat>, bigDone: seq<bool>, ss: nat, p: seq<nat>, q: seq<nat>, x: nat)
    requires Scanning(b, f, g, bigDone, ss, p, q) && |p| < |Region(b, Lower(b, f, ss), p, ss)| && x == Region(b, Lower(b, f, ss), p, ss)[|p|]
    ensures x < |b| && Positions(p + [x], |b|)
    ensures var y := Previous(x, |b|); var c := b[y]; var k := SmallStart(b, ss, c) + |Preds(b, p, c)|;
            && (bigDone[c] ==> Scanning(b, f, g, bigDone, ss, p + [x], q))
            && (!bigDone[c] ==> k < |b| && Scanning(b, f, g[k := y], bigDone, ss, p + [x], q))
  {
    hide BucketStart, Cmp, Preds, EndsOrdered, Grown, Region, Scanned, FromEnds, Seeds, Lower, Upper, Bucketed, SmallStart, SmallEnd, BigStart, BigEnd, Previous;
    ReadUp(b, f, g, bigDone, ss, p, q);
    ScanningEnds(b, f, g, bigDone, ss, p, q);
    EndsFrom(b, Lower(b, f, ss), Upper(b, f, ss), p + [x], q, ss);
    if bigDone[b[Previous(x, |b|)]] {
      SkippedUp(b, f, g, bigDone, ss, p, q, x);
    } else {
      ScannedUp(b, f, g, bigDone, ss, p, q, x);
    }
  }

  lemma ScanningDown(b: seq<byte>, f: seq<nat>, g: seq<nat>, bigDone: seq<bool>, ss: nat, p: seq<nat>, q: seq<nat>, x: nat)
    requires Scanning(b, f, g, bigDone, ss, p, q) && |q| < |Region(b, Upper(b, f, ss), q, ss)| && x == Region(b, Upper(b, f, ss), q, ss)[|q|]
    ensures x < |b| && Positions(q + [x], |b|)
    ensures var y := Previous(x, |b|); var c := b[y]; var k := SmallEnd(b, ss, c) - 1 - |Preds(b, q, c)|;
            && (bigDone[c] ==> Scanning(b, f, g, bigDone, ss, p, q + [x]))
            && (!bigDone[c] ==> 0 <= k < |b| && Scanning(b, f, g[k := y], bigDone, ss, p, q + [x]))
  {
    hide BucketStart, Cmp, Preds, EndsOrdered, Grown, Region, Scanned, FromEnds, Seeds, Lower, Upper, Bucketed, SmallStart, SmallEnd, BigStart, BigEnd, Previous;
    ReadDown(b, f, g, bigDone, ss, p, q);
    ScanningEnds(b, f, g, bigDone, ss, p, q);
    EndsFrom(b, Lower(b, f, ss), Upper(b, f, ss), p, q + [x], ss);
    if bigDone[b[Previous(x, |b|)]] {
      SkippedDown(b, f, g, bigDone, ss, p, q, x);
    } else {
      ScannedDown(b, f, g, bigDone, ss, p, q, x);
    }
  }

  lemma RegionSizes(b: seq<byte>, f: seq<nat>, g: seq<nat>, bigDone: seq<bool>, ss: nat, p: seq<nat>, q: seq<nat>)
    requires Scanning(b, f, g, bigDone, ss, p, q)
    ensures |Region(b, Lower(b, f, ss), p, ss)| == SmallStart(b, ss, ss) - BigStart(b, ss) + |Preds(b, p, ss)|
    ensures |Region(b, Upper(b, f, ss), q, ss)| == BigEnd(b, ss) - SmallEnd(b, ss, ss) + |Preds(b, q, ss)|
    ensures p <= Region(b, Lower(b, f, ss), p, ss) && q <= Region(b, Upper(b, f, ss), q, ss)
  {
    hide BucketStart, Cmp, Preds, EndsOrdered, Grown, Bucketed, Seeds, FromEnds, Scanned;
    ScanningEnds(b, f, g, bigDone, ss, p, q);
    EndsFrom(b, Lower(b, f, ss), Upper(b, f, ss), p, q, ss);
  }

  /** The state of a scan, with its counters. */
  ghost predicate Progress(b: seq<byte>, f: seq<nat>, g: seq<nat>, copyStart: seq<nat>, copyEnd: seq<int>, bigDone: seq<bool>, ss: nat, p: seq<nat>, q: seq<nat>) {
    Scanning(b, f, g, bigDone, ss, p, q) && Counters(b, copyStart, copyEnd, bigDone, ss, p, q)
  }

  lemma ProgressSizes(b: seq<byte>, f: seq<nat>, g: seq<nat>, copyStart: seq<nat>, copyEnd: seq<int>, bigDone: seq<bool>, ss: nat, p: seq<nat>, q: seq<nat>)
    requires Progress(b, f, g, copyStart, copyEnd, bigDone, ss, p, q)
    ensures |copyStart| == |copyEnd| == |bigDone| == 256 && |b| == |g| == |f| && ss < 256 && Positions(p, |b|) && Positions(q, |b|)
    ensures BigStart(b, ss) <= SmallStart(b, ss, ss) <= SmallEnd(b, ss, ss) <= BigEnd(b, ss) <= |b|
    ensures copyStart[ss] == BigStart(b, ss) + |Region(b, Lower(b, f, ss), p, ss)|
    ensures copyEnd[ss] == BigEnd(b, ss) - 1 - |Region(b, Upper(b, f, ss), q, ss)|
    ensures p <= Region(b, Lower(b, f, ss), p, ss) && q <= Region(b, Upper(b, f, ss), q, ss)
    ensures copyStart[ss] <= |b| && copyEnd[ss] >= -1
  {
    hide BucketStart, Cmp, Preds, EndsOrdered, Grown, Bucketed, Seeds, FromEnds, Lower, Upper, Region;
    RegionSizes(b, f, g, bigDone, ss, p, q);
    assert Written(b, f, g, ss, ss, p, q);
  }

  /** The next entry from the lower end, and what becomes of its predecessor. */
  lemma ProgressUp(b: seq<byte>, f: seq<nat>, g: seq<nat>, copyStart: seq<nat>, copyEnd: seq<int>, bigDone: seq<bool>, ss: nat, p: seq<nat>, q: seq<nat>)
    requires Progress(b, f, g, copyStart, copyEnd, bigDone, ss, p, q) && |p| < |Region(b, Lower(b, f, ss), p, ss)|
    ensures BigStart(b, ss) + |p| < |g| == |b| && |copyStart| == |bigDone| == 256
    ensures var x := g[BigStart(b, ss) + |p|];
            x < |b| && Positions(p + [x], |b|) &&
            var y := Previous(x, |b|); var c := b[y];
            if bigDone[c] then Progress(b, f, g, copyStart, copyEnd, bigDone, ss, p + [x], q)
            else copyStart[c] < |b| && Progress(b, f, g[copyStart[c] := y], copyStart[c := copyStart[c] + 1], copyEnd, bigDone, ss, p + [x], q)
  {
    hide BucketStart, Cmp, Preds, Scanning, Region, Lower, Upper, SmallStart, SmallEnd, BigStart, BigEnd, Previous;
    ProgressSizes(b, f, g, copyStart, copyEnd, bigDone, ss, p, q);
    ReadUp(b, f, g, bigDone, ss, p, q);
    var x := g[BigStart(b, ss) + |p|];
    ScanningUp(b, f, g, bigDone, ss, p, q, x);
    CountersUp(b, copyStart, copyEnd, bigDone, ss, p, q, x);
  }

  lemma ProgressDown(b: seq<byte>, f: seq<nat>, g: seq<nat>, copyStart: seq<nat>, copyEnd: seq<int>, bigDone: seq<bool>, ss: nat, p: seq<nat>, q: seq<nat>)
    requires Progress(b, f, g, copyStart, copyEnd, bigDone, ss, p, q) && |q| < |Region(b, Upper(b, f, ss), q, ss)|
    ensures 0 <= BigEnd(b, ss) - 1 - |q| < |g| == |b| && |copyEnd| == |bigDone| == 256
    ensures var x := g[BigEnd(b, ss) - 1 - |q|];
            x < |b| && Positions(q + [x], |b|) &&
            var y := Previous(x, |b|); var c := b[y];
            if bigDone[c] then Progress(b, f, g, copyStart, copyEnd, bigDone, ss, p, q + [x])
            else 0 <= copyEnd[c] < |b| && Progress(b, f, g[copyEnd[c] := y], copyStart, copyEnd[c := copyEnd[c] - 1], bigDone, ss, p, q + [x])
  {
    hide BucketStart, Cmp, Preds, Scanning, Region, Lower, Upper, SmallStart, SmallEnd, BigStart, BigEnd, Previous;
    ProgressSizes(b, f, g, copyStart, copyEnd, bigDone, ss, p, q);
    ReadDown(b, f, g, bigDone, ss, p, q);
    var x := g[BigEnd(b, ss) - 1 - |q|];
    ScanningDown(b, f, g, bigDone, ss, p, q, x);
    CountersDown(b, copyStart, copyEnd, bigDone, ss, p, q, x);
  }

  /** From the lower end: every predecessor whose bucket is not done goes to the
      next place from that bucket's start. */
  method ScanUp(ptr: array<nat>, block: array<byte>, nblock: nat, copyStart: array<nat>, bigDone: array<bool>, ss: nat, start: nat,
                ghost f: seq<nat>, ghost copyEnd: seq<int>) returns (ghost p: seq<nat>)
    requires 0 < nblock <= block.Length && ptr != copyStart && start == BigStart(block[..nblock], ss)
    requires Progress(block[..nblock], f, ptr[..], copyStart[..], copyEnd, bigDone[..], ss, [], [])
    modifies ptr, copyStart
    ensures Positions(p, nblock) && Progress(block[..nblock], f, ptr[..], copyStart[..], copyEnd, bigDone[..], ss, p, [])
    ensures |p| == copyStart[ss] - start
  {
    hide Progress, Preds, Region, Lower, Upper, SmallStart, SmallEnd, BigStart, BigEnd;
    ghost var b := block[..nblock];
    var j: nat := start;
    p := [];
    ProgressSizes(b, f, ptr[..], copyStart[..], copyEnd, bigDone[..], ss, p, []);
    while j < copyStart[ss]
      invariant copyStart.Length == bigDone.Length == 256 && ss < 256 && ptr.Length == nblock && j == start + |p| <= copyStart[ss] <= nblock
      invariant Positions(p, nblock) && Progress(b, f, ptr[..], copyStart[..], copyEnd, bigDone[..], ss, p, [])
      decreases nblock - j
    {
      ghost var g, s := ptr[..], copyStart[..];
      ProgressSizes(b, f, g, s, copyEnd, bigDone[..], ss, p, []);
      ProgressUp(b, f, g, s, copyEnd, bigDone[..], ss, p, []);
      p := p + [ptr[j]];
      var k: nat := if ptr[j] == 0 then nblock - 1 else ptr[j] - 1;
      var c1 := block[k];
      if !bigDone[c1] {
        ptr[copyStart[c1]] := k;
        copyStart[c1] := copyStart[c1] + 1;
      }
      j := j + 1;
      ProgressSizes(b, f, ptr[..], copyStart[..], copyEnd, bigDone[..], ss, p, []);
    }
  }

  /** From the upper end: to the next place from that bucket's end. */
  method ScanDown(ptr: array<nat>, block: array<byte>, nblock: nat, copyEnd: array<int>, bigDone: array<bool>, ss: nat, end: nat,
                  ghost f: seq<nat>, ghost copyStart: seq<nat>, ghost p: seq<nat>) returns (ghost q: seq<nat>)
    requires 0 < nblock <= block.Length && end == BigEnd(block[..nblock], ss)
    requires Progress(block[..nblock], f, ptr[..], copyStart, copyEnd[..], bigDone[..], ss, p, [])
    modifies ptr, copyEnd
    ensures Positions(q, nblock) && Progress(block[..nblock], f, ptr[..], copyStart, copyEnd[..], bigDone[..], ss, p, q)
    ensures |q| == end - 1 - copyEnd[ss]
  {
    hide Progress, Preds, Region, Lower, Upper, SmallStart, SmallEnd, BigStart, BigEnd;
    ghost var b := block[..nblock];
    var j: int := end - 1;
    q := [];
    ProgressSizes(b, f, ptr[..], copyStart, copyEnd[..], bigDone[..], ss, p, q);
    while j > copyEnd[ss]
      invariant copyEnd.Length == bigDone.Length == 256 && ss < 256 && ptr.Length == nblock && end <= nblock
      invariant j == end - 1 - |q| >= copyEnd[ss] >= -1
      invariant Positions(q, nblock) && Progress(b, f, ptr[..], copyStart, copyEnd[..], bigDone[..], ss, p, q)
      decreases j + 1
    {
      ghost var g, e := ptr[..], copyEnd[..];
      ProgressSizes(b, f, g, copyStart, e, bigDone[..], ss, p, q);
      ProgressDown(b, f, g, copyStart, e, bigDone[..], ss, p, q);
      q := q + [ptr[j]];
      var k: nat := if ptr[j] == 0 then nblock - 1 else ptr[j] - 1;
      var c1 := block[k];
      if !bigDone[c1] {
        ptr[copyEnd[c1]] := k;
        copyEnd[c1] := copyEnd[c1] - 1;
      }
      j := j - 1;
      ProgressSizes(b, f, ptr[..], copyStart, copyEnd[..], bigDone[..], ss, p, q);
    }
  }

  /** Both scans are over: everything is synthesised, and the two scans of the
      bucket itself have met, or the block is constant (AssertH 1007). */
  lemma ScansMeet(b: seq<byte>, f: seq<nat>, g: seq<nat>, copyStart: seq<nat>, copyEnd: seq<int>, bigDone: seq<bool>, ss: nat, p: seq<nat>, q: seq<nat>)
    requires Progress(b, f, g, copyStart, copyEnd, bigDone, ss, p, q) && ss < |copyStart| && ss < |copyEnd|
    requires |p| == copyStart[ss] - BigStart(b, ss) && |q| == BigEnd(b, ss) - 1 - copyEnd[ss]
    ensures Synthesised(b, f, g, bigDone, ss)
    ensures copyStart[ss] == copyEnd[ss] + 1 || (copyStart[ss] == 0 && copyEnd[ss] == |b| - 1)
  {
    hide BucketStart, Cmp, Preds, EndsOrdered, Grown, Bucketed, Seeds, FromEnds, Scanned, Lower, Upper, Region, Constant;
    ProgressSizes(b, f, g, copyStart, copyEnd, bigDone, ss, p, q);
    ScanningEnds(b, f, g, bigDone, ss, p, q);
    assert CaughtUp(b, f, p, q, ss);
    hide CaughtUp;
    if Constant(b, ss) {
      ConstantDone(b, f, g, bigDone, ss, p, q);
      NoPreds(b, ss);
    } else {
      ScanDone(b, f, g, bigDone, ss, p, q);
      Full(b, f, p, q, ss, ss);
    }
  }

  lemma NoPreds(b: seq<byte>, c: nat)
    ensures Preds(b, [], c) == []
  {
  }

  /** Step 2 for big bucket ss. */
  method ScanBigBucket(ptr: array<nat>, block: array<byte>, nblock: nat, ftab: array<nat>, bigDone: array<bool>, ss: nat)
    requires 2 <= nblock <= block.Length && nblock < SETMASK && ptr != ftab && bigDone.Length == 256 && ss < 256 && !bigDone[ss]
    requires Bucketed(block[..nblock], ptr[..]) && Starts(block[..nblock], ftab[..]) && EndsOrdered(block[..nblock], ptr[..], ss)
    modifies ptr
    ensures Synthesised(block[..nblock], old(ptr[..]), ptr[..], bigDone[..], ss)
  {
    hide BucketStart, Bucketed, EndsOrdered, Progress, Synthesised;
    ghost var b, f := block[..nblock], ptr[..];
    var copyStart := new nat[256];
    var copyEnd := new int[256];
    for j := 0 to 256
      invariant fresh(copyStart) && fresh(copyEnd) && ptr[..] == f
      invariant forall c :: 0 <= c < j ==> copyStart[c] == SmallStart(b, ss, c) && copyEnd[c] == SmallEnd(b, ss, c) - 1
    {
      copyStart[j] := ftab[j * 256 + ss] % SETMASK;
      copyEnd[j] := ftab[j * 256 + ss + 1] % SETMASK - 1;
    }
    ScanStarts(b, f, copyStart[..], copyEnd[..], bigDone[..], ss);
    ghost var e := copyEnd[..];
    ghost var p := ScanUp(ptr, block, nblock, copyStart, bigDone, ss, ftab[ss * 256] % SETMASK, f, e);
    ghost var q := ScanDown(ptr, block, nblock, copyEnd, bigDone, ss, ftab[(ss + 1) * 256] % SETMASK, f, copyStart[..], p);
    ScansMeet(b, f, ptr[..], copyStart[..], copyEnd[..], bigDone[..], ss, p, q);
    assert copyStart[ss] == copyEnd[ss] + 1 || (copyStart[ss] == 0 && copyEnd[ss] == nblock - 1);
  }

  lemma ScanStarts(b: seq<byte>, f: seq<nat>, copyStart: seq<nat>, copyEnd: seq<int>, bigDone: seq<bool>, ss: nat)
    requires |b| >= 2 && ss < 256 && Bucketed(b, f) && EndsOrdered(b, f, ss) && |bigDone| == |copyStart| == |copyEnd| == 256 && !bigDone[ss]
    requires forall c :: 0 <= c < 256 ==> copyStart[c] == SmallStart(b, ss, c) && copyEnd[c] == SmallEnd(b, ss, c) - 1
    ensures Progress(b, f, f, copyStart, copyEnd, bigDone, ss, [], [])
  {
    hide BucketStart, EndsOrdered, Scanned;
    NothingScanned(b, f, bigDone, ss);
    Bounds(b, ss, ss);
  }
}
