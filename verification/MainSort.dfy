/**
 mainSort of blocksort.c: radix sort on two bytes, then big bucket by big bucket
 the remaining small buckets are sorted or synthesised.
 */
module MainSort {
  import opened Permutation
  import opened Rotation
  import opened MainCompare
  import opened FallbackQSort
  import opened MainQSort
  import opened MainRadix
  import opened MainScan
  import opened RunningOrder

  /** A marked entry of ftab: its small bucket is in order. */
  predicate Marked(ftab: seq<nat>, s: nat) { s < |ftab| && ftab[s] / SETMASK % 2 == 1 }

  /** ftab[s] |= SETMASK */
  function WithMark(v: nat): (r: nat)
    ensures r % SETMASK == v % SETMASK && r / SETMASK % 2 == 1
  {
    if v / SETMASK % 2 == 1 then v else v + SETMASK
  }

  /** Entries that are marked tell the truth. */
  ghost predicate Truthful(b: seq<byte>, ptr: seq<nat>, ftab: seq<nat>)
    requires b != [] && |ptr| == |b|
  {
    forall s: nat :: s < PAIRS && Marked(ftab, s) ==> SmallOrdered(b, ptr, s)
  }

  /** Big buckets that are done have all their small buckets marked, and those of
      their byte in all others. */
  ghost predicate DoneMarked(ftab: seq<nat>, bigDone: seq<bool>) {
    |bigDone| == 256 && forall s: nat :: s < PAIRS && (bigDone[s / 256] || bigDone[s % 256]) ==> Marked(ftab, s)
  }

  /** The state between big buckets. */
  ghost predicate Sorting(b: seq<byte>, ptr: seq<nat>, ftab: seq<nat>, bigDone: seq<bool>)
    requires b != []
  {
    && Bucketed(b, ptr) && Starts(b, ftab) && Truthful(b, ptr, ftab) && DoneMarked(ftab, bigDone)
  }

  // ---------- Step 1 ----------

  /** Small bucket s may be permuted: the others do not notice. */
  lemma OthersOrdered(b: seq<byte>, f: seq<nat>, g: seq<nat>, s: nat, t: nat)
    requires b != [] && |f| == |g| == |b| && s != t && RangePerm(f, g, BucketStart(b, s), BucketStart(b, s + 1)) && SmallOrdered(b, f, t)
    ensures SmallOrdered(b, g, t)
  {
    hide BucketStart, Cmp;
    var lo, hi := BucketStart(b, t), BucketStart(b, t + 1);
    forall k, l | lo <= k < l < hi ensures InOrder(b, g, |b|, k, l) {
      Elsewhere(b, f, g, s, t, k);
      Elsewhere(b, f, g, s, t, l);
      assert InOrder(b, f, |b|, k, l);
    }
  }

  lemma Elsewhere(b: seq<byte>, f: seq<nat>, g: seq<nat>, s: nat, t: nat, k: nat)
    requires |f| == |g| == |b| && s != t && RangePerm(f, g, BucketStart(b, s), BucketStart(b, s + 1))
    requires BucketStart(b, t) <= k < BucketStart(b, t + 1) && k < |b|
    ensures f[k] == g[k]
  {
    hide BucketStart;
    if BucketStart(b, s) <= k < BucketStart(b, s + 1) { SmallApart(b, s, t, k); }
    OutsideRange(f, g, BucketStart(b, s), BucketStart(b, s + 1), k);
  }

  lemma OutsideRange(f: seq<nat>, g: seq<nat>, lo: int, hi: int, k: nat)
    requires RangePerm(f, g, lo, hi) && k < |f| && (k < lo || hi <= k)
    ensures f[k] == g[k]
  {
    if k < lo { assert f[..lo][k] == g[..lo][k]; } else { assert f[hi..][k - hi] == g[hi..][k - hi]; }
  }

  /** A permutation of a small bucket keeps the buckets. */
  lemma StillBucketed(b: seq<byte>, f: seq<nat>, g: seq<nat>, s: nat)
    requires b != [] && s < PAIRS && Bucketed(b, f) && |g| == |f| && RangePerm(f, g, BucketStart(b, s), BucketStart(b, s + 1))
    ensures Bucketed(b, g)
  {
    hide BucketStart, Key;
    var lo, hi := BucketStart(b, s), BucketStart(b, s + 1);
    RangePermWhole(f, g, lo, hi);
    SameContents(f, g);
    forall k | 0 <= k < |g| ensures InBucket(b, g[k], k) {
      if lo <= k < hi {
        var j := RangePermSource(f, g, lo, hi, k);
        BucketKey(b, f, s, j);
      } else {
        OutsideRange(f, g, lo, hi, k);
        assert InBucket(b, f[k], k);
      }
    }
  }

  /** Positions of a small bucket share two bytes. */
  lemma BucketShared(b: seq<byte>, f: seq<nat>, s: nat)
    requires |b| >= 2 && s < PAIRS && Bucketed(b, f) && BucketStart(b, s) <= BucketStart(b, s + 1) <= |f|
    ensures Shared(b, f, BucketStart(b, s), BucketStart(b, s + 1), 2)
  {
    hide BucketStart, Cmp;
    forall x, y | BucketStart(b, s) <= x < BucketStart(b, s + 1) && BucketStart(b, s) <= y < BucketStart(b, s + 1) ensures Alike(b, f, 2, x, y) {
      BucketKey(b, f, s, x);
      BucketKey(b, f, s, y);
      SameKey(b, f[x], f[y]);
    }
  }

  lemma SameKey(b: seq<byte>, x: nat, y: nat)
    requires |b| >= 2 && x < |b| && y < |b| && Key(b, x) == Key(b, y)
    ensures Cmp(b, x, y, 2) == 0
  {
    hide Cmp;
    CmpNone(b, x, y);
    WrapTwice(x + 1, |b|);
    WrapTwice(y + 1, |b|);
    OneMore(b, x, y, 0);
    OneMore(b, x, y, 1);
  }

  // ---------- What the small buckets can cost ----------

  /** How many positions the small buckets from s up to t hold. */
  ghost function Between(b: seq<byte>, s: nat, t: nat): nat
    requires s <= t
  {
    BucketsFollow(b, s, t);
    BucketStart(b, t) - BucketStart(b, s)
  }

  /** Sorting them one by one costs no more than sorting them together. */
  lemma LoadGrows(b: seq<byte>, s: nat, t: nat, u: nat)
    requires s <= t <= u
    ensures Comparisons(Between(b, s, t)) + Comparisons(Between(b, t, u)) <= Comparisons(Between(b, s, u))
  {
    hide BucketStart, Meetings;
    MeetingsAdd(Between(b, s, t), Between(b, t, u));
  }

  /** What the big buckets up to c that are not done can cost. */
  ghost function Waiting(b: seq<byte>, bigDone: seq<bool>, c: nat): nat
    requires c <= |bigDone|
  {
    if c == 0 then 0
    else Waiting(b, bigDone, c - 1) + if bigDone[c - 1] then 0 else Comparisons(Between(b, 256 * (c - 1), 256 * c))
  }

  lemma {:induction false} WaitingAtMost(b: seq<byte>, bigDone: seq<bool>, c: nat)
    requires c <= |bigDone|
    ensures Waiting(b, bigDone, c) <= Comparisons(Between(b, 0, 256 * c))
  {
    hide BucketStart, Between, Comparisons;
    if c > 0 {
      WaitingAtMost(b, bigDone, c - 1);
      LoadGrows(b, 0, 256 * (c - 1), 256 * c);
    }
  }

  lemma {:induction false} WaitingLess(b: seq<byte>, bigDone: seq<bool>, ss: nat, c: nat)
    requires ss < |bigDone| && c <= |bigDone| && !bigDone[ss]
    ensures Waiting(b, bigDone, c) == Waiting(b, bigDone[ss := true], c) + if ss < c then Comparisons(Between(b, 256 * ss, 256 * (ss + 1))) else 0
  {
    hide Between, Comparisons;
    if c > 0 { WaitingLess(b, bigDone, ss, c - 1); }
  }

  lemma WaitingWhole(b: seq<byte>, bigDone: seq<bool>)
    requires |bigDone| == 256
    ensures Waiting(b, bigDone, 256) <= Comparisons(|b|)
  {
    hide BucketStart, Comparisons, Waiting;
    WaitingAtMost(b, bigDone, 256);
    BucketsFollow(b, 0, PAIRS);
    ComparisonsGrow(Between(b, 0, PAIRS), |b|);
  }

  lemma ComparisonsGrow(x: nat, y: nat)
    requires x <= y
    ensures Comparisons(x) <= Comparisons(y)
  {
    hide Meetings;
    MeetingsGrow(x, y);
  }

  /** Small bucket sb is sorted if it has more than one entry. */
  method SortSmall(ptr: array<nat>, block: array<byte>, quadrant: array<nat>, nblock: nat, ftab: array<nat>, sb: nat, budget0: int) returns (budget: int)
    requires N_OVERSHOOT < nblock == ptr.Length <= 900000 && nblock <= block.Length && sb < PAIRS
    requires ptr != quadrant && ptr != ftab && Workspace(block[..], quadrant[..], nblock) && budget0 >= 0
    requires Bucketed(block[..nblock], ptr[..]) && Starts(block[..nblock], ftab[..])
    modifies ptr
    ensures var b := block[..nblock];
            && Spent(b, budget0, budget, Comparisons(Between(b, sb, sb + 1))) && Bucketed(b, ptr[..]) && (budget >= 0 ==> SmallOrdered(b, ptr[..], sb))
            && forall t: nat :: t != sb && SmallOrdered(b, old(ptr[..]), t) ==> SmallOrdered(b, ptr[..], t)
  {
    hide BucketStart, Bucketed, Workspace, SmallOrdered, Shared, RangePerm, Listing, Key, Cmp, Spent, Comparisons;
    ghost var b, f := block[..nblock], ptr[..];
    SpentNone(b, budget0);
    BucketsFollow(b, sb, sb + 1);
    budget := budget0;
    var lo: nat, hi: int := ftab[sb] % SETMASK, ftab[sb + 1] % SETMASK - 1;
    if hi > lo {
      BucketedListing(b, f);
      BucketShared(b, f, sb);
      budget := QSort3Main(ptr, block, quadrant, nblock, lo, hi, 2, budget0);
      StillBucketed(b, f, ptr[..], sb);
      forall t: nat | t != sb && SmallOrdered(b, f, t) ensures SmallOrdered(b, ptr[..], t) {
        OthersOrdered(b, f, ptr[..], sb, t);
      }
      if budget >= 0 { OrderedSmall(b, ptr[..], sb); }
    } else {
      FewOrderedSmall(b, f, sb);
      SpentMost(b, budget0, budget0, 0, Comparisons(Between(b, sb, sb + 1)));
    }
  }

  lemma BucketedListing(b: seq<byte>, f: seq<nat>)
    requires Bucketed(b, f)
    ensures Listing(f, |b|) && |f| == |b|
  {
  }

  lemma OrderedSmall(b: seq<byte>, f: seq<nat>, s: nat)
    requires b != [] && |f| == |b| && BucketStart(b, s) <= BucketStart(b, s + 1) <= |f| && Ordered(b, f, BucketStart(b, s), BucketStart(b, s + 1))
    ensures SmallOrdered(b, f, s)
  {
  }

  lemma FewOrderedSmall(b: seq<byte>, f: seq<nat>, s: nat)
    requires b != [] && |f| == |b| && BucketStart(b, s) <= BucketStart(b, s + 1) <= |f| && BucketStart(b, s + 1) <= BucketStart(b, s) + 1
    ensures SmallOrdered(b, f, s)
  {
  }

  // ---------- Marks ----------

  lemma MarkedOne(b: seq<byte>, ptr: seq<nat>, ftab: seq<nat>, s: nat)
    requires b != [] && |ptr| == |b| && s < PAIRS && Starts(b, ftab) && Truthful(b, ptr, ftab) && SmallOrdered(b, ptr, s)
    ensures var ftab' := ftab[s := WithMark(ftab[s])];
            Starts(b, ftab') && Truthful(b, ptr, ftab') && Marked(ftab', s) && forall t :: Marked(ftab, t) ==> Marked(ftab', t)
  {
    hide BucketStart, SmallOrdered, WithMark;
    var ftab' := ftab[s := WithMark(ftab[s])];
    forall t: nat | t < PAIRS && Marked(ftab', t) ensures SmallOrdered(b, ptr, t) {
      if t != s { assert Marked(ftab, t); }
    }
  }

  lemma KeepsMarks(ftab: seq<nat>, ftab': seq<nat>, bigDone: seq<bool>)
    requires DoneMarked(ftab, bigDone) && forall t :: Marked(ftab, t) ==> Marked(ftab', t)
    ensures DoneMarked(ftab', bigDone)
  {
    hide Marked;
  }

  /** The first n small buckets [ss, j] are marked, but for [ss, ss]. */
  ghost predicate RowMarked(ftab: seq<nat>, ss: nat, n: nat) {
    forall s: nat :: 256 * ss <= s < 256 * ss + n && s != 257 * ss ==> Marked(ftab, s)
  }

  /** The first n small buckets [j, ss] are marked. */
  ghost predicate ColumnMarked(ftab: seq<nat>, ss: nat, n: nat) {
    forall s: nat :: s < 256 * n && s % 256 == ss ==> Marked(ftab, s)
  }

  /** Step 1: every small bucket [ss, j] with j != ss is in order and marked. */
  method CompleteBigBucket(ptr: array<nat>, block: array<byte>, quadrant: array<nat>, nblock: nat, ftab: array<nat>, ss: nat, budget0: int,
                           ghost bigDone: seq<bool>) returns (budget: int)
    requires N_OVERSHOOT < nblock == ptr.Length <= 900000 && nblock <= block.Length && ss < 256
    requires ptr != quadrant && ptr != ftab && quadrant != ftab && Workspace(block[..], quadrant[..], nblock) && budget0 >= 0
    requires Sorting(block[..nblock], ptr[..], ftab[..], bigDone)
    modifies ptr, ftab
    ensures Spent(block[..nblock], budget0, budget, Comparisons(Between(block[..nblock], 256 * ss, 256 * (ss + 1))))
    ensures budget >= 0 ==> Sorting(block[..nblock], ptr[..], ftab[..], bigDone)
    ensures budget >= 0 ==> RowMarked(ftab[..], ss, 256)
  {
    hide BucketStart, Bucketed, Workspace, Starts, Truthful, DoneMarked, SmallOrdered, WithMark, Marked, Spent, Comparisons, Between;
    ghost var b, row := block[..nblock], 256 * ss;
    budget := budget0;
    StartsSize(b, ftab[..]);
    SpentNone(b, budget0);
    SpentMost(b, budget0, budget0, 0, Comparisons(Between(b, row, row)));
    for j: nat := 0 to 256
      invariant Sorting(b, ptr[..], ftab[..], bigDone) && budget >= 0 && ftab.Length == PAIRS + 1
      invariant Spent(b, budget0, budget, Comparisons(Between(b, row, row + j)))
      invariant RowMarked(ftab[..], ss, j)
    {
      if j != ss {
        var sb := 256 * ss + j;
        ghost var t := ftab[..];
        LoadGrows(b, row, row + j, row + j + 1);
        if !Marked(ftab[..], sb) {
          ghost var f, before := ptr[..], budget;
          budget := SortSmall(ptr, block, quadrant, nblock, ftab, sb, budget);
          SpentMore(b, budget0, before, budget, Comparisons(Between(b, row, row + j)), Comparisons(Between(b, sb, sb + 1)),
                    Comparisons(Between(b, row, row + j + 1)));
          if budget < 0 {
            LoadGrows(b, row, row + j + 1, row + 256);
            SpentMost(b, budget0, budget, Comparisons(Between(b, row, row + j + 1)), Comparisons(Between(b, row, row + 256)));
            return;
          }
          StillTruthful(b, f, ptr[..], t, sb);
        } else {
          MarkedOrdered(b, ptr[..], t, sb);
          SpentMost(b, budget0, budget, Comparisons(Between(b, row, row + j)), Comparisons(Between(b, row, row + j + 1)));
        }
        MarkedOne(b, ptr[..], t, sb);
        ftab[sb] := WithMark(ftab[sb]);
        assert ftab[..] == t[sb := WithMark(t[sb])];
        KeepsMarks(t, ftab[..], bigDone);
      } else {
        LoadGrows(b, row, row + j, row + j + 1);
        SpentMost(b, budget0, budget, Comparisons(Between(b, row, row + j)), Comparisons(Between(b, row, row + j + 1)));
      }
    }
  }

  lemma StartsSize(b: seq<byte>, ftab: seq<nat>)
    requires Starts(b, ftab)
    ensures |ftab| == PAIRS + 1
  {
  }

  lemma MarkedOrdered(b: seq<byte>, ptr: seq<nat>, ftab: seq<nat>, s: nat)
    requires b != [] && |ptr| == |b| && s < PAIRS && Truthful(b, ptr, ftab) && Marked(ftab, s)
    ensures SmallOrdered(b, ptr, s)
  {
  }

  /** Sorting one more small bucket leaves the marks true. */
  lemma StillTruthful(b: seq<byte>, f: seq<nat>, g: seq<nat>, ftab: seq<nat>, s: nat)
    requires b != [] && |f| == |g| == |b| && Truthful(b, f, ftab) && SmallOrdered(b, g, s)
    requires forall t: nat :: t != s && SmallOrdered(b, f, t) ==> SmallOrdered(b, g, t)
    ensures Truthful(b, g, ftab)
  {
    hide SmallOrdered, Marked;
  }

  // ---------- After step 2 ----------

  lemma KeptOrdered(b: seq<byte>, f: seq<nat>, g: seq<nat>, s: nat)
    requires b != [] && |f| == |g| == |b| && Kept(b, f, g, s) && SmallOrdered(b, f, s)
    ensures SmallOrdered(b, g, s)
  {
    hide BucketStart, Cmp;
    forall k, l | BucketStart(b, s) <= k < l < BucketStart(b, s + 1) ensures InOrder(b, g, |b|, k, l) {
      assert InOrder(b, f, |b|, k, l);
    }
  }

  /** The synthesised buckets [t, ss] are in order for all t, and the marks stay true. */
  lemma AfterScan(b: seq<byte>, f: seq<nat>, g: seq<nat>, ftab: seq<nat>, bigDone: seq<bool>, ss: nat)
    requires b != [] && ss < 256 && Sorting(b, f, ftab, bigDone) && Synthesised(b, f, g, bigDone, ss)
    ensures Sorting(b, g, ftab, bigDone)
    ensures forall s: nat :: s < PAIRS && s % 256 == ss ==> SmallOrdered(b, g, s)
  {
    hide BucketStart, Bucketed, Starts, SmallOrdered, Kept, Marked;
    forall s: nat | s < PAIRS && (s % 256 == ss || Marked(ftab, s)) ensures SmallOrdered(b, g, s) {
      if s % 256 != ss || bigDone[s / 256] {
        assert Marked(ftab, s);
        KeptOrdered(b, f, g, s);
      } else {
        assert s == 256 * (s / 256) + ss;
      }
    }
  }

  /** Marks the small buckets [j, ss]; big bucket ss is done. */
  method MarkColumn(ghost b: seq<byte>, ghost ptr: seq<nat>, ftab: array<nat>, bigDone: array<bool>, ss: nat)
    requires b != [] && |ptr| == |b| && ss < 256 && Sorting(b, ptr, ftab[..], bigDone[..])
    requires forall s: nat :: s < PAIRS && s % 256 == ss ==> SmallOrdered(b, ptr, s)
    requires RowMarked(ftab[..], ss, 256)
    modifies ftab, bigDone
    ensures Sorting(b, ptr, ftab[..], bigDone[..]) && bigDone[..] == old(bigDone[..])[ss := true]
  {
    hide BucketStart, Bucketed, Starts, Truthful, SmallOrdered, WithMark, Marked, DoneMarked;
    ghost var done := bigDone[..];
    StartsSize(b, ftab[..]);
    DoneSize(ftab[..], done);
    for j: nat := 0 to 256
      invariant Sorting(b, ptr, ftab[..], done) && ftab.Length == PAIRS + 1 && bigDone[..] == done
      invariant RowMarked(ftab[..], ss, 256)
      invariant ColumnMarked(ftab[..], ss, j)
    {
      ghost var t := ftab[..];
      var sb := 256 * j + ss;
      MarkedOne(b, ptr, t, sb);
      ftab[sb] := WithMark(ftab[sb]);
      assert ftab[..] == t[sb := WithMark(t[sb])];
      KeepsMarks(t, ftab[..], done);
    }
    BucketMarked(ftab[..], done, ss);
    bigDone[ss] := true;
  }

  lemma DoneSize(ftab: seq<nat>, bigDone: seq<bool>)
    requires DoneMarked(ftab, bigDone)
    ensures |bigDone| == 256
  {
  }

  lemma BucketMarked(ftab: seq<nat>, bigDone: seq<bool>, ss: nat)
    requires ss < 256 && DoneMarked(ftab, bigDone)
    requires RowMarked(ftab, ss, 256)
    requires ColumnMarked(ftab, ss, 256)
    ensures DoneMarked(ftab, bigDone[ss := true])
  {
    hide Marked;
    forall s: nat | s < PAIRS && (bigDone[ss := true][s / 256] || bigDone[ss := true][s % 256]) ensures Marked(ftab, s) {
      if s % 256 != ss && s / 256 == ss { assert 256 * ss <= s < 256 * ss + 256; }
    }
  }

  // ---------- Step 3 ----------

  /** A big bucket that is done is in order as a whole. */
  lemma BigBucketDone(b: seq<byte>, ptr: seq<nat>, ftab: seq<nat>, bigDone: seq<bool>, ss: nat)
    requires |b| >= 2 && ss < 256 && Sorting(b, ptr, ftab, bigDone) && bigDone[ss]
    ensures BigStart(b, ss) <= BigEnd(b, ss) <= |b| && BigBucket(b, ptr, BigStart(b, ss), BigEnd(b, ss) - BigStart(b, ss), ss)
  {
    hide BucketStart, Cmp, SmallOrdered, Marked, Starts;
    Bounds(b, ss, ss);
    var lo, hi := BigStart(b, ss), BigEnd(b, ss);
    forall k | lo <= k < hi ensures ptr[k] < |b| && b[ptr[k]] == ss { BigKey(b, ptr, ss, k); }
    forall i | 0 <= i < |b| && b[i] == ss ensures i in ptr[lo..hi] { InBig(b, ptr, ss, i); }
    forall x, y | lo <= x < y < hi ensures InOrder(b, ptr, |b|, x, y) {
      BigKey(b, ptr, ss, x);
      assert Marked(ftab, Key(b, ptr[x]));
      Across(b, ptr, x, y);
    }
  }

  lemma InBig(b: seq<byte>, ptr: seq<nat>, ss: nat, i: nat)
    requires ss < 256 && Bucketed(b, ptr) && i < |b| && b[i] == ss && BigStart(b, ss) <= BigEnd(b, ss) <= |ptr|
    ensures i in ptr[BigStart(b, ss)..BigEnd(b, ss)]
  {
    hide BucketStart;
    Surjective(ptr, i);
    var k :| 0 <= k < |ptr| && ptr[k] == i;
    assert InBucket(b, ptr[k], k);
    BucketsFollow(b, 256 * ss, Key(b, i));
    BucketsFollow(b, Key(b, i) + 1, 256 * (ss + 1));
    assert ptr[BigStart(b, ss)..BigEnd(b, ss)][k - BigStart(b, ss)] == i;
  }

  // ---------- mainSort ----------

  /** When all big buckets are done, everything is in order. */
  lemma AllDone(b: seq<byte>, ptr: seq<nat>, ftab: seq<nat>, bigDone: seq<bool>)
    requires |b| >= 2 && Sorting(b, ptr, ftab, bigDone) && forall c :: 0 <= c < 256 ==> bigDone[c]
    ensures SortedRotations(b, ptr)
  {
    hide BucketStart, Cmp, SmallOrdered, Marked, Starts;
    forall i, j | 0 <= i < j < |ptr| ensures InOrder(b, ptr, |b|, i, j) {
      assert Marked(ftab, Key(b, ptr[i]));
      Across(b, ptr, i, j);
    }
  }

  /** The big buckets taken so far are those done. */
  ghost predicate Taken(order: seq<nat>, bigDone: seq<bool>, i: nat)
    requires i <= |order|
  {
    |bigDone| == 256 && forall c: nat :: c < 256 ==> (bigDone[c] <==> c in order[..i])
  }

  lemma TakeNext(order: seq<nat>, bigDone: seq<bool>, i: nat)
    requires |order| == 256 && IsPermutation(order) && i < 256 && Taken(order, bigDone, i)
    ensures order[i] < 256 && !bigDone[order[i]] && Taken(order, bigDone[order[i] := true], i + 1)
  {
    assert order[..i + 1] == order[..i] + [order[i]];
  }

  lemma AllTaken(order: seq<nat>, bigDone: seq<bool>)
    requires |order| == 256 && IsPermutation(order) && Taken(order, bigDone, 256)
    ensures forall c :: 0 <= c < 256 ==> bigDone[c]
  {
    forall c: nat | c < 256 ensures bigDone[c] {
      Surjective(order, c);
      assert order[..256] == order;
    }
  }

  lemma StartSorting(b: seq<byte>, ptr: seq<nat>, ftab: seq<nat>, bigDone: seq<bool>)
    requires b != [] && Bucketed(b, ptr) && Starts(b, ftab) && (forall s :: 0 <= s <= PAIRS ==> ftab[s] < SETMASK)
    requires |bigDone| == 256 && forall c :: 0 <= c < 256 ==> !bigDone[c]
    ensures Sorting(b, ptr, ftab, bigDone)
  {
    hide BucketStart, SmallOrdered, Bucketed;
  }

  /** One big bucket: complete it, scan it, record it. */
  method SortBigBucket(ptr: array<nat>, block: array<byte>, quadrant: array<nat>, nblock: nat, ftab: array<nat>, bigDone: array<bool>,
                       ss: nat, last: bool, budget0: int) returns (budget: int)
    requires N_OVERSHOOT < nblock == ptr.Length <= 900000 && nblock <= block.Length && ss < 256 && bigDone.Length == 256 && !bigDone[ss]
    requires ptr != quadrant && ptr != ftab && quadrant != ftab && Workspace(block[..], quadrant[..], nblock) && budget0 >= 0
    requires Sorting(block[..nblock], ptr[..], ftab[..], bigDone[..])
    modifies ptr, quadrant, ftab, bigDone
    ensures Spent(block[..nblock], budget0, budget, Comparisons(Between(block[..nblock], 256 * ss, 256 * (ss + 1))))
    ensures budget >= 0 ==> Workspace(block[..], quadrant[..], nblock) && Sorting(block[..nblock], ptr[..], ftab[..], bigDone[..])
    ensures budget >= 0 ==> bigDone[..] == old(bigDone[..])[ss := true]
  {
    hide BucketStart, Bucketed, Workspace, Starts, Truthful, DoneMarked, SmallOrdered, Marked, Synthesised, BigBucket, Spent, Comparisons, Between;
    ghost var b := block[..nblock];
    budget := CompleteBigBucket(ptr, block, quadrant, nblock, ftab, ss, budget0, bigDone[..]);
    if budget < 0 { return; }
    ghost var f := ptr[..];
    EndsMarked(b, f, ftab[..], ss);
    ScanBigBucket(ptr, block, nblock, ftab, bigDone, ss);
    AfterScan(b, f, ptr[..], ftab[..], bigDone[..], ss);
    MarkColumn(b, ptr[..], ftab, bigDone, ss);
    if !last {
      var bbStart := BigStartAt(ftab, ss, b);
      var bbEnd := BigStartAt(ftab, ss + 1, b);
      BigBucketDone(b, ptr[..], ftab[..], bigDone[..], ss);
      UpdateQuadrants(ptr, block, quadrant, nblock, bbStart, bbEnd - bbStart, ss);
    }
  }

  method BigStartAt(ftab: array<nat>, c: nat, ghost b: seq<byte>) returns (r: nat)
    requires Starts(b, ftab[..]) && c <= 256
    ensures r == BigStart(b, c)
  {
    hide BucketStart;
    r := ftab[c * 256] % SETMASK;
  }

  lemma EndsMarked(b: seq<byte>, f: seq<nat>, ftab: seq<nat>, ss: nat)
    requires b != [] && |f| == |b| && ss < 256 && Truthful(b, f, ftab) && RowMarked(ftab, ss, 256)
    ensures EndsOrdered(b, f, ss)
  {
    hide SmallOrdered, Marked;
    forall s: nat | 256 * ss <= s < 256 * (ss + 1) && s != 257 * ss ensures SmallOrdered(b, f, s) {
      assert Marked(ftab, s);
    }
  }

  /** mainSort: the rotations in order, unless the budget ran out. What is taken
      from it is bounded by the number of comparisons and by how far different
      rotations of the block agree: nothing when they differ within twenty bytes,
      and never more than a function of the length of the block. */
  method Sort(ptr: array<nat>, block: array<byte>, quadrant: array<nat>, ftab: array<nat>, nblock: nat, budget0: int) returns (budget: int)
    requires N_OVERSHOOT < nblock == ptr.Length <= 900000 && block.Length == quadrant.Length == nblock + N_OVERSHOOT
    requires ftab.Length == PAIRS + 1 && ptr != ftab && ptr != quadrant && ftab != quadrant && budget0 >= 0
    modifies ptr, block, quadrant, ftab
    ensures block[..nblock] == old(block[..nblock])
    ensures budget >= 0 ==> SortedRotations(block[..nblock], ptr[..])
    ensures Spent(block[..nblock], budget0, budget, Comparisons(nblock))
    ensures Differ(block[..nblock], 20) ==> budget == budget0 && SortedRotations(block[..nblock], ptr[..])
    ensures 2 * (budget0 - budget) <= 13 * nblock * (nblock - 1) * Rounds(nblock)
  {
    hide BucketStart, Bucketed, Workspace, Starts, Sorting, Taken, IsPermutation, SortedRotations, Spent, Comparisons, Between, Waiting, Differ;
    ghost var b := block[..nblock];
    budget := budget0;
    RadixSort(ptr, block, quadrant, ftab, nblock);
    var bigDone := new bool[256](_ => false);
    StartSorting(b, ptr[..], ftab[..], bigDone[..]);
    var runningOrder := Order(ftab);
    NoneTaken(runningOrder[..], bigDone[..]);
    SpentNone(b, budget0);
    WaitingWhole(b, bigDone[..]);
    ghost var c: nat := 0;
    for i: nat := 0 to 256
      invariant block[..nblock] == b && budget >= 0 && fresh(bigDone) && bigDone.Length == 256
      invariant Workspace(block[..], quadrant[..], nblock) && Sorting(b, ptr[..], ftab[..], bigDone[..])
      invariant runningOrder.Length == 256 && IsPermutation(runningOrder[..]) && Taken(runningOrder[..], bigDone[..], i)
      invariant Spent(b, budget0, budget, c) && c + Waiting(b, bigDone[..], 256) <= Comparisons(nblock)
    {
      var ss := runningOrder[i];
      TakeNext(runningOrder[..], bigDone[..], i);
      ghost var before, d := budget, Comparisons(Between(b, 256 * ss, 256 * (ss + 1)));
      WaitingLess(b, bigDone[..], ss, 256);
      budget := SortBigBucket(ptr, block, quadrant, nblock, ftab, bigDone, ss, i == 255, budget);
      SpentMore(b, budget0, before, budget, c, d, c + d);
      c := c + d;
      if budget < 0 { break; }
    }
    SpentMost(b, budget0, budget, c, Comparisons(nblock));
    SpentInAll(b, budget0, budget);
    if budget >= 0 {
      AllTaken(runningOrder[..], bigDone[..]);
      AllDone(b, ptr[..], ftab[..], bigDone[..]);
    }
  }

  /** The two ends of the scale. */
  lemma SpentInAll(b: seq<byte>, budget0: int, budget: int)
    requires b != [] && Spent(b, budget0, budget, Comparisons(|b|))
    ensures Differ(b, 20) ==> budget == budget0
    ensures 2 * (budget0 - budget) <= 13 * |b| * (|b| - 1) * Rounds(|b|)
  {
    hide Comparisons, Differ, MostRounds;
    if Differ(b, 20) { FreeOfCharge(b, 20); }
    ComparisonsClosed(|b|);
    var c, r := Comparisons(|b|), MostRounds(b);
    SmallerFactor(c, r, Rounds(|b|));
    assert 2 * (c * Rounds(|b|)) == (2 * c) * Rounds(|b|);
  }

  lemma NoneTaken(order: seq<nat>, bigDone: seq<bool>)
    requires |bigDone| == 256 && forall c :: 0 <= c < 256 ==> !bigDone[c]
    ensures Taken(order, bigDone, 0)
  {
  }
}
