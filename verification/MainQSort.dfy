/**
 The sorts of blocksort.c that work on small buckets: mainSimpleSort, a shell
 sort with mainGtU, and the explicit-stack string quicksort mainQSort3. They
 permute only their range; when the work budget is not used up they leave it in
 rotation order.
 */
module MainQSort {
  import opened Bits
  import opened Permutation
  import opened Rotation
  import opened MainCompare
  import opened FallbackQSort

  /** Entries are positions of the block. */
  ghost predicate Positions(f: seq<nat>, n: nat) {
    forall i :: 0 <= i < |f| ==> f[i] < n
  }

  /** f lists every position of the block once. */
  ghost predicate Listing(f: seq<nat>, n: nat) { |f| == n && IsPermutation(f) }

  /** Entries x and y agree on their first d bytes. */
  ghost predicate Alike(b: seq<byte>, f: seq<nat>, d: nat, x: int, y: int)
    requires b != [] && 0 <= x < |f| && 0 <= y < |f|
  {
    Cmp(b, f[x], f[y], d) == 0
  }

  /** All entries of [lo, hi) do. */
  ghost predicate Shared(b: seq<byte>, f: seq<nat>, lo: int, hi: int, d: nat)
    requires b != [] && 0 <= lo && hi <= |f|
  {
    forall x, y {:trigger Alike(b, f, d, x, y)} :: lo <= x < hi && lo <= y < hi ==> Alike(b, f, d, x, y)
  }

  /** [lo, hi) is in rotation order. */
  ghost predicate Ordered(b: seq<byte>, f: seq<nat>, lo: int, hi: int)
    requires b != [] && 0 <= lo && hi <= |f|
  {
    forall x, y {:trigger InOrder(b, f, |b|, x, y)} :: lo <= x < y < hi ==> InOrder(b, f, |b|, x, y)
  }

  /** What every sort of this module works on. */
  ghost predicate Setting(ptr: array<nat>, block: array<byte>, quadrant: array<nat>, n: nat)
    reads ptr, block, quadrant
  {
    ptr != quadrant && 0 < n <= block.Length && Workspace(block[..], quadrant[..], n) && Listing(ptr[..], n)
  }

  lemma ListingKept(f: seq<nat>, g: seq<nat>, lo: int, hi: int, n: nat)
    requires RangePerm(f, g, lo, hi) && Listing(f, n)
    ensures Listing(g, n)
  {
    hide RangePerm;
    RangePermWhole(f, g, lo, hi);
    SameContents(f, g);
  }

  lemma ListedApart(f: seq<nat>, n: nat, x: int, y: int)
    requires Listing(f, n) && 0 <= x < |f| && 0 <= y < |f| && x != y
    ensures f[x] < n && f[y] < n && f[x] != f[y]
  {
  }

  lemma SharedKept(b: seq<byte>, f: seq<nat>, g: seq<nat>, lo: int, hi: int, d: nat)
    requires b != [] && RangePerm(f, g, lo, hi) && 0 <= lo && hi <= |f| && |f| == |g| && Shared(b, f, lo, hi, d)
    ensures Shared(b, g, lo, hi, d)
  {
    hide RangePerm, Cmp;
    forall x, y | lo <= x < hi && lo <= y < hi ensures Alike(b, g, d, x, y) {
      var x' := RangePermSource(f, g, lo, hi, x);
      var y' := RangePermSource(f, g, lo, hi, y);
      assert Alike(b, f, d, x', y');
    }
  }

  /** A permutation of a range keeps the setting. */
  lemma SettingKept(ptr: array<nat>, block: array<byte>, quadrant: array<nat>, n: nat, f: seq<nat>, lo: int, hi: int)
    requires ptr != quadrant && 0 < n <= block.Length && Workspace(block[..], quadrant[..], n) && Listing(f, n)
    requires RangePerm(f, ptr[..], lo, hi)
    ensures Setting(ptr, block, quadrant, n)
  {
    hide Workspace, RangePerm, Listing;
    ListingKept(f, ptr[..], lo, hi, n);
  }

  // ---------- What sorting costs ----------

  /** At most c comparisons of different rotations have been charged for. */
  ghost predicate Spent(b: seq<byte>, budget0: int, budget: int, c: nat)
    requires b != []
  {
    0 <= budget0 - budget <= c * MostRounds(b)
  }

  lemma SpentNone(b: seq<byte>, budget0: int)
    requires b != []
    ensures Spent(b, budget0, budget0, 0)
  {
  }

  lemma SpentMore(b: seq<byte>, budget0: int, budget1: int, budget: int, c: nat, d: nat, e: nat)
    requires b != [] && Spent(b, budget0, budget1, c) && Spent(b, budget1, budget, d) && c + d <= e
    ensures Spent(b, budget0, budget, e)
  {
    var r := MostRounds(b);
    assert (c + d) * r == c * r + d * r;
    assert e * r == (c + d) * r + (e - c - d) * r;
  }

  /** How often n entries can meet when any two meet once. */
  ghost function Meetings(n: nat): nat { if n == 0 then 0 else Meetings(n - 1) + n - 1 }

  lemma {:induction false} MeetingsAdd(x: nat, y: nat)
    ensures Meetings(x) + Meetings(y) <= Meetings(x + y)
    decreases y
  {
    if y > 0 { MeetingsAdd(x, y - 1); }
  }

  /** At each of thirteen strides any two entries are compared at most once. */
  ghost function Comparisons(n: nat): nat { 13 * Meetings(n) }

  lemma {:induction false} ComparisonsClosed(n: nat)
    ensures 2 * Comparisons(n) == 13 * n * (n - 1)
  {
    if n > 0 { ComparisonsClosed(n - 1); }
  }

  /** mainGtU d bytes in, for different entries that agree up to there. */
  method Greater(block: array<byte>, quadrant: array<nat>, nblock: nat, x: nat, y: nat, d: nat, budget0: int) returns (gt: bool, budget: int)
    requires 0 < nblock <= block.Length && Workspace(block[..], quadrant[..], nblock) && x < nblock && y < nblock && x != y && d <= 15
    requires Cmp(block[..nblock], x, y, d) == 0
    ensures Verdict(block[..nblock], x, y, gt) && Spent(block[..nblock], budget0, budget, 1)
  {
    hide Cmp, Workspace, Charged, MostRounds;
    gt, budget := GtU(block, quadrant, nblock, x + d, y + d, budget0);
    ghost var b := block[..nblock];
    ChargeLimited(b, quadrant[..], x, y, d, budget0 - budget);
    ChargedSome(b, quadrant[..], x + d, y + d, budget0 - budget);
    SharedPrefix(b, x, y, d);
    CmpSymmetric(b, x, y, d);
    SharedPrefix(b, y, x, d);
  }

  lemma ChargedSome(b: seq<byte>, q: seq<nat>, a1: nat, a2: nat, c: int)
    requires b != [] && |b| <= |q| && Charged(b, q, a1, a2, c)
    ensures c >= 0
  {
  }

  // ---------- mainSimpleSort ----------

  /** Entry i has moved down to j; those it passed moved up by one. */
  ghost predicate Slid(f: seq<nat>, g: seq<nat>, j: int, i: int) {
    && |f| == |g| && 0 <= j <= i < |f| && g[j] == f[i]
    && (forall k :: j < k <= i ==> g[k] == f[k - 1])
    && (forall k :: 0 <= k < |f| && (k < j || k > i) ==> g[k] == f[k])
  }

  /** All entries it passed are no smaller. */
  ghost predicate Above(b: seq<byte>, g: seq<nat>, v: nat, j: int, i: int)
    requires b != [] && i < |g| && -1 <= j
  {
    forall k {:trigger g[k]} :: j < k <= i ==> NotLarger(b, v, g[k])
  }

  lemma SlidOn(f: seq<nat>, g: seq<nat>, j: int, i: int)
    requires Slid(f, g, j, i) && j > 0
    ensures Slid(f, Swap(g, j - 1, j), j - 1, i) && g[j - 1] == f[j - 1]
  {
  }

  /** The insertion leaves the range, extended by its entry, in order. */
  lemma SlidOrdered(b: seq<byte>, f: seq<nat>, g: seq<nat>, lo: int, j: int, i: int)
    requires b != [] && Slid(f, g, j, i) && 0 <= lo <= j && Ordered(b, f, lo, i) && Above(b, g, f[i], j, i)
    requires j == lo || NotLarger(b, f[j - 1], f[i])
    ensures Ordered(b, g, lo, i + 1)
  {
    hide Cmp;
    var n := |b|;
    forall x, y | lo <= x < y < i + 1 ensures InOrder(b, g, n, x, y) {
      if x == j {
        assert NotLarger(b, f[i], g[y]);
      } else if y == j {
        if x < j - 1 {
          assert InOrder(b, f, n, x, j - 1);
          CmpTransitive(b, f[x], f[j - 1], f[i], n);
        }
      } else {
        var x', y' := if x < j then x else x - 1, if y < j then y else y - 1;
        assert InOrder(b, f, n, x', y');
      }
    }
  }

  /** One insertion at stride h. */
  method Insert(ptr: array<nat>, block: array<byte>, quadrant: array<nat>, nblock: nat, lo: nat, hi: nat, d: nat, h: nat, i: nat, budget0: int)
    returns (budget: int)
    requires Setting(ptr, block, quadrant, nblock) && h >= 1 && lo + h <= i <= hi < ptr.Length && d <= 15
    requires Shared(block[..nblock], ptr[..], lo, hi + 1, d)
    modifies ptr
    ensures RangePerm(old(ptr[..]), ptr[..], lo, hi + 1) && Spent(block[..nblock], budget0, budget, i - lo)
    ensures h == 1 && Ordered(block[..nblock], old(ptr[..]), lo, i) ==> Ordered(block[..nblock], ptr[..], lo, i + 1)
  {
    hide Workspace, RangePerm, Slid, Above, Ordered, Shared, Cmp, Swap, Listing, Spent, NotLarger;
    ghost var b, f := block[..nblock], ptr[..];
    var v, j := ptr[i], i;
    ghost var g := f;
    budget := budget0;
    RangePermRefl(f, lo, hi + 1);
    SlidStart(b, f, i);
    SpentNone(b, budget0);
    ghost var settled, c := false, 0;
    while j >= lo + h
      invariant lo <= j <= i && |g| == ptr.Length && Listing(g, nblock) && RangePerm(f, g, lo, hi + 1) && g[j] == v
      invariant forall k :: 0 <= k < |g| && k != j ==> ptr[k] == g[k]
      invariant h == 1 ==> Slid(f, g, j, i) && Above(b, g, v, j, i)
      invariant !settled && c <= i - j && Spent(b, budget0, budget, c)
      decreases j
    {
      AlikeHere(b, f, g, lo, hi, d, j - h, j);
      ListedApart(g, nblock, j - h, j);
      ghost var before := budget;
      var gt;
      gt, budget := Greater(block, quadrant, nblock, ptr[j - h], v, d, budget);
      SpentMore(b, budget0, before, budget, c, 1, c + 1);
      settled, c := !gt, c + 1;
      if !gt { break; }
      SwapHere(f, g, nblock, j - h, j, lo, hi + 1);
      if h == 1 { SlidOn(f, g, j, i); AboveOn(b, g, v, j, i); }
      ptr[j] := ptr[j - h];
      g := Swap(g, j - h, j);
      j := j - h;
    }
    ptr[j] := v;
    assert ptr[..] == g;
    SpentNone(b, budget);
    SpentMore(b, budget0, budget, budget, c, 0, i - lo);
    if h == 1 && Ordered(b, f, lo, i) {
      LastPassed(f, g, j, i);
      SlidOrdered(b, f, g, lo, j, i);
    }
  }

  lemma SwapHere(f: seq<nat>, g: seq<nat>, n: nat, i: int, j: int, lo: int, hi: int)
    requires RangePerm(f, g, lo, hi) && Listing(g, n) && |f| == |g| && 0 <= lo <= i < hi <= |g| && lo <= j < hi
    ensures RangePerm(f, Swap(g, i, j), lo, hi) && Listing(Swap(g, i, j), n)
  {
    hide RangePerm, Swap;
    SwapRange(g, i, j, lo, hi);
    ListingKept(g, Swap(g, i, j), lo, hi, n);
    RangePermTrans(f, g, Swap(g, i, j), lo, hi);
  }

  lemma SlidStart(b: seq<byte>, f: seq<nat>, i: int)
    requires b != [] && 0 <= i < |f|
    ensures Slid(f, f, i, i) && Above(b, f, f[i], i, i)
  {
  }

  lemma LastPassed(f: seq<nat>, g: seq<nat>, j: int, i: int)
    requires Slid(f, g, j, i)
    ensures g[j] == f[i] && (j > 0 ==> g[j - 1] == f[j - 1])
  {
  }

  lemma AboveOn(b: seq<byte>, g: seq<nat>, v: nat, j: int, i: int)
    requires b != [] && 0 < j <= i < |g| && Above(b, g, v, j, i) && NotLarger(b, v, g[j - 1])
    ensures Above(b, Swap(g, j - 1, j), v, j - 1, i)
  {
    hide NotLarger;
    var g' := Swap(g, j - 1, j);
    forall k | j - 1 < k <= i ensures NotLarger(b, v, g'[k]) {
      if k > j { assert g'[k] == g[k]; }
    }
  }

  lemma AlikeHere(b: seq<byte>, f: seq<nat>, g: seq<nat>, lo: int, hi: int, d: nat, x: int, y: int)
    requires b != [] && 0 <= lo <= hi < |f| && |f| == |g| && RangePerm(f, g, lo, hi + 1) && Shared(b, f, lo, hi + 1, d)
    requires lo <= x <= hi && lo <= y <= hi
    ensures Cmp(b, g[x], g[y], d) == 0
  {
    hide RangePerm, Cmp;
    SharedKept(b, f, g, lo, hi + 1, d);
    assert Alike(b, g, d, x, y);
  }

  /** One pass at stride h; the budget is looked at after every third insertion. */
  method Pass(ptr: array<nat>, block: array<byte>, quadrant: array<nat>, nblock: nat, lo: nat, hi: nat, d: nat, h: nat, budget0: int)
    returns (budget: int, abandoned: bool)
    requires Setting(ptr, block, quadrant, nblock) && h >= 1 && lo <= hi < ptr.Length && d <= 15
    requires Shared(block[..nblock], ptr[..], lo, hi + 1, d)
    modifies ptr
    ensures RangePerm(old(ptr[..]), ptr[..], lo, hi + 1) && Spent(block[..nblock], budget0, budget, Meetings(hi + 1 - lo))
    ensures abandoned ==> budget < 0
    ensures h == 1 && !abandoned ==> Ordered(block[..nblock], ptr[..], lo, hi + 1)
  {
    hide Workspace, RangePerm, Ordered, Shared, Cmp, Listing, Spent;
    ghost var b, f := block[..nblock], ptr[..];
    RangePermRefl(f, lo, hi + 1);
    OneOrdered(b, f, lo);
    var i, copy := lo + h, 0;
    budget, abandoned := budget0, false;
    ghost var c: nat := 0;
    SpentNone(b, budget0);
    while i <= hi
      invariant lo + h <= i && !abandoned && Setting(ptr, block, quadrant, nblock) && Spent(b, budget0, budget, c)
      invariant c <= Meetings(if i <= hi then i - lo else hi + 1 - lo)
      invariant RangePerm(f, ptr[..], lo, hi + 1) && Shared(b, ptr[..], lo, hi + 1, d)
      invariant h == 1 ==> i <= hi + 1 && Ordered(b, ptr[..], lo, i)
      decreases hi + 1 - i
    {
      ghost var g, before := ptr[..], budget;
      budget := Insert(ptr, block, quadrant, nblock, lo, hi, d, h, i, budget);
      SettingKept(ptr, block, quadrant, nblock, g, lo, hi + 1);
      SharedKept(b, g, ptr[..], lo, hi + 1, d);
      RangePermTrans(f, g, ptr[..], lo, hi + 1);
      SpentMore(b, budget0, before, budget, c, i - lo, c + (i - lo));
      i, c := i + 1, c + (i - lo);
      copy := copy + 1;
      if copy == 3 {
        copy := 0;
        if budget < 0 { abandoned := true; break; }
      }
    }
    MeetingsGrow(if i <= hi then i - lo else hi + 1 - lo, hi + 1 - lo);
    SpentNone(b, budget);
    SpentMore(b, budget0, budget, budget, c, 0, Meetings(hi + 1 - lo));
  }

  lemma MeetingsGrow(x: nat, y: nat)
    requires x <= y
    ensures Meetings(x) <= Meetings(y)
  {
    MeetingsAdd(x, y - x);
  }

  lemma OneOrdered(b: seq<byte>, f: seq<nat>, lo: int)
    requires b != [] && 0 <= lo < |f|
    ensures Ordered(b, f, lo, lo + 1)
  {
  }

  const INCS: seq<nat> := [1, 4, 13, 40, 121, 364, 1093, 3280, 9841, 29524, 88573, 265720, 797161, 2391484]

  /** mainSimpleSort: in order afterwards unless the budget ran out. */
  method SimpleSort(ptr: array<nat>, block: array<byte>, quadrant: array<nat>, nblock: nat, lo: nat, hi: int, d: nat, budget0: int)
    returns (budget: int)
    requires Setting(ptr, block, quadrant, nblock) && lo <= hi + 1 <= ptr.Length && d <= 15 && nblock <= 900000
    requires Shared(block[..nblock], ptr[..], lo, hi + 1, d)
    modifies ptr
    ensures RangePerm(old(ptr[..]), ptr[..], lo, hi + 1) && Spent(block[..nblock], budget0, budget, Comparisons(hi + 1 - lo))
    ensures budget >= 0 ==> Ordered(block[..nblock], ptr[..], lo, hi + 1)
  {
    hide Workspace, RangePerm, Ordered, Shared, Cmp, Listing, Spent, Meetings;
    ghost var b, f := block[..nblock], ptr[..];
    RangePermRefl(f, lo, hi + 1);
    budget := budget0;
    var bigN := hi - lo + 1;
    ghost var meetings := Meetings(bigN);
    SpentNone(b, budget0);
    if bigN < 2 {
      SpentMore(b, budget0, budget0, budget0, 0, 0, Comparisons(bigN));
      FewOrdered(b, f, lo, hi + 1);
      return;
    }
    ListingSize(ptr[..], nblock);
    var hp := 0;
    while INCS[hp] < bigN
      invariant 0 <= hp < 14
      decreases 14 - hp
    {
      hp := hp + 1;
    }
    hp := hp - 1;
    ghost var passes: nat := 0;
    while hp >= 0
      invariant -1 <= hp < 13 && (hp == -1 ==> Ordered(b, ptr[..], lo, hi + 1)) && passes <= 12 - hp && Spent(b, budget0, budget, passes * meetings)
      invariant RangePerm(f, ptr[..], lo, hi + 1) && Shared(b, ptr[..], lo, hi + 1, d) && Setting(ptr, block, quadrant, nblock)
      decreases hp
    {
      ghost var g, before := ptr[..], budget;
      var abandoned;
      budget, abandoned := Pass(ptr, block, quadrant, nblock, lo, hi, d, INCS[hp], budget);
      SettingKept(ptr, block, quadrant, nblock, g, lo, hi + 1);
      SharedKept(b, g, ptr[..], lo, hi + 1, d);
      RangePermTrans(f, g, ptr[..], lo, hi + 1);
      SpentMore(b, budget0, before, budget, passes * meetings, meetings, (passes + 1) * meetings);
      passes := passes + 1;
      if abandoned { break; }
      hp := hp - 1;
    }
    SpentNone(b, budget);
    MulMono(passes, 13, meetings);
    SpentMore(b, budget0, budget, budget, passes * meetings, 0, Comparisons(bigN));
  }

  lemma ListingSize(f: seq<nat>, n: nat)
    requires Listing(f, n)
    ensures |f| == n
  {
  }

  lemma FewOrdered(b: seq<byte>, f: seq<nat>, lo: int, hi: int)
    requires b != [] && 0 <= lo && hi <= |f| && hi <= lo + 1
    ensures Ordered(b, f, lo, hi)
  {
  }

  // ---------- mainQSort3 ----------

  const SMALL_THRESH := 20
  const DEPTH_THRESH := 14    // BZ_N_RADIX + BZ_N_QSORT

  /** A pending range, both ends included, whose entries share d bytes. */
  datatype Span = Span(lo: int, hi: int, d: nat) {
    function Size(): int { hi - lo + 1 }

    ghost predicate Has(x: int) { lo <= x <= hi }

    ghost predicate Apart(other: Span) { hi < other.lo || other.hi < lo }
  }

  ghost predicate Fits(t: Span, a: int, z: int) { a <= t.lo <= t.hi + 1 <= z && t.d <= 15 }

  /** Pending ranges lie in [a, z) and do not overlap. */
  ghost predicate Disjoint(stack: seq<Span>, a: int, z: int) {
    && (forall p :: 0 <= p < |stack| ==> Fits(stack[p], a, z))
    && (forall p, q :: 0 <= p < q < |stack| ==> stack[p].Apart(stack[q]))
  }

  ghost predicate AllShared(b: seq<byte>, f: seq<nat>, stack: seq<Span>)
    requires b != []
  {
    forall p :: 0 <= p < |stack| ==> SpanShared(b, f, stack[p])
  }

  ghost predicate SpanShared(b: seq<byte>, f: seq<nat>, t: Span)
    requires b != []
  {
    0 <= t.lo <= t.hi + 1 <= |f| && Shared(b, f, t.lo, t.hi + 1, t.d)
  }

  /** x and y are in one pending range. */
  ghost predicate Together(stack: seq<Span>, x: int, y: int) {
    exists p :: 0 <= p < |stack| && stack[p].Has(x) && stack[p].Has(y)
  }

  /** Only inside pending ranges can entries still be out of order. */
  ghost predicate Settled(b: seq<byte>, f: seq<nat>, stack: seq<Span>, a: int, z: int)
    requires b != [] && 0 <= a && z <= |f|
  {
    forall x, y {:trigger InOrder(b, f, |b|, x, y)} :: a <= x < y < z ==> InOrder(b, f, |b|, x, y) || Together(stack, x, y)
  }

  /** A span at height p of the stack is smaller than the whole by a factor that
      doubles with every two levels. */
  ghost predicate Thinning(stack: seq<Span>, total: int) {
    && (forall p :: 0 <= p < |stack| ==> stack[p].Size() * Pow2(p / 2) <= total)
    && (|stack| >= 4 ==> Pow2((|stack| - 3) / 2) <= total)
  }

  ghost predicate Sane(t: Span) { t.Size() >= 0 && t.d <= 15 }

  /** Work left: the middle part goes a byte deeper, the others shrink. */
  ghost function Work(stack: seq<Span>): nat
    requires forall p :: 0 <= p < |stack| ==> Sane(stack[p])
  {
    if stack == [] then 0
    else
      var t := stack[|stack| - 1];
      assert Sane(t);
      Work(stack[..|stack| - 1]) + Weight(t.Size(), t.d)
  }

  ghost function Weight(size: nat, d: nat): (w: nat)
    requires d <= 15
    ensures w >= 1
  {
    4 * size * (16 - d) + 1
  }

  /** What the loop keeps for the range [a, z) of a ptr that began as f0. */
  ghost predicate Pending(b: seq<byte>, f0: seq<nat>, f: seq<nat>, stack: seq<Span>, a: int, z: int) {
    && b != [] && RangePerm(f0, f, a, z) && 0 <= a <= z <= |f| && Listing(f, |b|)
    && Disjoint(stack, a, z) && AllShared(b, f, stack) && Settled(b, f, stack, a, z) && Thinning(stack, z - a)
  }

  // ---------- Replacing the top of the stack ----------

  /** The spans that replace top lie inside it and do not overlap. */
  ghost predicate Inside(news: seq<Span>, top: Span) {
    && (forall p :: 0 <= p < |news| ==> Fits(news[p], top.lo, top.hi + 1))
    && (forall p, q :: 0 <= p < q < |news| ==> news[p].Apart(news[q]))
  }

  lemma DisjointStill(rest: seq<Span>, top: Span, news: seq<Span>, a: int, z: int)
    requires Disjoint(rest + [top], a, z) && Inside(news, top)
    ensures Disjoint(rest + news, a, z)
  {
    var s := rest + [top];
    assert s[|rest|] == top;
    forall p, q | 0 <= p < q < |rest + news| ensures (rest + news)[p].Apart((rest + news)[q]) {
      if q < |rest| { assert s[p].Apart(s[q]); }
      else if p < |rest| { assert s[p].Apart(s[|rest|]); assert Fits(news[q - |rest|], top.lo, top.hi + 1); }
    }
    forall p | 0 <= p < |rest + news| ensures Fits((rest + news)[p], a, z) {
      if p < |rest| { assert Fits(s[p], a, z); } else { assert Fits(news[p - |rest|], top.lo, top.hi + 1); assert Fits(s[|rest|], a, z); }
    }
  }

  lemma SharedStill(b: seq<byte>, f: seq<nat>, g: seq<nat>, rest: seq<Span>, top: Span, news: seq<Span>, a: int, z: int)
    requires b != [] && 0 <= a <= z <= |f| && |f| == |g| && Disjoint(rest + [top], a, z) && Inside(news, top)
    requires forall k :: 0 <= k < |f| && !top.Has(k) ==> g[k] == f[k]
    requires AllShared(b, f, rest + [top]) && AllShared(b, g, news)
    ensures AllShared(b, g, rest + news)
  {
    hide Cmp;
    var s := rest + [top];
    assert s[|rest|] == top;
    forall p | 0 <= p < |rest + news| ensures SpanShared(b, g, (rest + news)[p]) {
      if p < |rest| {
        var t := rest[p];
        assert s[p] == t && s[p].Apart(s[|rest|]) && SpanShared(b, f, s[p]);
        forall x, y | t.lo <= x < t.hi + 1 && t.lo <= y < t.hi + 1 ensures Alike(b, g, t.d, x, y) {
          assert Alike(b, f, t.d, x, y);
        }
      } else {
        assert (rest + news)[p] == news[p - |rest|];
      }
    }
  }

  /** Pairs outside top stay as they are; pairs with one entry inside keep their
      order whatever top's entries do; pairs inside are news's business. */
  lemma SettledStill(b: seq<byte>, f: seq<nat>, g: seq<nat>, rest: seq<Span>, top: Span, news: seq<Span>, a: int, z: int)
    requires b != [] && 0 <= a <= z <= |f| && |f| == |g| && Disjoint(rest + [top], a, z) && RangePerm(f, g, top.lo, top.hi + 1)
    requires Settled(b, f, rest + [top], a, z)
    requires a <= top.lo && top.hi + 1 <= z && Settled(b, g, news, top.lo, top.hi + 1)
    ensures Settled(b, g, rest + news, a, z)
  {
    hide Cmp, RangePerm;
    var s, n := rest + [top], |b|;
    assert s[|rest|] == top;
    forall x, y | a <= x < y < z ensures InOrder(b, g, n, x, y) || Together(rest + news, x, y) {
      if top.Has(x) && top.Has(y) {
        if !InOrder(b, g, n, x, y) {
          var p :| 0 <= p < |news| && news[p].Has(x) && news[p].Has(y);
          assert (rest + news)[|rest| + p] == news[p];
        }
      } else {
        var x' := RangePermSource(f, g, top.lo, top.hi + 1, x);
        var y' := RangePermSource(f, g, top.lo, top.hi + 1, y);
        assert InOrder(b, f, n, x', y') || Together(s, x', y');
        if !InOrder(b, f, n, x', y') {
          var p :| 0 <= p < |s| && s[p].Has(x') && s[p].Has(y');
          assert p < |rest| && s[p].Apart(s[|rest|]);
          assert (rest + news)[p] == s[p];
        }
      }
    }
  }

  lemma Outside(f: seq<nat>, g: seq<nat>, top: Span)
    requires RangePerm(f, g, top.lo, top.hi + 1) && |f| == |g|
    ensures forall k :: 0 <= k < |f| && !top.Has(k) ==> g[k] == f[k]
  {
    hide RangePerm;
    forall k | 0 <= k < |f| && !top.Has(k) ensures g[k] == f[k] {
      var j := RangePermSource(f, g, top.lo, top.hi + 1, k);
    }
  }

  /** The loop invariant after the top has been replaced. */
  lemma PendingStill(b: seq<byte>, f0: seq<nat>, f: seq<nat>, g: seq<nat>, rest: seq<Span>, top: Span, news: seq<Span>, a: int, z: int)
    requires Pending(b, f0, f, rest + [top], a, z) && |f| == |g| && RangePerm(f, g, top.lo, top.hi + 1) && Inside(news, top)
    requires AllShared(b, g, news) && a <= top.lo && top.hi + 1 <= z && Settled(b, g, news, top.lo, top.hi + 1)
    requires Thinning(rest + news, z - a)
    ensures Pending(b, f0, g, rest + news, a, z)
  {
    hide RangePerm, Settled, AllShared, Listing, Thinning, Inside;
    Outside(f, g, top);
    DisjointStill(rest, top, news, a, z);
    SharedStill(b, f, g, rest, top, news, a, z);
    SettledStill(b, f, g, rest, top, news, a, z);
    ListingKept(f, g, top.lo, top.hi + 1, |b|);
    RangePermWiden(f, g, top.lo, top.hi + 1, a, z);
    RangePermTrans(f0, f, g, a, z);
  }

  // ---------- The three cases ----------

  /** Popping. */
  lemma ThinPop(rest: seq<Span>, top: Span, total: int)
    requires Thinning(rest + [top], total)
    ensures Thinning(rest, total) && top.Size() * Pow2(|rest| / 2) <= total
  {
    var s := rest + [top];
    assert s[|rest|] == top;
    forall p | 0 <= p < |rest| ensures rest[p].Size() * Pow2(p / 2) <= total { assert s[p] == rest[p]; }
    if |rest| >= 4 { Pow2Monotone((|rest| - 3) / 2, (|s| - 3) / 2); }
  }

  /** A span of the same size in its place. */
  lemma ThinSame(rest: seq<Span>, top: Span, t: Span, total: int)
    requires Thinning(rest + [top], total) && t.Size() == top.Size()
    ensures Thinning(rest + [t], total)
  {
    forall p | 0 <= p < |rest + [t]| ensures (rest + [t])[p].Size() * Pow2(p / 2) <= total {
      assert (rest + [top])[p].Size() == (rest + [t])[p].Size();
    }
  }

  /** Three parts, largest lowest. */
  lemma ThinSplit(rest: seq<Span>, top: Span, t0: Span, t1: Span, t2: Span, total: int)
    requires Thinning(rest + [top], total) && top.Size() >= 1
    requires 0 <= t2.Size() <= t1.Size() <= t0.Size() && t0.Size() + t1.Size() + t2.Size() == top.Size()
    ensures Thinning(rest + [t0, t1, t2], total)
  {
    var s, n := rest + [t0, t1, t2], |rest|;
    ThinPop(rest, top, total);
    var w := Pow2(n / 2);
    PartFits(top.Size(), t0.Size(), t1.Size(), t2.Size(), w, total);
    assert Pow2((n + 2) / 2) == 2 * w;
    assert Pow2((n + 1) / 2) <= 2 * w by { Pow2Monotone((n + 1) / 2, (n + 2) / 2); }
    SmallerFactor(t1.Size(), Pow2((n + 1) / 2), 2 * w);
    forall p | 0 <= p < |s| ensures s[p].Size() * Pow2(p / 2) <= total {
      if p < n { assert s[p] == rest[p]; }
    }
  }

  lemma PartFits(t: int, t0: int, t1: int, t2: int, w: int, total: int)
    requires 0 <= t2 <= t1 <= t0 && t0 + t1 + t2 == t && t >= 1 && w >= 0 && t * w <= total
    ensures t0 * w <= total && t1 * (2 * w) <= total && t2 * (2 * w) <= total && w <= total
  {
    MulMono(t0, t, w);
    MulMono(2 * t1, t, w);
    MulMono(2 * t2, t, w);
    MulMono(1, t, w);
    assert t1 * (2 * w) == 2 * t1 * w && t2 * (2 * w) == 2 * t2 * w;
  }

  lemma SmallerFactor(t: int, v: int, w: int)
    requires t >= 0 && v <= w
    ensures t * v <= t * w
  {
  }

  /** So the assertion on the stack pointer never fires. */
  lemma RoomLeft(stack: seq<Span>, total: int)
    requires Thinning(stack, total) && total < 0x8000_0000
    ensures |stack| < STACK_SIZE - 2
  {
    if |stack| >= STACK_SIZE - 2 {
      Pow2Values();
      Pow2Monotone(32, (|stack| - 3) / 2);
    }
  }

  // ---------- Splitting ----------

  /** keys is the block seen d bytes further on. */
  ghost predicate View(b: seq<byte>, keys: seq<nat>, d: nat)
    requires b != []
  {
    |keys| == |b| && forall i :: 0 <= i < |b| ==> keys[i] == At(b, i + d)
  }

  /** Equal keys: one more byte is shared. */
  lemma Deeper(b: seq<byte>, g: seq<nat>, keys: seq<nat>, lo: int, hi: int, d: nat)
    requires b != [] && View(b, keys, d) && Indexes(g, keys) && 0 <= lo && hi <= |g| && Shared(b, g, lo, hi, d)
    requires forall x, y :: lo <= x < hi && lo <= y < hi ==> keys[g[x]] == keys[g[y]]
    ensures Shared(b, g, lo, hi, d + 1)
  {
    hide Cmp;
    var e := d + 1;
    forall x, y | lo <= x < hi && lo <= y < hi ensures Alike(b, g, e, x, y) {
      assert Alike(b, g, d, x, y) && keys[g[x]] == keys[g[y]];
      OneMore(b, g[x], g[y], d);
    }
  }

  lemma SharedPart(b: seq<byte>, g: seq<nat>, lo: int, hi: int, d: nat, a: int, z: int)
    requires b != [] && 0 <= lo <= a && z <= hi <= |g| && Shared(b, g, lo, hi, d)
    ensures Shared(b, g, a, z, d)
  {
    hide Alike;
  }

  /** A smaller key decides the order. */
  lemma KeyOrder(b: seq<byte>, g: seq<nat>, keys: seq<nat>, d: nat, x: int, y: int)
    requires b != [] && View(b, keys, d) && Indexes(g, keys) && 0 <= x < |g| && 0 <= y < |g|
    requires Alike(b, g, d, x, y) && keys[g[x]] < keys[g[y]]
    ensures InOrder(b, g, |b|, x, y)
  {
    FirstDifference(b, g[x], g[y], d);
  }

  /** x, y, z are the three parts in some order. */
  ghost predicate Parts(x: Span, y: Span, z: Span, lo: int, hi: int, n: int, m: int, d: nat) {
    var less, more, same := Span(lo, n, d), Span(m, hi, d), Span(n + 1, m - 1, d + 1);
    || (x == less && y == more && z == same) || (x == less && y == same && z == more)
    || (x == more && y == less && z == same) || (x == more && y == same && z == less)
    || (x == same && y == less && z == more) || (x == same && y == more && z == less)
  }

  lemma PartsInside(x: Span, y: Span, z: Span, lo: int, hi: int, n: int, m: int, d: nat)
    requires Parts(x, y, z, lo, hi, n, m, d) && lo - 1 <= n && n + 1 < m <= hi + 1 && d <= 14
    ensures Inside([x, y, z], Span(lo, hi, d))
    ensures x.Size() >= 0 && y.Size() >= 0 && z.Size() >= 0 && x.Size() + y.Size() + z.Size() == hi - lo + 1
  {
  }

  lemma PartsShared(b: seq<byte>, g: seq<nat>, keys: seq<nat>, med: nat, x: Span, y: Span, z: Span, lo: int, hi: int, n: int, m: int, d: nat)
    requires b != [] && View(b, keys, d) && Indexes(g, keys) && 0 <= lo && hi < |g| && Shared(b, g, lo, hi + 1, d)
    requires Thirds(g, keys, med, lo, hi, n, m) && Parts(x, y, z, lo, hi, n, m, d)
    ensures AllShared(b, g, [x, y, z])
  {
    hide Alike, Shared, Indexes;
    SharedPart(b, g, lo, hi + 1, d, lo, n + 1);
    SharedPart(b, g, lo, hi + 1, d, m, hi + 1);
    SharedPart(b, g, lo, hi + 1, d, n + 1, m);
    SameKeys(g, keys, med, lo, hi, n, m);
    Deeper(b, g, keys, n + 1, m, d);
    assert SpanShared(b, g, Span(lo, n, d)) && SpanShared(b, g, Span(m, hi, d)) && SpanShared(b, g, Span(n + 1, m - 1, d + 1));
  }

  lemma SameKeys(g: seq<nat>, keys: seq<nat>, med: nat, lo: int, hi: int, n: int, m: int)
    requires Indexes(g, keys) && 0 <= lo && hi < |g| && Thirds(g, keys, med, lo, hi, n, m)
    ensures forall x, y :: n + 1 <= x < m && n + 1 <= y < m ==> keys[g[x]] == keys[g[y]]
  {
  }

  lemma PartsSettled(b: seq<byte>, g: seq<nat>, keys: seq<nat>, med: nat, x: Span, y: Span, z: Span, lo: int, hi: int, n: int, m: int, d: nat)
    requires b != [] && View(b, keys, d) && Indexes(g, keys) && 0 <= lo && hi < |g| && Shared(b, g, lo, hi + 1, d)
    requires Thirds(g, keys, med, lo, hi, n, m) && Parts(x, y, z, lo, hi, n, m, d)
    ensures Settled(b, g, [x, y, z], lo, hi + 1)
  {
    hide Cmp;
    forall i, j | lo <= i < j < hi + 1 ensures InOrder(b, g, |b|, i, j) || Together([x, y, z], i, j) {
      if keys[g[i]] < keys[g[j]] {
        assert Alike(b, g, d, i, j);
        KeyOrder(b, g, keys, d, i, j);
      } else {
        OnePart(g, keys, med, lo, hi, n, m, i, j);
        PartsTogether(x, y, z, lo, hi, n, m, d, i, j);
      }
    }
  }

  lemma OnePart(g: seq<nat>, keys: seq<nat>, med: nat, lo: int, hi: int, n: int, m: int, i: int, j: int)
    requires Indexes(g, keys) && 0 <= lo && hi < |g| && Thirds(g, keys, med, lo, hi, n, m)
    requires lo <= i < j <= hi && keys[g[i]] >= keys[g[j]]
    ensures j <= n || m <= i || (n < i && j < m)
  {
  }

  lemma PartsTogether(x: Span, y: Span, z: Span, lo: int, hi: int, n: int, m: int, d: nat, i: int, j: int)
    requires Parts(x, y, z, lo, hi, n, m, d) && lo <= i < j <= hi && (j <= n || m <= i || (n < i && j < m))
    ensures Together([x, y, z], i, j)
  {
    var s := [x, y, z];
    if s[0].Has(i) && s[0].Has(j) {
    } else if s[1].Has(i) && s[1].Has(j) {
    } else {
      assert s[2].Has(i) && s[2].Has(j);
    }
  }

  /** Larger parts first, by exchanges. */
  method Arrange(lo: int, hi: int, n: int, m: int, d: nat) returns (x: Span, y: Span, z: Span)
    ensures Parts(x, y, z, lo, hi, n, m, d) && z.Size() <= y.Size() <= x.Size()
  {
    x, y, z := Span(lo, n, d), Span(m, hi, d), Span(n + 1, m - 1, d + 1);
    if x.Size() < y.Size() { x, y := y, x; }
    if y.Size() < z.Size() { y, z := z, y; }
    if x.Size() < y.Size() { x, y := y, x; }
  }

  // ---------- Work ----------

  ghost predicate AllSane(stack: seq<Span>) {
    forall p :: 0 <= p < |stack| ==> Sane(stack[p])
  }

  lemma DisjointSane(stack: seq<Span>, a: int, z: int)
    requires Disjoint(stack, a, z)
    ensures AllSane(stack)
  {
    forall p | 0 <= p < |stack| ensures Sane(stack[p]) { assert Fits(stack[p], a, z); }
  }

  lemma WorkSnoc(rest: seq<Span>, t: Span)
    requires AllSane(rest) && Sane(t)
    ensures AllSane(rest + [t]) && Work(rest + [t]) == Work(rest) + Weight(t.Size(), t.d)
  {
    hide Weight;
    assert (rest + [t])[..|rest|] == rest;
  }

  lemma WorkThree(rest: seq<Span>, x: Span, y: Span, z: Span)
    requires AllSane(rest) && Sane(x) && Sane(y) && Sane(z)
    ensures AllSane(rest + [x, y, z])
    ensures Work(rest + [x, y, z]) == Work(rest) + Weight(x.Size(), x.d) + Weight(y.Size(), y.d) + Weight(z.Size(), z.d)
  {
    hide Work, Weight;
    WorkSnoc(rest, x);
    WorkSnoc(rest + [x], y);
    WorkSnoc(rest + [x] + [y], z);
    assert rest + [x] + [y] + [z] == rest + [x, y, z];
  }

  lemma WorkFalls(rest: seq<Span>, top: Span, x: Span, y: Span, z: Span, n: int, m: int)
    requires AllSane(rest) && Sane(top) && top.d <= 14 && Parts(x, y, z, top.lo, top.hi, n, m, top.d)
    requires top.lo - 1 <= n && n + 1 < m <= top.hi + 1
    ensures AllSane(rest + [top]) && AllSane(rest + [x, y, z]) && Work(rest + [x, y, z]) < Work(rest + [top])
  {
    hide Work;
    WorkSnoc(rest, top);
    WorkThree(rest, x, y, z);
    Weights(n - top.lo + 1, top.hi - m + 1, m - n - 1, top.d);
  }

  lemma Weights(s0: nat, s1: nat, s2: nat, d: nat)
    requires s2 >= 1 && d <= 14
    ensures Weight(s0, d) + Weight(s1, d) + Weight(s2, d + 1) < Weight(s0 + s1 + s2, d)
    ensures Weight(s2, d + 1) < Weight(s2, d)
  {
    var w := 16 - d;
    assert 4 * (s0 + s1 + s2) * w == 4 * s0 * w + 4 * s1 * w + 4 * s2 * w;
    assert 4 * s2 * (w - 1) == 4 * s2 * w - 4 * s2;
  }

  // ---------- Comparisons still to come ----------

  /** What sorting every pending range can cost. */
  ghost function Load(stack: seq<Span>): nat
    requires AllSane(stack)
  {
    if stack == [] then 0
    else
      var t := stack[|stack| - 1];
      assert Sane(t);
      Load(stack[..|stack| - 1]) + Comparisons(t.Size())
  }

  lemma LoadSnoc(rest: seq<Span>, t: Span)
    requires AllSane(rest) && Sane(t)
    ensures AllSane(rest + [t]) && Load(rest + [t]) == Load(rest) + Comparisons(t.Size())
  {
    hide Comparisons;
    assert (rest + [t])[..|rest|] == rest;
  }

  /** Splitting a range takes comparisons away. */
  lemma LoadSplit(rest: seq<Span>, top: Span, x: Span, y: Span, z: Span)
    requires AllSane(rest) && Sane(top) && Sane(x) && Sane(y) && Sane(z) && x.Size() + y.Size() + z.Size() == top.Size()
    ensures AllSane(rest + [top]) && AllSane(rest + [x, y, z]) && Load(rest + [x, y, z]) <= Load(rest + [top])
  {
    hide Load, Meetings;
    LoadSnoc(rest, top);
    LoadSnoc(rest, x);
    LoadSnoc(rest + [x], y);
    LoadSnoc(rest + [x] + [y], z);
    assert rest + [x] + [y] + [z] == rest + [x, y, z];
    MeetingsAdd(x.Size(), y.Size());
    MeetingsAdd(x.Size() + y.Size(), z.Size());
  }

  // ---------- The loop ----------

  /** mmed3 */
  function Med3(a: byte, b: byte, c: byte): (m: byte)
    ensures m == a || m == b || m == c
    ensures (a <= m || b <= m) && (a <= m || c <= m) && (b <= m || c <= m)
    ensures (a >= m || b >= m) && (a >= m || c >= m) && (b >= m || c >= m)
  {
    var lo, hi := if a > b then b else a, if a > b then a else b;
    if hi > c then (if lo > c then lo else c) else hi
  }

  /** The keys d bytes in, which C reaches as block + d. */
  method Keys(block: array<byte>, ghost quadrant: seq<nat>, nblock: nat, d: nat) returns (keys: array<nat>)
    requires 0 < nblock <= block.Length && Workspace(block[..], quadrant, nblock) && d <= 14
    ensures fresh(keys) && View(block[..nblock], keys[..], d)
  {
    hide Cached;
    MainCompare.Sizes(block[..], quadrant, nblock);
    keys := new nat[nblock](i requires 0 <= i < nblock reads block => block[i + d]);
    ghost var b := block[..nblock];
    forall i | 0 <= i < nblock ensures keys[i] == At(b, i + d) {
      ReadsTrue(block[..], quadrant, nblock, i + d);
      assert block[..][..nblock] == b;
    }
  }

  /** A pivot that some entry of the range has. */
  method Pivot(ptr: array<nat>, keys: array<nat>, lo: nat, hi: nat) returns (med: nat)
    requires Indexes(ptr[..], keys[..]) && lo <= hi < ptr.Length && forall i :: 0 <= i < keys.Length ==> keys[i] < 256
    ensures exists k :: lo <= k <= hi && keys[..][ptr[..][k]] == med
  {
    var mid := (lo + hi) / 2;
    med := Med3(keys[ptr[lo]], keys[ptr[hi]], keys[ptr[mid]]);
    assert keys[..][ptr[..][lo]] == med || keys[..][ptr[..][hi]] == med || keys[..][ptr[..][mid]] == med;
  }

  lemma ViewBytes(b: seq<byte>, keys: seq<nat>, d: nat, f: seq<nat>)
    requires b != [] && View(b, keys, d) && Listing(f, |b|)
    ensures Indexes(f, keys) && forall i :: 0 <= i < |keys| ==> keys[i] < 256
  {
  }

  /** Case two and three: partition the top span on its next byte. */
  method SplitTop(ptr: array<nat>, block: array<byte>, quadrant: array<nat>, nblock: nat, rest: seq<Span>, top: Span,
                  ghost f0: seq<nat>, ghost a: nat, ghost z: nat) returns (next: seq<Span>)
    requires Setting(ptr, block, quadrant, nblock) && Pending(block[..nblock], f0, ptr[..], rest + [top], a, z)
    requires top.hi - top.lo >= SMALL_THRESH && top.d <= DEPTH_THRESH
    modifies ptr
    ensures Setting(ptr, block, quadrant, nblock) && Pending(block[..nblock], f0, ptr[..], next, a, z)
    ensures AllSane(rest + [top]) && AllSane(next) && Work(next) < Work(rest + [top]) && Load(next) <= Load(rest + [top])
  {
    hide Workspace, RangePerm, Load, Settled, AllShared, Thinning, Thirds, AllEqual, Work, View, Parts, Indexes;
    ghost var b, f := block[..nblock], ptr[..];
    TopFacts(b, f0, f, rest, top, a, z);
    var lo, hi, d := top.lo, top.hi, top.d;
    var keys := Keys(block, quadrant[..], nblock, d);
    ghost var ks := keys[..];
    ViewBytes(b, ks, d, f);
    var med := Pivot(ptr, keys, lo, hi);
    var allEqual, n, m := Partition(ptr, keys, lo, hi, med);
    ghost var g := ptr[..];
    SettingKept(ptr, block, quadrant, nblock, f, lo, hi + 1);
    SharedKept(b, f, g, lo, hi + 1, d);
    if allEqual {
      var t := Span(lo, hi, d + 1);
      next := rest + [t];
      AllDeeper(b, g, ks, med, lo, hi, d);
      ThinSame(rest, top, t, z - a);
      PendingStill(b, f0, f, g, rest, top, [t], a, z);
      SameFalls(rest, top, t);
      SameLoad(rest, top, t);
    } else {
      ThirdsBounds(g, ks, med, lo, hi, n, m);
      var x, y, w := Arrange(lo, hi, n, m, d);
      next := rest + [x, y, w];
      PartsInside(x, y, w, lo, hi, n, m, d);
      PartsShared(b, g, ks, med, x, y, w, lo, hi, n, m, d);
      PartsSettled(b, g, ks, med, x, y, w, lo, hi, n, m, d);
      ThinSplit(rest, top, x, y, w, z - a);
      PendingStill(b, f0, f, g, rest, top, [x, y, w], a, z);
      WorkFalls(rest, top, x, y, w, n, m);
      PartsSane(x, y, w, lo, hi, n, m, d);
      LoadSplit(rest, top, x, y, w);
    }
  }

  lemma SameLoad(rest: seq<Span>, top: Span, t: Span)
    requires AllSane(rest) && Sane(top) && Sane(t) && t.Size() == top.Size()
    ensures AllSane(rest + [top]) && AllSane(rest + [t]) && Load(rest + [t]) == Load(rest + [top])
  {
    hide Load;
    LoadSnoc(rest, top);
    LoadSnoc(rest, t);
  }

  lemma PartsSane(x: Span, y: Span, z: Span, lo: int, hi: int, n: int, m: int, d: nat)
    requires Parts(x, y, z, lo, hi, n, m, d) && lo - 1 <= n && n + 1 < m <= hi + 1 && d <= 14
    ensures Sane(x) && Sane(y) && Sane(z)
  {
  }

  lemma TopFacts(b: seq<byte>, f0: seq<nat>, f: seq<nat>, rest: seq<Span>, top: Span, a: nat, z: nat)
    requires Pending(b, f0, f, rest + [top], a, z)
    ensures a <= top.lo <= top.hi + 1 <= z <= |f| && top.d <= 15 && Shared(b, f, top.lo, top.hi + 1, top.d)
    ensures Thinning(rest + [top], z - a) && AllSane(rest) && Sane(top) && AllSane(rest + [top])
  {
    var s := rest + [top];
    assert s[|rest|] == top && Fits(s[|rest|], a, z) && SpanShared(b, f, s[|rest|]);
    DisjointSane(s, a, z);
    forall p | 0 <= p < |rest| ensures Sane(rest[p]) { assert Sane(s[p]); }
  }

  lemma AllDeeper(b: seq<byte>, g: seq<nat>, keys: seq<nat>, med: nat, lo: int, hi: int, d: nat)
    requires b != [] && View(b, keys, d) && Indexes(g, keys) && 0 <= lo <= hi < |g| && Shared(b, g, lo, hi + 1, d) && d <= 14
    requires AllEqual(g, keys, med, lo, hi)
    ensures AllShared(b, g, [Span(lo, hi, d + 1)]) && Inside([Span(lo, hi, d + 1)], Span(lo, hi, d))
    ensures Settled(b, g, [Span(lo, hi, d + 1)], lo, hi + 1)
  {
    hide Cmp;
    Deeper(b, g, keys, lo, hi + 1, d);
    var s := [Span(lo, hi, d + 1)];
    forall x, y | lo <= x < y < hi + 1 ensures Together(s, x, y) {
      assert s[0].Has(x) && s[0].Has(y);
    }
  }

  lemma SameFalls(rest: seq<Span>, top: Span, t: Span)
    requires AllSane(rest) && Sane(top) && t == Span(top.lo, top.hi, top.d + 1) && top.d <= 14 && top.Size() >= 1
    ensures AllSane(rest + [top]) && AllSane(rest + [t]) && Work(rest + [t]) < Work(rest + [top])
  {
    hide Work;
    WorkSnoc(rest, top);
    WorkSnoc(rest, t);
    Weights(0, 0, top.Size(), top.d);
  }

  lemma NoSpans(b: seq<byte>, g: seq<nat>, top: Span)
    requires b != [] && 0 <= top.lo && top.hi + 1 <= |g| && Ordered(b, g, top.lo, top.hi + 1)
    ensures AllShared(b, g, []) && Inside([], top) && Settled(b, g, [], top.lo, top.hi + 1)
  {
  }

  /** Case one: the span has been sorted. */
  lemma TopDone(b: seq<byte>, f0: seq<nat>, f: seq<nat>, g: seq<nat>, rest: seq<Span>, top: Span, a: nat, z: nat)
    requires Pending(b, f0, f, rest + [top], a, z) && |f| == |g| && top.hi + 1 <= |g| && 0 <= top.lo
    requires RangePerm(f, g, top.lo, top.hi + 1) && Ordered(b, g, top.lo, top.hi + 1)
    ensures Pending(b, f0, g, rest, a, z)
    ensures AllSane(rest) && AllSane(rest + [top]) && Work(rest) < Work(rest + [top])
  {
    hide RangePerm, AllShared, Work, Weight, Ordered, Settled, Thinning, Inside, Disjoint, Listing;
    TopFacts(b, f0, f, rest, top, a, z);
    NoSpans(b, g, top);
    ThinPop(rest, top, z - a);
    assert rest + [] == rest;
    PendingStill(b, f0, f, g, rest, top, [], a, z);
    WorkSnoc(rest, top);
  }

  /** mainQSort3: permutes only its range, terminates, never overflows its stack
      (AssertH 1001), and leaves the range in rotation order unless the budget
      ran out. */
  method QSort3Main(ptr: array<nat>, block: array<byte>, quadrant: array<nat>, nblock: nat, loSt: nat, hiSt: nat, dSt: nat, budget0: int)
    returns (budget: int)
    requires Setting(ptr, block, quadrant, nblock) && nblock <= 900000
    requires loSt <= hiSt < ptr.Length && dSt <= DEPTH_THRESH && Shared(block[..nblock], ptr[..], loSt, hiSt + 1, dSt)
    modifies ptr
    ensures RangePerm(old(ptr[..]), ptr[..], loSt, hiSt + 1) && Spent(block[..nblock], budget0, budget, Comparisons(hiSt + 1 - loSt))
    ensures budget >= 0 ==> Ordered(block[..nblock], ptr[..], loSt, hiSt + 1)
  {
    hide Workspace, Listing, Pending, RangePerm, Ordered, Work, Load, Sane, Spent, Comparisons;
    ghost var b, f0 := block[..nblock], ptr[..];
    ghost var a, z := loSt, hiSt + 1;
    var stack := [Span(loSt, hiSt, dSt)];
    budget := budget0;
    ListingSize(ptr[..], nblock);
    Start(ptr, block, quadrant, nblock, loSt, hiSt, dSt);
    StartLoad(loSt, hiSt, dSt);
    SpentNone(b, budget0);
    ghost var c: nat := 0;
    while stack != []
      invariant Setting(ptr, block, quadrant, nblock) && Pending(b, f0, ptr[..], stack, a, z)
      invariant AllSane(stack) && Spent(b, budget0, budget, c) && c + Load(stack) <= Comparisons(z - a)
      decreases Work(stack)
    {
      PendingRoom(b, f0, ptr[..], stack, a, z);
      assert |stack| < STACK_SIZE - 2;
      ghost var before, d := budget, 0;
      var abandoned;
      stack, budget, abandoned, d := SortTopSpan(ptr, block, quadrant, nblock, stack, budget, f0, a, z);
      SpentMore(b, budget0, before, budget, c, d, c + d);
      c := c + d;
      if abandoned { SpentMost(b, budget0, budget, c, Comparisons(z - a)); return; }
    }
    SpentMost(b, budget0, budget, c, Comparisons(z - a));
    NothingPending(b, f0, ptr[..], a, z);
  }

  lemma SpentMost(b: seq<byte>, budget0: int, budget: int, c: nat, e: nat)
    requires b != [] && Spent(b, budget0, budget, c) && c <= e
    ensures Spent(b, budget0, budget, e)
  {
    SpentNone(b, budget);
    SpentMore(b, budget0, budget, budget, c, 0, e);
  }

  lemma StartLoad(lo: nat, hi: nat, d: nat)
    requires lo <= hi && d <= 15
    ensures var s := [Span(lo, hi, d)]; AllSane(s) && Load(s) == Comparisons(hi + 1 - lo)
  {
    hide Comparisons;
    LoadSnoc([], Span(lo, hi, d));
    assert [] + [Span(lo, hi, d)] == [Span(lo, hi, d)];
  }

  /** One iteration: pops a span and sorts or splits it, at the cost of c
      comparisons. */
  method SortTopSpan(ptr: array<nat>, block: array<byte>, quadrant: array<nat>, nblock: nat, stack: seq<Span>, budget0: int,
                     ghost f0: seq<nat>, ghost a: nat, ghost z: nat)
    returns (next: seq<Span>, budget: int, abandoned: bool, ghost c: nat)
    requires Setting(ptr, block, quadrant, nblock) && nblock <= 900000
    requires stack != [] && Pending(block[..nblock], f0, ptr[..], stack, a, z) && AllSane(stack)
    modifies ptr
    ensures RangePerm(f0, ptr[..], a, z) && (abandoned ==> budget < 0)
    ensures Spent(block[..nblock], budget0, budget, c) && c <= Load(stack)
    ensures !abandoned ==> Setting(ptr, block, quadrant, nblock) && Pending(block[..nblock], f0, ptr[..], next, a, z)
    ensures !abandoned ==> AllSane(next) && Work(next) < Work(stack) && c + Load(next) <= Load(stack)
  {
    hide Workspace, RangePerm, Ordered, Shared, Settled, AllShared, Thinning, Disjoint, Listing, Work, Load, Comparisons, Spent, AllSane;
    ghost var b := block[..nblock];
    var top, rest := stack[|stack| - 1], stack[..|stack| - 1];
    assert stack == rest + [top];
    TopFacts(b, f0, ptr[..], rest, top, a, z);
    budget, abandoned, c := budget0, false, 0;
    SpentNone(b, budget0);
    if top.hi - top.lo < SMALL_THRESH || top.d > DEPTH_THRESH {
      ghost var f := ptr[..];
      budget := SimpleSort(ptr, block, quadrant, nblock, top.lo, top.hi, top.d, budget);
      c := Comparisons(top.Size());
      LoadSnoc(rest, top);
      Abandoned(f0, f, ptr[..], top, a, z);
      next, abandoned := rest, budget < 0;
      if abandoned { return; }
      SettingKept(ptr, block, quadrant, nblock, f, top.lo, top.hi + 1);
      TopDone(b, f0, f, ptr[..], rest, top, a, z);
    } else {
      next := SplitTop(ptr, block, quadrant, nblock, rest, top, f0, a, z);
    }
  }

  lemma PendingRoom(b: seq<byte>, f0: seq<nat>, f: seq<nat>, stack: seq<Span>, a: int, z: int)
    requires Pending(b, f0, f, stack, a, z) && z - a < 0x8000_0000
    ensures |stack| < STACK_SIZE - 2
  {
    RoomLeft(stack, z - a);
  }

  lemma Start(ptr: array<nat>, block: array<byte>, quadrant: array<nat>, nblock: nat, lo: nat, hi: nat, d: nat)
    requires Setting(ptr, block, quadrant, nblock) && lo <= hi < ptr.Length && d <= 15
    requires Shared(block[..nblock], ptr[..], lo, hi + 1, d)
    ensures Pending(block[..nblock], ptr[..], ptr[..], [Span(lo, hi, d)], lo, hi + 1) && AllSane([Span(lo, hi, d)])
  {
    hide Workspace, Pending, Shared;
    StartSpans(block[..nblock], ptr[..], lo, hi, d);
  }

  lemma StartSpans(b: seq<byte>, f: seq<nat>, lo: nat, hi: nat, d: nat)
    requires b != [] && lo <= hi < |f| && d <= 15 && Listing(f, |b|) && Shared(b, f, lo, hi + 1, d)
    ensures Pending(b, f, f, [Span(lo, hi, d)], lo, hi + 1) && AllSane([Span(lo, hi, d)])
  {
    hide Cmp;
    var s := [Span(lo, hi, d)];
    forall x, y | lo <= x < y < hi + 1 ensures Together(s, x, y) {
      assert s[0].Has(x) && s[0].Has(y);
    }
    assert s[0].Size() * Pow2(0) == hi + 1 - lo;
  }

  lemma Abandoned(f0: seq<nat>, f: seq<nat>, g: seq<nat>, top: Span, a: int, z: int)
    requires RangePerm(f0, f, a, z) && RangePerm(f, g, top.lo, top.hi + 1) && 0 <= a <= top.lo && top.hi + 1 <= z <= |f|
    ensures RangePerm(f0, g, a, z)
  {
    hide RangePerm;
    RangePermWiden(f, g, top.lo, top.hi + 1, a, z);
    RangePermTrans(f0, f, g, a, z);
  }

  lemma NothingPending(b: seq<byte>, f0: seq<nat>, f: seq<nat>, a: int, z: int)
    requires Pending(b, f0, f, [], a, z)
    ensures RangePerm(f0, f, a, z) && b != [] && 0 <= a && z <= |f| && Ordered(b, f, a, z)
  {
  }
}
