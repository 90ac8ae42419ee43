/**
 The index sorts of blocksort.c: fallbackSimpleSort and the explicit-stack
 three-way quicksort fallbackQSort3. Both reorder a range of fmap by
 eclass[fmap[i]] and touch nothing else.
 */
module FallbackQSort {
  import opened Bits

  // ---------- What the sorts keep ----------

  ghost predicate Indexes(f: seq<nat>, e: seq<nat>) {
    forall i :: 0 <= i < |f| ==> f[i] < |e|
  }

  /** g rearranges f inside [lo, hi) and equals it outside. */
  ghost predicate RangePerm(f: seq<nat>, g: seq<nat>, lo: int, hi: int) {
    && |f| == |g| && 0 <= lo <= hi <= |f|
    && f[..lo] == g[..lo] && f[hi..] == g[hi..]
    && multiset(f[lo..hi]) == multiset(g[lo..hi])
  }

  ghost predicate Sorted(f: seq<nat>, e: seq<nat>, lo: int, hi: int)
    requires Indexes(f, e) && hi <= |f|
  {
    forall i, j :: 0 <= i && lo <= i < j < hi ==> e[f[i]] <= e[f[j]]
  }

  lemma ShortSorted(f: seq<nat>, e: seq<nat>, lo: int, hi: int)
    requires Indexes(f, e) && hi <= |f| && hi <= lo + 1
    ensures Sorted(f, e, lo, hi) && Sorted(f, e, lo + 1, hi)
  {
  }

  /** Every key of [a, k) is at most every key of [k, z). */
  ghost predicate Cut(f: seq<nat>, e: seq<nat>, a: int, z: int, k: int)
    requires Indexes(f, e) && 0 <= a && z <= |f|
  {
    forall i, j :: a <= i < k && k <= j < z ==> e[f[i]] <= e[f[j]]
  }

  lemma RangePermWhole(f: seq<nat>, g: seq<nat>, lo: int, hi: int)
    requires RangePerm(f, g, lo, hi)
    ensures multiset(f) == multiset(g)
  {
    assert f == f[..lo] + f[lo..hi] + f[hi..];
    assert g == g[..lo] + g[lo..hi] + g[hi..];
  }

  lemma RangePermWiden(f: seq<nat>, g: seq<nat>, lo: int, hi: int, a: int, z: int)
    requires RangePerm(f, g, lo, hi) && 0 <= a <= lo && hi <= z <= |f|
    ensures RangePerm(f, g, a, z)
  {
    assert f[..a] == f[..lo][..a] && g[..a] == g[..lo][..a];
    assert f[z..] == f[hi..][z - hi..] && g[z..] == g[hi..][z - hi..];
    assert f[a..lo] == f[..lo][a..] && g[a..lo] == g[..lo][a..];
    assert f[hi..z] == f[hi..][..z - hi] && g[hi..z] == g[hi..][..z - hi];
    assert f[a..z] == f[a..lo] + f[lo..hi] + f[hi..z];
    assert g[a..z] == g[a..lo] + g[lo..hi] + g[hi..z];
  }

  lemma RangePermRefl(f: seq<nat>, lo: int, hi: int)
    requires 0 <= lo <= hi <= |f|
    ensures RangePerm(f, f, lo, hi)
  {
  }

  lemma RangePermTrans(f: seq<nat>, g: seq<nat>, h: seq<nat>, lo: int, hi: int)
    requires RangePerm(f, g, lo, hi) && RangePerm(g, h, lo, hi)
    ensures RangePerm(f, h, lo, hi)
  {
  }

  /** Every entry of the range of g comes from the range of f. */
  lemma RangePermSource(f: seq<nat>, g: seq<nat>, lo: int, hi: int, i: int) returns (j: int)
    requires RangePerm(f, g, lo, hi) && 0 <= i < |f|
    ensures 0 <= j < |f| && f[j] == g[i]
    ensures if lo <= i < hi then lo <= j < hi else j == i
  {
    if lo <= i < hi {
      assert g[lo..hi][i - lo] in multiset(g[lo..hi]);
      assert g[i] in f[lo..hi];
      var d :| 0 <= d < hi - lo && f[lo..hi][d] == g[i];
      j := lo + d;
    } else {
      j := i;
      if i < lo { assert f[..lo][i] == g[..lo][i]; } else { assert f[hi..][i - hi] == g[hi..][i - hi]; }
    }
  }

  /** A cut outside the rearranged range survives. */
  lemma CutKept(f: seq<nat>, g: seq<nat>, e: seq<nat>, lo: int, hi: int, a: int, z: int, k: int)
    requires RangePerm(f, g, lo, hi) && Indexes(f, e) && Indexes(g, e)
    requires 0 <= a <= lo && hi <= z <= |f| && (k <= lo || hi <= k)
    requires Cut(f, e, a, z, k)
    ensures Cut(g, e, a, z, k)
  {
    forall i, j | a <= i < k && k <= j < z ensures e[g[i]] <= e[g[j]] {
      var i' := RangePermSource(f, g, lo, hi, i);
      var j' := RangePermSource(f, g, lo, hi, j);
      assert e[f[i']] <= e[f[j']];
    }
  }

  ghost function Swap(f: seq<nat>, i: int, j: int): (g: seq<nat>)
    requires 0 <= i < |f| && 0 <= j < |f|
    ensures |g| == |f| && g[i] == f[j] && g[j] == f[i]
    ensures forall k :: 0 <= k < |f| && k != i && k != j ==> g[k] == f[k]
  {
    f[i := f[j]][j := f[i]]
  }

  lemma SwapMultiset(s: seq<nat>, i: int, j: int)
    requires 0 <= i < |s| && 0 <= j < |s|
    ensures multiset(s[i := s[j]][j := s[i]]) == multiset(s)
  {
  }

  lemma SwapPerm(f0: seq<nat>, f: seq<nat>, e: seq<nat>, i: int, j: int, lo: int, hi: int)
    requires RangePerm(f0, f, lo, hi) && Indexes(f, e) && |f0| == |f|
    requires 0 <= lo <= i < hi <= |f| && lo <= j < hi
    ensures RangePerm(f0, Swap(f, i, j), lo, hi) && Indexes(Swap(f, i, j), e)
  {
    hide RangePerm;
    SwapRange(f, i, j, lo, hi);
    RangePermTrans(f0, f, Swap(f, i, j), lo, hi);
  }

  lemma SwapRange(f: seq<nat>, i: int, j: int, lo: int, hi: int)
    requires 0 <= lo <= i < hi <= |f| && lo <= j < hi
    ensures RangePerm(f, Swap(f, i, j), lo, hi)
  {
    hide Swap;
    var g, s := Swap(f, i, j), f[lo..hi];
    assert f[..lo] == g[..lo];
    assert f[hi..] == g[hi..];
    assert multiset(g[lo..hi]) == multiset(s) by {
      assert g[lo..hi] == s[i - lo := s[j - lo]][j - lo := s[i - lo]];
      SwapMultiset(s, i - lo, j - lo);
    }
  }

  // ---------- fallbackSimpleSort ----------

  /** The entry at `from`, moved to `to`, with what it passed shifted down. */
  ghost predicate Shifted(f: seq<nat>, g: seq<nat>, from: int, to: int) {
    && |f| == |g| && 0 <= from <= to < |f|
    && (forall k :: 0 <= k < from || to < k < |f| ==> g[k] == f[k])
    && (forall k :: from <= k < to ==> g[k] == f[k + 1])
    && g[to] == f[from]
  }

  lemma ShiftedStart(f: seq<nat>, i: int)
    requires 0 <= i < |f|
    ensures Shifted(f, f, i, i)
  {
  }

  lemma ShiftedStep(f: seq<nat>, g: seq<nat>, i: int, j: int)
    requires 0 <= i < j < |f| && Shifted(f, g, i, j - 1)
    ensures g[j] == f[j]
    ensures Shifted(f, Swap(g, j - 1, j), i, j)
  {
  }

  lemma ShiftedSorted(f: seq<nat>, g: seq<nat>, e: seq<nat>, i: int, to: int, hi: int)
    requires Indexes(f, e) && Indexes(g, e) && hi <= |f|
    requires Shifted(f, g, i, to) && to < hi
    requires Sorted(f, e, i + 1, hi)
    requires 0 <= i <= to && Passed(f, e, i, to + 1, e[f[i]])
    requires to + 1 < hi ==> e[f[i]] <= e[g[to + 1]]
    ensures Sorted(g, e, i, hi)
  {
    assert to + 1 < hi ==> g[to + 1] == f[to + 1];
    forall x, y | i <= x < y < hi ensures e[g[x]] <= e[g[y]] {
      if x == to && y > to + 1 { assert e[f[to + 1]] <= e[f[y]]; }
    }
  }

  /** Inserts entry i into the stride-4 chain above it. The ghost g is fmap with
      the entry in hand put back into the hole. */
  method InsertByFours(fmap: array<nat>, eclass: array<nat>, i: nat, hi: nat)
    requires fmap != eclass && Indexes(fmap[..], eclass[..])
    requires i <= hi < fmap.Length
    modifies fmap
    ensures Indexes(fmap[..], eclass[..])
    ensures RangePerm(old(fmap[..]), fmap[..], i, hi + 1)
  {
    hide RangePerm;
    ghost var f0, e := fmap[..], eclass[..];
    var tmp := fmap[i];
    var ecTmp := eclass[tmp];
    var j := i + 4;
    ghost var g := f0;
    RangePermRefl(f0, i, hi + 1);
    while j <= hi && ecTmp > eclass[fmap[j]]
      invariant i + 4 <= j <= hi + 4
      invariant |g| == fmap.Length && Indexes(g, e) && RangePerm(f0, g, i, hi + 1)
      invariant g[j - 4] == tmp
      invariant forall k :: 0 <= k < |g| && k != j - 4 ==> fmap[k] == g[k]
    {
      SwapPerm(f0, g, e, j - 4, j, i, hi + 1);
      g := Swap(g, j - 4, j);
      fmap[j - 4] := fmap[j];
      j := j + 4;
    }
    fmap[j - 4] := tmp;
    assert fmap[..] == g;
  }

  /** Entries i + 1 to j - 1 have smaller keys than the one being inserted. */
  ghost predicate Passed(f: seq<nat>, e: seq<nat>, i: int, j: int, key: nat)
    requires Indexes(f, e) && 0 <= i < j <= |f|
  {
    forall k :: i < k < j ==> e[f[k]] < key
  }

  lemma PassedNone(f: seq<nat>, e: seq<nat>, i: int, key: nat)
    requires Indexes(f, e) && 0 <= i < |f|
    ensures Passed(f, e, i, i + 1, key)
  {
  }

  lemma PassedOne(f: seq<nat>, e: seq<nat>, i: int, j: int, key: nat)
    requires Indexes(f, e) && 0 <= i < j < |f| && Passed(f, e, i, j, key) && e[f[j]] < key
    ensures Passed(f, e, i, j + 1, key)
  {
  }

  /** Moves smaller entries down to make room for entry i: place j - 1 is free,
      and g is fmap with the entry put there. */
  method MakeRoom(fmap: array<nat>, eclass: array<nat>, i: nat, hi: nat) returns (j: nat, ghost g: seq<nat>)
    requires fmap != eclass && Indexes(fmap[..], eclass[..]) && i <= hi < fmap.Length
    modifies fmap
    ensures i + 1 <= j <= hi + 1 && |g| == fmap.Length && Indexes(g, eclass[..])
    ensures RangePerm(old(fmap[..]), g, i, hi + 1) && Shifted(old(fmap[..]), g, i, j - 1)
    ensures g[j - 1] == old(fmap[i]) && forall k :: 0 <= k < |g| && k != j - 1 ==> fmap[k] == g[k]
    ensures Passed(old(fmap[..]), eclass[..], i, j, eclass[old(fmap[i])])
    ensures j <= hi ==> eclass[old(fmap[i])] <= eclass[..][g[j]]
  {
    hide RangePerm, Sorted, Shifted, Swap, Passed;
    ghost var f0, e := fmap[..], eclass[..];
    var ecTmp := eclass[fmap[i]];
    j := i + 1;
    g := f0;
    RangePermRefl(f0, i, hi + 1);
    ShiftedStart(f0, i);
    PassedNone(f0, e, i, ecTmp);
    while j <= hi && ecTmp > eclass[fmap[j]]
      invariant i + 1 <= j <= hi + 1
      invariant |g| == fmap.Length && Indexes(g, e) && RangePerm(f0, g, i, hi + 1)
      invariant Shifted(f0, g, i, j - 1) && g[j - 1] == f0[i]
      invariant forall k :: 0 <= k < |g| && k != j - 1 ==> fmap[k] == g[k]
      invariant Passed(f0, e, i, j, ecTmp)
    {
      SwapPerm(f0, g, e, j - 1, j, i, hi + 1);
      ShiftedStep(f0, g, i, j);
      PassedOne(f0, e, i, j, ecTmp);
      g := Swap(g, j - 1, j);
      fmap[j - 1] := fmap[j];
      j := j + 1;
    }
  }

  /** Inserts entry i into the sorted run above it. */
  method InsertByOnes(fmap: array<nat>, eclass: array<nat>, i: nat, hi: nat)
    requires fmap != eclass && Indexes(fmap[..], eclass[..])
    requires i <= hi < fmap.Length
    requires Sorted(fmap[..], eclass[..], i + 1, hi + 1)
    modifies fmap
    ensures Indexes(fmap[..], eclass[..])
    ensures RangePerm(old(fmap[..]), fmap[..], i, hi + 1)
    ensures Sorted(fmap[..], eclass[..], i, hi + 1)
  {
    hide RangePerm, Sorted, Shifted, Passed;
    ghost var f0 := fmap[..];
    var tmp := fmap[i];
    var j, g := MakeRoom(fmap, eclass, i, hi);
    fmap[j - 1] := tmp;
    assert fmap[..] == g;
    ShiftedSorted(f0, g, eclass[..], i, j - 1, hi + 1);
  }

  /** The preliminary pass at stride 4. */
  method PassByFours(fmap: array<nat>, eclass: array<nat>, lo: nat, hi: int)
    requires fmap != eclass && Indexes(fmap[..], eclass[..])
    requires lo <= hi + 1 <= fmap.Length
    modifies fmap
    ensures Indexes(fmap[..], eclass[..])
    ensures RangePerm(old(fmap[..]), fmap[..], lo, hi + 1)
  {
    hide RangePerm, Indexes;
    ghost var f0 := fmap[..];
    RangePermRefl(f0, lo, hi + 1);
    var i := hi - 4;
    while i >= lo
      invariant i <= hi - 4
      invariant Indexes(fmap[..], eclass[..])
      invariant RangePerm(f0, fmap[..], lo, hi + 1)
    {
      ghost var f := fmap[..];
      InsertByFours(fmap, eclass, i, hi);
      RangePermWiden(f, fmap[..], i, hi + 1, lo, hi + 1);
      RangePermTrans(f0, f, fmap[..], lo, hi + 1);
      i := i - 1;
    }
  }

  /** The final insertion pass. */
  method PassByOnes(fmap: array<nat>, eclass: array<nat>, lo: nat, hi: int)
    requires fmap != eclass && Indexes(fmap[..], eclass[..])
    requires lo <= hi + 1 <= fmap.Length
    modifies fmap
    ensures Indexes(fmap[..], eclass[..])
    ensures RangePerm(old(fmap[..]), fmap[..], lo, hi + 1)
    ensures Sorted(fmap[..], eclass[..], lo, hi + 1)
  {
    hide RangePerm, Indexes, Sorted;
    ghost var f0 := fmap[..];
    RangePermRefl(f0, lo, hi + 1);
    ShortSorted(fmap[..], eclass[..], hi, hi + 1);
    var i := hi - 1;
    while i >= lo
      invariant i <= hi - 1 && (i >= lo - 1 || i == hi - 1)
      invariant Indexes(fmap[..], eclass[..])
      invariant RangePerm(f0, fmap[..], lo, hi + 1)
      invariant Sorted(fmap[..], eclass[..], i + 1, hi + 1)
    {
      ghost var f := fmap[..];
      InsertByOnes(fmap, eclass, i, hi);
      RangePermWiden(f, fmap[..], i, hi + 1, lo, hi + 1);
      RangePermTrans(f0, f, fmap[..], lo, hi + 1);
      i := i - 1;
    }
    if lo > hi { ShortSorted(fmap[..], eclass[..], lo, hi + 1); }
  }

  /** fallbackSimpleSort: sorts fmap[lo..hi]. */
  method SimpleSort(fmap: array<nat>, eclass: array<nat>, lo: nat, hi: int)
    requires fmap != eclass && Indexes(fmap[..], eclass[..])
    requires lo <= hi + 1 <= fmap.Length
    modifies fmap
    ensures Indexes(fmap[..], eclass[..])
    ensures RangePerm(old(fmap[..]), fmap[..], lo, hi + 1)
    ensures Sorted(fmap[..], eclass[..], lo, hi + 1)
  {
    hide RangePerm, Indexes, Sorted;
    ghost var f0 := fmap[..];
    RangePermRefl(f0, lo, hi + 1);
    if lo == hi {
      ShortSorted(fmap[..], eclass[..], lo, hi + 1);
      return;
    }
    if hi - lo > 3 {
      PassByFours(fmap, eclass, lo, hi);
    }
    ghost var f := fmap[..];
    PassByOnes(fmap, eclass, lo, hi);
    RangePermTrans(f0, f, fmap[..], lo, hi + 1);
  }

  // ---------- The three-way partition of fallbackQSort3 ----------

  /** Keys equal to med at both ends of [lo, hi], smaller ones after the left
      end, larger ones before the right end, the middle unread. */
  ghost predicate Regions(f: seq<nat>, e: seq<nat>, med: nat, lo: int, hi: int,
                          ltLo: int, unLo: int, unHi: int, gtHi: int)
    requires Indexes(f, e) && 0 <= lo && hi < |f|
  {
    && lo <= ltLo <= unLo <= unHi + 1 <= gtHi + 1 <= hi + 1
    && (forall k :: lo <= k < ltLo ==> e[f[k]] == med)
    && (forall k :: ltLo <= k < unLo ==> e[f[k]] < med)
    && (forall k :: unHi < k <= gtHi ==> e[f[k]] > med)
    && (forall k :: gtHi < k <= hi ==> e[f[k]] == med)
  }

  method SwapEntries(fmap: array<nat>, i: nat, j: nat)
    requires i < fmap.Length && j < fmap.Length
    modifies fmap
    ensures fmap[..] == Swap(old(fmap[..]), i, j)
  {
    var t := fmap[i];
    fmap[i] := fmap[j];
    fmap[j] := t;
  }

  /** Reads up from the left past keys that are not above med. */
  method ScanUp(fmap: array<nat>, eclass: array<nat>, ghost f0: seq<nat>, lo: nat, hi: nat, med: nat,
                ltLo0: int, unLo0: int, unHi: int, ghost gtHi: int)
    returns (ltLo: int, unLo: int)
    requires fmap != eclass && Indexes(fmap[..], eclass[..]) && lo <= hi < fmap.Length
    requires RangePerm(f0, fmap[..], lo, hi + 1) && |f0| == fmap.Length
    requires Regions(fmap[..], eclass[..], med, lo, hi, ltLo0, unLo0, unHi, gtHi)
    modifies fmap
    ensures Indexes(fmap[..], eclass[..]) && RangePerm(f0, fmap[..], lo, hi + 1)
    ensures Regions(fmap[..], eclass[..], med, lo, hi, ltLo, unLo, unHi, gtHi)
    ensures unLo >= unLo0 && (unLo <= unHi ==> eclass[fmap[unLo]] > med)
  {
    hide RangePerm, Swap;
    ltLo, unLo := ltLo0, unLo0;
    while unLo <= unHi && eclass[fmap[unLo]] <= med
      invariant Indexes(fmap[..], eclass[..]) && RangePerm(f0, fmap[..], lo, hi + 1)
      invariant Regions(fmap[..], eclass[..], med, lo, hi, ltLo, unLo, unHi, gtHi)
      invariant unLo >= unLo0
    {
      if eclass[fmap[unLo]] == med {
        SwapPerm(f0, fmap[..], eclass[..], unLo, ltLo, lo, hi + 1);
        SwapEntries(fmap, unLo, ltLo);
        ltLo := ltLo + 1;
      }
      unLo := unLo + 1;
    }
  }

  /** Reads down from the right past keys that are not below med. */
  method ScanDown(fmap: array<nat>, eclass: array<nat>, ghost f0: seq<nat>, lo: nat, hi: nat, med: nat,
                  ghost ltLo: int, unLo: int, unHi0: int, gtHi0: int)
    returns (unHi: int, gtHi: int)
    requires fmap != eclass && Indexes(fmap[..], eclass[..]) && lo <= hi < fmap.Length
    requires RangePerm(f0, fmap[..], lo, hi + 1) && |f0| == fmap.Length
    requires Regions(fmap[..], eclass[..], med, lo, hi, ltLo, unLo, unHi0, gtHi0)
    requires unLo <= unHi0 ==> eclass[fmap[unLo]] > med
    modifies fmap
    ensures Indexes(fmap[..], eclass[..]) && RangePerm(f0, fmap[..], lo, hi + 1)
    ensures Regions(fmap[..], eclass[..], med, lo, hi, ltLo, unLo, unHi, gtHi)
    ensures unHi <= unHi0
    ensures unLo <= unHi ==> eclass[fmap[unLo]] > med && eclass[fmap[unHi]] < med
  {
    hide RangePerm, Swap;
    unHi, gtHi := unHi0, gtHi0;
    while unLo <= unHi && eclass[fmap[unHi]] >= med
      invariant Indexes(fmap[..], eclass[..]) && RangePerm(f0, fmap[..], lo, hi + 1)
      invariant Regions(fmap[..], eclass[..], med, lo, hi, ltLo, unLo, unHi, gtHi)
      invariant unHi <= unHi0 && (unLo <= unHi ==> eclass[fmap[unLo]] > med)
    {
      if eclass[fmap[unHi]] == med {
        SwapPerm(f0, fmap[..], eclass[..], unHi, gtHi, lo, hi + 1);
        SwapEntries(fmap, unHi, gtHi);
        gtHi := gtHi - 1;
      }
      unHi := unHi - 1;
    }
  }

  lemma ExchangeEnds(f: seq<nat>, e: seq<nat>, med: nat, lo: int, hi: int, ltLo: int, unLo: int, unHi: int, gtHi: int)
    requires Indexes(f, e) && 0 <= lo && hi < |f|
    requires Regions(f, e, med, lo, hi, ltLo, unLo, unHi, gtHi)
    requires unLo <= unHi && e[f[unLo]] > med && e[f[unHi]] < med
    requires Indexes(Swap(f, unLo, unHi), e)
    ensures Regions(Swap(f, unLo, unHi), e, med, lo, hi, ltLo, unLo + 1, unHi - 1, gtHi)
  {
  }

  /** Reads the middle from both ends until the two meet. */
  method Scan(fmap: array<nat>, eclass: array<nat>, lo: nat, hi: nat, med: nat)
    returns (ltLo: int, unLo: int, unHi: int, gtHi: int)
    requires fmap != eclass && Indexes(fmap[..], eclass[..]) && lo <= hi < fmap.Length
    modifies fmap
    ensures Indexes(fmap[..], eclass[..])
    ensures RangePerm(old(fmap[..]), fmap[..], lo, hi + 1)
    ensures unHi == unLo - 1 && Regions(fmap[..], eclass[..], med, lo, hi, ltLo, unLo, unHi, gtHi)
  {
    hide RangePerm, Swap;
    ghost var f0 := fmap[..];
    RangePermRefl(f0, lo, hi + 1);
    unLo, ltLo, unHi, gtHi := lo, lo, hi, hi;
    while true
      invariant Indexes(fmap[..], eclass[..]) && RangePerm(f0, fmap[..], lo, hi + 1)
      invariant Regions(fmap[..], eclass[..], med, lo, hi, ltLo, unLo, unHi, gtHi)
      decreases unHi - unLo
    {
      ltLo, unLo := ScanUp(fmap, eclass, f0, lo, hi, med, ltLo, unLo, unHi, gtHi);
      unHi, gtHi := ScanDown(fmap, eclass, f0, lo, hi, med, ltLo, unLo, unHi, gtHi);
      if unLo > unHi { break; }
      SwapPerm(f0, fmap[..], eclass[..], unLo, unHi, lo, hi + 1);
      ExchangeEnds(fmap[..], eclass[..], med, lo, hi, ltLo, unLo, unHi, gtHi);
      SwapEntries(fmap, unLo, unHi);
      unLo, unHi := unLo + 1, unHi - 1;
    }
  }

  /** g is f with the blocks of n entries at p1 and p2 exchanged. */
  ghost predicate BlocksSwapped(f: seq<nat>, g: seq<nat>, p1: int, p2: int, n: int) {
    && |f| == |g| && 0 <= p1 && 0 <= n && p1 + n <= p2 && p2 + n <= |f|
    && (forall k :: p1 <= k < p1 + n ==> g[k] == f[k - p1 + p2])
    && (forall k :: p2 <= k < p2 + n ==> g[k] == f[k - p2 + p1])
    && (forall k :: 0 <= k < |f| && !(p1 <= k < p1 + n) && !(p2 <= k < p2 + n) ==> g[k] == f[k])
  }

  lemma BlocksStart(f: seq<nat>, p1: int, p2: int)
    requires 0 <= p1 <= p2 <= |f|
    ensures BlocksSwapped(f, f, p1, p2, 0)
  {
  }

  lemma BlocksStep(f: seq<nat>, g: seq<nat>, p1: int, p2: int, n: int)
    requires BlocksSwapped(f, g, p1, p2, n) && p1 + n < p2 && p2 + n < |f|
    ensures BlocksSwapped(f, Swap(g, p1 + n, p2 + n), p1, p2, n + 1)
  {
    hide Swap;
  }

  /** fvswap: exchanges two blocks of n entries. */
  method SwapBlocks(fmap: array<nat>, ghost e: seq<nat>, p1: nat, p2: nat, n: nat, ghost lo: nat, ghost hi: nat)
    requires Indexes(fmap[..], e) && lo <= p1 <= p1 + n <= p2 <= p2 + n <= hi + 1 <= fmap.Length
    modifies fmap
    ensures Indexes(fmap[..], e) && RangePerm(old(fmap[..]), fmap[..], lo, hi + 1)
    ensures BlocksSwapped(old(fmap[..]), fmap[..], p1, p2, n)
  {
    hide RangePerm, Swap, Indexes, BlocksSwapped;
    ghost var f0 := fmap[..];
    RangePermRefl(f0, lo, hi + 1);
    BlocksStart(f0, p1, p2);
    var d := 0;
    while d < n
      invariant 0 <= d <= n
      invariant Indexes(fmap[..], e) && RangePerm(f0, fmap[..], lo, hi + 1)
      invariant BlocksSwapped(f0, fmap[..], p1, p2, d)
    {
      SwapPerm(f0, fmap[..], e, p1 + d, p2 + d, lo, hi + 1);
      BlocksStep(f0, fmap[..], p1, p2, d);
      SwapEntries(fmap, p1 + d, p2 + d);
      d := d + 1;
    }
  }

  /** Keys below med, equal to it, and above it, in that order. */
  ghost predicate Thirds(f: seq<nat>, e: seq<nat>, med: nat, lo: int, hi: int, n: int, m: int)
    requires Indexes(f, e) && 0 <= lo && hi < |f|
  {
    && lo - 1 <= n < m <= hi + 1
    && (forall k :: lo <= k <= n ==> e[f[k]] < med)
    && (forall k :: n < k < m ==> e[f[k]] == med)
    && (forall k :: m <= k <= hi ==> e[f[k]] > med)
  }

  function Min(a: int, b: int): int { if a < b then a else b }

  /** After the scan: the bounds, and whether anything but med was seen. */
  lemma ScanOutcome(f: seq<nat>, e: seq<nat>, med: nat, lo: int, hi: int, ltLo: int, unLo: int, gtHi: int)
    requires Indexes(f, e) && 0 <= lo && hi < |f|
    requires Regions(f, e, med, lo, hi, ltLo, unLo, unLo - 1, gtHi)
    requires exists k :: lo <= k <= hi && e[f[k]] == med
    ensures lo <= ltLo <= unLo <= gtHi + 1 <= hi + 1
    ensures ltLo > lo || gtHi < hi
    ensures gtHi < ltLo ==> AllEqual(f, e, med, lo, hi)
  {
  }

  ghost predicate AllEqual(f: seq<nat>, e: seq<nat>, med: nat, lo: int, hi: int)
    requires Indexes(f, e) && 0 <= lo && hi < |f|
  {
    forall k :: lo <= k <= hi ==> e[f[k]] == med
  }

  /** The left part in final order, the right part as the scan left it. */
  ghost predicate HalfDone(f: seq<nat>, e: seq<nat>, med: nat, lo: int, hi: int, n: int, unLo: int, gtHi: int)
    requires Indexes(f, e) && 0 <= lo && hi < |f|
  {
    && lo <= n + 1 <= unLo <= gtHi + 1 <= hi + 1
    && (forall k :: lo <= k <= n ==> e[f[k]] < med)
    && (forall k :: n < k < unLo ==> e[f[k]] == med)
    && (forall k :: unLo <= k <= gtHi ==> e[f[k]] > med)
    && (forall k :: gtHi < k <= hi ==> e[f[k]] == med)
  }

  /** Bringing the equal keys in from the left end. */
  lemma LeftInward(f: seq<nat>, g: seq<nat>, e: seq<nat>, med: nat, lo: int, hi: int, ltLo: int, unLo: int, gtHi: int)
    requires Indexes(f, e) && Indexes(g, e) && 0 <= lo && hi < |f| && |f| == |g|
    requires Regions(f, e, med, lo, hi, ltLo, unLo, unLo - 1, gtHi)
    requires var c := Min(ltLo - lo, unLo - ltLo); BlocksSwapped(f, g, lo, unLo - c, c)
    ensures HalfDone(g, e, med, lo, hi, lo + unLo - ltLo - 1, unLo, gtHi)
  {
  }

  /** And then from the right end. */
  lemma RightInward(f: seq<nat>, g: seq<nat>, e: seq<nat>, med: nat, lo: int, hi: int, n: int, unLo: int, gtHi: int)
    requires Indexes(f, e) && Indexes(g, e) && 0 <= lo && hi < |f| && |f| == |g|
    requires HalfDone(f, e, med, lo, hi, n, unLo, gtHi)
    requires var c := Min(hi - gtHi, gtHi - unLo + 1); BlocksSwapped(f, g, unLo, hi - c + 1, c)
    requires n + 1 < unLo || gtHi < hi
    ensures Thirds(g, e, med, lo, hi, n, hi - (gtHi - unLo + 1) + 1)
  {
  }

  /** Brings the equal keys from both ends into the middle. */
  method Gather(fmap: array<nat>, ghost e: seq<nat>, ghost med: nat, lo: nat, hi: nat, ltLo: int, unLo: int, gtHi: int)
    returns (n: int, m: int)
    requires Indexes(fmap[..], e) && lo <= hi < fmap.Length
    requires Regions(fmap[..], e, med, lo, hi, ltLo, unLo, unLo - 1, gtHi)
    requires lo <= ltLo <= unLo <= gtHi + 1 <= hi + 1
    requires ltLo > lo || gtHi < hi
    modifies fmap
    ensures Indexes(fmap[..], e) && RangePerm(old(fmap[..]), fmap[..], lo, hi + 1)
    ensures Thirds(fmap[..], e, med, lo, hi, n, m) && n + 1 < m
  {
    hide RangePerm, BlocksSwapped, Thirds, Regions, Indexes, HalfDone;
    ghost var f1 := fmap[..];
    n := Min(ltLo - lo, unLo - ltLo);
    SwapBlocks(fmap, e, lo, unLo - n, n, lo, hi);
    ghost var f2 := fmap[..];
    LeftInward(f1, f2, e, med, lo, hi, ltLo, unLo, gtHi);
    m := Min(hi - gtHi, gtHi - unLo + 1);
    SwapBlocks(fmap, e, unLo, hi - m + 1, m, lo, hi);
    RangePermTrans(f1, f2, fmap[..], lo, hi + 1);
    n := lo + unLo - ltLo - 1;
    RightInward(f2, fmap[..], e, med, lo, hi, n, unLo, gtHi);
    m := hi - (gtHi - unLo + 1) + 1;
  }

  /** Splits fmap[lo..hi] about med, which some entry of the range has; the
      middle part is therefore never empty. */
  method Partition(fmap: array<nat>, eclass: array<nat>, lo: nat, hi: nat, med: nat)
    returns (allEqual: bool, n: int, m: int)
    requires fmap != eclass && Indexes(fmap[..], eclass[..]) && lo <= hi < fmap.Length
    requires exists k :: lo <= k <= hi && eclass[..][fmap[..][k]] == med
    modifies fmap
    ensures Indexes(fmap[..], eclass[..])
    ensures RangePerm(old(fmap[..]), fmap[..], lo, hi + 1)
    ensures allEqual ==> AllEqual(fmap[..], eclass[..], med, lo, hi)
    ensures !allEqual ==> Thirds(fmap[..], eclass[..], med, lo, hi, n, m) && n + 1 < m
  {
    hide RangePerm, Thirds, Regions, Indexes;
    ghost var f0, e := fmap[..], eclass[..];
    var ltLo, unLo, unHi, gtHi := Scan(fmap, eclass, lo, hi, med);
    ghost var f1 := fmap[..];
    StillSome(f0, f1, e, lo, hi, med);
    ScanOutcome(f1, e, med, lo, hi, ltLo, unLo, gtHi);
    n, m := lo, hi;
    allEqual := gtHi < ltLo;
    if allEqual { return; }
    n, m := Gather(fmap, e, med, lo, hi, ltLo, unLo, gtHi);
    RangePermTrans(f0, f1, fmap[..], lo, hi + 1);
  }

  lemma StillSome(f: seq<nat>, g: seq<nat>, e: seq<nat>, lo: int, hi: int, med: nat)
    requires Indexes(f, e) && Indexes(g, e) && 0 <= lo <= hi < |f| && |f| == |g|
    requires RangePerm(f, g, lo, hi + 1)
    requires exists k :: lo <= k <= hi && e[f[k]] == med
    ensures exists k :: lo <= k <= hi && e[g[k]] == med
  {
    var k :| lo <= k <= hi && e[f[k]] == med;
    var j := RangePermSource(g, f, lo, hi + 1, k);
    assert e[g[j]] == med;
  }

  // ---------- fallbackQSort3: the explicit stack ----------

  const STACK_SIZE := 100
  const SMALL_THRESH := 10

  /** A pending range of fmap, both ends included. */
  datatype Range = Range(lo: int, hi: int) {
    function Size(): int { hi - lo + 1 }

    ghost predicate Apart(other: Range) { hi < other.lo || other.hi < lo }
  }

  /** Pending ranges lie in [a, z) and do not overlap. */
  ghost predicate Laid(stack: seq<Range>, a: int, z: int) {
    && (forall p :: 0 <= p < |stack| ==> a <= stack[p].lo <= stack[p].hi + 1 <= z)
    && (forall p, q :: 0 <= p < q < |stack| ==> stack[p].Apart(stack[q]))
  }

  /** Each level of the stack holds at most half of what the level below may. */
  ghost predicate Halving(stack: seq<Range>, total: int) {
    && (forall p :: 0 <= p < |stack| ==> stack[p].Size() * Pow2(p) <= total)
    && (|stack| >= 2 ==> Pow2(|stack| - 2) <= total)
  }

  ghost predicate Interior(stack: seq<Range>, k: int) {
    exists p :: 0 <= p < |stack| && stack[p].lo < k <= stack[p].hi
  }

  /** Only inside pending ranges can keys still be out of order. */
  ghost predicate Progress(f: seq<nat>, e: seq<nat>, stack: seq<Range>, a: int, z: int)
    requires Indexes(f, e) && 0 <= a && z <= |f|
  {
    && (forall p :: 0 <= p < |stack| ==> Cut(f, e, a, z, stack[p].lo) && Cut(f, e, a, z, stack[p].hi + 1))
    && (forall k :: a < k < z ==> Cut(f, e, a, z, k) || Interior(stack, k))
  }

  ghost predicate Sizes(stack: seq<Range>) {
    forall p :: 0 <= p < |stack| ==> stack[p].Size() >= 0
  }

  /** Work left: decreases although one range is replaced by two. */
  function Work(stack: seq<Range>): nat
    requires Sizes(stack)
  {
    if stack == [] then 0 else Work(stack[..|stack| - 1]) + 2 * stack[|stack| - 1].Size() + 1
  }

  /** Rearranging the popped range leaves every cut elsewhere in place. */
  lemma RestKept(f: seq<nat>, g: seq<nat>, e: seq<nat>, rest: seq<Range>, top: Range, a: int, z: int)
    requires Indexes(f, e) && Indexes(g, e) && 0 <= a && z <= |f| && |f| == |g|
    requires Laid(rest + [top], a, z) && Progress(f, e, rest + [top], a, z)
    requires RangePerm(f, g, top.lo, top.hi + 1)
    ensures forall p :: 0 <= p < |rest| ==> Cut(g, e, a, z, rest[p].lo) && Cut(g, e, a, z, rest[p].hi + 1)
    ensures Cut(g, e, a, z, top.lo) && Cut(g, e, a, z, top.hi + 1)
    ensures forall k :: a < k < z && !(top.lo < k <= top.hi) ==> Cut(g, e, a, z, k) || Interior(rest, k)
  {
    hide Cut, RangePerm, Indexes;
    var stack := rest + [top];
    assert stack[|rest|] == top;
    CutKept(f, g, e, top.lo, top.hi + 1, a, z, top.lo);
    CutKept(f, g, e, top.lo, top.hi + 1, a, z, top.hi + 1);
    forall p | 0 <= p < |rest|
      ensures Cut(g, e, a, z, rest[p].lo) && Cut(g, e, a, z, rest[p].hi + 1)
    {
      assert stack[p] == rest[p] && stack[p].Apart(top);
      CutKept(f, g, e, top.lo, top.hi + 1, a, z, rest[p].lo);
      CutKept(f, g, e, top.lo, top.hi + 1, a, z, rest[p].hi + 1);
    }
    forall k | a < k < z && !(top.lo < k <= top.hi)
      ensures Cut(g, e, a, z, k) || Interior(rest, k)
    {
      if Cut(f, e, a, z, k) {
        CutKept(f, g, e, top.lo, top.hi + 1, a, z, k);
      } else {
        var p :| 0 <= p < |stack| && stack[p].lo < k <= stack[p].hi;
        assert p < |rest|;
        assert stack[p] == rest[p];
      }
    }
  }

  /** A range in order between two cuts is cut everywhere. */
  lemma SortedCuts(g: seq<nat>, e: seq<nat>, a: int, z: int, lo: int, hi: int, k: int)
    requires Indexes(g, e) && 0 <= a <= lo < k <= hi && hi + 1 <= z <= |g|
    requires Cut(g, e, a, z, lo) && Cut(g, e, a, z, hi + 1)
    requires forall i, j :: lo <= i < k && k <= j <= hi ==> e[g[i]] <= e[g[j]]
    ensures Cut(g, e, a, z, k)
  {
  }

  /** Sorting the popped range finishes it. */
  lemma FinishRange(f: seq<nat>, g: seq<nat>, e: seq<nat>, rest: seq<Range>, top: Range, a: int, z: int)
    requires Indexes(f, e) && Indexes(g, e) && 0 <= a && z <= |f| && |f| == |g|
    requires Laid(rest + [top], a, z) && Progress(f, e, rest + [top], a, z)
    requires RangePerm(f, g, top.lo, top.hi + 1)
    requires Sorted(g, e, top.lo, top.hi + 1)
    ensures Laid(rest, a, z) && Progress(g, e, rest, a, z)
  {
    hide Cut, RangePerm, Indexes;
    var stack := rest + [top];
    assert stack[|rest|] == top;
    assert forall p :: 0 <= p < |rest| ==> stack[p] == rest[p];
    RestKept(f, g, e, rest, top, a, z);
    forall k | a < k < z ensures Cut(g, e, a, z, k) || Interior(rest, k) {
      if top.lo < k <= top.hi { SortedCuts(g, e, a, z, top.lo, top.hi, k); }
    }
  }

  lemma ThirdsCut(g: seq<nat>, e: seq<nat>, med: nat, a: int, z: int, lo: int, hi: int, n: int, m: int, k: int)
    requires Indexes(g, e) && 0 <= a <= lo <= hi && hi + 1 <= z <= |g|
    requires Cut(g, e, a, z, lo) && Cut(g, e, a, z, hi + 1)
    requires Thirds(g, e, med, lo, hi, n, m) && n + 1 <= k <= m
    ensures Cut(g, e, a, z, k)
  {
    if lo < k <= hi {
      SortedCuts(g, e, a, z, lo, hi, k);
    }
  }

  /** r1 and r2 are the outer thirds of top, in either order. */
  ghost predicate Outer(top: Range, n: int, m: int, r1: Range, r2: Range) {
    || (r1 == Range(top.lo, n) && r2 == Range(m, top.hi))
    || (r1 == Range(m, top.hi) && r2 == Range(top.lo, n))
  }

  lemma SplitLaid(rest: seq<Range>, top: Range, a: int, z: int, n: int, m: int, r1: Range, r2: Range)
    requires Laid(rest + [top], a, z) && Outer(top, n, m, r1, r2) && top.lo - 1 <= n < m <= top.hi + 1
    ensures Laid(rest + [r1, r2], a, z)
  {
    var stack, next := rest + [top], rest + [r1, r2];
    assert stack[|rest|] == top && next[|rest|] == r1 && next[|rest| + 1] == r2;
    assert forall p :: 0 <= p < |rest| ==> stack[p] == rest[p] == next[p];
    forall p, q | 0 <= p < q < |next| ensures next[p].Apart(next[q]) {
      if p < |rest| {
        assert stack[p].Apart(if q < |rest| then stack[q] else top);
      }
    }
  }

  lemma SplitInterior(rest: seq<Range>, top: Range, n: int, m: int, r1: Range, r2: Range, k: int)
    requires Outer(top, n, m, r1, r2)
    requires Interior(rest, k) || (top.lo < k <= top.hi && !(n + 1 <= k <= m))
    ensures Interior(rest + [r1, r2], k)
  {
    var next := rest + [r1, r2];
    assert next[|rest|] == r1 && next[|rest| + 1] == r2;
    if Interior(rest, k) {
      var p :| 0 <= p < |rest| && rest[p].lo < k <= rest[p].hi;
      assert next[p].lo < k <= next[p].hi;
    } else {
      var p := if r1.lo < k <= r1.hi then |rest| else |rest| + 1;
      assert next[p].lo < k <= next[p].hi;
    }
  }

  /** Partitioning the popped range leaves its two outer thirds to do. */
  lemma SplitRange(f: seq<nat>, g: seq<nat>, e: seq<nat>, rest: seq<Range>, top: Range, a: int, z: int,
                   med: nat, n: int, m: int, r1: Range, r2: Range)
    requires Indexes(f, e) && Indexes(g, e) && 0 <= a && z <= |f| && |f| == |g| && top.lo <= top.hi
    requires a <= top.lo && top.hi < z && top.lo - 1 <= n < m <= top.hi + 1
    requires Laid(rest + [top], a, z) && Progress(f, e, rest + [top], a, z)
    requires RangePerm(f, g, top.lo, top.hi + 1)
    requires Thirds(g, e, med, top.lo, top.hi, n, m) && Outer(top, n, m, r1, r2)
    ensures Progress(g, e, rest + [r1, r2], a, z)
  {
    hide Cut, RangePerm, Indexes, Thirds, Laid, Interior;
    var next := rest + [r1, r2];
    RestKept(f, g, e, rest, top, a, z);
    ThirdsCut(g, e, med, a, z, top.lo, top.hi, n, m, n + 1);
    ThirdsCut(g, e, med, a, z, top.lo, top.hi, n, m, m);
    forall p | 0 <= p < |next|
      ensures Cut(g, e, a, z, next[p].lo) && Cut(g, e, a, z, next[p].hi + 1)
    {
      if p < |rest| { assert next[p] == rest[p]; }
    }
    forall k | a < k < z ensures Cut(g, e, a, z, k) || Interior(next, k) {
      if n + 1 <= k <= m {
        ThirdsCut(g, e, med, a, z, top.lo, top.hi, n, m, k);
      } else if top.lo < k <= top.hi || !Cut(g, e, a, z, k) {
        SplitInterior(rest, top, n, m, r1, r2, k);
      }
    }
  }

  lemma HalfFits(t: int, r1: int, r2: int, h: int, total: int)
    requires h >= 1 && t >= 1 && t * h <= total
    requires 0 <= r2 <= r1 && r1 + r2 < t
    ensures r1 * h <= total && r2 * (2 * h) <= total && h <= total
  {
    MulMono(r1, t, h);
    MulMono(2 * r2, t, h);
    MulMono(1, t, h);
    assert r2 * (2 * h) == (2 * r2) * h;
  }

  /** Larger part first, smaller part on top: the stack stays logarithmic. */
  lemma SplitHalves(rest: seq<Range>, top: Range, r1: Range, r2: Range, total: int)
    requires Halving(rest + [top], total) && top.Size() >= 1
    requires 0 <= r2.Size() <= r1.Size() && r1.Size() + r2.Size() < top.Size()
    ensures Halving(rest + [r1, r2], total)
  {
    var stack, next := rest + [top], rest + [r1, r2];
    assert stack[|rest|] == top && next[|rest|] == r1 && next[|rest| + 1] == r2;
    HalfFits(top.Size(), r1.Size(), r2.Size(), Pow2(|rest|), total);
    assert Pow2(|rest| + 1) == 2 * Pow2(|rest|);
    hide Pow2;
    assert forall p :: 0 <= p < |rest| ==> next[p] == stack[p];
    forall p | 0 <= p < |next| ensures next[p].Size() * Pow2(p) <= total {
      if p >= |rest| { assert p == |rest| || p == |rest| + 1; }
    }
  }

  /** So the assertion on the stack pointer never fires. */
  lemma StackRoom(stack: seq<Range>, total: int)
    requires Halving(stack, total) && total < 0x8000_0000
    ensures |stack| < STACK_SIZE - 1
  {
    if |stack| >= STACK_SIZE - 1 {
      Pow2Values();
      Pow2Monotone(32, |stack| - 2);
    }
  }

  lemma WorkSplit(rest: seq<Range>, r1: Range, r2: Range)
    requires Sizes(rest)
    requires r1.Size() >= 0 && r2.Size() >= 0
    ensures var s := rest + [r1, r2];
            Sizes(s) &&
            Work(s) == Work(rest) + 2 * r1.Size() + 2 * r2.Size() + 2
  {
    var s := rest + [r1, r2];
    assert s[..|s| - 1] == rest + [r1];
    assert (rest + [r1])[..|rest|] == rest;
  }

  lemma AllCut(f: seq<nat>, e: seq<nat>, a: int, z: int)
    requires Indexes(f, e) && 0 <= a && z <= |f| && Progress(f, e, [], a, z)
    ensures Sorted(f, e, a, z)
  {
    forall i, j | 0 <= i && a <= i < j < z ensures e[f[i]] <= e[f[j]] {
      assert Cut(f, e, a, z, j);
    }
  }

  /** What the stack loop keeps, for the range [a, z) of an fmap that began as f0. */
  ghost predicate Pending(f0: seq<nat>, f: seq<nat>, e: seq<nat>, stack: seq<Range>, a: int, z: int) {
    && Indexes(f, e) && RangePerm(f0, f, a, z) && 0 <= a <= z <= |f|
    && Laid(stack, a, z) && Halving(stack, z - a) && Progress(f, e, stack, a, z)
  }

  /** The popped range, now in order, needs nothing further. */
  lemma PendingDone(f0: seq<nat>, f: seq<nat>, g: seq<nat>, e: seq<nat>, rest: seq<Range>, top: Range, a: int, z: int)
    requires Pending(f0, f, e, rest + [top], a, z)
    requires Indexes(g, e) && |f| == |g| && RangePerm(f, g, top.lo, top.hi + 1) && Sorted(g, e, top.lo, top.hi + 1)
    ensures Pending(f0, g, e, rest, a, z)
  {
    hide RangePerm, Indexes, Sorted, Progress, Halving;
    assert (rest + [top])[|rest|] == top;
    RangePermWiden(f, g, top.lo, top.hi + 1, a, z);
    RangePermTrans(f0, f, g, a, z);
    FinishRange(f, g, e, rest, top, a, z);
    PopStack(rest + [top], z - a);
    assert (rest + [top])[..|rest|] == rest;
  }

  /** The popped range, partitioned, leaves two smaller ones: larger below. */
  lemma PendingSplit(f0: seq<nat>, f: seq<nat>, g: seq<nat>, e: seq<nat>, rest: seq<Range>, top: Range, a: int, z: int,
                     med: nat, n: int, m: int, r1: Range, r2: Range)
    requires Pending(f0, f, e, rest + [top], a, z) && top.lo <= top.hi
    requires Indexes(g, e) && |f| == |g| && RangePerm(f, g, top.lo, top.hi + 1)
    requires 0 <= top.lo && top.hi < |g| && Thirds(g, e, med, top.lo, top.hi, n, m) && n + 1 < m
    requires Outer(top, n, m, r1, r2)
    requires r2.Size() <= r1.Size()
    ensures Pending(f0, g, e, rest + [r1, r2], a, z)
    ensures Sizes(rest + [top]) && Sizes(rest + [r1, r2]) && Work(rest + [r1, r2]) < Work(rest + [top])
  {
    hide RangePerm, Indexes, Progress, Halving, Thirds, Work;
    assert (rest + [top])[|rest|] == top;
    assert forall p :: 0 <= p < |rest| ==> (rest + [top])[p] == rest[p];
    ThirdsBounds(g, e, med, top.lo, top.hi, n, m);
    RangePermWiden(f, g, top.lo, top.hi + 1, a, z);
    RangePermTrans(f0, f, g, a, z);
    SplitLaid(rest, top, a, z, n, m, r1, r2);
    SplitRange(f, g, e, rest, top, a, z, med, n, m, r1, r2);
    SplitHalves(rest, top, r1, r2, z - a);
    WorkSplit(rest, r1, r2);
    PopStack(rest + [top], z - a);
    assert (rest + [top])[..|rest|] == rest;
  }

  /** One iteration: pops a range and either finishes it or splits it. */
  method SortTop(fmap: array<nat>, eclass: array<nat>, stack: seq<Range>, r: nat, ghost f0: seq<nat>, ghost a: nat, ghost z: nat)
    returns (next: seq<Range>, r': nat)
    requires fmap != eclass && stack != []
    requires Pending(f0, fmap[..], eclass[..], stack, a, z)
    modifies fmap
    ensures Pending(f0, fmap[..], eclass[..], next, a, z)
    ensures Sizes(stack) && Sizes(next) && Work(next) < Work(stack)
  {
    hide RangePerm, Indexes, Sorted, Progress, Halving, Thirds, AllEqual, Work;
    ghost var f, e := fmap[..], eclass[..];
    var top := stack[|stack| - 1];
    var rest := stack[..|stack| - 1];
    assert stack == rest + [top];
    PopStack(stack, z - a);
    r' := r;
    if top.hi - top.lo < SMALL_THRESH {
      SimpleSort(fmap, eclass, top.lo, top.hi);
      PendingDone(f0, f, fmap[..], e, rest, top, a, z);
      return rest, r';
    }
    r' := (r * 7621 + 1) % 32768;
    var c := if r' % 3 == 0 then top.lo else if r' % 3 == 1 then (top.lo + top.hi) / 2 else top.hi;
    var med := KeyAt(fmap, eclass, c);
    var allEqual, n, m := Partition(fmap, eclass, top.lo, top.hi, med);
    if allEqual {
      EqualSorted(fmap[..], e, med, top.lo, top.hi);
      PendingDone(f0, f, fmap[..], e, rest, top, a, z);
      return rest, r';
    }
    var r1, r2 := Range(top.lo, n), Range(m, top.hi);
    if n - top.lo <= top.hi - m { r1, r2 := r2, r1; }
    PendingSplit(f0, f, fmap[..], e, rest, top, a, z, med, n, m, r1, r2);
    next := rest + [r1, r2];
  }

  /** fallbackQSort3: sorts fmap[loSt..hiSt] by equivalence class, touches
      nothing else, terminates, and never overflows its stack (AssertH 1004). */
  method QSort3(fmap: array<nat>, eclass: array<nat>, loSt: nat, hiSt: nat)
    requires fmap != eclass && Indexes(fmap[..], eclass[..])
    requires loSt <= hiSt < fmap.Length && hiSt - loSt + 1 < 0x8000_0000
    modifies fmap
    ensures Indexes(fmap[..], eclass[..])
    ensures RangePerm(old(fmap[..]), fmap[..], loSt, hiSt + 1)
    ensures Sorted(fmap[..], eclass[..], loSt, hiSt + 1)
  {
    hide RangePerm, Indexes, Sorted, Progress, Halving, Work;
    ghost var f0 := fmap[..];
    var r := 0;
    var stack := [Range(loSt, hiSt)];
    StartStack(f0, eclass[..], stack, loSt, hiSt + 1);
    RangePermRefl(f0, loSt, hiSt + 1);
    while stack != []
      invariant Pending(f0, fmap[..], eclass[..], stack, loSt, hiSt + 1)
      decreases Work(stack)
    {
      StackRoom(stack, hiSt + 1 - loSt);
      assert |stack| < STACK_SIZE - 1;
      stack, r := SortTop(fmap, eclass, stack, r, f0, loSt, hiSt + 1);
    }
    AllCut(fmap[..], eclass[..], loSt, hiSt + 1);
  }

  method KeyAt(fmap: array<nat>, eclass: array<nat>, c: nat) returns (med: nat)
    requires Indexes(fmap[..], eclass[..]) && c < fmap.Length
    ensures fmap[..][c] < eclass.Length && med == eclass[..][fmap[..][c]]
  {
    med := eclass[fmap[c]];
  }

  lemma ThirdsBounds(f: seq<nat>, e: seq<nat>, med: nat, lo: int, hi: int, n: int, m: int)
    requires Indexes(f, e) && 0 <= lo && hi < |f| && Thirds(f, e, med, lo, hi, n, m)
    ensures lo - 1 <= n < m <= hi + 1
  {
  }

  lemma EqualSorted(f: seq<nat>, e: seq<nat>, med: nat, lo: int, hi: int)
    requires Indexes(f, e) && 0 <= lo && hi < |f| && AllEqual(f, e, med, lo, hi)
    ensures Sorted(f, e, lo, hi + 1)
  {
  }

  lemma StartStack(f: seq<nat>, e: seq<nat>, stack: seq<Range>, a: int, z: int)
    requires Indexes(f, e) && 0 <= a < z <= |f| && stack == [Range(a, z - 1)]
    ensures Laid(stack, a, z) && Halving(stack, z - a) && Progress(f, e, stack, a, z)
  {
    forall k | a < k < z ensures Interior(stack, k) { assert stack[0].lo < k <= stack[0].hi; }
  }

  lemma PopStack(stack: seq<Range>, total: int)
    requires stack != [] && Halving(stack, total)
    requires Sizes(stack)
    ensures Halving(stack[..|stack| - 1], total)
    ensures Work(stack) == Work(stack[..|stack| - 1]) + 2 * stack[|stack| - 1].Size() + 1
  {
    if |stack| >= 3 { Pow2Monotone(|stack| - 3, |stack| - 2); }
  }
}
