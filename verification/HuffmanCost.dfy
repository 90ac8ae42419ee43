/**
 Why merging the two lightest weights again and again gives a code of least total
 length: in any complete code the two lightest may be moved to the greatest
 length and merged there.
 */
module HuffmanCost {
  import opened Bits

  // ---------- Codes for some of the nodes ----------

  /** The nodes that are on, their weights and code lengths. */
  ghost function Cost(on: seq<bool>, ws: seq<nat>, ls: seq<nat>, n: nat): nat
    requires n <= |on| && n <= |ws| && n <= |ls|
  {
    if n == 0 then 0 else Cost(on, ws, ls, n - 1) + if on[n - 1] then ws[n - 1] * ls[n - 1] else 0
  }

  /** The Kraft sum scaled by 2^M. */
  ghost function KraftSum(on: seq<bool>, ls: seq<nat>, M: nat, n: nat): nat
    requires n <= |on| && n <= |ls|
  {
    if n == 0 then 0 else KraftSum(on, ls, M, n - 1) + if on[n - 1] then Share(M, ls[n - 1]) else 0
  }

  ghost function Share(M: nat, l: nat): nat { if l <= M then Pow2(M - l) else 0 }

  /** A complete code. */
  ghost predicate Code(on: seq<bool>, ls: seq<nat>, M: nat) {
    |ls| == |on| && (forall k :: 0 <= k < |on| && on[k] ==> ls[k] <= M) && KraftSum(on, ls, M, |on|) == Pow2(M)
  }

  /** No complete code costs less than c. */
  ghost predicate AtLeast(on: seq<bool>, ws: seq<nat>, c: nat)
    requires |ws| == |on|
  {
    forall ls: seq<nat>, M: nat :: Code(on, ls, M) ==> Cost(on, ws, ls, |on|) >= c
  }

  // ---------- Changing one node ----------

  ghost function Part(on: bool, w: nat, l: nat): nat { if on then w * l else 0 }

  ghost function PartShare(on: bool, M: nat, l: nat): nat { if on then Share(M, l) else 0 }

  lemma {:induction false} CostChange(on: seq<bool>, on': seq<bool>, ws: seq<nat>, ls: seq<nat>, ls': seq<nat>, k: nat, n: nat)
    requires n <= |on| == |on'| == |ws| == |ls| == |ls'| && k < |on|
    requires forall i :: 0 <= i < |on| && i != k ==> on'[i] == on[i] && ls'[i] == ls[i]
    ensures if k < n then Cost(on', ws, ls', n) + Part(on[k], ws[k], ls[k]) == Cost(on, ws, ls, n) + Part(on'[k], ws[k], ls'[k])
            else Cost(on', ws, ls', n) == Cost(on, ws, ls, n)
  {
    if n > 0 { CostChange(on, on', ws, ls, ls', k, n - 1); }
  }

  lemma {:induction false} KraftChange(on: seq<bool>, on': seq<bool>, ls: seq<nat>, ls': seq<nat>, M: nat, k: nat, n: nat)
    requires n <= |on| == |on'| == |ls| == |ls'| && k < |on|
    requires forall i :: 0 <= i < |on| && i != k ==> on'[i] == on[i] && ls'[i] == ls[i]
    ensures if k < n then KraftSum(on', ls', M, n) + PartShare(on[k], M, ls[k]) == KraftSum(on, ls, M, n) + PartShare(on'[k], M, ls'[k])
            else KraftSum(on', ls', M, n) == KraftSum(on, ls, M, n)
  {
    hide Share;
    if n > 0 { KraftChange(on, on', ls, ls', M, k, n - 1); }
  }

  ghost function Swap(ls: seq<nat>, i: nat, j: nat): seq<nat>
    requires i < |ls| && j < |ls|
  {
    ls[i := ls[j]][j := ls[i]]
  }

  /** Exchanging the lengths of two nodes keeps a code, and costs nothing if the
      lighter one gets the greater length. */
  lemma SwapCode(on: seq<bool>, ws: seq<nat>, ls: seq<nat>, M: nat, i: nat, j: nat)
    requires Code(on, ls, M) && |ws| == |on| && i < |on| && j < |on| && on[i] && on[j]
    requires i == j || (ws[i] <= ws[j] && ls[i] <= ls[j])
    ensures Code(on, Swap(ls, i, j), M) && Cost(on, ws, Swap(ls, i, j), |on|) <= Cost(on, ws, ls, |on|)
  {
    hide KraftSum, Cost, Share;
    if i == j {
      assert Swap(ls, i, j) == ls;
    } else {
      var one := ls[i := ls[j]];
      KraftChange(on, on, ls, one, M, i, |on|);
      KraftChange(on, on, one, Swap(ls, i, j), M, j, |on|);
      CostChange(on, on, ws, ls, one, i, |on|);
      CostChange(on, on, ws, one, Swap(ls, i, j), j, |on|);
      Exchange(ws[i], ws[j], ls[i], ls[j]);
    }
  }

  lemma Exchange(u: nat, v: nat, l: nat, m: nat)
    requires u <= v && l <= m
    ensures u * m + v * l <= u * l + v * m
  {
    assert (v - u) * (m - l) >= 0;
    assert (v - u) * (m - l) == v * m - v * l - u * m + u * l;
  }

  // ---------- The greatest length ----------

  /** The lengths are bounded by L. */
  ghost predicate UpTo(on: seq<bool>, ls: seq<nat>, L: nat) {
    |ls| == |on| && forall k :: 0 <= k < |on| && on[k] ==> ls[k] <= L
  }

  lemma {:induction false} Longest(on: seq<bool>, ls: seq<nat>, n: nat) returns (u: nat)
    requires n <= |on| == |ls| && exists k :: 0 <= k < n && on[k]
    ensures u < n && on[u] && forall k :: 0 <= k < n && on[k] ==> ls[k] <= ls[u]
  {
    if on[n - 1] {
      if exists k :: 0 <= k < n - 1 && on[k] {
        u := Longest(on, ls, n - 1);
        if ls[u] <= ls[n - 1] { u := n - 1; }
      } else {
        u := n - 1;
      }
    } else {
      u := Longest(on, ls, n - 1);
    }
  }

  /** A code may be scaled down to its greatest length. */
  lemma {:induction false} Scaled(on: seq<bool>, ls: seq<nat>, M: nat, L: nat, n: nat)
    requires n <= |on| && L <= M && UpTo(on, ls, L)
    ensures KraftSum(on, ls, M, n) == KraftSum(on, ls, L, n) * Pow2(M - L)
  {
    hide Pow2, Share;
    if n > 0 {
      Scaled(on, ls, M, L, n - 1);
      if on[n - 1] { ShareScaled(M, L, ls[n - 1]); }
      Spread(KraftSum(on, ls, L, n - 1), if on[n - 1] then Share(L, ls[n - 1]) else 0, Pow2(M - L));
    }
  }

  lemma Spread(x: nat, y: nat, p: nat)
    ensures (x + y) * p == x * p + y * p
  {
  }

  lemma ShareScaled(M: nat, L: nat, l: nat)
    requires l <= L <= M
    ensures Share(M, l) == Share(L, l) * Pow2(M - L)
  {
    Pow2Add(L - l, M - L);
  }

  lemma CodeScaled(on: seq<bool>, ls: seq<nat>, M: nat, L: nat)
    requires Code(on, ls, M) && L <= M && UpTo(on, ls, L)
    ensures Code(on, ls, L)
  {
    hide KraftSum, Pow2;
    Scaled(on, ls, M, L, |on|);
    Pow2Add(L, M - L);
    Cancel(KraftSum(on, ls, L, |on|), Pow2(L), Pow2(M - L));
  }

  lemma Cancel(x: nat, y: nat, p: nat)
    requires x * p == y * p && p >= 1
    ensures x == y
  {
  }

  /** With the greatest length L, only nodes of that length make the sum odd. */
  lemma {:induction false} Parity(on: seq<bool>, ls: seq<nat>, L: nat, a: nat, n: nat)
    requires UpTo(on, ls, L) && n <= |on| && a < |on| && on[a] && ls[a] == L
    requires forall k :: 0 <= k < |on| && on[k] && k != a ==> ls[k] < L
    ensures KraftSum(on, ls, L, n) % 2 == if a < n then 1 else 0
  {
    if n > 0 {
      Parity(on, ls, L, a, n - 1);
      if on[n - 1] && n - 1 != a { assert Share(L, ls[n - 1]) == 2 * Pow2(L - ls[n - 1] - 1); }
    }
  }

  /** Two nodes together have a positive greatest length. */
  lemma {:induction false} SumAtLeast(on: seq<bool>, ls: seq<nat>, M: nat, a: nat, n: nat)
    requires n <= |on| && |ls| == |on| && a < n && on[a]
    ensures KraftSum(on, ls, M, n) >= Share(M, ls[a])
  {
    hide Share;
    if n - 1 != a { SumAtLeast(on, ls, M, a, n - 1); }
  }

  lemma SumOfTwo(on: seq<bool>, ls: seq<nat>, M: nat, a: nat, b: nat)
    requires |ls| == |on| && a < |on| && b < |on| && a != b && on[a] && on[b]
    ensures KraftSum(on, ls, M, |on|) >= Share(M, ls[a]) + Share(M, ls[b])
  {
    hide Share, KraftSum;
    var off := on[a := false];
    KraftChange(on, off, ls, ls, M, a, |on|);
    SumAtLeast(off, ls, M, b, |on|);
  }

  /** Besides a longest node there is another one. */
  lemma Second(on: seq<bool>, ls: seq<nat>, L: nat, a: nat, b: nat) returns (v: nat)
    requires Code(on, ls, L) && a < |on| && b < |on| && a != b && on[a] && on[b] && ls[a] == L
    ensures L >= 1 && v < |on| && v != a && on[v] && ls[v] == L
  {
    SumOfTwo(on, ls, L, a, b);
    assert Share(L, L) == 1 by { assert Pow2(0) == 1; }
    assert Share(L, ls[b]) >= 1;
    if L == 0 { assert Pow2(0) == 1; }
    assert Pow2(L) == 2 * Pow2(L - 1);
    if forall k :: 0 <= k < |on| && on[k] && k != a ==> ls[k] < L {
      Parity(on, ls, L, a, |on|);
      assert false;
    }
    v :| 0 <= v < |on| && on[v] && v != a && ls[v] >= L;
  }

  // ---------- Merging ----------

  /** a and b are on, and no other node that is on is lighter. */
  ghost predicate NoneLighter(on: seq<bool>, ws: seq<nat>, a: nat, b: nat)
    requires |ws| == |on|
  {
    && a < |on| && b < |on| && a != b && on[a] && on[b]
    && forall k :: 0 <= k < |on| && on[k] && k != a && k != b ==> ws[a] <= ws[k] && ws[b] <= ws[k]
  }

  /** Any complete code can be made, at no greater cost, to give a and b its
      greatest length. */
  lemma BothLongest(on: seq<bool>, ws: seq<nat>, ls: seq<nat>, M: nat, a: nat, b: nat) returns (ls': seq<nat>, L: nat)
    requires |ws| == |on| && Code(on, ls, M) && NoneLighter(on, ws, a, b) && ws[a] <= ws[b]
    ensures Code(on, ls', L) && L >= 1 && ls'[a] == ls'[b] == L && Cost(on, ws, ls', |on|) <= Cost(on, ws, ls, |on|)
  {
    hide KraftSum, Cost;
    var u := Longest(on, ls, |on|);
    L := ls[u];
    CodeScaled(on, ls, M, L);
    SwapCode(on, ws, ls, L, a, u);
    var one := Swap(ls, a, u);
    var v := Second(on, one, L, a, b);
    SwapCode(on, ws, one, L, b, v);
    ls' := Swap(one, b, v);
  }

  /** Merging two nodes of greatest length L into one of length L - 1. */
  lemma MergedCode(on: seq<bool>, ws: seq<nat>, ls: seq<nat>, L: nat, a: nat, b: nat, x: nat)
    requires |ws| == |on| && Code(on, ls, L) && L >= 1 && x < |on| && !on[x] && NoneLighter(on, ws, a, b)
    requires ls[a] == ls[b] == L && ws[x] == ws[a] + ws[b]
    ensures var on', ls' := on[a := false][b := false][x := true], ls[x := L - 1];
            Code(on', ls', L) && Cost(on', ws, ls', |on|) + ws[x] == Cost(on, ws, ls, |on|)
  {
    hide KraftSum, Cost, Share;
    var on1 := on[a := false];
    var on2 := on1[b := false];
    var on3, ls' := on2[x := true], ls[x := L - 1];
    KraftChange(on, on1, ls, ls, L, a, |on|);
    KraftChange(on1, on2, ls, ls, L, b, |on|);
    KraftChange(on2, on3, ls, ls', L, x, |on|);
    CostChange(on, on1, ws, ls, ls, a, |on|);
    CostChange(on1, on2, ws, ls, ls, b, |on|);
    CostChange(on2, on3, ws, ls, ls', x, |on|);
    ShareTwice(L);
    MergedParts(ws[a], ws[b], L);
  }

  lemma ShareTwice(L: nat)
    requires L >= 1
    ensures Share(L, L - 1) == Share(L, L) + Share(L, L)
  {
    assert Pow2(0) == 1 && Pow2(1) == 2;
  }

  lemma MergedParts(u: nat, v: nat, L: nat)
    requires L >= 1
    ensures u * L + v * L == (u + v) * (L - 1) + (u + v)
  {
  }

  /** A bound for the merged nodes gives one for the nodes. */
  lemma MergeBound(on: seq<bool>, ws: seq<nat>, a: nat, b: nat, x: nat, c: nat)
    requires |ws| == |on| && x < |on| && !on[x] && NoneLighter(on, ws, a, b) && ws[x] == ws[a] + ws[b]
    requires AtLeast(on[a := false][b := false][x := true], ws, c)
    ensures AtLeast(on, ws, c + ws[x])
  {
    hide KraftSum, Cost;
    forall ls: seq<nat>, M: nat | Code(on, ls, M) ensures Cost(on, ws, ls, |on|) >= c + ws[x] {
      var p, q := if ws[a] <= ws[b] then a else b, if ws[a] <= ws[b] then b else a;
      var ls', L := BothLongest(on, ws, ls, M, p, q);
      MergedCode(on, ws, ls', L, a, b, x);
    }
  }
}
