/**
 The tree that BZ2_hbMakeCodeLengths builds (huffman.c): what merging the two
 lightest nodes keeps, why the tree is shallow, and why its leaf depths have
 Kraft sum exactly one.
 */
module HuffmanTree {
  import opened Bits
  import opened Heap
  import opened HuffmanCost
  import Huffman

  // ---------- Packed weights ----------

  /** WEIGHTOF and DEPTHOF: 24 bits of weight above 8 bits of subtree height. */
  function Weight(z: nat): nat { z / 256 }
  function Height(z: nat): nat { z % 256 }

  /** ADDWEIGHTS. */
  function AddWeights(a: nat, b: nat): nat {
    Or((Weight(a) + Weight(b)) * 256, 1 + (if Height(a) > Height(b) then Height(a) else Height(b)))
  }

  lemma AddWeightsFields(a: nat, b: nat)
    requires Height(a) < 255 && Height(b) < 255
    ensures Weight(AddWeights(a, b)) == Weight(a) + Weight(b)
    ensures Height(AddWeights(a, b)) == 1 + if Height(a) > Height(b) then Height(a) else Height(b)
  {
    hide Or, Pow2;
    Pow2Values();
    OrDisjoint(Weight(a) + Weight(b), 8, 1 + (if Height(a) > Height(b) then Height(a) else Height(b)));
  }

  function Fib(n: nat): nat { if n == 0 then 0 else if n == 1 then 1 else Fib(n - 1) + Fib(n - 2) }

  lemma {:induction false} FibMonotone(m: nat, n: nat)
    requires m <= n
    ensures Fib(m) <= Fib(n)
  {
    if m < n { FibMonotone(m, n - 1); }
  }

  /** Heights are small: the lightest tree of height 254 outweighs 2^23. */
  lemma {:induction false} FibDoubles(k: nat)
    ensures Fib(2 * k + 2) >= Pow2(k)
  {
    if k > 0 {
      FibDoubles(k - 1);
      FibMonotone(2 * k, 2 * k + 1);
      assert Fib(2 * k + 2) == Fib(2 * k + 1) + Fib(2 * k);
    }
  }

  // ---------- The forest ----------

  /** The tree under construction: n leaves, nodes 1..m, the two children of
      each internal node, and the nodes without a parent. */
  datatype Forest = Forest(n: nat, m: nat, weight: seq<nat>, parent: seq<int>, kids: seq<(nat, nat)>, roots: set<nat>)
  {
    ghost predicate Shape() {
      && 1 <= n <= m < |weight| && |weight| == |parent| && |kids| == m - n
      && (forall k :: k in roots ==> 1 <= k <= m)
    }

    /** A node either is a root or is a child of a later node. */
    ghost predicate Linked(k: nat)
      requires Shape() && 1 <= k <= m
    {
      && (parent[k] == -1 <==> k in roots)
      && (parent[k] != -1 ==> k < parent[k] <= m && n < parent[k] && (kids[parent[k] - n - 1].0 == k || kids[parent[k] - n - 1].1 == k))
    }

    /** An internal node is the sum of its two children. */
    ghost predicate Joined(x: nat)
      requires Shape() && n < x <= m
    {
      var (a, b) := kids[x - n - 1];
      && 1 <= a < x && 1 <= b < x && a != b && parent[a] == x && parent[b] == x
      && Weight(weight[x]) == Weight(weight[a]) + Weight(weight[b])
      && Height(weight[x]) == 1 + if Height(weight[a]) > Height(weight[b]) then Height(weight[a]) else Height(weight[b])
    }

    /** When x was made, no other node without a parent was lighter than its children. */
    ghost predicate Picked(x: nat)
      requires Shape() && n < x <= m
    {
      var (a, b) := kids[x - n - 1];
      a <= m && b <= m &&
      forall r :: 1 <= r < x && (parent[r] == -1 || parent[r] > x) ==> Weight(weight[a]) <= Weight(weight[r]) && Weight(weight[b]) <= Weight(weight[r])
    }

    /** Enough weight for its height. */
    ghost predicate Heavy(k: nat)
      requires Shape() && 1 <= k <= m
    {
      Weight(weight[k]) >= Fib(Height(weight[k]) + 2)
    }

    ghost predicate Valid() {
      && Shape()
      && (forall k :: 1 <= k <= m ==> Linked(k))
      && (forall x :: n < x <= m ==> Joined(x))
      && (forall x :: n < x <= m ==> Picked(x))
      && (forall k :: 1 <= k <= m ==> Heavy(k))
      && (forall k :: 1 <= k <= n ==> Height(weight[k]) == 0)
      && (forall c, r :: 1 <= c <= m && c !in roots && r in roots ==> Weight(weight[c]) <= Weight(weight[r]))
    }
  }

  /** Weight of the roots among nodes 1..m. */
  ghost function RootSum(weight: seq<nat>, parent: seq<int>, m: nat): nat
    requires m < |weight| && |weight| == |parent|
  {
    if m == 0 then 0 else RootSum(weight, parent, m - 1) + if parent[m] == -1 then Weight(weight[m]) else 0
  }

  lemma {:induction false} RootInSum(weight: seq<nat>, parent: seq<int>, m: nat, k: nat)
    requires m < |weight| && |weight| == |parent| && 1 <= k <= m && parent[k] == -1
    ensures Weight(weight[k]) <= RootSum(weight, parent, m)
  {
    if k < m { RootInSum(weight, parent, m - 1, k); }
  }

  /** Giving two roots a parent takes exactly their weights out of the sum. */
  lemma {:induction false} SumWithout(weight: seq<nat>, parent: seq<int>, weight': seq<nat>, parent': seq<int>, a: nat, b: nat, m: nat)
    requires m < |weight| && |weight| == |parent| == |weight'| == |parent'| && a != b && 1 <= a && 1 <= b
    requires forall k :: 0 <= k <= m ==> weight'[k] == weight[k]
    requires forall k :: 0 <= k <= m && k != a && k != b ==> parent'[k] == parent[k]
    requires a <= m ==> parent[a] == -1 && parent'[a] != -1
    requires b <= m ==> parent[b] == -1 && parent'[b] != -1
    ensures RootSum(weight, parent, m) == RootSum(weight', parent', m)
              + (if a <= m then Weight(weight[a]) else 0) + (if b <= m then Weight(weight[b]) else 0)
  {
    if m > 0 { SumWithout(weight, parent, weight', parent', a, b, m - 1); }
  }

  /** The forest after merging roots a and b under a new node. */
  ghost function Merged(f: Forest, a: nat, b: nat): Forest
    requires f.Shape() && f.m + 1 < |f.weight| && a <= f.m && b <= f.m
  {
    var x := f.m + 1;
    Forest(f.n, x, f.weight[x := AddWeights(f.weight[a], f.weight[b])],
           f.parent[a := x][b := x][x := -1], f.kids + [(a, b)], f.roots - {a, b} + {x})
  }

  /** a and b are two roots than which no other root is lighter. */
  ghost predicate TwoLightest(f: Forest, a: nat, b: nat)
    requires f.Shape()
  {
    && a in f.roots && b in f.roots && a != b && Weight(f.weight[a]) <= Weight(f.weight[b])
    && forall r :: r in f.roots && r != a && r != b ==> Weight(f.weight[b]) <= Weight(f.weight[r])
  }

  /** An internal root has a merged child one lower than itself. */
  lemma TallChild(f: Forest, a: nat) returns (e: nat)
    requires f.Valid() && a in f.roots && a > f.n
    ensures 1 <= e <= f.m && e !in f.roots && Height(f.weight[e]) + 1 == Height(f.weight[a])
  {
    hide Weight, Height, Fib;
    assert f.Joined(a);
    var (c, d) := f.kids[a - f.n - 1];
    e := if Height(f.weight[c]) > Height(f.weight[d]) then c else d;
    assert f.Linked(e);
  }

  /** The new node is heavy enough: with a the taller, either both are leaves, or
      a has a child one lower, which b outweighs because it was merged earlier. */
  lemma MergedHeavy(f: Forest, a: nat, b: nat)
    requires f.Valid() && a in f.roots && b in f.roots
    requires Height(f.weight[a]) >= Height(f.weight[b])
    ensures Weight(f.weight[a]) + Weight(f.weight[b]) >= Fib(Height(f.weight[a]) + 3)
  {
    hide Weight, Height, Fib;
    assert f.Heavy(a) && f.Heavy(b);
    var h := Height(f.weight[a]);
    FibStep(h + 1);
    if a <= f.n {
      FibStart();
    } else {
      var e := TallChild(f, a);
      assert f.Heavy(e);
    }
  }

  lemma FibStep(k: nat)
    ensures Fib(k + 2) == Fib(k + 1) + Fib(k)
  {
  }

  lemma FibStart()
    ensures Fib(1) == 1 && Fib(2) == 1
  {
  }

  lemma MergedShape(f: Forest, a: nat, b: nat)
    requires f.Valid() && f.m + 1 < |f.weight| && TwoLightest(f, a, b)
    requires Height(f.weight[a]) < 255 && Height(f.weight[b]) < 255
    ensures var g := Merged(f, a, b); g.Shape() && (forall k :: 1 <= k <= g.m ==> g.Linked(k)) && (forall x :: g.n < x <= g.m ==> g.Joined(x))
  {
    var g := Merged(f, a, b);
    var x := g.m;
    AddWeightsFields(f.weight[a], f.weight[b]);
    hide AddWeights, Weight, Height;
    assert g.kids[x - g.n - 1] == (a, b);
    assert f.Linked(a) && f.Linked(b);
    forall k | 1 <= k <= g.m ensures g.Linked(k) {
      if k < x {
        assert f.Linked(k);
        if f.parent[k] != -1 { assert g.kids[f.parent[k] - g.n - 1] == f.kids[f.parent[k] - f.n - 1]; }
      }
    }
    forall y | g.n < y <= g.m ensures g.Joined(y) {
      if y < x {
        assert f.Joined(y);
        assert g.kids[y - g.n - 1] == f.kids[y - f.n - 1];
      }
    }
  }

  lemma MergedPicked(f: Forest, a: nat, b: nat, y: nat)
    requires f.Valid() && f.m + 1 < |f.weight| && TwoLightest(f, a, b) && f.n < y <= f.m + 1
    requires Height(f.weight[a]) < 255 && Height(f.weight[b]) < 255
    ensures Merged(f, a, b).Shape() && Merged(f, a, b).Picked(y)
  {
    hide AddWeights, Weight, Height, Fib;
    var g := Merged(f, a, b);
    if y < g.m {
      assert f.Picked(y) && f.Joined(y);
      assert g.kids[y - g.n - 1] == f.kids[y - f.n - 1];
      forall r | 1 <= r < y && (g.parent[r] == -1 || g.parent[r] > y)
        ensures Weight(g.weight[g.kids[y - g.n - 1].0]) <= Weight(g.weight[r]) && Weight(g.weight[g.kids[y - g.n - 1].1]) <= Weight(g.weight[r])
      {
        assert f.Linked(r) && f.Linked(a) && f.Linked(b);
        assert f.parent[r] == -1 || f.parent[r] > y;
      }
    } else {
      assert g.kids[y - g.n - 1] == (a, b);
      forall r | 1 <= r < y && (g.parent[r] == -1 || g.parent[r] > y) ensures r in f.roots && r != a && r != b {
        assert f.Linked(r);
      }
    }
  }

  lemma MergedTopHeavy(f: Forest, a: nat, b: nat)
    requires f.Valid() && f.m + 1 < |f.weight| && TwoLightest(f, a, b)
    requires Height(f.weight[a]) < 255 && Height(f.weight[b]) < 255
    ensures var z := AddWeights(f.weight[a], f.weight[b]);
            Weight(z) >= Fib(Height(z) + 2) && Weight(z) >= Weight(f.weight[b])
  {
    hide Weight, Height, Fib, AddWeights;
    AddWeightsFields(f.weight[a], f.weight[b]);
    if Height(f.weight[a]) >= Height(f.weight[b]) { MergedHeavy(f, a, b); } else { MergedHeavy(f, b, a); }
  }

  /** Merging the two lightest roots keeps every property of the forest. */
  lemma MergeKeeps(f: Forest, a: nat, b: nat)
    requires f.Valid() && f.m + 1 < |f.weight| && TwoLightest(f, a, b)
    requires Height(f.weight[a]) < 255 && Height(f.weight[b]) < 255
    ensures Merged(f, a, b).Valid()
  {
    hide AddWeights, Weight, Height, Fib;
    var g := Merged(f, a, b);
    MergedTopHeavy(f, a, b);
    MergedShape(f, a, b);
    forall x | g.n < x <= g.m ensures g.Picked(x) { MergedPicked(f, a, b, x); }
    forall k | 1 <= k <= g.m ensures g.Heavy(k) {
      if k < g.m { assert f.Heavy(k); }
    }
    forall c, r | 1 <= c <= g.m && c !in g.roots && r in g.roots ensures Weight(g.weight[c]) <= Weight(g.weight[r]) {
      assert c <= f.m;
    }
  }

  lemma MergeSum(f: Forest, a: nat, b: nat)
    requires f.Valid() && f.m + 1 < |f.weight| && TwoLightest(f, a, b)
    requires Height(f.weight[a]) < 255 && Height(f.weight[b]) < 255
    ensures var g := Merged(f, a, b); RootSum(g.weight, g.parent, g.m) == RootSum(f.weight, f.parent, f.m)
  {
    var g := Merged(f, a, b);
    AddWeightsFields(f.weight[a], f.weight[b]);
    assert f.Linked(a) && f.Linked(b);
    SumWithout(f.weight, f.parent, g.weight, g.parent, a, b, f.m);
  }

  /** A root of a forest weighing less than 2^23 is nowhere near 255 high. */
  lemma HeightFits(f: Forest, k: nat)
    requires f.Valid() && k in f.roots && RootSum(f.weight, f.parent, f.m) < 0x80_0000
    ensures Height(f.weight[k]) < 255
  {
    hide Weight, Height, Fib, RootSum;
    assert f.Linked(k) && f.Heavy(k);
    RootInSum(f.weight, f.parent, f.m, k);
    HeightOfWeight(Height(f.weight[k]), Weight(f.weight[k]));
  }

  lemma HeightOfWeight(h: nat, w: nat)
    requires Fib(h + 2) <= w < 0x80_0000
    ensures h < 48
  {
    hide Fib, Pow2;
    if h >= 48 {
      FibDoubles(24);
      FibMonotone(50, h + 2);
      Pow2Values();
    }
  }

  // ---------- The finished tree ----------

  /** Steps from node k to its root. */
  ghost function Depth(parent: seq<int>, m: nat, k: nat): nat
    requires k < |parent|
    decreases m - k
  {
    if k < parent[k] <= m && parent[k] < |parent| then 1 + Depth(parent, m, parent[k]) else 0
  }

  ghost predicate Finished(f: Forest) {
    f.Valid() && f.roots == {f.m}
  }

  /** Depth and height together do not exceed the height of the tree. */
  lemma {:induction false} DepthBelowHeight(f: Forest, k: nat)
    requires Finished(f) && 1 <= k <= f.m
    ensures Depth(f.parent, f.m, k) + Height(f.weight[k]) <= Height(f.weight[f.m])
    decreases f.m - k
  {
    hide Weight, Height, Fib;
    assert f.Linked(k);
    if k < f.m {
      var x := f.parent[k];
      DepthBelowHeight(f, x);
      assert f.Joined(x);
    }
  }

  /** Children are one deeper; so an internal node is less deep than any bound
      on the leaves. */
  lemma {:induction false} DepthBounded(f: Forest, M: nat, k: nat)
    requires Finished(f) && 1 <= k <= f.m
    requires forall i :: 1 <= i <= f.n ==> Depth(f.parent, f.m, i) <= M
    ensures Depth(f.parent, f.m, k) <= M && (k > f.n ==> Depth(f.parent, f.m, k) < M)
    decreases k
  {
    if k > f.n {
      KidsDeeper(f, k);
      DepthBounded(f, M, f.kids[k - f.n - 1].0);
    }
  }

  lemma KidsDeeper(f: Forest, x: nat)
    requires f.Valid() && f.n < x <= f.m
    ensures var (a, b) := f.kids[x - f.n - 1];
            && 1 <= a < x && 1 <= b < x && a != b
            && Depth(f.parent, f.m, a) == Depth(f.parent, f.m, b) == Depth(f.parent, f.m, x) + 1
  {
    hide Weight, Height, Fib;
    assert f.Joined(x);
  }

  /** 2^M scaled Kraft sum of the nodes 1..j whose parent lies beyond t. */
  ghost function FrontSum(f: Forest, M: nat, j: nat, t: nat): nat
    requires j < |f.parent|
  {
    if j == 0 then 0
    else FrontSum(f, M, j - 1, t) + if f.parent[j] == -1 || f.parent[j] > t then Share(f, M, j) else 0
  }

  ghost function Share(f: Forest, M: nat, k: nat): nat
    requires k < |f.parent|
  {
    if Depth(f.parent, f.m, k) <= M then Pow2(M - Depth(f.parent, f.m, k)) else 0
  }

  /** Lowering the threshold past node x lets exactly its two children in. */
  lemma {:induction false} LowerThreshold(f: Forest, M: nat, j: nat, x: nat)
    requires f.Valid() && f.n < x <= f.m && j < x
    ensures var (a, b) := f.kids[x - f.n - 1];
            FrontSum(f, M, j, x - 1) == FrontSum(f, M, j, x)
              + (if a <= j then Share(f, M, a) else 0) + (if b <= j then Share(f, M, b) else 0)
  {
    hide Weight, Height, Fib, Share, Depth;
    assert f.Joined(x);
    if j > 0 {
      LowerThreshold(f, M, j - 1, x);
      assert f.Linked(j);
    }
  }

  lemma SharesSplit(f: Forest, M: nat, x: nat)
    requires f.Valid() && f.n < x <= f.m && Depth(f.parent, f.m, x) < M
    ensures var (a, b) := f.kids[x - f.n - 1]; a < |f.parent| && b < |f.parent| && Share(f, M, x) == Share(f, M, a) + Share(f, M, b)
  {
    KidsDeeper(f, x);
  }

  /** Replacing a node by its children keeps the sum: down to the leaves it stays 2^M. */
  lemma {:induction false} FrontConstant(f: Forest, M: nat, t: nat)
    requires Finished(f) && f.n <= t <= f.m
    requires forall i :: 1 <= i <= f.n ==> Depth(f.parent, f.m, i) <= M
    ensures FrontSum(f, M, t, t) == Pow2(M)
    decreases f.m - t
  {
    hide Weight, Height, Fib, Depth, Share;
    if t == f.m {
      OnlyRoot(f, M, f.m - 1);
      RootShare(f, M);
    } else {
      var x := t + 1;
      FrontConstant(f, M, x);
      DepthBounded(f, M, x);
      SharesSplit(f, M, x);
      LowerThreshold(f, M, t, x);
      assert f.Joined(x) && f.Linked(x);
    }
  }

  lemma RootShare(f: Forest, M: nat)
    requires Finished(f)
    ensures f.parent[f.m] == -1 && Share(f, M, f.m) == Pow2(M)
  {
    assert f.Linked(f.m);
  }

  lemma {:induction false} OnlyRoot(f: Forest, M: nat, j: nat)
    requires Finished(f) && j < f.m
    ensures FrontSum(f, M, j, f.m) == 0
  {
    if j > 0 {
      OnlyRoot(f, M, j - 1);
      assert f.Linked(j);
    }
  }

  /** The code lengths read off the tree. */
  ghost predicate LeafDepths(f: Forest, lens: seq<nat>) {
    f.Shape() && |lens| == f.n && forall i :: 0 <= i < f.n ==> lens[i] == Depth(f.parent, f.m, i + 1)
  }

  lemma {:induction false} FrontIsKraft(f: Forest, M: nat, lens: seq<nat>, j: nat)
    requires f.Valid() && LeafDepths(f, lens) && j <= f.n
    requires forall i :: 0 <= i < |lens| ==> lens[i] <= M
    ensures FrontSum(f, M, j, f.n) == Huffman.Kraft(lens[..j], M)
  {
    hide Weight, Height, Fib, Depth;
    if j > 0 {
      FrontIsKraft(f, M, lens, j - 1);
      assert f.Linked(j);
      assert lens[..j][..j - 1] == lens[..j - 1] && lens[..j][j - 1] == lens[j - 1];
    }
  }

  /** The leaf depths of a finished tree form a complete code. */
  lemma LeavesComplete(f: Forest, M: nat, lens: seq<nat>)
    requires Finished(f) && f.n >= 2 && f.m > f.n && LeafDepths(f, lens)
    requires forall i :: 0 <= i < |lens| ==> lens[i] <= M
    ensures Huffman.Complete(lens, M)
  {
    hide Weight, Height, Fib, Depth, FrontSum;
    assert lens[..f.n] == lens;
    forall i | 1 <= i <= f.n ensures Depth(f.parent, f.m, i) <= M { assert lens[i - 1] <= M; }
    FrontConstant(f, M, f.n);
    FrontIsKraft(f, M, lens, f.n);
    Huffman.EndIsKraft(lens, M);
    forall i | 0 <= i < |lens| ensures 1 <= lens[i] { LeafNotRoot(f, i + 1); }
  }

  lemma LeafNotRoot(f: Forest, k: nat)
    requires Finished(f) && 1 <= k <= f.n < f.m
    ensures Depth(f.parent, f.m, k) >= 1
  {
    assert f.Linked(k);
  }

  // ---------- No complete code is shorter ----------

  /** The nodes 1..t whose parent lies beyond t. */
  ghost function Front(f: Forest, t: nat): (on: seq<bool>)
    requires |f.parent| > 0
    ensures |on| == |f.parent| && forall k :: 0 <= k < |on| ==> on[k] == (1 <= k <= t && (f.parent[k] == -1 || f.parent[k] > t))
  {
    seq(|f.parent|, k requires 0 <= k < |f.parent| => 1 <= k <= t && (f.parent[k] == -1 || f.parent[k] > t))
  }

  ghost function Weights(f: Forest): (ws: seq<nat>)
    ensures |ws| == |f.weight| && forall k :: 0 <= k < |ws| ==> ws[k] == Weight(f.weight[k])
  {
    seq(|f.weight|, k requires 0 <= k < |f.weight| => Weight(f.weight[k]))
  }

  ghost function Depths(f: Forest): (ls: seq<nat>)
    ensures |ls| == |f.parent| && forall k :: 0 <= k < |ls| ==> ls[k] == Depth(f.parent, f.m, k)
  {
    seq(|f.parent|, k requires 0 <= k < |f.parent| => Depth(f.parent, f.m, k))
  }

  /** The weights of the nodes made after t. */
  ghost function MadeSum(f: Forest, t: nat): nat
    requires f.Shape() && t <= f.m
    decreases f.m - t
  {
    if t == f.m then 0 else Weight(f.weight[t + 1]) + MadeSum(f, t + 1)
  }

  /** Going back past node x lets its children in and x out. */
  lemma FrontBack(f: Forest, x: nat)
    requires f.Valid() && f.n < x <= f.m
    ensures var (a, b) := f.kids[x - f.n - 1];
            && a < x && b < x && a != b && x < |f.parent|
            && Front(f, x) == Front(f, x - 1)[a := false][b := false][x := true]
            && Front(f, x - 1)[a] && Front(f, x - 1)[b] && !Front(f, x - 1)[x] && Front(f, x)[x] && !Front(f, x)[a] && !Front(f, x)[b]
  {
    hide Weight, Height, Fib;
    var (a, b) := f.kids[x - f.n - 1];
    assert f.Joined(x) && f.Linked(x);
    forall k | 1 <= k < x ensures Front(f, x)[k] == Front(f, x - 1)[a := false][b := false][x := true][k] {
      assert f.Linked(k);
    }
  }

  lemma FrontLightest(f: Forest, x: nat)
    requires f.Valid() && f.n < x <= f.m
    ensures var (a, b) := f.kids[x - f.n - 1]; NoneLighter(Front(f, x - 1), Weights(f), a, b) && Weights(f)[x] == Weights(f)[a] + Weights(f)[b]
  {
    hide Weight, Height, Fib;
    FrontBack(f, x);
    assert f.Picked(x) && f.Joined(x);
    var (a, b) := f.kids[x - f.n - 1];
    forall k | 0 <= k < |f.parent| && Front(f, x - 1)[k] && k != a && k != b ensures Weights(f)[a] <= Weights(f)[k] && Weights(f)[b] <= Weights(f)[k] {
      assert f.Linked(k);
      assert Front(f, x)[k];
    }
  }

  /** No complete code for the nodes at hand after step t costs less than the
      nodes made later weigh. */
  lemma {:induction false} FrontAtLeast(f: Forest, t: nat)
    requires Finished(f) && f.n <= t <= f.m
    ensures AtLeast(Front(f, t), Weights(f), MadeSum(f, t))
    decreases f.m - t
  {
    hide Weight, Height, Fib, Depth, AtLeast, NoneLighter;
    if t == f.m {
      Trivial(Front(f, t), Weights(f));
    } else {
      var (a, b) := f.kids[t + 1 - f.n - 1];
      FrontAtLeast(f, t + 1);
      FrontBack(f, t + 1);
      FrontLightest(f, t + 1);
      MergeBound(Front(f, t), Weights(f), a, b, t + 1, MadeSum(f, t + 1));
    }
  }

  lemma Trivial(on: seq<bool>, ws: seq<nat>)
    requires |ws| == |on|
    ensures AtLeast(on, ws, 0)
  {
  }

  /** The depths in the tree cost exactly that. */
  lemma {:induction false} FrontCost(f: Forest, t: nat)
    requires Finished(f) && f.n <= t <= f.m
    ensures Cost(Front(f, t), Weights(f), Depths(f), |f.parent|) == MadeSum(f, t)
    decreases f.m - t
  {
    hide Weight, Height, Fib, Depth, Cost;
    if t == f.m {
      RootCost(f, |f.parent|);
    } else {
      FrontCost(f, t + 1);
      StepCost(f, t + 1);
    }
  }

  lemma StepCost(f: Forest, x: nat)
    requires Finished(f) && f.n < x <= f.m
    ensures Cost(Front(f, x - 1), Weights(f), Depths(f), |f.parent|) == Cost(Front(f, x), Weights(f), Depths(f), |f.parent|) + Weights(f)[x]
  {
    hide Weight, Height, Fib, Depth, Cost, NoneLighter;
    var (a, b) := f.kids[x - f.n - 1];
    FrontBack(f, x);
    KidsDeeper(f, x);
    KidsWeigh(f, x);
    var on, ws, ls := Front(f, x - 1), Weights(f), Depths(f);
    var on1 := on[a := false];
    var on2 := on1[b := false];
    CostChange(on, on1, ws, ls, ls, a, |on|);
    CostChange(on1, on2, ws, ls, ls, b, |on|);
    CostChange(on2, Front(f, x), ws, ls, ls, x, |on|);
    MergedParts(ws[a], ws[b], ls[x] + 1);
  }

  lemma KidsWeigh(f: Forest, x: nat)
    requires f.Valid() && f.n < x <= f.m
    ensures var (a, b) := f.kids[x - f.n - 1]; a < x && b < x && Weights(f)[x] == Weights(f)[a] + Weights(f)[b]
  {
    hide Weight, Height, Fib;
    assert f.Joined(x);
  }

  lemma {:induction false} RootCost(f: Forest, n: nat)
    requires Finished(f) && n <= |f.parent|
    ensures Cost(Front(f, f.m), Weights(f), Depths(f), n) == 0
  {
    if n > 0 {
      RootCost(f, n - 1);
      if Front(f, f.m)[n - 1] {
        assert f.Linked(n - 1);
        assert Depth(f.parent, f.m, f.m) == 0;
      }
    }
  }

  // ---------- For the leaves ----------

  /** The length of the text whose symbols have these weights and code lengths. */
  ghost function TotalLength(ws: seq<nat>, lens: seq<nat>, n: nat): nat
    requires n <= |ws| && n <= |lens|
  {
    if n == 0 then 0 else TotalLength(ws, lens, n - 1) + ws[n - 1] * lens[n - 1]
  }

  /** A Huffman code: no complete code makes the text shorter. */
  ghost predicate Optimal(ws: seq<nat>, lens: seq<nat>) {
    |ws| == |lens| && forall other: seq<nat>, m: nat :: |other| == |lens| && Huffman.Complete(other, m) ==>
      TotalLength(ws, lens, |ws|) <= TotalLength(ws, other, |ws|)
  }

  /** Leaf weights. */
  ghost predicate LeafWeights(f: Forest, ws: seq<nat>) {
    f.Shape() && |ws| == f.n && forall i :: 0 <= i < f.n ==> ws[i] == Weight(f.weight[i + 1])
  }

  /** Lengths for all nodes that are those of the leaves. */
  ghost function ForNodes(f: Forest, lens: seq<nat>): (ls: seq<nat>)
    ensures |ls| == |f.parent| && forall k :: 0 <= k < |ls| ==> ls[k] == if 1 <= k <= |lens| then lens[k - 1] else 0
  {
    seq(|f.parent|, k requires 0 <= k < |f.parent| => if 1 <= k <= |lens| then lens[k - 1] else 0)
  }

  lemma {:induction false} LeafCost(f: Forest, ws: seq<nat>, lens: seq<nat>, ls: seq<nat>, n: nat)
    requires f.Valid() && LeafWeights(f, ws) && |lens| == f.n && |ls| == |f.parent| && n <= |f.parent|
    requires forall k :: 1 <= k <= f.n ==> ls[k] == lens[k - 1]
    ensures Cost(Front(f, f.n), Weights(f), ls, n) == TotalLength(ws, lens, if n == 0 then 0 else if n <= f.n + 1 then n - 1 else f.n)
  {
    hide Weight, Height, Fib;
    if n > 0 {
      LeafCost(f, ws, lens, ls, n - 1);
      if 1 <= n - 1 <= f.n { assert f.Linked(n - 1); }
    }
  }

  lemma {:induction false} LeafKraft(f: Forest, lens: seq<nat>, M: nat, n: nat)
    requires f.Valid() && |lens| == f.n && n <= |f.parent| && forall i :: 0 <= i < |lens| ==> lens[i] <= M
    ensures KraftSum(Front(f, f.n), ForNodes(f, lens), M, n) == Huffman.Kraft(lens[..if n == 0 then 0 else if n <= f.n + 1 then n - 1 else f.n], M)
  {
    hide Weight, Height, Fib;
    if n > 0 {
      LeafKraft(f, lens, M, n - 1);
      if 1 <= n - 1 <= f.n {
        assert f.Linked(n - 1);
        assert lens[..n - 1][..n - 2] == lens[..n - 2];
      }
    }
  }

  /** The leaf depths of a finished tree are a Huffman code for the leaf weights. */
  lemma LeavesOptimal(f: Forest, ws: seq<nat>, lens: seq<nat>)
    requires Finished(f) && LeafWeights(f, ws) && LeafDepths(f, lens)
    ensures Optimal(ws, lens)
  {
    hide Weight, Height, Fib, Depth, Cost, KraftSum, TotalLength, Huffman.Kraft, Huffman.End;
    FrontCost(f, f.n);
    FrontAtLeast(f, f.n);
    LeafCost(f, ws, lens, Depths(f), |f.parent|);
    forall other: seq<nat>, m: nat | |other| == |lens| && Huffman.Complete(other, m) ensures TotalLength(ws, lens, |ws|) <= TotalLength(ws, other, |ws|) {
      Huffman.EndIsKraft(other, m);
      LeafKraft(f, other, m, |f.parent|);
      assert other[..f.n] == other;
      assert Code(Front(f, f.n), ForNodes(f, other), m);
      LeafCost(f, ws, other, ForNodes(f, other), |f.parent|);
    }
  }
}
