/**
 BZ2_hbMakeCodeLengths (huffman.c): Huffman code lengths from frequencies, with
 the weights rescaled and the tree rebuilt until no code is too long.
 */
module CodeLengths {
  import opened Bits
  import opened Heap
  import opened HuffmanTree
  import Huffman

  const HEAP_SIZE := 260   // BZ_MAX_ALPHA_SIZE + 2
  const NODE_SIZE := 516   // BZ_MAX_ALPHA_SIZE * 2

  // ---------- Heap contents as the set of roots ----------

  lemma BagGrows(h: seq<nat>, n: nat, k: nat)
    requires n + 1 < |h|
    ensures Bag(h[n + 1 := k], n + 1) == Bag(h, n) + multiset{k}
  {
    var h' := h[n + 1 := k];
    assert h'[1..n + 2] == h[1..n + 1] + [k];
  }

  lemma HeapGrows(h: seq<nat>, w: seq<nat>, n: nat, k: nat)
    requires Bounded(h, w) && n + 1 < |h| && IsHeap(h, w, n) && k < |w|
    ensures Bounded(h[n + 1 := k], w) && IsHeap(h[n + 1 := k], w, n)
  {
    var h' := h[n + 1 := k];
    forall i | 2 <= i <= n ensures Above(h', w, i) { assert Above(h, w, i); }
  }

  /** Changing the weight of a node that is not in the heap. */
  lemma HeapFrame(h: seq<nat>, w: seq<nat>, w': seq<nat>, n: nat, x: nat)
    requires Bounded(h, w) && n < |h| && IsHeap(h, w, n) && |w'| == |w| && 0 < x
    requires forall k :: 0 <= k < |w| && k != x ==> w'[k] == w[k]
    requires x !in Bag(h, n)
    ensures Bounded(h, w') && IsHeap(h, w', n)
  {
    forall i | 1 <= i <= n ensures h[i] != x { assert h[i] == h[1..n + 1][i - 1]; }
    forall i | 2 <= i <= n ensures Above(h, w', i) { assert Above(h, w, i); }
  }

  lemma BagOfRoots(roots: set<nat>, k: nat)
    ensures k !in roots ==> multiset(roots) + multiset{k} == multiset(roots + {k})
    ensures k in roots ==> multiset(roots) - multiset{k} == multiset(roots - {k})
  {
  }

  /** The two successive minima are the two lightest roots. */
  lemma MinimaAreLightest(f: Forest, a: nat, b: nat)
    requires f.Valid()
    requires Lightest(a, multiset(f.roots), f.weight) && Lightest(b, multiset(f.roots) - multiset{a}, f.weight)
    ensures TwoLightest(f, a, b)
  {
    assert b in multiset(f.roots) && b in f.roots && a in f.roots;
    assert a != b;
    forall r | r in f.roots && r != a && r != b ensures Weight(f.weight[b]) <= Weight(f.weight[r]) {
      assert r in multiset(f.roots) - multiset{a};
    }
  }

  // ---------- Building one tree ----------

  ghost function LeafSum(weight: seq<nat>, n: nat): nat
    requires n < |weight|
  {
    if n == 0 then 0 else LeafSum(weight, n - 1) + Weight(weight[n])
  }

  /** Leaf weights are at least one and carry no height. */
  ghost predicate Leaves(weight: seq<nat>, n: nat)
    requires n < |weight|
  {
    forall k :: 1 <= k <= n ==> Weight(weight[k]) >= 1 && Height(weight[k]) == 0
  }

  ghost function NodesTo(n: nat): (r: set<nat>)
    ensures forall k :: k in r <==> 1 <= k <= n
    ensures |r| == n
  {
    if n == 0 then {} else NodesTo(n - 1) + {n}
  }

  lemma {:induction false} LeavesAreRoots(weight: seq<nat>, parent: seq<int>, n: nat)
    requires n < |weight| && |weight| == |parent| && forall k :: 1 <= k <= n ==> parent[k] == -1
    ensures RootSum(weight, parent, n) == LeafSum(weight, n)
  {
    if n > 0 { LeavesAreRoots(weight, parent, n - 1); }
  }

  lemma StartForest(weight: seq<nat>, parent: seq<int>, n: nat)
    requires 1 <= n < |weight| && |weight| == |parent| && Leaves(weight, n) && forall k :: 1 <= k <= n ==> parent[k] == -1
    ensures Forest(n, n, weight, parent, [], NodesTo(n)).Valid()
  {
    FibStart();
    hide Fib, Weight, Height;
  }

  /** nHeap++; heap[nHeap] = k; UPHEAP(nHeap) */
  method Insert(heap: array<nat>, weight: array<nat>, n: nat, k: nat)
    requires heap != weight && Bounded(heap[..], weight[..]) && n + 1 < heap.Length && k < weight.Length
    requires IsHeap(heap[..], weight[..], n)
    modifies heap
    ensures Bounded(heap[..], weight[..]) && IsHeap(heap[..], weight[..], n + 1)
    ensures Bag(heap[..], n + 1) == old(Bag(heap[..], n)) + multiset{k}
  {
    hide Bag, IsHeap;
    ghost var h := heap[..];
    heap[n + 1] := k;
    assert heap[..] == h[n + 1 := k];
    HeapGrows(h, weight[..], n, k);
    BagGrows(h, n, k);
    UpHeap(heap, weight, n + 1);
  }

  /** Enters every leaf into the heap. */
  method FillHeap(heap: array<nat>, weight: array<nat>, parent: array<int>, n: nat)
    requires heap != weight && heap.Length == HEAP_SIZE && weight.Length == parent.Length == NODE_SIZE
    requires 1 <= n <= Huffman.MAX_ALPHA_SIZE && Bounded(heap[..], weight[..])
    requires weight[0] == 0
    modifies heap, parent
    ensures Bounded(heap[..], weight[..]) && IsHeap(heap[..], weight[..], n)
    ensures Bag(heap[..], n) == multiset(NodesTo(n))
    ensures forall k :: 1 <= k <= n ==> parent[k] == -1
  {
    hide Bag, IsHeap, Bounded, NodesTo;
    ghost var w := weight[..];
    StillBounded(heap[..], w);
    heap[0] := 0;
    parent[0] := -2;
    EmptyHeap(heap[..], w);
    for i: nat := 1 to n + 1
      invariant weight[..] == w
      invariant Bounded(heap[..], w) && IsHeap(heap[..], w, i - 1)
      invariant Bag(heap[..], i - 1) == multiset(NodesTo(i - 1))
      invariant forall k :: 1 <= k < i ==> parent[k] == -1
    {
      parent[i] := -1;
      NodesGrow(i);
      Insert(heap, weight, i - 1, i);
    }
  }

  lemma NodesGrow(i: nat)
    requires i >= 1
    ensures multiset(NodesTo(i - 1)) + multiset{i} == multiset(NodesTo(i))
  {
    BagOfRoots(NodesTo(i - 1), i);
  }

  lemma StillBounded(h: seq<nat>, w: seq<nat>)
    requires Bounded(h, w) && |h| > 0 && |w| > 0
    ensures Bounded(h[0 := 0], w)
  {
  }

  lemma EmptyHeap(h: seq<nat>, w: seq<nat>)
    requires Bounded(h, w) && |h| > 0 && h[0] == 0 && w[0] == 0
    ensures IsHeap(h, w, 0) && Bag(h, 0) == multiset(NodesTo(0))
  {
    assert h[1..1] == [];
  }

  /** Merges the two lightest roots. */
  method MergeLightest(heap: array<nat>, weight: array<nat>, parent: array<int>, nNodes: nat, nHeap: nat, ghost f: Forest)
    returns (ghost g: Forest)
    requires heap != weight && heap.Length == HEAP_SIZE && weight.Length == parent.Length == NODE_SIZE
    requires f.Valid() && f.Shape() && f.weight == weight[..] && f.parent == parent[..] && f.m == nNodes && nNodes + 1 < NODE_SIZE
    requires RootSum(f.weight, f.parent, f.m) < 0x80_0000
    requires 2 <= nHeap < HEAP_SIZE && Bounded(heap[..], weight[..]) && IsHeap(heap[..], weight[..], nHeap)
    requires Bag(heap[..], nHeap) == multiset(f.roots)
    modifies heap, weight, parent
    ensures g.Valid() && g.weight == weight[..] && g.parent == parent[..] && g.m == nNodes + 1 && g.n == f.n
    ensures RootSum(g.weight, g.parent, g.m) == RootSum(f.weight, f.parent, f.m)
    ensures Bounded(heap[..], weight[..]) && IsHeap(heap[..], weight[..], nHeap - 1)
    ensures Bag(heap[..], nHeap - 1) == multiset(g.roots)
    ensures forall k :: 0 <= k <= nNodes ==> weight[k] == old(weight[k])
  {
    hide IsHeap, Bag, Lightest, RootSum, AddWeights, Forest.Valid, TwoLightest, Bounded;
    var n1 := ExtractMin(heap, weight, nHeap);
    var n2 := ExtractMin(heap, weight, nHeap - 1);
    MinimaAreLightest(f, n1, n2);
    MergeFacts(f, n1, n2);
    g := Merged(f, n1, n2);
    ghost var w := weight[..];
    LinkNode(weight, parent, n1, n2, nNodes + 1);
    RemainingRoots(f, n1, n2);
    HeapFrame(heap[..], w, weight[..], nHeap - 2, nNodes + 1);
    Insert(heap, weight, nHeap - 2, nNodes + 1);
  }

  /** parent[n1] = parent[n2] = x; weight[x] = ADDWEIGHTS(...); parent[x] = -1 */
  method LinkNode(weight: array<nat>, parent: array<int>, n1: nat, n2: nat, x: nat)
    requires weight.Length == parent.Length && n1 < x && n2 < x && x < weight.Length
    modifies weight, parent
    ensures weight[..] == old(weight[..])[x := AddWeights(old(weight[n1]), old(weight[n2]))]
    ensures parent[..] == old(parent[..])[n1 := x][n2 := x][x := -1]
  {
    hide AddWeights;
    parent[n1] := x;
    parent[n2] := x;
    weight[x] := AddWeights(weight[n1], weight[n2]);
    parent[x] := -1;
  }

  /** Everything a merge of the two lightest roots keeps. */
  lemma MergeFacts(f: Forest, a: nat, b: nat)
    requires f.Valid() && f.m + 1 < |f.weight| && TwoLightest(f, a, b)
    requires RootSum(f.weight, f.parent, f.m) < 0x80_0000
    ensures 1 <= a <= f.m && 1 <= b <= f.m && a != b && a in f.roots && b in f.roots
    ensures Merged(f, a, b).Valid()
    ensures var g := Merged(f, a, b); RootSum(g.weight, g.parent, g.m) == RootSum(f.weight, f.parent, f.m)
  {
    hide RootSum, AddWeights;
    HeightFits(f, a);
    HeightFits(f, b);
    MergeKeeps(f, a, b);
    MergeSum(f, a, b);
  }

  lemma RemainingRoots(f: Forest, a: nat, b: nat)
    requires f.Valid() && f.m + 1 < |f.weight| && a in f.roots && b in f.roots && a != b
    ensures var x: nat := f.m + 1;
            && multiset(f.roots) - multiset{a} - multiset{b} + multiset{x} == multiset(Merged(f, a, b).roots)
            && x !in multiset(f.roots) - multiset{a} - multiset{b}
  {
    BagOfRoots(f.roots, a);
    BagOfRoots(f.roots - {a}, b);
    BagOfRoots(f.roots - {a} - {b}, f.m + 1);
    assert f.roots - {a} - {b} == f.roots - {a, b};
  }

  lemma NewestIsRoot(f: Forest)
    requires f.Valid()
    ensures f.m in f.roots
  {
    assert f.Linked(f.m);
  }

  lemma SingleRoot(f: Forest, bag: multiset<nat>)
    requires f.Valid() && bag == multiset(f.roots) && |bag| == 1
    ensures Finished(f)
  {
    NewestIsRoot(f);
    assert bag == multiset{f.m} by { BagSingle(bag, f.m); }
    forall k | k in f.roots ensures k == f.m { assert k in bag; }
  }

  lemma BagSingle(bag: multiset<nat>, k: nat)
    requires |bag| == 1 && k in bag
    ensures bag == multiset{k}
  {
    assert bag == multiset{k} + (bag - multiset{k});
    assert |bag| == 1 + |bag - multiset{k}|;
  }

  lemma BagSize(h: seq<nat>, n: nat)
    requires n < |h|
    ensures |Bag(h, n)| == n
  {
    assert |h[1..n + 1]| == n;
  }

  /** Builds the whole tree for the current leaf weights; neither array bound
      (AssertH 2001, 2002) is reached. */
  method BuildTree(heap: array<nat>, weight: array<nat>, parent: array<int>, n: nat) returns (ghost f: Forest)
    requires heap != weight && heap.Length == HEAP_SIZE && weight.Length == parent.Length == NODE_SIZE
    requires 2 <= n <= Huffman.MAX_ALPHA_SIZE && Bounded(heap[..], weight[..])
    requires Leaves(weight[..], n) && LeafSum(weight[..], n) < 0x80_0000
    modifies heap, weight, parent
    ensures Bounded(heap[..], weight[..])
    ensures Finished(f) && f.n == n && f.m == 2 * n - 1 && f.weight == weight[..] && f.parent == parent[..]
    ensures RootSum(f.weight, f.parent, f.m) == old(LeafSum(weight[..], n))
    ensures forall k :: 1 <= k <= n ==> weight[k] == old(weight[k])
  {
    hide IsHeap, Bag, RootSum, LeafSum, Forest.Valid, Leaves, NodesTo, Bounded;
    ghost var w0 := weight[..];
    weight[0] := 0;
    LeavesFrame(w0, weight[..], n);
    assert Bounded(heap[..], weight[..]) by { BoundedFrame(heap[..], w0, weight[..]); }
    FillHeap(heap, weight, parent, n);
    f := Forest(n, n, weight[..], parent[..], [], NodesTo(n));
    StartForest(f.weight, f.parent, n);
    LeavesAreRoots(f.weight, f.parent, n);
    var nNodes, nHeap := n, n;
    while nHeap > 1
      invariant 1 <= nHeap <= n && nNodes + nHeap == 2 * n && nNodes >= n
      invariant f.Valid() && f.Shape() && f.n == n && f.m == nNodes && f.weight == weight[..] && f.parent == parent[..]
      invariant RootSum(f.weight, f.parent, f.m) == LeafSum(w0, n)
      invariant Bounded(heap[..], weight[..]) && IsHeap(heap[..], weight[..], nHeap)
      invariant Bag(heap[..], nHeap) == multiset(f.roots)
      invariant forall k :: 1 <= k <= n ==> weight[k] == w0[k]
    {
      f := MergeLightest(heap, weight, parent, nNodes, nHeap, f);
      ShapeOf(f);
      nNodes := nNodes + 1;
      nHeap := nHeap - 1;
    }
    BagSize(heap[..], 1);
    SingleRoot(f, Bag(heap[..], 1));
  }

  lemma ShapeOf(f: Forest)
    requires f.Valid()
    ensures f.Shape()
  {
  }

  lemma BoundedFrame(h: seq<nat>, w: seq<nat>, w': seq<nat>)
    requires Bounded(h, w) && |w'| == |w|
    ensures Bounded(h, w')
  {
  }

  lemma {:induction false} LeafSumFrame(w: seq<nat>, w': seq<nat>, n: nat)
    requires n < |w| && n < |w'| && forall k :: 1 <= k <= n ==> w'[k] == w[k]
    ensures LeafSum(w', n) == LeafSum(w, n)
  {
    if n > 0 { LeafSumFrame(w, w', n - 1); }
  }

  lemma LeavesFrame(w: seq<nat>, w': seq<nat>, n: nat)
    requires n < |w| && n < |w'| && Leaves(w, n) && forall k :: 1 <= k <= n ==> w'[k] == w[k]
    ensures Leaves(w', n) && LeafSum(w', n) == LeafSum(w, n)
  {
    LeafSumFrame(w, w', n);
  }

  // ---------- Reading off lengths, rescaling ----------

  /** Counts the steps from every leaf to the root. */
  method ReadLengths(len: array<nat>, parent: array<int>, n: nat, maxLen: nat, ghost f: Forest) returns (tooLong: bool)
    requires Finished(f) && f.n == n && n == len.Length && f.parent == parent[..]
    modifies len
    ensures LeafDepths(f, len[..])
    ensures tooLong <==> exists i :: 0 <= i < n && len[i] > maxLen
  {
    hide Depth, Forest.Valid;
    ShapeOf(f);
    tooLong := false;
    for i: nat := 1 to n + 1
      invariant parent[..] == f.parent
      invariant forall k :: 0 <= k < i - 1 ==> len[k] == Depth(f.parent, f.m, k + 1)
      invariant tooLong ==> exists k :: 0 <= k < i - 1 && len[k] > maxLen
      invariant !tooLong ==> forall k :: 0 <= k < i - 1 ==> len[k] <= maxLen
    {
      var j := WalkUp(parent, i, f);
      ghost var before := len[..];
      len[i - 1] := j;
      assert forall k :: 0 <= k < i - 1 ==> len[k] == before[k];
      if j > maxLen { tooLong := true; }
    }
  }

  method WalkUp(parent: array<int>, start: nat, ghost f: Forest) returns (j: nat)
    requires Finished(f) && f.parent == parent[..] && 1 <= start <= f.m
    ensures j == Depth(f.parent, f.m, start)
  {
    hide Depth, Forest.Valid;
    ShapeOf(f);
    j := 0;
    var k: nat := start;
    DepthStep(f, k);
    while parent[k] >= 0
      invariant 1 <= k <= f.m && j + Depth(f.parent, f.m, k) == Depth(f.parent, f.m, start)
      invariant f.parent[k] < 0 ==> Depth(f.parent, f.m, k) == 0
      invariant f.parent[k] >= 0 ==> k < f.parent[k] <= f.m && Depth(f.parent, f.m, k) == 1 + Depth(f.parent, f.m, f.parent[k])
      decreases f.m - k
    {
      k := parent[k];
      j := j + 1;
      DepthStep(f, k);
    }
  }

  lemma DepthStep(f: Forest, k: nat)
    requires f.Valid() && 1 <= k <= f.m
    ensures f.parent[k] < 0 ==> Depth(f.parent, f.m, k) == 0
    ensures f.parent[k] >= 0 ==> k < f.parent[k] <= f.m && Depth(f.parent, f.m, k) == 1 + Depth(f.parent, f.m, f.parent[k])
  {
    assert f.Linked(k);
  }

  /** A tree with a code longer than 17 bits weighs at least Fib(20) = 6765. */
  lemma LongMeansHeavy(f: Forest, lens: seq<nat>, maxLen: nat, i: nat)
    requires Finished(f) && LeafDepths(f, lens) && i < |lens| && lens[i] > maxLen >= 17
    ensures RootSum(f.weight, f.parent, f.m) >= 6765
  {
    hide Depth, RootSum, Weight, Height, Fib;
    DepthBelowHeight(f, i + 1);
    assert f.Heavy(f.m) && f.Linked(f.m);
    RootInSum(f.weight, f.parent, f.m, f.m);
    FibMonotone(20, Height(f.weight[f.m]) + 2);
    FibTwenty();
  }

  lemma FibTwenty()
    ensures Fib(20) == 6765
  {
    hide Fib;
    FibStart();
    FibStep(1); FibStep(2); FibStep(3); FibStep(4); FibStep(5); FibStep(6);
    FibStep(7); FibStep(8); FibStep(9); FibStep(10); FibStep(11); FibStep(12);
    FibStep(13); FibStep(14); FibStep(15); FibStep(16); FibStep(17); FibStep(18);
  }

  /** j = weight >> 8; weight = (1 + j / 2) << 8 */
  function Rescaled(z: nat): nat { (1 + Weight(z) / 2) * 256 }

  lemma RescaledFields(z: nat)
    ensures Weight(Rescaled(z)) == 1 + Weight(z) / 2 && Height(Rescaled(z)) == 0
  {
  }

  /** Rescaling never adds weight, and removes some if any weight exceeds two. */
  lemma {:induction false} RescaleShrinks(w: seq<nat>, w': seq<nat>, n: nat)
    requires n < |w| && n < |w'| && Leaves(w, n) && forall k :: 1 <= k <= n ==> w'[k] == Rescaled(w[k])
    ensures Leaves(w', n) && LeafSum(w', n) <= LeafSum(w, n)
    ensures LeafSum(w, n) > 2 * n ==> LeafSum(w', n) < LeafSum(w, n)
  {
    if n > 0 {
      RescaleShrinks(w, w', n - 1);
      RescaledFields(w[n]);
    }
  }

  method Rescale(weight: array<nat>, n: nat)
    requires n < weight.Length
    modifies weight
    ensures forall k :: 1 <= k <= n ==> weight[k] == Rescaled(old(weight[k]))
  {
    hide Rescaled;
    for i: nat := 1 to n + 1
      invariant forall k :: 1 <= k < i ==> weight[k] == Rescaled(old(weight[k]))
      invariant forall k :: i <= k <= n ==> weight[k] == old(weight[k])
    {
      weight[i] := Rescaled(weight[i]);
    }
  }

  // ---------- The whole procedure ----------

  /** The initial weights: a zero frequency counts as one. */
  function StartWeight(freq: nat): nat { (if freq == 0 then 1 else freq) * 256 }

  ghost function FreqSum(freq: seq<nat>, n: nat): nat
    requires n <= |freq|
  {
    if n == 0 then 0 else FreqSum(freq, n - 1) + if freq[n - 1] == 0 then 1 else freq[n - 1]
  }

  lemma {:induction false} StartSum(freq: seq<nat>, w: seq<nat>, n: nat)
    requires n <= |freq| && n < |w| && forall k :: 1 <= k <= n ==> w[k] == StartWeight(freq[k - 1])
    ensures Leaves(w, n) && LeafSum(w, n) == FreqSum(freq, n)
  {
    if n > 0 { StartSum(freq, w, n - 1); }
  }

  /** The weights in force after a number of rescalings. */
  ghost function InForce(freq: seq<nat>, rounds: nat): (ws: seq<nat>)
    ensures |ws| == |freq|
    decreases rounds
  {
    if rounds == 0 then seq(|freq|, i requires 0 <= i < |freq| => if freq[i] == 0 then 1 else freq[i])
    else
      var before := InForce(freq, rounds - 1);
      seq(|freq|, i requires 0 <= i < |freq| => 1 + before[i] / 2)
  }

  ghost function Sum(ws: seq<nat>, n: nat): nat
    requires n <= |ws|
  {
    if n == 0 then 0 else Sum(ws, n - 1) + ws[n - 1]
  }

  /** The leaves carry these weights. */
  ghost predicate Carry(w: seq<nat>, ws: seq<nat>, n: nat) {
    n < |w| && |ws| == n && forall k :: 1 <= k <= n ==> Weight(w[k]) == ws[k - 1]
  }

  lemma {:induction false} CarriedSum(w: seq<nat>, ws: seq<nat>, n: nat, k: nat)
    requires Carry(w, ws, n) && k <= n
    ensures LeafSum(w, k) == Sum(ws, k)
  {
    if k > 0 { CarriedSum(w, ws, n, k - 1); }
  }

  lemma StartCarry(freq: seq<nat>, w: seq<nat>)
    requires |freq| < |w| && forall k :: 1 <= k <= |freq| ==> w[k] == StartWeight(freq[k - 1])
    ensures Carry(w, InForce(freq, 0), |freq|)
  {
  }

  lemma NextCarry(freq: seq<nat>, w: seq<nat>, w': seq<nat>, rounds: nat)
    requires Carry(w, InForce(freq, rounds), |freq|) && |w'| == |w|
    requires forall k :: 1 <= k <= |freq| ==> w'[k] == Rescaled(w[k])
    ensures Carry(w', InForce(freq, rounds + 1), |freq|)
  {
    hide Weight, Rescaled;
    forall k | 1 <= k <= |freq| ensures Weight(w'[k]) == InForce(freq, rounds + 1)[k - 1] { RescaledFields(w[k]); }
  }

  lemma CarryFrame(w: seq<nat>, w': seq<nat>, ws: seq<nat>, n: nat)
    requires Carry(w, ws, n) && |w'| == |w| && forall k :: 1 <= k <= n ==> w'[k] == w[k]
    ensures Carry(w', ws, n)
  {
  }

  lemma CarriedLeaves(f: Forest, ws: seq<nat>)
    requires f.Valid() && Carry(f.weight, ws, f.n)
    ensures LeafWeights(f, ws)
  {
  }

  /** A Huffman code for these weights was too long; they add up to 6765 or more. */
  ghost predicate Rejected(ws: seq<nat>, maxLen: nat) {
    Sum(ws, |ws|) >= 6765 && exists lens: seq<nat> :: TooLong(ws, lens, maxLen)
  }

  ghost predicate TooLong(ws: seq<nat>, lens: seq<nat>, maxLen: nat) {
    Optimal(ws, lens) && Huffman.Complete(lens, NODE_SIZE) && exists i :: 0 <= i < |lens| && lens[i] > maxLen
  }

  /** Lengths that the rounds of BZ2_hbMakeCodeLengths come to for these
      frequencies: a Huffman code for the weights in force in the last round, after
      rounds that were rejected. */
  ghost predicate MadeIn(freq: seq<nat>, lens: seq<nat>, maxLen: nat, rounds: nat) {
    && Huffman.Complete(lens, maxLen) && Optimal(InForce(freq, rounds), lens)
    && forall r: nat :: r < rounds ==> Rejected(InForce(freq, r), maxLen)
  }

  lemma {:induction false} DepthRoom(f: Forest, k: nat)
    requires f.Shape() && 1 <= k <= f.m
    ensures Depth(f.parent, f.m, k) <= f.m - k
    decreases f.m - k
  {
    if k < f.parent[k] <= f.m { DepthRoom(f, f.parent[k]); }
  }

  /** A tree with a code that is too long. */
  lemma RoundRejected(f: Forest, lens: seq<nat>, maxLen: nat, i: nat, ws: seq<nat>)
    requires Finished(f) && f.n >= 2 && f.n < f.m < NODE_SIZE && LeafDepths(f, lens) && i < |lens| && lens[i] > maxLen >= 17
    requires Carry(f.weight, ws, f.n) && RootSum(f.weight, f.parent, f.m) == LeafSum(f.weight, f.n)
    ensures Rejected(ws, maxLen)
  {
    hide RootSum, LeafSum, Sum, Depth, Weight, Optimal, Huffman.Complete, Forest.Valid, Carry, LeafWeights;
    LongMeansHeavy(f, lens, maxLen, i);
    CarriedTotal(f.weight, ws, f.n);
    CarriedLeaves(f, ws);
    LeavesOptimal(f, ws, lens);
    ShapeOf(f);
    forall i | 0 <= i < |lens| ensures lens[i] <= NODE_SIZE { DepthRoom(f, i + 1); }
    LeavesComplete(f, NODE_SIZE, lens);
    assert TooLong(ws, lens, maxLen);
  }

  lemma CarriedTotal(w: seq<nat>, ws: seq<nat>, n: nat)
    requires Carry(w, ws, n)
    ensures |ws| == n < |w| && LeafSum(w, n) == Sum(ws, |ws|)
  {
    CarriedSum(w, ws, n, n);
  }

  /** BZ2_hbMakeCodeLengths terminates and returns lengths from 1 to maxLen whose
      Kraft sum is exactly one: a Huffman code for the frequencies, or, if that has
      a code that is too long, for weights rescaled as often as it takes. */
  method MakeCodeLengths(len: array<nat>, freq: array<nat>, alphaSize: nat, maxLen: nat) returns (ghost rounds: nat)
    requires len != freq && len.Length == freq.Length == alphaSize && 2 <= alphaSize <= Huffman.MAX_ALPHA_SIZE
    requires FreqSum(freq[..], alphaSize) < 0x80_0000 && maxLen >= 17
    modifies len
    ensures Huffman.Complete(len[..], maxLen) && MadeIn(freq[..], len[..], maxLen, rounds)
    ensures FreqSum(freq[..], alphaSize) < 6765 ==> rounds == 0
  {
    hide LeafSum, Leaves, Finished, LeafDepths, RootSum, Rescaled, Depth, Huffman.Complete, Bounded, InForce, Carry, Rejected, Optimal, LeafWeights, FreqSum;
    var heap := new nat[HEAP_SIZE](_ => 0);
    var weight := new nat[NODE_SIZE](_ => 0);
    var parent := new int[NODE_SIZE](_ => 0);
    ZeroBounded(heap[..], weight[..]);
    for i := 0 to alphaSize
      invariant forall k :: 1 <= k <= i ==> weight[k] == StartWeight(freq[k - 1])
      invariant Bounded(heap[..], weight[..])
    {
      ghost var w := weight[..];
      weight[i + 1] := StartWeight(freq[i]);
      BoundedFrame(heap[..], w, weight[..]);
    }
    StartSum(freq[..], weight[..], alphaSize);
    StartCarry(freq[..], weight[..]);
    rounds := 0;
    while true
      invariant Leaves(weight[..], alphaSize) && LeafSum(weight[..], alphaSize) < 0x80_0000
      invariant Bounded(heap[..], weight[..]) && Carry(weight[..], InForce(freq[..], rounds), alphaSize)
      invariant forall r: nat :: r < rounds ==> Rejected(InForce(freq[..], r), maxLen)
      decreases LeafSum(weight[..], alphaSize)
    {
      var tooLong := Round(heap, weight, parent, len, alphaSize, maxLen, InForce(freq[..], rounds));
      if !tooLong { break; }
      ghost var w := weight[..];
      Rescale(weight, alphaSize);
      RescaleShrinks(w, weight[..], alphaSize);
      NextCarry(freq[..], w, weight[..], rounds);
      BoundedFrame(heap[..], w, weight[..]);
      rounds := rounds + 1;
    }
    if FreqSum(freq[..], alphaSize) < 6765 { LightNotRescaled(freq[..], maxLen, rounds); }
  }

  /** One round: the tree for the weights in force, and the lengths read off it. */
  method Round(heap: array<nat>, weight: array<nat>, parent: array<int>, len: array<nat>, n: nat, maxLen: nat, ghost ws: seq<nat>) returns (tooLong: bool)
    requires heap != weight && heap != len && weight != len && heap.Length == HEAP_SIZE && weight.Length == parent.Length == NODE_SIZE
    requires len.Length == n && 2 <= n <= Huffman.MAX_ALPHA_SIZE && maxLen >= 17 && Bounded(heap[..], weight[..])
    requires Leaves(weight[..], n) && LeafSum(weight[..], n) < 0x80_0000 && Carry(weight[..], ws, n)
    modifies heap, weight, parent, len
    ensures Bounded(heap[..], weight[..]) && Carry(weight[..], ws, n)
    ensures Leaves(weight[..], n) && LeafSum(weight[..], n) == old(LeafSum(weight[..], n))
    ensures if tooLong then Rejected(ws, maxLen) && LeafSum(weight[..], n) >= 6765
            else Huffman.Complete(len[..], maxLen) && Optimal(ws, len[..])
  {
    hide LeafSum, Leaves, LeafDepths, RootSum, Depth, Huffman.Complete, Bounded, Carry, Rejected, Optimal, LeafWeights, Forest.Valid;
    ghost var w0 := weight[..];
    ghost var f := BuildTree(heap, weight, parent, n);
    CarryFrame(w0, weight[..], ws, n);
    LeavesFrame(w0, weight[..], n);
    tooLong := ReadLengths(len, parent, n, maxLen, f);
    DepthsShape(f, len[..]);
    if tooLong {
      ghost var i :| 0 <= i < n && len[i] > maxLen;
      LongMeansHeavy(f, len[..], maxLen, i);
      RoundRejected(f, len[..], maxLen, i, ws);
    } else {
      LeavesComplete(f, maxLen, len[..]);
      CarriedLeaves(f, ws);
      LeavesOptimal(f, ws, len[..]);
    }
  }

  lemma DepthsShape(f: Forest, lens: seq<nat>)
    requires LeafDepths(f, lens)
    ensures f.Shape() && |lens| == f.n
  {
  }

  /** A total weight below 6765 is never rescaled. */
  lemma LightNotRescaled(freq: seq<nat>, maxLen: nat, rounds: nat)
    requires FreqSum(freq, |freq|) < 6765 && forall r: nat :: r < rounds ==> Rejected(InForce(freq, r), maxLen)
    ensures rounds == 0
  {
    StartTotal(freq, |freq|);
  }

  lemma {:induction false} StartTotal(freq: seq<nat>, n: nat)
    requires n <= |freq|
    ensures Sum(InForce(freq, 0), n) == FreqSum(freq, n)
  {
    if n > 0 { StartTotal(freq, n - 1); }
  }

  lemma ZeroBounded(h: seq<nat>, w: seq<nat>)
    requires |w| > 0 && forall i :: 0 <= i < |h| ==> h[i] == 0
    ensures Bounded(h, w)
  {
  }
}
