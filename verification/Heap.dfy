/**
 The binary heap of BZ2_hbMakeCodeLengths (the UPHEAP and DOWNHEAP macros of
 huffman.c): entries 1..n are node numbers ordered by weight; entry 0 is a
 sentinel of weight 0.
 */
module Heap {
  ghost predicate Bounded(h: seq<nat>, w: seq<nat>) {
    forall i :: 0 <= i < |h| ==> h[i] < |w|
  }

  /** Entry i is no lighter than its parent. */
  ghost predicate Above(h: seq<nat>, w: seq<nat>, i: nat)
    requires Bounded(h, w) && i < |h|
  {
    w[h[i / 2]] <= w[h[i]]
  }

  ghost predicate IsHeap(h: seq<nat>, w: seq<nat>, n: nat)
    requires Bounded(h, w) && n < |h|
  {
    h[0] == 0 && w[0] == 0 && forall i :: 2 <= i <= n ==> Above(h, w, i)
  }

  /** The nodes in the heap. */
  ghost function Bag(h: seq<nat>, n: nat): multiset<nat>
    requires n < |h|
  {
    multiset(h[1..n + 1])
  }

  ghost predicate Lightest(k: nat, bag: multiset<nat>, w: seq<nat>) {
    k in bag && k < |w| && forall x :: x in bag ==> x < |w| && w[k] <= w[x]
  }

  /** The root is lightest. */
  lemma {:induction false} RootLightest(h: seq<nat>, w: seq<nat>, n: nat, i: nat)
    requires Bounded(h, w) && n < |h| && IsHeap(h, w, n) && 1 <= i <= n
    ensures w[h[1]] <= w[h[i]]
  {
    if i > 1 {
      RootLightest(h, w, n, i / 2);
      assert Above(h, w, i);
    }
  }

  ghost function Swap(h: seq<nat>, i: nat, j: nat): (g: seq<nat>)
    requires i < |h| && j < |h|
    ensures |g| == |h| && g[i] == h[j] && g[j] == h[i]
    ensures forall k :: 0 <= k < |h| && k != i && k != j ==> g[k] == h[k]
  {
    h[i := h[j]][j := h[i]]
  }

  lemma SwapContents(h: seq<nat>, i: nat, j: nat, n: nat)
    requires 1 <= i <= n < |h| && 1 <= j <= n
    ensures Bag(Swap(h, i, j), n) == Bag(h, n)
  {
    var s := h[1..n + 1];
    assert Swap(h, i, j)[1..n + 1] == s[i - 1 := s[j - 1]][j - 1 := s[i - 1]];
  }

  // ---------- UPHEAP ----------

  /** In order except, possibly, between entry z and its parent. */
  ghost predicate UpFrom(g: seq<nat>, w: seq<nat>, n: nat, z: nat)
    requires Bounded(g, w) && n < |g|
  {
    && 1 <= z <= n && g[0] == 0 && w[0] == 0
    && (forall i :: 2 <= i <= n && i != z ==> Above(g, w, i))
    && (forall i :: 2 <= i <= n && i / 2 == z && z >= 2 ==> w[g[z / 2]] <= w[g[i]])
  }

  lemma UpStep(g: seq<nat>, w: seq<nat>, n: nat, z: nat)
    requires Bounded(g, w) && n < |g| && UpFrom(g, w, n, z) && z >= 2 && w[g[z]] < w[g[z / 2]]
    ensures Bounded(Swap(g, z, z / 2), w) && UpFrom(Swap(g, z, z / 2), w, n, z / 2)
  {
    hide Swap;
    var p, g' := z / 2, Swap(g, z, z / 2);
    forall i | 2 <= i <= n && i != p ensures Above(g', w, i) {
      if i != z { assert Above(g, w, i); }
    }
    forall i | 2 <= i <= n && i / 2 == p && p >= 2 ensures w[g'[p / 2]] <= w[g'[i]] {
      assert Above(g, w, p);
      if i != z { assert Above(g, w, i); }
    }
  }

  method UpHeap(heap: array<nat>, weight: array<nat>, z: nat)
    requires heap != weight && Bounded(heap[..], weight[..]) && 1 <= z < heap.Length
    requires IsHeap(heap[..], weight[..], z - 1)
    modifies heap
    ensures Bounded(heap[..], weight[..]) && IsHeap(heap[..], weight[..], z)
    ensures Bag(heap[..], z) == old(Bag(heap[..], z))
    ensures forall i :: z < i < heap.Length ==> heap[i] == old(heap[i])
  {
    hide UpFrom, Swap, IsHeap, Bag;
    ghost var h0, w := heap[..], weight[..];
    var zz: nat, tmp := z, heap[z];
    ghost var g := h0;
    UpStart(g, w, z);
    while weight[tmp] < weight[heap[zz / 2]]
      invariant |g| == heap.Length && 1 <= zz <= z && Bounded(g, w) && UpFrom(g, w, z, zz) && g[zz] == tmp
      invariant g[0] == 0 && w[0] == 0
      invariant forall k :: 0 <= k < |g| && k != zz ==> heap[k] == g[k]
      invariant Bag(g, z) == Bag(h0, z)
      invariant forall i :: z < i < |g| ==> g[i] == h0[i]
      decreases zz
    {
      UpStep(g, w, z, zz);
      SwapContents(g, zz, zz / 2, z);
      g := Swap(g, zz, zz / 2);
      heap[zz] := heap[zz / 2];
      zz := zz / 2;
    }
    heap[zz] := tmp;
    assert heap[..] == g;
    UpDone(g, w, z, zz);
  }

  lemma UpStart(g: seq<nat>, w: seq<nat>, z: nat)
    requires Bounded(g, w) && 1 <= z < |g| && IsHeap(g, w, z - 1)
    ensures UpFrom(g, w, z, z) && g[0] == 0 && w[0] == 0
  {
  }

  lemma UpDone(g: seq<nat>, w: seq<nat>, n: nat, z: nat)
    requires Bounded(g, w) && n < |g| && UpFrom(g, w, n, z) && w[g[z]] >= w[g[z / 2]]
    ensures IsHeap(g, w, n)
  {
  }

  // ---------- DOWNHEAP ----------

  /** In order except, possibly, between entry z and its children. */
  ghost predicate DownFrom(g: seq<nat>, w: seq<nat>, n: nat, z: nat)
    requires Bounded(g, w) && n < |g|
  {
    && 1 <= z && g[0] == 0 && w[0] == 0
    && (forall i :: 2 <= i <= n && i / 2 != z ==> Above(g, w, i))
    && (forall i :: 2 <= i <= n && i / 2 == z && z >= 2 ==> w[g[z / 2]] <= w[g[i]])
  }

  /** y is the lighter child of z. */
  ghost predicate LighterChild(g: seq<nat>, w: seq<nat>, n: nat, z: nat, y: nat)
    requires Bounded(g, w) && n < |g|
  {
    1 <= z && 2 <= y <= n && y / 2 == z && forall i :: 2 <= i <= n && i / 2 == z ==> w[g[y]] <= w[g[i]]
  }

  lemma DownStep(g: seq<nat>, w: seq<nat>, n: nat, z: nat, y: nat)
    requires Bounded(g, w) && n < |g| && DownFrom(g, w, n, z) && LighterChild(g, w, n, z, y)
    requires w[g[z]] >= w[g[y]]
    ensures Bounded(Swap(g, z, y), w) && DownFrom(Swap(g, z, y), w, n, y)
  {
    hide Swap;
    var g' := Swap(g, z, y);
    forall i | 2 <= i <= n && i / 2 != y ensures Above(g', w, i) {
      if i / 2 != z && i != z { assert Above(g, w, i); }
    }
    forall i | 2 <= i <= n && i / 2 == y ensures w[g'[y / 2]] <= w[g'[i]] {
      assert Above(g, w, i);
    }
  }

  lemma DownDone(g: seq<nat>, w: seq<nat>, n: nat, z: nat)
    requires Bounded(g, w) && n < |g| && DownFrom(g, w, n, z)
    requires 2 * z > n || exists y: nat :: LighterChild(g, w, n, z, y) && w[g[z]] <= w[g[y]]
    ensures IsHeap(g, w, n)
  {
  }

  method DownHeap(heap: array<nat>, weight: array<nat>, n: nat)
    requires heap != weight && Bounded(heap[..], weight[..]) && n + 1 < heap.Length
    requires DownFrom(heap[..], weight[..], n, 1)
    modifies heap
    ensures Bounded(heap[..], weight[..]) && IsHeap(heap[..], weight[..], n)
    ensures Bag(heap[..], n) == old(Bag(heap[..], n))
  {
    hide DownFrom, Swap, IsHeap, LighterChild, Bag;
    ghost var h0, w := heap[..], weight[..];
    var zz: nat, tmp := 1, heap[1];
    ghost var g := h0;
    while true
      invariant |g| == heap.Length && 1 <= zz <= n + 1 && Bounded(g, w) && DownFrom(g, w, n, zz) && g[zz] == tmp
      invariant zz <= n || zz == 1
      invariant forall k :: 0 <= k < |g| && k != zz ==> heap[k] == g[k]
      invariant Bag(g, n) == Bag(h0, n)
      decreases n + 1 - zz
    {
      var yy := 2 * zz;
      if yy > n { break; }
      if yy < n && weight[heap[yy + 1]] < weight[heap[yy]] { yy := yy + 1; }
      PickChild(g, w, n, zz, yy);
      if weight[tmp] < weight[heap[yy]] {
        break;
      }
      DownStep(g, w, n, zz, yy);
      SwapContents(g, zz, yy, n);
      g := Swap(g, zz, yy);
      heap[zz] := heap[yy];
      zz := yy;
    }
    heap[zz] := tmp;
    assert heap[..] == g;
    DownDone(g, w, n, zz);
  }

  lemma PickChild(g: seq<nat>, w: seq<nat>, n: nat, z: nat, y: nat)
    requires Bounded(g, w) && n + 1 < |g| && 1 <= z && 2 * z <= n
    requires y == if 2 * z < n && w[g[2 * z + 1]] < w[g[2 * z]] then 2 * z + 1 else 2 * z
    ensures LighterChild(g, w, n, z, y)
  {
  }

  // ---------- Extracting the lightest ----------

  method ExtractMin(heap: array<nat>, weight: array<nat>, n: nat) returns (k: nat)
    requires heap != weight && Bounded(heap[..], weight[..]) && 1 <= n < heap.Length
    requires IsHeap(heap[..], weight[..], n)
    modifies heap
    ensures Bounded(heap[..], weight[..]) && IsHeap(heap[..], weight[..], n - 1)
    ensures Lightest(k, old(Bag(heap[..], n)), weight[..])
    ensures Bag(heap[..], n - 1) == old(Bag(heap[..], n)) - multiset{k}
  {
    hide IsHeap, DownFrom, Bag, Lightest;
    ghost var h, w := heap[..], weight[..];
    k := heap[1];
    LightestOf(h, w, n);
    AfterRemoval(h, w, n);
    RemovedContents(h, n);
    heap[1] := heap[n];
    assert heap[..] == h[1 := h[n]];
    DownHeap(heap, weight, n - 1);
  }

  lemma LightestOf(h: seq<nat>, w: seq<nat>, n: nat)
    requires Bounded(h, w) && 1 <= n < |h| && IsHeap(h, w, n)
    ensures Lightest(h[1], Bag(h, n), w)
  {
    assert h[1..n + 1][0] == h[1];
    forall x | x in multiset(h[1..n + 1]) ensures x < |w| && w[h[1]] <= w[x] {
      assert x in h[1..n + 1];
      var i :| 0 <= i < n && h[1..n + 1][i] == x;
      RootLightest(h, w, n, i + 1);
    }
  }

  lemma AfterRemoval(h: seq<nat>, w: seq<nat>, n: nat)
    requires Bounded(h, w) && 1 <= n < |h| && IsHeap(h, w, n)
    ensures Bounded(h[1 := h[n]], w) && DownFrom(h[1 := h[n]], w, n - 1, 1)
  {
    var g := h[1 := h[n]];
    forall i | 2 <= i <= n - 1 && i / 2 != 1 ensures Above(g, w, i) { assert Above(h, w, i); }
  }

  lemma RemovedContents(h: seq<nat>, n: nat)
    requires 1 <= n < |h|
    ensures Bag(h[1 := h[n]], n - 1) == Bag(h, n) - multiset{h[1]}
  {
    if n == 1 {
      assert h[1..2] == [h[1]] && h[1 := h[1]][1..1] == [];
    } else {
      assert Bag(h, n) == multiset{h[1]} + multiset(h[2..n]) + multiset{h[n]} by {
        assert h[1..n + 1] == [h[1]] + h[2..n] + [h[n]];
      }
      assert Bag(h[1 := h[n]], n - 1) == multiset{h[n]} + multiset(h[2..n]) by {
        assert h[1 := h[n]][1..n] == [h[n]] + h[2..n];
      }
    }
  }
}
