/**
 The order in which mainSort in blocksort.c takes the big buckets: a shell sort
 by size, smallest first.
 */
module RunningOrder {
  import opened Permutation
  import opened MainRadix

  /** BIGFREQ */
  function BigFreq(ftab: seq<nat>, c: nat): int
    requires |ftab| == PAIRS + 1 && c < 256
  {
    ftab[(c + 1) * 256] as int - ftab[c * 256]
  }

  ghost predicate Bytes(order: seq<nat>) { |order| == 256 && forall x :: 0 <= x < 256 ==> order[x] < 256 }

  /** The first n entries go from small to large. */
  ghost predicate Rising(ftab: seq<nat>, order: seq<nat>, n: nat)
    requires |ftab| == PAIRS + 1 && Bytes(order) && n <= 256
  {
    forall x, y :: 0 <= x < y < n ==> BigFreq(ftab, order[x]) <= BigFreq(ftab, order[y])
  }

  /** With vv in the hole at j the contents are the original ones. */
  ghost predicate Holed(order: seq<nat>, j: nat, vv: nat, was: seq<nat>)
    requires j < |order|
  {
    multiset(order[j := vv]) == multiset(was)
  }

  lemma HoleAt(was: seq<nat>, i: nat)
    requires i < |was|
    ensures Holed(was, i, was[i], was)
  {
    assert was[i := was[i]] == was;
  }

  lemma HoleMoves(order: seq<nat>, j: nat, h: nat, vv: nat, was: seq<nat>)
    requires 1 <= h <= j < |order| && Holed(order, j, vv, was)
    ensures Holed(order[j := order[j - h]], j - h, vv, was)
  {
    var filled := order[j := vv];
    SwapKeeps(filled, j - h, j);
    assert filled[j - h := filled[j]][j := filled[j - h]] == order[j := order[j - h]][j - h := vv];
  }

  lemma HoleFilled(order: seq<nat>, j: nat, vv: nat, was: seq<nat>)
    requires j < |order| && Holed(order, j, vv, was) && Bytes(was)
    ensures Bytes(order[j := vv]) && multiset(order[j := vv]) == multiset(was)
  {
    BytesKept(was, order[j := vv]);
  }

  lemma SwapKeeps(s: seq<nat>, i: nat, j: nat)
    requires i < j < |s|
    ensures multiset(s[i := s[j]][j := s[i]]) == multiset(s)
  {
    assert s == s[..i] + [s[i]] + s[i + 1..j] + [s[j]] + s[j + 1..];
    assert s[i := s[j]][j := s[i]] == s[..i] + [s[j]] + s[i + 1..j] + [s[i]] + s[j + 1..];
  }

  lemma BytesKept(order: seq<nat>, order': seq<nat>)
    requires Bytes(order) && multiset(order) == multiset(order')
    ensures Bytes(order')
  {
    assert |order| == |multiset(order)| == |order'|;
    forall x | 0 <= x < 256 ensures order'[x] < 256 {
      assert order'[x] in multiset(order');
      assert order'[x] in multiset(order);
    }
  }

  /** At stride one: entries up to j are as they were, those above have moved up
      and are larger than vv. */
  ghost predicate Passed(ftab: seq<nat>, was: seq<nat>, order: seq<nat>, j: nat, i: nat, vv: nat)
    requires |ftab| == PAIRS + 1 && Bytes(was) && Bytes(order) && j <= i < 256 && vv < 256
  {
    && (forall k :: 0 <= k < j ==> order[k] == was[k])
    && (forall k :: j < k <= i ==> order[k] == was[k - 1] && BigFreq(ftab, was[k - 1]) > BigFreq(ftab, vv))
  }

  lemma PassOne(ftab: seq<nat>, was: seq<nat>, order: seq<nat>, j: nat, i: nat, vv: nat)
    requires |ftab| == PAIRS + 1 && Bytes(was) && Bytes(order) && 1 <= j <= i < 256 && vv < 256
    requires Passed(ftab, was, order, j, i, vv) && BigFreq(ftab, order[j - 1]) > BigFreq(ftab, vv)
    ensures Passed(ftab, was, order[j := order[j - 1]], j - 1, i, vv)
  {
    hide BigFreq;
  }

  /** vv is put in behind the entries that are not larger. */
  lemma RisingNext(ftab: seq<nat>, was: seq<nat>, order: seq<nat>, j: nat, i: nat, vv: nat)
    requires |ftab| == PAIRS + 1 && Bytes(was) && Bytes(order) && j <= i < 256 && vv < 256 && Rising(ftab, was, i)
    requires Passed(ftab, was, order, j, i, vv) && (j > 0 ==> BigFreq(ftab, order[j - 1]) <= BigFreq(ftab, vv))
    ensures Rising(ftab, order[j := vv], i + 1)
  {
    hide BigFreq;
    var order' := order[j := vv];
    forall x, y | 0 <= x < y < i + 1 ensures BigFreq(ftab, order'[x]) <= BigFreq(ftab, order'[y]) {
      if x < j && y < j {
        assert BigFreq(ftab, was[x]) <= BigFreq(ftab, was[y]);
      } else if x < j && y == j {
        assert x == j - 1 || BigFreq(ftab, was[x]) <= BigFreq(ftab, was[j - 1]);
      } else if x == j {
        assert order'[y] == was[y - 1];
      } else {
        var u := if x < j then x else x - 1;
        assert order'[x] == was[u] && order'[y] == was[y - 1] && u < y - 1;
        assert BigFreq(ftab, was[u]) <= BigFreq(ftab, was[y - 1]);
      }
    }
  }

  /** Moves larger entries up by h, down to where vv belongs. */
  method OpenHole(order: array<nat>, ftab: array<nat>, h: nat, i: nat, ghost was: seq<nat>) returns (j: nat)
    requires ftab.Length == PAIRS + 1 && Bytes(was) && order[..] == was && 1 <= h <= i < 256 && order != ftab
    modifies order
    ensures j <= i && Bytes(order[..]) && Holed(order[..], j, was[i], was)
    ensures h == 1 ==> Passed(ftab[..], was, order[..], j, i, was[i])
    ensures h == 1 && j > 0 ==> BigFreq(ftab[..], order[j - 1]) <= BigFreq(ftab[..], was[i])
  {
    hide BigFreq, Holed, Passed;
    var vv: nat := order[i];
    j := i;
    HoleAt(was, i);
    NonePassed(ftab[..], was, i);
    while BigFreq(ftab[..], order[j - h]) > BigFreq(ftab[..], vv)
      invariant h <= j <= i && Bytes(order[..]) && Holed(order[..], j, vv, was)
      invariant h == 1 ==> Passed(ftab[..], was, order[..], j, i, vv)
      decreases j
    {
      ghost var before := order[..];
      HoleMoves(before, j, h, vv, was);
      if h == 1 { PassOne(ftab[..], was, before, j, i, vv); }
      order[j] := order[j - h];
      assert order[..] == before[j := before[j - h]];
      j := j - h;
      if j <= h - 1 { break; }
    }
  }

  /** One insertion at stride h. */
  method Insert(order: array<nat>, ftab: array<nat>, h: nat, i: nat)
    requires ftab.Length == PAIRS + 1 && Bytes(order[..]) && 1 <= h <= i < 256 && order != ftab
    modifies order
    ensures Bytes(order[..]) && multiset(order[..]) == multiset(old(order[..]))
    ensures h == 1 && Rising(ftab[..], old(order[..]), i) ==> Rising(ftab[..], order[..], i + 1)
  {
    hide BigFreq, Rising, Holed, Passed;
    ghost var was := order[..];
    var vv := order[i];
    var j := OpenHole(order, ftab, h, i, was);
    ghost var holed := order[..];
    HoleFilled(holed, j, vv, was);
    if h == 1 && Rising(ftab[..], was, i) { RisingNext(ftab[..], was, holed, j, i, vv); }
    order[j] := vv;
    assert order[..] == holed[j := vv];
  }

  lemma NonePassed(ftab: seq<nat>, was: seq<nat>, i: nat)
    requires |ftab| == PAIRS + 1 && Bytes(was) && i < 256
    ensures Passed(ftab, was, was, i, i, was[i])
  {
  }

  /** The stride before the next smaller one. */
  method FirstStride() returns (h: nat)
    ensures Stride(h) && 256 < h < 770
  {
    h := 4;
    while h <= 256
      invariant Stride(h) && 4 <= h < 770
      decreases 257 - h
    {
      h := 3 * h + 1;
    }
  }

  /** 1, 4, 13, 40, ... */
  predicate Stride(h: nat)
    decreases h
  {
    h == 1 || (h > 1 && h % 3 == 1 && Stride(h / 3))
  }

  /** All big buckets, from the least full to the fullest. */
  method Order(ftab: array<nat>) returns (order: array<nat>)
    requires ftab.Length == PAIRS + 1
    ensures fresh(order) && Bytes(order[..]) && IsPermutation(order[..]) && Rising(ftab[..], order[..], 256)
  {
    hide Rising, BigFreq;
    order := new nat[256](i => i);
    ghost var was := order[..];
    var h := FirstStride();
    while true
      invariant fresh(order) && Bytes(order[..]) && multiset(order[..]) == multiset(was) && Stride(h) && 1 < h < 770
      decreases h
    {
      h := h / 3;
      if h == 1 { NoneRising(ftab[..], order[..]); }
      for i := h to 256
        invariant Bytes(order[..]) && multiset(order[..]) == multiset(was)
        invariant h == 1 ==> Rising(ftab[..], order[..], i)
      {
        Insert(order, ftab, h, i);
      }
      if h == 1 { break; }
    }
    SameContents(was, order[..]);
  }

  lemma NoneRising(ftab: seq<nat>, order: seq<nat>)
    requires |ftab| == PAIRS + 1 && Bytes(order)
    ensures Rising(ftab, order, 1)
  {
  }
}
