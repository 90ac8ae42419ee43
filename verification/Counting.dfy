/**
 Counting keys: where a stable counting sort puts them. The canonical order of
 Huffman codes and the radix sort of the main block sorter use it.
 */
module Counting {
  /** How many keys are n. */
  ghost function Count(keys: seq<nat>, n: nat): nat { multiset(keys)[n] }

  /** Earlier keys that are the same. */
  ghost function Rank(keys: seq<nat>, i: nat): nat
    requires i < |keys|
  {
    multiset(keys[..i])[keys[i]]
  }

  /** How many keys are smaller than n. */
  ghost function Smaller(keys: seq<nat>, n: nat): nat {
    if n == 0 then 0 else Smaller(keys, n - 1) + Count(keys, n - 1)
  }

  /** Where key i stands in sorted order. */
  ghost function Pos(keys: seq<nat>, i: nat): nat
    requires i < |keys|
  {
    Smaller(keys, keys[i]) + Rank(keys, i)
  }

  lemma RankBound(keys: seq<nat>, i: nat)
    requires i < |keys|
    ensures Rank(keys, i) < Count(keys, keys[i])
  {
    assert keys == keys[..i] + [keys[i]] + keys[i + 1..];
  }

  lemma RankOrder(keys: seq<nat>, i: nat, j: nat)
    requires i < j < |keys| && keys[i] == keys[j]
    ensures Rank(keys, i) < Rank(keys, j)
  {
    assert keys[..j] == keys[..i] + [keys[i]] + keys[i + 1..j];
  }

  lemma {:induction false} RankSurjective(keys: seq<nat>, n: nat, r: nat) returns (i: nat)
    requires r < Count(keys, n)
    ensures i < |keys| && keys[i] == n && Rank(keys, i) == r
  {
    var m := |keys| - 1;
    var t := keys[..m];
    assert keys == t + [keys[m]];
    if r < Count(t, n) {
      i := RankSurjective(t, n, r);
      assert keys[..i] == t[..i];
    } else {
      i := m;
    }
  }

  lemma SmallerNext(keys: seq<nat>, n: nat)
    ensures Smaller(keys, n + 1) == Smaller(keys, n) + Count(keys, n)
  {
  }

  lemma {:induction false} SmallerEmpty(n: nat)
    ensures Smaller([], n) == 0
  {
    if n > 0 { SmallerEmpty(n - 1); }
  }

  lemma {:induction false} SmallerAppend(keys: seq<nat>, x: nat, n: nat)
    ensures Smaller(keys + [x], n) == Smaller(keys, n) + if x < n then 1 else 0
  {
    if n > 0 { SmallerAppend(keys, x, n - 1); }
  }

  lemma {:induction false} SmallerBound(keys: seq<nat>, n: nat)
    ensures Smaller(keys, n) <= |keys|
  {
    if keys == [] {
      SmallerEmpty(n);
    } else {
      var t, x := keys[..|keys| - 1], keys[|keys| - 1];
      SmallerBound(t, n);
      SmallerAppend(t, x, n);
      assert keys == t + [x];
    }
  }

  lemma {:induction false} SmallerGrows(keys: seq<nat>, n: nat, m: nat)
    requires n <= m
    ensures Smaller(keys, n) <= Smaller(keys, m)
    decreases m
  {
    if n < m { SmallerGrows(keys, n, m - 1); }
  }

  lemma PosInjective(keys: seq<nat>, i: nat, j: nat)
    requires i < |keys| && j < |keys| && Pos(keys, i) == Pos(keys, j)
    ensures i == j
  {
    hide Smaller, Rank;
    if keys[i] == keys[j] {
      if i < j { RankOrder(keys, i, j); }
      if j < i { RankOrder(keys, j, i); }
    } else {
      var a, b := if keys[i] < keys[j] then i else j, if keys[i] < keys[j] then j else i;
      RankBound(keys, a);
      SmallerNext(keys, keys[a]);
      SmallerGrows(keys, keys[a] + 1, keys[b]);
    }
  }

  lemma PosRoom(keys: seq<nat>, i: nat)
    requires i < |keys|
    ensures Pos(keys, i) == Smaller(keys, keys[i]) + multiset(keys[..i])[keys[i]] < |keys|
  {
    RankBound(keys, i);
    SmallerNext(keys, keys[i]);
    SmallerBound(keys, keys[i] + 1);
  }
}
