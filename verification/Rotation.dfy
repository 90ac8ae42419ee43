/**
 The specification of block sorting: the order of the cyclic rotations of a
 block (blocksort.c sorts them, decompress.c inverts the resulting transform).
 */
module Rotation {
  import opened Permutation

  type byte = x: int | 0 <= x < 256

  /** Index x folded into 0..n-1; the C code adds or subtracts nblock instead. */
  function Wrap(x: nat, n: nat): (r: nat)
    requires n > 0
    ensures r < n
  {
    if x < n then x else Wrap(x - n, n)
  }

  /** Byte x of the block repeated for ever. */
  function At(b: seq<byte>, x: nat): byte
    requires b != []
  {
    b[Wrap(x, |b|)]
  }

  /** Three-way comparison of rotations i and j on their first h bytes:
      negative, zero or positive. */
  function Cmp(b: seq<byte>, i: nat, j: nat, h: nat): int
    requires b != []
    decreases h
  {
    if h == 0 then 0
    else if At(b, i) != At(b, j) then At(b, i) - At(b, j)
    else Cmp(b, i + 1, j + 1, h - 1)
  }

  /** The first h bytes of rotation i. */
  function Rot(b: seq<byte>, i: nat, h: nat): (r: seq<byte>)
    requires b != []
    ensures |r| == h
    ensures forall d :: 0 <= d < h ==> r[d] == At(b, i + d)
    decreases h
  {
    if h == 0 then [] else [At(b, i)] + Rot(b, i + 1, h - 1)
  }

  /** Strings r and s first differ at position d, by v. */
  ghost predicate DifferBy(r: seq<byte>, s: seq<byte>, d: nat, v: int) {
    d < |r| && d < |s| && r[..d] == s[..d] && v == (r[d] as int) - (s[d] as int) && v != 0
  }

  /** Cmp is the lexicographic order on those strings: zero exactly when they
      are equal, otherwise the difference at the first position that differs. */
  lemma {:induction false} CmpIsLexicographic(b: seq<byte>, i: nat, j: nat, h: nat)
    requires b != []
    ensures Cmp(b, i, j, h) == 0 <==> Rot(b, i, h) == Rot(b, j, h)
    ensures Cmp(b, i, j, h) != 0 ==> exists d: nat :: DifferBy(Rot(b, i, h), Rot(b, j, h), d, Cmp(b, i, j, h))
    decreases h
  {
    if h > 0 {
      var r, s := Rot(b, i, h), Rot(b, j, h);
      if At(b, i) != At(b, j) {
        assert DifferBy(r, s, 0, Cmp(b, i, j, h));
      } else {
        CmpIsLexicographic(b, i + 1, j + 1, h - 1);
        var r', s' := Rot(b, i + 1, h - 1), Rot(b, j + 1, h - 1);
        assert r[1..] == r' && s[1..] == s';
        assert r == [At(b, i)] + r' && s == [At(b, i)] + s';
        if Cmp(b, i, j, h) != 0 {
          var d: nat :| DifferBy(r', s', d, Cmp(b, i + 1, j + 1, h - 1));
          assert r[..d + 1] == [At(b, i)] + r'[..d] && s[..d + 1] == [At(b, i)] + s'[..d];
          assert DifferBy(r, s, d + 1, Cmp(b, i, j, h));
        } else {
          assert r' == s';
        }
      }
    }
  }

  lemma CmpNone(b: seq<byte>, i: nat, j: nat)
    requires b != []
    ensures Cmp(b, i, j, 0) == 0
  {
  }

  lemma {:induction false} CmpReflexive(b: seq<byte>, i: nat, h: nat)
    requires b != []
    ensures Cmp(b, i, i, h) == 0
    decreases h
  {
    if h > 0 { CmpReflexive(b, i + 1, h - 1); }
  }

  lemma {:induction false} CmpSymmetric(b: seq<byte>, i: nat, j: nat, h: nat)
    requires b != []
    ensures Cmp(b, j, i, h) == -Cmp(b, i, j, h)
    decreases h
  {
    if h > 0 && At(b, i) == At(b, j) { CmpSymmetric(b, i + 1, j + 1, h - 1); }
  }

  lemma {:induction false} CmpTransitive(b: seq<byte>, i: nat, j: nat, k: nat, h: nat)
    requires b != []
    requires Cmp(b, i, j, h) <= 0 && Cmp(b, j, k, h) <= 0
    ensures Cmp(b, i, k, h) <= 0
    ensures Cmp(b, i, j, h) < 0 || Cmp(b, j, k, h) < 0 ==> Cmp(b, i, k, h) < 0
    decreases h
  {
    if h > 0 && At(b, i) == At(b, j) == At(b, k) {
      CmpTransitive(b, i + 1, j + 1, k + 1, h - 1);
    }
  }

  /** Comparing h + g bytes is comparing h bytes and then, on a tie, the next g. */
  lemma {:induction false} CmpSplit(b: seq<byte>, i: nat, j: nat, h: nat, g: nat)
    requires b != []
    ensures Cmp(b, i, j, h + g) ==
            if Cmp(b, i, j, h) != 0 then Cmp(b, i, j, h) else Cmp(b, i + h, j + h, g)
    decreases h
  {
    if h > 0 && At(b, i) == At(b, j) {
      CmpSplit(b, i + 1, j + 1, h - 1, g);
    }
  }

  /** Rotation |b| + i is rotation i. */
  lemma {:induction false} CmpWrap(b: seq<byte>, i: nat, j: nat, h: nat)
    requires b != []
    ensures Cmp(b, i + |b|, j, h) == Cmp(b, i, j, h)
    ensures Cmp(b, i, j + |b|, h) == Cmp(b, i, j, h)
    decreases h
  {
    if h > 0 { CmpWrap(b, i + 1, j + 1, h - 1); }
  }

  lemma {:induction false} CmpWrapped(b: seq<byte>, i: nat, j: nat, h: nat)
    requires b != []
    ensures Cmp(b, Wrap(i, |b|), Wrap(j, |b|), h) == Cmp(b, i, j, h)
    decreases i, j
  {
    if i >= |b| {
      CmpWrapped(b, i - |b|, j, h);
      CmpWrap(b, i - |b|, j, h);
    } else if j >= |b| {
      CmpWrapped(b, i, j - |b|, h);
      CmpWrap(b, i, j - |b|, h);
    }
  }

  /** On whole rotations, dropping a common first byte keeps the order. */
  lemma CmpShift(b: seq<byte>, i: nat, j: nat)
    requires b != []
    requires At(b, i) == At(b, j)
    ensures Cmp(b, i, j, |b|) == Cmp(b, i + 1, j + 1, |b|)
  {
    var n := |b|;
    CmpSplit(b, i + 1, j + 1, n - 1, 1);
    assert At(b, i + n) == At(b, i) && At(b, j + n) == At(b, j);
    assert Cmp(b, i + n, j + n, 1) == 0 by { assert Cmp(b, i + n + 1, j + n + 1, 0) == 0; }
  }

  lemma SameTransitive(b: seq<byte>, i: nat, j: nat, k: nat, h: nat)
    requires b != []
    requires Cmp(b, i, j, h) == 0 && Cmp(b, j, k, h) == 0
    ensures Cmp(b, i, k, h) == 0
  {
    CmpIsLexicographic(b, i, j, h);
    CmpIsLexicographic(b, j, k, h);
    CmpIsLexicographic(b, i, k, h);
  }

  /** Equal rotations begin alike and stay equal one byte further on. */
  lemma SameShift(b: seq<byte>, i: nat, j: nat)
    requires b != [] && Cmp(b, i, j, |b|) == 0
    ensures At(b, i) == At(b, j)
    ensures Cmp(b, i + 1, j + 1, |b|) == 0
  {
    CmpShift(b, i, j);
  }

  /** A prefix longer than the block decides nothing more than the block does. */
  lemma {:induction false} CmpLong(b: seq<byte>, i: nat, j: nat, h: nat)
    requires b != [] && h >= |b|
    ensures Cmp(b, i, j, h) == Cmp(b, i, j, |b|)
    decreases h
  {
    var n := |b|;
    if h > n {
      CmpSplit(b, i, j, n, h - n);
      if Cmp(b, i, j, n) == 0 {
        CmpWrap(b, i, j + n, h - n);
        CmpWrap(b, i, j, h - n);
        if h - n >= n {
          CmpLong(b, i, j, h - n);
        } else {
          CmpSplit(b, i, j, h - n, n - (h - n));
        }
      }
    }
  }

  /** Positions i and j of ptr name rotations in non-decreasing order of their
      first h bytes. */
  ghost predicate InOrder(b: seq<byte>, ptr: seq<nat>, h: nat, i: int, j: int)
    requires b != [] && 0 <= i < |ptr| && 0 <= j < |ptr|
  {
    Cmp(b, ptr[i], ptr[j], h) <= 0
  }

  /** ptr lists all rotations of b in non-decreasing order of their first h
      bytes (ties in any order). */
  ghost predicate SortedTo(b: seq<byte>, ptr: seq<nat>, h: nat)
    requires b != []
  {
    && |ptr| == |b|
    && IsPermutation(ptr)
    && forall i, j {:trigger InOrder(b, ptr, h, i, j)} :: 0 <= i < j < |ptr| ==> InOrder(b, ptr, h, i, j)
  }

  /** ptr lists all rotations of b in non-decreasing order. */
  ghost predicate SortedRotations(b: seq<byte>, ptr: seq<nat>)
    requires b != []
  {
    SortedTo(b, ptr, |b|)
  }

  /** The sorted rotations are unique as strings: any two sorted orders agree
      position by position up to equality of the bytes compared. */
  lemma SortedUnique(b: seq<byte>, p: seq<nat>, q: seq<nat>, h: nat, k: nat)
    requires b != []
    requires SortedTo(b, p, h) && SortedTo(b, q, h)
    requires k < |b|
    ensures Cmp(b, p[k], q[k], h) == 0
  {
    if Cmp(b, p[k], q[k], h) < 0 {
      RankBound(b, p, q, h, k);
    } else if Cmp(b, p[k], q[k], h) > 0 {
      CmpSymmetric(b, p[k], q[k], h);
      RankBound(b, q, p, h, k);
    }
  }

  /** A rotation that sorts strictly before q[k] stands before position k of q. */
  lemma Earlier(b: seq<byte>, q: seq<nat>, h: nat, k: nat, x: nat)
    requires b != [] && SortedTo(b, q, h) && k < |b| && x < |b|
    requires Cmp(b, x, q[k], h) < 0
    ensures x in Elements(q[..k])
  {
    hide Cmp;
    Surjective(q, x);
    var j :| 0 <= j < |b| && q[j] == x;
    CmpReflexive(b, x, h);
    if j >= k {
      assert j == k || InOrder(b, q, h, k, j);
      CmpTransitive(b, x, q[k], q[j], h);
    }
    assert q[..k][j] == x;
  }

  lemma RankBound(b: seq<byte>, p: seq<nat>, q: seq<nat>, h: nat, k: nat)
    requires b != []
    requires SortedTo(b, p, h) && SortedTo(b, q, h)
    requires k < |b|
    ensures Cmp(b, p[k], q[k], h) >= 0
  {
    hide Cmp;
    if Cmp(b, p[k], q[k], h) < 0 {
      forall x | x in Elements(p[..k + 1]) ensures x in Elements(q[..k]) {
        var i :| 0 <= i < k + 1 && p[i] == x;
        if i < k {
          assert InOrder(b, p, h, i, k);
          CmpTransitive(b, x, p[k], q[k], h);
        }
        Earlier(b, q, h, k, x);
      }
      DistinctSize(p[..k + 1]);
      DistinctSize(q[..k]);
      SubsetSize(Elements(p[..k + 1]), Elements(q[..k]));
    }
  }
}
