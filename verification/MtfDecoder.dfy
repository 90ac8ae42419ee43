/**
 The decoder's move-to-front list (decompress.c): sixteen rows of sixteen bytes
 that slide down a 4096-byte arena and are compacted to its top when the first
 row reaches the bottom. It refines the flat 256-element list.
 */
module MtfDecoder {
  import opened Mtf

  const MTFA_SIZE := 4096
  const MTFL_SIZE := 16
  const ROWS := 16

  /** Rows in order, disjoint and inside the arena. Row `short` is allowed to
      lack its last element (no row when short is ROWS). */
  ghost predicate Spaced(base: seq<int>, short: int) {
    && |base| == ROWS
    && (forall r :: 0 <= r < ROWS ==> 0 <= base[r] && base[r] + Room(r, short) <= MTFA_SIZE)
    && (forall r, s :: 0 <= r < s < ROWS ==> base[r] + Room(r, short) <= base[s])
  }

  ghost function Room(r: int, short: int): int { if r == short then MTFL_SIZE - 1 else MTFL_SIZE }

  /** Element c of row r. */
  ghost function Cell(a: seq<nat>, base: seq<int>, r: int, c: int): nat
    requires 0 <= r < |base| && 0 <= base[r] + c < |a|
  {
    a[base[r] + c]
  }

  /** Row r holds its part of the list, from element `from` of the row on. */
  ghost predicate RowIs(a: seq<nat>, base: seq<int>, r: int, list: seq<nat>)
    requires 0 <= r < ROWS && |base| == ROWS && |list| == 256 && |a| == MTFA_SIZE
    requires 0 <= base[r] <= MTFA_SIZE - MTFL_SIZE
  {
    forall c {:trigger Cell(a, base, r, c)} :: 0 <= c < MTFL_SIZE ==> Cell(a, base, r, c) == list[MTFL_SIZE * r + c]
  }

  /** Row r lacks one element: it holds its part of the list but the first. */
  ghost predicate RowShort(a: seq<nat>, base: seq<int>, r: int, list: seq<nat>)
    requires 0 <= r < ROWS && |base| == ROWS && |list| == 256 && |a| == MTFA_SIZE
    requires 0 <= base[r] && base[r] + MTFL_SIZE - 1 <= MTFA_SIZE
  {
    forall c {:trigger Cell(a, base, r, c)} :: 0 <= c < MTFL_SIZE - 1 ==> Cell(a, base, r, c) == list[MTFL_SIZE * r + c + 1]
  }

  /** The whole structure represents the list. */
  ghost predicate Represents(a: seq<nat>, base: seq<int>, list: seq<nat>) {
    && |a| == MTFA_SIZE && |list| == 256 && Spaced(base, ROWS)
    && forall r :: 0 <= r < ROWS ==> RowIs(a, base, r, list)
  }

  /** Midway through a general move of element nn: rows above r are final, row r
      is short, rows below it are still those of the old list. */
  ghost predicate Carrying(a: seq<nat>, base: seq<int>, list: seq<nat>, nn: nat, r: int) {
    && |a| == MTFA_SIZE && |list| == 256 && 0 <= r < ROWS && MTFL_SIZE * r <= nn < 256 && Spaced(base, r)
    && (forall s :: r < s < ROWS ==> RowIs(a, base, s, Front(list, nn)))
    && RowShort(a, base, r, Front(list, nn))
    && (forall s :: 0 <= s < r ==> RowIs(a, base, s, list))
  }

  lemma FrontAt(list: seq<nat>, nn: nat, k: nat)
    requires nn < |list| && k < |list|
    ensures Front(list, nn)[k] == if k == 0 then list[nn] else if k <= nn then list[k - 1] else list[k]
  {
  }

  /** The list is determined by the representation. */
  lemma RepresentsUnique(a: seq<nat>, base: seq<int>, l: seq<nat>, m: seq<nat>)
    requires Represents(a, base, l) && Represents(a, base, m)
    ensures l == m
  {
    forall k | 0 <= k < 256 ensures l[k] == m[k] {
      var r, c := k / MTFL_SIZE, k % MTFL_SIZE;
      assert RowIs(a, base, r, l) && RowIs(a, base, r, m);
      assert Cell(a, base, r, c) == l[MTFL_SIZE * r + c];
    }
  }

  /** The rows stay apart when row r moves down into the place row r - 1 gives up. */
  lemma StaySpaced(base: seq<int>, r: int)
    requires Spaced(base, r) && 0 < r < ROWS
    ensures 0 <= base[r] - 1 && base[r - 1] + MTFL_SIZE <= base[r]
    ensures Spaced(base[r := base[r] - 1], r - 1)
  {
  }

  /** A write outside row s leaves it as it is. */
  lemma RowKept(a: seq<nat>, base: seq<int>, base': seq<int>, s: int, list: seq<nat>, at: int, x: nat)
    requires |a| == MTFA_SIZE && |list| == 256 && |base| == |base'| == ROWS && 0 <= s < ROWS
    requires 0 <= base[s] == base'[s] <= MTFA_SIZE - MTFL_SIZE && RowIs(a, base, s, list)
    requires 0 <= at < |a| && !(base[s] <= at < base[s] + MTFL_SIZE)
    ensures RowIs(a[at := x], base', s, list)
  {
    var a' := a[at := x];
    forall c | 0 <= c < MTFL_SIZE ensures Cell(a', base', s, c) == list[MTFL_SIZE * s + c] {
      assert Cell(a, base, s, c) == list[MTFL_SIZE * s + c];
    }
  }

  /** Row r is complete again, and row r - 1 short. */
  lemma RowsCarried(a: seq<nat>, base: seq<int>, base': seq<int>, list: seq<nat>, moved: seq<nat>, nn: nat, r: int)
    requires Carrying(a, base, list, nn, r) && r > 0 && moved == Front(list, nn)
    requires base' == base[r := base[r] - 1] && base[r - 1] + MTFL_SIZE <= base[r]
    ensures var a' := a[base'[r] := a[base[r - 1] + MTFL_SIZE - 1]];
            RowIs(a', base', r, moved) && RowShort(a', base', r - 1, moved)
  {
    hide Front;
    var p := r - 1;
    var a' := a[base'[r] := a[base[p] + MTFL_SIZE - 1]];
    assert RowIs(a, base, p, list);
    forall c | 0 <= c < MTFL_SIZE ensures Cell(a', base', r, c) == moved[MTFL_SIZE * r + c] {
      FrontAt(list, nn, MTFL_SIZE * r);
      if c == 0 {
        assert Cell(a, base, p, MTFL_SIZE - 1) == list[MTFL_SIZE * r - 1];
      } else {
        assert Cell(a, base, r, c - 1) == moved[MTFL_SIZE * r + c];
      }
    }
    forall c | 0 <= c < MTFL_SIZE - 1 ensures Cell(a', base', p, c) == moved[MTFL_SIZE * p + c + 1] {
      assert Cell(a, base, p, c) == list[MTFL_SIZE * p + c];
      FrontAt(list, nn, MTFL_SIZE * p + c + 1);
    }
  }

  /** One row takes over the last element of the row below it. */
  lemma CarryStep(a: seq<nat>, base: seq<int>, a': seq<nat>, base': seq<int>, list: seq<nat>, nn: nat, r: int)
    requires Carrying(a, base, list, nn, r) && r > 0
    requires base' == base[r := base[r] - 1]
    requires 0 <= base'[r] < |a| && 0 <= base[r - 1] + MTFL_SIZE - 1 < |a|
    requires a' == a[base'[r] := a[base[r - 1] + MTFL_SIZE - 1]]
    ensures Carrying(a', base', list, nn, r - 1)
  {
    hide Front, RowIs, RowShort;
    var moved := Front(list, nn);
    StaySpaced(base, r);
    RowsCarried(a, base, base', list, moved, nn, r);
    forall s | r < s < ROWS ensures RowIs(a', base', s, moved) {
      RowKept(a, base, base', s, moved, base'[r], a[base[r - 1] + MTFL_SIZE - 1]);
    }
    forall s | 0 <= s < r - 1 ensures RowIs(a', base', s, list) {
      RowKept(a, base, base', s, list, base'[r], a[base[r - 1] + MTFL_SIZE - 1]);
    }
  }

  /** Row 0 receives the moved element. */
  lemma CarryEnd(a: seq<nat>, base: seq<int>, a': seq<nat>, base': seq<int>, list: seq<nat>, nn: nat)
    requires Carrying(a, base, list, nn, 0) && base[0] >= 1
    requires base' == base[0 := base[0] - 1] && base'[0] < |a| && a' == a[base'[0] := list[nn]]
    ensures Represents(a', base', Front(list, nn))
  {
    var moved := Front(list, nn);
    FrontAt(list, nn, 0);
    forall s | 0 <= s < ROWS ensures RowIs(a', base', s, moved) {
      forall c | 0 <= c < MTFL_SIZE ensures Cell(a', base', s, c) == moved[MTFL_SIZE * s + c] {
        if s > 0 {
          assert RowIs(a, base, s, moved);
          assert Cell(a, base, s, c) == moved[MTFL_SIZE * s + c];
        } else if c > 0 {
          assert Cell(a, base, 0, c - 1) == moved[c];
        }
      }
    }
  }

  /** Taking element off of row r out and closing up towards the row's start. */
  lemma CarryStart(a: seq<nat>, base: seq<int>, a': seq<nat>, base': seq<int>, list: seq<nat>, nn: nat, r: int, off: int)
    requires Represents(a, base, list) && nn < 256 && r == nn / MTFL_SIZE && off == nn % MTFL_SIZE
    requires base' == base[r := base[r] + 1] && |a'| == |a|
    requires forall k :: base[r] < k <= base[r] + off ==> a'[k] == a[k - 1]
    requires forall k :: 0 <= k < |a| && !(base[r] < k <= base[r] + off) ==> a'[k] == a[k]
    ensures Carrying(a', base', list, nn, r)
  {
    var moved := Front(list, nn);
    forall s | 0 <= s < ROWS && s != r
      ensures forall c {:trigger Cell(a', base', s, c)} :: 0 <= c < MTFL_SIZE ==> Cell(a', base', s, c) == list[MTFL_SIZE * s + c]
    {
      forall c | 0 <= c < MTFL_SIZE ensures Cell(a', base', s, c) == list[MTFL_SIZE * s + c] {
        assert RowIs(a, base, s, list);
        assert Cell(a, base, s, c) == list[MTFL_SIZE * s + c];
      }
    }
    forall s | r < s < ROWS ensures RowIs(a', base', s, moved) {
      forall c | 0 <= c < MTFL_SIZE ensures Cell(a', base', s, c) == moved[MTFL_SIZE * s + c] {
        FrontAt(list, nn, MTFL_SIZE * s + c);
      }
    }
    assert RowIs(a, base, r, list);
    forall c | 0 <= c < MTFL_SIZE - 1 ensures Cell(a', base', r, c) == moved[MTFL_SIZE * r + c + 1] {
      FrontAt(list, nn, MTFL_SIZE * r + c + 1);
      if c < off {
        assert Cell(a, base, r, c) == list[MTFL_SIZE * r + c];
      } else {
        assert Cell(a, base, r, c + 1) == list[MTFL_SIZE * r + c + 1];
      }
    }
  }

  /** A move inside row 0. */
  lemma ShortMove(a: seq<nat>, base: seq<int>, a': seq<nat>, list: seq<nat>, nn: nat)
    requires Represents(a, base, list) && nn < MTFL_SIZE && |a'| == |a|
    requires forall k :: base[0] < k <= base[0] + nn ==> a'[k] == a[k - 1]
    requires a'[base[0]] == a[base[0] + nn]
    requires forall k :: 0 <= k < |a| && !(base[0] <= k <= base[0] + nn) ==> a'[k] == a[k]
    ensures a[base[0] + nn] == list[nn] && Represents(a', base, Front(list, nn))
  {
    var moved := Front(list, nn);
    assert RowIs(a, base, 0, list) && Cell(a, base, 0, nn) == list[nn];
    forall s | 0 <= s < ROWS ensures RowIs(a', base, s, moved) {
      forall c | 0 <= c < MTFL_SIZE ensures Cell(a', base, s, c) == moved[MTFL_SIZE * s + c] {
        FrontAt(list, nn, MTFL_SIZE * s + c);
        assert RowIs(a, base, s, list);
        assert Cell(a, base, s, c) == list[MTFL_SIZE * s + c];
        if s == 0 && 0 < c { assert Cell(a, base, 0, c - 1) == list[c - 1]; }
      }
    }
  }

  /** Rows can only have slid down from where initialisation puts them. */
  lemma {:induction false} RowLimit(base: seq<int>, r: int)
    requires Spaced(base, ROWS) && 0 <= r < ROWS
    ensures base[r] <= MTFA_SIZE - 256 + MTFL_SIZE * r
    decreases ROWS - r
  {
    if r < ROWS - 1 { RowLimit(base, r + 1); }
  }

  class List {
    const mtfa: array<nat>
    const mtfbase: array<int>
    ghost var list: seq<nat>

    /** The arena represents the list and has room for one more general move. */
    ghost predicate Valid()
      reads this, mtfa, mtfbase
    {
      mtfa.Length == MTFA_SIZE && mtfbase.Length == ROWS && Represents(mtfa[..], mtfbase[..], list) && mtfbase[0] >= 1
    }

    /** The MTF init of decompress.c: the identity list at the top of the arena. */
    constructor ()
      ensures Valid() && fresh(mtfa) && fresh(mtfbase)
      ensures |list| == 256 && forall k :: 0 <= k < 256 ==> list[k] == k
      ensures mtfbase[0] == MTFA_SIZE - 256
    {
      mtfa := new nat[MTFA_SIZE];
      mtfbase := new int[ROWS];
      new;
      var kk := MTFA_SIZE - 1;
      var ii := ROWS - 1;
      while ii >= 0
        invariant -1 <= ii < ROWS && kk == MTFA_SIZE - 256 + MTFL_SIZE * ii + MTFL_SIZE - 1
        invariant forall k :: kk < k < MTFA_SIZE ==> mtfa[k] == k - (MTFA_SIZE - 256)
        invariant forall s :: ii < s < ROWS ==> mtfbase[s] == MTFA_SIZE - 256 + MTFL_SIZE * s
      {
        var jj := MTFL_SIZE - 1;
        while jj >= 0
          invariant -1 <= jj < MTFL_SIZE && kk == MTFA_SIZE - 256 + MTFL_SIZE * ii + jj
          invariant forall k :: kk < k < MTFA_SIZE ==> mtfa[k] == k - (MTFA_SIZE - 256)
          invariant forall s :: ii < s < ROWS ==> mtfbase[s] == MTFA_SIZE - 256 + MTFL_SIZE * s
        {
          mtfa[kk] := ii * MTFL_SIZE + jj;
          kk := kk - 1;
          jj := jj - 1;
        }
        mtfbase[ii] := kk + 1;
        ii := ii - 1;
      }
      list := seq(256, k => k);
      HomeRepresents(mtfa[..], mtfbase[..], list);
    }

    /** Slides all rows back to the top of the arena, highest first, over
        storage that may still hold unread rows. */
    method Compact()
      requires mtfa.Length == MTFA_SIZE && mtfbase.Length == ROWS && Represents(mtfa[..], mtfbase[..], list)
      modifies mtfa, mtfbase
      ensures Represents(mtfa[..], mtfbase[..], list) && mtfbase[0] == MTFA_SIZE - 256
    {
      ghost var a0, base0 := mtfa[..], mtfbase[..];
      var kk := MTFA_SIZE - 1;
      var ii := ROWS - 1;
      while ii >= 0
        invariant -1 <= ii < ROWS && kk == MTFA_SIZE - 256 + MTFL_SIZE * ii + MTFL_SIZE - 1
        invariant forall k :: kk < k < MTFA_SIZE ==> mtfa[k] == list[k - (MTFA_SIZE - 256)]
        invariant forall k :: 0 <= k <= kk ==> mtfa[k] == a0[k]
        invariant forall s :: ii < s < ROWS ==> mtfbase[s] == MTFA_SIZE - 256 + MTFL_SIZE * s
        invariant forall s :: 0 <= s <= ii ==> mtfbase[s] == base0[s]
      {
        RowLimit(base0, ii);
        assert RowIs(a0, base0, ii, list);
        var jj := MTFL_SIZE - 1;
        while jj >= 0
          invariant -1 <= jj < MTFL_SIZE && kk == MTFA_SIZE - 256 + MTFL_SIZE * ii + jj
          invariant forall k :: kk < k < MTFA_SIZE ==> mtfa[k] == list[k - (MTFA_SIZE - 256)]
          invariant forall k :: 0 <= k <= kk ==> mtfa[k] == a0[k]
          invariant forall s :: ii < s < ROWS ==> mtfbase[s] == MTFA_SIZE - 256 + MTFL_SIZE * s
          invariant forall s :: 0 <= s <= ii ==> mtfbase[s] == base0[s]
        {
          assert Cell(a0, base0, ii, jj) == list[MTFL_SIZE * ii + jj];
          mtfa[kk] := mtfa[mtfbase[ii] + jj];
          kk := kk - 1;
          jj := jj - 1;
        }
        mtfbase[ii] := kk + 1;
        ii := ii - 1;
      }
      HomeRepresents(mtfa[..], mtfbase[..], list);
    }

    /** A move within the first row, four elements at a time where possible. */
    method MoveInFirstRow(n: nat) returns (uc: nat)
      requires Valid() && n < MTFL_SIZE
      modifies this, mtfa
      ensures Valid() && uc == old(list)[n] && list == Front(old(list), n)
    {
      ghost var a := mtfa[..];
      var pp := mtfbase[0];
      assert RowIs(a, mtfbase[..], 0, list) && 0 <= pp <= MTFA_SIZE - MTFL_SIZE;
      hide Represents;
      uc := mtfa[pp + n];
      ShiftUp(pp, n);
      mtfa[pp] := uc;
      ShortMove(a, mtfbase[..], mtfa[..], list, n);
      list := Front(list, n);
    }

    /** Shifts the n cells from pp on up by one, four at a time and then singly. */
    method ShiftUp(pp: int, n: nat)
      requires mtfa.Length == MTFA_SIZE && 0 <= pp && pp + n < MTFA_SIZE
      modifies mtfa
      ensures forall k :: pp < k <= pp + n ==> mtfa[k] == old(mtfa[k - 1])
      ensures forall k :: 0 <= k < MTFA_SIZE && !(pp < k <= pp + n) ==> mtfa[k] == old(mtfa[k])
    {
      var nn := n;
      while nn > 3
        invariant 0 <= nn <= n
        invariant forall k :: pp + nn < k <= pp + n ==> mtfa[k] == old(mtfa[k - 1])
        invariant forall k :: 0 <= k < MTFA_SIZE && !(pp + nn < k <= pp + n) ==> mtfa[k] == old(mtfa[k])
      {
        var z := pp + nn;
        mtfa[z] := mtfa[z - 1];
        mtfa[z - 1] := mtfa[z - 2];
        mtfa[z - 2] := mtfa[z - 3];
        mtfa[z - 3] := mtfa[z - 4];
        nn := nn - 4;
      }
      while nn > 0
        invariant 0 <= nn <= n
        invariant forall k :: pp + nn < k <= pp + n ==> mtfa[k] == old(mtfa[k - 1])
        invariant forall k :: 0 <= k < MTFA_SIZE && !(pp + nn < k <= pp + n) ==> mtfa[k] == old(mtfa[k])
      {
        mtfa[pp + nn] := mtfa[pp + nn - 1];
        nn := nn - 1;
      }
    }

    /** Takes element off of row lno out, shifting the row's earlier elements up. */
    method TakeOut(lno: nat, off: nat) returns (uc: nat)
      requires Valid() && lno < ROWS && off < MTFL_SIZE
      modifies mtfa, mtfbase
      ensures Carrying(mtfa[..], mtfbase[..], list, MTFL_SIZE * lno + off, lno)
      ensures uc == list[MTFL_SIZE * lno + off]
      ensures lno > 0 ==> mtfbase[0] == old(mtfbase[0])
    {
      ghost var a, base := mtfa[..], mtfbase[..];
      assert RowIs(a, base, lno, list);
      assert Cell(a, base, lno, off) == list[MTFL_SIZE * lno + off];
      var pp := mtfbase[lno] + off;
      uc := mtfa[pp];
      while pp > mtfbase[lno]
        invariant base[lno] <= pp <= base[lno] + off && mtfbase[..] == base
        invariant forall k :: pp < k <= base[lno] + off ==> mtfa[k] == a[k - 1]
        invariant forall k :: 0 <= k < MTFA_SIZE && !(pp < k <= base[lno] + off) ==> mtfa[k] == a[k]
      {
        mtfa[pp] := mtfa[pp - 1];
        pp := pp - 1;
      }
      mtfbase[lno] := mtfbase[lno] + 1;
      CarryStart(a, base, mtfa[..], mtfbase[..], list, MTFL_SIZE * lno + off, lno, off);
    }

    /** The general case: each row below the element's gives its last element
        up to the next row and slides down by one. */
    method MoveAcrossRows(nn: nat) returns (uc: nat)
      requires Valid() && MTFL_SIZE <= nn < 256
      modifies this, mtfa, mtfbase
      ensures Valid() && uc == old(list)[nn] && list == Front(old(list), nn)
      ensures mtfbase[0] == if old(mtfbase[0]) == 1 then MTFA_SIZE - 256 else old(mtfbase[0]) - 1
    {
      hide Represents, Carrying, Front;
      var lno, off := nn / MTFL_SIZE, nn % MTFL_SIZE;
      var b0 := mtfbase[0];
      uc := TakeOut(lno, off);
      while lno > 0
        invariant 0 <= lno < ROWS && Carrying(mtfa[..], mtfbase[..], list, nn, lno)
        invariant mtfbase[0] == b0 && list == old(list)
      {
        ghost var a, base := mtfa[..], mtfbase[..];
        CarryBounds(a, base, list, nn, lno);
        mtfbase[lno] := mtfbase[lno] - 1;
        mtfa[mtfbase[lno]] := mtfa[mtfbase[lno - 1] + MTFL_SIZE - 1];
        CarryStep(a, base, mtfa[..], mtfbase[..], list, nn, lno);
        lno := lno - 1;
      }
      ghost var a, base := mtfa[..], mtfbase[..];
      CarryBounds(a, base, list, nn, 0);
      mtfbase[0] := mtfbase[0] - 1;
      mtfa[mtfbase[0]] := uc;
      CarryEnd(a, base, mtfa[..], mtfbase[..], list, nn);
      list := Front(list, nn);
      if mtfbase[0] == 0 { Compact(); }
    }

    /** The front element, read for a run. */
    method First() returns (uc: nat)
      requires Valid()
      ensures |list| == 256 && uc == list[0]
    {
      assert RowIs(mtfa[..], mtfbase[..], 0, list) && Cell(mtfa[..], mtfbase[..], 0, 0) == list[0];
      uc := mtfa[mtfbase[0]];
    }

    /** uc = MTF(nn): the abstract list undergoes exactly one move to front. */
    method Move(nn: nat) returns (uc: nat)
      requires Valid() && nn < 256
      modifies this, mtfa, mtfbase
      ensures Valid() && |old(list)| == 256 && uc == old(list)[nn] && list == Front(old(list), nn)
    {
      if nn < MTFL_SIZE {
        uc := MoveInFirstRow(nn);
      } else {
        uc := MoveAcrossRows(nn);
      }
    }
  }

  lemma CarryBounds(a: seq<nat>, base: seq<int>, list: seq<nat>, nn: nat, r: int)
    requires Carrying(a, base, list, nn, r)
    ensures |a| == MTFA_SIZE && |base| == ROWS && |list| == 256 && nn < 256
    ensures 0 <= base[r] && base[r] + MTFL_SIZE - 1 <= MTFA_SIZE
    ensures r > 0 ==> 0 <= base[r - 1] && base[r - 1] + MTFL_SIZE <= base[r]
  {
  }

  /** Every row in its home position. */
  lemma HomeRepresents(a: seq<nat>, base: seq<int>, list: seq<nat>)
    requires |a| == MTFA_SIZE && |base| == ROWS && |list| == 256
    requires forall s :: 0 <= s < ROWS ==> base[s] == MTFA_SIZE - 256 + MTFL_SIZE * s
    requires forall k :: MTFA_SIZE - 256 <= k < MTFA_SIZE ==> a[k] == list[k - (MTFA_SIZE - 256)]
    ensures Represents(a, base, list)
  {
    forall s | 0 <= s < ROWS ensures RowIs(a, base, s, list) {
      forall c | 0 <= c < MTFL_SIZE ensures Cell(a, base, s, c) == list[MTFL_SIZE * s + c] {
      }
    }
  }
}
