/**
 generateMTFValues of compress.c. The 16-bit values are written into the very
 array that holds the 32-bit sorted pointers; storage is modelled as 16-bit
 cells, a pointer occupying two of them, low half first.
 */
module MtfEncoder {
  import opened Sequences
  import opened Permutation
  import opened Rotation
  import opened InverseBwt
  import opened Mtf

  /** The 32-bit pointer i of the shared array. */
  function PtrAt(cells: seq<nat>, i: nat): nat
    requires 2 * i + 1 < |cells|
  {
    cells[2 * i] + 65536 * cells[2 * i + 1]
  }

  ghost function Pointers(cells: seq<nat>, n: nat): (r: seq<nat>)
    requires 2 * n <= |cells|
    ensures |r| == n && forall i :: 0 <= i < n ==> r[i] == PtrAt(cells, i)
  {
    seq(n, i requires 0 <= i < n => PtrAt(cells, i))
  }

  /** freq counts the values written so far: mtfFreq. */
  ghost predicate Counts(freq: seq<nat>, vals: seq<nat>) {
    forall v :: 0 <= v < |freq| ==> freq[v] == multiset(vals)[v]
  }

  /** mtfv[wr] = v; wr++; mtfFreq[v]++ */
  method PutValue(arr1: array<nat>, freq: array<nat>, wr: nat, v: nat)
    requires arr1 != freq && wr < arr1.Length && v < freq.Length && Counts(freq[..], arr1[..wr])
    modifies arr1, freq
    ensures arr1[..wr + 1] == old(arr1[..wr]) + [v] && Counts(freq[..], arr1[..wr + 1])
    ensures forall k :: wr < k < arr1.Length ==> arr1[k] == old(arr1[k])
  {
    arr1[wr] := v;
    freq[v] := freq[v] + 1;
  }

  /** Writes the digits of a pending run. */
  method PutRun(arr1: array<nat>, freq: array<nat>, wr0: nat, zeros: nat) returns (wr: nat)
    requires arr1 != freq && zeros > 0 && wr0 + zeros <= arr1.Length && freq.Length >= 2
    requires Counts(freq[..], arr1[..wr0])
    modifies arr1, freq
    ensures wr0 <= wr <= wr0 + zeros && arr1[..wr] == old(arr1[..wr0]) + RunCode(zeros)
    ensures Counts(freq[..], arr1[..wr])
    ensures forall k :: wr <= k < arr1.Length ==> arr1[k] == old(arr1[k])
  {
    hide Counts, RunCode;
    ghost var vals := arr1[..wr0];
    wr := wr0;
    var zPend: nat := zeros - 1;
    ghost var done: seq<nat> := [];
    assert vals + done == vals;
    while true
      invariant wr == wr0 + |done| && wr + zPend + 1 <= wr0 + zeros <= arr1.Length
      invariant arr1[..wr] == vals + done && done + RunCode(zPend + 1) == RunCode(zeros)
      invariant Counts(freq[..], arr1[..wr])
      invariant forall k :: wr <= k < arr1.Length ==> arr1[k] == old(arr1[k])
      decreases zPend
    {
      var bit := if zPend % 2 == 1 then RUNB else RUNA;
      RunCodeStep(zPend);
      PutValue(arr1, freq, wr, bit);
      wr := wr + 1;
      Appended(vals, done, bit, RunCode(zPend / 2));
      done := done + [bit];
      if zPend < 2 {
        NoRun();
        break;
      }
      zPend := (zPend - 2) / 2;
    }
  }

  lemma Appended(vals: seq<nat>, done: seq<nat>, bit: nat, rest: seq<nat>)
    ensures vals + (done + [bit]) == (vals + done) + [bit]
    ensures (done + [bit]) + rest == done + ([bit] + rest)
  {
  }

  lemma RunCodeStep(w: nat)
    ensures RunCode(w + 1) == [w % 2] + RunCode(w / 2)
  {
  }

  lemma NoRun()
    ensures RunCode(0) == []
  {
  }

  /** Moves x, known not to be first, to the front of the list by shifting the
      elements it passes one place down. */
  method MoveToFront(yy: array<nat>, n: nat, x: nat) returns (j: nat)
    requires 1 <= n <= yy.Length && x in yy[..n] && yy[0] != x
    modifies yy
    ensures 1 <= j < n && j == IndexOf(old(yy[..n]), x) && yy[..n] == Front(old(yy[..n]), j)
    ensures forall k :: n <= k < yy.Length ==> yy[k] == old(yy[k])
  {
    ghost var list := yy[..n];
    ghost var at := IndexOf(list, x);
    var rtmp := yy[1];
    yy[1] := yy[0];
    j := 1;
    while x != rtmp
      invariant 1 <= j <= at < n && rtmp == list[j]
      invariant yy[0] == list[0]
      invariant forall k :: 1 <= k <= j ==> yy[k] == list[k - 1]
      invariant forall k :: j < k < n ==> yy[k] == list[k]
      invariant forall k :: n <= k < yy.Length ==> yy[k] == old(yy[k])
      decreases n - j
    {
      j := j + 1;
      var rtmp2 := rtmp;
      rtmp := yy[j];
      yy[j] := rtmp2;
    }
    yy[0] := rtmp;
    assert j == at;
    assert yy[..n] == Front(list, j);
  }

  /** The symbols the encoder codes: the last column through unseqToSeq. */
  ghost function Symbols(b: seq<byte>, ptr: seq<nat>, unseqToSeq: seq<nat>): (r: seq<nat>)
    requires |ptr| == |b| && |unseqToSeq| == 256 && forall i :: 0 <= i < |ptr| ==> ptr[i] < |b|
    ensures |r| == |b|
    ensures forall i :: 0 <= i < |b| ==> r[i] == unseqToSeq[LastColumn(b, ptr)[i]]
  {
    seq(|b|, i requires 0 <= i < |b| => unseqToSeq[LastColumn(b, ptr)[i]])
  }

  lemma EncodeRunEnd(list: seq<nat>, z: nat)
    requires list != []
    ensures Encode(list, z, []) == RunCode(z)
  {
  }

  lemma EncodeSame(list: seq<nat>, z: nat, col: seq<nat>, i: nat)
    requires list != [] && i < |col| && (forall x :: x in col[i..] ==> x in list) && list[0] == col[i]
    ensures forall x :: x in col[i + 1..] ==> x in list
    ensures Encode(list, z, col[i..]) == Encode(list, z + 1, col[i + 1..])
  {
    assert col[i..][1..] == col[i + 1..];
  }

  lemma EncodeMoved(list: seq<nat>, z: nat, col: seq<nat>, i: nat)
    requires list != [] && i < |col| && (forall x :: x in col[i..] ==> x in list) && list[0] != col[i]
    ensures col[i] in list
    ensures var j := IndexOf(list, col[i]);
            && (forall x :: x in col[i + 1..] ==> x in Front(list, j))
            && Encode(list, z, col[i..]) == RunCode(z) + [j + 1] + Encode(Front(list, j), 0, col[i + 1..])
  {
    hide RunCode, IndexOf;
    assert col[i..][1..] == col[i + 1..] && col[i..][0] == col[i];
    FrontKeeps(list, IndexOf(list, col[i]));
  }

  /** Reading pointer i and writing values up to index i spares every later
      pointer. */
  lemma PointersSpared(before: seq<nat>, after: seq<nat>, wr: nat, i: nat, n: nat)
    requires |before| == |after| && 2 * n <= |before| && wr <= i + 1
    requires forall k :: wr <= k < |before| ==> after[k] == before[k]
    ensures forall k :: i + 1 <= k < n ==> PtrAt(after, k) == PtrAt(before, k)
  {
  }

  /** Flushes the pending run, then moves ll to the front and writes its index. */
  method PutMoved(arr1: array<nat>, freq: array<nat>, yy: array<nat>, n: nat, wr0: nat, zPend: nat, ll: nat) returns (wr: nat)
    requires arr1 != freq && arr1 != yy && freq != yy && 1 <= n <= yy.Length && ll in yy[..n] && yy[0] != ll
    requires wr0 + zPend < arr1.Length && freq.Length >= n + 2 && Counts(freq[..], arr1[..wr0])
    modifies arr1, freq, yy
    ensures wr0 < wr <= wr0 + zPend + 1
    ensures var j := IndexOf(old(yy[..n]), ll);
            yy[..n] == Front(old(yy[..n]), j) && arr1[..wr] == old(arr1[..wr0]) + RunCode(zPend) + [j + 1]
    ensures Counts(freq[..], arr1[..wr])
    ensures forall k :: wr <= k < arr1.Length ==> arr1[k] == old(arr1[k])
  {
    hide RunCode, Counts, IndexOf;
    wr := wr0;
    if zPend > 0 {
      wr := PutRun(arr1, freq, wr, zPend);
    } else {
      NoRun();
      assert arr1[..wr] + RunCode(0) == arr1[..wr];
    }
    var j := MoveToFront(yy, n, ll);
    PutValue(arr1, freq, wr, j + 1);
    wr := wr + 1;
  }

  /** Flushes the pending run and writes the end-of-block value. */
  method PutEnd(arr1: array<nat>, freq: array<nat>, wr0: nat, zPend: nat, eob: nat) returns (wr: nat)
    requires arr1 != freq && 2 <= eob < freq.Length && wr0 + zPend < arr1.Length && Counts(freq[..], arr1[..wr0])
    modifies arr1, freq
    ensures wr0 < wr <= wr0 + zPend + 1 && arr1[..wr] == old(arr1[..wr0]) + RunCode(zPend) + [eob]
    ensures Counts(freq[..], arr1[..wr])
  {
    hide RunCode, Counts;
    wr := wr0;
    if zPend > 0 {
      wr := PutRun(arr1, freq, wr, zPend);
    } else {
      NoRun();
      assert arr1[..wr] + RunCode(0) == arr1[..wr];
    }
    PutValue(arr1, freq, wr, eob);
    wr := wr + 1;
  }

  /** generateMTFValues: for every pointer order and block, the array ends up
      holding exactly the specified code, although it is overwritten while being
      read; at most nblock + 1 values are produced. */
  method GenerateMtfValues(arr1: array<nat>, block: array<byte>, nblock: nat, nInUse: nat, unseqToSeq: array<nat>, mtfFreq: array<nat>)
    returns (nMTF: nat)
    requires 0 < nblock == block.Length && arr1.Length == 2 * nblock
    requires arr1 != unseqToSeq && arr1 != mtfFreq && mtfFreq != unseqToSeq && unseqToSeq.Length == 256
    requires 1 <= nInUse <= 256 && mtfFreq.Length == nInUse + 2
    requires forall i :: 0 <= i < nblock ==> PtrAt(arr1[..], i) < nblock
    requires forall i :: 0 <= i < nblock ==> unseqToSeq[block[i]] < nInUse
    modifies arr1, mtfFreq
    ensures 1 <= nMTF <= nblock + 1
    ensures var syms := Symbols(block[..], Pointers(old(arr1[..]), nblock), unseqToSeq[..]);
            && (forall x :: x in syms ==> x in Identity(nInUse))
            && arr1[..nMTF] == Encode(Identity(nInUse), 0, syms) + [nInUse + 1]
    ensures Counts(mtfFreq[..], arr1[..nMTF])
  {
    hide Encode, RunCode, Counts, IndexOf, LastColumn;
    ghost var cells := arr1[..];
    ghost var ptr := Pointers(cells, nblock);
    ghost var syms := Symbols(block[..], ptr, unseqToSeq[..]);
    var EOB := nInUse + 1;
    ClearCounts(mtfFreq, arr1);
    var yy := new nat[256](i => i);
    assert yy[..nInUse] == Identity(nInUse);
    SymbolsKnown(block[..], ptr, unseqToSeq[..], nInUse);
    ghost var code := Encode(Identity(nInUse), 0, syms);
    var wr, zPend := 0, 0;
    assert syms[0..] == syms && arr1[..0] + code == code;
    for i := 0 to nblock
      invariant wr + zPend <= i
      invariant yy[..nInUse] != [] && forall x :: x in syms[i..] ==> x in yy[..nInUse]
      invariant arr1[..wr] + Encode(yy[..nInUse], zPend, syms[i..]) == code
      invariant Counts(mtfFreq[..], arr1[..wr])
      invariant forall k :: i <= k < nblock ==> PtrAt(arr1[..], k) == ptr[k]
    {
      assert wr <= i;
      ghost var before, list, done := arr1[..], yy[..nInUse], arr1[..wr];
      var ll := SymbolAt(arr1, block, i, unseqToSeq, ptr);
      if yy[0] == ll {
        EncodeSame(list, zPend, syms, i);
        zPend := zPend + 1;
      } else {
        EncodeMoved(list, zPend, syms, i);
        ghost var z := zPend;
        wr := PutMoved(arr1, mtfFreq, yy, nInUse, wr, zPend, ll);
        zPend := 0;
        ghost var idx := IndexOf(list, ll);
        Regroup(done, RunCode(z) + [idx + 1], Encode(yy[..nInUse], 0, syms[i + 1..]));
        Regroup(done, RunCode(z), [idx + 1]);
        PointersSpared(before, arr1[..], wr, i, nblock);
      }
    }
    assert syms[nblock..] == [];
    EncodeRunEnd(yy[..nInUse], zPend);
    nMTF := PutEnd(arr1, mtfFreq, wr, zPend, EOB);
  }

  /** The symbol before rotation i, read through the shared array. */
  method SymbolAt(arr1: array<nat>, block: array<byte>, i: nat, unseqToSeq: array<nat>, ghost ptr: seq<nat>) returns (ll: nat)
    requires i < block.Length == |ptr| && arr1.Length == 2 * block.Length && unseqToSeq.Length == 256
    requires PtrAt(arr1[..], i) == ptr[i] && forall k :: 0 <= k < |ptr| ==> ptr[k] < block.Length
    ensures ll == Symbols(block[..], ptr, unseqToSeq[..])[i]
  {
    hide LastColumn;
    var j: int := PtrAt(arr1[..], i) - 1;
    if j < 0 { j := j + block.Length; }
    LastColumnAt(block[..], ptr, i);
    ll := unseqToSeq[block[j]];
  }

  lemma LastColumnAt(b: seq<byte>, ptr: seq<nat>, i: nat)
    requires |ptr| == |b| && i < |b| && forall k :: 0 <= k < |ptr| ==> ptr[k] < |b|
    ensures LastColumn(b, ptr)[i] == b[if ptr[i] == 0 then |b| - 1 else ptr[i] - 1]
  {
  }

  lemma SymbolsKnown(b: seq<byte>, ptr: seq<nat>, unseqToSeq: seq<nat>, nInUse: nat)
    requires |ptr| == |b| && |unseqToSeq| == 256 && forall i :: 0 <= i < |ptr| ==> ptr[i] < |b|
    requires forall i :: 0 <= i < |b| ==> unseqToSeq[b[i]] < nInUse
    ensures forall x :: x in Symbols(b, ptr, unseqToSeq) ==> x in Identity(nInUse)
  {
    var syms := Symbols(b, ptr, unseqToSeq);
    forall x | x in syms ensures x in Identity(nInUse) {
      var i :| 0 <= i < |syms| && syms[i] == x;
      assert Identity(nInUse)[x] == x;
    }
  }

  method ClearCounts(freq: array<nat>, ghost arr1: array<nat>)
    requires freq != arr1
    modifies freq
    ensures Counts(freq[..], arr1[..0])
  {
    for i := 0 to freq.Length
      invariant forall v :: 0 <= v < i ==> freq[v] == 0
    {
      freq[i] := 0;
    }
  }
}
