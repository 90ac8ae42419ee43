/**
 Canonical Huffman codes (huffman.c): BZ2_hbAssignCodes, the decoding tables of
 BZ2_hbCreateDecodeTables, and the bit-by-bit decoder GET_MTF_VAL of
 decompress.c, which undoes the code for every table whose Kraft sum is at
 most one.
 */
module Huffman {
  import opened Counting
  import opened Bits
  import opened BitSeq

  const MAX_ALPHA_SIZE := 258
  const MAX_CODE_LEN := 23
  const LONGEST_CODE := 20

  // ---------- The code ----------

  /** The first code of length n, and one past the last. */
  ghost function First(lens: seq<nat>, n: nat): nat {
    if n == 0 then 0 else 2 * End(lens, n - 1)
  }

  ghost function End(lens: seq<nat>, n: nat): nat {
    (if n == 0 then 0 else 2 * End(lens, n - 1)) + Count(lens, n)
  }

  /** The canonical code of symbol i, lens[i] bits wide. */
  ghost function Code(lens: seq<nat>, i: nat): nat
    requires i < |lens|
  {
    First(lens, lens[i]) + Rank(lens, i)
  }

  /** The Kraft sum scaled by 2^m. */
  ghost function Kraft(lens: seq<nat>, m: nat): nat
    requires forall i :: 0 <= i < |lens| ==> lens[i] <= m
  {
    if lens == [] then 0 else Kraft(lens[..|lens| - 1], m) + Pow2(m - lens[|lens| - 1])
  }

  lemma {:induction false} EndAppend(lens: seq<nat>, x: nat, n: nat)
    ensures End(lens + [x], n) == End(lens, n) + if x <= n then Pow2(n - x) else 0
  {
    if n > 0 { EndAppend(lens, x, n - 1); }
  }

  lemma {:induction false} EndEmpty(n: nat)
    ensures End([], n) == 0
  {
    if n > 0 { EndEmpty(n - 1); }
  }

  /** Where the codes of the longest length stop is the Kraft sum. */
  lemma {:induction false} EndIsKraft(lens: seq<nat>, m: nat)
    requires forall i :: 0 <= i < |lens| ==> lens[i] <= m
    ensures End(lens, m) == Kraft(lens, m)
  {
    if lens == [] {
      EndEmpty(m);
    } else {
      var t, x := lens[..|lens| - 1], lens[|lens| - 1];
      EndIsKraft(t, m);
      EndAppend(t, x, m);
      assert lens == t + [x];
    }
  }

  lemma EndDoubles(lens: seq<nat>, n: nat)
    requires n >= 1
    ensures End(lens, n) >= 2 * End(lens, n - 1)
  {
  }

  /** Smaller codes take their share of the longer ones. */
  lemma {:induction false} EndGrows(lens: seq<nat>, n: nat, d: nat)
    ensures End(lens, n + d) >= End(lens, n) * Pow2(d)
  {
    if d > 0 {
      EndGrows(lens, n, d - 1);
      EndDoubles(lens, n + d);
      hide End, Pow2;
      MulPow2(End(lens, n), d);
    }
  }

  lemma {:induction false} FirstGrows(lens: seq<nat>, n: nat, d: nat)
    requires d >= 1
    ensures First(lens, n + d) >= End(lens, n) * Pow2(d)
  {
    hide End, Pow2;
    EndGrows(lens, n, d - 1);
    MulPow2(End(lens, n), d);
  }

  lemma EndFits(lens: seq<nat>, n: nat, m: nat)
    requires n <= m && End(lens, m) <= Pow2(m)
    ensures End(lens, n) <= Pow2(n)
  {
    EndGrows(lens, n, m - n);
    Pow2Add(n, m - n);
    var p := Pow2(m - n);
    if End(lens, n) > Pow2(n) { MulStrict(Pow2(n), End(lens, n), p); }
  }

  lemma MulStrict(x: nat, y: nat, p: nat)
    requires x < y && p >= 1
    ensures x * p < y * p
  {
  }

  lemma CodeBounds(lens: seq<nat>, i: nat)
    requires i < |lens|
    ensures First(lens, lens[i]) <= Code(lens, i) < End(lens, lens[i])
  {
    RankBound(lens, i);
  }

  /** Lengths whose Kraft sum does not exceed one. */
  ghost predicate Decodable(lens: seq<nat>, m: nat) {
    && (forall i :: 0 <= i < |lens| ==> 1 <= lens[i] <= m)
    && End(lens, m) <= Pow2(m)
  }

  lemma CodeFits(lens: seq<nat>, m: nat, i: nat)
    requires Decodable(lens, m) && i < |lens|
    ensures Code(lens, i) < Pow2(lens[i])
  {
    CodeBounds(lens, i);
    EndFits(lens, lens[i], m);
  }

  ghost function CodeBits(lens: seq<nat>, i: nat): (r: seq<bit>)
    requires i < |lens|
    ensures |r| == lens[i]
  {
    ToBits(Code(lens, i), lens[i])
  }

  lemma QuotientAtLeast(h: nat, l: nat, e: nat, p: nat)
    requires l < p && h * p + l >= e * p
    ensures h >= e
  {
    assert (h + 1) * p == h * p + p;
    if h < e { MulMono(h + 1, e, p); }
  }

  /** A longer code's first n bits lie past all codes of length n. */
  lemma LongerBeyond(lens: seq<nat>, j: nat, n: nat)
    requires j < |lens| && n < lens[j]
    ensures High(Code(lens, j), lens[j] - n) >= End(lens, n)
  {
    hide Pow2, High, Low, End, Code, First;
    var d := lens[j] - n;
    CodeBounds(lens, j);
    FirstGrows(lens, n, d);
    HighLow(Code(lens, j), d);
    QuotientAtLeast(High(Code(lens, j), d), Low(Code(lens, j), d), End(lens, n), Pow2(d));
  }

  /** The code is prefix-free. */
  lemma PrefixFree(lens: seq<nat>, m: nat, i: nat, j: nat)
    requires Decodable(lens, m) && i < |lens| && j < |lens| && i != j
    ensures !(CodeBits(lens, i) <= CodeBits(lens, j))
  {
    hide Code, End, First, Rank, ToBits, Decodable;
    if CodeBits(lens, i) <= CodeBits(lens, j) {
      var n, l := lens[i], lens[j];
      CodeFits(lens, m, i);
      CodeFits(lens, m, j);
      CodeBounds(lens, i);
      if n == l {
        assert CodeBits(lens, i) == CodeBits(lens, j);
        FromToBits(Code(lens, i), n);
        FromToBits(Code(lens, j), n);
        SameCode(lens, i, j);
      } else {
        LongerBeyond(lens, j, n);
        ToBitsPrefix(Code(lens, j), n, l - n);
        assert CodeBits(lens, j)[..n] == CodeBits(lens, i);
        PrefixValue(Code(lens, j), n, l - n);
        FromToBits(Code(lens, i), n);
        FromToBits(High(Code(lens, j), l - n), n);
      }
    }
  }

  lemma SameCode(lens: seq<nat>, i: nat, j: nat)
    requires i < |lens| && j < |lens| && lens[i] == lens[j] && Code(lens, i) == Code(lens, j)
    ensures i == j
  {
    if i < j { RankOrder(lens, i, j); }
    if j < i { RankOrder(lens, j, i); }
  }

  /** The leading n bits of an (n + d)-bit value are an n-bit value. */
  lemma PrefixValue(v: nat, n: nat, d: nat)
    requires v < Pow2(n + d)
    ensures High(v, d) < Pow2(n)
  {
    hide Pow2, High, Low;
    Pow2Add(n, d);
    HighLow(v, d);
    if High(v, d) >= Pow2(n) { MulMono(Pow2(n), High(v, d), Pow2(d)); }
  }

  // ---------- The decoder ----------

  datatype Tables = Tables(minLen: nat, limit: seq<int>, base: seq<int>, perm: seq<nat>)

  ghost predicate Shaped(t: Tables) {
    |t.limit| == MAX_CODE_LEN && |t.base| == MAX_CODE_LEN && |t.perm| == MAX_ALPHA_SIZE
  }

  /** The inner loop of GET_MTF_VAL with zn bits read as zvec. */
  ghost function ReadCode(t: Tables, bits: seq<bit>, zn: nat, zvec: nat): (r: Read<nat>)
    requires Shaped(t)
    ensures r.Got? ==> |r.rest| <= |bits|
    decreases |bits|
  {
    if zn > LONGEST_CODE then DataError
    else if zvec <= t.limit[zn] then
      var k := zvec - t.base[zn];
      if k < 0 || k >= MAX_ALPHA_SIZE then DataError else Got(t.perm[k], bits)
    else if bits == [] then NeedMore
    else ReadCode(t, bits[1..], zn + 1, 2 * zvec + bits[0])
  }

  ghost function ReadSymbol(t: Tables, bits: seq<bit>): (r: Read<nat>)
    requires Shaped(t)
    ensures r.Got? ==> |r.rest| <= |bits|
  {
    if |bits| < t.minLen then NeedMore
    else ReadCode(t, bits[t.minLen..], t.minLen, FromBits(bits[..t.minLen]))
  }

  /** What BZ2_hbCreateDecodeTables establishes for lengths in [minLen, maxLen]. */
  ghost predicate TablesFor(t: Tables, lens: seq<nat>, maxLen: nat) {
    && Shaped(t) && 1 <= t.minLen <= maxLen <= LONGEST_CODE && |lens| <= MAX_ALPHA_SIZE
    && (forall i :: 0 <= i < |lens| ==> t.minLen <= lens[i] <= maxLen)
    && (forall n :: t.minLen <= n <= maxLen ==> t.limit[n] == End(lens, n) - 1)
    && (forall n :: t.minLen <= n <= maxLen ==> t.base[n] == First(lens, n) - Smaller(lens, n))
    && (forall i :: 0 <= i < |lens| ==> PermAt(t.perm, lens, i))
  }

  ghost predicate PermAt(perm: seq<nat>, lens: seq<nat>, i: nat)
    requires i < |lens|
  {
    Pos(lens, i) < |perm| && perm[Pos(lens, i)] == i
  }

  /** The first n bits of a longer code read as a value past all n-bit codes. */
  lemma PrefixBeyond(lens: seq<nat>, maxLen: nat, i: nat, n: nat)
    requires Decodable(lens, maxLen) && i < |lens| && n < lens[i]
    ensures FromBits(CodeBits(lens, i)[..n]) >= End(lens, n)
  {
    hide Code, End, ToBits, FromBits, Decodable, Pow2;
    var d := lens[i] - n;
    CodeFits(lens, maxLen, i);
    ToBitsPrefix(Code(lens, i), n, d);
    PrefixValue(Code(lens, i), n, d);
    FromToBits(High(Code(lens, i), d), n);
    LongerBeyond(lens, i, n);
  }

  /** A complete code is recognised and looked up. */
  lemma ReadHere(t: Tables, lens: seq<nat>, maxLen: nat, i: nat, rest: seq<bit>)
    requires TablesFor(t, lens, maxLen) && Decodable(lens, maxLen) && i < |lens|
    ensures ReadCode(t, rest, lens[i], FromBits(CodeBits(lens, i))) == Got(i, rest)
  {
    hide Code, End, First, Rank, ToBits, FromBits, Decodable, Smaller, Count;
    CodeFits(lens, maxLen, i);
    CodeBounds(lens, i);
    FromToBits(Code(lens, i), lens[i]);
    assert PermAt(t.perm, lens, i);
    CodeSplit(lens, i);
  }

  /** With n bits of symbol i's code read, the decoder goes on to find i. */
  lemma {:induction false} ReadFrom(t: Tables, lens: seq<nat>, maxLen: nat, i: nat, n: nat, rest: seq<bit>)
    requires TablesFor(t, lens, maxLen) && Decodable(lens, maxLen) && i < |lens|
    requires t.minLen <= n <= lens[i]
    ensures ReadCode(t, CodeBits(lens, i)[n..] + rest, n, FromBits(CodeBits(lens, i)[..n])) == Got(i, rest)
    decreases lens[i] - n
  {
    hide CodeBits, End, First, FromBits, Decodable, Smaller, PermAt;
    var code, l := CodeBits(lens, i), lens[i];
    if n == l {
      assert code[..l] == code && code[l..] + rest == rest;
      ReadHere(t, lens, maxLen, i, rest);
    } else {
      PrefixBeyond(lens, maxLen, i, n);
      var bits := code[n..] + rest;
      assert bits[1..] == code[n + 1..] + rest && bits[0] == code[n];
      FromBitsSnoc(code, n);
      ReadFrom(t, lens, maxLen, i, n + 1, rest);
    }
  }

  lemma CodeSplit(lens: seq<nat>, i: nat)
    requires i < |lens|
    ensures Code(lens, i) == First(lens, lens[i]) + Rank(lens, i)
  {
  }

  lemma FromBitsSnoc(s: seq<bit>, n: nat)
    requires n < |s|
    ensures FromBits(s[..n + 1]) == 2 * FromBits(s[..n]) + s[n]
  {
    assert s[..n + 1][..n] == s[..n];
  }

  /** Reading a code followed by any bits yields its symbol and exactly those
      bits. */
  lemma ReadWritten(t: Tables, lens: seq<nat>, maxLen: nat, i: nat, rest: seq<bit>)
    requires TablesFor(t, lens, maxLen) && Decodable(lens, maxLen) && i < |lens|
    ensures ReadSymbol(t, CodeBits(lens, i) + rest) == Got(i, rest)
  {
    hide Code, End, First, Rank, ToBits, FromBits, Decodable, Smaller, Count, ReadCode;
    var code := CodeBits(lens, i);
    var bits := code + rest;
    assert bits[..t.minLen] == code[..t.minLen] && bits[t.minLen..] == code[t.minLen..] + rest;
    ReadFrom(t, lens, maxLen, i, t.minLen, rest);
  }

  // ---------- Complete codes read everything ----------

  lemma {:induction false} FirstIsZero(lens: seq<nat>, n: nat)
    requires forall i :: 0 <= i < |lens| ==> n <= lens[i]
    ensures First(lens, n) == 0
  {
    if n > 0 {
      FirstIsZero(lens, n - 1);
    }
  }

  /** Where a value among the n-bit codes is found, it is some symbol's code. */
  lemma LookupIsCode(t: Tables, lens: seq<nat>, maxLen: nat, zn: nat, zvec: nat) returns (i: nat)
    requires TablesFor(t, lens, maxLen) && t.minLen <= zn <= maxLen
    requires First(lens, zn) <= zvec < End(lens, zn)
    ensures i < |lens| && lens[i] == zn && Code(lens, i) == zvec
    ensures 0 <= zvec - t.base[zn] < MAX_ALPHA_SIZE && t.perm[zvec - t.base[zn]] == i
  {
    EndSplit(lens, zn);
    hide End, First, Rank, Smaller;
    i := RankSurjective(lens, zn, zvec - First(lens, zn));
    assert PermAt(t.perm, lens, i);
    CodeSplit(lens, i);
  }

  lemma EndSplit(lens: seq<nat>, n: nat)
    ensures End(lens, n) == First(lens, n) + Count(lens, n)
    ensures First(lens, n + 1) == 2 * End(lens, n)
  {
  }

  /** A code whose Kraft sum is exactly one. */
  ghost predicate Complete(lens: seq<nat>, m: nat) {
    && (forall i :: 0 <= i < |lens| ==> 1 <= lens[i] <= m)
    && End(lens, m) == Pow2(m)
  }

  lemma {:induction false} CompleteFrom(t: Tables, lens: seq<nat>, maxLen: nat, bits: seq<bit>, n: nat) returns (i: nat)
    requires TablesFor(t, lens, maxLen) && Complete(lens, maxLen)
    requires t.minLen <= n <= maxLen <= |bits| && First(lens, n) <= FromBits(bits[..n])
    ensures i < |lens| && lens[i] <= maxLen && bits[..lens[i]] == CodeBits(lens, i)
    ensures ReadCode(t, bits[n..], n, FromBits(bits[..n])) == Got(i, bits[lens[i]..])
    decreases maxLen - n
  {
    hide End, First, Rank, Smaller, Code, Pow2, FromBits, ToBits, PermAt;
    var zvec := FromBits(bits[..n]);
    EndSplit(lens, n);
    if zvec < End(lens, n) {
      i := LookupIsCode(t, lens, maxLen, n, zvec);
      ToFromBits(bits[..n]);
    } else {
      FromBitsBound(bits[..n]);
      assert n < maxLen;
      FromBitsSnoc(bits, n);
      assert bits[n..][1..] == bits[n + 1..];
      i := CompleteFrom(t, lens, maxLen, bits, n + 1);
    }
  }

  /** With a complete code the decoder never fails on enough bits, and what it
      returns is the symbol whose code the bits begin with. */
  lemma CompleteReads(t: Tables, lens: seq<nat>, maxLen: nat, bits: seq<bit>) returns (i: nat)
    requires TablesFor(t, lens, maxLen) && Complete(lens, maxLen) && maxLen <= |bits|
    ensures i < |lens| && lens[i] <= maxLen && bits[..lens[i]] == CodeBits(lens, i)
    ensures ReadSymbol(t, bits) == Got(i, bits[lens[i]..])
  {
    FirstIsZero(lens, t.minLen);
    i := CompleteFrom(t, lens, maxLen, bits, t.minLen);
  }

  // ---------- Tables for any lengths ----------

  /** Adding a longest length that no symbol has doubles the codes. */
  lemma {:induction false} EndBeyond(lens: seq<nat>, m: nat, d: nat)
    requires forall i :: 0 <= i < |lens| ==> lens[i] <= m
    ensures End(lens, m + d) == End(lens, m) * Pow2(d)
  {
    if d > 0 {
      EndBeyond(lens, m, d - 1);
      EndSplit(lens, m + d - 1);
      EndSplit(lens, m + d);
      assert Count(lens, m + d) == 0;
      hide End, Pow2;
      MulPow2(End(lens, m), d);
    }
  }

  /** A complete code is complete already at its longest length. */
  lemma CompleteAt(lens: seq<nat>, m: nat, n: nat)
    requires Complete(lens, n) && m <= n && forall i :: 0 <= i < |lens| ==> lens[i] <= m
    ensures Complete(lens, m) && Decodable(lens, m)
  {
    hide End;
    EndBeyond(lens, m, n - m);
    Pow2Add(m, n - m);
    var p := Pow2(n - m);
    if End(lens, m) < Pow2(m) { MulStrict(End(lens, m), Pow2(m), p); }
    if Pow2(m) < End(lens, m) { MulStrict(Pow2(m), End(lens, m), p); }
  }

  function MaxOf(lens: seq<nat>): (m: nat)
    requires lens != []
    ensures m in lens && forall i :: 0 <= i < |lens| ==> lens[i] <= m
  {
    if |lens| == 1 then lens[0]
    else
      var m := MaxOf(lens[..|lens| - 1]);
      if lens[|lens| - 1] > m then lens[|lens| - 1] else m
  }

  function MinOf(lens: seq<nat>): (m: nat)
    requires lens != []
    ensures m in lens && forall i :: 0 <= i < |lens| ==> m <= lens[i]
  {
    if |lens| == 1 then lens[0]
    else
      var m := MinOf(lens[..|lens| - 1]);
      if lens[|lens| - 1] < m then lens[|lens| - 1] else m
  }

  /** The scan for the shortest and longest code before tables are made. */
  method LengthRange(length: array<nat>) returns (minLen: nat, maxLen: nat)
    requires length.Length > 0 && forall i :: 0 <= i < length.Length ==> length[i] <= 32
    ensures minLen == MinOf(length[..]) && maxLen == MaxOf(length[..])
  {
    hide MinOf, MaxOf;
    minLen, maxLen := 32, 0;
    for i := 0 to length.Length
      invariant forall k :: 0 <= k < i ==> minLen <= length[k] <= maxLen
      invariant (minLen == 32 || minLen in length[..i]) && (maxLen == 0 || maxLen in length[..i])
    {
      if length[i] > maxLen { maxLen := length[i]; }
      if length[i] < minLen { minLen := length[i]; }
    }
    assert length[..length.Length] == length[..] && length[0] == length[..][0];
  }

  /** Lengths a block can announce. */
  ghost predicate Announced(lens: seq<nat>) {
    0 < |lens| <= MAX_ALPHA_SIZE && forall i :: 0 <= i < |lens| ==> 1 <= lens[i] <= LONGEST_CODE
  }

  /** The tables the decoder sets up for announced lengths. Entries of perm past
      the alphabet are whatever an earlier block left there. */
  ghost predicate SetUpFor(t: Tables, lens: seq<nat>)
    requires lens != []
  {
    && TablesFor(t, lens, MaxOf(lens)) && t.minLen == MinOf(lens)
    && forall n :: MaxOf(lens) < n < MAX_CODE_LEN ==> t.limit[n] == 0
  }

  ghost function SymbolAt(lens: seq<nat>, k: nat): (i: nat)
    ensures (exists j: nat :: j < |lens| && Pos(lens, j) == k) ==> i < |lens| && Pos(lens, i) == k
  {
    if j: nat :| j < |lens| && Pos(lens, j) == k then j else 0
  }

  /** Tables for given lengths. */
  ghost function TablesOf(lens: seq<nat>): (t: Tables)
    requires Announced(lens)
    ensures SetUpFor(t, lens)
  {
    hide Smaller, End, First, Rank;
    var t := Tables(
      MinOf(lens),
      seq(MAX_CODE_LEN, n requires 0 <= n < MAX_CODE_LEN => if MinOf(lens) <= n <= MaxOf(lens) then End(lens, n) - 1 else 0),
      seq(MAX_CODE_LEN, n requires 0 <= n < MAX_CODE_LEN => First(lens, n) - Smaller(lens, n)),
      seq(MAX_ALPHA_SIZE, k requires 0 <= k < MAX_ALPHA_SIZE => SymbolAt(lens, k)));
    assert forall i :: 0 <= i < |lens| ==> PermAt(t.perm, lens, i) by {
      forall i | 0 <= i < |lens| ensures PermAt(t.perm, lens, i) {
        PosRoom(lens, i);
        PosInjective(lens, i, SymbolAt(lens, Pos(lens, i)));
      }
    }
    t
  }

  /** A decoder that has read zn bits of a code without finding it. */
  ghost predicate Searching(lens: seq<nat>, zn: nat, zvec: nat)
    requires lens != []
  {
    MinOf(lens) <= zn && if zn <= MaxOf(lens) then First(lens, zn) <= zvec else 1 <= zvec
  }

  lemma SearchOn(lens: seq<nat>, zn: nat, zvec: nat, b: bit)
    requires lens != [] && Searching(lens, zn, zvec) && (zn <= MaxOf(lens) ==> zvec >= End(lens, zn))
    ensures Searching(lens, zn + 1, 2 * zvec + b)
  {
    EndSplit(lens, zn);
    if zn == MaxOf(lens) {
      var i :| 0 <= i < |lens| && lens[i] == zn;
      CodeBounds(lens, i);
    }
  }

  /** r is some symbol whose code the bits begin with, and what follows it. */
  ghost predicate IsCodeRead(lens: seq<nat>, bits: seq<bit>, r: Read<nat>) {
    r.Got? ==>
      && r.value < |lens| && lens[r.value] <= |bits|
      && bits[..lens[r.value]] == CodeBits(lens, r.value) && bits[lens[r.value]..] == r.rest
  }

  lemma {:induction false} ReadCodeSound(t: Tables, u: Tables, lens: seq<nat>, bits: seq<bit>, zn: nat)
    requires lens != [] && SetUpFor(t, lens) && SetUpFor(u, lens)
    requires zn <= |bits| && Searching(lens, zn, FromBits(bits[..zn]))
    ensures var r := ReadCode(t, bits[zn..], zn, FromBits(bits[..zn]));
            r == ReadCode(u, bits[zn..], zn, FromBits(bits[..zn])) && IsCodeRead(lens, bits, r)
    decreases |bits| - zn
  {
    hide End, First, Rank, Smaller, Code, PermAt, TablesFor, FromBits, ToBits;
    if zn <= LONGEST_CODE {
      var zvec := FromBits(bits[..zn]);
      LimitOf(t, lens, zn);
      LimitOf(u, lens, zn);
      if zvec <= t.limit[zn] {
        var i := LookupIsCode(t, lens, MaxOf(lens), zn, zvec);
        var j := LookupIsCode(u, lens, MaxOf(lens), zn, zvec);
        SameCode(lens, i, j);
        ToFromBits(bits[..zn]);
      } else if zn < |bits| {
        SearchOn(lens, zn, zvec, bits[zn]);
        FromBitsSnoc(bits, zn);
        assert bits[zn..][1..] == bits[zn + 1..];
        ReadCodeSound(t, u, lens, bits, zn + 1);
      }
    }
  }

  lemma LimitOf(t: Tables, lens: seq<nat>, zn: nat)
    requires lens != [] && SetUpFor(t, lens) && MinOf(lens) <= zn <= LONGEST_CODE
    ensures Shaped(t) && t.limit[zn] == if zn <= MaxOf(lens) then End(lens, zn) - 1 else 0
  {
  }

  /** Whatever the lengths, also over- and under-subscribed ones, the decoder
      returns a symbol only where the bits begin with its code, and its answer
      depends on the lengths alone: it never looks at a stale perm entry. */
  lemma ReadSymbolSound(t: Tables, u: Tables, lens: seq<nat>, bits: seq<bit>)
    requires lens != [] && SetUpFor(t, lens) && SetUpFor(u, lens)
    ensures ReadSymbol(t, bits) == ReadSymbol(u, bits)
    ensures IsCodeRead(lens, bits, ReadSymbol(t, bits))
  {
    hide End, ReadCode;
    FirstIsZero(lens, MinOf(lens));
    if |bits| >= t.minLen { ReadCodeSound(t, u, lens, bits, t.minLen); }
  }

  // ---------- More input ----------

  lemma {:induction false} CodeSurvives(t: Tables, bits: seq<bit>, zn: nat, zvec: nat, more: seq<bit>)
    requires Shaped(t)
    ensures Survives(ReadCode(t, bits, zn, zvec), ReadCode(t, bits + more, zn, zvec), more)
    decreases |bits|
  {
    if bits != [] && zn <= LONGEST_CODE && zvec > t.limit[zn] {
      assert (bits + more)[1..] == bits[1..] + more && (bits + more)[0] == bits[0];
      CodeSurvives(t, bits[1..], zn + 1, 2 * zvec + bits[0], more);
    }
  }

  lemma SymbolSurvives(t: Tables, bits: seq<bit>, more: seq<bit>)
    requires Shaped(t)
    ensures Survives(ReadSymbol(t, bits), ReadSymbol(t, bits + more), more)
  {
    hide ReadCode;
    var n := t.minLen;
    if |bits| >= n {
      assert (bits + more)[..n] == bits[..n] && (bits + more)[n..] == bits[n..] + more;
      CodeSurvives(t, bits[n..], n, FromBits(bits[..n]), more);
    }
  }

  // ---------- BZ2_hbAssignCodes ----------

  /** Symbols already given codes: shorter ones, and those of length n before j. */
  predicate Assigned(lens: seq<nat>, n: nat, j: nat, i: nat)
    requires i < |lens|
  {
    lens[i] < n || (lens[i] == n && i < j)
  }

  lemma CountNext(lens: seq<nat>, j: nat, n: nat)
    requires j < |lens|
    ensures multiset(lens[..j + 1])[n] == multiset(lens[..j])[n] + if lens[j] == n then 1 else 0
  {
    assert lens[..j + 1] == lens[..j] + [lens[j]];
  }

  method AssignCodes(code: array<nat>, length: array<nat>, minLen: nat, maxLen: nat, alphaSize: nat)
    requires code != length && alphaSize == length.Length == code.Length && minLen <= maxLen
    requires forall i :: 0 <= i < alphaSize ==> minLen <= length[i] <= maxLen
    modifies code
    ensures forall i :: 0 <= i < alphaSize ==> code[i] == Code(length[..], i)
  {
    hide End, First, Rank, Count;
    ghost var lens := length[..];
    FirstIsZero(lens, minLen);
    var vec := 0;
    for n := minLen to maxLen + 1
      invariant length[..] == lens
      invariant vec == First(lens, n)
      invariant forall i :: 0 <= i < alphaSize && Assigned(lens, n, 0, i) ==> code[i] == Code(lens, i)
    {
      for i := 0 to alphaSize
        invariant length[..] == lens
        invariant vec == First(lens, n) + multiset(lens[..i])[n]
        invariant forall k :: 0 <= k < alphaSize && Assigned(lens, n, i, k) ==> code[k] == Code(lens, k)
      {
        CountNext(lens, i, n);
        if length[i] == n {
          CodeIs(lens, i);
          code[i] := vec;
          vec := vec + 1;
        }
      }
      FullCount(lens, n);
      EndSplit(lens, n);
      vec := 2 * vec;
    }
  }

  lemma CodeIs(lens: seq<nat>, i: nat)
    requires i < |lens|
    ensures Code(lens, i) == First(lens, lens[i]) + multiset(lens[..i])[lens[i]]
  {
  }

  lemma FullCount(lens: seq<nat>, n: nat)
    ensures multiset(lens[..|lens|])[n] == Count(lens, n)
  {
    assert lens[..|lens|] == lens;
  }

  // ---------- BZ2_hbCreateDecodeTables ----------

  lemma {:induction false} SmallerIsZero(lens: seq<nat>, n: nat)
    requires forall i :: 0 <= i < |lens| ==> n <= lens[i]
    ensures Smaller(lens, n) == 0
  {
    if n > 0 {
      SmallerIsZero(lens, n - 1);
    }
  }

  /** The symbols in canonical order. */
  method FillPerm(length: array<nat>, minLen: nat, maxLen: nat, alphaSize: nat) returns (perm: array<nat>)
    requires alphaSize == length.Length <= MAX_ALPHA_SIZE && minLen <= maxLen
    requires forall i :: 0 <= i < alphaSize ==> minLen <= length[i] <= maxLen
    ensures fresh(perm) && perm.Length == MAX_ALPHA_SIZE
    ensures forall i :: 0 <= i < alphaSize ==> PermAt(perm[..], length[..], i)
  {
    hide Smaller, Pos, Count;
    ghost var lens := length[..];
    perm := new nat[MAX_ALPHA_SIZE];
    var pp := 0;
    SmallerIsZero(lens, minLen);
    for n: nat := minLen to maxLen + 1
      invariant pp == Smaller(lens, n) && Filled(perm[..], lens, n, 0, pp)
    {
      pp := FillLength(perm, length, n, pp);
      FilledNext(perm[..], lens, n, pp);
    }
    forall i | 0 <= i < alphaSize ensures PermAt(perm[..], lens, i) {
      assert Assigned(lens, maxLen + 1, 0, i);
    }
  }

  /** Every symbol assigned so far has its place below pp. */
  ghost predicate Filled(perm: seq<nat>, lens: seq<nat>, n: nat, j: nat, pp: nat) {
    forall i :: 0 <= i < |lens| && Assigned(lens, n, j, i) ==> Pos(lens, i) < pp && PermAt(perm, lens, i)
  }

  lemma FilledNext(perm: seq<nat>, lens: seq<nat>, n: nat, pp: nat)
    requires Filled(perm, lens, n, |lens|, pp)
    ensures Filled(perm, lens, n + 1, 0, pp)
  {
    hide Pos, PermAt;
    forall i | 0 <= i < |lens| && Assigned(lens, n + 1, 0, i) ensures Pos(lens, i) < pp && PermAt(perm, lens, i) {
      assert Assigned(lens, n, |lens|, i);
    }
  }

  lemma FilledMore(perm: seq<nat>, lens: seq<nat>, n: nat, j: nat, pp: nat)
    requires Filled(perm, lens, n, j, pp) && j < |lens| && pp < |perm|
    requires lens[j] == n && Pos(lens, j) == pp
    ensures Filled(perm[pp := j], lens, n, j + 1, pp + 1)
  {
    hide Pos;
    forall i | 0 <= i < |lens| && Assigned(lens, n, j + 1, i)
      ensures Pos(lens, i) < pp + 1 && PermAt(perm[pp := j], lens, i)
    {
      if i != j { assert Assigned(lens, n, j, i); }
    }
  }

  lemma FilledSkip(perm: seq<nat>, lens: seq<nat>, n: nat, j: nat, pp: nat)
    requires Filled(perm, lens, n, j, pp) && j < |lens| && lens[j] != n
    ensures Filled(perm, lens, n, j + 1, pp)
  {
    hide Pos, PermAt;
    forall i | 0 <= i < |lens| && Assigned(lens, n, j + 1, i) ensures Pos(lens, i) < pp && PermAt(perm, lens, i) {
      assert Assigned(lens, n, j, i);
    }
  }

  method FillLength(perm: array<nat>, length: array<nat>, n: nat, start: nat) returns (pp: nat)
    requires perm != length && length.Length <= perm.Length
    requires start == Smaller(length[..], n) && Filled(perm[..], length[..], n, 0, start)
    modifies perm
    ensures pp == Smaller(length[..], n + 1) && Filled(perm[..], length[..], n, length.Length, pp)
  {
    hide Pos, PermAt, Smaller, Count, Filled, Assigned;
    ghost var lens := length[..];
    pp := start;
    for j: nat := 0 to length.Length
      invariant length[..] == lens && pp == Smaller(lens, n) + multiset(lens[..j])[n]
      invariant Filled(perm[..], lens, n, j, pp)
    {
      ghost var before := perm[..];
      CountNext(lens, j, n);
      if length[j] == n {
        PosRoom(lens, j);
        FilledMore(before, lens, n, j, pp);
        perm[pp] := j;
        assert perm[..] == before[pp := j];
        pp := pp + 1;
      } else {
        FilledSkip(before, lens, n, j, pp);
      }
    }
    FullCount(lens, n);
    SmallerNext(lens, n);
  }

  method CreateDecodeTables(length: array<nat>, minLen: nat, maxLen: nat, alphaSize: nat) returns (t: Tables)
    requires alphaSize == length.Length <= MAX_ALPHA_SIZE && 1 <= minLen <= maxLen <= LONGEST_CODE
    requires forall i :: 0 <= i < alphaSize ==> minLen <= length[i] <= maxLen
    ensures TablesFor(t, length[..], maxLen) && t.minLen == minLen
    ensures forall n :: maxLen < n < MAX_CODE_LEN ==> t.limit[n] == 0
  {
    hide Smaller, Count, End, First, PermAt;
    var perm := FillPerm(length, minLen, maxLen, alphaSize);
    ghost var order := perm[..];
    var base := CountLengths(length, alphaSize);
    var limit := FillLimits(base, minLen, maxLen, length[..]);
    ShiftBases(base, limit, minLen, maxLen, length[..]);
    assert perm[..] == order;
    t := Tables(minLen, limit[..], base[..], perm[..]);
  }

  /** limit[n] becomes the last code of length n. */
  method FillLimits(base: array<int>, minLen: nat, maxLen: nat, ghost lens: seq<nat>) returns (limit: array<int>)
    requires base.Length == MAX_CODE_LEN && 1 <= minLen <= maxLen <= LONGEST_CODE
    requires forall i :: 0 <= i < |lens| ==> minLen <= lens[i] <= maxLen
    requires forall n :: 0 <= n < MAX_CODE_LEN ==> base[n] == Smaller(lens, n)
    ensures fresh(limit) && limit.Length == MAX_CODE_LEN
    ensures forall n :: minLen <= n <= maxLen ==> limit[n] == End(lens, n) - 1
    ensures forall n :: maxLen < n < MAX_CODE_LEN ==> limit[n] == 0
  {
    hide Smaller, Count, End, First;
    limit := new int[MAX_CODE_LEN](_ => 0);
    var vec := 0;
    FirstIsZero(lens, minLen);
    for i := minLen to maxLen + 1
      invariant vec == First(lens, i)
      invariant forall n :: minLen <= n < i ==> limit[n] == End(lens, n) - 1
      invariant forall n :: maxLen < n < MAX_CODE_LEN ==> limit[n] == 0
    {
      SmallerNext(lens, i);
      EndSplit(lens, i);
      vec := vec + (base[i + 1] - base[i]);
      limit[i] := vec - 1;
      vec := 2 * vec;
    }
  }

  /** base[n] becomes the offset from codes of length n to positions in perm. */
  method ShiftBases(base: array<int>, limit: array<int>, minLen: nat, maxLen: nat, ghost lens: seq<nat>)
    requires base != limit && base.Length == limit.Length == MAX_CODE_LEN && 1 <= minLen <= maxLen <= LONGEST_CODE
    requires forall i :: 0 <= i < |lens| ==> minLen <= lens[i] <= maxLen
    requires forall n :: 0 <= n < MAX_CODE_LEN ==> base[n] == Smaller(lens, n)
    requires forall n :: minLen <= n <= maxLen ==> limit[n] == End(lens, n) - 1
    modifies base
    ensures forall n :: minLen <= n <= maxLen ==> base[n] == First(lens, n) - Smaller(lens, n)
  {
    hide Smaller, Count, End, First;
    FirstIsZero(lens, minLen);
    SmallerIsZero(lens, minLen);
    for i := minLen + 1 to maxLen + 1
      invariant forall n :: minLen <= n < i ==> base[n] == First(lens, n) - Smaller(lens, n)
      invariant forall n :: i <= n < MAX_CODE_LEN ==> base[n] == Smaller(lens, n)
    {
      EndSplit(lens, i - 1);
      base[i] := 2 * (limit[i - 1] + 1) - base[i];
    }
  }

  /** base[n] becomes the number of symbols shorter than n. */
  method CountLengths(length: array<nat>, alphaSize: nat) returns (base: array<int>)
    requires alphaSize == length.Length && forall i :: 0 <= i < alphaSize ==> length[i] <= LONGEST_CODE
    ensures fresh(base) && base.Length == MAX_CODE_LEN
    ensures forall n :: 0 <= n < MAX_CODE_LEN ==> base[n] == Smaller(length[..], n)
  {
    hide Smaller;
    ghost var lens := length[..];
    base := new int[MAX_CODE_LEN](_ => 0);
    for i := 0 to alphaSize
      invariant base[0] == 0
      invariant forall n :: 1 <= n < MAX_CODE_LEN ==> base[n] == multiset(lens[..i])[n - 1]
    {
      forall n | 0 <= n < MAX_CODE_LEN - 1
        ensures multiset(lens[..i + 1])[n] == multiset(lens[..i])[n] + if lens[i] == n then 1 else 0
      {
        CountNext(lens, i, n);
      }
      base[length[i] + 1] := base[length[i] + 1] + 1;
    }
    assert lens[..alphaSize] == lens;
    NoneShorter(lens);
    for i := 1 to MAX_CODE_LEN
      invariant forall n :: 0 <= n < i ==> base[n] == Smaller(lens, n)
      invariant forall n :: i <= n < MAX_CODE_LEN ==> base[n] == Count(lens, n - 1)
    {
      SmallerNext(lens, i - 1);
      base[i] := base[i] + base[i - 1];
    }
  }

  lemma NoneShorter(lens: seq<nat>)
    ensures Smaller(lens, 0) == 0
  {
  }
}
