/**
 The first half of mainSort in blocksort.c: the radix sort on two bytes, which
 leaves in ftab where every small bucket starts.
 */
module MainRadix {
  import opened Permutation
  import opened Rotation
  import opened Counting
  import opened MainCompare

  const PAIRS := 65536

  /** Bit 21 of an entry of ftab: the small bucket is in order. */
  const SETMASK := 0x20_0000

  function Succ(i: nat, n: nat): (r: nat)
    requires i < n
    ensures r < n
  {
    if i + 1 == n then 0 else i + 1
  }

  /** The small bucket of position i: its byte and the next. */
  function Key(b: seq<byte>, i: nat): (s: nat)
    requires i < |b|
    ensures s < PAIRS
  {
    256 * (b[i] as nat) + b[Succ(i, |b|)]
  }

  ghost function Keys(b: seq<byte>): (r: seq<nat>)
    ensures |r| == |b| && forall i :: 0 <= i < |b| ==> r[i] == Key(b, i)
  {
    seq(|b|, i requires 0 <= i < |b| => Key(b, i))
  }

  /** Where small bucket s starts; it ends where the next one starts. */
  ghost function BucketStart(b: seq<byte>, s: nat): nat { Smaller(Keys(b), s) }

  /** ptr lists all positions by small buckets. */
  ghost predicate Bucketed(b: seq<byte>, ptr: seq<nat>) {
    && |ptr| == |b| && IsPermutation(ptr)
    && forall k {:trigger ptr[k]} :: 0 <= k < |ptr| ==> InBucket(b, ptr[k], k)
  }

  ghost predicate InBucket(b: seq<byte>, x: nat, k: nat) {
    x < |b| && BucketStart(b, Key(b, x)) <= k < BucketStart(b, Key(b, x) + 1)
  }

  /** The entries of ftab, marked or not, are the starting positions. */
  ghost predicate Starts(b: seq<byte>, ftab: seq<nat>) {
    |ftab| == PAIRS + 1 && forall s :: 0 <= s <= PAIRS ==> ftab[s] % SETMASK == BucketStart(b, s)
  }

  lemma BucketsFollow(b: seq<byte>, s: nat, t: nat)
    requires s <= t
    ensures BucketStart(b, s) <= BucketStart(b, t) <= |b|
  {
    SmallerGrows(Keys(b), s, t);
    SmallerBound(Keys(b), t);
  }

  /** What stands in a bucket belongs to it. */
  lemma BucketKey(b: seq<byte>, ptr: seq<nat>, s: nat, k: nat)
    requires Bucketed(b, ptr) && BucketStart(b, s) <= k < BucketStart(b, s + 1)
    ensures k < |ptr| && ptr[k] < |b| && Key(b, ptr[k]) == s
  {
    hide BucketStart, Key;
    BucketsFollow(b, s + 1, s + 1);
    assert InBucket(b, ptr[k], k);
    var t := Key(b, ptr[k]);
    if t < s { BucketsFollow(b, t + 1, s); }
    if s < t { BucketsFollow(b, s + 1, t); }
  }

  // ---------- Counting ----------

  /** How many positions from the i-th on have key s. */
  ghost function CountFrom(keys: seq<nat>, i: nat, s: nat): nat
    requires i <= |keys|
  {
    multiset(keys[i..])[s]
  }

  lemma CountStep(keys: seq<nat>, i: nat, s: nat)
    requires i < |keys|
    ensures CountFrom(keys, i, s) == CountFrom(keys, i + 1, s) + if keys[i] == s then 1 else 0
  {
    assert keys[i..] == [keys[i]] + keys[i + 1..];
  }

  /** j holds the bytes at i and i + 1, the older one below. */
  lemma PairIsKey(b: seq<byte>, i: nat, j: nat)
    requires i < |b| && j / 256 == b[Succ(i, |b|)]
    ensures j / 256 + (b[i] as nat) * 256 == Key(b, i)
    ensures (j / 256 + (b[i] as nat) * 256) / 256 == b[i]
  {
  }

  /** The two-byte frequency table; the quadrants are cleared. */
  method CountPairs(block: array<byte>, quadrant: array<nat>, ftab: array<nat>, nblock: nat)
    requires 0 < nblock <= block.Length && nblock <= quadrant.Length && ftab.Length == PAIRS + 1 && ftab != quadrant
    modifies quadrant, ftab
    ensures forall s :: 0 <= s <= PAIRS ==> ftab[s] == Count(Keys(block[..nblock]), s)
    ensures forall i :: 0 <= i < nblock ==> quadrant[i] == 0
  {
    hide Key, Keys, CountFrom;
    ghost var b := block[..nblock];
    ghost var keys := Keys(b);
    ClearTable(ftab);
    var j: nat := (block[0] as nat) * 256;
    var i: nat := nblock;
    NoneFrom(keys);
    while i > 0
      invariant i <= nblock && (i > 0 ==> j / 256 == b[if i == nblock then 0 else i])
      invariant forall s :: 0 <= s <= PAIRS ==> ftab[s] == CountFrom(keys, i, s)
      invariant forall k :: i <= k < nblock ==> quadrant[k] == 0
    {
      i := i - 1;
      quadrant[i] := 0;
      PairIsKey(b, i, j);
      j := j / 256 + (block[i] as nat) * 256;
      forall s | 0 <= s <= PAIRS ensures CountFrom(keys, i, s) == CountFrom(keys, i + 1, s) + if j == s then 1 else 0 {
        CountStep(keys, i, s);
      }
      ftab[j] := ftab[j] + 1;
    }
    AllFrom(keys);
  }

  lemma NoneFrom(keys: seq<nat>)
    ensures forall s :: CountFrom(keys, |keys|, s) == 0
  {
  }

  lemma AllFrom(keys: seq<nat>)
    ensures forall s :: CountFrom(keys, 0, s) == Count(keys, s)
  {
    assert keys[0..] == keys;
  }

  method ClearTable(ftab: array<nat>)
    modifies ftab
    ensures forall s :: 0 <= s < ftab.Length ==> ftab[s] == 0
  {
    var i := ftab.Length;
    while i > 0
      invariant 0 <= i <= ftab.Length && forall s :: i <= s < ftab.Length ==> ftab[s] == 0
    {
      i := i - 1;
      ftab[i] := 0;
    }
  }

  /** The sums: one past the end of every small bucket. */
  method Cumulate(ftab: array<nat>, ghost keys: seq<nat>)
    requires ftab.Length == PAIRS + 1 && forall s :: 0 <= s <= PAIRS ==> ftab[s] == Count(keys, s)
    modifies ftab
    ensures forall s :: 0 <= s <= PAIRS ==> ftab[s] == Smaller(keys, s + 1)
  {
    hide Count, Smaller;
    SmallerNext(keys, 0);
    NoneBelow(keys);
    for i := 1 to PAIRS + 1
      invariant forall s :: 0 <= s < i ==> ftab[s] == Smaller(keys, s + 1)
      invariant forall s :: i <= s <= PAIRS ==> ftab[s] == Count(keys, s)
    {
      SmallerNext(keys, i);
      ftab[i] := ftab[i] + ftab[i - 1];
    }
  }

  lemma NoneBelow(keys: seq<nat>)
    ensures Smaller(keys, 0) == 0
  {
  }

  // ---------- Placing ----------

  /** Positions from the i-th on stand where they belong. */
  ghost predicate PlacedFrom(keys: seq<nat>, ptr: seq<nat>, i: nat)
    requires i <= |keys| == |ptr|
  {
    forall x {:trigger Pos(keys, x)} :: i <= x < |keys| ==> Pos(keys, x) < |ptr| && ptr[Pos(keys, x)] == x
  }

  /** Where the positions before the i-th go. */
  ghost predicate RoomBefore(keys: seq<nat>, ftab: seq<nat>, i: nat)
    requires i <= |keys|
  {
    |ftab| == PAIRS + 1 && forall s :: 0 <= s <= PAIRS ==> ftab[s] == Smaller(keys, s) + multiset(keys[..i])[s]
  }

  lemma PlaceNext(keys: seq<nat>, ptr: seq<nat>, ftab: seq<nat>, i: nat)
    requires i < |keys| == |ptr| && keys[i] < PAIRS && PlacedFrom(keys, ptr, i + 1) && RoomBefore(keys, ftab, i + 1)
    ensures ftab[keys[i]] == Pos(keys, i) + 1 <= |ptr|
    ensures PlacedFrom(keys, ptr[Pos(keys, i) := i], i)
    ensures RoomBefore(keys, ftab[keys[i] := ftab[keys[i]] - 1], i)
  {
    hide Smaller, Rank;
    assert keys[..i + 1] == keys[..i] + [keys[i]];
    PosRoom(keys, i);
    forall x | i < x < |keys| ensures Pos(keys, x) != Pos(keys, i) {
      if Pos(keys, x) == Pos(keys, i) { PosInjective(keys, x, i); }
    }
  }

  lemma RoomAtEnd(keys: seq<nat>, ftab: seq<nat>)
    requires |ftab| == PAIRS + 1 && forall s :: 0 <= s <= PAIRS ==> ftab[s] == Smaller(keys, s + 1)
    ensures RoomBefore(keys, ftab, |keys|)
  {
    hide Smaller;
    assert keys[..|keys|] == keys;
    forall s | 0 <= s <= PAIRS ensures ftab[s] == Smaller(keys, s) + multiset(keys)[s] { SmallerNext(keys, s); }
  }

  /** When all are placed, the buckets are complete. */
  lemma AllPlaced(b: seq<byte>, ptr: seq<nat>, ftab: seq<nat>)
    requires |ptr| == |b| < SETMASK && PlacedFrom(Keys(b), ptr, 0) && RoomBefore(Keys(b), ftab, 0)
    ensures Bucketed(b, ptr) && Starts(b, ftab) && forall s :: 0 <= s <= PAIRS ==> ftab[s] < SETMASK
  {
    hide Smaller, Rank, Key;
    var keys, n := Keys(b), |b|;
    var p := seq(n, i requires 0 <= i < n => Pos(keys, i));
    forall i | 0 <= i < n ensures p[i] < n { PosRoom(keys, i); }
    forall i, j | 0 <= i < j < n ensures p[i] != p[j] {
      assert ptr[p[i]] == i && ptr[p[j]] == j;
    }
    forall k | 0 <= k < n ensures ptr[k] < n && Pos(keys, ptr[k]) == k {
      Surjective(p, k);
      var x :| 0 <= x < n && p[x] == k;
      assert ptr[Pos(keys, x)] == x;
    }
    forall k | 0 <= k < n ensures InBucket(b, ptr[k], k) {
      Counting.RankBound(keys, ptr[k]);
      SmallerNext(keys, keys[ptr[k]]);
    }
    assert keys[..0] == [];
    forall s | 0 <= s <= PAIRS ensures ftab[s] == BucketStart(b, s) < SETMASK { SmallerBound(keys, s); }
  }

  /** The placing pass. */
  method PlacePairs(ptr: array<nat>, block: array<byte>, ftab: array<nat>, nblock: nat)
    requires 0 < nblock <= block.Length && nblock == ptr.Length && ptr != ftab && ftab.Length == PAIRS + 1
    requires RoomBefore(Keys(block[..nblock]), ftab[..], nblock)
    modifies ptr, ftab
    ensures PlacedFrom(Keys(block[..nblock]), ptr[..], 0) && RoomBefore(Keys(block[..nblock]), ftab[..], 0)
    ensures ftab.Length == PAIRS + 1
  {
    hide Key, Keys, PlacedFrom, RoomBefore, Pos;
    ghost var b := block[..nblock];
    ghost var keys := Keys(b);
    var s: nat := (block[0] as nat) * 256;
    var i: nat := nblock;
    NonePlaced(keys, ptr[..]);
    while i > 0
      invariant i <= nblock && (i > 0 ==> s / 256 == b[if i == nblock then 0 else i])
      invariant PlacedFrom(keys, ptr[..], i) && RoomBefore(keys, ftab[..], i)
    {
      i := i - 1;
      PairIsKey(b, i, s);
      s := s / 256 + (block[i] as nat) * 256;
      ghost var p, t := ptr[..], ftab[..];
      PlaceNext(keys, p, t, i);
      var j: nat := ftab[s] - 1;
      ftab[s] := j;
      ptr[j] := i;
      assert ptr[..] == p[j := i] && ftab[..] == t[s := j];
    }
  }

  lemma NonePlaced(keys: seq<nat>, ptr: seq<nat>)
    requires |keys| == |ptr|
    ensures PlacedFrom(keys, ptr, |keys|)
  {
  }

  /** The initial radix sort: positions by small buckets, ftab their starts, none
      marked, and a valid workspace. */
  method RadixSort(ptr: array<nat>, block: array<byte>, quadrant: array<nat>, ftab: array<nat>, nblock: nat)
    requires N_OVERSHOOT < nblock == ptr.Length < SETMASK && block.Length == quadrant.Length == nblock + N_OVERSHOOT
    requires ftab.Length == PAIRS + 1 && ptr != ftab && ptr != quadrant && ftab != quadrant
    modifies ptr, block, quadrant, ftab
    ensures block[..nblock] == old(block[..nblock]) && Workspace(block[..], quadrant[..], nblock)
    ensures Bucketed(block[..nblock], ptr[..]) && Starts(block[..nblock], ftab[..])
    ensures forall s :: 0 <= s <= PAIRS ==> ftab[s] < SETMASK
  {
    hide Keys, Count, Smaller, PlacedFrom, RoomBefore, Bucketed, Starts;
    ghost var b := block[..nblock];
    CountPairs(block, quadrant, ftab, nblock);
    CopyOvershoot(block, quadrant, nblock);
    Cumulate(ftab, Keys(b));
    RoomAtEnd(Keys(b), ftab[..]);
    PlacePairs(ptr, block, ftab, nblock);
    AllPlaced(b, ptr[..], ftab[..]);
  }

  /** The beginning of block and quadrant is repeated after the end. */
  method CopyOvershoot(block: array<byte>, quadrant: array<nat>, nblock: nat)
    requires N_OVERSHOOT < nblock && block.Length == quadrant.Length == nblock + N_OVERSHOOT
    requires forall i :: 0 <= i < nblock ==> quadrant[i] == 0
    modifies block, quadrant
    ensures block[..nblock] == old(block[..nblock]) && Workspace(block[..], quadrant[..], nblock)
  {
    ghost var b := block[..nblock];
    for i := 0 to N_OVERSHOOT
      invariant block[..nblock] == b
      invariant forall k :: 0 <= k < i ==> block[nblock + k] == block[k]
      invariant forall k :: 0 <= k < nblock + i ==> quadrant[k] == 0
    {
      block[nblock + i] := block[i];
      quadrant[nblock + i] := 0;
    }
    assert block[..][..nblock] == b;
  }
}
