/**
 Move-to-front coding with bijective base-2 zero runs: the code, its inverse as
 the decoder computes it, their round trip, and the maps of the bytes in use.
 */
module Mtf {
  import opened Wrappers
  import opened Bits
  import opened Permutation
  import opened Rotation
  import opened InverseBwt

  const RUNA := 0
  const RUNB := 1

  /** list with its element j moved to the front. */
  function Front<T>(list: seq<T>, j: nat): (r: seq<T>)
    requires j < |list|
    ensures |r| == |list|
  {
    [list[j]] + list[..j] + list[j + 1..]
  }

  function Repeat<T>(x: T, n: nat): (r: seq<T>)
    ensures |r| == n && forall i :: 0 <= i < n ==> r[i] == x
  {
    if n == 0 then [] else [x] + Repeat(x, n - 1)
  }

  /** The list a coder starts from. */
  function Identity(n: nat): (r: seq<nat>)
    ensures |r| == n && forall i :: 0 <= i < n ==> r[i] == i
  {
    seq(n, i => i)
  }

  // ---------- Runs ----------

  /** The run digits (RUNA = 0, RUNB = 1, least significant first) for z. */
  function RunCode(z: nat): seq<nat> {
    if z == 0 then [] else [(z - 1) % 2] + RunCode((z - 1) / 2)
  }

  /** What a decoder makes of run digits. */
  function RunValue(ds: seq<nat>): nat {
    if ds == [] then 0 else ds[0] + 1 + 2 * RunValue(ds[1..])
  }

  ghost predicate RunDigits(ds: seq<nat>) {
    forall i :: 0 <= i < |ds| ==> ds[i] <= RUNB
  }

  lemma {:induction false} RunCodeDecodes(z: nat)
    ensures RunValue(RunCode(z)) == z
    ensures RunDigits(RunCode(z)) && |RunCode(z)| <= z
  {
    if z > 0 {
      var w := (z - 1) / 2;
      RunCodeDecodes(w);
      assert RunCode(z)[1..] == RunCode(w);
    }
  }

  /** The numerals are bijective: every digit string is the code of its value. */
  lemma {:induction false} RunValueEncodes(ds: seq<nat>)
    requires RunDigits(ds)
    ensures RunCode(RunValue(ds)) == ds
  {
    if ds != [] {
      RunValueEncodes(ds[1..]);
      var v := RunValue(ds[1..]);
      assert RunValue(ds) == ds[0] + 1 + 2 * v;
      assert (ds[0] + 2 * v) % 2 == ds[0] && (ds[0] + 2 * v) / 2 == v;
    }
  }

  // ---------- The code and its inverse ----------

  function IndexOf(list: seq<nat>, x: nat): (j: nat)
    requires x in list
    ensures j < |list| && list[j] == x && forall i :: 0 <= i < j ==> list[i] != x
  {
    if list[0] == x then 0 else 1 + IndexOf(list[1..], x)
  }

  /** The values generated for the rest of a column, with z zeros pending. */
  function Encode(list: seq<nat>, z: nat, col: seq<nat>): seq<nat>
    requires list != [] && forall x :: x in col ==> x in list
    decreases |col|
  {
    if col == [] then RunCode(z)
    else if list[0] == col[0] then Encode(list, z + 1, col[1..])
    else
      var j := IndexOf(list, col[0]);
      FrontKeeps(list, j);
      RunCode(z) + [j + 1] + Encode(Front(list, j), 0, col[1..])
  }

  lemma FrontKeeps<T>(list: seq<T>, j: nat)
    requires j < |list|
    ensures multiset(Front(list, j)) == multiset(list)
    ensures forall x :: x in list ==> x in Front(list, j)
  {
    assert list == list[..j] + [list[j]] + list[j + 1..];
    forall x | x in list ensures x in Front(list, j) {
      assert x in multiset(list);
      assert x in multiset(Front(list, j));
    }
  }

  /** How many leading values are run digits. */
  function RunLength(vals: seq<nat>): (k: nat)
    ensures k <= |vals| && RunDigits(vals[..k])
    ensures k < |vals| ==> vals[k] > RUNB
  {
    if vals == [] || vals[0] > RUNB then 0 else 1 + RunLength(vals[1..])
  }

  /** The largest power of two a run may reach is below 2 * 1024 * 1024. */
  const MAX_RUN_DIGITS := 21

  /** The decoder: None where it reports BZ_DATA_ERROR. A run has too many
      digits, a value is outside the list, or more than `room` bytes come out. */
  function Decode(list: seq<nat>, vals: seq<nat>, room: nat): (r: Option<seq<nat>>)
    requires list != []
    ensures r.Some? ==> |r.value| <= room
    decreases |vals|
  {
    if vals == [] then Some([])
    else if vals[0] <= RUNB then
      var k := RunLength(vals);
      var z := RunValue(vals[..k]);
      if k > MAX_RUN_DIGITS || z > room then None
      else
        match Decode(list, vals[k..], room - z)
        case None => None
        case Some(rest) => Some(Repeat(list[0], z) + rest)
    else
      var j := vals[0] - 1;
      if room == 0 || j >= |list| then None
      else
        match Decode(Front(list, j), vals[1..], room - 1)
        case None => None
        case Some(rest) => Some([list[j]] + rest)
  }

  lemma {:induction false} RunLengthOf(ds: seq<nat>, t: seq<nat>)
    requires RunDigits(ds) && (t == [] || t[0] > RUNB)
    ensures RunLength(ds + t) == |ds|
  {
    if ds != [] {
      RunLengthOf(ds[1..], t);
      assert (ds + t)[1..] == ds[1..] + t;
    } else {
      assert ds + t == t;
    }
  }

  /** Runs of up to 2^22 - 2 zeros pass the decoder's overflow guard. */
  lemma RunCodeShort(z: nat)
    requires z < 0x3f_ffff
    ensures |RunCode(z)| <= MAX_RUN_DIGITS
  {
    Pow2Values();
    Pow2Add(16, 5);
    assert Pow2(5) == 32;
    RunCodeWidth(z, MAX_RUN_DIGITS);
  }

  lemma {:induction false} RunCodeWidth(z: nat, k: nat)
    requires z + 2 <= 2 * Pow2(k)
    ensures |RunCode(z)| <= k
  {
    if z > 0 && k > 0 { RunCodeWidth((z - 1) / 2, k - 1); }
  }

  /** A pending run decodes to that many copies of the front element. */
  lemma DecodeRun(list: seq<nat>, z: nat, t: seq<nat>, room: nat)
    requires list != [] && z < 0x3f_ffff && z <= room && (t == [] || t[0] > RUNB)
    ensures Decode(list, RunCode(z) + t, room) ==
            match Decode(list, t, room - z) case None => None case Some(rest) => Some(Repeat(list[0], z) + rest)
  {
    RunCodeDecodes(z);
    RunCodeShort(z);
    var ds := RunCode(z);
    RunLengthOf(ds, t);
    hide RunCode, RunValue, Repeat;
    if z == 0 {
      assert ds + t == t;
      assert Decode(list, t, room).Some? ==> Repeat(list[0], 0) + Decode(list, t, room).value == Decode(list, t, room).value;
    } else {
      assert ds != [];
      assert (ds + t)[..|ds|] == ds && (ds + t)[|ds|..] == t;
    }
  }

  lemma RepeatSnoc<T>(x: T, z: nat, t: seq<T>)
    ensures Repeat(x, z + 1) + t == Repeat(x, z) + ([x] + t)
  {
    assert Repeat(x, z + 1) == Repeat(x, z) + [x];
  }

  /** A run followed by a moved element. */
  lemma DecodeMove(full: seq<nat>, z: nat, j: nat, rest: seq<nat>, out: seq<nat>, room: nat)
    requires 1 <= j < |full| && z < 0x3f_ffff && z < room
    requires Decode(Front(full, j), rest, room - z - 1) == Some(out)
    ensures Decode(full, RunCode(z) + [j + 1] + rest, room) == Some(Repeat(full[0], z) + ([full[j]] + out))
  {
    hide Repeat, RunCode, Front, RunLength;
    var t := [j + 1] + rest;
    assert t[1..] == rest;
    assert Decode(full, t, room - z) == Some([full[j]] + out);
    DecodeRun(full, z, t, room);
    assert RunCode(z) + [j + 1] + rest == RunCode(z) + t;
  }

  /** The decoder inverts the encoder: for every column of list elements that
      fits the block, whatever follows the encoder's list in the decoder's. */
  lemma {:induction false} DecodeEncode(list: seq<nat>, tail: seq<nat>, z: nat, col: seq<nat>, room: nat)
    requires list != [] && forall x :: x in col ==> x in list
    requires z + |col| <= room < 0x3f_ffff
    ensures Decode(list + tail, Encode(list, z, col), room) == Some(Repeat(list[0], z) + col)
    decreases |col|
  {
    hide Repeat, RunCode, Decode;
    if col == [] {
      LastRun(list + tail, z, room);
      assert Repeat(list[0], z) + [] == Repeat(list[0], z);
    } else if list[0] == col[0] {
      DecodeEncode(list, tail, z + 1, col[1..], room);
      RepeatSnoc(list[0], z, col[1..]);
      assert [col[0]] + col[1..] == col;
    } else {
      var j := IndexOf(list, col[0]);
      FrontKeeps(list, j);
      assert Front(list + tail, j) == Front(list, j) + tail;
      DecodeEncode(Front(list, j), tail, 0, col[1..], room - z - 1);
      EmptyRepeat(Front(list, j)[0], col[1..]);
      DecodeMove(list + tail, z, j, Encode(Front(list, j), 0, col[1..]), col[1..], room);
      assert [col[0]] + col[1..] == col;
    }
  }

  /** Values up to n only ever reach the first n entries of the list. */
  lemma {:induction false} DecodeWithin(list: seq<nat>, vals: seq<nat>, room: nat, n: nat)
    requires 1 <= n <= |list| && forall i :: 0 <= i < n ==> list[i] < n
    requires forall i :: 0 <= i < |vals| ==> vals[i] <= n
    ensures var r := Decode(list, vals, room);
            r.Some? ==> forall i :: 0 <= i < |r.value| ==> r.value[i] < n
    decreases |vals|
  {
    hide RunValue;
    var r := Decode(list, vals, room);
    if vals != [] && r.Some? {
      if vals[0] <= RUNB {
        var k := RunLength(vals);
        var z := RunValue(vals[..k]);
        DecodeWithin(list, vals[k..], room - z, n);
        assert r.value == Repeat(list[0], z) + Decode(list, vals[k..], room - z).value;
      } else {
        var j := vals[0] - 1;
        DecodeWithin(Front(list, j), vals[1..], room - 1, n);
        assert r.value == [list[j]] + Decode(Front(list, j), vals[1..], room - 1).value;
      }
    }
  }

  ghost predicate AtMost(vals: seq<nat>, n: nat) {
    forall i :: 0 <= i < |vals| ==> vals[i] <= n
  }

  /** Every value the encoder generates is at most the length of its list. */
  lemma {:induction false} EncodeBound(list: seq<nat>, z: nat, col: seq<nat>)
    requires list != [] && forall x :: x in col ==> x in list
    ensures AtMost(Encode(list, z, col), |list|)
    decreases |col|
  {
    hide RunCode;
    RunCodeDecodes(z);
    if col == [] {
    } else if list[0] == col[0] {
      EncodeBound(list, z + 1, col[1..]);
      assert Encode(list, z, col) == Encode(list, z + 1, col[1..]);
    } else {
      var j := IndexOf(list, col[0]);
      FrontKeeps(list, j);
      EncodeBound(Front(list, j), 0, col[1..]);
    }
  }

  lemma LastRun(full: seq<nat>, z: nat, room: nat)
    requires full != [] && z < 0x3f_ffff && z <= room
    ensures Decode(full, RunCode(z), room) == Some(Repeat(full[0], z))
  {
    hide Repeat, RunCode;
    DecodeRun(full, z, [], room);
    assert RunCode(z) + [] == RunCode(z);
    assert Repeat(full[0], z) + [] == Repeat(full[0], z);
  }

  lemma EmptyRepeat<T>(x: T, t: seq<T>)
    ensures Repeat(x, 0) + t == t
  {
  }

  // ---------- The alphabet of bytes in use ----------

  /** The bytes in use, in increasing order: seqToUnseq. */
  function UsedBytes(inUse: seq<bool>, n: nat): (r: seq<byte>)
    requires |inUse| == 256 && n <= 256
    ensures |r| <= n
    ensures forall c :: c in r <==> 0 <= c < n && inUse[c]
    ensures Distinct(r)
  {
    if n == 0 then [] else UsedBytes(inUse, n - 1) + (if inUse[n - 1] then [n - 1] else [])
  }

  /** makeMaps_e and makeMaps_d build mutually inverse maps. */
  method MakeMaps(inUse: array<bool>) returns (nInUse: nat, unseqToSeq: array<nat>, seqToUnseq: array<byte>)
    requires inUse.Length == 256
    ensures fresh(unseqToSeq) && fresh(seqToUnseq) && unseqToSeq.Length == seqToUnseq.Length == 256
    ensures nInUse == |UsedBytes(inUse[..], 256)| && seqToUnseq[..nInUse] == UsedBytes(inUse[..], 256)
    ensures forall c :: 0 <= c < 256 && inUse[c] ==> unseqToSeq[c] < nInUse && seqToUnseq[unseqToSeq[c]] == c
  {
    hide UsedBytes;
    unseqToSeq := new nat[256];
    seqToUnseq := new byte[256];
    nInUse := 0;
    NoUsedBytes(inUse[..]);
    for i := 0 to 256
      invariant nInUse == |UsedBytes(inUse[..], i)| && seqToUnseq[..nInUse] == UsedBytes(inUse[..], i)
      invariant forall c :: 0 <= c < i && inUse[c] ==> unseqToSeq[c] < nInUse && seqToUnseq[unseqToSeq[c]] == c
    {
      UsedNext(inUse[..], i);
      if inUse[i] {
        ghost var done := seqToUnseq[..nInUse];
        unseqToSeq[i] := nInUse;
        seqToUnseq[nInUse] := i;
        nInUse := nInUse + 1;
        assert seqToUnseq[..nInUse] == done + [i];
      }
    }
  }

  lemma NoUsedBytes(inUse: seq<bool>)
    requires |inUse| == 256
    ensures UsedBytes(inUse, 0) == []
  {
  }

  lemma UsedNext(inUse: seq<bool>, n: nat)
    requires |inUse| == 256 && n < 256
    ensures |UsedBytes(inUse, n)| <= n
    ensures UsedBytes(inUse, n + 1) == UsedBytes(inUse, n) + (if inUse[n] then [n] else [])
  {
  }
}
