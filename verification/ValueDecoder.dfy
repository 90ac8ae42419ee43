/**
 The decoder's treatment of the MTF values of a block (decompress.c), one value
 at a time as they are read: run accumulation, move-to-front through the sliding
 arena, byte counts, and the guards that reject corrupt streams.
 */
module ValueDecoder {
  import opened Wrappers
  import opened Bits
  import opened Rotation
  import opened Mtf
  import MtfDecoder

  // ---------- One value ----------

  /** Between runs, or in a run that stands for es + 1 bytes so far and whose
      next digit weighs N. */
  datatype Run = Between | InRun(es: nat, N: nat)

  /** The list, the symbols put out, and the run being read. */
  datatype Decoding = Decoding(list: seq<nat>, done: seq<nat>, run: Run)

  datatype Taken = Refused | More(d: Decoding) | Finished(syms: seq<nat>)

  const RUN_GUARD := 2 * 1024 * 1024

  /** What the decoder makes of the next value: a run goes on or ends first. */
  function Take(d: Decoding, sym: nat, eob: nat, room: nat): Taken {
    match d.run
    case Between => TakePlain(d, sym, eob, room)
    case InRun(es, N) =>
      if sym <= RUNB then
        if N >= RUN_GUARD then Refused else More(d.(run := InRun(es + (sym + 1) * N, 2 * N)))
      else if d.list == [] || |d.done| + es + 1 > room then Refused
      else TakePlain(Decoding(d.list, d.done + Repeat(d.list[0], es + 1), Between), sym, eob, room)
  }

  function TakePlain(d: Decoding, sym: nat, eob: nat, room: nat): Taken {
    if sym == eob then Finished(d.done)
    else if sym <= RUNB then More(d.(run := InRun(sym, 2)))
    else if |d.done| >= room || sym > |d.list| then Refused
    else More(Decoding(Front(d.list, sym - 1), d.done + [d.list[sym - 1]], Between))
  }

  function StartDecoding(): Decoding { Decoding(Identity(256), [], Between) }

  /** All values of a block and then the end-of-block value. */
  function TakeAll(d: Decoding, vals: seq<nat>, eob: nat, room: nat): Option<seq<nat>>
    decreases |vals|
  {
    match Take(d, if vals == [] then eob else vals[0], eob, room)
    case Refused => None
    case Finished(syms) => if vals == [] then Some(syms) else None
    case More(d') => if vals == [] then None else TakeAll(d', vals[1..], eob, room)
  }

  // ---------- Against the clean decoder ----------

  lemma {:induction false} RunValueSnoc(ds: seq<nat>, d: nat)
    ensures RunValue(ds + [d]) == RunValue(ds) + (d + 1) * Pow2(|ds|)
  {
    if ds == [] {
      assert RunValue([d][1..]) == 0;
    } else {
      RunValueSnoc(ds[1..], d);
      assert (ds + [d])[1..] == ds[1..] + [d];
      assert (d + 1) * Pow2(|ds|) == 2 * ((d + 1) * Pow2(|ds| - 1));
    }
  }

  lemma {:induction false} RunLengthAtLeast(vals: seq<nat>, k: nat)
    requires k <= |vals| && RunDigits(vals[..k])
    ensures RunLength(vals) >= k
  {
    if k > 0 {
      assert vals[..k][0] <= RUNB;
      assert vals[1..][..k - 1] == vals[..k][1..];
      RunLengthAtLeast(vals[1..], k - 1);
    }
  }

  lemma GuardValue(k: nat)
    ensures Pow2(k) >= 2 * 1024 * 1024 <==> k >= MAX_RUN_DIGITS
  {
    Pow2Values();
    Pow2Add(16, 5);
    assert Pow2(5) == 32;
    assert Pow2(21) == 2 * 1024 * 1024;
    assert Pow2(21) == 2 * Pow2(20);
    if k >= 21 { Pow2Monotone(21, k); } else { Pow2Monotone(k, 20); }
  }

  lemma PowNext(k: nat)
    ensures Pow2(k + 1) == 2 * Pow2(k)
  {
  }

  /** A decoded prefix followed by the outcome for the rest. */
  function Then(done: seq<nat>, r: Option<seq<nat>>): Option<seq<nat>> {
    match r
    case None => None
    case Some(rest) => Some(done + rest)
  }

  lemma ThenRun(list: seq<nat>, vals: seq<nat>, start: nat, room: nat, done: seq<nat>)
    requires list != [] && start < |vals| && vals[start] <= RUNB
    ensures var k := RunLength(vals[start..]);
            var z := RunValue(vals[start..start + k]);
            Then(done, Decode(list, vals[start..], room)) ==
            if k > MAX_RUN_DIGITS || z > room then None
            else Then(done + Repeat(list[0], z), Decode(list, vals[start + k..], room - z))
  {
    hide RunLength, RunValue, Repeat, Decode;
    var k := RunLength(vals[start..]);
    var z := RunValue(vals[start..start + k]);
    RunProgress(vals, start);
    DecodeUnfolded(list, vals[start..], room);
    assert vals[start..][..k] == vals[start..start + k];
    assert vals[start..][k..] == vals[start + k..];
    if k <= MAX_RUN_DIGITS && z <= room {
      var r := Decode(list, vals[start + k..], room - z);
      if r.Some? { assert done + (Repeat(list[0], z) + r.value) == done + Repeat(list[0], z) + r.value; }
    }
  }

  lemma DecodeUnfolded(list: seq<nat>, vals: seq<nat>, room: nat)
    requires list != [] && vals != [] && vals[0] <= RUNB && RunLength(vals) >= 1
    ensures var k := RunLength(vals); var z := RunValue(vals[..k]);
            Decode(list, vals, room) ==
            if k > MAX_RUN_DIGITS || z > room then None else Then(Repeat(list[0], z), Decode(list, vals[k..], room - z))
  {
    hide RunLength, RunValue, Repeat;
  }

  lemma ThenMove(list: seq<nat>, vals: seq<nat>, start: nat, room: nat, done: seq<nat>)
    requires list != [] && start < |vals| && RUNB < vals[start] <= |list|
    ensures var j := vals[start] - 1;
            Then(done, Decode(list, vals[start..], room)) ==
            if room == 0 then None
            else Then(done + [list[j]], Decode(Front(list, j), vals[start + 1..], room - 1))
  {
    hide Front;
    var j := vals[start] - 1;
    assert vals[start..][1..] == vals[start + 1..];
    if room > 0 {
      var r := Decode(Front(list, j), vals[start + 1..], room - 1);
      if r.Some? { assert done + ([list[j]] + r.value) == done + [list[j]] + r.value; }
    }
  }

  /** The digits of the run being read. */
  ghost predicate Digits(run: Run, ds: seq<nat>) {
    match run
    case Between => ds == []
    case InRun(es, N) => RunDigits(ds) && 1 <= |ds| <= MAX_RUN_DIGITS && es + 1 == RunValue(ds) && N == Pow2(|ds|)
  }

  lemma FirstDigit(d: nat)
    requires d <= RUNB
    ensures Digits(InRun(d, 2), [d])
  {
    assert [d][1..] == [];
    assert RunValue([]) == 0 && Pow2(1) == 2 * Pow2(0);
  }

  lemma NextDigit(es: nat, N: nat, ds: seq<nat>, d: nat)
    requires Digits(InRun(es, N), ds) && d <= RUNB && N < RUN_GUARD
    ensures Digits(InRun(es + (d + 1) * N, 2 * N), ds + [d])
  {
    hide RunValue, Pow2;
    RunValueSnoc(ds, d);
    PowNext(|ds|);
    GuardValue(|ds|);
  }

  /** A digit too many is refused by the clean decoder as well. */
  lemma TooManyDigits(list: seq<nat>, es: nat, N: nat, ds: seq<nat>, vals: seq<nat>, room: nat)
    requires list != [] && Digits(InRun(es, N), ds) && N >= RUN_GUARD && vals != [] && vals[0] <= RUNB
    ensures Decode(list, ds + vals, room).None?
  {
    hide RunValue, Pow2, Repeat;
    GuardValue(|ds|);
    var all := ds + vals;
    assert all[..|ds| + 1] == ds + [vals[0]];
    RunLengthAtLeast(all, |ds| + 1);
  }

  /** The end of a run. */
  lemma RunEnds(d: Decoding, ds: seq<nat>, vals: seq<nat>, room: nat)
    requires d.list != [] && d.run.InRun? && Digits(d.run, ds) && |d.done| <= room && (vals == [] || vals[0] > RUNB)
    ensures Then(d.done, Decode(d.list, ds + vals, room - |d.done|)) ==
            if |d.done| + d.run.es + 1 > room then None
            else Then(d.done + Repeat(d.list[0], d.run.es + 1), Decode(d.list, vals, room - |d.done| - d.run.es - 1))
  {
    hide RunValue, RunLength, Repeat, Decode;
    var all := ds + vals;
    RunLengthOf(ds, vals);
    assert all[0..] == all && all[0..|ds|] == ds && all[|ds|..] == vals;
    ThenRun(d.list, all, 0, room - |d.done|, d.done);
  }

  /** The cases of TakeAll. */
  lemma TakeDigit(d: Decoding, vals: seq<nat>, eob: nat, room: nat)
    requires d.run.InRun? && vals != [] && vals[0] <= RUNB
    ensures TakeAll(d, vals, eob, room) ==
            if d.run.N >= RUN_GUARD then None
            else TakeAll(d.(run := InRun(d.run.es + (vals[0] + 1) * d.run.N, 2 * d.run.N)), vals[1..], eob, room)
  {
  }

  lemma TakeRunEnd(d: Decoding, vals: seq<nat>, eob: nat, room: nat)
    requires d.run.InRun? && d.list != [] && eob > RUNB && (vals == [] || vals[0] > RUNB)
    ensures TakeAll(d, vals, eob, room) ==
            if |d.done| + d.run.es + 1 > room then None
            else TakeAll(Decoding(d.list, d.done + Repeat(d.list[0], d.run.es + 1), Between), vals, eob, room)
  {
    hide Repeat, Front, TakePlain;
  }

  lemma TakeBetween(d: Decoding, vals: seq<nat>, eob: nat, room: nat)
    requires d.run.Between? && eob > RUNB && (vals == [] || (vals[0] != eob && vals[0] <= |d.list|))
    ensures TakeAll(d, vals, eob, room) ==
            if vals == [] then Some(d.done)
            else if vals[0] <= RUNB then TakeAll(d.(run := InRun(vals[0], 2)), vals[1..], eob, room)
            else if |d.done| >= room then None
            else TakeAll(Decoding(Front(d.list, vals[0] - 1), d.done + [d.list[vals[0] - 1]], Between), vals[1..], eob, room)
  {
    hide Front;
  }

  /** Taking values one by one is decoding them all: for every list of values,
      acceptable or not. */
  lemma {:induction false} TakeAllDecodes(d: Decoding, ds: seq<nat>, vals: seq<nat>, eob: nat, room: nat)
    requires d.list != [] && |d.done| <= room && Digits(d.run, ds) && eob > RUNB
    requires forall i :: 0 <= i < |vals| ==> vals[i] != eob && vals[i] <= |d.list|
    ensures TakeAll(d, vals, eob, room) == Then(d.done, Decode(d.list, ds + vals, room - |d.done|))
    decreases |vals|, d.run.InRun?
  {
    hide RunValue, Repeat, Digits, Decode, TakeAll, Front;
    if d.run.InRun? && vals != [] && vals[0] <= RUNB {
      TakeDigit(d, vals, eob, room);
      if d.run.N >= RUN_GUARD {
        TooManyDigits(d.list, d.run.es, d.run.N, ds, vals, room - |d.done|);
      } else {
        NextDigit(d.run.es, d.run.N, ds, vals[0]);
        assert ds + vals == ds + [vals[0]] + vals[1..];
        TakeAllDecodes(d.(run := InRun(d.run.es + (vals[0] + 1) * d.run.N, 2 * d.run.N)), ds + [vals[0]], vals[1..], eob, room);
      }
    } else if d.run.InRun? {
      RunEnds(d, ds, vals, room);
      TakeRunEnd(d, vals, eob, room);
      if |d.done| + d.run.es + 1 <= room {
        var d' := Decoding(d.list, d.done + Repeat(d.list[0], d.run.es + 1), Between);
        NoDigits();
        TakeAllDecodes(d', [], vals, eob, room);
        assert [] + vals == vals;
      }
    } else {
      BetweenEmpty(ds);
      TakeBetween(d, vals, eob, room);
      assert ds + vals == vals;
      if vals == [] {
        DecodeNothing(d.list, room - |d.done|);
        assert d.done + [] == d.done;
      } else if vals[0] <= RUNB {
        FirstDigit(vals[0]);
        assert vals == [vals[0]] + vals[1..];
        TakeAllDecodes(d.(run := InRun(vals[0], 2)), [vals[0]], vals[1..], eob, room);
      } else {
        var j := vals[0] - 1;
        assert vals[0..] == vals;
        ThenMove(d.list, vals, 0, room - |d.done|, d.done);
        if |d.done| < room {
          NoDigits();
          TakeAllDecodes(Decoding(Front(d.list, j), d.done + [d.list[j]], Between), [], vals[1..], eob, room);
          assert [] + vals[1..] == vals[1..];
        }
      }
    }
  }

  lemma NoDigits()
    ensures Digits(Between, [])
  {
  }

  lemma BetweenEmpty(ds: seq<nat>)
    requires Digits(Between, ds)
    ensures ds == []
  {
  }

  lemma RunProgress(vals: seq<nat>, start: nat)
    requires start < |vals| && vals[start] <= RUNB
    ensures RunLength(vals[start..]) >= 1
  {
  }

  lemma OneRepeat<T>(x: T)
    ensures Repeat(x, 1) == [x]
  {
  }

  lemma DecodeNothing(list: seq<nat>, room: nat)
    requires list != []
    ensures Decode(list, [], room) == Some([])
  {
  }

  // ---------- Storing the column ----------

  /** tt and unzftab after the symbols `done`: the bytes and their counts. */
  ghost predicate Stored(tt: seq<nat>, unzftab: seq<nat>, seqToUnseq: seq<byte>, done: seq<nat>) {
    && |done| <= |tt| && |unzftab| == |seqToUnseq| == 256
    && (forall i :: 0 <= i < |done| ==> done[i] < 256)
    && (forall i :: 0 <= i < |done| ==> tt[i] == seqToUnseq[done[i]])
    && (forall c :: 0 <= c < 256 ==> unzftab[c] == multiset(ToBytes(seqToUnseq, done))[c])
  }

  /** Symbols as bytes. */
  function ToBytes(seqToUnseq: seq<byte>, syms: seq<nat>): (r: seq<byte>)
    requires |seqToUnseq| == 256 && forall i :: 0 <= i < |syms| ==> syms[i] < 256
    ensures |r| == |syms| && forall i :: 0 <= i < |syms| ==> r[i] == seqToUnseq[syms[i]]
  {
    seq(|syms|, i requires 0 <= i < |syms| => seqToUnseq[syms[i]])
  }

  lemma StoredEmpty(tt: seq<nat>, unzftab: seq<nat>, seqToUnseq: seq<byte>)
    requires |unzftab| == |seqToUnseq| == 256 && forall c :: 0 <= c < 256 ==> unzftab[c] == 0
    ensures Stored(tt, unzftab, seqToUnseq, [])
  {
    assert ToBytes(seqToUnseq, []) == [];
  }

  lemma StoredMore(tt: seq<nat>, unz: seq<nat>, tt': seq<nat>, unz': seq<nat>, seqToUnseq: seq<byte>, done: seq<nat>, x: nat, z: nat)
    requires Stored(tt, unz, seqToUnseq, done) && x < 256 && |tt'| == |tt| && |done| + z <= |tt|
    requires forall k :: 0 <= k < |done| ==> tt'[k] == tt[k]
    requires forall k :: |done| <= k < |done| + z ==> tt'[k] == seqToUnseq[x]
    requires unz' == unz[seqToUnseq[x] := unz[seqToUnseq[x]] + z]
    ensures Stored(tt', unz', seqToUnseq, done + Repeat(x, z))
  {
    hide Repeat;
    var more := Repeat(x, z);
    assert ToBytes(seqToUnseq, done + more) == ToBytes(seqToUnseq, done) + Repeat(seqToUnseq[x], z);
    RepeatCount(seqToUnseq[x], z);
  }

  lemma {:induction false} RepeatCount(c: byte, z: nat)
    ensures multiset(Repeat(c, z)) == multiset{}[c := z]
  {
    if z > 0 {
      RepeatCount(c, z - 1);
      assert multiset(Repeat(c, z)) == multiset{c} + multiset(Repeat(c, z - 1));
    }
  }

  /** Stores es copies of a byte, refusing to overrun the block. */
  method FillRun(tt: array<nat>, nblock: nat, nblockMAX: nat, uc: byte, es: nat) returns (dataError: bool, nb: nat)
    requires nblock <= nblockMAX <= tt.Length
    modifies tt
    ensures dataError <==> nblock + es > nblockMAX
    ensures !dataError ==> nb == nblock + es && forall k :: nblock <= k < nb ==> tt[k] == uc
    ensures forall k :: 0 <= k < nblock ==> tt[k] == old(tt[k])
  {
    nb := nblock;
    dataError := false;
    while nb < nblock + es
      invariant nblock <= nb <= nblock + es && nb <= nblockMAX
      invariant forall k :: nblock <= k < nb ==> tt[k] == uc
      invariant forall k :: 0 <= k < nblock ==> tt[k] == old(tt[k])
    {
      if nb >= nblockMAX { dataError := true; return; }
      tt[nb] := uc;
      nb := nb + 1;
    }
  }

  ghost predicate AllBytes(list: seq<nat>) {
    forall i :: 0 <= i < |list| ==> list[i] < 256
  }

  lemma StartBytes()
    ensures AllBytes(Identity(256))
  {
  }

  lemma FirstByte(list: seq<nat>, j: nat)
    requires AllBytes(list) && j < |list|
    ensures list[j] < 256
  {
  }

  lemma FrontBytes(list: seq<nat>, j: nat)
    requires AllBytes(list) && j < |list|
    ensures AllBytes(Front(list, j))
  {
  }

  /** The decoding of one block's values: the arena, the column so far and its
      byte counts, and the run being read. */
  class Column {
    const mtf: MtfDecoder.List
    const tt: array<nat>            // tt, or ll16
    const unzftab: array<nat>
    const seqToUnseq: seq<byte>
    var nblock: nat
    var inRun: bool
    var es: nat
    var N: nat
    ghost var d: Decoding

    ghost predicate Valid()
      reads this, mtf, mtf.mtfa, mtf.mtfbase, tt, unzftab
    {
      && mtf.Valid() && |mtf.list| == 256 && AllBytes(mtf.list) && d.list == mtf.list
      && |seqToUnseq| == 256 && unzftab.Length == 256 && tt != unzftab && {tt, unzftab} !! {mtf.mtfa}
      && nblock == |d.done| <= tt.Length && Stored(tt[..], unzftab[..], seqToUnseq, d.done)
      && d.run == if inRun then InRun(es, N) else Between
    }

    /** The MTF init, and empty counts. */
    constructor (tt: array<nat>, seqToUnseq: seq<byte>)
      requires |seqToUnseq| == 256
      ensures Valid() && fresh(mtf) && fresh(mtf.mtfa) && fresh(mtf.mtfbase) && fresh(unzftab)
      ensures this.tt == tt && this.seqToUnseq == seqToUnseq && d == StartDecoding()
    {
      hide Stored, MtfDecoder.Represents, AllBytes;
      this.tt, this.seqToUnseq := tt, seqToUnseq;
      mtf := new MtfDecoder.List();
      unzftab := new nat[256](_ => 0);
      nblock, inRun, es, N, d := 0, false, 0, 1, StartDecoding();
      new;
      StartBytes();
      assert mtf.list == Identity(256);
      StoredEmpty(tt[..], unzftab[..], seqToUnseq);
    }

    /** The end of a run: its bytes are stored, unless they overrun the block. */
    method EndRun(nblockMAX: nat) returns (dataError: bool)
      requires Valid() && inRun && nblock <= nblockMAX <= tt.Length
      modifies this, tt, unzftab
      ensures dataError == (old(nblock) + old(es) + 1 > nblockMAX)
      ensures !dataError ==> Valid() && !inRun && nblock <= nblockMAX && d == Decoding(old(d).list, old(d).done + Repeat(old(d).list[0], old(es) + 1), Between)
    {
      hide Stored, Repeat, MtfDecoder.Represents, AllBytes;
      ghost var t, u := tt[..], unzftab[..];
      var s := mtf.First();
      FirstByte(mtf.list, 0);
      var uc := seqToUnseq[s];
      unzftab[uc] := unzftab[uc] + (es + 1);
      dataError, nblock := FillRun(tt, nblock, nblockMAX, uc, es + 1);
      if dataError { return; }
      StoredMore(t, u, tt[..], unzftab[..], seqToUnseq, d.done, s, es + 1);
      d := Decoding(d.list, d.done + Repeat(s, es + 1), Between);
      inRun := false;
    }

    /** A move to the front, and its byte stored. */
    method MoveOne(nextSym: nat, nblockMAX: nat) returns (dataError: bool)
      requires Valid() && !inRun && RUNB < nextSym <= 256 && nblock <= nblockMAX <= tt.Length
      modifies this, tt, unzftab, mtf, mtf.mtfa, mtf.mtfbase
      ensures dataError == (old(nblock) >= nblockMAX)
      ensures !dataError ==> Valid() && !inRun && nblock <= nblockMAX
      ensures !dataError ==> d == Decoding(Front(old(d).list, nextSym - 1), old(d).done + [old(d).list[nextSym - 1]], Between)
    {
      hide Stored, Front, Repeat, MtfDecoder.Represents, AllBytes;
      ghost var list, t, u := mtf.list, tt[..], unzftab[..];
      dataError := nblock >= nblockMAX;
      if dataError { return; }
      var s := mtf.Move(nextSym - 1);
      FirstByte(list, nextSym - 1);
      FrontBytes(list, nextSym - 1);
      var uc := seqToUnseq[s];
      unzftab[uc] := unzftab[uc] + 1;
      tt[nblock] := uc;
      StoredMore(t, u, tt[..], unzftab[..], seqToUnseq, d.done, s, 1);
      OneRepeat(s);
      d := Decoding(Front(list, nextSym - 1), d.done + [s], Between);
      nblock := nblock + 1;
    }

    /** One value, as it is read: what the specification makes of it. */
    method TakeValue(nextSym: nat, EOB: nat, nblockMAX: nat) returns (dataError: bool, end: bool)
      requires Valid() && nblock <= nblockMAX <= tt.Length && EOB > RUNB && (nextSym <= 256 || nextSym == EOB)
      modifies this, tt, unzftab, mtf, mtf.mtfa, mtf.mtfbase
      ensures match Take(old(d), nextSym, EOB, nblockMAX)
              case Refused => dataError
              case Finished(syms) => !dataError && end && Valid() && d.done == syms && nblock <= nblockMAX
              case More(d') => !dataError && !end && Valid() && d == d' && nblock <= nblockMAX
    {
      hide Stored, Front, Repeat, MtfDecoder.Represents, AllBytes;
      dataError, end := false, false;
      if inRun {
        if nextSym <= RUNB {
          dataError := N >= RUN_GUARD;
          if dataError { return; }
          es := es + (if nextSym == RUNA then N else 2 * N);
          N := N * 2;
          d := d.(run := InRun(es, N));
          return;
        }
        dataError := EndRun(nblockMAX);
        if dataError { return; }
      }
      if nextSym == EOB {
        end := true;
      } else if nextSym <= RUNB {
        es, N, inRun := if nextSym == RUNA then 0 else 1, 2, true;
        d := d.(run := InRun(es, N));
      } else {
        dataError := MoveOne(nextSym, nblockMAX);
      }
    }
  }
}
