/**
 The decoder's output loops of bzlib.c: they expand the run-length code while
 fetching its bytes from the inverse transform, may stop before any output byte,
 and resume there. What both loops have in common is specified here.
 */
module UnRle {
  import opened Permutation
  import opened Rotation
  import opened InverseBwt
  import opened Mtf
  import opened Rle
  import opened BlockCode

  /** The run-length code of a block. */
  ghost function CodeOf(col: seq<byte>, orig: nat): (r: seq<byte>)
    requires orig < |col|
    ensures |r| == |col| && forall k :: 0 <= k < |r| ==> r[k] == WalkByte(col, orig, k)
  {
    Walked(col, orig, |col|)
  }

  /** From position p on; a code that breaks off takes the byte after its end
      for the missing count. */
  ghost function From(code: seq<byte>, extra: byte, p: nat): seq<byte>
    requires p <= |code|
  {
    code[p..] + if Whole(code) then [] else [extra]
  }

  /** The output that is still to come with a run starting at position p. */
  ghost function Rest(code: seq<byte>, extra: byte, p: nat): seq<byte> {
    if p <= |code| then Expand(From(code, extra, p), START) else []
  }

  /** Position p is the start of a run, or the end of the code: its length if
      the code is whole, one more if it breaks off. */
  ghost predicate RunStart(code: seq<byte>, p: nat) {
    if p <= |code| then Whole(code[p..]) == Whole(code) else p == |code| + 1 && !Whole(code)
  }

  /** k equal bytes at p, followed by the end or another byte. */
  ghost predicate RunOf(code: seq<byte>, p: nat, k: nat) {
    && 1 <= k && p + k <= |code| && (forall i :: p <= i < p + k ==> code[i] == code[p])
  }

  lemma RunSlice(code: seq<byte>, p: nat, k: nat)
    requires RunOf(code, p, k)
    ensures code[p..] == Repeat(code[p], k) + code[p + k..]
  {
    assert code[p..p + k] == Repeat(code[p], k);
    assert code[p..] == code[p..p + k] + code[p + k..];
  }

  /** A run of up to three. */
  lemma ShortStep(code: seq<byte>, extra: byte, p: nat, k: nat)
    requires RunStart(code, p) && k <= 3 && RunOf(code, p, k) && (p + k == |code| || code[p + k] != code[p])
    ensures RunStart(code, p + k) && Rest(code, extra, p) == Repeat(code[p], k) + Rest(code, extra, p + k)
  {
    hide Expand, After, Repeat;
    var c, tail := code[p], code[p + k..];
    RunSlice(code, p, k);
    ShortRun(c, k, tail);
    var more := if Whole(code) then [] else [extra];
    if tail == [] { NothingLeft(code, p + k); }
    assert Repeat(c, k) + tail + more == Repeat(c, k) + (tail + more);
    assert tail + more == [] || (tail + more)[0] != c;
    ShortRun(c, k, tail + more);
  }

  lemma NothingLeft(code: seq<byte>, p: nat)
    requires p == |code|
    ensures Whole(code[p..])
  {
  }

  /** A run of four with its count, or with the byte after the end. */
  lemma LongStep(code: seq<byte>, extra: byte, p: nat)
    requires RunStart(code, p) && RunOf(code, p, 4)
    ensures var count := if p + 4 == |code| then extra else code[p + 4];
            RunStart(code, p + 5) && Rest(code, extra, p) == Repeat(code[p], 4 + count) + Rest(code, extra, p + 5)
  {
    hide Expand, After, Repeat;
    var c, more := code[p], if Whole(code) then [] else [extra];
    RunSlice(code, p, 4);
    if p + 4 == |code| {
      assert code[p..] == Repeat(c, 4) + [];
      assert code[p..] == Repeat(c, 4);
      BrokenRun(c);
      LongRun(c, extra, []);
      assert From(code, extra, p) == Repeat(c, 4) + [extra] + [];
      EmptyExpand();
    } else {
      var tail := code[p + 5..];
      assert code[p + 4..] == [code[p + 4]] + tail;
      assert code[p..] == Repeat(c, 4) + [code[p + 4]] + tail;
      LongRun(c, code[p + 4], tail);
      LongRun(c, code[p + 4], tail + more);
      assert Repeat(c, 4) + [code[p + 4]] + tail + more == Repeat(c, 4) + [code[p + 4]] + (tail + more);
    }
  }

  lemma EmptyExpand()
    ensures Expand([], START) == []
  {
  }

  /** A decoder in the middle of a block: done is what it has put out of it, and
      owed copies of ch and the runs from position used - 1 on are to come. */
  ghost predicate Midway(col: seq<byte>, orig: nat, done: seq<byte>, ch: byte, owed: nat, used: nat, k0: byte) {
    && orig < |col| && 1 <= used
    && var code, extra := CodeOf(col, orig), WalkByte(col, orig, |col|);
       && RunStart(code, used - 1) && (used - 1 < |code| ==> k0 == code[used - 1])
       && done + (Repeat(ch, owed) + Rest(code, extra, used - 1)) == Rest(code, extra, 0)
  }

  /** Everything a block puts out. */
  ghost function Total(col: seq<byte>, orig: nat): seq<byte>
    requires orig < |col|
  {
    Rest(CodeOf(col, orig), WalkByte(col, orig, |col|), 0)
  }

  /** A whole code puts out its expansion. */
  lemma TotalIsExpansion(col: seq<byte>, orig: nat)
    requires orig < |col| && Whole(CodeOf(col, orig))
    ensures Total(col, orig) == Expand(CodeOf(col, orig), START)
  {
    hide Expand, After, Walked;
    var code := CodeOf(col, orig);
    assert code[0..] + [] == code;
  }

  lemma StartMidway(col: seq<byte>, orig: nat, ch: byte, k0: byte)
    requires orig < |col| && k0 == WalkByte(col, orig, 0)
    ensures Midway(col, orig, [], ch, 0, 1, k0)
  {
    hide Expand, After;
    var code := CodeOf(col, orig);
    assert code[0..] == code;
    assert [] + ([] + Total(col, orig)) == Total(col, orig);
  }

  /** The decoder has nothing left exactly at the end of the code. */
  lemma MidwayEnds(col: seq<byte>, orig: nat, done: seq<byte>, ch: byte, owed: nat, used: nat, k0: byte)
    requires Midway(col, orig, done, ch, owed, used, k0)
    ensures orig < |col| && used <= |col| + 2 && |done| + owed <= |Total(col, orig)|
    ensures used > |col| ==> done + Repeat(ch, owed) == Total(col, orig)
    ensures used == |col| + 1 ==> Whole(CodeOf(col, orig))
    ensures used == |col| + 2 ==> !Whole(CodeOf(col, orig))
    ensures used <= |col| ==> |done| + owed < |Total(col, orig)|
  {
    hide Expand, After;
    var code, extra := CodeOf(col, orig), WalkByte(col, orig, |col|);
    var p := used - 1;
    if p == |code| {
      NothingLeft(code, p);
      assert From(code, extra, p) == [];
      EmptyExpand();
    } else if p < |code| {
      SomethingLeft(From(code, extra, p));
    }
    assert Repeat(ch, owed) + [] == Repeat(ch, owed);
  }

  lemma SomethingLeft(s: seq<byte>)
    requires s != []
    ensures Expand(s, START) != []
  {
  }

  /** One byte of the owed run is put out. */
  lemma EmitStep(col: seq<byte>, orig: nat, done: seq<byte>, ch: byte, owed: nat, used: nat, k0: byte)
    requires Midway(col, orig, done, ch, owed, used, k0) && owed > 0
    ensures Midway(col, orig, done + [ch], ch, owed - 1, used, k0)
  {
    hide Rest, RunStart;
    assert Repeat(ch, owed) == [ch] + Repeat(ch, owed - 1);
    var rest := Rest(CodeOf(col, orig), WalkByte(col, orig, |col|), used - 1);
    assert done + ([ch] + Repeat(ch, owed - 1) + rest) == done + [ch] + (Repeat(ch, owed - 1) + rest);
  }

  /** A run of k < 4 is owed. */
  lemma FetchShort(col: seq<byte>, orig: nat, done: seq<byte>, ch: byte, used: nat, k0: byte, k: nat, k1: byte)
    requires Midway(col, orig, done, ch, 0, used, k0) && 1 <= k <= 3 && used - 1 + k <= |col| && k1 == WalkByte(col, orig, used - 1 + k)
    requires forall i: nat :: used - 1 <= i < used - 1 + k ==> WalkByte(col, orig, i) == k0
    requires used - 1 + k == |col| || k1 != k0
    ensures Midway(col, orig, done, k0, k, used + k, k1)
  {
    hide Rest, RunStart, WalkByte, Repeat;
    var code, extra := CodeOf(col, orig), WalkByte(col, orig, |col|);
    var p := used - 1;
    ShortStep(code, extra, p, k);
    EmptyRepeat(ch, Rest(code, extra, p));
  }

  /** A run of four and its count are owed. */
  lemma FetchLong(col: seq<byte>, orig: nat, done: seq<byte>, ch: byte, used: nat, k0: byte, count: byte, next: byte)
    requires Midway(col, orig, done, ch, 0, used, k0) && used + 3 <= |col|
    requires count == WalkByte(col, orig, used + 3) && next == WalkByte(col, orig, used + 4)
    requires forall i: nat :: used - 1 <= i < used + 3 ==> WalkByte(col, orig, i) == k0
    ensures Midway(col, orig, done, k0, 4 + count, used + 5, next)
  {
    hide Rest, RunStart, WalkByte, Repeat;
    var code, extra := CodeOf(col, orig), WalkByte(col, orig, |col|);
    var p := used - 1;
    LongStep(code, extra, p);
    EmptyRepeat(ch, Rest(code, extra, p));
  }

  lemma FirstByte(col: seq<byte>, orig: nat, done: seq<byte>, ch: byte, used: nat, k0: byte)
    requires Midway(col, orig, done, ch, 0, used, k0) && used <= |col|
    ensures k0 == WalkByte(col, orig, used - 1)
  {
  }

  /** At the end of the code k0 no longer matters. */
  lemma Forget(col: seq<byte>, orig: nat, done: seq<byte>, ch: byte, owed: nat, used: nat, k0: byte, other: byte)
    requires Midway(col, orig, done, ch, owed, used, k0) && used > |col|
    ensures Midway(col, orig, done, ch, owed, used, other)
  {
  }

  /** What a call adds to the block's output, it adds to the stream's, and takes
      from the room there is. */
  ghost predicate Delivered(out: seq<byte>, done: seq<byte>, room: nat, out': seq<byte>, done': seq<byte>, room': nat) {
    done <= done' && out' == out + done'[|done|..] && |done'| - |done| == room - room'
  }

  lemma DeliveredNone(out: seq<byte>, done: seq<byte>, room: nat)
    ensures Delivered(out, done, room, out, done, room)
  {
    assert done[|done|..] == [] && out + [] == out;
  }

  lemma DeliveredBoth(o: seq<byte>, d: seq<byte>, a: nat, o1: seq<byte>, d1: seq<byte>, a1: nat, o2: seq<byte>, d2: seq<byte>, a2: nat)
    requires Delivered(o, d, a, o1, d1, a1) && Delivered(o1, d1, a1, o2, d2, a2)
    ensures Delivered(o, d, a, o2, d2, a2)
  {
    assert d2[|d|..] == d1[|d|..] + d2[|d1|..];
  }

  lemma DeliveredOne(out: seq<byte>, done: seq<byte>, room: nat, out': seq<byte>, done': seq<byte>, room': nat, c: byte)
    requires Delivered(out, done, room, out', done', room') && room' > 0
    ensures Delivered(out, done, room, out' + [c], done' + [c], room' - 1)
  {
    assert (done' + [c])[|done|..] == done'[|done|..] + [c];
  }
}
