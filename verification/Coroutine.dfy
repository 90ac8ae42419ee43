/**
 A coroutine that asks for bits: a state, the width of the request it stands at
 (0 when it has none), and the state that the value asked for leads to. GET_BITS
 in decompress.c may return for lack of input; the next call resumes at the same
 request.
 */
module Coroutine {
  import opened Sequences
  import opened Bits
  import opened BitSeq
  import opened BitStream
  import opened Rotation

  /** Serves requests while the bits last: the state and the bits left over. */
  function Drive<S>(width: S -> nat, next: (S, nat) -> S, s: S, bits: seq<bit>): (S, seq<bit>)
    decreases |bits|
  {
    var w := width(s);
    if w == 0 || |bits| < w then (s, bits)
    else Drive(width, next, next(s, FromBits(bits[..w])), bits[w..])
  }

  /** Stopping for input and resuming makes no difference. */
  lemma {:induction false} DriveResumes<S>(width: S -> nat, next: (S, nat) -> S, s: S, x: seq<bit>, y: seq<bit>)
    ensures var (s', left) := Drive(width, next, s, x);
            Drive(width, next, s', left + y) == Drive(width, next, s, x + y)
    decreases |x|
  {
    var w := width(s);
    if w != 0 && |x| >= w {
      assert (x + y)[..w] == x[..w] && (x + y)[w..] == x[w..] + y;
      DriveResumes(width, next, next(s, FromBits(x[..w])), x[w..], y);
    }
  }

  lemma DriveNothing<S>(width: S -> nat, next: (S, nat) -> S, s: S)
    ensures Drive(width, next, s, []) == (s, [])
  {
  }

  /** The coroutine fed chunk after chunk. */
  function DriveChunks<S>(width: S -> nat, next: (S, nat) -> S, s: S, left: seq<bit>, chunks: seq<seq<byte>>): (S, seq<bit>)
    decreases |chunks|
  {
    if chunks == [] then (s, left)
    else
      var (s', left') := Drive(width, next, s, left + BytesToBits(chunks[0]));
      DriveChunks(width, next, s', left', chunks[1..])
  }

  function Concat(chunks: seq<seq<byte>>): seq<byte> {
    if chunks == [] then [] else chunks[0] + Concat(chunks[1..])
  }

  /** Input chunking is invisible: however the input is split, including into
      empty pieces, the coroutine comes to the same state and leaves the same bits. */
  lemma {:induction false} ChunkingInvisible<S>(width: S -> nat, next: (S, nat) -> S, s: S, left: seq<bit>, chunks: seq<seq<byte>>)
    requires chunks != []
    ensures DriveChunks(width, next, s, left, chunks) == Drive(width, next, s, left + BytesToBits(Concat(chunks)))
    decreases |chunks|
  {
    hide BytesToBits, Drive;
    var x := left + BytesToBits(chunks[0]);
    var (s', l) := Drive(width, next, s, x);
    if |chunks| == 1 {
      assert chunks[1..] == [] && chunks[0] + [] == chunks[0];
      assert DriveChunks(width, next, s', l, chunks[1..]) == (s', l);
    } else {
      var tail := BytesToBits(Concat(chunks[1..]));
      ChunkingInvisible(width, next, s', l, chunks[1..]);
      DriveResumes(width, next, s, x, tail);
      BytesConcat(chunks[0], Concat(chunks[1..]));
      assert x + tail == left + (BytesToBits(chunks[0]) + tail);
    }
  }

  /** Requests the reader can serve. */
  ghost predicate Narrow<S(!new)>(width: S -> nat) { forall s :: width(s) <= 24 }

  /** The reader serves a coroutine exactly as Drive says. */
  method Resume<S(!new)>(reader: Reader, width: S -> nat, next: (S, nat) -> S, s: S) returns (s': S)
    requires reader.Valid() && Narrow(width)
    modifies reader
    ensures reader.Valid() && (s', reader.Pending()) == Drive(width, next, s, old(reader.Pending()))
  {
    hide ToBits, BytesToBits, FromBits;
    s' := s;
    var w := width(s');
    while w != 0
      invariant reader.Valid() && w == width(s') <= 24
      invariant Drive(width, next, s', reader.Pending()) == Drive(width, next, s, old(reader.Pending()))
      decreases |reader.Pending()|
    {
      var r := reader.Get(w);
      if r.None? { return; }
      s' := next(s', r.value);
      w := width(s');
    }
  }

  // ---------- Values written are read back ----------

  /** A value and the number of bits it is written in. */
  datatype Write = Write(n: nat, v: nat)

  ghost predicate Writable(writes: seq<Write>) {
    forall i :: 0 <= i < |writes| ==> 1 <= writes[i].n <= 24 && writes[i].v < Pow2(writes[i].n)
  }

  function WrittenBits(writes: seq<Write>): seq<bit> {
    if writes == [] then [] else ToBits(writes[0].v, writes[0].n) + WrittenBits(writes[1..])
  }

  function Widths(writes: seq<Write>): (ns: seq<nat>)
    ensures |ns| == |writes| && forall i :: 0 <= i < |ns| ==> ns[i] == writes[i].n
  {
    seq(|writes|, i requires 0 <= i < |writes| => writes[i].n)
  }

  function Values(writes: seq<Write>): (vs: seq<nat>)
    ensures |vs| == |writes| && forall i :: 0 <= i < |vs| ==> vs[i] == writes[i].v
  {
    seq(|writes|, i requires 0 <= i < |writes| => writes[i].v)
  }

  /** The widths still to be asked for, and the values read. */
  datatype Reading = Reading(todo: seq<nat>, got: seq<nat>)

  function NextWidth(s: Reading): nat {
    if s.todo == [] || s.todo[0] > 24 then 0 else s.todo[0]
  }

  function Collect(s: Reading, v: nat): Reading {
    if s.todo == [] then s else Reading(s.todo[1..], s.got + [v])
  }

  lemma OneRead(todo: seq<nat>, got: seq<nat>, n: nat, v: nat, more: seq<bit>)
    requires 1 <= n <= 24 && v < Pow2(n)
    ensures Drive(NextWidth, Collect, Reading([n] + todo, got), ToBits(v, n) + more) == Drive(NextWidth, Collect, Reading(todo, got + [v]), more)
  {
    hide ToBits, FromBits, Pow2;
    var bits := ToBits(v, n) + more;
    assert bits[..n] == ToBits(v, n) && bits[n..] == more && ([n] + todo)[1..] == todo;
    FromToBits(v, n);
  }

  lemma FirstWrite(writes: seq<Write>, got: seq<nat>, rest: seq<bit>)
    requires writes != []
    ensures Widths(writes) == [writes[0].n] + Widths(writes[1..])
    ensures got + Values(writes) == got + [writes[0].v] + Values(writes[1..])
    ensures WrittenBits(writes) + rest == ToBits(writes[0].v, writes[0].n) + (WrittenBits(writes[1..]) + rest)
  {
    hide ToBits, WrittenBits;
    FirstBits(writes);
    Regroup(ToBits(writes[0].v, writes[0].n), WrittenBits(writes[1..]), rest);
    hide Widths, Values;
    assert Widths(writes) == [writes[0].n] + Widths(writes[1..]);
    assert Values(writes) == [writes[0].v] + Values(writes[1..]);
    Regroup(got, [writes[0].v], Values(writes[1..]));
  }

  lemma FirstBits(writes: seq<Write>)
    requires writes != []
    ensures WrittenBits(writes) == ToBits(writes[0].v, writes[0].n) + WrittenBits(writes[1..])
  {
  }

  lemma {:induction false} ReadBack(writes: seq<Write>, got: seq<nat>, rest: seq<bit>)
    requires Writable(writes)
    ensures Drive(NextWidth, Collect, Reading(Widths(writes), got), WrittenBits(writes) + rest) == (Reading([], got + Values(writes)), rest)
    decreases |writes|
  {
    hide ToBits, Pow2;
    if writes == [] {
      assert Widths(writes) == [] && got + Values(writes) == got && WrittenBits(writes) + rest == rest;
    } else {
      hide Drive, Widths, Values, WrittenBits;
      FirstWrite(writes, got, rest);
      OneRead(Widths(writes[1..]), got, writes[0].n, writes[0].v, WrittenBits(writes[1..]) + rest);
      ReadBack(writes[1..], got + [writes[0].v], rest);
    }
  }

  lemma WrittenSnoc(writes: seq<Write>, i: nat)
    requires i < |writes|
    ensures WrittenBits(writes[i..]) == ToBits(writes[i].v, writes[i].n) + WrittenBits(writes[i + 1..])
  {
    assert writes[i..][1..] == writes[i + 1..];
  }

  method WriteAll(writes: seq<Write>) returns (bytes: seq<byte>)
    requires Writable(writes)
    ensures BytesToBits(bytes) == WrittenBits(writes) + Padding(|WrittenBits(writes)|)
  {
    hide ToBits, BytesToBits, Pow2, Padding, Writer.Valid, Writer.Written, WrittenBits;
    var w := new Writer();
    assert writes[0..] == writes && [] + WrittenBits(writes) == WrittenBits(writes);
    for i := 0 to |writes|
      invariant w.Valid() && w.Written() + WrittenBits(writes[i..]) == WrittenBits(writes)
    {
      WrittenSnoc(writes, i);
      Regroup(w.Written(), ToBits(writes[i].v, writes[i].n), WrittenBits(writes[i + 1..]));
      w.W(writes[i].n, writes[i].v);
    }
    NothingWritten(writes[|writes|..], w.Written());
    w.Finish();
    bytes := w.zbits;
  }

  lemma NothingWritten(writes: seq<Write>, bits: seq<bit>)
    requires writes == []
    ensures bits + WrittenBits(writes) == bits
  {
  }

  /** Reads values of the given widths, the input coming in chunks: after each,
      as many as it completes. */
  method ReadChunks(chunks: seq<seq<byte>>, widths: seq<nat>) returns (s: Reading)
    ensures s == Drive(NextWidth, Collect, Reading(widths, []), BytesToBits(Concat(chunks))).0
  {
    hide ToBits, BytesToBits, FromBits, Drive, Reader.Valid, Reader.Pending, Collect;
    var start := Reading(widths, []);
    var reader := new Reader([]);
    s := start;
    EmptyBytes();
    DriveNothing(NextWidth, Collect, s);
    for i := 0 to |chunks|
      invariant reader.Valid() && (s, reader.Pending()) == Drive(NextWidth, Collect, start, BytesToBits(Concat(chunks[..i])))
    {
      ConcatSnoc(chunks, i);
      BytesConcat(Concat(chunks[..i]), chunks[i]);
      DriveResumes(NextWidth, Collect, start, BytesToBits(Concat(chunks[..i])), BytesToBits(chunks[i]));
      reader.Feed(chunks[i]);
      s := Resume(reader, NextWidth, Collect, s);
    }
    assert chunks[..|chunks|] == chunks;
  }

  lemma {:induction false} ConcatSnoc(chunks: seq<seq<byte>>, i: nat)
    requires i < |chunks|
    ensures Concat(chunks[..i + 1]) == Concat(chunks[..i]) + chunks[i]
    decreases i
  {
    if i == 0 {
      assert chunks[..1][1..] == [] && chunks[..0] == [];
    } else {
      assert chunks[..i + 1][1..] == chunks[1..][..i] && chunks[..i][1..] == chunks[1..][..i - 1];
      ConcatSnoc(chunks[1..], i - 1);
    }
  }

  /** For every list of values and every way of cutting the written bytes into
      chunks, the reader gets the values back. */
  method WriteThenRead(writes: seq<Write>, cut: seq<byte> -> seq<seq<byte>>) returns (s: Reading)
    requires Writable(writes) && forall bytes :: Concat(cut(bytes)) == bytes
    ensures s == Reading([], Values(writes))
  {
    hide BytesToBits, Padding, WrittenBits, Drive, Writable, Values, Widths;
    var bytes := WriteAll(writes);
    s := ReadChunks(cut(bytes), Widths(writes));
    ReadBack(writes, [], Padding(|WrittenBits(writes)|));
    assert [] + Values(writes) == Values(writes);
  }
}
