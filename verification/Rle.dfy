/**
 The first-stage run-length code of bzlib.c: a run of four equal bytes is
 followed by a count of further ones. The specification, and the encoder
 (ADD_CHAR_TO_BLOCK, add_pair_to_block, flush_RL), which carries a pending run
 from call to call and from block to block.
 */
module Rle {
  import opened Permutation
  import opened Rotation
  import opened Mtf
  import BlockCrc

  /** A decoder's state: cnt copies of ch seen in a row; after four a count
      follows. */
  datatype State = State(ch: byte, cnt: nat)

  const START := State(0, 0)

  function Next(st: State, c: byte): State {
    if st.cnt == 4 then State(st.ch, 0)
    else if st.cnt > 0 && c == st.ch then State(c, st.cnt + 1)
    else State(c, 1)
  }

  /** The output for one byte of the code. */
  function Emit(st: State, c: byte): seq<byte> {
    if st.cnt == 4 then Repeat(st.ch, c) else [c]
  }

  function Expand(s: seq<byte>, st: State): seq<byte> {
    if s == [] then [] else Emit(st, s[0]) + Expand(s[1..], Next(st, s[0]))
  }

  function After(s: seq<byte>, st: State): State {
    if s == [] then st else After(s[1..], Next(st, s[0]))
  }

  /** The code does not break off before a count. */
  predicate Whole(s: seq<byte>) { After(s, START).cnt != 4 }

  lemma {:induction false} ExpandConcat(s: seq<byte>, t: seq<byte>, st: State)
    ensures Expand(s + t, st) == Expand(s, st) + Expand(t, After(s, st))
    ensures After(s + t, st) == After(t, After(s, st))
    decreases |s|
  {
    if s == [] {
      assert s + t == t;
    } else {
      assert (s + t)[1..] == s[1..] + t && (s + t)[0] == s[0];
      ExpandConcat(s[1..], t, Next(st, s[0]));
    }
  }

  // ---------- Encoding a run ----------

  /** The code of len copies of ch. */
  function Pair(ch: byte, len: nat): (r: seq<byte>)
    requires 1 <= len <= 255
    ensures |r| == if len < 4 then len else 5
  {
    if len < 4 then Repeat(ch, len) else Repeat(ch, 4) + [len - 4]
  }

  lemma SpellPair(s: seq<byte>, ch: byte, len: nat)
    requires 1 <= len <= 255
    ensures len == 1 ==> s + Pair(ch, len) == s + [ch]
    ensures len == 2 ==> s + Pair(ch, len) == s + [ch] + [ch]
    ensures len == 3 ==> s + Pair(ch, len) == s + [ch] + [ch] + [ch]
    ensures len >= 4 ==> s + Pair(ch, len) == s + [ch] + [ch] + [ch] + [ch] + [len - 4]
  {
  }

  /** A run of another byte, or any run after a count, can be appended. */
  predicate Ready(st: State, ch: byte) { st.cnt == 0 || (st.cnt < 4 && st.ch != ch) }

  lemma {:induction false} ExpandSame(ch: byte, k: nat, n: nat)
    requires 1 <= k && k + n <= 4
    ensures Expand(Repeat(ch, n), State(ch, k)) == Repeat(ch, n)
    ensures After(Repeat(ch, n), State(ch, k)) == State(ch, k + n)
    decreases n
  {
    if n > 0 {
      ExpandSame(ch, k + 1, n - 1);
      assert Repeat(ch, n)[1..] == Repeat(ch, n - 1);
    }
  }

  lemma ExpandFresh(ch: byte, n: nat, st: State)
    requires 1 <= n <= 4 && Ready(st, ch)
    ensures Expand(Repeat(ch, n), st) == Repeat(ch, n) && After(Repeat(ch, n), st) == State(ch, n)
  {
    hide Expand, After;
    ExpandSame(ch, 1, n - 1);
    ExpandCons(ch, Repeat(ch, n - 1), st);
    assert Repeat(ch, n) == [ch] + Repeat(ch, n - 1);
  }

  lemma ExpandCons(c: byte, s: seq<byte>, st: State)
    ensures Expand([c] + s, st) == Emit(st, c) + Expand(s, Next(st, c))
    ensures After([c] + s, st) == After(s, Next(st, c))
  {
    assert ([c] + s)[1..] == s;
  }

  lemma RepeatSum<T>(x: T, m: nat, n: nat)
    ensures Repeat(x, m) + Repeat(x, n) == Repeat(x, m + n)
  {
  }

  /** A pair expands to its run and leaves the decoder ready for any other byte,
      and after a count for the same byte too. */
  lemma ExpandPair(ch: byte, len: nat, st: State)
    requires 1 <= len <= 255 && Ready(st, ch)
    ensures Expand(Pair(ch, len), st) == Repeat(ch, len)
    ensures After(Pair(ch, len), st) == State(ch, if len < 4 then len else 0)
  {
    hide Expand, After, Repeat;
    if len < 4 {
      ExpandFresh(ch, len, st);
      assert Pair(ch, len) == Repeat(ch, len);
    } else {
      var count: byte := len - 4;
      ExpandFresh(ch, 4, st);
      ExpandConcat(Repeat(ch, 4), [count], st);
      ExpandCount(ch, count);
      RepeatSum(ch, 4, count);
      assert Pair(ch, len) == Repeat(ch, 4) + [count];
    }
  }

  lemma ExpandCount(ch: byte, count: byte)
    ensures Expand([count], State(ch, 4)) == Repeat(ch, count) && After([count], State(ch, 4)) == State(ch, 0)
  {
    assert [count][1..] == [];
    assert Expand([], State(ch, 0)) == [];
    assert Repeat(ch, count) + [] == Repeat(ch, count);
  }

  /** Appending a pair to a block. */
  lemma AppendPair(s: seq<byte>, ch: byte, len: nat)
    requires 1 <= len <= 255 && Ready(After(s, START), ch)
    ensures Expand(s + Pair(ch, len), START) == Expand(s, START) + Repeat(ch, len)
    ensures After(s + Pair(ch, len), START) == State(ch, if len < 4 then len else 0)
  {
    ExpandPair(ch, len, After(s, START));
    ExpandConcat(s, Pair(ch, len), START);
  }

  // ---------- Decoding a run ----------

  /** Bytes seen so far do not matter to a byte that differs from them. */
  lemma ForgetState(t: seq<byte>, st: State)
    requires st.cnt == 0 || (st.cnt < 4 && (t == [] || t[0] != st.ch))
    ensures Expand(t, st) == Expand(t, START)
    ensures After(t, st).cnt == 4 <==> After(t, START).cnt == 4
  {
  }

  /** One to three equal bytes and something else: no count follows. */
  lemma ShortRun(c: byte, k: nat, t: seq<byte>)
    requires 1 <= k <= 3 && (t == [] || t[0] != c)
    ensures Expand(Repeat(c, k) + t, START) == Repeat(c, k) + Expand(t, START)
    ensures Whole(Repeat(c, k) + t) <==> Whole(t)
  {
    hide Expand, After, Repeat;
    ExpandFresh(c, k, START);
    ExpandConcat(Repeat(c, k), t, START);
    ForgetState(t, State(c, k));
  }

  /** Four equal bytes and their count. */
  lemma LongRun(c: byte, count: byte, t: seq<byte>)
    ensures Expand(Repeat(c, 4) + [count] + t, START) == Repeat(c, 4 + count) + Expand(t, START)
    ensures Whole(Repeat(c, 4) + [count] + t) <==> Whole(t)
  {
    hide Expand, After, Repeat;
    ExpandFresh(c, 4, START);
    ExpandConcat(Repeat(c, 4), [count], START);
    ExpandCount(c, count);
    RepeatSum(c, 4, count);
    ExpandConcat(Repeat(c, 4) + [count], t, START);
    ForgetState(t, State(c, 0));
  }

  /** Four equal bytes and nothing else break off. */
  lemma BrokenRun(c: byte)
    ensures !Whole(Repeat(c, 4))
  {
    ExpandFresh(c, 4, START);
  }

  // ---------- The encoder ----------

  const NONE := 256
  const RUN_LIMIT := 255

  /** Room behind nblockMAX for the pairs added after the last check. */
  const SLACK := 19

  class Encoder {
    const block: array<byte>     // arr2
    const inUse: array<bool>
    const nblockMAX: nat         // 100000 * blockSize100k - 19
    var nblock: nat
    var stateInCh: nat
    var stateInLen: nat
    var blockCRC: bv32

    ghost predicate Valid()
      reads this, block, inUse
    {
      && inUse.Length == 256 && block.Length == nblockMAX + SLACK && nblock <= block.Length
      && PendingOk(stateInCh, stateInLen, After(block[..nblock], START))
      && (forall c :: c in block[..nblock] ==> inUse[c])
      && blockCRC == BlockCrc.UpdateAll(BlockCrc.INITIAL, Coded())
    }

    /** The input bytes coded in the block. */
    ghost function Coded(): seq<byte>
      requires nblock <= block.Length
      reads this, block
    {
      Expand(block[..nblock], START)
    }

    /** The input bytes of the run not yet coded. */
    ghost function Pending(): seq<byte>
      reads this
    {
      PendingRun(stateInCh, stateInLen)
    }

    /** Without a pending run there is no telling what the block ends in, so
        more input may come only if it is empty. */
    ghost predicate Accepting()
      reads this
    {
      stateInCh == NONE ==> nblock == 0
    }

    /** BZ2_bzCompressInit: init_RL and the first prepare_new_block. */
    constructor (nblockMAX: nat)
      ensures Valid() && this.nblockMAX == nblockMAX && nblock == 0
      ensures Coded() == [] && Pending() == [] && fresh(block) && fresh(inUse)
    {
      this.nblockMAX := nblockMAX;
      block := new byte[nblockMAX + SLACK];
      inUse := new bool[256](_ => false);
      nblock := 0;
      stateInCh, stateInLen := NONE, 0;
      blockCRC := BlockCrc.INITIAL;
      new;
      assert block[..0] == [];
    }

    /** prepare_new_block; the pending run is carried over. */
    method PrepareNewBlock()
      requires Valid()
      modifies this, inUse
      ensures Valid() && nblock == 0 && Coded() == [] && Pending() == old(Pending())
      ensures stateInCh == old(stateInCh) && stateInLen == old(stateInLen)
    {
      hide Repeat, BlockCrc.Update;
      nblock := 0;
      blockCRC := BlockCrc.INITIAL;
      assert block[..0] == [];
      ClearInUse();
    }

    method ClearInUse()
      modifies inUse
    {
      for i := 0 to inUse.Length {
        inUse[i] := false;
      }
    }

    /** isempty_RL */
    predicate IsEmpty()
      reads this
    {
      !(stateInCh < NONE && stateInLen > 0)
    }

    /** block[nblock] = c; nblock++ */
    method Put(c: byte)
      requires nblock < block.Length
      modifies this`nblock, block
      ensures nblock == old(nblock) + 1 <= block.Length && block[..nblock] == old(block[..nblock]) + [c]
    {
      block[nblock] := c;
      nblock := nblock + 1;
    }

    method UpdateCrc(ch: byte, len: nat, ghost done: seq<byte>)
      requires blockCRC == BlockCrc.UpdateAll(BlockCrc.INITIAL, done)
      modifies this`blockCRC
      ensures blockCRC == BlockCrc.UpdateAll(BlockCrc.INITIAL, done + Repeat(ch, len))
    {
      hide BlockCrc.UpdateAll, BlockCrc.Update;
      assert done + Repeat(ch, 0) == done;
      for i := 0 to len
        invariant blockCRC == BlockCrc.UpdateAll(BlockCrc.INITIAL, done + Repeat(ch, i))
      {
        BlockCrc.UpdateOne(BlockCrc.INITIAL, done + Repeat(ch, i), ch);
        assert done + Repeat(ch, i) + [ch] == done + Repeat(ch, i + 1);
        blockCRC := BlockCrc.Update(blockCRC, ch);
      }
    }

    method PutPair(ch: byte, len: nat)
      requires 1 <= len <= RUN_LIMIT && nblock + 5 <= block.Length
      modifies this`nblock, block
      ensures nblock == old(nblock) + (if len < 4 then len else 5)
      ensures nblock <= block.Length && block[..nblock] == old(block[..nblock]) + Pair(ch, len)
    {
      hide Repeat;
      Put(ch);
      if len >= 2 { Put(ch); }
      if len >= 3 { Put(ch); }
      if len >= 4 {
        Put(ch);
        Put(len - 4);
      }
      SpellPair(old(block[..nblock]), ch, len);
    }

    /** add_pair_to_block */
    method AddPair()
      requires Valid() && stateInCh < NONE && nblock + 5 <= block.Length
      modifies this`nblock, this`blockCRC, block, inUse
      ensures nblock <= old(nblock) + 5 <= block.Length
      ensures inUse.Length == 256 && forall c :: c in block[..nblock] ==> inUse[c]
      ensures After(block[..nblock], START) == State(stateInCh, if stateInLen < 4 then stateInLen else 0)
      ensures Coded() == old(Coded()) + Pending() && blockCRC == BlockCrc.UpdateAll(BlockCrc.INITIAL, Coded())
    {
      hide Expand, After, BlockCrc.UpdateAll, BlockCrc.Update;
      ghost var before := block[..nblock];
      AppendPair(before, stateInCh, stateInLen);
      UpdateCrc(stateInCh, stateInLen, Coded());
      inUse[stateInCh] := true;
      if stateInLen >= 4 { inUse[stateInLen - 4] := true; }
      PutPair(stateInCh, stateInLen);
      assert forall c :: c in block[..nblock] ==> inUse[c] by {
        assert block[..nblock] == before + Pair(stateInCh, stateInLen);
        assert forall c :: c in Pair(stateInCh, stateInLen) ==> c == stateInCh || (stateInLen >= 4 && c == stateInLen - 4);
      }
    }

    /** flush_RL */
    method Flush()
      requires Valid() && nblock + 5 <= block.Length
      modifies this, block, inUse
      ensures Valid() && nblock <= old(nblock) + 5 && IsEmpty() && Pending() == []
      ensures Coded() == old(Coded() + Pending())
    {
      hide Expand, After, BlockCrc.UpdateAll, BlockCrc.Update, Repeat;
      if stateInCh < NONE {
        AddPair();
      } else {
        assert Coded() + [] == Coded();
      }
      stateInCh, stateInLen := NONE, 0;
    }

    /** The fast track of ADD_CHAR_TO_BLOCK: a run of one ends. */
    method AddSingle(c: byte)
      requires Valid() && nblock < nblockMAX && c != stateInCh && stateInLen == 1
      modifies this, block, inUse
      ensures Valid() && nblock < nblockMAX + 5 && !IsEmpty()
      ensures Coded() + Pending() == old(Coded() + Pending()) + [c]
    {
      hide Expand, After, BlockCrc.UpdateAll, BlockCrc.Update;
      ghost var before := block[..nblock];
      var ch: byte := stateInCh;
      AppendPair(before, ch, 1);
      assert Pair(ch, 1) == [ch] == Repeat(ch, 1);
      BlockCrc.UpdateOne(BlockCrc.INITIAL, Coded(), ch);
      blockCRC := BlockCrc.Update(blockCRC, ch);
      inUse[ch] := true;
      Put(ch);
      stateInCh := c;
      assert block[..nblock] == before + [ch];
    }

    /** ADD_CHAR_TO_BLOCK */
    method AddChar(c: byte)
      requires Valid() && nblock < nblockMAX && Accepting()
      modifies this, block, inUse
      ensures Valid() && nblock < nblockMAX + 5 && !IsEmpty()
      ensures Coded() + Pending() == old(Coded() + Pending()) + [c]
    {
      hide Expand, After, BlockCrc.UpdateAll, BlockCrc.Update;
      NothingCoded(block[..nblock]);
      if c != stateInCh && stateInLen == 1 {
        AddSingle(c);
      } else if c != stateInCh || stateInLen == RUN_LIMIT {
        if stateInCh < NONE { AddPair(); }
        stateInCh, stateInLen := c, 1;
      } else {
        stateInLen := stateInLen + 1;
      }
    }
  }

  lemma NothingCoded(s: seq<byte>)
    ensures s == [] ==> After(s, START) == START && Expand(s, START) == []
  {
  }

  ghost predicate PendingOk(ch: nat, len: nat, st: State) {
    && ch <= NONE && st.cnt < 4
    && (if ch == NONE then len == 0 else 1 <= len <= RUN_LIMIT && Ready(st, ch))
  }

  ghost function PendingRun(ch: nat, len: nat): seq<byte> {
    if ch < NONE then Repeat(ch, len) else []
  }
}
