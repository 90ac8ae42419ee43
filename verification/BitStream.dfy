/**
 The bit stream: the writer of compress.c (bsW, bsFinishWrite), which carries
 residual bits from one block to the next, and the reader of decompress.c
 (GET_BITS), which can run out of input at any request and resume.
 */
module BitStream {
  import opened Wrappers
  import opened Bits
  import opened BitSeq
  import opened Rotation

  function BytesToBits(s: seq<byte>): (r: seq<bit>)
    ensures |r| == 8 * |s|
  {
    if s == [] then [] else BytesToBits(s[..|s| - 1]) + ToBits(s[|s| - 1], 8)
  }

  lemma {:induction false} BytesConcat(s: seq<byte>, t: seq<byte>)
    ensures BytesToBits(s + t) == BytesToBits(s) + BytesToBits(t)
  {
    if t == [] {
      assert s + t == s;
    } else {
      var t' := t[..|t| - 1];
      BytesConcat(s, t');
      assert (s + t)[..|s + t| - 1] == s + t';
    }
  }

  lemma ByteThenBytes(b: byte, s: seq<byte>)
    ensures BytesToBits([b] + s) == ToBits(b, 8) + BytesToBits(s)
  {
    BytesConcat([b], s);
    assert BytesToBits([b]) == ToBits(b, 8) by { assert [b][..0] == []; assert BytesToBits([]) == []; }
  }

  // ---------- Writing ----------

  const WORD := 0x1_0000_0000

  /** A 32-bit buffer whose top `live` bits are the value `held`. */
  ghost predicate Holds(buff: nat, live: int, held: nat) {
    0 <= live <= 32 && held < Pow2(live) && buff == held * Pow2(32 - live)
  }

  /** Shifting out the top byte. */
  lemma ShiftOut(buff: nat, live: int, held: nat)
    requires Holds(buff, live, held) && live >= 8
    ensures var h, rest := High(held, live - 8), Low(held, live - 8);
            && h < 256 && buff / 0x100_0000 == h
            && Holds(buff * 256 % WORD, live - 8, rest)
            && ToBits(held, live) == ToBits(h, 8) + ToBits(rest, live - 8)
  {
    hide High, Low, ToBits;
    var h, rest, q := High(held, live - 8), Low(held, live - 8), 32 - live;
    HighLow(held, live - 8);
    LowBits(held, 8, live - 8);
    Pow2Values();
    Pow2Add(live - 8, q);
    Pow2Add(8, live - 8);
    Pow2Add(8, q);
    hide Pow2;
    Distribute(h, Pow2(live - 8), rest, Pow2(q));
    TopByte(h, rest, Pow2(live - 8), Pow2(q), buff);
  }

  lemma Distribute(h: nat, p: nat, r: nat, q: nat)
    ensures (h * p + r) * q == h * (p * q) + r * q
  {
  }

  lemma TopByte(h: nat, rest: nat, p: nat, q: nat, buff: nat)
    requires rest < p && p * q == 0x100_0000 && buff == h * 0x100_0000 + rest * q && h * p + rest < 256 * p
    ensures h < 256 && buff / 0x100_0000 == h && buff * 256 % WORD == rest * (256 * q)
  {
    assert h < 256 by {
      if h >= 256 { MulMono(256, h, p); }
    }
    assert rest * q < p * q by { MulLess(rest, p, q); }
    assert rest * (256 * q) == 256 * (rest * q) by { MulAssoc(rest, q); }
    TopByteOf(h, rest * q, buff);
  }

  lemma TopByteOf(h: nat, low: nat, buff: nat)
    requires low < 0x100_0000 && buff == h * 0x100_0000 + low
    ensures buff / 0x100_0000 == h && buff * 256 % WORD == 256 * low
  {
  }

  lemma MulAssoc(r: nat, q: nat)
    ensures r * (256 * q) == 256 * (r * q)
  {
  }

  lemma MulLess(x: nat, y: nat, q: nat)
    requires x < y && (q > 0 || y * q > 0)
    ensures x * q < y * q
  {
  }

  /** Or-ing n more bits in below the live ones. */
  lemma OrIn(buff: nat, live: int, held: nat, n: nat, v: nat)
    requires Holds(buff, live, held) && live + n <= 32 && v < Pow2(n)
    ensures Holds(Or(buff, v * Pow2(32 - live - n)), live + n, held * Pow2(n) + v)
    ensures ToBits(held * Pow2(n) + v, live + n) == ToBits(held, live) + ToBits(v, n)
  {
    hide Pow2, Or, ToBits;
    var k, q := 32 - live, Pow2(32 - live - n);
    ToBitsConcat(held, live, v, n);
    Pow2Add(n, 32 - live - n);
    assert v * q < Pow2(n) * q by { MulLess(v, Pow2(n), q); }
    OrDisjoint(held, k, v * q);
    Distribute(held, Pow2(n), v, q);
  }

  /** The last, partial byte is filled up with zeros. */
  lemma FillByte(buff: nat, live: int, held: nat)
    requires Holds(buff, live, held) && 0 < live < 8
    ensures buff / 0x100_0000 < 256
    ensures ToBits(buff / 0x100_0000, 8) == ToBits(held, live) + ToBits(0, 8 - live)
  {
    var q := Pow2(8 - live);
    Pow2Values();
    Pow2Add(8 - live, 24);
    Pow2Add(live, 8 - live);
    ToBitsConcat(held, live, 0, 8 - live);
    hide Pow2, ToBits;
    FillValue(held, q, buff, Pow2(live));
  }

  lemma FillValue(held: nat, q: nat, buff: nat, p: nat)
    requires held < p && p * q == 256 && buff == held * (q * 0x100_0000)
    ensures buff / 0x100_0000 == held * q < 256
  {
    assert held * (q * 0x100_0000) == (held * q) * 0x100_0000;
    MulLess(held, p, q);
  }

  /** Zero bits that complete a byte after n bits. */
  function Padding(n: nat): (r: seq<bit>) {
    ToBits(0, (8 - n % 8) % 8)
  }

  class Writer {
    var zbits: seq<byte>
    var bsBuff: nat
    var bsLive: int
    ghost var held: nat

    ghost predicate Valid()
      reads this
    {
      Holds(bsBuff, bsLive, held)
    }

    /** Everything written since zbits was last emptied, with the bits that
        were residual then. */
    ghost function Written(): seq<bit>
      reads this
      requires Valid()
    {
      BytesToBits(zbits) + ToBits(held, bsLive)
    }

    /** BZ2_bsInitWrite */
    constructor ()
      ensures Valid() && Written() == [] && zbits == []
    {
      zbits, bsBuff, bsLive, held := [], 0, 0, 0;
    }

    method PutByte()
      requires Valid() && bsLive >= 8
      modifies this
      ensures Valid() && Written() == old(Written()) && bsLive == old(bsLive) - 8
      ensures |zbits| == |old(zbits)| + 1 && zbits[..|zbits| - 1] == old(zbits)
    {
      hide Holds, ToBits, High, Low;
      ShiftOut(bsBuff, bsLive, held);
      ghost var before, h, rest := BytesToBits(zbits), High(held, bsLive - 8), Low(held, bsLive - 8);
      var b: byte := bsBuff / 0x100_0000;
      zbits := zbits + [b];
      assert zbits[..|zbits| - 1] == old(zbits);
      bsBuff := bsBuff * 256 % WORD;
      bsLive := bsLive - 8;
      held := rest;
      assert before + (ToBits(h, 8) + ToBits(rest, bsLive)) == before + ToBits(h, 8) + ToBits(rest, bsLive);
    }

    /** bsNEEDW */
    method FlushBytes()
      requires Valid()
      modifies this
      ensures Valid() && bsLive < 8 && Written() == old(Written())
      ensures old(zbits) <= zbits
    {
      hide Holds, ToBits, BytesToBits;
      assert bsLive <= 32 by { LiveBound(bsBuff, bsLive, held); }
      while bsLive >= 8
        invariant Valid() && Written() == old(Written()) && old(zbits) <= zbits
        decreases bsLive
      {
        PutByte();
      }
    }

    /** numZ = 0: the bytes have been delivered, the residual bits stay. */
    method Restart()
      requires Valid()
      modifies this
      ensures Valid() && zbits == [] && BytesToBits(old(zbits)) + Written() == old(Written())
    {
      hide Holds, ToBits, BytesToBits;
      LiveBound(bsBuff, bsLive, held);
      zbits := [];
      EmptyBytes();
      assert [] + ToBits(held, bsLive) == ToBits(held, bsLive);
    }

    /** bsW appends exactly the n bits of v. */
    method W(n: nat, v: nat)
      requires Valid() && n <= 25 && v < Pow2(n)
      modifies this
      ensures Valid() && Written() == old(Written()) + ToBits(v, n)
      ensures old(zbits) <= zbits
    {
      hide Holds, ToBits, BytesToBits, Or, Pow2;
      FlushBytes();
      LiveBound(bsBuff, bsLive, held);
      OrIn(bsBuff, bsLive, held, n, v);
      ghost var front, h, l := BytesToBits(zbits), held, bsLive;
      bsBuff := Or(bsBuff, v * Pow2(32 - bsLive - n));
      held := held * Pow2(n) + v;
      bsLive := bsLive + n;
      assert front + (ToBits(h, l) + ToBits(v, n)) == front + ToBits(h, l) + ToBits(v, n);
    }

    /** bsFinishWrite pads to a whole number of bytes. */
    method Finish()
      requires Valid()
      modifies this
      ensures BytesToBits(zbits) == old(Written()) + Padding(|old(Written())|)
      ensures old(zbits) <= zbits
    {
      hide Holds, ToBits, BytesToBits, Padding;
      FlushBytes();
      LiveBound(bsBuff, bsLive, held);
      PaddedEnd(zbits, held, bsLive);
      if bsLive > 0 {
        FillByte(bsBuff, bsLive, held);
        var b: byte := bsBuff / 0x100_0000;
        LastByte(zbits, b);
        zbits := zbits + [b];
        bsBuff := bsBuff * 256 % WORD;
        bsLive := bsLive - 8;
      }
    }
  }

  /** What bsFinishWrite has to produce, with live bits residual. */
  lemma PaddedEnd(front: seq<byte>, held: nat, live: nat)
    requires live < 8
    ensures var all := BytesToBits(front) + ToBits(held, live);
            all + Padding(|all|) == if live == 0 then BytesToBits(front) else BytesToBits(front) + (ToBits(held, live) + ToBits(0, 8 - live))
  {
    hide ToBits, BytesToBits;
    NoBits(0);
    NoBits(held);
  }

  lemma NoBits(v: nat)
    ensures ToBits(v, 0) == []
  {
  }

  lemma LastByte(s: seq<byte>, b: byte)
    ensures BytesToBits(s + [b]) == BytesToBits(s) + ToBits(b, 8)
  {
    assert (s + [b])[..|s|] == s;
  }

  lemma LiveBound(buff: nat, live: int, held: nat)
    requires Holds(buff, live, held)
    ensures 0 <= live <= 32 && held < Pow2(live)
  {
  }

  // ---------- Reading ----------

  lemma ShiftIn(buff: nat, live: nat, b: byte)
    requires live + 8 <= 32
    ensures ToBits(Or(buff * 256 % WORD, b), live + 8) == ToBits(buff, live) + ToBits(b, 8)
    ensures Or(buff * 256 % WORD, b) < WORD
  {
    hide Or, ToBits, High, Low;
    Pow2Values();
    var c := buff % 0x100_0000;
    assert buff * 256 % WORD == c * 256;
    hide Pow2;
    OrDisjoint(c, 8, b);
    ToBitsShift(c, live, b, 8);
    LowAgree(buff, live);
  }

  /** Dropping bits above the 24th does not change the low ones. */
  lemma LowAgree(buff: nat, live: nat)
    requires live <= 24
    ensures ToBits(buff % 0x100_0000, live) == ToBits(buff, live)
  {
    hide ToBits;
    Pow2Values();
    LowBits(buff, 24 - live, live);
    LowBits(buff % 0x100_0000, 24 - live, live);
    assert ToBits(buff, 24) == ToBits(buff % 0x100_0000, 24) by { LowBits(buff, 0, 24); }
    ToBitsSuffix(buff, 24 - live, live);
    ToBitsSuffix(buff % 0x100_0000, 24 - live, live);
  }

  lemma TakeTop(buff: nat, live: nat, n: nat)
    requires n <= live
    ensures Low(High(buff, live - n), n) == FromBits(ToBits(buff, live)[..n])
    ensures ToBits(buff, live)[n..] == ToBits(buff, live - n)
  {
    hide ToBits, FromBits, High, Low;
    ToBitsPrefix(buff, n, live - n);
    ToBitsSuffix(buff, n, live - n);
    FromToLow(High(buff, live - n), n);
  }

  class Reader {
    var input: seq<byte>   // next_in[..avail_in]
    var bsBuff: nat
    var bsLive: nat

    ghost predicate Valid()
      reads this
    {
      bsBuff < WORD && bsLive <= 32
    }

    /** The bits supplied but not yet handed out. */
    ghost function Pending(): seq<bit>
      reads this
    {
      ToBits(bsBuff, bsLive) + BytesToBits(input)
    }

    constructor (input: seq<byte>)
      ensures Valid() && Pending() == BytesToBits(input)
    {
      this.input, bsBuff, bsLive := input, 0, 0;
      new;
      NoBits(0);
      assert [] + BytesToBits(input) == BytesToBits(input);
    }

    /** GET_BITS: the value of the next n bits if that many have been supplied;
        otherwise all input is taken in and nothing is lost. */
    method Get(n: nat) returns (r: Option<nat>)
      requires Valid() && 1 <= n <= 24
      modifies this
      ensures Valid()
      ensures match GetBits(old(Pending()), n)
              case Got(v, rest) => r == Some(v) && Pending() == rest
              case NeedMore => r == None && Pending() == old(Pending()) && input == []
              case DataError => false
    {
      hide ToBits, FromBits, BytesToBits, Or, High, Low;
      while bsLive < n
        invariant Valid() && Pending() == old(Pending())
        decreases |input|
      {
        if input == [] {
          EmptyBytes();
          return None;
        }
        ShiftIn(bsBuff, bsLive, input[0]);
        ByteThenBytes(input[0], input[1..]);
        assert input == [input[0]] + input[1..];
        ghost var front, b, back := ToBits(bsBuff, bsLive), ToBits(input[0], 8), BytesToBits(input[1..]);
        bsBuff := Or(bsBuff * 256 % WORD, input[0]);
        bsLive := bsLive + 8;
        input := input[1..];
        assert front + (b + back) == (front + b) + back;
      }
      TakeTop(bsBuff, bsLive, n);
      ghost var all, front, back := Pending(), ToBits(bsBuff, bsLive), BytesToBits(input);
      assert all[..n] == front[..n] && all[n..] == front[n..] + back;
      r := Some(Low(High(bsBuff, bsLive - n), n));
      bsLive := bsLive - n;
    }

    /** The application supplies more input. */
    method Feed(chunk: seq<byte>)
      requires Valid()
      modifies this
      ensures Valid() && Pending() == old(Pending()) + BytesToBits(chunk)
    {
      hide ToBits, BytesToBits;
      BytesConcat(input, chunk);
      ghost var front := ToBits(bsBuff, bsLive);
      assert front + (BytesToBits(input) + BytesToBits(chunk)) == front + BytesToBits(input) + BytesToBits(chunk);
      input := input + chunk;
    }
  }

  lemma EmptyBytes()
    ensures BytesToBits([]) == []
  {
  }
}
