/**
 The Adler-32 checksum of adler32.c, against section 2.2 of RFC 1950: delayed
 reduction, the reductions without division, and combination.
 */
module Adler32 {
  import opened Rotation
  import opened Wrappers

  const BASE := 65521
  const NMAX := 5552

  newtype uint32 = x: int | 0 <= x < 0x1_0000_0000

  // ---------- Reference ----------

  /** The two sums, reduced after every byte. */
  datatype Sums = Sums(a: nat, b: nat)

  function Step(s: Sums, c: byte): Sums {
    var a := (s.a + c) % BASE;
    Sums(a, (s.b + a) % BASE)
  }

  function Checksum(s: Sums, buf: seq<byte>): Sums {
    if buf == [] then s else Step(Checksum(s, buf[..|buf| - 1]), buf[|buf| - 1])
  }

  /** The two sums in one word. */
  function Pack(s: Sums): nat { s.a + 65536 * s.b }

  const START := Sums(1, 0)

  function Adler(buf: seq<byte>): nat { Pack(Checksum(START, buf)) }

  // ---------- Without reduction ----------

  function SumA(a: nat, buf: seq<byte>): nat {
    if buf == [] then a else SumA(a, buf[..|buf| - 1]) + buf[|buf| - 1]
  }

  function SumB(a: nat, b: nat, buf: seq<byte>): nat {
    if buf == [] then b else SumB(a, b, buf[..|buf| - 1]) + SumA(a, buf)
  }

  lemma AddMod(x: int, y: int)
    ensures (x % BASE + y) % BASE == (x + y) % BASE
    ensures (x + y % BASE) % BASE == (x + y) % BASE
  {
  }

  /** Reduction may be delayed as long as one likes. */
  lemma {:induction false} Delayed(a: nat, b: nat, buf: seq<byte>)
    ensures Checksum(Sums(a % BASE, b % BASE), buf) == Sums(SumA(a, buf) % BASE, SumB(a, b, buf) % BASE)
  {
    if buf != [] {
      var t, c := buf[..|buf| - 1], buf[|buf| - 1];
      Delayed(a, b, t);
      AddMod(SumA(a, t), c);
      AddMod(SumB(a, b, t), SumA(a, buf));
      AddMod(SumB(a, b, t) % BASE, SumA(a, buf));
    }
  }

  /** How large the sums get over n bytes from 16-bit values. */
  lemma {:induction false} Bounds(a: nat, b: nat, buf: seq<byte>)
    requires a <= 65535 && b <= 65535
    ensures SumA(a, buf) <= 65535 + 255 * |buf|
    ensures 2 * SumB(a, b, buf) <= 2 * 65535 * (|buf| + 1) + 255 * (|buf| * (|buf| + 1))
  {
    if buf != [] {
      var n := |buf|;
      Bounds(a, b, buf[..n - 1]);
      assert 2 * 65535 * n + 255 * ((n - 1) * n) + 2 * (65535 + 255 * n) == 2 * 65535 * (n + 1) + 255 * (n * (n + 1));
    }
  }

  /** Up to NMAX bytes fit 32 bits, even from halves that are not reduced. */
  lemma FitsNmax(a: nat, b: nat, buf: seq<byte>)
    requires a <= 65535 && b <= 65535 && |buf| <= NMAX
    ensures SumA(a, buf) < 0x1_0000_0000 && SumB(a, b, buf) < 0x1_0000_0000
  {
    Bounds(a, b, buf);
    var n := |buf|;
    ProductMono(n, NMAX);
  }

  /** The bound that defines NMAX. */
  predicate NoOverflow(n: nat) { 255 * (n * (n + 1) / 2) + (n + 1) * (BASE - 1) <= 0xffff_ffff }

  /** NMAX is the largest such n. */
  lemma NmaxIsLargest(n: nat)
    ensures NoOverflow(n) <==> n <= NMAX
  {
    if n <= NMAX { ProductMono(n, NMAX); } else { ProductMono(NMAX + 1, n); }
  }

  lemma ProductMono(m: nat, n: nat)
    requires m <= n
    ensures m * (m + 1) <= n * (n + 1)
  {
  }

  lemma SumSnoc(a: nat, b: nat, buf: seq<byte>, i: nat)
    requires i < |buf|
    ensures SumA(a, buf[..i + 1]) == SumA(a, buf[..i]) + buf[i]
    ensures SumB(a, b, buf[..i + 1]) == SumB(a, b, buf[..i]) + SumA(a, buf[..i + 1])
  {
    assert buf[..i + 1][..i] == buf[..i];
  }

  lemma {:induction false} ChecksumConcat(s: Sums, x: seq<byte>, y: seq<byte>)
    ensures Checksum(s, x + y) == Checksum(Checksum(s, x), y)
  {
    if y == [] {
      assert x + y == x;
    } else {
      ChecksumConcat(s, x, y[..|y| - 1]);
      assert (x + y)[..|x + y| - 1] == x + y[..|y| - 1];
    }
  }

  // ---------- adler32 ----------

  /** DO1, n times: no addition overflows 32 bits. */
  method AddBytes(adler0: uint32, sum0: uint32, buf: seq<byte>) returns (adler: uint32, sum2: uint32)
    requires adler0 <= 65535 && sum0 <= 65535 && |buf| <= NMAX
    ensures adler as nat == SumA(adler0 as nat, buf) && sum2 as nat == SumB(adler0 as nat, sum0 as nat, buf)
  {
    hide SumA, SumB;
    adler, sum2 := adler0, sum0;
    SumNone(adler0 as nat, sum0 as nat, buf);
    for i := 0 to |buf|
      invariant adler as nat == SumA(adler0 as nat, buf[..i]) && sum2 as nat == SumB(adler0 as nat, sum0 as nat, buf[..i])
    {
      SumSnoc(adler0 as nat, sum0 as nat, buf, i);
      FitsNmax(adler0 as nat, sum0 as nat, buf[..i + 1]);
      adler := adler + (buf[i] as uint32);
      sum2 := sum2 + adler;
    }
    assert buf[..|buf|] == buf;
  }

  lemma SumNone(a: nat, b: nat, buf: seq<byte>)
    ensures SumA(a, buf[..0]) == a && SumB(a, b, buf[..0]) == b
  {
  }

  /** The sums of a word. */
  function Halves(adler: uint32): Sums { Sums(adler as nat % 65536, adler as nat / 65536) }

  /** What adler32 should return for a word whose halves need not be reduced. */
  function Expected(adler: uint32, buf: seq<byte>): nat {
    Pack(Checksum(Sums(Halves(adler).a % BASE, Halves(adler).b % BASE), buf))
  }

  /** The short cut for a single byte reduces each sum once. */
  function Short(adler: uint32, c: byte): Sums {
    var a := SubtractOnce(Halves(adler).a + c);
    Sums(a, SubtractOnce(Halves(adler).b + a))
  }

  /** Once is enough for the second sum. */
  predicate ReducedOnce(adler: uint32, c: byte) {
    Halves(adler).b + (Halves(adler).a + c) % BASE < 2 * BASE
  }

  /** adler32: the checksum for every buffer; for a buffer of one byte exactly
      when reducing the second sum once is enough. With or without NO_DIVIDE. */
  method Adler32(adler: uint32, buf: Option<seq<byte>>, noDivide: bool) returns (r: nat)
    ensures r < 0x1_0000_0000
    ensures buf.None? ==> r == Adler([])
    ensures buf.Some? && |buf.value| != 1 ==> r == Expected(adler, buf.value)
    ensures buf.Some? && |buf.value| == 1 ==> r == Pack(Short(adler, buf.value[0]))
    ensures buf.Some? && |buf.value| == 1 ==> (r == Expected(adler, buf.value) <==> ReducedOnce(adler, buf.value[0]))
  {
    hide Checksum;
    var lo, hi := adler % 65536, adler / 65536;
    if buf.Some? && |buf.value| == 1 {
      r := OneByte(lo, hi, buf.value);
    } else if buf.None? {
      r := 1;
      NoBytes(START);
    } else if |buf.value| < 16 {
      r := FewBytes(lo, hi, buf.value, noDivide);
    } else {
      r := ManyBytes(lo, hi, buf.value, noDivide);
    }
  }

  lemma NoBytes(s: Sums)
    ensures Checksum(s, []) == s
  {
  }

  method OneByte(lo: uint32, hi: uint32, buf: seq<byte>) returns (r: nat)
    requires lo <= 65535 && hi <= 65535 && |buf| == 1
    ensures r == Pack(Checksum(Sums(lo as nat % BASE, hi as nat % BASE), buf)) <==> hi as nat + (lo as nat + buf[0]) % BASE < 2 * BASE
    ensures r == SubtractOnce(lo as nat + buf[0]) + 65536 * SubtractOnce(hi as nat + SubtractOnce(lo as nat + buf[0])) < 0x1_0000_0000
  {
    var a, b := lo + (buf[0] as uint32), hi;
    if a >= BASE as uint32 { a := a - BASE as uint32; }
    b := b + a;
    if b >= BASE as uint32 { b := b - BASE as uint32; }
    r := a as nat + 65536 * b as nat;
    hide Checksum;
    SingleByte(lo as nat, hi as nat, buf);
    OneReduction(lo as nat, buf[0]);
    OneReduction(hi as nat, a as nat);
  }

  /** Subtracting BASE once is a reduction exactly below 2 * BASE. */
  lemma OneReduction(x: nat, y: nat)
    requires x <= 65535 && y < BASE
    ensures var z := x + y;
            (if z >= BASE then z - BASE else z) == z % BASE <==> z < 2 * BASE
    ensures y < 256 ==> x + y < 2 * BASE
  {
  }

  lemma SingleByte(a: nat, b: nat, buf: seq<byte>)
    requires |buf| == 1
    ensures Checksum(Sums(a % BASE, b % BASE), buf) == Sums((a + buf[0]) % BASE, (b + (a + buf[0]) % BASE) % BASE)
  {
    Delayed(a, b, buf);
    assert buf[..0] == [];
    AddMod(b, a + buf[0]);
  }

  /** Fewer than sixteen bytes: the second sum stays below 2^28, as MOD28 wants. */
  method FewBytes(lo: uint32, hi: uint32, buf: seq<byte>, noDivide: bool) returns (r: nat)
    requires lo <= 65535 && hi <= 65535 && |buf| < 16
    ensures r < 0x1_0000_0000 && r == Pack(Checksum(Sums(lo as nat % BASE, hi as nat % BASE), buf))
  {
    hide Checksum, SumA, SumB, Mod28;
    var a, b := AddBytes(lo, hi, buf);
    Bounds(lo as nat, hi as nat, buf);
    Delayed(lo as nat, hi as nat, buf);
    if a >= BASE as uint32 { a := a - BASE as uint32; }
    Mod28Correct(b as nat);
    var m: nat := if noDivide then Mod28(b as nat) else (b % BASE as uint32) as nat;
    r := a as nat + 65536 * m;
  }

  method ManyBytes(lo: uint32, hi: uint32, buf: seq<byte>, noDivide: bool) returns (r: nat)
    requires lo <= 65535 && hi <= 65535 && |buf| >= 16
    ensures r < 0x1_0000_0000 && r == Pack(Checksum(Sums(lo as nat % BASE, hi as nat % BASE), buf))
  {
    hide Checksum, SumA, SumB;
    ghost var start := Sums(lo as nat % BASE, hi as nat % BASE);
    var a, b, i := lo, hi, 0;
    NoBytes(start);
    while |buf| - i >= NMAX
      invariant 0 <= i <= |buf| && a <= 65535 && b <= 65535 && (i > 0 ==> a as nat < BASE && b as nat < BASE)
      invariant Sums(a as nat % BASE, b as nat % BASE) == Checksum(start, buf[..i])
      decreases |buf| - i
    {
      a, b := Reduced(a, b, buf, i, NMAX, noDivide, start);
      i := i + NMAX;
    }
    if |buf| - i > 0 {
      a, b := Reduced(a, b, buf, i, |buf| - i, noDivide, start);
      i := |buf|;
    }
    assert buf[..i] == buf;
    r := a as nat + 65536 * b as nat;
  }

  /** A stretch of at most NMAX bytes and one reduction. */
  method Reduced(a0: uint32, b0: uint32, buf: seq<byte>, i: nat, n: nat, noDivide: bool, ghost start: Sums) returns (a: uint32, b: uint32)
    requires i + n <= |buf| && n <= NMAX && a0 <= 65535 && b0 <= 65535
    requires Sums(a0 as nat % BASE, b0 as nat % BASE) == Checksum(start, buf[..i])
    ensures a as nat < BASE && b as nat < BASE && Sums(a as nat, b as nat) == Checksum(start, buf[..i + n])
  {
    hide Checksum, SumA, SumB, Mod;
    a, b := AddBytes(a0, b0, buf[i..i + n]);
    Delayed(a0 as nat, b0 as nat, buf[i..i + n]);
    ChecksumConcat(start, buf[..i], buf[i..i + n]);
    assert buf[..i + n] == buf[..i] + buf[i..i + n];
    if noDivide {
      ModCorrect(a as nat);
      ModCorrect(b as nat);
      a, b := Mod(a as nat) as uint32, Mod(b as nat) as uint32;
    } else {
      a, b := a % BASE as uint32, b % BASE as uint32;
    }
  }

  /** A word whose second half is not reduced, for which a single byte is summed
      wrongly; what adler32 then returns is of that kind again. */
  lemma SingleByteFails()
    ensures !ReducedOnce(0xffff_ffef, 1) && Pack(Short(0xffff_ffef, 1)) == 0xfffe_fff0 && !ReducedOnce(0xfffe_fff0, 0)
  {
  }

  /** From a word with reduced halves the short cut is right, and the halves of
      the checksum are reduced again. */
  lemma ReducedStays(adler: uint32, buf: seq<byte>)
    requires IsReduced(Halves(adler))
    ensures forall c: byte :: ReducedOnce(adler, c)
    ensures Expected(adler, buf) == Pack(Checksum(Halves(adler), buf)) < 0x1_0000_0000
    ensures IsReduced(Halves(Expected(adler, buf) as uint32)) && Halves(Expected(adler, buf) as uint32) == Checksum(Halves(adler), buf)
  {
    hide Checksum;
    ChecksumReduced(Halves(adler), buf);
    PackHalves(Checksum(Halves(adler), buf));
  }

  function Joined(bufs: seq<seq<byte>>): seq<byte> {
    if bufs == [] then [] else Joined(bufs[..|bufs| - 1]) + bufs[|bufs| - 1]
  }

  /** A checksum kept up over buffers of any lengths, single bytes among them:
      from the word 1 it is the checksum of all the bytes. */
  method Chain(bufs: seq<seq<byte>>, noDivide: bool) returns (r: nat)
    ensures r == Adler(Joined(bufs))
  {
    hide Checksum, Halves, Short;
    var adler: uint32 := 1;
    FromOne();
    NoBytes(START);
    for i := 0 to |bufs|
      invariant IsReduced(Halves(adler)) && Halves(adler) == Checksum(START, Joined(bufs[..i])) && adler as nat == Pack(Halves(adler))
    {
      ReducedStays(adler, bufs[i]);
      assert bufs[..i + 1][..i] == bufs[..i];
      ChecksumConcat(START, Joined(bufs[..i]), bufs[i]);
      var w := Adler32(adler, Some(bufs[i]), noDivide);
      adler := w as uint32;
    }
    assert bufs[..|bufs|] == bufs;
    r := adler as nat;
  }

  lemma FromOne()
    ensures Halves(1) == START && IsReduced(START) && Pack(START) == 1
  {
  }

  // ---------- Reductions without division ----------

  /** 65536 is 15 modulo BASE. */
  function Chop(a: nat): nat { a % 65536 + (16 * (a / 65536) - a / 65536) }

  function SubtractOnce(a: nat): nat { if a >= BASE then a - BASE else a }

  function Mod28(a: nat): nat { SubtractOnce(Chop(a)) }

  function Mod(a: nat): nat { Mod28(Chop(a)) }

  /** 2^32 is 225 modulo BASE. */
  function Mod63(a: nat): nat {
    var tmp := a / 0x1_0000_0000;
    var a1 := a % 0x1_0000_0000 + (256 * tmp - 32 * tmp + tmp);
    SubtractOnce(Chop(Chop(a1)))
  }

  lemma ChopKeeps(a: nat)
    ensures Chop(a) % BASE == a % BASE
    ensures Chop(a) == a % 65536 + 15 * (a / 65536)
  {
    var q := a / 65536;
    Multiple(a % 65536 + 15 * q, q);
  }

  lemma Multiple(x: int, k: int)
    ensures (x + BASE * k) % BASE == x % BASE
  {
  }

  lemma OnceIsEnough(a: nat)
    ensures SubtractOnce(a) == a % BASE <==> a < 2 * BASE
  {
  }

  lemma Mod28Correct(a: nat)
    requires a < 0x1000_0000
    ensures Mod28(a) == a % BASE
  {
    ChopKeeps(a);
    OnceIsEnough(Chop(a));
  }

  lemma ModCorrect(a: nat)
    requires a < 0x1_0000_0000
    ensures Mod(a) == a % BASE
  {
    ChopKeeps(a);
    Mod28Correct(Chop(a));
  }

  lemma Mod63Correct(a: nat)
    requires a < 0x8000_0000_0000_0000
    ensures Mod63(a) == a % BASE
  {
    var tmp := a / 0x1_0000_0000;
    var a1 := a % 0x1_0000_0000 + 225 * tmp;
    assert a == a1 + BASE * (65551 * tmp);
    Multiple(a1, 65551 * tmp);
    hide Chop;
    ChopKeeps(a1);
    ChopKeeps(Chop(a1));
    OnceIsEnough(Chop(Chop(a1)));
  }

  // ---------- Combination ----------

  /** adler32_combine_; len2 is a 64-bit signed length. */
  function CombineWords(adler1: uint32, adler2: uint32, len2: int): nat
    requires len2 < 0x8000_0000_0000_0000
  {
    hide Mod, Mod63;
    if len2 < 0 then 0xffff_ffff
    else
      Mod63Correct(len2);
      var rem := Mod63(len2);
      var sum1 := Halves(adler1).a;
      var sum2 := Mod(rem * sum1);
      var low := sum1 + (Halves(adler2).a + BASE - 1);
      var high := sum2 + (Halves(adler1).b + Halves(adler2).b + BASE - rem);
      Pack(Sums(SubtractOnce(SubtractOnce(low)), SubtractOnce(if high >= 2 * BASE then high - 2 * BASE else high)))
  }

  /** The sums over a second buffer from the sums over the first: the first sum
      enters every one of its bytes. */
  lemma {:induction false} Shifted(a: nat, b: nat, buf: seq<byte>)
    ensures SumA(a, buf) + 1 == a + SumA(1, buf)
    ensures SumB(a, b, buf) + |buf| == b + |buf| * a + SumB(1, 0, buf)
  {
    if buf != [] {
      var n := |buf|;
      Shifted(a, b, buf[..n - 1]);
      assert n * a == (n - 1) * a + a;
    }
  }

  predicate IsReduced(s: Sums) { s.a < BASE && s.b < BASE }

  lemma {:induction false} ChecksumReduced(s: Sums, buf: seq<byte>)
    requires IsReduced(s)
    ensures IsReduced(Checksum(s, buf))
  {
    if buf != [] { ChecksumReduced(s, buf[..|buf| - 1]); }
  }

  /** The two sums from their delayed forms. */
  lemma DelayedFrom(s: Sums, y: seq<byte>)
    requires IsReduced(s)
    ensures Checksum(s, y) == Sums(SumA(s.a, y) % BASE, SumB(s.a, s.b, y) % BASE)
  {
    hide SumA, SumB, Checksum;
    assert s == Sums(s.a % BASE, s.b % BASE);
    Delayed(s.a, s.b, y);
  }

  lemma CombineLow(s: Sums, y: seq<byte>)
    requires IsReduced(s)
    ensures Checksum(s, y).a == LowHalf(s, Checksum(START, y))
  {
    hide SumA, SumB, Checksum;
    DelayedFrom(s, y);
    DelayedFrom(START, y);
    Shifted(s.a, s.b, y);
    LowSum(SumA(s.a, y), s.a, SumA(1, y));
  }

  /** The combined sums. */
  function LowHalf(s: Sums, t: Sums): nat { (s.a + t.a + BASE - 1) % BASE }

  function HighHalf(s: Sums, t: Sums, n: nat): nat {
    ((n % BASE * s.a) % BASE + s.b + t.b + BASE - n % BASE) % BASE
  }

  lemma CombineHigh(s: Sums, y: seq<byte>)
    requires IsReduced(s)
    ensures Checksum(s, y).b == HighHalf(s, Checksum(START, y), |y|)
  {
    hide SumA, SumB, Checksum;
    DelayedFrom(s, y);
    DelayedFrom(START, y);
    Shifted(s.a, s.b, y);
    MulMod(|y|, s.a);
    HighSum(SumB(s.a, s.b, y), |y|, s.a, s.b, SumB(1, 0, y));
  }

  lemma ProductBound(x: nat, y: nat)
    requires x < BASE && y <= 65535
    ensures x * y < 0x1_0000_0000
  {
    assert x * y <= BASE * y;
  }

  lemma MulMod(n: nat, a: nat)
    ensures (n % BASE * a) % BASE == (n * a) % BASE
  {
    var q := n / BASE;
    assert n * a == n % BASE * a + BASE * (q * a) by { assert n == n % BASE + BASE * q; }
    Multiple(n % BASE * a, q * a);
  }

  lemma LowSum(total: nat, a: nat, t: nat)
    requires total + 1 == a + t
    ensures total % BASE == (a + t % BASE + BASE - 1) % BASE
  {
    Multiple(total, 1);
    AddMod(a + BASE - 1, t);
  }

  lemma HighSum(total: nat, n: nat, a: nat, b: nat, t: nat)
    requires total + n == b + n * a + t && (n % BASE * a) % BASE == (n * a) % BASE
    ensures total % BASE == ((n % BASE * a) % BASE + b + t % BASE + BASE - n % BASE) % BASE
  {
    var p := n * a;
    var k := p / BASE + t / BASE - n / BASE - 1;
    assert total == (p % BASE + b + t % BASE + BASE - n % BASE) + BASE * k;
    Multiple(p % BASE + b + t % BASE + BASE - n % BASE, k);
  }

  lemma PackHalves(s: Sums)
    requires IsReduced(s)
    ensures Pack(s) < 0x1_0000_0000 && Halves(Pack(s) as uint32) == s
  {
  }

  /** What the two subtractions of adler32_combine_ for each sum suffice for: the
      sums before them, for a first word s and a second checksum t over n bytes. */
  predicate InReach(s: Sums, t: Sums, n: nat) {
    && s.a + t.a + BASE - 1 < 3 * BASE
    && (n % BASE * s.a) % BASE + s.b + t.b + BASE - n % BASE < 4 * BASE
  }

  /** The straight-line arithmetic of adler32_combine_, for any two words. */
  lemma CombineValue(adler1: uint32, adler2: uint32, n: nat)
    requires IsReduced(Halves(adler2)) && n < 0x8000_0000_0000_0000
    ensures var s, t := Halves(adler1), Halves(adler2);
            CombineWords(adler1, adler2, n) == Pack(Sums(LowHalf(s, t), HighHalf(s, t, n))) <==> InReach(s, t, n)
  {
    hide Halves, SubtractOnce, Pack, CombineWords;
    var s, t := Halves(adler1), Halves(adler2);
    var rem, low := n % BASE, s.a + t.a + BASE - 1;
    var high := (rem * s.a) % BASE + s.b + t.b + BASE - rem;
    HalvesBound(adler1);
    CombineSums(adler1, adler2, n);
    TwiceIsEnough(low);
    FourIsEnough(high);
    PackInjective(SubtractOnce(SubtractOnce(low)), SubtractOnce(if high >= 2 * BASE then high - 2 * BASE else high), low % BASE, high % BASE);
  }

  lemma CombineSums(adler1: uint32, adler2: uint32, n: nat)
    requires n < 0x8000_0000_0000_0000
    ensures var s, t, rem := Halves(adler1), Halves(adler2), n % BASE;
            var low, high := s.a + t.a + BASE - 1, (rem * s.a) % BASE + s.b + t.b + BASE - rem;
            CombineWords(adler1, adler2, n) == Pack(Sums(SubtractOnce(SubtractOnce(low)), SubtractOnce(if high >= 2 * BASE then high - 2 * BASE else high)))
  {
    hide Mod, Mod63, Halves, SubtractOnce, Pack;
    HalvesBound(adler1);
    Mod63Correct(n);
    ProductBound(n % BASE, Halves(adler1).a);
    ModCorrect(n % BASE * Halves(adler1).a);
  }

  lemma PackInjective(a: nat, b: nat, a': nat, b': nat)
    requires a < 65536 && a' < 65536
    ensures Pack(Sums(a, b)) == Pack(Sums(a', b')) <==> a == a' && b == b'
  {
  }

  lemma HalvesBound(adler: uint32)
    ensures Halves(adler).a <= 65535 && Halves(adler).b <= 65535
  {
  }

  lemma TwiceIsEnough(low: nat)
    requires low < 196576
    ensures SubtractOnce(SubtractOnce(low)) < 65536
    ensures SubtractOnce(SubtractOnce(low)) == low % BASE <==> low < 3 * BASE
  {
  }

  lemma FourIsEnough(high: nat)
    requires high < 262098
    ensures var r := SubtractOnce(if high >= 2 * BASE then high - 2 * BASE else high);
            r < 65536 && (r == high % BASE <==> high < 4 * BASE)
  {
  }

  /** The sums of a word whose halves need not be reduced. */
  lemma Unreduced(s: Sums, t: Sums, n: nat)
    ensures LowHalf(Sums(s.a % BASE, s.b % BASE), t) == LowHalf(s, t)
    ensures HighHalf(Sums(s.a % BASE, s.b % BASE), t, n) == HighHalf(s, t, n)
  {
    var rem := n % BASE;
    AddMod(s.a, t.a + BASE - 1);
    ProductMod(rem, s.a);
    AddMod(s.b, (rem * s.a) % BASE + t.b + BASE - rem);
  }

  lemma ProductMod(rem: nat, a: nat)
    ensures (rem * (a % BASE)) % BASE == (rem * a) % BASE
  {
    var q := a / BASE;
    assert rem * a == rem * (a % BASE) + BASE * (q * rem) by { assert a == a % BASE + BASE * q; }
    Multiple(rem * (a % BASE), q * rem);
  }

  /** Combining a word with the checksum of a second buffer gives what adler32
      should return for that word and buffer, exactly when the sums are in reach:
      for every word and every length up to 2^63 - 1. */
  lemma CombineContinues(adler1: uint32, y: seq<byte>)
    requires |y| < 0x8000_0000_0000_0000
    ensures Adler(y) < 0x1_0000_0000
    ensures CombineWords(adler1, Adler(y) as uint32, |y|) == Expected(adler1, y) <==> InReach(Halves(adler1), Checksum(START, y), |y|)
  {
    hide Checksum, CombineWords, LowHalf, HighHalf, Halves, InReach;
    var s, t := Halves(adler1), Checksum(START, y);
    var reduced := Sums(s.a % BASE, s.b % BASE);
    ChecksumReduced(START, y);
    PackHalves(t);
    CombineValue(adler1, Adler(y) as uint32, |y|);
    Unreduced(s, t, |y|);
    CombineLow(reduced, y);
    CombineHigh(reduced, y);
  }

  function Full(n: nat): (r: seq<byte>)
    ensures |r| == n
  {
    if n == 0 then [] else Full(n - 1) + [255]
  }

  lemma {:induction false} SumFull(n: nat)
    ensures SumA(1, Full(n)) == 1 + 255 * n
  {
    if n > 0 {
      SumFull(n - 1);
      assert Full(n)[..n - 1] == Full(n - 1);
    }
  }

  lemma TooFar(t: Sums, n: nat)
    requires t.a == BASE - 1
    ensures !InReach(Halves(0xffff), t, n)
  {
  }

  lemma LargestSum()
    ensures SumA(1, Full(256) + [0xef]) == BASE - 1
  {
    hide Full;
    SumFull(256);
    assert (Full(256) + [0xef])[..256] == Full(256);
  }

  /** A first word and a buffer out of reach: 256 bytes 0xff and one 0xef. */
  lemma CombineFails()
    ensures var y := Full(256) + [0xef];
            Adler(y) < 0x1_0000_0000 && CombineWords(0xffff, Adler(y) as uint32, 257) != Expected(0xffff, y)
  {
    hide Full, CombineWords, Checksum, SumA, SumB, InReach, Halves, Expected;
    var y := Full(256) + [0xef];
    LargestSum();
    DelayedFrom(START, y);
    TooFar(Checksum(START, y), |y|);
    CombineContinues(0xffff, y);
  }

  /** Words with reduced halves are in reach of every checksum. */
  lemma ReducedInReach(s: Sums, t: Sums, n: nat)
    requires IsReduced(s) && IsReduced(t)
    ensures InReach(s, t, n)
  {
  }

  /** Combining the checksums of two buffers is checksumming their concatenation,
      from every start with reduced sums and for every length up to 2^63 - 1. */
  lemma CombineConcatenates(s: Sums, x: seq<byte>, y: seq<byte>)
    requires IsReduced(s) && |y| < 0x8000_0000_0000_0000
    ensures Pack(Checksum(s, x)) < 0x1_0000_0000 && Adler(y) < 0x1_0000_0000
    ensures CombineWords(Pack(Checksum(s, x)) as uint32, Adler(y) as uint32, |y|) == Pack(Checksum(s, x + y))
  {
    hide Checksum, CombineWords, Halves, InReach, Pack;
    var sx := Checksum(s, x);
    ChecksumReduced(s, x);
    ChecksumReduced(START, y);
    PackHalves(sx);
    CombineContinues(Pack(sx) as uint32, y);
    ReducedInReach(sx, Checksum(START, y), |y|);
    ReducedStays(Pack(sx) as uint32, y);
    ChecksumConcat(s, x, y);
  }
}
