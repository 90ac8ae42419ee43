/**
 Bit sequences, most significant bit first: the abstract content of the
 compressed stream.
 */
module BitSeq {
  import opened Bits

  type bit = b: nat | b <= 1

  /** The n low bits of v. */
  function ToBits(v: nat, n: nat): (r: seq<bit>)
    ensures |r| == n
  {
    if n == 0 then [] else ToBits(v / 2, n - 1) + [v % 2]
  }

  function FromBits(s: seq<bit>): nat {
    if s == [] then 0 else 2 * FromBits(s[..|s| - 1]) + s[|s| - 1]
  }

  lemma {:induction false} FromBitsBound(s: seq<bit>)
    ensures FromBits(s) < Pow2(|s|)
  {
    if s != [] { FromBitsBound(s[..|s| - 1]); }
  }

  lemma {:induction false} FromToBits(v: nat, n: nat)
    requires v < Pow2(n)
    ensures FromBits(ToBits(v, n)) == v
  {
    if n > 0 {
      FromToBits(v / 2, n - 1);
      assert ToBits(v, n)[..n - 1] == ToBits(v / 2, n - 1);
    }
  }

  lemma {:induction false} ToFromBits(s: seq<bit>)
    ensures ToBits(FromBits(s), |s|) == s
  {
    if s != [] {
      var t := s[..|s| - 1];
      ToFromBits(t);
      assert FromBits(s) / 2 == FromBits(t) && FromBits(s) % 2 == s[|s| - 1];
      assert s == t + [s[|s| - 1]];
    }
  }

  /** Concatenation is shifting and adding. */
  lemma {:induction false} FromBitsConcat(s: seq<bit>, t: seq<bit>)
    ensures FromBits(s + t) == FromBits(s) * Pow2(|t|) + FromBits(t)
  {
    if t == [] {
      assert s + t == s;
    } else {
      var t' := t[..|t| - 1];
      FromBitsConcat(s, t');
      assert (s + t)[..|s + t| - 1] == s + t';
      MulPow2(FromBits(s), |t|);
    }
  }

  lemma ToBitsConcat(v: nat, n: nat, w: nat, m: nat)
    requires v < Pow2(n) && w < Pow2(m)
    ensures v * Pow2(m) + w < Pow2(n + m)
    ensures ToBits(v * Pow2(m) + w, n + m) == ToBits(v, n) + ToBits(w, m)
  {
    hide Pow2, FromBits, ToBits;
    var s := ToBits(v, n) + ToBits(w, m);
    FromBitsConcat(ToBits(v, n), ToBits(w, m));
    FromToBits(v, n);
    FromToBits(w, m);
    ToFromBits(s);
    FromBitsBound(s);
  }

  lemma {:induction false} ToBitsShift(v: nat, n: nat, b: nat, m: nat)
    requires b < Pow2(m)
    ensures ToBits(v * Pow2(m) + b, n + m) == ToBits(v, n) + ToBits(b, m)
  {
    if m > 0 {
      var x := v * Pow2(m) + b;
      MulPow2(v, m);
      assert x / 2 == v * Pow2(m - 1) + b / 2 && x % 2 == b % 2;
      ToBitsShift(v, n, b / 2, m - 1);
    }
  }

  /** Only the n low bits matter. */
  lemma LowBits(v: nat, k: nat, n: nat)
    ensures ToBits(v, k + n) == ToBits(High(v, n), k) + ToBits(Low(v, n), n)
    ensures ToBits(v, n) == ToBits(Low(v, n), n)
  {
    hide Pow2, ToBits, High, Low;
    HighLow(v, n);
    ToBitsShift(High(v, n), k, Low(v, n), n);
    ToBitsShift(High(v, n), 0, Low(v, n), n);
    assert ToBits(High(v, n), 0) == [];
  }

  lemma ToBitsPrefix(v: nat, k: nat, n: nat)
    ensures ToBits(v, k + n)[..k] == ToBits(High(v, n), k)
  {
    hide Pow2, ToBits, High, Low;
    LowBits(v, k, n);
  }

  lemma FromToLow(v: nat, n: nat)
    ensures FromBits(ToBits(v, n)) == Low(v, n)
  {
    hide Pow2, ToBits, FromBits, High, Low;
    HighLow(v, n);
    LowBits(v, 0, n);
    FromToBits(Low(v, n), n);
  }

  lemma ToBitsSuffix(v: nat, k: nat, n: nat)
    ensures ToBits(v, k + n)[k..] == ToBits(v, n)
  {
    hide Pow2, ToBits, High, Low;
    LowBits(v, k, n);
  }

  /** What reading from a bit stream can come to: a value and the bits left, a
      wish for more input, a report of corrupt data, or a store past the end of
      an array of fixed length, after which nothing can be said. */
  datatype Read<+T> = Got(value: T, rest: seq<bit>) | NeedMore | DataError | Overrun {
    predicate IsFailure() { !Got? }
    function PropagateFailure<U>(): Read<U>
      requires !Got?
    {
      if NeedMore? then NeedMore else if DataError? then DataError else Overrun
    }
    function Extract(): (T, seq<bit>) requires Got? { (value, rest) }
  }

  /** Values read earlier in front of those read later. */
  function Prepend<T>(xs: seq<T>, r: Read<seq<T>>): Read<seq<T>> {
    var (ys, rest) :- r;
    Got(xs + ys, rest)
  }

  lemma PrependTwice<T>(xs: seq<T>, ys: seq<T>, r: Read<seq<T>>)
    ensures Prepend(xs, Prepend(ys, r)) == Prepend(xs + ys, r)
  {
    if r.Got? { assert xs + (ys + r.value) == xs + ys + r.value; }
  }

  lemma PrependNone<T>(r: Read<seq<T>>)
    ensures Prepend([], r) == r
  {
    if r.Got? { assert [] + r.value == r.value; }
  }

  /** What more input can make of a result: a value and an error stay, only a
      wish for more input may turn into something else. */
  ghost predicate Survives<T>(r: Read<T>, r': Read<T>, more: seq<bit>) {
    match r
    case Got(v, rest) => r' == Got(v, rest + more)
    case NeedMore => true
    case _ => r' == r
  }

  lemma BitsSurvive(bits: seq<bit>, n: nat, more: seq<bit>)
    ensures Survives(GetBits(bits, n), GetBits(bits + more, n), more)
  {
    if |bits| >= n { assert (bits + more)[..n] == bits[..n] && (bits + more)[n..] == bits[n..] + more; }
  }

  /** GET_BITS: n bits as a value. */
  function GetBits(bits: seq<bit>, n: nat): (r: Read<nat>) {
    if |bits| < n then NeedMore else Got(FromBits(bits[..n]), bits[n..])
  }

  lemma GetWritten(v: nat, n: nat, rest: seq<bit>)
    requires v < Pow2(n)
    ensures GetBits(ToBits(v, n) + rest, n) == Got(v, rest)
  {
    var s := ToBits(v, n) + rest;
    assert s[..n] == ToBits(v, n) && s[n..] == rest;
    FromToBits(v, n);
  }
}
