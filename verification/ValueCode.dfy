/**
 Reading and decoding the MTF values of a block value by value, as
 BZ2_decompress in decompress.c interleaves the two: GET_MTF_VAL, then what the
 decoder makes of the value.
 */
module ValueCode {
  import opened Wrappers
  import opened BitSeq
  import opened Mtf
  import opened ValueDecoder
  import opened BlockFormat
  import Huffman

  /** Reads value number k and goes on; running out of selectors is an error. */
  ghost function Syms(bits: seq<bit>, tables: seq<seq<nat>>, sels: seq<nat>, eob: nat, k: nat, d: Decoding, room: nat): (r: Read<seq<nat>>)
    requires AnnouncedTables(tables, sels)
    ensures r.Got? ==> |r.rest| <= |bits|
    decreases GROUP_SIZE * |sels| - k, 1
  {
    if k / GROUP_SIZE >= |sels| then DataError
    else
      var (v, left) :- Huffman.ReadSymbol(Huffman.TablesOf(tables[sels[k / GROUP_SIZE]]), bits);
      AfterSymbol(v, left, tables, sels, eob, k, d, room)
  }

  ghost function AfterSymbol(v: nat, left: seq<bit>, tables: seq<seq<nat>>, sels: seq<nat>, eob: nat, k: nat, d: Decoding, room: nat): (r: Read<seq<nat>>)
    requires AnnouncedTables(tables, sels) && k / GROUP_SIZE < |sels|
    ensures r.Got? ==> |r.rest| <= |left|
    decreases GROUP_SIZE * |sels| - k, 0
  {
    match Take(d, v, eob, room)
    case Refused => DataError
    case Finished(syms) => Got(syms, left)
    case More(d') => Syms(left, tables, sels, eob, k + 1, d', room)
  }

  /** If all values can be read, reading and decoding them one by one is reading
      them all and decoding the list. */
  lemma {:induction false} SymsDecode(bits: seq<bit>, tables: seq<seq<nat>>, sels: seq<nat>, eob: nat, k: nat, d: Decoding, room: nat)
    requires AnnouncedTables(tables, sels) && ParseValues(bits, tables, sels, eob, k).Got?
    ensures var vals := ParseValues(bits, tables, sels, eob, k);
            TakeAll(d, vals.value, eob, room).Some? ==>
              Syms(bits, tables, sels, eob, k, d, room) == Got(TakeAll(d, vals.value, eob, room).value, vals.rest)
    decreases GROUP_SIZE * |sels| - k
  {
    hide Huffman.ReadSymbol, Huffman.TablesOf, Take;
    assert Huffman.Announced(tables[sels[k / GROUP_SIZE]]);
    var sym := Huffman.ReadSymbol(Huffman.TablesOf(tables[sels[k / GROUP_SIZE]]), bits);
    var vals := ParseValues(bits, tables, sels, eob, k).value;
    if sym.value != eob && Take(d, sym.value, eob, room).More? {
      assert vals[1..] == ParseValues(sym.rest, tables, sels, eob, k + 1).value;
      SymsDecode(sym.rest, tables, sels, eob, k + 1, Take(d, sym.value, eob, room).d, room);
    }
  }

  // ---------- Staying in the alphabet ----------

  /** Only the first n entries of the list have been touched. */
  ghost predicate Within(d: Decoding, n: nat, room: nat) {
    1 <= n <= |d.list| && AtMost(d.list[..n], n - 1) && AtMost(d.done, n - 1) && |d.done| <= room
  }

  lemma TakeWithin(d: Decoding, sym: nat, n: nat, room: nat)
    requires Within(d, n, room) && sym <= n + 1
    ensures match Take(d, sym, n + 1, room)
            case Refused => true
            case Finished(syms) => AtMost(syms, n - 1) && |syms| <= room
            case More(d') => Within(d', n, room) && |d'.list| == |d.list|
  {
    if d.run.InRun? && sym > RUNB && |d.done| + d.run.es + 1 <= room {
      assert d.list[..n][0] <= n - 1;
      PlainWithin(Decoding(d.list, d.done + Repeat(d.list[0], d.run.es + 1), Between), sym, n, room);
    } else if d.run.Between? {
      PlainWithin(d, sym, n, room);
    }
  }

  lemma PlainWithin(d: Decoding, sym: nat, n: nat, room: nat)
    requires Within(d, n, room) && sym <= n + 1
    ensures match TakePlain(d, sym, n + 1, room)
            case Refused => true
            case Finished(syms) => AtMost(syms, n - 1) && |syms| <= room
            case More(d') => Within(d', n, room) && |d'.list| == |d.list|
  {
    if RUNB < sym <= n {
      var j := sym - 1;
      assert d.list[..n][j] <= n - 1;
      var front := Front(d.list, j);
      forall i | 0 <= i < n ensures front[..n][i] <= n - 1 {
        assert front[i] == if i == 0 then d.list[j] else if i <= j then d.list[i - 1] else d.list[i];
        assert d.list[..n][if i == 0 then j else if i <= j then i - 1 else i] <= n - 1;
      }
    }
  }

  lemma StartWithin(n: nat, room: nat)
    requires 1 <= n <= 256
    ensures Within(StartDecoding(), n, room)
  {
  }

  /** Symbols put out belong to the alphabet, so stale entries of the byte map
      are never read, and there are no more than there is room for. */
  lemma {:induction false} SymsWithin(bits: seq<bit>, tables: seq<seq<nat>>, sels: seq<nat>, n: nat, k: nat, d: Decoding, room: nat)
    requires AnnouncedTables(tables, sels) && AllLengths(tables, n + 2) && Within(d, n, room)
    ensures var r := Syms(bits, tables, sels, n + 1, k, d, room); r.Got? ==> AtMost(r.value, n - 1) && |r.value| <= room
    decreases GROUP_SIZE * |sels| - k
  {
    hide Huffman.ReadSymbol, Huffman.TablesOf, Take, Within, AtMost;
    if k / GROUP_SIZE < |sels| {
      var lens := tables[sels[k / GROUP_SIZE]];
      assert Huffman.Announced(lens);
      var t := Huffman.TablesOf(lens);
      Huffman.ReadSymbolSound(t, t, lens, bits);
      var sym := Huffman.ReadSymbol(t, bits);
      if sym.Got? {
        TakeWithin(d, sym.value, n, room);
        var taken := Take(d, sym.value, n + 1, room);
        if taken.More? { SymsWithin(sym.rest, tables, sels, n, k + 1, taken.d, room); }
      }
    }
  }

  lemma {:induction false} SymsSurvive(bits: seq<bit>, tables: seq<seq<nat>>, sels: seq<nat>, eob: nat, k: nat, d: Decoding, room: nat, more: seq<bit>)
    requires AnnouncedTables(tables, sels)
    ensures Survives(Syms(bits, tables, sels, eob, k, d, room), Syms(bits + more, tables, sels, eob, k, d, room), more)
    decreases GROUP_SIZE * |sels| - k
  {
    hide Huffman.ReadSymbol, Huffman.TablesOf, Take;
    if k / GROUP_SIZE < |sels| {
      var lens := tables[sels[k / GROUP_SIZE]];
      assert Huffman.Announced(lens);
      Huffman.SymbolSurvives(Huffman.TablesOf(lens), bits, more);
      var sym := Huffman.ReadSymbol(Huffman.TablesOf(lens), bits);
      if sym.Got? && Take(d, sym.value, eob, room).More? {
        SymsSurvive(sym.rest, tables, sels, eob, k + 1, Take(d, sym.value, eob, room).d, room, more);
      }
    }
  }
}
