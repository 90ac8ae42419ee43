/**
 The layout of a block after its sort: mapping table, selectors, code lengths
 and coded MTF values (sendMTFValues in compress.c, BZ2_decompress in
 decompress.c). Each part has its bits, its parser, and a proof that parsing
 undoes writing whatever follows.
 */
module BlockFormat {
  import opened Bits
  import opened BitSeq
  import opened Mtf
  import Huffman

  // ---------- Mapping table ----------

  function BitOf(b: bool): bit { if b then 1 else 0 }

  /** One bit per flag. */
  function FlagBits(flags: seq<bool>): (r: seq<bit>)
    ensures |r| == |flags|
  {
    if flags == [] then [] else [BitOf(flags[0])] + FlagBits(flags[1..])
  }

  function ParseFlags(bits: seq<bit>, n: nat): (r: Read<seq<bool>>)
    ensures r.Got? ==> |r.value| == n && |r.rest| + n == |bits|
    decreases n
  {
    if n == 0 then Got([], bits)
    else if bits == [] then NeedMore
    else
      var (rest, left) :- ParseFlags(bits[1..], n - 1);
      Got([bits[0] == 1] + rest, left)
  }

  lemma {:induction false} FlagsParse(flags: seq<bool>, rest: seq<bit>)
    ensures ParseFlags(FlagBits(flags) + rest, |flags|) == Got(flags, rest)
  {
    if flags == [] {
      assert FlagBits(flags) + rest == rest;
    } else {
      FlagsParse(flags[1..], rest);
      var bits := FlagBits(flags) + rest;
      assert bits[1..] == FlagBits(flags[1..]) + rest && bits[0] == BitOf(flags[0]);
      assert [flags[0]] + flags[1..] == flags;
    }
  }

  /** Some byte of row i (sixteen bytes) is in use. */
  predicate RowUsed(inUse: seq<bool>, i: nat)
    requires |inUse| == 256 && i < 16
  {
    exists j :: 16 * i <= j < 16 * i + 16 && inUse[j]
  }

  function RowsUsed(inUse: seq<bool>): (r: seq<bool>)
    requires |inUse| == 256
    ensures |r| == 16 && forall i :: 0 <= i < 16 ==> r[i] == RowUsed(inUse, i)
  {
    seq(16, i requires 0 <= i < 16 => RowUsed(inUse, i))
  }

  /** The rows in use, from row i on. */
  function RowBits(inUse: seq<bool>, i: nat): seq<bit>
    requires |inUse| == 256 && i <= 16
    decreases 16 - i
  {
    if i == 16 then []
    else (if RowUsed(inUse, i) then FlagBits(inUse[16 * i..16 * i + 16]) else []) + RowBits(inUse, i + 1)
  }

  function MappingBits(inUse: seq<bool>): seq<bit>
    requires |inUse| == 256
  {
    FlagBits(RowsUsed(inUse)) + RowBits(inUse, 0)
  }

  function NoFlags(): (r: seq<bool>)
    ensures |r| == 16 && forall i :: 0 <= i < 16 ==> !r[i]
  {
    seq(16, _ => false)
  }

  function ParseRows(bits: seq<bit>, used: seq<bool>): (r: Read<seq<bool>>)
    ensures r.Got? ==> |r.value| == 16 * |used| && |r.rest| <= |bits|
    decreases |used|
  {
    if used == [] then Got([], bits)
    else if used[0] then
      var (row, left) :- ParseFlags(bits, 16);
      var (rest, left') :- ParseRows(left, used[1..]);
      Got(row + rest, left')
    else
      var (rest, left) :- ParseRows(bits, used[1..]);
      Got(NoFlags() + rest, left)
  }

  function ParseMapping(bits: seq<bit>): (r: Read<seq<bool>>)
    ensures r.Got? ==> |r.value| == 256 && |r.rest| < |bits|
  {
    var (used, left) :- ParseFlags(bits, 16);
    ParseRows(left, used)
  }

  lemma {:induction false} RowsParse(inUse: seq<bool>, i: nat, rest: seq<bit>)
    requires |inUse| == 256 && i <= 16
    ensures ParseRows(RowBits(inUse, i) + rest, RowsUsed(inUse)[i..]) == Got(inUse[16 * i..], rest)
    decreases 16 - i
  {
    hide FlagBits, ParseFlags, RowUsed;
    var used := RowsUsed(inUse)[i..];
    if i == 16 {
      assert RowBits(inUse, i) + rest == rest && inUse[256..] == [] && used == [];
    } else {
      RowsParse(inUse, i + 1, rest);
      assert used[1..] == RowsUsed(inUse)[i + 1..];
      var row := inUse[16 * i..16 * i + 16];
      assert inUse[16 * i..] == row + inUse[16 * (i + 1)..];
      if RowUsed(inUse, i) {
        FlagsParse(row, RowBits(inUse, i + 1) + rest);
        assert RowBits(inUse, i) + rest == FlagBits(row) + (RowBits(inUse, i + 1) + rest);
      } else {
        UnusedRow(inUse, i);
        assert RowBits(inUse, i) == RowBits(inUse, i + 1);
      }
    }
  }

  lemma UnusedRow(inUse: seq<bool>, i: nat)
    requires |inUse| == 256 && i < 16 && !RowUsed(inUse, i)
    ensures inUse[16 * i..16 * i + 16] == NoFlags()
  {
  }

  lemma MappingParses(inUse: seq<bool>, rest: seq<bit>)
    requires |inUse| == 256
    ensures ParseMapping(MappingBits(inUse) + rest) == Got(inUse, rest)
  {
    hide FlagBits, ParseFlags, RowUsed, RowBits, ParseRows;
    var used := RowsUsed(inUse);
    FlagsParse(used, RowBits(inUse, 0) + rest);
    RowsParse(inUse, 0, rest);
    assert used[0..] == used && inUse[0..] == inUse;
    assert MappingBits(inUse) + rest == FlagBits(used) + (RowBits(inUse, 0) + rest);
  }

  // ---------- Selectors ----------

  /** Move-to-front indices of the selectors. */
  function SelectorMtf(pos: seq<nat>, sels: seq<nat>): (r: seq<nat>)
    requires forall s :: s in sels ==> s in pos
    ensures |r| == |sels|
    decreases |sels|
  {
    if sels == [] then []
    else
      var j := IndexOf(pos, sels[0]);
      FrontKeeps(pos, j);
      [j] + SelectorMtf(Front(pos, j), sels[1..])
  }

  function UndoSelectorMtf(pos: seq<nat>, js: seq<nat>): (r: seq<nat>)
    requires forall i :: 0 <= i < |js| ==> js[i] < |pos|
    ensures |r| == |js|
    decreases |js|
  {
    if js == [] then [] else [pos[js[0]]] + UndoSelectorMtf(Front(pos, js[0]), js[1..])
  }

  lemma {:induction false} SelectorRoundTrip(pos: seq<nat>, sels: seq<nat>)
    requires forall s :: s in sels ==> s in pos
    ensures forall i :: 0 <= i < |sels| ==> SelectorMtf(pos, sels)[i] < |pos|
    ensures UndoSelectorMtf(pos, SelectorMtf(pos, sels)) == sels
    decreases |sels|
  {
    if sels != [] {
      var j := IndexOf(pos, sels[0]);
      FrontKeeps(pos, j);
      SelectorRoundTrip(Front(pos, j), sels[1..]);
      assert SelectorMtf(pos, sels)[1..] == SelectorMtf(Front(pos, j), sels[1..]);
    }
  }

  /** j one bits and a zero bit. */
  function Unary(j: nat): (r: seq<bit>)
    ensures |r| == j + 1
  {
    if j == 0 then [0] else [1] + Unary(j - 1)
  }

  function UnaryBits(js: seq<nat>): seq<bit> {
    if js == [] then [] else Unary(js[0]) + UnaryBits(js[1..])
  }

  /** Reads one unary value; reaching nGroups is an error. */
  function ParseUnary(bits: seq<bit>, j: nat, nGroups: nat): (r: Read<nat>)
    ensures r.Got? ==> |r.rest| < |bits| && r.value < (if j < nGroups then nGroups else j + 1)
    ensures !r.Overrun?
    decreases |bits|
  {
    if bits == [] then NeedMore
    else if bits[0] == 0 then Got(j, bits[1..])
    else if j + 1 >= nGroups then DataError
    else ParseUnary(bits[1..], j + 1, nGroups)
  }

  function ParseUnaries(bits: seq<bit>, n: nat, nGroups: nat): (r: Read<seq<nat>>)
    requires nGroups >= 1
    ensures r.Got? ==> |r.value| == n && |r.rest| <= |bits| && forall i :: 0 <= i < n ==> r.value[i] < nGroups
    ensures !r.Overrun?
    decreases n
  {
    if n == 0 then Got([], bits)
    else
      var (j, left) :- ParseUnary(bits, 0, nGroups);
      var (rest, left') :- ParseUnaries(left, n - 1, nGroups);
      Got([j] + rest, left')
  }

  /** The length of the decoder's selector arrays. */
  const MAX_SELECTORS := 18002

  /** Values i to n - 1, each stored in an array of MAX_SELECTORS as it is read;
      the announced n is not compared with that length. */
  function StoreUnaries(bits: seq<bit>, i: nat, n: nat, nGroups: nat): (r: Read<seq<nat>>)
    requires nGroups >= 1 && i <= n
    ensures r.Got? ==> |r.value| == n - i && |r.rest| <= |bits| && forall k :: 0 <= k < n - i ==> r.value[k] < nGroups
    ensures r.Got? && i <= MAX_SELECTORS ==> n <= MAX_SELECTORS
    decreases n - i
  {
    if i == n then Got([], bits)
    else
      var (j, left) :- ParseUnary(bits, 0, nGroups);
      if i >= MAX_SELECTORS then Overrun
      else
        var (rest, left') :- StoreUnaries(left, i + 1, n, nGroups);
        Got([j] + rest, left')
  }

  /** The stores stay inside the array exactly when no more than MAX_SELECTORS
      selectors are announced, or reading stops before one more has been read;
      then they do not change what is read. */
  lemma {:induction false} StoresInBounds(bits: seq<bit>, i: nat, n: nat, nGroups: nat)
    requires nGroups >= 1 && i <= n && i <= MAX_SELECTORS
    ensures !StoreUnaries(bits, i, n, nGroups).Overrun? <==>
              n <= MAX_SELECTORS || !ParseUnaries(bits, MAX_SELECTORS + 1 - i, nGroups).Got?
    ensures n <= MAX_SELECTORS ==> StoreUnaries(bits, i, n, nGroups) == ParseUnaries(bits, n - i, nGroups)
    decreases n - i
  {
    hide ParseUnary;
    var first := ParseUnary(bits, 0, nGroups);
    if i < n && first.Got? {
      if i < MAX_SELECTORS {
        StoresInBounds(first.rest, i + 1, n, nGroups);
      } else {
        assert ParseUnaries(first.rest, 0, nGroups).Got?;
      }
    }
  }

  lemma {:induction false} UnaryParses(k: nat, j: nat, nGroups: nat, rest: seq<bit>)
    requires j + k < nGroups
    ensures ParseUnary(Unary(k) + rest, j, nGroups) == Got(j + k, rest)
  {
    if k == 0 {
      assert (Unary(0) + rest)[1..] == rest;
    } else {
      UnaryParses(k - 1, j + 1, nGroups, rest);
      var bits := Unary(k) + rest;
      assert bits[1..] == Unary(k - 1) + rest && bits[0] == 1;
    }
  }

  lemma {:induction false} UnariesParse(js: seq<nat>, nGroups: nat, rest: seq<bit>)
    requires nGroups >= 1 && forall i :: 0 <= i < |js| ==> js[i] < nGroups
    ensures ParseUnaries(UnaryBits(js) + rest, |js|, nGroups) == Got(js, rest)
  {
    hide Unary, ParseUnary;
    if js == [] {
      assert UnaryBits(js) + rest == rest;
    } else {
      UnariesParse(js[1..], nGroups, rest);
      UnaryParses(js[0], 0, nGroups, UnaryBits(js[1..]) + rest);
      assert UnaryBits(js) + rest == Unary(js[0]) + (UnaryBits(js[1..]) + rest);
      assert [js[0]] + js[1..] == js;
    }
  }

  // ---------- Code lengths ----------

  /** Single steps from length c to length t: 10 up, 11 down. */
  function Steps(c: nat, t: nat): seq<bit>
    decreases if c < t then t - c else c - t
  {
    if c < t then [1, 0] + Steps(c + 1, t)
    else if c > t then [1, 1] + Steps(c - 1, t)
    else []
  }

  function DeltaBits(curr: nat, lens: seq<nat>): seq<bit>
    decreases |lens|
  {
    if lens == [] then [] else Steps(curr, lens[0]) + [0] + DeltaBits(lens[0], lens[1..])
  }

  /** One coding table. */
  function TableBits(lens: seq<nat>): seq<bit>
    requires lens != []
  {
    ToBits(lens[0], 5) + DeltaBits(lens[0], lens)
  }

  function ParseDelta(bits: seq<bit>, curr: int, n: nat): (r: Read<seq<nat>>)
    ensures r.Got? ==> |r.value| == n && |r.rest| <= |bits|
    ensures r.Got? ==> forall i :: 0 <= i < n ==> 1 <= r.value[i] <= Huffman.LONGEST_CODE
    decreases n, |bits|
  {
    if n == 0 then Got([], bits)
    else if curr < 1 || curr > Huffman.LONGEST_CODE then DataError
    else if bits == [] then NeedMore
    else if bits[0] == 0 then
      var (rest, left) :- ParseDelta(bits[1..], curr, n - 1);
      Got([curr] + rest, left)
    else if |bits| < 2 then NeedMore
    else ParseDelta(bits[2..], if bits[1] == 0 then curr + 1 else curr - 1, n)
  }

  function ParseTable(bits: seq<bit>, alphaSize: nat): (r: Read<seq<nat>>)
    ensures r.Got? ==> |r.value| == alphaSize && |r.rest| <= |bits|
    ensures r.Got? ==> forall i :: 0 <= i < alphaSize ==> 1 <= r.value[i] <= Huffman.LONGEST_CODE
  {
    var (curr, left) :- GetBits(bits, 5);
    ParseDelta(left, curr, alphaSize)
  }

  /** Every table has a length the decoder accepts for every symbol. */
  ghost predicate AllLengths(tables: seq<seq<nat>>, alphaSize: nat) {
    forall t :: 0 <= t < |tables| ==> Lengths(tables[t], alphaSize)
  }

  ghost predicate Lengths(lens: seq<nat>, alphaSize: nat) {
    |lens| == alphaSize && forall i :: 0 <= i < |lens| ==> 1 <= lens[i] <= Huffman.LONGEST_CODE
  }

  function ParseTables(bits: seq<bit>, alphaSize: nat, n: nat): (r: Read<seq<seq<nat>>>)
    ensures r.Got? ==> |r.value| == n && |r.rest| <= |bits|
    ensures r.Got? ==> AllLengths(r.value, alphaSize)
    decreases n
  {
    if n == 0 then Got([], bits)
    else
      var (lens, left) :- ParseTable(bits, alphaSize);
      var (rest, left') :- ParseTables(left, alphaSize, n - 1);
      Got([lens] + rest, left')
  }

  function TablesBits(tables: seq<seq<nat>>): seq<bit>
    requires forall t :: 0 <= t < |tables| ==> tables[t] != []
  {
    if tables == [] then [] else TableBits(tables[0]) + TablesBits(tables[1..])
  }

  lemma StepParses(c: nat, down: bit, n: nat, more: seq<bit>)
    requires 1 <= c <= Huffman.LONGEST_CODE && n > 0
    ensures ParseDelta([1, down] + more, c, n) == ParseDelta(more, if down == 0 then c + 1 else c - 1, n)
  {
    var bits := [1, down] + more;
    assert bits[2..] == more && bits[0] == 1 && bits[1] == down;
  }

  lemma {:induction false} StepsParse(c: nat, t: nat, n: nat, more: seq<bit>)
    requires 1 <= c <= Huffman.LONGEST_CODE && 1 <= t <= Huffman.LONGEST_CODE && n > 0
    ensures ParseDelta(Steps(c, t) + more, c, n) == ParseDelta(more, t, n)
    decreases if c < t then t - c else c - t
  {
    hide ParseDelta;
    if c < t {
      StepsParse(c + 1, t, n, more);
      StepParses(c, 0, n, Steps(c + 1, t) + more);
      assert Steps(c, t) + more == [1, 0] + (Steps(c + 1, t) + more);
    } else if c > t {
      StepsParse(c - 1, t, n, more);
      StepParses(c, 1, n, Steps(c - 1, t) + more);
      assert Steps(c, t) + more == [1, 1] + (Steps(c - 1, t) + more);
    } else {
      assert Steps(c, t) + more == more;
    }
  }

  lemma StopParses(c: nat, n: nat, more: seq<bit>, lens: seq<nat>, rest: seq<bit>)
    requires 1 <= c <= Huffman.LONGEST_CODE && n > 0 && ParseDelta(more, c, n - 1) == Got(lens, rest)
    ensures ParseDelta([0] + more, c, n) == Got([c] + lens, rest)
  {
    var bits := [0] + more;
    assert bits[1..] == more && bits[0] == 0;
  }

  lemma {:induction false} DeltaParses(curr: nat, lens: seq<nat>, rest: seq<bit>)
    requires 1 <= curr <= Huffman.LONGEST_CODE
    requires forall i :: 0 <= i < |lens| ==> 1 <= lens[i] <= Huffman.LONGEST_CODE
    ensures ParseDelta(DeltaBits(curr, lens) + rest, curr, |lens|) == Got(lens, rest)
    decreases |lens|
  {
    if lens == [] {
      assert DeltaBits(curr, lens) + rest == rest;
    } else {
      hide Steps, ParseDelta;
      var t, more := lens[0], DeltaBits(lens[0], lens[1..]) + rest;
      DeltaParses(t, lens[1..], rest);
      assert DeltaBits(curr, lens) + rest == Steps(curr, t) + ([0] + more);
      StepsParse(curr, t, |lens|, [0] + more);
      StopParses(t, |lens|, more, lens[1..], rest);
      assert [t] + lens[1..] == lens;
    }
  }

  lemma TableParses(lens: seq<nat>, rest: seq<bit>)
    requires lens != [] && forall i :: 0 <= i < |lens| ==> 1 <= lens[i] <= Huffman.LONGEST_CODE
    ensures ParseTable(TableBits(lens) + rest, |lens|) == Got(lens, rest)
  {
    hide DeltaBits, ParseDelta, ToBits, GetBits;
    Pow2Values();
    assert Pow2(5) == 2 * Pow2(4);
    GetWritten(lens[0], 5, DeltaBits(lens[0], lens) + rest);
    DeltaParses(lens[0], lens, rest);
    assert TableBits(lens) + rest == ToBits(lens[0], 5) + (DeltaBits(lens[0], lens) + rest);
  }

  lemma {:induction false} TablesParse(tables: seq<seq<nat>>, alphaSize: nat, rest: seq<bit>)
    requires alphaSize > 0 && AllLengths(tables, alphaSize)
    ensures ParseTables(TablesBits(tables) + rest, alphaSize, |tables|) == Got(tables, rest)
  {
    hide TableBits, ParseTable;
    if tables == [] {
      assert TablesBits(tables) + rest == rest;
    } else {
      var lens, more := tables[0], TablesBits(tables[1..]) + rest;
      TablesParse(tables[1..], alphaSize, rest);
      TableParses(lens, more);
      assert TablesBits(tables) + rest == TableBits(lens) + more;
      assert [lens] + tables[1..] == tables;
    }
  }

  // ---------- MTF values ----------

  const GROUP_SIZE := 50

  /** The table of value number k. */
  ghost predicate HasTable(tables: seq<seq<nat>>, sels: seq<nat>, k: nat) {
    k / GROUP_SIZE < |sels| && sels[k / GROUP_SIZE] < |tables|
  }

  ghost function TableFor(tables: seq<seq<nat>>, sels: seq<nat>, k: nat): seq<nat>
    requires HasTable(tables, sels, k)
  {
    tables[sels[k / GROUP_SIZE]]
  }

  /** Value k has a table, and a code in it. */
  ghost predicate Codable(tables: seq<seq<nat>>, sels: seq<nat>, vals: seq<nat>, k: nat)
    requires k < |vals|
  {
    HasTable(tables, sels, k) && vals[k] < |TableFor(tables, sels, k)|
  }

  /** The codes of values k, k + 1, ... */
  ghost function ValueBits(tables: seq<seq<nat>>, sels: seq<nat>, vals: seq<nat>, k: nat): seq<bit>
    requires k <= |vals| && forall i :: k <= i < |vals| ==> Codable(tables, sels, vals, i)
    decreases |vals| - k
  {
    if k == |vals| then []
    else
      assert Codable(tables, sels, vals, k);
      Huffman.CodeBits(TableFor(tables, sels, k), vals[k]) + ValueBits(tables, sels, vals, k + 1)
  }

  /** Tables and selectors as a block announces them. */
  ghost predicate AnnouncedTables(tables: seq<seq<nat>>, sels: seq<nat>) {
    && (forall t :: 0 <= t < |tables| ==> Huffman.Announced(tables[t]))
    && (forall i :: 0 <= i < |sels| ==> sels[i] < |tables|)
  }

  /** Values k, k + 1, ... up to the end-of-block value, which is dropped;
      running out of selectors is an error. */
  ghost function ParseValues(bits: seq<bit>, tables: seq<seq<nat>>, sels: seq<nat>, eob: nat, k: nat): (r: Read<seq<nat>>)
    requires AnnouncedTables(tables, sels)
    ensures r.Got? ==> |r.rest| <= |bits|
    decreases GROUP_SIZE * |sels| - k
  {
    if k / GROUP_SIZE >= |sels| then DataError
    else
      var (v, left) :- Huffman.ReadSymbol(Huffman.TablesOf(tables[sels[k / GROUP_SIZE]]), bits);
      if v == eob then Got([], left)
      else
        var (rest, left') :- ParseValues(left, tables, sels, eob, k + 1);
        Got([v] + rest, left')
  }

  /** Every value read belongs to the alphabet and is not the end-of-block value. */
  lemma {:induction false} ValuesBound(bits: seq<bit>, tables: seq<seq<nat>>, sels: seq<nat>, eob: nat, k: nat)
    requires AnnouncedTables(tables, sels) && AllLengths(tables, eob + 1) && eob > 0
    ensures ParseValues(bits, tables, sels, eob, k).Got? ==> AtMost(ParseValues(bits, tables, sels, eob, k).value, eob - 1)
    decreases GROUP_SIZE * |sels| - k
  {
    hide Huffman.ReadSymbol, Huffman.TablesOf;
    if k / GROUP_SIZE < |sels| {
      var lens := tables[sels[k / GROUP_SIZE]];
      assert Huffman.Announced(lens);
      var t := Huffman.TablesOf(lens);
      Huffman.ReadSymbolSound(t, t, lens, bits);
      var sym := Huffman.ReadSymbol(t, bits);
      if sym.Got? && sym.value != eob { ValuesBound(sym.rest, tables, sels, eob, k + 1); }
    }
  }

  /** A table the encoder may send. */
  ghost predicate Sendable(lens: seq<nat>, alphaSize: nat) {
    |lens| == alphaSize && 2 <= alphaSize <= Huffman.MAX_ALPHA_SIZE && Huffman.Complete(lens, 17)
  }

  lemma SendableReads(lens: seq<nat>, alphaSize: nat, i: nat, rest: seq<bit>)
    requires Sendable(lens, alphaSize) && i < alphaSize
    ensures Huffman.Announced(lens)
    ensures Huffman.ReadSymbol(Huffman.TablesOf(lens), Huffman.CodeBits(lens, i) + rest) == Got(i, rest)
  {
    hide Huffman.End, Huffman.ReadSymbol, Huffman.TablesFor, Huffman.Decodable, Pow2;
    Huffman.CompleteAt(lens, Huffman.MaxOf(lens), 17);
    Huffman.ReadWritten(Huffman.TablesOf(lens), lens, Huffman.MaxOf(lens), i, rest);
  }

  /** What the encoder's choice of tables and selectors has to satisfy. */
  ghost predicate Sent(tables: seq<seq<nat>>, sels: seq<nat>, vals: seq<nat>, eob: nat) {
    && (forall t :: 0 <= t < |tables| ==> Sendable(tables[t], eob + 1))
    && (forall i :: 0 <= i < |sels| ==> sels[i] < |tables|)
    && 0 < |vals| <= GROUP_SIZE * |sels| && vals[|vals| - 1] == eob
    && (forall i :: 0 <= i < |vals| - 1 ==> vals[i] < eob)
  }

  lemma SentCodable(tables: seq<seq<nat>>, sels: seq<nat>, vals: seq<nat>, eob: nat)
    requires Sent(tables, sels, vals, eob)
    ensures AnnouncedTables(tables, sels)
    ensures forall i :: 0 <= i < |vals| ==> Codable(tables, sels, vals, i)
  {
    forall t | 0 <= t < |tables| ensures Huffman.Announced(tables[t]) {
      SendableReads(tables[t], eob + 1, 0, []);
    }
    forall i | 0 <= i < |vals| ensures Codable(tables, sels, vals, i) {
      assert i / GROUP_SIZE < |sels|;
      assert Sendable(tables[sels[i / GROUP_SIZE]], eob + 1);
    }
  }

  lemma ValueSent(tables: seq<seq<nat>>, sels: seq<nat>, vals: seq<nat>, eob: nat, k: nat)
    requires Sent(tables, sels, vals, eob) && k < |vals| && Codable(tables, sels, vals, k)
    ensures Sendable(TableFor(tables, sels, k), eob + 1) && vals[k] <= eob
    ensures vals[k] == eob <==> k == |vals| - 1
  {
  }

  lemma NextParses(bits: seq<bit>, tables: seq<seq<nat>>, sels: seq<nat>, eob: nat, k: nat, v: nat, left: seq<bit>)
    requires AnnouncedTables(tables, sels) && HasTable(tables, sels, k)
    requires Huffman.ReadSymbol(Huffman.TablesOf(TableFor(tables, sels, k)), bits) == Got(v, left)
    ensures v == eob ==> ParseValues(bits, tables, sels, eob, k) == Got([], left)
    ensures v != eob && ParseValues(left, tables, sels, eob, k + 1).Got? ==>
              var r := ParseValues(left, tables, sels, eob, k + 1);
              ParseValues(bits, tables, sels, eob, k) == Got([v] + r.value, r.rest)
  {
    hide Huffman.ReadSymbol, Huffman.TablesOf, Huffman.Announced;
  }

  lemma {:induction false} ValuesParse(tables: seq<seq<nat>>, sels: seq<nat>, vals: seq<nat>, eob: nat, k: nat, rest: seq<bit>)
    requires Sent(tables, sels, vals, eob) && k < |vals|
    requires AnnouncedTables(tables, sels) && forall i :: 0 <= i < |vals| ==> Codable(tables, sels, vals, i)
    ensures ParseValues(ValueBits(tables, sels, vals, k) + rest, tables, sels, eob, k) == Got(vals[k..|vals| - 1], rest)
    decreases |vals| - k
  {
    hide Huffman.CodeBits, Huffman.ReadSymbol, Huffman.TablesOf, AnnouncedTables, ParseValues, Sendable, Sent, HasTable, TableFor;
    var n := |vals|;
    assert Codable(tables, sels, vals, k);
    ValueSent(tables, sels, vals, eob, k);
    var lens := TableFor(tables, sels, k);
    var code, more := Huffman.CodeBits(lens, vals[k]), ValueBits(tables, sels, vals, k + 1) + rest;
    SendableReads(lens, eob + 1, vals[k], more);
    assert ValueBits(tables, sels, vals, k) + rest == code + more;
    NextParses(code + more, tables, sels, eob, k, vals[k], more);
    if k == n - 1 {
      assert more == rest && vals[k..n - 1] == [];
    } else {
      ValuesParse(tables, sels, vals, eob, k + 1, rest);
      assert [vals[k]] + vals[k + 1..n - 1] == vals[k..n - 1];
    }
  }

  // ---------- More input ----------

  lemma {:induction false} FlagsSurvive(bits: seq<bit>, n: nat, more: seq<bit>)
    ensures Survives(ParseFlags(bits, n), ParseFlags(bits + more, n), more)
    decreases n
  {
    if n > 0 && bits != [] {
      assert (bits + more)[1..] == bits[1..] + more && (bits + more)[0] == bits[0];
      FlagsSurvive(bits[1..], n - 1, more);
    }
  }

  lemma {:induction false} RowsSurvive(bits: seq<bit>, used: seq<bool>, more: seq<bit>)
    ensures Survives(ParseRows(bits, used), ParseRows(bits + more, used), more)
    decreases |used|
  {
    hide ParseFlags;
    if used != [] {
      if used[0] {
        FlagsSurvive(bits, 16, more);
        var row := ParseFlags(bits, 16);
        if row.Got? { RowsSurvive(row.rest, used[1..], more); }
      } else {
        RowsSurvive(bits, used[1..], more);
      }
    }
  }

  lemma MappingSurvives(bits: seq<bit>, more: seq<bit>)
    ensures Survives(ParseMapping(bits), ParseMapping(bits + more), more)
  {
    hide ParseFlags, ParseRows;
    FlagsSurvive(bits, 16, more);
    var used := ParseFlags(bits, 16);
    if used.Got? { RowsSurvive(used.rest, used.value, more); }
  }

  lemma {:induction false} UnarySurvives(bits: seq<bit>, j: nat, nGroups: nat, more: seq<bit>)
    ensures Survives(ParseUnary(bits, j, nGroups), ParseUnary(bits + more, j, nGroups), more)
    decreases |bits|
  {
    if bits != [] {
      assert (bits + more)[1..] == bits[1..] + more && (bits + more)[0] == bits[0];
      if bits[0] != 0 && j + 1 < nGroups { UnarySurvives(bits[1..], j + 1, nGroups, more); }
    }
  }

  lemma {:induction false} StoresSurvive(bits: seq<bit>, i: nat, n: nat, nGroups: nat, more: seq<bit>)
    requires nGroups >= 1 && i <= n
    ensures Survives(StoreUnaries(bits, i, n, nGroups), StoreUnaries(bits + more, i, n, nGroups), more)
    decreases n - i
  {
    hide ParseUnary;
    UnarySurvives(bits, 0, nGroups, more);
    var j := ParseUnary(bits, 0, nGroups);
    if i < n && i < MAX_SELECTORS && j.Got? { StoresSurvive(j.rest, i + 1, n, nGroups, more); }
  }

  lemma {:induction false} DeltaSurvives(bits: seq<bit>, curr: int, n: nat, more: seq<bit>)
    ensures Survives(ParseDelta(bits, curr, n), ParseDelta(bits + more, curr, n), more)
    decreases n, |bits|
  {
    if n > 0 && 1 <= curr <= Huffman.LONGEST_CODE && bits != [] {
      var all := bits + more;
      assert all[0] == bits[0];
      if bits[0] == 0 {
        assert all[1..] == bits[1..] + more;
        DeltaSurvives(bits[1..], curr, n - 1, more);
      } else if |bits| >= 2 {
        assert all[2..] == bits[2..] + more && all[1] == bits[1];
        DeltaSurvives(bits[2..], if bits[1] == 0 then curr + 1 else curr - 1, n, more);
      }
    }
  }

  lemma TableSurvives(bits: seq<bit>, alphaSize: nat, more: seq<bit>)
    ensures Survives(ParseTable(bits, alphaSize), ParseTable(bits + more, alphaSize), more)
  {
    hide ParseDelta, GetBits;
    BitsSurvive(bits, 5, more);
    var curr := GetBits(bits, 5);
    if curr.Got? { DeltaSurvives(curr.rest, curr.value, alphaSize, more); }
  }

  lemma {:induction false} TablesSurvive(bits: seq<bit>, alphaSize: nat, n: nat, more: seq<bit>)
    ensures Survives(ParseTables(bits, alphaSize, n), ParseTables(bits + more, alphaSize, n), more)
    decreases n
  {
    hide ParseTable;
    TableSurvives(bits, alphaSize, more);
    var lens := ParseTable(bits, alphaSize);
    if n > 0 && lens.Got? { TablesSurvive(lens.rest, alphaSize, n - 1, more); }
  }
}
