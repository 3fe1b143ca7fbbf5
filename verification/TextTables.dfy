/** Order-1 statistics tables of the text coder and the symbols a text is coded as. */
module TextTables {
  import opened RangeCoderModel
  import opened RangeCoderRoundTrip

  const SYMBOL_LUT_BYTES: int := 256
  const SYMBOL_LUT_WIDTH: int := 256   // 1 << SYMBOL_LUT_SHIFT

  /** bases[last] are the total - 1 listed cumulative frequencies after symbol `last`;
      lutLow and lutHigh bound the search by the high byte of a frequency. */
  datatype TableFormat = TableFormat(
    total: int, log2total: nat,
    char2index: seq<u8>, index2char: seq<u8>,
    bases: seq<seq<int>>, lutLow: seq<seq<int>>, lutHigh: seq<seq<int>>)

  /** Index of the last listed frequency not above x, or 0. */
  function LastUpTo(base: seq<int>, x: int): nat {
    var n := CountUpTo(base, x);
    if n == 0 then 0 else n - 1
  }

  lemma LastUpToAt(base: seq<int>, x: int, p: nat)
    requires ValidBase(base) && p < |base|
    ensures base[p] <= x ==> p <= LastUpTo(base, x) && CountUpTo(base, x) == LastUpTo(base, x) + 1
    ensures x < base[p] ==> LastUpTo(base, x) <= p && (p > 0 ==> LastUpTo(base, x) < p)
    ensures x < base[0] ==> CountUpTo(base, x) == 0
  {
  }

  predicate LutFor(base: seq<int>, lutLow: seq<int>, lutHigh: seq<int>) {
    && |lutLow| == |lutHigh| == SYMBOL_LUT_BYTES
    && (forall j :: 0 <= j < SYMBOL_LUT_BYTES ==> lutHigh[j] == LastUpTo(base, j * SYMBOL_LUT_WIDTH + 255))
    && (forall j :: 0 <= j < SYMBOL_LUT_BYTES ==> lutLow[j] == if j == 0 then 0 else lutHigh[j - 1])
  }

  predicate ValidStats(t: TableFormat) {
    && 2 <= t.total <= 256
    && |t.char2index| == |t.index2char| == 256
    && |t.bases| == |t.lutLow| == |t.lutHigh| == t.total
    && (forall i :: 0 <= i < t.total ==>
          |t.bases[i]| == t.total - 1 && ValidBase(t.bases[i]) && LutFor(t.bases[i], t.lutLow[i], t.lutHigh[i]))
    && (forall c :: 0 <= c < 256 ==> t.char2index[c] < t.total)
    && t.char2index[0] == 0 && t.index2char[0] == 0
    && (forall c :: 0 <= c < 256 && t.char2index[c] != 0 ==> t.index2char[t.char2index[c]] == c)
  }

  predicate CString(text: seq<u8>) {
    forall i :: 0 <= i < |text| ==> text[i] != 0
  }

  function CharAt(text: seq<u8>, i: nat): u8 {
    if i < |text| then text[i] else 0
  }

  /** Order-1 mode: each symbol in the table of the one before it, ending with symbol 0. */
  function Order1Ops(t: TableFormat, last: int, text: seq<u8>): (ops: seq<Op>)
    requires ValidStats(t) && 0 <= last < t.total
    ensures ops != [] && forall i :: 0 <= i < |ops| ==> ValidOp(ops[i])
    decreases |text|
  {
    var symbol := t.char2index[CharAt(text, 0)];
    var op := Op(Table(t.bases[last]), symbol);
    if symbol == 0 || text == [] then [op] else [op] + Order1Ops(t, symbol, text[1..])
  }

  /** Uniform mode: every character's index out of `total`, ending with the terminator. */
  function UniformOps(t: TableFormat, text: seq<u8>): (ops: seq<Op>)
    requires ValidStats(t)
    ensures ops != [] && forall i :: 0 <= i < |ops| ==> ValidOp(ops[i])
    decreases |text|
  {
    var op := Op(Uniform(t.total), t.char2index[CharAt(text, 0)]);
    if text == [] then [op] else [op] + UniformOps(t, text[1..])
  }

  const MODE_FREQUENCY: u32 := 0xFF000000

  function TextOps(t: TableFormat, uniform: bool, text: seq<u8>): (ops: seq<Op>)
    requires ValidStats(t)
    ensures ops != []
  {
    if uniform then [Op(Bit(MODE_FREQUENCY), 1)] + UniformOps(t, text)
    else [Op(Bit(MODE_FREQUENCY), 0)] + Order1Ops(t, 0, text)
  }

  lemma TextOpsParts(t: TableFormat, uniform: bool, text: seq<u8>)
    requires ValidStats(t)
    ensures TextOps(t, uniform, text)[0] == Op(Bit(MODE_FREQUENCY), if uniform then 1 else 0)
    ensures TextOps(t, uniform, text)[1..] == if uniform then UniformOps(t, text) else Order1Ops(t, 0, text)
  {
  }

  lemma TextOpsAreValid(t: TableFormat, uniform: bool, text: seq<u8>, e: Enc)
    requires ValidStats(t) && (e.range == 0 || Legal(e.low, e.range))
    ensures ValidOps(e, TextOps(t, uniform, text))
  {
  }

  /** What a text decodes to: it ends at the first character that is not in the table. */
  function KnownPrefix(t: TableFormat, text: seq<u8>): (k: seq<u8>)
    requires ValidStats(t)
    ensures k <= text
    ensures |k| < |text| ==> t.char2index[text[|k|]] == 0
    ensures forall i :: 0 <= i < |k| ==> t.char2index[k[i]] != 0
  {
    if text == [] || t.char2index[text[0]] == 0 then []
    else [text[0]] + KnownPrefix(t, text[1..])
  }

  /** Writing the search bounds for one table: for each high byte, where the last listed
      frequency with a high byte below it, or not above it, is. If the frequencies do not ascend,
      only those before the first larger one are looked at. */
  method WriteLut(base: seq<int>, lutLow: array<int>, lutHigh: array<int>)
    requires 1 <= |base| <= 255 && forall i :: 0 <= i < |base| ==> 0 <= base[i] < TWO16
    requires lutLow.Length == lutHigh.Length == SYMBOL_LUT_BYTES && lutLow != lutHigh
    modifies lutLow, lutHigh
    ensures LutFor(base, lutLow[..], lutHigh[..])
  {
    var symbol, lastHigh, lastLow := 0, 0, 0;
    for j := 0 to SYMBOL_LUT_BYTES
      invariant 0 <= symbol <= |base|
      invariant lastHigh == lastLow == if symbol == 0 then 0 else symbol - 1
      invariant forall i :: 0 <= i < symbol ==> base[i] < j * SYMBOL_LUT_WIDTH
      invariant j > 0 ==> lutHigh[j - 1] == lastHigh
      invariant forall i :: 0 <= i < j ==> lutHigh[i] == LastUpTo(base, i * SYMBOL_LUT_WIDTH + 255)
      invariant forall i :: 0 <= i < j ==> lutLow[i] == if i == 0 then 0 else lutHigh[i - 1]
    {
      symbol, lastHigh := SkipSymbols(base, j, symbol, lastHigh);
      lutLow[j] := lastLow;
      lutHigh[j] := lastHigh;
      lastLow := lastHigh;
    }
  }

  /** The inner loop: pass the symbols that start at or below high byte j. */
  method SkipSymbols(base: seq<int>, j: int, from: int, high: int) returns (symbol: int, lastHigh: int)
    requires 0 <= j && 0 <= from <= |base|
    requires high == if from == 0 then 0 else from - 1
    requires forall i :: 0 <= i < from ==> base[i] < j * SYMBOL_LUT_WIDTH
    ensures from <= symbol <= |base|
    ensures lastHigh == (if symbol == 0 then 0 else symbol - 1) == LastUpTo(base, j * SYMBOL_LUT_WIDTH + 255)
    ensures forall i :: 0 <= i < symbol ==> base[i] < (j + 1) * SYMBOL_LUT_WIDTH
  {
    symbol, lastHigh := from, high;
    while symbol < |base| && base[symbol] / SYMBOL_LUT_WIDTH <= j
      invariant from <= symbol <= |base|
      invariant lastHigh == if symbol == 0 then 0 else symbol - 1
      invariant forall i :: 0 <= i < symbol ==> base[i] <= j * SYMBOL_LUT_WIDTH + 255
    {
      lastHigh := symbol;
      symbol := symbol + 1;
    }
    CountUpToUnique(base, j * SYMBOL_LUT_WIDTH + 255, symbol);
  }

  lemma CountUpToUnique(base: seq<int>, x: int, n: nat)
    requires n <= |base| && forall i :: 0 <= i < n ==> base[i] <= x
    requires n < |base| ==> x < base[n]
    ensures CountUpTo(base, x) == n
  {
  }

  /** The bounds from the table hold the last listed frequency not above freq. */
  lemma LutBrackets(base: seq<int>, lutLow: seq<int>, lutHigh: seq<int>, freq: int)
    requires ValidBase(base) && LutFor(base, lutLow, lutHigh) && 0 <= freq < TWO16
    ensures var j := freq / SYMBOL_LUT_WIDTH;
            0 <= lutLow[j] <= LastUpTo(base, freq) <= lutHigh[j] < |base|
  {
    var j := freq / SYMBOL_LUT_WIDTH;
    CountUpToGrows(base, freq, j * SYMBOL_LUT_WIDTH + 255);
    if j > 0 {
      CountUpToGrows(base, (j - 1) * SYMBOL_LUT_WIDTH + 255, freq);
    }
  }

  lemma CountUpToGrows(base: seq<int>, x: int, y: int)
    requires ValidBase(base) && x <= y
    ensures CountUpTo(base, x) <= CountUpTo(base, y)
  {
    var n, k := CountUpTo(base, y), CountUpTo(base, x);
    if n < |base| {
      assert x < base[n];
    }
  }
}
