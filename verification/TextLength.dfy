/** How long a coded text is, and that the mode chosen for it is the shorter one but for a byte. */
module TextLength {
  import opened PowersOfTwo
  import opened RangeCoderModel
  import opened RangeCoderRoundTrip
  import opened TextTables
  import opened RangeEncoding

  // ------------------------------------------------------------------ powers

  function Power(b: nat, n: nat): (r: nat)
    ensures b > 0 ==> r > 0
  {
    if n == 0 then 1 else b * Power(b, n - 1)
  }

  lemma {:induction false} PowerSum(b: nat, j: nat, k: nat)
    ensures Power(b, j + k) == Power(b, j) * Power(b, k)
    decreases j
  {
    if j > 0 {
      PowerSum(b, j - 1, k);
      Assoc(b, Power(b, j - 1), Power(b, k));
      assert j + k - 1 == j - 1 + k;
    }
  }

  lemma {:induction false} PowerProduct(b: nat, j: nat, k: nat)
    ensures Power(Power(b, j), k) == Power(b, j * k)
    decreases k
  {
    if k == 0 {
      assert j * 0 == 0;
    } else {
      PowerProduct(b, j, k - 1);
      assert j * k == j + j * (k - 1);
      PowerSum(b, j, j * (k - 1));
    }
  }

  lemma {:induction false} PowerGrows(a: nat, b: nat, n: nat)
    requires a <= b
    ensures Power(a, n) <= Power(b, n)
    ensures a < b && n > 0 ==> Power(a, n) < Power(b, n)
  {
    if n > 0 {
      PowerGrows(a, b, n - 1);
      Products(a, Power(a, n - 1), b, Power(b, n - 1));
    }
  }

  lemma Products(a: nat, p: nat, b: nat, q: nat)
    requires a <= b && p <= q && (b > 0 ==> q > 0)
    ensures a * p <= b * q
    ensures a < b ==> a * p < b * q
  {
    MulLe(p, q, a);
    if a < b {
      MulLe(a + 1, b, q);
    } else {
      MulLe(a, b, q);
    }
  }

  lemma {:induction false} PowerUpTo(b: nat, j: nat, k: nat)
    requires 0 < b && j <= k
    ensures Power(b, j) <= Power(b, k)
    decreases k - j
  {
    if j < k {
      PowerUpTo(b, j, k - 1);
      MulLe(1, b, Power(b, k - 1));
    }
  }

  lemma {:induction false} PowerOfTwo(k: nat)
    ensures Power(2, k) == Pow2(k)
  {
    if k > 0 {
      PowerOfTwo(k - 1);
    }
  }

  lemma Pow2Product(j: nat, k: nat)
    ensures Power(Pow2(j), k) == Pow2(j * k)
  {
    PowerOfTwo(j);
    PowerProduct(2, j, k);
    PowerOfTwo(j * k);
  }

  /** l is the logarithm of b in s-ths of a bit, rounded down. */
  predicate LogOf(l: nat, b: nat, s: nat) {
    Pow2(l) <= Power(b, s) < Pow2(l + 1)
  }

  /** n symbols out of b fill k bytes. */
  lemma FillsBytes(l: nat, b: nat, s: nat, n: nat, k: nat)
    requires LogOf(l, b, s) && s > 0 && 8 * k * s <= l * n
    ensures Pow2(8 * k) <= Power(b, n)
  {
    if Power(b, n) < Pow2(8 * k) {
      PowerGrows(Power(b, n), Pow2(8 * k), s);
      PowerProduct(b, n, s);
      Pow2Product(8 * k, s);
      PowerGrows(Pow2(l), Power(b, s), n);
      Pow2Product(l, n);
      PowerProduct(b, s, n);
      assert n * s == s * n;
      Pow2UpTo(8 * k * s, l * n);
    }
  }

  /** n symbols out of b fill no more than k bytes, but for one bit in s symbols. */
  lemma WithinBytes(l: nat, b: nat, s: nat, n: nat, k: nat)
    requires LogOf(l, b, s) && l * n <= 8 * k * s
    ensures Power(b, s * n) <= Pow2(8 * k * s + n)
  {
    PowerGrows(Power(b, s), Pow2(l + 1), n);
    PowerProduct(b, s, n);
    Pow2Product(l + 1, n);
    assert (l + 1) * n == l * n + n;
    Pow2UpTo((l + 1) * n, 8 * k * s + n);
  }

  // ------------------------------------------------------ bytes of the output

  const TWO40: int := 0x100_0000_0000

  /** What the range times the bytes shifted out can hold. */
  lemma {:induction false} NormalizeGrowth(e: Enc)
    requires Legal(e.low, e.range)
    ensures var n := Normalize(e); n.range <= e.range * Pow2(8 * Growth(e, n))
    decreases Phase(e.low, e.range), Fuel(e.low, e.range)
  {
    var n := Normalize(e);
    if NeedsByte(e.low, e.range) {
      var e' := ShiftOut(e);
      ShiftOutIsLegal(e);
      NormalizeGrowth(e');
      NoCarry(e.low, e.range);
      var g := Growth(e', n);
      MulLe(e'.range, 256 * e.range, Pow2(8 * g));
      OneByteMore(e.range, g);
    } else {
      assert Pow2(0) == 1;
    }
  }

  lemma OneByteMore(r: int, g: nat)
    ensures 256 * r * Pow2(8 * g) == r * Pow2(8 * (g + 1))
  {
    Pow2Sum(8, 8 * g);
    SmallPowers();
    Assoc(r, 256, Pow2(8 * g));
  }

  lemma UniformGrowth(e: Enc, total: int, symbol: int)
    requires ValidOp(Op(Uniform(total), symbol)) && Legal(e.low, e.range)
    ensures var n := EncodeOp(e, Op(Uniform(total), symbol));
            e.out <= n.out && Legal(n.low, n.range) && n.range * total <= e.range * Pow2(8 * Growth(e, n))
    ensures total <= 256 ==> EncodeOp(e, Op(Uniform(total), symbol)).range >= TWO40
  {
    hide Normalize, Pow2;
    var op := Op(Uniform(total), symbol);
    EncodeOpIsLegal(e, op);
    NormalizeGrowth(e);
    Parts(Normalize(e).range, total);
  }

  lemma Parts(range: int, total: int)
    requires MAX_RANGE <= range && 1 <= total
    ensures range / total * total <= range
    ensures total <= 256 ==> range / total >= TWO40
  {
    var r := range / total;
    assert range == r * total + range % total;
    if total <= 256 {
      MulLe(total, 256, TWO40);
      if r < TWO40 {
        MulLe(r + 1, TWO40, total);
      }
    }
  }

  /** The uniform code of a text of k characters leaves room for total^k codes at most. */
  lemma {:induction false} UniformOpsGrowth(e: Enc, t: TableFormat, text: seq<u8>)
    requires ValidStats(t) && Legal(e.low, e.range)
    ensures ValidOps(e, UniformOps(t, text))
    ensures var n := EncodeAll(e, UniformOps(t, text));
            && n.range >= TWO40
            && n.range * Power(t.total, |text| + 1) <= e.range * Pow2(8 * Growth(e, n))
    decreases |text|
  {
    hide EncodeOp, Pow2;
    var ops := UniformOps(t, text);
    var first := EncodeOp(e, ops[0]);
    UniformGrowth(e, t.total, ops[0].symbol);
    EncodeOpIsLegal(e, ops[0]);
    var n := EncodeAll(e, ops);
    assert n == EncodeAll(first, ops[1..]);
    if text == [] {
      assert n == first;
      assert Power(t.total, 1) == t.total * Power(t.total, 0);
    } else {
      UniformOpsGrowth(first, t, text[1..]);
      assert ops[1..] == UniformOps(t, text[1..]);
      Both(n.range, Power(t.total, |text|), t.total, first.range, e.range, Growth(e, first), Growth(first, n));
    }
  }

  lemma Both(n: int, p: int, total: int, r: int, e: int, g: nat, h: nat)
    requires 0 < total && n * p <= r * Pow2(8 * h) && r * total <= e * Pow2(8 * g)
    ensures n * (total * p) <= e * Pow2(8 * (g + h))
  {
    hide Pow2;
    var a, b := Pow2(8 * g), Pow2(8 * h);
    MulLe(n * p, r * b, total);
    MulLe(r * total, e * a, b);
    Pow2Sum(8 * g, 8 * h);
    assert 8 * g + 8 * h == 8 * (g + h);
    assert n * (total * p) == total * (n * p) by { Swap(n, total, p); }
    assert total * (r * b) == b * (r * total) by { Swap(total, b, r); }
    assert b * (e * a) == e * (a * b) by { Swap(b, e, a); }
  }

  lemma Swap(a: int, b: int, c: int)
    ensures a * (b * c) == b * (a * c) == b * (c * a) == c * (a * b)
  {
    Assoc(a, b, c);
    Assoc(b, a, c);
    Assoc(c, a, b);
  }

  lemma NoShift()
    ensures Pow2(8 * 0) == 1
  {
  }

  /** The bit for the uniform mode costs eight bits. */
  lemma ModeGrowth(e: Enc)
    requires e.range == 0 || Legal(e.low, e.range)
    ensures var n := EncodeOp(e, Op(Bit(MODE_FREQUENCY), 1));
            e.out <= n.out && Legal(n.low, n.range) && 256 * n.range <= TWO64 * Pow2(8 * Growth(e, n))
  {
    hide Normalize, Pow2;
    EncodeOpIsLegal(e, Op(Bit(MODE_FREQUENCY), 1));
    if e.range == 0 {
      NoShift();
    } else {
      NormalizeGrowth(e);
    }
  }

  // --------------------------------------------------------------- the choice

  /** The logarithm that the tables carry, in bytes of 2^15 parts. */
  predicate LogFits(t: TableFormat)
    requires ValidStats(t)
  {
    LogOf(t.log2total, t.total, LOG_PARTS)
  }

  const LOG_PARTS: nat := 4096

  /** The bytes of the order-1 attempt, as far as there was room for it. */
  function Attempt(e: Enc, room: int, text: seq<u8>, t: TableFormat): (taken: int)
    requires ValidStats(t) && CString(text) && (e.range == 0 || Legal(e.low, e.range))
    ensures room >= 0 ==> taken >= 0
  {
    TextOpsAreValid(t, false, text, e);
    var used := Growth(e, EncodeAll(e, TextOps(t, false, text)));
    if used <= room then used else room
  }

  /** The attempt ends with the terminator or the first character the tables do not know. */
  lemma {:induction false} Attempted(t: TableFormat, last: int, text: seq<u8>)
    requires ValidStats(t) && 0 <= last < t.total
    ensures |Order1Ops(t, last, text)| == |KnownPrefix(t, text)| + 1
    decreases |text|
  {
    if text != [] && t.char2index[text[0]] != 0 {
      Attempted(t, t.char2index[text[0]], text[1..]);
    }
  }

  lemma TotalPositive(t: TableFormat)
    requires ValidStats(t)
    ensures t.total > 0
  {
  }

  lemma FirstThenRest(e: Enc, ops: seq<Op>)
    requires ValidOps(e, ops) && ops != []
    ensures ValidOp(ops[0]) && Ready(e, ops[0].shape)
    ensures ValidOps(EncodeOp(e, ops[0]), ops[1..])
    ensures EncodeAll(e, ops) == EncodeAll(EncodeOp(e, ops[0]), ops[1..])
  {
    EncodeOpIsLegal(e, ops[0]);
  }

  /** The bytes of the uniform code. */
  lemma UniformLength(e: Enc, text: seq<u8>, t: TableFormat) returns (g: nat)
    requires ValidStats(t) && (e.range == 0 || Legal(e.low, e.range))
    ensures ValidOps(e, TextOps(t, true, text)) && t.total > 0
    ensures g == Growth(e, EncodeAll(e, TextOps(t, true, text)))
    ensures Power(t.total, |text| + 1) <= Pow2(8 * (g + 2))
  {
    hide Pow2, Power, EncodeOp, EncodeAll, ValidOps, ValidStats, TextOps, UniformOps, Legal;
    TotalPositive(t);
    var ops := TextOps(t, true, text);
    TextOpsAreValid(t, true, text, e);
    TextOpsParts(t, true, text);
    FirstThenRest(e, ops);
    ModeGrowth(e);
    var first := EncodeOp(e, ops[0]);
    UniformOpsGrowth(first, t, text);
    var n := EncodeAll(e, ops);
    g := Growth(e, n);
    Total(n.range, Power(t.total, |text| + 1), first.range, Growth(e, first), Growth(first, n), g);
  }

  lemma Total(n: int, p: nat, r: int, g: nat, h: nat, both: nat)
    requires both == g + h
    requires TWO40 <= n && n * p <= r * Pow2(8 * h) && 256 * r <= TWO64 * Pow2(8 * g)
    ensures p <= Pow2(8 * (both + 2))
  {
    hide Pow2;
    var a, b := Pow2(8 * g), Pow2(8 * h);
    MulLe(TWO40, n, p);
    MulLe(256 * r, TWO64 * a, b);
    Assoc(256, r, b);
    Assoc(TWO64, a, b);
    Pow2Sum(8 * g, 8 * h);
    Pow2Sum(8 * g + 8 * h, 16);
    SmallPowers();
    assert 8 * g + 8 * h + 16 == 8 * (g + h + 2);
    assert a * b * 0x1_0000 == Pow2(8 * (g + h + 2));
  }

  /** How the mode follows from the attempt. */
  lemma Chosen(e: Enc, room: int, text: seq<u8>, t: TableFormat)
    requires ValidStats(t) && CString(text) && (e.range == 0 || Legal(e.low, e.range))
    ensures var limit := (|KnownPrefix(t, text)| + 1) * t.log2total / 0x8000;
            ChooseText(e, room, text, t) == TextOps(t, Attempt(e, room, text, t) >= limit, text)
    ensures TextOps(t, true, text) != TextOps(t, false, text)
  {
    hide ValidStats, EncodeAll, ValidOps;
    TotalPositive(t);
    TextOpsParts(t, false, text);
    TextOpsParts(t, true, text);
    Attempted(t, 0, text);
  }

  /** A text left in the order-1 mode takes at most one byte more than the uniform mode would. */
  lemma Order1IsShort(e: Enc, room: int, text: seq<u8>, t: TableFormat)
    requires ValidStats(t) && LogFits(t) && CString(text) && (e.range == 0 || Legal(e.low, e.range))
    requires ChooseText(e, room, text, t) == TextOps(t, false, text)
    ensures ValidOps(e, TextOps(t, true, text))
    ensures Attempt(e, room, text, t) <= Growth(e, EncodeAll(e, TextOps(t, true, text))) + 1
  {
    hide LogOf, Pow2, Power, EncodeAll, ValidStats, ValidOps, Attempt, TextOps, ChooseText, KnownPrefix, Legal;
    Chosen(e, room, text, t);
    var g := UniformLength(e, text, t);
    var taken, n := Attempt(e, room, text, t), |KnownPrefix(t, text)| + 1;
    if taken > g + 1 {
      Threshold(taken, n, t.log2total);
      FillsBytes(t.log2total, t.total, LOG_PARTS, n, taken + 1);
      PowerUpTo(t.total, n, |text| + 1);
      Pow2UpTo(8 * (g + 2) + 1, 8 * (taken + 1));
      OneMore(8 * (g + 2));
    }
  }

  lemma OneMore(k: nat)
    ensures Pow2(k) < Pow2(k + 1)
  {
  }

  lemma Threshold(taken: int, n: nat, l: nat)
    requires 0 <= taken < n * l / 0x8000
    ensures 8 * (taken + 1) * LOG_PARTS <= l * n
  {
  }

  /** A text is coded in the uniform mode only if the order-1 attempt filled, or would have filled,
      the bytes that the characters need in that mode, but for a byte, and for a bit in each 4096
      characters. */
  lemma UniformWhenLong(e: Enc, room: int, text: seq<u8>, t: TableFormat)
    requires ValidStats(t) && LogFits(t) && CString(text) && (e.range == 0 || Legal(e.low, e.range))
    requires ChooseText(e, room, text, t) == TextOps(t, true, text) && room >= 0
    ensures var n, taken := |KnownPrefix(t, text)| + 1, Attempt(e, room, text, t);
            taken >= 0 && Power(t.total, LOG_PARTS * n) <= Pow2(8 * (taken + 1) * LOG_PARTS + n)
  {
    hide LogOf, Pow2, Power, EncodeAll, ValidStats, ValidOps, TextOps, ChooseText, KnownPrefix, Legal;
    TotalPositive(t);
    Chosen(e, room, text, t);
    var taken, n := Attempt(e, room, text, t), |KnownPrefix(t, text)| + 1;
    NotReached(taken, n, t.log2total);
    WithinBytes(t.log2total, t.total, LOG_PARTS, n, taken + 1);
  }

  lemma NotReached(taken: nat, n: nat, l: nat)
    requires n * l / 0x8000 <= taken
    ensures l * n <= 8 * (taken + 1) * LOG_PARTS
  {
  }

  // ---------------------------------------------------------------- the mode

  /** A message that starts with a text starts with the byte 255 exactly if the text is in the
      uniform mode. */
  lemma ModeInFirstByte(e: Enc, uniform: bool, text: seq<u8>, t: TableFormat, m: seq<u8>)
    requires ValidStats(t) && e.range == 0 && e.out == [] && ValidOps(e, TextOps(t, uniform, text))
    requires Inside(m, EncodeAll(e, TextOps(t, uniform, text)))
    ensures ByteAt(m, 0) == 255 <==> uniform
  {
    hide EncodeAll, EncodeOp, ValidOps, ValidStats, TextOps, Digits;
    var ops := TextOps(t, uniform, text);
    TextOpsParts(t, uniform, text);
    FirstThenRest(e, ops);
    ModeAlone(e, uniform);
    EncodeAllBack(m, EncodeOp(e, ops[0]), ops[1..]);
    WindowBytes(m, 0);
  }

  lemma ModeAlone(e: Enc, uniform: bool)
    requires e.range == 0
    ensures EncodeOp(e, Op(Bit(MODE_FREQUENCY), if uniform then 1 else 0))
            == if uniform then Enc(e.out, 255 * TOP, TOP) else Enc(e.out, 0, 255 * TOP)
  {
  }
}
