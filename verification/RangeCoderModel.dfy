/** The arithmetic of the carryless range coder: registers, renormalisation,
    narrowing to a symbol, and why the decoder can follow the encoder. */
module RangeCoderModel {
  import opened PowersOfTwo

  const TWO16: int := 0x1_0000
  const TOP: int := 0x100_0000_0000_0000
  const MAX_RANGE: int := 0x1_0000_0000_0000

  type u8 = x: int | 0 <= x < 256
  type u32 = x: int | 0 <= x < 0x1_0000_0000
  type u64 = x: int | 0 <= x < 0x1_0000_0000_0000_0000

  /** Encoder state: bytes written so far and the two registers.
      `range == 0` marks a coder that has not seen its first symbol. */
  datatype Enc = Enc(out: seq<u8>, low: int, range: int)

  /** The interval [low, low + range) is nonempty and does not pass 2^64. */
  predicate Legal(low: int, range: int) {
    0 <= low && 0 < range < TWO64 && low + range <= TWO64
  }

  /** The top bytes of both ends agree, the sum wrapping at 2^64. */
  predicate SameTop(low: int, range: int) {
    low / TOP == ((low + range) % TWO64) / TOP
  }

  /** The source's test for it. */
  predicate TopAgrees(low: u64, range: u64): (same: bool)
    ensures same <==> SameTop(low, range)
  {
    TopByte(low, Wrap(low + range));
    Xor(low, Wrap(low + range)) < TOP
  }

  lemma TopByte(a: nat, b: nat)
    ensures Xor(a, b) < TOP <==> a / TOP == b / TOP
  {
    hide Xor;
    assert Pow2(56) == TOP by { TopIsPow2(); Pow2Sum(56, 8); SmallPowers(); }
    XorBelow(a, b, 56);
  }

  predicate NeedsByte(low: int, range: int) {
    SameTop(low, range) || range < MAX_RANGE
  }

  /** The underflow branch: when the top bytes differ but the range is small, cut the range. */
  function Clipped(low: int, range: int): int {
    if SameTop(low, range) then range else (TWO64 - low) % MAX_RANGE
  }

  /** Machine arithmetic on the 64-bit registers. */
  function Wrap(x: int): u64 {
    x % TWO64
  }

  function MulAdd(low: int, a: int, r: int): u64 {
    Wrap(low + a * r)
  }

  function Scale(r: int, w: int): u64 {
    Wrap(r * w)
  }

  function Quotient(range: u64, total: int): (q: u64)
    requires 1 <= total
  {
    range / total
  }

  function Shl8(x: int): int {
    (x * 256) % TWO64
  }

  /** One turn of the Normalize loop. */
  function ShiftOut(e: Enc): Enc
    requires Legal(e.low, e.range)
  {
    Enc(e.out + [e.low / TOP], Shl8(e.low), Shl8(Clipped(e.low, e.range)))
  }

  /** The values that remain possible when a byte is shifted out. */
  function Kept(low: int, range: int): int {
    if low + range == TWO64 && low < TOP then TOP - low else Clipped(low, range)
  }

  lemma Shl8Drops(x: int)
    requires 0 <= x < TWO64
    ensures Shl8(x) == 256 * (x % TOP)
  {
    assert x * 256 == (x / TOP) * TWO64 + 256 * (x % TOP);
  }

  /** The underflow branch cuts the interval at the next multiple of 2^56. */
  lemma ClipAtBoundary(low: int, range: int)
    requires Legal(low, range) && !SameTop(low, range) && range < MAX_RANGE
    ensures Clipped(low, range) == TOP - low % TOP <= range
    ensures low + range == TWO64 ==> TOP <= low && Clipped(low, range) == range
  {
    var t, rest := low / TOP, low % TOP;
    assert low == t * TOP + rest;
    assert (t + 1) * TOP <= low + range < (t + 2) * TOP;
    var gap := TOP - rest;
    assert 0 < gap <= range;
    assert TWO64 - low == (255 - t) * TOP + gap == ((255 - t) * 256) * MAX_RANGE + gap;
  }

  lemma SameTopBounds(low: int, range: int)
    requires Legal(low, range)
    ensures low + range == TWO64 ==> (SameTop(low, range) <==> low < TOP)
    ensures low + range != TWO64 && SameTop(low, range) ==> low % TOP + range < TOP
  {
    if low + range == TWO64 {
      assert (low + range) % TWO64 == 0;
    } else {
      assert (low + range) % TWO64 == low + range;
    }
  }

  /** No carry: the interval that remains lies inside the old one, and the byte
      shifted out is the top byte of every value left in it. */
  lemma NoCarry(low: int, range: int)
    requires Legal(low, range) && NeedsByte(low, range)
    ensures 0 < Kept(low, range) <= range
    ensures forall v :: low <= v < low + Kept(low, range) ==> v / TOP == low / TOP
    ensures low % TOP + Kept(low, range) <= TOP
    ensures low % TOP + Kept(low, range) == TOP <==> (low + range == TWO64 || !SameTop(low, range))
    ensures Shl8(low) == 256 * (low % TOP)
    ensures Shl8(Clipped(low, range)) == 256 * Kept(low, range)
  {
    SameTopBounds(low, range);
    Shl8Drops(low);
    if !SameTop(low, range) {
      ClipAtBoundary(low, range);
    }
    Shl8Drops(Clipped(low, range));
    if low + range == TWO64 && low < TOP {
      assert range == 255 * TOP + (TOP - low);
    }
  }

  /** What the encoder's loop decreases even when the underflow branch shrinks the range. */
  function Phase(low: int, range: int): nat {
    if low + range == TWO64 then 0 else 1
  }

  function Fuel(low: int, range: int): int {
    if low + range != TWO64 then TWO64 - range
    else if low < TOP then 2 * TWO64 - low
    else low
  }

  lemma ShiftOutIsLegal(e: Enc)
    requires Legal(e.low, e.range) && NeedsByte(e.low, e.range)
    ensures Legal(ShiftOut(e).low, ShiftOut(e).range)
    ensures 0 <= Fuel(ShiftOut(e).low, ShiftOut(e).range)
    ensures Phase(ShiftOut(e).low, ShiftOut(e).range) <= Phase(e.low, e.range)
    ensures Phase(ShiftOut(e).low, ShiftOut(e).range) < Phase(e.low, e.range)
            || Fuel(ShiftOut(e).low, ShiftOut(e).range) < Fuel(e.low, e.range)
  {
    var low, range := e.low, e.range;
    NoCarry(low, range);
    var rest, kept := low % TOP, Kept(low, range);
    assert ShiftOut(e).low == 256 * rest && ShiftOut(e).range == 256 * kept;
    if low + range == TWO64 && TOP <= low {
      assert !SameTop(low, range);
      assert kept <= range < MAX_RANGE;
      assert rest == TOP - kept;
    } else if low + range != TWO64 && SameTop(low, range) {
      assert kept == range;
    }
  }

  // ------------------------------------------------- states no encoder reaches

  /** What the registers may hold when a message that no encoder wrote is decoded. */
  predicate Live(low: int, range: int) {
    0 <= low < TWO64 && 0 < range < TWO64
  }

  /** While the sum passes 2^64 the range itself decreases. */
  function Excess(low: int, range: int): nat {
    if low + range > TWO64 && range > 0 then range else 0
  }

  /** One turn keeps the range from becoming 0, and some measure decreases, from every state. */
  lemma ShiftKeepsLive(low: int, range: int)
    requires Live(low, range) && NeedsByte(low, range)
    ensures var l, r := Shl8(low), Shl8(Clipped(low, range));
            && Live(l, r) && (Legal(low, range) ==> Legal(l, r))
            && (Excess(l, r) < Excess(low, range)
                || (Legal(low, range) && 0 <= Fuel(l, r) && Phase(l, r) <= Phase(low, range)
                    && (Phase(l, r) < Phase(low, range) || Fuel(l, r) < Fuel(low, range))))
  {
    if Legal(low, range) {
      ShiftOutIsLegal(Enc([], low, range));
    } else if SameTop(low, range) {
      ExcessOnce(low, range);
    } else {
      ExcessCut(low, range);
    }
  }

  /** Both ends in one block of 2^56 values, the interval reaching almost once around. */
  lemma ExcessOnce(low: int, range: int)
    requires Live(low, range) && low + range > TWO64 && SameTop(low, range)
    ensures Live(Shl8(low), Shl8(range)) && Excess(Shl8(low), Shl8(range)) < Excess(low, range)
  {
    var sum := low + range - TWO64;
    assert (low + range) % TWO64 == sum;
    var a, b := low % TOP, sum % TOP;
    assert range == TWO64 - (a - b) && 0 < a - b < TOP;
    Shl8Drops(low);
    Shl8Drops(range);
    assert range % TOP == TOP - (a - b);
  }

  /** A short interval beyond 2^64 is cut there. */
  lemma ExcessCut(low: int, range: int)
    requires Live(low, range) && low + range > TWO64 && !SameTop(low, range) && range < MAX_RANGE
    ensures Clipped(low, range) == TWO64 - low
    ensures Live(Shl8(low), Shl8(TWO64 - low)) && Legal(Shl8(low), Shl8(TWO64 - low))
  {
    Shl8Drops(low);
    Shl8Drops(TWO64 - low);
    assert low % TOP == TOP - (TWO64 - low);
  }

  // ----------------------------------------------------------- renormalising

  /** Normalize: shift bytes out while the top bytes agree or the range is too small. */
  function Normalize(e: Enc): (n: Enc)
    requires Legal(e.low, e.range)
    ensures Legal(n.low, n.range) && !SameTop(n.low, n.range) && MAX_RANGE <= n.range
    ensures e.out <= n.out
    decreases Phase(e.low, e.range), Fuel(e.low, e.range)
  {
    if NeedsByte(e.low, e.range) then
      ShiftOutIsLegal(e);
      Normalize(ShiftOut(e))
    else e
  }

  // ---------------------------------------------------------------- symbols

  /** How a field is coded: one of `total` equal parts, a biased bit, or a symbol
      of a cumulative table of 16-bit frequencies (entry i is where symbol i+1 starts). */
  datatype Shape = Uniform(total: int) | Bit(frequency: int) | Table(base: seq<int>)

  predicate ValidBase(base: seq<int>) {
    && 1 <= |base| <= 255
    && 0 < base[0]
    && (forall i, j :: 0 <= i < j < |base| ==> base[i] < base[j])
    && base[|base| - 1] < TWO16
  }

  predicate ValidShape(s: Shape) {
    match s
    case Uniform(total) => 1 <= total < TWO32
    case Bit(f) => 0 < f < TWO32
    case Table(base) => ValidBase(base)
  }

  function Total(s: Shape): (t: int)
    requires ValidShape(s)
    ensures 1 <= t <= TWO32
  {
    match s
    case Uniform(total) => total
    case Bit(_) => TWO32
    case Table(_) => TWO16
  }

  function Count(s: Shape): int
    requires ValidShape(s)
  {
    match s
    case Uniform(total) => total
    case Bit(_) => 2
    case Table(base) => |base| + 1
  }

  /** Where the symbol starts, and how wide it is, out of Total(s). */
  function Start(s: Shape, symbol: int): (lo: int)
    requires ValidShape(s) && 0 <= symbol <= Count(s)
  {
    match s
    case Uniform(_) => symbol
    case Bit(f) => if symbol == 0 then 0 else if symbol == 1 then f else TWO32
    case Table(base) => if symbol == 0 then 0 else if symbol <= |base| then base[symbol - 1] else TWO16
  }

  function Width(s: Shape, symbol: int): (w: int)
    requires ValidShape(s) && 0 <= symbol < Count(s)
    ensures 0 < w && 0 <= Start(s, symbol) && Start(s, symbol) + w <= Total(s)
  {
    Start(s, symbol + 1) - Start(s, symbol)
  }

  datatype Op = Op(shape: Shape, symbol: int)

  predicate ValidOp(op: Op) {
    ValidShape(op.shape) && 0 <= op.symbol < Count(op.shape)
  }

  /** What the first symbol divides: Range starts from 2^64 - 1, BiasedBit from 2^64. */
  function Full(s: Shape): int {
    if s.Bit? then TWO64 else TWO64 - 1
  }

  /** A coder whose first field may be a Range or a BiasedBit, as in the source. */
  predicate Ready(e: Enc, s: Shape) {
    if e.range == 0 then !s.Table? else Legal(e.low, e.range)
  }

  /** The interval that the next symbol divides. */
  function Open(e: Enc, s: Shape): (n: Enc)
    requires ValidShape(s) && Ready(e, s)
    ensures 0 <= n.low && MAX_RANGE <= n.range && n.low + n.range <= TWO64
    ensures e.out <= n.out
  {
    if e.range == 0 then Enc(e.out, 0, Full(s)) else Normalize(e)
  }

  function Part(n: Enc, s: Shape): (r: int)
    requires ValidShape(s) && MAX_RANGE <= n.range
    ensures TWO16 <= r && r * Total(s) <= n.range
  {
    PartBound(n.range, Total(s));
    n.range / Total(s)
  }

  lemma PartBound(range: int, total: int)
    requires MAX_RANGE <= range && 1 <= total <= TWO32
    ensures TWO16 <= range / total && range / total * total <= range
  {
    var q := range / total;
    assert range == q * total + range % total;
    MulLe(total, TWO32, TWO16);
    assert q < TWO16 ==> (q + 1) * total <= TWO16 * total;
  }

  function Narrow(n: Enc, op: Op): Enc
    requires ValidOp(op) && MAX_RANGE <= n.range
  {
    var r := Part(n, op.shape);
    Enc(n.out, n.low + Start(op.shape, op.symbol) * r, Width(op.shape, op.symbol) * r)
  }

  function EncodeOp(e: Enc, op: Op): Enc
    requires ValidOp(op) && Ready(e, op.shape)
  {
    Narrow(Open(e, op.shape), op)
  }

  lemma NarrowBounds(n: Enc, op: Op)
    requires ValidOp(op) && 0 <= n.low && MAX_RANGE <= n.range && n.low + n.range <= TWO64
    ensures var m := Narrow(n, op); n.low <= m.low && 0 < m.range && m.low + m.range <= n.low + n.range
  {
    var r := Part(n, op.shape);
    var lo, w, t := Start(op.shape, op.symbol), Width(op.shape, op.symbol), Total(op.shape);
    Distributes(lo, w, r);
    MulLe(lo + w, t, r);
    MulLe(0, lo, r);
    MulLe(1, w, r);
    MulCommutes(r, t);
  }

  lemma Distributes(a: int, b: int, c: int)
    ensures (a + b) * c == a * c + b * c
  {
  }

  lemma EncodeOpIsLegal(e: Enc, op: Op)
    requires ValidOp(op) && Ready(e, op.shape)
    ensures var n := EncodeOp(e, op); Legal(n.low, n.range) && e.out <= n.out
  {
    var o := Open(e, op.shape);
    NarrowBounds(o, op);
    if e.range == 0 && op.shape.Bit? {
      assert o.range / TWO32 == TWO32;
      assert Width(op.shape, op.symbol) < TWO32;
    }
  }

  /** The field codings in the source's own arithmetic: no product or sum wraps. */
  lemma UniformStep(e: Enc, total: int, symbol: int)
    requires ValidOp(Op(Uniform(total), symbol)) && Ready(e, Uniform(total))
    ensures var o := Open(e, Uniform(total));
            var r := o.range / total;
            EncodeOp(e, Op(Uniform(total), symbol)) == Enc(o.out, MulAdd(o.low, symbol, r), r)
  {
    EncodeOpIsLegal(e, Op(Uniform(total), symbol));
    var o, n := Open(e, Uniform(total)), EncodeOp(e, Op(Uniform(total), symbol));
    assert n.low == o.low + symbol * (o.range / total);
    WrapSmall(n.low);
  }

  lemma BitStep(e: Enc, f: int, bit: int)
    requires ValidOp(Op(Bit(f), bit)) && Ready(e, Bit(f))
    ensures var o := Open(e, Bit(f));
            var r := o.range / TWO32;
            && EncodeOp(e, Op(Bit(f), bit))
               == (if bit == 0 then Enc(o.out, o.low, Scale(r, f))
                   else Enc(o.out, MulAdd(o.low, f, r), Scale(r, TWO32 - f)))
            && (e.range == 0 ==> r == TWO32)
  {
    EncodeOpIsLegal(e, Op(Bit(f), bit));
    var o, n := Open(e, Bit(f)), EncodeOp(e, Op(Bit(f), bit));
    var r := o.range / TWO32;
    assert n.low == o.low + (if bit == 0 then 0 else f) * r;
    assert n.range == (if bit == 0 then f else TWO32 - f) * r;
    MulCommutes(r, if bit == 0 then f else TWO32 - f);
    WrapSmall(n.low);
    WrapSmall(n.range);
  }

  lemma WrapSmall(x: int)
    requires 0 <= x < TWO64
    ensures Wrap(x) == x
  {
  }

  lemma MulCommutes(a: int, b: int)
    ensures a * b == b * a
  {
  }

  lemma TableStep(e: Enc, base: seq<int>, symbol: int)
    requires ValidOp(Op(Table(base), symbol)) && Ready(e, Table(base))
    ensures var o := Normalize(e);
            var r := o.range / TWO16;
            var lo, w := Start(Table(base), symbol), Width(Table(base), symbol);
            EncodeOp(e, Op(Table(base), symbol)) == Enc(o.out, MulAdd(o.low, lo, r), Scale(r, w))
  {
    EncodeOpIsLegal(e, Op(Table(base), symbol));
    var n := EncodeOp(e, Op(Table(base), symbol));
    MulCommutes(Normalize(e).range / TWO16, Width(Table(base), symbol));
    WrapSmall(n.low);
    WrapSmall(n.range);
  }
}
