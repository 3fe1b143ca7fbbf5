/** The decoder's view of an encoded message, and the round trip. */
module RangeCoderRoundTrip {
  import opened PowersOfTwo
  import opened RangeCoderModel

  // ---------------------------------------------------------------- windows

  /** The message continues with zeros past its end. */
  function ByteAt(m: seq<u8>, k: nat): u8 {
    if k < |m| then m[k] else 0
  }

  /** Big-endian reading of the n bytes from k on. */
  function Digits(m: seq<u8>, k: nat, n: nat): (v: int)
    ensures 0 <= v
  {
    if n == 0 then 0 else Digits(m, k, n - 1) * 256 + ByteAt(m, k + n - 1)
  }

  /** The eight bytes the decoder's `code` register holds after k shifts. */
  function Window(m: seq<u8>, k: nat): int {
    Digits(m, k, 8)
  }

  lemma WindowBytes(m: seq<u8>, k: nat)
    ensures Window(m, k) ==
            ByteAt(m, k) * TOP + ByteAt(m, k + 1) * MAX_RANGE + ByteAt(m, k + 2) * 0x100_0000_0000
            + ByteAt(m, k + 3) * 0x1_0000_0000 + ByteAt(m, k + 4) * 0x100_0000 + ByteAt(m, k + 5) * 0x1_0000
            + ByteAt(m, k + 6) * 0x100 + ByteAt(m, k + 7)
    ensures 0 <= Window(m, k) < TWO64
  {
    assert Digits(m, k, 1) == ByteAt(m, k);
    assert Digits(m, k, 2) == ByteAt(m, k) * 256 + ByteAt(m, k + 1);
    assert Digits(m, k, 3) == Digits(m, k, 2) * 256 + ByteAt(m, k + 2);
    assert Digits(m, k, 4) == Digits(m, k, 3) * 256 + ByteAt(m, k + 3);
    assert Digits(m, k, 5) == Digits(m, k, 4) * 256 + ByteAt(m, k + 4);
    assert Digits(m, k, 6) == Digits(m, k, 5) * 256 + ByteAt(m, k + 5);
    assert Digits(m, k, 7) == Digits(m, k, 6) * 256 + ByteAt(m, k + 6);
    assert Digits(m, k, 8) == Digits(m, k, 7) * 256 + ByteAt(m, k + 7);
  }

  /** Shifting the decoder's window by one byte. */
  lemma WindowShift(m: seq<u8>, k: nat)
    ensures Window(m, k + 1) == Shl8(Window(m, k)) + ByteAt(m, k + 8)
    ensures Window(m, k) == ByteAt(m, k) * TOP + Window(m, k + 1) / 256
  {
    WindowBytes(m, k);
    WindowBytes(m, k + 1);
  }

  // ------------------------------------------- the code stays in the interval

  /** The message extends what was written, and its continuation, read as the
      decoder reads it, lies in the encoder's interval. */
  predicate Inside(m: seq<u8>, e: Enc) {
    e.out <= m && e.low <= Window(m, |e.out|) < e.low + e.range
  }

  lemma {:induction false} NormalizeBack(m: seq<u8>, e: Enc)
    requires Legal(e.low, e.range)
    requires Inside(m, Normalize(e))
    ensures Inside(m, e)
    decreases Phase(e.low, e.range), Fuel(e.low, e.range)
  {
    if NeedsByte(e.low, e.range) {
      ShiftOutIsLegal(e);
      NormalizeBack(m, ShiftOut(e));
      NoCarry(e.low, e.range);
      WindowShift(m, |e.out|);
      assert m[|e.out|] == ShiftOut(e).out[|e.out|];
    }
  }

  lemma NarrowBack(m: seq<u8>, n: Enc, op: Op)
    requires ValidOp(op) && 0 <= n.low && MAX_RANGE <= n.range && n.low + n.range <= TWO64
    requires Inside(m, Narrow(n, op))
    ensures Inside(m, n)
  {
    NarrowBounds(n, op);
  }

  /** Coding a symbol only shrinks the set of codes that continue the output. */
  lemma EncodeOpBack(m: seq<u8>, e: Enc, op: Op)
    requires ValidOp(op) && Ready(e, op.shape) && e.range != 0
    requires Inside(m, EncodeOp(e, op))
    ensures Inside(m, Open(e, op.shape)) && Inside(m, e)
  {
    NarrowBack(m, Open(e, op.shape), op);
    NormalizeBack(m, e);
  }

  // ------------------------------------------------------------------ finish

  /** The last byte(s): none for low == 0, otherwise one, or two when range < Top. */
  function LastBytes(n: Enc): seq<u8>
    requires Legal(n.low, n.range)
  {
    var v := Wrap(n.low + n.range - 1);
    if n.low == 0 then []
    else if n.range < TOP then [v / TOP, Shl8(v) / TOP]
    else [v / TOP]
  }

  function Finish(e: Enc): (m: seq<u8>)
    requires Legal(e.low, e.range)
    ensures e.out <= m
  {
    Normalize(e).out + LastBytes(Normalize(e))
  }

  lemma TopDigits(v: int)
    requires 0 <= v < TWO64
    ensures v - TOP < v / TOP * TOP <= v
    ensures v - MAX_RANGE < v / TOP * TOP + Shl8(v) / TOP * MAX_RANGE <= v
  {
    Shl8Drops(v);
    var rest := v % TOP;
    assert rest - MAX_RANGE < 256 * rest / TOP * MAX_RANGE <= rest;
  }

  /** A message that ends with the window's first two bytes. */
  lemma ShortWindow(m: seq<u8>, k: nat)
    requires |m| <= k + 2
    ensures Window(m, k) == ByteAt(m, k) * TOP + ByteAt(m, k + 1) * MAX_RANGE
  {
    WindowBytes(m, k);
  }

  lemma FinishInside(e: Enc)
    requires Legal(e.low, e.range)
    ensures Inside(Finish(e), e)
    ensures |Finish(e)| <= |Normalize(e).out| + 2
  {
    var n, m := Normalize(e), Finish(e);
    var v := n.low + n.range - 1;
    WrapSmall(v);
    TopDigits(v);
    ShortWindow(m, |n.out|);
    NormalizeBack(m, e);
  }

  /** Of all ways to complete the bytes shifted out, none is shorter if the range is at least
      2^56, and none is shorter by more than one byte otherwise. */
  lemma FinishShort(e: Enc, m: seq<u8>)
    requires Legal(e.low, e.range) && Inside(m, Normalize(e))
    ensures |Finish(e)| <= |m| + if Normalize(e).range < TOP then 1 else 0
  {
    hide Normalize;
    var n := Normalize(e);
    if |m| == |n.out| {
      ShortWindow(m, |n.out|);
    }
  }

  /** The last bytes are as few as possible exactly if there is none, or one, or the interval ends
      at a multiple of 2^56: otherwise that multiple alone, in one byte, would have done. */
  lemma FinishShortest(e: Enc)
    requires Legal(e.low, e.range)
    ensures (forall m: seq<u8> :: Inside(m, Normalize(e)) ==> |Finish(e)| <= |m|)
            <==> (var n := Normalize(e); n.low == 0 || n.range >= TOP || (n.low + n.range) % TOP == 0)
  {
    hide Normalize;
    var n := Normalize(e);
    if n.low != 0 && n.range < TOP && (n.low + n.range) % TOP != 0 {
      var b := BoundaryByte(n);
      var m := n.out + [b];
      ShortWindow(m, |n.out|);
      assert Inside(m, n) && |m| < |Finish(e)|;
    } else {
      forall m: seq<u8> | Inside(m, n)
        ensures |Finish(e)| <= |m|
      {
        FinishShort(e, m);
        if n.low != 0 && |m| == |n.out| + 1 {
          ShortWindow(m, |n.out|);
          NoBoundary(n, m[|n.out|]);
        }
      }
    }
  }

  /** Of the messages as long as the finished one its last bytes are the largest. */
  lemma FinishLargest(e: Enc, m: seq<u8>)
    requires Legal(e.low, e.range) && Inside(m, Normalize(e)) && |m| == |Finish(e)|
    ensures Window(m, |Normalize(e).out|) <= Window(Finish(e), |Normalize(e).out|)
  {
    hide Normalize;
    var n, f := Normalize(e), Finish(e);
    var v, k := n.low + n.range - 1, |n.out|;
    WrapSmall(v);
    Shl8Drops(v);
    ShortWindow(m, k);
    ShortWindow(f, k);
    LargestDigits(v, ByteAt(m, k), ByteAt(m, k + 1));
  }

  lemma LargestDigits(v: int, a: u8, b: u8)
    requires 0 <= v < TWO64 && a * TOP + b * MAX_RANGE <= v
    ensures a * TOP + b * MAX_RANGE <= v / TOP * TOP + (256 * (v % TOP)) / TOP * MAX_RANGE
    ensures a <= v / TOP
  {
  }

  lemma BoundaryByte(n: Enc) returns (b: u8)
    requires Legal(n.low, n.range) && !SameTop(n.low, n.range) && n.range < TOP && (n.low + n.range) % TOP != 0
    ensures n.low <= b * TOP < n.low + n.range
  {
    var sum := n.low + n.range;
    assert sum < TWO64;
    assert sum == sum / TOP * TOP + sum % TOP && n.low == n.low / TOP * TOP + n.low % TOP;
    b := sum / TOP;
  }

  lemma NoBoundary(n: Enc, b: u8)
    requires Legal(n.low, n.range) && n.low <= b * TOP < n.low + n.range
    ensures n.range < TOP ==> (n.low + n.range) % TOP != 0
  {
    var sum := n.low + n.range;
    assert sum == sum / TOP * TOP + sum % TOP;
  }

  // ----------------------------------------------------------------- decoder

  /** Decoder state: `pos` shifts done, and registers mirroring the encoder's. */
  datatype Dec = Dec(pos: nat, low: int, range: int)

  predicate DecReady(d: Dec, s: Shape) {
    if d.range == 0 then !s.Table? else Legal(d.low, d.range)
  }

  /** On a message that no encoder wrote the interval need not be legal. */
  predicate DecLive(d: Dec, s: Shape) {
    if d.range == 0 then !s.Table? else Live(d.low, d.range)
  }

  function DecShift(d: Dec): Dec {
    Dec(d.pos + 1, Shl8(d.low), Shl8(Clipped(d.low, d.range)))
  }

  /** Renormalising ends from every state with a range that is not 0. */
  function DecNormalize(d: Dec): (n: Dec)
    requires Live(d.low, d.range)
    ensures Live(n.low, n.range) && !SameTop(n.low, n.range) && MAX_RANGE <= n.range
    ensures Legal(d.low, d.range) ==> Legal(n.low, n.range)
    decreases Excess(d.low, d.range), Phase(d.low, d.range), Fuel(d.low, d.range)
  {
    if NeedsByte(d.low, d.range) then
      ShiftKeepsLive(d.low, d.range);
      DecNormalize(DecShift(d))
    else d
  }

  function DecOpen(d: Dec, s: Shape): (n: Dec)
    requires ValidShape(s) && DecLive(d, s)
    ensures 0 <= n.low < TWO64 && MAX_RANGE <= n.range <= TWO64
    ensures DecReady(d, s) ==> n.low + n.range <= TWO64
  {
    if d.range == 0 then Dec(d.pos, 0, Full(s)) else DecNormalize(d)
  }

  /** The share of Total(s) that the code register points at. */
  function Share(m: seq<u8>, n: Dec, s: Shape): int
    requires ValidShape(s) && MAX_RANGE <= n.range
  {
    (Window(m, n.pos) - n.low) / Part(Enc([], n.low, n.range), s)
  }

  /** The code register points into one of the slices of s: true of every message
      that an encoder produced with the same fields. */
  predicate Answers(m: seq<u8>, d: Dec, s: Shape) {
    ValidShape(s) && DecReady(d, s) && 0 <= Share(m, DecOpen(d, s), s) < Total(s)
  }

  /** The symbol whose slice contains share x. */
  function Locate(s: Shape, x: int): (symbol: int)
    requires ValidShape(s) && 0 <= x < Total(s)
    ensures 0 <= symbol < Count(s)
    ensures Start(s, symbol) <= x < Start(s, symbol) + Width(s, symbol)
  {
    match s
    case Uniform(_) => x
    case Bit(f) => if x < f then 0 else 1
    case Table(base) => CountUpTo(base, x)
  }

  /** How many leading entries of the table are at most x. */
  function CountUpTo(base: seq<int>, x: int): (n: nat)
    ensures n <= |base|
    ensures forall i :: 0 <= i < n ==> base[i] <= x
    ensures n < |base| ==> x < base[n]
  {
    if base == [] || x < base[0] then 0
    else
      assert forall i :: 1 <= i < |base| ==> base[i] == base[1..][i - 1];
      1 + CountUpTo(base[1..], x)
  }

  lemma LocateInverts(s: Shape, symbol: int, x: int)
    requires ValidShape(s) && 0 <= symbol < Count(s) && 0 <= x < Total(s)
    requires Start(s, symbol) <= x < Start(s, symbol) + Width(s, symbol)
    ensures Locate(s, x) == symbol
  {
  }

  datatype Decoded = Decoded(symbol: int, state: Dec)

  function DecodeOp(m: seq<u8>, d: Dec, s: Shape): Decoded
    requires Answers(m, d, s)
  {
    var n := DecOpen(d, s);
    var symbol := Locate(s, Share(m, n, s));
    var r := Narrow(Enc([], n.low, n.range), Op(s, symbol));
    Decoded(symbol, Dec(n.pos, r.low, r.range))
  }

  /** Same registers, and as many bytes shifted in as were shifted out. */
  predicate InStep(e: Enc, d: Dec) {
    d.low == e.low && d.range == e.range && d.pos == |e.out|
  }

  lemma {:induction false} NormalizeInStep(e: Enc, d: Dec)
    requires Legal(e.low, e.range) && InStep(e, d)
    ensures InStep(Normalize(e), DecNormalize(d))
    decreases Phase(e.low, e.range), Fuel(e.low, e.range)
  {
    if NeedsByte(e.low, e.range) {
      ShiftOutIsLegal(e);
      NormalizeInStep(ShiftOut(e), DecShift(d));
    }
  }

  lemma ShareInSlice(code: int, low: int, r: int, lo: int, w: int)
    requires 0 < r
    requires low + lo * r <= code < low + lo * r + w * r
    ensures lo <= (code - low) / r < lo + w
  {
    var q := (code - low) / r;
    assert code - low == q * r + (code - low) % r;
    assert (lo + w) * r == lo * r + w * r;
    assert q < lo ==> (q + 1) * r <= lo * r;
    assert lo + w <= q ==> (lo + w) * r <= q * r;
  }

  /** One symbol: a decoder in step with the encoder, reading a message that lies inside
      the interval after the symbol, returns the symbol and is in step again. */
  lemma DecodeFollowsEncode(m: seq<u8>, e: Enc, d: Dec, op: Op)
    requires ValidOp(op) && Ready(e, op.shape) && InStep(e, d)
    requires Inside(m, EncodeOp(e, op))
    ensures Answers(m, d, op.shape)
    ensures DecodeOp(m, d, op.shape).symbol == op.symbol
    ensures InStep(EncodeOp(e, op), DecodeOp(m, d, op.shape).state)
  {
    var o := Open(e, op.shape);
    if e.range != 0 {
      NormalizeInStep(e, d);
    }
    var n := DecOpen(d, op.shape);
    assert InStep(o, n);
    var r := Part(o, op.shape);
    ShareInSlice(Window(m, n.pos), n.low, r, Start(op.shape, op.symbol), Width(op.shape, op.symbol));
    LocateInverts(op.shape, op.symbol, Share(m, n, op.shape));
  }

  // -------------------------------------------------------------- sequences

  predicate ValidOps(e: Enc, ops: seq<Op>) {
    && (forall i :: 0 <= i < |ops| ==> ValidOp(ops[i]))
    && (e.range == 0 || Legal(e.low, e.range))
    && (e.range == 0 && ops != [] ==> !ops[0].shape.Table?)
  }

  /** The encoder's state after each of the symbols. */
  function EncodeAll(e: Enc, ops: seq<Op>): (n: Enc)
    requires ValidOps(e, ops)
    ensures ops != [] ==> Legal(n.low, n.range)
    ensures e.range != 0 ==> Legal(n.low, n.range)
    ensures e.out <= n.out
    decreases |ops|
  {
    if ops == [] then e
    else
      EncodeOpIsLegal(e, ops[0]);
      EncodeAll(EncodeOp(e, ops[0]), ops[1..])
  }

  function Shapes(ops: seq<Op>): seq<Shape> {
    seq(|ops|, i requires 0 <= i < |ops| => ops[i].shape)
  }

  /** The symbols and states a decoder goes through on message m. It stops where the
      message could not have been encoded with these fields. */
  function DecodeAll(m: seq<u8>, d: Dec, shapes: seq<Shape>): (r: seq<Decoded>)
    ensures |r| <= |shapes|
    decreases |shapes|
  {
    if shapes == [] || !Answers(m, d, shapes[0]) then []
    else
      var first := DecodeOp(m, d, shapes[0]);
      [first] + DecodeAll(m, first.state, shapes[1..])
  }

  lemma {:induction false} EncodeAllBack(m: seq<u8>, e: Enc, ops: seq<Op>)
    requires ValidOps(e, ops) && e.range != 0
    requires Inside(m, EncodeAll(e, ops))
    ensures Inside(m, e)
    decreases |ops|
  {
    if ops != [] {
      EncodeOpIsLegal(e, ops[0]);
      EncodeAllBack(m, EncodeOp(e, ops[0]), ops[1..]);
      EncodeOpBack(m, e, ops[0]);
    }
  }

  /** Every decoded symbol is the encoded one, and the registers agree after each. */
  ghost predicate AllInStep(e: Enc, ops: seq<Op>, rs: seq<Decoded>)
    requires ValidOps(e, ops)
    decreases |ops|
  {
    if ops == [] || rs == [] then |rs| == |ops|
    else
      EncodeOpIsLegal(e, ops[0]);
      && rs[0].symbol == ops[0].symbol
      && InStep(EncodeOp(e, ops[0]), rs[0].state)
      && AllInStep(EncodeOp(e, ops[0]), ops[1..], rs[1..])
  }

  lemma AllInStepSize(e: Enc, ops: seq<Op>, rs: seq<Decoded>)
    requires ValidOps(e, ops) && AllInStep(e, ops, rs)
    ensures |rs| == |ops|
    decreases |ops|
  {
    if ops != [] && rs != [] {
      EncodeOpIsLegal(e, ops[0]);
      AllInStepSize(EncodeOp(e, ops[0]), ops[1..], rs[1..]);
    }
  }

  lemma {:induction false} DecodeAllFollows(m: seq<u8>, e: Enc, d: Dec, ops: seq<Op>)
    requires ValidOps(e, ops) && InStep(e, d)
    requires ops != [] ==> Inside(m, EncodeAll(e, ops))
    ensures AllInStep(e, ops, DecodeAll(m, d, Shapes(ops)))
    decreases |ops|
  {
    if ops != [] {
      EncodeOpIsLegal(e, ops[0]);
      var e' := EncodeOp(e, ops[0]);
      EncodeAllBack(m, e', ops[1..]);
      DecodeFollowsEncode(m, e, d, ops[0]);
      assert Shapes(ops)[1..] == Shapes(ops[1..]);
      DecodeAllFollows(m, e', DecodeOp(m, d, ops[0].shape).state, ops[1..]);
    }
  }

  lemma {:induction false} AllInStepAt(e: Enc, ops: seq<Op>, rs: seq<Decoded>, i: nat)
    requires ValidOps(e, ops) && AllInStep(e, ops, rs) && i < |ops| == |rs|
    ensures rs[i].symbol == ops[i].symbol
    ensures InStep(EncodeAll(e, ops[..i + 1]), rs[i].state)
    decreases |ops|
  {
    EncodeOpIsLegal(e, ops[0]);
    var e' := EncodeOp(e, ops[0]);
    assert ops[..i + 1][1..] == ops[1..][..i];
    if i == 0 {
      assert EncodeAll(e', []) == e';
    } else {
      AllInStepAt(e', ops[1..], rs[1..], i - 1);
    }
  }

  /** The round trip. Any nonempty sequence of fields, encoded from scratch and finished,
      decodes from exactly the emitted bytes to the same symbols, with the decoder's
      registers equal to the encoder's after every symbol. */
  lemma RoundTrip(ops: seq<Op>)
    requires ops != [] && ValidOps(Enc([], 0, 0), ops)
    ensures var m := Finish(EncodeAll(Enc([], 0, 0), ops));
            var decoded := DecodeAll(m, Dec(0, 0, 0), Shapes(ops));
            && |decoded| == |ops|
            && (forall i :: 0 <= i < |ops| ==> decoded[i].symbol == ops[i].symbol)
            && (forall i :: 0 <= i < |ops| ==>
                  InStep(EncodeAll(Enc([], 0, 0), ops[..i + 1]), decoded[i].state))
  {
    var e := Enc([], 0, 0);
    FinishInside(EncodeAll(e, ops));
    var decoded := DecodeAll(Finish(EncodeAll(e, ops)), Dec(0, 0, 0), Shapes(ops));
    DecodeAllFollows(Finish(EncodeAll(e, ops)), e, Dec(0, 0, 0), ops);
    AllInStepSize(e, ops, decoded);
    forall i | 0 <= i < |ops|
      ensures decoded[i].symbol == ops[i].symbol && InStep(EncodeAll(e, ops[..i + 1]), decoded[i].state)
    {
      AllInStepAt(e, ops, decoded, i);
    }
  }
}
