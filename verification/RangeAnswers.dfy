/** What a decoder makes of any message, field by field, and when that is what an encoder wrote. */
module RangeAnswers {
  import opened PowersOfTwo
  import opened RangeCoderModel
  import opened RangeCoderRoundTrip

  /** An encoder that is in step with d. */
  ghost function Mirror(d: Dec): Enc {
    Enc(seq(d.pos, i => 0), d.low, d.range)
  }

  /** Decoding moves the registers exactly as encoding the decoded symbol does. */
  lemma DecodeMovesAsEncode(m: seq<u8>, d: Dec, s: Shape)
    requires Answers(m, d, s)
    ensures InStep(Open(Mirror(d), s), DecOpen(d, s))
    ensures InStep(EncodeOp(Mirror(d), Op(s, DecodeOp(m, d, s).symbol)), DecodeOp(m, d, s).state)
    ensures Legal(DecodeOp(m, d, s).state.low, DecodeOp(m, d, s).state.range)
  {
    if d.range != 0 {
      NormalizeInStep(Mirror(d), d);
    }
    EncodeOpIsLegal(Mirror(d), Op(s, DecodeOp(m, d, s).symbol));
  }

  /** The quotient of the source, whatever the message. */
  function Quota(m: seq<u8>, d: Dec, s: Shape): int
    requires ValidShape(s) && DecLive(d, s)
  {
    var o := DecOpen(d, s);
    Wrap(Window(m, o.pos) - o.low) / Part(Enc([], o.low, o.range), s)
  }

  /** A quotient is kept in 32 bits, or in 16 for a table. */
  function Kept(s: Shape): (n: int)
    ensures n > 0
  {
    if s.Table? then TWO16 else TWO32
  }

  function Answer(m: seq<u8>, d: Dec, s: Shape): (symbol: int)
    requires ValidShape(s) && DecLive(d, s)
    ensures 0 <= symbol < Kept(s)
  {
    Quota(m, d, s) % Kept(s)
  }

  /** The quotient does not fit, and what is kept of it is small. */
  predicate Overflows(m: seq<u8>, d: Dec, s: Shape)
    requires ValidShape(s) && DecLive(d, s)
  {
    Quota(m, d, s) >= Kept(s) && Quota(m, d, s) % Kept(s) < Total(s)
  }

  /** The code register points into the part of the interval that the symbols share. */
  predicate InField(m: seq<u8>, d: Dec, s: Shape)
    requires ValidShape(s) && DecLive(d, s)
  {
    var o := DecOpen(d, s);
    o.low <= Window(m, o.pos) < o.low + Part(Enc([], o.low, o.range), s) * Total(s)
  }

  lemma AnswersInField(m: seq<u8>, d: Dec, s: Shape)
    requires ValidShape(s) && DecReady(d, s)
    ensures Answers(m, d, s) <==> InField(m, d, s)
  {
    var o := DecOpen(d, s);
    ShareBelow(Window(m, o.pos) - o.low, Part(Enc([], o.low, o.range), s), Total(s));
  }

  lemma ShareBelow(x: int, r: int, total: int)
    requires 0 < r
    ensures 0 <= x / r < total <==> 0 <= x < r * total
  {
    var q := x / r;
    assert x == r * q + x % r;
    if q < total {
      MulLe(q + 1, total, r);
    } else {
      MulLe(total, q, r);
    }
    if q >= 0 {
      MulLe(0, q, r);
    } else {
      MulLe(q, -1, r);
    }
  }

  /** A code outside the interval, below it too, gives a quotient that is too large. */
  lemma AnswerOrOverflow(m: seq<u8>, d: Dec, s: Shape)
    requires ValidShape(s) && DecReady(d, s)
    ensures Total(s) < Kept(s) ==> (Answer(m, d, s) < Total(s) <==> Answers(m, d, s) || Overflows(m, d, s))
    ensures Answers(m, d, s) ==> Answer(m, d, s) == Share(m, DecOpen(d, s), s) && !Overflows(m, d, s)
  {
    hide Quota, Share, DecOpen, ValidShape, Total, Kept;
    TotalKept(s);
    QuotaOrShare(m, d, s);
    var q := Quota(m, d, s);
    if 0 <= q < Kept(s) {
      SmallRemainder(q, Kept(s));
    }
  }

  lemma SmallRemainder(q: int, n: int)
    requires 0 <= q < n
    ensures q % n == q
  {
  }

  lemma TotalKept(s: Shape)
    requires ValidShape(s)
    ensures Total(s) <= Kept(s)
  {
  }

  lemma QuotaOrShare(m: seq<u8>, d: Dec, s: Shape)
    requires ValidShape(s) && DecReady(d, s)
    ensures var share := Share(m, DecOpen(d, s), s);
            if share < 0 then Quota(m, d, s) >= Total(s) else Quota(m, d, s) == share
  {
    var o := DecOpen(d, s);
    WindowBytes(m, o.pos);
    OutsideIsLarge(Window(m, o.pos), o.low, o.range, Part(Enc([], o.low, o.range), s), Total(s));
  }

  lemma OutsideIsLarge(code: int, low: int, range: int, r: int, total: int)
    requires 0 <= code < TWO64 && 0 <= low && low + range <= TWO64 && 0 < r && 0 < total <= TWO32 && r * total <= range
    ensures low <= code ==> Wrap(code - low) / r == (code - low) / r >= 0
    ensures code < low ==> Wrap(code - low) / r >= total && (code - low) / r < 0
  {
    if code < low {
      assert Wrap(code - low) == TWO64 + code - low >= r * total;
      var q := Wrap(code - low) / r;
      assert Wrap(code - low) == q * r + Wrap(code - low) % r;
      assert q < total ==> (q + 1) * r <= total * r by {
        if q < total {
          MulLe(q + 1, total, r);
        }
      }
    }
  }

  /** A first field's quotient always fits. */
  lemma FirstAnswer(m: seq<u8>, d: Dec, total: int)
    requires ValidShape(Uniform(total)) && d.range == 0
    ensures Answer(m, d, Uniform(total)) <= total && !Overflows(m, d, Uniform(total))
  {
    hide Quota, Window, Digits, DecNormalize;
    FirstQuota(m, d, total);
  }

  lemma FirstQuota(m: seq<u8>, d: Dec, total: int)
    requires ValidShape(Uniform(total)) && d.range == 0
    ensures 0 <= Quota(m, d, Uniform(total)) <= total
  {
    hide Window, Digits, DecNormalize;
    WindowBytes(m, d.pos);
    WrapSmall(Window(m, d.pos));
    AtMostAll(Window(m, d.pos), total);
  }

  /** A message of eight bytes 255 makes a first Range return the total, which is no symbol. */
  lemma TotalItself(total: int)
    requires 1 <= total < TWO32
    ensures Answer(seq(8, _ => 255), Dec(0, 0, 0), Uniform(total)) == total
  {
    hide Window, Digits, DecNormalize, Quota;
    var m: seq<u8> := seq(8, _ => 255);
    WindowBytes(m, 0);
    assert Window(m, 0) == TWO64 - 1;
    AnswerInUniform(m, Dec(0, 0, 0), total);
    AllOverPart(total);
  }

  lemma AllOverPart(total: int)
    requires 1 <= total < TWO32
    ensures (TWO64 - 1) / total > 0 && (TWO64 - 1) / ((TWO64 - 1) / total) == total
  {
    var r, rest := (TWO64 - 1) / total, (TWO64 - 1) % total;
    LargePart(total);
    assert TWO64 - 1 == total * r + rest;
    ModUnique(TWO64 - 1, r, total, rest);
  }

  lemma AtMostAll(code: int, total: int)
    requires 0 <= code < TWO64 && 1 <= total < TWO32
    ensures (TWO64 - 1) / total > 0 && 0 <= code / ((TWO64 - 1) / total) <= total
  {
    LargePart(total);
    AtMost(code, (TWO64 - 1) / total, total);
  }

  lemma LargePart(total: int)
    requires 1 <= total < TWO32
    ensures var r := (TWO64 - 1) / total; TWO32 <= r && TWO64 - 1 < r * (total + 1)
  {
    var r, rest := (TWO64 - 1) / total, (TWO64 - 1) % total;
    assert TWO64 - 1 == total * r + rest;
    if r < TWO32 {
      MulLe(r + 1, TWO32, total);
    }
    assert r * (total + 1) == total * r + r;
  }

  lemma AtMost(code: int, r: int, total: int)
    requires 0 <= code < r * (total + 1) && 0 < r
    ensures 0 <= code / r <= total
  {
    var q := code / r;
    assert code == r * q + code % r;
    if q > total {
      MulLe(total + 1, q, r);
    }
  }

  /** The registers after a field, whatever the message. */
  function UniformNext(d: Dec, total: int, symbol: int): Dec
    requires ValidShape(Uniform(total)) && DecLive(d, Uniform(total))
  {
    var o := DecOpen(d, Uniform(total));
    Dec(o.pos, MulAdd(o.low, symbol, o.range / total), o.range / total)
  }

  /** The new range is as large as `total` of its kind fit into the old one, and every symbol
      moves the interval up by it. */
  lemma UniformNextMoves(d: Dec, total: int, symbol: nat)
    requires ValidShape(Uniform(total)) && DecLive(d, Uniform(total))
    ensures var o, n := DecOpen(d, Uniform(total)), UniformNext(d, total, symbol);
            && n.range * total <= o.range < n.range * total + total
            && UniformNext(d, total, 0) == Dec(o.pos, o.low, n.range)
            && UniformNext(d, total, symbol + 1) == n.(low := (n.low + n.range) % TWO64)
  {
    hide DecNormalize;
    var o := DecOpen(d, Uniform(total));
    var r := o.range / total;
    assert o.range == r * total + o.range % total;
    assert (symbol + 1) * r == symbol * r + r;
    OnceMore(o.low + symbol * r, r);
  }

  lemma OnceMore(x: int, r: int)
    ensures (x + r) % TWO64 == (x % TWO64 + r) % TWO64
  {
  }

  function BitNext(d: Dec, f: int, bit: int): Dec
    requires ValidShape(Bit(f)) && DecLive(d, Bit(f))
  {
    var o := DecOpen(d, Bit(f));
    var r := o.range / TWO32;
    if bit == 0 then Dec(o.pos, o.low, Scale(r, f)) else Dec(o.pos, MulAdd(o.low, f, r), Scale(r, TWO32 - f))
  }

  function TableNext(d: Dec, base: seq<int>, symbol: int): Dec
    requires ValidShape(Table(base)) && DecLive(d, Table(base)) && 0 <= symbol < Count(Table(base))
  {
    var o := DecOpen(d, Table(base));
    var r := o.range / TWO16;
    Dec(o.pos, MulAdd(o.low, Start(Table(base), symbol), r), Scale(r, Width(Table(base), symbol)))
  }

  /** The range never becomes 0. */
  lemma NextIsLive(d: Dec, s: Shape, symbol: int)
    requires ValidShape(s) && DecLive(d, s)
    ensures s.Uniform? ==> 0 < UniformNext(d, s.total, symbol).range < TWO64
    ensures s.Bit? ==> 0 < BitNext(d, s.frequency, symbol).range
    ensures s.Table? && 0 <= symbol < Count(s) ==> 0 < TableNext(d, s.base, symbol).range
  {
    hide DecNormalize, Start;
    var o := DecOpen(d, s);
    var r := Part(Enc([], o.low, o.range), s);
    match s
    case Uniform(total) =>
    case Bit(f) =>
      PartialProduct(o.range, r, f, TWO32);
      PartialProduct(o.range, r, TWO32 - f, TWO32);
    case Table(base) =>
      if 0 <= symbol < Count(s) {
        assert Width(s, symbol) < TWO16 by { TableWidth(base, symbol); }
        PartialProduct(o.range, r, Width(s, symbol), TWO16);
      }
  }

  lemma TableWidth(base: seq<int>, symbol: int)
    requires ValidBase(base) && 0 <= symbol < Count(Table(base))
    ensures Width(Table(base), symbol) < TWO16
  {
  }

  lemma PartialProduct(range: int, r: int, w: int, total: int)
    requires 0 < r && 0 < w < total && r * total <= range <= TWO64
    ensures 0 < Scale(r, w)
  {
    MulLe(1, w, r);
    MulLe(w + 1, total, r);
    WrapSmall(r * w);
  }

  /** Moving on as the encoder does with any symbol of the field. */
  lemma UniformMoves(m: seq<u8>, d: Dec, total: int, symbol: int)
    requires ValidShape(Uniform(total)) && DecReady(d, Uniform(total)) && symbol == Answer(m, d, Uniform(total))
    ensures symbol < total <==> InField(m, d, Uniform(total)) || Overflows(m, d, Uniform(total))
    ensures d.range == 0 ==> symbol <= total && !Overflows(m, d, Uniform(total))
    ensures var n := UniformNext(d, total, symbol);
            && (symbol < total ==>
                  InStep(EncodeOp(Mirror(d), Op(Uniform(total), symbol)), n) && Legal(n.low, n.range) && n.range != 0)
            && (Answers(m, d, Uniform(total)) ==> Decoded(symbol, n) == DecodeOp(m, d, Uniform(total)))
  {
    hide Answer, Overflows, InField, Quota, Window, Normalize, DecNormalize;
    AnswerOrOverflow(m, d, Uniform(total));
    AnswersInField(m, d, Uniform(total));
    if d.range == 0 {
      FirstAnswer(m, d, total);
    } else {
      NormalizeInStep(Mirror(d), d);
    }
    if symbol < total {
      UniformStep(Mirror(d), total, symbol);
      EncodeOpIsLegal(Mirror(d), Op(Uniform(total), symbol));
    }
    if Answers(m, d, Uniform(total)) {
      UniformDecodeStep(m, d, total);
    }
  }

  lemma AnswerInUniform(m: seq<u8>, d: Dec, total: int)
    requires ValidShape(Uniform(total)) && DecLive(d, Uniform(total))
    ensures var o := DecOpen(d, Uniform(total));
            Answer(m, d, Uniform(total)) == Wrap(Window(m, o.pos) - o.low) / (o.range / total) % TWO32
    ensures d.range == 0 ==> Answer(m, d, Uniform(total)) == Window(m, d.pos) / ((TWO64 - 1) / total) % TWO32
  {
    WindowBytes(m, d.pos);
    WrapSmall(Window(m, d.pos));
    hide Window, DecNormalize;
  }

  lemma QuotaInUniform(m: seq<u8>, d: Dec, total: int)
    requires ValidShape(Uniform(total)) && d.range != 0 && DecLive(d, Uniform(total))
    ensures var o := DecNormalize(d); Quota(m, d, Uniform(total)) == Wrap(Window(m, o.pos) - o.low) / (o.range / total)
  {
  }

  /** With few symbols eight bits of the quotient are enough. */
  lemma SmallMoves(m: seq<u8>, d: Dec, total: int)
    requires Answers(m, d, Uniform(total)) && total <= 256
    ensures var symbol := Quota(m, d, Uniform(total)) % 256;
            && Decoded(symbol, UniformNext(d, total, symbol)) == DecodeOp(m, d, Uniform(total))
            && Legal(UniformNext(d, total, symbol).low, UniformNext(d, total, symbol).range)
  {
    hide Quota, Window, DecNormalize, DecodeOp, Answers;
    var x := DecodeOp(m, d, Uniform(total)).symbol;
    UniformDecodeStep(m, d, total);
    SmallQuota(m, d, total);
    SmallRemainder(x, 256);
  }

  lemma SmallQuota(m: seq<u8>, d: Dec, total: int)
    requires Answers(m, d, Uniform(total))
    ensures 0 <= DecodeOp(m, d, Uniform(total)).symbol == Quota(m, d, Uniform(total)) < total
  {
    hide Quota, Window, DecNormalize;
    QuotaOrShare(m, d, Uniform(total));
  }

  lemma BitMoves(m: seq<u8>, d: Dec, f: int, bit: int)
    requires ValidShape(Bit(f)) && DecReady(d, Bit(f)) && bit == if Answer(m, d, Bit(f)) < f then 0 else 1
    ensures var n := BitNext(d, f, bit);
            && InStep(EncodeOp(Mirror(d), Op(Bit(f), bit)), n) && Legal(n.low, n.range) && n.range != 0
            && (d.range == 0 ==> Answers(m, d, Bit(f)))
            && (Answers(m, d, Bit(f)) ==> Decoded(bit, n) == DecodeOp(m, d, Bit(f)))
  {
    if d.range != 0 {
      NormalizeInStep(Mirror(d), d);
    } else {
      WindowBytes(m, d.pos);
    }
    BitStep(Mirror(d), f, bit);
    EncodeOpIsLegal(Mirror(d), Op(Bit(f), bit));
    if Answers(m, d, Bit(f)) {
      BitDecodeStep(m, d, f);
      AnswerOrOverflow(m, d, Bit(f));
    }
  }

  /** The comparison of the source, for a first bit and for a later one. */
  lemma AnswerInBits(m: seq<u8>, d: Dec, f: int)
    requires ValidShape(Bit(f)) && DecLive(d, Bit(f))
    ensures var o := DecOpen(d, Bit(f));
            Answer(m, d, Bit(f)) == Wrap(Window(m, o.pos) - o.low) / (o.range / TWO32) % TWO32
    ensures d.range == 0 ==> Answer(m, d, Bit(f)) == Window(m, d.pos) / TWO32
  {
    hide Window, DecNormalize;
    WindowBytes(m, d.pos);
    if d.range == 0 {
      WrapSmall(Window(m, d.pos));
      assert TWO64 / TWO32 == TWO32;
      HighWord(Window(m, d.pos));
    }
  }

  lemma HighWord(code: int)
    requires 0 <= code < TWO64
    ensures code / TWO32 % TWO32 == code / TWO32
  {
  }

  lemma ShareStart(code: int, low: int, r: int)
    requires 0 < r && 0 <= (code - low) / r
    ensures low <= code
  {
  }

  /** Decoding one field in the source's own arithmetic. */
  lemma UniformDecodeStep(m: seq<u8>, d: Dec, total: int)
    requires Answers(m, d, Uniform(total))
    ensures Legal(DecodeOp(m, d, Uniform(total)).state.low, DecodeOp(m, d, Uniform(total)).state.range)
    ensures var o := DecOpen(d, Uniform(total));
            var r := o.range / total;
            var x := (Window(m, o.pos) - o.low) / r;
            && o.low <= Window(m, o.pos)
            && DecodeOp(m, d, Uniform(total)) == Decoded(x, Dec(o.pos, MulAdd(o.low, x, r), r))
  {
    DecodeMovesAsEncode(m, d, Uniform(total));
    UniformStep(Mirror(d), total, DecodeOp(m, d, Uniform(total)).symbol);
    var o := DecOpen(d, Uniform(total));
    ShareStart(Window(m, o.pos), o.low, o.range / total);
  }

  lemma BitDecodeStep(m: seq<u8>, d: Dec, f: int)
    requires Answers(m, d, Bit(f))
    ensures Legal(DecodeOp(m, d, Bit(f)).state.low, DecodeOp(m, d, Bit(f)).state.range)
    ensures var o := DecOpen(d, Bit(f));
            var r := o.range / TWO32;
            var x := (Window(m, o.pos) - o.low) / r;
            && o.low <= Window(m, o.pos)
            && (d.range == 0 ==> r == TWO32)
            && DecodeOp(m, d, Bit(f))
               == (if x < f then Decoded(0, Dec(o.pos, o.low, Scale(r, f)))
                   else Decoded(1, Dec(o.pos, MulAdd(o.low, f, r), Scale(r, TWO32 - f))))
  {
    DecodeMovesAsEncode(m, d, Bit(f));
    BitStep(Mirror(d), f, DecodeOp(m, d, Bit(f)).symbol);
    var o := DecOpen(d, Bit(f));
    ShareStart(Window(m, o.pos), o.low, o.range / TWO32);
  }

  lemma TableDecodeStep(m: seq<u8>, d: Dec, base: seq<int>)
    requires Answers(m, d, Table(base))
    ensures Legal(DecodeOp(m, d, Table(base)).state.low, DecodeOp(m, d, Table(base)).state.range)
    ensures var o := DecNormalize(d);
            var r := o.range / TWO16;
            var x := (Window(m, o.pos) - o.low) / r;
            && o.low <= Window(m, o.pos) && 0 <= x < TWO16
            && DecodeOp(m, d, Table(base))
               == (var symbol := Locate(Table(base), x);
                   Decoded(symbol, Dec(o.pos, MulAdd(o.low, Start(Table(base), symbol), r),
                                       Scale(r, Width(Table(base), symbol)))))
  {
    DecodeMovesAsEncode(m, d, Table(base));
    TableStep(Mirror(d), base, DecodeOp(m, d, Table(base)).symbol);
    var o := DecNormalize(d);
    ShareStart(Window(m, o.pos), o.low, o.range / TWO16);
  }

  /** Any encoder in step with d moves as its mirror image does. */
  lemma MirrorAlike(e: Enc, d: Dec, op: Op, n: Dec)
    requires ValidOp(op) && Ready(e, op.shape) && InStep(e, d) && InStep(EncodeOp(Mirror(d), op), n)
    ensures InStep(EncodeOp(e, op), n)
  {
    if d.range != 0 {
      NormalizeInStep(e, d);
      NormalizeInStep(Mirror(d), d);
    }
  }

  lemma {:induction false} EncodeAllMore(e: Enc, ops: seq<Op>, op: Op)
    requires ValidOps(e, ops) && ValidOp(op) && Ready(EncodeAll(e, ops), op.shape)
    ensures ValidOps(e, ops + [op]) && EncodeAll(e, ops + [op]) == EncodeOp(EncodeAll(e, ops), op)
    decreases |ops|
  {
    EncodeOpIsLegal(EncodeAll(e, ops), op);
    if ops == [] {
      assert ([] + [op])[1..] == [];
    } else {
      EncodeOpIsLegal(e, ops[0]);
      EncodeAllMore(EncodeOp(e, ops[0]), ops[1..], op);
      assert (ops + [op])[1..] == ops[1..] + [op];
    }
  }

  /** What a table field of any message decodes to, and when it is the one encoded. */
  lemma TableMoves(m: seq<u8>, d: Dec, base: seq<int>)
    requires ValidShape(Table(base)) && DecLive(d, Table(base))
    ensures var o := DecNormalize(d);
            Answer(m, d, Table(base)) == Wrap(Window(m, o.pos) - o.low) / (o.range / TWO16) % TWO16
    ensures var symbol := Locate(Table(base), Answer(m, d, Table(base)));
            Answers(m, d, Table(base)) ==>
              && Decoded(symbol, TableNext(d, base, symbol)) == DecodeOp(m, d, Table(base))
              && Legal(TableNext(d, base, symbol).low, TableNext(d, base, symbol).range)
  {
    hide Window, DecNormalize, Locate, Start, Width;
    if Answers(m, d, Table(base)) {
      TableDecodeStep(m, d, base);
      AnswerOrOverflow(m, d, Table(base));
    }
  }

  /** A decoder that follows an encoder decodes the next symbol and goes on following it. */
  lemma FollowOne(m: seq<u8>, e: Enc, d: Dec, ops: seq<Op>)
    requires ops != [] && InStep(e, d) && ValidOps(e, ops) && Inside(m, EncodeAll(e, ops))
    ensures Answers(m, d, ops[0].shape)
    ensures DecodeOp(m, d, ops[0].shape).symbol == ops[0].symbol
    ensures InStep(EncodeOp(e, ops[0]), DecodeOp(m, d, ops[0].shape).state)
    ensures ValidOps(EncodeOp(e, ops[0]), ops[1..])
    ensures Inside(m, EncodeAll(EncodeOp(e, ops[0]), ops[1..]))
  {
    EncodeOpIsLegal(e, ops[0]);
    EncodeAllBack(m, EncodeOp(e, ops[0]), ops[1..]);
    DecodeFollowsEncode(m, e, d, ops[0]);
  }
}
