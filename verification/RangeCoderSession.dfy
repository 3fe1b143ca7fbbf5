/** An encoder object and a decoder object over one buffer: what goes in comes out. */
module RangeCoderSession {
  import opened RangeCoderModel
  import opened RangeCoderRoundTrip
  import opened RangeAnswers
  import opened TextTables
  import opened RangeEncoding
  import opened RangeDecoding

  predicate Fields(ops: seq<Op>) {
    forall i :: 0 <= i < |ops| ==> ValidOp(ops[i]) && !ops[i].shape.Table?
  }

  /** A coder that has written nothing and coded nothing; its low register is arbitrary. */
  predicate Fresh(e: Enc) {
    e.out == [] && e.range == 0
  }

  lemma FreshAlike(e: Enc, e': Enc, ops: seq<Op>)
    requires Fresh(e) && Fresh(e') && ops != [] && ValidOps(e, ops)
    ensures ValidOps(e', ops) && EncodeAll(e, ops) == EncodeAll(e', ops)
  {
    assert EncodeOp(e, ops[0]) == EncodeOp(e', ops[0]);
  }

  /** The finished message for the given symbols. */
  ghost function Message(e: Enc, ops: seq<Op>): (m: seq<u8>)
    requires Fresh(e) && ops != [] && ValidOps(e, ops)
    ensures Inside(m, EncodeAll(e, ops))
  {
    FinishInside(EncodeAll(e, ops));
    Finish(EncodeAll(e, ops))
  }

  /** A new decoder follows the encoder that wrote its message. */
  method Start(m: seq<u8>, ghost e0: Enc, ghost ops: seq<Op>) returns (decoder: RangeDecoder, ghost at: Enc)
    requires Fresh(e0) && ops != [] && ValidOps(e0, ops) && Inside(m, EncodeAll(e0, ops))
    ensures fresh(decoder) && decoder.message == m && decoder.Valid() && decoder.Follows(at, ops)
  {
    decoder := new RangeDecoder(m);
    at := Enc([], decoder.low, 0);
    FreshAlike(e0, at, ops);
  }

  // ------------------------------------------------------------------ fields

  /** Encode and finish. It fails exactly when the message does not fit. */
  method WriteFields(ops: seq<Op>, buffer: array<u8>, ghost e0: Enc) returns (ok: bool, used: int)
    requires Fresh(e0) && ops != [] && Fields(ops)
    modifies buffer
    ensures ok <==> |Message(e0, ops)| <= buffer.Length
    ensures ok ==> 0 <= used <= buffer.Length && buffer[..used] == Message(e0, ops)
  {
    hide EncodeOp, Normalize, TopAgrees, ValidStats, Digits;
    var encoder := new RangeEncoder(buffer, buffer.Length);
    FreshAlike(e0, encoder.State(), ops);
    ghost var e, room, goal, rest := encoder.State(), encoder.remaining, EncodeAll(e0, ops), ops;
    var i := 0;
    while i < |ops|
      invariant 0 <= i <= |ops| && rest == ops[i..]
      invariant encoder.Valid() && encoder.On(e, room, goal, rest)
      invariant fresh(encoder)
    {
      ghost var f, s, left := encoder.failed, encoder.State(), encoder.remaining;
      match ops[i].shape {
        case Uniform(total) => encoder.Range(ops[i].symbol, total);
        case Bit(frequency) => encoder.BiasedBit(ops[i].symbol, frequency);
      }
      StepTowards(f, s, left, encoder.failed, encoder.State(), encoder.remaining, e, room, goal, rest);
      rest := rest[1..];
      i := i + 1;
    }
    encoder.FinishMessage();
    return !encoder.failed, encoder.limit - encoder.remaining;
  }

  /** Decode the finished message of some fields with those fields' shapes. */
  method ReadFields(m: seq<u8>, shapes: seq<Shape>, ghost ops: seq<Op>, ghost e0: Enc) returns (symbols: seq<int>)
    requires Fresh(e0) && ops != [] && Fields(ops) && shapes == Shapes(ops) && m == Message(e0, ops)
    ensures |symbols| == |ops| && forall i :: 0 <= i < |ops| ==> symbols[i] == ops[i].symbol
  {
    hide Answers, Answer, InField, Overflows, Legal, Window, Quota;
    symbols := [];
    var decoder, at := Start(m, e0, ops);
    ghost var rest := ops;
    while |symbols| < |shapes|
      invariant |symbols| <= |ops| && rest == ops[|symbols|..]
      invariant decoder.Valid() && decoder.Follows(at, rest)
      invariant fresh(decoder)
      invariant forall i :: 0 <= i < |symbols| ==> symbols[i] == ops[i].symbol
    {
      FollowOne(decoder.message, at, decoder.State(), rest);
      var symbol;
      match shapes[|symbols|] {
        case Uniform(total) => symbol := decoder.Range(total);
        case Bit(frequency) => symbol := decoder.BiasedBit(frequency);
      }
      at, rest := EncodeOp(at, rest[0]), rest[1..];
      symbols := symbols + [symbol];
    }
  }

  /** The symbols read belong to their fields. */
  predicate Sound(shapes: seq<Shape>, symbols: seq<int>) {
    |symbols| <= |shapes| && forall i :: 0 <= i < |symbols| ==> ValidOp(Op(shapes[i], symbols[i]))
  }

  function Ops(shapes: seq<Shape>, symbols: seq<int>): seq<Op>
    requires |symbols| <= |shapes|
  {
    seq(|symbols|, i requires 0 <= i < |symbols| => Op(shapes[i], symbols[i]))
  }

  /** Reading any fields from any message ends; and as long as every symbol belongs to its field,
      the decoder is in step with an encoder of these symbols. */
  method ReadAny(m: seq<u8>, shapes: seq<Shape>) returns (decoder: RangeDecoder, symbols: seq<int>, ghost e0: Enc)
    requires forall i :: 0 <= i < |shapes| ==> ValidShape(shapes[i]) && !shapes[i].Table?
    ensures fresh(decoder) && decoder.message == m && decoder.Reading() && |symbols| == |shapes| && Fresh(e0)
    ensures Sound(shapes, symbols) ==>
              ValidOps(e0, Ops(shapes, symbols)) && InStep(EncodeAll(e0, Ops(shapes, symbols)), decoder.State())
  {
    hide ValidOps, EncodeAll, InStep;
    symbols := [];
    decoder := new RangeDecoder(m);
    e0 := Enc([], decoder.low, 0);
    NothingRead(e0, decoder.State());
    assert Ops(shapes, symbols) == [];
    while |symbols| < |shapes|
      invariant |symbols| <= |shapes| && fresh(decoder) && decoder.message == m && decoder.Reading()
      invariant Sound(shapes, symbols) ==> decoder.Valid() && ValidOps(e0, Ops(shapes, symbols))
      invariant Sound(shapes, symbols) ==> InStep(EncodeAll(e0, Ops(shapes, symbols)), decoder.State())
    {
      ghost var d, before := decoder.State(), symbols;
      var symbol;
      match shapes[|symbols|] {
        case Uniform(total) => symbol := decoder.Range(total);
        case Bit(frequency) => symbol := decoder.BiasedBit(frequency);
      }
      symbols := symbols + [symbol];
      if Sound(shapes, symbols) {
        assert Sound(shapes, before) by { assert forall i :: 0 <= i < |before| ==> symbols[i] == before[i]; }
        ReadOn(e0, Ops(shapes, before), Op(shapes[|before|], symbol), d, decoder.State());
        assert Ops(shapes, symbols) == Ops(shapes, before) + [Op(shapes[|before|], symbol)];
      }
    }
  }

  lemma NothingRead(e0: Enc, d: Dec)
    requires Fresh(e0) && d == Dec(0, e0.low, 0)
    ensures ValidOps(e0, []) && InStep(EncodeAll(e0, []), d)
  {
  }

  lemma ReadOn(e0: Enc, ops: seq<Op>, op: Op, d: Dec, n: Dec)
    requires ValidOps(e0, ops) && InStep(EncodeAll(e0, ops), d) && ValidOp(op) && !op.shape.Table?
    requires (d.range == 0 || Legal(d.low, d.range)) && InStep(EncodeOp(Mirror(d), op), n)
    ensures ValidOps(e0, ops + [op]) && InStep(EncodeAll(e0, ops + [op]), n)
  {
    MirrorAlike(EncodeAll(e0, ops), d, op, n);
    EncodeAllMore(e0, ops, op);
  }

  // -------------------------------------------------------------------- text

  method WriteText(text: seq<u8>, stats: TableFormat, buffer: array<u8>, ghost e0: Enc) returns (ok: bool, used: int)
    requires Fresh(e0) && ValidStats(stats) && CString(text)
    modifies buffer
    ensures ok <==> |Message(e0, ChooseText(e0, buffer.Length, text, stats))| <= buffer.Length
    ensures ok ==> 0 <= used <= buffer.Length
                   && buffer[..used] == Message(e0, ChooseText(e0, buffer.Length, text, stats))
  {
    var encoder := new RangeEncoder(buffer, buffer.Length);
    FreshChoice(e0, encoder.State(), text, stats, buffer.Length);
    encoder.Text(text, stats);
    if encoder.failed {
      return false, 0;
    }
    encoder.FinishMessage();
    return !encoder.failed, encoder.limit - encoder.remaining;
  }

  lemma FreshChoice(e: Enc, e': Enc, text: seq<u8>, stats: TableFormat, room: int)
    requires Fresh(e) && Fresh(e') && ValidStats(stats) && CString(text)
    ensures ChooseText(e, room, text, stats) == ChooseText(e', room, text, stats)
    ensures EncodeAll(e, ChooseText(e, room, text, stats)) == EncodeAll(e', ChooseText(e', room, text, stats))
  {
    TextOpsAreValid(stats, false, text, e);
    FreshAlike(e, e', TextOps(stats, false, text));
    FreshAlike(e, e', ChooseText(e, room, text, stats));
  }

  /** Decode a string from a finished message, in either mode: the characters up to the
      first one missing from the tables, as far as the receiving buffer has room for them. */
  method ReadText(m: seq<u8>, stats: TableFormat, msg: array<u8>, bufferSize: int,
                  ghost text: seq<u8>, ghost uniform: bool, ghost e0: Enc)
    returns (length: int)
    requires Fresh(e0) && ValidStats(stats) && CString(text) && 1 <= bufferSize <= msg.Length
    requires ValidOps(e0, TextOps(stats, uniform, text)) && m == Message(e0, TextOps(stats, uniform, text))
    modifies msg
    ensures length == Min(|KnownPrefix(stats, text)|, bufferSize - 1)
    ensures msg[..length] == KnownPrefix(stats, text)[..length] && msg[length] == 0
  {
    var decoder, at := Start(m, e0, TextOps(stats, uniform, text));
    length := decoder.Text(msg, bufferSize, stats, at, uniform, text);
  }

  /** A string comes back whole exactly when the tables know all its characters. */
  lemma TextComesBackWhole(stats: TableFormat, text: seq<u8>)
    requires ValidStats(stats)
    ensures KnownPrefix(stats, text) == text <==>
            forall i :: 0 <= i < |text| ==> stats.char2index[text[i]] != 0
  {
    var k := KnownPrefix(stats, text);
    if |k| < |text| {
      assert stats.char2index[text[|k|]] == 0;
    }
  }
}
