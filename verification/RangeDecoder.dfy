/** The decoder object, updated in place, proved against RangeCoderRoundTrip. */
module RangeDecoding {
  import opened PowersOfTwo
  import opened RangeCoderModel
  import opened RangeCoderRoundTrip
  import opened RangeAnswers
  import opened TextTables

  function Place(b: int, weight: int): int {
    b * weight
  }

  class RangeDecoder {
    const message: seq<u8>
    var input: nat         // next byte to read, when any remain
    var remaining: nat
    var code: u64
    var low: u64
    var range: u64
    ghost var shifts: nat  // bytes shifted out of the code register so far

    /** The code register holds the message's bytes at the cursor. */
    ghost predicate Reading()
      reads this
    {
      && code == Window(message, shifts)
      && remaining == (if shifts + 8 <= |message| then |message| - shifts - 8 else 0)
      && (remaining > 0 ==> input == shifts + 8)
    }

    ghost predicate Valid()
      reads this
    {
      Reading() && (range != 0 ==> Legal(low, range))
    }

    ghost function State(): Dec
      reads this
    {
      Dec(shifts, low, range)
    }

    /** The message is what some encoder, now in step at e, went on to write with `ops`. */
    ghost predicate Follows(e: Enc, ops: seq<Op>)
      reads this
    {
      InStep(e, State()) && ValidOps(e, ops) && (ops != [] ==> Inside(message, EncodeAll(e, ops)))
    }

    constructor (m: seq<u8>)
      ensures message == m
      ensures Valid() && State().pos == 0 && range == 0
    {
      message := m;
      range := 0;
      low := *;
      shifts := 0;
      WindowBytes(m, 0);
      if |m| < 8 {
        var c: int := 0;
        if |m| >= 7 { c := c + Place(m[6], 0x100); }
        if |m| >= 6 { c := c + Place(m[5], 0x1_0000); }
        if |m| >= 5 { c := c + Place(m[4], 0x100_0000); }
        if |m| >= 4 { c := c + Place(m[3], TWO32); }
        if |m| >= 3 { c := c + Place(m[2], 0x100_0000_0000); }
        if |m| >= 2 { c := c + Place(m[1], MAX_RANGE); }
        if |m| >= 1 { c := c + Place(m[0], TOP); }
        code := c;
        remaining := 0;
        input := *;
      } else {
        code := Digits(m, 0, 8);
        input := 8;
        remaining := |m| - 8;
      }
    }

    /** Read in bytes as needed. The loop ends whatever the registers hold, if only the range is
        not 0, which it then never becomes. */
    method NormalizeRegisters()
      requires Reading() && range != 0
      modifies this
      ensures Reading() && State() == DecNormalize(old(State()))
    {
      hide TopAgrees;
      while TopAgrees(low, range) || range < MAX_RANGE
        invariant Reading() && range != 0
        invariant DecNormalize(State()) == DecNormalize(old(State()))
        decreases Excess(low, range), Phase(low, range), Fuel(low, range)
      {
        ShiftKeepsLive(low, range);
        if !TopAgrees(low, range) {
          range := (TWO64 - low) % MAX_RANGE;
        }
        ShiftIn();
      }
    }

    /** The loop's body: the code register takes the next byte, or a zero at the end. */
    method ShiftIn()
      requires Reading()
      modifies this
      ensures Reading()
      ensures State() == Dec(old(shifts) + 1, Shl8(old(low)), Shl8(old(range)))
    {
      WindowShift(message, shifts);
      WindowBytes(message, shifts + 1);
      code := Wrap(code * 256);
      if remaining != 0 {
        code := code + message[input];
        input := input + 1;
        remaining := remaining - 1;
      }
      low := Wrap(low * 256);
      range := Wrap(range * 256);
      shifts := shifts + 1;
    }

    /** A field with `total` equally likely values, from any message. If the message was in step
        so far, the symbol is below the total when the code register points into the field, or
        else when the quotient overflows; then the registers go on as an encoder's that has just
        coded it. */
    method Range(total: u32) returns (symbol: int)
      requires Reading() && 0 < total
      modifies this
      ensures Reading() && range != 0 && 0 <= symbol < 0x1_0000_0000
      ensures symbol == Answer(message, old(State()), Uniform(total))
      ensures State() == UniformNext(old(State()), total, symbol)
      ensures old(Valid()) ==>
                (symbol < total <==> InField(message, old(State()), Uniform(total))
                                     || Overflows(message, old(State()), Uniform(total)))
      ensures old(range) == 0 ==> symbol <= total && !Overflows(message, old(State()), Uniform(total))
      ensures old(Valid()) && symbol < total ==>
                Valid() && InStep(EncodeOp(Mirror(old(State())), Op(Uniform(total), symbol)), State())
      ensures old(Valid()) && Answers(message, old(State()), Uniform(total)) ==>
                Decoded(symbol, State()) == DecodeOp(message, old(State()), Uniform(total))
    {
      hide EncodeOp, InStep, DecodeOp, Answers, Answer, InField, Overflows, Legal, Window, TopAgrees, Phase, Fuel;
      ghost var d := State();
      AnswerInUniform(message, d, total);
      if range == 0 {
        range := Quotient(TWO64 - 1, total);
        symbol := Quotient(code, range) % TWO32;
        low := MulAdd(0, symbol, range);
      } else {
        NormalizeRegisters();
        range := Quotient(range, total);
        symbol := Quotient(Wrap(code - low), range) % TWO32;
        low := MulAdd(low, symbol, range);
      }
      NextIsLive(d, Uniform(total), symbol);
      if d.range == 0 || Legal(d.low, d.range) {
        UniformMoves(message, d, total, symbol);
      }
    }

    /** A biased bit from any message. If the message was in step so far, the registers go on as an
        encoder's that has just coded the bit returned. */
    method BiasedBit(frequency: u32) returns (bit: int)
      requires Reading() && 0 < frequency
      modifies this
      ensures Reading() && range != 0
      ensures bit == if Answer(message, old(State()), Bit(frequency)) < frequency then 0 else 1
      ensures State() == BitNext(old(State()), frequency, bit)
      ensures old(Valid()) ==>
                Valid() && InStep(EncodeOp(Mirror(old(State())), Op(Bit(frequency), bit)), State())
      ensures old(range) == 0 ==> Answers(message, old(State()), Bit(frequency))
      ensures old(Valid()) && Answers(message, old(State()), Bit(frequency)) ==>
                Decoded(bit, State()) == DecodeOp(message, old(State()), Bit(frequency))
    {
      hide EncodeOp, InStep, DecodeOp, Answers, Answer, Legal, Window, TopAgrees, Phase, Fuel;
      ghost var d := State();
      AnswerInBits(message, d, frequency);
      if range == 0 {
        if code / TWO32 < frequency {
          bit, low, range := 0, 0, Scale(TWO32, frequency);
        } else {
          bit, low, range := 1, MulAdd(0, frequency, TWO32), Scale(TWO32, TWO32 - frequency);
        }
      } else {
        NormalizeRegisters();
        range := Quotient(range, TWO32);
        var x := Quotient(Wrap(code - low), range) % TWO32;
        if x < frequency {
          bit, range := 0, Scale(range, frequency);
        } else {
          bit, low, range := 1, MulAdd(low, frequency, range), Scale(range, TWO32 - frequency);
        }
      }
      NextIsLive(d, Bit(frequency), bit);
      if d.range == 0 || Legal(d.low, d.range) {
        BitMoves(message, d, frequency, bit);
      }
    }

    /** Find the symbol whose interval holds freq by binary search between the table's bounds. */
    method GetTableSymbol(stats: TableFormat, last: int, freq: int)
      returns (symbol: int, symbolLow: int, symbolRange: int)
      requires ValidStats(stats) && 0 <= last < stats.total && 0 <= freq < TWO16
      ensures 0 <= symbol < stats.total && symbolLow <= freq < symbolLow + symbolRange
      ensures symbol == Locate(Table(stats.bases[last]), freq)
      ensures symbolLow == Start(Table(stats.bases[last]), symbol)
      ensures symbolRange == Width(Table(stats.bases[last]), symbol)
    {
      hide CountUpTo, LastUpTo, TopAgrees;
      var base := stats.bases[last];
      var below := stats.lutLow[last][freq / SYMBOL_LUT_WIDTH];
      var above := stats.lutHigh[last][freq / SYMBOL_LUT_WIDTH];
      LutBrackets(base, stats.lutLow[last], stats.lutHigh[last], freq);
      while below != above
        invariant 0 <= below <= LastUpTo(base, freq) <= above < |base|
        decreases above - below
      {
        var pivot := (above - below + 1) / 2 + below;
        LastUpToAt(base, freq, pivot);
        if freq >= base[pivot] {
          below := pivot;
        } else {
          above := pivot - 1;
        }
      }
      LastUpToAt(base, freq, 0);
      if below != 0 || freq >= base[0] {
        symbolLow := base[below];
        below := below + 1;
        if below == stats.total - 1 {
          symbolRange := TWO16 - symbolLow;
        } else {
          symbolRange := base[below] - symbolLow;
        }
        symbol := below;
      } else {
        symbolLow := 0;
        symbolRange := base[0];
        symbol := 0;
      }
    }

    /** One order-1 symbol of any message; the one encoded, if an encoder at e went on to write
        the message with `ops`. */
    method TableSymbol(stats: TableFormat, last: int, ghost e: Enc, ghost ops: seq<Op>) returns (symbol: int)
      requires Reading() && range != 0 && ValidStats(stats) && 0 <= last < stats.total
      modifies this
      ensures Reading() && range != 0 && 0 <= symbol < stats.total
      ensures symbol == Locate(Table(stats.bases[last]), Answer(message, old(State()), Table(stats.bases[last])))
      ensures ops != [] && ops[0].shape == Table(stats.bases[last]) && old(Follows(e, ops)) ==>
                symbol == ops[0].symbol && Follows(EncodeOp(e, ops[0]), ops[1..])
    {
      hide Answer, Answers, DecodeOp, EncodeOp, Inside, TopAgrees, Window, Locate, Start, Width;
      ghost var d, base := State(), stats.bases[last];
      TableMoves(message, d, base);
      if ops != [] && ops[0].shape == Table(base) && Follows(e, ops) {
        FollowOne(message, e, d, ops);
      }
      NormalizeRegisters();
      range := Quotient(range, TWO16);
      var x := Quotient(Wrap(code - low), range) % TWO16;
      var symbolLow, symbolRange;
      symbol, symbolLow, symbolRange := GetTableSymbol(stats, last, x);
      low := MulAdd(low, symbolLow, range);
      range := Scale(range, symbolRange);
      NextIsLive(d, Table(base), symbol);
    }

    /** One symbol of the uniform code, of which eight bits are kept. */
    method UniformSymbol(stats: TableFormat, ghost e: Enc, ghost ops: seq<Op>) returns (symbol: int)
      requires Reading() && range != 0 && ValidStats(stats)
      modifies this
      ensures Reading() && range != 0
      ensures 0 <= symbol < 256 && symbol == Quota(message, old(State()), Uniform(stats.total)) % 256
      ensures ops != [] && ops[0].shape == Uniform(stats.total) && old(Follows(e, ops)) ==>
                symbol == ops[0].symbol && Follows(EncodeOp(e, ops[0]), ops[1..])
    {
      hide Quota, Answers, DecodeOp, EncodeOp, Inside, TopAgrees, Window;
      ghost var d := State();
      QuotaInUniform(message, d, stats.total);
      if ops != [] && ops[0].shape == Uniform(stats.total) && Follows(e, ops) {
        FollowOne(message, e, d, ops);
        SmallMoves(message, d, stats.total);
      }
      NormalizeRegisters();
      range := Quotient(range, stats.total);
      symbol := Quotient(Wrap(code - low), range) % 256;
      low := MulAdd(low, symbol, range);
      NextIsLive(d, Uniform(stats.total), symbol);
    }

    /** The bit that says which mode follows. */
    method ModeBit(ghost e: Enc, ghost ops: seq<Op>) returns (mode: int)
      requires Reading()
      modifies this
      ensures Reading() && range != 0
      ensures ops != [] && ops[0].shape == Bit(MODE_FREQUENCY) && old(Follows(e, ops)) ==>
                mode == ops[0].symbol && Follows(EncodeOp(e, ops[0]), ops[1..])
    {
      hide Answer, Answers, DecodeOp, EncodeOp, Inside, TopAgrees, Window;
      if ops != [] && ops[0].shape == Bit(MODE_FREQUENCY) && Follows(e, ops) {
        FollowOne(message, e, State(), ops);
      }
      mode := BiasedBit(MODE_FREQUENCY);
    }

    /** Uniform mode: characters until the terminator or until the buffer is full. */
    method TextUniform(msg: array<u8>, bufferSize: int, stats: TableFormat, ghost e: Enc, ghost text: seq<u8>)
      returns (length: int)
      requires Reading() && range != 0 && ValidStats(stats)
      requires 1 <= bufferSize <= msg.Length
      modifies this, msg
      ensures Reading() && range != 0 && 0 <= length < bufferSize && msg[bufferSize..] == old(msg[bufferSize..])
      ensures CString(text) && old(Follows(e, UniformOps(stats, text))) ==>
                && length == Min(|KnownPrefix(stats, text)|, bufferSize - 1) && msg[..length] == text[..length]
                && (KnownPrefix(stats, text) == text && bufferSize >= |text| + 2 ==>
                      InStep(EncodeAll(e, UniformOps(stats, text)), State()))
    {
      hide TopAgrees, KnownPrefix, Window, Answers;
      ghost var at, ops0 := e, UniformOps(stats, text);
      ghost var ops, follows := ops0, CString(text) && Follows(e, ops0);
      length := 0;
      var size := bufferSize - 1;
      while size > 0
        invariant Reading() && range != 0 && size == bufferSize - 1 - length && 0 <= length < bufferSize
        invariant msg[bufferSize..] == old(msg[bufferSize..])
        invariant follows ==> Along(stats, text, msg[..length], e, ops0, at, ops) && Follows(at, ops)
        invariant follows ==> ops == UniformOps(stats, text[length..])
      {
        if follows {
          CharacterOp(stats, 0, text, length);
        }
        var symbol := UniformSymbol(stats, at, ops);
        if follows {
          AlongOn(stats, text, msg[..length], e, ops0, at, ops);
          at, ops := EncodeOp(at, ops[0]), ops[1..];
        }
        var last := stats.index2char[symbol];
        if last == 0 {
          return;
        }
        msg[length] := last;
        assert msg[..length + 1] == msg[..length] + [msg[length]];
        length := length + 1;
        size := size - 1;
      }
    }

    /** Order-1 mode: each character in the table of the one before it. */
    method TextOrder1(msg: array<u8>, bufferSize: int, stats: TableFormat, ghost e: Enc, ghost text: seq<u8>)
      returns (length: int)
      requires Reading() && range != 0 && ValidStats(stats)
      requires 1 <= bufferSize <= msg.Length
      modifies this, msg
      ensures Reading() && range != 0 && 0 <= length < bufferSize && msg[bufferSize..] == old(msg[bufferSize..])
      ensures CString(text) && old(Follows(e, Order1Ops(stats, 0, text))) ==>
                && length == Min(|KnownPrefix(stats, text)|, bufferSize - 1) && msg[..length] == text[..length]
                && (bufferSize >= |text| + 2 ==> InStep(EncodeAll(e, Order1Ops(stats, 0, text)), State()))
    {
      hide TopAgrees, KnownPrefix, Window, Answers, EncodeOp, Digits;
      ghost var at, ops0 := e, Order1Ops(stats, 0, text);
      ghost var ops, follows := ops0, CString(text) && Follows(e, ops0);
      length := 0;
      var last, size := 0, bufferSize - 1;
      while size > 0
        invariant Reading() && range != 0 && size == bufferSize - 1 - length && 0 <= length < bufferSize
        invariant msg[bufferSize..] == old(msg[bufferSize..]) && 0 <= last < stats.total
        invariant follows ==> Along(stats, text, msg[..length], e, ops0, at, ops) && Follows(at, ops)
        invariant follows ==> ops == Order1Ops(stats, last, text[length..])
      {
        if follows {
          CharacterOp(stats, last, text, length);
        }
        var symbol := TableSymbol(stats, last, at, ops);
        if follows {
          AlongOn(stats, text, msg[..length], e, ops0, at, ops);
          at, ops := EncodeOp(at, ops[0]), ops[1..];
        }
        last := symbol;
        if symbol == 0 {
          return;
        }
        msg[length] := stats.index2char[symbol];
        assert msg[..length + 1] == msg[..length] + [msg[length]];
        length := length + 1;
        size := size - 1;
      }
    }

    /** Decode a string into msg, which has room for bufferSize bytes, from any message. It is
        `text`, as far as the tables know it and the room goes, if the message holds here what an
        encoder in step wrote for it in one of the two modes. */
    method Text(msg: array<u8>, bufferSize: int, stats: TableFormat,
                ghost e: Enc, ghost uniform: bool, ghost text: seq<u8>)
      returns (length: int)
      requires Reading() && ValidStats(stats) && 1 <= bufferSize <= msg.Length
      modifies this, msg
      ensures Reading() && range != 0 && 0 <= length < bufferSize && msg[length] == 0
      ensures msg[bufferSize..] == old(msg[bufferSize..])
      ensures CString(text) && old(Follows(e, TextOps(stats, uniform, text))) ==>
                && length == Min(|KnownPrefix(stats, text)|, bufferSize - 1)
                && msg[..length] == KnownPrefix(stats, text)[..length]
                && (KnownPrefix(stats, text) == text && bufferSize >= |text| + 2 ==>
                      InStep(EncodeAll(e, TextOps(stats, uniform, text)), State()))
    {
      hide ValidStats, KnownPrefix, UniformOps, Order1Ops, TextOps, Window, CString, TopAgrees;
      ghost var ops, at := TextOps(stats, uniform, text), e;
      if CString(text) && Follows(e, ops) {
        TextOpsParts(stats, uniform, text);
        EncodeOpIsLegal(e, ops[0]);
        at := EncodeOp(e, ops[0]);
      }
      var mode := ModeBit(e, ops);
      if mode == 1 {
        length := TextUniform(msg, bufferSize, stats, at, text);
      } else {
        length := TextOrder1(msg, bufferSize, stats, at, text);
      }
      msg[length] := 0;
    }
  }

  /** Decoding a text that an encoder at e wrote with the operations ops0: after the first
      characters an encoder at `at` is in step, with `ops` to come. */
  ghost predicate Along(stats: TableFormat, text: seq<u8>, done: seq<u8>, e: Enc, ops0: seq<Op>, at: Enc, ops: seq<Op>)
    requires ValidStats(stats)
  {
    && CString(text) && |done| <= |KnownPrefix(stats, text)| && done == text[..|done|]
    && ValidOps(e, ops0) && ValidOps(at, ops) && EncodeAll(at, ops) == EncodeAll(e, ops0)
  }

  lemma AlongOn(stats: TableFormat, text: seq<u8>, done: seq<u8>, e: Enc, ops0: seq<Op>, at: Enc, ops: seq<Op>)
    requires ValidStats(stats) && Along(stats, text, done, e, ops0, at, ops) && ops != []
    ensures ValidOp(ops[0]) && Ready(at, ops[0].shape)
    ensures |done| < |KnownPrefix(stats, text)| ==>
              Along(stats, text, done + [text[|done|]], e, ops0, EncodeOp(at, ops[0]), ops[1..])
    ensures ops[1..] == [] ==> EncodeOp(at, ops[0]) == EncodeAll(e, ops0)
  {
    hide ValidStats, KnownPrefix, CString, EncodeOp;
    EncodeOpIsLegal(at, ops[0]);
  }

  /** The first operation for the text from position i on, and what is left. */
  lemma CharacterOp(t: TableFormat, last: int, text: seq<u8>, i: nat)
    requires ValidStats(t) && CString(text) && 0 <= last < t.total && i <= |KnownPrefix(t, text)|
    ensures var symbol := t.char2index[CharAt(text, i)];
            && (symbol == 0 <==> i == |KnownPrefix(t, text)|)
            && (i < |KnownPrefix(t, text)| ==> symbol != 0 && t.index2char[symbol] == text[i] != 0)
            && Order1Ops(t, last, text[i..])[0] == Op(Table(t.bases[last]), symbol)
            && UniformOps(t, text[i..])[0] == Op(Uniform(t.total), symbol)
            && (i < |text| ==> UniformOps(t, text[i..])[1..] == UniformOps(t, text[i + 1..]))
            && (i == |text| ==> UniformOps(t, text[i..])[1..] == [])
            && (symbol != 0 ==> Order1Ops(t, last, text[i..])[1..] == Order1Ops(t, symbol, text[i + 1..]))
            && (symbol == 0 ==> Order1Ops(t, last, text[i..])[1..] == [])
  {
    var k := KnownPrefix(t, text);
    assert CharAt(text, i) == CharAt(text[i..], 0);
    if i < |text| {
      assert text[i..][1..] == text[i + 1..];
    }
    if i < |k| {
      assert k[i] == text[i];
    }
  }

  function Min(a: int, b: int): int {
    if a <= b then a else b
  }
}
