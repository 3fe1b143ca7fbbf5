/** The encoder object, updated in place, proved against RangeCoderModel. */
module RangeEncoding {
  import opened PowersOfTwo
  import opened RangeCoderModel
  import opened RangeCoderRoundTrip
  import opened TextTables

  /** Bytes a coder would add to its output. */
  function Growth(e: Enc, n: Enc): int {
    |n.out| - |e.out|
  }

  /** Text's choice, given how many bytes may still be written: the uniform code when the
      order-1 attempt took at least as many bytes as that code would. */
  function ChoosesUniform(e: Enc, room: int, text: seq<u8>, stats: TableFormat): bool
    requires ValidStats(stats) && CString(text) && (e.range == 0 || Legal(e.low, e.range))
  {
    var order1 := TextOps(stats, false, text);
    TextOpsAreValid(stats, false, text, e);
    var used := Growth(e, EncodeAll(e, order1));
    (if used <= room then used else room) >= (|order1| - 1) * stats.log2total / 0x8000
  }

  function ChooseText(e: Enc, room: int, text: seq<u8>, stats: TableFormat): (ops: seq<Op>)
    requires ValidStats(stats) && CString(text) && (e.range == 0 || Legal(e.low, e.range))
    ensures ValidOps(e, ops) && ops != []
  {
    var uniform := ChoosesUniform(e, room, text, stats);
    TextOpsAreValid(stats, uniform, text, e);
    TextOps(stats, uniform, text)
  }

  /** A coder at s with `left` bytes of room is on its way from e, where it had `room`,
      to the state that coding `ops` from s reaches; or it has failed on the way. */
  ghost predicate Towards(failed: bool, s: Enc, left: int, e: Enc, room: int, goal: Enc, ops: seq<Op>) {
    if failed then Growth(e, goal) > room
    else ValidOps(s, ops) && EncodeAll(s, ops) == goal && left == room - Growth(e, s)
  }

  lemma StepTowards(failed: bool, s: Enc, left: int, failed': bool, s': Enc, left': int,
                    e: Enc, room: int, goal: Enc, ops: seq<Op>)
    requires Towards(failed, s, left, e, room, goal, ops) && ops != []
    requires failed ==> failed'
    requires !failed ==>
               && (failed' <==> Growth(s, EncodeOp(s, ops[0])) > left)
               && (!failed' ==> s' == EncodeOp(s, ops[0]) && left' == left - Growth(s, s'))
    ensures Towards(failed', s', left', e, room, goal, ops[1..])
  {
    if !failed {
      EncodeOpIsLegal(s, ops[0]);
    }
  }

  /** Where coding the text in one mode leads from e; nowhere when already failed. */
  ghost function Goal(failed: bool, e: Enc, room: int, stats: TableFormat, uniform: bool, text: seq<u8>): (goal: Enc)
    requires ValidStats(stats) && (!failed && e.range != 0 ==> Legal(e.low, e.range))
    requires failed ==> room < 0
    ensures Towards(failed, e, room, e, room, goal, TextOps(stats, uniform, text))
  {
    if failed then e
    else
      TextOpsAreValid(stats, uniform, text, e);
      EncodeAll(e, TextOps(stats, uniform, text))
  }

  class RangeEncoder {
    const buffer: array<u8>
    const limit: int
    var pos: nat          // output - start of the buffer
    var failed: bool      // output == 0
    var remaining: int
    var low: u64
    var range: u64

    ghost predicate Valid()
      reads this
    {
      && 0 <= remaining && pos + remaining <= buffer.Length
      && (failed ==> remaining == 0)
      && (!failed && range != 0 ==> Legal(low, range))
    }

    ghost function State(): Enc
      requires pos <= buffer.Length
      reads this, buffer
    {
      Enc(buffer[..pos], low, range)
    }

    /** After coding from e with `room` bytes left the object holds n, or it has failed
        because n needs more room. */
    ghost predicate Reached(e: Enc, room: int, n: Enc)
      requires pos <= buffer.Length
      reads this, buffer
    {
      && (failed <==> Growth(e, n) > room)
      && (!failed ==> State() == n && remaining == room - Growth(e, n))
    }

    /** What was written before stays, even when an operation fails. */
    twostate predicate Appends()
      reads this, buffer
    {
      old(pos) <= pos <= buffer.Length && buffer[..old(pos)] == old(buffer[..pos]) && (old(failed) ==> failed)
    }

    constructor (output: array<u8>, limit_i: int)
      requires 0 <= limit_i <= output.Length
      ensures buffer == output && limit == limit_i
      ensures Valid() && !failed && remaining == limit_i && range == 0
      ensures State().out == []
    {
      buffer := output;
      pos := 0;
      failed := false;
      limit := limit_i;
      remaining := limit_i;
      range := 0;
      low := *;
    }

    /** Write out bytes as needed. Never started, it runs out of room whatever the room. */
    method NormalizeRegisters()
      requires Valid()
      modifies this, buffer
      ensures Valid() && Appends()
      ensures !old(failed) && old(range) == 0 ==> failed
      ensures !old(failed) && old(range) != 0 ==> Reached(old(State()), old(remaining), Normalize(old(State())))
    {
      hide TopAgrees;
      ghost var live := !failed && range != 0;
      ghost var start := State();
      while TopAgrees(low, range) || range < MAX_RANGE
        invariant 0 <= remaining && pos + remaining <= buffer.Length
        invariant failed == old(failed) && (failed ==> remaining == 0)
        invariant pos == |start.out| + old(remaining) - remaining
        invariant buffer[..|start.out|] == start.out
        invariant old(range) == 0 ==> range == 0
        invariant live ==> Legal(low, range) && Normalize(State()) == Normalize(start)
        decreases remaining
      {
        if live {
          ShiftOutIsLegal(State());
          assert |ShiftOut(State()).out| <= |Normalize(start).out|;
        }
        var room := TurnOver();
        if !room {
          return;
        }
      }
    }

    /** The loop's body: the range may be cut; then the top byte of low goes out, if there is room. */
    method TurnOver() returns (room: bool)
      requires 0 <= remaining && pos + remaining <= buffer.Length && NeedsByte(low, range)
      modifies this, buffer
      ensures room == (old(remaining) > 0) && failed == (old(failed) || !room)
      ensures !room ==> pos == old(pos) && remaining == 0 && buffer[..] == old(buffer[..])
      ensures room ==>
                && pos == old(pos) + 1 && remaining == old(remaining) - 1 && pos <= buffer.Length
                && State() == Enc(old(State().out) + [old(low) / TOP], Shl8(old(low)), Shl8(Clipped(old(low), old(range))))
    {
      hide TopAgrees;
      if !TopAgrees(low, range) {
        range := (TWO64 - low) % MAX_RANGE;
      }
      if remaining == 0 {
        failed := true;
        return false;
      }
      Put(low / TOP);
      range := Wrap(range * 256);
      low := Wrap(low * 256);
      room := true;
    }

    /** `*output++ = byte`, with room for it. */
    method Put(byte: u8)
      requires 0 < remaining && pos + remaining <= buffer.Length
      modifies `pos, `remaining, buffer
      ensures pos == old(pos) + 1 && remaining == old(remaining) - 1
      ensures buffer[..pos] == old(buffer[..pos]) + [byte]
    {
      remaining := remaining - 1;
      buffer[pos] := byte;
      pos := pos + 1;
    }

    /** A field with `total` equally likely values. */
    method Range(symbol: u32, total: u32)
      requires Valid() && symbol < total
      modifies this, buffer
      ensures Valid() && Appends()
      ensures !old(failed) ==>
                Reached(old(State()), old(remaining), EncodeOp(old(State()), Op(Uniform(total), symbol)))
    {
      if !failed {
        EncodeOpIsLegal(State(), Op(Uniform(total), symbol));
        UniformStep(State(), total, symbol);
      }
      if range == 0 {
        range := Quotient(TWO64 - 1, total);
        low := MulAdd(0, symbol, range);
      } else {
        NormalizeRegisters();
        range := Quotient(range, total);
        low := MulAdd(low, symbol, range);
      }
    }

    /** A bit that is 0 in `frequency` out of 2^32 trials. */
    method BiasedBit(b: u32, frequency: u32)
      requires Valid() && 0 < frequency
      modifies this, buffer
      ensures Valid() && Appends() && (failed || range != 0)
      ensures !old(failed) ==>
                Reached(old(State()), old(remaining),
                        EncodeOp(old(State()), Op(Bit(frequency), if b != 0 then 1 else 0)))
    {
      if !failed {
        EncodeOpIsLegal(State(), Op(Bit(frequency), if b != 0 then 1 else 0));
        BitStep(State(), frequency, if b != 0 then 1 else 0);
      }
      if range == 0 {
        if b != 0 {
          low := MulAdd(0, frequency, TWO32);
          range := Scale(TWO32, TWO32 - frequency);
        } else {
          low := 0;
          range := Scale(TWO32, frequency);
        }
      } else {
        NormalizeRegisters();
        range := Quotient(range, TWO32);
        if b != 0 {
          low := MulAdd(low, frequency, range);
          range := Scale(range, TWO32 - frequency);
        } else {
          range := Scale(range, frequency);
        }
      }
    }

    /** The slice of ch in the table that follows symbol `last`. */
    method GetTableSymbol(stats: TableFormat, last: int, ch: u8) returns (symbol: int, symbolLow: int, symbolRange: int)
      requires ValidStats(stats) && 0 <= last < stats.total
      ensures symbol == stats.char2index[ch]
      ensures symbolLow == Start(Table(stats.bases[last]), symbol)
      ensures symbolRange == Width(Table(stats.bases[last]), symbol)
      ensures symbolLow == 0 <==> symbol == 0
    {
      symbol := stats.char2index[ch];
      var base := stats.bases[last];
      if symbol != 0 {
        symbolLow := base[symbol - 1];
        if symbol == stats.total - 1 {
          symbolRange := TWO16 - symbolLow;
        } else {
          symbolRange := base[symbol] - symbolLow;
        }
      } else {
        symbolLow := 0;
        symbolRange := base[0];
      }
    }

    ghost predicate On(e: Enc, room: int, goal: Enc, ops: seq<Op>)
      requires pos <= buffer.Length
      reads this, buffer
    {
      Towards(failed, State(), remaining, e, room, goal, ops)
    }

    /** The bit that says which mode follows. */
    method ModeBit(uniform: bool, ghost e: Enc, ghost room: int, ghost goal: Enc, ghost ops: seq<Op>)
      requires Valid() && On(e, room, goal, ops)
      requires ops != [] && ops[0] == Op(Bit(MODE_FREQUENCY), if uniform then 1 else 0)
      modifies this, buffer
      ensures Valid() && Appends() && (failed || range != 0)
      ensures On(e, room, goal, ops[1..])
    {
      ghost var f, s, left := failed, State(), remaining;
      BiasedBit(if uniform then 1 else 0, MODE_FREQUENCY);
      StepTowards(f, s, left, failed, State(), remaining, e, room, goal, ops);
    }

    /** One character of the order-1 code: its slice of the 16-bit table after `last`. */
    method TableCharacter(stats: TableFormat, last: int, ch: u8,
                          ghost e: Enc, ghost room: int, ghost goal: Enc, ghost ops: seq<Op>)
      returns (symbol: int)
      requires Valid() && (failed || range != 0) && On(e, room, goal, ops)
      requires ValidStats(stats) && 0 <= last < stats.total
      requires ops != [] && ops[0] == Op(Table(stats.bases[last]), stats.char2index[ch])
      modifies this, buffer
      ensures Valid() && Appends() && (failed || range != 0)
      ensures symbol == stats.char2index[ch]
      ensures On(e, room, goal, ops[1..])
    {
      ghost var f, s, left := failed, State(), remaining;
      if !failed {
        EncodeOpIsLegal(s, ops[0]);
        TableStep(s, stats.bases[last], stats.char2index[ch]);
      }
      NormalizeRegisters();
      var symbolLow, symbolRange;
      symbol, symbolLow, symbolRange := GetTableSymbol(stats, last, ch);
      range := Quotient(range, TWO16);
      low := MulAdd(low, symbolLow, range);
      range := Scale(range, symbolRange);
      StepTowards(f, s, left, failed, State(), remaining, e, room, goal, ops);
    }

    /** One character of the uniform code: its index out of `total`. */
    method UniformCharacter(stats: TableFormat, ch: u8,
                            ghost e: Enc, ghost room: int, ghost goal: Enc, ghost ops: seq<Op>)
      requires Valid() && (failed || range != 0) && ValidStats(stats) && On(e, room, goal, ops)
      requires ops != [] && ops[0] == Op(Uniform(stats.total), stats.char2index[ch])
      modifies this, buffer
      ensures Valid() && Appends() && (failed || range != 0)
      ensures On(e, room, goal, ops[1..])
    {
      ghost var f, s, left := failed, State(), remaining;
      if !failed {
        EncodeOpIsLegal(s, ops[0]);
        UniformStep(s, stats.total, stats.char2index[ch]);
      }
      NormalizeRegisters();
      range := Quotient(range, stats.total);
      low := MulAdd(low, stats.char2index[ch], range);
      StepTowards(f, s, left, failed, State(), remaining, e, room, goal, ops);
    }

    /** Order-1 statistics; returns how many characters it took, the terminator included. */
    method TextOrder1(text: seq<u8>, stats: TableFormat, ghost e: Enc, ghost room: int, ghost goal: Enc)
      returns (taken: nat)
      requires Valid() && ValidStats(stats) && CString(text)
      requires On(e, room, goal, TextOps(stats, false, text))
      modifies this, buffer
      ensures Valid() && Appends() && On(e, room, goal, [])
      ensures taken + 1 == |TextOps(stats, false, text)|
    {
      hide TopAgrees, On, ValidOps, Digits;
      ghost var ops := TextOps(stats, false, text);
      ModeBit(false, e, room, goal, ops);
      ops := ops[1..];
      var last, more := 0, true;
      taken := 0;
      while more
        invariant Valid() && Appends() && 0 <= last < stats.total && (failed || range != 0)
        invariant taken + |ops| + 1 == |TextOps(stats, false, text)|
        invariant more ==> taken <= |text| && ops == Order1Ops(stats, last, text[taken..])
        invariant !more ==> ops == []
        invariant On(e, room, goal, ops)
        decreases |ops|
      {
        assert CharAt(text, taken) == CharAt(text[taken..], 0);
        assert taken < |text| ==> text[taken..][1..] == text[taken + 1..];
        last := TableCharacter(stats, last, CharAt(text, taken), e, room, goal, ops);
        ops := ops[1..];
        taken := taken + 1;
        more := last != 0;
      }
    }

    /** Every character equally likely. */
    method TextUniform(text: seq<u8>, stats: TableFormat, ghost e: Enc, ghost room: int, ghost goal: Enc)
      requires Valid() && ValidStats(stats) && CString(text)
      requires On(e, room, goal, TextOps(stats, true, text))
      modifies this, buffer
      ensures Valid() && Appends() && On(e, room, goal, [])
    {
      hide TopAgrees, On, ValidOps, Digits;
      ghost var ops := TextOps(stats, true, text);
      ModeBit(true, e, room, goal, ops);
      ops := ops[1..];
      var taken, more := 0, true;
      while more
        invariant Valid() && Appends() && (failed || range != 0)
        invariant more ==> taken <= |text| && ops == UniformOps(stats, text[taken..])
        invariant !more ==> ops == []
        invariant On(e, room, goal, ops)
        decreases |ops|
      {
        var ch := CharAt(text, taken);
        assert ch == CharAt(text[taken..], 0);
        assert taken < |text| ==> text[taken..][1..] == text[taken + 1..];
        UniformCharacter(stats, ch, e, room, goal, ops);
        ops := ops[1..];
        taken := taken + 1;
        more := ch != 0;
      }
    }

    /** Encode a string: order-1 statistics, or the uniform code if that took no more bytes. */
    method Text(text: seq<u8>, stats: TableFormat)
      requires Valid() && ValidStats(stats) && CString(text)
      modifies this, buffer
      ensures Valid() && Appends()
      ensures !old(failed) ==>
                Reached(old(State()), old(remaining),
                        EncodeAll(old(State()), ChooseText(old(State()), old(remaining), text, stats)))
    {
      hide TopAgrees, Digits, Order1Ops, UniformOps;
      var backupPos, backupFailed, backupRemaining := pos, failed, remaining;
      var backupLow, backupRange := low, range;
      ghost var start, room := State(), if failed then -1 else remaining;
      ghost var goal1, goal2 := Goal(failed, start, room, stats, false, text), Goal(failed, start, room, stats, true, text);

      var len := TextOrder1(text, stats, start, room, goal1);

      if backupRemaining - remaining >= len * stats.log2total / 0x8000 {
        pos, failed, remaining := backupPos, backupFailed, backupRemaining;
        low, range := backupLow, backupRange;
        assert State() == start;
        TextUniform(text, stats, start, room, goal2);
        assert buffer[..backupPos] == start.out;
      }
    }

    /** Emit the last bytes. A coder that never coded a symbol runs out of room instead. */
    method FinishMessage()
      requires Valid()
      modifies this, buffer
      ensures Appends()
      ensures !old(failed) && old(range) == 0 ==> failed
      ensures !old(failed) && old(range) != 0 ==>
                && (failed <==> |Finish(old(State()))| - |old(State()).out| > old(remaining))
                && (!failed ==>
                      && buffer[..pos] == Finish(old(State()))
                      && remaining == old(remaining) - (pos - old(pos)))
    {
      hide TopAgrees, Normalize, SameTop;
      NormalizeRegisters();
      if low == 0 {
        return;
      }
      if remaining == 0 {
        failed := true;
      } else {
        low := Wrap(low + range - 1);
        Put(low / TOP);
        if range < TOP {
          low := Wrap(low * 256);
          if remaining == 0 {
            failed := true;
            return;
          }
          Put(low / TOP);
        }
      }
    }
  }
}
