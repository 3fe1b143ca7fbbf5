/** The bit stream: unaligned writes and reads of bits over a growable byte buffer. */
module BitStream {
  import opened Collections
  import opened PowersOfTwo
  import opened Bits
  import opened BitCodec

  const STACK_BYTES: nat := 256
  const MEGABIT: nat := 1048576

  /** Bits past the write cursor in the current partial byte are zero. */
  predicate ZeroTail(bytes: seq<Octet>, writable: nat)
    requires writable <= 8 * |bytes|
  {
    writable % 8 != 0 ==> forall k :: writable % 8 <= k < 8 ==> !bytes[writable / 8][k]
  }

  /** Of a byte that is written at a partial position only its first n bits reach the byte that
      stays partial. */
  predicate NothingBeyond(b: Octet, writable: nat, n: nat) {
    forall k :: n <= k < 8 && writable + k < 8 * BytesFor(writable + n) ==> !b[k]
  }

  /** Writing a byte at a partial position: what the current and the next byte become. */
  lemma PutBits(before: seq<Octet>, after: seq<Octet>, writable: nat, b: Octet, n: nat)
    requires 1 <= n <= 8 && |after| == |before| && writable + n <= 8 * |before| && ZeroTail(before, writable)
    requires forall j :: 0 <= j < writable / 8 ==> after[j] == before[j]
    requires var start := writable % 8;
             && after[writable / 8] == (if start == 0 then b else Or(before[writable / 8], ShiftRight(b, start)))
             && (n > 8 - start ==> after[writable / 8 + 1] == ShiftLeft(b, 8 - start))
    ensures BitsOf(after, writable + n) == BitsOf(before, writable) + b[..n]
    ensures ZeroTail(after, writable + n) <==> NothingBeyond(b, writable, n)
  {
    hide ZeroTail, NothingBeyond, Or, ShiftLeft, ShiftRight, BitsOf;
    PutTail(before, after, writable, b, n);
    forall i | 0 <= i < writable + n
      ensures BitsOf(after, writable + n)[i] == (BitsOf(before, writable) + b[..n])[i]
    {
      if i < writable {
        PutBelow(before, after, writable, b, i);
      } else {
        PutAbove(before, after, writable, b, n, i - writable);
      }
    }
  }

  lemma PutTail(before: seq<Octet>, after: seq<Octet>, writable: nat, b: Octet, n: nat)
    requires 1 <= n <= 8 && |after| == |before| && writable + n <= 8 * |before| && ZeroTail(before, writable)
    requires var start := writable % 8;
             && after[writable / 8] == (if start == 0 then b else Or(before[writable / 8], ShiftRight(b, start)))
             && (n > 8 - start ==> after[writable / 8 + 1] == ShiftLeft(b, 8 - start))
    ensures ZeroTail(after, writable + n) <==> NothingBeyond(b, writable, n)
  {
    Ends(writable, n);
    if writable % 8 + n < 8 {
      PutHere(before[writable / 8], after[writable / 8], b, writable % 8, n);
    } else if writable % 8 + n > 8 {
      TailNext(after[writable / 8 + 1], b, writable % 8, n);
    }
  }

  /** Where n more bits end. */
  lemma Ends(writable: nat, n: nat)
    requires 1 <= n <= 8
    ensures var start, end := writable % 8, writable + n;
            if start + n < 8 then end / 8 == writable / 8 && end % 8 == start + n && 8 * BytesFor(end) == writable + 8 - start
            else if start + n > 8 then end / 8 == writable / 8 + 1 && end % 8 == start + n - 8 && 8 * BytesFor(end) == writable + 16 - start
            else end % 8 == 0 && 8 * BytesFor(end) == end
  {
  }

  lemma PutHere(before: Octet, after: Octet, b: Octet, start: nat, n: nat)
    requires start + n < 8 && (start > 0 ==> forall k :: start <= k < 8 ==> !before[k])
    requires after == if start == 0 then b else Or(before, ShiftRight(b, start))
    ensures (forall i :: start + n <= i < 8 ==> !after[i]) <==> (forall k :: n <= k < 8 - start ==> !b[k])
  {
    TailHere(after, b, start, n);
  }

  lemma TailHere(byte: Octet, b: Octet, start: nat, n: nat)
    requires start + n < 8 && forall i :: start + n <= i < 8 ==> byte[i] == b[i - start]
    ensures (forall i :: start + n <= i < 8 ==> !byte[i]) <==> (forall k :: n <= k < 8 - start ==> !b[k])
  {
    assert forall k :: n <= k < 8 - start ==> b[k] == byte[start + k];
  }

  lemma TailNext(byte: Octet, b: Octet, start: nat, n: nat)
    requires start < 8 < start + n && n <= 8 && byte == ShiftLeft(b, 8 - start)
    ensures (forall i :: start + n - 8 <= i < 8 ==> !byte[i]) <==> (forall k :: n <= k < 8 ==> !b[k])
  {
    assert forall k :: n <= k < 8 ==> b[k] == byte[start + k - 8];
  }

  lemma PutBelow(before: seq<Octet>, after: seq<Octet>, writable: nat, b: Octet, i: nat)
    requires |after| == |before| && i < writable < 8 * |before|
    requires forall j :: 0 <= j < writable / 8 ==> after[j] == before[j]
    requires writable % 8 != 0 ==> after[writable / 8] == Or(before[writable / 8], ShiftRight(b, writable % 8))
    ensures after[i / 8][i % 8] == before[i / 8][i % 8]
  {
  }

  lemma PutAbove(before: seq<Octet>, after: seq<Octet>, writable: nat, b: Octet, n: nat, k: nat)
    requires 1 <= n <= 8 && |after| == |before| && writable + n <= 8 * |before| && ZeroTail(before, writable) && k < n
    requires var start := writable % 8;
             && after[writable / 8] == (if start == 0 then b else Or(before[writable / 8], ShiftRight(b, start)))
             && (n > 8 - start ==> after[writable / 8 + 1] == ShiftLeft(b, 8 - start))
    ensures after[(writable + k) / 8][(writable + k) % 8] == b[k]
  {
    var start := writable % 8;
    if start + k < 8 {
      assert (writable + k) / 8 == writable / 8 && (writable + k) % 8 == start + k;
    } else {
      assert (writable + k) / 8 == writable / 8 + 1 && (writable + k) % 8 == start + k - 8;
    }
  }

  /** The size to grow to. */
  function NewBits(bits: nat): nat {
    if bits > MEGABIT then (bits + MEGABIT) % TWO32 else 2 * bits
  }

  /** The size of the buffer after room was made for the bits needed. */
  function GrownTo(held: nat, needed: nat): (bits: nat)
    ensures bits >= held && bits >= needed
  {
    if needed <= held then held else if needed <= 0x10_0000 then 2 * needed else needed + 0x10_0000
  }

  lemma GrownBits(present: nat, written: nat, more: nat)
    requires written + more <= present <= TWO32 - 8 || written + more + MEGABIT + 7 < TWO32
    ensures (written + more) % TWO32 == written + more
    ensures GrownTo(present, written + more) == if written + more <= present then present else NewBits(written + more)
  {
  }

  /** The bits copied when a stream grows for one need after the other: each time the whole
      buffer. */
  function Copied(held: nat, needs: seq<nat>): nat
    decreases |needs|
  {
    if needs == [] then 0
    else (if needs[0] > held then held else 0) + Copied(GrownTo(held, needs[0]), needs[1..])
  }

  function GrownToAll(held: nat, needs: seq<nat>): (bits: nat)
    ensures bits >= held
    decreases |needs|
  {
    if needs == [] then held else GrownToAll(GrownTo(held, needs[0]), needs[1..])
  }

  /** However many writes there are, growth copies no more than the buffer holds in the end, and
      as many times that as it holds parts of 2^20 bits; and the buffer is no longer than twice
      the bits written. */
  lemma {:induction false} GrowthIsBounded(held: nat, needs: seq<nat>, most: nat)
    requires forall i :: 0 <= i < |needs| ==> needs[i] <= most
    ensures GrownToAll(held, needs) <= held || GrownToAll(held, needs) <= 2 * most
    ensures var bits := GrownToAll(held, needs);
            MEGABIT * Copied(held, needs) <= bits * (MEGABIT + bits) - held * (MEGABIT + held)
    decreases |needs|
  {
    if needs != [] {
      var next := GrownTo(held, needs[0]);
      GrowthIsBounded(next, needs[1..], most);
      if needs[0] > held {
        OneGrowth(held, next);
      }
    }
  }

  lemma OneGrowth(a: nat, b: nat)
    requires b >= 2 * a || b >= a + MEGABIT
    ensures MEGABIT * a <= b * (MEGABIT + b) - a * (MEGABIT + a)
  {
    MulLe(a, b, b);
    if b >= 2 * a {
      MulLe(a, b, a);
    } else {
      MulLe(a + MEGABIT, b, a);
      MulLe(a, b, a);
    }
  }

  /** A buffer that is too small, enlarged in 32-bit arithmetic, is large enough if and only if
      the sum does not overflow. */
  lemma Enlarged(present: nat, written: nat, more: nat)
    requires present <= TWO32 - 8
    ensures var needed := written + more;
            var bits := NewBits(needed % TWO32);
            var bytes := (bits + 7) % TWO32 / 8;
            && BytesFor(written) <= BytesFor(needed)
            && (if needed <= present then needed % TWO32 == needed && BytesFor(needed) <= BytesFor(present)
                else if needed + MEGABIT + 7 < TWO32 then
                  && present < needed % TWO32 == needed && present < bits <= TWO32 - 8 && BytesFor(needed) <= bytes == BytesFor(bits)
                  && (present == 8 * STACK_BYTES ==> bytes > STACK_BYTES)
                else
                  && bytes < BytesFor(needed) && STACK_BYTES < BytesFor(needed)
                  && (needed % TWO32 <= present ==> BytesFor(present) < BytesFor(needed)))
  {
  }

  class GecoBitStream {
    const stackBuffer: array<Octet>
    const readOnly: bool
    var data: array<Octet>
    var allocatedBits: nat
    var writable: nat
    var readable: nat

    /** The counters fit in 32 bits and lie within the buffer. */
    ghost predicate Within()
      reads this
    {
      && BytesFor(writable) <= BytesFor(allocatedBits) <= data.Length && readable <= writable
      && allocatedBits <= TWO32 - 8 && (data == stackBuffer ==> allocatedBits == 8 * data.Length == 8 * STACK_BYTES)
    }

    ghost predicate Valid()
      reads this, data
    {
      Within() && ZeroTail(data[..], writable)
    }

    /** The buffer holds all bytes for some more bits. */
    ghost predicate Room(bits: nat)
      reads this
    {
      BytesFor(writable + bits) <= BytesFor(allocatedBits) <= data.Length
    }

    /** So many bits more can be counted: room for them is there, or can be made without
        overflow. */
    ghost predicate Counts(bits: nat)
      reads this
    {
      writable + bits <= allocatedBits || writable + bits + MEGABIT + 7 < TWO32
    }

    /** The bits written so far. */
    ghost function Contents(): (s: seq<bool>)
      requires Within()
      reads this, data
      ensures |s| == writable
    {
      BitsOf(data[..], writable)
    }

    constructor ()
      ensures Valid() && Contents() == [] && readable == 0 && !readOnly && fresh(data)
    {
      var bytes := new Octet[STACK_BYTES](_ => Zeros(8));
      stackBuffer, data := bytes, bytes;
      readOnly := false;
      allocatedBits := 8 * STACK_BYTES;
      writable, readable := 0, 0;
    }

    /** A stream with room for some bytes. */
    constructor WithRoom(initialBytes: nat)
      requires initialBytes < TWO32
      ensures Valid() && Contents() == [] && readable == 0 && !readOnly && fresh(data)
      ensures allocatedBits == if initialBytes <= STACK_BYTES then 8 * STACK_BYTES else (8 * initialBytes) % TWO32
    {
      var bytes := new Octet[STACK_BYTES](_ => Zeros(8));
      stackBuffer := bytes;
      if initialBytes <= STACK_BYTES {
        data := bytes;
        allocatedBits := 8 * STACK_BYTES;
      } else {
        var heap := new Octet[initialBytes](_ => Zeros(8));
        data := heap;
        allocatedBits := (8 * initialBytes) % TWO32;
      }
      readOnly := false;
      writable, readable := 0, 0;
    }

    /** A read-only stream over bytes of the caller, or one over a copy of them that can be
        written on. */
    constructor Over(src: array<Octet>, copy: bool)
      requires src.Length < TWO32
      ensures Valid() && readable == 0 && readOnly == !copy && (if copy then fresh(data) else data == src)
      ensures Contents() == BitsOf(src[..], (8 * src.Length) % TWO32)
      ensures if copy && 0 < src.Length <= 256 then data == stackBuffer && allocatedBits == 2048
              else data != stackBuffer && allocatedBits == writable
    {
      hide ZeroTail, BitsOf;
      var bytes := new Octet[STACK_BYTES](_ => Zeros(8));
      stackBuffer := bytes;
      readOnly := !copy;
      var bits := (8 * src.Length) % TWO32;
      writable, readable := bits, 0;
      if !copy {
        data, allocatedBits := src, bits;
      } else if 0 < src.Length <= STACK_BYTES {
        data, allocatedBits := bytes, 8 * STACK_BYTES;
      } else {
        var heap := new Octet[src.Length](_ => Zeros(8));
        data, allocatedBits := heap, bits;
      }
      new;
      if copy {
        forall i | 0 <= i < src.Length {
          data[i] := src[i];
        }
      }
      WholeBits(src.Length);
      WholeTail(src[..], bits);
      SameBits(src[..], data[..], bits);
    }

    /** Other memory, of another size, with what fits of the old contents. */
    method Reallocate(bytes: nat)
      requires Valid()
      modifies this`data
      ensures fresh(data) && data.Length == bytes
      ensures BytesFor(writable) <= bytes ==>
                BitsOf(data[..], writable) == old(BitsOf(data[..], writable)) && ZeroTail(data[..], writable)
    {
      hide ZeroTail, BitsOf;
      var other := new Octet[bytes];
      forall i | 0 <= i < BytesFor(allocatedBits) && i < bytes {
        other[i] := data[i];
      }
      assert data[..] == old(data[..]);
      if BytesFor(writable) <= bytes {
        SameBits(data[..], other[..], writable);
      }
      data := other;
    }

    /** Make room for more bits; the contents stay. New memory is not cleared. Room is made
        exactly if the counters do not overflow. */
    method AppendBitsCouldRealloc(bits2Append: nat)
      requires Valid() && !readOnly && bits2Append < TWO32
      modifies this`data, this`allocatedBits
      ensures Room(bits2Append) <==> old(Counts(bits2Append))
      ensures old(Counts(bits2Append)) ==> Valid() && Contents() == old(Contents())
      ensures data == old(data) || fresh(data)
      ensures old(Counts(bits2Append)) ==> allocatedBits == GrownTo(old(allocatedBits), writable + bits2Append)
    {
      hide ZeroTail, BitsOf, NewBits, BytesFor;
      if Counts(bits2Append) {
        GrownBits(allocatedBits, writable, bits2Append);
      }
      var newBits := (writable + bits2Append) % TWO32;
      Enlarged(allocatedBits, writable, bits2Append);
      if allocatedBits < newBits {
        newBits := NewBits(newBits);
        var bytes2Alloc := (newBits + 7) % TWO32 / 8;
        if data != stackBuffer || bytes2Alloc > STACK_BYTES {
          Reallocate(bytes2Alloc);
        }
      }
      if newBits > allocatedBits {
        allocatedBits := newBits;
      }
    }

    method WriteBitZero()
      requires Valid() && !readOnly && Counts(1)
      modifies this`data, this`allocatedBits, this`writable, data
      ensures Valid() && Contents() == old(Contents()) + [false]
      ensures (data == old(data) || fresh(data)) && allocatedBits >= old(allocatedBits)
    {
      hide Or, ZeroTail, BitsOf;
      AppendBitsCouldRealloc(1);
      ghost var before, w := data[..], writable;
      if writable % 8 == 0 {
        data[writable / 8] := Zeros(8);
      }
      writable := writable + 1;
      assert Or(before[w / 8], ShiftRight(Zeros(8), w % 8)) == before[w / 8];
      PutBits(before, data[..], w, Zeros(8), 1);
    }

    method WriteBitOne()
      requires Valid() && !readOnly && Counts(1)
      modifies this`data, this`allocatedBits, this`writable, data
      ensures Valid() && Contents() == old(Contents()) + [true]
      ensures (data == old(data) || fresh(data)) && allocatedBits >= old(allocatedBits)
    {
      hide ZeroTail, BitsOf;
      AppendBitsCouldRealloc(1);
      ghost var before, w := data[..], writable;
      var top: Octet := [true] + Zeros(7);
      var shift := writable % 8;
      if shift == 0 {
        data[writable / 8] := top;
      } else {
        data[writable / 8] := Or(data[writable / 8], ShiftRight(top, shift));
      }
      writable := writable + 1;
      PutBits(before, data[..], w, top, 1);
    }

    method WriteBool(b: bool)
      requires Valid() && !readOnly && Counts(1)
      modifies this`data, this`allocatedBits, this`writable, data
      ensures Valid() && Contents() == old(Contents()) + [b]
      ensures (data == old(data) || fresh(data)) && allocatedBits >= old(allocatedBits)
    {
      if b {
        WriteBitOne();
      } else {
        WriteBitZero();
      }
    }

    /** One turn of the loop of WriteBits. */
    method PutByte(dataByte: Octet, n: nat, start: nat)
      requires Valid() && 1 <= n <= 8 && start == writable % 8 && Room(n)
      modifies this`writable, data
      ensures Within() && Contents() == old(Contents()) + dataByte[..n] && writable == old(writable) + n
      ensures Valid() <==> NothingBeyond(dataByte, old(writable), n)
    {
      ghost var before, w := data[..], writable;
      if start == 0 {
        data[writable / 8] := dataByte;
      } else {
        data[writable / 8] := Or(data[writable / 8], ShiftRight(dataByte, start));
        if n > 8 - start {
          data[writable / 8 + 1] := ShiftLeft(dataByte, 8 - start);
        }
      }
      writable := writable + n;
      PutBits(before, data[..], w, dataByte, n);
    }

    /** Whole bytes at a byte boundary are copied. */
    method CopyBytes(src: seq<Octet>, bits2Write: nat, ghost rightAligned: bool)
      requires Valid() && writable % 8 == 0 && bits2Write % 8 == 0 && BytesFor(bits2Write) <= |src|
      requires Room(bits2Write)
      modifies this`writable, data
      ensures Valid() && Contents() == old(Contents()) + HandedBits(src, bits2Write, rightAligned)
    {
      ghost var before, w := data[..], writable;
      forall i | 0 <= i < bits2Write / 8 {
        data[writable / 8 + i] := src[i];
      }
      writable := writable + bits2Write;
      CopiedBits(before, data[..], w, src, bits2Write, rightAligned);
    }

    /** Append bits. The stream can be written on if nothing lies behind the bits of a
        left-aligned last byte, up to where the stream's last byte ends, and only then. */
    method WriteBits(src: seq<Octet>, bits2Write: nat, rightAligned: bool)
      requires Valid() && !readOnly && bits2Write > 0 && BytesFor(bits2Write) <= |src| && Counts(bits2Write)
      modifies this`data, this`allocatedBits, this`writable, data
      ensures Within() && Contents() == old(Contents()) + HandedBits(src, bits2Write, rightAligned)
      ensures Valid() <==> TailClear(src, bits2Write, rightAligned, old(writable))
      ensures (data == old(data) || fresh(data)) && allocatedBits >= old(allocatedBits)
    {
      hide ZeroTail;
      AppendBitsCouldRealloc(bits2Write);
      var start := writable % 8;
      ghost var handed := HandedBits(src, bits2Write, rightAligned);
      if start == 0 && bits2Write % 8 == 0 {
        CopyBytes(src, bits2Write, rightAligned);
        return;
      }
      WriteLoop(src, bits2Write, rightAligned, start);
    }

    /** WriteBits with its default alignment. */
    method WriteRight(src: seq<Octet>, bits2Write: nat)
      requires Valid() && !readOnly && bits2Write > 0 && BytesFor(bits2Write) <= |src| && Counts(bits2Write)
      modifies this`data, this`allocatedBits, this`writable, data
      ensures Valid() && Contents() == old(Contents()) + HandedBits(src, bits2Write, true)
      ensures (data == old(data) || fresh(data)) && allocatedBits >= old(allocatedBits)
    {
      hide HandedBits, ZeroTail;
      WriteBits(src, bits2Write, true);
    }

    method WriteLoop(src: seq<Octet>, bits2Write: nat, rightAligned: bool, start: nat)
      requires Valid() && bits2Write > 0 && BytesFor(bits2Write) <= |src| && start == writable % 8
      requires Room(bits2Write)
      modifies this`writable, data
      ensures Within() && Contents() == old(Contents()) + HandedBits(src, bits2Write, rightAligned)
      ensures Valid() <==> TailClear(src, bits2Write, rightAligned, old(writable))
    {
      hide Valid, Within, BytesFor, HandedBits, BitsOf, TailClear;
      ghost var handed := HandedBits(src, bits2Write, rightAligned);
      ghost var w := writable;
      ValidIsWithin();
      assert handed[..0] == [];
      var left, next := bits2Write, 0;
      while left > 0
        invariant Within() && 0 <= left <= bits2Write && writable == w + (bits2Write - left)
        invariant if left > 0 then Valid() && bits2Write - left == 8 * next
                  else Valid() <==> TailClear(src, bits2Write, rightAligned, w)
        invariant Contents() == old(Contents()) + handed[..bits2Write - left]
      {
        var n := WriteNext(src, bits2Write, rightAligned, start, left, next, w);
        Onward(old(Contents()), handed, 8 * next, 8 * next + n);
        next := next + 1;
        left := left - n;
      }
      assert handed[..bits2Write] == handed;
    }

    lemma ValidIsWithin()
      requires Valid()
      ensures Within()
    {
    }

    /** The loop's body: eight bits, or the last ones, of the next byte. */
    method WriteNext(src: seq<Octet>, bits2Write: nat, rightAligned: bool, start: nat, left: nat, next: nat, ghost w: nat)
      returns (n: nat)
      requires Valid() && 0 < left <= bits2Write && BytesFor(bits2Write) <= |src| && bits2Write - left == 8 * next
      requires writable == w + 8 * next && start == w % 8 && BytesFor(w + bits2Write) <= BytesFor(allocatedBits)
      modifies this`writable, data
      ensures Within() && n == (if left >= 8 then 8 else left) && writable == old(writable) + n
      ensures Contents() == old(Contents()) + HandedBits(src, bits2Write, rightAligned)[8 * next..8 * next + n]
      ensures if n < left then Valid() else Valid() <==> TailClear(src, bits2Write, rightAligned, w)
    {
      hide ZeroTail, BytesFor, BitsOf, TailClear, NothingBeyond, HandedBits;
      n := if left >= 8 then 8 else left;
      Turn(w, bits2Write, next, n);
      var dataByte := src[next];
      if left < 8 && rightAligned {
        dataByte := ShiftLeft(dataByte, 8 - left);
      }
      HandedByte(src, bits2Write, rightAligned, next, n, dataByte);
      HandedTail(src, bits2Write, rightAligned, w, next, n, dataByte);
      PutByte(dataByte, n, start);
    }

    /** Bits that can still be read. */
    function Payloads(): nat
      requires readable <= writable
      reads this
    {
      writable - readable
    }

    method ReadBool() returns (b: bool)
      requires Valid() && Payloads() >= 1
      modifies this`readable
      ensures Valid() && readable == old(readable) + 1 && old(Rest()) == [b] + Rest()
    {
      var top: Octet := [true] + Zeros(7);
      b := exists k | 0 <= k < 8 :: data[readable / 8][k] && ShiftRight(top, readable % 8)[k];
      readable := readable + 1;
    }

    /** Read bits into the bytes of the caller; a last partial byte comes right-aligned, or with
        its bits on the left and anything behind them. */
    method ReadBits(dest: array<Octet>, bits2Read: nat, alignRight: bool)
      requires Valid() && bits2Read > 0 && Payloads() >= bits2Read
      requires dest != data && BytesFor(bits2Read) <= dest.Length
      modifies this`readable, dest
      ensures Valid() && readable == old(readable) + bits2Read
      ensures Holds(dest[..BytesFor(bits2Read)], Contents()[old(readable)..readable], alignRight)
      ensures dest[BytesFor(bits2Read)..] == old(dest[BytesFor(bits2Read)..])
    {
      var start := readable % 8;
      if start == 0 {
        ReadAligned(dest, bits2Read, alignRight);
      } else {
        ReadUnaligned(dest, bits2Read, alignRight, start);
      }
    }

    method ReadAligned(dest: array<Octet>, bits2Read: nat, alignRight: bool)
      requires Valid() && bits2Read > 0 && Payloads() >= bits2Read && readable % 8 == 0
      requires dest != data && BytesFor(bits2Read) <= dest.Length
      modifies this`readable, dest
      ensures Valid() && readable == old(readable) + bits2Read
      ensures Holds(dest[..BytesFor(bits2Read)], Contents()[old(readable)..readable], alignRight)
      ensures dest[BytesFor(bits2Read)..] == old(dest[BytesFor(bits2Read)..])
    {
      hide HoldsByte, ZeroTail, BitsOf, Holds, ShiftRight;
      ghost var r := readable;
      forall i | 0 <= i < BytesFor(bits2Read) {
        dest[i] := data[readable / 8 + i];
      }
      readable := readable + bits2Read;
      var offset := bits2Read % 8;
      if offset > 0 && alignRight {
        dest[BytesFor(bits2Read) - 1] := ShiftRight(dest[BytesFor(bits2Read) - 1], 8 - offset);
      }
      assert data[..] == old(data[..]);
      forall j | 0 <= j < BytesFor(bits2Read)
        ensures 8 * j + 8 > bits2Read <==> bits2Read % 8 > 0 && j == BytesFor(bits2Read) - 1
      {
        LastByte(bits2Read, j);
      }
      AlignedBytes(data[..], writable, r, bits2Read, dest[..BytesFor(bits2Read)], alignRight);
    }

    /** Gather the next byte of an unaligned read from two bytes of the buffer. */
    method NextByte(cleared: Octet, start: nat, left: nat, alignRight: bool, ghost r: nat, ghost bits: nat, ghost next: nat)
      returns (b: Octet)
      requires Valid() && left > 0 && readable + left <= writable && r % 8 == readable % 8 == start > 0
      requires cleared == Zeros(8) && bits - left == 8 * next && readable == r + 8 * next
      ensures HoldsByte(b, Contents()[r..r + bits], next, alignRight)
    {
      hide HoldsByte, ZeroTail;
      var pos := readable / 8;
      CanReach(readable, left, start, writable, data.Length);
      b := Or(cleared, ShiftLeft(data[pos], start));
      assert b == ShiftLeft(data[pos], start);
      if left > 8 - start {
        b := Or(b, ShiftRight(data[pos + 1], 8 - start));
      }
      ghost var whole := b;
      if left < 8 && alignRight {
        b := ShiftRight(b, 8 - left);
      }
      UnalignedByte(data[..], writable, r, bits, next, whole, b, alignRight);
    }

    method ReadUnaligned(dest: array<Octet>, bits2Read: nat, alignRight: bool, start: nat)
      requires Valid() && bits2Read > 0 && Payloads() >= bits2Read && readable % 8 == start > 0
      requires dest != data && BytesFor(bits2Read) <= dest.Length
      modifies this`readable, dest
      ensures Valid() && readable == old(readable) + bits2Read
      ensures Holds(dest[..BytesFor(bits2Read)], Contents()[old(readable)..readable], alignRight)
      ensures dest[BytesFor(bits2Read)..] == old(dest[BytesFor(bits2Read)..])
    {
      hide ShiftLeft, ShiftRight, Or, Holds, HoldsByte, ZeroTail, BytesFor, BitsOf;
      forall i | 0 <= i < BytesFor(bits2Read) {
        dest[i] := Zeros(8);
      }
      ghost var r := readable;
      ghost var bytes := data[..];
      ghost var s := Contents()[r..r + bits2Read];
      assert bytes == old(data[..]);
      HoldsNothing(s, alignRight);
      assert dest[..0] == [];
      Turn(r, bits2Read, 0, 1);
      var left, next := bits2Read, 0;
      while left > 0
        invariant data[..] == bytes
        invariant Valid() && 0 <= left <= bits2Read && readable == r + (bits2Read - left)
        invariant left > 0 ==> bits2Read - left == 8 * next
        invariant left == 0 ==> next == BytesFor(bits2Read)
        invariant next <= BytesFor(bits2Read)
        invariant Holds(dest[..next], s, alignRight)
        invariant forall j :: next <= j < BytesFor(bits2Read) ==> dest[j] == Zeros(8)
        invariant dest[BytesFor(bits2Read)..] == old(dest[BytesFor(bits2Read)..])
      {
        Turn(r, bits2Read, next, 1);
        var b := NextByte(dest[next], start, left, alignRight, r, bits2Read, next);
        HoldsMore(dest[..next], s, b, alignRight);
        dest[next] := b;
        assert dest[..next + 1] == dest[..next] + [b];
        LastTurn(bits2Read, next, left);
        var n := if left >= 8 then 8 else left;
        readable := readable + n;
        next := next + 1;
        left := left - n;
      }
    }

    /** Skip to the next byte boundary; the skipped bits read as zero. */
    method AlignWritable()
      requires Valid()
      modifies this`writable
      ensures Valid() && writable % 8 == 0 && old(writable) <= writable < old(writable) + 8
      ensures Contents() == old(Contents()) + Zeros(writable - old(writable))
    {
      PadZeros(data[..], writable);
      writable := writable + (8 - ((writable - 1) % 8 + 1));
    }

    /** The unread bits. */
    ghost function Rest(): seq<bool>
      requires Valid()
      reads this, data
    {
      Contents()[readable..]
    }

    // ---------------------------------------------------------- typed writes

    /** Write an integer, highest byte first. */
    method WriteInt(t: IntType, v: int)
      requires Valid() && !readOnly && ValidType(t) && Counts(8 * t.size)
      modifies this`data, this`allocatedBits, this`writable, data
      ensures Valid() && Contents() == old(Contents()) + IntBits(t, v)
      ensures (data == old(data) || fresh(data)) && allocatedBits >= old(allocatedBits)
    {
      var src := LittleBytes(Pattern(t, v), t.size);
      NetworkOrder(Pattern(t, v), t.size);
      WholeBytes(Reverse(src));
      if t.size == 1 {
        assert Reverse(src) == src;
        WriteRight(src, 8 * t.size);
      } else {
        var output := ReverseBytes(src);
        WriteRight(output, 8 * t.size);
      }
    }

    /** Write only the bits above the run of bytes that repeat the sign, and half of the lowest
        byte if that suffices. */
    method WriteMini(src: seq<Octet>, isUnsigned: bool)
      requires Valid() && !readOnly && |src| > 0 && Counts(|MiniBits(src, |src| - 1, isUnsigned)|)
      modifies this`data, this`allocatedBits, this`writable, data
      ensures Valid() && Contents() == old(Contents()) + MiniBits(src, |src| - 1, isUnsigned)
      ensures (data == old(data) || fresh(data)) && allocatedBits >= old(allocatedBits)
    {
      hide HandedBits, BitsOf, ZeroTail;
      var currByte := |src| - 1;
      var byteMatch := Match(isUnsigned);
      while currByte > 0
        invariant 0 <= currByte < |src| && Valid()
        invariant Contents() + MiniBits(src, currByte, isUnsigned)
               == old(Contents()) + MiniBits(src, |src| - 1, isUnsigned)
        invariant data == old(data) || fresh(data)
        invariant allocatedBits >= old(allocatedBits) && Counts(|MiniBits(src, currByte, isUnsigned)|)
      {
        ghost var before := Contents();
        if src[currByte] == byteMatch {
          WriteBool(true);
          Regroup(before, [true], MiniBits(src, currByte - 1, isUnsigned));
          currByte := currByte - 1;
        } else {
          WriteBool(false);
          WriteRight(src, 8 * (currByte + 1));
          Regroup(before, [false], HandedBits(src, 8 * (currByte + 1), true));
          return;
        }
      }
      WriteLowest(src);
    }

    /** The lowest byte, or half of it. */
    method WriteLowest(src: seq<Octet>)
      requires Valid() && !readOnly && |src| > 0 && Counts(|MiniBits(src, 0, true)|)
      modifies this`data, this`allocatedBits, this`writable, data
      ensures Valid() && forall unsigned :: Contents() == old(Contents()) + MiniBits(src, 0, unsigned)
      ensures (data == old(data) || fresh(data)) && allocatedBits >= old(allocatedBits)
    {
      hide HandedBits, ZeroTail, BitsOf;
      ghost var before := Contents();
      if SameHalf(src[0], Zeros(8)) || SameHalf(src[0], Ones(8)) {
        WriteBool(true);
        HalfByte(src);
        WriteRight(src, 4);
        Regroup(before, [true], src[0][4..]);
      } else {
        WriteBool(false);
        WholeByte(src);
        WriteRight(src, 8);
        Regroup(before, [false], src[0]);
      }
    }

    /** Write the distance from the minimum in as many bits as the widest distance needs. */
    method WriteDistance(t: IntType, value: int, mini: int, max: int)
      requires Valid() && !readOnly && ValidType(t) && mini <= value <= max && mini < max
      requires Length(max - mini) <= 8 * t.size && Pattern(t, max - mini) == max - mini && Counts(Length(max - mini))
      modifies this`data, this`allocatedBits, this`writable, data
      ensures Valid() && Contents() == old(Contents()) + RangedBits(t, value, mini, max)
      ensures (data == old(data) || fresh(data)) && allocatedBits >= old(allocatedBits)
    {
      hide HandedBits;
      var requiredBits := RequiredBits(t, mini, max);
      WriteRight(LittleBytes(value - mini, t.size), requiredBits);
    }

    method WriteOutside(src: seq<Octet>)
      requires Valid() && !readOnly && |src| > 0 && Counts(1 + |MiniBits(src, |src| - 1, true)|)
      modifies this`data, this`allocatedBits, this`writable, data
      ensures Valid() && Contents() == old(Contents()) + ([true] + MiniBits(src, |src| - 1, true))
      ensures (data == old(data) || fresh(data)) && allocatedBits >= old(allocatedBits)
    {
      hide MiniBits, ZeroTail;
      ghost var before := Contents();
      WriteBool(true);
      WriteMini(src, true);
      Regroup(before, [true], MiniBits(src, |src| - 1, true));
    }

    /** Write an integer in as many bits as its range needs, or, if that is allowed, one outside
        its range after a flag. */
    method WriteRanged(t: IntType, value: int, mini: int, max: int, allowOutsideRange: bool)
      requires Valid() && !readOnly && Writable(RangedField(t, value, mini, max, allowOutsideRange))
      requires Counts(|FieldBits(RangedField(t, value, mini, max, allowOutsideRange))|)
      modifies this`data, this`allocatedBits, this`writable, data
      ensures Valid() && Contents() == old(Contents()) + FieldBits(RangedField(t, value, mini, max, allowOutsideRange))
      ensures (data == old(data) || fresh(data)) && allocatedBits >= old(allocatedBits)
    {
      DistanceFits(t, mini, max);
      RangedFieldBits(t, value, mini, max, allowOutsideRange);
      assert ValidType(t) && mini <= max && (allowOutsideRange || mini <= value <= max) && (mini == max ==> value != mini);
      hide *;
      if allowOutsideRange {
        if value < mini || value > max {
          WriteOutside(LittleBytes(Pattern(t, value), t.size));
          return;
        }
        ghost var before := Contents();
        WriteBool(false);
        Regroup(before, [false], RangedBits(t, value, mini, max));
      }
      WriteDistance(t, value, mini, max);
    }

    // ----------------------------------------------------------- typed reads

    method ReadInt(t: IntType) returns (v: int)
      requires Valid() && ValidType(t) && Payloads() >= 8 * t.size
      modifies this`readable
      ensures Valid() && readable == old(readable) + 8 * t.size
      ensures v == FromPattern(t, FromLittle(Reverse(HandedBytes(old(Rest())[..8 * t.size]))))
    {
      hide ZeroTail, HandedBytes, FromPattern, FromLittle;
      var output := new Octet[t.size](_ => Zeros(8));
      assert BytesFor(8 * t.size) == t.size;
      ReadRight(output, 8 * t.size);
      assert output[..] == output[..t.size];
      if t.size == 1 {
        assert Reverse(output[..]) == output[..];
        v := FromPattern(t, FromLittle(output[..]));
      } else {
        var reversed := ReverseBytes(output[..]);
        v := FromPattern(t, FromLittle(reversed));
      }
    }

    /** Read what WriteMini wrote for dest.Length bytes. */
    method ReadMini(dest: array<Octet>, isUnsigned: bool)
      requires Valid() && dest != data && dest.Length > 0 && MiniFits(Rest(), dest.Length - 1)
      modifies this`readable, dest
      ensures Valid() && dest[..] == MiniRead(old(Rest()), dest.Length - 1, isUnsigned)
      ensures readable == old(readable) + MiniUsed(old(Rest()), dest.Length - 1)
    {
      hide ZeroTail, HandedBytes, MiniRead, MiniUsed, MiniFits, BitsOf, Match;
      ghost var whole, top := Rest(), dest.Length - 1;
      var byteMatch := Match(isUnsigned);
      var currByte := dest.Length - 1;
      assert dest[dest.Length..] == [];
      while currByte > 0
        invariant 0 <= currByte <= top && Valid() && MiniFits(Rest(), currByte)
        invariant MiniRead(whole, top, isUnsigned) == MiniRead(Rest(), currByte, isUnsigned) + dest[currByte + 1..]
        invariant MiniUsed(whole, top) == readable - old(readable) + MiniUsed(Rest(), currByte)
      {
        var matched := ReadMatched(dest, currByte, byteMatch, isUnsigned);
        if !matched {
          return;
        }
        currByte := currByte - 1;
      }
      ReadLowest(dest, byteMatch, isUnsigned);
    }

    /** One turn of the loop: either this byte was left out, or it and all below it follow. */
    method ReadMatched(dest: array<Octet>, currByte: nat, byteMatch: Octet, ghost isUnsigned: bool) returns (matched: bool)
      requires Valid() && dest != data && 0 < currByte < dest.Length && byteMatch == Match(isUnsigned)
      requires MiniFits(Rest(), currByte)
      modifies this`readable, dest
      ensures Valid()
      ensures matched ==>
                && MiniFits(Rest(), currByte - 1)
                && MiniRead(old(Rest()), currByte, isUnsigned) + old(dest[currByte + 1..])
                   == MiniRead(Rest(), currByte - 1, isUnsigned) + dest[currByte..]
                && MiniUsed(old(Rest()), currByte) == readable - old(readable) + MiniUsed(Rest(), currByte - 1)
      ensures !matched ==>
                && dest[..] == MiniRead(old(Rest()), currByte, isUnsigned) + old(dest[currByte + 1..])
                && readable == old(readable) + MiniUsed(old(Rest()), currByte)
    {
      hide ZeroTail, HandedBytes, MiniRead, MiniUsed, MiniFits, BitsOf, Match;
      ghost var rest, done := Rest(), dest[currByte + 1..];
      MiniStep(rest, currByte, isUnsigned, done);
      matched := ReadBool();
      assert Rest() == rest[1..] && matched == rest[0];
      if matched {
        dest[currByte] := byteMatch;
        assert dest[currByte..] == [byteMatch] + done;
      } else {
        ReadRight(dest, 8 * (currByte + 1));
        assert dest[..] == dest[..currByte + 1] + done;
      }
    }

    /** The lowest byte, of which half may have been left out. */
    method ReadLowest(dest: array<Octet>, byteMatch: Octet, ghost isUnsigned: bool)
      requires Valid() && dest != data && dest.Length > 0 && byteMatch == Match(isUnsigned) && MiniFits(Rest(), 0)
      modifies this`readable, dest
      ensures Valid() && dest[..] == MiniRead(old(Rest()), 0, isUnsigned) + old(dest[1..])
      ensures readable == old(readable) + MiniUsed(old(Rest()), 0)
    {
      hide ZeroTail;
      ghost var rest := Rest();
      var half := ReadBool();
      assert Rest() == rest[1..] && half == rest[0];
      if half {
        ReadHalf(dest, byteMatch);
        assert rest[1..][..4] == rest[1..5];
      } else {
        ReadRight(dest, 8);
        assert rest[1..][..8] == rest[1..9];
        WholeHanded(rest[1..9]);
        assert dest[..] == dest[..1] + dest[1..];
      }
    }

    /** ReadBits with its default alignment. */
    method ReadRight(dest: array<Octet>, bits2Read: nat)
      requires Valid() && bits2Read > 0 && |Rest()| >= bits2Read
      requires dest != data && BytesFor(bits2Read) <= dest.Length
      modifies this`readable, dest
      ensures Valid() && readable == old(readable) + bits2Read && Rest() == old(Rest())[bits2Read..]
      ensures dest[..BytesFor(bits2Read)] == HandedBytes(old(Rest())[..bits2Read])
      ensures dest[BytesFor(bits2Read)..] == old(dest[BytesFor(bits2Read)..])
    {
      hide ZeroTail, HandedBytes;
      ghost var s := Rest()[..bits2Read];
      ReadBits(dest, bits2Read, true);
      assert data[..] == old(data[..]);
      assert Contents()[old(readable)..readable] == s;
      HoldsHandedBytes(dest[..BytesFor(bits2Read)], s);
    }

    /** Read half a byte and put the other half in front of it. */
    method ReadHalf(dest: array<Octet>, byteMatch: Octet)
      requires Valid() && dest != data && dest.Length > 0 && |Rest()| >= 4 && (byteMatch == Zeros(8) || byteMatch == Ones(8))
      modifies this`readable, dest
      ensures Valid() && readable == old(readable) + 4
      ensures dest[..] == [byteMatch[..4] + old(Rest())[..4]] + old(dest[1..])
    {
      hide ZeroTail;
      ghost var s := Rest()[..4];
      ReadRight(dest, 4);
      HalfHanded(s);
      var halfByteMatch: Octet := byteMatch[..4] + Zeros(4);
      assert dest[0] == dest[..1][0] == Zeros(4) + s;
      HalvesJoined(s, byteMatch);
      dest[0] := Or(dest[0], halfByteMatch);
    }

    method ReadRanged(t: IntType, mini: int, max: int, allowOutsideRange: bool) returns (value: int)
      requires Valid() && Readable(RangedShape(t, mini, max, allowOutsideRange))
      requires RangedFits(t, max - mini, allowOutsideRange, Rest())
      modifies this`readable
      ensures Valid() && Length(max - mini) <= 8 * t.size
      ensures value == RangedValue(t, mini, max - mini, allowOutsideRange, old(Rest()))
      ensures readable == old(readable) + RangedUsed(t, max - mini, allowOutsideRange, old(Rest()))
    {
      DistanceFits(t, mini, max);
      hide Length, InRange, ZeroTail, FromPattern, FromLittle, MiniRead, MiniUsed, MiniFits, RangedRead, BitsOf;
      ghost var rest := Rest();
      if allowOutsideRange {
        var isOutsideRange := ReadBool();
        assert Rest() == rest[1..] && isOutsideRange == rest[0];
        if isOutsideRange {
          value := ReadOutside(t);
          return;
        }
      }
      value := ReadDistance(t, mini, max);
    }

    method ReadOutside(t: IntType) returns (value: int)
      requires Valid() && ValidType(t) && MiniFits(Rest(), t.size - 1)
      modifies this`readable
      ensures Valid() && readable == old(readable) + MiniUsed(old(Rest()), t.size - 1)
      ensures value == FromPattern(t, FromLittle(MiniRead(old(Rest()), t.size - 1, true)))
    {
      hide ZeroTail;
      var bytes := new Octet[t.size](_ => Zeros(8));
      ReadMini(bytes, true);
      value := FromPattern(t, FromLittle(bytes[..]));
    }

    method ReadDistance(t: IntType, mini: int, max: int) returns (value: int)
      requires Valid() && ValidType(t) && mini < max && Length(max - mini) <= 8 * t.size
      requires Pattern(t, max - mini) == max - mini && |Rest()| >= Length(max - mini)
      modifies this`readable
      ensures Valid() && readable == old(readable) + Length(max - mini)
      ensures BytesFor(Length(max - mini)) <= t.size
      ensures value == RangedRead(t, old(Rest())[..Length(max - mini)], mini)
    {
      var requiredBits := RequiredBits(t, mini, max);
      hide ZeroTail, HandedBytes, FromLittle, FromPattern, Pow2, Length, BitsOf, Pattern;
      var bytes := ReadPadded(t.size, requiredBits);
      value := FromPattern(t, FromLittle(bytes) + mini);
    }

    /** Read bits into cleared memory. */
    method ReadPadded(size: nat, bits: nat) returns (bytes: seq<Octet>)
      requires Valid() && 0 < bits <= 8 * size && |Rest()| >= bits
      modifies this`readable
      ensures Valid() && readable == old(readable) + bits
      ensures bytes == HandedBytes(old(Rest())[..bits]) + seq(size - BytesFor(bits), _ => Zeros(8))
    {
      hide ZeroTail, HandedBytes;
      var memory := new Octet[size](_ => Zeros(8));
      ghost var cleared := memory[BytesFor(bits)..];
      assert cleared == seq(size - BytesFor(bits), _ => Zeros(8));
      ReadRight(memory, bits);
      bytes := memory[..];
      assert bytes == memory[..BytesFor(bits)] + memory[BytesFor(bits)..];
    }

    // ------------------------------------------------------ field sequences

    method WriteField(f: Field)
      requires Valid() && !readOnly && Writable(f) && Counts(|FieldBits(f)|)
      modifies this`data, this`allocatedBits, this`writable, data
      ensures Valid() && Contents() == old(Contents()) + FieldBits(f)
      ensures (data == old(data) || fresh(data)) && allocatedBits >= old(allocatedBits)
    {
      match f
      case BoolField(b) => WriteBool(b);
      case BitsField(bytes, n) => WriteRight(bytes, n);
      case IntField(t, v) => WriteInt(t, v);
      case RangedField(t, v, min, max, outside) => WriteRanged(t, v, min, max, outside);
      case MiniField(src, unsigned) => WriteMini(src, unsigned);
    }

    method ReadField(shape: Shape) returns (f: Field)
      requires Valid() && Readable(shape) && Fits(shape, Rest())
      modifies this`readable
      ensures Valid() && f == Parse(shape, old(Rest())).0
      ensures readable == old(readable) + Parse(shape, old(Rest())).1
    {
      hide ZeroTail, BitsOf, HandedBytes, MiniRead, MiniUsed, MiniFits,
           RangedValue, RangedUsed, RangedFits, FromPattern, FromLittle, InRange, Length;
      match shape
      case BoolShape =>
        var b := ReadBool();
        f := BoolField(b);
      case BitsShape(n) =>
        var bytes := new Octet[BytesFor(n)](_ => Zeros(8));
        ReadRight(bytes, n);
        assert bytes[..] == bytes[..BytesFor(n)];
        f := BitsField(bytes[..], n);
      case IntShape(t) =>
        var v := ReadInt(t);
        f := IntField(t, v);
      case RangedShape(t, min, max, outside) =>
        var v := ReadRanged(t, min, max, outside);
        f := RangedField(t, v, min, max, outside);
      case MiniShape(size, unsigned) =>
        var bytes := new Octet[size](_ => Zeros(8));
        ReadMini(bytes, unsigned);
        f := MiniField(bytes[..], unsigned);
    }
  }

  lemma HalfHanded(s: seq<bool>)
    requires |s| == 4
    ensures HandedBytes(s) == [Zeros(4) + s]
  {
  }

  lemma WholeHanded(s: seq<bool>)
    requires |s| == 8
    ensures HandedBytes(s) == [s]
  {
    assert s[0..8] == s;
  }

  lemma HalvesJoined(s: seq<bool>, byteMatch: Octet)
    requires |s| == 4
    ensures Or(Zeros(4) + s, byteMatch[..4] + Zeros(4)) == byteMatch[..4] + s
  {
  }

  /** One turn of ReadMini's loop. */
  lemma MiniStep(s: seq<bool>, top: nat, unsigned: bool, done: seq<Octet>)
    requires top > 0 && MiniFits(s, top)
    ensures |s| >= 1
    ensures if s[0] then
              && MiniFits(s[1..], top - 1) && MiniUsed(s, top) == 1 + MiniUsed(s[1..], top - 1)
              && MiniRead(s, top, unsigned) + done
                 == MiniRead(s[1..], top - 1, unsigned) + ([Match(unsigned)] + done)
            else
              && |s| >= 1 + 8 * (top + 1) && MiniUsed(s, top) == 1 + 8 * (top + 1)
              && MiniRead(s, top, unsigned) == HandedBytes(s[1..][..8 * (top + 1)])
              && BytesFor(8 * (top + 1)) == top + 1
  {
    if !s[0] {
      assert s[1..][..8 * (top + 1)] == s[1..1 + 8 * (top + 1)];
    }
  }

  method ReverseBytes(src: seq<Octet>) returns (dest: seq<Octet>)
    ensures dest == Reverse(src)
  {
    var output := new Octet[|src|](_ => Zeros(8));
    for i := 0 to |src|
      invariant forall j :: 0 <= j < i ==> output[j] == src[|src| - j - 1]
    {
      output[i] := src[|src| - i - 1];
    }
    dest := output[..];
  }

  /** The bits up to the next byte boundary are zero. */
  lemma PadZeros(bytes: seq<Octet>, writable: nat)
    requires writable <= 8 * |bytes| && ZeroTail(bytes, writable)
    ensures var w := 8 * BytesFor(writable);
            && writable <= w <= 8 * |bytes| && w == writable + (8 - ((writable - 1) % 8 + 1))
            && BitsOf(bytes, w) == BitsOf(bytes, writable) + Zeros(w - writable)
  {
    var w := 8 * BytesFor(writable);
    forall i | writable <= i < w
      ensures !bytes[i / 8][i % 8]
    {
      assert i / 8 == writable / 8;
    }
  }

  lemma RangedFieldBits(t: IntType, v: int, min: int, max: int, outside: bool)
    requires Writable(RangedField(t, v, min, max, outside)) && Length(max - min) <= 8 * t.size
    ensures FieldBits(RangedField(t, v, min, max, outside)) ==
            if min <= v <= max then (if outside then [false] + RangedBits(t, v, min, max) else RangedBits(t, v, min, max))
            else [true] + MiniBits(LittleBytes(Pattern(t, v), t.size), t.size - 1, true)
  {
  }

  lemma HalfByte(src: seq<Octet>)
    requires |src| > 0
    ensures HandedBits(src, 4, true) == src[0][4..]
  {
  }

  lemma WholeByte(src: seq<Octet>)
    requires |src| > 0
    ensures HandedBits(src, 8, true) == src[0]
  {
  }

  /** Count the zero bits above the highest one by halving the width. */
  method LeadingZeros(value: nat, width: nat) returns (n: int)
    requires width == 8 || width == 16 || width == 32 || width == 64
    requires value < Pow2(width)
    ensures n == width - Length(value)
  {
    SmallPowers();
    TopIsPow2();
    hide Pow2, Length;
    var x := value;
    n := width;
    if width >= 64 {
      HalfLength(x, 32, 0x1_0000_0000);
      var y := x / 0x1_0000_0000;
      if y != 0 {
        n := n - 32;
        x := y;
      }
      assert Length(value) == Length(x) + width - n && x < 0x1_0000_0000;
    }
    if width >= 32 {
      HalfLength(x, 16, 0x1_0000);
      var y := x / 0x1_0000;
      if y != 0 {
        n := n - 16;
        x := y;
      }
      assert Length(value) == Length(x) + width - n && x < 0x1_0000;
    }
    if width >= 16 {
      HalfLength(x, 8, 0x100);
      var y := x / 0x100;
      if y != 0 {
        n := n - 8;
        x := y;
      }
      assert Length(value) == Length(x) + width - n && x < 0x100;
    }
    HalfLength(x, 4, 0x10);
    var y := x / 0x10;
    if y != 0 {
      n := n - 4;
      x := y;
    }
    assert Length(value) == Length(x) + width - n && x < 0x10;
    HalfLength(x, 2, 4);
    y := x / 4;
    if y != 0 {
      n := n - 2;
      x := y;
    }
    assert Length(value) == Length(x) + width - n && x < 4;
    SmallLength(x);
    y := x / 2;
    if y != 0 {
      return n - 2;
    }
    return n - x;
  }

  /** How many bits the range of an integer needs. */
  method RequiredBits(t: IntType, mini: int, max: int) returns (n: int)
    requires ValidType(t) && mini < max && Length(max - mini) <= 8 * t.size && Pattern(t, max - mini) == max - mini
    ensures n == Length(max - mini) > 0
  {
    LengthBounds(max - mini);
    Pow2UpTo(Length(max - mini), 8 * t.size);
    hide Length, Pow2, Pattern;
    var zeros := LeadingZeros(Pattern(t, max - mini), 8 * t.size);
    n := 8 * t.size - zeros;
  }

  lemma SmallLength(x: nat)
    requires x < 4
    ensures Length(x) == if x / 2 != 0 then 2 else x
  {
    assert Length(0) == 0 && Length(1) == 1;
  }

  /** The half of a number that holds its highest one. */
  lemma HalfLength(x: nat, k: nat, p: nat)
    requires p == Pow2(k)
    ensures x / p != 0 ==> Length(x) == Length(x / p) + k
    ensures x / p == 0 ==> x < p
    ensures x < p * p ==> x / p < p
  {
    HighQuotient(x, k);
    if High(x, k) != 0 {
      LengthHigh(x, k);
    }
    DivBound(x, p);
  }

  lemma DivBound(x: nat, p: nat)
    requires p > 0
    ensures x / p == 0 ==> x < p
    ensures x < p * p ==> x / p < p
  {
    var q := x / p;
    assert x == p * q + x % p;
    assert q >= p ==> p * q >= p * p;
  }

  lemma CanReach(readable: nat, left: nat, start: nat, writable: nat, length: nat)
    requires left > 0 && readable + left <= writable && BytesFor(writable) <= length && readable % 8 == start
    ensures readable / 8 < length && (left > 8 - start ==> readable / 8 + 1 < length)
  {
  }

  lemma LastTurn(bits: nat, next: nat, left: nat)
    requires bits - left == 8 * next && left > 0
    ensures left <= 8 <==> next + 1 == BytesFor(bits)
    ensures next + 1 <= BytesFor(bits)
  {
  }

  lemma LastByte(bits: nat, j: nat)
    requires j < BytesFor(bits)
    ensures 8 * j + 8 > bits <==> bits % 8 > 0 && j == BytesFor(bits) - 1
    ensures 8 * j + 8 > bits ==> 8 * j + 8 - bits == 8 - bits % 8
    ensures 8 * j < bits
  {
  }

  lemma Turn(w: nat, bits: nat, next: nat, n: nat)
    requires 8 * next + n <= bits && n > 0
    ensures (w + 8 * next) % 8 == w % 8
    ensures BytesFor(w + 8 * next + n) <= BytesFor(w + bits) && next < BytesFor(bits)
  {
  }

  lemma Onward<T>(front: seq<T>, s: seq<T>, i: nat, j: nat)
    requires i <= j <= |s|
    ensures (front + s[..i]) + s[i..j] == front + s[..j]
  {
    assert s[..i] + s[i..j] == s[..j];
  }

  lemma SameBits(before: seq<Octet>, after: seq<Octet>, n: nat)
    requires n <= 8 * |before| && n <= 8 * |after|
    requires forall i :: 0 <= i < BytesFor(n) ==> after[i] == before[i]
    ensures BitsOf(after, n) == BitsOf(before, n) && (ZeroTail(before, n) ==> ZeroTail(after, n))
  {
  }

  lemma WholeBits(bytes: nat)
    requires bytes < TWO32
    ensures var bits := (8 * bytes) % TWO32; bits % 8 == 0 && bits <= 8 * bytes && bits <= TWO32 - 8 && BytesFor(bits) <= bytes
  {
  }

  lemma WholeTail(bytes: seq<Octet>, bits: nat)
    requires bits % 8 == 0 && bits <= 8 * |bytes|
    ensures ZeroTail(bytes, bits)
  {
  }

  lemma CopiedBits(before: seq<Octet>, after: seq<Octet>, writable: nat, src: seq<Octet>, bits: nat, right: bool)
    requires writable % 8 == 0 && bits % 8 == 0 && bits / 8 <= |src| && |after| == |before| && writable + bits <= 8 * |before|
    requires forall i :: 0 <= i < writable / 8 ==> after[i] == before[i]
    requires forall i :: 0 <= i < bits / 8 ==> after[writable / 8 + i] == src[i]
    ensures BitsOf(after, writable + bits) == BitsOf(before, writable) + HandedBits(src, bits, right)
  {
  }

  /** Nothing lies behind the bits of a left-aligned last byte, up to where the last byte that
      is written to ends. */
  predicate TailClear(src: seq<Octet>, bits: nat, right: bool, writable: nat)
    requires BytesFor(bits) <= |src|
  {
    right || bits % 8 == 0 || NothingBeyond(src[bits / 8], writable + 8 * (bits / 8), bits % 8)
  }

  /** The bits handed over in one byte. */
  lemma HandedByte(src: seq<Octet>, bits: nat, right: bool, j: nat, n: nat, b: Octet)
    requires BytesFor(bits) <= |src| && 8 * j < bits && n == (if bits - 8 * j >= 8 then 8 else bits - 8 * j)
    requires b == if n < 8 && right then ShiftLeft(src[j], 8 - n) else src[j]
    ensures b[..n] == HandedBits(src, bits, right)[8 * j..8 * j + n]
  {
    var s := HandedBits(src, bits, right);
    forall k | 0 <= k < n
      ensures s[8 * j + k] == b[k]
    {
      assert (8 * j + k) / 8 == j && (8 * j + k) % 8 == k;
      assert n < 8 ==> j == bits / 8 && n == bits % 8;
    }
  }

  /** And the bits behind them. */
  lemma HandedTail(src: seq<Octet>, bits: nat, right: bool, w: nat, j: nat, n: nat, b: Octet)
    requires BytesFor(bits) <= |src| && 8 * j < bits && n == (if bits - 8 * j >= 8 then 8 else bits - 8 * j)
    requires b == if n < 8 && right then ShiftLeft(src[j], 8 - n) else src[j]
    ensures 8 * j + n < bits ==> NothingBeyond(b, w + 8 * j, n)
    ensures 8 * j + n == bits ==> (NothingBeyond(b, w + 8 * j, n) <==> TailClear(src, bits, right, w))
  {
    assert if n < 8 then j == bits / 8 && n == bits % 8 else 8 * j + n == bits ==> bits % 8 == 0;
  }

  /** The byte holds byte j of a bit string that has been read. */
  predicate HoldsByte(d: Octet, s: seq<bool>, j: nat, right: bool)
    requires 8 * j < |s|
  {
    if 8 * j + 8 <= |s| then d == s[8 * j..8 * j + 8]
    else if right then d == Zeros(8 * j + 8 - |s|) + s[8 * j..]
    else d[..|s| - 8 * j] == s[8 * j..]
  }

  predicate Holds(ds: seq<Octet>, s: seq<bool>, right: bool) {
    |ds| <= BytesFor(|s|) && forall j :: 0 <= j < |ds| ==> HoldsByte(ds[j], s, j, right)
  }

  lemma HoldsMore(ds: seq<Octet>, s: seq<bool>, d: Octet, right: bool)
    requires Holds(ds, s, right) && |ds| < BytesFor(|s|) && HoldsByte(d, s, |ds|, right)
    ensures Holds(ds + [d], s, right)
  {
  }

  lemma HoldsNothing(s: seq<bool>, right: bool)
    ensures Holds([], s, right)
  {
  }

  /** Eight bits, or the rest of them, gathered from two bytes. */
  lemma GetBits(data: seq<Octet>, readable: nat, n: nat, b: Octet)
    requires 1 <= n <= 8 && readable + n <= 8 * |data| && readable % 8 > 0
    requires var start := readable % 8;
             var first := ShiftLeft(data[readable / 8], start);
             b == if n > 8 - start then Or(first, ShiftRight(data[readable / 8 + 1], 8 - start)) else first
    ensures forall k :: 0 <= k < n ==> b[k] == data[(readable + k) / 8][(readable + k) % 8]
  {
    var start := readable % 8;
    forall k | 0 <= k < n
      ensures b[k] == data[(readable + k) / 8][(readable + k) % 8]
    {
      if start + k < 8 {
        assert (readable + k) / 8 == readable / 8 && (readable + k) % 8 == start + k;
      } else {
        assert (readable + k) / 8 == readable / 8 + 1 && (readable + k) % 8 == start + k - 8;
      }
    }
  }

  /** What the caller gets for n gathered bits. */
  lemma GetByte(data: seq<Octet>, writable: nat, r: nat, bits: nat, j: nat, n: nat, b: Octet, d: Octet, right: bool)
    requires r + bits <= writable <= 8 * |data| && 8 * j < bits && n == (if bits - 8 * j >= 8 then 8 else bits - 8 * j)
    requires forall k :: 0 <= k < n ==> b[k] == data[(r + 8 * j + k) / 8][(r + 8 * j + k) % 8]
    requires d == if n < 8 && right then ShiftRight(b, 8 - n) else b
    ensures HoldsByte(d, BitsOf(data, writable)[r..r + bits], j, right)
  {
    var s := BitsOf(data, writable)[r..r + bits];
    assert b[..n] == s[8 * j..8 * j + n];
    if n < 8 && right {
      assert ShiftRight(b, 8 - n) == Zeros(8 - n) + b[..n];
    }
  }

  lemma AlignedByte(data: seq<Octet>, writable: nat, r: nat, bits: nat, j: nat, d: Octet, right: bool)
    requires r + bits <= writable <= 8 * |data| && 8 * j < bits && r % 8 == 0
    requires d == if 8 * j + 8 > bits && right then ShiftRight(data[r / 8 + j], 8 * j + 8 - bits) else data[r / 8 + j]
    ensures HoldsByte(d, BitsOf(data, writable)[r..r + bits], j, right)
  {
    var n := if bits - 8 * j >= 8 then 8 else bits - 8 * j;
    var b := data[r / 8 + j];
    forall k | 0 <= k < n
      ensures b[k] == data[(r + 8 * j + k) / 8][(r + 8 * j + k) % 8]
    {
      assert (r + 8 * j + k) / 8 == r / 8 + j && (r + 8 * j + k) % 8 == k;
    }
    GetByte(data, writable, r, bits, j, n, b, d, right);
  }

  lemma AlignedBytes(data: seq<Octet>, writable: nat, r: nat, bits: nat, ds: seq<Octet>, right: bool)
    requires r + bits <= writable <= 8 * |data| && r % 8 == 0 && |ds| == BytesFor(bits)
    requires forall j :: 0 <= j < |ds| ==>
               ds[j] == if 8 * j + 8 > bits && right then ShiftRight(data[r / 8 + j], 8 - bits % 8) else data[r / 8 + j]
    ensures Holds(ds, BitsOf(data, writable)[r..r + bits], right)
  {
    hide BitsOf, HoldsByte, ShiftRight;
    forall j | 0 <= j < |ds|
      ensures HoldsByte(ds[j], BitsOf(data, writable)[r..r + bits], j, right)
    {
      LastByte(bits, j);
      AlignedByte(data, writable, r, bits, j, ds[j], right);
    }
  }

  /** One turn of an unaligned read. */
  lemma UnalignedByte(data: seq<Octet>, writable: nat, r: nat, bits: nat, j: nat, b: Octet, d: Octet, right: bool)
    requires r + bits <= writable <= 8 * |data| && 8 * j < bits && r % 8 > 0
    requires var start, pos, left := r % 8, (r + 8 * j) / 8, bits - 8 * j;
             var first := ShiftLeft(data[pos], start);
             && b == (if left > 8 - start then Or(first, ShiftRight(data[pos + 1], 8 - start)) else first)
             && d == (if left < 8 && right then ShiftRight(b, 8 - left) else b)
    ensures HoldsByte(d, BitsOf(data, writable)[r..r + bits], j, right)
  {
    hide HoldsByte, Or, ShiftLeft, ShiftRight;
    var left := bits - 8 * j;
    var n := if left >= 8 then 8 else left;
    assert (r + 8 * j) % 8 == r % 8;
    GetBits(data, r + 8 * j, n, b);
    GetByte(data, writable, r, bits, j, n, b, d, right);
  }

  lemma HoldsHandedBytes(d: seq<Octet>, s: seq<bool>)
    requires |d| == BytesFor(|s|) && Holds(d, s, true)
    ensures d == HandedBytes(s)
  {
  }

  method WriteFields(stream: GecoBitStream, fs: seq<Field>)
    requires stream.Valid() && !stream.readOnly && AllWritable(fs) && stream.Counts(|AllBits(fs)|)
    modifies stream`data, stream`allocatedBits, stream`writable, stream.data
    ensures stream.Valid() && stream.Contents() == old(stream.Contents()) + AllBits(fs)
  {
    hide FieldBits, Writable, ZeroTail;
    assert fs[0..] == fs;
    for i := 0 to |fs|
      invariant stream.Valid() && stream.Contents() + AllBits(fs[i..]) == old(stream.Contents()) + AllBits(fs)
      invariant (stream.data == old(stream.data) || fresh(stream.data)) && stream.Counts(|AllBits(fs[i..])|)
    {
      Regroup(stream.Contents(), FieldBits(fs[i]), AllBits(fs[i + 1..]));
      assert fs[i..][1..] == fs[i + 1..];
      stream.WriteField(fs[i]);
    }
  }

  method ReadFields(stream: GecoBitStream, shapes: seq<Shape>) returns (fs: seq<Field>)
    requires stream.Valid() && AllFit(shapes, stream.Rest())
    modifies stream`readable
    ensures stream.Valid() && fs == ParseAll(shapes, old(stream.Rest()))
  {
    hide Parse, Fits, Readable, ZeroTail;
    fs := [];
    ghost var whole := stream.Rest();
    assert shapes[0..] == shapes;
    for i := 0 to |shapes|
      invariant stream.Valid() && AllFit(shapes[i..], stream.Rest())
      invariant ParseAll(shapes, whole) == fs + ParseAll(shapes[i..], stream.Rest())
    {
      ghost var rest := stream.Rest();
      var f := stream.ReadField(shapes[i]);
      assert stream.Rest() == rest[Parse(shapes[i], rest).1..];
      assert shapes[i..][1..] == shapes[i + 1..];
      Regroup(fs, [f], ParseAll(shapes[i + 1..], stream.Rest()));
      fs := fs + [f];
    }
  }

  /** Writing any fields to a stream and reading them back with the matching reads. */
  method FieldsComeBack(fs: seq<Field>) returns (back: seq<Field>)
    requires AllWritable(fs) && (forall i :: 0 <= i < |fs| ==> Faithful(fs[i])) && |AllBits(fs)| + MEGABIT + 7 < TWO32
    ensures back == fs
  {
    hide AllBits, AllFit, ParseAll, Faithful, Writable;
    var stream := new GecoBitStream();
    WriteFields(stream, fs);
    FieldsBack(fs, []);
    assert stream.Rest() == AllBits(fs) + [];
    back := ReadFields(stream, Shapes(fs));
  }
}
