/** What the bit stream's typed writes put into the stream, and what the reads make of it. */
module BitCodec {
  import opened PowersOfTwo
  import opened Bits

  // --------------------------------------------------------- integer types

  datatype IntType = IntType(size: nat, signed: bool)

  predicate ValidType(t: IntType) {
    t.size == 1 || t.size == 2 || t.size == 4 || t.size == 8
  }

  predicate InRange(t: IntType, v: int)
    requires t.size > 0
  {
    if t.signed then -v <= Pow2(8 * t.size - 1) && v < Pow2(8 * t.size - 1) else 0 <= v < Pow2(8 * t.size)
  }

  /** The memory of a value, as an unsigned number. */
  function Pattern(t: IntType, v: int): nat {
    v % Pow2(8 * t.size)
  }

  /** The value a computation wraps to. */
  function FromPattern(t: IntType, u: int): int
    requires t.size > 0
  {
    var m := u % Pow2(8 * t.size);
    if t.signed && m >= Pow2(8 * t.size - 1) then m - Pow2(8 * t.size) else m
  }

  lemma PatternBack(t: IntType, v: int, u: int)
    requires t.size > 0 && InRange(t, v) && u % Pow2(8 * t.size) == v % Pow2(8 * t.size)
    ensures FromPattern(t, u) == v
  {
    var p := Pow2(8 * t.size);
    assert p == 2 * Pow2(8 * t.size - 1);
    if v >= 0 {
      ModUnique(v, p, 0, v);
    } else {
      ModUnique(v, p, -1, v + p);
    }
  }

  function IntBits(t: IntType, v: int): (s: seq<bool>)
    ensures |s| == 8 * t.size
  {
    Binary(Pattern(t, v), 8 * t.size)
  }

  lemma WholeBytes(src: seq<Octet>)
    ensures HandedBits(src, 8 * |src|, true) == BitsOf(src, 8 * |src|)
  {
  }

  lemma BytesOfBits(src: seq<Octet>)
    ensures HandedBytes(BitsOf(src, 8 * |src|)) == src
  {
    WholeBytes(src);
    HandedBack(src, 8 * |src|);
    assert src[..|src|] == src;
  }

  /** Reading back the bytes of an integer in network order gives its value. */
  lemma IntBack(t: IntType, v: int)
    requires t.size > 0 && InRange(t, v)
    ensures HandedBytes(IntBits(t, v)) == Reverse(LittleBytes(Pattern(t, v), t.size))
    ensures FromPattern(t, FromLittle(Reverse(HandedBytes(IntBits(t, v))))) == v
  {
    var u := Pattern(t, v);
    NetworkOrder(u, t.size);
    BytesOfBits(Reverse(LittleBytes(u, t.size)));
    ReverseTwice(LittleBytes(u, t.size));
    LittleBack(u, t.size);
    ModUnique(u, Pow2(8 * t.size), 0, u);
    PatternBack(t, v, u);
  }

  // ------------------------------------------------------- leading zeros

  /** The number of binary digits. */
  function Length(x: nat): nat {
    if x == 0 then 0 else 1 + Length(x / 2)
  }

  lemma {:induction false} LengthBounds(x: nat)
    ensures x < Pow2(Length(x)) && (x > 0 ==> Length(x) > 0 && Pow2(Length(x) - 1) <= x)
  {
    if x > 1 {
      LengthBounds(x / 2);
      assert Pow2(Length(x) - 1) == 2 * Pow2(Length(x / 2) - 1);
    } else {
      assert x == 1 ==> Length(0) == 0 && Length(x) == 1 && Pow2(0) == 1;
    }
  }

  lemma {:induction false} LengthAtMost(x: nat, n: nat)
    requires x < Pow2(n)
    ensures Length(x) <= n
  {
    if x > 0 {
      assert n > 0;
      LengthAtMost(x / 2, n - 1);
    }
  }

  lemma {:induction false} LengthHigh(x: nat, k: nat)
    requires High(x, k) != 0
    ensures Length(x) == Length(High(x, k)) + k
  {
    if k > 0 {
      LengthHigh(x / 2, k - 1);
      HighZero(k);
    }
  }

  lemma {:induction false} HighZero(k: nat)
    ensures High(0, k) == 0
  {
    if k > 0 {
      HighZero(k - 1);
    }
  }

  // -------------------------------------------------------- ranged integers

  /** The bits of a value's distance from the minimum: as many as the widest distance needs. */
  function RangedBits(t: IntType, v: int, min: int, max: int): (s: seq<bool>)
    requires min <= v <= max && Length(max - min) <= 8 * t.size
    ensures |s| == Length(max - min)
  {
    HandedBits(LittleBytes(v - min, t.size), Length(max - min), true)
  }

  /** The value read: the bytes not filled are zero. */
  function RangedRead(t: IntType, s: seq<bool>, min: int): int
    requires t.size > 0 && BytesFor(|s|) <= t.size
  {
    FromPattern(t, FromLittle(HandedBytes(s) + seq(t.size - BytesFor(|s|), _ => Zeros(8))) + min)
  }

  lemma {:induction false} BinaryBit(v: nat, n: nat, k: nat)
    requires k < n
    ensures Binary(v, n)[k] == (High(v, n - 1 - k) % 2 == 1)
  {
    if k < n - 1 {
      BinaryBit(v / 2, n - 1, k);
    }
  }

  lemma {:induction false} HighHigh(v: nat, j: nat, k: nat)
    ensures High(High(v, j), k) == High(v, j + k)
  {
    if j > 0 {
      HighHigh(v / 2, j - 1, k);
      assert j + k - 1 == j - 1 + k;
    }
  }

  lemma {:induction false} LittleBit(v: nat, size: nat, j: nat, k: nat)
    requires j < size && k < 8
    ensures LittleBytes(v, size)[j][k] == (High(v, 8 * j + 7 - k) % 2 == 1)
  {
    if j == 0 {
      BinaryBit(v, 8, k);
    } else {
      LittleBit(v / 256, size - 1, j - 1, k);
      HighQuotient(v, 8);
      assert Pow2(8) == 256;
      HighHigh(v, 8, 8 * (j - 1) + 7 - k);
      assert 8 + (8 * (j - 1) + 7 - k) == 8 * j + 7 - k;
    }
  }

  lemma SmallHigh(v: nat, n: nat, i: nat)
    requires v < Pow2(n) && n <= i
    ensures High(v, i) == 0
  {
    HighQuotient(v, n);
    ModUnique(v, Pow2(n), 0, v);
    HighHigh(v, n, i - n);
    HighZero(i - n);
  }

  /** A number below 2^n uses only its first n bits. */
  lemma SmallBytes(v: nat, size: nat, n: nat)
    requires v < Pow2(n) && n <= 8 * size
    ensures var bytes := LittleBytes(v, size);
            LeftClear(bytes, n) && forall j :: BytesFor(n) <= j < size ==> bytes[j] == Zeros(8)
  {
    hide LittleBytes, Pow2, High;
    var bytes := LittleBytes(v, size);
    forall j, k | 0 <= j < size && 0 <= k < 8 && 8 * j + 7 - k >= n
      ensures !bytes[j][k]
    {
      LittleBit(v, size, j, k);
      SmallHigh(v, n, 8 * j + 7 - k);
    }
    if n % 8 != 0 {
      assert n / 8 < size;
    }
  }

  lemma ZeroRest(bytes: seq<Octet>, b: nat)
    requires b <= |bytes| && forall j :: b <= j < |bytes| ==> bytes[j] == Zeros(8)
    ensures bytes == bytes[..b] + seq(|bytes| - b, _ => Zeros(8))
  {
  }

  /** Reading a ranged integer back. */
  lemma RangedBack(t: IntType, v: int, min: int, max: int)
    requires t.size > 0 && InRange(t, v) && min <= v <= max && Length(max - min) <= 8 * t.size
    ensures RangedRead(t, RangedBits(t, v, min, max), min) == v
  {
    hide LittleBytes, FromLittle, HandedBits, HandedBytes, LeftClear,
         Length, FromPattern, Pow2, BitsOf, Binary, Value;
    var n, d := Length(max - min), v - min;
    LengthBounds(max - min);
    var bytes := LittleBytes(d, t.size);
    SmallBytes(d, t.size, n);
    HandedBack(bytes, n);
    ZeroRest(bytes, BytesFor(n));
    Pow2UpTo(n, 8 * t.size);
    LittleBack(d, t.size);
    PatternBack(t, v, d + min);
  }

  lemma DistanceFits(t: IntType, min: int, max: int)
    requires t.size > 0 && InRange(t, min) && InRange(t, max) && min <= max
    ensures Length(max - min) <= 8 * t.size && Pattern(t, max - min) == max - min
  {
    var p := Pow2(8 * t.size);
    assert p == 2 * Pow2(8 * t.size - 1);
    LengthAtMost(max - min, 8 * t.size);
    ModUnique(max - min, p, 0, max - min);
  }

  // ------------------------------------------------- compressed integers

  function Ones(n: nat): (z: seq<bool>)
    ensures |z| == n && forall i :: 0 <= i < n ==> z[i]
  {
    seq(n, _ => true)
  }

  /** The byte whose repetition above the lowest byte is compressed. */
  function Match(unsigned: bool): Octet {
    if unsigned then Zeros(8) else Ones(8)
  }

  predicate SameHalf(b: Octet, c: Octet) {
    b[..4] == c[..4]
  }

  /** WriteMini from byte top downwards. */
  function MiniBits(src: seq<Octet>, top: nat, unsigned: bool): seq<bool>
    requires top < |src|
  {
    if top > 0 then
      if src[top] == Match(unsigned) then [true] + MiniBits(src, top - 1, unsigned)
      else [false] + HandedBits(src, 8 * (top + 1), true)
    else if SameHalf(src[0], Zeros(8)) || SameHalf(src[0], Ones(8)) then [true] + src[0][4..]
    else [false] + src[0]
  }

  /** There are enough bits for ReadMini. */
  predicate MiniFits(s: seq<bool>, top: nat)
    decreases top
  {
    |s| >= 1 &&
    if top > 0 then (if s[0] then MiniFits(s[1..], top - 1) else |s| >= 1 + 8 * (top + 1))
    else |s| >= if s[0] then 5 else 9
  }

  /** ReadMini from byte top downwards: the bytes read. */
  function MiniRead(s: seq<bool>, top: nat, unsigned: bool): (bytes: seq<Octet>)
    requires MiniFits(s, top)
    ensures |bytes| == top + 1
    decreases top
  {
    if top > 0 then
      if s[0] then MiniRead(s[1..], top - 1, unsigned) + [Match(unsigned)]
      else HandedBytes(s[1..1 + 8 * (top + 1)])
    else if s[0] then [Match(unsigned)[..4] + s[1..5]]
    else [s[1..9]]
  }

  function MiniUsed(s: seq<bool>, top: nat): (n: nat)
    requires MiniFits(s, top)
    ensures n <= |s|
    decreases top
  {
    if top > 0 then (if s[0] then 1 + MiniUsed(s[1..], top - 1) else 1 + 8 * (top + 1))
    else if s[0] then 5 else 9
  }

  /** Every byte above the lowest is compressed away and the half byte of the lowest that is
      compressed away is not the one that will be put back. */
  predicate Ambiguous(src: seq<Octet>, top: nat, unsigned: bool)
    requires top < |src|
  {
    && (forall j :: 1 <= j <= top ==> src[j] == Match(unsigned))
    && SameHalf(src[0], Match(!unsigned))
  }

  /** ReadMini after WriteMini consumes what was written, and returns the original bytes if and
      only if they are not ambiguous. */
  lemma {:induction false} MiniBack(src: seq<Octet>, top: nat, unsigned: bool, rest: seq<bool>)
    requires top < |src|
    ensures var s := MiniBits(src, top, unsigned) + rest;
            && MiniFits(s, top) && MiniUsed(s, top) == |MiniBits(src, top, unsigned)|
            && (MiniRead(s, top, unsigned) == src[..top + 1] <==> !Ambiguous(src, top, unsigned))
    decreases top
  {
    var s := MiniBits(src, top, unsigned) + rest;
    if top == 0 {
      LowestBack(src, unsigned, rest);
    } else if src[top] == Match(unsigned) {
      MiniBack(src, top - 1, unsigned, rest);
      MatchedBack(src, top, unsigned, rest);
    } else {
      UnmatchedBack(src, top, unsigned, rest);
    }
  }

  lemma MatchedBack(src: seq<Octet>, top: nat, unsigned: bool, rest: seq<bool>)
    requires 0 < top < |src| && src[top] == Match(unsigned)
    requires var s := MiniBits(src, top - 1, unsigned) + rest;
             && MiniFits(s, top - 1) && MiniUsed(s, top - 1) == |MiniBits(src, top - 1, unsigned)|
             && (MiniRead(s, top - 1, unsigned) == src[..top] <==> !Ambiguous(src, top - 1, unsigned))
    ensures var s := MiniBits(src, top, unsigned) + rest;
            && MiniFits(s, top) && MiniUsed(s, top) == |MiniBits(src, top, unsigned)|
            && (MiniRead(s, top, unsigned) == src[..top + 1] <==> !Ambiguous(src, top, unsigned))
  {
    hide MiniBits, MiniFits, MiniUsed, MiniRead, Ambiguous, Match;
    var bits := MiniBits(src, top - 1, unsigned);
    MatchedRead(bits + rest, top, unsigned);
    MatchedWrite(src, top, unsigned);
    assert MiniBits(src, top, unsigned) + rest == [true] + (bits + rest);
    assert src[..top + 1] == src[..top] + [src[top]];
    var r := MiniRead(bits + rest, top - 1, unsigned);
    assert r + [src[top]] == src[..top] + [src[top]] <==> r == src[..top] by {
      assert (r + [src[top]])[..top] == r && (src[..top] + [src[top]])[..top] == src[..top];
    }
    MatchedAmbiguous(src, top, unsigned);
  }

  lemma MatchedWrite(src: seq<Octet>, top: nat, unsigned: bool)
    requires 0 < top < |src| && src[top] == Match(unsigned)
    ensures MiniBits(src, top, unsigned) == [true] + MiniBits(src, top - 1, unsigned)
  {
    hide Match, HandedBits;
  }

  /** Reading past a flag that stands for a byte. */
  lemma MatchedRead(s: seq<bool>, top: nat, unsigned: bool)
    requires 0 < top && MiniFits(s, top - 1)
    ensures MiniFits([true] + s, top) && MiniUsed([true] + s, top) == 1 + MiniUsed(s, top - 1)
    ensures MiniRead([true] + s, top, unsigned) == MiniRead(s, top - 1, unsigned) + [Match(unsigned)]
  {
    hide Match, HandedBytes;
    assert ([true] + s)[1..] == s;
  }

  lemma MatchedAmbiguous(src: seq<Octet>, top: nat, unsigned: bool)
    requires 0 < top < |src| && src[top] == Match(unsigned)
    ensures Ambiguous(src, top, unsigned) <==> Ambiguous(src, top - 1, unsigned)
  {
    hide Match, SameHalf;
  }

  lemma UnmatchedBack(src: seq<Octet>, top: nat, unsigned: bool, rest: seq<bool>)
    requires 0 < top < |src| && src[top] != Match(unsigned)
    ensures var s := MiniBits(src, top, unsigned) + rest;
            && MiniFits(s, top) && MiniUsed(s, top) == |MiniBits(src, top, unsigned)|
            && MiniRead(s, top, unsigned) == src[..top + 1] && !Ambiguous(src, top, unsigned)
  {
    var s, handed := MiniBits(src, top, unsigned) + rest, HandedBits(src, 8 * (top + 1), true);
    AfterFlag(false, handed, rest);
    WholeBack(src, top + 1);
    hide HandedBits, HandedBytes, Match;
    assert s == [false] + handed + rest;
  }

  lemma WholeBack(src: seq<Octet>, k: nat)
    requires k <= |src|
    ensures BytesFor(8 * k) == k && HandedBytes(HandedBits(src, 8 * k, true)) == src[..k]
  {
    assert (8 * k) % 8 == 0;
    HandedBack(src, 8 * k);
  }

  lemma AfterFlag(flag: bool, bits: seq<bool>, rest: seq<bool>)
    ensures ([flag] + bits + rest)[1..1 + |bits|] == bits && ([flag] + bits + rest)[1..] == bits + rest
  {
  }

  lemma LowestBack(src: seq<Octet>, unsigned: bool, rest: seq<bool>)
    requires |src| > 0
    ensures var s := MiniBits(src, 0, unsigned) + rest;
            && MiniFits(s, 0) && MiniUsed(s, 0) == |MiniBits(src, 0, unsigned)|
            && (MiniRead(s, 0, unsigned) == src[..1] <==> !Ambiguous(src, 0, unsigned))
  {
    var s, b := MiniBits(src, 0, unsigned) + rest, src[0];
    assert src[..1] == [b] && b == b[..4] + b[4..];
    assert Zeros(8)[0] != Ones(8)[0];
    if s[0] {
      assert s[1..5] == b[4..];
      var r: Octet := Match(unsigned)[..4] + b[4..];
      assert r[..4] == Match(unsigned)[..4];
      assert SameHalf(b, Match(unsigned)) ==> r == b;
      assert SameHalf(b, Match(!unsigned)) ==> b[0] != r[0];
    } else {
      assert s[1..9] == b;
    }
  }

  /** The sixteen values of each width, one for each lower half of the lowest byte, whose upper
      half is taken for the other one. */
  function LostBytes(n: nat, unsigned: bool, half: seq<bool>): (src: seq<Octet>)
    requires n > 0 && |half| == 4
    ensures |src| == n
  {
    [Match(!unsigned)[..4] + half] + seq(n - 1, _ => Match(unsigned))
  }

  /** Those, and no others, do not come back. */
  lemma MiniLoses(src: seq<Octet>, unsigned: bool, rest: seq<bool>)
    requires |src| > 0
    ensures var s := MiniBits(src, |src| - 1, unsigned) + rest;
            && MiniFits(s, |src| - 1)
            && (MiniRead(s, |src| - 1, unsigned) != src
                <==> exists half :: |half| == 4 && src == LostBytes(|src|, unsigned, half))
  {
    MiniBack(src, |src| - 1, unsigned, rest);
    hide MiniBits, MiniFits, MiniRead, MiniUsed, Match;
    assert src[..|src|] == src;
    if Ambiguous(src, |src| - 1, unsigned) {
      assert src[0] == src[0][..4] + src[0][4..];
      assert src == LostBytes(|src|, unsigned, src[0][4..]);
    }
  }

  /** Of the unsigned numbers of any width these are 240 to 255. */
  lemma AmbiguousNumber(v: nat, size: nat)
    requires size > 0 && v < Pow2(8 * size)
    ensures Ambiguous(LittleBytes(v, size), size - 1, true) <==> 240 <= v < 256
  {
    var bytes := LittleBytes(v, size);
    OneByte(v, size);
    UpperHalf(v);
    assert bytes[0] == Binary(v, 8);
  }

  /** A number is below 256 exactly if all bytes but the lowest are zero. */
  lemma OneByte(v: nat, size: nat)
    requires size > 0 && v < Pow2(8 * size)
    ensures v < 256 <==> forall j :: 1 <= j < size ==> LittleBytes(v, size)[j] == Zeros(8)
  {
    hide Binary, FromLittle, Value, Zeros;
    assert Pow2(8) == 256;
    Pow2UpTo(8, 8 * size);
    var bytes, low := LittleBytes(v, size), LittleBytes(v % 256, size);
    SmallBytes(v % 256, size, 8);
    LittleBack(v, size);
    LittleBack(v % 256, size);
    SameLow(v, v % 256, 8);
    if forall j :: 1 <= j < size ==> bytes[j] == Zeros(8) {
      assert bytes == low;
    }
  }

  /** The upper half of the lowest byte is all ones from 240 on. */
  lemma UpperHalf(v: nat)
    ensures Binary(v, 8)[..4] == Ones(8)[..4] <==> 240 <= v % 256
  {
    hide Binary, Value, High, Ones;
    var w := v % 256 / 16;
    assert Pow2(8) == 256 && Pow2(4) == 16;
    SameLow(v, v % 256, 8);
    BinaryParts(v % 256, 4, 4);
    HighQuotient(v % 256, 4);
    ValueOfBinary(w, 4);
    BinaryOfValue(Ones(4));
    AllOnes(4);
    assert Ones(8)[..4] == Ones(4);
  }

  lemma {:induction false} AllOnes(n: nat)
    ensures Value(Ones(n)) == Pow2(n) - 1
  {
    if n > 0 {
      AllOnes(n - 1);
      assert Ones(n)[..n - 1] == Ones(n - 1);
    }
  }

  /** A value of n bytes takes between n + 4 and 8 n + 1 bits. */
  lemma {:induction false} MiniLength(src: seq<Octet>, top: nat, unsigned: bool)
    requires top < |src|
    ensures top + 5 <= |MiniBits(src, top, unsigned)| <= 8 * (top + 1) + 1
    decreases top
  {
    if top > 0 && src[top] == Match(unsigned) {
      MiniLength(src, top - 1, unsigned);
    }
  }

  // ------------------------------------------------------------------ fields

  /** A typed write. */
  datatype Field =
    | BoolField(b: bool)
    | BitsField(bytes: seq<Octet>, n: nat)
    | IntField(t: IntType, v: int)
    | RangedField(rt: IntType, rv: int, min: int, max: int, outside: bool)
    | MiniField(src: seq<Octet>, unsigned: bool)

  /** The matching read. */
  datatype Shape =
    | BoolShape
    | BitsShape(n: nat)
    | IntShape(t: IntType)
    | RangedShape(rt: IntType, min: int, max: int, outside: bool)
    | MiniShape(size: nat, unsigned: bool)

  function ShapeOf(f: Field): Shape {
    match f
    case BoolField(_) => BoolShape
    case BitsField(_, n) => BitsShape(n)
    case IntField(t, _) => IntShape(t)
    case RangedField(t, _, min, max, outside) => RangedShape(t, min, max, outside)
    case MiniField(src, unsigned) => MiniShape(|src|, unsigned)
  }

  /** What the writer's callers must respect. */
  predicate Writable(f: Field) {
    match f
    case BoolField(_) => true
    case BitsField(bytes, n) => n > 0 && |bytes| == BytesFor(n)
    case IntField(t, v) => ValidType(t) && InRange(t, v)
    case RangedField(t, v, min, max, outside) =>
      && ValidType(t) && InRange(t, v) && InRange(t, min) && InRange(t, max)
      && min <= max && (outside || min <= v <= max) && (min == max ==> v != min)
    case MiniField(src, _) => |src| > 0
  }

  /** What makes the value come back: no bits beside the ones written, and no ambiguous
      compressed value. */
  predicate Faithful(f: Field)
    requires Writable(f)
  {
    match f
    case BitsField(bytes, n) => LeftClear(bytes, n)
    case RangedField(t, v, min, max, _) =>
      min <= v <= max || !(240 <= Pattern(t, v) < 256)
    case MiniField(src, unsigned) => !Ambiguous(src, |src| - 1, unsigned)
    case _ => true
  }

  function FieldBits(f: Field): seq<bool>
    requires Writable(f)
  {
    match f
    case BoolField(b) => [b]
    case BitsField(bytes, n) => HandedBits(bytes, n, true)
    case IntField(t, v) => IntBits(t, v)
    case RangedField(t, v, min, max, outside) =>
      DistanceFits(t, min, max);
      if min <= v <= max then (if outside then [false] else []) + RangedBits(t, v, min, max)
      else [true] + MiniBits(LittleBytes(Pattern(t, v), t.size), t.size - 1, true)
    case MiniField(src, unsigned) => MiniBits(src, |src| - 1, unsigned)
  }

  /** Reading a ranged integer whose widest distance from the minimum is known. No bits are read
      for the only value of a range. */
  predicate RangedFits(t: IntType, widest: nat, outside: bool, s: seq<bool>)
    requires t.size > 0
  {
    if !outside then |s| >= Length(widest)
    else |s| >= 1 && if s[0] then MiniFits(s[1..], t.size - 1) else widest > 0 && |s| >= 1 + Length(widest)
  }

  function RangedUsed(t: IntType, widest: nat, outside: bool, s: seq<bool>): (n: nat)
    requires t.size > 0 && RangedFits(t, widest, outside, s)
    ensures n <= |s|
  {
    if !outside then Length(widest)
    else 1 + if s[0] then MiniUsed(s[1..], t.size - 1) else Length(widest)
  }

  function RangedValue(t: IntType, min: int, widest: nat, outside: bool, s: seq<bool>): int
    requires t.size > 0 && RangedFits(t, widest, outside, s) && Length(widest) <= 8 * t.size
  {
    if !outside then RangedRead(t, s[..Length(widest)], min)
    else if s[0] then FromPattern(t, FromLittle(MiniRead(s[1..], t.size - 1, true)))
    else RangedRead(t, s[1..][..Length(widest)], min)
  }

  predicate Readable(shape: Shape) {
    match shape
    case BoolShape => true
    case BitsShape(n) => n > 0
    case IntShape(t) => ValidType(t)
    case RangedShape(t, min, max, outside) =>
      ValidType(t) && InRange(t, min) && InRange(t, max) && min <= max && (min == max ==> outside)
    case MiniShape(size, _) => size > 0
  }

  /** There are enough bits to read. */
  predicate Fits(shape: Shape, s: seq<bool>)
    requires Readable(shape)
  {
    match shape
    case BoolShape => |s| >= 1
    case BitsShape(n) => |s| >= n
    case IntShape(t) => |s| >= 8 * t.size
    case RangedShape(t, min, max, outside) =>
      RangedFits(t, max - min, outside, s)
    case MiniShape(size, _) => MiniFits(s, size - 1)
  }

  /** What the read makes of a bit string, and how many bits it takes. */
  function Parse(shape: Shape, s: seq<bool>): (r: (Field, nat))
    requires Readable(shape) && Fits(shape, s)
    ensures r.1 <= |s|
  {
    hide InRange, Length, MiniFits, RangedFits, HandedBytes, FromLittle, FromPattern;
    match shape
    case BoolShape => (BoolField(s[0]), 1)
    case BitsShape(n) => (BitsField(HandedBytes(s[..n]), n), n)
    case IntShape(t) => (IntField(t, FromPattern(t, FromLittle(Reverse(HandedBytes(s[..8 * t.size]))))), 8 * t.size)
    case RangedShape(t, min, max, outside) =>
      DistanceFits(t, min, max);
      (RangedField(t, RangedValue(t, min, max - min, outside, s), min, max, outside), RangedUsed(t, max - min, outside, s))
    case MiniShape(size, unsigned) => (MiniField(MiniRead(s, size - 1, unsigned), unsigned), MiniUsed(s, size - 1))
  }

  // ---------------------------------------------------------- round trips

  lemma {:induction false} LittleForth(bytes: seq<Octet>)
    ensures FromLittle(bytes) < Pow2(8 * |bytes|) && LittleBytes(FromLittle(bytes), |bytes|) == bytes
    decreases |bytes|
  {
    hide Pow2, Value, Binary;
    if bytes != [] {
      var n := |bytes| - 1;
      var low, high := Value(bytes[0]), FromLittle(bytes[1..]);
      LittleForth(bytes[1..]);
      BinaryOfValue(bytes[0]);
      Pow2Sum(8, 8 * n);
      SmallPowers();
      LowHigh(low, high);
      assert bytes == [bytes[0]] + bytes[1..];
    }
  }

  lemma LowHigh(low: nat, high: nat)
    requires low < 256
    ensures (low + 256 * high) / 256 == high && Binary(low + 256 * high, 8) == Binary(low, 8)
  {
    assert Pow2(8) == 256;
    SameLow(low + 256 * high, low, 8);
  }

  /** A value determines its memory. */
  lemma PatternForth(t: IntType, u: nat)
    requires t.size > 0 && u < Pow2(8 * t.size)
    ensures InRange(t, FromPattern(t, u)) && Pattern(t, FromPattern(t, u)) == u
  {
    var p := Pow2(8 * t.size);
    assert p == 2 * Pow2(8 * t.size - 1);
    ModUnique(u, p, 0, u);
    if t.signed && u >= Pow2(8 * t.size - 1) {
      ModUnique(u - p, p, -1, u);
    }
  }

  lemma BytesDetermine(t: IntType, v: int, bytes: seq<Octet>)
    requires t.size > 0 && InRange(t, v) && |bytes| == t.size
    ensures FromPattern(t, FromLittle(bytes)) == v <==> bytes == LittleBytes(Pattern(t, v), t.size)
  {
    LittleForth(bytes);
    PatternForth(t, FromLittle(bytes));
    LittleBack(Pattern(t, v), t.size);
    ModUnique(Pattern(t, v), Pow2(8 * t.size), 0, Pattern(t, v));
    PatternBack(t, v, Pattern(t, v));
  }

  /** The matching read takes exactly what was written and gives the value back if and only if
      the field is faithful. */
  lemma FieldBack(f: Field, rest: seq<bool>)
    requires Writable(f)
    ensures var shape, s := ShapeOf(f), FieldBits(f) + rest;
            && Readable(shape) && Fits(shape, s) && Parse(shape, s).1 == |FieldBits(f)|
            && (Parse(shape, s).0 == f <==> Faithful(f))
  {
    hide HandedBits, HandedBytes, Pow2, Binary, LittleBytes, FromLittle, MiniBits,
         MiniRead, MiniUsed, MiniFits, Ambiguous, LeftClear, FromPattern, Pattern, InRange;
    var s := FieldBits(f) + rest;
    match f
    case BoolField(b) =>
    case BitsField(bytes, n) => BitsBack(bytes, n, rest);
    case IntField(t, v) =>
      assert s[..8 * t.size] == IntBits(t, v);
      IntBack(t, v);
    case RangedField(t, v, min, max, outside) =>
      if min <= v <= max {
        InsideBack(f, rest);
      } else {
        OutsideBack(f, rest);
      }
    case MiniField(src, unsigned) =>
      MiniBack(src, |src| - 1, unsigned, rest);
      assert src[..|src|] == src;
  }

  lemma BitsBack(bytes: seq<Octet>, n: nat, rest: seq<bool>)
    requires n > 0 && |bytes| == BytesFor(n)
    ensures var s := HandedBits(bytes, n, true) + rest;
            HandedBytes(s[..n]) == bytes <==> LeftClear(bytes, n)
  {
    var handed := HandedBits(bytes, n, true);
    assert (handed + rest)[..n] == handed;
    if LeftClear(bytes, n) {
      HandedBack(bytes, n);
      assert bytes[..|bytes|] == bytes;
    } else {
      var k :| 0 <= k < 8 - n % 8 && bytes[n / 8][k];
      HandedByteAt(handed, n / 8, k);
      assert !HandedBytes(handed)[n / 8][k];
    }
  }

  lemma InsideBack(f: Field, rest: seq<bool>)
    requires Writable(f) && f.RangedField? && f.min <= f.rv <= f.max
    ensures var shape, s := ShapeOf(f), FieldBits(f) + rest;
            Fits(shape, s) && Parse(shape, s) == (f, |FieldBits(f)|)
  {
    hide Parse, FieldBits, Fits, Length, RangedRead, InRange;
    var RangedField(t, v, min, max, outside) := f;
    DistanceFits(t, min, max);
    RangedBack(t, v, min, max);
    if outside {
      Flagged(f, RangedBits(t, v, min, max), rest);
    } else {
      Plain(f, RangedBits(t, v, min, max), rest);
    }
  }

  lemma Plain(f: Field, bits: seq<bool>, rest: seq<bool>)
    requires Writable(f) && f.RangedField? && f.min <= f.rv <= f.max && !f.outside
    requires Length(f.max - f.min) <= 8 * f.rt.size && bits == RangedBits(f.rt, f.rv, f.min, f.max)
    requires RangedRead(f.rt, bits, f.min) == f.rv
    ensures var shape, s := ShapeOf(f), FieldBits(f) + rest;
            Fits(shape, s) && Parse(shape, s) == (f, |FieldBits(f)|)
  {
    hide Length, RangedRead, RangedBits, InRange, MiniFits, MiniRead, MiniUsed, MiniBits, FromPattern, FromLittle;
    assert FieldBits(f) == bits;
    assert (bits + rest)[..|bits|] == bits;
  }

  lemma Flagged(f: Field, bits: seq<bool>, rest: seq<bool>)
    requires Writable(f) && f.RangedField? && f.min <= f.rv <= f.max && f.outside
    requires Length(f.max - f.min) <= 8 * f.rt.size && bits == RangedBits(f.rt, f.rv, f.min, f.max)
    requires RangedRead(f.rt, bits, f.min) == f.rv
    ensures var shape, s := ShapeOf(f), FieldBits(f) + rest;
            Fits(shape, s) && Parse(shape, s) == (f, |FieldBits(f)|)
  {
    hide Length, RangedRead, RangedBits, InRange, MiniFits, MiniRead, MiniUsed, MiniBits, FromPattern, FromLittle;
    AfterFlag(false, bits, rest);
    assert FieldBits(f) + rest == [false] + bits + rest;
    assert (bits + rest)[..|bits|] == bits;
  }

  lemma OutsideBack(f: Field, rest: seq<bool>)
    requires Writable(f) && f.RangedField? && !(f.min <= f.rv <= f.max)
    ensures var shape, s := ShapeOf(f), FieldBits(f) + rest;
            && Fits(shape, s) && Parse(shape, s).1 == |FieldBits(f)|
            && (Parse(shape, s).0 == f <==> Faithful(f))
  {
    var RangedField(t, v, min, max, outside) := f;
    DistanceFits(t, min, max);
    var bytes := LittleBytes(Pattern(t, v), t.size);
    MiniBack(bytes, t.size - 1, true, rest);
    var bits := MiniBits(bytes, t.size - 1, true);
    BytesDetermine(t, v, MiniRead(bits + rest, t.size - 1, true));
    AmbiguousNumber(Pattern(t, v), t.size);
    hide Length, RangedRead, RangedBits, InRange, MiniFits, MiniRead, MiniUsed, MiniBits, FromPattern, FromLittle;
    hide Ambiguous, LittleBytes, Pattern;
    AfterFlag(true, bits, rest);
    var s := FieldBits(f) + rest;
    assert s == [true] + bits + rest;
    assert bytes[..t.size] == bytes;
  }

  // -------------------------------------------------------- field sequences

  predicate AllWritable(fs: seq<Field>) {
    forall i :: 0 <= i < |fs| ==> Writable(fs[i])
  }

  function AllBits(fs: seq<Field>): seq<bool>
    requires AllWritable(fs)
  {
    if fs == [] then [] else FieldBits(fs[0]) + AllBits(fs[1..])
  }

  function Shapes(fs: seq<Field>): (shapes: seq<Shape>)
    ensures |shapes| == |fs| && forall i :: 0 <= i < |fs| ==> shapes[i] == ShapeOf(fs[i])
  {
    seq(|fs|, i requires 0 <= i < |fs| => ShapeOf(fs[i]))
  }

  predicate AllFit(shapes: seq<Shape>, s: seq<bool>)
    decreases |shapes|
  {
    shapes == [] ||
    (Readable(shapes[0]) && Fits(shapes[0], s) && AllFit(shapes[1..], s[Parse(shapes[0], s).1..]))
  }

  function ParseAll(shapes: seq<Shape>, s: seq<bool>): seq<Field>
    requires AllFit(shapes, s)
    decreases |shapes|
  {
    if shapes == [] then []
    else [Parse(shapes[0], s).0] + ParseAll(shapes[1..], s[Parse(shapes[0], s).1..])
  }

  /** Any sequence of writes, whatever the bit offsets it leads to, is read back by the matching
      sequence of reads. */
  lemma {:induction false} FieldsBack(fs: seq<Field>, rest: seq<bool>)
    requires AllWritable(fs) && forall i :: 0 <= i < |fs| ==> Faithful(fs[i])
    ensures AllFit(Shapes(fs), AllBits(fs) + rest) && ParseAll(Shapes(fs), AllBits(fs) + rest) == fs
    decreases |fs|
  {
    hide FieldBits, Parse, Fits, Faithful, Writable, Readable, ShapeOf;
    if fs != [] {
      var s, more := AllBits(fs) + rest, AllBits(fs[1..]) + rest;
      assert s == FieldBits(fs[0]) + more;
      FieldBack(fs[0], more);
      FieldsBack(fs[1..], rest);
      assert s[|FieldBits(fs[0])|..] == more;
      assert Shapes(fs)[1..] == Shapes(fs[1..]);
    }
  }
}
