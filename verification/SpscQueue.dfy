/** The single-producer single-consumer byte ring: PushTail and PopHead cut at their barriers
    into steps that may interleave in any way. Counters are 32 bits wide and wrap. */
module SpscQueue {
  import opened PowersOfTwo
  import opened Wrappers

  // ------------------------------------------------------------------ sizing

  /** The least power of two not below a 64-bit value, which does not fit above 2^63. */
  method RoundUpPower2(val: nat) returns (r: nat)
    requires val < TWO64
    ensures val == 0 ==> r == 0
    ensures 0 < val <= TOP64 ==> IsPower2(r) && val <= r < 2 * val
    ensures TOP64 < val ==> r == 0
  {
    hide Pow2, And;
    if val == 0 || And(val, val - 1) == 0 {
      if val != 0 {
        PowerBelow64(val);
      }
      return val;
    }
    TopIsPow2();
    var andv := TOP64;
    ghost var k: nat := 63;
    while And(andv, val) == 0
      invariant andv == Pow2(k) && val < 2 * andv
      invariant andv == TOP64 || 2 * andv <= TOP64
      decreases k
    {
      Halved(k, val);
      andv := andv / 2;
      k := k - 1;
    }
    Found(k, val);
    r := (2 * andv) % TWO64;
  }

  lemma Halved(k: nat, val: nat)
    requires 0 < val < 2 * Pow2(k) && And(Pow2(k), val) == 0
    ensures k > 0 && Pow2(k) == 2 * Pow2(k - 1) && val < Pow2(k)
  {
    AndTop(k, val);
  }

  lemma Found(k: nat, val: nat)
    requires 0 < val < 2 * Pow2(k) && And(Pow2(k), val) != 0 && !IsPower2(val)
    ensures Pow2(k) < val && IsPower2(2 * Pow2(k))
  {
    AndTop(k, val);
    IsPower2Pow2(k);
    IsPower2Pow2(k + 1);
  }

  lemma PowerBelow64(val: nat)
    requires IsPower2(val) && val < TWO64
    ensures val <= TOP64
  {
    var k := Exponent(val);
    TopIsPow2();
    Pow2Below(k, 64);
    Pow2UpTo(k, 63);
  }

  /** The product in 32 bits. */
  function BytesFor(nSize: nat, elementSize: nat): (bytes: nat)
    ensures bytes < TWO32
  {
    (nSize * elementSize) % TWO32
  }

  /** The size of the buffer for the bytes asked for. A power of two of bytes leaves nSize as it
      is, so that the buffer then holds nSize bytes, not nSize elements. */
  predicate Sized(n: nat, nSize: nat, elementSize: nat) {
    var bytes := BytesFor(nSize, elementSize);
    && (IsPower2(bytes) ==> n == nSize)
    && (!IsPower2(bytes) && 0 < bytes <= TWO32 / 2 ==> IsPower2(n) && bytes <= n < 2 * bytes)
    && (!IsPower2(bytes) && (bytes == 0 || bytes > TWO32 / 2) ==> n == 0)
  }

  /** The constructor's buffer size. */
  method BufferSize(nSize: nat, elementSize: nat) returns (n: nat)
    requires nSize < TWO32 && elementSize < TWO32
    ensures Sized(n, nSize, elementSize)
  {
    var bytes := BytesFor(nSize, elementSize);
    hide IsPower2, BytesFor;
    n := nSize;
    if !IsPower2(bytes) {
      var r := RoundUpPower2(bytes);
      if bytes > 0 {
        RoundedSize(bytes, r);
      }
      n := r % TWO32;
    }
  }

  lemma RoundedSize(bytes: nat, r: nat)
    requires 0 < bytes < TWO32 && IsPower2(r) && bytes <= r < 2 * bytes
    ensures if bytes <= TWO32 / 2 then r < TWO32 else r == TWO32
  {
    var k := Exponent(r);
    TopIsPow2();
    Pow2Below(k, 33) by { assert Pow2(33) == 2 * Pow2(32); }
    Pow2UpTo(k, 32);
    assert Pow2(32) == 2 * Pow2(31);
    if k < 32 {
      Pow2UpTo(k, 31);
    } else {
      Pow2UpTo(32, k);
    }
  }

  /** The constructor's buffer is a power of two, and whole elements tile it, or do not fit at
      all, exactly when the size of an element is a power of two. */
  lemma PowersTile(nSize: nat, e: nat, n: nat)
    requires 0 < nSize && 0 < e && nSize * e <= TWO32 / 2 && Sized(n, nSize, e)
    ensures IsPower2(n) && n <= TWO32 / 2
    ensures n % e == 0 || n < e <==> IsPower2(e)
    ensures Tiles(n, e) <==> IsPower2(e) && e <= n
    ensures n < e <==> IsPower2(nSize * e) && nSize < e
  {
    MulLe(1, e, nSize);
    MulLe(1, nSize, e);
    var bytes := nSize * e;
    assert BytesFor(nSize, e) == bytes > 0;
    hide And, BytesFor;
    if IsPower2(bytes) {
      Factors(nSize, e);
    } else {
      PowerBelow32(n);
    }
    Division(n, e);
  }

  lemma Factors(n: nat, e: nat)
    requires IsPower2(n * e)
    ensures IsPower2(n) && IsPower2(e)
  {
    var k := Exponent(n * e);
    var i := DivisorOfPow2(n, e, k);
    var j := DivisorOfPow2(e, n, k);
    IsPower2Pow2(i);
    IsPower2Pow2(j);
  }

  lemma PowerBelow32(n: nat)
    requires IsPower2(n) && n < TWO32
    ensures n <= TWO32 / 2
  {
    var k := Exponent(n);
    TopIsPow2();
    Pow2Below(k, 32);
    Pow2UpTo(k, 31);
    assert Pow2(32) == 2 * Pow2(31);
  }

  /** What divides a power of two. */
  lemma Division(n: nat, e: nat)
    requires IsPower2(n) && 0 < e
    ensures IsPower2(e) && e <= n ==> n % e == 0
    ensures n % e == 0 ==> IsPower2(e)
  {
    hide IsPower2, Pow2;
    if IsPower2(e) && e <= n {
      SmallerDivides(n, e);
    }
    if n % e == 0 {
      assert n == (n / e) * e;
      Factors(n / e, e);
    }
  }

  lemma SmallerDivides(n: nat, e: nat)
    requires IsPower2(n) && IsPower2(e) && e <= n
    ensures n % e == 0
  {
    var j := Exponent(e);
    var k := Exponent(n);
    if k < j {
      Pow2UpTo(k + 1, j);
    }
    Pow2Divides(j, k);
  }

  ghost predicate Tiles(n: nat, e: nat) {
    0 < e <= n <= TWO32 / 2 && IsPower2(n) && n % e == 0
  }

  lemma Divides32(n: nat)
    requires IsPower2(n) && n <= TWO32 / 2
    ensures TWO32 % n == 0
  {
    var k := Exponent(n);
    TopIsPow2();
    Pow2Below(k, 32);
    Pow2Divides(k, 32);
  }

  // ------------------------------------------------------------------- steps

  /** Where a thread is in its copy loop: before sampling the other counter, before the copy,
      before moving its own counter. len is m_len; data is the element, or what PopHead has
      written of it so far. */
  datatype Thread =
    | Idle
    | Sampling(data: seq<Byte>, len: nat)
    | Copying(data: seq<Byte>, len: nat)
    | Moving(data: seq<Byte>, len: nat)

  datatype Queue = Queue(
    buffer: seq<Byte>,
    nIn: nat,
    nOut: nat,
    producer: Thread,
    consumer: Thread,
    pushed: seq<seq<Byte>>,   // elements whose PushTail has returned, in order
    popped: seq<seq<Byte>>)

  datatype Event =
    | StartPush(element: seq<Byte>)
    | Produce(beyond: seq<Byte>)   // what lies in memory behind the pushed element
    | StartPop(before: seq<Byte>)  // what PopHead's variable held before
    | Consume

  function Min(a: nat, b: nat): nat {
    if a < b then a else b
  }

  predicate Empty(q: Queue, n: nat) {
    && |q.buffer| == n && q.nIn == q.nOut == 0 && q.producer == q.consumer == Idle && q.pushed == q.popped == []
  }

  /** Replace the bytes from position at. */
  function Overwrite(s: seq<Byte>, at: nat, bytes: seq<Byte>): (r: seq<Byte>)
    requires at + |bytes| <= |s|
    ensures |r| == |s|
  {
    s[..at] + bytes + s[at + |bytes|..]
  }

  /** Bytes put in and not yet taken out. */
  function Used(nIn: nat, nOut: nat): nat {
    (nIn - nOut) % TWO32
  }

  lemma UsedGrows(nIn: nat, nOut: nat, len: nat, n: nat)
    requires nIn < TWO32 && nOut < TWO32 && n < TWO32 && Used(nIn, nOut) + len <= n
    ensures Used((nIn + len) % TWO32, nOut) == Used(nIn, nOut) + len
  {
  }

  lemma UsedShrinks(nIn: nat, nOut: nat, len: nat, n: nat)
    requires nIn < TWO32 && nOut < TWO32 && n < TWO32 && len <= Used(nIn, nOut) <= n
    ensures Used(nIn, (nOut + len) % TWO32) == Used(nIn, nOut) - len
  {
  }

  lemma FreeIsRest(nIn: nat, nOut: nat, n: nat)
    requires nIn < TWO32 && nOut < TWO32 && n < TWO32 && Used(nIn, nOut) <= n
    ensures (n - nIn + nOut) % TWO32 == n - Used(nIn, nOut)
  {
  }

  /** What holds for elements of any size: no thread's pending copy exceeds the free, or the
      filled, part of the buffer. */
  predicate Sane(q: Queue, n: nat, e: nat) {
    && 0 < e && 0 < n < TWO32 && |q.buffer| == n && q.nIn < TWO32 && q.nOut < TWO32 && Used(q.nIn, q.nOut) <= n
    && (q.producer.Idle? || (|q.producer.data| == e && q.producer.len <= e))
    && (q.consumer.Idle? || (|q.consumer.data| == e && q.consumer.len <= e))
    && (q.producer.Copying? || q.producer.Moving? ==> Used(q.nIn, q.nOut) + q.producer.len <= n)
    && (q.consumer.Copying? || q.consumer.Moving? ==> q.consumer.len <= Used(q.nIn, q.nOut))
  }

  predicate Enabled(q: Queue, n: nat, e: nat, ev: Event) {
    match ev
    case StartPush(element) => q.producer == Idle && |element| == e
    case Produce(beyond) => q.producer != Idle && |beyond| == n
    case StartPop(before) => q.consumer == Idle && |before| == e
    case Consume => q.consumer != Idle
  }

  /** One step of PushTail. The copy that wraps takes its second part from l elements, not
      l bytes, behind the start of the element. */
  function Produced(q: Queue, n: nat, e: nat, beyond: seq<Byte>): (r: Queue)
    requires Sane(q, n, e) && q.producer != Idle && |beyond| == n
    ensures Sane(r, n, e)
  {
    match q.producer
    case Sampling(data, len) =>
      FreeIsRest(q.nIn, q.nOut, n);
      q.(producer := Copying(data, Min(e - len, (n - q.nIn + q.nOut) % TWO32)))
    case Copying(data, len) =>
      AndBelow(q.nIn, n - 1);
      var at := And(q.nIn, n - 1);
      var l := Min(len, n - at);
      q.(buffer := Overwrite(Overwrite(q.buffer, at, data[..l]), 0, beyond[..len - l]),
         producer := Moving(data, len))
    case Moving(data, len) =>
      UsedGrows(q.nIn, q.nOut, len, n);
      var q' := q.(nIn := (q.nIn + len) % TWO32);
      if len < e then q'.(producer := Sampling(data, len))
      else q'.(producer := Idle, pushed := q.pushed + [data])
  }

  /** One step of PopHead. The second part of a copy that wraps goes l elements behind the
      start of the variable, outside it. */
  function Consumed(q: Queue, n: nat, e: nat): (r: Queue)
    requires Sane(q, n, e) && q.consumer != Idle
    ensures r.buffer == q.buffer && Sane(r, n, e)
  {
    match q.consumer
    case Sampling(data, len) =>
      q.(consumer := Copying(data, Min(e - len, Used(q.nIn, q.nOut))))
    case Copying(data, len) =>
      AndBelow(q.nOut, n - 1);
      var at := And(q.nOut, n - 1);
      var l := Min(len, n - at);
      q.(consumer := Moving(q.buffer[at..at + l] + data[l..], len))
    case Moving(data, len) =>
      UsedShrinks(q.nIn, q.nOut, len, n);
      var q' := q.(nOut := (q.nOut + len) % TWO32);
      if len < e then q'.(consumer := Sampling(data, len))
      else q'.(consumer := Idle, popped := q.popped + [data])
  }

  function Apply(q: Queue, n: nat, e: nat, ev: Event): (r: Queue)
    requires Sane(q, n, e) && Enabled(q, n, e, ev)
    ensures Sane(r, n, e)
  {
    match ev
    case StartPush(element) => q.(producer := Sampling(element, 0))
    case Produce(beyond) => Produced(q, n, e, beyond)
    case StartPop(before) => q.(consumer := Sampling(before, 0))
    case Consume => Consumed(q, n, e)
  }

  // ------------------------------------------------------------------- turns

  /** One turn of the loop of PushTail, whatever the sizes: it puts in as much of what the last
      turn left over as there is room for, from the start of the element again, and only a turn
      that puts in a whole element is the last. */
  lemma PushTurn(q: Queue, n: nat, e: nat, beyond: seq<Byte>)
    requires Sane(q, n, e) && q.producer.Sampling? && |beyond| == n
    ensures var Sampling(data, len) := q.producer;
            var put := Min(e - len, n - Used(q.nIn, q.nOut));
            var r := Produced(Produced(Produced(q, n, e, beyond), n, e, beyond), n, e, beyond);
            && Used(r.nIn, r.nOut) == Used(q.nIn, q.nOut) + put && r.nOut == q.nOut
            && (if put == e then r.producer == Idle && r.pushed == q.pushed + [data]
                else r.producer == Sampling(data, put) && r.pushed == q.pushed)
  {
    hide And, Used;
    FreeIsRest(q.nIn, q.nOut, n);
    UsedGrows(q.nIn, q.nOut, Min(e - q.producer.len, n - Used(q.nIn, q.nOut)), n);
  }

  /** The same for PopHead, which takes out what is there. */
  lemma PopTurn(q: Queue, n: nat, e: nat)
    requires Sane(q, n, e) && q.consumer.Sampling?
    ensures var taken := Min(e - q.consumer.len, Used(q.nIn, q.nOut));
            var r := Consumed(Consumed(Consumed(q, n, e), n, e), n, e);
            && Used(r.nIn, r.nOut) == Used(q.nIn, q.nOut) - taken && r.nIn == q.nIn
            && (if taken == e then r.consumer == Idle && |r.popped| == |q.popped| + 1
                else r.consumer.Sampling? && r.consumer.len == taken && r.popped == q.popped)
  {
    hide And, Used;
    UsedShrinks(q.nIn, q.nOut, Min(e - q.consumer.len, Used(q.nIn, q.nOut)), n);
  }

  // --------------------------------------------------------------- invariant

  /** Where element i lies. */
  function Place(e: nat, m: nat, i: nat): nat
    requires m > 0
  {
    e * (i % m)
  }

  lemma PlaceFits(n: nat, e: nat, m: nat, i: nat)
    requires m > 0 && n == e * m
    ensures Place(e, m, i) + e <= n
  {
    assert e * (i % m) + e == e * (i % m + 1);
    assert e * (i % m + 1) <= e * m by { MulLe(i % m + 1, m, e); }
  }

  /** Bytes of element i, if the buffer is cut into m places of e bytes. */
  function Slot(buffer: seq<Byte>, e: nat, m: nat, i: nat): seq<Byte>
    requires m > 0 && |buffer| == e * m
  {
    PlaceFits(|buffer|, e, m, i);
    buffer[Place(e, m, i)..Place(e, m, i) + e]
  }

  /** A counter after a whole elements. */
  function Counter(e: nat, a: nat): nat {
    (e * a) % TWO32
  }

  /** The counters, in bytes modulo 2^32, after a and b whole elements. */
  lemma Counters(n: nat, e: nat, m: nat, a: nat, b: nat)
    requires n < TWO32 && n == e * m && b <= a <= b + m
    ensures var x, y := Counter(e, a), Counter(e, b);
            && (n - x + y) % TWO32 == e * (m - (a - b))
            && (x - y) % TWO32 == e * (a - b)
  {
    assert e * a == e * b + e * (a - b) by { Distribute(e, b, a - b); }
    assert n == e * (a - b) + e * (m - (a - b)) by { Distribute(e, a - b, m - (a - b)); }
    Gap(e * a, e * b, n, e * (a - b), e * (m - (a - b)));
  }

  lemma Distribute(a: nat, b: nat, c: nat)
    ensures a * (b + c) == a * b + a * c
  {
  }

  lemma Gap(a: nat, b: nat, n: nat, used: nat, free: nat)
    requires a == b + used && n == used + free && n < TWO32
    ensures (n - a % TWO32 + b % TWO32) % TWO32 == free && (a % TWO32 - b % TWO32) % TWO32 == used
  {
  }

  /** A masked counter is the place of the next element. */
  lemma MaskedCounter(n: nat, e: nat, m: nat, a: nat)
    requires Tiles(n, e) && n == e * m && m > 0
    ensures And(Counter(e, a), n - 1) == Place(e, m, a)
  {
    hide And;
    Masked((e * a) % TWO32, n);
    Divides32(n);
    ModMod(e * a, n, TWO32);
    PlaceOfProduct(n, e, m, a);
  }

  lemma Masked(a: nat, n: nat)
    requires IsPower2(n)
    ensures And(a, n - 1) == a % n
  {
    var k := Exponent(n);
    Mask(a, k);
  }

  lemma PlaceOfProduct(n: nat, e: nat, m: nat, a: nat)
    requires e > 0 && m > 0 && n == e * m
    ensures (e * a) % n == Place(e, m, a)
  {
    assert e * a == n * (a / m) + e * (a % m) by {
      assert a == m * (a / m) + a % m;
      Distribute(e, m * (a / m), a % m);
      Assoc(e, m, a / m);
    }
    PlaceFits(n, e, m, a);
    ModUnique(e * a, n, a / m, e * (a % m));
  }

  lemma OtherPlace(n: nat, e: nat, m: nat, i: nat, j: nat)
    requires m > 0 && n == e * m && i < j < i + m
    ensures Place(e, m, i) + e <= Place(e, m, j) || Place(e, m, j) + e <= Place(e, m, i)
  {
    var r, s := i % m, j % m;
    DifferentMod(i, j, m);
    if r < s {
      MulLe(r + 1, s, e);
    } else {
      MulLe(s + 1, r, e);
    }
  }

  lemma DifferentMod(i: nat, j: nat, m: nat)
    requires i < j < i + m
    ensures i % m != j % m
  {
    var q := j / m - i / m;
    assert j - i == m * q + (j % m - i % m) by {
      assert j == m * (j / m) + j % m && i == m * (i / m) + i % m;
    }
    assert q >= 1 ==> m * q >= m;
    assert q <= 0 ==> m * q <= 0;
  }

  lemma SlotAfterWrite(buffer: seq<Byte>, e: nat, m: nat, i: nat, j: nat, data: seq<Byte>)
    requires m > 0 && |buffer| == e * m && |data| == e && i < j < i + m && Place(e, m, j) + e <= |buffer|
    ensures Slot(Overwrite(buffer, Place(e, m, j), data), e, m, i) == Slot(buffer, e, m, i)
  {
    OtherPlace(|buffer|, e, m, i, j);
    PlaceFits(|buffer|, e, m, i);
  }

  lemma SlotWritten(buffer: seq<Byte>, e: nat, m: nat, j: nat, data: seq<Byte>)
    requires m > 0 && |buffer| == e * m && |data| == e && Place(e, m, j) + e <= |buffer|
    ensures Slot(Overwrite(buffer, Place(e, m, j), data), e, m, j) == data
  {
  }

  predicate ThreadOk(t: Thread, e: nat) {
    t.Idle? || (|t.data| == e && (t.len == 0 || (t.len == e && !t.Sampling?)))
  }

  predicate Fifo(q: Queue, n: nat, e: nat, m: nat)
    requires m > 0 && n == e * m
  {
    && |q.buffer| == n && |q.popped| <= |q.pushed| <= |q.popped| + m
    && q.nIn == Counter(e, |q.pushed|) && q.nOut == Counter(e, |q.popped|)
    && q.popped == q.pushed[..|q.popped|]
    && (forall i :: |q.popped| <= i < |q.pushed| ==> Slot(q.buffer, e, m, i) == q.pushed[i])
    && ThreadOk(q.producer, e) && ThreadOk(q.consumer, e)
    && (!q.producer.Idle? && q.producer.len == e ==> |q.pushed| < |q.popped| + m)
    && (q.producer.Moving? && q.producer.len == e ==> Slot(q.buffer, e, m, |q.pushed|) == q.producer.data)
    && (!q.consumer.Idle? && q.consumer.len == e ==> |q.popped| < |q.pushed|)
    && (q.consumer.Moving? && q.consumer.len == e ==> q.consumer.data == q.pushed[|q.popped|])
  }

  /** Either no room or no element at all, or enough for a whole one. */
  lemma WholeElements(e: nat, c: nat)
    requires e > 0
    ensures Min(e, e * c) == if c == 0 then 0 else e
  {
    if c > 0 {
      MulLe(1, c, e);
    }
  }

  lemma ProducerSamples(q: Queue, n: nat, e: nat, m: nat)
    requires m > 0 && n == e * m && Tiles(n, e) && Fifo(q, n, e, m) && q.producer.Sampling?
    ensures Min(e - q.producer.len, (n - q.nIn + q.nOut) % TWO32) == if |q.pushed| < |q.popped| + m then e else 0
  {
    Counters(n, e, m, |q.pushed|, |q.popped|);
    WholeElements(e, m - (|q.pushed| - |q.popped|));
  }

  lemma ConsumerSamples(q: Queue, n: nat, e: nat, m: nat)
    requires m > 0 && n == e * m && Tiles(n, e) && Fifo(q, n, e, m) && q.consumer.Sampling?
    ensures Min(e - q.consumer.len, Used(q.nIn, q.nOut)) == if |q.popped| < |q.pushed| then e else 0
  {
    Counters(n, e, m, |q.pushed|, |q.popped|);
    WholeElements(e, |q.pushed| - |q.popped|);
  }

  lemma CounterMoves(e: nat, a: nat)
    ensures (Counter(e, a) + e) % TWO32 == Counter(e, a + 1)
  {
    assert e * (a + 1) == e * a + e by { Distribute(e, a, 1); }
    AddMod(e * a, e);
  }

  lemma AddMod(x: nat, y: nat)
    ensures (x % TWO32 + y) % TWO32 == (x + y) % TWO32
  {
  }

  lemma ProducerSampleKeeps(q: Queue, n: nat, e: nat, m: nat, beyond: seq<Byte>)
    requires m > 0 && n == e * m && Tiles(n, e) && Fifo(q, n, e, m) && Sane(q, n, e)
    requires q.producer.Sampling? && |beyond| == n
    ensures Fifo(Produced(q, n, e, beyond), n, e, m)
  {
    hide And, IsPower2, Tiles, Used, Slot, Counter;
    ProducerSamples(q, n, e, m);
  }

  lemma ProducerMoveKeeps(q: Queue, n: nat, e: nat, m: nat, beyond: seq<Byte>)
    requires m > 0 && n == e * m && Tiles(n, e) && Fifo(q, n, e, m) && Sane(q, n, e)
    requires q.producer.Moving? && |beyond| == n
    ensures Fifo(Produced(q, n, e, beyond), n, e, m)
  {
    hide And, IsPower2, Tiles, Used, Slot, Counter;
    CounterMoves(e, |q.pushed|);
  }

  /** The producer writes into no place that holds an unread element. */
  lemma ProducerKeeps(q: Queue, n: nat, e: nat, m: nat, beyond: seq<Byte>)
    requires m > 0 && n == e * m && Tiles(n, e) && Fifo(q, n, e, m) && Sane(q, n, e)
    requires q.producer != Idle && |beyond| == n
    ensures Fifo(Produced(q, n, e, beyond), n, e, m)
  {
    hide Fifo, Produced;
    match q.producer
    case Sampling(_, _) => ProducerSampleKeeps(q, n, e, m, beyond);
    case Copying(_, _) => ProducerCopies(q, n, e, m, beyond);
    case Moving(_, _) => ProducerMoveKeeps(q, n, e, m, beyond);
  }

  lemma ProducerCopies(q: Queue, n: nat, e: nat, m: nat, beyond: seq<Byte>)
    requires m > 0 && n == e * m && Tiles(n, e) && Fifo(q, n, e, m) && Sane(q, n, e)
    requires q.producer.Copying? && |beyond| == n
    ensures Fifo(Produced(q, n, e, beyond), n, e, m)
  {
    var a, r := |q.pushed|, Produced(q, n, e, beyond);
    MaskedCounter(n, e, m, a);
    PlaceFits(n, e, m, a);
    hide And, IsPower2, Counter;
    if q.producer.len == 0 {
      assert r.buffer == q.buffer;
    } else {
      assert r.buffer == Overwrite(q.buffer, Place(e, m, a), q.producer.data);
      SlotWritten(q.buffer, e, m, a, q.producer.data);
      forall i | |q.popped| <= i < a
        ensures Slot(r.buffer, e, m, i) == q.pushed[i]
      {
        SlotAfterWrite(q.buffer, e, m, i, a, q.producer.data);
      }
    }
  }

  lemma ConsumerSampleKeeps(q: Queue, n: nat, e: nat, m: nat)
    requires m > 0 && n == e * m && Tiles(n, e) && Fifo(q, n, e, m) && Sane(q, n, e)
    requires q.consumer.Sampling?
    ensures Fifo(Consumed(q, n, e), n, e, m)
  {
    hide And, IsPower2, Tiles, Used, Slot, Counter;
    ConsumerSamples(q, n, e, m);
  }

  lemma ConsumerMoveKeeps(q: Queue, n: nat, e: nat, m: nat)
    requires m > 0 && n == e * m && Tiles(n, e) && Fifo(q, n, e, m) && Sane(q, n, e)
    requires q.consumer.Moving?
    ensures Fifo(Consumed(q, n, e), n, e, m)
  {
    hide And, IsPower2, Tiles, Used, Slot, Counter;
    CounterMoves(e, |q.popped|);
    assert q.consumer.len == e ==> q.popped + [q.consumer.data] == q.pushed[..|q.popped| + 1];
  }

  lemma ConsumerKeeps(q: Queue, n: nat, e: nat, m: nat)
    requires m > 0 && n == e * m && Tiles(n, e) && Fifo(q, n, e, m) && Sane(q, n, e)
    requires q.consumer != Idle
    ensures Fifo(Consumed(q, n, e), n, e, m)
  {
    hide Fifo, Consumed;
    match q.consumer
    case Sampling(_, _) => ConsumerSampleKeeps(q, n, e, m);
    case Copying(_, _) => ConsumerCopies(q, n, e, m);
    case Moving(_, _) => ConsumerMoveKeeps(q, n, e, m);
  }

  lemma ConsumerCopies(q: Queue, n: nat, e: nat, m: nat)
    requires m > 0 && n == e * m && Tiles(n, e) && Fifo(q, n, e, m) && Sane(q, n, e) && q.consumer.Copying?
    ensures Fifo(Consumed(q, n, e), n, e, m)
  {
    var b, r := |q.popped|, Consumed(q, n, e);
    MaskedCounter(n, e, m, b);
    PlaceFits(n, e, m, b);
    hide And, IsPower2, Counter;
    if q.consumer.len == e {
      assert r.consumer.data == Slot(q.buffer, e, m, b);
    }
  }

  lemma ApplyKeeps(q: Queue, n: nat, e: nat, m: nat, ev: Event)
    requires m > 0 && n == e * m && Tiles(n, e) && Fifo(q, n, e, m) && Sane(q, n, e) && Enabled(q, n, e, ev)
    ensures Fifo(Apply(q, n, e, ev), n, e, m)
  {
    hide Produced, Consumed;
    match ev
    case StartPush(element) =>
    case Produce(beyond) => ProducerKeeps(q, n, e, m, beyond);
    case StartPop(before) =>
    case Consume => ConsumerKeeps(q, n, e, m);
  }

  // -------------------------------------------------------------------- runs

  /** These steps, each enabled when it is taken, lead from q to r. */
  predicate Leads(q: Queue, n: nat, e: nat, run: seq<Event>, r: Queue)
    requires Sane(q, n, e)
    decreases |run|
  {
    if run == [] then q == r
    else Enabled(q, n, e, run[0]) && Leads(Apply(q, n, e, run[0]), n, e, run[1..], r)
  }

  lemma LeadsBefore(q: Queue, n: nat, e: nat, ev: Event, run: seq<Event>, r: Queue)
    requires Sane(q, n, e) && Enabled(q, n, e, ev) && Leads(Apply(q, n, e, ev), n, e, run, r)
    ensures Leads(q, n, e, [ev] + run, r)
  {
    assert ([ev] + run)[1..] == run;
  }

  lemma {:induction false} LeadsOn(q: Queue, n: nat, e: nat, run: seq<Event>, r: Queue, run': seq<Event>, r': Queue)
    requires Sane(q, n, e) && Leads(q, n, e, run, r) && Sane(r, n, e) && Leads(r, n, e, run', r')
    ensures Leads(q, n, e, run + run', r')
    decreases |run|
  {
    if run == [] {
      assert run + run' == run';
    } else {
      LeadsOn(Apply(q, n, e, run[0]), n, e, run[1..], r, run', r');
      assert run + run' == [run[0]] + (run[1..] + run');
      LeadsBefore(q, n, e, run[0], run[1..] + run', r');
    }
  }

  lemma {:induction false} RunKeeps(q: Queue, n: nat, e: nat, m: nat, run: seq<Event>, r: Queue)
    requires m > 0 && n == e * m && Tiles(n, e) && Fifo(q, n, e, m) && Sane(q, n, e) && Leads(q, n, e, run, r)
    ensures Fifo(r, n, e, m) && Sane(r, n, e)
    decreases |run|
  {
    if run != [] {
      ApplyKeeps(q, n, e, m, run[0]);
      RunKeeps(Apply(q, n, e, run[0]), n, e, m, run[1..], r);
    }
  }

  lemma Quotient(n: nat, e: nat) returns (m: nat)
    requires 0 < e <= n && n % e == 0
    ensures m == n / e > 0 && n == e * m
  {
    m := n / e;
  }

  lemma EmptyIsFifo(q: Queue, n: nat, e: nat, m: nat)
    requires m > 0 && n == e * m && 0 < n < TWO32 && Empty(q, n)
    ensures Fifo(q, n, e, m)
  {
    assert e * 0 == 0;
  }

  /** If elements tile the buffer, then under every interleaving, and however often the counters
      wrap, the popped elements are a prefix of the pushed ones and the unread ones lie intact
      in the buffer. */
  lemma PoppedIsPrefix(q: Queue, n: nat, e: nat, run: seq<Event>, r: Queue)
    requires Tiles(n, e) && Empty(q, n) && Leads(q, n, e, run, r)
    ensures r.popped <= r.pushed && Sane(r, n, e)
    ensures n / e > 0 && n == e * (n / e) && Fifo(r, n, e, n / e)
  {
    var m := Quotient(n, e);
    hide Tiles;
    EmptyIsFifo(q, n, e, m);
    RunKeeps(q, n, e, m, run, r);
  }

  /** The threads never copy in the same place at the same time, so it does not matter that a
      copy is one step here. */
  lemma CopiesAreDisjoint(q: Queue, n: nat, e: nat, m: nat)
    requires m > 0 && n == e * m && Tiles(n, e) && Fifo(q, n, e, m)
    requires q.producer.Copying? && q.consumer.Copying? && q.producer.len == q.consumer.len == e
    ensures var x, y := And(q.nIn, n - 1), And(q.nOut, n - 1); x + e <= y || y + e <= x
  {
    MaskedCounter(n, e, m, |q.pushed|);
    MaskedCounter(n, e, m, |q.popped|);
    OtherPlace(n, e, m, |q.popped|, |q.pushed|);
  }

  /** Size() counts the unread elements. */
  lemma SizeCountsUnread(q: Queue, n: nat, e: nat, m: nat)
    requires m > 0 && n == e * m && Tiles(n, e) && Fifo(q, n, e, m)
    ensures Used(q.nIn, q.nOut) / e == |q.pushed| - |q.popped|
  {
    hide And, IsPower2;
    Counters(n, e, m, |q.pushed|, |q.popped|);
    ModUnique(e * (|q.pushed| - |q.popped|), e, |q.pushed| - |q.popped|, 0);
  }

  // ---------------------------------------------------------------- progress

  /** How far a thread is from moving its counter by a whole element. A turn that found no room,
      or no element, goes round once more. */
  function Stage(t: Thread): nat {
    match t
    case Idle => 0
    case Moving(_, len) => if len > 0 then 1 else 4
    case Copying(_, len) => if len > 0 then 2 else 5
    case Sampling(_, _) => 3
  }

  predicate OnlyProduces(run: seq<Event>) {
    forall i :: 0 <= i < |run| ==> run[i].Produce?
  }

  predicate OnlyConsumes(run: seq<Event>) {
    forall i :: 0 <= i < |run| ==> run[i] == Consume
  }

  lemma PushAdvances(q: Queue, n: nat, e: nat, m: nat, beyond: seq<Byte>)
    requires m > 0 && n == e * m && Tiles(n, e) && Fifo(q, n, e, m) && Sane(q, n, e)
    requires q.producer != Idle && |beyond| == n && |q.pushed| < |q.popped| + m
    ensures var r := Produced(q, n, e, beyond);
            && r.popped == q.popped && r.consumer == q.consumer
            && (if r.producer == Idle then r.pushed == q.pushed + [q.producer.data]
                else r.pushed == q.pushed && r.producer.data == q.producer.data && Stage(r.producer) < Stage(q.producer))
  {
    hide And, IsPower2, Tiles, Used, Slot, Counter;
    if q.producer.Sampling? {
      ProducerSamples(q, n, e, m);
    }
  }

  lemma PopAdvances(q: Queue, n: nat, e: nat, m: nat)
    requires m > 0 && n == e * m && Tiles(n, e) && Fifo(q, n, e, m) && Sane(q, n, e)
    requires q.consumer != Idle && |q.popped| < |q.pushed|
    ensures var r := Consumed(q, n, e);
            && r.pushed == q.pushed && r.producer == q.producer
            && (if r.consumer == Idle then |r.popped| == |q.popped| + 1
                else r.popped == q.popped && Stage(r.consumer) < Stage(q.consumer))
  {
    hide And, IsPower2, Tiles, Used, Slot, Counter;
    if q.consumer.Sampling? {
      ConsumerSamples(q, n, e, m);
    }
  }

  /** A pending push returns by the producer's own steps once there is room. */
  lemma {:induction false} PushCompletes(q: Queue, n: nat, e: nat, m: nat, beyond: seq<Byte>) returns (run: seq<Event>, r: Queue)
    requires m > 0 && n == e * m && Tiles(n, e) && Fifo(q, n, e, m) && Sane(q, n, e)
    requires q.producer != Idle && |beyond| == n && |q.pushed| < |q.popped| + m
    ensures OnlyProduces(run) && Leads(q, n, e, run, r)
    ensures r.producer == Idle && r.pushed == q.pushed + [q.producer.data]
    ensures r.consumer == q.consumer && r.popped == q.popped
    decreases Stage(q.producer)
  {
    hide Fifo, Tiles, Produced;
    var q' := Produced(q, n, e, beyond);
    PushAdvances(q, n, e, m, beyond);
    ProducerKeeps(q, n, e, m, beyond);
    run, r := [], q';
    if q'.producer != Idle {
      run, r := PushCompletes(q', n, e, m, beyond);
    }
    LeadsBefore(q, n, e, Produce(beyond), run, r);
    run := [Produce(beyond)] + run;
  }

  /** A pending pop returns by the consumer's own steps once an element is unread. */
  lemma {:induction false} PopCompletes(q: Queue, n: nat, e: nat, m: nat) returns (run: seq<Event>, r: Queue)
    requires m > 0 && n == e * m && Tiles(n, e) && Fifo(q, n, e, m) && Sane(q, n, e)
    requires q.consumer != Idle && |q.popped| < |q.pushed|
    ensures OnlyConsumes(run) && Leads(q, n, e, run, r)
    ensures r.consumer == Idle && |r.popped| == |q.popped| + 1
    ensures r.producer == q.producer && r.pushed == q.pushed
    decreases Stage(q.consumer)
  {
    hide Fifo, Tiles, Consumed;
    var q' := Consumed(q, n, e);
    PopAdvances(q, n, e, m);
    ConsumerKeeps(q, n, e, m);
    run, r := [], q';
    if q'.consumer != Idle {
      run, r := PopCompletes(q', n, e, m);
    }
    LeadsBefore(q, n, e, Consume, run, r);
    run := [Consume] + run;
  }

  lemma FullStays(q: Queue, n: nat, e: nat, m: nat, beyond: seq<Byte>)
    requires m > 0 && n == e * m && Tiles(n, e) && Fifo(q, n, e, m) && Sane(q, n, e)
    requires q.producer != Idle && |beyond| == n && |q.pushed| == |q.popped| + m
    ensures var r := Produced(q, n, e, beyond); r.producer != Idle && r.pushed == q.pushed && r.popped == q.popped
  {
    hide And, IsPower2, Tiles, Used, Slot, Counter;
    if q.producer.Sampling? {
      ProducerSamples(q, n, e, m);
    }
  }

  lemma EmptyStays(q: Queue, n: nat, e: nat, m: nat)
    requires m > 0 && n == e * m && Tiles(n, e) && Fifo(q, n, e, m) && Sane(q, n, e)
    requires q.consumer != Idle && |q.pushed| == |q.popped|
    ensures var r := Consumed(q, n, e); r.consumer != Idle && r.pushed == q.pushed && r.popped == q.popped
  {
    hide And, IsPower2, Tiles, Used, Slot, Counter;
    if q.consumer.Sampling? {
      ConsumerSamples(q, n, e, m);
    }
  }

  lemma {:induction false} FullBlocks(q: Queue, n: nat, e: nat, m: nat, run: seq<Event>, r: Queue)
    requires m > 0 && n == e * m && Tiles(n, e) && Fifo(q, n, e, m) && Sane(q, n, e)
    requires q.producer != Idle && |q.pushed| == |q.popped| + m && OnlyProduces(run) && Leads(q, n, e, run, r)
    ensures r.pushed == q.pushed
    decreases |run|
  {
    hide Fifo, Tiles, Produced;
    if run != [] {
      FullStays(q, n, e, m, run[0].beyond);
      ProducerKeeps(q, n, e, m, run[0].beyond);
      FullBlocks(Apply(q, n, e, run[0]), n, e, m, run[1..], r);
    }
  }

  lemma {:induction false} EmptyBlocks(q: Queue, n: nat, e: nat, m: nat, run: seq<Event>, r: Queue)
    requires m > 0 && n == e * m && Tiles(n, e) && Fifo(q, n, e, m) && Sane(q, n, e)
    requires q.consumer != Idle && |q.pushed| == |q.popped| && OnlyConsumes(run) && Leads(q, n, e, run, r)
    ensures r.popped == q.popped
    decreases |run|
  {
    hide Fifo, Tiles, Consumed;
    if run != [] {
      EmptyStays(q, n, e, m);
      ConsumerKeeps(q, n, e, m);
      EmptyBlocks(Apply(q, n, e, run[0]), n, e, m, run[1..], r);
    }
  }

  /** From every reachable state, a PushTail that has begun returns by the producer's own steps,
      having put its element in, exactly if there is room for the element. */
  lemma PushReturns(s: Queue, n: nat, e: nat, past: seq<Event>, q: Queue)
    requires Tiles(n, e) && Empty(s, n) && Leads(s, n, e, past, q) && q.producer != Idle
    ensures Sane(q, n, e)
    ensures (exists run, r :: OnlyProduces(run) && Leads(q, n, e, run, r) && r.pushed == q.pushed + [q.producer.data])
            <==> |q.pushed| < |q.popped| + n / e
  {
    PoppedIsPrefix(s, n, e, past, q);
    var m := n / e;
    hide Tiles, Leads, Sane;
    assert Fifo(q, n, e, m) && |q.pushed| <= |q.popped| + m;
    if |q.pushed| < |q.popped| + m {
      var run, r := PushCompletes(q, n, e, m, seq(n, _ => 0));
    } else {
      forall run, r | OnlyProduces(run) && Leads(q, n, e, run, r)
        ensures r.pushed == q.pushed
      {
        FullBlocks(q, n, e, m, run, r);
      }
    }
  }

  /** From every reachable state, a PopHead that has begun returns by the consumer's own steps,
      with the oldest unread element, exactly if there is one. */
  lemma PopReturns(s: Queue, n: nat, e: nat, past: seq<Event>, q: Queue)
    requires Tiles(n, e) && Empty(s, n) && Leads(s, n, e, past, q) && q.consumer != Idle
    ensures Sane(q, n, e)
    ensures (exists run, r ::
               OnlyConsumes(run) && Leads(q, n, e, run, r) && |r.popped| == |q.popped| + 1 && r.popped <= q.pushed)
            <==> |q.popped| < |q.pushed|
  {
    PoppedIsPrefix(s, n, e, past, q);
    var m := n / e;
    hide Tiles, Leads, Sane;
    if |q.popped| < |q.pushed| {
      var run, r := PopCompletes(q, n, e, m);
      RunKeeps(q, n, e, m, run, r);
    } else {
      forall run, r | OnlyConsumes(run) && Leads(q, n, e, run, r)
        ensures r.popped == q.popped
      {
        EmptyBlocks(q, n, e, m, run, r);
      }
    }
  }

  /** Two calls under way never wait for each other: from every reachable state their own steps
      end both, even if the ring is full or empty. */
  lemma BothReturn(s: Queue, n: nat, e: nat, past: seq<Event>, q: Queue) returns (run: seq<Event>, r: Queue)
    requires Tiles(n, e) && Empty(s, n) && Leads(s, n, e, past, q) && q.producer != Idle && q.consumer != Idle
    ensures Sane(q, n, e) && (forall i :: 0 <= i < |run| ==> run[i].Produce? || run[i] == Consume) && Leads(q, n, e, run, r)
    ensures r.producer == r.consumer == Idle
    ensures r.pushed == q.pushed + [q.producer.data] && |r.popped| == |q.popped| + 1
  {
    PoppedIsPrefix(s, n, e, past, q);
    var m := n / e;
    hide Tiles, Leads, Sane;
    var run', q';
    if |q.popped| < |q.pushed| {
      run', q' := PopCompletes(q, n, e, m);
      RunKeeps(q, n, e, m, run', q');
      run, r := PushCompletes(q', n, e, m, seq(n, _ => 0));
    } else {
      run', q' := PushCompletes(q, n, e, m, seq(n, _ => 0));
      RunKeeps(q, n, e, m, run', q');
      run, r := PopCompletes(q', n, e, m);
    }
    LeadsOn(q, n, e, run', q', run, r);
    run := run' + run;
  }

  // ----------------------------------------------------- sizes that do not tile

  /** PushTail and PopHead of an element larger than the buffer never return. */
  predicate Stuck(q: Queue, n: nat, e: nat) {
    && q.pushed == q.popped == []
    && (q.producer.Idle? || q.producer.len < e) && (q.consumer.Idle? || q.consumer.len < e)
  }

  lemma {:induction false} TooLargeNeverReturns(q: Queue, n: nat, e: nat, run: seq<Event>, r: Queue)
    requires Sane(q, n, e) && n < e && Stuck(q, n, e) && Leads(q, n, e, run, r)
    ensures Stuck(r, n, e)
    decreases |run|
  {
    if run != [] {
      var q' := Apply(q, n, e, run[0]);
      assert Stuck(q', n, e);
      TooLargeNeverReturns(q', n, e, run[1..], r);
    }
  }

  /** Both threads at rest, the ring empty, both counters at c. */
  predicate Rest(q: Queue, n: nat, c: nat) {
    |q.buffer| == n && q.nIn == q.nOut == c && q.producer == q.consumer == Idle && q.pushed == q.popped
  }

  /** Push an element to the end and then pop it to the end. */
  function Round(x: seq<Byte>, beyond: seq<Byte>, before: seq<Byte>): seq<Event> {
    [StartPush(x), Produce(beyond), Produce(beyond), Produce(beyond), StartPop(before), Consume, Consume, Consume]
  }

  /** What the threads compute from equal counters. */
  lemma Sums(n: nat, e: nat, c: nat)
    requires IsPower2(n) && n <= TWO32 / 2 && 0 < e < n && c < n
    ensures And(c, n - 1) == c && (n - c + c) % TWO32 == n && (c + e) % TWO32 == c + e && Used(c + e, c) == e
  {
    hide And, IsPower2;
    Masked(c, n);
    SmallMod(c, n);
    SmallMod(n, TWO32);
    SmallMod(c + e, TWO32);
    SmallMod(e, TWO32);
  }

  lemma SmallMod(a: nat, n: nat)
    requires a < n
    ensures a % n == a
  {
  }

  lemma PushAll(q: Queue, n: nat, e: nat, c: nat, x: seq<Byte>, beyond: seq<Byte>) returns (r: Queue)
    requires IsPower2(n) && n <= TWO32 / 2 && 0 < e < n && c < n && |x| == e && |beyond| == n
    requires Rest(q, n, c) && Sane(q, n, e)
    ensures Sane(r, n, e) && Leads(q, n, e, [StartPush(x), Produce(beyond), Produce(beyond), Produce(beyond)], r)
    ensures r == q.(buffer := r.buffer, nIn := c + e, pushed := q.pushed + [x])
    ensures |r.buffer| == n && forall j :: 0 <= j < Min(e, n - c) ==> r.buffer[c + j] == x[j]
  {
    hide And, IsPower2, Used, Leads;
    Sums(n, e, c);
    var q1 := Apply(q, n, e, StartPush(x));
    var q2 := Apply(q1, n, e, Produce(beyond));
    assert q2 == q.(producer := Copying(x, e));
    var q3 := Apply(q2, n, e, Produce(beyond));
    assert q3 == q.(producer := Moving(x, e), buffer := q3.buffer);
    r := Apply(q3, n, e, Produce(beyond));
    FourSteps(q, n, e, StartPush(x), Produce(beyond), Produce(beyond), Produce(beyond), r);
  }

  lemma FourSteps(q: Queue, n: nat, e: nat, ev: Event, ev1: Event, ev2: Event, ev3: Event, r: Queue)
    requires Sane(q, n, e) && Enabled(q, n, e, ev)
    requires var q1 := Apply(q, n, e, ev);
             Enabled(q1, n, e, ev1) &&
             var q2 := Apply(q1, n, e, ev1);
             Enabled(q2, n, e, ev2) &&
             var q3 := Apply(q2, n, e, ev2);
             Enabled(q3, n, e, ev3) && r == Apply(q3, n, e, ev3)
    ensures Leads(q, n, e, [ev, ev1, ev2, ev3], r)
  {
    hide Enabled, Apply, Sane;
    var q1 := Apply(q, n, e, ev);
    var q2 := Apply(q1, n, e, ev1);
    var q3 := Apply(q2, n, e, ev2);
    assert Leads(r, n, e, [], r);
    LeadsBefore(q3, n, e, ev3, [], r);
    LeadsBefore(q2, n, e, ev2, [ev3], r);
    LeadsBefore(q1, n, e, ev1, [ev2, ev3], r);
    LeadsBefore(q, n, e, ev, [ev1, ev2, ev3], r);
  }

  lemma PopAll(q: Queue, n: nat, e: nat, c: nat, before: seq<Byte>) returns (r: Queue)
    requires IsPower2(n) && n <= TWO32 / 2 && 0 < e < n && c < n && |before| == e
    requires |q.buffer| == n && q.nIn == c + e && q.nOut == c && q.producer == q.consumer == Idle && Sane(q, n, e)
    ensures Sane(r, n, e) && Leads(q, n, e, [StartPop(before), Consume, Consume, Consume], r)
    ensures var l := Min(e, n - c);
            r == q.(nOut := c + e, popped := q.popped + [q.buffer[c..c + l] + before[l..]])
  {
    hide And, IsPower2, Used, Leads;
    Sums(n, e, c);
    var l := Min(e, n - c);
    var q1 := Apply(q, n, e, StartPop(before));
    var q2 := Apply(q1, n, e, Consume);
    assert q2 == q.(consumer := Copying(before, e));
    var q3 := Apply(q2, n, e, Consume);
    assert q3 == q.(consumer := Moving(q.buffer[c..c + l] + before[l..], e));
    r := Apply(q3, n, e, Consume);
    FourSteps(q, n, e, StartPop(before), Consume, Consume, Consume, r);
  }

  /** One element through an otherwise empty ring comes out with only its first l bytes. */
  lemma RoundResult(q: Queue, n: nat, e: nat, c: nat, x: seq<Byte>, beyond: seq<Byte>, before: seq<Byte>) returns (r: Queue)
    requires IsPower2(n) && n <= TWO32 / 2 && 0 < e < n && c < n && |x| == |before| == e && |beyond| == n
    requires Rest(q, n, c) && Sane(q, n, e)
    ensures Sane(r, n, e) && Leads(q, n, e, Round(x, beyond, before), r)
    ensures r.pushed == q.pushed + [x] && r.nIn == r.nOut == c + e && r.producer == r.consumer == Idle
    ensures var l := Min(e, n - c); r.popped == q.popped + [x[..l] + before[l..]]
  {
    var p := PushAll(q, n, e, c, x, beyond);
    r := PopAll(p, n, e, c, before);
    var l := Min(e, n - c);
    assert p.buffer[c..c + l] == x[..l];
    LeadsOn(q, n, e, [StartPush(x), Produce(beyond), Produce(beyond), Produce(beyond)], p,
            [StartPop(before), Consume, Consume, Consume], r);
    assert [StartPush(x), Produce(beyond), Produce(beyond), Produce(beyond)] + [StartPop(before), Consume, Consume, Consume]
        == Round(x, beyond, before);
  }

  lemma {:induction false} Straight(q: Queue, n: nat, e: nat, i: nat) returns (run: seq<Event>, r: Queue)
    requires IsPower2(n) && n <= TWO32 / 2 && 0 < e < n && e * i < n && Empty(q, n) && Sane(q, n, e)
    ensures Sane(r, n, e) && Leads(q, n, e, run, r) && Rest(r, n, e * i)
    decreases i
  {
    if i == 0 {
      assert e * 0 == 0;
      run, r := [], q;
    } else {
      assert e * i == e * (i - 1) + e by { Distribute(e, i - 1, 1); }
      var run', q' := Straight(q, n, e, i - 1);
      var x, y := seq(e, _ => 0), seq(n, _ => 0);
      r := RoundResult(q', n, e, e * (i - 1), x, y, x);
      assert x[..e] + x[e..] == x;
      LeadsOn(q, n, e, run', q', Round(x, y, x), r);
      run := run' + Round(x, y, x);
    }
  }

  lemma LastPlace(n: nat, e: nat) returns (k: nat)
    requires 0 < e < n && n % e != 0
    ensures e * k < n < e * k + e
  {
    k := n / e;
  }

  /** If elements smaller than the buffer do not tile it, the element that straddles its end
      comes out damaged: the popped elements are not a prefix of the pushed ones. */
  lemma StraddlingCorrupts(q: Queue, n: nat, e: nat) returns (run: seq<Event>, r: Queue)
    requires IsPower2(n) && n <= TWO32 / 2 && 0 < e < n && n % e != 0 && Empty(q, n) && Sane(q, n, e)
    ensures Leads(q, n, e, run, r) && !(r.popped <= r.pushed)
  {
    hide And, IsPower2, Used;
    var k := LastPlace(n, e);
    var run', q' := Straight(q, n, e, k);
    var x, y, z := seq(e, _ => 1), seq(n, _ => 0), seq(e, _ => 0);
    r := RoundResult(q', n, e, e * k, x, y, z);
    LeadsOn(q, n, e, run', q', Round(x, y, z), r);
    run := run' + Round(x, y, z);
    var l := n - e * k;
    assert (x[..l] + z[l..])[l] == 0;
    assert r.popped[|q'.pushed|] != r.pushed[|q'.pushed|];
  }

  /** Over a buffer of a power of two of bytes the queue is first-in first-out exactly when
      elements tile it or do not fit at all. */
  lemma FifoExactly(q: Queue, n: nat, e: nat)
    requires IsPower2(n) && n <= TWO32 / 2 && 0 < e && Empty(q, n) && Sane(q, n, e)
    ensures (forall run, r :: Leads(q, n, e, run, r) ==> r.popped <= r.pushed) <==> (n % e == 0 || n < e)
  {
    hide And, IsPower2, Used, Leads;
    if n < e {
      forall run, r | Leads(q, n, e, run, r)
        ensures r.popped <= r.pushed
      {
        TooLargeNeverReturns(q, n, e, run, r);
      }
    } else if n % e == 0 {
      forall run, r | Leads(q, n, e, run, r)
        ensures r.popped <= r.pushed
      {
        PoppedIsPrefix(q, n, e, run, r);
      }
    } else {
      SameSize(n, e);
      var run, r := StraddlingCorrupts(q, n, e);
    }
  }

  /** The queue that the constructor makes is first-in first-out exactly when the size of an
      element is a power of two. */
  lemma FifoBySize(nSize: nat, e: nat, n: nat, q: Queue)
    requires 0 < nSize && 0 < e && nSize * e <= TWO32 / 2 && Sized(n, nSize, e) && Empty(q, n)
    ensures IsPower2(n) && Sane(q, n, e)
    ensures (forall run, r :: Leads(q, n, e, run, r) ==> r.popped <= r.pushed) <==> IsPower2(e)
  {
    PowersTile(nSize, e, n);
    assert Sane(q, n, e);
    hide And, IsPower2, Sane, Leads;
    FifoExactly(q, n, e);
  }

  lemma SameSize(n: nat, e: nat)
    requires 0 < e <= n && n % e != 0
    ensures e < n
  {
  }
}
