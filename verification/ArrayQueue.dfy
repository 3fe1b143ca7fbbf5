/** The queue in a growing circular array. */
module ArrayQueue {
  import opened PowersOfTwo
  import opened Collections

  /** Where element i of a ring lies. */
  function Slot(head: nat, i: nat, size: nat): nat {
    if head + i >= size then head + i - size else head + i
  }

  lemma SlotIs(head: nat, i: nat, size: nat)
    ensures Slot(head, i, size) == if head + i >= size then head + i - size else head + i
  {
  }

  lemma SlotNext(head: nat, i: nat, size: nat)
    requires head < size && i < size
    ensures Slot(head, i, size) < size
    ensures Slot(head, i + 1, size) == if Slot(head, i, size) + 1 == size then 0 else Slot(head, i, size) + 1
  {
  }

  lemma SlotMod(head: nat, i: nat, size: nat)
    requires head < size && i < size
    ensures (head + i) % size == Slot(head, i, size)
  {
    if head + i < size {
      ModUnique(head + i, size, 0, head + i);
    } else {
      ModUnique(head + i, size, 1, head + i - size);
    }
  }

  /** The n elements of a ring, from its head on. */
  function Ring<T>(data: seq<T>, head: nat, n: nat): (s: seq<T>)
    requires n <= |data| && (n > 0 ==> head < |data|)
    ensures |s| == n && forall i :: 0 <= i < n ==> s[i] == data[Slot(head, i, |data|)]
  {
    seq(n, i requires 0 <= i < n => data[Slot(head, i, |data|)])
  }

  function InsertedAt<T>(s: seq<T>, x: T, index: nat): seq<T>
    requires index <= |s|
  {
    s[..index] + [x] + s[index..]
  }

  /** The element is at the index, and the others are where they were or one place on. */
  lemma InsertedAtIndex<T>(s: seq<T>, x: T, index: nat)
    requires index <= |s|
    ensures var r := InsertedAt(s, x, index);
            && |r| == |s| + 1 && r[index] == x
            && forall i :: 0 <= i < |s| ==> r[if i < index then i else i + 1] == s[i]
  {
  }

  /** The elements from a position on have moved back by one. */
  ghost predicate MovedBack<T>(s: seq<T>, c: seq<T>, index: int) {
    && |s| == |c|
    && (forall i :: 0 <= i < |c| && i <= index ==> s[i] == c[i])
    && (forall i :: 0 < i < |c| && index < i ==> s[i] == c[i - 1])
  }

  /** The elements behind a position, up to another, have moved up by one. */
  ghost predicate MovedUp<T>(s: seq<T>, c: seq<T>, position: nat, end: nat) {
    && |s| == |c|
    && (forall k :: 0 <= k < |c| && !(position <= k < end) ==> s[k] == c[k])
    && (forall k :: position <= k < end && k + 1 < |c| ==> s[k] == c[k + 1])
  }

  lemma BackOne<T>(s: seq<T>, c: seq<T>, i: nat)
    requires MovedBack(s, c, i) && 0 < i < |c|
    ensures MovedBack(s[i := s[i - 1]], c, i - 1)
  {
  }

  lemma UpOne<T>(s: seq<T>, c: seq<T>, position: nat, i: nat)
    requires MovedUp(s, c, position, i) && position <= i && i + 1 < |c|
    ensures MovedUp(s[i := s[i + 1]], c, position, i + 1)
  {
  }

  lemma GapFilled<T>(s: seq<T>, before: seq<T>, x: T, index: nat)
    requires index <= |before| && MovedBack(s, before + [x], index)
    ensures s[index := x] == InsertedAt(before, x, index)
  {
  }

  lemma GapClosed<T>(s: seq<T>, c: seq<T>, position: nat)
    requires position < |c| && MovedUp(s, c, position, |c| - 1)
    ensures s[..|c| - 1] == Without(c, position)
  {
  }

  /** The length of the array after a push onto n elements. */
  function Grown(room: nat, initSize: nat, n: nat): nat {
    if room == 0 then initSize else if n + 1 == room then 2 * room else room
  }

  /** The length of the array after a clear. */
  function Kept(room: nat, initSize: nat): nat {
    if room > initSize then 0 else room
  }

  /** r, doubled until it exceeds n. */
  function DoubledPast(r: nat, n: nat): nat
    decreases n + 1 - r
  {
    if r == 0 || r > n then r else DoubledPast(2 * r, n)
  }

  class JackieArraryQueue<T(0)> {
    const initSize: nat      // QUEUE_INIT_SIZE
    var queueArrary: array<T>
    var head: nat
    var tail: nat
    var allocationSize: nat
    ghost var pushes: nat    // since the queue was made or cleared
    ghost var copies: nat    // elements copied by growth since then

    predicate Valid()
      reads this
    {
      && initSize >= 1 && queueArrary.Length == allocationSize
      && (if allocationSize == 0 then head == tail == 0 else head < allocationSize && tail < allocationSize)
    }

    /** After the first push into an initial array of one element: the tail lies outside it. */
    predicate Stuck()
      reads this
    {
      initSize == queueArrary.Length == allocationSize == tail == 1 && head == 0
    }

    predicate Usable()
      reads this
    {
      Valid() || Stuck()
    }

    function Size(): (n: nat)
      requires Usable()
      reads this
      ensures n <= allocationSize && (Stuck() <==> n == allocationSize > 0)
    {
      if head <= tail then tail - head else allocationSize - head + tail
    }

    ghost function Contents(): (s: seq<T>)
      requires Usable()
      reads this, queueArrary
      ensures |s| == Size()
    {
      Ring(queueArrary[..], head, Size())
    }

    constructor (initialSize: nat)
      requires initialSize >= 1
      ensures Valid() && View() == State([], 0) && Accounted() && pushes == 0 && initSize == initialSize && fresh(queueArrary)
    {
      initSize := initialSize;
      queueArrary := new T[0];
      head, tail, allocationSize := 0, 0, 0;
      pushes, copies := 0, 0;
    }

    /** Growth has copied fewer elements than twice the pushes. */
    ghost predicate Accounted()
      requires Usable()
      reads this
    {
      && Size() <= pushes
      && (if allocationSize == 0 then copies == 0
          else copies + initSize == allocationSize && (copies > 0 ==> allocationSize <= 2 * pushes))
    }

    /** The first allocation makes room for one element only. */
    predicate Tight()
      reads this
    {
      allocationSize == 0 && initSize == 1
    }

    /** Put an element at the tail; a full array is doubled. */
    method PushTail(input: T)
      requires Valid()
      modifies this, queueArrary
      ensures (if old(Tight()) then Stuck() else Valid()) && Contents() == old(Contents()) + [input]
      ensures allocationSize == Grown(old(allocationSize), initSize, old(Size()))
      ensures queueArrary == old(queueArrary) || fresh(queueArrary)
      ensures pushes == old(pushes) + 1 && (old(Accounted()) ==> Accounted())
    {
      hide Ring;
      pushes := pushes + 1;
      if allocationSize == 0 {
        queueArrary := new T[initSize];
        head := 0;
        tail := 1;
        queueArrary[0] := input;
        allocationSize := initSize;
        RingOne(queueArrary[..], input);
        return;
      }
      Store(input);
      if tail == head {
        Grow();
      }
    }

    /** Write behind the last element; the array may be full then. */
    method Store(input: T)
      requires Valid() && allocationSize > 0
      modifies `tail, queueArrary
      ensures tail < allocationSize && (tail == head <==> old(Size()) + 1 == allocationSize)
      ensures tail != head ==> Valid() && Size() == old(Size()) + 1
      ensures Ring(queueArrary[..], head, old(Size()) + 1) == old(Contents()) + [input]
    {
      hide Ring;
      ghost var before, n := queueArrary[..], Size();
      queueArrary[tail] := input;
      assert tail == Slot(head, n, allocationSize);
      assert queueArrary[..] == before[tail := input];
      Pushed(before, head, n, input);
      tail := tail + 1;
      if tail == allocationSize {
        tail := 0;
      }
    }

    /** Copy the elements of a full array to the front of one twice as long. */
    method Grow()
      requires allocationSize > 0 && queueArrary.Length == allocationSize && initSize >= 1
      requires head == tail < allocationSize
      modifies `queueArrary, `head, `tail, `allocationSize, `copies
      ensures Valid() && fresh(queueArrary) && allocationSize == 2 * old(allocationSize)
      ensures Contents() == Ring(old(queueArrary[..]), old(head), old(allocationSize))
      ensures copies == old(copies) + old(allocationSize) && Size() == old(allocationSize)
    {
      var newArray := new T[2 * allocationSize];
      for counter := 0 to allocationSize
        invariant unchanged(`queueArrary, `head, `tail, `allocationSize) && copies == old(copies) + counter
        invariant forall i :: 0 <= i < counter ==> newArray[i] == queueArrary[Slot(head, i, allocationSize)]
      {
        SlotMod(head, counter, allocationSize);
        newArray[counter] := queueArrary[(head + counter) % allocationSize];
        copies := copies + 1;
      }
      head := 0;
      tail := allocationSize;
      allocationSize := 2 * allocationSize;
      queueArrary := newArray;
    }

    /** Take the element at the head. A stuck queue yields its element again and again. */
    method PopHead() returns (ok: bool, ele: T)
      requires Usable()
      modifies this
      ensures (if old(Stuck()) then Stuck() else Valid()) && ok == (old(Contents()) != [])
      ensures ok ==> if old(Stuck()) then old(Contents()) == Contents() == [ele] else old(Contents()) == [ele] + Contents()
      ensures !ok ==> Contents() == old(Contents())
      ensures old(Accounted()) ==> Accounted()
      ensures pushes == old(pushes) && queueArrary == old(queueArrary) && allocationSize == old(allocationSize)
    {
      hide Ring;
      if head == tail {
        ok, ele := false, *;
        return;
      }
      ghost var n := Size();
      RingFirst(queueArrary[..], head, n);
      head := head + 1;
      if head == allocationSize {
        head := 0;
      }
      if head == 0 {
        ele := queueArrary[allocationSize - 1];
      } else {
        ele := queueArrary[head - 1];
      }
      ok := true;
      assert Size() == if old(Stuck()) then n else n - 1;
    }

    /** Take the element at the tail; that of a stuck queue, too, which then is an empty one. */
    method PopTail() returns (ok: bool, ele: T)
      requires Usable()
      modifies this
      ensures Valid() && ok == (old(Contents()) != [])
      ensures if ok then old(Contents()) == Contents() + [ele] else Contents() == old(Contents())
      ensures old(Accounted()) ==> Accounted()
      ensures pushes == old(pushes) && queueArrary == old(queueArrary) && allocationSize == old(allocationSize)
    {
      if head == tail {
        ok, ele := false, *;
        return;
      }
      ghost var n := Size();
      if tail != 0 {
        tail := tail - 1;
        ele := queueArrary[tail];
      } else {
        tail := allocationSize - 1;
        ele := queueArrary[tail];
      }
      ok := true;
      assert Size() == n - 1;
    }

    /** operator[] */
    method At(position: nat) returns (ele: T)
      requires Usable() && position < Size()
      ensures ele == Contents()[position]
    {
      if head + position >= allocationSize {
        ele := queueArrary[head + position - allocationSize];
      } else {
        ele := queueArrary[head + position];
      }
    }

    /** queueArrary[slot of element k] = x */
    method SetAt(slot: nat, x: T, ghost k: nat)
      requires Valid() && k < Size() && slot == Slot(head, k, allocationSize)
      modifies queueArrary
      ensures Valid() && Contents() == old(Contents())[k := x]
    {
      RingSet(queueArrary[..], head, Size(), k, x);
      ghost var before := queueArrary[..];
      queueArrary[slot] := x;
      assert queueArrary[..] == before[slot := x];
    }

    /** Put an element at a position; those from there on move back. Nothing tells the caller of
        a queue that was empty that the element is in it. */
    method InsertAtIndex(input: T, index: nat) returns (ok: bool)
      requires Valid() && index <= Size()
      modifies this, queueArrary
      ensures (if old(Tight()) then Stuck() else Valid()) && Contents() == InsertedAt(old(Contents()), input, index)
      ensures allocationSize == Grown(old(allocationSize), initSize, old(Size()))
      ensures ok == (old(Contents()) != []) && (queueArrary == old(queueArrary) || fresh(queueArrary))
      ensures pushes == old(pushes) + 1 && (old(Accounted()) ==> Accounted())
    {
      hide Ring, Slot;
      ghost var before := Contents();
      PushTail(input);
      if Size() == 1 {
        assert before == [];
        return false;
      }
      MoveBack(index, before + [input]);
      var slot := if head + index >= allocationSize then head + index - allocationSize else head + index;
      ghost var moved := Contents();
      SlotIs(head, index, allocationSize);
      SetAt(slot, input, index);
      GapFilled(moved, before, input, index);
      ok := true;
    }

    /** Move the elements from a position on back by one, over the last one. */
    method MoveBack(index: nat, ghost c: seq<T>)
      requires Valid() && index < |c| == Size() && |c| > 1 && Contents() == c
      modifies queueArrary
      ensures Valid() && MovedBack(Contents(), c, index)
    {
      hide Ring, Slot;
      var writeIndex := Size() - 1;
      var readIndex := writeIndex - 1;
      while readIndex >= index
        invariant Valid() && writeIndex == readIndex + 1 < |c| && index <= writeIndex
        invariant MovedBack(Contents(), c, writeIndex)
        decreases readIndex
      {
        var trueWriteIndex := if head + writeIndex >= allocationSize then head + writeIndex - allocationSize else head + writeIndex;
        SlotIs(head, writeIndex, allocationSize);
        ghost var now := Contents();
        var ele := At(readIndex);
        SetAt(trueWriteIndex, ele, writeIndex);
        BackOne(now, c, writeIndex);
        if readIndex == 0 {
          break;
        }
        writeIndex := writeIndex - 1;
        readIndex := readIndex - 1;
      }
    }

    /** Take out the element at a position; those behind it move up. For the element of a stuck
        queue the loop would not end. */
    method RemoveAtIndex(position: nat)
      requires Valid() || (Stuck() && position > 0)
      modifies `tail, queueArrary
      ensures if old(Stuck()) then Stuck() else Valid()
      ensures allocationSize == old(allocationSize) && (old(Accounted()) ==> Accounted())
      ensures queueArrary == old(queueArrary)
      ensures Contents() == if position < |old(Contents())| then Without(old(Contents()), position) else old(Contents())
    {
      hide Ring, MovedUp, Without;
      if head == tail || position >= Size() {
        return;
      }
      ghost var c := Contents();
      MoveUp(position, c);
      ghost var shifted, n := Contents(), Size();
      RingShorter(queueArrary[..], head, Size());
      tail := if tail == 0 then allocationSize - 1 else tail - 1;
      assert Size() == n - 1;
      assert Contents() == shifted[..n - 1];
      GapClosed(shifted, c, position);
    }

    /** Move the elements behind a position up by one. */
    method MoveUp(position: nat, ghost c: seq<T>)
      requires Valid() && position < |c| == Size() && Contents() == c
      modifies queueArrary
      ensures Valid() && MovedUp(Contents(), c, position, |c| - 1)
    {
      hide Ring, Slot;
      ghost var i := position;
      var index := if head + position >= allocationSize then head + position - allocationSize else head + position;
      SlotIs(head, position, allocationSize);
      var next := index + 1;
      if next == allocationSize {
        next := 0;
      }
      SlotNext(head, position, allocationSize);
      while next != tail
        invariant Valid() && position <= i < |c| && index < allocationSize
        invariant index == Slot(head, i, allocationSize) && next == Slot(head, i + 1, allocationSize)
        invariant MovedUp(Contents(), c, position, i)
        decreases |c| - i
      {
        TailAt(i + 1);
        ElementAt(i + 1);
        ghost var now := Contents();
        SetAt(index, queueArrary[next], i);
        UpOne(now, c, position, i);
        SlotNext(head, i + 1, allocationSize);
        index := next;
        next := next + 1;
        if next == allocationSize {
          next := 0;
        }
        i := i + 1;
      }
      TailAt(i + 1);
    }

    /** The tail is the slot behind the last element, and no other. */
    lemma TailAt(k: nat)
      requires Valid() && allocationSize > 0 && k <= Size()
      ensures Slot(head, k, allocationSize) == tail <==> k == Size()
    {
    }

    lemma ElementAt(k: nat)
      requires Valid() && k < Size()
      ensures Slot(head, k, allocationSize) < queueArrary.Length
      ensures Contents()[k] == queueArrary[Slot(head, k, allocationSize)]
    {
    }

    /** Forget all elements; an array longer than the initial one is given up. */
    method Clear()
      requires Usable()
      modifies this
      ensures Valid() && Contents() == [] && (old(allocationSize) >= initSize ==> Accounted())
      ensures allocationSize == Kept(old(allocationSize), initSize)
      ensures if old(allocationSize) > initSize then fresh(queueArrary) && queueArrary.Length == 0
              else queueArrary == old(queueArrary) && allocationSize == old(allocationSize)
    {
      pushes, copies := 0, 0;
      if allocationSize == 0 {
        return;
      }
      if allocationSize > initSize {
        allocationSize := 0;
        queueArrary := new T[0];
      }
      head := 0;
      tail := 0;
    }

    method MinimumSize() returns (r: nat)
      requires Usable()
      ensures Size() < r == DoubledPast(1, Size()) && (exists k: nat :: r == Pow2(k)) && (r == 1 || r <= 2 * Size())
    {
      r := 1;
      ghost var k: nat := 0;
      while r <= Size()
        invariant r == Pow2(k) && (r == 1 || r <= 2 * Size()) && DoubledPast(r, Size()) == DoubledPast(1, Size())
        decreases Size() - r
      {
        r := 2 * r;
        k := k + 1;
      }
    }

    /** Move the elements to the shortest array whose length is a power of two and exceeds their
        number. */
    method Shrink2MiniSzie()
      requires Usable()
      modifies this
      ensures Valid() && Contents() == old(Contents()) && (queueArrary == old(queueArrary) || fresh(queueArrary))
      ensures old(allocationSize) > 0 ==>
                && (exists k: nat :: allocationSize == Pow2(k))
                && Size() < allocationSize && (allocationSize == 1 || allocationSize <= 2 * Size())
      ensures allocationSize == if old(allocationSize) == 0 then 0 else DoubledPast(1, Size())
    {
      if allocationSize == 0 {
        return;
      }
      var newAllocationSize := MinimumSize();
      var newArray := new T[newAllocationSize];
      for counter := 0 to Size()
        invariant unchanged(this)
        invariant forall i :: 0 <= i < counter ==> newArray[i] == queueArrary[Slot(head, i, allocationSize)]
      {
        SlotMod(head, counter, allocationSize);
        newArray[counter] := queueArrary[(head + counter) % allocationSize];
      }
      tail := Size();
      allocationSize := newAllocationSize;
      head := 0;
      queueArrary := newArray;
    }

    /** What a caller can tell: the elements and the length of the array. */
    ghost function View(): State<T>
      requires Usable()
      reads this, queueArrary
    {
      State(Contents(), allocationSize)
    }

    /** Carry out one operation; out holds what a pop yields. */
    method Perform(op: Op<T>) returns (out: seq<T>)
      requires Usable() && Possible(View(), op)
      modifies this, queueArrary
      ensures Usable() && View() == After(old(View()), initSize, op) && out == Yield(old(View()), op)
      ensures queueArrary == old(queueArrary) || fresh(queueArrary)
      ensures !Resizes(op) && old(Accounted()) ==> Accounted() && pushes == old(pushes) + Pushes(op)
    {
      hide Ring, Accounted, Without, InsertedAt, Grown, Kept, DoubledPast;
      out := [];
      var ok, ele;
      match op
      case Push(x) => PushTail(x);
      case PopFirst =>
        ok, ele := PopHead();
        out := if ok then [ele] else [];
      case PopLast =>
        ok, ele := PopTail();
        out := if ok then [ele] else [];
      case InsertAt(x, index) => ok := InsertAtIndex(x, index);
      case RemoveAt(position) => RemoveAtIndex(position);
      case Empty => Clear();
      case Shrink => Shrink2MiniSzie();
    }
  }

  // -------------------------------------------------------------------- runs

  datatype Op<T> =
    | Push(x: T)
    | PopFirst
    | PopLast
    | InsertAt(x: T, index: nat)
    | RemoveAt(position: nat)
    | Empty
    | Shrink

  datatype State<T> = State(s: seq<T>, room: nat)

  /** Only a first push with an initial size of one fills an array. */
  predicate Full<T>(st: State<T>) {
    |st.s| == st.room > 0
  }

  /** No insertion behind the last element and, while the array is full, no push, which would
      write outside it, and no removal by position, which would not end. */
  predicate Possible<T>(st: State<T>, op: Op<T>) {
    match op
    case Push(_) => !Full(st)
    case InsertAt(_, index) => !Full(st) && index <= |st.s|
    case RemoveAt(position) => !Full(st) || position > 0
    case _ => true
  }

  predicate Resizes<T>(op: Op<T>) {
    op.Empty? || op.Shrink?
  }

  function Pushes<T>(op: Op<T>): nat {
    if op.Push? || op.InsertAt? then 1 else 0
  }

  /** What the operations do to a plain sequence and to the length of the array. */
  function After<T>(st: State<T>, initSize: nat, op: Op<T>): State<T>
    requires Possible(st, op)
  {
    var State(s, room) := st;
    match op
    case Push(x) => State(s + [x], Grown(room, initSize, |s|))
    case PopFirst => State(if s == [] || Full(st) then s else s[1..], room)
    case PopLast => State(if s == [] then [] else s[..|s| - 1], room)
    case InsertAt(x, index) => State(InsertedAt(s, x, index), Grown(room, initSize, |s|))
    case RemoveAt(position) => State(if position < |s| then Without(s, position) else s, room)
    case Empty => State([], Kept(room, initSize))
    case Shrink => State(s, if room == 0 then 0 else DoubledPast(1, |s|))
  }

  function Yield<T>(st: State<T>, op: Op<T>): seq<T> {
    if op.PopFirst? && st.s != [] then [st.s[0]] else if op.PopLast? && st.s != [] then [st.s[|st.s| - 1]] else []
  }

  predicate AllPossible<T>(st: State<T>, initSize: nat, ops: seq<Op<T>>)
    decreases |ops|
  {
    ops == [] || (Possible(st, ops[0]) && AllPossible(After(st, initSize, ops[0]), initSize, ops[1..]))
  }

  function AfterAll<T>(st: State<T>, initSize: nat, ops: seq<Op<T>>): State<T>
    requires AllPossible(st, initSize, ops)
    decreases |ops|
  {
    if ops == [] then st else AfterAll(After(st, initSize, ops[0]), initSize, ops[1..])
  }

  function AllYields<T>(st: State<T>, initSize: nat, ops: seq<Op<T>>): seq<T>
    requires AllPossible(st, initSize, ops)
    decreases |ops|
  {
    if ops == [] then [] else Yield(st, ops[0]) + AllYields(After(st, initSize, ops[0]), initSize, ops[1..])
  }

  function PushCount<T>(ops: seq<Op<T>>): nat {
    if ops == [] then 0 else Pushes(ops[0]) + PushCount(ops[1..])
  }

  predicate Roomy<T>(st: State<T>) {
    if st.room == 0 then st.s == [] else |st.s| < st.room
  }

  /** An array becomes full only by the first push into one of one element. */
  lemma FullExactly<T>(st: State<T>, initSize: nat, op: Op<T>)
    requires initSize >= 1 && Roomy(st) && Possible(st, op)
    ensures var st' := After(st, initSize, op);
            if st.room == 0 && initSize == 1 && Pushes(op) > 0 then Full(st') else Roomy(st')
  {
    if op.Shrink? {
      Past(1, |st.s|);
    }
  }

  lemma {:induction false} Past(r: nat, n: nat)
    requires r > 0
    ensures DoubledPast(r, n) > n
    decreases n + 1 - r
  {
    if r <= n {
      Past(2 * r, n);
    }
  }

  /** With an initial size of two or more no run fills the array: every operation is possible
      but an insertion behind the last element. */
  lemma {:induction false} NeverFull<T>(st: State<T>, initSize: nat, ops: seq<Op<T>>)
    requires initSize >= 2 && Roomy(st) && AllPossible(st, initSize, ops)
    ensures Roomy(AfterAll(st, initSize, ops)) && !Full(AfterAll(st, initSize, ops))
    decreases |ops|
  {
    if ops != [] {
      FullExactly(st, initSize, ops[0]);
      NeverFull(After(st, initSize, ops[0]), initSize, ops[1..]);
    }
  }

  /** Every run from a new queue ends with the elements that a plain sequence ends with, having
      yielded what that yields; and if nothing is cleared or shrunk, growth has copied fewer than
      two elements for each push. */
  method Run<T(0)>(initialSize: nat, ops: seq<Op<T>>) returns (q: JackieArraryQueue<T>, out: seq<T>)
    requires initialSize >= 1 && AllPossible(State([], 0), initialSize, ops)
    ensures q.Usable() && q.View() == AfterAll(State([], 0), initialSize, ops)
    ensures out == AllYields(State([], 0), initialSize, ops)
    ensures (forall op :: op in ops ==> !Resizes(op)) ==> q.copies == 0 || q.copies < 2 * PushCount(ops)
  {
    q := new JackieArraryQueue(initialSize);
    out := [];
    assert ops[0..] == ops;
    for i := 0 to |ops|
      invariant fresh(q) && fresh(q.queueArrary) && q.Usable() && q.initSize == initialSize
      invariant AllPossible(q.View(), initialSize, ops[i..])
      invariant AfterAll(q.View(), initialSize, ops[i..]) == AfterAll(State([], 0), initialSize, ops)
      invariant out + AllYields(q.View(), initialSize, ops[i..]) == AllYields(State([], 0), initialSize, ops)
      invariant (forall op :: op in ops ==> !Resizes(op)) ==> q.Accounted() && q.pushes + PushCount(ops[i..]) == PushCount(ops)
    {
      var some := q.Perform(ops[i]);
      Regroup(out, some, AllYields(q.View(), initialSize, ops[i..][1..]));
      assert ops[i..][1..] == ops[i + 1..];
      out := out + some;
    }
  }

  lemma RingFirst<T>(data: seq<T>, head: nat, n: nat)
    requires 0 < n <= |data| && head < |data|
    ensures Ring(data, head, n) == [data[head]] + Ring(data, if head + 1 == |data| then 0 else head + 1, n - 1)
  {
  }

  lemma RingShorter<T>(data: seq<T>, head: nat, n: nat)
    requires 0 < n <= |data| && head < |data|
    ensures Ring(data, head, n)[..n - 1] == Ring(data, head, n - 1)
  {
  }

  lemma RingSet<T>(data: seq<T>, head: nat, n: nat, k: nat, x: T)
    requires n <= |data| && head < |data| && k < n
    ensures Ring(data[Slot(head, k, |data|) := x], head, n) == Ring(data, head, n)[k := x]
  {
  }

  lemma RingOne<T>(data: seq<T>, x: T)
    requires |data| > 0 && data[0] == x
    ensures Ring(data, 0, 1) == [x]
  {
  }

  /** Writing behind the last element of a ring that is not full. */
  lemma Pushed<T>(before: seq<T>, head: nat, n: nat, x: T)
    requires head < |before| && n < |before|
    ensures Ring(before[Slot(head, n, |before|) := x], head, n + 1) == Ring(before, head, n) + [x]
  {
  }
}
