/** The open-addressing index of a record table, at a fixed size: two words a slot, the upper
    bit of the first telling that some probe path goes on beyond the slot. */
module TableIndex {
  import opened PowersOfTwo
  import opened Collections
  import opened ProbeCycle
  import opened Wrappers

  datatype Slot = Slot(flag: bool, offset: nat, hash: nat)

  function Home(hash: nat, n: nat): (x: nat)
    requires hash > 0 && n > 0
    ensures x < n
  {
    (hash - 1) % n
  }

  /** What the table holds: the offset of each hash, and how many probes away from its home
      each lies. */
  datatype Content = Content(offsets: map<nat, nat>, depth: map<nat, nat>)

  function Place(c: Content, hash: nat, n: nat): nat
    requires hash in c.depth && hash > 0 && n > 0
  {
    Walk(Home(hash, n), c.depth[hash], n)
  }

  /** Every entry is where its depth says, and every slot on the way to it is flagged. */
  ghost predicate Reachable(slots: seq<Slot>, c: Content)
    requires |slots| > 0
  {
    var n := |slots|;
    && c.depth.Keys == c.offsets.Keys && 0 !in c.offsets
    && (forall h :: h in c.offsets ==>
          c.depth[h] < n && slots[Place(c, h, n)].hash == h && slots[Place(c, h, n)].offset == c.offsets[h] + 1)
    && (forall h, j :: h in c.offsets && 0 <= j < c.depth[h] ==> slots[Walk(Home(h, n), j, n)].flag)
  }

  /** Nothing else is in the table. */
  ghost predicate Accounted(slots: seq<Slot>, c: Content)
    requires |slots| > 0 && Reachable(slots, c)
  {
    forall i :: 0 <= i < |slots| ==>
      if slots[i].offset == 0 then slots[i].hash == 0
      else slots[i].hash in c.offsets && Place(c, slots[i].hash, |slots|) == i
  }

  ghost predicate Good(slots: seq<Slot>, c: Content) {
    |slots| > 0 && Reachable(slots, c) && Accounted(slots, c)
  }

  /** Setting a flag breaks nothing. */
  lemma FlagKeeps(slots: seq<Slot>, c: Content, i: nat)
    requires Good(slots, c) && i < |slots|
    ensures Good(slots[i := slots[i].(flag := true)], c)
  {
  }

  function Inserted(c: Content, hash: nat, offset: nat, j: nat): Content {
    Content(c.offsets[hash := offset], c.depth[hash := j])
  }

  /** The first j slots of a walk are occupied and flagged. */
  ghost predicate Passed(slots: seq<Slot>, x: nat, j: nat)
    requires x < |slots|
  {
    forall i :: 0 <= i < j ==> slots[Walk(x, i, |slots|)].flag && slots[Walk(x, i, |slots|)].offset != 0
  }

  /** The entry is written where the walk meets the first slot without an offset. */
  function Written(slots: seq<Slot>, hash: nat, offset: nat, j: nat): (r: seq<Slot>)
    requires |slots| > 0 && hash > 0
    ensures |r| == |slots|
  {
    var p := Walk(Home(hash, |slots|), j, |slots|);
    slots[p := Slot(slots[p].flag, offset + 1, hash)]
  }

  lemma InsertKeepsEntry(slots: seq<Slot>, c: Content, hash: nat, offset: nat, j: nat, h: nat)
    requires Good(slots, c) && 0 < hash && hash !in c.offsets && h in c.offsets
    requires slots[Walk(Home(hash, |slots|), j, |slots|)].offset == 0
    ensures var p := Place(c, h, |slots|); Written(slots, hash, offset, j)[p] == slots[p]
  {
    assert slots[Place(c, h, |slots|)].offset != 0;
  }

  lemma InsertReaches(slots: seq<Slot>, c: Content, hash: nat, offset: nat, j: nat)
    requires Good(slots, c) && 0 < hash && hash !in c.offsets && j < |slots|
    requires slots[Walk(Home(hash, |slots|), j, |slots|)].offset == 0 && Passed(slots, Home(hash, |slots|), j)
    ensures Reachable(Written(slots, hash, offset, j), Inserted(c, hash, offset, j))
  {
    hide Accounted, Walk, Home;
    var n, after, c' := |slots|, Written(slots, hash, offset, j), Inserted(c, hash, offset, j);
    forall h | h in c.offsets
      ensures after[Place(c, h, n)] == slots[Place(c, h, n)]
    {
      InsertKeepsEntry(slots, c, hash, offset, j, h);
    }
  }

  lemma InsertAccounts(slots: seq<Slot>, c: Content, hash: nat, offset: nat, j: nat)
    requires Good(slots, c) && 0 < hash && hash !in c.offsets && j < |slots|
    requires Reachable(Written(slots, hash, offset, j), Inserted(c, hash, offset, j))
    ensures Accounted(Written(slots, hash, offset, j), Inserted(c, hash, offset, j))
  {
    hide Reachable, Walk, Home;
    var after, c' := Written(slots, hash, offset, j), Inserted(c, hash, offset, j);
    Keys(slots, c);
    Keys(after, c');
    forall i | 0 <= i < |slots| && i != Walk(Home(hash, |slots|), j, |slots|)
      ensures if after[i].offset == 0 then after[i].hash == 0
              else after[i].hash in c'.offsets && Place(c', after[i].hash, |slots|) == i
    {
      assert after[i] == slots[i];
    }
  }

  lemma InsertKeeps(slots: seq<Slot>, c: Content, hash: nat, offset: nat, j: nat)
    requires Good(slots, c) && 0 < hash && hash !in c.offsets && j < |slots|
    requires slots[Walk(Home(hash, |slots|), j, |slots|)].offset == 0 && Passed(slots, Home(hash, |slots|), j)
    ensures Good(Written(slots, hash, offset, j), Inserted(c, hash, offset, j))
  {
    InsertReaches(slots, c, hash, offset, j);
    InsertAccounts(slots, c, hash, offset, j);
  }

  lemma EmptyIsGood(slots: seq<Slot>)
    requires |slots| > 0 && forall i :: 0 <= i < |slots| ==> slots[i] == Slot(false, 0, 0)
    ensures Good(slots, Content(map[], map[]))
  {
  }

  lemma FullTable(slots: seq<Slot>, c: Content)
    requires Good(slots, c) && forall y :: 0 <= y < |slots| ==> slots[y].offset != 0
    ensures |slots| <= |c.offsets|
  {
    var n := |slots|;
    var hashes := c.offsets.Keys;
    var taken := Places(hashes, c, n);
    BelowSize(n);
    forall y: nat | y in Below(n)
      ensures y in taken
    {
      assert slots[y].hash in hashes && Place(c, slots[y].hash, n) == y;
    }
    SubsetSize(Below(n), taken);
    ImageSize(hashes, c, n);
    assert |hashes| == |c.offsets|;
  }

  /** A probe path over occupied slots is shorter than the table while the table is not full. */
  lemma RoomLeft(slots: seq<Slot>, c: Content, x: nat, j: nat, k: nat)
    requires Good(slots, c) && |slots| == Pow2(k) && |c.offsets| < |slots| && x < |slots| && j <= |slots|
    requires forall i :: 0 <= i < j ==> slots[Walk(x, i, |slots|)].offset != 0
    ensures j < |slots|
  {
    if j == |slots| {
      forall y | 0 <= y < |slots|
        ensures slots[y].offset != 0
      {
        var i := MeetsAll(x, y, k);
      }
      FullTable(slots, c);
    }
  }

  ghost function Places(hashes: set<nat>, c: Content, n: nat): set<nat>
    requires n > 0 && forall h :: h in hashes ==> h in c.depth && h > 0
  {
    set h | h in hashes :: Place(c, h, n)
  }

  lemma {:induction false} ImageSize(hashes: set<nat>, c: Content, n: nat)
    requires n > 0 && forall h :: h in hashes ==> h in c.depth && h > 0
    ensures |Places(hashes, c, n)| <= |hashes|
    decreases |hashes|
  {
    if hashes == {} {
      assert Places(hashes, c, n) == {};
    } else {
      var h :| h in hashes;
      ImageSize(hashes - {h}, c, n);
      assert Places(hashes, c, n) == Places(hashes - {h}, c, n) + {Place(c, h, n)};
    }
  }

  predicate Holds(slot: Slot, hash: nat) {
    slot.hash == hash && slot.offset != 0
  }

  /** A table that can be looked up holds no hash twice. */
  lemma NotTwice(slots: seq<Slot>, c: Content, x: nat, y: nat)
    requires x < |slots| && y < |slots| && Holds(slots[x], slots[y].hash) && slots[y].offset != 0
    ensures Good(slots, c) ==> x == y
  {
    if Good(slots, c) {
      assert slots[x].hash in c.offsets && Place(c, slots[x].hash, |slots|) == x;
    }
  }

  /** A hash that is held lies in a slot that is not free. */
  lemma HeldElsewhere(slots: seq<Slot>, c: Content, hash: nat, key: nat)
    requires Good(slots, c) && hash in c.offsets && key < |slots| && slots[key].offset == 0
    ensures hash in c.depth && hash > 0 && Place(c, hash, |slots|) != key && Holds(slots[Place(c, hash, |slots|)], hash)
  {
  }

  /** The first j slots of a walk were occupied and have been flagged; no other has changed. */
  ghost predicate FlaggedTo(before: seq<Slot>, after: seq<Slot>, x: nat, j: nat)
    requires |before| == |after| > x
  {
    var n := |before|;
    && (forall i :: 0 <= i < j ==> before[Walk(x, i, n)].offset != 0)
    && (forall i :: 0 <= i < j ==> after[Walk(x, i, n)] == before[Walk(x, i, n)].(flag := true))
    && (forall y :: 0 <= y < n && (forall i :: 0 <= i < j ==> Walk(x, i, n) != y) ==> after[y] == before[y])
  }

  lemma Flagged(before: seq<Slot>, after: seq<Slot>, x: nat, j: nat)
    requires |before| == |after| > x && FlaggedTo(before, after, x, j)
    ensures Passed(after, x, j)
    ensures after[Walk(x, j, |after|)].offset == before[Walk(x, j, |after|)].offset
  {
    hide Walk;
  }

  lemma FlagNext(before: seq<Slot>, after: seq<Slot>, x: nat, j: nat)
    requires |before| == |after| > x && FlaggedTo(before, after, x, j) && after[Walk(x, j, |after|)].offset != 0
    ensures var p := Walk(x, j, |after|); FlaggedTo(before, after[p := after[p].(flag := true)], x, j + 1)
  {
    hide Walk;
    var n, p := |before|, Walk(x, j, |after|);
    assert after[p].(flag := true) == before[p].(flag := true) by {
      if forall i :: 0 <= i < j ==> Walk(x, i, n) != p {
      } else {
        var i :| 0 <= i < j && Walk(x, i, n) == p;
      }
    }
  }

  /** What an insertion does to the table: the entry goes into the first slot of its walk that
      holds none, and all slots before it are flagged. */
  ghost predicate Entered(before: seq<Slot>, after: seq<Slot>, hash: nat, offset: nat, j: nat)
    requires |before| == |after| > 0 && hash > 0
  {
    var n, x := |before|, Home(hash, |before|);
    && before[Walk(x, j, n)].offset == 0
    && exists flagged :: |flagged| == n && FlaggedTo(before, flagged, x, j) && after == Written(flagged, hash, offset, j)
  }

  // ------------------------------------------------------------------ removal

  function Removed(c: Content, hash: nat): Content {
    Content(c.offsets - {hash}, c.depth - {hash})
  }

  /** The table after an entry d probes from its home x has gone; if nothing was flagged to lie
      beyond it, the flags since probe l, and the tombstones in between, have gone too. */
  ghost predicate Cleared(before: seq<Slot>, after: seq<Slot>, x: nat, l: nat, d: nat)
    requires |before| == |after| > 0 && x < |before|
  {
    var n := |before|;
    var p := Walk(x, d, n);
    && after[p] == Slot(before[p].flag, 0, 0)
    && (if before[p].flag || l == d then forall i :: 0 <= i < n && i != p ==> after[i] == before[i]
        else
          && (forall i :: l <= i < d ==> after[Walk(x, i, n)] == before[Walk(x, i, n)].(flag := false))
          && (forall i :: 0 <= i < n && i != p && (forall t :: l <= t < d ==> Walk(x, t, n) != i) ==> after[i] == before[i]))
  }

  /** Removal in progress: the entry at the end of the walk is gone, and the slots from probe l up
      to and including probe i are unflagged. */
  ghost predicate ClearedTo(before: seq<Slot>, after: seq<Slot>, x: nat, l: nat, d: nat, i: nat)
    requires |before| == |after| > 0 && x < |before|
  {
    var n := |before|;
    && after[Walk(x, d, n)] == Slot(false, 0, 0)
    && (forall t :: l <= t <= i ==> after[Walk(x, t, n)] == before[Walk(x, t, n)].(flag := false))
    && (forall y :: 0 <= y < n && y != Walk(x, d, n) && (forall t :: l <= t <= i ==> Walk(x, t, n) != y) ==> after[y] == before[y])
  }

  lemma ClearedAll(before: seq<Slot>, after: seq<Slot>, x: nat, l: nat, d: nat)
    requires |before| == |after| > 0 && x < |before| && l < d && !before[Walk(x, d, |before|)].flag
    requires ClearedTo(before, after, x, l, d, d - 1)
    ensures Cleared(before, after, x, l, d)
  {
  }

  lemma ClearedFirst(before: seq<Slot>, x: nat, l: nat, d: nat, k: nat)
    requires |before| == Pow2(k) && x < |before| && l < d < |before|
    ensures var p, q := Walk(x, d, |before|), Walk(x, l, |before|);
            && p != q
            && var gone := before[p := Slot(false, 0, 0)];
               ClearedTo(before, gone[q := gone[q].(flag := false)], x, l, d, l)
  {
    Separate(x, l, d, k);
  }

  /** Clearing the next tombstone. */
  lemma ClearedNext(before: seq<Slot>, after: seq<Slot>, x: nat, l: nat, d: nat, i: nat, k: nat)
    requires |before| == |after| == Pow2(k) && x < |before| && l <= i && i + 1 < d < |before|
    requires ClearedTo(before, after, x, l, d, i) && before[Walk(x, i + 1, |before|)].offset == 0
    ensures var q := Walk(x, i + 1, |before|);
            && q != Walk(x, d, |before|)
            && ClearedTo(before, after[q := Slot(false, 0, after[q].hash)], x, l, d, i + 1)
  {
    var n := |before|;
    var q := Walk(x, i + 1, n);
    Separate(x, i + 1, d, k);
    forall t | l <= t <= i
      ensures Walk(x, t, n) != q
    {
      Separate(x, t, i + 1, k);
    }
    assert after[q] == before[q];
  }

  lemma ClearedNone(before: seq<Slot>, x: nat, l: nat, d: nat)
    requires |before| > 0 && x < |before| && (before[Walk(x, d, |before|)].flag || l == d)
    ensures var p := Walk(x, d, |before|); Cleared(before, before[p := Slot(before[p].flag, 0, 0)], x, l, d)
  {
  }

  /** Probe l of a walk is the last one before probe d that meets an entry, or else the first. */
  ghost predicate Between(slots: seq<Slot>, x: nat, l: nat, d: nat)
    requires x < |slots|
  {
    && (l < d || l == d == 0) && (l > 0 ==> slots[Walk(x, l, |slots|)].offset != 0)
    && forall i :: l < i < d ==> slots[Walk(x, i, |slots|)].offset == 0
  }

  /** What a removal does to the table, l being the probe of the last entry before the one that
      goes, or 0. */
  ghost predicate Left(before: seq<Slot>, after: seq<Slot>, hash: nat, d: nat)
    requires |before| == |after| > 0 && hash > 0
  {
    var x := Home(hash, |before|);
    exists l :: 0 <= l <= d && Between(before, x, l, d) && Cleared(before, after, x, l, d)
  }

  lemma BetweenOn(slots: seq<Slot>, x: nat, l: nat, j: nat)
    requires x < |slots| && Between(slots, x, l, j)
    ensures slots[Walk(x, j, |slots|)].offset != 0 ==> Between(slots, x, j, j + 1)
    ensures slots[Walk(x, j, |slots|)].offset == 0 ==> Between(slots, x, l, j + 1)
  {
  }

  /** No other entry's path uses a flag that removal clears: it would have to end in one of the
      tombstones, at the removed entry, or beyond it, where the removed entry is not flagged. */
  lemma NotCut(slots: seq<Slot>, c: Content, hash: nat, l: nat, h: nat, j: nat, t: nat)
    requires Good(slots, c) && hash in c.offsets && h in c.offsets && h != hash
    requires var n, d := |slots|, c.depth[hash];
             && !slots[Place(c, hash, n)].flag && l <= t < d && j < c.depth[h]
             && Between(slots, Home(hash, n), l, d)
    ensures Walk(Home(h, |slots|), j, |slots|) != Walk(Home(hash, |slots|), t, |slots|)
  {
    hide Accounted;
    var n, d, e := |slots|, c.depth[hash], c.depth[h];
    var x, y := Home(hash, n), Home(h, n);
    WalkOn(y, j, e - j, n);
    WalkOn(x, t, e - j, n);
    WalkOn(y, j, d - t, n);
    WalkOn(x, t, d - t, n);
    assert e > j + (d - t) ==> slots[Walk(y, j + (d - t), n)].flag;
    assert e < j + (d - t) ==> slots[Walk(x, t + (e - j), n)].offset == 0;
  }

  lemma RemoveKeepsEntry(slots: seq<Slot>, after: seq<Slot>, c: Content, hash: nat, l: nat, h: nat)
    requires Good(slots, c) && hash in c.offsets && |after| == |slots| && l <= c.depth[hash]
    requires Cleared(slots, after, Home(hash, |slots|), l, c.depth[hash]) && h in c.offsets && h != hash
    ensures var p := Place(c, h, |slots|); after[p].hash == h && after[p].offset == c.offsets[h] + 1
  {
    hide Cleared, Accounted;
    assert Place(c, h, |slots|) != Place(c, hash, |slots|);
    Untouched(slots, after, Home(hash, |slots|), l, c.depth[hash], Place(c, h, |slots|));
  }

  lemma RemoveKeepsFlag(slots: seq<Slot>, after: seq<Slot>, c: Content, hash: nat, l: nat, h: nat, j: nat)
    requires Good(slots, c) && hash in c.offsets && |after| == |slots| && l <= c.depth[hash]
    requires Between(slots, Home(hash, |slots|), l, c.depth[hash])
    requires Cleared(slots, after, Home(hash, |slots|), l, c.depth[hash])
    requires h in c.offsets && h != hash && j < c.depth[h]
    ensures after[Walk(Home(h, |slots|), j, |slots|)].flag
  {
    var n, x, d := |slots|, Home(hash, |slots|), c.depth[hash];
    var i := Walk(Home(h, n), j, n);
    assert slots[i].flag;
    hide Accounted;
    if !slots[Walk(x, d, n)].flag {
      forall t | l <= t < d
        ensures Walk(x, t, n) != i
      {
        NotCut(slots, c, hash, l, h, j, t);
      }
    }
  }

  lemma RemoveAccounts(slots: seq<Slot>, after: seq<Slot>, c: Content, hash: nat, l: nat, i: nat)
    requires Good(slots, c) && hash in c.offsets && |after| == |slots| && l <= c.depth[hash]
    requires Cleared(slots, after, Home(hash, |slots|), l, c.depth[hash]) && i < |slots|
    ensures if after[i].offset == 0 then after[i].hash == 0
            else after[i].hash in c.offsets && after[i].hash != hash && Place(c, after[i].hash, |slots|) == i
  {
    if i == Place(c, hash, |slots|) {
      assert after[i] == Slot(slots[i].flag, 0, 0);
    } else {
      Untouched(slots, after, Home(hash, |slots|), l, c.depth[hash], i);
    }
  }

  lemma RemoveReaches(slots: seq<Slot>, after: seq<Slot>, c: Content, hash: nat, l: nat)
    requires Good(slots, c) && hash in c.offsets && |after| == |slots| && l <= c.depth[hash]
    requires Between(slots, Home(hash, |slots|), l, c.depth[hash])
    requires Cleared(slots, after, Home(hash, |slots|), l, c.depth[hash])
    ensures Reachable(after, Removed(c, hash))
  {
    hide Cleared, Accounted;
    var n, c' := |slots|, Removed(c, hash);
    forall h | h in c'.offsets
      ensures after[Place(c, h, n)].hash == h && after[Place(c, h, n)].offset == c.offsets[h] + 1
    {
      RemoveKeepsEntry(slots, after, c, hash, l, h);
    }
    forall h, j | h in c'.offsets && 0 <= j < c.depth[h]
      ensures after[Walk(Home(h, n), j, n)].flag
    {
      RemoveKeepsFlag(slots, after, c, hash, l, h, j);
    }
  }

  /** Removal leaves every other entry where it can be found. */
  lemma RemoveKeeps(slots: seq<Slot>, after: seq<Slot>, c: Content, hash: nat, l: nat)
    requires Good(slots, c) && hash in c.offsets && |after| == |slots| && l <= c.depth[hash]
    requires Between(slots, Home(hash, |slots|), l, c.depth[hash])
    requires Cleared(slots, after, Home(hash, |slots|), l, c.depth[hash])
    ensures Good(after, Removed(c, hash))
  {
    hide Cleared, Reachable;
    var n, c' := |slots|, Removed(c, hash);
    RemoveReaches(slots, after, c, hash, l);
    assert 0 !in c.offsets && c.depth.Keys == c.offsets.Keys by { Keys(slots, c); }
    forall i | 0 <= i < n
      ensures if after[i].offset == 0 then after[i].hash == 0
              else after[i].hash in c'.offsets && Place(c', after[i].hash, n) == i
    {
      RemoveAccounts(slots, after, c, hash, l, i);
    }
  }

  lemma Keys(slots: seq<Slot>, c: Content)
    requires |slots| > 0 && Reachable(slots, c)
    ensures 0 !in c.offsets && c.depth.Keys == c.offsets.Keys
  {
  }

  /** What a probe finds: the entry, or a flag unless the walk ends here. */
  lemma ProbeSlot(slots: seq<Slot>, c: Content, hash: nat, j: nat, goal: nat)
    requires Good(slots, c) && hash > 0 && j <= goal
    requires var n := |slots|;
             if hash in c.offsets then goal == c.depth[hash] else !slots[Walk(Home(hash, n), goal, n)].flag
    ensures var slot := slots[Walk(Home(hash, |slots|), j, |slots|)];
            && (slot.hash == hash ==> hash in c.offsets && slot.offset == c.offsets[hash] + 1)
            && (slot.hash != hash && slot.flag ==> j < goal)
            && (slot.hash != hash && !slot.flag ==> hash !in c.offsets)
            && (slot.offset == 0 ==> slot.hash != hash)
  {
    assert j < goal && hash in c.offsets ==> slots[Walk(Home(hash, |slots|), j, |slots|)].flag;
  }

  /** Removal changes no offset and no hash but the removed entry's. */
  lemma Untouched(slots: seq<Slot>, after: seq<Slot>, x: nat, l: nat, d: nat, i: nat)
    requires |after| == |slots| && x < |slots| && Cleared(slots, after, x, l, d) && i < |slots| && i != Walk(x, d, |slots|)
    ensures after[i].offset == slots[i].offset && after[i].hash == slots[i].hash
  {
    var n := |slots|;
    if !slots[Walk(x, d, n)].flag && l != d && exists t :: l <= t < d && Walk(x, t, n) == i {
      var t :| l <= t < d && Walk(x, t, n) == i;
    }
  }

  // ---------------------------------------------------------------- the table

  class TableIndex {
    const elements: nat
    ghost const exponent: nat
    const table: array<nat>
    var usedElements: nat
    ghost var content: Content

    ghost function Slots(): (s: seq<Slot>)
      requires table.Length == 2 * elements
      reads table
      ensures |s| == elements
    {
      seq(elements, i requires 0 <= i < elements reads table =>
        Slot(table[2 * i] >= TOP64, table[2 * i] % TOP64, table[2 * i + 1]))
    }

    ghost predicate Shape()
      reads table
    {
      && elements == Pow2(exponent) && exponent <= 31 && table.Length == 2 * elements
      && (forall i :: 0 <= i < table.Length ==> table[i] < TWO64)
    }

    ghost predicate Valid()
      reads this, table
    {
      Shape() && Good(Slots(), content) && usedElements == |content.offsets|
    }

    constructor (k: nat)
      requires k <= 31
      ensures Valid() && exponent == k && elements == Pow2(k) && content.offsets == map[] && fresh(table)
    {
      elements := Pow2(k);
      exponent := k;
      table := new nat[2 * Pow2(k)](_ => 0);
      usedElements := 0;
      content := Content(map[], map[]);
      new;
      EmptyIsGood(Slots());
    }

    /** The walk over the slots ends: at the hash, or at a slot that is not flagged. */
    ghost predicate Stops(hash: nat)
      requires Shape()
      reads this, table
    {
      hash in content.offsets || exists i :: 0 <= i < elements && !Slots()[i].flag
    }

    /** The loop of Lookup ends at probe j: an empty slot, the hash, or no flag. */
    ghost predicate EndsAt(hash: nat, j: nat)
      requires Valid() && hash > 0
      reads this, table
    {
      var key := Walk(Home(hash, elements), j, elements);
      table[2 * key] == 0 || table[2 * key + 1] == hash || table[2 * key] < TOP64
    }

    /** Lookup and Remove end exactly for the hashes held and, while some slot is not flagged,
        for all others. */
    lemma StopsExactly(hash: nat)
      requires Valid() && hash > 0
      ensures Stops(hash) <==> exists j: nat :: EndsAt(hash, j)
    {
      hide Good, Stops, Goal, EndsAt, Next, Walk, Home, Pow2;
      if Stops(hash) {
        var goal := StopAt(hash);
        EndsAtGoal(hash, goal);
      }
      if j: nat :| EndsAt(hash, j) {
        StopsWhereEnds(hash, j);
      }
    }

    lemma EndsAtGoal(hash: nat, goal: nat)
      requires Valid() && hash > 0 && Goal(hash, goal)
      ensures EndsAt(hash, goal)
    {
      hide Good, Next, Walk, Home, Pow2;
      ProbeSlot(Slots(), content, hash, goal, goal);
      WordsOf(Walk(Home(hash, elements), goal, elements));
    }

    lemma StopsWhereEnds(hash: nat, j: nat)
      requires Valid() && hash > 0 && EndsAt(hash, j)
      ensures Stops(hash)
    {
      hide Next, Home, Pow2;
      WordsOf(Walk(Home(hash, elements), j, elements));
      assert Accounted(Slots(), content);
    }

    /** The offset of a hash; an absent hash is looked up only where the walk ends. */
    method Lookup(hash: nat) returns (r: Option<nat>)
      requires Valid() && (hash != 0 ==> Stops(hash))
      ensures r == if hash in content.offsets then Some(content.offsets[hash]) else None
    {
      if hash == 0 {
        ZeroIsAbsent();
        return None;
      }
      ghost var goal := StopAt(hash);
      r := LookupFrom(hash, goal);
    }

    lemma ZeroIsAbsent()
      requires Valid()
      ensures 0 !in content.offsets
    {
    }

    /** Where the walk from a hash's home ends. */
    ghost predicate Goal(hash: nat, goal: nat)
      requires Valid() && hash > 0
      reads this, table
    {
      if hash in content.offsets then goal == content.depth[hash]
      else !Slots()[Walk(Home(hash, elements), goal, elements)].flag
    }

    method LookupFrom(hash: nat, ghost goal: nat) returns (r: Option<nat>)
      requires Valid() && hash > 0 && Goal(hash, goal)
      ensures r == if hash in content.offsets then Some(content.offsets[hash]) else None
    {
      hide Good, Pow2, Next, Home, Goal, Slots;
      var key := HomeOf(hash, elements, exponent);
      ghost var j := 0;
      while table[2 * key] != 0
        invariant key < elements && key == Walk(Home(hash, elements), j, elements) && j <= goal
        decreases goal - j
      {
        Probe(hash, key, j, goal);
        var existing := table[2 * key + 1];
        if hash == existing {
          return Some(table[2 * key] % TOP64 - 1);
        }
        if table[2 * key] < TOP64 {
          break;
        }
        key := Collide(key, elements, exponent);
        j := j + 1;
      }
      Probe(hash, key, j, goal);
      r := None;
    }

    lemma Probe(hash: nat, key: nat, j: nat, goal: nat)
      requires Valid() && hash > 0 && key == Walk(Home(hash, elements), j, elements) && j <= goal
      requires Goal(hash, goal)
      ensures table[2 * key + 1] == hash ==>
                hash in content.offsets && content.offsets[hash] == table[2 * key] % TOP64 - 1
      ensures table[2 * key + 1] != hash && table[2 * key] >= TOP64 ==> j < goal
      ensures table[2 * key] == 0 || (table[2 * key + 1] != hash && table[2 * key] < TOP64) ==> hash !in content.offsets
    {
      hide Pow2, Next, Home, Walk;
      ProbeSlot(Slots(), content, hash, j, goal);
      hide Good;
      assert Slots()[key] == Slot(table[2 * key] >= TOP64, table[2 * key] % TOP64, table[2 * key + 1]);
    }

    /** Overwrite both words of a slot. */
    method Put(key: nat, word: nat, hash: nat)
      requires Shape() && key < elements && word < TWO64 && hash < TWO64
      modifies table
      ensures Shape() && Slots() == old(Slots())[key := Slot(word >= TOP64, word % TOP64, hash)]
    {
      hide Pow2;
      table[2 * key] := word;
      table[2 * key + 1] := hash;
      assert forall i :: 0 <= i < elements && i != key ==> Slots()[i] == old(Slots()[i]);
    }

    /** Put a hash into the first slot of its walk that holds no offset, flagging the ones before
        it. The table is less than half full, so it does not grow. A hash that is held already is
        then held twice. */
    method Insert(hash: nat, offset: nat)
      requires Valid() && hash < TWO64 && (hash != 0 ==> offset + 1 < TOP64 && usedElements < elements / 2)
      modifies `usedElements, `content, table
      ensures Shape()
      ensures hash == 0 ==> Valid() && content == old(content) && Slots() == old(Slots())
      ensures hash != 0 ==>
                && hash in content.depth && content == Inserted(old(content), hash, offset, content.depth[hash])
                && Entered(old(Slots()), Slots(), hash, offset, content.depth[hash])
      ensures hash !in old(content.offsets) ==> Valid()
      ensures hash in old(content.offsets) ==> Twice(hash) && forall c :: !Good(Slots(), c)
    {
      if hash != 0 {
        InsertFrom(hash, offset);
      } else {
        ZeroIsAbsent();
      }
    }

    method InsertFrom(hash: nat, offset: nat)
      requires Valid() && 0 < hash < TWO64 && offset + 1 < TOP64 && usedElements < elements
      modifies `usedElements, `content, table
      ensures Shape() && hash in content.depth
      ensures content == Inserted(old(content), hash, offset, content.depth[hash])
      ensures Entered(old(Slots()), Slots(), hash, offset, content.depth[hash])
      ensures hash !in old(content.offsets) ==> Valid()
      ensures hash in old(content.offsets) ==> Twice(hash) && forall c :: !Good(Slots(), c)
    {
      hide Good, Pow2, Next, Home, Slots, FlaggedTo, Entered, Walk, Twice;
      var key := HomeOf(hash, elements, exponent);
      ghost var j, before, slots := 0, content, Slots();
      PassedNone(hash);
      while table[2 * key] % TOP64 != 0
        invariant Valid() && content == before && key < elements && key == Walk(Home(hash, elements), j, elements)
        invariant j < elements && FlaggedTo(slots, Slots(), Home(hash, elements), j)
        decreases elements - j
      {
        FlagAndGo(key, hash, j, slots);
        assert Walk(Home(hash, elements), j + 1, elements) == Next(key, elements) by {
          WalkNext(Home(hash, elements), j, elements);
        }
        key := Collide(key, elements, exponent);
        j := j + 1;
      }
      Settle(key, hash, offset, j, slots);
    }

    /** Two slots hold the hash. */
    ghost predicate Twice(hash: nat)
      requires Shape()
      reads this, table
    {
      exists x, y :: 0 <= x < y < elements && Holds(Slots()[x], hash) && Holds(Slots()[y], hash)
    }

    lemma PassedNone(hash: nat)
      requires Shape() && hash > 0
      ensures FlaggedTo(Slots(), Slots(), Home(hash, elements), 0) && Walk(Home(hash, elements), 0, elements) == Home(hash, elements)
    {
    }

    lemma WordsOf(key: nat)
      requires Shape() && key < elements
      ensures Slots()[key] == Slot(table[2 * key] >= TOP64, table[2 * key] % TOP64, table[2 * key + 1])
    {
    }

    /** Flag an occupied slot that an insertion passes. */
    method FlagAndGo(key: nat, ghost hash: nat, ghost j: nat, ghost before: seq<Slot>)
      requires Valid() && hash > 0 && key < elements && key == Walk(Home(hash, elements), j, elements)
      requires table[2 * key] % TOP64 != 0 && usedElements < elements
      requires j < elements == |before| && FlaggedTo(before, Slots(), Home(hash, elements), j)
      modifies table
      ensures Valid() && FlaggedTo(before, Slots(), Home(hash, elements), j + 1) && j + 1 < elements
    {
      hide Good, Pow2, Next, Home, Walk, FlaggedTo;
      ghost var slots, x := Slots(), Home(hash, elements);
      WordsOf(key);
      FlagKeeps(slots, content, key);
      FlagNext(before, slots, x, j);
      var word := if table[2 * key] < TOP64 then table[2 * key] + TOP64 else table[2 * key];
      FlaggedWord(table[2 * key]);
      Put(key, word, table[2 * key + 1]);
      assert Slots() == slots[key := slots[key].(flag := true)];
      Flagged(before, Slots(), x, j + 1);
      RoomAfter(Slots(), content, x, j + 1, exponent);
    }

    /** Write the entry where the walk found room. */
    method Settle(key: nat, hash: nat, offset: nat, ghost j: nat, ghost before: seq<Slot>)
      requires Valid() && 0 < hash < TWO64 && offset + 1 < TOP64
      requires key < elements && key == Walk(Home(hash, elements), j, elements) && j < elements
      requires table[2 * key] % TOP64 == 0
      requires |before| == elements && FlaggedTo(before, Slots(), Home(hash, elements), j)
      modifies `usedElements, `content, table
      ensures Shape() && content == Inserted(old(content), hash, offset, j)
      ensures Entered(before, Slots(), hash, offset, j)
      ensures hash !in old(content.offsets) ==> Valid()
      ensures hash in old(content.offsets) ==> Twice(hash) && forall c :: !Good(Slots(), c)
    {
      hide Good, Pow2, Next, Home, Passed, FlaggedTo, Walk, Twice;
      ghost var slots := Slots();
      WordsOf(key);
      Flagged(before, slots, Home(hash, elements), j);
      if hash !in content.offsets {
        InsertKeeps(slots, content, hash, offset, j);
      } else {
        HeldElsewhere(slots, content, hash, key);
      }
      var word := table[2 * key] + (offset + 1);
      SettledWord(table[2 * key], offset);
      Put(key, word, hash);
      assert Slots() == Written(slots, hash, offset, j);
      content := Inserted(content, hash, offset, j);
      usedElements := usedElements + 1;
      if hash in old(content.offsets) {
        TwiceAt(Place(old(content), hash, elements), key, hash);
      }
    }

    lemma TwiceAt(x: nat, y: nat, hash: nat)
      requires Shape() && x < elements && y < elements && x != y && Holds(Slots()[x], hash) && Holds(Slots()[y], hash)
      ensures Twice(hash) && forall c :: !Good(Slots(), c)
    {
      assert if x < y then x < y else y < x;
      forall c
        ensures !Good(Slots(), c)
      {
        NotTwice(Slots(), c, x, y);
      }
    }

    /** Forget a hash, if the table holds it, and with it the flags and tombstones that led only
        to it. */
    method Remove(hash: nat)
      requires Valid() && (hash != 0 ==> Stops(hash))
      modifies `usedElements, `content, table
      ensures Valid() && content.offsets == old(content.offsets) - {hash}
      ensures if old(hash in content.offsets)
              then hash > 0 && hash in old(content.depth) && content == Removed(old(content), hash)
                   && Left(old(Slots()), Slots(), hash, old(content.depth[hash]))
              else content == old(content) && Slots() == old(Slots())
    {
      hide Good, Stops, Goal;
      if hash == 0 {
        ZeroIsAbsent();
        return;
      }
      ghost var goal := StopAt(hash);
      RemoveFrom(hash, goal);
    }

    method RemoveFrom(hash: nat, ghost goal: nat)
      requires Valid() && hash > 0 && Goal(hash, goal)
      modifies `usedElements, `content, table
      ensures Valid() && content.offsets == old(content.offsets) - {hash}
      ensures if old(hash in content.offsets)
              then hash in old(content.depth) && content == Removed(old(content), hash)
                   && Left(old(Slots()), Slots(), hash, old(content.depth[hash]))
              else content == old(content) && Slots() == old(Slots())
    {
      hide Good, Pow2, Next, Home, Goal, Slots, Walk, Between;
      var key := HomeOf(hash, elements, exponent);
      var last := key;
      ghost var j, l, x := 0, 0, Home(hash, elements);
      StartOfWalk(hash);
      while table[2 * key] != 0
        invariant Valid() && Goal(hash, goal) && content == old(content) && Slots() == old(Slots())
        invariant key < elements && key == Walk(x, j, elements) && j <= goal
        invariant last == Walk(x, l, elements) && l <= j && Between(Slots(), x, l, j)
        decreases goal - j
      {
        Probe(hash, key, j, goal);
        var existing := table[2 * key + 1];
        if hash == existing {
          AtGoal(hash, key, j, goal);
          Unlink(key, last, hash, l);
          return;
        }
        if table[2 * key] < TOP64 {
          break;
        }
        BetweenOn(Slots(), x, l, j);
        WordsOf(key);
        WalkNext(x, j, elements);
        if table[2 * key] % TOP64 != 0 {
          last := key;
          l := j;
        }
        key := Collide(key, elements, exponent);
        j := j + 1;
      }
      Probe(hash, key, j, goal);
    }

    lemma StartOfWalk(hash: nat)
      requires Shape() && hash > 0
      ensures Walk(Home(hash, elements), 0, elements) == Home(hash, elements)
      ensures Between(Slots(), Home(hash, elements), 0, 0)
    {
    }

    /** The entry is met only where its depth says. */
    lemma AtGoal(hash: nat, key: nat, j: nat, goal: nat)
      requires Valid() && hash > 0 && Goal(hash, goal) && j <= goal && hash in content.offsets
      requires key == Walk(Home(hash, elements), j, elements) && table[2 * key + 1] == hash
      ensures hash in content.depth && j == goal == content.depth[hash] < elements && key == Place(content, hash, elements)
    {
      assert Slots()[key].hash == hash;
      if j < goal {
        Separate(Home(hash, elements), j, goal, exponent);
      }
    }

    method Unlink(key: nat, last: nat, ghost hash: nat, ghost l: nat)
      requires Valid() && hash in content.offsets && hash in content.depth && hash > 0 && content.depth[hash] < elements
      requires key == Walk(Home(hash, elements), content.depth[hash], elements)
      requires last == Walk(Home(hash, elements), l, elements) && l <= content.depth[hash]
      requires Between(Slots(), Home(hash, elements), l, content.depth[hash])
      modifies `usedElements, `content, table
      ensures Valid() && content == Removed(old(content), hash)
      ensures Cleared(old(Slots()), Slots(), Home(hash, elements), l, old(content.depth[hash]))
    {
      hide Good, Pow2, Next, Home, Walk, Between, Cleared;
      ghost var slots, x, d := Slots(), Home(hash, elements), content.depth[hash];
      WordsOf(key);
      var offset := table[2 * key] - table[2 * key] % TOP64;
      CollideBit(table[2 * key]);
      if slots[key].flag || l == d {
        ClearedNone(slots, x, l, d);
      } else {
        Separate(x, l, d, exponent);
      }
      Put(key, offset, 0);
      usedElements := usedElements - 1;
      if offset == 0 && last != key {
        ClearPath(key, last, slots, x, l, d);
      }
      RemoveKeeps(slots, Slots(), content, hash, l);
      content := Removed(content, hash);
    }

    /** Unflag the last entry of the path and erase the tombstones behind it. */
    method ClearPath(key: nat, last: nat, ghost slots: seq<Slot>, ghost x: nat, ghost l: nat, ghost d: nat)
      requires Shape() && |slots| == elements && x < elements && l < d < elements
      requires key == Walk(x, d, elements) && last == Walk(x, l, elements) && Between(slots, x, l, d)
      requires !slots[key].flag && Slots() == slots[key := Slot(false, 0, 0)]
      modifies table
      ensures Shape() && Cleared(slots, Slots(), x, l, d)
    {
      hide Pow2, Next, Walk, Cleared, ClearedTo;
      ClearedFirst(slots, x, l, d, exponent);
      WordsOf(last);
      Put(last, table[2 * last] % TOP64, table[2 * last + 1]);
      var at := last;
      ghost var i := l;
      while true
        invariant Shape() && l <= i < d && at < elements && at == Walk(x, i, elements)
        invariant ClearedTo(slots, Slots(), x, l, d, i)
        decreases d - i
      {
        WalkNext(x, i, elements);
        at := Collide(at, elements, exponent);
        if at == key {
          ClearedEnd(x, i, d, exponent);
          break;
        }
        ClearedNext(slots, Slots(), x, l, d, i, exponent);
        WordsOf(at);
        Put(at, 0, table[2 * at + 1]);
        i := i + 1;
      }
      ClearedAll(slots, Slots(), x, l, d);
    }

    lemma StopAt(hash: nat) returns (goal: nat)
      requires Valid() && Stops(hash) && hash > 0
      ensures Goal(hash, goal)
    {
      if hash in content.offsets {
        goal := content.depth[hash];
      } else {
        var i :| 0 <= i < elements && !Slots()[i].flag;
        goal := MeetsAll(Home(hash, elements), i, exponent);
      }
    }
  }

  // ------------------------------------------------- when no look-up ends

  /** An insertion lowers no flag. */
  lemma EntryFlags(before: seq<Slot>, after: seq<Slot>, hash: nat, offset: nat, j: nat)
    requires |before| == |after| > 0 && hash > 0 && Entered(before, after, hash, offset, j)
    ensures forall i :: 0 <= i < j ==> before[Walk(Home(hash, |before|), i, |before|)].offset != 0
    ensures forall i :: 0 <= i < j ==> after[Walk(Home(hash, |before|), i, |before|)].flag
    ensures forall y :: 0 <= y < |before| && before[y].flag ==> after[y].flag
  {
    hide Walk, Home;
    var n, x := |before|, Home(hash, |before|);
    var flagged: seq<Slot> :| |flagged| == n && FlaggedTo(before, flagged, x, j) && after == Written(flagged, hash, offset, j);
    forall y | 0 <= y < n && before[y].flag
      ensures flagged[y].flag
    {
      if i :| 0 <= i < j && Walk(x, i, n) == y {
        assert flagged[Walk(x, i, n)] == before[Walk(x, i, n)].(flag := true);
      }
    }
  }

  /** It raises flags only at the occupied slots it passes, and not that of the slot it fills. */
  lemma EntryFlagsOnly(before: seq<Slot>, after: seq<Slot>, hash: nat, offset: nat, j: nat, y: nat)
    requires |before| == |after| > y && hash > 0 && Entered(before, after, hash, offset, j)
    requires after[y].flag && !before[y].flag
    ensures exists i :: 0 <= i < j && Walk(Home(hash, |before|), i, |before|) == y
    ensures before[y].offset != 0 && y != Walk(Home(hash, |before|), j, |before|)
  {
    hide Walk, Home;
    var n, x := |before|, Home(hash, |before|);
    var flagged: seq<Slot> :| |flagged| == n && FlaggedTo(before, flagged, x, j) && after == Written(flagged, hash, offset, j);
    assert after[y].flag == flagged[y].flag;
  }

  /** The flags from probe l to probe d of a walk are down. */
  ghost predicate Unflagged(slots: seq<Slot>, x: nat, l: nat, d: nat)
    requires x < |slots|
  {
    forall i :: l <= i <= d ==> !slots[Walk(x, i, |slots|)].flag
  }

  /** The removal of an entry beyond whose slot no path goes on leaves no flag behind on its own
      path from the last other entry on: a walk that comes to this stretch ends there. */
  lemma PathEnds(before: seq<Slot>, after: seq<Slot>, hash: nat, d: nat) returns (l: nat)
    requires |before| == |after| > 0 && hash > 0 && Left(before, after, hash, d)
    requires !before[Walk(Home(hash, |before|), d, |before|)].flag
    ensures Between(before, Home(hash, |before|), l, d) && Unflagged(after, Home(hash, |before|), l, d)
    ensures forall y :: 0 <= y < |before| && after[y].flag ==> before[y].flag
  {
    hide Walk, Home, Between;
    var x := Home(hash, |before|);
    l :| 0 <= l <= d && Between(before, x, l, d) && Cleared(before, after, x, l, d);
    forall y | 0 <= y < |before|
      ensures after[y].flag ==> before[y].flag
    {
      if t :| l <= t < d && Walk(x, t, |before|) == y {
        assert after[y] == before[y].(flag := false);
      }
    }
  }

  /** The removal of an entry whose slot is flagged lowers none either. */
  lemma RemovalFlags(before: seq<Slot>, after: seq<Slot>, hash: nat, d: nat)
    requires |before| == |after| > 0 && hash > 0 && Left(before, after, hash, d)
    requires before[Walk(Home(hash, |before|), d, |before|)].flag
    ensures forall y :: 0 <= y < |before| ==> after[y].flag == before[y].flag
  {
    hide Walk, Home;
  }

  lemma OthersFree(slots: seq<Slot>, c: Content, h: nat, y: nat)
    requires Good(slots, c) && c.offsets.Keys == {h} && h in c.depth && h > 0
    requires y < |slots| && y != Place(c, h, |slots|)
    ensures slots[y].offset == 0
  {
    var entry := slots[y];
    assert entry.offset != 0 ==> entry.hash in c.offsets.Keys;
  }

  /** With one entry in the table, a hash whose home is that entry's slot goes one probe on. */
  lemma OneProbeOn(slots: seq<Slot>, c: Content, h: nat, hash: nat, j: nat, k: nat)
    requires Good(slots, c) && |slots| == Pow2(k) && k > 0 && c.offsets.Keys == {h} && hash > 0
    requires h in c.depth && h > 0 && Home(hash, |slots|) == Place(c, h, |slots|)
    requires slots[Walk(Home(hash, |slots|), j, |slots|)].offset == 0
    requires forall i :: 0 <= i < j ==> slots[Walk(Home(hash, |slots|), i, |slots|)].offset != 0
    ensures j == 1
  {
    var n, x := |slots|, Home(hash, |slots|);
    assert Walk(x, 0, n) == x && slots[x].offset != 0;
    Separate(x, 0, 1, k);
    OthersFree(slots, c, h, Walk(x, 1, n));
  }

  /** Two hashes whose home is a given slot. */
  lemma SlotHome(slot: nat, n: nat, k: nat)
    requires slot < n == Pow2(k) && k <= 31
    ensures slot < TWO32 && n < TWO32 && Home(slot + 1, n) == Home(slot + 1 + n, n) == slot
  {
    TopIsPow2();
    Pow2UpTo(k, 31);
    Pow2UpTo(31, 32);
    assert Pow2(32) == 2 * Pow2(31);
    ModUnique(slot, n, 0, slot);
    ModUnique(slot + n, n, 1, slot);
  }

  lemma OneStep(x: nat, n: nat)
    requires x < n
    ensures Walk(x, 0, n) == x && Walk(x, 1, n) == Next(x, n)
  {
  }

  lemma OneEntry(offsets: map<nat, nat>, h: nat)
    requires offsets.Keys == {h}
    ensures |offsets| == 1
  {
    assert |offsets| == |offsets.Keys|;
  }

  /** One turn of the lap: beside the only entry, in slot s of the walk, a second one goes into
      the next slot, and then the first one is removed. Slot s stays flagged. */
  method MoveOn(t: TableIndex, h: nat, slot: nat, ghost i: nat) returns (hash: nat, next: nat)
    requires t.Valid() && t.exponent >= 2 && t.content.offsets.Keys == {h} && 0 < h && h in t.content.depth
    requires slot == Walk(0, i, t.elements) == Place(t.content, h, t.elements)
    modifies t`usedElements, t`content, t.table
    ensures t.Valid() && t.content.offsets.Keys == {hash} && 0 < hash && hash in t.content.depth
    ensures next == Walk(0, i + 1, t.elements) == Place(t.content, hash, t.elements)
    ensures t.Slots()[slot].flag
    ensures forall y :: 0 <= y < t.elements && old(t.Slots())[y].flag ==> t.Slots()[y].flag
  {
    hide Good, Pow2, Home, Next, Walk, Entered, Left;
    ghost var n, before, c := t.elements, t.Slots(), t.content;
    assert n >= 4 by { Pow2UpTo(2, t.exponent); SmallPowers(); }
    hash := if slot + 1 == h then slot + 1 + t.elements else slot + 1;
    SlotHome(slot, n, t.exponent);
    OneEntry(c.offsets, h);
    OneStep(slot, n);
    WalkNext(0, i, n);
    t.Insert(hash, 0);
    ghost var between, c' := t.Slots(), t.content;
    EntryFlags(before, between, hash, 0, c'.depth[hash]);
    OneProbeOn(before, c, h, hash, c'.depth[hash], t.exponent);
    t.Remove(h);
    RemovalFlags(between, t.Slots(), h, c.depth[h]);
    next := Collide(slot, t.elements, t.exponent);
  }

  /** In an empty table an entry goes to its home. */
  lemma FirstPlace(slots: seq<Slot>, c: Content, after: seq<Slot>, hash: nat, j: nat)
    requires Good(slots, c) && c.offsets == map[] && |after| == |slots| && hash > 0
    requires Entered(slots, after, hash, 0, j)
    ensures j == 0
  {
    EntryFlags(slots, after, hash, 0, j);
    assert slots[Walk(Home(hash, |slots|), 0, |slots|)].offset == 0;
  }

  /** An entry in slot 0. */
  method First(t: TableIndex)
    requires t.Valid() && t.exponent >= 2 && t.content.offsets == map[]
    modifies t`usedElements, t`content, t.table
    ensures t.Valid() && t.content.offsets.Keys == {1} && 1 in t.content.depth
    ensures 0 < t.elements && 0 == Walk(0, 0, t.elements) == Place(t.content, 1, t.elements)
  {
    hide Good, Pow2, Home, Next, Walk, Entered;
    ghost var n, empty, none := t.elements, t.Slots(), t.content;
    assert n >= 4 by { Pow2UpTo(2, t.exponent); SmallPowers(); }
    SlotHome(0, n, t.exponent);
    OneStep(0, n);
    t.Insert(1, 0);
    FirstPlace(empty, none, t.Slots(), 1, t.content.depth[1]);
  }

  /** A lap around the table leaves one entry and every slot flagged. */
  method Lap(t: TableIndex) returns (h: nat)
    requires t.Valid() && t.exponent >= 2 && t.content.offsets == map[]
    modifies t`usedElements, t`content, t.table
    ensures t.Valid() && t.content.offsets.Keys == {h} && 0 < h && h in t.content.depth
    ensures forall i :: 0 <= i < t.elements ==> t.Slots()[i].flag
  {
    hide Good, Pow2, Home, Next, Walk;
    ghost var n := t.elements;
    First(t);
    var slot;
    h, slot := 1, 0;
    for i := 0 to t.elements
      invariant t.Valid() && t.content.offsets.Keys == {h} && 0 < h && h in t.content.depth
      invariant slot == Walk(0, i, n) == Place(t.content, h, n)
      invariant forall j :: 0 <= j < i ==> t.Slots()[Walk(0, j, n)].flag
    {
      h, slot := MoveOn(t, h, slot, i);
    }
    forall y | 0 <= y < n
      ensures t.Slots()[y].flag
    {
      var j := MeetsAll(0, y, t.exponent);
    }
  }

  /** From an empty table of any size with room for two entries, insertions and removals, with
      at most two entries at a time, lead to an empty table in which every slot is flagged: no
      look-up of any hash ends. */
  method FlagAll(t: TableIndex)
    requires t.Valid() && t.exponent >= 2 && t.content.offsets == map[]
    modifies t`usedElements, t`content, t.table
    ensures t.Valid() && t.content.offsets == map[]
    ensures forall i :: 0 <= i < t.elements ==> t.Slots()[i].flag
    ensures forall hash: nat, j: nat :: hash > 0 ==> !t.EndsAt(hash, j)
  {
    hide Good, Pow2, Home, Next, Walk, Left;
    var h := Lap(t);
    ghost var slots, d := t.Slots(), t.content.depth[h];
    t.Remove(h);
    RemovalFlags(slots, t.Slots(), h, d);
    NoneEnds(t);
  }

  /** A table of any size with room for two entries, as the constructor makes it, can be brought
      to where no look-up of any hash ends. */
  method Endless(k: nat) returns (t: TableIndex)
    requires 2 <= k <= 31
    ensures fresh(t) && t.Valid() && t.elements == Pow2(k) && t.content.offsets == map[]
    ensures forall hash: nat, j: nat :: hash > 0 ==> !t.EndsAt(hash, j)
  {
    t := new TableIndex(k);
    FlagAll(t);
  }

  lemma NoneEnds(t: TableIndex)
    requires t.Valid() && t.content.offsets == map[] && forall i :: 0 <= i < t.elements ==> t.Slots()[i].flag
    ensures forall hash: nat, j: nat :: hash > 0 ==> !t.EndsAt(hash, j)
  {
    hide Good, Home, Walk, Pow2;
    forall hash: nat, j: nat | hash > 0
      ensures !t.EndsAt(hash, j)
    {
      t.StopsExactly(hash);
    }
  }

  // -------------------------------------------------------------------- runs

  datatype IndexOp = InsertOp(hash: nat, offset: nat) | RemoveOp(hash: nat)

  function Apply(m: map<nat, nat>, op: IndexOp): map<nat, nat> {
    match op
    case InsertOp(hash, offset) => if hash == 0 then m else m[hash := offset]
    case RemoveOp(hash) => m - {hash}
  }

  function Run(ops: seq<IndexOp>): map<nat, nat> {
    if ops == [] then map[] else Apply(Run(ops[..|ops| - 1]), ops[|ops| - 1])
  }

  /** Absent hashes are inserted, while the table is less than half full, and present ones
      removed; hash 0 is neither. */
  predicate Allowed(m: map<nat, nat>, elements: nat, op: IndexOp) {
    match op
    case InsertOp(hash, offset) =>
      hash == 0 || (hash !in m && hash < TWO64 && offset + 1 < TOP64 && |m| < elements / 2)
    case RemoveOp(hash) => hash == 0 || hash in m
  }

  predicate AllAllowed(elements: nat, ops: seq<IndexOp>) {
    forall i :: 0 <= i < |ops| ==> Allowed(Run(ops[..i]), elements, ops[i])
  }

  /** After any such run a new table holds exactly the present hashes with their offsets, and
      looking up any of them ends. */
  method RunOnIndex(k: nat, ops: seq<IndexOp>) returns (t: TableIndex)
    requires k <= 31 && AllAllowed(Pow2(k), ops)
    ensures fresh(t) && t.Valid() && t.elements == Pow2(k) && t.content.offsets == Run(ops)
    ensures forall hash :: hash in Run(ops) ==> t.Stops(hash)
  {
    hide Good, Pow2, Entered, Left;
    t := new TableIndex(k);
    for i := 0 to |ops|
      invariant fresh(t) && fresh(t.table) && t.Valid() && t.elements == Pow2(k)
      invariant t.content.offsets == Run(ops[..i])
    {
      assert ops[..i + 1][..i] == ops[..i];
      assert Allowed(Run(ops[..i]), Pow2(k), ops[i]);
      t.ZeroIsAbsent();
      match ops[i]
      case InsertOp(hash, offset) => t.Insert(hash, offset);
      case RemoveOp(hash) => t.Remove(hash);
    }
    assert ops[..|ops|] == ops;
  }

  lemma FlaggedWord(word: nat)
    requires word < TWO64
    ensures var w := if word < TOP64 then word + TOP64 else word;
            TOP64 <= w < TWO64 && w % TOP64 == word % TOP64
  {
  }

  lemma SettledWord(word: nat, offset: nat)
    requires word < TWO64 && word % TOP64 == 0 && offset + 1 < TOP64
    ensures var w := word + (offset + 1);
            w < TWO64 && w % TOP64 == offset + 1 && (w >= TOP64 <==> word >= TOP64)
  {
  }

  lemma CollideBit(word: nat)
    requires word < TWO64
    ensures var bit := word - word % TOP64;
            bit == (if word >= TOP64 then TOP64 else 0) && bit % TOP64 == 0
  {
  }

  /** Before the end of the walk its last slot is not met. */
  lemma ClearedEnd(x: nat, i: nat, d: nat, k: nat)
    requires x < Pow2(k) && i < d < Pow2(k) && Walk(x, i + 1, Pow2(k)) == Walk(x, d, Pow2(k))
    ensures i + 1 == d
  {
    if i + 1 < d {
      Separate(x, i + 1, d, k);
    }
  }

  lemma RoomAfter(slots: seq<Slot>, c: Content, x: nat, j: nat, k: nat)
    requires Good(slots, c) && |slots| == Pow2(k) && |c.offsets| < |slots| && x < |slots| && j <= |slots|
    requires Passed(slots, x, j)
    ensures j < |slots|
  {
    RoomLeft(slots, c, x, j, k);
  }

  /** One step of the generator, in 32 bits and masked. */
  method Collide(key: nat, n: nat, ghost k: nat) returns (r: nat)
    requires key < n == Pow2(k) && k <= 31
    ensures r == Next(key, n) < n
  {
    ghost var sum := key * COLLISION_MULTIPLIER + COLLISION_INCREMENTER;
    var wide := (key * COLLISION_MULTIPLIER + COLLISION_INCREMENTER) % TWO32;
    TopIsPow2();
    Pow2Divides(k, 32);
    ModMod(sum, n, TWO32);
    Mask(wide, k);
    hide And, Pow2;
    r := And(wide, n - 1);
  }

  method HomeOf(hash: nat, n: nat, ghost k: nat) returns (key: nat)
    requires hash > 0 && n == Pow2(k)
    ensures key == Home(hash, n)
  {
    Mask(hash - 1, k);
    hide And, Pow2;
    key := And(hash - 1, n - 1);
  }
}
