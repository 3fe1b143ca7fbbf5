/** Pages, rings of pages and the bookkeeping of a pool of cells. */
module PoolPages {
  import opened Collections

  class Cell {
    var parentPage: Page?

    constructor ()
      ensures parentPage == null
    {
      parentPage := null;
    }
  }

  class Page {
    const cell: seq<Cell>
    const freeCells: array<Cell>
    var freeCellsSize: int
    var next: Page?
    var prev: Page?

    constructor (cells: seq<Cell>, stack: array<Cell>)
      ensures cell == cells && freeCells == stack && freeCellsSize == 0
    {
      cell := cells;
      freeCells := stack;
      freeCellsSize := 0;
      next := null;
      prev := null;
    }
  }

  function Succ(i: int, n: int): int {
    if i + 1 < n then i + 1 else 0
  }

  function Pred(i: int, n: int): int {
    if i > 0 then i - 1 else n - 1
  }

  /** s is a well-formed circular doubly linked list. */
  ghost predicate Ring(s: seq<Page>)
    reads s`next, s`prev
  {
    && Distinct(s)
    && (forall i {:trigger s[i].next} :: 0 <= i < |s| ==> s[i].next == s[Succ(i, |s|)])
    && (forall i {:trigger s[i].prev} :: 0 <= i < |s| ==> s[i].prev == s[Pred(i, |s|)])
  }

  /** Take page k out of its ring; a ring of other pages stays one. */
  method Unhook(page: Page, ghost s: seq<Page>, ghost k: int, ghost other: seq<Page>)
    requires Ring(s) && 0 <= k < |s| && page == s[k] && Ring(other) && Disjoint(s, other)
    modifies s`next, s`prev
    ensures Ring(Without(s, k)) && page.next == old(page.next) && Ring(other)
  {
    hide Ring, RingLinks, Joined;
    ghost var before, others := Links(s), Links(other);
    RingMakesLinks(s, k);
    RingHasLinks(other);
    Bypass(page, s, k);
    JoinedRing(s, k, before);
    OthersKeepLinks(s, other);
    assert Links(other) == others;
    LinksMakeRing(other);
  }

  method Bypass(page: Page, ghost s: seq<Page>, ghost k: int)
    requires 0 <= k < |s| && page == s[k] && page.next == s[Succ(k, |s|)] && page.prev == s[Pred(k, |s|)]
    modifies s`next, s`prev
    ensures Links(s) == Joined(s, k, old(Links(s))) && page.next == old(page.next)
  {
    page.next.prev := page.prev;
    page.prev.next := page.next;
  }

  lemma OthersKeepLinks(s: seq<Page>, other: seq<Page>)
    requires Disjoint(s, other)
    ensures forall i :: 0 <= i < |other| ==> other[i] !in s
  {
  }

  lemma NextInRing(s: seq<Page>, k: int)
    requires Ring(s) && 0 <= k < |s|
    ensures s[k].next == s[Succ(k, |s|)] && Distinct(s)
  {
  }

  lemma RingHasLinks(s: seq<Page>)
    requires Ring(s)
    ensures RingLinks(s, Links(s))
  {
  }

  lemma RingMakesLinks(s: seq<Page>, k: int)
    requires Ring(s) && 0 <= k < |s|
    ensures s[k].next == s[Succ(k, |s|)] && s[k].prev == s[Pred(k, |s|)] && RingLinks(s, Links(s))
  {
  }

  lemma JoinedRing(s: seq<Page>, k: int, before: seq<Link>)
    requires RingLinks(s, before) && 0 <= k < |s| && Links(s) == Joined(s, k, before)
    ensures Ring(Without(s, k))
  {
    WithoutLinks(s, k, before);
    WithoutRing(s, k);
  }

  /** The links after the neighbours of page k have been linked to each other. */
  function Joined(s: seq<Page>, k: int, links: seq<Link>): seq<Link>
    requires 0 <= k < |s| == |links|
  {
    seq(|s|, i requires 0 <= i < |s| =>
      Link(if s[i] == s[Pred(k, |s|)] then s[Succ(k, |s|)] else links[i].next,
           if s[i] == s[Succ(k, |s|)] then s[Pred(k, |s|)] else links[i].prev))
  }

  lemma WithoutRing(s: seq<Page>, k: int)
    requires 0 <= k < |s| && RingLinks(Without(s, k), Without(Links(s), k))
    ensures Ring(Without(s, k))
  {
    var t := Without(s, k);
    forall i | 0 <= i < |t|
      ensures Links(t)[i] == Without(Links(s), k)[i]
    {
      assert t[i] == s[if i < k then i else i + 1];
    }
    assert Links(t) == Without(Links(s), k);
    LinksMakeRing(t);
  }

  lemma LinksMakeRing(s: seq<Page>)
    requires RingLinks(s, Links(s))
    ensures Ring(s)
  {
    forall i | 0 <= i < |s|
      ensures s[i].next == s[Succ(i, |s|)] && s[i].prev == s[Pred(i, |s|)]
    {
      assert Links(s)[i] == Link(s[Succ(i, |s|)], s[Pred(i, |s|)]);
    }
  }

  /** The links of the pages of a list, as values. */
  datatype Link = Link(next: Page?, prev: Page?)

  ghost function Links(s: seq<Page>): (links: seq<Link>)
    reads s
    ensures |links| == |s| && forall i :: 0 <= i < |s| ==> links[i] == Link(s[i].next, s[i].prev)
  {
    seq(|s|, i requires 0 <= i < |s| reads s => Link(s[i].next, s[i].prev))
  }

  ghost predicate RingLinks(s: seq<Page>, links: seq<Link>) {
    && Distinct(s) && |links| == |s|
    && (forall i :: 0 <= i < |s| ==> links[i] == Link(s[Succ(i, |s|)], s[Pred(i, |s|)]))
  }

  /** Joining the neighbours of page k makes a ring of the others. */
  lemma WithoutLinks(s: seq<Page>, k: int, links: seq<Link>)
    requires RingLinks(s, links) && 0 <= k < |s|
    ensures RingLinks(Without(s, k), Without(Joined(s, k, links), k))
  {
    WithoutDistinct(s, k);
    var links' := Joined(s, k, links);
    forall i | 0 <= i < |s| && i != k
      ensures links'[i] == Link(if i == Pred(k, |s|) then s[Succ(k, |s|)] else links[i].next,
                                if i == Succ(k, |s|) then s[Pred(k, |s|)] else links[i].prev)
    {
      assert s[i] == s[Pred(k, |s|)] <==> i == Pred(k, |s|);
      assert s[i] == s[Succ(k, |s|)] <==> i == Succ(k, |s|);
    }
    SkippedLinks(s, k, links, links');
  }

  lemma SkippedLinks(s: seq<Page>, k: int, links: seq<Link>, links': seq<Link>)
    requires RingLinks(s, links) && 0 <= k < |s| && |links'| == |s| && Distinct(Without(s, k))
    requires forall i :: 0 <= i < |s| && i != k ==>
                links'[i] == Link(if i == Pred(k, |s|) then s[Succ(k, |s|)] else links[i].next,
                                  if i == Succ(k, |s|) then s[Pred(k, |s|)] else links[i].prev)
    ensures RingLinks(Without(s, k), Without(links', k))
  {
    var t := Without(s, k);
    forall i | 0 <= i < |t|
      ensures Without(links', k)[i] == Link(t[Succ(i, |t|)], t[Pred(i, |t|)])
    {
      NeighboursWithout(s, k, i);
      assert Without(links', k)[i] == links'[if i < k then i else i + 1];
    }
  }

  /** Neighbours in the shorter list, by index in the longer one. */
  lemma NeighboursWithout(s: seq<Page>, k: int, i: int)
    requires 0 <= k < |s| && 0 <= i < |s| - 1
    ensures var t, n, j := Without(s, k), |s|, if i < k then i else i + 1;
            && t[i] == s[j]
            && t[Succ(i, n - 1)] == (if j == Pred(k, n) then s[Succ(k, n)] else s[Succ(j, n)])
            && t[Pred(i, n - 1)] == (if j == Succ(k, n) then s[Pred(k, n)] else s[Pred(j, n)])
  {
  }

  /** Put a page in front of the head, which is the end of the ring. */
  method HookBefore(page: Page, head: Page, ghost s: seq<Page>, ghost other: seq<Page>)
    requires Ring(s) && s != [] && head == s[0] && page !in s
    requires Ring(other) && page !in other && Disjoint(s, other)
    modifies s`next, s`prev, page`next, page`prev
    ensures Ring(s + [page]) && Ring(other)
  {
    hide Ring, RingLinks;
    ghost var others := Links(other);
    RingHasLinks(other);
    HookLast(page, head, s);
    OthersKeepLinks(s, other);
    assert Links(other) == others;
    LinksMakeRing(other);
  }

  method HookLast(page: Page, head: Page, ghost s: seq<Page>)
    requires Ring(s) && s != [] && head == s[0] && page !in s
    modifies s`next, s`prev, page`next, page`prev
    ensures Ring(s + [page])
  {
    assert head.prev == s[Pred(0, |s|)];
    page.next := head;
    page.prev := head.prev;
    head.prev.next := page;
    head.prev := page;
  }

  // ------------------------------------------------------------- bookkeeping

  /** The pages with a free cell and those without, the free cells of each page, and the
      page of each cell. */
  datatype Ledger = Ledger(usable: set<Page>, unusable: set<Page>, free: map<Page, set<Cell>>, home: map<Cell, Page>)

  ghost function CellsOf(l: Ledger, p: Page): set<Cell> {
    set x | x in l.home && l.home[x] == p
  }

  /** The cells handed out and not reclaimed. */
  ghost function Outstanding(l: Ledger): set<Cell> {
    set x | x in l.home && l.home[x] in l.free && x !in l.free[l.home[x]]
  }

  ghost function FullPages(l: Ledger, c: int): set<Page> {
    set p | p in l.usable && p in l.free && |l.free[p]| == c
  }

  ghost predicate Books(l: Ledger, c: int, max: int) {
    && l.usable !! l.unusable && l.free.Keys == l.usable + l.unusable
    && (forall x :: x in l.home ==> l.home[x] in l.free)
    && (forall p :: p in l.free ==> l.free[p] <= CellsOf(l, p) && |CellsOf(l, p)| == c)
    && (forall p :: p in l.usable ==> l.free[p] != {})
    && (forall p :: p in l.unusable ==> l.free[p] == {})
    && |FullPages(l, c)| <= max
  }

  /** Handing out a free cell of a page that keeps another. */
  ghost function Taken(l: Ledger, p: Page, x: Cell): Ledger
    requires p in l.free
  {
    l.(free := l.free[p := l.free[p] - {x}])
  }

  lemma TakeKeeps(l: Ledger, c: int, max: int, p: Page, x: Cell)
    requires Books(l, c, max) && p in l.usable && x in l.free[p] && |l.free[p]| > 1
    ensures x !in Outstanding(l) && Outstanding(Taken(l, p, x)) == Outstanding(l) + {x}
    ensures Books(Taken(l, p, x), c, max)
  {
    var l' := Taken(l, p, x);
    assert forall q :: CellsOf(l', q) == CellsOf(l, q);
    assert |l'.free[p]| == |l.free[p]| - 1;
    SubsetSize(l.free[p], CellsOf(l, p));
    SubsetSize(FullPages(l', c), FullPages(l, c));
  }

  /** Handing out the last free cell of a page. */
  ghost function TakenLast(l: Ledger, p: Page): Ledger {
    Ledger(l.usable - {p}, l.unusable + {p}, l.free[p := {}], l.home)
  }

  lemma TakeMoves(l: Ledger, c: int, max: int, p: Page, x: Cell)
    requires Books(l, c, max) && p in l.usable && l.free[p] == {x} && c >= 2
    ensures x !in Outstanding(l) && Outstanding(TakenLast(l, p)) == Outstanding(l) + {x}
    ensures Books(TakenLast(l, p), c, max)
  {
    assert x in CellsOf(l, p);
    assert forall q :: CellsOf(TakenLast(l, p), q) == CellsOf(l, q);
    SubsetSize(FullPages(TakenLast(l, p), c), FullPages(l, c));
  }

  /** Handing out a cell of a new page. */
  ghost function TakenNew(l: Ledger, p: Page, cells: set<Cell>, x: Cell): Ledger {
    Ledger(l.usable + {p}, l.unusable, l.free[p := cells - {x}], l.home + map y | y in cells :: p)
  }

  lemma TakeNew(l: Ledger, c: int, max: int, p: Page, cells: set<Cell>, x: Cell)
    requires Books(l, c, max) && l.usable == {} && p !in l.free && c >= 2 && 0 <= max
    requires |cells| == c && x in cells && forall y :: y in cells ==> y !in l.home
    ensures x !in Outstanding(l) && Outstanding(TakenNew(l, p, cells, x)) == Outstanding(l) + {x}
    ensures Books(TakenNew(l, p, cells, x), c, max)
  {
    NewCells(l, p, cells, x);
    NewOutstanding(l, p, cells, x);
    NewBooks(l, TakenNew(l, p, cells, x), c, max, p, cells, x);
  }

  lemma NewBooks(l: Ledger, l': Ledger, c: int, max: int, p: Page, cells: set<Cell>, x: Cell)
    requires Books(l, c, max) && l.usable == {} && p !in l.free && c >= 2 && 0 <= max && |cells| == c && x in cells
    requires l'.usable == {p} && l'.unusable == l.unusable && l'.free == l.free[p := cells - {x}]
    requires forall y :: y in l'.home ==> l'.home[y] in l'.free
    requires CellsOf(l', p) == cells && forall q :: q in l.free ==> CellsOf(l', q) == CellsOf(l, q)
    ensures Books(l', c, max)
  {
    assert |cells - {x}| == c - 1 && cells - {x} != {};
    assert FullPages(l', c) == {};
    assert l.unusable == l.free.Keys;
    assert l'.free.Keys == l'.usable + l'.unusable;
    forall q | q in l'.free
      ensures l'.free[q] <= CellsOf(l', q) && |CellsOf(l', q)| == c
    {
      assert q != p ==> l'.free[q] == l.free[q] && CellsOf(l', q) == CellsOf(l, q);
    }
  }

  lemma NewCells(l: Ledger, p: Page, cells: set<Cell>, x: Cell)
    requires forall y :: y in l.home ==> l.home[y] in l.free
    requires p !in l.free && x in cells && forall y :: y in cells ==> y !in l.home
    ensures CellsOf(TakenNew(l, p, cells, x), p) == cells
    ensures forall q :: q in l.free ==> CellsOf(TakenNew(l, p, cells, x), q) == CellsOf(l, q)
  {
    forall q | q in l.free
      ensures CellsOf(TakenNew(l, p, cells, x), q) == CellsOf(l, q)
    {
    }
  }

  lemma NewOutstanding(l: Ledger, p: Page, cells: set<Cell>, x: Cell)
    requires forall y :: y in l.home ==> l.home[y] in l.free
    requires p !in l.free && x in cells && forall y :: y in cells ==> y !in l.home
    ensures Outstanding(TakenNew(l, p, cells, x)) == Outstanding(l) + {x}
  {
  }

  /** Taking a cell back into a page that had no free cell. */
  ghost function GivenToFull(l: Ledger, p: Page, x: Cell): Ledger {
    Ledger(l.usable + {p}, l.unusable - {p}, l.free[p := {x}], l.home)
  }

  lemma GiveMoves(l: Ledger, c: int, max: int, p: Page, x: Cell)
    requires Books(l, c, max) && c >= 2 && p in l.unusable && x in l.home && l.home[x] == p
    ensures Outstanding(GivenToFull(l, p, x)) == Outstanding(l) - {x}
    ensures Books(GivenToFull(l, p, x), c, max)
  {
    var l' := GivenToFull(l, p, x);
    assert forall q :: CellsOf(l', q) == CellsOf(l, q);
    assert |l'.free[p]| == 1;
    SubsetSize(FullPages(l', c), FullPages(l, c));
  }

  /** Taking a cell back into a page that stays usable. */
  ghost function Given(l: Ledger, p: Page, x: Cell): Ledger
    requires p in l.free
  {
    l.(free := l.free[p := l.free[p] + {x}])
  }

  lemma GiveKeeps(l: Ledger, c: int, max: int, p: Page, x: Cell)
    requires Books(l, c, max) && p in l.usable && x in Outstanding(l) && l.home[x] == p
    requires |l.free[p]| + 1 < c || |l.usable| <= max
    ensures Outstanding(Given(l, p, x)) == Outstanding(l) - {x}
    ensures Books(Given(l, p, x), c, max) && Given(l, p, x).free.Keys == l.free.Keys
  {
    var l' := Given(l, p, x);
    assert forall q :: CellsOf(l', q) == CellsOf(l, q);
    assert |l'.free[p]| == |l.free[p]| + 1;
    if |l.free[p]| + 1 < c {
      SubsetSize(FullPages(l', c), FullPages(l, c));
    } else {
      SubsetSize(FullPages(l', c), l.usable);
    }
  }

  lemma HasRoom(l: Ledger, c: int, max: int, p: Page, x: Cell)
    requires Books(l, c, max) && p in l.free && x in Outstanding(l) && l.home[x] == p
    ensures |l.free[p]| < c
  {
    SubsetSize(l.free[p] + {x}, CellsOf(l, p));
  }

  /** Taking back the last missing cell of a page, which is then given up. */
  ghost function GivenUp(l: Ledger, p: Page): Ledger {
    Ledger(l.usable - {p}, l.unusable, l.free - {p}, map x | x in l.home && l.home[x] != p :: l.home[x])
  }

  lemma GiveDrops(l: Ledger, c: int, max: int, p: Page, x: Cell)
    requires Books(l, c, max) && p in l.usable && x in Outstanding(l) && l.home[x] == p && |l.free[p]| + 1 == c
    ensures Outstanding(GivenUp(l, p)) == Outstanding(l) - {x}
    ensures Books(GivenUp(l, p), c, max) && GivenUp(l, p).free.Keys == l.free.Keys - {p}
  {
    DropsOnly(l, c, max, p, x);
    var l' := GivenUp(l, p);
    assert forall q :: q != p ==> CellsOf(l', q) == CellsOf(l, q);
    SubsetSize(FullPages(l', c), FullPages(l, c));
  }

  /** The page's cells are the free ones and the one that comes back. */
  lemma DropsOnly(l: Ledger, c: int, max: int, p: Page, x: Cell)
    requires Books(l, c, max) && p in l.usable && x in Outstanding(l) && l.home[x] == p && |l.free[p]| + 1 == c
    ensures Outstanding(GivenUp(l, p)) == Outstanding(l) - {x}
  {
    SubsetEqual(l.free[p] + {x}, CellsOf(l, p));
    assert forall y :: y in l.home && l.home[y] == p ==> y in CellsOf(l, p);
  }

  lemma GivenThenUp(l: Ledger, p: Page, x: Cell)
    requires p in l.free
    ensures GivenUp(Given(l, p, x), p) == GivenUp(l, p)
  {
    assert GivenUp(Given(l, p, x), p).free == GivenUp(l, p).free;
  }

  /** Taking a cell back into a usable page, which is given up if all its cells are back and
      more than max pages are usable. */
  ghost function Back(l: Ledger, p: Page, x: Cell, c: int, max: int): Ledger
    requires p in l.free
  {
    if |l.free[p]| + 1 == c && |l.usable| > max then GivenUp(l, p) else Given(l, p, x)
  }

  lemma GiveBack(l: Ledger, c: int, max: int, p: Page, x: Cell)
    requires Books(l, c, max) && p in l.usable && x in Outstanding(l) && l.home[x] == p
    ensures Outstanding(Back(l, p, x, c, max)) == Outstanding(l) - {x} && Books(Back(l, p, x, c, max), c, max)
    ensures Back(l, p, x, c, max).free.Keys == l.free.Keys ||
            (Back(l, p, x, c, max).free.Keys == l.free.Keys - {p} && |l.usable| > max)
    ensures |l.free[p]| < c
  {
    HasRoom(l, c, max, p, x);
    if |l.free[p]| + 1 == c && |l.usable| > max {
      GiveDrops(l, c, max, p, x);
    } else {
      GiveKeeps(l, c, max, p, x);
    }
  }

  /** The free cells of some of the pages, and those of their cells that are handed out. */
  ghost function FreeTotal(pages: seq<Page>, l: Ledger): int
    requires forall p :: p in pages ==> p in l.free
  {
    if pages == [] then 0 else FreeTotal(pages[..|pages| - 1], l) + |l.free[pages[|pages| - 1]]|
  }

  ghost function OutOf(pages: seq<Page>, l: Ledger): set<Cell> {
    set x | x in Outstanding(l) && l.home[x] in pages
  }

  /** Free cells and outstanding cells together are all the cells. */
  lemma {:induction false} CellsOfPages(pages: seq<Page>, l: Ledger, c: int, max: int)
    requires Books(l, c, max) && Distinct(pages) && forall p :: p in pages ==> p in l.free
    ensures FreeTotal(pages, l) + |OutOf(pages, l)| == c * |pages|
  {
    hide Books, CellsOf;
    if pages == [] {
      assert OutOf(pages, l) == {};
    } else {
      var n := |pages| - 1;
      CellsOfPages(pages[..n], l, c, max);
      OutOfLast(pages, l, c, max);
      assert c * |pages| == c * n + c;
    }
  }

  lemma OutOfLast(pages: seq<Page>, l: Ledger, c: int, max: int)
    requires Books(l, c, max) && Distinct(pages) && pages != [] && forall p :: p in pages ==> p in l.free
    ensures var n := |pages| - 1;
            |OutOf(pages, l)| == |OutOf(pages[..n], l)| + c - |l.free[pages[n]]|
  {
    var n := |pages| - 1;
    var p := pages[n];
    var out, mine := OutOf(pages[..n], l), CellsOf(l, p) - l.free[p];
    assert CellsOf(l, p) == mine + l.free[p];
    assert OutOf(pages, l) == out + mine;
  }
}
