/** The memory pool: a list of pages with free cells, a list of pages without, and a stack of
    free cells in each page. */
module MemoryPool {
  import opened Collections
  import opened PoolPages

  function Arrays(pages: set<Page>): set<array<Cell>> {
    set p | p in pages :: p.freeCells
  }

  /** The free stack of a page holds these cells, each once. */
  ghost predicate StackHolds(p: Page, c: int, cells: set<Cell>)
    reads p`freeCellsSize, p.freeCells
  {
    && 0 <= p.freeCellsSize <= p.freeCells.Length == c
    && Distinct(p.freeCells[..p.freeCellsSize])
    && Elements(p.freeCells[..p.freeCellsSize]) == cells
  }

  /** One page has left a list; the others keep their order. */
  ghost predicate TakenOut(before: seq<Page>, after: seq<Page>, page: Page) {
    exists k :: 0 <= k < |before| && before[k] == page && after == Without(before, k)
  }

  class JackieMemoryPool {
    const cellSizePerPage: int
    const maxFreePages: int
    var usablePage: Page?
    var unUsablePage: Page?
    var mUsablePagesSize: int
    var mUnUsablePagesSize: int
    ghost var usable: seq<Page>    // pages with a free cell, in ring order
    ghost var unusable: seq<Page>  // pages without
    ghost var ledger: Ledger

    ghost predicate ListsOk()
      reads this`usable, this`unusable, this`usablePage, this`unUsablePage, this`mUsablePagesSize, this`mUnUsablePagesSize
      reads usable`next, usable`prev, unusable`next, unusable`prev
    {
      && Ring(usable) && Ring(unusable)
      && mUsablePagesSize == |usable| && mUnUsablePagesSize == |unusable|
      && (usable != [] ==> usablePage == usable[0])
      && (unusable != [] ==> unUsablePage == unusable[0])
    }

    /** The two lists share no page. */
    ghost predicate Apart()
      reads this`usable, this`unusable
    {
      Disjoint(usable, unusable)
    }

    /** The stacks hold what a ledger says, and cells know their page. */
    ghost predicate StacksFor(l: Ledger)
      reads l.free.Keys`freeCellsSize, Arrays(l.free.Keys), l.home.Keys`parentPage
    {
      && (forall p :: p in l.free ==> StackHolds(p, cellSizePerPage, l.free[p]))
      && (forall x :: x in l.home ==> x.parentPage == l.home[x])
      && (forall p, q :: p in l.free && q in l.free && p != q ==> p.freeCells != q.freeCells)
    }

    ghost predicate StacksOk()
      reads this`ledger, ledger.free.Keys`freeCellsSize, Arrays(ledger.free.Keys), ledger.home.Keys`parentPage
    {
      StacksFor(ledger)
    }

    ghost predicate Listed()
      reads this`usable, this`unusable, this`ledger
    {
      ledger.usable == Elements(usable) && ledger.unusable == Elements(unusable)
    }

    ghost predicate Valid()
      reads this, usable, unusable, ledger.free.Keys, Arrays(ledger.free.Keys), ledger.home.Keys
    {
      && 2 <= cellSizePerPage && 0 <= maxFreePages
      && ListsOk() && Apart() && StacksOk() && Listed()
      && Books(ledger, cellSizePerPage, maxFreePages)
    }

    /** Where the page of an outstanding cell is. */
    lemma HomeOf(m: Cell) returns (k: int)
      requires Valid() && m in Outstanding(ledger)
      ensures forall p :: p in usable || p in unusable ==> p in ledger.free
      ensures m in ledger.home && ledger.home[m] in ledger.free && m.parentPage == ledger.home[m]
      ensures m !in ledger.free[ledger.home[m]] && |ledger.free[ledger.home[m]]| == ledger.home[m].freeCellsSize
      ensures ledger.home[m].freeCellsSize > 0 ==> 0 <= k < |usable| && usable[k] == ledger.home[m]
      ensures ledger.home[m].freeCellsSize == 0 ==>
                0 <= k < |unusable| && unusable[k] == ledger.home[m] && ledger.free[ledger.home[m]] == {}
    {
      var p := ledger.home[m];
      StackHeight(p);
      if p.freeCellsSize > 0 {
        k :| 0 <= k < |usable| && usable[k] == p;
      } else {
        k :| 0 <= k < |unusable| && unusable[k] == p;
      }
    }

    lemma HeadHasCells()
      requires Valid() && usable != []
      ensures usable[0] in ledger.free && 0 < usable[0].freeCellsSize <= usable[0].freeCells.Length
    {
      assert usable[0] in ledger.usable;
      StackHeight(usable[0]);
    }

    lemma UsableSize()
      requires ListsOk() && Listed()
      ensures |ledger.usable| == mUsablePagesSize
    {
      DistinctSize(usable);
    }

    /** The pages of the ledger are those of the two lists. */
    lemma Covered()
      requires Valid()
      ensures forall p :: p in ledger.free <==> p in usable || p in unusable
      ensures forall x :: x in ledger.home ==> ledger.home[x] in ledger.free
      ensures forall x :: x in Outstanding(ledger) ==> x in ledger.home && x !in ledger.free[ledger.home[x]]
      ensures forall p :: p in ledger.free ==> (p in usable <==> ledger.free[p] != {})
    {
    }

    constructor (cellsPerPage: int, maxFree: int)
      requires 2 <= cellsPerPage && 0 <= maxFree
      ensures Valid() && Outstanding(ledger) == {} && ledger.free == map[]
      ensures cellSizePerPage == cellsPerPage && maxFreePages == maxFree
    {
      cellSizePerPage := cellsPerPage;
      maxFreePages := maxFree;
      usablePage, unUsablePage := null, null;
      mUsablePagesSize, mUnUsablePagesSize := 0, 0;
      usable, unusable, ledger := [], [], Ledger({}, {}, map[], map[]);
      new;
      EmptyIsValid();
    }

    /** A page with all its cells free, linked to itself. */
    method InitPage() returns (page: Page)
      requires 2 <= cellSizePerPage
      ensures fresh(page) && fresh(page.freeCells) && forall x :: x in page.cell ==> fresh(x)
      ensures |page.cell| == page.freeCells.Length == page.freeCellsSize == cellSizePerPage
      ensures Distinct(page.cell) && page.freeCells[..] == page.cell
      ensures forall x :: x in page.cell ==> x.parentPage == page
      ensures page.next == page && page.prev == page
    {
      var cells: seq<Cell> := [];
      while |cells| < cellSizePerPage
        invariant |cells| <= cellSizePerPage && Distinct(cells)
        invariant forall i :: 0 <= i < |cells| ==> fresh(cells[i])
      {
        var x := new Cell();
        cells := cells + [x];
      }
      var stack := new Cell[cellSizePerPage](_ => cells[0]);
      page := new Page(cells, stack);
      var i := 0;
      while i < cellSizePerPage
        invariant 0 <= i <= cellSizePerPage
        invariant forall j :: 0 <= j < i ==> cells[j].parentPage == page && stack[j] == cells[j]
      {
        cells[i].parentPage := page;
        stack[i] := cells[i];
        i := i + 1;
      }
      page.freeCellsSize := cellSizePerPage;
      page.next := page;
      page.prev := page;
      assert stack[..] == cells;
    }

    /** The height of a stack is the number of free cells. */
    lemma StackHeight(p: Page)
      requires StacksOk() && p in ledger.free
      ensures 0 <= p.freeCellsSize == |ledger.free[p]| <= p.freeCells.Length
      ensures p.freeCellsSize > 0 ==> p.freeCells[p.freeCellsSize - 1] in ledger.free[p]
    {
      assert StackHolds(p, cellSizePerPage, ledger.free[p]);
      DistinctSize(p.freeCells[..p.freeCellsSize]);
    }

    /** The cell that was given back to a page last, or the last of a new page. */
    function Top(page: Page): Cell
      requires 0 < page.freeCellsSize <= page.freeCells.Length
      reads page`freeCellsSize, page.freeCells
    {
      page.freeCells[page.freeCellsSize - 1]
    }

    /** Pop a page's free stack; the ledger is the caller's to update. */
    method PopCell(page: Page, ghost l': Ledger, ghost x: Cell)
      returns (result: Cell)
      requires StacksOk() && page in ledger.free && page.freeCellsSize > 0
      requires x == page.freeCells[page.freeCellsSize - 1]
      requires l'.home == ledger.home && l'.free == ledger.free[page := ledger.free[page] - {x}]
      modifies this`ledger, page`freeCellsSize
      ensures StacksOk() && page.freeCellsSize == old(page.freeCellsSize) - 1
      ensures ledger == l' && result == x
    {
      ghost var stack := page.freeCells[..page.freeCellsSize];
      page.freeCellsSize := page.freeCellsSize - 1;
      result := page.freeCells[page.freeCellsSize];
      assert page.freeCells[..page.freeCellsSize] == stack[..|stack| - 1];
      PoppedElements(stack);
      ledger := l';
    }

    /** Push a cell back on its page's free stack. */
    method PushCell(page: Page, x: Cell, ghost l': Ledger)
      requires StacksOk() && ListsOk() && page in ledger.free && page.freeCellsSize < cellSizePerPage && x !in ledger.free[page]
      requires l'.home == ledger.home && l'.free == ledger.free[page := ledger.free[page] + {x}]
      modifies this`ledger, page`freeCellsSize, page.freeCells
      ensures StacksOk() && ListsOk() && page.freeCellsSize == old(page.freeCellsSize) + 1 <= page.freeCells.Length
      ensures Top(page) == x
      ensures ledger == l'
    {
      hide Ring;
      ghost var stack := page.freeCells[..page.freeCellsSize];
      page.freeCells[page.freeCellsSize] := x;
      page.freeCellsSize := page.freeCellsSize + 1;
      assert page.freeCells[..page.freeCellsSize] == stack + [x];
      ledger := l';
    }

    /** Take page k off the usable list; the head moves on if it was the head. */
    method RemoveUsable(page: Page, ghost k: int)
      requires ListsOk() && Apart() && 0 <= k < |usable| && page == usable[k]
      modifies this`mUsablePagesSize, this`usablePage, this`usable, usable`next, usable`prev
      ensures ListsOk() && Apart() && Elements(usable) == Elements(old(usable)) - {page} && usable == Without(old(usable), k)
    {
      hide Distinct, Without, Ring, Disjoint, Elements;
      NextInRing(usable, k);
      DistinctAt(usable, 0, k);
      WithoutHead(usable, k);
      DisjointWithout(usable, unusable, k);
      if page == usablePage {
        usablePage := page.next;
      }
      mUsablePagesSize := mUsablePagesSize - 1;
      ghost var before := usable;
      usable := Without(before, k);
      Unhook(page, before, k, unusable);
    }

    method RemoveUnusable(page: Page, ghost k: int)
      requires ListsOk() && Apart() && 0 <= k < |unusable| && page == unusable[k]
      modifies this`mUnUsablePagesSize, this`unUsablePage, this`unusable, unusable`next, unusable`prev
      ensures ListsOk() && Apart() && Elements(unusable) == Elements(old(unusable)) - {page} && unusable == Without(old(unusable), k)
    {
      hide Distinct, Without, Ring, Disjoint, Elements;
      NextInRing(unusable, k);
      DistinctAt(unusable, 0, k);
      WithoutHead(unusable, k);
      DisjointSwaps(usable, unusable);
      DisjointWithout(unusable, usable, k);
      DisjointSwaps(Without(unusable, k), usable);
      ghost var before := unusable;
      unusable := Without(before, k);
      Unhook(page, before, k, usable);
      mUnUsablePagesSize := mUnUsablePagesSize - 1;
      if mUnUsablePagesSize > 0 && page == unUsablePage {
        unUsablePage := unUsablePage.next;
      }
    }

    /** Put a page at the end of the unusable list. */
    method AppendUnusable(page: Page)
      requires ListsOk() && Apart() && page !in usable && page !in unusable
      modifies this`mUnUsablePagesSize, this`unUsablePage, this`unusable, unusable`next, unusable`prev, page`next, page`prev
      ensures ListsOk() && Apart() && unusable == old(unusable) + [page]
    {
      if mUnUsablePagesSize == 0 {
        unUsablePage := page;
        page.next := page;
        page.prev := page;
      } else {
        HookBefore(page, unUsablePage, unusable, usable);
      }
      mUnUsablePagesSize := mUnUsablePagesSize + 1;
      unusable := unusable + [page];
      assert forall i :: 0 <= i < |usable| ==> usable[i] !in unusable;
    }

    method AppendUsable(page: Page)
      requires ListsOk() && Apart() && page !in usable && page !in unusable
      modifies this`mUsablePagesSize, this`usablePage, this`usable, usable`next, usable`prev, page`next, page`prev
      ensures ListsOk() && Apart() && usable == old(usable) + [page]
    {
      if mUsablePagesSize == 0 {
        usablePage := page;
        page.next := page;
        page.prev := page;
      } else {
        HookBefore(page, usablePage, usable, unusable);
      }
      mUsablePagesSize := mUsablePagesSize + 1;
      usable := usable + [page];
      assert forall i :: 0 <= i < |unusable| ==> unusable[i] !in usable;
    }

    /** Move a usable page to the end of the unusable list. */
    method MoveToUnusable(page: Page, ghost k: int)
      requires StacksOk() && ListsOk() && Apart() && 0 <= k < |usable| && page == usable[k]
      modifies this`mUsablePagesSize, this`usablePage, this`usable, usable`next, usable`prev
      modifies this`mUnUsablePagesSize, this`unUsablePage, this`unusable, unusable`next, unusable`prev
      ensures StacksOk() && ListsOk() && Apart()
      ensures Elements(usable) == old(Elements(usable)) - {page} && Elements(unusable) == old(Elements(unusable)) + {page}
      ensures usable == Without(old(usable), k) && unusable == old(unusable) + [page]
    {
      hide ListsOk, Ring;
      RemoveUsable(page, k);
      assert page !in usable by { assert page !in Elements(usable); }
      AppendUnusable(page);
      StacksStay();
    }

    /** Move an unusable page to the end of the usable list. */
    method MoveToUsable(page: Page, ghost k: int)
      requires StacksOk() && ListsOk() && Apart() && 0 <= k < |unusable| && page == unusable[k]
      modifies this`mUsablePagesSize, this`usablePage, this`usable, usable`next, usable`prev
      modifies this`mUnUsablePagesSize, this`unUsablePage, this`unusable, unusable`next, unusable`prev
      ensures StacksOk() && ListsOk() && Apart()
      ensures Elements(usable) == old(Elements(usable)) + {page} && Elements(unusable) == old(Elements(unusable)) - {page}
      ensures usable == old(usable) + [page] && unusable == Without(old(unusable), k)
    {
      hide ListsOk, Ring;
      RemoveUnusable(page, k);
      assert page !in unusable by { assert page !in Elements(unusable); }
      AppendUsable(page);
      StacksStay();
    }

    twostate lemma StacksStay()
      requires old(StacksOk()) && unchanged(this`ledger)
      requires forall p :: p in ledger.free ==>
                 p.freeCellsSize == old(p.freeCellsSize) && p.freeCells[..] == old(p.freeCells[..])
      requires forall x :: x in ledger.home ==> x.parentPage == old(x.parentPage)
      ensures StacksOk()
    {
      assert forall p :: p in ledger.free ==>
          0 <= p.freeCellsSize <= p.freeCells.Length
          && p.freeCells[..p.freeCellsSize] == p.freeCells[..][..p.freeCellsSize] == old(p.freeCells[..p.freeCellsSize]);
    }

    /** Allocate from a page that keeps a free cell. */
    method TakeOne(currentPage: Page) returns (result: Cell)
      requires Valid() && currentPage in usable && currentPage.freeCellsSize > 1
      modifies this`ledger, currentPage`freeCellsSize
      ensures Valid() && ledger.free.Keys == old(ledger.free.Keys)
      ensures result !in Outstanding(old(ledger)) && Outstanding(ledger) == Outstanding(old(ledger)) + {result}
      ensures result == old(currentPage.freeCells[currentPage.freeCellsSize - 1])
    {
      hide Books, Ring, Distinct, Outstanding, StackHolds;
      Covered();
      StackHeight(currentPage);
      ghost var x := currentPage.freeCells[currentPage.freeCellsSize - 1];
      TakeKeeps(ledger, cellSizePerPage, maxFreePages, currentPage, x);
      result := PopCell(currentPage, Taken(ledger, currentPage, x), x);
    }

    /** Allocate the last free cell of the first usable page. */
    method TakeLast(currentPage: Page) returns (result: Cell)
      requires Valid() && usable != [] && currentPage == usable[0] && currentPage.freeCellsSize == 1
      modifies this, ledger.free.Keys
      ensures Valid() && ledger.free.Keys == old(ledger.free.Keys)
      ensures result !in Outstanding(old(ledger)) && Outstanding(ledger) == Outstanding(old(ledger)) + {result}
      ensures result == old(currentPage.freeCells[0])
      ensures usable == old(usable)[1..] && unusable == old(unusable) + [currentPage]
    {
      hide Books, Ring, Distinct, Outstanding;
      Covered();
      StackHeight(currentPage);
      ghost var x := currentPage.freeCells[currentPage.freeCellsSize - 1];
      OnlyElement(currentPage.freeCells[..currentPage.freeCellsSize], x);
      TakeMoves(ledger, cellSizePerPage, maxFreePages, currentPage, x);
      result := Drain(currentPage);
    }

    method Drain(currentPage: Page) returns (result: Cell)
      requires StacksOk() && ListsOk() && Apart() && Listed()
      requires usable != [] && currentPage == usable[0] && currentPage in ledger.free && currentPage.freeCellsSize == 1
      requires ledger.free[currentPage] == {currentPage.freeCells[0]}
      modifies this`mUsablePagesSize, this`usablePage, this`usable, usable`next, usable`prev
      modifies this`mUnUsablePagesSize, this`unUsablePage, this`unusable, unusable`next, unusable`prev
      modifies this`ledger, currentPage`freeCellsSize
      ensures StacksOk() && ListsOk() && Apart() && Listed()
      ensures ledger == TakenLast(old(ledger), currentPage) && result == old(currentPage.freeCells[0])
      ensures usable == old(usable)[1..] && unusable == old(unusable) + [currentPage]
    {
      hide Ring, Distinct;
      ghost var x := currentPage.freeCells[0];
      assert ledger.free[currentPage] - {x} == {};
      result := PopCell(currentPage, TakenLast(ledger, currentPage), x);
      MoveToUnusable(currentPage, 0);
      assert Without(old(usable), 0) == old(usable)[1..];
    }

    /** Take a free cell: the top one of the first usable page, which goes to the end of the other
        list when it was its last. A new page is made only when no page has a free cell. */
    method Allocate() returns (result: Cell)
      requires Valid()
      modifies this, ledger.free.Keys
      ensures Valid()
      ensures result !in Outstanding(old(ledger)) && Outstanding(ledger) == Outstanding(old(ledger)) + {result}
      ensures old(usable) != [] ==>
                && ledger.free.Keys == old(ledger.free.Keys)
                && 0 < old(usable[0].freeCellsSize) <= old(usable[0].freeCells.Length) && result == old(Top(usable[0]))
                && if old(usable[0].freeCellsSize) > 1 then usable == old(usable) && unusable == old(unusable)
                   else usable == old(usable)[1..] && unusable == old(unusable) + [old(usable[0])]
      ensures old(usable) == [] ==>
                && |usable| == 1 && unusable == old(unusable) && ledger.free.Keys == old(ledger.free.Keys) + {usable[0]}
                && fresh(usable[0]) && fresh(usable[0].freeCells) && fresh(ledger.home.Keys - old(ledger.home.Keys))
    {
      hide Books, Ring, Distinct, StackHolds, Outstanding;
      if mUsablePagesSize > 0 {
        HeadHasCells();
        var currentPage := usablePage;
        if currentPage.freeCellsSize - 1 == 0 {
          result := TakeLast(currentPage);
        } else {
          result := TakeOne(currentPage);
        }
        return;
      }
      result := TakeFromNew();
    }

    method TakeFromNew() returns (result: Cell)
      requires Valid() && usable == []
      modifies this
      ensures Valid()
      ensures result !in Outstanding(old(ledger)) && Outstanding(ledger) == Outstanding(old(ledger)) + {result}
      ensures && |usable| == 1 && unusable == old(unusable) && ledger.free.Keys == old(ledger.free.Keys) + {usable[0]}
              && fresh(usable[0]) && fresh(usable[0].freeCells) && fresh(ledger.home.Keys - old(ledger.home.Keys))
    {
      hide Books, Outstanding, Ring, StackHolds;
      Covered();
      var page := InitPage();
      ghost var x := page.cell[cellSizePerPage - 1];
      DistinctSize(page.cell);
      TakeNew(ledger, cellSizePerPage, maxFreePages, page, Elements(page.cell), x);
      result := OpenPage(page);
    }

    /** Make a new page the only usable one and hand out its last cell. */
    method OpenPage(page: Page) returns (result: Cell)
      requires ListsOk() && Apart() && StacksOk() && Listed() && usable == [] && page !in unusable
      requires page !in ledger.free && page.freeCells !in Arrays(ledger.free.Keys)
      requires |page.cell| == page.freeCells.Length == page.freeCellsSize == cellSizePerPage >= 2
      requires Distinct(page.cell) && page.freeCells[..] == page.cell && page.next == page && page.prev == page
      requires forall x :: x in page.cell ==> x.parentPage == page && x !in ledger.home
      modifies this`usablePage, this`mUsablePagesSize, this`usable, this`ledger, page`freeCellsSize
      ensures ListsOk() && Apart() && StacksOk() && Listed() && usable == [page]
      ensures result == page.cell[cellSizePerPage - 1]
      ensures ledger == TakenNew(old(ledger), page, Elements(page.cell), result)
    {
      hide Ring, Distinct, StackHolds;
      ghost var before := ledger;
      assert Ring([page]) by { Alone(page); }
      usablePage := page;
      mUsablePagesSize := 1;
      usable := [page];
      page.freeCellsSize := page.freeCellsSize - 1;
      result := page.freeCells[page.freeCellsSize];
      ledger := TakenNew(ledger, page, Elements(page.cell), result);
      StacksWithNew(before, page, result);
    }

    lemma StacksWithNew(before: Ledger, page: Page, x: Cell)
      requires StacksFor(before) && page !in before.free && page.freeCells !in Arrays(before.free.Keys)
      requires |page.cell| == page.freeCells.Length == page.freeCellsSize + 1 == cellSizePerPage >= 2
      requires Distinct(page.cell) && page.freeCells[..] == page.cell && x == page.cell[cellSizePerPage - 1]
      requires forall y :: y in page.cell ==> y.parentPage == page && y !in before.home
      ensures StacksFor(TakenNew(before, page, Elements(page.cell), x))
    {
      PoppedElements(page.cell);
      hide Distinct;
      var after := TakenNew(before, page, Elements(page.cell), x);
      assert page.freeCells[..page.freeCellsSize] == page.cell[..cellSizePerPage - 1];
      assert StackHolds(page, cellSizePerPage, after.free[page]);
      forall p | p in after.free
        ensures StackHolds(p, cellSizePerPage, after.free[p])
      {
        assert p != page ==> StackHolds(p, cellSizePerPage, before.free[p]);
      }
    }

    /** Reclaim a cell of a page that had no free cell. */
    method GiveToFull(currPage: Page, m: Cell)
      requires Valid() && m in Outstanding(ledger) && currPage == ledger.home[m] && currPage.freeCellsSize == 0
      modifies this, ledger.free.Keys, currPage.freeCells
      ensures Valid() && Outstanding(ledger) == Outstanding(old(ledger)) - {m}
      ensures ledger.free.Keys == old(ledger.free.Keys)
      ensures currPage.freeCellsSize == 1 <= currPage.freeCells.Length && Top(currPage) == m
      ensures usable == old(usable) + [currPage] && TakenOut(old(unusable), unusable, currPage)
    {
      hide Books, Ring, Distinct, Outstanding;
      ghost var k := HomeOf(m);
      GiveMoves(ledger, cellSizePerPage, maxFreePages, currPage, m);
      Refill(currPage, m, k);
    }

    method Refill(currPage: Page, m: Cell, ghost k: int)
      requires StacksOk() && ListsOk() && Apart() && Listed()
      requires 0 <= k < |unusable| && currPage == unusable[k] && currPage in ledger.free
      requires currPage.freeCellsSize == 0 < cellSizePerPage && ledger.free[currPage] == {}
      modifies this`mUsablePagesSize, this`usablePage, this`usable, usable`next, usable`prev
      modifies this`mUnUsablePagesSize, this`unUsablePage, this`unusable, unusable`next, unusable`prev
      modifies this`ledger, currPage`freeCellsSize, currPage.freeCells
      ensures StacksOk() && ListsOk() && Apart() && Listed() && ledger == GivenToFull(old(ledger), currPage, m)
      ensures currPage.freeCellsSize == 1 <= currPage.freeCells.Length && Top(currPage) == m
      ensures usable == old(usable) + [currPage] && TakenOut(old(unusable), unusable, currPage)
    {
      hide Ring, Distinct;
      assert ledger.free[currPage] + {m} == {m};
      PushCell(currPage, m, GivenToFull(ledger, currPage, m));
      hide StacksOk, ListsOk;
      MoveToUsable(currPage, k);
    }

    /** Forget usable page k, all of whose cells are free. */
    method GiveUpPage(page: Page, ghost k: int)
      requires StacksOk() && ListsOk() && Apart() && Listed() && 0 <= k < |usable| && page == usable[k]
      modifies this`mUsablePagesSize, this`usablePage, this`usable, this`ledger, usable`next, usable`prev
      ensures StacksOk() && ListsOk() && Apart() && Listed() && ledger == GivenUp(old(ledger), page)
      ensures usable == Without(old(usable), k)
    {
      hide Ring, ListsOk;
      RemoveUsable(page, k);
      StacksStay();
      ledger := GivenUp(ledger, page);
    }

    /** Reclaim a cell of a usable page. */
    method GiveToUsable(currPage: Page, m: Cell)
      requires Valid() && m in Outstanding(ledger) && currPage == ledger.home[m] && currPage.freeCellsSize > 0
      modifies this, ledger.free.Keys, currPage.freeCells
      ensures Valid() && Outstanding(ledger) == Outstanding(old(ledger)) - {m} && unusable == old(unusable)
      ensures if old(currPage.freeCellsSize) + 1 == cellSizePerPage && |old(usable)| > maxFreePages then
                ledger.free.Keys == old(ledger.free.Keys) - {currPage} && TakenOut(old(usable), usable, currPage)
              else
                && ledger.free.Keys == old(ledger.free.Keys) && usable == old(usable)
                && currPage.freeCellsSize == old(currPage.freeCellsSize) + 1 <= currPage.freeCells.Length && Top(currPage) == m
    {
      hide Books, Ring, Distinct, Outstanding, Back;
      ghost var k := HomeOf(m);
      assert |ledger.usable| == mUsablePagesSize by { UsableSize(); }
      GiveBack(ledger, cellSizePerPage, maxFreePages, currPage, m);
      GiveOrDrop(currPage, m, k);
    }

    method GiveOrDrop(currPage: Page, m: Cell, ghost k: int)
      requires StacksOk() && ListsOk() && Apart() && Listed() && 0 <= k < |usable| && currPage == usable[k]
      requires currPage in ledger.free && currPage.freeCellsSize == |ledger.free[currPage]| < cellSizePerPage
      requires m !in ledger.free[currPage] && |ledger.usable| == mUsablePagesSize
      modifies this`mUsablePagesSize, this`usablePage, this`usable, this`ledger
      modifies usable`next, usable`prev, currPage`freeCellsSize, currPage.freeCells
      ensures StacksOk() && ListsOk() && Apart() && Listed()
      ensures ledger == Back(old(ledger), currPage, m, cellSizePerPage, maxFreePages) && unusable == old(unusable)
      ensures if old(currPage.freeCellsSize) + 1 == cellSizePerPage && |old(usable)| > maxFreePages then
                ledger.free.Keys == old(ledger.free.Keys) - {currPage} && TakenOut(old(usable), usable, currPage)
              else
                && ledger.free.Keys == old(ledger.free.Keys) && usable == old(usable)
                && currPage.freeCellsSize == old(currPage.freeCellsSize) + 1 <= currPage.freeCells.Length && Top(currPage) == m
    {
      hide Ring, Distinct;
      ghost var before := ledger;
      PushCell(currPage, m, Given(ledger, currPage, m));
      hide StacksOk;
      if currPage.freeCellsSize == cellSizePerPage && mUsablePagesSize > maxFreePages {
        GivenThenUp(before, currPage, m);
        GiveUpPage(currPage, k);
      }
    }

    /** Give an outstanding cell back, on top of its page's stack. A page that had no free cell goes
        to the end of the usable list; one whose cells are all back is given up if more than
        maxFreePages pages are usable. */
    method Reclaim(m: Cell)
      requires Valid() && m in Outstanding(ledger)
      modifies this, ledger.free.Keys, m.parentPage.freeCells
      ensures Valid() && Outstanding(ledger) == Outstanding(old(ledger)) - {m} && m.parentPage == old(m.parentPage)
      ensures var page := m.parentPage;
              if old(m.parentPage.freeCellsSize) + 1 == cellSizePerPage && |old(usable)| > maxFreePages then
                && ledger.free.Keys == old(ledger.free.Keys) - {page}
                && TakenOut(old(usable), usable, page) && unusable == old(unusable)
              else
                && ledger.free.Keys == old(ledger.free.Keys)
                && page.freeCellsSize == old(m.parentPage.freeCellsSize) + 1 <= page.freeCells.Length && Top(page) == m
                && if old(m.parentPage.freeCellsSize) == 0 then usable == old(usable) + [page] && TakenOut(old(unusable), unusable, page)
                   else usable == old(usable) && unusable == old(unusable)
    {
      var currPage := m.parentPage;
      if currPage.freeCellsSize == 0 {
        GiveToFull(currPage, m);
      } else {
        GiveToUsable(currPage, m);
      }
    }

    lemma EmptyIsValid()
      requires 2 <= cellSizePerPage && 0 <= maxFreePages && usable == [] && unusable == []
      requires mUsablePagesSize == 0 && mUnUsablePagesSize == 0 && ledger == Ledger({}, {}, map[], map[])
      ensures Valid()
    {
      assert FullPages(ledger, cellSizePerPage) == {};
    }

    /** Free the pages of both lists; each is visited once, in ring order. */
    method Clear() returns (ghost freed: seq<Page>)
      requires Valid()
      modifies this
      ensures Valid() && ledger == Ledger({}, {}, map[], map[])
      ensures freed == old(usable) + old(unusable)
    {
      hide Books, StacksOk, Listed, Apart;
      freed := [];
      if mUsablePagesSize > 0 {
        var currentPage := usablePage;
        while true
          invariant 0 <= |freed| < |usable| && freed == usable[..|freed|] && currentPage == usable[|freed|]
          invariant unchanged(this)
          decreases |usable| - |freed|
        {
          freed := freed + [currentPage];
          assert currentPage.next == usable[Succ(|freed| - 1, |usable|)];
          currentPage := currentPage.next;
          if currentPage == usablePage {
            mUsablePagesSize := 0;
            break;
          }
        }
      }
      ghost var first := freed;
      assert first == usable;
      if mUnUsablePagesSize > 0 {
        var currentPage := unUsablePage;
        ghost var seen: seq<Page> := [];
        while true
          invariant 0 <= |seen| < |unusable| && seen == unusable[..|seen|] && currentPage == unusable[|seen|]
          invariant freed == first + seen
          invariant unchanged(this`unusable) && unchanged(this`unUsablePage) && unchanged(this`usable)
          invariant mUsablePagesSize == 0
          decreases |unusable| - |seen|
        {
          freed := freed + [currentPage];
          seen := seen + [currentPage];
          assert currentPage.next == unusable[Succ(|seen| - 1, |unusable|)];
          currentPage := currentPage.next;
          if currentPage == unUsablePage {
            mUnUsablePagesSize := 0;
            break;
          }
        }
      }
      usable, unusable, ledger := [], [], Ledger({}, {}, map[], map[]);
      EmptyIsValid();
    }

    /** The lists hold exactly the pages with some, and with no, free cell, and few pages are
        entirely free. */
    lemma PagesByFreeCells()
      requires Valid()
      ensures forall p :: p in usable <==> p in ledger.free && p.freeCellsSize > 0
      ensures forall p :: p in unusable <==> p in ledger.free && p.freeCellsSize == 0
      ensures |set p | p in ledger.free && p.freeCellsSize == cellSizePerPage| <= maxFreePages
    {
      hide Ring, Distinct;
      forall p | p in ledger.free
        ensures p.freeCellsSize == |ledger.free[p]|
      {
        StackHeight(p);
      }
      assert (set p | p in ledger.free && p.freeCellsSize == cellSizePerPage) == FullPages(ledger, cellSizePerPage);
    }

    /** The usable list is empty, so that the next Allocate makes a page, exactly when every
        cell of every page is outstanding. */
    lemma NewPageWhenAllOut()
      requires Valid()
      ensures usable == [] <==> Outstanding(ledger) == ledger.home.Keys
    {
      hide Ring, Distinct, StackHolds;
      if usable != [] {
        var x :| x in ledger.free[usable[0]];
        assert x in CellsOf(ledger, usable[0]);
      }
    }

    /** Free plus outstanding cells are cells per page times pages. */
    lemma Conservation()
      requires Valid()
      ensures FreeTotal(usable + unusable, ledger) + |Outstanding(ledger)|
              == cellSizePerPage * (mUsablePagesSize + mUnUsablePagesSize)
    {
      var pages := usable + unusable;
      DistinctAppend(usable, unusable);
      CellsOfPages(pages, ledger, cellSizePerPage, maxFreePages);
      assert OutOf(pages, ledger) == Outstanding(ledger);
    }
  }

  lemma Alone(p: Page)
    requires p.next == p && p.prev == p
    ensures Ring([p])
  {
  }
}
