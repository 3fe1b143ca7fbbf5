/** The record cache: a hash table of search trees over a circular array of slots. */
module BombayTable {
  import opened BombayTrees
  import opened Wrappers

  /** A queue of fixed capacity: a new record pushes out the oldest entry of a full queue. */
  function Push(fifo: seq<Option<int>>, capacity: int, offset: int): seq<Option<int>>
    requires 1 <= capacity
  {
    Rest(fifo, capacity) + [Some(offset)]
  }

  /** What a push leaves of the queue. */
  function Rest(fifo: seq<Option<int>>, capacity: int): seq<Option<int>>
    requires 1 <= capacity
  {
    if |fifo| == capacity then fifo[1..] else fifo
  }

  /** Removing a record leaves an empty entry in its place. */
  function Erase(fifo: seq<Option<int>>, offset: int): seq<Option<int>> {
    seq(|fifo|, i requires 0 <= i < |fifo| => if fifo[i] == Some(offset) then None else fifo[i])
  }

  function QueueOf(entries: seq<Option<int>>, next: int, full: bool): seq<Option<int>>
    requires 0 <= next < |entries|
  {
    if full then entries[next..] + entries[..next] else entries[..next]
  }

  /** Filling the next slot of the circular array pushes onto the queue. */
  lemma FillIsPush(entries: seq<Option<int>>, next: int, full: bool, offset: int)
    requires 0 <= next < |entries|
    ensures var last := next + 1 == |entries|;
            QueueOf(entries[next := Some(offset)], if last then 0 else next + 1, full || last)
            == Push(QueueOf(entries, next, full), |entries|, offset)
  {
  }

  const INVALID_RECORD_OFFSET: int := 0xFFFF_FFFF_FFFF_FFFF

  /** The trees agree with the links and hold each key in the bucket of its hash. */
  ghost predicate TreesOk(ns: seq<CacheNode>, roots: seq<int>, trees: seq<Tree>, hash: int -> int) {
    && |trees| == |roots|
    && (forall b :: 0 <= b < |trees| ==>
          && Rep(ns, roots[b], NULL, trees[b]) && Bst(trees[b])
          && (forall k :: k in Keys(trees[b]) ==> hash(k) == b && k != INVALID_RECORD_OFFSET))
  }

  ghost predicate Linked(ns: seq<CacheNode>, trees: seq<Tree>, hash: int -> int, s: int) {
    0 <= s < |ns| && 0 <= hash(ns[s].offset) < |trees| && s in Slots(trees[hash(ns[s].offset)])
  }

  ghost predicate SameOffsets(ns: seq<CacheNode>, ns': seq<CacheNode>) {
    |ns| == |ns'| && forall s :: 0 <= s < |ns| ==> ns'[s].offset == ns[s].offset
  }

  /** A change inside one bucket's tree leaves the other buckets' trees alone. */
  lemma OtherBuckets(ns: seq<CacheNode>, ns': seq<CacheNode>, roots: seq<int>, roots': seq<int>,
                     trees: seq<Tree>, hash: int -> int, b: int, changed: set<int>, t: Tree)
    requires TreesOk(ns, roots, trees, hash) && 0 <= b < |trees|
    requires |roots'| == |roots| && forall c :: 0 <= c < |roots| && c != b ==> roots'[c] == roots[c]
    requires forall s :: 0 <= s < |ns| && s !in changed ==> |ns| == |ns'| && ns'[s] == ns[s]
    requires |ns| == |ns'|
    requires forall s :: s in changed && Linked(ns, trees, hash, s) ==> hash(ns[s].offset) == b
    requires Rep(ns', roots'[b], NULL, t) && Bst(t)
    requires forall k :: k in Keys(t) ==> hash(k) == b && k != INVALID_RECORD_OFFSET
    ensures TreesOk(ns', roots', trees[b := t], hash)
  {
    forall c | 0 <= c < |trees| && c != b
      ensures Rep(ns', roots'[c], NULL, trees[c])
    {
      RepSlots(ns, roots[c], NULL, trees[c]);
      forall s | s in Slots(trees[c])
        ensures s !in changed
      {
        assert hash(ns[s].offset) == c;
        assert Linked(ns, trees, hash, s);
      }
      RepFrame(ns, ns', roots[c], NULL, trees[c]);
    }
  }

  /** What the links of a linked node say about its place in its tree. */
  lemma PlaceOf(ns: seq<CacheNode>, roots: seq<int>, trees: seq<Tree>, hash: int -> int, n: int)
    requires TreesOk(ns, roots, trees, hash) && Linked(ns, trees, hash, n)
    ensures var key := ns[n].offset;
            var t := trees[hash(key)];
            && key in Keys(t) && Find(t, key) == n
            && Rep(ns, n, ns[n].parent, SubtreeAt(t, key))
            && (t.key == key <==> ns[n].parent == NULL)
            && (t.key != key ==>
                  var p := ns[n].parent;
                  && 0 <= p < |ns| && p in Slots(t) && p !in Slots(SubtreeAt(t, key))
                  && (IsHigher(t, key, false) <==> ns[p].lower != n))
  {
    var key := ns[n].offset;
    var b := hash(key);
    FindOwn(ns, roots[b], NULL, trees[b], n);
    NodeAt(ns, roots[b], NULL, trees[b], key, false);
  }

  /** Once the subtree at n has been joined to x and its parent, or root, points to x,
      the node is out of its tree and everything else is as before. */
  lemma UnlinkedTrees(ns: seq<CacheNode>, ns': seq<CacheNode>, roots: seq<int>, roots': seq<int>,
                      trees: seq<Tree>, hash: int -> int, n: int, x: int)
    requires TreesOk(ns, roots, trees, hash) && Linked(ns, trees, hash, n) && |ns| == |ns'|
    requires var key := ns[n].offset;
             var t := trees[hash(key)];
             var p := ns[n].parent;
             && key in Keys(t)
             && Rep(ns', x, p, Join(SubtreeAt(t, key), IsHigher(t, key, false)))
             && (forall s :: 0 <= s < |ns| && s !in Slots(SubtreeAt(t, key)) && s != p ==> ns'[s] == ns[s])
             && (if p == NULL then roots' == roots[hash(key) := x]
                 else roots' == roots && 0 <= p < |ns| && Adopts(ns[p], ns'[p], IsHigher(t, key, false), x))
    ensures var key := ns[n].offset;
            TreesOk(ns', roots', trees[hash(key) := Unlink(trees[hash(key)], key, false)], hash)
  {
    var key := ns[n].offset;
    var b := hash(key);
    var t := trees[b];
    PlaceOf(ns, roots, trees, hash, n);
    UnlinkRep(ns, ns', roots[b], NULL, t, key, false, x);
    UnlinkKeeps(t, key, false);
    RepSlots(ns, roots[b], NULL, t);
    OtherBuckets(ns, ns', roots, roots', trees, hash, b, Slots(t), Unlink(t, key, false));
  }

  ghost predicate Unlinked(trees: seq<Tree>, n: int) {
    forall b :: 0 <= b < |trees| ==> n !in Slots(trees[b])
  }

  /** Writing to a node that is in no tree changes no tree. */
  lemma UnlinkedFrame(ns: seq<CacheNode>, ns': seq<CacheNode>, roots: seq<int>, trees: seq<Tree>, hash: int -> int, n: int)
    requires TreesOk(ns, roots, trees, hash) && Unlinked(trees, n) && |ns| == |ns'|
    requires forall s :: 0 <= s < |ns| && s != n ==> ns'[s] == ns[s]
    ensures TreesOk(ns', roots, trees, hash)
  {
    forall b | 0 <= b < |trees|
      ensures Rep(ns', roots[b], NULL, trees[b])
    {
      RepFrame(ns, ns', roots[b], NULL, trees[b]);
    }
  }

  /** Once the new node is the root of an empty tree, or a child of the last node of its
      search path, its key is in its tree and everything else is as before. */
  lemma InsertedTrees(ns: seq<CacheNode>, ns': seq<CacheNode>, roots: seq<int>, roots': seq<int>,
                      trees: seq<Tree>, hash: int -> int, offset: int, n: int)
    requires TreesOk(ns, roots, trees, hash) && Unlinked(trees, n) && 0 <= n < |ns| == |ns'|
    requires 0 <= hash(offset) < |trees| && offset != INVALID_RECORD_OFFSET
    requires var t := trees[hash(offset)];
             && offset !in Keys(t)
             && (if t.Leaf? then
                   && roots' == roots[hash(offset) := n]
                   && ns' == ns[n := CacheNode(NULL, NULL, NULL, offset)]
                 else
                   && roots' == roots && 0 <= LastOnPath(t, offset) < |ns|
                   && var h := LastOnPath(t, offset);
                   && n != h
                   && ns' == ns[h := if offset > ns[h].offset then ns[h].(higher := n) else ns[h].(lower := n)]
                               [n := CacheNode(h, NULL, NULL, offset)])
    ensures TreesOk(ns', roots', trees[hash(offset) := Insert(trees[hash(offset)], offset, n)], hash)
  {
    var b := hash(offset);
    var t := trees[b];
    InsertKeeps(t, offset, n);
    if t.Leaf? {
      OtherBuckets(ns, ns', roots, roots', trees, hash, b, {n}, Insert(t, offset, n));
    } else {
      var h := LastOnPath(t, offset);
      LastOnPathIn(t, offset);
      RepSlots(ns, roots[b], NULL, t);
      InsertRep(ns, ns', roots[b], NULL, t, offset, n);
      OtherBuckets(ns, ns', roots, roots', trees, hash, b, {n, h}, Insert(t, offset, n));
    }
  }

  lemma NotLinkedIsUnlinked(ns: seq<CacheNode>, roots: seq<int>, trees: seq<Tree>, hash: int -> int, n: int)
    requires TreesOk(ns, roots, trees, hash) && 0 <= n < |ns| && !Linked(ns, trees, hash, n)
    ensures Unlinked(trees, n)
  {
    forall b | 0 <= b < |trees|
      ensures n !in Slots(trees[b])
    {
      RepSlots(ns, roots[b], NULL, trees[b]);
    }
  }

  /** After unlinking, exactly the one node has left its tree. */
  lemma LinkedAfterUnlink(ns: seq<CacheNode>, ns': seq<CacheNode>, roots: seq<int>, trees: seq<Tree>, trees': seq<Tree>,
                          hash: int -> int, n: int)
    requires TreesOk(ns, roots, trees, hash) && Linked(ns, trees, hash, n) && SameOffsets(ns, ns')
    requires var key := ns[n].offset; trees' == trees[hash(key) := Unlink(trees[hash(key)], key, false)]
    ensures Unlinked(trees', n)
    ensures forall s :: 0 <= s < |ns| && s != n ==> (Linked(ns', trees', hash, s) <==> Linked(ns, trees, hash, s))
  {
    var key := ns[n].offset;
    var b := hash(key);
    PlaceOf(ns, roots, trees, hash, n);
    UnlinkSlots(ns, roots[b], NULL, trees[b], key, false);
    forall c | 0 <= c < |trees|
      ensures n !in Slots(trees'[c])
    {
      RepSlots(ns, roots[c], NULL, trees[c]);
    }
  }

  /** A hint on the search path of an absent offset, after unlinking node n anywhere. */
  lemma HintAfterUnlink(ns: seq<CacheNode>, roots: seq<int>, trees: seq<Tree>, trees': seq<Tree>,
                        hash: int -> int, n: int, offset: int, hint: int)
    requires TreesOk(ns, roots, trees, hash) && Linked(ns, trees, hash, n)
    requires var key := ns[n].offset; trees' == trees[hash(key) := Unlink(trees[hash(key)], key, false)]
    requires 0 <= hash(offset) < |trees| && offset !in Keys(trees[hash(offset)])
    requires hint == NULL || OnPath(trees[hash(offset)], offset, hint)
    ensures offset !in Keys(trees'[hash(offset)])
    ensures hint != NULL && hint != n ==> OnPath(trees'[hash(offset)], offset, hint)
    ensures hint == n && ns[n].parent != NULL ==> OnPath(trees'[hash(offset)], offset, ns[n].parent)
  {
    var key := ns[n].offset;
    var t := trees[hash(key)];
    PlaceOf(ns, roots, trees, hash, n);
    UnlinkKeeps(t, key, false);
    if hash(offset) == hash(key) && hint != NULL {
      if hint == n {
        ParentOnPath(ns, roots[hash(key)], NULL, t, offset, n);
        if ns[n].parent != NULL {
          HintSurvivesUnlink(t, key, false, offset, ns[n].parent);
        }
      } else {
        HintSurvivesUnlink(t, key, false, offset, hint);
      }
    } else if hint == n && hint != NULL {
      SubtreeOnRep(ns, roots[hash(offset)], NULL, trees[hash(offset)], offset, hint);
      RepSlots(ns, roots[hash(offset)], NULL, trees[hash(offset)]);
      assert false;
    }
  }

  lemma LinkedAfterInsert(ns: seq<CacheNode>, ns': seq<CacheNode>, roots: seq<int>, trees: seq<Tree>, trees': seq<Tree>,
                          hash: int -> int, offset: int, n: int)
    requires TreesOk(ns, roots, trees, hash) && 0 <= n < |ns| == |ns'|
    requires 0 <= hash(offset) < |trees| && offset !in Keys(trees[hash(offset)]) && Unlinked(trees, n)
    requires trees' == trees[hash(offset) := Insert(trees[hash(offset)], offset, n)]
    requires ns'[n].offset == offset && forall s :: 0 <= s < |ns| && s != n ==> ns'[s].offset == ns[s].offset
    ensures Linked(ns', trees', hash, n)
    ensures forall s :: 0 <= s < |ns| && s != n ==> (Linked(ns', trees', hash, s) <==> Linked(ns, trees, hash, s))
  {
    InsertKeeps(trees[hash(offset)], offset, n);
  }

  class Table {
    const nodes: array<CacheNode>     // the slots of the cache memory
    const hashTable: array<int>       // roots, as slots or NULL
    const hash: int -> int            // GetHash64(offset) & (size - 1)
    var next: int                     // next slot to use
    var full: bool
    ghost var trees: seq<Tree>

    ghost predicate Shape()
      reads this, nodes, hashTable
    {
      && 1 <= nodes.Length && 0 <= next < nodes.Length
      && (forall o :: 0 <= hash(o) < hashTable.Length)
      && TreesOk(nodes[..], hashTable[..], trees, hash)
    }

    /** A slot in use holds a record: it has been handed out and its offset was not removed. */
    ghost predicate Used(s: int)
      requires 0 <= s < nodes.Length
      reads this, nodes
    {
      (full || s < next) && nodes[s].offset != INVALID_RECORD_OFFSET
    }

    ghost predicate Valid()
      reads this, nodes, hashTable
    {
      && Shape()
      && forall s :: 0 <= s < nodes.Length ==> (Used(s) <==> Linked(nodes[..], trees, hash, s))
    }

    ghost predicate IsLinked(s: int)
      reads this, nodes
    {
      Linked(nodes[..], trees, hash, s)
    }

    /** FindNode. */
    method FindNode(offset: int) returns (node: int)
      requires Shape()
      ensures node == Find(trees[hash(offset)], offset)
      ensures node != NULL <==> offset in Keys(trees[hash(offset)])
      ensures node != NULL ==> 0 <= node < nodes.Length && nodes[node].offset == offset && IsLinked(node)
    {
      var key := hash(offset);
      node := hashTable[key];
      FindWorks(nodes[..], node, NULL, trees[key], offset);
      ghost var t, parent := trees[key], NULL;
      while node != NULL
        invariant Rep(nodes[..], node, parent, t)
        invariant Find(t, offset) == Find(trees[key], offset)
        decreases t
      {
        if nodes[node].offset == offset {
          return;
        } else if offset > nodes[node].offset {
          parent, t := node, t.right;
          node := nodes[node].higher;
        } else {
          parent, t := node, t.left;
          node := nodes[node].lower;
        }
      }
    }

    /** Give a node another parent. */
    method Lift(child: int, parent: int, ghost n: int, ghost tree: Tree)
      requires Rep(nodes[..], child, n, tree) && Bst(tree) && tree.Node?
      modifies nodes
      ensures Rep(nodes[..], child, parent, tree) && 0 <= child < nodes.Length
      ensures nodes[..] == old(nodes[..])[child := old(nodes[child]).(parent := parent)]
    {
      ghost var ns := nodes[..];
      nodes[child] := nodes[child].(parent := parent);
      Reparent(ns, nodes[..], child, n, parent, tree);
    }

    /** The last node of the links to lower ones. */
    method FarLeft(link: int, ghost parent: int, ghost tree: Tree) returns (leftmost: int)
      requires tree.Node? && Rep(nodes[..], link, parent, tree)
      ensures leftmost == Leftmost(tree) && leftmost in Slots(tree) && 0 <= leftmost < nodes.Length
    {
      leftmost := link;
      ghost var t, above := tree, parent;
      while nodes[leftmost].lower != NULL
        invariant t.Node? && Rep(nodes[..], leftmost, above, t) && 0 <= leftmost < nodes.Length
        invariant Leftmost(t) == Leftmost(tree)
        decreases t
      {
        above, t := leftmost, t.left;
        leftmost := nodes[leftmost].lower;
      }
      LeftmostIn(tree);
    }

    /** What takes the place of an unlinked lower child or root with subtree u: an only child, or
        the higher child, with the lower one moved to its far left. */
    method JoinOnHigher(parent: int, lower: int, higher: int, ghost n: int, ghost u: Tree) returns (x: int)
      requires u.Node? && Bst(u) && u.slot == n && 0 <= n < nodes.Length
      requires Rep(nodes[..], n, nodes[n].parent, u) && lower == nodes[n].lower && higher == nodes[n].higher
      modifies nodes
      ensures Rep(nodes[..], x, parent, Join(u, false))
      ensures SameOffsets(old(nodes[..]), nodes[..])
      ensures forall s :: 0 <= s < nodes.Length && s !in Slots(u) - {n} ==> nodes[s] == old(nodes[s])
    {
      ghost var ns := nodes[..];
      RepDisjoint(ns, n, ns[n].parent, u);
      if lower == NULL {
        x := higher;
        if higher != NULL {
          Lift(higher, parent, n, u.right);
        }
      } else if higher == NULL {
        x := lower;
        Lift(lower, parent, n, u.left);
      } else {
        x := higher;
        Lift(higher, parent, n, u.right);
        ghost var ns1 := nodes[..];
        var leftmost := FarLeft(higher, parent, u.right);
        nodes[leftmost] := nodes[leftmost].(lower := lower);
        nodes[lower] := nodes[lower].(parent := leftmost);
        Reparent(ns, nodes[..], lower, n, leftmost, u.left);
        AttachLeftRep(ns1, nodes[..], higher, parent, u.right, u.left, lower);
      }
    }

    /** The last node of the links to higher ones. */
    method FarRight(link: int, ghost parent: int, ghost tree: Tree) returns (rightmost: int)
      requires tree.Node? && Rep(nodes[..], link, parent, tree)
      ensures rightmost == Rightmost(tree) && rightmost in Slots(tree) && 0 <= rightmost < nodes.Length
    {
      rightmost := link;
      ghost var t, above := tree, parent;
      while nodes[rightmost].higher != NULL
        invariant t.Node? && Rep(nodes[..], rightmost, above, t) && 0 <= rightmost < nodes.Length
        invariant Rightmost(t) == Rightmost(tree)
        decreases t
      {
        above, t := rightmost, t.right;
        rightmost := nodes[rightmost].higher;
      }
      RightmostIn(tree);
    }

    /** The same for a higher child: the lower child, with the higher one at its far right. */
    method JoinOnLower(parent: int, lower: int, higher: int, ghost n: int, ghost u: Tree) returns (x: int)
      requires u.Node? && Bst(u) && u.slot == n && 0 <= n < nodes.Length
      requires Rep(nodes[..], n, nodes[n].parent, u) && lower == nodes[n].lower && higher == nodes[n].higher
      modifies nodes
      ensures Rep(nodes[..], x, parent, Join(u, true))
      ensures SameOffsets(old(nodes[..]), nodes[..])
      ensures forall s :: 0 <= s < nodes.Length && s !in Slots(u) - {n} ==> nodes[s] == old(nodes[s])
    {
      ghost var ns := nodes[..];
      RepDisjoint(ns, n, ns[n].parent, u);
      if lower == NULL {
        x := higher;
        if higher != NULL {
          Lift(higher, parent, n, u.right);
        }
      } else if higher == NULL {
        x := lower;
        Lift(lower, parent, n, u.left);
      } else {
        x := lower;
        Lift(lower, parent, n, u.left);
        ghost var ns1 := nodes[..];
        var rightmost := FarRight(lower, parent, u.left);
        nodes[rightmost] := nodes[rightmost].(higher := higher);
        nodes[higher] := nodes[higher].(parent := rightmost);
        Reparent(ns, nodes[..], higher, n, rightmost, u.right);
        AttachRightRep(ns1, nodes[..], lower, parent, u.left, u.right, higher);
      }
    }

    /** The parent's link to what replaces the unlinked node. */
    method Adopt(parent: int, x: int, asHigher: bool, ghost u: Tree)
      requires 0 <= parent < nodes.Length && u.Node? && Bst(u) && parent !in Slots(u)
      requires Rep(nodes[..], x, parent, Join(u, asHigher))
      modifies nodes
      ensures Rep(nodes[..], x, parent, Join(u, asHigher))
      ensures Adopts(old(nodes[parent]), nodes[parent], asHigher, x)
      ensures forall s :: 0 <= s < nodes.Length && s != parent ==> nodes[s] == old(nodes[s])
    {
      ghost var joined := nodes[..];
      if asHigher {
        nodes[parent] := nodes[parent].(higher := x);
      } else {
        nodes[parent] := nodes[parent].(lower := x);
      }
      JoinKeeps(u, asHigher);
      RepFrame'(joined, nodes[..], x, parent, Join(u, asHigher), parent);
    }

    /** UnlinkNode: take a linked node out of its tree. */
    method UnlinkNode(node: int)
      requires Shape() && IsLinked(node)
      modifies this`trees, nodes, hashTable
      ensures Shape()
      ensures SameOffsets(old(nodes[..]), nodes[..])
      ensures var key := old(nodes[node].offset);
              trees == old(trees)[hash(key) := Unlink(old(trees)[hash(key)], key, false)]
    {
      ghost var ns, roots, key := nodes[..], hashTable[..], nodes[node].offset;
      ghost var t := trees[hash(key)];
      PlaceOf(ns, roots, trees, hash, node);
      ghost var u := SubtreeAt(t, key);

      var parent, lower, higher := nodes[node].parent, nodes[node].lower, nodes[node].higher;
      var x;
      if parent != NULL {
        if nodes[parent].lower == node {
          x := JoinOnHigher(parent, lower, higher, node, u);
          Adopt(parent, x, false, u);
        } else {
          x := JoinOnLower(parent, lower, higher, node, u);
          Adopt(parent, x, true, u);
        }
      } else {
        x := JoinOnHigher(NULL, lower, higher, node, u);
        hashTable[hash(nodes[node].offset)] := x;
      }
      UnlinkedTrees(ns, nodes[..], roots, hashTable[..], trees, hash, node, x);
      trees := trees[hash(key) := Unlink(t, key, false)];
    }

    /** The descent of InsertNode: from a node whose subtree is u, make `node` a child of the
        last node of the search path, and return that one. */
    method HangBelow(offset: int, hint: int, node: int, ghost parent: int, ghost u: Tree) returns (at: int)
      requires u.Node? && Rep(nodes[..], hint, parent, u)
      modifies nodes
      ensures at == LastOnPath(u, offset) && 0 <= at < nodes.Length
      ensures nodes[..] == old(nodes[..])[at := if offset > old(nodes[at]).offset then old(nodes[at]).(higher := node)
                                                else old(nodes[at]).(lower := node)]
    {
      at := hint;
      ghost var t, above := u, parent;
      while true
        invariant nodes[..] == old(nodes[..]) && t.Node? && Rep(nodes[..], at, above, t) && 0 <= at < nodes.Length
        invariant LastOnPath(t, offset) == LastOnPath(u, offset)
        decreases t
      {
        if offset > nodes[at].offset {
          var higher := nodes[at].higher;
          if higher == NULL {
            nodes[at] := nodes[at].(higher := node);
            return;
          }
          above, t := at, t.right;
          at := higher;
        } else {
          var lower := nodes[at].lower;
          if lower == NULL {
            nodes[at] := nodes[at].(lower := node);
            return;
          }
          above, t := at, t.left;
          at := lower;
        }
      }
    }

    /** InsertNode: hang an unlinked node, starting the descent at a hint on the search path. A
        key that the tree holds already is hung a second time. */
    method InsertNode(offset: int, key: int, hint: int, node: int)
      requires Shape() && 0 <= node < nodes.Length && Unlinked(trees, node)
      requires key == hash(offset) && offset != INVALID_RECORD_OFFSET
      requires hint == NULL || OnPath(trees[key], offset, hint)
      modifies this`trees, nodes, hashTable
      ensures old(offset !in Keys(trees[key])) ==>
                Shape() && trees == old(trees)[key := Insert(old(trees)[key], offset, node)]
      ensures nodes[node].offset == offset
      ensures forall s :: 0 <= s < nodes.Length && s != node ==> nodes[s].offset == old(nodes[s].offset)
    {
      nodes[node] := nodes[node].(lower := NULL, higher := NULL, offset := offset);
      UnlinkedFrame(old(nodes[..]), nodes[..], hashTable[..], trees, hash, node);
      ghost var ns, roots, t := nodes[..], hashTable[..], trees[key];
      var at := hint;
      if at == NULL {
        at := hashTable[key];
        if at == NULL {
          hashTable[key] := node;
          nodes[node] := nodes[node].(parent := NULL);
          InsertedTrees(ns, nodes[..], roots, hashTable[..], trees, hash, offset, node);
          trees := trees[key := Insert(t, offset, node)];
          return;
        }
      }
      SubtreeOnRep(ns, roots[key], NULL, t, offset, at);
      HintEndsAlike(t, offset, at);
      at := HangBelow(offset, at, node, nodes[at].parent, SubtreeOn(t, offset, at));
      nodes[node] := nodes[node].(parent := at);
      LastOnPathIn(t, offset);
      if offset !in Keys(t) {
        InsertedTrees(ns, nodes[..], roots, roots, trees, hash, offset, node);
      }
      trees := trees[key := Insert(t, offset, node)];
    }

    ghost function Entry(s: int): Option<int>
      requires 0 <= s < nodes.Length
      reads nodes
    {
      if nodes[s].offset == INVALID_RECORD_OFFSET then None else Some(nodes[s].offset)
    }

    ghost function Entries(): (e: seq<Option<int>>)
      reads nodes
      ensures |e| == nodes.Length && forall i :: 0 <= i < |e| ==> e[i] == Entry(i)
    {
      seq(nodes.Length, i requires 0 <= i < nodes.Length reads nodes => Entry(i))
    }

    /** The cache as a queue, oldest slot first; a removed record leaves an empty entry. */
    ghost function Fifo(): seq<Option<int>>
      requires 0 <= next < nodes.Length
      reads this, nodes
    {
      QueueOf(Entries(), next, full)
    }

    ghost function SlotAt(i: int): (s: int)
      requires 0 <= next < nodes.Length && 0 <= i < |Fifo()|
      reads this, nodes
      ensures 0 <= s < nodes.Length && (full || s < next) && Fifo()[i] == Entry(s)
    {
      if !full then i else if next + i < nodes.Length then next + i else next + i - nodes.Length
    }

    ghost function FifoIndex(s: int): (i: int)
      requires 0 <= next < nodes.Length && 0 <= s < nodes.Length && (full || s < next)
      reads this, nodes
      ensures 0 <= i < |Fifo()| && Fifo()[i] == Entry(s)
    {
      if !full then s else if s >= next then s - next else nodes.Length - next + s
    }

    /** The queue holds exactly the keys of the trees. */
    lemma FifoHolds(offset: int)
      requires Valid() && offset != INVALID_RECORD_OFFSET
      ensures Some(offset) in Fifo() <==> offset in Keys(trees[hash(offset)])
    {
      RepSlots(nodes[..], hashTable[hash(offset)], NULL, trees[hash(offset)]);
      if offset in Keys(trees[hash(offset)]) {
        var s :| s in Slots(trees[hash(offset)]) && 0 <= s < nodes.Length && nodes[..][s].offset == offset;
        assert IsLinked(s) && Used(s);
        assert Fifo()[FifoIndex(s)] == Entry(s);
      }
      if Some(offset) in Fifo() {
        var i :| 0 <= i < |Fifo()| && Fifo()[i] == Some(offset);
        assert IsLinked(SlotAt(i));
      }
    }

    /** A slot that holds a record of a tree. */
    ghost function HeldAt(offset: int): (s: int)
      requires Loose(next) && offset in Keys(trees[hash(offset)])
      reads this, nodes, hashTable
      ensures 0 <= s < nodes.Length && s != next && Used(s) && nodes[s].offset == offset
    {
      RepSlots(nodes[..], hashTable[hash(offset)], NULL, trees[hash(offset)]);
      var s :| s in Slots(trees[hash(offset)]) && 0 <= s < nodes.Length && nodes[..][s].offset == offset;
      assert IsLinked(s);
      s
    }

    /** While a slot is given up, the trees hold what a push leaves of the queue. */
    lemma RestHolds(offset: int)
      requires Loose(next) && offset != INVALID_RECORD_OFFSET
      ensures Some(offset) in Rest(Fifo(), nodes.Length) <==> offset in Keys(trees[hash(offset)])
    {
      hide Linked, Unlinked, Rep, Bst, Fifo, Rest, Keys;
      if offset in Keys(trees[hash(offset)]) {
        InRest(HeldAt(offset));
      }
      if Some(offset) in Rest(Fifo(), nodes.Length) {
        RestLinked(offset);
      }
    }

    lemma InRest(s: int)
      requires 0 <= next < nodes.Length && 0 <= s < nodes.Length && s != next && Used(s)
      ensures Some(nodes[s].offset) in Rest(Fifo(), nodes.Length)
    {
      var rest := Rest(Fifo(), nodes.Length);
      assert rest[FifoIndex(s) - (if full then 1 else 0)] == Entry(s);
    }

    lemma RestLinked(offset: int)
      requires Loose(next) && offset != INVALID_RECORD_OFFSET && Some(offset) in Rest(Fifo(), nodes.Length)
      ensures offset in Keys(trees[hash(offset)])
    {
      hide Bst, Keys, Slots, Unlinked;
      var s := RestSlot(offset);
      assert IsLinked(s);
      RepSlots(nodes[..], hashTable[..][hash(offset)], NULL, trees[hash(offset)]);
    }

    lemma RestSlot(offset: int) returns (s: int)
      requires 0 <= next < nodes.Length && offset != INVALID_RECORD_OFFSET && Some(offset) in Rest(Fifo(), nodes.Length)
      ensures 0 <= s < nodes.Length && s != next && nodes[s].offset == offset && Used(s)
    {
      var rest, gone := Rest(Fifo(), nodes.Length), if full then 1 else 0;
      var i :| 0 <= i < |rest| && rest[i] == Some(offset);
      assert rest[i] == Fifo()[i + gone];
      s := SlotAt(i + gone);
    }

    /** Between giving up a slot and filling it again. */
    ghost predicate Loose(node: int)
      reads this, nodes, hashTable
    {
      && Shape() && 0 <= node < nodes.Length && Unlinked(trees, node)
      && (forall s :: 0 <= s < nodes.Length && s != node ==> (Used(s) <==> IsLinked(s)))
    }

    constructor (slots: int, buckets: int, h: int -> int)
      requires 1 <= slots && 1 <= buckets && forall o :: 0 <= h(o) < buckets
      ensures Valid() && Fifo() == [] && nodes.Length == slots && hash == h
      ensures fresh(nodes) && fresh(hashTable)
    {
      nodes := new CacheNode[slots](_ => CacheNode(NULL, NULL, NULL, 0));
      hashTable := new int[buckets](_ => NULL);
      hash := h;
      next := 0;
      full := false;
      trees := seq(buckets, _ => Leaf);
    }

    /** A record's slot in the cache, or NULL. */
    method PeekOffset(offset: int) returns (node: int)
      requires Valid() && offset != INVALID_RECORD_OFFSET
      ensures node != NULL <==> Some(offset) in Fifo()
      ensures node != NULL ==> 0 <= node < nodes.Length && Used(node) && nodes[node].offset == offset
    {
      FifoHolds(offset);
      node := FindNode(offset);
    }

    /** SetOffset's search: the record's slot, or else the last node of its search path. */
    method FindInsertion(offset: int) returns (found: bool, insert: int)
      requires Valid() && offset != INVALID_RECORD_OFFSET
      ensures found <==> Some(offset) in Fifo()
      ensures found ==> 0 <= insert < nodes.Length && nodes[insert].offset == offset && Used(insert)
      ensures !found ==> offset !in Keys(trees[hash(offset)])
      ensures !found && insert != NULL ==> OnPath(trees[hash(offset)], offset, insert)
    {
      FifoHolds(offset);
      var key := hash(offset);
      insert := hashTable[key];
      ghost var t := trees[key];
      ghost var u, above := t, NULL;
      FindWorks(nodes[..], insert, NULL, t, offset);
      while insert != NULL
        invariant Rep(nodes[..], insert, above, u) && Find(u, offset) == Find(t, offset)
        invariant forall s :: OnPath(u, offset, s) ==> OnPath(t, offset, s)
        decreases u
      {
        if nodes[insert].offset == offset {
          assert IsLinked(insert);
          return true, insert;
        } else if offset > nodes[insert].offset {
          var higher := nodes[insert].higher;
          if higher == NULL {
            break;
          }
          above, u := insert, u.right;
          insert := higher;
        } else {
          var lower := nodes[insert].lower;
          if lower == NULL {
            break;
          }
          above, u := insert, u.left;
          insert := lower;
        }
      }
      found := false;
    }

    /** Give up the slot that is used next. A hint that points to it moves to its parent;
        any other stays on the search path although subtrees may have moved. */
    method Evict(offset: int, hint: int) returns (insert: int)
      requires Valid()
      requires hint == NULL || (offset !in Keys(trees[hash(offset)]) && OnPath(trees[hash(offset)], offset, hint))
      modifies this`trees, nodes, hashTable
      ensures Loose(next)
      ensures insert == NULL || OnPath(trees[hash(offset)], offset, insert)
      ensures hint == NULL ==> insert == NULL
      ensures Fifo() == old(Fifo())
    {
      var node := next;
      insert := hint;
      ghost var ns, roots, trees0 := nodes[..], hashTable[..], trees;
      if nodes[node].offset != INVALID_RECORD_OFFSET && full {
        if insert == node {
          insert := nodes[insert].parent;
        }
        UnlinkNode(node);
        LinkedAfterUnlink(ns, nodes[..], roots, trees0, trees, hash, node);
        if hint != NULL {
          HintAfterUnlink(ns, roots, trees0, trees, hash, node, offset, hint);
        }
      } else {
        NotLinkedIsUnlinked(ns, roots, trees, hash, node);
      }
      assert Entries() == old(Entries());
    }

    /** Mark the next cache slot, then fill the one given up. */
    method Fill(offset: int, insert: int) returns (node: int)
      requires Loose(next) && offset != INVALID_RECORD_OFFSET
      requires insert == NULL || OnPath(trees[hash(offset)], offset, insert)
      modifies this, nodes, hashTable
      ensures old(offset !in Keys(trees[hash(offset)])) ==> Valid()
      ensures forall s :: 0 <= s < nodes.Length && s != node ==>
                nodes[s].offset == old(nodes[s].offset) && (old(Used(s)) ==> Used(s))
      ensures node == old(next) && nodes[node].offset == offset && Used(node)
      ensures 0 <= next < nodes.Length && Fifo() == Push(old(Fifo()), nodes.Length, offset)
    {
      ghost var entries := Entries();
      FillIsPush(entries, next, full, offset);
      node := next;
      next := next + 1;
      if next >= nodes.Length {
        next := 0;
        full := true;
      }
      ghost var ns, roots, trees0 := nodes[..], hashTable[..], trees;
      InsertNode(offset, hash(offset), insert, node);
      assert Entries() == entries[node := Some(offset)];
      if old(offset !in Keys(trees[hash(offset)])) {
        LinkedAfterInsert(ns, nodes[..], roots, trees0, trees, hash, offset, node);
        forall s | 0 <= s < nodes.Length
          ensures Used(s) <==> Linked(nodes[..], trees, hash, s)
        {
          if s != node {
            assert Linked(ns, trees0, hash, s) == old(IsLinked(s)) == old(Used(s));
          }
        }
      }
    }

    /** The slot of a record, taking over the oldest slot if the record is not in the cache. */
    method SetOffset(offset: int) returns (node: int)
      requires Valid() && offset != INVALID_RECORD_OFFSET
      modifies this, nodes, hashTable
      ensures Valid()
      ensures 0 <= node < nodes.Length && nodes[node].offset == offset && Used(node)
      ensures Fifo() == if Some(offset) in old(Fifo()) then old(Fifo()) else Push(old(Fifo()), nodes.Length, offset)
    {
      var found, insert := FindInsertion(offset);
      if found {
        return insert;
      }
      insert := Evict(offset, insert);
      RestHolds(offset);
      node := Fill(offset, insert);
    }

    /** Two slots in use hold the record, of which searches find one. */
    ghost predicate Doubled(offset: int)
      reads this, nodes
    {
      exists s, s' :: 0 <= s < s' < nodes.Length && Used(s) && Used(s') && nodes[s].offset == nodes[s'].offset == offset
    }

    /** A record known not to be in the cache, but perhaps in the slot given up for it. */
    method InsertOffset(offset: int) returns (node: int)
      requires Valid() && offset != INVALID_RECORD_OFFSET
      modifies this, nodes, hashTable
      ensures 0 <= next < nodes.Length && Fifo() == Push(old(Fifo()), nodes.Length, offset)
      ensures 0 <= node < nodes.Length && nodes[node].offset == offset && Used(node)
      ensures Some(offset) !in Rest(old(Fifo()), nodes.Length) ==> Valid()
      ensures Some(offset) in Rest(old(Fifo()), nodes.Length) ==> Doubled(offset) && !Valid()
    {
      var none := Evict(offset, NULL);
      RestHolds(offset);
      assert hashTable[..][hash(offset)] == hashTable[hash(offset)];
      label Evicted:
      node := Fill(offset, hashTable[hash(offset)]);
      if Some(offset) in Rest(old(Fifo()), nodes.Length) {
        ghost var s := old@Evicted(HeldAt(offset));
        assert Used(s) && nodes[s].offset == offset && s != node;
        NotBoth(s, node);
      }
    }

    lemma NotBoth(s: int, s': int)
      requires 0 <= s < nodes.Length && 0 <= s' < nodes.Length && s != s'
      requires Used(s) && Used(s') && nodes[s].offset == nodes[s'].offset
      ensures Doubled(nodes[s].offset) && !Valid()
    {
      assert s < s' || s' < s;
      if Valid() {
        assert IsLinked(s) && IsLinked(s');
        SoleSlot(s, s');
        assert false;
      }
    }

    /** Forget a record. Its slot stays where it is in the queue, empty. */
    method RemoveOffset(offset: int) returns (found: bool)
      requires Valid() && offset != INVALID_RECORD_OFFSET
      modifies this`trees, nodes, hashTable
      ensures Valid()
      ensures found <==> Some(offset) in old(Fifo())
      ensures Fifo() == Erase(old(Fifo()), offset)
    {
      FifoHolds(offset);
      var node := FindNode(offset);
      if node == NULL {
        return false;
      }
      ghost var ns, roots, trees0, entries := nodes[..], hashTable[..], trees, Entries();
      EraseIsSlot(offset, node);
      UnlinkNode(node);
      ghost var ns1 := nodes[..];
      LinkedAfterUnlink(ns, ns1, roots, trees0, trees, hash, node);
      nodes[node] := nodes[node].(offset := INVALID_RECORD_OFFSET);
      UnlinkedFrame(ns1, nodes[..], hashTable[..], trees, hash, node);
      forall s | 0 <= s < nodes.Length
        ensures Used(s) <==> Linked(nodes[..], trees, hash, s)
      {
        if s != node {
          assert Linked(ns1, trees, hash, s) == Linked(ns, trees0, hash, s);
        }
      }
      assert Entries() == entries[node := None];
      found := true;
    }

    /** No two slots in use hold the same record. */
    lemma SoleSlot(s: int, node: int)
      requires Valid() && IsLinked(node) && IsLinked(s) && nodes[s].offset == nodes[node].offset
      ensures s == node
    {
      var b := hash(nodes[..][node].offset);
      FindOwn(nodes[..], hashTable[..][b], NULL, trees[b], node);
      FindOwn(nodes[..], hashTable[..][b], NULL, trees[b], s);
    }

    lemma EraseIsSlot(offset: int, node: int)
      requires Valid() && IsLinked(node) && nodes[node].offset == offset && offset != INVALID_RECORD_OFFSET
      ensures Erase(Fifo(), offset) == QueueOf(Entries()[node := None], next, full)
    {
      forall s | 0 <= s < nodes.Length && (full || s < next) && Entries()[s] == Some(offset)
        ensures s == node
      {
        assert Used(s) && IsLinked(s);
        SoleSlot(s, node);
      }
      assert Used(node) && Entries()[node] == Some(offset);
      EraseAt(Entries(), next, full, node, offset);
    }
  }

  lemma EraseAt(entries: seq<Option<int>>, next: int, full: bool, node: int, offset: int)
    requires 0 <= next < |entries| && 0 <= node < |entries| && entries[node] == Some(offset)
    requires forall s :: 0 <= s < |entries| && (full || s < next) && entries[s] == Some(offset) ==> s == node
    ensures Erase(QueueOf(entries, next, full), offset) == QueueOf(entries[node := None], next, full)
  {
    var q := QueueOf(entries, next, full);
    forall i | 0 <= i < |q|
      ensures QueueOf(entries[node := None], next, full)[i] == Erase(q, offset)[i]
    {
      var s := if !full then i else if next + i < |entries| then next + i else next + i - |entries|;
      assert q[i] == entries[s];
    }
  }

  // ------------------------------------------------------- runs of the cache

  datatype CacheOp = SetOp(offset: int) | InsertOp(offset: int) | RemoveOp(offset: int)

  function Apply(q: seq<Option<int>>, capacity: int, op: CacheOp): seq<Option<int>>
    requires 1 <= capacity
  {
    match op
    case SetOp(o) => if Some(o) in q then q else Push(q, capacity, o)
    case InsertOp(o) => Push(q, capacity, o)
    case RemoveOp(o) => Erase(q, o)
  }

  function Run(capacity: int, ops: seq<CacheOp>): seq<Option<int>>
    requires 1 <= capacity
  {
    if ops == [] then [] else Apply(Run(capacity, ops[..|ops| - 1]), capacity, ops[|ops| - 1])
  }

  /** Only records that are not cached, or lie in the slot given up for them, are inserted. */
  ghost predicate Sound(capacity: int, ops: seq<CacheOp>)
    requires 1 <= capacity
  {
    forall i :: 0 <= i < |ops| ==>
      && ops[i].offset != INVALID_RECORD_OFFSET
      && (ops[i].InsertOp? ==> Some(ops[i].offset) !in Rest(Run(capacity, ops[..i]), capacity))
  }

  lemma SoundPrefix(capacity: int, ops: seq<CacheOp>)
    requires 1 <= capacity && ops != [] && Sound(capacity, ops)
    ensures Sound(capacity, ops[..|ops| - 1])
  {
    var front := ops[..|ops| - 1];
    assert forall i :: 0 <= i < |front| ==> front[..i] == ops[..i];
  }

  /** The same as a map from each record to how many insertions came after its own: a record
      is there while that is less than the capacity and it has not been removed. */
  function ApplyAges(ages: map<int, nat>, capacity: int, op: CacheOp): map<int, nat> {
    match op
    case SetOp(o) => if o in ages then ages else Aged(ages, capacity)[o := 0]
    case InsertOp(o) => Aged(ages, capacity)[o := 0]
    case RemoveOp(o) => map k | k in ages && k != o :: ages[k]
  }

  function Aged(ages: map<int, nat>, capacity: int): map<int, nat> {
    map k | k in ages && ages[k] + 1 < capacity :: ages[k] + 1
  }

  function Ages(capacity: int, ops: seq<CacheOp>): map<int, nat>
    requires 1 <= capacity
  {
    if ops == [] then map[] else ApplyAges(Ages(capacity, ops[..|ops| - 1]), capacity, ops[|ops| - 1])
  }

  /** Every record of the queue is as old as its place says, counted from the end. */
  ghost predicate Agrees(q: seq<Option<int>>, ages: map<int, nat>, capacity: int) {
    && |q| <= capacity
    && (forall i :: 0 <= i < |q| && q[i].Some? ==> q[i].value in ages && ages[q[i].value] == |q| - 1 - i)
    && (forall k :: k in ages ==> ages[k] < |q| && q[|q| - 1 - ages[k]] == Some(k))
  }

  /** A push makes everything that stays older by one. */
  lemma AgreesAged(q: seq<Option<int>>, ages: map<int, nat>, capacity: int)
    requires 1 <= capacity && Agrees(q, ages, capacity)
    ensures var rest, aged := Rest(q, capacity), Aged(ages, capacity);
            && (forall i :: 0 <= i < |rest| && rest[i].Some? ==> rest[i].value in aged && aged[rest[i].value] == |rest| - i)
            && (forall k :: k in aged ==> 0 < aged[k] <= |rest| && rest[|rest| - aged[k]] == Some(k))
  {
    var rest, aged := Rest(q, capacity), Aged(ages, capacity);
    var dropped := |q| - |rest|;
    forall i | 0 <= i < |rest| && rest[i].Some?
      ensures rest[i].value in aged && aged[rest[i].value] == |rest| - i
    {
      assert rest[i] == q[i + dropped];
    }
    forall k | k in aged
      ensures 0 < aged[k] <= |rest| && rest[|rest| - aged[k]] == Some(k)
    {
      assert rest[|rest| - aged[k]] == q[|q| - 1 - ages[k]];
    }
  }

  lemma AgreesPush(q: seq<Option<int>>, ages: map<int, nat>, capacity: int, o: int)
    requires 1 <= capacity && Agrees(q, ages, capacity) && Some(o) !in Rest(q, capacity)
    ensures Agrees(Push(q, capacity, o), Aged(ages, capacity)[o := 0], capacity)
  {
    AgreesAged(q, ages, capacity);
    hide Aged;
    var rest, aged, q' := Rest(q, capacity), Aged(ages, capacity), Push(q, capacity, o);
    assert forall i :: 0 <= i < |rest| ==> q'[i] == rest[i];
    assert q'[|rest|] == Some(o);
  }

  lemma AgreesErase(q: seq<Option<int>>, ages: map<int, nat>, capacity: int, o: int)
    requires Agrees(q, ages, capacity)
    ensures Agrees(Erase(q, o), ApplyAges(ages, capacity, RemoveOp(o)), capacity)
  {
  }

  lemma AgreesStep(q: seq<Option<int>>, ages: map<int, nat>, capacity: int, op: CacheOp)
    requires 1 <= capacity && Agrees(q, ages, capacity)
    requires op.InsertOp? ==> Some(op.offset) !in Rest(q, capacity)
    ensures Agrees(Apply(q, capacity, op), ApplyAges(ages, capacity, op), capacity)
  {
    match op
    case SetOp(o) =>
      if o in ages {
        assert q[|q| - 1 - ages[o]] == Some(o);
      } else {
        AgreesPush(q, ages, capacity, o);
      }
    case InsertOp(o) => AgreesPush(q, ages, capacity, o);
    case RemoveOp(o) => AgreesErase(q, ages, capacity, o);
  }

  /** After any run, the cache holds a record exactly when its age says so. */
  lemma {:induction false} RunIsAges(capacity: int, ops: seq<CacheOp>)
    requires 1 <= capacity && Sound(capacity, ops)
    ensures Agrees(Run(capacity, ops), Ages(capacity, ops), capacity)
    ensures forall o :: Some(o) in Run(capacity, ops) <==> o in Ages(capacity, ops)
  {
    if ops != [] {
      SoundPrefix(capacity, ops);
      RunIsAges(capacity, ops[..|ops| - 1]);
      AgreesStep(Run(capacity, ops[..|ops| - 1]), Ages(capacity, ops[..|ops| - 1]), capacity, ops[|ops| - 1]);
    }
  }

  /** A cache object after any run: it holds just the records that the run leaves in the queue. */
  method RunOnTable(slots: int, buckets: int, h: int -> int, ops: seq<CacheOp>) returns (t: Table)
    requires 1 <= slots && 1 <= buckets && (forall o :: 0 <= h(o) < buckets) && Sound(slots, ops)
    ensures t.Valid() && t.nodes.Length == slots && t.Fifo() == Run(slots, ops)
    ensures forall o :: o != INVALID_RECORD_OFFSET ==> (o in Keys(t.trees[t.hash(o)]) <==> o in Ages(slots, ops))
  {
    t := new Table(slots, buckets, h);
    for i := 0 to |ops|
      invariant t.Valid() && t.nodes.Length == slots && fresh(t) && fresh(t.nodes) && fresh(t.hashTable)
      invariant t.Fifo() == Run(slots, ops[..i])
    {
      assert ops[..i + 1][..i] == ops[..i];
      match ops[i]
      case SetOp(o) => var node := t.SetOffset(o);
      case InsertOp(o) => var node := t.InsertOffset(o);
      case RemoveOp(o) => var found := t.RemoveOffset(o);
    }
    assert ops[..|ops|] == ops;
    RunIsAges(slots, ops);
    forall o | o != INVALID_RECORD_OFFSET
      ensures o in Keys(t.trees[t.hash(o)]) <==> o in Ages(slots, ops)
    {
      t.FifoHolds(o);
    }
  }
  /** In every cache of two slots or more, a record inserted twice lies in two slots. */
  method InsertTwice(slots: int, buckets: int, h: int -> int, offset: int) returns (t: Table)
    requires 2 <= slots && 1 <= buckets && (forall o :: 0 <= h(o) < buckets) && offset != INVALID_RECORD_OFFSET
    ensures t.nodes.Length == slots && t.Doubled(offset) && !t.Valid()
  {
    t := new Table(slots, buckets, h);
    var first := t.InsertOffset(offset);
    assert t.Fifo() == [Some(offset)];
    var second := t.InsertOffset(offset);
  }
}
