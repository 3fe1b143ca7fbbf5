/** Binary search trees threaded through an array of cache nodes with parent links. */
module BombayTrees {

  const NULL: int := -1

  datatype CacheNode = CacheNode(parent: int, lower: int, higher: int, offset: int)

  datatype Tree = Leaf | Node(slot: int, key: int, left: Tree, right: Tree)

  function Keys(t: Tree): (keys: set<int>)
    ensures t.Node? ==> t.key in keys
  {
    match t
    case Leaf => {}
    case Node(_, key, left, right) => Keys(left) + {key} + Keys(right)
  }

  function Slots(t: Tree): (slots: set<int>)
    ensures t.Node? ==> t.slot in slots
  {
    match t
    case Leaf => {}
    case Node(slot, _, left, right) => Slots(left) + {slot} + Slots(right)
  }

  predicate Below(t: Tree, x: int) {
    forall k :: k in Keys(t) ==> k < x
  }

  predicate Above(t: Tree, x: int) {
    forall k :: k in Keys(t) ==> x < k
  }

  predicate Bst(t: Tree) {
    match t
    case Leaf => true
    case Node(_, key, left, right) =>
      && Bst(left) && Bst(right)
      && Below(left, key) && Above(right, key)
  }

  /** A key of a child is a key of the tree. */
  lemma ChildKeys(t: Tree)
    requires t.Node?
    ensures t.key in Keys(t)
    ensures forall k :: k in Keys(t.left) ==> k in Keys(t)
    ensures forall k :: k in Keys(t.right) ==> k in Keys(t)
    ensures forall k :: k in Keys(t) ==> k == t.key || k in Keys(t.left) || k in Keys(t.right)
  {
  }

  /** The nodes reached from `link`, whose parent link is `parent`, form the tree t. */
  predicate Rep(ns: seq<CacheNode>, link: int, parent: int, t: Tree)
    decreases t
  {
    match t
    case Leaf => link == NULL
    case Node(slot, key, left, right) =>
      && link == slot && 0 <= slot < |ns|
      && ns[slot].parent == parent && ns[slot].offset == key
      && Rep(ns, ns[slot].lower, slot, left)
      && Rep(ns, ns[slot].higher, slot, right)
  }

  predicate SameOn(ns: seq<CacheNode>, ns': seq<CacheNode>, slots: set<int>) {
    |ns| == |ns'| && forall s :: s in slots && 0 <= s < |ns| ==> ns'[s] == ns[s]
  }

  lemma {:induction false} RepFrame(ns: seq<CacheNode>, ns': seq<CacheNode>, link: int, parent: int, t: Tree)
    requires Rep(ns, link, parent, t) && SameOn(ns, ns', Slots(t))
    ensures Rep(ns', link, parent, t)
    decreases t
  {
    match t
    case Leaf =>
    case Node(slot, _, left, right) =>
      RepFrame(ns, ns', ns[slot].lower, slot, left);
      RepFrame(ns, ns', ns[slot].higher, slot, right);
  }

  /** A node in the tree is stored with its own key; so slots determine keys. */
  lemma {:induction false} RepSlots(ns: seq<CacheNode>, link: int, parent: int, t: Tree)
    requires Rep(ns, link, parent, t)
    ensures forall s :: s in Slots(t) ==> 0 <= s < |ns| && ns[s].offset in Keys(t)
    ensures forall k :: k in Keys(t) ==> exists s :: s in Slots(t) && 0 <= s < |ns| && ns[s].offset == k
    decreases t
  {
    match t
    case Leaf =>
    case Node(slot, key, left, right) =>
      RepSlots(ns, ns[slot].lower, slot, left);
      RepSlots(ns, ns[slot].higher, slot, right);
      assert ns[slot].offset == key;
  }

  /** In a search tree the subtrees and the root use different slots. */
  lemma RepDisjoint(ns: seq<CacheNode>, link: int, parent: int, t: Tree)
    requires Rep(ns, link, parent, t) && Bst(t) && t.Node?
    ensures t.slot !in Slots(t.left) && t.slot !in Slots(t.right) && Slots(t.left) !! Slots(t.right)
  {
    RepSlots(ns, ns[t.slot].lower, t.slot, t.left);
    RepSlots(ns, ns[t.slot].higher, t.slot, t.right);
    forall s | s in Slots(t.left)
      ensures s !in Slots(t.right)
    {
      assert ns[s].offset < t.key;
    }
  }

  // ------------------------------------------------------------- operations

  function Leftmost(t: Tree): int
    requires t.Node?
  {
    if t.left.Leaf? then t.slot else Leftmost(t.left)
  }

  function Rightmost(t: Tree): int
    requires t.Node?
  {
    if t.right.Leaf? then t.slot else Rightmost(t.right)
  }

  function AttachLeft(t: Tree, u: Tree): Tree
    requires t.Node?
  {
    if t.left.Leaf? then t.(left := u) else t.(left := AttachLeft(t.left, u))
  }

  function AttachRight(t: Tree, u: Tree): Tree
    requires t.Node?
  {
    if t.right.Leaf? then t.(right := u) else t.(right := AttachRight(t.right, u))
  }

  /** What replaces an unlinked node: its only child, or, with two children, one child with
      the other moved below its far end. A higher child keeps its lower tree on top. */
  function Join(t: Tree, asHigher: bool): Tree
    requires t.Node?
  {
    if t.left.Leaf? then t.right
    else if t.right.Leaf? then t.left
    else if asHigher then AttachRight(t.left, t.right)
    else AttachLeft(t.right, t.left)
  }

  function Unlink(t: Tree, key: int, asHigher: bool): Tree {
    if t.Leaf? then Leaf
    else if key == t.key then Join(t, asHigher)
    else if key > t.key then t.(right := Unlink(t.right, key, true))
    else t.(left := Unlink(t.left, key, false))
  }

  function Insert(t: Tree, key: int, slot: int): Tree {
    if t.Leaf? then Node(slot, key, Leaf, Leaf)
    else if key > t.key then t.(right := Insert(t.right, key, slot))
    else t.(left := Insert(t.left, key, slot))
  }

  /** The slot that holds key, or NULL: what a search finds. */
  function Find(t: Tree, key: int): int {
    if t.Leaf? then NULL
    else if t.key == key then t.slot
    else if key > t.key then Find(t.right, key)
    else Find(t.left, key)
  }

  lemma {:induction false} AttachLeftKeeps(t: Tree, u: Tree)
    requires t.Node? && Bst(t) && Bst(u)
    requires forall j, k :: j in Keys(u) && k in Keys(t) ==> j < k
    ensures Bst(AttachLeft(t, u))
    ensures Keys(AttachLeft(t, u)) == Keys(t) + Keys(u) && Slots(AttachLeft(t, u)) == Slots(t) + Slots(u)
    decreases t
  {
    ChildKeys(t);
    if t.left.Node? {
      AttachLeftKeeps(t.left, u);
    }
  }

  lemma {:induction false} AttachRightKeeps(t: Tree, u: Tree)
    requires t.Node? && Bst(t) && Bst(u)
    requires forall j, k :: j in Keys(t) && k in Keys(u) ==> j < k
    ensures Bst(AttachRight(t, u))
    ensures Keys(AttachRight(t, u)) == Keys(t) + Keys(u) && Slots(AttachRight(t, u)) == Slots(t) + Slots(u)
    decreases t
  {
    ChildKeys(t);
    if t.right.Node? {
      AttachRightKeeps(t.right, u);
    }
  }

  lemma JoinKeeps(t: Tree, asHigher: bool)
    requires t.Node? && Bst(t)
    ensures Bst(Join(t, asHigher))
    ensures Keys(Join(t, asHigher)) == Keys(t.left) + Keys(t.right)
    ensures Slots(Join(t, asHigher)) == Slots(t.left) + Slots(t.right)
  {
    if t.left.Node? && t.right.Node? {
      if asHigher {
        AttachRightKeeps(t.left, t.right);
      } else {
        AttachLeftKeeps(t.right, t.left);
      }
    }
  }

  /** Unlinking keeps the search order and removes exactly one key. */
  lemma {:induction false} UnlinkKeeps(t: Tree, key: int, asHigher: bool)
    requires Bst(t)
    ensures Bst(Unlink(t, key, asHigher))
    ensures Keys(Unlink(t, key, asHigher)) == Keys(t) - {key}
    decreases t
  {
    if t.Node? {
      if key == t.key {
        JoinKeeps(t, asHigher);
      } else if key > t.key {
        UnlinkKeeps(t.right, key, true);
      } else {
        UnlinkKeeps(t.left, key, false);
      }
    }
  }

  lemma {:induction false} UnlinkSlots(ns: seq<CacheNode>, link: int, parent: int, t: Tree, key: int, asHigher: bool)
    requires Bst(t) && Rep(ns, link, parent, t) && key in Keys(t)
    ensures Slots(Unlink(t, key, asHigher)) == Slots(t) - {Find(t, key)}
    ensures Find(t, key) in Slots(t) && 0 <= Find(t, key) < |ns| && ns[Find(t, key)].offset == key
    decreases t
  {
    RepDisjoint(ns, link, parent, t);
    if key == t.key {
      JoinKeeps(t, asHigher);
    } else if key > t.key {
      UnlinkSlots(ns, ns[t.slot].higher, t.slot, t.right, key, true);
    } else {
      UnlinkSlots(ns, ns[t.slot].lower, t.slot, t.left, key, false);
    }
  }

  lemma {:induction false} InsertKeeps(t: Tree, key: int, slot: int)
    requires Bst(t) && key !in Keys(t)
    ensures Bst(Insert(t, key, slot))
    ensures Keys(Insert(t, key, slot)) == Keys(t) + {key} && Slots(Insert(t, key, slot)) == Slots(t) + {slot}
    decreases t
  {
    if t.Node? {
      if key > t.key {
        InsertKeeps(t.right, key, slot);
      } else {
        InsertKeeps(t.left, key, slot);
      }
    }
  }

  /** A search finds a key exactly when the tree holds it. */
  lemma {:induction false} FindWorks(ns: seq<CacheNode>, link: int, parent: int, t: Tree, key: int)
    requires Bst(t) && Rep(ns, link, parent, t)
    ensures Find(t, key) != NULL <==> key in Keys(t)
    ensures Find(t, key) != NULL ==> Find(t, key) in Slots(t) && 0 <= Find(t, key) < |ns| && ns[Find(t, key)].offset == key
    decreases t
  {
    if t.Node? {
      if key > t.key {
        FindWorks(ns, ns[t.slot].higher, t.slot, t.right, key);
      } else if key < t.key {
        FindWorks(ns, ns[t.slot].lower, t.slot, t.left, key);
      }
    }
  }

  // ------------------------------------------------- the search path and hints

  /** The node in `slot` lies on the search path of key. */
  predicate OnPath(t: Tree, key: int, slot: int) {
    t.Node? && (t.slot == slot || (if key > t.key then OnPath(t.right, key, slot) else OnPath(t.left, key, slot)))
  }

  /** The last node of the search path: where a new key is hung. */
  function LastOnPath(t: Tree, key: int): int
    requires t.Node?
  {
    if key > t.key then (if t.right.Leaf? then t.slot else LastOnPath(t.right, key))
    else (if t.left.Leaf? then t.slot else LastOnPath(t.left, key))
  }

  /** The subtree at a node of the search path. */
  function SubtreeOn(t: Tree, key: int, slot: int): (u: Tree)
    requires OnPath(t, key, slot)
    ensures u.Node? && u.slot == slot
  {
    if t.slot == slot then t
    else if key > t.key then SubtreeOn(t.right, key, slot)
    else SubtreeOn(t.left, key, slot)
  }

  /** Descending from a node of the search path ends where descending from the root does. */
  lemma {:induction false} HintEndsAlike(t: Tree, key: int, slot: int)
    requires OnPath(t, key, slot)
    ensures LastOnPath(SubtreeOn(t, key, slot), key) == LastOnPath(t, key)
    decreases t
  {
    if t.slot != slot {
      HintEndsAlike(if key > t.key then t.right else t.left, key, slot);
    }
  }

  lemma {:induction false} SubtreeOnRep(ns: seq<CacheNode>, link: int, parent: int, t: Tree, key: int, slot: int)
    requires Rep(ns, link, parent, t) && OnPath(t, key, slot)
    ensures 0 <= slot < |ns| && Rep(ns, slot, ns[slot].parent, SubtreeOn(t, key, slot))
    ensures slot in Slots(t)
    decreases t
  {
    if t.slot != slot {
      if key > t.key {
        SubtreeOnRep(ns, ns[t.slot].higher, t.slot, t.right, key, slot);
      } else {
        SubtreeOnRep(ns, ns[t.slot].lower, t.slot, t.left, key, slot);
      }
    }
  }

  lemma {:induction false} OnPathAttachLeft(t: Tree, u: Tree, key: int, slot: int)
    requires t.Node? && Bst(t)
    requires OnPath(t, key, slot) || (OnPath(u, key, slot) && Above(t, key))
    ensures OnPath(AttachLeft(t, u), key, slot)
    decreases t
  {
    ChildKeys(t);
    if t.left.Node? && key <= t.key && t.slot != slot {
      OnPathAttachLeft(t.left, u, key, slot);
    }
  }

  lemma {:induction false} OnPathAttachRight(t: Tree, u: Tree, key: int, slot: int)
    requires t.Node? && Bst(t)
    requires OnPath(t, key, slot) || (OnPath(u, key, slot) && Below(t, key))
    ensures OnPath(AttachRight(t, u), key, slot)
    decreases t
  {
    ChildKeys(t);
    if t.right.Node? && key > t.key && t.slot != slot {
      OnPathAttachRight(t.right, u, key, slot);
    }
  }

  lemma OnPathJoin(t: Tree, asHigher: bool, key: int, slot: int)
    requires t.Node? && Bst(t) && key != t.key && slot != t.slot && OnPath(t, key, slot)
    ensures OnPath(Join(t, asHigher), key, slot)
  {
    if t.left.Node? && t.right.Node? {
      if asHigher {
        OnPathAttachRight(t.left, t.right, key, slot);
      } else {
        OnPathAttachLeft(t.right, t.left, key, slot);
      }
    }
  }

  /** A node on the search path of key stays on it when another node is unlinked, although
      unlinking may move whole subtrees. */
  lemma {:induction false} HintSurvivesUnlink(t: Tree, gone: int, asHigher: bool, key: int, slot: int)
    requires Bst(t) && key !in Keys(t) && OnPath(t, key, slot)
    requires gone in Keys(t) && slot != Find(t, gone)
    ensures OnPath(Unlink(t, gone, asHigher), key, slot)
    decreases t
  {
    if gone == t.key {
      OnPathJoin(t, asHigher, key, slot);
    } else if t.slot != slot {
      if key > t.key && gone > t.key {
        HintSurvivesUnlink(t.right, gone, true, key, slot);
      } else if key < t.key && gone < t.key {
        HintSurvivesUnlink(t.left, gone, false, key, slot);
      }
    }
  }

  /** The parent of a node of the search path is on it. */
  lemma {:induction false} ParentOnPath(ns: seq<CacheNode>, link: int, parent: int, t: Tree, key: int, slot: int)
    requires Rep(ns, link, parent, t) && Bst(t) && OnPath(t, key, slot)
    ensures 0 <= slot < |ns|
    ensures if t.slot == slot then ns[slot].parent == parent
            else OnPath(t, key, ns[slot].parent) && ns[slot].parent != slot
    decreases t
  {
    RepDisjoint(ns, link, parent, t);
    if t.slot != slot {
      if key > t.key {
        SubtreeOnRep(ns, ns[t.slot].higher, t.slot, t.right, key, slot);
        ParentOnPath(ns, ns[t.slot].higher, t.slot, t.right, key, slot);
      } else {
        SubtreeOnRep(ns, ns[t.slot].lower, t.slot, t.left, key, slot);
        ParentOnPath(ns, ns[t.slot].lower, t.slot, t.left, key, slot);
      }
    }
  }

  // ------------------------------------------------------ what link writes do

  lemma {:induction false} LeftmostIn(t: Tree)
    requires t.Node?
    ensures Leftmost(t) in Slots(t)
    decreases t
  {
    if t.left.Node? {
      LeftmostIn(t.left);
    }
  }

  lemma {:induction false} RightmostIn(t: Tree)
    requires t.Node?
    ensures Rightmost(t) in Slots(t)
    decreases t
  {
    if t.right.Node? {
      RightmostIn(t.right);
    }
  }

  /** Writing the lower link of the leftmost node hangs u there. */
  lemma {:induction false} AttachLeftRep(ns: seq<CacheNode>, ns': seq<CacheNode>, link: int, parent: int, t: Tree, u: Tree, ulink: int)
    requires t.Node? && Bst(t) && Rep(ns, link, parent, t)
    requires Rep(ns', ulink, Leftmost(t), u)
    requires SameOn(ns, ns', Slots(t) - {Leftmost(t)})
    requires 0 <= Leftmost(t) < |ns| && ns'[Leftmost(t)] == ns[Leftmost(t)].(lower := ulink)
    ensures Rep(ns', link, parent, AttachLeft(t, u))
    decreases t
  {
    RepDisjoint(ns, link, parent, t);
    if t.left.Node? {
      LeftmostIn(t.left);
      AttachLeftRep(ns, ns', ns[t.slot].lower, t.slot, t.left, u, ulink);
    }
    RepFrame'(ns, ns', ns[t.slot].higher, t.slot, t.right, Leftmost(t));
  }

  lemma {:induction false} AttachRightRep(ns: seq<CacheNode>, ns': seq<CacheNode>, link: int, parent: int, t: Tree, u: Tree, ulink: int)
    requires t.Node? && Bst(t) && Rep(ns, link, parent, t)
    requires Rep(ns', ulink, Rightmost(t), u)
    requires SameOn(ns, ns', Slots(t) - {Rightmost(t)})
    requires 0 <= Rightmost(t) < |ns| && ns'[Rightmost(t)] == ns[Rightmost(t)].(higher := ulink)
    ensures Rep(ns', link, parent, AttachRight(t, u))
    decreases t
  {
    RepDisjoint(ns, link, parent, t);
    if t.right.Node? {
      RightmostIn(t.right);
      AttachRightRep(ns, ns', ns[t.slot].higher, t.slot, t.right, u, ulink);
    }
    RepFrame'(ns, ns', ns[t.slot].lower, t.slot, t.left, Rightmost(t));
  }

  /** Frame for a tree that does not use the one slot that changed. */
  lemma RepFrame'(ns: seq<CacheNode>, ns': seq<CacheNode>, link: int, parent: int, t: Tree, changed: int)
    requires Rep(ns, link, parent, t) && changed !in Slots(t) && SameOn(ns, ns', Slots(t) - {changed})
    ensures Rep(ns', link, parent, t)
  {
    assert Slots(t) - {changed} == Slots(t);
    RepFrame(ns, ns', link, parent, t);
  }

  /** The child link of the unlinked node's parent, after the parent adopted `x`. */
  predicate Adopts(before: CacheNode, after: CacheNode, asHigher: bool, x: int) {
    after == if asHigher then before.(higher := x) else before.(lower := x)
  }

  /** Whether the node with this key is a higher child in t. */
  function IsHigher(t: Tree, key: int, asHigher: bool): bool
  {
    if t.Leaf? || key == t.key then asHigher
    else if key > t.key then IsHigher(t.right, key, true)
    else IsHigher(t.left, key, false)
  }

  function SubtreeAt(t: Tree, key: int): (u: Tree)
    requires key in Keys(t) && Bst(t)
    ensures u.Node? && u.key == key && Bst(u) && Keys(u) <= Keys(t) && Slots(u) <= Slots(t)
    ensures u.slot == Find(t, key)
    decreases t
  {
    ChildKeys(t);
    if key == t.key then t
    else if key > t.key then SubtreeAt(t.right, key)
    else SubtreeAt(t.left, key)
  }

  /** Facts about the node with a given key, read off its links. */
  lemma {:induction false} NodeAt(ns: seq<CacheNode>, link: int, parent: int, t: Tree, key: int, asHigher: bool)
    requires Rep(ns, link, parent, t) && Bst(t) && key in Keys(t)
    ensures var n := Find(t, key);
            && 0 <= n < |ns| && ns[n].offset == key && n in Slots(t)
            && Rep(ns, n, ns[n].parent, SubtreeAt(t, key))
            && (t.key == key ==> ns[n].parent == parent)
            && (t.key != key ==>
                  var p := ns[n].parent;
                  && 0 <= p < |ns| && p in Slots(t) && p !in Slots(SubtreeAt(t, key))
                  && (if IsHigher(t, key, asHigher) then ns[p].higher == n && ns[p].lower != n else ns[p].lower == n))
    decreases t
  {
    RepDisjoint(ns, link, parent, t);
    RepSlots(ns, ns[t.slot].lower, t.slot, t.left);
    RepSlots(ns, ns[t.slot].higher, t.slot, t.right);
    if key > t.key {
      NodeAt(ns, ns[t.slot].higher, t.slot, t.right, key, true);
      LinkIsNotIn(ns, ns[t.slot].lower, t.slot, t.left, Find(t, key));
      assert t.right.key == key ==> IsHigher(t.right, key, true);
    } else if key < t.key {
      NodeAt(ns, ns[t.slot].lower, t.slot, t.left, key, false);
      assert t.left.key == key ==> !IsHigher(t.left, key, false);
    }
  }

  lemma LinkIsNotIn(ns: seq<CacheNode>, link: int, parent: int, t: Tree, n: int)
    requires Rep(ns, link, parent, t) && 0 <= n && n !in Slots(t)
    ensures link != n
  {
  }

  /** Replacing the subtree at a key: only the parent's link to it changes outside it. */
  lemma {:induction false} UnlinkRep(ns: seq<CacheNode>, ns': seq<CacheNode>, link: int, parent: int, t: Tree,
                                     key: int, asHigher: bool, x: int)
    requires Rep(ns, link, parent, t) && Bst(t) && key in Keys(t)
    requires 0 <= Find(t, key) < |ns| == |ns'|
    requires var p := ns[Find(t, key)].parent;
             Rep(ns', x, p, Join(SubtreeAt(t, key), IsHigher(t, key, asHigher)))
    requires var p := ns[Find(t, key)].parent;
             SameOn(ns, ns', Slots(t) - Slots(SubtreeAt(t, key)) - {p})
    requires t.key != key ==>
               var p := ns[Find(t, key)].parent;
               0 <= p < |ns| && Adopts(ns[p], ns'[p], IsHigher(t, key, asHigher), x)
    ensures Rep(ns', if t.key == key then x else link, parent, Unlink(t, key, asHigher))
    decreases t
  {
    if t.key != key {
      RepDisjoint(ns, link, parent, t);
      NodeAt(ns, link, parent, t, key, asHigher);
      var p, u := ns[Find(t, key)].parent, SubtreeAt(t, key);
      if key > t.key {
        NodeAt(ns, ns[t.slot].higher, t.slot, t.right, key, true);
        assert SubtreeAt(t, key) == SubtreeAt(t.right, key);
        RepFrame'(ns, ns', ns[t.slot].lower, t.slot, t.left, p);
        UnlinkRep(ns, ns', ns[t.slot].higher, t.slot, t.right, key, true, x);
      } else {
        NodeAt(ns, ns[t.slot].lower, t.slot, t.left, key, false);
        assert SubtreeAt(t, key) == SubtreeAt(t.left, key);
        RepFrame'(ns, ns', ns[t.slot].higher, t.slot, t.right, p);
        UnlinkRep(ns, ns', ns[t.slot].lower, t.slot, t.left, key, false, x);
      }
    }
  }

  /** Hanging a new node below the last node of the search path inserts its key. */
  lemma {:induction false} InsertRep(ns: seq<CacheNode>, ns': seq<CacheNode>, link: int, parent: int, t: Tree, key: int, slot: int)
    requires Rep(ns, link, parent, t) && Bst(t) && t.Node? && key !in Keys(t)
    requires 0 <= slot < |ns| == |ns'| && slot !in Slots(t)
    requires var h := LastOnPath(t, key);
             && 0 <= h < |ns| && SameOn(ns, ns', Slots(t) - {h})
             && ns'[h] == (if key > ns[h].offset then ns[h].(higher := slot) else ns[h].(lower := slot))
             && ns'[slot] == CacheNode(h, NULL, NULL, key)
    ensures Rep(ns', link, parent, Insert(t, key, slot))
    decreases t
  {
    RepDisjoint(ns, link, parent, t);
    var h := LastOnPath(t, key);
    if key > t.key {
      if t.right.Node? {
        LastOnPathIn(t.right, key);
        InsertRep(ns, ns', ns[t.slot].higher, t.slot, t.right, key, slot);
      }
      RepFrame'(ns, ns', ns[t.slot].lower, t.slot, t.left, h);
    } else {
      if t.left.Node? {
        LastOnPathIn(t.left, key);
        InsertRep(ns, ns', ns[t.slot].lower, t.slot, t.left, key, slot);
      }
      RepFrame'(ns, ns', ns[t.slot].higher, t.slot, t.right, h);
    }
  }

  lemma {:induction false} LastOnPathIn(t: Tree, key: int)
    requires t.Node?
    ensures LastOnPath(t, key) in Slots(t)
    decreases t
  {
    if key > t.key {
      if t.right.Node? {
        LastOnPathIn(t.right, key);
      }
    } else if t.left.Node? {
      LastOnPathIn(t.left, key);
    }
  }

  /** Giving the root another parent link. */
  lemma Reparent(ns: seq<CacheNode>, ns': seq<CacheNode>, link: int, parent: int, parent': int, t: Tree)
    requires Rep(ns, link, parent, t) && Bst(t)
    requires t.Node? ==> SameOn(ns, ns', Slots(t) - {link}) && ns'[link] == ns[link].(parent := parent')
    ensures Rep(ns', link, parent', t)
  {
    if t.Node? {
      RepDisjoint(ns, link, parent, t);
      RepFrame'(ns, ns', ns[link].lower, link, t.left, link);
      RepFrame'(ns, ns', ns[link].higher, link, t.right, link);
    }
  }

  /** In a search tree a slot is what the search for its own key finds. */
  lemma {:induction false} FindOwn(ns: seq<CacheNode>, link: int, parent: int, t: Tree, s: int)
    requires Rep(ns, link, parent, t) && Bst(t) && s in Slots(t)
    ensures 0 <= s < |ns| && ns[s].offset in Keys(t) && Find(t, ns[s].offset) == s
    decreases t
  {
    RepSlots(ns, link, parent, t);
    ChildKeys(t);
    if s in Slots(t.left) {
      FindOwn(ns, ns[t.slot].lower, t.slot, t.left, s);
    } else if s in Slots(t.right) {
      FindOwn(ns, ns[t.slot].higher, t.slot, t.right, s);
    }
  }
}
