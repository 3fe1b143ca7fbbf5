/** The index of remote systems by address: hash chains whose nodes name slots of a list, each
    slot holding its own address. */
module RemoteIndex {
  import opened Collections

  datatype Address = NullAddress | Endpoint(host: nat, port: nat)

  const LOOKUP_HASH_MULTIPLE: nat := 8

  class JackieRemoteIndex {
    var index: int
    var next: JackieRemoteIndex?

    constructor (index: int)
      ensures this.index == index && next == null
    {
      this.index := index;
      next := null;
    }
  }

  // --------------------------------------------------------- chains as values

  function BucketOf(hash: Address -> nat, n: nat, a: Address): (b: int)
    ensures n > 0 ==> 0 <= b < n && exists turns: nat :: hash(a) == n * turns + b
  {
    if n == 0 then 0
    else
      assert hash(a) == n * (hash(a) / n) + hash(a) % n;
      hash(a) % n
  }

  /** The chains hold, in the bucket of its address, exactly the slots the map names. */
  ghost predicate Agrees(slots: seq<seq<int>>, addresses: seq<Address>, m: map<Address, int>, hash: Address -> nat, n: nat) {
    && Found(slots, addresses, m, hash, n) && Named(slots, addresses, m, hash, n)
    && (forall b, i, j :: 0 <= b < |slots| && 0 <= i < j < |slots[b]| ==> slots[b][i] != slots[b][j])
  }

  ghost predicate Found(slots: seq<seq<int>>, addresses: seq<Address>, m: map<Address, int>, hash: Address -> nat, n: nat) {
    forall a :: a in m ==>
      && 0 <= m[a] < |addresses| && addresses[m[a]] == a
      && 0 <= BucketOf(hash, n, a) < |slots| && m[a] in slots[BucketOf(hash, n, a)]
  }

  ghost predicate Named(slots: seq<seq<int>>, addresses: seq<Address>, m: map<Address, int>, hash: Address -> nat, n: nat) {
    forall b, i :: 0 <= b < |slots| && 0 <= i < |slots[b]| ==>
      && 0 <= slots[b][i] < |addresses|
      && var a := addresses[slots[b][i]]; a in m && m[a] == slots[b][i] && BucketOf(hash, n, a) == b
  }

  lemma AgreesWithout(slots: seq<seq<int>>, addresses: seq<Address>, m: map<Address, int>, hash: Address -> nat, n: nat,
                      a: Address, k: int)
    requires Agrees(slots, addresses, m, hash, n) && 0 <= BucketOf(hash, n, a) < |slots| && 0 <= k < |slots[BucketOf(hash, n, a)]|
    requires addresses[slots[BucketOf(hash, n, a)][k]] == a
    ensures Agrees(slots[BucketOf(hash, n, a) := Without(slots[BucketOf(hash, n, a)], k)], addresses, m - {a}, hash, n)
  {
    hide Without, BucketOf;
    var b := BucketOf(hash, n, a);
    assert Distinct(slots[b]);
    WithoutDistinct(slots[b], k);
  }

  lemma AgreesAppend(slots: seq<seq<int>>, addresses: seq<Address>, m: map<Address, int>, hash: Address -> nat, n: nat,
                     a: Address, index: int)
    requires Agrees(slots, addresses, m, hash, n) && 0 <= BucketOf(hash, n, a) < |slots| && 0 <= index < |addresses|
    requires a !in m && forall x :: x in m ==> m[x] != index
    ensures Agrees(slots[BucketOf(hash, n, a) := slots[BucketOf(hash, n, a)] + [index]], addresses[index := a], m[a := index], hash, n)
  {
    hide BucketOf, Found;
    FoundAppend(slots, addresses, m, hash, n, a, index);
  }

  lemma FoundAppend(slots: seq<seq<int>>, addresses: seq<Address>, m: map<Address, int>, hash: Address -> nat, n: nat,
                    a: Address, index: int)
    requires Found(slots, addresses, m, hash, n) && 0 <= BucketOf(hash, n, a) < |slots| && 0 <= index < |addresses|
    requires a !in m && forall x :: x in m ==> m[x] != index
    ensures Found(slots[BucketOf(hash, n, a) := slots[BucketOf(hash, n, a)] + [index]], addresses[index := a], m[a := index], hash, n)
  {
    hide BucketOf;
    var b := BucketOf(hash, n, a);
    var t := slots[b] + [index];
    assert t[|slots[b]|] == index;
    forall x | x in m
      ensures m[x] in slots[b := t][BucketOf(hash, n, x)]
    {
      assert BucketOf(hash, n, x) == b ==> m[x] in t;
    }
  }

  // -------------------------------------------------------------- linked chains

  /** These nodes, in this order, are linked from the first one to a null link. */
  ghost predicate Linked(first: JackieRemoteIndex?, s: seq<JackieRemoteIndex>)
    reads s`next
  {
    && first == (if s == [] then null else s[0])
    && forall i {:trigger s[i].next} :: 0 <= i < |s| ==> s[i].next == if i + 1 < |s| then s[i + 1] else null
  }

  ghost predicate Holds(nodes: seq<JackieRemoteIndex>, s: seq<int>)
    reads nodes`index
  {
    |nodes| == |s| && forall i :: 0 <= i < |s| ==> nodes[i].index == s[i]
  }

  /** No element is in two of the sequences. */
  ghost predicate Apart<T>(chains: seq<seq<T>>) {
    forall b, c, i :: 0 <= b < |chains| && 0 <= c < |chains| && b != c && 0 <= i < |chains[b]| ==> chains[b][i] !in chains[c]
  }

  lemma ApartShrinks<T>(chains: seq<seq<T>>, b: int, rest: seq<T>)
    requires Apart(chains) && 0 <= b < |chains| && forall j :: 0 <= j < |rest| ==> rest[j] in chains[b]
    ensures Apart(chains[b := rest])
  {
  }

  ghost function All<T>(chains: seq<seq<T>>): set<T> {
    set b, i | 0 <= b < |chains| && 0 <= i < |chains[b]| :: chains[b][i]
  }

  lemma AllShrinks<T>(chains: seq<seq<T>>, b: int, rest: seq<T>)
    requires 0 <= b < |chains| && forall j :: 0 <= j < |rest| ==> rest[j] in chains[b]
    ensures All(chains[b := rest]) <= All(chains)
  {
    forall x | x in All(chains[b := rest])
      ensures x in All(chains)
    {
      var c, i :| 0 <= c < |chains| && 0 <= i < |chains[b := rest][c]| && chains[b := rest][c][i] == x;
      var k :| 0 <= k < |chains[c]| && chains[c][k] == x;
    }
  }

  lemma AllGrows<T>(chains: seq<seq<T>>, b: int, x: T)
    requires 0 <= b < |chains|
    ensures All(chains[b := chains[b] + [x]]) == All(chains) + {x}
  {
    var after := chains[b := chains[b] + [x]];
    assert after[b][|chains[b]|] == x;
    forall y | y in All(chains)
      ensures y in All(after)
    {
      var c, i :| 0 <= c < |chains| && 0 <= i < |chains[c]| && chains[c][i] == y;
      assert after[c][i] == y;
    }
  }

  lemma DistinctGrows<T>(s: seq<T>, x: T)
    requires Distinct(s) && x !in s
    ensures Distinct(s + [x])
  {
  }

  lemma ApartGrows<T>(chains: seq<seq<T>>, b: int, x: T)
    requires Apart(chains) && 0 <= b < |chains| && forall c :: 0 <= c < |chains| ==> x !in chains[c]
    ensures Apart(chains[b := chains[b] + [x]])
  {
  }

  lemma ApartAt<T>(chains: seq<seq<T>>, b: int, c: int, i: int)
    requires Apart(chains) && 0 <= b < |chains| && 0 <= c < |chains| && b != c && 0 <= i < |chains[b]|
    ensures chains[b][i] !in chains[c]
  {
  }

  /** The map after a slot is referenced for an address: the slot has no other address. */
  function Referenced(m: map<Address, int>, sa: Address, index: int): map<Address, int> {
    (map a | a in m && m[a] != index :: m[a])[sa := index]
  }

  /** The slot belongs to the address alone, and the other slots to whom they did. */
  lemma ReferencedOnly(m: map<Address, int>, sa: Address, index: int, a: Address)
    ensures var r := Referenced(m, sa, index);
            && sa in r && r[sa] == index
            && (a != sa ==> (a in r <==> a in m && m[a] != index) && (a in r ==> r[a] == m[a]))
  {
  }

  /** If only the address a slot holds is mapped to it, dropping that one makes way. */
  lemma Unreferenced(m: map<Address, int>, held: Address, sa: Address, index: int)
    requires forall a :: a in m && m[a] == index ==> a == held
    requires sa == NullAddress || NullAddress !in m || m[NullAddress] != index
    ensures (if held != NullAddress && held in m && m[held] == index then m - {held} else m) - {sa}
            == Referenced(m, sa, index) - {sa}
  {
  }

  class RemoteSystems {
    const maxConnections: nat
    const hash: Address -> nat
    const addresses: array<Address>                     // remoteSystemList[i].systemAddress
    const remoteSystemLookup: array<JackieRemoteIndex?>
    ghost var nodes: seq<seq<JackieRemoteIndex>>        // the chain of each bucket
    ghost var slots: seq<seq<int>>                      // the slots the nodes name
    ghost var content: map<Address, int>

    function Buckets(): nat {
      if maxConnections == 0 then 0 else maxConnections * LOOKUP_HASH_MULTIPLE - 1
    }

    function Bucket(a: Address): (b: int)
      ensures Buckets() > 0 ==> 0 <= b < Buckets()
    {
      BucketOf(hash, Buckets(), a)
    }

    ghost function Nodes(): set<JackieRemoteIndex>
      reads this
    {
      All(nodes)
    }

    /** Every bucket's chain is linked and no node is in two chains. */
    ghost predicate Chained()
      reads this, remoteSystemLookup, Nodes()
    {
      && |nodes| == |slots| == remoteSystemLookup.Length == Buckets()
      && (forall b :: 0 <= b < |nodes| ==>
            Linked(remoteSystemLookup[b], nodes[b]) && Distinct(nodes[b]) && Holds(nodes[b], slots[b]))
      && Apart(nodes)
    }

    ghost predicate Valid()
      reads this, remoteSystemLookup, addresses, Nodes()
    {
      && maxConnections > 0 && addresses.Length == maxConnections && Chained()
      && Agrees(slots, addresses[..], content, hash, Buckets())
    }

    constructor (connections: nat, toHashCode: Address -> nat)
      requires connections > 0
      ensures Valid() && content == map[] && maxConnections == connections && hash == toHashCode
      ensures fresh(addresses) && fresh(remoteSystemLookup) && Nodes() == {} && remoteSystemLookup.Length == 8 * connections - 1
    {
      maxConnections := connections;
      hash := toHashCode;
      addresses := new Address[connections](_ => NullAddress);
      var n := connections * LOOKUP_HASH_MULTIPLE - 1;
      remoteSystemLookup := new JackieRemoteIndex?[n](_ => null);
      nodes := seq(n, _ => []);
      slots := seq(n, _ => []);
      content := map[];
    }

    /** The slot last referenced for an address and not dereferenced since, or -1. */
    method GetRemoteSystemIndex(sa: Address) returns (r: int)
      requires Valid()
      ensures r == if sa in content then content[sa] else -1
    {
      hide Apart, All, Agrees, BucketOf, Linked, Holds;
      var cur := remoteSystemLookup[Bucket(sa)];
      ghost var chain, i := nodes[Bucket(sa)], 0;
      FirstNode(Bucket(sa));
      while cur != null
        invariant 0 <= i <= |chain| && cur == if i < |chain| then chain[i] else null
        invariant forall j :: 0 <= j < i ==> addresses[slots[Bucket(sa)][j]] != sa
        decreases |chain| - i
      {
        NodeAt(sa, i);
        if addresses[cur.index] == sa {
          return cur.index;
        }
        cur := cur.next;
        i := i + 1;
      }
      Met(sa);
      r := -1;
    }

    lemma FirstNode(b: int)
      requires Valid() && 0 <= b < |nodes|
      ensures |nodes[b]| == |slots[b]| && forall j :: 0 <= j < |slots[b]| ==> 0 <= slots[b][j] < addresses.Length
      ensures remoteSystemLookup[b] == if nodes[b] == [] then null else nodes[b][0]
    {
    }

    /** What a walk along the chain of an address meets. */
    lemma NodeAt(sa: Address, i: int)
      requires Valid() && 0 <= i < |nodes[Bucket(sa)]| == |slots[Bucket(sa)]|
      ensures var chain, node := nodes[Bucket(sa)], nodes[Bucket(sa)][i];
              && 0 <= node.index == slots[Bucket(sa)][i] < addresses.Length
              && node.next == (if i + 1 < |chain| then chain[i + 1] else null)
              && (addresses[node.index] == sa ==> sa in content && content[sa] == node.index)
    {
      hide BucketOf;
      assert Linked(remoteSystemLookup[Bucket(sa)], nodes[Bucket(sa)]);
    }

    /** An address of the map is met in its chain. */
    lemma Met(sa: Address)
      requires Valid()
      ensures sa in content ==>
                exists j :: 0 <= j < |slots[Bucket(sa)]| && 0 <= slots[Bucket(sa)][j] < addresses.Length
                            && addresses[slots[Bucket(sa)][j]] == sa
    {
      if sa in content {
        NamedAt(sa);
        var j :| 0 <= j < |slots[Bucket(sa)]| && slots[Bucket(sa)][j] == content[sa];
        assert addresses[..][content[sa]] == sa;
      }
    }

    /** Drop the reference for an address, if there is one. */
    method DeRefRemoteSystem(sa: Address)
      requires Valid()
      modifies `nodes, `slots, `content, remoteSystemLookup, Nodes()`next
      ensures Valid() && content == old(content) - {sa} && Nodes() <= old(Nodes())
    {
      hide Agrees, BucketOf, Linked, Holds, Apart, Distinct;
      var hashIndex := Bucket(sa);
      FirstNode(hashIndex);
      var cur := remoteSystemLookup[hashIndex];
      var last: JackieRemoteIndex? := null;
      ghost var chain, i := nodes[hashIndex], 0;
      while cur != null
        invariant 0 <= i <= |chain| && cur == if i < |chain| then chain[i] else null
        invariant last == if i == 0 then null else chain[i - 1]
        invariant Valid() && nodes == old(nodes) && slots == old(slots) && content == old(content)
        invariant |slots[hashIndex]| == |chain|
        invariant forall j :: 0 <= j < i ==> 0 <= slots[hashIndex][j] < addresses.Length && addresses[slots[hashIndex][j]] != sa
        decreases |chain| - i
      {
        NodeAt(sa, i);
        if addresses[cur.index] == sa {
          Unlink(hashIndex, cur, last, i, sa);
          return;
        }
        last := cur;
        cur := cur.next;
        i := i + 1;
      }
      Met(sa);
      assert content == content - {sa};
    }

    /** The chains once a node has been taken out of one. */
    lemma Shortened(b: int, i: int)
      requires Chained() && 0 <= b < |nodes| && 0 <= i < |nodes[b]|
      ensures forall j :: 0 <= j < |Without(nodes[b], i)| ==> Without(nodes[b], i)[j] in nodes[b]
      ensures Distinct(Without(nodes[b], i)) && Holds(Without(nodes[b], i), Without(slots[b], i))
      ensures Apart(nodes[b := Without(nodes[b], i)]) && All(nodes[b := Without(nodes[b], i)]) <= All(nodes)
    {
      hide Without, Distinct, Apart, Linked, All;
      WithoutDistinct(nodes[b], i);
      HoldsWithout(nodes[b], slots[b], i);
      ApartShrinks(nodes, b, Without(nodes[b], i));
      AllShrinks(nodes, b, Without(nodes[b], i));
    }

    /** Take node i out of its chain. */
    method Unlink(hashIndex: int, cur: JackieRemoteIndex, last: JackieRemoteIndex?, ghost i: int, ghost a: Address)
      requires Valid() && 0 <= hashIndex < |nodes| && 0 <= i < |nodes[hashIndex]| && cur == nodes[hashIndex][i]
      requires last == if i == 0 then null else nodes[hashIndex][i - 1]
      requires hashIndex == Bucket(a) && 0 <= slots[hashIndex][i] < addresses.Length && addresses[slots[hashIndex][i]] == a
      modifies `nodes, `slots, `content, remoteSystemLookup, Nodes()`next
      ensures Valid() && Nodes() <= old(Nodes()) && content == old(content) - {a}
    {
      hide Agrees, Without, Distinct, BucketOf, Apart, Linked, All;
      ghost var chain := nodes[hashIndex];
      AgreesWithout(slots, addresses[..], content, hash, Buckets(), a, i);
      Shortened(hashIndex, i);
      Bypass(hashIndex, cur, last, i);
      nodes := nodes[hashIndex := Without(chain, i)];
      slots := slots[hashIndex := Without(slots[hashIndex], i)];
      content := content - {a};
    }

    /** Lead the link to node i past it; the other chains stay linked. */
    method Bypass(hashIndex: int, cur: JackieRemoteIndex, last: JackieRemoteIndex?, ghost i: int)
      requires Chained() && 0 <= hashIndex < |nodes| && 0 <= i < |nodes[hashIndex]|
      requires cur == nodes[hashIndex][i] && last == if i == 0 then null else nodes[hashIndex][i - 1]
      modifies remoteSystemLookup, Nodes()`next
      ensures Linked(remoteSystemLookup[hashIndex], Without(nodes[hashIndex], i))
      ensures forall c :: 0 <= c < |nodes| && c != hashIndex ==> Linked(remoteSystemLookup[c], nodes[c])
    {
      hide Apart, Holds;
      ghost var chain := nodes[hashIndex];
      if last == null {
        remoteSystemLookup[hashIndex] := cur.next;
      } else {
        last.next := cur.next;
      }
      ghost var rest := Without(chain, i);
      forall j | 0 <= j < |rest|
        ensures rest[j].next == if j + 1 < |rest| then rest[j + 1] else null
      {
        assert rest[j] == chain[if j < i then j else j + 1];
      }
      forall c | 0 <= c < |nodes| && c != hashIndex
        ensures Linked(remoteSystemLookup[c], nodes[c])
      {
        assert old(Linked(remoteSystemLookup[c], nodes[c]));
        forall k | 0 <= k < |nodes[c]|
          ensures nodes[c][k].next == old(nodes[c][k].next)
        {
          ApartAt(nodes, c, hashIndex, k);
        }
      }
    }

    /** The slot is found at the null address, which is not dereferenced when the slot is
        referenced for another one. */
    ghost predicate Doubles(sa: Address, index: int)
      reads this
    {
      sa != NullAddress && NullAddress in content && content[NullAddress] == index
    }

    /** The slot is named by two nodes. */
    ghost predicate Twice(index: int)
      reads this
    {
      exists b, i, c, j ::
        && 0 <= b < |slots| && 0 <= i < |slots[b]| && 0 <= c < |slots| && 0 <= j < |slots[c]| && (b, i) != (c, j)
        && slots[b][i] == slots[c][j] == index
    }

    /** Drop the reference for the address a slot holds, if it is found at that slot. */
    method Release(index: int)
      requires Valid() && 0 <= index < addresses.Length
      modifies `nodes, `slots, `content, remoteSystemLookup, Nodes()`next
      ensures Valid() && Nodes() <= old(Nodes())
      ensures var a := addresses[index];
              content == if a != NullAddress && a in old(content) && old(content[a]) == index then old(content) - {a}
                         else old(content)
    {
      hide Agrees, Chained;
      var before := addresses[index];
      if before != NullAddress {
        var found := GetRemoteSystemIndex(before);
        if found == index {
          DeRefRemoteSystem(before);
        }
      }
    }

    /** Make an inactive slot the one that an address is found at. */
    method RefRemoteEndPoint(sa: Address, index: int)
      requires Valid() && 0 <= index < maxConnections
      modifies `nodes, `slots, `content, remoteSystemLookup, addresses, Nodes()`next
      ensures addresses[..] == old(addresses[..])[index := sa] && fresh(Nodes() - old(Nodes()))
      ensures !old(Doubles(sa, index)) ==> Valid() && content == Referenced(old(content), sa, index)
      ensures old(Doubles(sa, index)) ==> Chained() && Twice(index) && !Valid()
    {
      hide Agrees, BucketOf, Chained, Twice;
      OnlyOwner(index);
      ghost var before := addresses[index];
      Release(index);
      DeRefRemoteSystem(sa);
      if !old(Doubles(sa, index)) {
        Unreferenced(old(content), before, sa, index);
      }
      var rsi := new JackieRemoteIndex(index);
      ghost var chains := slots;
      if old(Doubles(sa, index)) {
        NamedAt(NullAddress);
      }
      Append(sa, index, rsi);
      if old(Doubles(sa, index)) {
        TwoNodes(chains, sa, index);
      }
    }

    lemma NamedAt(a: Address)
      requires Valid() && a in content
      ensures 0 <= Bucket(a) < |slots| && content[a] in slots[Bucket(a)]
    {
    }

    /** A slot already in some chain has been appended to a chain. */
    lemma TwoNodes(before: seq<seq<int>>, sa: Address, index: int)
      requires 0 <= Bucket(sa) < |before| && slots == before[Bucket(sa) := before[Bucket(sa)] + [index]]
      requires 0 <= Bucket(NullAddress) < |before| && index in before[Bucket(NullAddress)]
      ensures Twice(index) && !Valid()
    {
      var b, c := Bucket(NullAddress), Bucket(sa);
      var i :| 0 <= i < |before[b]| && before[b][i] == index;
      assert slots[b][i] == slots[c][|before[c]|] == index;
    }

    /** A slot is in at most one chain, once, and there in the bucket of the address it holds, at
        which it is found; slots that hold an address without being found at it are in none. */
    lemma OneChainEach(b: int, i: int, c: int, j: int)
      requires Valid() && 0 <= b < |nodes| && 0 <= i < |nodes[b]| && 0 <= c < |nodes| && 0 <= j < |nodes[c]|
      ensures 0 <= nodes[b][i].index < addresses.Length
      ensures var a := addresses[nodes[b][i].index]; b == Bucket(a) && a in content && content[a] == nodes[b][i].index
      ensures nodes[b][i].index == nodes[c][j].index ==> b == c && i == j
    {
      assert nodes[b][i].index == slots[b][i] && nodes[c][j].index == slots[c][j];
    }

    /** Only the address a slot holds can be mapped to it. */
    lemma OnlyOwner(index: int)
      requires Valid() && 0 <= index < addresses.Length
      ensures forall a :: a in content && content[a] == index ==> a == addresses[index]
    {
    }

    /** Put a node at the end of the chain of its address. */
    method Append(sa: Address, index: int, rsi: JackieRemoteIndex)
      requires Valid() && 0 <= index < maxConnections && rsi.index == index && rsi.next == null
      requires rsi !in Nodes() && sa !in content
      modifies `nodes, `slots, `content, remoteSystemLookup, addresses, Nodes()`next
      ensures Chained() && addresses[..] == old(addresses[..])[index := sa]
      ensures 0 <= Bucket(sa) < |old(slots)| && slots == old(slots)[Bucket(sa) := old(slots)[Bucket(sa)] + [index]]
      ensures content == old(content)[sa := index] && Nodes() == old(Nodes()) + {rsi}
      ensures (forall a :: a in old(content) ==> old(content)[a] != index) ==> Valid()
    {
      hide Agrees, BucketOf, Apart, Linked, All, Holds, Distinct;
      if forall a :: a in content ==> content[a] != index {
        AgreesAppend(slots, addresses[..], content, hash, Buckets(), sa, index);
      }
      var hashIndex := Bucket(sa);
      NotListed(rsi);
      ApartGrows(nodes, hashIndex, rsi);
      AllGrows(nodes, hashIndex, rsi);
      DistinctGrows(nodes[hashIndex], rsi);
      HoldsMore(nodes[hashIndex], slots[hashIndex], rsi, index);
      addresses[index] := sa;
      Hook(hashIndex, rsi);
      nodes := nodes[hashIndex := nodes[hashIndex] + [rsi]];
      slots := slots[hashIndex := slots[hashIndex] + [index]];
      content := content[sa := index];
    }

    lemma NotListed(rsi: JackieRemoteIndex)
      requires rsi !in Nodes()
      ensures forall c :: 0 <= c < |nodes| ==> rsi !in nodes[c]
    {
      forall c, i | 0 <= c < |nodes| && 0 <= i < |nodes[c]|
        ensures nodes[c][i] != rsi
      {
        assert nodes[c][i] in Nodes();
      }
    }

    method Hook(hashIndex: int, rsi: JackieRemoteIndex)
      requires Chained() && 0 <= hashIndex < |nodes| && rsi.next == null && forall c :: 0 <= c < |nodes| ==> rsi !in nodes[c]
      modifies remoteSystemLookup, Nodes()`next
      ensures Linked(remoteSystemLookup[hashIndex], nodes[hashIndex] + [rsi])
      ensures forall c :: 0 <= c < |nodes| && c != hashIndex ==> Linked(remoteSystemLookup[c], nodes[c])
    {
      hide Apart, Holds;
      ghost var chain := nodes[hashIndex];
      if remoteSystemLookup[hashIndex] == null {
        remoteSystemLookup[hashIndex] := rsi;
      } else {
        var cur := remoteSystemLookup[hashIndex];
        ghost var i := 0;
        while cur.next != null
          invariant 0 <= i < |chain| && cur == chain[i]
          decreases |chain| - i
        {
          cur := cur.next;
          i := i + 1;
        }
        cur.next := rsi;
        assert i == |chain| - 1;
      }
      forall c | 0 <= c < |nodes| && c != hashIndex
        ensures Linked(remoteSystemLookup[c], nodes[c])
      {
        assert old(Linked(remoteSystemLookup[c], nodes[c]));
        forall k | 0 <= k < |nodes[c]|
          ensures nodes[c][k].next == old(nodes[c][k].next)
        {
          ApartAt(nodes, c, hashIndex, k);
        }
      }
    }
  }

  lemma HoldsMore(nodes: seq<JackieRemoteIndex>, s: seq<int>, x: JackieRemoteIndex, index: int)
    requires Holds(nodes, s) && x.index == index
    ensures Holds(nodes + [x], s + [index])
  {
  }

  lemma HoldsWithout(nodes: seq<JackieRemoteIndex>, s: seq<int>, i: int)
    requires Holds(nodes, s) && 0 <= i < |s|
    ensures Holds(Without(nodes, i), Without(s, i))
  {
  }

  // -------------------------------------------------------------------- runs

  datatype Op = Ref(sa: Address, index: int) | DeRef(sa: Address)

  function Apply(m: map<Address, int>, op: Op): map<Address, int> {
    match op
    case Ref(sa, index) => Referenced(m, sa, index)
    case DeRef(sa) => m - {sa}
  }

  function Run(ops: seq<Op>): map<Address, int> {
    if ops == [] then map[] else Apply(Run(ops[..|ops| - 1]), ops[|ops| - 1])
  }

  /** The slot exists, and is not found at the null address unless it is referenced for that
      again. */
  predicate Allowed(m: map<Address, int>, connections: nat, op: Op) {
    op.Ref? ==>
      && 0 <= op.index < connections
      && (op.sa == NullAddress || NullAddress !in m || m[NullAddress] != op.index)
  }

  predicate AllAllowed(connections: nat, ops: seq<Op>) {
    forall i :: 0 <= i < |ops| ==> Allowed(Run(ops[..i]), connections, ops[i])
  }

  /** After any such run the systems are found just where they were last referenced. */
  method RunOnSystems(connections: nat, toHashCode: Address -> nat, ops: seq<Op>) returns (r: RemoteSystems)
    requires connections > 0 && AllAllowed(connections, ops)
    ensures r.Valid() && r.maxConnections == connections && r.content == Run(ops)
  {
    hide Agrees, Referenced;
    r := new RemoteSystems(connections, toHashCode);
    for i := 0 to |ops|
      invariant fresh(r) && fresh(r.addresses) && fresh(r.remoteSystemLookup) && fresh(r.Nodes())
      invariant r.Valid() && r.maxConnections == connections && r.content == Run(ops[..i])
    {
      assert ops[..i + 1][..i] == ops[..i];
      assert Allowed(Run(ops[..i]), connections, ops[i]);
      match ops[i]
      case Ref(sa, index) => r.RefRemoteEndPoint(sa, index);
      case DeRef(sa) => r.DeRefRemoteSystem(sa);
    }
    assert ops[..|ops|] == ops;
  }

  /** A slot that is referenced for the null address and then for another one is named twice. */
  method NamedTwice(connections: nat, toHashCode: Address -> nat, sa: Address) returns (r: RemoteSystems)
    requires connections > 0 && sa != NullAddress
    ensures r.Chained() && r.Twice(0) && !r.Valid()
  {
    hide Agrees;
    r := new RemoteSystems(connections, toHashCode);
    r.RefRemoteEndPoint(NullAddress, 0);
    r.RefRemoteEndPoint(sa, 0);
  }
}
