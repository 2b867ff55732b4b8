/** Properties of the ketama ring that relate several operations: the
    well-formedness invariant and what preserves it, removal's idempotence and
    its inverse relation to addition, the minimal-disruption property of
    lookups, and the collision hazard of removal. */
module KetamaProperties {
  import opened GoTypes
  import opened Sorting
  import opened DecimalFormat
  import opened Ketama

  // ---------------------------------------------------------------------------
  // Replica key derivation
  // ---------------------------------------------------------------------------

  /** `"<nodeID>-<i>"` determines both the ID and the index: two replicas can
      only share a position through a collision of the hash itself. */
  lemma KeyStringInjective(a: string, i: nat, b: string, j: nat)
    ensures KeyString(a, i) == KeyString(b, j) <==> a == b && i == j
  {
    if KeyString(a, i) == KeyString(b, j) {
      var s := KeyString(a, i);
      var da, db := FormatInt(i), FormatInt(j);
      TrailingDigitsAfterDash(a, da);
      TrailingDigitsAfterDash(b, db);
      assert |da| == |db|;
      assert a == s[..|a|] && b == s[..|b|];
      assert da == s[|a| + 1..] && db == s[|b| + 1..];
      FormatIntInjective(i, j);
    }
  }

  // ---------------------------------------------------------------------------
  // addNode and NewKetama
  // ---------------------------------------------------------------------------

  /** Replica `i` of an added node sits on the ring and is owned by that node. */
  lemma AddNodeReplica<V>(hash: HashFn, r: Ring<V>, node: Node<V>, i: nat)
    requires i < r.virtualNodes
    ensures GenerateNodeKey(hash, node.id, i) in AddNode(hash, r, node).sortedKeys
    ensures Lookup(AddNode(hash, r, node).nodeHashMap, GenerateNodeKey(hash, node.id, i)) == node
  {
    var k := GenerateNodeKey(hash, node.id, i);
    var r' := AddNode(hash, r, node);
    assert k in NodeKeys(hash, node.id, r.virtualNodes);
    assert k in multiset(r'.sortedKeys);
  }

  /** Folding over `nodes + [n]` is folding over `nodes`, then adding `n`. */
  lemma {:induction false} AddNodesSnoc<V>(hash: HashFn, r: Ring<V>, nodes: seq<Node<V>>, n: Node<V>)
    ensures AddNodes(hash, r, nodes + [n]) == AddNode(hash, AddNodes(hash, r, nodes), n)
    decreases |nodes|
  {
    if |nodes| == 0 {
      assert nodes + [n] == [n];
      assert [n][1..] == [];
    } else {
      assert (nodes + [n])[0] == nodes[0];
      assert (nodes + [n])[1..] == nodes[1..] + [n];
      AddNodesSnoc(hash, AddNode(hash, r, nodes[0]), nodes[1..], n);
    }
  }

  /** `NewKetama` over a list with one more node is `addNode` of that node on
      the ring built from the rest: construction is a left fold of `addNode`. */
  lemma NewKetamaSnoc<V>(hash: HashFn, nodes: seq<Node<V>>, n: Node<V>, virtualNodes: int)
    ensures NewKetama(hash, nodes + [n], virtualNodes) == AddNode(hash, NewKetama(hash, nodes, virtualNodes), n)
  {
    AddNodesSnoc(hash, Ring([], map[], virtualNodes), nodes, n);
  }

  /** On a freshly built ring with at least one position, every lookup
      succeeds and yields one of the nodes it was built from. */
  lemma NewKetamaLookup<V>(hash: HashFn, nodes: seq<Node<V>>, virtualNodes: int, key: string)
    requires |nodes| > 0 && virtualNodes > 0
    ensures Locate(hash, NewKetama(hash, nodes, virtualNodes), key).1
    ensures Locate(hash, NewKetama(hash, nodes, virtualNodes), key).0 in nodes
  {
    var r := NewKetama(hash, nodes, virtualNodes);
    assert |nodes| * virtualNodes > 0;
    var k := SuccessorKey(r.sortedKeys, hash(key));
    assert k in multiset(AllKeys(hash, nodes, virtualNodes));
  }

  // ---------------------------------------------------------------------------
  // The ring invariant
  // ---------------------------------------------------------------------------

  /** Positions ascending; the positions and the map's keys are the same set;
      every map entry sits at one of its owner's replica positions. */
  ghost predicate Valid<V>(hash: HashFn, r: Ring<V>) {
    && Sorted(r.sortedKeys)
    && (forall k :: k in r.sortedKeys <==> k in r.nodeHashMap)
    && (forall k :: k in r.nodeHashMap ==> k in NodeKeys(hash, r.nodeHashMap[k].id, r.virtualNodes))
  }

  /** No position owned by a node other than `nodeID` is also one of
      `nodeID`'s replica positions. */
  ghost predicate NoCollision<V>(hash: HashFn, r: Ring<V>, nodeID: string) {
    forall k :: k in r.nodeHashMap && r.nodeHashMap[k].id != nodeID ==> k !in NodeKeys(hash, nodeID, r.virtualNodes)
  }

  /** Validity after an addition, stated over the facts it needs: `added` are
      `node`'s replica positions, now on the ring and owned by `node`. */
  lemma ValidAfterAdding<V>(hash: HashFn, r: Ring<V>, r1: Ring<V>, added: seq<uint32>, node: Node<V>)
    requires Valid(hash, r)
    requires added == NodeKeys(hash, node.id, r.virtualNodes)
    requires r1.virtualNodes == r.virtualNodes
    requires Sorted(r1.sortedKeys)
    requires multiset(r1.sortedKeys) == multiset(r.sortedKeys) + multiset(added)
    requires forall k :: k in r1.nodeHashMap <==> k in r.nodeHashMap || k in added
    requires forall k :: k in added ==> r1.nodeHashMap[k] == node
    requires forall k :: k in r.nodeHashMap && k !in added ==> r1.nodeHashMap[k] == r.nodeHashMap[k]
    ensures Valid(hash, r1)
  {
    forall k
      ensures k in r1.sortedKeys <==> k in r1.nodeHashMap
    {
      assert k in r1.sortedKeys <==> k in multiset(r1.sortedKeys);
      assert k in r.sortedKeys <==> k in multiset(r.sortedKeys);
    }
  }

  lemma AddNodeValid<V>(hash: HashFn, r: Ring<V>, node: Node<V>)
    requires Valid(hash, r)
    ensures Valid(hash, AddNode(hash, r, node))
  {
    ValidAfterAdding(hash, r, AddNode(hash, r, node), NodeKeys(hash, node.id, r.virtualNodes), node);
  }

  lemma {:induction false} AddNodesValid<V>(hash: HashFn, r: Ring<V>, nodes: seq<Node<V>>)
    requires Valid(hash, r)
    ensures Valid(hash, AddNodes(hash, r, nodes))
    decreases |nodes|
  {
    if |nodes| > 0 {
      AddNodeValid(hash, r, nodes[0]);
      AddNodesValid(hash, AddNode(hash, r, nodes[0]), nodes[1..]);
    }
  }

  /** Every constructed ring is well formed, whatever the nodes (duplicate IDs
      and colliding replicas included) and whatever the replica count. */
  lemma NewKetamaValid<V>(hash: HashFn, nodes: seq<Node<V>>, virtualNodes: int)
    ensures Valid(hash, NewKetama(hash, nodes, virtualNodes))
  {
    AddNodesValid(hash, Ring([], map[], virtualNodes), nodes);
  }

  /** Removal keeps the ring well formed provided none of the removed ID's
      replica positions is owned by another node. */
  lemma RemoveNodeValid<V>(hash: HashFn, r: Ring<V>, nodeID: string)
    requires Valid(hash, r)
    requires NoCollision(hash, r, nodeID)
    ensures Valid(hash, RemoveNode(hash, r, nodeID))
  {
    var r' := RemoveNode(hash, r, nodeID);
    forall k
      ensures k in r'.sortedKeys <==> k in r'.nodeHashMap
    {
      assert k in r'.sortedKeys <==> k in multiset(r'.sortedKeys);
      assert k in r.sortedKeys <==> k in multiset(r.sortedKeys);
    }
  }

  /** On a well-formed ring every lookup resolves to a node stored in the map,
      never to a default read of a missing position. */
  lemma ValidLookupRegistered<V>(hash: HashFn, r: Ring<V>, key: string)
    requires Valid(hash, r)
    requires |r.sortedKeys| > 0
    ensures Locate(hash, r, key).1
    ensures Locate(hash, r, key).0 in r.nodeHashMap.Values
  {
    var k := SuccessorKey(r.sortedKeys, hash(key));
    assert r.nodeHashMap[k] in r.nodeHashMap.Values;
  }

  // ---------------------------------------------------------------------------
  // Balance when nothing collides
  // ---------------------------------------------------------------------------

  /** No two nodes of `nodes` share an ID. */
  predicate DistinctIds<V>(nodes: seq<Node<V>>) {
    forall j1, j2 :: 0 <= j1 < j2 < |nodes| ==> nodes[j1].id != nodes[j2].id
  }

  /** The checksum separates the replica strings of `nodes`: two replica
      strings `"<id>-<i>"` (with `i < v`) that hash alike are the same string. */
  ghost predicate ReplicasSeparated<V>(hash: HashFn, nodes: seq<Node<V>>, v: int) {
    forall j1, i1: nat, j2, i2: nat ::
      0 <= j1 < |nodes| && 0 <= j2 < |nodes| && i1 < v && i2 < v &&
      GenerateNodeKey(hash, nodes[j1].id, i1) == GenerateNodeKey(hash, nodes[j2].id, i2) ==>
      KeyString(nodes[j1].id, i1) == KeyString(nodes[j2].id, i2)
  }

  /** The map positions owned by `node`. */
  ghost function OwnedPositions<V>(m: map<uint32, Node<V>>, node: Node<V>): set<uint32> {
    set k | k in m && m[k] == node
  }

  /** Without collisions, a position identifies the node and the replica
      index that generated it. */
  lemma ReplicaPositionsUnique<V>(hash: HashFn, nodes: seq<Node<V>>, v: int, j1: nat, i1: nat, j2: nat, i2: nat)
    requires DistinctIds(nodes) && ReplicasSeparated(hash, nodes, v)
    requires j1 < |nodes| && j2 < |nodes| && i1 < v && i2 < v
    ensures GenerateNodeKey(hash, nodes[j1].id, i1) == GenerateNodeKey(hash, nodes[j2].id, i2) ==>
              j1 == j2 && i1 == i2
  {
    KeyStringInjective(nodes[j1].id, i1, nodes[j2].id, i2);
  }

  /** The replica index behind a position of `NodeKeys`. */
  lemma ReplicaIndex(hash: HashFn, id: string, v: int, k: uint32) returns (i: nat)
    requires k in NodeKeys(hash, id, v)
    ensures i < v && GenerateNodeKey(hash, id, i) == k
  {
    var keys := NodeKeys(hash, id, v);
    var n :| 0 <= n < |keys| && keys[n] == k;
    i := n;
  }

  /** Without collisions, the constructor's positions are pairwise distinct. */
  lemma {:induction false} AllKeysDistinct<V>(hash: HashFn, nodes: seq<Node<V>>, v: int)
    requires DistinctIds(nodes) && ReplicasSeparated(hash, nodes, v)
    ensures Distinct(AllKeys(hash, nodes, v))
    decreases |nodes|
  {
    if |nodes| > 0 {
      var rest := nodes[1..];
      assert forall j :: 0 <= j < |rest| ==> rest[j] == nodes[j + 1];
      AllKeysDistinct(hash, rest, v);
      var head := NodeKeys(hash, nodes[0].id, v);
      var tail := AllKeys(hash, rest, v);
      var all := AllKeys(hash, nodes, v);
      assert all == head + tail;
      forall a, b | 0 <= a < b < |all|
        ensures all[a] != all[b]
      {
        if b < |head| {
          ReplicaPositionsUnique(hash, nodes, v, 0, a, 0, b);
        } else if a < |head| {
          var k := tail[b - |head|];
          var w := LastWriter(hash, rest, v, k);
          var i := ReplicaIndex(hash, rest[w].id, v, k);
          ReplicaPositionsUnique(hash, nodes, v, 0, a, w + 1, i);
        } else {
          assert all[a] == tail[a - |head|] && all[b] == tail[b - |head|];
        }
      }
    }
  }

  /** Over the constructor's map facts: node `j` owns exactly its own
      replica positions, `Max0(v)` of them. */
  lemma OwnedFromFacts<V>(hash: HashFn, nodes: seq<Node<V>>, v: int, m: map<uint32, Node<V>>, j: nat)
    requires DistinctIds(nodes) && ReplicasSeparated(hash, nodes, v)
    requires forall k :: k in m <==> k in AllKeys(hash, nodes, v)
    requires forall k :: k in m ==> m[k] == nodes[LastWriter(hash, nodes, v, k)]
    requires j < |nodes|
    ensures |OwnedPositions(m, nodes[j])| == Max0(v)
  {
    var own := NodeKeys(hash, nodes[j].id, v);
    forall a, b | 0 <= a < b < |own|
      ensures own[a] != own[b]
    {
      ReplicaPositionsUnique(hash, nodes, v, j, a, j, b);
    }
    DistinctCard(own);
    forall k | k in own
      ensures k in m && m[k] == nodes[j]
    {
      var i := ReplicaIndex(hash, nodes[j].id, v, k);
      var w := LastWriter(hash, nodes, v, k);
      var i' := ReplicaIndex(hash, nodes[w].id, v, k);
      ReplicaPositionsUnique(hash, nodes, v, j, i, w, i');
    }
    assert OwnedPositions(m, nodes[j]) == set x | x in own;
  }

  /** The balance argument over the constructor's map facts. */
  lemma BalancedFromFacts<V>(hash: HashFn, nodes: seq<Node<V>>, v: int, m: map<uint32, Node<V>>)
    requires DistinctIds(nodes) && ReplicasSeparated(hash, nodes, v)
    requires forall k :: k in m <==> k in AllKeys(hash, nodes, v)
    requires forall k :: k in m ==> m[k] == nodes[LastWriter(hash, nodes, v, k)]
    ensures |m| == |nodes| * Max0(v)
    ensures forall j :: 0 <= j < |nodes| ==> |OwnedPositions(m, nodes[j])| == Max0(v)
  {
    var all := AllKeys(hash, nodes, v);
    AllKeysDistinct(hash, nodes, v);
    DistinctCard(all);
    assert m.Keys == set x | x in all;
    forall j | 0 <= j < |nodes|
      ensures |OwnedPositions(m, nodes[j])| == Max0(v)
    {
      OwnedFromFacts(hash, nodes, v, m, j);
    }
  }

  /** When IDs are distinct and no replica strings collide, the constructed
      map has one entry per replica, and every node owns exactly
      `virtualNodes` of them. */
  lemma NewKetamaBalanced<V>(hash: HashFn, nodes: seq<Node<V>>, virtualNodes: int)
    requires DistinctIds(nodes) && ReplicasSeparated(hash, nodes, virtualNodes)
    ensures |NewKetama(hash, nodes, virtualNodes).nodeHashMap| == |nodes| * Max0(virtualNodes)
    ensures forall j :: 0 <= j < |nodes| ==>
              |OwnedPositions(NewKetama(hash, nodes, virtualNodes).nodeHashMap, nodes[j])| == Max0(virtualNodes)
  {
    BalancedFromFacts(hash, nodes, virtualNodes, NewKetama(hash, nodes, virtualNodes).nodeHashMap);
  }

  // ---------------------------------------------------------------------------
  // RemoveNode
  // ---------------------------------------------------------------------------

  /** The filter keeps everything when no position is owned by `nodeID`. */
  lemma {:induction false} KeepOthersAll<V>(keys: seq<uint32>, m: map<uint32, Node<V>>, nodeID: string)
    requires forall k :: k in keys ==> Lookup(m, k).id != nodeID
    ensures KeepOthers(keys, m, nodeID) == keys
    decreases |keys|
  {
    if |keys| > 0 {
      KeepOthersAll(keys[1..], m, nodeID);
      assert keys == [keys[0]] + keys[1..];
    }
  }

  /** After removing `nodeID`, no remaining position reads as owned by it. */
  lemma RemovedUnowned<V>(hash: HashFn, r: Ring<V>, nodeID: string, k: uint32)
    requires nodeID != ""
    requires k in RemoveNode(hash, r, nodeID).sortedKeys
    ensures Lookup(RemoveNode(hash, r, nodeID).nodeHashMap, k).id != nodeID
  {
    var r' := RemoveNode(hash, r, nodeID);
    assert k in multiset(r'.sortedKeys);
  }

  /** Removing an ID that owns no position and none of whose replica
      positions is a map key changes nothing. */
  lemma RemoveAbsent<V>(hash: HashFn, r: Ring<V>, nodeID: string)
    requires forall k :: k in r.sortedKeys ==> Lookup(r.nodeHashMap, k).id != nodeID
    requires forall i :: 0 <= i < r.virtualNodes ==> GenerateNodeKey(hash, nodeID, i) !in r.nodeHashMap
    ensures RemoveNode(hash, r, nodeID) == r
  {
    var r' := RemoveNode(hash, r, nodeID);
    KeepOthersAll(r.sortedKeys, r.nodeHashMap, nodeID);
    var g := NodeKeys(hash, nodeID, r.virtualNodes);
    assert forall k :: k in g ==> k !in r.nodeHashMap;
    assert r'.nodeHashMap.Keys == r.nodeHashMap.Keys;
  }

  /** Removing a non-empty ID twice is the same as removing it once. */
  lemma RemoveIdempotent<V>(hash: HashFn, r: Ring<V>, nodeID: string)
    requires nodeID != ""
    ensures RemoveNode(hash, RemoveNode(hash, r, nodeID), nodeID) == RemoveNode(hash, r, nodeID)
  {
    var r1 := RemoveNode(hash, r, nodeID);
    forall k | k in r1.sortedKeys
      ensures Lookup(r1.nodeHashMap, k).id != nodeID
    {
      RemovedUnowned(hash, r, nodeID, k);
    }
    RemoveAbsent(hash, r1, nodeID);
  }

  /** The round trip stated over the facts it needs: positions `added` were put
      on the ring and in the map for `node` (yielding `r1`), then every
      position reading as owned by `node.id` was filtered out and `added`
      deleted from the map (yielding `r2`). */
  lemma RoundTripFromFacts<V>(r: Ring<V>, r1: Ring<V>, r2: Ring<V>, added: seq<uint32>, node: Node<V>)
    requires Sorted(r.sortedKeys) && Sorted(r2.sortedKeys)
    requires r2.virtualNodes == r.virtualNodes
    requires forall k :: k in added ==> k !in r.sortedKeys && k !in r.nodeHashMap
    requires forall k :: k in r.sortedKeys ==> Lookup(r.nodeHashMap, k).id != node.id
    // what adding did
    requires multiset(r1.sortedKeys) == multiset(r.sortedKeys) + multiset(added)
    requires forall k :: k in r1.nodeHashMap <==> k in r.nodeHashMap || k in added
    requires forall k :: k in added ==> r1.nodeHashMap[k] == node
    requires forall k :: k in r.nodeHashMap && k !in added ==> r1.nodeHashMap[k] == r.nodeHashMap[k]
    // what removing did
    requires forall k :: multiset(r2.sortedKeys)[k] ==
               if Lookup(r1.nodeHashMap, k).id == node.id then 0 else multiset(r1.sortedKeys)[k]
    requires forall k :: k in r2.nodeHashMap <==> k in r1.nodeHashMap && k !in added
    requires forall k :: k in r2.nodeHashMap ==> r2.nodeHashMap[k] == r1.nodeHashMap[k]
    ensures r2 == r
  {
    forall k
      ensures multiset(r2.sortedKeys)[k] == multiset(r.sortedKeys)[k]
    {
      if k in added {
        assert Lookup(r1.nodeHashMap, k) == node;
        assert k !in multiset(r.sortedKeys);
      } else {
        assert Lookup(r1.nodeHashMap, k) == Lookup(r.nodeHashMap, k);
        assert k !in multiset(added);
        if k !in r.sortedKeys {
          assert k !in multiset(r.sortedKeys);
        }
      }
    }
    assert multiset(r2.sortedKeys) == multiset(r.sortedKeys);
    SortedUnique(r2.sortedKeys, r.sortedKeys);
    assert r2.nodeHashMap.Keys == r.nodeHashMap.Keys;
  }

  /** Adding a node and removing its ID restores the ring exactly, provided
      the ring is sorted, the ID owns no position yet, and none of its replica
      positions is already on the ring or in the map. */
  lemma AddRemoveRoundTrip<V>(hash: HashFn, r: Ring<V>, node: Node<V>)
    requires Sorted(r.sortedKeys)
    requires forall k :: k in r.sortedKeys ==> Lookup(r.nodeHashMap, k).id != node.id
    requires forall k :: k in NodeKeys(hash, node.id, r.virtualNodes) ==> k !in r.sortedKeys && k !in r.nodeHashMap
    ensures RemoveNode(hash, AddNode(hash, r, node), node.id) == r
  {
    var r1 := AddNode(hash, r, node);
    RoundTripFromFacts(r, r1, RemoveNode(hash, r1, node.id), NodeKeys(hash, node.id, r.virtualNodes), node);
  }

  // ---------------------------------------------------------------------------
  // GetNode
  // ---------------------------------------------------------------------------

  /** After removing a non-empty ID, no lookup answers a node with that ID. */
  lemma RemovedNeverReturned<V>(hash: HashFn, r: Ring<V>, nodeID: string, key: string)
    requires nodeID != ""
    ensures Locate(hash, RemoveNode(hash, r, nodeID), key).0.id != nodeID
  {
    var r' := RemoveNode(hash, r, nodeID);
    if |r'.sortedKeys| > 0 {
      RemovedUnowned(hash, r, nodeID, SuccessorKey(r'.sortedKeys, hash(key)));
    }
  }

  /** If the position a hash lands on in a larger sorted ring is already a
      position of a smaller sorted ring, it is where the hash lands there too. */
  lemma SuccessorStable(small: seq<uint32>, large: seq<uint32>, h: uint32)
    requires Sorted(small) && Sorted(large) && |small| > 0 && |large| > 0
    requires forall x :: x in small ==> x in large
    requires SuccessorKey(large, h) in small
    ensures SuccessorKey(large, h) == SuccessorKey(small, h)
  {
    var k0, k1 := SuccessorKey(small, h), SuccessorKey(large, h);
    if h <= k0 {
      assert h <= k1 <= k0;
    } else {
      assert k1 < h;
    }
  }

  /** Minimal disruption: after adding a node to a sorted, non-empty ring,
      a key either lands on one of the new node's positions (and resolves to
      the new node) or resolves exactly as it did before. */
  lemma AddNodeMinimalDisruption<V>(hash: HashFn, r: Ring<V>, node: Node<V>, key: string)
    requires Sorted(r.sortedKeys) && |r.sortedKeys| > 0
    ensures SuccessorKey(AddNode(hash, r, node).sortedKeys, hash(key)) in NodeKeys(hash, node.id, r.virtualNodes) ==>
              Locate(hash, AddNode(hash, r, node), key) == (node, true)
    ensures SuccessorKey(AddNode(hash, r, node).sortedKeys, hash(key)) !in NodeKeys(hash, node.id, r.virtualNodes) ==>
              Locate(hash, AddNode(hash, r, node), key) == Locate(hash, r, key)
  {
    var g := NodeKeys(hash, node.id, r.virtualNodes);
    var r1 := AddNode(hash, r, node);
    var k1 := SuccessorKey(r1.sortedKeys, hash(key));
    if k1 !in g {
      MultisetGrowth(r.sortedKeys, g, r1.sortedKeys);
      SuccessorStable(r.sortedKeys, r1.sortedKeys, hash(key));
    }
  }

  /** Membership in `a + b` rearranged as `c`. */
  lemma MultisetGrowth(a: seq<uint32>, b: seq<uint32>, c: seq<uint32>)
    requires multiset(c) == multiset(a) + multiset(b)
    ensures forall x :: x in a ==> x in c
    ensures forall x :: x in c && x !in b ==> x in a
  {
    forall x | x in a
      ensures x in c
    {
      assert x in multiset(c);
    }
    forall x | x in c && x !in b
      ensures x in a
    {
      assert x in multiset(c);
      assert x !in multiset(b);
    }
  }

  // ---------------------------------------------------------------------------
  // The collision hazard
  // ---------------------------------------------------------------------------

  /** The checksum under which every string collides. */
  function Constant7(s: string): uint32 {
    7
  }

  /** Under `Constant7` nodes "a" and "b" both generate position 7 once, and
      "b" writes it last. */
  lemma CollidingKeys()
    ensures AllKeys<int>(Constant7, [Node("a", 1, Nil), Node("b", 1, Nil)], 1) == [7, 7]
    ensures LastWriter<int>(Constant7, [Node("a", 1, Nil), Node("b", 1, Nil)], 1, 7) == 1
  {
    var a: Node<int> := Node("a", 1, Nil);
    var b: Node<int> := Node("b", 1, Nil);
    assert NodeKeys(Constant7, "a", 1) == [7] && NodeKeys(Constant7, "b", 1) == [7];
    assert [a, b][1..] == [b];
    assert AllKeys(Constant7, [b], 1) == [7];
  }

  /** A ring whose positions are a sorted arrangement of [7, 7] and whose map
      holds exactly position 7, owned by `b`. */
  lemma SevensRing<V>(r: Ring<V>, all: seq<uint32>, b: Node<V>)
    requires all == [7, 7]
    requires Sorted(r.sortedKeys) && multiset(r.sortedKeys) == multiset(all)
    requires forall k :: k in r.nodeHashMap <==> k in all
    requires 7 in r.nodeHashMap ==> r.nodeHashMap[7] == b
    requires r.virtualNodes == 1
    ensures r == Ring([7, 7], map[7 := b], 1)
  {
    SortedUnique(r.sortedKeys, all);
    assert r.nodeHashMap.Keys == {7};
  }

  /** Two nodes with one replica each under `Constant7`: both positions are 7,
      and the later node "b" owns it. */
  lemma CollidingRing()
    ensures NewKetama<int>(Constant7, [Node("a", 1, Nil), Node("b", 1, Nil)], 1)
            == Ring([7, 7], map[7 := Node("b", 1, Nil)], 1)
  {
    var nodes: seq<Node<int>> := [Node("a", 1, Nil), Node("b", 1, Nil)];
    CollidingKeys();
    SevensRing(NewKetama(Constant7, nodes, 1), AllKeys(Constant7, nodes, 1), nodes[1]);
  }

  /** Removing an ID other than the owner's from the ring [7, 7] / {7}, where
      the removed ID's only replica position is also 7. */
  lemma SevensRemoval<V>(hash: HashFn, r: Ring<V>, r': Ring<V>, nodeID: string, key: string)
    requires r.sortedKeys == [7, 7] && r.nodeHashMap.Keys == {7} && r.nodeHashMap[7].id != nodeID
    requires NodeKeys(hash, nodeID, r.virtualNodes) == [7]
    requires Sorted(r'.sortedKeys)
    requires forall k :: multiset(r'.sortedKeys)[k] ==
               if Lookup(r.nodeHashMap, k).id == nodeID then 0 else multiset(r.sortedKeys)[k]
    requires forall k :: k in r'.nodeHashMap <==> k in r.nodeHashMap && k !in NodeKeys(hash, nodeID, r.virtualNodes)
    ensures r'.sortedKeys == [7, 7]
    ensures r'.nodeHashMap == map[]
    ensures !Valid(hash, r')
    ensures Locate(hash, r', key) == (ZeroNode(), true)
  {
    var sevens: seq<uint32> := [7, 7];
    assert 7 in NodeKeys(hash, nodeID, r.virtualNodes);
    assert multiset(r'.sortedKeys) == multiset(sevens) by {
      forall k
        ensures multiset(r'.sortedKeys)[k] == multiset(sevens)[k]
      {
      }
    }
    SortedUnique(r'.sortedKeys, sevens);
    assert r'.nodeHashMap.Keys == {};
    assert 7 in r'.sortedKeys && 7 !in r'.nodeHashMap;
  }

  /** The ring `CollidingRing` builds is well formed, yet the only replica
      position of "a" is owned by "b". */
  lemma CollidingRingValid()
    ensures Valid<int>(Constant7, Ring([7, 7], map[7 := Node("b", 1, Nil)], 1))
    ensures !NoCollision<int>(Constant7, Ring([7, 7], map[7 := Node("b", 1, Nil)], 1), "a")
  {
    var r: Ring<int> := Ring([7, 7], map[7 := Node("b", 1, Nil)], 1);
    assert NodeKeys(Constant7, "a", 1) == [7] && NodeKeys(Constant7, "b", 1) == [7];
    assert 7 in r.nodeHashMap && r.nodeHashMap[7].id != "a" && 7 in NodeKeys(Constant7, "a", 1);
  }

  /** With `Constant7`, node "b" overwrites node "a"'s only position (the ring
      `CollidingRing` shows `NewKetama` builds, well formed by
      `CollidingRingValid`). Removing "a" then keeps the position (its owner
      reads as "b") but deletes its map entry: the ring is no longer well
      formed and a lookup answers the zero node with `true`. */
  lemma CollidingRemoval(key: string)
    ensures
      var r: Ring<int> := Ring([7, 7], map[7 := Node("b", 1, Nil)], 1);
      var r' := RemoveNode(Constant7, r, "a");
      && r'.sortedKeys == [7, 7]
      && r'.nodeHashMap == map[]
      && !Valid(Constant7, r')
      && Locate(Constant7, r', key) == (ZeroNode<int>(), true)
  {
    var r: Ring<int> := Ring([7, 7], map[7 := Node("b", 1, Nil)], 1);
    assert NodeKeys(Constant7, "a", 1) == [7];
    SevensRemoval(Constant7, r, RemoveNode(Constant7, r, "a"), "a", key);
  }

  /** Why `RemoveIdempotent` needs a non-empty ID: with `Constant7`, removing
      "" from a ring whose one position is owned by "x" keeps the position
      but deletes its entry; the position then reads as owned by the zero
      node, whose ID is "", so a second removal of "" drops it. */
  lemma EmptyIdRemovalNotIdempotent()
    ensures
      var r: Ring<int> := Ring([7], map[7 := Node("x", 1, Nil)], 1);
      RemoveNode(Constant7, RemoveNode(Constant7, r, ""), "") != RemoveNode(Constant7, r, "")
  {
    var r: Ring<int> := Ring([7], map[7 := Node("x", 1, Nil)], 1);
    var r1 := RemoveNode(Constant7, r, "");
    var r2 := RemoveNode(Constant7, r1, "");
    assert NodeKeys(Constant7, "", 1) == [7];
    assert multiset(r1.sortedKeys)[7] == 1;
    assert 7 !in r1.nodeHashMap;
    assert multiset(r2.sortedKeys)[7] == 0;
    assert 7 in multiset(r1.sortedKeys) && 7 !in multiset(r2.sortedKeys);
  }
}
