/** The ketama consistent-hashing ring of `ketama.go`.

    The ring state is the `Ketama` struct without its lock: an ascending
    sequence of 32-bit ring positions (`sortedKeys`), a map from position to
    the node that owns it (`nodeHashMap`), and the replica count
    (`virtualNodes`). Every operation is a pure function of the state (or, for
    the lookup, a method with the source's binary search), and each call is
    atomic, as the source's read/write lock makes it.

    The 32-bit checksum the source uses is a parameter `hash` of every
    operation; nothing proved here depends on what it computes.
 */
module Ketama {
  import opened GoTypes
  import opened Sorting
  import opened DecimalFormat

  /** Go's `interface{}` payload: nil, or a value the ring never inspects. */
  datatype Iface<V> = Nil | Boxed(payload: V)

  /** A physical node. `weight` is carried but never read by any operation. */
  datatype Node<V> = Node(id: string, weight: int, value: Iface<V>)

  /** Go's zero `Node{}`: what reading a missing map key yields. */
  function ZeroNode<V>(): Node<V> {
    Node("", 0, Nil)
  }

  /** The checksum of a string (CRC-32/IEEE in the source), left abstract. */
  type HashFn = string -> uint32

  /** The ring state: the `Ketama` struct minus its mutex. */
  datatype Ring<V> = Ring(sortedKeys: seq<uint32>, nodeHashMap: map<uint32, Node<V>>, virtualNodes: int)

  /** A Go map read: the stored node, or the zero node when the key is absent. */
  function Lookup<V>(m: map<uint32, Node<V>>, k: uint32): (n: Node<V>)
    ensures k in m ==> n == m[k]
    ensures k !in m ==> n == ZeroNode()
  {
    if k in m then m[k] else ZeroNode()
  }

  function Max0(n: int): nat {
    if n <= 0 then 0 else n
  }

  // ---------------------------------------------------------------------------
  // Virtual-node positions
  // ---------------------------------------------------------------------------

  /** The string `"<nodeID>-<i>"` that is hashed for replica `i`. */
  function KeyString(nodeID: string, i: nat): string {
    nodeID + "-" + FormatInt(i)
  }

  /** Ring position of replica `i` of node `nodeID`. */
  function GenerateNodeKey(hash: HashFn, nodeID: string, i: nat): uint32 {
    hash(KeyString(nodeID, i))
  }

  /** The positions the replica loop `for i := 0; i < n; i++` generates, in order. */
  function NodeKeys(hash: HashFn, nodeID: string, n: int): (keys: seq<uint32>)
    ensures |keys| == Max0(n)
    ensures forall i :: 0 <= i < |keys| ==> keys[i] == GenerateNodeKey(hash, nodeID, i)
    ensures forall i :: 0 <= i < n ==> GenerateNodeKey(hash, nodeID, i) in keys
  {
    seq(Max0(n), i requires 0 <= i < Max0(n) => GenerateNodeKey(hash, nodeID, i))
  }

  // ---------------------------------------------------------------------------
  // addNode / AddNode
  // ---------------------------------------------------------------------------

  /** The map writes of the replica loop: each position in turn is set to `node`. */
  function WriteOwners<V>(m: map<uint32, Node<V>>, keys: seq<uint32>, node: Node<V>): (m': map<uint32, Node<V>>)
    ensures forall k :: k in m' <==> k in m || k in keys
    ensures forall k :: k in keys ==> m'[k] == node
    ensures forall k :: k in m && k !in keys ==> m'[k] == m[k]
    decreases |keys|
  {
    if |keys| == 0 then m
    else
      assert keys == [keys[0]] + keys[1..];
      WriteOwners(m[keys[0] := node], keys[1..], node)
  }

  /** `addNode`: writes `virtualNodes` replica positions of `node` into the map
      (a position already present is overwritten: last writer wins), appends
      them to the positions and re-sorts. The public `AddNode` is the same
      under the write lock. */
  function AddNode<V>(hash: HashFn, r: Ring<V>, node: Node<V>): (r': Ring<V>)
    ensures r'.virtualNodes == r.virtualNodes
    ensures Sorted(r'.sortedKeys)
    ensures multiset(r'.sortedKeys) == multiset(r.sortedKeys) + multiset(NodeKeys(hash, node.id, r.virtualNodes))
    ensures |r'.sortedKeys| == |r.sortedKeys| + Max0(r.virtualNodes)
    ensures forall k :: k in r'.nodeHashMap <==> k in r.nodeHashMap || k in NodeKeys(hash, node.id, r.virtualNodes)
    ensures forall k :: k in NodeKeys(hash, node.id, r.virtualNodes) ==> r'.nodeHashMap[k] == node
    ensures forall k :: k in r.nodeHashMap && k !in NodeKeys(hash, node.id, r.virtualNodes) ==>
              r'.nodeHashMap[k] == r.nodeHashMap[k]
  {
    var added := NodeKeys(hash, node.id, r.virtualNodes);
    var keys := Sort(r.sortedKeys + added);
    assert forall k :: k in added ==> k in multiset(keys) by {
      assert multiset(keys) == multiset(r.sortedKeys) + multiset(added);
    }
    Ring(keys, WriteOwners(r.nodeHashMap, added, node), r.virtualNodes)
  }

  // ---------------------------------------------------------------------------
  // NewKetama
  // ---------------------------------------------------------------------------

  /** The positions of every node of `nodes`, node by node. */
  function AllKeys<V>(hash: HashFn, nodes: seq<Node<V>>, n: int): (keys: seq<uint32>)
    ensures |keys| == |nodes| * Max0(n)
    ensures forall j, k :: 0 <= j < |nodes| && k in NodeKeys(hash, nodes[j].id, n) ==> k in keys
    decreases |nodes|
  {
    if |nodes| == 0 then []
    else
      var rest := AllKeys(hash, nodes[1..], n);
      assert |nodes| * Max0(n) == Max0(n) + (|nodes| - 1) * Max0(n);
      assert forall j :: 1 <= j < |nodes| ==> nodes[j] == nodes[1..][j - 1];
      NodeKeys(hash, nodes[0].id, n) + rest
  }

  /** Index of the last node of `nodes` among whose positions `k` occurs: the
      node whose write to position `k` survives a pass over `nodes`. */
  function LastWriter<V>(hash: HashFn, nodes: seq<Node<V>>, n: int, k: uint32): (j: nat)
    requires k in AllKeys(hash, nodes, n)
    ensures j < |nodes|
    ensures k in NodeKeys(hash, nodes[j].id, n)
    ensures forall j' :: j < j' < |nodes| ==> k !in NodeKeys(hash, nodes[j'].id, n)
    decreases |nodes|
  {
    if k in AllKeys(hash, nodes[1..], n) then
      assert forall j' :: 1 <= j' < |nodes| ==> nodes[j'] == nodes[1..][j' - 1];
      1 + LastWriter(hash, nodes[1..], n, k)
    else
      assert forall j' :: 1 <= j' < |nodes| ==> nodes[j'] == nodes[1..][j' - 1];
      0
  }

  /** The `for _, node := range nodes { addNode(node) }` loop of `NewKetama`. */
  function AddNodes<V>(hash: HashFn, r: Ring<V>, nodes: seq<Node<V>>): (r': Ring<V>)
    ensures r'.virtualNodes == r.virtualNodes
    ensures |nodes| > 0 || Sorted(r.sortedKeys) ==> Sorted(r'.sortedKeys)
    ensures multiset(r'.sortedKeys) == multiset(r.sortedKeys) + multiset(AllKeys(hash, nodes, r.virtualNodes))
    ensures |r'.sortedKeys| == |r.sortedKeys| + |nodes| * Max0(r.virtualNodes)
    decreases |nodes|
  {
    if |nodes| == 0 then r
    else AddNodes(hash, AddNode(hash, r, nodes[0]), nodes[1..])
  }

  /** Last writer wins across a pass over `nodes`: afterwards a position any of
      them generates is owned by the last node that generated it, and every
      other map entry is as before. */
  lemma {:induction false} AddNodesOwners<V>(hash: HashFn, r: Ring<V>, nodes: seq<Node<V>>)
    ensures forall k :: k in AddNodes(hash, r, nodes).nodeHashMap <==>
              k in r.nodeHashMap || k in AllKeys(hash, nodes, r.virtualNodes)
    ensures forall k :: k in AllKeys(hash, nodes, r.virtualNodes) ==>
              AddNodes(hash, r, nodes).nodeHashMap[k] == nodes[LastWriter(hash, nodes, r.virtualNodes, k)]
    ensures forall k :: k in r.nodeHashMap && k !in AllKeys(hash, nodes, r.virtualNodes) ==>
              AddNodes(hash, r, nodes).nodeHashMap[k] == r.nodeHashMap[k]
    decreases |nodes|
  {
    if |nodes| > 0 {
      var v := r.virtualNodes;
      var r1 := AddNode(hash, r, nodes[0]);
      var m' := AddNodes(hash, r, nodes).nodeHashMap;
      AddNodesOwners(hash, r1, nodes[1..]);
      assert AllKeys(hash, nodes, v) == NodeKeys(hash, nodes[0].id, v) + AllKeys(hash, nodes[1..], v);
      forall k | k in AllKeys(hash, nodes, v)
        ensures m'[k] == nodes[LastWriter(hash, nodes, v, k)]
      {
        if k in AllKeys(hash, nodes[1..], v) {
          assert LastWriter(hash, nodes, v, k) == 1 + LastWriter(hash, nodes[1..], v, k);
        } else {
          assert k in NodeKeys(hash, nodes[0].id, v);
        }
      }
    }
  }

  /** `NewKetama`: an empty ring with the given replica count, then every node
      of `nodes` added in order. */
  function NewKetama<V>(hash: HashFn, nodes: seq<Node<V>>, virtualNodes: int): (r: Ring<V>)
    ensures r.virtualNodes == virtualNodes
    ensures Sorted(r.sortedKeys)
    ensures |r.sortedKeys| == |nodes| * Max0(virtualNodes)
    ensures multiset(r.sortedKeys) == multiset(AllKeys(hash, nodes, virtualNodes))
    ensures forall k :: k in r.nodeHashMap <==> k in AllKeys(hash, nodes, virtualNodes)
    ensures forall k :: k in r.nodeHashMap ==> r.nodeHashMap[k] == nodes[LastWriter(hash, nodes, virtualNodes, k)]
    ensures virtualNodes <= 0 ==> r.sortedKeys == [] && r.nodeHashMap == map[]
  {
    AddNodesOwners(hash, Ring([], map[], virtualNodes), nodes);
    AddNodes(hash, Ring([], map[], virtualNodes), nodes)
  }

  // ---------------------------------------------------------------------------
  // RemoveNode
  // ---------------------------------------------------------------------------

  /** The filtering loop of `RemoveNode`: keeps, in order, each position whose
      owner (read with the zero-node default) has an ID other than `nodeID`. */
  function KeepOthers<V>(keys: seq<uint32>, m: map<uint32, Node<V>>, nodeID: string): (kept: seq<uint32>)
    ensures IsSubsequence(kept, keys)
    ensures forall k :: multiset(kept)[k] == if Lookup(m, k).id == nodeID then 0 else multiset(keys)[k]
    decreases |keys|
  {
    if |keys| == 0 then []
    else
      var rest := KeepOthers(keys[1..], m, nodeID);
      assert keys == [keys[0]] + keys[1..];
      if Lookup(m, keys[0]).id != nodeID then
        assert ([keys[0]] + rest)[1..] == rest;
        [keys[0]] + rest
      else
        rest
  }

  /** The deletion loop of `RemoveNode`: each position in turn is deleted. */
  function DeleteKeys<V>(m: map<uint32, Node<V>>, keys: seq<uint32>): (m': map<uint32, Node<V>>)
    ensures forall k :: k in m' <==> k in m && k !in keys
    ensures forall k :: k in m' ==> m'[k] == m[k]
    decreases |keys|
  {
    if |keys| == 0 then m
    else
      assert keys == [keys[0]] + keys[1..];
      DeleteKeys(m - {keys[0]}, keys[1..])
  }

  /** `RemoveNode`: drops every position whose owner has ID `nodeID` (owners read
      from the map before any deletion), then deletes the `virtualNodes`
      regenerated positions of `nodeID` from the map. */
  function RemoveNode<V>(hash: HashFn, r: Ring<V>, nodeID: string): (r': Ring<V>)
    ensures r'.virtualNodes == r.virtualNodes
    ensures IsSubsequence(r'.sortedKeys, r.sortedKeys)
    ensures Sorted(r.sortedKeys) ==> Sorted(r'.sortedKeys)
    ensures forall k :: multiset(r'.sortedKeys)[k] ==
              if Lookup(r.nodeHashMap, k).id == nodeID then 0 else multiset(r.sortedKeys)[k]
    ensures forall k :: k in r'.nodeHashMap <==> k in r.nodeHashMap && k !in NodeKeys(hash, nodeID, r.virtualNodes)
    ensures forall i :: 0 <= i < r.virtualNodes ==> GenerateNodeKey(hash, nodeID, i) !in r'.nodeHashMap
    ensures forall k :: k in r'.nodeHashMap ==> r'.nodeHashMap[k] == r.nodeHashMap[k]
  {
    var kept := KeepOthers(r.sortedKeys, r.nodeHashMap, nodeID);
    SubsequenceSorted(kept, r.sortedKeys);
    Ring(kept, DeleteKeys(r.nodeHashMap, NodeKeys(hash, nodeID, r.virtualNodes)), r.virtualNodes)
  }

  // ---------------------------------------------------------------------------
  // GetNode
  // ---------------------------------------------------------------------------

  /** Index of the first position at or above `target`, or `|keys|` if none:
      a plain left-to-right scan, the reference for the binary search. */
  function FirstAtLeast(keys: seq<uint32>, target: uint32): (i: nat)
    ensures i <= |keys|
    ensures forall j :: 0 <= j < i ==> keys[j] < target
    ensures i < |keys| ==> keys[i] >= target
    decreases |keys|
  {
    if |keys| == 0 || keys[0] >= target then 0
    else 1 + FirstAtLeast(keys[1..], target)
  }

  /** `sort.Search(len(keys), func(i) { return keys[i] >= target })`, with the
      standard library's bisection. On any sequence it returns a boundary: the
      element before is below `target`, the one at the index is not. On an
      ascending sequence that boundary is the least index at or above `target`. */
  method Search(keys: seq<uint32>, target: uint32) returns (idx: nat)
    ensures idx <= |keys|
    ensures idx > 0 ==> keys[idx - 1] < target
    ensures idx < |keys| ==> keys[idx] >= target
    ensures Sorted(keys) ==> idx == FirstAtLeast(keys, target)
  {
    var lo, hi := 0, |keys|;
    while lo < hi
      invariant 0 <= lo <= hi <= |keys|
      invariant lo > 0 ==> keys[lo - 1] < target
      invariant hi < |keys| ==> keys[hi] >= target
      decreases hi - lo
    {
      var mid := (lo + hi) / 2;
      if keys[mid] < target {
        lo := mid + 1;
      } else {
        hi := mid;
      }
    }
    idx := lo;
  }

  /** The position a key hash `h` lands on: the first position at or above
      `h`, wrapping round to the first position when every position is below. */
  function SuccessorKey(keys: seq<uint32>, h: uint32): (k: uint32)
    requires |keys| > 0
    ensures k in keys
    ensures Sorted(keys) ==> forall x :: x in keys && h <= x ==> h <= k <= x
    ensures Sorted(keys) && k < h ==> forall x :: x in keys ==> k <= x
  {
    var i := FirstAtLeast(keys, h);
    if i == |keys| then keys[0] else keys[i]
  }

  /** What a lookup of `key` answers: nothing on an empty ring, otherwise the
      owner (zero-node default) of the position the key's hash lands on. */
  function Locate<V>(hash: HashFn, r: Ring<V>, key: string): (Node<V>, bool) {
    if |r.sortedKeys| == 0 then (ZeroNode(), false)
    else (Lookup(r.nodeHashMap, SuccessorKey(r.sortedKeys, hash(key))), true)
  }

  /** `GetNode`: binary search for the key's hash, wrap-around to index 0 when
      the search runs off the end, and a map read with zero-node default. */
  method GetNode<V>(hash: HashFn, r: Ring<V>, key: string) returns (node: Node<V>, ok: bool)
    ensures ok <==> |r.sortedKeys| > 0
    ensures !ok ==> node == ZeroNode()
    ensures ok ==> exists j :: 0 <= j < |r.sortedKeys| && node == Lookup(r.nodeHashMap, r.sortedKeys[j])
    ensures Sorted(r.sortedKeys) ==> (node, ok) == Locate(hash, r, key)
  {
    if |r.sortedKeys| == 0 {
      return ZeroNode(), false;
    }
    var keyHash := hash(key);
    var idx := Search(r.sortedKeys, keyHash);
    if idx == |r.sortedKeys| {
      idx := 0;
    }
    node := Lookup(r.nodeHashMap, r.sortedKeys[idx]);
    ok := true;
  }
}
