# Ketama consistent-hashing ring, modelled in Dafny

A model of the `ketama` Go package (`ketama.go`). The package is a consistent-hashing ring.
Each physical node is placed on a 32-bit ring at `virtualNodes` positions.
A position is the checksum of the string `"<id>-<i>"`.
A key is routed to the owner of the first position at or above the key's checksum.
When every position is below that checksum, the lookup wraps round to the first position.

The ring state is the `Ketama` struct without its mutex (`Ketama.Ring`):

- `sortedKeys`: the positions, ascending, repeats allowed (`seq<uint32>`);
- `nodeHashMap`: position to owning node (`map<uint32, Node<V>>`);
- `virtualNodes`: the replica count (a Go `int`, kept as `int`).

Operations are pure functions from one state to the next. Each call is treated as atomic, which is what the source's read/write lock provides.
`GetNode` is a method that runs the standard library's `sort.Search` bisection.
It is proved equal to `Locate`, a reference definition that scans positions linearly.

Modelling choices:

- The checksum `crc32.ChecksumIEEE` is a parameter `hash: string -> uint32` of every operation. Nothing proved depends on what it computes.
- A Go map read of a missing key yields the zero `Node{}`. `Ketama.Lookup` models this at both reads: the owner read in `RemoveNode`'s filter and the final read in `GetNode`.
- The `interface{}` payload is `Iface<V> = Nil | Boxed(V)`. This gives the zero node `Node("", 0, Nil)` for every payload type `V`. The payload is never inspected.
- `Weight` is an inert field, as in the source.
- `%d` is modelled concretely by `DecimalFormat.FormatInt`, which gives decimal digits without leading zeros. The same key derivation `Ketama.GenerateNodeKey` is used when adding and when removing.
- `sort.Slice` is modelled by an insertion sort. `Sorting.SortedUnique` shows that every correct sort of the same positions gives the same sequence, so the choice of algorithm does not matter.
- Collisions: the ring invariant `KetamaProperties.Valid` states three things. The positions are sorted. The set of positions equals the map's keys. Every entry sits at one of its owner's replica positions. Construction and addition always preserve it. Removal preserves it only under an explicit no-collision hypothesis (`NoCollision`). `CollidingRemoval` shows a concrete ring where removal breaks it.

## Model

| member | source | states |
|---|---|---|
| `Ketama.Lookup` | ketama.go:98 | a map read gives the stored node when the key is present and the zero node `Node{}` (ID "") when it is absent: Go's zero-value read, used at lines 67 and 98 |
| `Ketama.NodeKeys` | ketama.go:49-50 | the replica loop (also at lines 74-75) generates max(n, 0) positions, where position `i` is `GenerateNodeKey`: the checksum of `KeyString`, the string `"<id>-<i>"` (lines 102-106); every replica `i < n` is among them. Adding and removing use this one derivation |
| `Ketama.WriteOwners` | ketama.go:49-51 | the replica loop's map writes: the map's keys become the old keys plus the written positions, every written position is owned by the node (last writer wins), every other entry is unchanged |
| `Ketama.AddNode` | ketama.go:40-58 | after adding, positions are ascending, are the old positions plus the node's `virtualNodes` generated positions (as a multiset), grow by max(virtualNodes, 0); the map gains exactly those positions, each owned by the node, and every other entry is unchanged |
| `KetamaProperties.AddNodeReplica` | ketama.go:49-52 | replica `i` < `virtualNodes` of an added node is a ring position, and a map read of it gives that node |
| `Ketama.AddNodes` | ketama.go:32-34 | the constructor's loop: positions are the old ones plus every node's generated positions, length grows by \|nodes\| * max(v, 0), ascending whenever any node was added |
| `Ketama.AddNodesOwners` | ketama.go:32-34 | after the loop, a map key is an old key or a generated position; each generated position is owned by the last node in the list that generates it; other entries are unchanged |
| `Ketama.NewKetama` | ketama.go:26-37 | the built ring is sorted, has \|nodes\| * max(v, 0) positions (the multiset of all nodes' generated positions), its map keys are exactly the generated positions with last-writer owners, and with v <= 0 it is entirely empty |
| `KetamaProperties.AddNodesSnoc` | ketama.go:32-34 | running the loop over `nodes + [n]` equals running it over `nodes` and then adding `n` |
| `KetamaProperties.NewKetamaSnoc` | ketama.go:26-37 | `NewKetama` is a left fold of `addNode` from the empty ring: one more node in the list is one more `addNode` |
| `KetamaProperties.NewKetamaBalanced` | ketama.go:26-36 | when the node IDs are distinct and the checksum separates all replica strings `"<id>-<i>"`, the built map has exactly \|nodes\| * max(v, 0) entries, and every node owns exactly max(v, 0) of them |
| `KetamaProperties.AllKeysDistinct` | ketama.go:32-34 | under the same no-collision hypotheses, the positions the constructor generates are pairwise distinct |
| `KetamaProperties.NewKetamaLookup` | ketama.go:26-36 | with at least one node and v > 0, every lookup on a freshly built ring succeeds and returns one of the given nodes |
| `Ketama.KeepOthers` | ketama.go:65-72 | the filter keeps an order-preserving subsequence; a position's count is unchanged if its owner (zero-node default) has a different ID and zero otherwise |
| `Ketama.DeleteKeys` | ketama.go:74-77 | the deletion loop removes exactly the listed positions from the map and leaves every other entry unchanged |
| `Ketama.RemoveNode` | ketama.go:61-78 | positions become an order-preserving subsequence (so sortedness is kept) without exactly those positions whose pre-removal owner has the ID; the map loses exactly the ID's `virtualNodes` regenerated positions and is otherwise unchanged |
| `KetamaProperties.RemoveAbsent` | ketama.go:61-78 | removing an ID that owns no position and none of whose generated positions is a map key leaves the ring unchanged |
| `KetamaProperties.RemoveIdempotent` | ketama.go:61-78 | for a non-empty ID, removing twice equals removing once |
| `KetamaProperties.EmptyIdRemovalNotIdempotent` | ketama.go:65-77 | a concrete ring on which removing the empty ID twice differs from removing it once, because of the zero-node default |
| `KetamaProperties.AddRemoveRoundTrip` | ketama.go:48-78 | adding a node and then removing its ID restores a sorted ring exactly, when the ID owns no position and none of its generated positions is on the ring or in the map |
| `KetamaProperties.AddNodeValid` | ketama.go:48-58 | adding a node preserves the ring invariant (sorted; positions and map keys coincide; each entry at one of its owner's replica positions) |
| `KetamaProperties.NewKetamaValid` | ketama.go:26-36 | every constructed ring satisfies the ring invariant, duplicate IDs and colliding replicas included |
| `KetamaProperties.RemoveNodeValid` | ketama.go:61-78 | removal preserves the ring invariant when none of the ID's replica positions is owned by another node |
| `KetamaProperties.CollidingRing` | ketama.go:49-51 | with a checksum under which all strings collide, constructing from nodes "a" and "b" gives positions [7, 7] with "b" owning 7 (last writer wins) |
| `KetamaProperties.CollidingRingValid` | ketama.go:49-51 | that ring satisfies the ring invariant, yet the only replica position of "a" is owned by "b" (the no-collision hypothesis fails) |
| `KetamaProperties.CollidingRemoval` | ketama.go:65-77 | on that ring, removing "a" keeps both positions but deletes the only map entry, so the invariant breaks and a lookup returns the zero node with `true` |
| `Ketama.FirstAtLeast` | ketama.go:90-92 | the least index whose position is at or above the target, or the length when there is none |
| `Ketama.Search` | ketama.go:90-92 | the bisection returns an index in [0, n] where the previous position is below the target and the position at the index is not; on an ascending sequence this is the least such index |
| `Ketama.SuccessorKey` | ketama.go:89-96 | on an ascending ring, the chosen position is the least position at or above the hash if there is one; otherwise it is the least position overall (wrap-around) |
| `Ketama.GetNode` | ketama.go:81-100 | the lookup reports `false` with the zero node exactly when the ring has no positions; otherwise `true` with the owner (zero-node default) of a ring position; on a sorted ring its answer equals `Locate` |
| `KetamaProperties.ValidLookupRegistered` | ketama.go:85-99 | on a ring satisfying the invariant with at least one position, a lookup succeeds and returns a node stored in the map, never a default read of a missing position |
| `KetamaProperties.RemovedNeverReturned` | ketama.go:65-72 | after removing a non-empty ID, no lookup returns a node with that ID |
| `KetamaProperties.AddNodeMinimalDisruption` | ketama.go:48-57 | after adding a node to a sorted non-empty ring, a key either lands on one of the new node's positions and resolves to it, or resolves exactly as before |
| `Sorting.Sort` | ketama.go:55-57 | the sort yields an ascending rearrangement (same multiset, same length) of its input |
| `Sorting.SortedUnique` | ketama.go:55-57 | two ascending sequences with the same multiset of positions are equal, so the result does not depend on the sorting algorithm |
| `Sorting.SubsequenceSorted` | ketama.go:65-72 | an order-preserving subsequence of an ascending sequence is ascending |
| `DecimalFormat.FormatInt` | ketama.go:104 | the `%d` rendering of a replica index is a non-empty string of decimal digits with no leading zero |
| `DecimalFormat.ParseFormatInt` | ketama.go:104 | reading a rendering back as a decimal number gives the index rendered |
| `KetamaProperties.KeyStringInjective` | ketama.go:102-106 | two strings `"<id>-<i>"` are equal exactly when their IDs and their indices are equal, so two replicas share a position only through a collision of the checksum itself |

## Left out

- The `sync.RWMutex` and its lock/unlock calls (ketama.go:19, 41-42, 62-63, 82-83): they only serve concurrency, and every call is modelled as atomic.
- CRC-32 itself (ketama.go:89, 105): it is a library call, modelled by the abstract parameter `hash`. Load balance and other statistical claims depend on its internals and are not stated.
- `fmt.Sprintf` beyond "ID, dash, decimal index" (ketama.go:104): Go strings are byte strings, but here strings are `seq<char>`. The abstract checksum takes the string as it is.
- The `Value interface{}` payload is never inspected, and `Weight` is never read. Both are carried as inert fields.
- Determinism of `GetNode` and "keys with equal checksums get equal answers" are not separate lemmas. `Locate` is a function of the ring and `hash(key)` alone, so both hold by construction.
- KetamaProperties.RemoveIdempotent: requires a non-empty ID. For the empty ID the zero-node default can make a second removal drop more, as `EmptyIdRemovalNotIdempotent` shows.
- Ketama.GetNode: on a sequence that is not sorted, the contract only says that the answer is the owner of some position at a search boundary. Every ring the operations produce is sorted (`NewKetama`, `AddNode`, `RemoveNode`), and on those rings the answer equals `Locate` exactly.
- KetamaProperties.RemoveNodeValid: the ring invariant is claimed only under `NoCollision`, because the code does not preserve it when collisions occur (see `CollidingRemoval`). The code keeps the equality of positions and map keys only when no collision occurs at removal time.
