# Consistent hashing ring and sharded expiring cache, in Dafny

This project models the two layers of a small in-memory key-value store.

- **The consistent-hashing ring** (`ConsistentHashing`, `index.js`). Every node is placed on a 32-bit ring at `replicas` virtual positions. Each position is the first eight hex digits of the digest of `"<node>:<i>"`, read as a number. The ring is a map from position to node name, and `sortedKeys` lists its positions in ascending order. A key is routed to the node at the first position at or after the key's own position. When the key lies past every position, it wraps around to the smallest one.
- **The distributed cache** (`DistributedCache`, `distributedCache.js`). It keeps one ring and one table per node, mapping key to `{value, expires}`. `set` and `get` go to the table of the node the ring names. An entry past its expiry instant is deleted only when it is read. Adding or removing a node creates or discards a whole table, and no key moves. `getStats` reports each table's size and their sum.

Files:

- `wrappers.dfy` (module `Wrappers`): `Option` stands for `null` returns and `Result` for thrown errors.
- `ring_math.dfy` (module `RingMath`): the pure helpers. These are `hashToLong`, the ascending listing of the ring's positions, and the successor rule as a reference definition over the set of positions.
- `hash_ring.dfy` (module `HashRing`): the class `ConsistentHashing`, with fields `ring: map<nat, string>` and `sortedKeys: seq<nat>`. Its methods update the fields in place and are proved against the specification functions `AddedRing` and `RemovedRing` and the reference `Successor`.
- `distributed_cache.dfy` (module `Cache`): the class `DistributedCache<V>`, with `caches: map<string, map<string, Entry<V>>>` updated in place. It also holds the lemmas that connect `getStats` with `set` and `get`.

The digest (md5 by default) is a library call. The model takes it as a parameter `digest: string -> HexDigest`: any deterministic function whose output is hex digits, at least eight of them. The current time is a parameter `now`, in milliseconds.

## Model

| member | source | states |
|---|---|---|
| `RingMath.HashToLong` | index.js:18-21 | the first eight hex digits of a digest, read big-endian, always give a position in [0, 2^32) |
| `RingMath.HexValue` | index.js:20 | a run of k hex digits, read base 16 with the most significant digit first, is below 16^k |
| `RingMath.HexValueOfEncode` | index.js:20 | reading back the hex encoding of a number gives that number: the parse has an inverse |
| `RingMath.HashToLongOnto` | index.js:18-21 | every position in [0, 2^32) is the position of some digest, so the ring's key space is exactly the 32-bit range |
| `RingMath.SortedKeys` | index.js:33 | the listing of a set of positions is strictly ascending, holds exactly the set's elements and has the set's size |
| `RingMath.AscendingListingIsUnique` | index.js:46 | two strictly ascending listings of the same elements are equal, so the listing is what the numeric sort gives, whatever order the keys came in |
| `RingMath.Successor` | index.js:57-66 | the owner of hash position h is a ring position. It is the least position at or after h when there is one, otherwise the least position overall (wrap-around) |
| `HashRing.ReplicasOrDefault` | index.js:5 | the replica count is the option when it is given and non-zero, and 3 otherwise; it is always positive |
| `HashRing.DecimalString` | index.js:26 | the replica index is printed as a non-empty run of decimal digits in the virtual-node name |
| `HashRing.DecimalNoLeadingZero` | index.js:26 | the printed replica index has no leading zero unless it is 0, so it is the one string `${i}` gives |
| `HashRing.DecimalRoundTrip` | index.js:26 | reading the printed digits back gives the replica index, so the printing has an inverse |
| `HashRing.VirtualNode` | index.js:26 | the name of virtual node i is the node's name, a colon and the decimal form of i |
| `HashRing.VirtualNamesDistinct` | index.js:25-26 | a virtual-node name is the node's name, a colon and digits that read back as i, so different replica indices of one node give different names |
| `HashRing.VirtualPosition` | index.js:26-28 | virtual node i of a node sits at the hashToLong of the digest of its name, below 2^32 |
| `HashRing.Position` | index.js:14-21 | a string's ring position is the hashToLong of its digest, below 2^32 |
| `HashRing.AddedRing` | index.js:25-30 | after adding a node, the ring's keys are the old keys plus the node's positions, every position `hashToLong(hash(node + ":" + i))` for i < replicas maps to the node, and every other entry is unchanged |
| `HashRing.RemovedRing` | index.js:38-43 | after removing a node, the ring's keys are the old keys minus the node's positions, even a position another node owns is deleted, and every other entry is unchanged |
| `HashRing.AddedAll` | index.js:11 | the constructor's ring is the empty ring with the listed nodes added one after the other, in list order |
| `HashRing.PositionsBelowCount` | index.js:25-29 | when the first n virtual nodes of a node land on pairwise different positions, they take n positions |
| `HashRing.AddOwnsItsPositions` | index.js:25-30 | after adding a node, the positions mapping to it are exactly its virtual positions, including those another node held before |
| `HashRing.AddPlacesEveryReplica` | index.js:25-30 | barring collisions among a node's own virtual nodes, adding it leaves exactly `replicas` positions mapping to it |
| `HashRing.AddMovesKeysOnlyToNewNode` | index.js:23-67 | for any digest, after adding a node every key is owned either by the added node or by the node that owned it before; no key moves between two other nodes |
| `HashRing.AddIsIdempotent` | index.js:23-34 | adding a node twice gives the same ring as adding it once |
| `HashRing.RemoveUndoesAdd` | index.js:23-47 | removing a node right after adding it gives the ring that removing it alone gives, and the original ring when that ring held none of its positions |
| `HashRing.AddKeepsOwnPositions` | index.js:23-34 | adding keeps every entry at one of its own node's positions, adds the node to the ring's node set and adds no other node |
| `HashRing.RemoveDropsNode` | index.js:36-47 | removing keeps every entry at its own node's positions and takes the removed node off the ring entirely |
| `HashRing.AddedAllNodes` | index.js:4-12 | a ring built from a list of nodes holds only nodes from the list, each at its own positions |
| `HashRing.CollisionLastWriteWins` | index.js:29 | when all virtual nodes collide, the node added last owns the shared position and the first one drops off the ring; removing the first node then empties the ring |
| `HashRing.Relisted` | index.js:33 | listing the positions again after a change restores the ring invariant: ascending, exactly the ring's keys |
| `HashRing.ConsistentHashing.constructor` | index.js:4-12 | the replica count defaults to 3, the nodes are added one after the other, and the invariant holds |
| `HashRing.ConsistentHashing.AddNode` | index.js:23-34 | the ring becomes `AddedRing` of the old ring, and `sortedKeys` becomes the ascending listing of the new keys |
| `HashRing.ConsistentHashing.RemoveNode` | index.js:36-47 | the ring becomes `RemovedRing` of the old ring, `sortedKeys` is relisted, and the node is no longer on the ring |
| `HashRing.ConsistentHashing.Owner` | index.js:49-67 | the node a key is routed to on a non-empty ring, the node at its successor position, is a node on the ring |
| `HashRing.ConsistentHashing.GetNode` | index.js:49-67 | the scan fails exactly when the ring is empty. Otherwise it returns the node at `Successor` of the key's position, the node at the smallest position when the key lies past every position, and always a node on the ring |
| `HashRing.ConsistentHashing.LeastAtOrAfter` | index.js:59-62 | the first listed position at or after the key's position is its successor |
| `HashRing.ConsistentHashing.SmallestPosition` | index.js:65-66 | when the key's position lies past every listed position, the first listed position is both the ring's least position and the successor |
| `HashRing.ConsistentHashing.GetAllNodes` | index.js:69-71 | the list holds every node on the ring, nothing else, and no node twice |
| `Cache.ExpiresAt` | distributedCache.js:13-21 | an entry expires ttl * 1000 milliseconds after now, with ttl defaulting to 3600 seconds; the expiry instant is not before now exactly when the ttl is missing or not negative |
| `Cache.FreshWhenStored` | distributedCache.js:21-44 | an entry stored at `now` is not stale at that same instant exactly when its ttl is missing or not negative: a ttl of 0 can still be read, a negative one cannot |
| `Cache.Expired` | distributedCache.js:41 | an entry is stale only strictly after its expiry instant, and can still be read at that instant |
| `Cache.Total` | distributedCache.js:71-74 | the sum of the per-table counts that the loop accumulates in `totalKeys` |
| `Cache.TotalWithout` | distributedCache.js:71-74 | the sum of the counts does not depend on the order the tables are visited in: any one count plus the sum of the rest |
| `Cache.TotalUpdate` | distributedCache.js:71-74 | changing one count changes the sum by the difference, and adding a new count adds it |
| `Cache.TableSizes` | distributedCache.js:71-72 | stats has one count per table, equal to that table's size |
| `Cache.StoreCounts` | distributedCache.js:21 | a set raises the reported total by one for a key new to its table, and leaves it for an overwritten key |
| `Cache.EvictCounts` | distributedCache.js:41-44 | the eviction of a stale entry on read lowers the reported total by one |
| `Cache.TablesCoverRing` | distributedCache.js:5-11 | after construction, every node on the ring has a table |
| `Cache.DistributedCache.constructor` | distributedCache.js:5-11 | the ring holds the given nodes with 3 replicas, each given node has an empty table, and no other table exists |
| `Cache.DistributedCache.Set` | distributedCache.js:13-24 | on an empty ring it fails with the ring error, and on a routed node without a table it fails with "not available"; both leave the tables unchanged. Otherwise it stores `{value, now + ttl*1000}` under the key in the owner's table only and returns `{node, key, value}`. With every ring node holding a table, "not available" never happens |
| `Cache.DistributedCache.Get` | distributedCache.js:26-47 | it has the same two errors, with state unchanged. An absent key reads as null and changes nothing. When now > expires it deletes that one entry and reads as null; otherwise it returns the stored value and changes nothing |
| `Cache.DistributedCache.AddNode` | distributedCache.js:49-55 | the ring gets the node's virtual positions, and the node gets a fresh empty table that replaces any old one. Other tables are unchanged. It returns the ring's distinct nodes, this one included |
| `Cache.DistributedCache.RemoveNode` | distributedCache.js:57-63 | the node's positions and its table are gone, and the other tables are unchanged. It returns the ring's distinct nodes, this one excluded |
| `Cache.DistributedCache.GetStats` | distributedCache.js:65-77 | `nodes` holds one count per table, equal to its size, stale unread entries included, except for a node named `__proto__`, which gets no count. `totalKeys` is the sum over every table, that one included, so `StoreCounts` and `EvictCounts` apply to it directly |
| `Cache.CountOneTable` | distributedCache.js:71-74 | one step of the stats loop adds the table's size to the running total, and records it in `nodes` unless the node is named `__proto__` |
| `Cache.SetThenGet` | distributedCache.js:13-46 | with the ring unchanged and every ring node holding a table, a value set with a missing or non-negative ttl reads back at the same instant. One set with a negative ttl reads back as null, because the read finds it stale and evicts it. On an empty ring both fail |

## Where the code and the intended behaviour differ

The model follows the code in each case.

- Expiry boundary: the intended behaviour is that an entry is expired once its expiry instant is at or before the current time. distributedCache.js:41 tests `now > expires`, so an entry can still be read at exactly its expiry instant. In particular, an entry set with ttl 0 is read back at the same instant, where the intended behaviour expires it at once; a negative ttl does expire it at once. `Cache.Expired`, `Cache.DistributedCache.Get`, `Cache.FreshWhenStored` and `Cache.SetThenGet` follow the code.
- Nodes and tables: the intended invariant is that the nodes with a table are exactly the nodes on the ring. distributedCache.js and index.js keep only one direction: every node on the ring has a table (`Consistent`, preserved by every method). A node whose positions all collide with a later node's keeps its table while it is off the ring (`HashRing.CollisionLastWriteWins`).
- Stats for a node named `__proto__`: the intended report has one count per node whose sum is `totalKeys`. distributedCache.js:66 builds `nodes` as a plain object, and the assignment at line 72 to its `__proto__` property ignores a number. That node therefore gets no count, while line 73 still adds its entries to `totalKeys`. `Cache.DistributedCache.GetStats` follows the code.
- The "not available" error is modelled as written. From the invariant above, the model proves it can never be raised.
- The replica count is one ring-wide constant, fixed at construction, so removal always recomputes the same positions as the addition did.

## Left out

- The HTTP layer (express.js), with its routing, JSON bodies, status codes and listening socket. It only translates requests into calls of the cache.
- The md5 digest and the choice of algorithm by name. The digest is a parameter of the ring. Its output is assumed to be hex digits, at least eight of them, so `parseInt` of a shorter or non-hex prefix (NaN, partial parses) is not modelled.
- `Date.now()`. The current time is the parameter `now`.
- JavaScript number semantics. `ttl * 1000` and `now + ...` are unbounded integer arithmetic, and floats, NaN and a non-numeric ttl are not modelled. A missing ttl is `None`, and a missing or zero `replicas` option is `None` or `Some(0)`. Other falsy values are not modelled, and neither are negative or fractional replica counts, which `options.replicas || 3` keeps. With -1 the loops of index.js:25 and 38 never run, so every add places nothing and every lookup fails on the empty ring. With 2.5 three virtual nodes are placed. The model's replica count is a natural number.
- The `async`/Promise wrapping of `set` and `get`. They are ordinary methods here.
- Distribution quality: how evenly keys spread over nodes, and what share of keys moves to an added node. Both depend on the real digest. Where a key can move to does not: only to the added node, and `HashRing.AddMovesKeysOnlyToNewNode` proves it for every digest.
- `HashRing.ConsistentHashing.GetAllNodes`: does not state the order of the list. The code lists nodes in the order the ring's Map first stored them, while the model scans `sortedKeys` and lists them by ascending position.
- `Cache.DistributedCache.constructor`: builds the tables before the ring, while the code builds the ring first. The two are independent, so the resulting state is the same.
