# LRU cache: a verified model

This project models the least-recently-used cache of the `de.felix185.caching`
library in Dafny. The cache has three parts:

- `Node` is an entry with an immutable key, a replaceable value and
  `previous`/`next` links.
- `DoubleLinkedList` keeps the nodes in recency order, most recently used at
  the head, with a `size` counter.
- `LRUCache` holds a map from each key to its node, next to the list.
  - `get` moves a hit to the front.
  - `put` either replaces the value of a present key and moves it to the
    front, or, for a new key, first evicts the tail when the list holds
    `capacity` nodes or more, then links a fresh node at the front.

Each Java class becomes a Dafny class with the same fields, updated in place:

- `node.dfy` (module `Nodes`): `Node`, with a setter per field whose
  `modifies` clause names only that field.
- `double_linked_list.dfy` (module `Lists`): `DoubleLinkedList`.
  - Ghost fields `Nodes` (the nodes, head to tail) and `Repr` (their set)
    give its abstract state.
  - `Valid()` says the links spell out `Nodes`, no node occurs twice, and
    `size` is the length.
  - Every method states its new `Nodes` in terms of the old one.
- `lru_cache.dfy` (module `Caches`): `LRUCache`.
  - Its ghost field `Entries` is the sequence of (key, value) pairs in list
    order.
  - `Valid()` ties the map, the list and `Entries` together:
    - the pairs are read off the nodes;
    - keys are distinct;
    - the map's keys are the entries' keys, and each key maps to its own node;
    - there are at most `MaxSize(capacity)` entries.
- `cache_spec.dfy` (module `CacheSpec`): the meaning of the cache without
  pointers.
  - `Lookup`, `Touch` (a read) and `Put` (an upsert with eviction) are
    functions on such sequences.
  - Lemmas state what the cache promises about them: round trips, bounds,
    eviction order and recency reset.
- The methods `Get` and `Put` are each proved equal to the matching function
  on `Entries`.

Four private helper methods split `put` and `get` into their steps, each
with its own contract:

- `Promote` is the move-to-front step shared by a `get` hit and a `put` of a
  present key.
- `Insert` is the branch of `put` for an absent key.
- `RemoveEldest` is its eviction step.
- `AddNewest` is its insertion step.

They run the same statements in the same order as the Java code.

Two client methods, `FillTwo` and `ReadProtectsFromEviction`, call one
cache several times in a row. They show that the contracts of the class
are enough for a caller to use a cache after the first call.

The code accepts a capacity of 0 (or any non-negative capacity). A put then
still inserts, so the cache can hold one entry. Neither the constructor
(LRUCache.java:30-34) nor the `Cache` interface says anything about the
capacity, so the model follows the code:

- `MaxSize(capacity)` is `capacity`, or 1 when the capacity is below 1.
- The constructor requires only `capacity >= 0`, because the underlying
  `HashMap` refuses a negative initial capacity.

## Model

| member | source | states |
|---|---|---|
| Nodes.Node.constructor | src/main/java/de/felix185/caching/lru/Node.java:19-24 | a fresh node carries the given key and value, and both links are null |
| Nodes.Node.SetValue | src/main/java/de/felix185/caching/lru/Node.java:49-51 | the value becomes the argument; the frame allows no other field to change, and the key is a constant |
| Nodes.Node.SetPrevious | src/main/java/de/felix185/caching/lru/Node.java:67-69 | `previous` becomes the argument; value and `next` cannot change |
| Nodes.Node.SetNext | src/main/java/de/felix185/caching/lru/Node.java:85-87 | `next` becomes the argument; value and `previous` cannot change |
| Lists.DoubleLinkedList.constructor | src/main/java/de/felix185/caching/lru/DoubleLinkedList.java:21-24 | a new list is valid and empty |
| Lists.DoubleLinkedList.AddFirst | src/main/java/de/felix185/caching/lru/DoubleLinkedList.java:26-41 | for a node outside the list with null links: the sequence becomes `[node] + old`, `size` grows by one, the node is the head, on an empty list it is also the tail, and otherwise the old head's `previous` is the node; the invariant is kept |
| Lists.DoubleLinkedList.MoveToFront | src/main/java/de/felix185/caching/lru/DoubleLinkedList.java:43-70 | for a listed node: the sequence becomes `[node]` followed by the old sequence without it, the node set and `size` are unchanged, moving the tail makes its predecessor the new tail, and the invariant is kept; the branch of the `tail == null` repair at lines 64-66 is proved unreachable |
| Lists.MoveOfFrontKeepsOrder | src/main/java/de/felix185/caching/lru/DoubleLinkedList.java:46-48 | moving the head to the front leaves the node sequence exactly as it was |
| Lists.DoubleLinkedList.KeptLinks | src/main/java/de/felix185/caching/lru/DoubleLinkedList.java:49-63 | the relinking touches only the moved node and its neighbours: every other listed node keeps its links |
| Lists.RelinkedAtFront | src/main/java/de/felix185/caching/lru/DoubleLinkedList.java:49-63 | after unlinking position `i` and relinking it before the head, the links spell out the moved sequence, with null links at both ends |
| Lists.MovedToFront | src/main/java/de/felix185/caching/lru/DoubleLinkedList.java:43-70 | moving a position to the front keeps the length, the set of nodes and their distinctness |
| Lists.DoubleLinkedList.ValidAfterMove | src/main/java/de/felix185/caching/lru/DoubleLinkedList.java:49-66 | the state left by relinking a non-head node satisfies the list invariant |
| Lists.DoubleLinkedList.RemoveLast | src/main/java/de/felix185/caching/lru/DoubleLinkedList.java:72-90 | on an empty list it returns null and changes nothing; otherwise it returns the old tail, leaves every node but the last in order, drops the tail from the node set, decrements `size`, and keeps the invariant (so an emptied list has null head and tail, and the new tail's `next` is null) |
| Lists.DistinctButLast | src/main/java/de/felix185/caching/lru/DoubleLinkedList.java:78-86 | dropping the tail keeps the remaining nodes distinct |
| Lists.DoubleLinkedList.Size | src/main/java/de/felix185/caching/lru/DoubleLinkedList.java:92-99 | the counter equals the number of listed nodes |
| Lists.DoubleLinkedList.Clear | src/main/java/de/felix185/caching/lru/DoubleLinkedList.java:101-110 | head and tail become null and `size` 0: a valid empty list |
| Lists.WithoutAt | src/main/java/de/felix185/caching/lru/DoubleLinkedList.java:49-57 | unlinking a node of a list without repeats removes exactly its position |
| Caches.LRUCache.constructor | src/main/java/de/felix185/caching/lru/LRUCache.java:30-34 | a new cache is valid and empty, with the given capacity |
| Caches.LRUCache.Get | src/main/java/de/felix185/caching/lru/LRUCache.java:37-49 | the result is the value stored for the key, or None when the key is absent; the entries become `Touch(old, key)`, so a hit moves to the front, a miss changes nothing, and the key-value view and size are unchanged |
| Caches.LRUCache.Promote | src/main/java/de/felix185/caching/lru/LRUCache.java:43-44 | moving a listed node to the front turns the entries into `Touch(old, node.key)` and keeps the invariant, the map view and the size; the entry found for that key is the node's value |
| Caches.LRUCache.CachedNode | src/main/java/de/felix185/caching/lru/LRUCache.java:43 | the map sends a present key to a listed node that carries that key |
| Caches.LRUCache.ValidAfterTouch | src/main/java/de/felix185/caching/lru/LRUCache.java:43-45 | after the key's node moves to the front, the touched entries describe the cache: the invariant holds, and the map view and size are unchanged |
| Caches.LRUCache.Size | src/main/java/de/felix185/caching/lru/LRUCache.java:51-59 | the size is the number of entries and never exceeds `MaxSize(capacity)` |
| Caches.LRUCache.Clear | src/main/java/de/felix185/caching/lru/LRUCache.java:61-70 | both map and list are emptied, the cache stays valid, and every lookup finds nothing |
| Caches.LRUCache.Put | src/main/java/de/felix185/caching/lru/LRUCache.java:72-93 | the entries become `CacheSpec.Put(old, capacity, key, value)`, the invariant is kept, a lookup of the key finds the new value, and every node the put adds to the list is freshly allocated |
| Caches.LRUCache.ValidAfterSetValue | src/main/java/de/felix185/caching/lru/LRUCache.java:75-77 | replacing the value of a present key's node replaces that key's entry and nothing else, and the invariant still holds |
| Caches.LRUCache.PairsSetValue | src/main/java/de/felix185/caching/lru/LRUCache.java:77 | a new value in one node changes only that node's pair |
| Caches.LRUCache.Insert | src/main/java/de/felix185/caching/lru/LRUCache.java:79-88 | for an absent key, in any state of the cache: the entries become `CacheSpec.Put(old, capacity, key, value)`, the invariant is kept, and every node added is freshly allocated |
| Caches.LRUCache.RemoveEldest | src/main/java/de/felix185/caching/lru/LRUCache.java:80-85 | the last entry is dropped from both list and map (nothing happens on an empty cache), the invariant is kept, and no node is added |
| Caches.LRUCache.ValidAfterRemoveLast | src/main/java/de/felix185/caching/lru/LRUCache.java:81-84 | unlinking the tail and removing its key from the map leaves a valid cache holding every entry but the last |
| Caches.LRUCache.AddNewest | src/main/java/de/felix185/caching/lru/LRUCache.java:86-88 | for an absent key with room for one more entry, a freshly allocated node enters at the front of the list and in the map: the entries become `[(key, value)] + old`, the invariant is kept, and the only nodes added are fresh |
| Caches.LRUCache.ValidAfterAddFirst | src/main/java/de/felix185/caching/lru/LRUCache.java:86-88 | linking a fresh node for an absent key and mapping the key to it puts its entry in front and keeps the invariant |
| Caches.FillTwo | src/main/java/de/felix185/caching/lru/LRUCache.java:30-93 | a new cache of capacity 2 after `put(a)` and `put(b)` holds `b` then `a`, is valid, and owns only fresh objects, so a client can go on calling it |
| Caches.ReadProtectsFromEviction | src/main/java/de/felix185/caching/lru/LRUCache.java:37-93 | on that cache, `get(a)` returns `a`'s value and a following `put(c)` evicts `b` and keeps `a`: the cache holds `c` then `a` |
| Caches.PairsWithout | src/main/java/de/felix185/caching/lru/DoubleLinkedList.java:49-57 | taking a node out of the list takes its key's entry out of the pairs |
| Caches.PairsButLast | src/main/java/de/felix185/caching/lru/DoubleLinkedList.java:78-79 | dropping the tail node drops the last pair |
| CacheSpec.Lookup | src/main/java/de/felix185/caching/Cache.java:25-31 | a lookup finds exactly what the key-value view holds for the key, and None for an absent key |
| CacheSpec.Touch | src/main/java/de/felix185/caching/lru/LRUCache.java:40-45 | a read keeps the key-value view; a present key's entry comes to the front; an absent key leaves the entries unchanged |
| CacheSpec.Put | src/main/java/de/felix185/caching/Cache.java:15-23 | after an upsert, the first entry is the new pair |
| CacheSpec.TouchKeepsContents | src/main/java/de/felix185/caching/lru/LRUCache.java:43-45 | a read keeps the keys distinct, the key set and the number of entries |
| CacheSpec.TouchAt | src/main/java/de/felix185/caching/lru/LRUCache.java:43-44 | a read of a present key moves its entry to the front; the others keep their relative order |
| CacheSpec.PutExisting | src/main/java/de/felix185/caching/lru/LRUCache.java:74-78 | putting a present key replaces its value in the key-value view, keeps the size and evicts nothing |
| CacheSpec.PutAt | src/main/java/de/felix185/caching/lru/LRUCache.java:74-78 | putting a present key takes its entry out and puts the new pair in front; every other entry keeps its relative order |
| CacheSpec.PutAsTouch | src/main/java/de/felix185/caching/lru/LRUCache.java:75-77 | putting a present key equals replacing its value in place and then reading the key |
| CacheSpec.SetValueKeys | src/main/java/de/felix185/caching/lru/LRUCache.java:77 | replacing one entry's value keeps the key set and distinctness, and changes the key-value view at that key only |
| CacheSpec.PutFresh | src/main/java/de/felix185/caching/lru/LRUCache.java:79-88 | putting a new key while there is room adds the pair in front, grows the size by one, and keeps every other entry in order |
| CacheSpec.PutEvicting | src/main/java/de/felix185/caching/lru/LRUCache.java:79-88 | putting a new key into a full cache drops exactly the last entry, then adds the pair in front; the size is unchanged |
| CacheSpec.PutNewKey | src/main/java/de/felix185/caching/lru/LRUCache.java:79-88 | for any capacity, putting an absent key adds it with its value to the key-value view, takes the least recently used key out of it exactly when the cache is full, keeps the keys distinct, and leaves the size unchanged when full and one larger otherwise |
| CacheSpec.PutBounded | src/main/java/de/felix185/caching/lru/LRUCache.java:72-93 | every put keeps the keys distinct and the size within `MaxSize(capacity)` |
| CacheSpec.GetAfterPut | src/main/java/de/felix185/caching/lru/LRUCache.java:37-49 | round trip: right after `put(k, v)`, `get(k)` returns `v` and leaves the order as it is |
| CacheSpec.FillKeepsAll | src/main/java/de/felix185/caching/lru/LRUCache.java:79-88 | putting at most `capacity` distinct keys into an empty cache keeps them all, most recent first |
| CacheSpec.EvictsFirstInserted | src/main/java/de/felix185/caching/lru/LRUCache.java:79-88 | putting `capacity + 1` distinct keys with no reads evicts exactly the first; all later keys are still found with their values |
| CacheSpec.OverflowDropsFirst | src/main/java/de/felix185/caching/lru/LRUCache.java:79-85 | the put that overflows a full cache drops the first key put and keeps the rest in order |
| CacheSpec.TouchResetsRecency | src/main/java/de/felix185/caching/lru/LRUCache.java:43-44 | with capacity 2, `put(a)`, `put(b)`, `get(a)`, `put(c)` evicts `b`; `a` is still found |
| CacheSpec.RemoveKeyDistinct | src/main/java/de/felix185/caching/lru/LRUCache.java:83 | removing a present key from entries with distinct keys drops exactly one entry and keeps the keys distinct |

## Left out

- Locking: the `ReentrantReadWriteLock` fields of the cache and of the list, and every lock, unlock and `try`/`finally`, are not modelled; the model is sequential and runs each operation's statements in order.
- `HashMap` internals and the hashing and equality of keys are not modelled. The index is a Dafny `map<K, Node<K, V>>` over a key type with equality.
- The constructor's exception for a negative capacity comes from `HashMap`. The model requires `capacity >= 0` instead.
- Null values are not modelled. `Optional.ofNullable` makes a `get` of a present key whose value is null report absence; the model returns the stored value.
- The O(1) running-time claim is not modelled: it is not a functional property.
- Links of detached nodes are not modelled. `RemoveLast` keeps the old tail's `previous`, and `Clear` does not unlink nodes. The model states nothing about the links of nodes that are no longer listed.
- The list's `size` and the cache's size are unbounded integers. A Java `int` would overflow only after 2^31 entries.
- The getters `getKey`, `getValue`, `getPrevious` and `getNext` are plain field reads without contracts.
- `Cache.java` is an interface without logic. Its comments serve only as the contract of `LRUCache`.
- Lists.DoubleLinkedList.MoveToFront: does not state that moving the head leaves the list object and every link unchanged. `MoveOfFrontKeepsOrder` shows that the node sequence stays the same, and `Valid()` determines every link of the listed nodes from that sequence. Stating it outright made the callers' proofs too costly.
- Lists.DoubleLinkedList.MoveToFront: the repair `if (tail == null) tail = node` (`DoubleLinkedList.java:64-66`) is modelled as a branch proved unreachable. A node other than the head leaves at least two nodes in the list.
