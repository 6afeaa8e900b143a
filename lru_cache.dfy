/** The LRU cache: a map from keys to the nodes of a recency list.  The map
  * finds a key's node in one step; the list orders the nodes from the most
  * recently used (front) to the least recently used (back), so the back node
  * is the one to evict.  `Entries` is the cache's abstract state, the
  * sequence of (key, value) pairs in list order, whose meaning is given in
  * `CacheSpec`. */
module Caches {
  import opened Nodes
  import opened Lists
  import opened CacheSpec

  /** The (key, value) pairs held by the nodes `ns`, in order.  It reads only
    * the values, so relinking nodes does not change it. */
  ghost function Pairs<K, V>(ns: seq<Node<K, V>>): (r: seq<(K, V)>)
    reads ns`value
    ensures |r| == |ns|
  {
    if ns == [] then [] else [(ns[0].key, ns[0].value)] + Pairs(ns[1..])
  }

  /** Position `j` of `Pairs(ns)` is the key and value of node `j`. */
  lemma {:induction false} PairsAt<K, V>(ns: seq<Node<K, V>>, j: nat)
    requires j < |ns|
    ensures Pairs(ns)[j] == (ns[j].key, ns[j].value)
  {
    if j > 0 {
      PairsAt(ns[1..], j - 1);
    }
  }

  /** The key of every node of `ns` is a key of `Pairs(ns)`. */
  lemma PairsHasKey<K, V>(ns: seq<Node<K, V>>, n: Node<K, V>)
    requires n in ns
    ensures n.key in KeySet(Pairs(ns))
  {
    var j :| 0 <= j < |ns| && ns[j] == n;
    PairsAt(ns, j);
    assert Pairs(ns)[j] in Pairs(ns);
  }

  /** With distinct keys, taking node `n` out of the nodes takes the entry
    * for its key out of the pairs. */
  lemma {:induction false} PairsWithout<K, V>(ns: seq<Node<K, V>>, n: Node<K, V>)
    requires n in ns && DistinctKeys(Pairs(ns))
    ensures Pairs(Without(ns, n)) == RemoveKey(Pairs(ns), n.key)
  {
    var t := ns[1..];
    var p := Pairs(ns);
    assert p[1..] == Pairs(t);
    if ns[0] == n {
      assert n.key !in KeySet(Pairs(t));
      assert n !in t by {
        if n in t {
          PairsHasKey(t, n);
        }
      }
      WithoutAbsent(t, n);
      RemoveKeyAbsent(Pairs(t), n.key);
    } else {
      assert n in t;
      PairsHasKey(t, n);
      PairsWithout(t, n);
      var w := Without(t, n);
      assert Without(ns, n) == [ns[0]] + w;
      assert ([ns[0]] + w)[1..] == w;
    }
  }

  /** Dropping the last node drops the last pair. */
  lemma PairsButLast<K, V>(ns: seq<Node<K, V>>)
    requires ns != []
    ensures Pairs(ns[..|ns| - 1]) == Pairs(ns)[..|ns| - 1]
  {
    var m := ns[..|ns| - 1];
    forall j | 0 <= j < |m| ensures Pairs(m)[j] == Pairs(ns)[j] {
      PairsAt(m, j);
      PairsAt(ns, j);
    }
  }

  /** `PairsAt` in the earlier of two states. */
  twostate lemma {:induction false} OldPairsAt<K, V>(ns: seq<Node<K, V>>)
    ensures forall j :: 0 <= j < |ns| ==> old(Pairs(ns))[j] == (ns[j].key, old(ns[j].value))
  {
    if ns != [] {
      OldPairsAt(ns[1..]);
    }
  }

  class LRUCache<K(==), V> {
    const capacity: int
    var cache: map<K, Node<K, V>>
    const list: DoubleLinkedList<K, V>

    /** The entries, most recently used first. */
    ghost var Entries: seq<(K, V)>

    /** The list is well formed and holds exactly `Entries`; the keys are
      * distinct, the map's keys are exactly the entries' keys, the map sends
      * the key of every listed node to that node, and there are at most
      * `MaxSize(capacity)` entries.  Neither the cache object nor its list
      * is one of the nodes. */
    ghost predicate Valid()
      reads this, list, list.Repr
    {
      list.Valid() &&
      list as object != this &&
      this as object !in list.Repr &&
      Entries == Pairs(list.Nodes) &&
      DistinctKeys(Entries) &&
      cache.Keys == KeySet(Entries) &&
      (forall n :: n in list.Repr ==> n.key in cache && cache[n.key] == n) &&
      |Entries| <= MaxSize(capacity)
    }

    /** An empty cache.  A negative capacity is refused by the map the cache
      * allocates, hence the precondition; a capacity of 0 is accepted. */
    constructor (capacity: int)
      requires capacity >= 0
      ensures Valid() && fresh(list) && list.Repr == {}
      ensures this.capacity == capacity && Entries == []
    {
      this.capacity := capacity;
      cache := map[];
      list := new DoubleLinkedList();
      Entries := [];
    }

    /** The value stored for `key`, if any; a hit makes `key` the most
      * recently used entry. */
    method Get(key: K) returns (r: Option<V>)
      requires Valid()
      modifies this, list, list.Repr
      ensures Valid() && list.Repr == old(list.Repr)
      ensures r == Lookup(old(Entries), key)
      ensures Entries == Touch(old(Entries), key)
      ensures ToMap(Entries) == ToMap(old(Entries)) && |Entries| == |old(Entries)|
    {
      if key !in cache {
        return None;
      }
      var node := cache[key];
      CachedNode(key);
      Promote(node);
      r := Some(node.GetValue());
    }

    /** Makes the entry of a listed node the most recently used one, by moving
      * the node to the front of the list. */
    method Promote(node: Node<K, V>)
      requires Valid() && node in list.Nodes
      modifies this, list, list.Repr
      ensures Valid() && list.Repr == old(list.Repr)
      ensures Entries == Touch(old(Entries), node.key)
      ensures ToMap(Entries) == ToMap(old(Entries)) && |Entries| == |old(Entries)|
      ensures Lookup(old(Entries), node.key) == Some(node.value)
    {
      list.MoveToFront(node);
      Entries := Touch(Entries, node.key);
      ValidAfterTouch(node);
    }

    /** The map sends every key of the entries to the node that holds it. */
    lemma CachedNode(key: K)
      requires Valid() && key in cache
      ensures cache[key] in list.Nodes && cache[key].key == key
    {
      var i := IndexOfKey(Entries, key);
      PairsAt(list.Nodes, i);
      assert list.Nodes[i] in list.Repr;
    }

    /** After a hit has moved the key's node to the front of the list, the
      * touched entries describe the cache again. */
    twostate lemma ValidAfterTouch(node: Node<K, V>)
      requires old(Valid()) && node in old(list.Nodes)
      requires list.Valid() && list.Repr == old(list.Repr) && cache == old(cache)
      requires list.Nodes == [node] + Without(old(list.Nodes), node)
      requires unchanged(list.Repr`value)
      requires Entries == Touch(old(Entries), node.key)
      ensures Valid() && ToMap(Entries) == ToMap(old(Entries)) && |Entries| == |old(Entries)|
      ensures Lookup(old(Entries), node.key) == Some(node.value)
    {
      var E, N, key := old(Entries), old(list.Nodes), node.key;
      assert E == Pairs(N) by {
        assert Pairs(N) == old(Pairs(N));
      }
      var i :| 0 <= i < |N| && N[i] == node;
      PairsAt(N, i);
      LookupDistinctAt(E, i);
      var W := Without(N, node);
      PairsWithout(N, node);
      TouchKeepsContents(E, key);
      assert ([node] + W)[1..] == W;
    }

    /** The number of entries. */
    function Size(): (n: int)
      reads this, list, list.Repr
      requires Valid()
      ensures n == |Entries| && n <= MaxSize(capacity)
    {
      list.Size()
    }

    /** Forgets every entry. */
    method Clear()
      requires Valid()
      modifies this, list
      ensures Valid() && Entries == [] && list.Repr == {}
      ensures forall k :: Lookup(Entries, k) == None
    {
      cache := map[];
      list.Clear();
      Entries := [];
    }

    /** Stores `value` for `key` and makes `key` the most recently used
      * entry.  A new key first evicts the least recently used entry when the
      * cache already holds `capacity` entries or more. */
    method Put(key: K, value: V)
      requires Valid()
      modifies this, list, list.Repr
      ensures Valid() && fresh(list.Repr - old(list.Repr))
      ensures Entries == CacheSpec.Put(old(Entries), capacity, key, value)
      ensures Lookup(Entries, key) == Some(value)
    {
      ghost var E := Entries;
      if key in cache {
        var node := cache[key];
        CachedNode(key);
        ghost var i :| 0 <= i < |list.Nodes| && list.Nodes[i] == node;
        PairsAt(list.Nodes, i);
        node.SetValue(value);
        Entries := Entries[i := (key, value)];
        ValidAfterSetValue(i);
        Promote(node);
        PutAsTouch(E, capacity, i, value);
      } else {
        Insert(key, value);
      }
      GetAfterPut(E, capacity, key, value);
    }

    /** The branch of a put for a key that is not present: evicts the least
      * recently used entry when the cache is full, then links a fresh node
      * for the key at the front. */
    method Insert(key: K, value: V)
      requires Valid() && key !in cache
      modifies this, list, list.Repr
      ensures Valid() && fresh(list.Repr - old(list.Repr))
      ensures Entries == CacheSpec.Put(old(Entries), capacity, key, value)
    {
      ghost var E := Entries;
      assert Lookup(E, key) == None;
      if list.Size() >= capacity {
        RemoveEldest();
      }
      assert CacheSpec.Put(E, capacity, key, value) == [(key, value)] + Entries;
      AddNewest(key, value);
    }

    /** The eviction step of a put: unlinks the least recently used node, if
      * there is one, and drops its key from the map. */
    method RemoveEldest()
      requires Valid()
      modifies this, list, list.Repr
      ensures Valid() && list.Repr <= old(list.Repr)
      ensures Entries == if old(Entries) == [] then [] else old(Entries[..|Entries| - 1])
    {
      var lastNode := list.RemoveLast();
      if lastNode != null {
        cache := cache - {lastNode.GetKey()};
        Entries := Entries[..|Entries| - 1];
        ValidAfterRemoveLast(lastNode);
      }
    }

    /** The insertion step of a put: links a fresh node for a key that is not
      * present at the front and maps the key to it. */
    method AddNewest(key: K, value: V)
      requires Valid() && key !in cache && |Entries| < MaxSize(capacity)
      modifies this, list, list.Repr
      ensures Valid() && fresh(list.Repr - old(list.Repr))
      ensures Entries == [(key, value)] + old(Entries)
    {
      var newNode := new Node(key, value);
      list.AddFirst(newNode);
      cache := cache[key := newNode];
      Entries := [(key, value)] + Entries;
      ValidAfterAddFirst(newNode);
    }

    /** Replacing the value of node `i` of the list, and the value in entry
      * `i`, leaves a cache that describes itself as before. */
    twostate lemma ValidAfterSetValue(i: nat)
      requires old(Valid()) && i < |old(list.Nodes)|
      requires unchanged(list) && cache == old(cache)
      requires unchanged(old(list.Repr)`previous, old(list.Repr)`next)
      requires unchanged((old(list.Repr) - {list.Nodes[i]})`value)
      requires Entries == old(Entries)[i := (list.Nodes[i].key, list.Nodes[i].value)]
      ensures Valid() && |Entries| == |old(Entries)|
    {
      var E, N := old(Entries), old(list.Nodes);
      PairsSetValue(i);
      assert E[i].0 == N[i].key by {
        OldPairsAt(N);
      }
      SetValueKeys(E, i, N[i].value);
    }

    /** Replacing the value of node `i` of the list alone replaces pair `i`
      * alone. */
    twostate lemma PairsSetValue(i: nat)
      requires i < |list.Nodes| && list.Nodes == old(list.Nodes) && Distinct(list.Nodes)
      requires unchanged((set n | n in list.Nodes && n != list.Nodes[i])`value)
      ensures Pairs(list.Nodes) == old(Pairs(list.Nodes))[i := (list.Nodes[i].key, list.Nodes[i].value)]
    {
      var N := list.Nodes;
      OldPairsAt(N);
      DistinctIff(N);
      forall j | 0 <= j < |N| ensures Pairs(N)[j] == old(Pairs(N))[i := (N[i].key, N[i].value)][j] {
        PairsAt(N, j);
      }
    }

    /** Unlinking the back node and dropping its key from the map leaves a
      * cache that holds every entry but the last. */
    twostate lemma ValidAfterRemoveLast(last: Node<K, V>)
      requires old(Valid()) && old(list.Nodes) != [] && last == old(list.Nodes[|list.Nodes| - 1])
      requires list.Valid() && list.Nodes == old(list.Nodes[..|list.Nodes| - 1])
      requires cache == old(cache) - {last.key}
      requires unchanged(old(list.Repr)`value)
      requires Entries == old(Entries[..|Entries| - 1])
      ensures Valid()
    {
      var E, N := old(Entries), old(list.Nodes);
      var kept := N[..|N| - 1];
      assert Pairs(N) == E by {
        assert Pairs(N) == old(Pairs(N));
      }
      PairsButLast(N);
      assert DistinctKeys(Entries) && cache.Keys == KeySet(Entries) by {
        PairsAt(N, |N| - 1);
        RemoveKeyAt(E, |E| - 1);
        RemoveKeyDistinct(E, last.key);
        assert E[..|E| - 1] + E[|E|..] == Entries;
      }
      assert last !in kept && last in old(list.Repr) by {
        DistinctIff(N);
      }
      forall n | n in list.Repr ensures n.key in cache && cache[n.key] == n {
        assert n in kept && n in old(list.Repr);
      }
    }

    /** Linking a fresh node for a key that is not present at the front, and
      * mapping its key to it, puts its entry in front of the others; there
      * must be room for one more entry. */
    twostate lemma ValidAfterAddFirst(new node: Node<K, V>)
      requires old(Valid()) && fresh(node) && node.key !in old(cache)
      requires |old(Entries)| < MaxSize(capacity)
      requires list.Valid() && list.Nodes == [node] + old(list.Nodes)
      requires cache == old(cache)[node.key := node]
      requires unchanged(old(list.Repr)`value)
      requires Entries == [(node.key, node.value)] + old(Entries)
      ensures Valid()
    {
      var E, N := old(Entries), old(list.Nodes);
      assert Pairs(N) == E by {
        assert Pairs(N) == old(Pairs(N));
      }
      assert ([node] + N)[1..] == N;
      assert DistinctKeys(Entries) by {
        assert Entries[1..] == E;
      }
      assert cache.Keys == KeySet(Entries) by {
        KeySetCons((node.key, node.value), E);
      }
      forall n | n in list.Repr ensures n.key in cache && cache[n.key] == n {
        if n != node {
          assert n in old(list.Repr);
        }
      }
    }
  }

  /** A client's first steps: a new cache of capacity 2, then put `a` and
    * put `b`. */
  method FillTwo<K(==), V>(a: K, b: K, va: V, vb: V) returns (lru: LRUCache<K, V>)
    requires a != b
    ensures fresh(lru) && fresh(lru.list) && fresh(lru.list.Repr) && lru.Valid()
    ensures lru.capacity == 2 && lru.Entries == [(b, vb), (a, va)]
  {
    lru := new LRUCache<K, V>(2);
    lru.Put(a, va);
    lru.Put(b, vb);
    assert Lookup([(a, va)], b) == None;
  }

  /** The same client goes on: get `a`, then put `c`.  The read makes `b`
    * the least recently used entry, so the last put evicts `b` and keeps
    * `a`. */
  method ReadProtectsFromEviction<K(==), V>(a: K, b: K, c: K, va: V, vb: V, vc: V)
      returns (lru: LRUCache<K, V>, first: Option<V>)
    requires a != b && b != c && a != c
    ensures fresh(lru) && lru.Valid() && first == Some(va)
    ensures lru.Entries == [(c, vc), (a, va)]
    ensures Lookup(lru.Entries, a) == Some(va) && Lookup(lru.Entries, b) == None
  {
    TouchResetsRecency(a, b, c, va, vb, vc);
    lru := FillTwo(a, b, va, vb);
    first := lru.Get(a);
    lru.Put(c, vc);
  }
}
