/** HashMap_Class (Common/HashMap.h:9-410): a separately chained hash table.
    Each of the `buckets` (nodeVec) holds the head of a doubly linked chain of
    nodes; every node also sits in the dense array (allocatedNodes) at the
    slot it records, which makes Size() the dense array's length and lets a
    node be removed by moving the last slot into its own. The capacity is
    always a number that passes GetPrime's test, and it grows, by rehashing
    every node, only when a new key arrives at a table whose Size has reached
    its capacity. */
module HashMapName {
  import opened Primes
  import opened Chains
  import opened Dense
  import opened Rehash
  import opened Iteration

  /** The abstract map agrees with the pool: owner names the node of each
      key, that node carries the key and its value, and every live node is
      the owner of its own key (so keys are unique across the table). */
  ghost predicate Abstracts<K, V>(contents: map<K, V>, owner: map<K, Handle>, pool: Pool<K, V>)
  {
    owner.Keys == contents.Keys &&
    (forall k :: k in owner ==>
      owner[k] in pool && pool[owner[k]].key == k && pool[owner[k]].value == contents[k]) &&
    (forall h :: h in pool ==> pool[h].key in owner && owner[pool[h].key] == h)
  }

  /** The table invariant, over the values of the table's fields: a bucket
      count of at least 3 that passes GetPrime's test, heads and chains
      linked through the pool, no more nodes than buckets, handles below the
      allocation counter, an exact dense index, every node on the chain of
      its own bucket, and the abstract map carried by the nodes. */
  ghost predicate TableInv<K, V>(heads: seq<Option<Handle>>, chains: seq<seq<Handle>>, pool: Pool<K, V>,
                                 dense: seq<Handle>, nextHandle: nat, hash: K -> nat,
                                 contents: map<K, V>, owner: map<K, Handle>)
  {
    |heads| >= 3 && PassesTrialDivision(|heads|) &&
    WellLinked(heads, chains, pool) &&
    |dense| <= |heads| &&
    (forall h :: h in pool ==> h < nextHandle) &&
    DenseIndexed(dense, pool) &&
    ChainsPlaced(chains, pool, hash) && PoolCovered(chains, pool, hash) &&
    Abstracts(contents, owner, pool) &&
    |contents| == |dense|
  }

  lemma MapRemoveCard<K, V>(m: map<K, V>, k: K)
    requires k in m
    ensures |m - {k}| == |m| - 1
  {
    assert (m - {k}).Keys == m.Keys - {k};
  }

  lemma MapInsertCard<K, V>(m: map<K, V>, k: K, v: V)
    requires k !in m
    ensures |m[k := v]| == |m| + 1
  {
    assert m[k := v].Keys == m.Keys + {k};
  }

  /** The abstraction is about keys and values only. */
  lemma AbstractsFrame<K, V>(contents: map<K, V>, owner: map<K, Handle>, p: Pool<K, V>, q: Pool<K, V>)
    requires Abstracts(contents, owner, p) && SamePayload(p, q)
    ensures Abstracts(contents, owner, q)
  {
  }

  /** Dropping the node of one key drops exactly that key from the map. */
  lemma AbstractsRemove<K, V>(contents: map<K, V>, owner: map<K, Handle>, p: Pool<K, V>, q: Pool<K, V>, h: Handle)
    requires Abstracts(contents, owner, p) && h in p
    requires q.Keys == p.Keys - {h}
    requires forall g :: g in q ==> q[g].key == p[g].key && q[g].value == p[g].value
    ensures Abstracts(contents - {p[h].key}, owner - {p[h].key}, q)
    ensures |contents - {p[h].key}| == |contents| - 1
  {
    MapRemoveCard(contents, p[h].key);
  }

  /** Unlinking position j of chain b and dropping that node from the pool
      leaves every chain placed and every remaining node on its chain. */
  lemma RemovePlaced<K, V>(chains: seq<seq<Handle>>, p: Pool<K, V>, q: Pool<K, V>, hash: K -> nat, b: nat, j: nat)
    requires |chains| > 0 && ChainsPlaced(chains, p, hash) && PoolCovered(chains, p, hash)
    requires b < |chains| && j < |chains[b]|
    requires q.Keys == p.Keys - {chains[b][j]}
    requires forall g :: g in q ==> q[g].key == p[g].key
    ensures var chains' := chains[b := Unlink(chains[b], j)];
      ChainsPlaced(chains', q, hash) && PoolCovered(chains', q, hash)
  {
    var c := chains[b];
    var h := c[j];
    var chains' := chains[b := Unlink(c, j)];
    UnlinkSpec(c, j);
    forall b', i | 0 <= b' < |chains'| && 0 <= i < |chains'[b']|
      ensures chains'[b'][i] in q && hash(q[chains'[b'][i]].key) % |chains'| == b'
    {
      if b' == b {
        assert chains'[b'][i] in multiset(c) - multiset{h};
        assert chains'[b'][i] in c && chains'[b'][i] != h;
      } else {
        ChainsDisjoint(chains, p, hash, b, b', h);
        assert chains'[b'][i] in chains[b'];
      }
    }
    forall g | g in q
      ensures g in chains'[hash(q[g].key) % |chains'|]
    {
      assert Live(p, g);
      if hash(q[g].key) % |chains'| == b {
        assert g in c && g != h;
        assert g in multiset(c) - multiset{h};
      }
    }
  }

  // ---------------------------------------------------------------------
  // The invariant across each operation. Each lemma takes the field values
  // before and after one operation, related as the operation relates them.

  /** A table of empty buckets and no nodes satisfies the invariant
      (the constructor and Clear). */
  lemma EmptyInv<K, V>(heads: seq<Option<Handle>>, chains: seq<seq<Handle>>, pool: Pool<K, V>,
                       dense: seq<Handle>, nextHandle: nat, hash: K -> nat,
                       contents: map<K, V>, owner: map<K, Handle>)
    requires |heads| >= 3 && PassesTrialDivision(|heads|)
    requires forall b :: 0 <= b < |heads| ==> heads[b] == None
    requires chains == seq(|heads|, _ => []) && pool == map[] && dense == []
    requires contents == map[] && owner == map[]
    ensures TableInv(heads, chains, pool, dense, nextHandle, hash, contents, owner)
  {
    assert WellLinked(heads, chains, pool);
    assert PoolCovered(chains, pool, hash);
  }

  /** A table with an empty dense array has no nodes, no entries and only
      empty buckets. */
  lemma EmptyTable<K, V>(heads: seq<Option<Handle>>, chains: seq<seq<Handle>>, pool: Pool<K, V>,
                         dense: seq<Handle>, nextHandle: nat, hash: K -> nat,
                         contents: map<K, V>, owner: map<K, Handle>)
    requires TableInv(heads, chains, pool, dense, nextHandle, hash, contents, owner) && dense == []
    ensures pool == map[] && contents == map[] && owner == map[]
    ensures forall b :: 0 <= b < |heads| ==> heads[b] == None && chains[b] == []
  {
    assert forall h :: h !in pool;
    assert forall k :: k !in owner;
    forall b | 0 <= b < |heads|
      ensures chains[b] == []
    {
      assert forall h :: h !in chains[b];
    }
  }

  /** Two pools with the same nodes in the same slots, with the same keys and
      links; only values may differ. */
  ghost predicate SameShape<K, V>(p: Pool<K, V>, q: Pool<K, V>)
  {
    p.Keys == q.Keys &&
    forall h :: h in p ==>
      q[h].last == p[h].last && q[h].next == p[h].next &&
      q[h].arrayIndex == p[h].arrayIndex && q[h].key == p[h].key
  }

  /** The layout part of the invariant does not look at values. */
  lemma LayoutFrame<K, V>(heads: seq<Option<Handle>>, chains: seq<seq<Handle>>, p: Pool<K, V>, q: Pool<K, V>,
                          dense: seq<Handle>, hash: K -> nat)
    requires |chains| > 0 && WellLinked(heads, chains, p) && DenseIndexed(dense, p)
    requires ChainsPlaced(chains, p, hash) && PoolCovered(chains, p, hash) && SameShape(p, q)
    ensures WellLinked(heads, chains, q) && DenseIndexed(dense, q)
    ensures ChainsPlaced(chains, q, hash) && PoolCovered(chains, q, hash)
  {
    forall b, j | 0 <= b < |chains| && 0 <= j < |chains[b]|
      ensures SameLinksAt(p, q, chains[b][j])
    {
    }
    WellLinkedFrame(heads, chains, p, q);
    forall g | Live(q, g)
      ensures g in chains[hash(q[g].key) % |chains|]
    {
      assert Live(p, g);
    }
  }

  /** Replacing the value stored for a present key. */
  lemma AbstractsUpdate<K, V>(contents: map<K, V>, owner: map<K, Handle>, pool: Pool<K, V>, key: K, value: V)
    requires Abstracts(contents, owner, pool) && key in contents
    ensures owner[key] in pool
    ensures Abstracts(contents[key := value], owner, pool[owner[key] := pool[owner[key]].(value := value)])
    ensures |contents[key := value]| == |contents|
  {
  }

  /** Insert of a key already present (Common/HashMap.h:240-247): storing the
      new value in the key's node keeps the invariant and maps the key to the
      new value. */
  lemma UpdateInv<K, V>(heads: seq<Option<Handle>>, chains: seq<seq<Handle>>, pool: Pool<K, V>,
                        dense: seq<Handle>, nextHandle: nat, hash: K -> nat,
                        contents: map<K, V>, owner: map<K, Handle>, key: K, value: V,
                        pool': Pool<K, V>, contents': map<K, V>)
    requires TableInv(heads, chains, pool, dense, nextHandle, hash, contents, owner) && key in contents
    requires pool' == pool[owner[key] := pool[owner[key]].(value := value)]
    requires contents' == contents[key := value]
    ensures TableInv(heads, chains, pool', dense, nextHandle, hash, contents', owner)
  {
    AbstractsUpdate(contents, owner, pool, key, value);
    LayoutFrame(heads, chains, pool, pool', dense, hash);
  }

  /** Before Insert links a new node: the node GetNewLinkNode makes, under the
      next unused handle, sits on no chain and disturbs no chain. */
  lemma InsertPrepare<K, V>(heads: seq<Option<Handle>>, chains: seq<seq<Handle>>, pool: Pool<K, V>,
                            dense: seq<Handle>, nextHandle: nat, hash: K -> nat,
                            contents: map<K, V>, owner: map<K, Handle>, key: K, value: V)
    requires TableInv(heads, chains, pool, dense, nextHandle, hash, contents, owner)
    ensures var p1 := pool[nextHandle := LinkNode(None, None, |dense|, key, value)];
      nextHandle !in pool && WellLinked(heads, chains, p1) && ChainsPlaced(chains, p1, hash) &&
      forall b :: 0 <= b < |chains| ==> nextHandle !in chains[b]
  {
    var p1 := pool[nextHandle := LinkNode(None, None, |dense|, key, value)];
    forall b, j | 0 <= b < |chains| && 0 <= j < |chains[b]|
      ensures SameLinksAt(pool, p1, chains[b][j])
    {
    }
    WellLinkedFrame(heads, chains, pool, p1);
  }

  /** A node d of bucket b added to chain b keeps every node covered. */
  lemma InsertCovered<K, V>(chains: seq<seq<Handle>>, p: Pool<K, V>, q: Pool<K, V>, hash: K -> nat, b: nat, d: Handle)
    requires |chains| > 0 && PoolCovered(chains, p, hash) && b < |chains|
    requires q.Keys == p.Keys + {d} && hash(q[d].key) % |chains| == b
    requires forall g :: g in p ==> q[g].key == p[g].key
    ensures PoolCovered(chains[b := LinkAfterHead(chains[b], d)], q, hash)
  {
    var chains' := chains[b := LinkAfterHead(chains[b], d)];
    LinkAfterHeadSpec(chains[b], d);
    forall g | Live(q, g)
      ensures g in chains'[hash(q[g].key) % |chains'|]
    {
      if g == d {
        assert g in multiset(chains'[b]);
      } else {
        assert Live(p, g);
        if hash(q[g].key) % |chains'| == b {
          assert g in multiset(chains[b]);
          assert g in multiset(chains'[b]);
        }
      }
    }
  }

  /** A new node d for a new key adds exactly that key to the map. */
  lemma AbstractsInsert<K, V>(contents: map<K, V>, owner: map<K, Handle>, p: Pool<K, V>, q: Pool<K, V>,
                              key: K, value: V, d: Handle)
    requires Abstracts(contents, owner, p) && key !in contents && d !in p
    requires q.Keys == p.Keys + {d} && q[d].key == key && q[d].value == value
    requires forall g :: g in p ==> q[g].key == p[g].key && q[g].value == p[g].value
    ensures Abstracts(contents[key := value], owner[key := d], q)
    ensures |contents[key := value]| == |contents| + 1
  {
    MapInsertCard(contents, key, value);
    var contents', owner' := contents[key := value], owner[key := d];
    assert owner'.Keys == contents'.Keys;
    forall k | k in owner'
      ensures owner'[k] in q && q[owner'[k]].key == k && q[owner'[k]].value == contents'[k]
    {
      if k != key {
        assert owner[k] in p;
      }
    }
    forall h | h in q
      ensures q[h].key in owner' && owner'[q[h].key] == h
    {
      if h != d {
        assert h in p && p[h].key in owner;
      }
    }
  }

  /** Insert of a new key (Common/HashMap.h:248-255): once the new node is
      linked into its bucket, the invariant holds again with the node
      appended to the dense array and the key mapped to its value. */
  lemma InsertFinish<K, V>(heads: seq<Option<Handle>>, chains: seq<seq<Handle>>, pool: Pool<K, V>,
                           dense: seq<Handle>, nextHandle: nat, hash: K -> nat,
                           contents: map<K, V>, owner: map<K, Handle>, key: K, value: V,
                           heads': seq<Option<Handle>>, chains': seq<seq<Handle>>, pool': Pool<K, V>,
                           dense': seq<Handle>, nextHandle': nat, contents': map<K, V>, owner': map<K, Handle>)
    requires TableInv(heads, chains, pool, dense, nextHandle, hash, contents, owner)
    requires key !in contents && |dense| < |heads|
    requires chains' == chains[hash(key) % |heads| := LinkAfterHead(chains[hash(key) % |heads|], nextHandle)]
    requires WellLinked(heads', chains', pool') && ChainsPlaced(chains', pool', hash)
    requires SamePayload(pool[nextHandle := LinkNode(None, None, |dense|, key, value)], pool')
    requires dense' == dense + [nextHandle] && nextHandle' == nextHandle + 1
    requires contents' == contents[key := value] && owner' == owner[key := nextHandle]
    ensures TableInv(heads', chains', pool', dense', nextHandle', hash, contents', owner')
  {
    var node := LinkNode(None, None, |dense|, key, value);
    assert nextHandle !in pool;
    DenseIndexedAppend(dense, pool, nextHandle, node);
    DenseIndexedFrame(dense + [nextHandle], pool[nextHandle := node], pool');
    InsertCovered(chains, pool, pool', hash, hash(key) % |heads|, nextHandle);
    AbstractsInsert(contents, owner, pool, pool', key, value, nextHandle);
  }

  /** Both Remove overloads: once node h at position j of chain b is
      unlinked, deleting it restores the invariant without h's key. */
  lemma RemoveFinish<K, V>(heads: seq<Option<Handle>>, chains: seq<seq<Handle>>, pool: Pool<K, V>,
                           dense: seq<Handle>, nextHandle: nat, hash: K -> nat,
                           contents: map<K, V>, owner: map<K, Handle>, b: nat, j: nat, p1: Pool<K, V>,
                           heads': seq<Option<Handle>>, chains': seq<seq<Handle>>, pool': Pool<K, V>,
                           dense': seq<Handle>, contents': map<K, V>, owner': map<K, Handle>)
    requires TableInv(heads, chains, pool, dense, nextHandle, hash, contents, owner)
    requires b < |chains| && j < |chains[b]| && chains' == chains[b := Unlink(chains[b], j)]
    requires WellLinked(heads', chains', p1) && SamePayload(pool, p1)
    requires DenseIndexed(dense, p1) && chains[b][j] in p1
    requires pool' == DeletedPool(dense, p1, chains[b][j])
    requires dense' == SwapRemove(dense, p1[chains[b][j]].arrayIndex)
    requires contents' == contents - {p1[chains[b][j]].key} && owner' == owner - {p1[chains[b][j]].key}
    ensures TableInv(heads', chains', pool', dense', nextHandle, hash, contents', owner')
  {
    var h := chains[b][j];
    DenseIndexedSwapRemove(dense, p1, h);
    AbstractsRemove(contents, owner, pool, pool', h);
    RemovePlaced(chains, pool, pool', hash, b, j);
    forall b', i | 0 <= b' < |chains'| && 0 <= i < |chains'[b']|
      ensures SameLinksAt(p1, pool', chains'[b'][i])
    {
    }
    WellLinkedFrame(heads', chains', p1, pool');
    SwapRemoveSpec(dense, p1[h].arrayIndex);
  }

  /** Resize (Common/HashMap.h:190-210): chains rebuilt from the dense array
      over a larger bucket count that passes GetPrime's test, with only links
      changed, restore the invariant. */
  lemma RehashFinish<K, V>(heads0: seq<Option<Handle>>, chains0: seq<seq<Handle>>, pool0: Pool<K, V>,
                           dense: seq<Handle>, nextHandle: nat, hash: K -> nat,
                           contents: map<K, V>, owner: map<K, Handle>,
                           heads: seq<Option<Handle>>, chains: seq<seq<Handle>>, pool: Pool<K, V>)
    requires TableInv(heads0, chains0, pool0, dense, nextHandle, hash, contents, owner)
    requires |heads| > |heads0| && PassesTrialDivision(|heads|)
    requires WellLinked(heads, chains, pool) && SamePayload(pool0, pool)
    requires forall b :: 0 <= b < |chains| ==> chains[b] == Rehashed(dense, pool0, hash, |chains|, b)
    ensures TableInv(heads, chains, pool, dense, nextHandle, hash, contents, owner)
  {
    forall b | 0 <= b < |chains|
      ensures chains[b] == Rehashed(dense, pool, hash, |chains|, b)
    {
      RehashedFrame(dense, pool0, pool, hash, |chains|, b);
    }
    DenseIndexedFrame(dense, pool0, pool);
    RehashedPlaced(dense, pool, hash, chains);
    AbstractsFrame(contents, owner, pool0, pool);
  }

  class HashMap<K(==), V> {
    /** The hash functor hsFunc; keys are compared with the key type's own
        equality, standing for eqFunc. */
    const hash: K -> nat
    /** nodeVec: the head of each bucket's chain. */
    var buckets: array<Option<Handle>>
    /** The node pool: every live node, by handle. */
    var pool: Pool<K, V>
    /** allocatedNodes: every live node exactly once. */
    var dense: seq<Handle>
    /** The pool hands out handles from here on. */
    var nextHandle: Handle

    /** The order of each bucket's chain, head first. */
    ghost var chains: seq<seq<Handle>>
    /** The node holding each key. */
    ghost var owner: map<K, Handle>
    /** The map the table represents. */
    ghost var Contents: map<K, V>

    ghost predicate Valid()
      reads this, buckets
    {
      TableInv(buckets[..], chains, pool, dense, nextHandle, hash, Contents, owner)
    }

    // -------------------------------------------------------------------
    // Construction

    /** HashMap_Class(capacity) (Common/HashMap.h:218-225): a hint below 3 is
        raised to 3, and the table gets the first number from there on that
        passes GetPrime's test as its bucket count. The default constructor
        (line 234) is this one with 17. */
    constructor (capacity: nat, hash: K -> nat)
      ensures Valid() && fresh(buckets)
      ensures Contents == map[] && dense == []
      ensures IsLeastPassing(if capacity < 3 then 3 else capacity, buckets.Length)
      ensures forall b :: 0 <= b < buckets.Length ==> buckets[b] == None
      ensures this.hash == hash
    {
      var c := GetPrime(if capacity < 3 then 3 else capacity);
      this.hash := hash;
      buckets := new Option<Handle>[c](_ => None);
      pool := map[];
      dense := [];
      nextHandle := 0;
      chains := seq(c, _ => []);
      owner := map[];
      Contents := map[];
      new;
      EmptyInv(buckets[..], chains, pool, dense, nextHandle, hash, Contents, owner);
    }

    // -------------------------------------------------------------------
    // Nodes

    /** GetNewLinkNode (Common/HashMap.h:147-152): a fresh unlinked node
        recording slot Size() is created and appended to the dense array; the
        map gains the entry the node carries. */
    method GetNewLinkNode(key: K, value: V) returns (h: Handle)
      requires DenseIndexed(dense, pool) && forall g :: g in pool ==> g < nextHandle
      modifies this`pool, this`dense, this`nextHandle, this`Contents, this`owner
      ensures h == old(nextHandle) && nextHandle == h + 1
      ensures h !in old(pool) && pool == old(pool)[h := LinkNode(None, None, old(|dense|), key, value)]
      ensures dense == old(dense) + [h]
      ensures DenseIndexed(dense, pool) && forall g :: g in pool ==> g < nextHandle
      ensures Contents == old(Contents)[key := value] && owner == old(owner)[key := h]
    {
      Contents := Contents[key := value];
      owner := owner[key := nextHandle];
      h := nextHandle;
      nextHandle := nextHandle + 1;
      DenseIndexedAppend(dense, pool, h, LinkNode(None, None, |dense|, key, value));
      pool := pool[h := LinkNode(None, None, |dense|, key, value)];
      dense := dense + [h];
    }

    /** DeleteLinkNode (Common/HashMap.h:153-163): the last dense slot moves
        into the removed node's slot, the dense array shrinks by one, and the
        node leaves the pool, taking its entry out of the map. */
    method DeleteLinkNode(h: Handle)
      requires DenseIndexed(dense, pool) && h in pool
      modifies this`pool, this`dense, this`Contents, this`owner
      ensures dense == SwapRemove(old(dense), old(pool)[h].arrayIndex)
      ensures pool == DeletedPool(old(dense), old(pool), h)
      ensures DenseIndexed(dense, pool) && pool.Keys == old(pool).Keys - {h}
      ensures Contents == old(Contents) - {old(pool)[h].key} && owner == old(owner) - {old(pool)[h].key}
    {
      Contents := Contents - {pool[h].key};
      owner := owner - {pool[h].key};
      DenseIndexedSwapRemove(dense, pool, h);
      var last := dense[|dense| - 1];
      if last != h {
        pool := pool[last := pool[last].(arrayIndex := pool[h].arrayIndex)];
        dense := dense[pool[h].arrayIndex := last];
      }
      dense := dense[..|dense| - 1];
      pool := pool - {h};
    }

    // -------------------------------------------------------------------
    // Chain surgery

    /** LinkNode::Add on bucket b (Common/HashMap.h:22-38): the unlinked node d
        becomes the head of an empty bucket, or else the second node of the
        chain. */
    method LinkAdd(b: nat, d: Handle)
      requires b < buckets.Length && |chains| == buckets.Length
      requires WellLinked(buckets[..], chains, pool) && ChainsPlaced(chains, pool, hash)
      requires d in pool && pool[d].last == None && pool[d].next == None
      requires hash(pool[d].key) % buckets.Length == b
      requires forall b' :: 0 <= b' < |chains| ==> d !in chains[b']
      modifies this`pool, this`chains, buckets
      ensures chains == old(chains)[b := LinkAfterHead(old(chains)[b], d)]
      ensures WellLinked(buckets[..], chains, pool) && ChainsPlaced(chains, pool, hash)
      ensures SamePayload(old(pool), pool)
    {
      ghost var c := chains[b];
      ghost var p, heads := pool, buckets[..];
      AddWellLinked(heads, chains, pool, hash, b, d);
      AddPlaced(chains, pool, if c == [] then pool else AddLinks(pool, c[0], d), hash, b, d);
      var head := buckets[b];
      if head.None? {
        buckets[b] := Some(d);
        assert buckets[..] == heads[b := Some(d)];
      } else {
        var s := head.value;
        var sn := pool[s].next;
        if sn.Some? {
          pool := pool[sn.value := pool[sn.value].(last := Some(d))];
        }
        pool := pool[d := pool[d].(next := sn, last := Some(s))];
        pool := pool[s := pool[s].(next := Some(d))];
        assert pool == AddLinks(p, s, d);
      }
      chains := chains[b := LinkAfterHead(c, d)];
    }

    /** Unlinking the node h at position j of bucket b's chain, as both Remove
        overloads do (Common/HashMap.h:284-291, 301-308): the head moves on if
        h was the head, and h's neighbours are linked to each other. */
    method UnlinkNode(b: nat, h: Handle, ghost j: nat)
      requires b < buckets.Length && |chains| == buckets.Length
      requires WellLinked(buckets[..], chains, pool) && ChainsPlaced(chains, pool, hash)
      requires j < |chains[b]| && chains[b][j] == h
      modifies this`pool, this`chains, buckets
      ensures chains == old(chains)[b := Unlink(old(chains)[b], j)]
      ensures WellLinked(buckets[..], chains, pool)
      ensures SamePayload(old(pool), pool)
    {
      ghost var c := chains[b];
      ghost var p, heads := pool, buckets[..];
      UnlinkWellLinked(heads, chains, pool, hash, b, j);
      var node := pool[h];
      if buckets[b] == Some(h) {
        buckets[b] := node.next;
      }
      assert buckets[..] == heads[b := if heads[b] == Some(h) then node.next else heads[b]];
      if node.next.Some? {
        pool := pool[node.next.value := pool[node.next.value].(last := node.last)];
      }
      if node.last.Some? {
        pool := pool[node.last.value := pool[node.last.value].(next := node.next)];
      }
      assert pool == UnlinkLinks(p, h);
      chains := chains[b := Unlink(c, j)];
    }

    /** Unlinks and deletes the node h at position j of bucket b's chain:
        what both Remove overloads do once they have the node. p1 is the
        pool between the unlink and the delete. */
    method DetachNode(b: nat, h: Handle, ghost j: nat) returns (ghost p1: Pool<K, V>)
      requires b < buckets.Length && |chains| == buckets.Length
      requires WellLinked(buckets[..], chains, pool) && ChainsPlaced(chains, pool, hash)
      requires DenseIndexed(dense, pool)
      requires j < |chains[b]| && chains[b][j] == h
      modifies this`pool, this`chains, this`dense, this`Contents, this`owner, buckets
      ensures chains == old(chains)[b := Unlink(old(chains)[b], j)]
      ensures WellLinked(buckets[..], chains, p1) && SamePayload(old(pool), p1)
      ensures DenseIndexed(old(dense), p1) && h in p1
      ensures pool == DeletedPool(old(dense), p1, h)
      ensures dense == SwapRemove(old(dense), p1[h].arrayIndex)
      ensures Contents == old(Contents) - {p1[h].key} && owner == old(owner) - {p1[h].key}
    {
      ghost var d0, p0 := dense, pool;
      UnlinkNode(b, h, j);
      p1 := pool;
      DenseIndexedFrame(d0, p0, p1);
      DeleteLinkNode(h);
    }

    /** Both Remove overloads once they have the node h at position j of
        bucket b's chain: the key leaves the map and the invariant holds. */
    method RemoveNode(b: nat, h: Handle, ghost j: nat)
      requires Valid() && b < buckets.Length && j < |chains[b]| && chains[b][j] == h
      modifies this, buckets
      ensures Valid() && buckets == old(buckets)
      ensures Contents == old(Contents) - {old(pool)[h].key}
      ensures dense == SwapRemove(old(dense), old(pool)[h].arrayIndex)
      ensures chains == old(chains)[b := Unlink(old(chains)[b], j)]
    {
      ghost var heads0, ch0, p0, d0, c0, o0 := buckets[..], chains, pool, dense, Contents, owner;
      ghost var p1 := DetachNode(b, h, j);
      RemoveFinish(heads0, ch0, p0, d0, nextHandle, hash, c0, o0, b, j, p1,
                   buckets[..], chains, pool, dense, Contents, owner);
    }

    // -------------------------------------------------------------------
    // Capacity

    /** The loop of Resize (Common/HashMap.h:190-209): a fresh array of p
        empty heads, then each node in dense order has its links cleared and
        goes in front of its new bucket's chain. */
    method Rebuild(p: nat) returns (newNode: array<Option<Handle>>, ghost nc: seq<seq<Handle>>)
      requires p > 0 && DenseIndexed(dense, pool)
      modifies this`pool
      ensures fresh(newNode) && newNode.Length == p && |nc| == p
      ensures SamePayload(old(pool), pool) && WellLinked(newNode[..], nc, pool)
      ensures forall b :: 0 <= b < p ==> nc[b] == Rehashed(dense, old(pool), hash, p, b)
    {
      newNode := new Option<Handle>[p](_ => None);
      nc := seq(p, _ => []);
      DenseIndexedDistinct(dense, pool);
      var i := 0;
      while i < |dense|
        invariant 0 <= i <= |dense|
        invariant |nc| == p
        invariant SamePayload(old(pool), pool)
        invariant forall b :: 0 <= b < p ==> nc[b] == Rehashed(dense[..i], old(pool), hash, p, b)
        invariant WellLinked(newNode[..], nc, pool)
      {
        var node := dense[i];
        ghost var p0, heads := pool, newNode[..];
        DistinctPrefix(dense, i);
        var hashValue := hash(pool[node].key) % p;
        RehashStepLinked(heads, nc, dense[..i], node, old(pool), p0, hash, hashValue);
        RehashStepChains(nc, dense[..i], node, old(pool), hash, hashValue);
        var head := newNode[hashValue];
        pool := pool[node := pool[node].(last := None, next := head)];
        if head.Some? {
          pool := pool[head.value := pool[head.value].(last := Some(node))];
        }
        newNode[hashValue] := Some(node);
        assert newNode[..] == heads[hashValue := Some(node)];
        assert pool == RelinkFront(p0, node, nc[hashValue]);
        RelinkFrontPayload(old(pool), p0, node, nc[hashValue]);
        nc := nc[hashValue := [node] + nc[hashValue]];
        i := i + 1;
      }
      assert dense[..i] == dense;
    }

    /** Resize(newCapacity) (Common/HashMap.h:183-211): nothing happens unless
        the table must grow; then the bucket count becomes GetPrime's answer
        for newCapacity and every node, in dense order, is put in front of its
        new bucket's chain. */
    method Resize(newCapacity: nat)
      requires Valid()
      modifies this`buckets, this`pool, this`chains
      ensures Valid()
      ensures SamePayload(old(pool), pool)
      ensures newCapacity <= old(buckets.Length) ==>
        buckets == old(buckets) && pool == old(pool) && chains == old(chains)
      ensures newCapacity > old(buckets.Length) ==>
        fresh(buckets) && IsLeastPassing(newCapacity, buckets.Length) &&
        forall b :: 0 <= b < buckets.Length ==> chains[b] == Rehashed(dense, old(pool), hash, buckets.Length, b)
    {
      var capacity := buckets.Length;
      if capacity >= newCapacity {
        return;
      }
      ghost var heads0, ch0, p0 := buckets[..], chains, pool;
      var p := GetPrime(newCapacity);
      var newNode;
      newNode, chains := Rebuild(p);
      buckets := newNode;
      RehashFinish(heads0, ch0, p0, dense, nextHandle, hash, Contents, owner, buckets[..], chains, pool);
    }

    /** Resize() (Common/HashMap.h:212-215): ask for twice the bucket count. */
    method Grow()
      requires Valid()
      modifies this`buckets, this`pool, this`chains
      ensures Valid() && SamePayload(old(pool), pool)
      ensures fresh(buckets) && IsLeastPassing(2 * old(buckets.Length), buckets.Length)
      ensures forall b :: 0 <= b < buckets.Length ==> chains[b] == Rehashed(dense, old(pool), hash, buckets.Length, b)
    {
      Resize(buckets.Length * 2);
    }

    /** Reserve (Common/HashMap.h:257-260) is Resize under another name. */
    method Reserve(capacity: nat)
      requires Valid()
      modifies this`buckets, this`pool, this`chains
      ensures Valid()
      ensures SamePayload(old(pool), pool)
      ensures capacity <= old(buckets.Length) ==>
        buckets == old(buckets) && pool == old(pool) && chains == old(chains)
      ensures capacity > old(buckets.Length) ==>
        fresh(buckets) && IsLeastPassing(capacity, buckets.Length) &&
        forall b :: 0 <= b < buckets.Length ==> chains[b] == Rehashed(dense, old(pool), hash, buckets.Length, b)
    {
      Resize(capacity);
    }

    // -------------------------------------------------------------------
    // Lookup

    /** The lookup loop of Insert, Find, Remove, operator[], TryGet and
        Contains (Common/HashMap.h:238-246, 263-272, 277-296, 313-321,
        326-335, 340-348): walk the chain of bucket hash(key) % capacity from
        its head until a node with the key turns up. It turns up exactly when
        the key is in the map, and it is then the key's own node. */
    method FindNode(key: K) returns (b: nat, found: Option<Handle>, ghost j: nat)
      requires Valid()
      ensures b == hash(key) % buckets.Length
      ensures found.Some? <==> key in Contents
      ensures found.Some? ==>
        j < |chains[b]| && chains[b][j] == found.value && found.value == owner[key] &&
        found.value in pool && pool[found.value].key == key
    {
      b := hash(key) % buckets.Length;
      var node := buckets[b];
      j := 0;
      while node.Some?
        invariant j <= |chains[b]|
        invariant node == if j < |chains[b]| then Some(chains[b][j]) else None
        invariant forall i :: 0 <= i < j ==> pool[chains[b][i]].key != key
        decreases |chains[b]| - j
      {
        if pool[node.value].key == key {
          found := node;
          return;
        }
        node := pool[node.value].next;
        j := j + 1;
      }
      found := None;
      if key in Contents {
        assert Live(pool, owner[key]);
        assert false;
      }
    }

    /** Find (Common/HashMap.h:261-274): an iterator at the key's entry, or
        End() when the key is absent. */
    method Find(key: K) returns (it: Iterator)
      requires Valid()
      ensures key in Contents ==>
        it in Cursors(chains) && it.index == hash(key) % buckets.Length &&
        Key(it) == key && Value(it) == Contents[key]
      ensures key !in Contents ==> it == End()
    {
      var b, found, j := FindNode(key);
      if found.Some? {
        CursorAt(chains, |chains|, b, j);
        it := Iterator(b, found);
      } else {
        it := End();
      }
    }

    /** operator[] (Common/HashMap.h:311-323): the value of a present key;
        for an absent key the source dereferences a null address, so the key
        is required to be present. */
    method At(key: K) returns (value: V)
      requires Valid() && key in Contents
      ensures value == Contents[key]
    {
      var b, found, j := FindNode(key);
      value := pool[found.value].value;
    }

    /** TryGet (Common/HashMap.h:324-337): whether the key is present, and its
        value if so; otherwise the caller's value comes back untouched. */
    method TryGet(key: K, value: V) returns (found: bool, result: V)
      requires Valid()
      ensures found <==> key in Contents
      ensures found ==> result == Contents[key]
      ensures !found ==> result == value
    {
      var b, node, j := FindNode(key);
      if node.Some? {
        return true, pool[node.value].value;
      }
      return false, value;
    }

    /** Contains (Common/HashMap.h:338-350). */
    method Contains(key: K) returns (present: bool)
      requires Valid()
      ensures present <==> key in Contents
    {
      var b, node, j := FindNode(key);
      present := node.Some?;
    }

    /** Size (Common/HashMap.h:361): the dense array's length, which is the
        number of entries; it never exceeds the capacity. */
    function Size(): (n: nat)
      requires Valid()
      reads this, buckets
      ensures n == |Contents| && n <= buckets.Length
    {
      |dense|
    }

    /** GetCapacity (Common/HashMap.h:363): the bucket count, always a prime
        of at least 3. */
    function GetCapacity(): (c: nat)
      requires Valid()
      reads this, buckets
      ensures c == buckets.Length && c >= 3 && IsPrime(c)
    {
      TrialDivisionIsPrimality(buckets.Length);
      buckets.Length
    }

    // -------------------------------------------------------------------
    // Iteration

    /** End (Common/HashMap.h:364-367): the iterator one bucket past the last,
        which the iteration never visits. */
    function End(): (it: Iterator)
      requires |chains| == buckets.Length
      reads this
      ensures it !in Cursors(chains) && it.node.None?
    {
      CursorsIndexed(chains);
      Iterator(buckets.Length, None)
    }

    /** Iterator::Key (Common/HashMap.h:400-404): the key of the entry under a
        visited iterator, whose own node the iterator names. */
    function Key(it: Iterator): (k: K)
      requires Valid() && it in Cursors(chains)
      reads this, buckets
      ensures k in Contents && k in owner && it.node == Some(owner[k])
    {
      CursorsIndexed(chains);
      assert it.node.value in chains[it.index];
      pool[it.node.value].key
    }

    /** Iterator::Value (Common/HashMap.h:405-409): the value the map holds
        for the key under the iterator. */
    function Value(it: Iterator): (v: V)
      requires Valid() && it in Cursors(chains)
      reads this, buckets
      ensures v == Contents[Key(it)]
    {
      CursorsIndexed(chains);
      assert it.node.value in chains[it.index];
      pool[it.node.value].value
    }

    /** Begin (Common/HashMap.h:368-378): the head of the first non-empty
        bucket, that is the first visited iterator, or End() for an empty
        table. */
    method Begin() returns (it: Iterator)
      requires |chains| == buckets.Length && WellLinked(buckets[..], chains, pool)
      ensures Cursors(chains) == [] ==> it == End()
      ensures Cursors(chains) != [] ==> it == Cursors(chains)[0]
    {
      var i := 0;
      while i < buckets.Length
        invariant 0 <= i <= buckets.Length
        invariant Offset(chains, i) == 0
      {
        assert buckets[i] == HeadOf(chains[i]);
        if buckets[i].Some? {
          CursorHead(chains, i);
          return Iterator(i, buckets[i]);
        }
        OffsetStep(chains, i);
        i := i + 1;
      }
      return End();
    }

    /** Iterator::operator++ (Common/HashMap.h:381-399): the next node of the
        chain, or else the head of the next non-empty bucket, or else End().
        The iterator at position pos of the iteration moves to position
        pos + 1. */
    method Next(it: Iterator, ghost pos: nat) returns (r: Iterator)
      requires |chains| == buckets.Length && WellLinked(buckets[..], chains, pool)
      requires pos < |Cursors(chains)| && Cursors(chains)[pos] == it
      ensures pos + 1 < |Cursors(chains)| ==> r == Cursors(chains)[pos + 1]
      ensures pos + 1 >= |Cursors(chains)| ==> r == End()
    {
      NextLink(buckets[..], chains, pool, pos);
      var index := it.index;
      var node := pool[it.node.value].next;
      if node.Some? {
        return Iterator(index, node);
      }
      while node.None?
        invariant index < buckets.Length
        invariant node.None? ==> Offset(chains, index + 1) == pos + 1
        invariant node.Some? ==> pos + 1 < |Cursors(chains)| && Cursors(chains)[pos + 1] == Iterator(index, node)
        decreases buckets.Length - index, if node.None? then 1 else 0
      {
        index := index + 1;
        if index >= buckets.Length {
          return End();
        }
        node := buckets[index];
        ScanBucket(buckets[..], chains, pool, index, pos + 1);
      }
      return Iterator(index, node);
    }

    // -------------------------------------------------------------------
    // Updates

    /** Insert of a key not in the map (Common/HashMap.h:254-255), once the
        table has room: a new node for the entry is linked in right after
        the head of its bucket. */
    method InsertNew(b: nat, key: K, value: V)
      requires Valid() && key !in Contents && |dense| < buckets.Length
      requires b == hash(key) % buckets.Length
      modifies this`pool, this`dense, this`nextHandle, this`chains, this`Contents, this`owner, buckets
      ensures Valid() && Contents == old(Contents)[key := value]
      ensures owner[key] == old(nextHandle) && dense == old(dense) + [owner[key]]
      ensures chains == old(chains)[b := LinkAfterHead(old(chains)[b], owner[key])]
    {
      ghost var heads0, ch0, p0, d0, nh0, c0, o0 := buckets[..], chains, pool, dense, nextHandle, Contents, owner;
      InsertPrepare(heads0, ch0, p0, d0, nh0, hash, c0, o0, key, value);
      var h := GetNewLinkNode(key, value);
      LinkAdd(b, h);
      InsertFinish(heads0, ch0, p0, d0, nh0, hash, c0, o0, key, value,
                   buckets[..], chains, pool, dense, nextHandle, Contents, owner);
    }

    /** Insert (Common/HashMap.h:236-256): a present key gets the new value
        in its own node; a new key first makes the table grow when Size has
        reached the capacity, and then gets a node of its own. */
    method Insert(key: K, value: V)
      requires Valid()
      modifies this, buckets
      ensures Valid() && Contents == old(Contents)[key := value]
      ensures key in old(Contents) ==>
        buckets == old(buckets) && chains == old(chains) && dense == old(dense)
      ensures key !in old(Contents) ==> dense == old(dense) + [owner[key]]
      ensures key !in old(Contents) && old(|dense|) < old(buckets.Length) ==>
        var b := hash(key) % buckets.Length;
        buckets == old(buckets) && chains == old(chains)[b := LinkAfterHead(old(chains)[b], owner[key])]
      ensures key !in old(Contents) && old(|dense|) >= old(buckets.Length) ==>
        fresh(buckets) && IsLeastPassing(2 * old(buckets.Length), buckets.Length) &&
        forall b :: 0 <= b < buckets.Length ==>
          var r := Rehashed(old(dense), old(pool), hash, buckets.Length, b);
          chains[b] == if b == hash(key) % buckets.Length then LinkAfterHead(r, owner[key]) else r
    {
      var b, found, j := FindNode(key);
      if found.Some? {
        ghost var p0, c0 := pool, Contents;
        pool := pool[found.value := pool[found.value].(value := value)];
        Contents := Contents[key := value];
        UpdateInv(buckets[..], chains, p0, dense, nextHandle, hash, c0, owner, key, value, pool, Contents);
        return;
      }
      if |dense| >= buckets.Length {
        Grow();
        b := hash(key) % buckets.Length;
      }
      InsertNew(b, key, value);
    }

    /** Remove(key) (Common/HashMap.h:275-297): the key's node, if there is
        one, is unlinked and deleted; an absent key changes nothing. */
    method Remove(key: K)
      requires Valid()
      modifies this, buckets
      ensures Valid() && buckets == old(buckets) && Contents == old(Contents) - {key}
      ensures key in old(Contents) ==>
        dense == SwapRemove(old(dense), old(pool)[old(owner)[key]].arrayIndex)
      ensures key !in old(Contents) ==> pool == old(pool) && chains == old(chains) && dense == old(dense)
    {
      var b, found, j := FindNode(key);
      if found.Some? {
        RemoveNode(b, found.value, j);
      } else {
        assert Contents - {key} == Contents;
      }
    }

    /** Remove(iterator) (Common/HashMap.h:299-310): the entry under a
        visited iterator leaves the map. */
    method RemoveAt(it: Iterator)
      requires Valid() && it in Cursors(chains)
      modifies this, buckets
      ensures Valid() && buckets == old(buckets)
      ensures Contents == old(Contents) - {old(Key(it))}
    {
      CursorsIndexed(chains);
      ghost var j :| 0 <= j < |chains[it.index]| && chains[it.index][j] == it.node.value;
      RemoveNode(it.index, it.node.value, j);
    }

    /** The loop of Clear (Common/HashMap.h:355-358): every node of the
        dense array goes back to the pool, which leaves no live node. */
    method DeleteAll()
      requires DenseIndexed(dense, pool)
      modifies this`pool
      ensures pool == map[]
    {
      var i := 0;
      while i < |dense|
        invariant 0 <= i <= |dense|
        invariant pool.Keys <= old(pool).Keys
        invariant forall h :: h in pool ==> old(pool)[h].arrayIndex >= i
      {
        pool := pool - {dense[i]};
        i := i + 1;
      }
      assert forall h :: h !in pool;
    }

    /** Clear (Common/HashMap.h:351-360): every bucket becomes empty and every
        node goes back to the pool; the capacity stays. */
    method Clear()
      requires Valid()
      modifies this, buckets
      ensures Valid() && buckets == old(buckets) && Contents == map[] && dense == []
      ensures forall b :: 0 <= b < buckets.Length ==> buckets[b] == None
      ensures old(dense) == [] ==> unchanged(this, buckets)
    {
      if |dense| == 0 {
        EmptyTable(buckets[..], chains, pool, dense, nextHandle, hash, Contents, owner);
        return;
      }
      forall b | 0 <= b < buckets.Length {
        buckets[b] := None;
      }
      DeleteAll();
      dense := [];
      chains := seq(buckets.Length, _ => []);
      owner := map[];
      Contents := map[];
      EmptyInv(buckets[..], chains, pool, dense, nextHandle, hash, Contents, owner);
    }
  }
}
