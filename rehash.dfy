/** The chains Resize builds (Common/HashMap.h:183-211): it walks the dense
    array from slot 0 up and puts each node in front of its new bucket's
    chain, so each new chain lists its bucket's nodes in reverse dense order. */
module Rehash {
  import opened Chains
  import opened Dense

  /** h is live and its key hashes to bucket b of a table with cap buckets. */
  ghost predicate InBucket<K, V>(pool: Pool<K, V>, hash: K -> nat, cap: nat, b: nat, h: Handle)
    requires cap > 0
  {
    h in pool && hash(pool[h].key) % cap == b
  }

  /** The chain of bucket b once the rehash loop has processed the nodes hs:
      each one of bucket b went in front of the chain built before it. */
  ghost function Rehashed<K, V>(hs: seq<Handle>, pool: Pool<K, V>, hash: K -> nat, cap: nat, b: nat): seq<Handle>
    requires cap > 0
  {
    if hs == [] then []
    else
      var rest := Rehashed(hs[..|hs| - 1], pool, hash, cap, b);
      if InBucket(pool, hash, cap, b, hs[|hs| - 1]) then [hs[|hs| - 1]] + rest else rest
  }

  /** The nodes of hs in bucket b, in the order of hs. */
  ghost function Filter<K, V>(hs: seq<Handle>, pool: Pool<K, V>, hash: K -> nat, cap: nat, b: nat): seq<Handle>
    requires cap > 0
  {
    if hs == [] then []
    else (if InBucket(pool, hash, cap, b, hs[0]) then [hs[0]] else []) + Filter(hs[1..], pool, hash, cap, b)
  }

  ghost function Reverse(s: seq<Handle>): seq<Handle>
  {
    if s == [] then [] else Reverse(s[1..]) + [s[0]]
  }

  /** A rebuilt chain holds exactly the processed nodes of its bucket. */
  lemma {:induction false} RehashedMembers<K, V>(hs: seq<Handle>, pool: Pool<K, V>, hash: K -> nat, cap: nat, b: nat)
    requires cap > 0
    ensures forall h :: h in Rehashed(hs, pool, hash, cap, b) <==> h in hs && InBucket(pool, hash, cap, b, h)
  {
    if hs != [] {
      var init := hs[..|hs| - 1];
      RehashedMembers(init, pool, hash, cap, b);
      assert hs == init + [hs[|hs| - 1]];
    }
  }

  /** No node is put on a rebuilt chain twice. */
  lemma {:induction false} RehashedDistinct<K, V>(hs: seq<Handle>, pool: Pool<K, V>, hash: K -> nat, cap: nat, b: nat)
    requires cap > 0 && Distinct(hs)
    ensures Distinct(Rehashed(hs, pool, hash, cap, b))
  {
    if hs != [] {
      var init := hs[..|hs| - 1];
      RehashedDistinct(init, pool, hash, cap, b);
      RehashedMembers(init, pool, hash, cap, b);
    }
  }

  lemma {:induction false} FilterSnoc<K, V>(hs: seq<Handle>, x: Handle, pool: Pool<K, V>, hash: K -> nat, cap: nat, b: nat)
    requires cap > 0
    ensures Filter(hs + [x], pool, hash, cap, b) ==
      Filter(hs, pool, hash, cap, b) + (if InBucket(pool, hash, cap, b, x) then [x] else [])
  {
    if hs != [] {
      assert (hs + [x])[1..] == hs[1..] + [x];
      FilterSnoc(hs[1..], x, pool, hash, cap, b);
    }
  }

  lemma {:induction false} ReverseSnoc(s: seq<Handle>, x: Handle)
    ensures Reverse(s + [x]) == [x] + Reverse(s)
  {
    if s != [] {
      assert (s + [x])[1..] == s[1..] + [x];
      ReverseSnoc(s[1..], x);
    }
  }

  /** Independent reading of the rebuilt chain: the bucket's nodes in dense
      order, reversed. */
  lemma {:induction false} RehashedIsReversedFilter<K, V>(hs: seq<Handle>, pool: Pool<K, V>, hash: K -> nat, cap: nat, b: nat)
    requires cap > 0
    ensures Rehashed(hs, pool, hash, cap, b) == Reverse(Filter(hs, pool, hash, cap, b))
  {
    if hs != [] {
      var init, x := hs[..|hs| - 1], hs[|hs| - 1];
      assert hs == init + [x];
      RehashedIsReversedFilter(init, pool, hash, cap, b);
      FilterSnoc(init, x, pool, hash, cap, b);
      var f := Filter(init, pool, hash, cap, b);
      assert Rehashed(hs, pool, hash, cap, b) ==
        (if InBucket(pool, hash, cap, b, x) then [x] else []) + Rehashed(init, pool, hash, cap, b);
      if InBucket(pool, hash, cap, b, x) {
        ReverseSnoc(f, x);
      } else {
        assert f + [] == f;
      }
    }
  }

  /** Rebuilt chains depend only on the nodes' keys. */
  lemma {:induction false} RehashedFrame<K, V>(hs: seq<Handle>, p: Pool<K, V>, q: Pool<K, V>, hash: K -> nat, cap: nat, b: nat)
    requires cap > 0 && SamePayload(p, q)
    ensures Rehashed(hs, p, hash, cap, b) == Rehashed(hs, q, hash, cap, b)
  {
    if hs != [] {
      RehashedFrame(hs[..|hs| - 1], p, q, hash, cap, b);
    }
  }

  /** Chains rebuilt from the whole dense array put every live node, once,
      on the chain of its bucket. */
  lemma RehashedPlaced<K, V>(dense: seq<Handle>, pool: Pool<K, V>, hash: K -> nat, chains: seq<seq<Handle>>)
    requires |chains| > 0 && DenseIndexed(dense, pool)
    requires forall b :: 0 <= b < |chains| ==> chains[b] == Rehashed(dense, pool, hash, |chains|, b)
    ensures ChainsPlaced(chains, pool, hash)
    ensures PoolCovered(chains, pool, hash)
  {
    var cap := |chains|;
    DenseIndexedDistinct(dense, pool);
    forall b | 0 <= b < cap
      ensures Distinct(chains[b])
      ensures forall h :: h in chains[b] <==> h in dense && InBucket(pool, hash, cap, b, h)
    {
      RehashedMembers(dense, pool, hash, cap, b);
      RehashedDistinct(dense, pool, hash, cap, b);
    }
    forall b, j | 0 <= b < cap && 0 <= j < |chains[b]|
      ensures chains[b][j] in pool && hash(pool[chains[b][j]].key) % cap == b
    {
      assert chains[b][j] in chains[b];
    }
    forall h | h in pool
      ensures h in chains[hash(pool[h].key) % cap]
    {
      assert h in dense;
    }
  }

  // ---------------------------------------------------------------------
  // One turn of the rehash loop

  /** Chains rebuilt from distinct handles are distinct and hold only handles
      of their own bucket. */
  lemma RehashedPartition<K, V>(hs: seq<Handle>, pool: Pool<K, V>, hash: K -> nat, chains: seq<seq<Handle>>)
    requires |chains| > 0 && Distinct(hs)
    requires forall b :: 0 <= b < |chains| ==> chains[b] == Rehashed(hs, pool, hash, |chains|, b)
    ensures forall b :: 0 <= b < |chains| ==> Distinct(chains[b])
    ensures forall b, h :: 0 <= b < |chains| ==>
      (h in chains[b] <==> h in hs && InBucket(pool, hash, |chains|, b, h))
  {
    forall b | 0 <= b < |chains|
      ensures Distinct(chains[b])
      ensures forall h :: h in chains[b] <==> h in hs && InBucket(pool, hash, |chains|, b, h)
    {
      RehashedMembers(hs, pool, hash, |chains|, b);
      RehashedDistinct(hs, pool, hash, |chains|, b);
    }
  }

  /** After one more turn of the loop, with node x of bucket hv processed,
      each chain is again the rebuilt chain of the processed prefix. */
  lemma RehashStepChains<K, V>(chains: seq<seq<Handle>>, hs: seq<Handle>, x: Handle,
                               pool0: Pool<K, V>, hash: K -> nat, hv: nat)
    requires |chains| > 0 && x in pool0 && hv == hash(pool0[x].key) % |chains|
    requires forall b :: 0 <= b < |chains| ==> chains[b] == Rehashed(hs, pool0, hash, |chains|, b)
    ensures forall b :: 0 <= b < |chains| ==>
      chains[hv := [x] + chains[hv]][b] == Rehashed(hs + [x], pool0, hash, |chains|, b)
  {
    assert (hs + [x])[..|hs|] == hs;
  }

  /** One turn of the loop keeps the new bucket array and the chains built so
      far linked through the pool. */
  lemma RehashStepLinked<K, V>(heads: seq<Option<Handle>>, chains: seq<seq<Handle>>, hs: seq<Handle>, x: Handle,
                               pool0: Pool<K, V>, p: Pool<K, V>, hash: K -> nat, hv: nat)
    requires |chains| > 0 && Distinct(hs) && x !in hs && x in pool0
    requires forall b :: 0 <= b < |chains| ==> chains[b] == Rehashed(hs, pool0, hash, |chains|, b)
    requires WellLinked(heads, chains, p) && SamePayload(pool0, p)
    requires hv == hash(p[x].key) % |chains|
    ensures chains[hv] != [] ==> chains[hv][0] in p
    ensures WellLinked(heads[hv := Some(x)], chains[hv := [x] + chains[hv]], RelinkFront(p, x, chains[hv]))
  {
    var cap := |chains|;
    RehashedPartition(hs, pool0, hash, chains);
    forall b', j | 0 <= b' < cap && 0 <= j < |chains[b']|
      ensures chains[b'][j] != x
      ensures b' != hv ==> chains[b'][j] !in chains[hv]
    {
      var h := chains[b'][j];
      assert h in chains[b'];
      assert h in hs && InBucket(pool0, hash, cap, b', h);
      assert h in chains[hv] ==> InBucket(pool0, hash, cap, hv, h);
    }
    PrependWellLinked(heads, chains, p, x, hv);
  }
}
