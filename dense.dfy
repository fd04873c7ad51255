/** The dense array (allocatedNodes): every live node exactly once, each
    node recording its own slot in `arrayIndex`. Nodes are appended at the
    end and removed by moving the last slot into the freed one. */
module Dense {
  import opened Chains

  /** dense lists exactly the live nodes, and each node knows its slot. */
  ghost predicate DenseIndexed<K, V>(dense: seq<Handle>, pool: Pool<K, V>)
  {
    (forall i :: 0 <= i < |dense| ==> dense[i] in pool && pool[dense[i]].arrayIndex == i) &&
    (forall h :: h in pool ==> pool[h].arrayIndex < |dense| && dense[pool[h].arrayIndex] == h)
  }

  /** DeleteLinkNode's effect on the dense array (Common/HashMap.h:153-163):
      the last slot is written into slot i and the array loses its last slot. */
  function SwapRemove(dense: seq<Handle>, i: nat): seq<Handle>
    requires i < |dense|
  {
    dense[i := dense[|dense| - 1]][..|dense| - 1]
  }

  /** A dense index lists every live node once. */
  lemma DenseIndexedDistinct<K, V>(dense: seq<Handle>, pool: Pool<K, V>)
    requires DenseIndexed(dense, pool)
    ensures Distinct(dense)
    ensures forall h :: h in pool <==> h in dense
  {
    forall i, j | 0 <= i < j < |dense|
      ensures dense[i] != dense[j]
    {
      assert pool[dense[i]].arrayIndex == i && pool[dense[j]].arrayIndex == j;
    }
  }

  /** A prefix of distinct handles is distinct and misses the next handle. */
  lemma DistinctPrefix(s: seq<Handle>, i: nat)
    requires Distinct(s) && i < |s|
    ensures s[..i + 1] == s[..i] + [s[i]]
    ensures Distinct(s[..i]) && s[i] !in s[..i]
  {
  }

  /** Swap-remove keeps every slot below the end but slot i, and puts the old
      last element into slot i. */
  lemma SwapRemoveSpec(dense: seq<Handle>, i: nat)
    requires i < |dense|
    ensures |SwapRemove(dense, i)| == |dense| - 1
    ensures forall k :: 0 <= k < |dense| - 1 && k != i ==> SwapRemove(dense, i)[k] == dense[k]
    ensures i < |dense| - 1 ==> SwapRemove(dense, i)[i] == dense[|dense| - 1]
  {
  }

  /** Swap-remove drops exactly the element at i. */
  lemma SwapRemoveMultiset(dense: seq<Handle>, i: nat)
    requires i < |dense|
    ensures multiset(SwapRemove(dense, i)) == multiset(dense) - multiset{dense[i]}
  {
    var n := |dense|;
    var r := SwapRemove(dense, i);
    if i == n - 1 {
      assert dense == r + [dense[i]];
    } else {
      assert dense == dense[..i] + [dense[i]] + dense[i + 1..n - 1] + [dense[n - 1]];
      assert r == dense[..i] + [dense[n - 1]] + dense[i + 1..n - 1];
    }
  }

  /** GetNewLinkNode (Common/HashMap.h:147-152): a node created with slot
      |dense| and appended keeps the dense index exact. */
  lemma DenseIndexedAppend<K, V>(dense: seq<Handle>, pool: Pool<K, V>, h: Handle, node: LinkNode<K, V>)
    requires DenseIndexed(dense, pool) && h !in pool && node.arrayIndex == |dense|
    ensures DenseIndexed(dense + [h], pool[h := node])
  {
  }

  /** DeleteLinkNode's effect on the pool (Common/HashMap.h:156-162): the
      node in the last dense slot records the removed node's slot, and the
      removed node leaves the pool. */
  ghost function DeletedPool<K, V>(dense: seq<Handle>, pool: Pool<K, V>, h: Handle): Pool<K, V>
    requires DenseIndexed(dense, pool) && h in pool
  {
    var last := dense[|dense| - 1];
    (if last == h then pool else pool[last := pool[last].(arrayIndex := pool[h].arrayIndex)]) - {h}
  }

  /** After DeleteLinkNode the dense index is exact again, the removed node is
      gone, and every other node keeps its key, value and links. */
  lemma DenseIndexedSwapRemove<K, V>(dense: seq<Handle>, pool: Pool<K, V>, h: Handle)
    requires DenseIndexed(dense, pool) && h in pool
    ensures DenseIndexed(SwapRemove(dense, pool[h].arrayIndex), DeletedPool(dense, pool, h))
    ensures var q := DeletedPool(dense, pool, h);
      q.Keys == pool.Keys - {h} &&
      forall g :: g in q ==> q[g] == pool[g].(arrayIndex := q[g].arrayIndex)
  {
    var q := DeletedPool(dense, pool, h);
    var i := pool[h].arrayIndex;
    var n := |dense|;
    var r := SwapRemove(dense, i);
    DenseIndexedDistinct(dense, pool);
    SwapRemoveSpec(dense, i);
    forall k | 0 <= k < |r|
      ensures r[k] in q && q[r[k]].arrayIndex == k
    {
      if k == i {
        assert r[k] == dense[n - 1] && dense[n - 1] != h;
      } else {
        assert r[k] == dense[k] && dense[k] != h && dense[k] != dense[n - 1];
      }
    }
    forall g | g in q
      ensures q[g].arrayIndex < |r| && r[q[g].arrayIndex] == g
    {
      if g == dense[n - 1] {
        assert g != h;
      } else {
        var k := pool[g].arrayIndex;
        assert dense[k] == g && k != i && k != n - 1;
      }
    }
  }

  /** The dense index depends only on the pool's handles and slots. */
  lemma DenseIndexedFrame<K, V>(dense: seq<Handle>, p: Pool<K, V>, q: Pool<K, V>)
    requires DenseIndexed(dense, p) && SamePayload(p, q)
    ensures DenseIndexed(dense, q)
  {
  }
}
