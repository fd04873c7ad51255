/** The iteration order of the table: bucket by bucket in increasing index,
    each bucket's chain from its head. `Cursors(chains)` is the list of
    iterator values that Begin and repeated operator++ step through before
    reaching End. */
module Iteration {
  import opened Chains

  /** Iterator (Common/HashMap.h:58-84): a bucket index and a node; two
      iterators are equal when both fields are. End is (capacity, None). */
  datatype Iterator = Iterator(index: nat, node: Option<Handle>)

  /** The iterator values for the nodes of chain c in bucket b, in chain order. */
  ghost function ChainCursors(b: nat, c: seq<Handle>): seq<Iterator>
  {
    seq(|c|, j requires 0 <= j < |c| => Iterator(b, Some(c[j])))
  }

  /** The number of nodes in buckets 0 .. n-1. */
  ghost function Offset(chains: seq<seq<Handle>>, n: nat): nat
    requires n <= |chains|
  {
    if n == 0 then 0 else Offset(chains, n - 1) + |chains[n - 1]|
  }

  /** The iterator values for buckets 0 .. n-1, in iteration order. */
  ghost function CursorsUpTo(chains: seq<seq<Handle>>, n: nat): (r: seq<Iterator>)
    requires n <= |chains|
    ensures |r| == Offset(chains, n)
  {
    if n == 0 then [] else CursorsUpTo(chains, n - 1) + ChainCursors(n - 1, chains[n - 1])
  }

  /** Every iterator value from Begin() up to, not including, End(). */
  ghost function Cursors(chains: seq<seq<Handle>>): seq<Iterator>
  {
    CursorsUpTo(chains, |chains|)
  }

  // ---------------------------------------------------------------------
  // Positions in the iteration

  lemma {:induction false} OffsetMonotone(chains: seq<seq<Handle>>, a: nat, b: nat)
    requires a <= b <= |chains|
    ensures Offset(chains, a) <= Offset(chains, b)
    decreases b - a
  {
    if a < b {
      OffsetMonotone(chains, a, b - 1);
    }
  }

  /** The node at position j of bucket b's chain is visited at position
      Offset(b) + j: buckets in increasing index, chains in link order. */
  lemma {:induction false} CursorAt(chains: seq<seq<Handle>>, n: nat, b: nat, j: nat)
    requires b < n <= |chains| && j < |chains[b]|
    ensures Offset(chains, b) + j < Offset(chains, n)
    ensures CursorsUpTo(chains, n)[Offset(chains, b) + j] == Iterator(b, Some(chains[b][j]))
  {
    if b < n - 1 {
      CursorAt(chains, n - 1, b, j);
      OffsetMonotone(chains, n - 1, n);
    }
  }

  /** Every position of the iteration is some bucket's chain position. */
  lemma {:induction false} CursorPosition(chains: seq<seq<Handle>>, n: nat, p: nat) returns (b: nat, j: nat)
    requires n <= |chains| && p < Offset(chains, n)
    ensures b < n && j < |chains[b]| && p == Offset(chains, b) + j
  {
    if p >= Offset(chains, n - 1) {
      b, j := n - 1, p - Offset(chains, n - 1);
    } else {
      b, j := CursorPosition(chains, n - 1, p);
    }
  }

  lemma OffsetStep(chains: seq<seq<Handle>>, b: nat)
    requires b < |chains|
    ensures Offset(chains, b + 1) == Offset(chains, b) + |chains[b]|
  {
  }

  /** The position after the node at position j of bucket b's chain holds
      the next node of that chain, or, after the chain's last node, the
      iteration continues with bucket b + 1. */
  lemma CursorStep(chains: seq<seq<Handle>>, b: nat, j: nat)
    requires b < |chains| && j < |chains[b]|
    ensures Offset(chains, b) + j < |Cursors(chains)|
    ensures Cursors(chains)[Offset(chains, b) + j] == Iterator(b, Some(chains[b][j]))
    ensures j + 1 < |chains[b]| ==>
      Offset(chains, b) + j + 1 < |Cursors(chains)| &&
      Cursors(chains)[Offset(chains, b) + j + 1] == Iterator(b, Some(chains[b][j + 1]))
    ensures j + 1 == |chains[b]| ==> Offset(chains, b + 1) == Offset(chains, b) + j + 1
  {
    CursorAt(chains, |chains|, b, j);
    if j + 1 < |chains[b]| {
      CursorAt(chains, |chains|, b, j + 1);
    }
  }

  /** A non-empty bucket's head is visited right after the buckets before it. */
  lemma CursorHead(chains: seq<seq<Handle>>, b: nat)
    requires b < |chains| && chains[b] != []
    ensures Offset(chains, b) < |Cursors(chains)|
    ensures Cursors(chains)[Offset(chains, b)] == Iterator(b, HeadOf(chains[b]))
  {
    CursorAt(chains, |chains|, b, 0);
  }

  /** The first step of operator++ (Common/HashMap.h:384): the visited
      iterator at position p names a live node; its next link is the
      iterator at position p + 1 when the chain goes on, and otherwise
      position p + 1 lies past the iterator's bucket. */
  lemma NextLink<K, V>(heads: seq<Option<Handle>>, chains: seq<seq<Handle>>, pool: Pool<K, V>, p: nat)
    requires WellLinked(heads, chains, pool) && p < |Cursors(chains)|
    ensures var it := Cursors(chains)[p];
      it.index < |chains| && it.node.Some? && it.node.value in pool &&
      var n := pool[it.node.value].next;
      (n.Some? ==> p + 1 < |Cursors(chains)| && Cursors(chains)[p + 1] == Iterator(it.index, n)) &&
      (n.None? ==> Offset(chains, it.index + 1) == p + 1)
  {
    var b, j := CursorPosition(chains, |chains|, p);
    CursorStep(chains, b, j);
    assert ChainLinked(chains[b], pool);
  }

  /** One turn of operator++'s scan over the buckets (Common/HashMap.h:386-397):
      if position p lies at bucket b, an empty head moves it past bucket b and
      a non-empty head is the iterator at position p. */
  lemma ScanBucket<K, V>(heads: seq<Option<Handle>>, chains: seq<seq<Handle>>, pool: Pool<K, V>, b: nat, p: nat)
    requires WellLinked(heads, chains, pool) && b < |chains| && Offset(chains, b) == p
    ensures heads[b].None? ==> Offset(chains, b + 1) == p
    ensures heads[b].Some? ==> p < |Cursors(chains)| && Cursors(chains)[p] == Iterator(b, heads[b])
  {
    if heads[b].Some? {
      CursorHead(chains, b);
    }
  }

  /** Every visited iterator names a node on the chain of its own bucket;
      in particular End, with index |chains|, is never visited. */
  lemma CursorsIndexed(chains: seq<seq<Handle>>)
    ensures forall it :: it in Cursors(chains) ==>
      it.index < |chains| && it.node.Some? && it.node.value in chains[it.index]
  {
    forall it | it in Cursors(chains)
      ensures it.index < |chains| && it.node.Some? && it.node.value in chains[it.index]
    {
      var p :| 0 <= p < |Cursors(chains)| && Cursors(chains)[p] == it;
      var b, j := CursorPosition(chains, |chains|, p);
      CursorAt(chains, |chains|, b, j);
    }
  }

  // ---------------------------------------------------------------------
  // The iteration visits every live entry exactly once

  /** Each visited position denotes a live node sitting in its own bucket. */
  lemma CursorsLive<K, V>(chains: seq<seq<Handle>>, pool: Pool<K, V>, hash: K -> nat, p: nat)
    requires |chains| > 0 && ChainsPlaced(chains, pool, hash)
    requires p < |Cursors(chains)|
    ensures var it := Cursors(chains)[p];
      it.index < |chains| && it.node.Some? && it.node.value in pool &&
      hash(pool[it.node.value].key) % |chains| == it.index
  {
    var b, j := CursorPosition(chains, |chains|, p);
    CursorAt(chains, |chains|, b, j);
  }

  /** Every live node is visited. */
  lemma CursorsCover<K, V>(chains: seq<seq<Handle>>, pool: Pool<K, V>, hash: K -> nat, h: Handle)
    requires |chains| > 0 && PoolCovered(chains, pool, hash) && h in pool
    ensures Iterator(hash(pool[h].key) % |chains|, Some(h)) in Cursors(chains)
  {
    var b := hash(pool[h].key) % |chains|;
    assert Live(pool, h);
    var j :| 0 <= j < |chains[b]| && chains[b][j] == h;
    CursorAt(chains, |chains|, b, j);
  }

  /** No node is visited twice, and bucket indices never decrease. */
  lemma CursorsDistinctOrdered<K, V>(chains: seq<seq<Handle>>, pool: Pool<K, V>, hash: K -> nat, p: nat, q: nat)
    requires |chains| > 0 && ChainsPlaced(chains, pool, hash)
    requires p < q < |Cursors(chains)|
    ensures Cursors(chains)[p].node != Cursors(chains)[q].node
    ensures Cursors(chains)[p].index <= Cursors(chains)[q].index
  {
    var bp, jp := CursorPosition(chains, |chains|, p);
    var bq, jq := CursorPosition(chains, |chains|, q);
    CursorAt(chains, |chains|, bp, jp);
    CursorAt(chains, |chains|, bq, jq);
    if bq < bp {
      OffsetMonotone(chains, bq + 1, bp);
      assert false;
    }
    if bp == bq {
      assert jp < jq;
    }
  }

  /** The iteration protocol visits each live entry exactly once, in
      increasing bucket order (Common/HashMap.h:368-399). */
  lemma IterationVisitsEachOnce<K, V>(chains: seq<seq<Handle>>, pool: Pool<K, V>, hash: K -> nat)
    requires |chains| > 0 && ChainsPlaced(chains, pool, hash) && PoolCovered(chains, pool, hash)
    ensures var cs := Cursors(chains);
      (forall p :: 0 <= p < |cs| ==>
        cs[p].index < |chains| && cs[p].node.Some? && cs[p].node.value in pool) &&
      (forall h :: h in pool ==> Iterator(hash(pool[h].key) % |chains|, Some(h)) in cs) &&
      (forall p, q :: 0 <= p < q < |cs| ==> cs[p].node != cs[q].node && cs[p].index <= cs[q].index)
  {
    var cs := Cursors(chains);
    forall p | 0 <= p < |cs|
      ensures cs[p].index < |chains| && cs[p].node.Some? && cs[p].node.value in pool
    {
      CursorsLive(chains, pool, hash, p);
    }
    forall h | h in pool
      ensures Iterator(hash(pool[h].key) % |chains|, Some(h)) in cs
    {
      CursorsCover(chains, pool, hash, h);
    }
    forall p, q | 0 <= p < q < |cs|
      ensures cs[p].node != cs[q].node && cs[p].index <= cs[q].index
    {
      CursorsDistinctOrdered(chains, pool, hash, p, q);
    }
  }
}
