/** The bucket chains of the table. Nodes live in an arena (the pool)
    addressed by handles; each bucket's chain is a doubly-linked list through
    the nodes' `last`/`next` fields, and a ghost sequence of handles gives
    the order of that list. */
module Chains {

  datatype Option<T> = None | Some(value: T)

  /** The address of a node in the pool. */
  type Handle = nat

  /** LinkNode (Common/HashMap.h:13-21): chain links, the node's slot in the
      dense array, its key and its value. */
  datatype LinkNode<K, V> = LinkNode(last: Option<Handle>, next: Option<Handle>, arrayIndex: nat, key: K, value: V)

  /** The pool: the live nodes, by handle. */
  type Pool<K, V> = map<Handle, LinkNode<K, V>>

  function HeadOf(c: seq<Handle>): Option<Handle>
  {
    if c == [] then None else Some(c[0])
  }

  /** The node before position j of chain c, as its `last` link should name it. */
  function PrevOf(c: seq<Handle>, j: nat): Option<Handle>
    requires j < |c|
  {
    if j == 0 then None else Some(c[j - 1])
  }

  /** The node after position j of chain c, as its `next` link should name it. */
  function NextOf(c: seq<Handle>, j: nat): Option<Handle>
    requires j < |c|
  {
    if j + 1 < |c| then Some(c[j + 1]) else None
  }

  ghost predicate Distinct(c: seq<Handle>)
  {
    forall i, j :: 0 <= i < j < |c| ==> c[i] != c[j]
  }

  /** Every node of chain c is live, links back to its predecessor (none for
      the head) and on to its successor (none for the tail). */
  ghost predicate ChainLinked<K, V>(c: seq<Handle>, pool: Pool<K, V>)
  {
    forall j :: 0 <= j < |c| ==>
      c[j] in pool && pool[c[j]].last == PrevOf(c, j) && pool[c[j]].next == NextOf(c, j)
  }

  /** The bucket heads point at the chains' first nodes and every chain is
      linked through the pool. */
  ghost predicate WellLinked<K, V>(heads: seq<Option<Handle>>, chains: seq<seq<Handle>>, pool: Pool<K, V>)
  {
    |heads| == |chains| &&
    forall b :: 0 <= b < |chains| ==> heads[b] == HeadOf(chains[b]) && ChainLinked(chains[b], pool)
  }

  /** Every chain holds distinct live nodes whose keys hash to that chain's
      bucket. */
  ghost predicate ChainsPlaced<K, V>(chains: seq<seq<Handle>>, pool: Pool<K, V>, hash: K -> nat)
  {
    (forall b, j :: 0 <= b < |chains| && 0 <= j < |chains[b]| ==>
      chains[b][j] in pool && hash(pool[chains[b][j]].key) % |chains| == b) &&
    (forall b :: 0 <= b < |chains| ==> Distinct(chains[b]))
  }

  /** h is a live node. Coverage facts are stated over this predicate so that
      they are used only where a proof names a live node this way. */
  ghost predicate Live<K, V>(pool: Pool<K, V>, h: Handle)
  {
    h in pool
  }

  /** Every live node is on the chain of its own bucket. */
  ghost predicate PoolCovered<K, V>(chains: seq<seq<Handle>>, pool: Pool<K, V>, hash: K -> nat)
    requires |chains| > 0
  {
    forall h {:trigger Live(pool, h)} :: Live(pool, h) ==> h in chains[hash(pool[h].key) % |chains|]
  }

  /** Two pools hold the same nodes with the same key, value and dense slot;
      only the chain links may differ. */
  ghost predicate SamePayload<K, V>(p: Pool<K, V>, q: Pool<K, V>)
  {
    p.Keys == q.Keys &&
    forall h :: h in p ==>
      p[h].key == q[h].key && p[h].value == q[h].value && p[h].arrayIndex == q[h].arrayIndex
  }

  /** Handle h is live in both pools with the same links. */
  ghost predicate SameLinksAt<K, V>(p: Pool<K, V>, q: Pool<K, V>, h: Handle)
  {
    h in p && h in q && p[h].last == q[h].last && p[h].next == q[h].next
  }

  /** LinkNode::Add (Common/HashMap.h:22-38): into an empty bucket the node
      becomes the head; otherwise it is linked in right after the head. */
  function LinkAfterHead(c: seq<Handle>, d: Handle): seq<Handle>
  {
    if c == [] then [d] else [c[0], d] + c[1..]
  }

  /** The chain with the node at position j unlinked (both Remove overloads). */
  function Unlink(c: seq<Handle>, j: nat): seq<Handle>
    requires j < |c|
  {
    c[..j] + c[j + 1..]
  }

  // ---------------------------------------------------------------------
  // Properties of the chain operations

  /** Adding keeps every node and adds d; a non-empty chain keeps its head;
      unlinking d again gives back the chain it was added to. */
  lemma LinkAfterHeadSpec(c: seq<Handle>, d: Handle)
    ensures multiset(LinkAfterHead(c, d)) == multiset(c) + multiset{d}
    ensures HeadOf(LinkAfterHead(c, d)) == if c == [] then Some(d) else HeadOf(c)
    ensures var j := if c == [] then 0 else 1;
      j < |LinkAfterHead(c, d)| && LinkAfterHead(c, d)[j] == d && Unlink(LinkAfterHead(c, d), j) == c
    ensures Distinct(c) && d !in c ==> Distinct(LinkAfterHead(c, d))
  {
    if c != [] {
      assert c == [c[0]] + c[1..];
      var r := LinkAfterHead(c, d);
      assert r[..1] + r[2..] == c;
    }
  }

  /** Unlinking drops exactly the node at j; in a chain without repetitions
      that node is gone and the rest keep their relative order. */
  lemma UnlinkSpec(c: seq<Handle>, j: nat)
    requires j < |c|
    ensures multiset(Unlink(c, j)) == multiset(c) - multiset{c[j]}
    ensures |Unlink(c, j)| == |c| - 1
    ensures forall i :: 0 <= i < j ==> Unlink(c, j)[i] == c[i]
    ensures forall i :: j <= i < |c| - 1 ==> Unlink(c, j)[i] == c[i + 1]
    ensures Distinct(c) ==> Distinct(Unlink(c, j)) && c[j] !in Unlink(c, j)
  {
    UnlinkIndex(c, j);
    UnlinkMultiset(c, j);
    var r := Unlink(c, j);
    if Distinct(c) {
      forall i | 0 <= i < |r|
        ensures r[i] != c[j]
      {
        if i < j { assert r[i] == c[i]; } else { assert r[i] == c[i + 1]; }
      }
      forall i, k | 0 <= i < k < |r|
        ensures r[i] != r[k]
      {
        var i' := if i < j then i else i + 1;
        var k' := if k < j then k else k + 1;
        assert r[i] == c[i'] && r[k] == c[k'] && i' < k';
      }
    }
  }

  lemma UnlinkIndex(c: seq<Handle>, j: nat)
    requires j < |c|
    ensures |Unlink(c, j)| == |c| - 1
    ensures forall i :: 0 <= i < j ==> Unlink(c, j)[i] == c[i]
    ensures forall i :: j <= i < |c| - 1 ==> Unlink(c, j)[i] == c[i + 1]
  {
  }

  lemma UnlinkMultiset(c: seq<Handle>, j: nat)
    requires j < |c|
    ensures multiset(Unlink(c, j)) == multiset(c) - multiset{c[j]}
  {
    assert c == c[..j] + [c[j]] + c[j + 1..];
  }

  /** A chain stays linked when its nodes keep their links. */
  lemma ChainLinkedFrame<K, V>(c: seq<Handle>, p: Pool<K, V>, q: Pool<K, V>)
    requires ChainLinked(c, p)
    requires forall j :: 0 <= j < |c| ==> SameLinksAt(p, q, c[j])
    ensures ChainLinked(c, q)
  {
  }

  /** Re-linking one bucket: bucket b gets a new chain that is linked in q,
      and every other bucket keeps its head, its chain and its nodes' links. */
  lemma WellLinkedUpdate<K, V>(heads: seq<Option<Handle>>, chains: seq<seq<Handle>>, p: Pool<K, V>,
                              heads': seq<Option<Handle>>, chains': seq<seq<Handle>>, q: Pool<K, V>, b: nat)
    requires WellLinked(heads, chains, p)
    requires |heads'| == |heads| && |chains'| == |chains| && b < |chains|
    requires forall b' :: 0 <= b' < |chains| && b' != b ==>
      heads'[b'] == heads[b'] && chains'[b'] == chains[b'] &&
      forall j :: 0 <= j < |chains[b']| ==> SameLinksAt(p, q, chains[b'][j])
    requires heads'[b] == HeadOf(chains'[b]) && ChainLinked(chains'[b], q)
    ensures WellLinked(heads', chains', q)
  {
    forall b' | 0 <= b' < |chains'|
      ensures heads'[b'] == HeadOf(chains'[b']) && ChainLinked(chains'[b'], q)
    {
      if b' != b {
        ChainLinkedFrame(chains[b'], p, q);
      }
    }
  }

  /** The three link writes of LinkNode::Add on a non-empty chain (the head
      now points on to d, d back to the head and on to the old second node,
      which points back to d) link the chain LinkAfterHead(c, d). */
  lemma LinkAfterHeadLinked<K, V>(c: seq<Handle>, d: Handle, p: Pool<K, V>, q: Pool<K, V>)
    requires c != [] && ChainLinked(c, p) && Distinct(c) && d !in c
    requires c[0] in q && q[c[0]].last == None && q[c[0]].next == Some(d)
    requires d in q && q[d].last == Some(c[0]) && q[d].next == (if |c| > 1 then Some(c[1]) else None)
    requires |c| > 1 ==> c[1] in q && q[c[1]].last == Some(d) && q[c[1]].next == p[c[1]].next
    requires forall j :: 2 <= j < |c| ==> SameLinksAt(p, q, c[j])
    ensures ChainLinked(LinkAfterHead(c, d), q)
  {
    var r := LinkAfterHead(c, d);
    assert |r| == |c| + 1 && r[0] == c[0] && r[1] == d;
    forall j | 0 <= j < |r|
      ensures r[j] in q
      ensures q[r[j]].last == (if j == 0 then None else Some(r[j - 1]))
      ensures q[r[j]].next == (if j + 1 < |r| then Some(r[j + 1]) else None)
    {
      if j == 2 {
        assert r[2] == c[1];
        assert p[c[1]].next == (if 2 < |c| then Some(c[2]) else None);
        if 3 < |r| { assert r[3] == c[2]; }
      } else if j >= 3 {
        assert r[j] == c[j - 1] && r[j - 1] == c[j - 2];
        assert SameLinksAt(p, q, c[j - 1]);
        assert p[c[j - 1]].last == Some(c[j - 2]);
        assert p[c[j - 1]].next == (if j < |c| then Some(c[j]) else None);
        if j + 1 < |r| { assert r[j + 1] == c[j]; }
      }
    }
  }

  /** The link writes of Remove (the predecessor points on to the removed
      node's successor, the successor back to its predecessor) link the
      chain with position j unlinked. */
  lemma UnlinkLinked<K, V>(c: seq<Handle>, j: nat, p: Pool<K, V>, q: Pool<K, V>)
    requires j < |c| && ChainLinked(c, p) && Distinct(c)
    requires j > 0 ==> c[j - 1] in q && q[c[j - 1]].next == p[c[j]].next && q[c[j - 1]].last == p[c[j - 1]].last
    requires j + 1 < |c| ==> c[j + 1] in q && q[c[j + 1]].last == p[c[j]].last && q[c[j + 1]].next == p[c[j + 1]].next
    requires forall i :: 0 <= i < |c| && i != j - 1 && i != j && i != j + 1 ==> SameLinksAt(p, q, c[i])
    ensures ChainLinked(Unlink(c, j), q)
    ensures HeadOf(Unlink(c, j)) == if j == 0 then p[c[j]].next else HeadOf(c)
  {
    var r := Unlink(c, j);
    UnlinkSpec(c, j);
    forall i | 0 <= i < |r|
      ensures r[i] in q && q[r[i]].last == PrevOf(r, i) && q[r[i]].next == NextOf(r, i)
    {
      UnlinkLinkedAt(c, j, p, q, i);
    }
    if j == 0 {
      assert p[c[0]].next == NextOf(c, 0);
    } else {
      assert r[0] == c[0];
    }
  }

  lemma UnlinkLinkedAt<K, V>(c: seq<Handle>, j: nat, p: Pool<K, V>, q: Pool<K, V>, i: nat)
    requires j < |c| && ChainLinked(c, p) && Distinct(c) && i < |c| - 1
    requires j > 0 ==> c[j - 1] in q && q[c[j - 1]].next == p[c[j]].next && q[c[j - 1]].last == p[c[j - 1]].last
    requires j + 1 < |c| ==> c[j + 1] in q && q[c[j + 1]].last == p[c[j]].last && q[c[j + 1]].next == p[c[j + 1]].next
    requires forall i :: 0 <= i < |c| && i != j - 1 && i != j && i != j + 1 ==> SameLinksAt(p, q, c[i])
    ensures var r := Unlink(c, j);
      r[i] in q && q[r[i]].last == PrevOf(r, i) && q[r[i]].next == NextOf(r, i)
  {
    var r := Unlink(c, j);
    UnlinkSpec(c, j);
    if i + 1 < j {
      assert r[i] == c[i] && r[i + 1] == c[i + 1];
      assert SameLinksAt(p, q, c[i]);
      assert p[c[i]].last == PrevOf(c, i) && p[c[i]].next == NextOf(c, i);
      if i > 0 { assert r[i - 1] == c[i - 1]; }
    } else if i + 1 == j {
      assert r[i] == c[i];
      assert p[c[j]].next == NextOf(c, j);
      assert p[c[i]].last == PrevOf(c, i);
      if i + 1 < |r| { assert r[i + 1] == c[j + 1]; }
      if i > 0 { assert r[i - 1] == c[i - 1]; }
    } else if i == j {
      assert r[i] == c[j + 1];
      assert p[c[j]].last == PrevOf(c, j);
      assert p[c[j + 1]].next == NextOf(c, j + 1);
      if i > 0 { assert r[i - 1] == c[j - 1]; }
      if i + 1 < |r| { assert r[i + 1] == c[j + 2]; }
    } else {
      assert r[i] == c[i + 1] && r[i - 1] == c[i];
      assert SameLinksAt(p, q, c[i + 1]);
      assert p[c[i + 1]].last == PrevOf(c, i + 1) && p[c[i + 1]].next == NextOf(c, i + 1);
      if i + 1 < |r| { assert r[i + 1] == c[i + 2]; }
    }
  }

  /** The link writes of Resize's loop (Common/HashMap.h:194-207): a node
      reset to no links and pointed on to the old head, which points back to
      it, is the new first node of the chain. */
  lemma PrependLinked<K, V>(c: seq<Handle>, x: Handle, p: Pool<K, V>, q: Pool<K, V>)
    requires ChainLinked(c, p) && Distinct(c) && x !in c
    requires x in q && q[x].last == None && q[x].next == HeadOf(c)
    requires c != [] ==> c[0] in q && q[c[0]].last == Some(x) && q[c[0]].next == p[c[0]].next
    requires forall j :: 1 <= j < |c| ==> SameLinksAt(p, q, c[j])
    ensures ChainLinked([x] + c, q)
  {
    var r := [x] + c;
    forall j | 0 <= j < |r|
      ensures r[j] in q && q[r[j]].last == PrevOf(r, j) && q[r[j]].next == NextOf(r, j)
    {
      if j == 1 {
        assert r[1] == c[0] && p[c[0]].next == NextOf(c, 0);
        if 2 < |r| { assert r[2] == c[1]; }
      } else if j >= 2 {
        assert r[j] == c[j - 1] && r[j - 1] == c[j - 2];
        assert SameLinksAt(p, q, c[j - 1]);
        assert p[c[j - 1]].last == PrevOf(c, j - 1) && p[c[j - 1]].next == NextOf(c, j - 1);
        if j + 1 < |r| { assert r[j + 1] == c[j]; }
      }
    }
  }

  /** The links one turn of Resize's loop writes (Common/HashMap.h:194-207):
      node x is reset, pointed at the head c[0] of its new bucket, and that
      head points back at x. */
  function RelinkFront<K, V>(p: Pool<K, V>, x: Handle, c: seq<Handle>): Pool<K, V>
    requires x in p && (c != [] ==> c[0] in p)
  {
    var p1 := p[x := p[x].(last := None, next := HeadOf(c))];
    if c == [] then p1 else p1[c[0] := p1[c[0]].(last := Some(x))]
  }

  lemma RelinkFrontPayload<K, V>(p0: Pool<K, V>, p: Pool<K, V>, x: Handle, c: seq<Handle>)
    requires SamePayload(p0, p) && x in p && (c != [] ==> c[0] in p)
    ensures SamePayload(p0, RelinkFront(p, x, c))
  {
  }

  /** Putting the unchained node x in front of chain hv, with the links
      RelinkFront writes, keeps every bucket head and chain linked. */
  lemma PrependWellLinked<K, V>(heads: seq<Option<Handle>>, chains: seq<seq<Handle>>, p: Pool<K, V>, x: Handle, hv: nat)
    requires WellLinked(heads, chains, p) && hv < |chains| && x in p && Distinct(chains[hv])
    requires forall b, j :: 0 <= b < |chains| && 0 <= j < |chains[b]| ==> chains[b][j] != x
    requires forall b, j :: 0 <= b < |chains| && b != hv && 0 <= j < |chains[b]| ==> chains[b][j] !in chains[hv]
    ensures chains[hv] != [] ==> chains[hv][0] in p
    ensures WellLinked(heads[hv := Some(x)], chains[hv := [x] + chains[hv]], RelinkFront(p, x, chains[hv]))
  {
    var c := chains[hv];
    if c != [] {
      assert ChainLinked(c, p);
    }
    var q := RelinkFront(p, x, c);
    forall j | 1 <= j < |c|
      ensures SameLinksAt(p, q, c[j])
    {
      assert c[j] != c[0];
    }
    assert x !in c by {
      assert forall j :: 0 <= j < |c| ==> c[j] != x;
    }
    PrependLinked(c, x, p, q);
    forall b', j | 0 <= b' < |chains| && b' != hv && 0 <= j < |chains[b']|
      ensures SameLinksAt(p, q, chains[b'][j])
    {
      assert ChainLinked(chains[b'], p);
      assert chains[b'][j] !in c;
    }
    WellLinkedUpdate(heads, chains, p, heads[hv := Some(x)], chains[hv := [x] + c], q, hv);
  }

  /** The links LinkNode::Add writes when the bucket's head is s
      (Common/HashMap.h:30-36): s's successor points back at d, d sits
      between s and that successor, and s points on to d. */
  function AddLinks<K, V>(p: Pool<K, V>, s: Handle, d: Handle): Pool<K, V>
    requires s in p && d in p && (p[s].next.Some? ==> p[s].next.value in p)
  {
    var sn := p[s].next;
    var p1 := if sn.Some? then p[sn.value := p[sn.value].(last := Some(d))] else p;
    var p2 := p1[d := p1[d].(next := sn, last := Some(s))];
    p2[s := p2[s].(next := Some(d))]
  }

  /** The links either Remove overload writes around node h
      (Common/HashMap.h:288-291, 305-308): h's neighbours are joined. */
  function UnlinkLinks<K, V>(p: Pool<K, V>, h: Handle): Pool<K, V>
    requires h in p && (p[h].next.Some? ==> p[h].next.value in p) && (p[h].last.Some? ==> p[h].last.value in p)
  {
    var n := p[h];
    var p1 := if n.next.Some? then p[n.next.value := p[n.next.value].(last := n.last)] else p;
    if n.last.Some? then p1[n.last.value := p1[n.last.value].(next := n.next)] else p1
  }

  /** Node by node, the links AddLinks writes: d gets s and s's old
      successor as its neighbours, s points on to d, and that successor
      points back to d. */
  lemma AddLinksPointwise<K, V>(p: Pool<K, V>, s: Handle, d: Handle)
    requires s in p && d in p && s != d && (p[s].next.Some? ==> p[s].next.value in p)
    ensures var q := AddLinks(p, s, d);
      q.Keys == p.Keys &&
      forall g :: g in p ==> q[g] == p[g].(last := if g == d then Some(s) else if Some(g) == p[s].next then Some(d) else p[g].last,
                                           next := if g == s then Some(d) else if g == d then p[s].next else p[g].next)
  {
  }

  /** Node by node, the links UnlinkLinks writes: h's successor takes over
      h's `last` link and h's predecessor takes over its `next` link. */
  lemma UnlinkLinksPointwise<K, V>(p: Pool<K, V>, h: Handle)
    requires h in p && (p[h].next.Some? ==> p[h].next.value in p) && (p[h].last.Some? ==> p[h].last.value in p)
    ensures var q := UnlinkLinks(p, h);
      q.Keys == p.Keys &&
      forall g :: g in p ==> q[g] == p[g].(last := if Some(g) == p[h].next then p[h].last else p[g].last,
                                           next := if Some(g) == p[h].last then p[h].next else p[g].next)
  {
  }

  /** The links LinkNode::Add writes make the chain c of a non-empty bucket
      into LinkAfterHead(c, d); nodes outside c and d keep their links, and
      no node changes key, value or slot. */
  lemma AddLinksChain<K, V>(c: seq<Handle>, p: Pool<K, V>, d: Handle)
    requires c != [] && ChainLinked(c, p) && Distinct(c) && d !in c
    requires d in p && p[d].last == None && p[d].next == None
    ensures c[0] in p && p[c[0]].next == NextOf(c, 0) && (p[c[0]].next.Some? ==> p[c[0]].next.value in p)
    ensures ChainLinked(LinkAfterHead(c, d), AddLinks(p, c[0], d))
    ensures SamePayload(p, AddLinks(p, c[0], d))
    ensures forall h :: h in p && h !in c && h != d ==> SameLinksAt(p, AddLinks(p, c[0], d), h)
  {
    var s := c[0];
    assert p[s].next == NextOf(c, 0);
    if |c| > 1 {
      assert c[1] in p && c[1] != s && c[1] != d;
    }
    var q := AddLinks(p, s, d);
    AddLinksPointwise(p, s, d);
    forall j | 2 <= j < |c|
      ensures SameLinksAt(p, q, c[j])
    {
      assert c[j] != c[0] && c[j] != c[1] && c[j] != d;
    }
    LinkAfterHeadLinked(c, d, p, q);
    forall h | h in p && h !in c && h != d
      ensures SameLinksAt(p, q, h)
    {
      if |c| > 1 { assert h != c[1]; }
    }
  }

  /** LinkNode::Add keeps the table linked: the unchained node d of bucket b
      becomes that bucket's head if it was empty, and its second node
      otherwise; no other chain is touched. */
  lemma AddWellLinked<K, V>(heads: seq<Option<Handle>>, chains: seq<seq<Handle>>, p: Pool<K, V>, hash: K -> nat, b: nat, d: Handle)
    requires WellLinked(heads, chains, p) && ChainsPlaced(chains, p, hash) && b < |chains|
    requires d in p && p[d].last == None && p[d].next == None
    requires forall b' :: 0 <= b' < |chains| ==> d !in chains[b']
    ensures chains[b] != [] ==>
      (chains[b][0] in p && p[chains[b][0]].next == NextOf(chains[b], 0) &&
       (p[chains[b][0]].next.Some? ==> p[chains[b][0]].next.value in p))
    ensures var c := chains[b];
      var q := if c == [] then p else AddLinks(p, c[0], d);
      var heads' := if c == [] then heads[b := Some(d)] else heads;
      WellLinked(heads', chains[b := LinkAfterHead(c, d)], q) && SamePayload(p, q)
  {
    var c := chains[b];
    var q := p;
    var heads' := heads[b := Some(d)];
    if c != [] {
      AddLinksChain(c, p, d);
      q := AddLinks(p, c[0], d);
      heads' := heads;
    }
    forall b', j | 0 <= b' < |chains| && b' != b && 0 <= j < |chains[b']|
      ensures SameLinksAt(p, q, chains[b'][j])
    {
      ChainsDisjoint(chains, p, hash, b', b, chains[b'][j]);
    }
    WellLinkedUpdate(heads, chains, p, heads', chains[b := LinkAfterHead(c, d)], q, b);
  }

  /** A node of bucket b added to chain b, and nothing else changed but
      links, leaves every chain placed. */
  lemma AddPlaced<K, V>(chains: seq<seq<Handle>>, p: Pool<K, V>, q: Pool<K, V>, hash: K -> nat, b: nat, d: Handle)
    requires ChainsPlaced(chains, p, hash) && SamePayload(p, q) && b < |chains|
    requires d in p && hash(p[d].key) % |chains| == b && d !in chains[b]
    ensures ChainsPlaced(chains[b := LinkAfterHead(chains[b], d)], q, hash)
  {
    var c := chains[b];
    LinkAfterHeadSpec(c, d);
    var chains' := chains[b := LinkAfterHead(c, d)];
    forall b', j | 0 <= b' < |chains'| && 0 <= j < |chains'[b']|
      ensures chains'[b'][j] in q && hash(q[chains'[b'][j]].key) % |chains'| == b'
    {
      if b' == b {
        assert chains'[b'][j] in multiset(c) + multiset{d};
      }
    }
  }

  /** The links either Remove overload writes around position j of chain c
      make it into Unlink(c, j); nodes off c keep their links, and no node
      changes key, value or slot. */
  lemma UnlinkLinksChain<K, V>(c: seq<Handle>, p: Pool<K, V>, j: nat)
    requires j < |c| && ChainLinked(c, p) && Distinct(c)
    ensures var h := c[j];
      h in p && p[h].next == NextOf(c, j) && p[h].last == PrevOf(c, j) &&
      (p[h].next.Some? ==> p[h].next.value in p) && (p[h].last.Some? ==> p[h].last.value in p)
    ensures var q := UnlinkLinks(p, c[j]);
      ChainLinked(Unlink(c, j), q) && HeadOf(Unlink(c, j)) == (if j == 0 then p[c[j]].next else HeadOf(c)) &&
      SamePayload(p, q) && forall g :: g in p && g !in c ==> SameLinksAt(p, q, g)
  {
    var h := c[j];
    assert p[h].next == NextOf(c, j) && p[h].last == PrevOf(c, j);
    if j + 1 < |c| {
      assert c[j + 1] in p;
    }
    if j > 0 {
      assert c[j - 1] in p;
    }
    var q := UnlinkLinks(p, h);
    UnlinkLinksPointwise(p, h);
    forall i | 0 <= i < |c| && i != j - 1 && i != j && i != j + 1
      ensures SameLinksAt(p, q, c[i])
    {
      assert c[i] != c[j];
      if j > 0 { assert c[i] != c[j - 1]; }
      if j + 1 < |c| { assert c[i] != c[j + 1]; }
    }
    if j > 0 && j + 1 < |c| {
      assert c[j - 1] != c[j + 1];
    }
    UnlinkLinked(c, j, p, q);
    forall g | g in p && g !in c
      ensures SameLinksAt(p, q, g)
    {
      if j > 0 { assert g != c[j - 1]; }
      if j + 1 < |c| { assert g != c[j + 1]; }
    }
  }

  /** Unlinking the node at position j of chain b keeps the table linked: the
      bucket head moves on when that node was the head. */
  lemma UnlinkWellLinked<K, V>(heads: seq<Option<Handle>>, chains: seq<seq<Handle>>, p: Pool<K, V>, hash: K -> nat, b: nat, j: nat)
    requires WellLinked(heads, chains, p) && ChainsPlaced(chains, p, hash)
    requires b < |chains| && j < |chains[b]|
    ensures var h := chains[b][j];
      h in p && p[h].next == NextOf(chains[b], j) && p[h].last == PrevOf(chains[b], j) &&
      (p[h].next.Some? ==> p[h].next.value in p) && (p[h].last.Some? ==> p[h].last.value in p)
    ensures var h := chains[b][j];
      var q := UnlinkLinks(p, h);
      var heads' := heads[b := if heads[b] == Some(h) then p[h].next else heads[b]];
      WellLinked(heads', chains[b := Unlink(chains[b], j)], q) && SamePayload(p, q)
  {
    var c := chains[b];
    var h := c[j];
    assert ChainLinked(c, p);
    UnlinkLinksChain(c, p, j);
    var q := UnlinkLinks(p, h);
    assert heads[b] == Some(h) <==> j == 0;
    forall b', i | 0 <= b' < |chains| && b' != b && 0 <= i < |chains[b']|
      ensures SameLinksAt(p, q, chains[b'][i])
    {
      ChainsDisjoint(chains, p, hash, b', b, chains[b'][i]);
    }
    WellLinkedUpdate(heads, chains, p, heads[b := if heads[b] == Some(h) then p[h].next else heads[b]],
      chains[b := Unlink(c, j)], q, b);
  }

  /** The heads and chains stay linked when no chain node's links change. */
  lemma WellLinkedFrame<K, V>(heads: seq<Option<Handle>>, chains: seq<seq<Handle>>, p: Pool<K, V>, q: Pool<K, V>)
    requires WellLinked(heads, chains, p)
    requires forall b, j :: 0 <= b < |chains| && 0 <= j < |chains[b]| ==> SameLinksAt(p, q, chains[b][j])
    ensures WellLinked(heads, chains, q)
  {
    forall b | 0 <= b < |chains|
      ensures ChainLinked(chains[b], q)
    {
      ChainLinkedFrame(chains[b], p, q);
    }
  }

  /** Chains of different buckets share no node. */
  lemma ChainsDisjoint<K, V>(chains: seq<seq<Handle>>, pool: Pool<K, V>, hash: K -> nat, b: nat, b': nat, h: Handle)
    requires ChainsPlaced(chains, pool, hash)
    requires b < |chains| && b' < |chains| && b != b' && h in chains[b]
    ensures h !in chains[b']
  {
  }
}
