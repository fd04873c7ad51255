# A verified model of HashMap_Class

This project models `HashMap_Class<K, V, Hash, Equal>` of `Common/HashMap.h`:
a separately chained hash table whose nodes come from a pool, whose bucket
array (`nodeVec`) holds the head of a doubly linked chain per bucket, and
whose dense array (`allocatedNodes`) lists every live node once so that
`Size()` is its length and a node is removed by moving the last slot into
its own. The bucket count is always the first number from the requested
capacity on that passes `GetPrime`'s trial-division test, and the table
grows (doubling, then rounding up that way) when a new key arrives at a
table whose `Size()` has reached its capacity.

The model is imperative where the source is:

- `HashMapName.HashMap` is a class. `buckets` is an `array<Option<Handle>>`
  standing for `nodeVec`; `pool` is a map from handles to `LinkNode` values
  standing for the node pool (an arena: chain links are handles, not
  raw addresses); `dense` is a `seq<Handle>` standing for `allocatedNodes`;
  `nextHandle` hands out fresh handles. The methods update these fields in
  place, with the loops of the source as `while` loops.
- Ghost fields give the meaning of the layout: `chains` (the order of each
  bucket's chain), `owner` (the node holding each key) and `Contents` (the
  map the table represents). `Valid()` is the table invariant `TableInv`:
  heads and links agree with `chains`, every node sits on the chain of its
  key's bucket exactly once, the dense index is exact, keys are unique and
  `Contents` is the map the nodes carry.
- Iteration is specified against `Iteration.Cursors(chains)`: the sequence of
  iterator values (bucket index, node) that `Begin()` and repeated
  `operator++` step through, bucket by bucket and each chain from its head.
- The capacity policy lives in module `Primes`; the chain operations, the
  dense array and the rehash order are value-level modules (`Chains`,
  `Dense`, `Rehash`) with their own lemmas.

The hash functor is a function `hash: K -> nat` fixed at construction; the
equality functor is the key type's own equality.

Three points of the code that the model follows closely:

- `LinkNode::Add` (`Common/HashMap.h:22-38`) makes a new node the head only
  of an empty bucket; otherwise the node is linked in right after the
  existing head (lines 30-36). `Chains.LinkAfterHead` is this order.
- The table grows only when `Size() >= capacity` before a new key is added
  (`Common/HashMap.h:249`). So `Size()` can equal the capacity: a 17-bucket
  table takes 17 keys without growing, and the 18th new key grows it. The
  invariant of the model is `Size() <= capacity`.
- `GetPrime` returns the first number that passes its test, which for
  arguments of 3 and above is the least prime at or above the argument
  (`Primes.LeastPassingIsLeastPrime`). Below 3 the test accepts 1, which is
  not prime; no call can pass such an argument, since the constructor raises
  its hint to 3 and `Resize` only asks for more than the current capacity.

## Model

| member | source | states |
|---|---|---|
| Primes.IsPrimeByTrial | Common/HashMap.h:166-174 | the isPrime lambda answers exactly whether n is odd and has no odd divisor i >= 3 with i * i <= n |
| Primes.GetPrime | Common/HashMap.h:164-182 | the search stops, and returns the first number from n on that passes the test |
| Primes.TrialDivisionIsPrimality | Common/HashMap.h:166-174 | from 3 on, passing the test is the same as being prime, in both directions |
| Primes.LeastPassingIsLeastPrime | Common/HashMap.h:175-181 | from 3 on, GetPrime's answer is prime and no number between the argument and the answer is prime |
| Primes.DefaultCapacity | Common/HashMap.h:234 | the default table asks for 17 buckets and gets exactly 17 |
| Primes.SmallestCapacity | Common/HashMap.h:220-221 | a hint below 3 becomes 3, which GetPrime keeps |
| Chains.LinkAfterHead | Common/HashMap.h:22-38 | the chain order Add produces: the new node alone in an empty bucket, otherwise second, right after the head |
| Chains.Unlink | Common/HashMap.h:284-291 | the chain order both Remove overloads produce (also lines 301-308): the chain without the node at position j |
| Chains.AddLinks | Common/HashMap.h:30-36 | the pool after Add's three link writes on a non-empty bucket with head s: s's old successor points back at d, d points at s and that successor, s points on to d |
| Chains.UnlinkLinks | Common/HashMap.h:288-291 | the pool after Remove's link writes around h (also lines 305-308): h's successor points back at h's predecessor and the predecessor on to the successor |
| Chains.RelinkFront | Common/HashMap.h:193-207 | the pool after one turn of Resize's loop: node x has no predecessor and points at the old head of its new bucket, which points back at x |
| Chains.LinkAfterHeadSpec | Common/HashMap.h:22-38 | Add keeps every node of the chain and adds the new one, keeps a non-empty chain's head, and unlinking the new node gives back the old chain |
| Chains.UnlinkSpec | Common/HashMap.h:284-291 | unlinking position j drops exactly that node and keeps the others in their order; a chain without repeated nodes no longer holds it |
| Chains.AddWellLinked | Common/HashMap.h:22-38 | the link updates of Add leave every bucket head and link consistent with the chain that has the node after its head |
| Chains.UnlinkWellLinked | Common/HashMap.h:284-291 | the link updates of Remove leave every bucket head and link consistent with the chain without the node |
| Chains.PrependWellLinked | Common/HashMap.h:193-208 | clearing a node's links and putting it in front of a bucket keeps heads and links consistent |
| Dense.DenseIndexedDistinct | Common/HashMap.h:147-152 | an exact dense index lists every live node, and each only once |
| Dense.SwapRemoveSpec | Common/HashMap.h:155-161 | the erase shrinks the dense array by one, keeps every other slot below the end, and puts the old last node in the freed slot |
| Dense.SwapRemoveMultiset | Common/HashMap.h:155-161 | the dense array loses exactly the removed node |
| Dense.DenseIndexedAppend | Common/HashMap.h:147-152 | a node recording slot Size() and appended keeps the dense index exact |
| Dense.DenseIndexedSwapRemove | Common/HashMap.h:153-163 | after the swap-remove the dense index is exact again, the node has left the pool and every other node keeps its key, value and links |
| Dense.SwapRemove | Common/HashMap.h:155-161 | the dense array after DeleteLinkNode: the last slot written into slot i, then the last slot erased |
| Dense.DeletedPool | Common/HashMap.h:156-162 | the pool after DeleteLinkNode: the node of the last slot records the freed slot, and the deleted node leaves the pool |
| Rehash.RehashedIsReversedFilter | Common/HashMap.h:190-209 | each rebuilt chain is its bucket's nodes in dense order, reversed |
| Rehash.RehashedMembers | Common/HashMap.h:190-209 | a rebuilt chain holds exactly the processed nodes whose key hashes to its bucket |
| Rehash.RehashedDistinct | Common/HashMap.h:190-209 | no node goes on a rebuilt chain twice |
| Rehash.RehashedPlaced | Common/HashMap.h:190-209 | chains rebuilt from the whole dense array put every live node, once, on its own bucket's chain |
| Rehash.Rehashed | Common/HashMap.h:190-209 | the chain of bucket b once Resize's loop has processed a prefix of the dense array: each processed node of bucket b went in front of the chain built before it |
| Iteration.IterationVisitsEachOnce | Common/HashMap.h:368-399 | the iteration visits only live nodes, visits every live node under its own bucket index, never visits a node twice, and never goes back to a lower bucket |
| Iteration.CursorsIndexed | Common/HashMap.h:364-367 | every visited iterator names a node on its own bucket's chain, so End() is never visited |
| Iteration.NextLink | Common/HashMap.h:384 | following a visited node's next link gives the next visited iterator, or the iteration goes on past the bucket |
| Iteration.ScanBucket | Common/HashMap.h:386-397 | an empty bucket head is skipped, and a non-empty head is the next visited iterator |
| Iteration.Cursors | Common/HashMap.h:368-399 | the iterator values Begin and repeated operator++ step through before End: bucket by bucket in increasing index, each chain from its head |
| HashMapName.AbstractsInsert | Common/HashMap.h:254-255 | a new node for a new key adds exactly that entry to the map |
| HashMapName.AbstractsRemove | Common/HashMap.h:292 | dropping a key's node drops exactly that key and lowers the size by one |
| HashMapName.EmptyInv | Common/HashMap.h:218-225 | empty buckets, no nodes and an empty map satisfy the table invariant |
| HashMapName.EmptyTable | Common/HashMap.h:353 | a valid table with an empty dense array has no nodes, no entries and only empty buckets |
| HashMapName.UpdateInv | Common/HashMap.h:240-247 | storing a new value in a present key's node keeps the invariant and maps the key to that value |
| HashMapName.InsertFinish | Common/HashMap.h:248-255 | a new node linked after its bucket's head restores the invariant with the node appended and the key mapped to its value |
| HashMapName.RemoveFinish | Common/HashMap.h:284-292 | unlinking and deleting a node restores the invariant without that node's key |
| HashMapName.RehashFinish | Common/HashMap.h:183-211 | rebuilt chains over a larger bucket count that passes the test restore the invariant with the same entries |
| HashMapName.HashMap.constructor | Common/HashMap.h:218-225 | an empty valid table whose bucket count is GetPrime's answer for max(3, capacity), all buckets empty |
| HashMapName.HashMap.GetNewLinkNode | Common/HashMap.h:147-152 | a fresh unlinked node recording slot Size() is appended to the dense array and the pool |
| HashMapName.HashMap.DeleteLinkNode | Common/HashMap.h:153-163 | the dense array is swap-removed at the node's slot, the moved node records the freed slot, and the node leaves the pool |
| HashMapName.HashMap.LinkAdd | Common/HashMap.h:22-38 | the node becomes the head of an empty bucket or the second node of the chain, with heads and links consistent and no payload changed |
| HashMapName.HashMap.UnlinkNode | Common/HashMap.h:284-291 | the node is unlinked from its chain, with heads and links consistent and no payload changed |
| HashMapName.HashMap.DetachNode | Common/HashMap.h:301-309 | unlinks the node and deletes it: the chain loses it, the dense array is swap-removed and the key leaves the map |
| HashMapName.HashMap.RemoveNode | Common/HashMap.h:284-292 | the table stays valid and loses exactly the node's key |
| HashMapName.HashMap.Rebuild | Common/HashMap.h:189-209 | a fresh bucket array of the new size whose chains are the rehashed dense array, with only links changed |
| HashMapName.HashMap.Resize | Common/HashMap.h:183-211 | no change unless the table must grow; then the bucket count is GetPrime's answer, each chain is the rehashed dense array, and the table stays valid with the same entries |
| HashMapName.HashMap.Grow | Common/HashMap.h:212-215 | the bucket count becomes GetPrime's answer for twice the old one, with the chains rehashed |
| HashMapName.HashMap.Reserve | Common/HashMap.h:257-260 | the same as Resize for the requested capacity |
| HashMapName.HashMap.FindNode | Common/HashMap.h:263-272 | the chain walk of bucket hash(key) % capacity finds a node exactly when the key is in the map, and then it is the key's own node |
| HashMapName.HashMap.Find | Common/HashMap.h:261-274 | a visited iterator in the key's bucket whose Key and Value are the key and its value, or End() for an absent key |
| HashMapName.HashMap.At | Common/HashMap.h:311-323 | the value the map holds for a present key |
| HashMapName.HashMap.TryGet | Common/HashMap.h:324-337 | true exactly when the key is present, with its value; otherwise the caller's value is left as it was |
| HashMapName.HashMap.Contains | Common/HashMap.h:338-350 | true exactly when the key is in the map |
| HashMapName.HashMap.Size | Common/HashMap.h:361 | the number of entries, which never exceeds the capacity |
| HashMapName.HashMap.GetCapacity | Common/HashMap.h:363 | the bucket count, a prime of at least 3 |
| HashMapName.HashMap.End | Common/HashMap.h:364-367 | an iterator with no node that the iteration never visits |
| HashMapName.HashMap.Begin | Common/HashMap.h:368-378 | the first visited iterator, or End() when nothing is visited |
| HashMapName.HashMap.Next | Common/HashMap.h:381-399 | the iterator at position pos of the iteration moves to position pos + 1, or to End() after the last |
| HashMapName.HashMap.Key | Common/HashMap.h:400-404 | the key under a visited iterator is in the map and the iterator names that key's node |
| HashMapName.HashMap.Value | Common/HashMap.h:405-409 | the value the map holds for the key under the iterator |
| HashMapName.HashMap.InsertNew | Common/HashMap.h:254-255 | the table stays valid, gains the entry, appends its node to the dense array and links it after its bucket's head |
| HashMapName.HashMap.Insert | Common/HashMap.h:236-256 | the key maps to the value afterwards; a present key changes no layout; a new key grows the table first exactly when Size had reached the capacity, and is linked after its bucket's head |
| HashMapName.HashMap.Remove | Common/HashMap.h:275-297 | the key leaves the map; a present key's node is swap-removed from the dense array; an absent key changes nothing |
| HashMapName.HashMap.RemoveAt | Common/HashMap.h:299-310 | the entry under a visited iterator leaves the map and the table stays valid |
| HashMapName.HashMap.DeleteAll | Common/HashMap.h:355-358 | every node of the dense array goes back to the pool, which is then empty |
| HashMapName.HashMap.Clear | Common/HashMap.h:351-360 | the map becomes empty, every bucket empty and the capacity unchanged; an empty table is left untouched |

## Left out

- HashMapName.HashMap.At: `operator[]` on an absent key dereferences a null address (`Common/HashMap.h:322`), which has no meaning to model; the key is required to be present. The reference it returns, and writes through it, are not modelled: At returns the value.
- HashMapName.HashMap.Key and HashMapName.HashMap.Value return values, not references that the caller could write through.
- HashMapName.HashMap.Begin and HashMapName.HashMap.Next require only that heads and links agree with the chains, not the whole table invariant; iterating a table that is not valid is outside the model either way.
- Iterator validity across mutation (an iterator kept across Insert, Remove of another entry, Resize or Clear) is not modelled: the model only speaks about iterators that are visited by the current table.
- The `Pool` and `ArrayList` classes (`Pool.h`, `ArrayList.h`) are not part of this model: the pool is a map of live nodes and the dense array a sequence, and `reserve` calls have no effect in the model.
- `HashArray`'s `malloc`/`memset`/`free` and move semantics are modelled as a fresh array of empty heads; `ClearAll` as setting every head to none.
- The destructor and `IterateAll` are not modelled: the first only frees memory, the second only calls a caller-supplied function.
- The hash and equality functors are a fixed function `K -> nat` and the key type's equality; the `size_t` value of the hash is modelled as an unbounded natural number.
- `uint64_t` overflow is not modelled: capacities, sizes and handles are unbounded, so the doubling in `Resize()` and the `i * i` of the primality test never wrap.
- Concurrency is outside the model; the table is single-threaded.
