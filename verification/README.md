# SniffDogSniff: a verified model of its peer-to-peer core

SniffDogSniff is a decentralised search engine: peers find each other through a Kademlia routing
table, place search results by a similarity hash of their titles, and exchange them in a small binary
format. This project models that core in Dafny and proves what it guarantees. Objects whose methods
update fields are classes, loops are loops, and values the C++ code copies (nodes, identifiers, strings)
are datatypes and sequences.

* **Identifiers** (`Bits`, `LittleEndian`, `KadId`): the byte loops of `height`, `operator<`, `operator-`
  and `idNbitsFarFrom` against the numbers they stand for; the metric and ultrametric laws.
* **Buckets** (`KadNode`, `Sorting`, `KadBucket`, `BucketSteps`, `BucketRuns`): push, removal and eviction as a state
  machine; what each step does to both lists; the invariant of every reachable bucket; failure counters as history; eviction safety.
* **The routing table** (`KadRoutingTable`, `TableRuns`, `TableSteps`, `ClosestNodes`, `FirstPushes`, `MissedNode`): the partition by
  distance, capacity by pigeonhole, and how far `getClosestTo` is from the true nearest nodes: it is only
  approximate, its misses are confined, and there is an exact condition for it to be right, decided by
  bits of the target's distance.
* **The table file** (`Codec`, `Layout`, `TableFile`, `FileLayout`, `TablePersistence`, `FileVerdict`,
  `FileHazards`): where every byte of `ktable.dat` lies, which tables
  survive `ktable.dat`, which files are accepted, rejected or overrun the address buffer, and what a
  truncated file leaves behind.
* **The node lookup** (`NodesLookup`, `LookupRounds`, `NodesLookupTask`, `LookupRecords`, `LocalNode`): the query
  loop for arbitrary replies, query by query, the pass that records its outcome, and the whole task;
  what a lookup teaches the table, and when.
* **The similarity hash** (`Fnv`, `SimHash`): 128-bit multiplication in 64-bit words with an unmasked
  limb, the weighted vote in `char` accumulators, the Hamming distance.
* **The wire format** (`SdsBytesBuf`, `OrderedMap`, `SearchEntry`, `P2PMessages`, `WireLayout`, `CutReplies`): messages
  field by field at their offsets; the growable buffer as
  an append-only byte sequence over whole runs, and the exact conditions under which messages are read
  back as written, and what becomes of replies that are cut short.

What an operation does is stated twice: as a function that its loops are proved to compute, and without
that function, as what a caller sees. For that `BucketSteps` and `TableSteps` count nodes, `LookupRounds` names
the pair of the reply that a node came from, `Layout`, `FileLayout` and `WireLayout` give offsets and digits, and
`Fnv.HashRun` gives the run of 128-bit values.

Three things hold throughout. A property that the code does not have on all inputs is stated as an if and
only if, or with a lemma that shows the failing family: `ClosestNodes.NearestIffCutIsClean` and
`MissedNode`, `TablePersistence.RestoredIffStorable`, `P2PMessages.ReplyRoundTrip`,
`FileVerdict`, `FileHazards`, `SimHash.MajorityIffAtMost127`, `Fnv.AgreesWithFnv1aOnlyOnNul`. `std::sort` is any sorted permutation
(`Sorting.SortedPermutation`). Reads that leave the memory they may touch have the status `Overrun`.

Where code and comments disagree the model follows the code. The loop of `fnv128String` is commented as
a multiplication after the xor, but shifts the limbs before it (sds_core/simhash.cpp:42-45), and its two
increments make it hash every second character. `reHash` is commented as hashing the URL, and hashes the
title (sds_core/searchentry.cpp:59-63). `getClosestTo` departs from the order of distance in three ways
(kademlia/kadroutingtable.cpp:97-118): it alternates between buckets below and above the target's, although
every node below is nearer than any above; it visits the buckets below from the top down, although of two of
them the higher is the nearer one only if the target's distance has the bit at its index; and it takes the
nodes of one bucket in order of recency.
`readString` never tests the first byte for NUL (common/sdsbytesbuf.cpp:113-117).

Constructors and setters that only store their arguments (`KadBucket`, `SearchEntry`, `PingArgs`,
`SdsBytesBuf`, `setSelfNodeAddress`, `addProperty`, `reHash`) carry contracts for their callers and are not listed below.

## Model

| member | source | states |
|---|---|---|
| `KadId.Height` | kademlia/kadnode.cpp:27-40 | the byte and shift loops give the binary logarithm, rounded down, of the little-endian value of a nonzero identifier |
| `KadId.LessThan` | kademlia/kadnode.cpp:86-93 | the byte loop decides the numeric strict order; false on equal identifiers |
| `KadId.DistIsXor` | kademlia/kadnode.cpp:42-64 | the value of the bytewise difference is the xor of the values |
| `KadId.ValueDigits` | kademlia/kadnode.cpp:86-93 | byte k of an identifier is digit k, to the base 256, of its value: byte 15 counts most |
| `KadId.DistIsMetric` | kademlia/kadnode.cpp:42-64 | the xor distance is zero only between equal identifiers, symmetric, obeys the triangle inequality, and determines its far end |
| `KadId.ExactlyOneAtEachDistance` | kademlia/kadnode.cpp:42-64 | from each identifier exactly one identifier lies at each distance below 2^128 |
| `KadId.BucketUltrametric` | kademlia/kadnode.cpp:27-64 | the height of a distance never exceeds the larger of the heights on a detour, equals it when they differ, and lies strictly below when they agree |
| `KadId.BucketRange` | kademlia/kadnode.cpp:27-40 | bucket indices run from 0 to 127, `self` has none, and bucket h holds exactly the distances from 2^h to 2^(h+1) |
| `KadId.IdNbitsFarFrom` | kademlia/kadnode.cpp:126-143 | the loops yield the identifier at distance 2^128 - 2^(128-n), for every n from 0 to 128 |
| `KadId.OnesMask` | kademlia/kadnode.cpp:128-141 | the mask has ones from bit 128-n upward and zeros below, across the byte in the middle |
| `KadId.NbitsFarMeans` | kademlia/kadnode.cpp:126-143 | such an identifier differs in exactly n bits; for every n but 0 its bucket is 127, and for 0 it is the identifier itself |
| `Sorting.Sort` | kademlia/kadbucket.cpp:113-114 | stands for `std::sort`: a permutation in key order, the order among equal keys left open |
| `KadBucket.Stalest` | kademlia/kadbucket.cpp:34-41 | the node to evict is the first of those with the most failures, if they reach 5; otherwise all nodes have fewer |
| `KadBucket.KadBucket.HasNode` | kademlia/kadbucket.cpp:19-22 | finds exactly the live nodes |
| `KadBucket.KadBucket.IsFull` | kademlia/kadbucket.cpp:96-99 | full means exactly 20 live nodes |
| `KadBucket.KadBucket.PushNode` | kademlia/kadbucket.cpp:24-62 | the six cases of a push, then both lists sorted anew; true when the node was live, or cached in a full bucket with nothing to evict |
| `KadBucket.KadBucket.FindStalest` | kademlia/kadbucket.cpp:34-41 | the scan finds the node to evict |
| `KadBucket.KadBucket.RemoveNode` | kademlia/kadbucket.cpp:69-89 | a live node is replaced by the first cached one, or its counter grows when there is none; nothing else changes, and true means the node was live |
| `KadBucket.KadBucket.Reorder` | kademlia/kadbucket.cpp:111-115 | both lists become sorted permutations, most recently seen first |
| `BucketSteps.PushRefreshes` | kademlia/kadbucket.cpp:26-30 | a live node that is pushed is seen now and has no failures, keeps the address it had, and nothing else changes |
| `BucketSteps.PushFills` | kademlia/kadbucket.cpp:31-32 | with fewer than 20 live nodes an unknown node becomes live as it was pushed |
| `BucketSteps.PushEvicts` | kademlia/kadbucket.cpp:34-45 | in a full bucket an unknown node takes the place of the first of those with the most failures, if these are 5 or more |
| `BucketSteps.PushCaches` | kademlia/kadbucket.cpp:46-57 | in a full bucket with nothing to evict the live nodes stay; a cached node is seen now, another is added to the cache, in the place of its last node if there are 20 |
| `BucketSteps.PushFindsIff` | kademlia/kadbucket.cpp:26-61 | a push returns true exactly for a live node, and for a cached one if there are 20 live nodes all with fewer than 5 failures |
| `BucketSteps.RemoveIgnores` | kademlia/kadbucket.cpp:69-89 | an identifier that is not live, cached or not, changes nothing |
| `BucketSteps.RemoveCounts` | kademlia/kadbucket.cpp:83-85 | with an empty cache a live node stays in its place with one failure more |
| `BucketSteps.RemovePromotes` | kademlia/kadbucket.cpp:75-82 | with a cache the first cached node takes the place of the removed one |
| `KadBucket.PushKeepsInv` | kademlia/kadbucket.cpp:24-62 | a push of a node with fewer than 5 failures, or of a live node, keeps the bucket invariant |
| `KadBucket.RemoveKeepsInv` | kademlia/kadbucket.cpp:69-89 | so does every removal |
| `KadBucket.PushOrigin` | kademlia/kadbucket.cpp:24-62 | after a push every node held is the pushed one or was held before, perhaps seen just now |
| `KadBucket.RemoveOrigin` | kademlia/kadbucket.cpp:69-89 | after a removal every node held was held before, perhaps with one failure fewer |
| `BucketRuns.RunKeepsInv` | kademlia/kadbucket.cpp:24-89 | in every reachable bucket: at most 20 live and 20 cached nodes, all identifiers distinct across both lists, both sorted, and a cache only beside 20 live nodes below the threshold |
| `BucketRuns.LiveAfterPush` | kademlia/kadbucket.cpp:24-62 | a live node after a push is unchanged, or the pushed one, which is seen now and has its counter reset if it was live |
| `BucketRuns.LiveAfterRemove` | kademlia/kadbucket.cpp:69-89 | a live node after a removal is unchanged, promoted from the cache, or the named one with one failure more |
| `BucketRuns.StalesCountFailures` | kademlia/kadbucket.cpp:24-89 | over every run that pushes nodes without failures, or copies of live nodes with any, a live node's counter is the number of removals asked for since it became live or was last pushed again; cached nodes carry none |
| `BucketRuns.LiveNeverShrinks` | kademlia/kadbucket.cpp:24-89 | no step makes the live list shorter |
| `BucketRuns.EvictionIsEarned` | kademlia/kadbucket.cpp:34-89 | a live node disappears only by its own removal with a nonempty cache, or by the push of an unknown node into a full bucket while it has at least 5 failures and no live node has more |
| `BucketRuns.EvictionSafety` | kademlia/kadbucket.cpp:34-89 | the same over all those runs, with failures counted from the history alone |
| `BucketRuns.PromotionPicksMostRecent` | kademlia/kadbucket.cpp:75-82 | the promoted node is the most recently seen cached one, the named node is gone, the rest of the cache stays |
| `BucketRuns.FullBucketCaches` | kademlia/kadbucket.cpp:46-57 | a push into a full bucket with nothing to evict leaves the live list alone, and a full cache gives up a node seen least recently |
| `KadRoutingTable.KadRoutingTable.constructor` | kademlia/kadroutingtable.cpp:9-17 | 128 distinct empty buckets and an own node without address |
| `KadRoutingTable.KadRoutingTable.IsFull` | kademlia/kadroutingtable.cpp:38-46 | true exactly when each of the 128 buckets holds 20 live nodes |
| `KadRoutingTable.KadRoutingTable.HasNode` | kademlia/kadroutingtable.cpp:48-57 | the scan finds a node exactly when some bucket has it live |
| `KadRoutingTable.KadRoutingTable.PushNode` | kademlia/kadroutingtable.cpp:59-66 | refuses `self` and its address; otherwise pushes into the bucket of the distance and leaves all others alone |
| `KadRoutingTable.KadRoutingTable.RemoveNode` | kademlia/kadroutingtable.cpp:73-80 | removes in the bucket of the distance and leaves all others alone |
| `KadRoutingTable.KadRoutingTable.GetKClosestTo` | kademlia/kadroutingtable.cpp:82-85 | the search for 16 nodes |
| `KadRoutingTable.KadRoutingTable.GetClosestTo` | kademlia/kadroutingtable.cpp:87-125 | the first `count` live nodes of the outward search, sorted by distance; a negative count means no limit |
| `KadRoutingTable.KadRoutingTable.CopyOutward` | kademlia/kadroutingtable.cpp:97-118 | the nested loops collect the first nodes of the walk h, h-1, h+1, h-2, ... over all buckets |
| `KadRoutingTable.KadRoutingTable.CopyBothSides` | kademlia/kadroutingtable.cpp:102-118 | one round adds the bucket below and then the bucket above, as far as they exist and the limit allows |
| `KadRoutingTable.KadRoutingTable.CopyLive` | kademlia/kadroutingtable.cpp:106-108 | the inner loop adds nodes of one bucket up to the limit |
| `TableRuns.StepKeepsTableInv` | kademlia/kadroutingtable.cpp:33-80 | one operation keeps every node in the bucket of its distance and every bucket's invariant |
| `TableRuns.RunKeepsTableInv` | kademlia/kadroutingtable.cpp:9-80 | so does every run from an empty table |
| `TableRuns.IdAtMostOnce` | kademlia/kadroutingtable.cpp:59-80 | `self` is nowhere in the table, and any identifier occurs at most once, live and cached lists of all buckets taken together |
| `TableRuns.ScanIsHomeLookup` | kademlia/kadroutingtable.cpp:48-57 | the scan of 128 buckets is a lookup in one |
| `TableRuns.BucketCapacity` | kademlia/kadroutingtable.cpp:59-66 | bucket h never holds more than 2^h nodes, live and cached together |
| `TableRuns.NeverFull` | kademlia/kadroutingtable.cpp:38-46 | `isFull` is false of every reachable table |
| `TableRuns.TableCapacity` | kademlia/kadroutingtable.cpp:330-339 | no reachable table holds more than 2491 live nodes |
| `TableSteps.PushRefused` | kademlia/kadroutingtable.cpp:61-62 | a node with the own identifier or the own address changes nothing |
| `TableSteps.PushGoesHome` | kademlia/kadroutingtable.cpp:64-65 | any other is pushed into the bucket whose number is the highest bit in which the identifiers differ, and into no other |
| `TableSteps.RemoveGoesHome` | kademlia/kadroutingtable.cpp:75-79 | a removal works in that bucket and in no other |
| `TableSteps.RemoveUnknown` | kademlia/kadroutingtable.cpp:73-80 | removing an identifier that is live nowhere, be it cached, unknown or the own one, leaves the table as it was |
| `TableSteps.PushedIsFoundIff` | kademlia/kadroutingtable.cpp:48-66 | after the push of an admissible node that is not refused, some live list of the 128 has it exactly when its bucket had it live, had fewer than 20 live nodes, or had one with 5 failures |
| `ClosestNodes.DistanceBand` | kademlia/kadroutingtable.cpp:93-122 | the height of a node's distance to the target follows from the two buckets: below h in the target's bucket h, h in lower ones, its own index in higher ones |
| `ClosestNodes.BandsOrder` | kademlia/kadroutingtable.cpp:93-122 | nodes of the target's bucket are nearer than all others, and nodes of a higher bucket farther than all of lower ones |
| `ClosestNodes.BitDecides` | kademlia/kadroutingtable.cpp:93-122 | which of two nodes of different buckets is nearer to a target is decided by one bit of the target's distance from `self`: that at the higher bucket index |
| `ClosestNodes.HomeBit` | kademlia/kadroutingtable.cpp:93-95 | that bit is set at the target's own bucket and clear above it |
| `ClosestNodes.WalkIsAllLive` | kademlia/kadroutingtable.cpp:97-118 | the outward search visits each of the 128 buckets exactly once |
| `ClosestNodes.WalkByRank` | kademlia/kadroutingtable.cpp:97-118 | it meets nodes in the order h, h-1, h+1, h-2, ... of their buckets |
| `ClosestNodes.AnswerIsFull` | kademlia/kadroutingtable.cpp:87-125 | the answer has exactly `count` nodes, or all live ones if there are no more or `count` is negative; all live and distinct, strictly increasing in distance |
| `ClosestNodes.LiveIff` | kademlia/kadroutingtable.cpp:330-339 | a live node is one in the live list of one of the 128 buckets |
| `ClosestNodes.BucketsGiveTheirFirst` | kademlia/kadroutingtable.cpp:106-108 | of each bucket the answer has a beginning of the live list, the most recently seen nodes |
| `ClosestNodes.ReturnedWereMetFirst` | kademlia/kadroutingtable.cpp:97-118 | a returned node's bucket is no more steps away from the target's than an omitted node's, and lower if it is as many |
| `ClosestNodes.MissesAreConfined` | kademlia/kadroutingtable.cpp:87-125 | an omitted live node nearer than a returned one shares its bucket, or lies in a bucket below the target's that is visited later, the returned one not lying in the target's |
| `ClosestNodes.HomeNodesLead` | kademlia/kadroutingtable.cpp:93-122 | nodes of the target's bucket form a prefix of the answer |
| `ClosestNodes.SameBucketSameNodes` | kademlia/kadroutingtable.cpp:93-118 | targets of one bucket get the same nodes, in different order |
| `ClosestNodes.NearestIffCutIsClean` | kademlia/kadroutingtable.cpp:87-125 | the answer consists of the nearest live nodes if and only if `count` is negative, or every bucket met among the first `count` nodes is nearer than every other one not finished, by the bits of the target's distance, and in the one bucket that the stop splits the nodes met are nearer than those left |
| `ClosestNodes.ExactWhenCountFits` | kademlia/kadroutingtable.cpp:97-118 | the answer is exact when the target's bucket holds exactly `count` live nodes, the table at most `count`, or `count` is negative |
| `MissedNode.NearerNodeOmitted` | kademlia/kadroutingtable.cpp:102-118 | in every two-node table where the bucket visited first lacks its bit, the search for the nearest node returns the farther one |
| `MissedNode.ReachedByTwoPushes` | kademlia/kadroutingtable.cpp:59-66 | these tables are reached by two pushes |
| `MissedNode.MisleadingTablesExist` | kademlia/kadroutingtable.cpp:102-118 | one with the nodes on either side of the target's bucket: identifiers 0, 1 and 8, target 4 |
| `MissedNode.MisleadingBelowTarget` | kademlia/kadroutingtable.cpp:102-118 | one with both below it: identifiers 0, 1 and 4, target 8, distances 9 and 12 |
| `Codec.ReadLoop` | kademlia/kadroutingtable.cpp:154-187 | the loop reads items as `ReadMany` does |
| `Codec.ManyMeans` | kademlia/kadroutingtable.cpp:154-187 | the reading loop goes from item to item, keeps every item it has read, and stops behind the last or at the first that fails; a count below 1 reads nothing |
| `Codec.ManyRoundTrip` | kademlia/kadroutingtable.cpp:154-278 | a run of items is read back if each item is; otherwise reading fails or some item comes out wrong |
| `Codec.ManyExtends` | kademlia/kadroutingtable.cpp:154-187 | a run that is read from some bytes is read alike when more bytes follow |
| `Codec.ManyBegins` | kademlia/kadroutingtable.cpp:154-187 | what is read from a part of the bytes is the beginning of what is read from all of them |
| `Codec.CutReplace` | kademlia/kadroutingtable.cpp:147-226 | replacing items held by those of a run that is cut anywhere leaves the whole items, as much of the next as was read, and those held behind it |
| `KadRoutingTable.KadRoutingTable.WriteFile` | kademlia/kadroutingtable.cpp:234-314 | the loops write the table in the format of `TableFile` |
| `KadRoutingTable.KadRoutingTable.WriteNodes` | kademlia/kadroutingtable.cpp:255-278 | the loop writes identifier, 16-bit length, address and both counters of each node |
| `KadRoutingTable.KadRoutingTable.ReadFile` | kademlia/kadroutingtable.cpp:133-232 | replaces the own identifier and the buckets as far as the file goes, keeps the rest, and returns 0 exactly when nothing failed |
| `KadRoutingTable.KadRoutingTable.ReplaceBucket` | kademlia/kadroutingtable.cpp:147-226 | one round puts a new bucket, filled as far as the file goes, in place of the old |
| `KadRoutingTable.KadRoutingTable.ReadNodeList` | kademlia/kadroutingtable.cpp:149-187 | a signed 32-bit count and that many nodes |
| `TableFile.NodeRoundTrip` | kademlia/kadroutingtable.cpp:154-187 | a node is read back if its address has 1 to 511 bytes and no NUL; otherwise reading fails or the address comes out different |
| `TableFile.BucketsRoundTrip` | kademlia/kadroutingtable.cpp:147-226 | reading written buckets restores every list in order and consumes exactly what was written, if and only if all addresses are of that kind |
| `TableFile.PrefixRejected` | kademlia/kadroutingtable.cpp:147-226 | every strict prefix of written buckets is rejected, without leaving the address buffer |
| `TableFile.CutBuckets` | kademlia/kadroutingtable.cpp:147-226 | of written buckets cut after any number of bytes, the whole ones replace those held, of the one that is cut the whole nodes are left, and the rest stay |
| `TableFile.NegativeCount` | kademlia/kadroutingtable.cpp:149-154 | a count with its highest bit set reads as an empty list |
| `FileLayout.FileIff` | kademlia/kadroutingtable.cpp:244-307 | a file is what `writeFile` writes exactly when it has the identifier at 0, then for each bucket the 4-byte number of its live nodes, these, the 4-byte number of cached nodes, these; each node with identifier, 2-byte length, address, 8 bytes of time and 4 of failures, little-endian |
| `FileLayout.FileSize` | kademlia/kadroutingtable.cpp:244-307 | the file has 16 bytes, 8 for each bucket, and 30 for each node beside its address |
| `FileLayout.CutShortMeans` | kademlia/kadroutingtable.cpp:154-224 | of a bucket that is cut the live nodes, and behind them the cached ones, are left that lie wholly before the cut, by their lengths |
| `TablePersistence.RestoredIffStorable` | kademlia/kadroutingtable.cpp:133-314 | a reachable table is restored from its file, into any table, if and only if every address in it has 1 to 511 bytes and no NUL; what is restored satisfies the table invariant |
| `TablePersistence.LaidOutIsRead` | kademlia/kadroutingtable.cpp:133-232 | any file laid out as a storable table is read back as its identifier and buckets; the own address stays |
| `TablePersistence.ShortFile` | kademlia/kadroutingtable.cpp:143-146 | a file of fewer than 16 bytes overwrites the beginning of the identifier, is rejected, and changes nothing else |
| `TablePersistence.TruncatedFileRejected` | kademlia/kadroutingtable.cpp:133-232 | every strict prefix of the file of such a table makes `readFile` return -1 |
| `FileVerdict.NodeRead` | kademlia/kadroutingtable.cpp:154-187 | of a node with any address below 65536 bytes: rejected if it is empty, past the end of the buffer from 512 bytes on, otherwise read with the address cut at its first NUL |
| `FileVerdict.FirstNodeDecides` | kademlia/kadroutingtable.cpp:133-314 | the verdict on the file of a reachable table is that on the first node, in file order, whose address is empty or has at least 512 bytes; if there is none, the file is read to its end and every address is cut at its first NUL |
| `FileVerdict.AcceptedIff` | kademlia/kadroutingtable.cpp:133-314 | the file is accepted if and only if every address has 1 to 511 bytes, whatever they are |
| `FileVerdict.OverrunIff` | kademlia/kadroutingtable.cpp:166-176 | when no address is empty, reading leaves the buffer if and only if some address has at least 512 bytes |
| `FileVerdict.AlteredIff` | kademlia/kadroutingtable.cpp:170-176 | the file is accepted and the table comes back altered if and only if every address has 1 to 511 bytes and some address contains a NUL |
| `FileHazards.UnstorableIsReached` | kademlia/kadroutingtable.cpp:59-66 | one push brings in any node whose address the format cannot hold, below 65536 bytes; the file written from it gets the verdict on that address, and the table is not restored |
| `FileHazards.CutFileRead` | kademlia/kadroutingtable.cpp:143-232 | of the file of a storable table, cut anywhere: exactly which identifier and which buckets result |
| `FileHazards.StopMeans` | kademlia/kadroutingtable.cpp:147-226 | which bucket is cut, by the lengths of those before it |
| `FileHazards.RefiledIff` | kademlia/kadroutingtable.cpp:143-153 | the nodes of a bucket are filed rightly for another identifier if and only if the two identifiers are nearer to each other than the bucket |
| `FileHazards.CutFileKeepsInvIff` | kademlia/kadroutingtable.cpp:133-232 | a table with nodes that reads such a file keeps the table invariant if and only if no bucket behind the cut has live nodes and an index up to that of the new identifier as seen from the old |
| `FileHazards.TruncatedFileIsHarmless` | sds_core/localnode.cpp:265-276 | read into the empty table of a first start, any part of such a file leaves a table that satisfies the table invariant |
| `FileHazards.InvariantCanBeLost` | kademlia/kadroutingtable.cpp:143-153 | a table reached by one push that loses its invariant to a file of 16 bytes |
| `NodesLookup.InsertMeans` | kademlia/kadnode.cpp:181-185 | a set ordered by `operator<` keeps one node for each time of last sight |
| `NodesLookup.Collect` | sds_core/localnode.cpp:97-108 | while no node of `lastSeen` 0 is probed, a reply adds a node of time 0 and without failures for exactly those of its pairs that have neither the own identifier nor the own address, in order and as often as they are named; otherwise it adds nothing |
| `NodesLookup.Round` | sds_core/localnode.cpp:90-113 | what one round adds to the probed, failed and discovered nodes |
| `NodesLookup.FreshFindsNothing` | sds_core/localnode.cpp:90-113 | a round that starts with a discovered node discovers nothing |
| `NodesLookup.NextAlpha` | sds_core/localnode.cpp:115-122 | the first three of the discovered nodes in an order of distance, or all there are |
| `NodesLookup.NextAlphaMeans` | sds_core/localnode.cpp:115-122 | there are three, or all, as often as they were discovered; nearest first, and none left out is nearer than one taken |
| `NodesLookup.QueryPhase` | sds_core/localnode.cpp:71-127 | for arbitrary replies, failures and cutoff the loop ends within two rounds and six queries, and yields exactly what one round over the closest nodes and at most one over the nearest discovered ones yield |
| `NodesLookup.QueriedMeans` | sds_core/localnode.cpp:71-127 | every queried node leaves a probed node of its time; every probed node was among the closest or was discovered |
| `NodesLookup.OneDiscovery` | sds_core/localnode.cpp:91-113 | at most one probed node was not among the closest nodes |
| `LookupRounds.FoundMeans` | sds_core/localnode.cpp:90-113 | a round finds exactly the nodes that its replies name, in order and as often as they are named, of those replies that came while no node of time 0 was probed |
| `LookupRounds.RoundsMean` | sds_core/localnode.cpp:71-127 | there is a second round exactly when the first found something before the cutoff; it asks three of the nodes found, or all, the nearest first |
| `LookupRounds.AskedMeans` | sds_core/localnode.cpp:91-93 | what is probed in the end is the first node of each time of last sight among those asked |
| `LookupRounds.FailingMeans` | sds_core/localnode.cpp:109-112 | a round fails exactly the nodes whose query threw |
| `LookupRounds.ThrewMeans` | sds_core/localnode.cpp:109-112 | and so do both rounds together |
| `NodesLookupTask.Record` | sds_core/localnode.cpp:129-140 | the pass is a removal for each failed and a push for each other probed node, in order; the count is that of pushes that return false |
| `NodesLookupTask.StepIds` | kademlia/kadroutingtable.cpp:59-80 | a table operation brings in no identifier but the pushed one |
| `NodesLookupTask.StepKeepsLive` | kademlia/kadroutingtable.cpp:59-80 | live nodes stay live through pushes of live nodes and removals of others |
| `NodesLookupTask.RestStaysSound` | sds_core/localnode.cpp:131-138 | nodes still to be recorded stay fit for recording through each step of the pass |
| `NodesLookupTask.RecordsKeep` | sds_core/localnode.cpp:129-140 | the pass keeps the table invariant and brings in only identifiers of probed nodes, even if the table changed during the queries, as long as the closest nodes are still live |
| `NodesLookupTask.AtMostOneDiscovery` | sds_core/localnode.cpp:129-142 | the count is at most 1 unless a probed node has this node's own address |
| `NodesLookupTask.DoNodesLookup` | sds_core/localnode.cpp:56-143 | search, query phase and pass, composed |
| `NodesLookupTask.LookupMeans` | sds_core/localnode.cpp:56-143 | a lookup keeps the table invariant, ends within two rounds and six queries, teaches the table at most one identifier whatever the replies name, and does nothing when it looks for `self` |
| `LookupRecords.AnsweredIsSeen` | sds_core/localnode.cpp:131-138 | a live node that answered has, after its push, the time of that push as its last sight, no failures, and the address it had |
| `LookupRecords.ThrownIsCounted` | sds_core/localnode.cpp:131-134 | a live node whose query threw gives way to the first cached node, or has one failure more if there is none |
| `LookupRecords.DiscoveriesMean` | sds_core/localnode.cpp:129-142 | the result is the number of probed nodes that did not fail and whose push returned false |
| `LookupRecords.CountsIff` | sds_core/localnode.cpp:135-137 | these are the nodes refused, and those that are not live and not cached beside 20 live nodes with nothing to evict |
| `LookupRecords.LookupStarts` | sds_core/localnode.cpp:63-64 | a lookup of another node asks three live nodes first, or all there are |
| `LookupRecords.LookupLearns` | sds_core/localnode.cpp:56-143 | a lookup that starts from nodes all seen before and finds others learns the nearest one found: if it answers and its bucket has fewer than 20 live nodes, it is live in the table afterwards |
| `NodesLookupTask.SpreadTargets` | sds_core/localnode.cpp:40-43 | the 128 targets: `self`, then one at each Hamming distance from 1 to 127, all of bucket 127 |
| `NodesLookupTask.Execute` | sds_core/localnode.cpp:29-51 | the task is a sequence of lookups of these targets until it is stopped; the branch for a full table is never taken |
| `NodesLookupTask.SameFirstQueries` | sds_core/localnode.cpp:40-64 | all lookups of a task but the first start with the same nodes as long as the table does not change |
| `NodesLookupTask.ExecutionMeans` | sds_core/localnode.cpp:29-51 | the table invariant holds after each lookup; one execution sends at most 762 queries and teaches the table at most 127 identifiers |
| `LocalNode.FindKClosestTo` | sds_core/localnode.cpp:518-530 | the map has exactly the nodes of the search, none lost to a shared identifier: 16 of them or all that are live, none for the own identifier; the result is their number |
| `Fnv.Fnv128String` | sds_core/simhash.cpp:25-72 | the output is that of the run of 128-bit values over the characters at odd positions before the first NUL at an even one, from the offset basis on |
| `Fnv.Limb3` | sds_core/simhash.cpp:45-50 | the product for limb 3 in 64 bits, for characters of either sign, and the bound of its carry |
| `Fnv.Limb2` | sds_core/simhash.cpp:46-52 | limb 2 with its carry fits 64 bits |
| `Fnv.Limb1` | sds_core/simhash.cpp:43-51 | limb 1 with the shifted limb 3 and its carry fits 64 bits |
| `Fnv.TopLimb` | sds_core/simhash.cpp:48-53 | limb 0, never masked, is right in its low 32 bits whatever wraps above |
| `Fnv.StepIsRound` | sds_core/simhash.cpp:41-55 | for any character the loop body takes the number V to (0x13B (V xor c) + 2^88 V) mod 2^128, where a character from 0x80 on flips bits 8 to 31 as well and leaves 2^64 - 0x13B 2^32 more |
| `Fnv.FoldRefines` | sds_core/simhash.cpp:41-55 | so does the loop, round by round |
| `Fnv.HashIsRun` | sds_core/simhash.cpp:19-69 | the output is all 128 bits, limb by limb, of the last value of that run, which starts at 0x6C62272E07BB014262B821756295C58D |
| `Fnv.HashedMeans` | sds_core/simhash.cpp:41-45 | the loop hashes exactly the characters at odd positions before the first NUL at an even one |
| `Fnv.ProgramHashes` | sds_core/simhash.cpp:25-72 | both together, for any memory that has such a NUL |
| `Fnv.EmptyHash` | sds_core/simhash.cpp:19-69 | the sixteen bytes for the empty string |
| `Fnv.EvenLengthHashesEverySecond` | sds_core/simhash.cpp:41-45 | for a string of even length exactly every second character is hashed |
| `Fnv.EvenPositionsIgnored` | sds_core/simhash.cpp:41-45 | strings of one even length that agree at the odd positions collide |
| `Fnv.AgreesWithFnv1aOnlyOnNul` | sds_core/simhash.cpp:42-54 | the round equals that of FNV-1a (section 2 of draft-eastlake-fnv) if and only if the character is NUL, characters from 0x80 on included |
| `SimHash.CountTokens` | sds_core/simhash.cpp:121-130 | the weights are the multiplicities of the tokens |
| `SimHash.AddVote` | sds_core/simhash.cpp:137-143 | each of the 128 accumulators gains or loses the weight, as a `char` |
| `SimHash.SignBits` | sds_core/simhash.cpp:146-153 | a bit is set exactly when its accumulator is positive |
| `SimHash.WeightedIsCount` | sds_core/simhash.cpp:121-144 | deduplicating and weighting comes to the same as counting every occurrence |
| `SimHash.Init` | sds_core/simhash.cpp:118-154 | each bit is the sign, in a `char`, of votes for minus votes against |
| `SimHash.WeightedBound` | sds_core/simhash.cpp:135-141 | votes of distinct tokens stay within plus and minus the number of occurrences |
| `SimHash.NoOverflow` | sds_core/simhash.cpp:132-141 | with at most 127 tokens the `char` of every bit holds the vote itself, whichever keys have voted so far |
| `SimHash.AccumulatorsAreVotes` | sds_core/simhash.cpp:132-144 | so after every key the accumulators of `init` are the votes |
| `SimHash.VotesCount` | sds_core/simhash.cpp:132-144 | the votes for a bit are the number of token occurrences whose hash has it |
| `SimHash.BitIffResidue` | sds_core/simhash.cpp:118-154 | for any number of tokens a bit of the identifier is set exactly when the occurrences that have it minus the others, modulo 256, lie from 1 to 127 |
| `SimHash.StrictMajority` | sds_core/simhash.cpp:118-154 | with at most 127 tokens a bit is set exactly when more than half of the occurrences have it |
| `SimHash.MajorityLostBeyond` | sds_core/simhash.cpp:132-141 | for every larger number, and any hash function under which two tokens differ in the bit, some number of each makes a majority that the overflow loses |
| `SimHash.UnanimousVote` | sds_core/simhash.cpp:132-151 | for n equal tokens a bit that all have is set if and only if n modulo 256 lies from 1 to 127, and one that none has if and only if it lies from 129 to 255 |
| `SimHash.MajorityIffAtMost127` | sds_core/simhash.cpp:118-154 | the vote on such a bit is a strict majority of n tokens if and only if n is at most 127 |
| `SimHash.FnvOfIsProgram` | sds_core/simhash.cpp:25-72 | the hash of a token of even length is what `fnv128String` puts out |
| `SimHash.WordsDiffer` | sds_core/simhash.cpp:25-72 | under `fnv128String` words like "aa" and "ab" differ in bit 97 |
| `SimHash.FnvMajorityIffAtMost127` | sds_core/simhash.cpp:118-154 | so with the program's own hash the bound is 127 |
| `SimHash.OrderDoesNotMatter` | sds_core/simhash.cpp:118-154 | the identifier depends on the multiset of tokens only |
| `SimHash.CountOnes` | sds_core/simhash.cpp:100-102 | clearing the lowest set bit until none is left counts the set bits |
| `SimHash.Distance` | sds_core/simhash.cpp:95-106 | the number of differing bits among 128 |
| `SimHash.DistanceCounts` | sds_core/simhash.cpp:95-106 | it is the number of positions at which the binary digits of the two values differ |
| `SimHash.DistanceIsMetric` | sds_core/simhash.cpp:95-106 | zero only between equal identifiers, symmetric, triangle inequality |
| `SdsBytesBuf.SdsBytesBuf.From` | common/sdsbytesbuf.cpp:13-17 | holds the given bytes, with the cursor behind them: nothing is left to read before a rewind |
| `SdsBytesBuf.SdsBytesBuf.Resize` | common/sdsbytesbuf.cpp:30-42 | the doubling loop ends, multiplies the capacity by a power of two, gives room for what was asked and less than twice as much, and keeps all bytes |
| `SdsBytesBuf.SdsBytesBuf.Reallocate` | common/sdsbytesbuf.cpp:37 | a wider block with the same bytes |
| `SdsBytesBuf.SdsBytesBuf.Rewind` | common/sdsbytesbuf.cpp:55-58 | everything written is left to read |
| `SdsBytesBuf.SdsBytesBuf.Write` | common/sdsbytesbuf.cpp:205-213 | puts the bytes at the cursor and lengthens the buffer by all of them: an append at the end, an overwrite after a rewind |
| `SdsBytesBuf.SdsBytesBuf.ReadBytes` | common/sdsbytesbuf.cpp:76-82 | all the bytes asked for, or none and the target unchanged |
| `SdsBytesBuf.SdsBytesBuf.WriteBytes` | common/sdsbytesbuf.cpp:70-74 | nothing for no bytes, otherwise a write at the cursor; at the end an append that keeps cursor and size equal and within capacity |
| `SdsBytesBuf.SdsBytesBuf.WriteUint` | common/sdsbytesbuf.cpp:126-168 | the same with the little-endian bytes of the number |
| `SdsBytesBuf.SdsBytesBuf.ReadUint` | common/sdsbytesbuf.cpp:131-175 | takes a little-endian number, or 0 when too few bytes are left |
| `SdsBytesBuf.SdsBytesBuf.WriteString` | common/sdsbytesbuf.cpp:104-107 | the same with the bytes of the string and a NUL |
| `SdsBytesBuf.SdsBytesBuf.ReadString` | common/sdsbytesbuf.cpp:109-124 | takes the bytes before the first NUL after the first byte; without one all that is left, the cursor moving one past the end |
| `SdsBytesBuf.SdsBytesBuf.ScanString` | common/sdsbytesbuf.cpp:111-117 | the loop finds that NUL or the end |
| `SdsBytesBuf.StringRoundTrip` | common/sdsbytesbuf.cpp:98-124 | a string is read back, up to its own end, if and only if it is not empty and has no NUL after its first byte |
| `SdsBytesBuf.UintRoundTrip` | common/sdsbytesbuf.cpp:126-175 | a number that fits its width is read back |
| `SdsBytesBuf.UintMeans` | common/sdsbytesbuf.cpp:131-175 | the number read has the bytes as its digits, least significant first; with too few of them it is 0 and the cursor stays |
| `SdsBytesBuf.BytesRoundTrip` | common/sdsbytesbuf.cpp:70-82 | bytes are read back into a target of their length |
| `SdsBytesBuf.RunAppends` | common/sdsbytesbuf.cpp:24-42 | over every run of typed writes before the first rewind the buffer holds all that was written, through every growth, with cursor equal to size and within the capacity |
| `SdsBytesBuf.FieldsRoundTrip` | common/sdsbytesbuf.cpp:70-175 | a list of fields is read back in order, up to its own end, if and only if each of them survives |
| `SdsBytesBuf.RunReadsBack` | common/sdsbytesbuf.cpp:55-213 | after a rewind the reads that match such a run return what was written in order and consume it, if and only if each field survives |
| `OrderedMap.Iterate` | p2p/p2p_common.cpp:81-84 | iteration yields the pairs of the map in key order |
| `OrderedMap.PairsInOrder` | p2p/p2p_common.cpp:81-84 | its keys grow strictly, and its pairs are those of the map |
| `OrderedMap.PairsRebuild` | p2p/p2p_common.cpp:69-75 | inserting the pairs of one map into another adds all of it |
| `OrderedMap.MapIntoMeans` | p2p/p2p_common.cpp:69-75 | of pairs inserted in any order the last of each key stays, beside what the map held under other keys |
| `OrderedMap.WrongPairShows` | p2p/p2p_common.cpp:69-75 | one wrong value among the inserted pairs makes the map differ, whatever else was inserted |
| `SearchEntry.SearchEntry.Write` | sds_core/searchentry.cpp:96-107 | appends the wire form of the entry, without the hash |
| `SearchEntry.SearchEntry.Read` | sds_core/searchentry.cpp:80-94 | every field is what the bytes say, the properties are replaced, and the hash is that of the new title |
| `SearchEntry.SearchEntry.ReadHead` | sds_core/searchentry.cpp:82-85 | the fields before the properties are what the bytes say |
| `SearchEntry.PropertiesRoundTrip` | sds_core/searchentry.cpp:86-106 | a property map is read back if and only if every value is nonempty and has no NUL after its first byte |
| `SearchEntry.EntryRoundTrip` | sds_core/searchentry.cpp:80-107 | an entry is read back, into any entry and with any bytes following, if and only if every string in it is of that kind |
| `WireLayout.EntryWritten` | sds_core/searchentry.cpp:96-107 | what is appended: the similarity hash at 0, the title and a NUL at 16, the url and a NUL, the kind, the 4-byte number of properties, then key, value and NUL of each in the order of the keys, and nothing more |
| `WireLayout.EntryRead` | sds_core/searchentry.cpp:80-94 | any bytes laid out so are read as those fields, whatever they are read into and whatever follows; of properties with one key the last counts |
| `P2PMessages.PingArgs.Write` | p2p/p2p_common.cpp:26-31 | appends nonce, address and identifier |
| `P2PMessages.PingArgs.Read` | p2p/p2p_common.cpp:19-24 | takes the three fields as the bytes say |
| `P2PMessages.PingRoundTrip` | p2p/p2p_common.cpp:19-31 | a ping is read back if and only if its address survives the wire |
| `WireLayout.PingWritten` | p2p/p2p_common.cpp:26-31 | what is appended: 8 bytes of nonce, the address and a NUL, the identifier |
| `WireLayout.PingRead` | p2p/p2p_common.cpp:19-24 | any bytes laid out so are read as those fields |
| `P2PMessages.FindResultsReply.WriteNearest` | p2p/p2p_common.cpp:78-85 | appends the size, cut to 32 bits, and the peers in identifier order |
| `P2PMessages.FindResultsReply.Write` | p2p/p2p_common.cpp:139-147 | appends the peers and then the entries |
| `P2PMessages.FindResultsReply.WriteResults` | p2p/p2p_common.cpp:143-146 | appends the size, cut to 32 bits, and the entries in order |
| `P2PMessages.FindResultsReply.ReadNearest` | p2p/p2p_common.cpp:66-76 | adds the peers read to those held |
| `P2PMessages.FindResultsReply.ReadResults` | p2p/p2p_common.cpp:131-136 | adds the entries read to those held, each with the hash of its title |
| `P2PMessages.FindResultsReply.Read` | p2p/p2p_common.cpp:127-137 | both, and the cursor stops behind the last entry |
| `P2PMessages.NearestRoundTrip` | p2p/p2p_common.cpp:66-85 | the peer map is read back into a fresh reply, up to its own end, if and only if all addresses survive |
| `P2PMessages.ResultsRoundTrip` | p2p/p2p_common.cpp:131-146 | so is the list of entries, in terms of all their strings |
| `P2PMessages.ReplyRoundTrip` | p2p/p2p_common.cpp:127-147 | a `FindResultsReply` read into a fresh object, with any bytes following, has the contents of the one written if and only if every string in it is nonempty and has no NUL after its first byte; and then reading stops where writing did |
| `WireLayout.ReplyWritten` | p2p/p2p_common.cpp:78-147 | what is appended: the 4-byte number of peers, identifier, address and NUL of each in the order of the identifiers, the 4-byte number of results, and these one by one |
| `WireLayout.ReplyRead` | p2p/p2p_common.cpp:66-137 | any bytes laid out so are read as those peers and results, and the cursor stops behind them |
| `P2PMessages.HashesArrive` | p2p/p2p_common.cpp:131-146 | results arrive with the hashes they had if and only if each hash was that of its title and every string survives |
| `CutReplies.RunCut` | p2p/p2p_common.cpp:69-75 | a run of items of which one is cut short inside a string is read up to the end if that is the last item, and leaves the buffer if it is not |
| `CutReplies.CutInAddress` | p2p/p2p_common.cpp:66-76 | a reply cut inside the address of a peer leaves the buffer |
| `CutReplies.CutInFirstNumber` | p2p/p2p_common.cpp:68 | a reply cut inside its first number is read as an empty one |
| `CutReplies.CutInResultsNumber` | p2p/p2p_common.cpp:127-131 | a reply cut inside the number of its results is read with all its peers and no results |
| `CutReplies.CutInTexts` | sds_core/searchentry.cpp:82-85 | an entry cut inside its title or url leaves the buffer |
| `CutReplies.CutInEntry` | sds_core/searchentry.cpp:86-91 | an entry cut inside a property is read with that value cut if it is the last, and leaves the buffer if it is not |
| `CutReplies.CutInResults` | p2p/p2p_common.cpp:131-136 | and so for the reply: read up to its end if the entry is the last one, past the buffer otherwise |
| `CutReplies.LastNulMissing` | p2p/p2p_common.cpp:127-137 | a reply that ends in a property is read whole without its last NUL |

## Left out

Parts of the repository:

- Sockets, threads, mutexes, HTTP, Tor, SOCKS5, SAM, the web interface, the crawler, configuration and logging. Replies, failures and the 60 second cutoff of a lookup are arbitrary inputs.
- `SearchEntriesDB` and `LocalNode::doSearch` and `publishResults`: a foreign database, and sets keyed by time of last sight that give no clean guarantee.
- The find-results call from end to end: the client sends the function code of find-node (p2p/sdsp2pclient.cpp:83).
- `StringUtil`, `SearchEntry::matchesQuery`, `hasValidSize`, `removeProperty`, `SdsBytesBuf::zero` and its boolean fields, `PingReply`, `FindNodeArgs`, `FindResultsArgs`, `StoreResultArgs`: each is one call of a member modelled here, or plays no part in the properties above.
- The clock, `/dev/urandom`, `rand` and SHA-256 are parameters; token hashes are any function in `SimHash`.

What the model assumes of its callers, where the source goes wrong otherwise:

- Bucket and table runs push nodes with fewer than 5 failures, or copies of live nodes; other pushes can put stale nodes into the cache, which the bucket invariant rules out.
- Failure counters do not reach 2^31 and capacities do not reach 2^64. `TablePersistence` asks that counters fit their C types.
- SdsBytesBuf.SdsBytesBuf.WriteBytes, `WriteUint` and `WriteString`: not called with the cursor one past the end, where `readString` can leave it; the source would then copy past the room it made.
- KadId.Height: needs a nonzero identifier; for zero the source reads before the array. All calls in the table satisfy it.
- KadId.LessThan: on equal identifiers the source compares a byte before the array with itself; the meant result, false, is modelled.
- KadId.IdNbitsFarFrom: distances outside 0 to 128 make the source index or shift out of range.
- KadRoutingTable.KadRoutingTable.ReadFile: not given files that overrun the 512-byte address buffer; `TableFile.ReadNode` says which they are. Failures of `fopen` and `fwrite` are not modelled, and the host is little-endian.
- SdsBytesBuf.SdsBytesBuf.Resize: not called on an allocated buffer of capacity 0, where doubling never ends; that takes a first write of no bytes.
- SdsBytesBuf.SdsBytesBuf.ReadString: the source may look at one byte behind the last before it stops there; this has no influence on the result and is not modelled.
- P2PMessages.FindResultsReply.Read: not given bytes whose reading runs past the end by more than the one step `readString` takes, where the unsigned remainder wraps around. Sizes of 2^32 and more are cut when written, and outside the round trips.
- Fnv.Fnv128String: the argument points to memory that has a NUL at some even position; for a string of odd length the source reads beyond its end to find one, and what it hashes then is part of the argument here.
- `char` is signed and `int` has 32 bits, as on the hosts the program is built for.
- NodesLookupTask.DoNodesLookup: no other thread changes the table between its two locked sections; `NodesLookupTask.RecordsKeep` covers changes that leave the queried nodes live.
- NodesLookupTask.ExecutionMeans: time stamps are not negative.

What theorems do not cover:

- FileVerdict.FirstNodeDecides: addresses of 65536 bytes and more, whose length field wraps around and shifts all that follows; `TablePersistence.RestoredIffStorable` covers them.
- CutReplies.CutInResults: replies cut inside an identifier, a similarity hash or the count of properties, where the bytes that are left are taken for strings and their values decide.

What the form of the model does not capture:

- `KadNode`, `KadId` and the entries inside messages are values: vectors hold copies in the source as well. Uninitialised identifier bytes are the parameter `junk`.
- The order among nodes of equal `lastSeen` stays open: `std::sort` may return any sorted permutation.
