/** What one push or removal does to a bucket, list by list, in terms of the nodes alone. */
module BucketSteps {
  import opened KadId
  import opened KadNode
  import opened Sorting
  import opened KadBucket

  /** No node of the list has the identifier. */
  ghost predicate Unknown(ns: seq<KadNode>, id: KadId) {
    forall n | n in ns :: n.id != id
  }

  /** `i` is the place of the first node with the identifier. */
  ghost predicate FirstOf(ns: seq<KadNode>, id: KadId, i: nat) {
    i < |ns| && ns[i].id == id && forall j | 0 <= j < i :: ns[j].id != id
  }

  ghost predicate SameNodes(a: seq<KadNode>, b: seq<KadNode>) {
    multiset(a) == multiset(b)
  }

  /** `after` is `before` with `n` in the place of the node at `i`, in any order. */
  ghost predicate Exchanged(before: seq<KadNode>, i: nat, n: KadNode, after: seq<KadNode>) {
    i < |before| && multiset(after) == multiset(before) - multiset{before[i]} + multiset{n}
  }

  /** Most recently seen first. */
  ghost predicate RecentFirst(ns: seq<KadNode>) {
    forall i, j | 0 <= i < j < |ns| :: ns[i].lastSeen >= ns[j].lastSeen
  }

  lemma NotFound(ns: seq<KadNode>, id: KadId)
    ensures Find(ns, id) == |ns| <==> Unknown(ns, id)
  {
    if Find(ns, id) < |ns| {
      assert ns[Find(ns, id)] in ns;
    } else {
      FindMissing(ns, id);
    }
  }

  lemma FoundAt(ns: seq<KadNode>, id: KadId, i: nat)
    requires FirstOf(ns, id, i)
    ensures Find(ns, id) == i
  {
  }

  lemma PutAt(ns: seq<KadNode>, i: nat, n: KadNode)
    requires i < |ns|
    ensures Exchanged(ns, i, n, ns[i := n])
    ensures Exchanged(ns, i, n, Without(ns, i) + [n])
  {
    WithoutMeans(ns, i);
  }

  // pushNode

  lemma AfterPush(b: Bucket, kn: KadNode, now: int, b': Bucket)
    requires PushStep(b, kn, now, b')
    ensures SameNodes(Pushed(b, kn, now).nodes, b'.nodes)
    ensures SameNodes(Pushed(b, kn, now).replacements, b'.replacements)
    ensures RecentFirst(b'.nodes) && RecentFirst(b'.replacements)
  {
    OrderIsRecent(b'.nodes);
    OrderIsRecent(b'.replacements);
  }

  lemma OrderIsRecent(ns: seq<KadNode>)
    requires SortedBy(ns, Recency)
    ensures RecentFirst(ns)
  {
    forall i, j | 0 <= i < j < |ns|
      ensures ns[i].lastSeen >= ns[j].lastSeen
    {
      assert Recency(ns[i]) <= Recency(ns[j]);
    }
  }

  /** A live node that is pushed again is seen now and has no failures; it keeps the address it had. */
  lemma PushRefreshes(b: Bucket, kn: KadNode, now: int, b': Bucket, i: nat)
    requires PushStep(b, kn, now, b') && FirstOf(b.nodes, kn.id, i)
    ensures Exchanged(b.nodes, i, KadNode(kn.id, b.nodes[i].address, now, 0), b'.nodes)
    ensures SameNodes(b.replacements, b'.replacements)
    ensures RecentFirst(b'.nodes) && RecentFirst(b'.replacements)
  {
    AfterPush(b, kn, now, b');
    FoundAt(b.nodes, kn.id, i);
    PutAt(b.nodes, i, KadNode(kn.id, b.nodes[i].address, now, 0));
  }

  /** While there is room an unknown node becomes live, as it was pushed. */
  lemma PushFills(b: Bucket, kn: KadNode, now: int, b': Bucket)
    requires PushStep(b, kn, now, b') && Unknown(b.nodes, kn.id) && |b.nodes| < 20
    ensures multiset(b'.nodes) == multiset(b.nodes) + multiset{kn}
    ensures SameNodes(b.replacements, b'.replacements)
    ensures RecentFirst(b'.nodes) && RecentFirst(b'.replacements)
  {
    AfterPush(b, kn, now, b');
    NotFound(b.nodes, kn.id);
  }

  /** In a full bucket an unknown node takes the place of the first of those with the most failures, if
      these are 5 or more. */
  lemma PushEvicts(b: Bucket, kn: KadNode, now: int, b': Bucket, k: nat)
    requires PushStep(b, kn, now, b') && Unknown(b.nodes, kn.id) && |b.nodes| >= 20
    requires k < |b.nodes| && b.nodes[k].stales >= 5
    requires forall j | 0 <= j < |b.nodes| :: b.nodes[j].stales <= b.nodes[k].stales
    requires forall j | 0 <= j < k :: b.nodes[j].stales < b.nodes[k].stales
    ensures Exchanged(b.nodes, k, kn, b'.nodes)
    ensures SameNodes(b.replacements, b'.replacements)
    ensures RecentFirst(b'.nodes) && RecentFirst(b'.replacements)
  {
    AfterPush(b, kn, now, b');
    NotFound(b.nodes, kn.id);
    var s := Stalest(b.nodes);
    assert b.nodes[k] in b.nodes;
    assert s == k;
    PutAt(b.nodes, k, kn);
  }

  /** No live node has failed 5 times. */
  ghost predicate NoneStale(ns: seq<KadNode>) {
    forall n | n in ns :: n.stales < 5
  }

  lemma NothingToEvict(ns: seq<KadNode>)
    ensures Stalest(ns) == |ns| <==> NoneStale(ns)
  {
    if Stalest(ns) < |ns| {
      assert ns[Stalest(ns)] in ns;
    }
  }

  /** Otherwise the live nodes stay, and the node goes to the cache: one that is cached is seen now and
      keeps its address and counter; another is added, in the place of the last if the cache is full. */
  lemma PushCaches(b: Bucket, kn: KadNode, now: int, b': Bucket)
    requires PushStep(b, kn, now, b')
    requires Unknown(b.nodes, kn.id) && |b.nodes| >= 20 && NoneStale(b.nodes)
    ensures SameNodes(b.nodes, b'.nodes)
    ensures forall c: nat | FirstOf(b.replacements, kn.id, c) ::
              Exchanged(b.replacements, c,
                        KadNode(kn.id, b.replacements[c].address, now, b.replacements[c].stales), b'.replacements)
    ensures Unknown(b.replacements, kn.id) && |b.replacements| < 20 ==>
              multiset(b'.replacements) == multiset(b.replacements) + multiset{kn}
    ensures Unknown(b.replacements, kn.id) && |b.replacements| >= 20 ==>
              Exchanged(b.replacements, |b.replacements| - 1, kn, b'.replacements)
    ensures RecentFirst(b'.nodes) && RecentFirst(b'.replacements)
  {
    AfterPush(b, kn, now, b');
    NotFound(b.nodes, kn.id);
    NothingToEvict(b.nodes);
    CacheIsPushed(b, kn, now);
    CachedIsSeen(b.replacements, kn, now, Cached(b.replacements, kn, now));
    CachedIsAdded(b.replacements, kn, now, Cached(b.replacements, kn, now));
  }

  /** What becomes of the cache, before it is sorted again. */
  function Cached(held: seq<KadNode>, kn: KadNode, now: int): seq<KadNode> {
    var c := Find(held, kn.id);
    if c < |held| then held[c := held[c].SeenNow(now)]
    else if |held| < BUCKET_MAX then held + [kn]
    else held[..|held| - 1] + [kn]
  }

  lemma CacheIsPushed(b: Bucket, kn: KadNode, now: int)
    requires Find(b.nodes, kn.id) == |b.nodes| == Stalest(b.nodes) && |b.nodes| >= 20
    ensures Pushed(b, kn, now) == b.(replacements := Cached(b.replacements, kn, now))
  {
  }

  lemma CachedIsSeen(held: seq<KadNode>, kn: KadNode, now: int, after: seq<KadNode>)
    requires after == Cached(held, kn, now)
    ensures forall c: nat | FirstOf(held, kn.id, c) ::
              Exchanged(held, c, KadNode(kn.id, held[c].address, now, held[c].stales), after)
  {
    forall c: nat | FirstOf(held, kn.id, c)
      ensures Exchanged(held, c, KadNode(kn.id, held[c].address, now, held[c].stales), after)
    {
      FoundAt(held, kn.id, c);
      PutAt(held, c, KadNode(kn.id, held[c].address, now, held[c].stales));
    }
  }

  lemma CachedIsAdded(held: seq<KadNode>, kn: KadNode, now: int, after: seq<KadNode>)
    requires after == Cached(held, kn, now)
    ensures Unknown(held, kn.id) && |held| < 20 ==> multiset(after) == multiset(held) + multiset{kn}
    ensures Unknown(held, kn.id) && |held| >= 20 ==> Exchanged(held, |held| - 1, kn, after)
  {
    NotFound(held, kn.id);
    if Unknown(held, kn.id) && |held| >= 20 {
      PutAt(held, |held| - 1, kn);
      assert Without(held, |held| - 1) == held[..|held| - 1];
    }
  }

  /** `pushNode` returns true for a live node, and for a cached one that finds a full bucket with nothing
      to evict. */
  lemma PushFindsIff(b: Bucket, kn: KadNode)
    ensures PushFinds(b, kn)
            <==> !Unknown(b.nodes, kn.id)
                 || (|b.nodes| >= 20 && NoneStale(b.nodes) && !Unknown(b.replacements, kn.id))
  {
    NotFound(b.nodes, kn.id);
    NotFound(b.replacements, kn.id);
    NothingToEvict(b.nodes);
  }

  // removeNode

  /** An identifier that is not live, cached or not, changes nothing. */
  lemma RemoveIgnores(b: Bucket, id: KadId, b': Bucket)
    requires RemoveStep(b, id, b') && Unknown(b.nodes, id)
    ensures b' == b
  {
    NotFound(b.nodes, id);
  }

  /** With an empty cache a live node stays where it is, with one failure more. */
  lemma RemoveCounts(b: Bucket, id: KadId, b': Bucket, i: nat)
    requires RemoveStep(b, id, b') && FirstOf(b.nodes, id, i) && b.replacements == []
    ensures |b'.nodes| == |b.nodes| && b'.replacements == []
    ensures forall j | 0 <= j < |b.nodes| && j != i :: b'.nodes[j] == b.nodes[j]
    ensures b'.nodes[i] == KadNode(id, b.nodes[i].address, b.nodes[i].lastSeen, b.nodes[i].stales + 1)
  {
    FoundAt(b.nodes, id, i);
  }

  /** Otherwise the first cached node takes its place. */
  lemma RemovePromotes(b: Bucket, id: KadId, b': Bucket, i: nat)
    requires RemoveStep(b, id, b') && FirstOf(b.nodes, id, i) && b.replacements != []
    ensures Exchanged(b.nodes, i, b.replacements[0], b'.nodes)
    ensures multiset(b'.replacements) == multiset(b.replacements) - multiset{b.replacements[0]}
    ensures RecentFirst(b'.nodes) && RecentFirst(b'.replacements)
  {
    FoundAt(b.nodes, id, i);
    OrderIsRecent(b'.nodes);
    OrderIsRecent(b'.replacements);
    PutAt(b.nodes, i, b.replacements[0]);
    WithoutMeans(b.replacements, 0);
    assert Without(b.replacements, 0) == b.replacements[1..];
  }
}
