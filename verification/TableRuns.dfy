/** Histories of the whole table: where nodes live, and how many there can be. */
module TableRuns {
  import opened Bits
  import opened KadId
  import opened KadNode
  import opened KadBucket
  import opened KadRoutingTable
  import opened Cardinality

  datatype TableEvent = Push(kn: KadNode, now: int) | Remove(id: KadId) | SetAddress(address: Bytes)

  ghost predicate Step(t: Table, e: TableEvent, t': Table)
    requires t.WellFormed()
  {
    match e
    case Push(kn, now) => TablePush(t, kn, now, t')
    case Remove(id) => TableRemove(t, id, t')
    case SetAddress(address) => t' == WithAddress(t, address)
  }

  /** What the source demands of a pushed node, see `KadBucket.Admissible`. */
  ghost predicate AdmissiblePush(t: Table, kn: KadNode)
    requires t.WellFormed()
  {
    Refuses(t, kn) || Admissible(t.buckets[Home(t, kn.id)], kn)
  }

  ghost predicate Allowed(t: Table, e: TableEvent)
    requires t.WellFormed()
  {
    e.Push? ==> AdmissiblePush(t, e.kn)
  }

  /** A history from an empty table with any own node. */
  ghost predicate IsRun(states: seq<Table>, events: seq<TableEvent>) {
    && |states| == |events| + 1
    && states[0].buckets == EmptyBuckets()
    && (forall k | 0 <= k < |states| :: states[k].WellFormed())
    && forall k | 0 <= k < |events| ::
         Allowed(states[k], events[k]) && Step(states[k], events[k], states[k + 1])
  }

  // The partition

  /** Every node of bucket `h`, live or cached, lies at a distance from `self` of height `h`. */
  ghost predicate FiledUnder(self: KadId, b: Bucket, h: int) {
    forall n | n in b.All() :: BucketOf(self, n.id) == h
  }

  ghost predicate TableInv(t: Table) {
    && t.WellFormed()
    && forall h | 0 <= h < ID_BITS :: Inv(t.buckets[h]) && FiledUnder(t.self.id, t.buckets[h], h)
  }

  lemma PushKeepsFiling(self: KadId, b: Bucket, h: int, kn: KadNode, now: int, b': Bucket)
    requires FiledUnder(self, b, h) && BucketOf(self, kn.id) == h && PushStep(b, kn, now, b')
    ensures FiledUnder(self, b', h)
  {
    forall n | n in b'.All()
      ensures BucketOf(self, n.id) == h
    {
      var m := PushOrigin(b, kn, now, b', n);
    }
  }

  lemma RemoveKeepsFiling(self: KadId, b: Bucket, h: int, id: KadId, b': Bucket)
    requires FiledUnder(self, b, h) && RemoveStep(b, id, b')
    ensures FiledUnder(self, b', h)
  {
    forall n | n in b'.All()
      ensures BucketOf(self, n.id) == h
    {
      var m := RemoveOrigin(b, id, b', n);
    }
  }

  /** One step keeps the table invariant. */
  lemma StepKeepsTableInv(t: Table, e: TableEvent, t': Table)
    requires TableInv(t) && Allowed(t, e) && Step(t, e, t')
    ensures TableInv(t')
  {
    match e
    case Push(kn, now) =>
      if !Refuses(t, kn) {
        var h := Home(t, kn.id);
        PushKeepsInv(t.buckets[h], kn, now, t'.buckets[h]);
        PushKeepsFiling(t.self.id, t.buckets[h], h, kn, now, t'.buckets[h]);
      }
    case Remove(id) =>
      if t.self.id != id {
        var h := Home(t, id);
        RemoveKeepsInv(t.buckets[h], id, t'.buckets[h]);
        RemoveKeepsFiling(t.self.id, t.buckets[h], h, id, t'.buckets[h]);
      }
    case SetAddress(_) =>
  }

  /** In every reachable table each node sits in the bucket of its distance from `self`, and each
      bucket keeps its own invariant. */
  lemma {:induction false} RunKeepsTableInv(states: seq<Table>, events: seq<TableEvent>, k: nat)
    requires IsRun(states, events) && k <= |events|
    ensures TableInv(states[k])
  {
    if k > 0 {
      RunKeepsTableInv(states, events, k - 1);
      StepKeepsTableInv(states[k - 1], events[k - 1], states[k]);
    }
  }

  /** `self` is nowhere in the table, and any other identifier is in it at most once, live and
      cached lists of all buckets taken together. */
  lemma IdAtMostOnce(t: Table, h: nat, i: nat, g: nat, j: nat)
    requires TableInv(t) && h < ID_BITS && g < ID_BITS
    requires i < |t.buckets[h].All()| && j < |t.buckets[g].All()|
    ensures t.buckets[h].All()[i].id != t.self.id
    ensures t.buckets[h].All()[i].id == t.buckets[g].All()[j].id ==> h == g && i == j
  {
    var n, m := t.buckets[h].All()[i], t.buckets[g].All()[j];
    assert n in t.buckets[h].All() && m in t.buckets[g].All();
    BucketRange(t.self.id, n.id);
    assert DistinctIds(t.buckets[h].All());
  }

  /** The scan of `hasNode` over all 128 buckets is a lookup in the home bucket. */
  lemma ScanIsHomeLookup(t: Table, id: KadId)
    requires TableInv(t)
    ensures (exists b | b in t.buckets :: b.IsLive(id))
            <==> id != t.self.id && t.buckets[Home(t, id)].IsLive(id)
  {
    forall b | b in t.buckets && b.IsLive(id)
      ensures id != t.self.id && b == t.buckets[Home(t, id)]
    {
      var h :| 0 <= h < |t.buckets| && t.buckets[h] == b;
      assert b.nodes[Find(b.nodes, id)] in b.All();
      BucketRange(t.self.id, id);
    }
  }

  // Capacity

  function DistancesFrom(self: KadId, ns: seq<KadNode>): set<int> {
    set n | n in ns :: Dist(self, n.id)
  }

  lemma {:induction false} DistinctDistances(self: KadId, ns: seq<KadNode>)
    requires DistinctIds(ns)
    ensures |DistancesFrom(self, ns)| == |ns|
  {
    if ns != [] {
      var rest, last := ns[..|ns| - 1], ns[|ns| - 1];
      assert ns == rest + [last];
      DistinctDistances(self, rest);
      LastDistanceIsNew(self, rest, last);
    }
  }

  lemma LastDistanceIsNew(self: KadId, rest: seq<KadNode>, last: KadNode)
    requires forall j | 0 <= j < |rest| :: rest[j].id != last.id
    ensures Dist(self, last.id) !in DistancesFrom(self, rest)
    ensures DistancesFrom(self, rest + [last]) == DistancesFrom(self, rest) + {Dist(self, last.id)}
  {
    forall n | n in rest
      ensures Dist(self, n.id) != Dist(self, last.id)
    {
      DistIsMetric(self, n.id, last.id);
    }
    assert forall n :: n in rest + [last] <==> n in rest || n == last;
  }

  /** Bucket `h` never holds more nodes, live and cached together, than there are distances of
      height `h`: 2^h of them. */
  lemma BucketCapacity(t: Table, h: nat)
    requires TableInv(t) && h < ID_BITS
    ensures |t.buckets[h].nodes| + |t.buckets[h].replacements| <= Pow2(h)
  {
    var all := t.buckets[h].All();
    DistinctDistances(t.self.id, all);
    forall n | n in all
      ensures Pow2(h) <= Dist(t.self.id, n.id) < Pow2(h) + Pow2(h)
    {
      BucketRange(t.self.id, n.id);
    }
    SubsetCardinality(DistancesFrom(t.self.id, all), Range(Pow2(h), Pow2(h)));
  }

  /** So `isFull` is false of every reachable table, and the lookup task never takes the branch
      that refreshes old buckets. */
  lemma NeverFull(t: Table)
    requires TableInv(t)
    ensures !(forall b | b in t.buckets :: |b.nodes| == BUCKET_MAX)
  {
    BucketCapacity(t, 0);
    assert t.buckets[0] in t.buckets && Pow2(0) == 1;
  }

  /** `getAllNodes`: the live lists of the first `k` buckets, in order. */
  function AllLive(buckets: seq<Bucket>, k: nat): seq<KadNode>
    requires k <= |buckets|
  {
    if k == 0 then [] else AllLive(buckets, k - 1) + buckets[k - 1].nodes
  }

  lemma {:induction false} LiveBound(t: Table, k: nat)
    requires TableInv(t) && k <= ID_BITS
    ensures |AllLive(t.buckets, k)| < Pow2(k)
    ensures k >= 5 ==> |AllLive(t.buckets, k)| <= 31 + 20 * (k - 5)
  {
    if k > 0 {
      LiveBound(t, k - 1);
      BucketCapacity(t, k - 1);
      assert Inv(t.buckets[k - 1]);
      assert Pow2(5) == 32;
    }
  }

  /** No reachable table holds more than 1 + 2 + 4 + 8 + 16 + 123 * 20 live nodes. */
  lemma TableCapacity(t: Table)
    requires TableInv(t)
    ensures |AllLive(t.buckets, ID_BITS)| <= 2491
  {
    LiveBound(t, ID_BITS);
  }
}
