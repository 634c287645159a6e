/** Where `ktable.dat` lets the program down, in tables that pushes reach. */
module FileHazards {
  import opened Bits
  import opened KadId
  import opened KadNode
  import opened KadBucket
  import opened Codec
  import opened Layout
  import opened TableFile
  import opened FileLayout
  import opened KadRoutingTable
  import opened TableRuns
  import opened TablePersistence
  import opened FileVerdict
  import opened FirstPushes

  // Addresses that the format cannot hold

  /** The file of a table in which `n` is alone. */
  lemma OnlyOneHeld(t: Table, h: nat, n: KadNode)
    requires h < ID_BITS && FitsTypes(n) && t.buckets == EmptyBuckets()[h := Holding(n)]
    ensures CountersFit(t) && HoldsNode(t, n) && forall m | HoldsNode(t, m) :: m == n
  {
    assert t.buckets[h] in t.buckets && n in t.buckets[h].All();
    forall m | HoldsNode(t, m)
      ensures m == n
    {
      var b :| b in t.buckets && m in b.All();
      var g :| 0 <= g < |t.buckets| && t.buckets[g] == b;
      assert g != h ==> b == EMPTY_BUCKET;
    }
    forall b, m | b in t.buckets && m in b.All()
      ensures FitsTypes(m)
    {
      assert HoldsNode(t, m);
    }
  }

  lemma OnlyVerdict(ns: seq<KadNode>, n: KadNode)
    requires n in ns && forall m | m in ns :: m == n
    ensures FirstVerdict(ns) == Verdict(n)
  {
    assert ns[0] in ns;
    if Verdict(n) != Good {
      FirstVerdictDecides(ns, 0);
    } else {
      FirstVerdictMeans(ns);
    }
  }

  lemma VerdictOnOne(t: Table, n: KadNode, held: Table)
    requires TableInv(t) && CountersFit(t) && held.WellFormed() && |n.address| < LENGTH_LIMIT
    requires HoldsNode(t, n) && forall m | HoldsNode(t, m) :: m == n
    ensures ReadTable(held, FileOf(t)).status == Verdict(n)
  {
    forall b, m | b in t.buckets && m in b.All()
      ensures |m.address| < LENGTH_LIMIT
    {
      assert HoldsNode(t, m);
    }
    NodesAreHeld(t);
    OnlyVerdict(NodesInOrder(t), n);
    FirstNodeDecides(t, held);
  }

  /** Every address that the format cannot hold is taken into the table by a push. The file written from
      it is rejected at the next start if the address is empty, and overruns the buffer if it has at
      least 512 bytes; with a NUL among fewer bytes it is accepted and the table altered. */
  lemma UnstorableIsReached(self: KadNode, n: KadNode, held: Table) returns (states: seq<Table>, events: seq<TableEvent>)
    requires self.id != n.id && self.address != n.address && n.stales < STALES_THR
    requires FitsTypes(n) && |n.address| < LENGTH_LIMIT && !Storable(n)
    requires held.WellFormed()
    ensures IsRun(states, events) && events == [Push(n, 0)] && CountersFit(states[1])
    ensures var r := ReadTable(held, FileOf(states[1]));
            r.status == Verdict(n) && !Restored(states[1], r)
  {
    BucketRange(self.id, n.id);
    var t0 := Table(self, EmptyBuckets());
    var h := Home(t0, n.id);
    var t1 := Table(self, t0.buckets[h := Holding(n)]);
    FirstPush(t0, n, 0, t1);
    states, events := [t0, t1], [Push(n, 0)];
    RunKeepsTableInv(states, events, 1);
    OnlyOneHeld(t1, h, n);
    VerdictOnOne(t1, n, held);
    RestoredIffStorable(t1, held);
    StorableNodes(t1);
  }

  // A table that already holds nodes

  /** Nodes at height `g` from one identifier are at that height from another exactly when the two are
      nearer to each other than that. */
  lemma RefiledIff(was: KadId, now: KadId, b: Bucket, g: nat)
    requires Inv(b) && FiledUnder(was, b, g)
    ensures FiledUnder(now, b, g) <==> b.nodes == [] || BucketOf(was, now) < g
  {
    forall n | n in b.All()
      ensures BucketOf(now, n.id) == g <==> BucketOf(was, now) < g
    {
      BucketUltrametric(now, was, n.id);
      BucketRange(now, was);
    }
    if b.nodes != [] {
      assert b.nodes[0] in b.All();
    }
  }

  /** Where reading a file of `t` breaks off that is cut after `k` bytes: the bucket that is cut, or none
      if the identifier is. */
  function Stop(t: Table, k: nat): int {
    if k < ID_LENGTH then -1 else WholeItems(BucketBytes, t.buckets, k - ID_LENGTH)
  }

  /** The identifier afterwards: the file's, or the beginning of it over the one held. */
  function IdAfter(t: Table, held: Table, k: nat): KadId {
    if k < ID_LENGTH then t.self.id[..k] + held.self.id[k..] else t.self.id
  }

  /** What `n` bytes of written buckets leave: the whole ones before the cut, the whole nodes of the one that
      is cut, and behind it what was held. */
  ghost predicate LeftOf(bs: seq<Bucket>, n: nat, held: seq<Bucket>, now: seq<Bucket>) {
    var stop := WholeItems(BucketBytes, bs, n);
    && |now| == |held| == |bs|
    && (forall g | 0 <= g < stop :: now[g] == bs[g])
    && (stop < |bs| ==> now[stop] == CutShort(bs[stop], n - |WriteMany(BucketBytes, bs[..stop])|))
    && (forall g | stop < g < |bs| :: now[g] == held[g])
  }

  /** What `k` bytes of the file of `t` leave of the table held. */
  ghost predicate LeftBehind(t: Table, held: Table, k: nat, r: Table) {
    && r.self == held.self.(id := IdAfter(t, held, k))
    && if k < ID_LENGTH then r.buckets == held.buckets else LeftOf(t.buckets, k - ID_LENGTH, held.buckets, r.buckets)
  }

  /** The table that results from a file that is cut anywhere. */
  lemma CutFileRead(t: Table, held: Table, k: nat)
    requires TableInv(t) && CountersFit(t) && held.WellFormed()
    ensures TableStorable(t) && k <= |FileOf(t)| ==> LeftBehind(t, held, k, ReadTable(held, FileOf(t)[..k]).value)
  {
    if TableStorable(t) && k <= |FileOf(t)| {
      if k < ID_LENGTH {
        assert FileOf(t)[..k] == t.self.id[..k];
      } else {
        BucketsFit(t);
        BucketsBehindCut(t.self.id, t.buckets, held, k);
        ReplacedIsLeft(t.buckets, held.buckets, k - ID_LENGTH);
      }
    }
  }

  lemma ReplacedIsLeft(bs: seq<Bucket>, held: seq<Bucket>, n: nat)
    requires |held| == |bs|
    ensures LeftOf(bs, n, held, CutReplaced(BucketBytes, CutShort, bs, held, n))
  {
    PlacesOf(BucketBytes, CutShort, bs, held, n);
  }

  lemma PlacesOf(writer: Bucket -> Bytes, part: (Bucket, int) -> Bucket, bs: seq<Bucket>, held: seq<Bucket>, n: nat)
    requires |held| == |bs|
    ensures var w, r := WholeItems(writer, bs, n), CutReplaced(writer, part, bs, held, n);
            && |r| == |bs|
            && (forall g | 0 <= g < w :: r[g] == bs[g])
            && (w < |bs| ==> r[w] == part(bs[w], n - |WriteMany(writer, bs[..w])|))
            && (forall g | w < g < |bs| :: r[g] == held[g])
  {
  }

  /** Which bucket is cut, by the lengths of those before it. */
  lemma StopMeans(bs: seq<Bucket>, n: nat)
    ensures var stop := WholeItems(BucketBytes, bs, n);
            RunSize(BucketSize, bs[..stop]) <= n && (stop < |bs| ==> n < RunSize(BucketSize, bs[..stop + 1]))
  {
    var stop := WholeItems(BucketBytes, bs, n);
    WholeItemsMean(BucketBytes, bs, n);
    WrittenSize(bs[..stop]);
    if stop < |bs| {
      WrittenSize(bs[..stop + 1]);
    }
  }

  lemma WrittenSize(bs: seq<Bucket>)
    ensures |WriteMany(BucketBytes, bs)| == RunSize(BucketSize, bs)
  {
    BucketsAreMany(bs);
    BucketsIff([], 0, bs);
  }

  lemma BucketsBehindCut(id: KadId, bs: seq<Bucket>, held: Table, k: nat)
    requires |held.buckets| == |bs| && ID_LENGTH <= k && forall b | b in bs :: BucketFitsTypes(b) && BucketStorable(b)
    requires k <= |TableBytes(id, bs)|
    ensures ReadTable(held, TableBytes(id, bs)[..k]).value
            == Table(held.self.(id := id), CutReplaced(BucketBytes, CutShort, bs, held.buckets, k - ID_LENGTH))
  {
    ReadCut(id, BucketsBytes(bs), held, k);
    CutBuckets(bs, held.buckets, k - ID_LENGTH);
  }

  lemma ReadCut(id: KadId, buckets: Bytes, held: Table, k: nat)
    requires ID_LENGTH <= k <= |id + buckets|
    ensures ReadTable(held, (id + buckets)[..k]).value
            == Table(held.self.(id := id), ReadBuckets(0, held.buckets, buckets[..k - ID_LENGTH]).value)
  {
    CutBehindId(id, buckets, k);
  }

  /** No bucket behind the cut has live nodes, unless the old identifier and the new one are nearer to
      each other than that bucket. */
  ghost predicate NoneMisfiled(t: Table, held: Table, k: nat)
    requires held.WellFormed()
  {
    forall g | Stop(t, k) < g < ID_BITS && held.buckets[g].nodes != [] ::
      BucketOf(held.self.id, IdAfter(t, held, k)) < g
  }

  /** A table that holds nodes, reading a file of another that is cut anywhere, keeps its invariant if and
      only if no bucket behind the cut is misfiled by the new identifier. */
  lemma CutFileKeepsInvIff(t: Table, held: Table, k: nat)
    requires TableInv(t) && CountersFit(t) && TableInv(held)
    ensures TableStorable(t) && k <= |FileOf(t)| ==>
              (TableInv(ReadTable(held, FileOf(t)[..k]).value) <==> NoneMisfiled(t, held, k))
  {
    if TableStorable(t) && k <= |FileOf(t)| {
      CutFileRead(t, held, k);
      LeftBehindKeepsInvIff(t, held, k, ReadTable(held, FileOf(t)[..k]).value);
    }
  }

  lemma LeftBehindKeepsInvIff(t: Table, held: Table, k: nat, r: Table)
    requires TableInv(t) && TableInv(held) && LeftBehind(t, held, k, r)
    ensures TableInv(r) <==> NoneMisfiled(t, held, k)
  {
    forall g | 0 <= g < ID_BITS
      ensures Inv(r.buckets[g])
      ensures FiledUnder(r.self.id, r.buckets[g], g)
              <==> g <= Stop(t, k) || held.buckets[g].nodes == [] || BucketOf(held.self.id, r.self.id) < g
    {
      if g <= Stop(t, k) {
        LeftPartKeepsInv(t, held, k, r, g);
      } else {
        assert r.buckets[g] == held.buckets[g];
        RefiledIff(held.self.id, r.self.id, held.buckets[g], g);
      }
    }
  }

  /** Up to the cut the buckets are those of the file, or parts of them. */
  lemma LeftPartKeepsInv(t: Table, held: Table, k: nat, r: Table, g: nat)
    requires TableInv(t) && TableInv(held) && LeftBehind(t, held, k, r)
    requires g < ID_BITS && g <= Stop(t, k)
    ensures r.self.id == t.self.id && Inv(r.buckets[g]) && FiledUnder(t.self.id, r.buckets[g], g)
  {
    if g == Stop(t, k) {
      PartKeepsInv(t.self.id, t.buckets[g], r.buckets[g], k - ID_LENGTH - |WriteMany(BucketBytes, t.buckets[..g])|, g);
    } else {
      assert r.buckets[g] == t.buckets[g];
    }
  }

  /** At the first start, into the empty table with which the program begins, any part of such a file
      reads as a table that satisfies the table invariant - rejected, but fit to go on with. */
  lemma TruncatedFileIsHarmless(t: Table, self: KadNode, k: nat)
    requires TableInv(t) && CountersFit(t)
    ensures TableStorable(t) && k <= |FileOf(t)| ==>
              TableInv(ReadTable(Table(self, EmptyBuckets()), FileOf(t)[..k]).value)
  {
    var held := Table(self, EmptyBuckets());
    EmptyTableInv(held);
    CutFileKeepsInvIff(t, held, k);
    assert forall g | 0 <= g < ID_BITS :: held.buckets[g].nodes == [];
  }

  /** But a table reached by one push can lose its invariant to such a file. */
  lemma InvariantCanBeLost() returns (states: seq<Table>, events: seq<TableEvent>, t: Table)
    ensures IsRun(states, events) && |events| == 1 && TableInv(t)
    ensures TableInv(states[1]) && !TableInv(ReadTable(states[1], FileOf(t)[..ID_LENGTH]).value)
  {
    var id0 := IdOf(0);
    var id4 := IdOf(4);
    var id8 := IdOf(8);
    Distances(id0, id4, id8);
    BucketRange(id0, id4);
    var self, n := FreshNode(id0, [1]), FreshNode(id4, [2]);
    var t0 := Table(self, EmptyBuckets());
    var t1 := Table(self, t0.buckets[Home(t0, id4) := Holding(n)]);
    FirstPush(t0, n, 0, t1);
    states, events := [t0, t1], [Push(n, 0)];
    RunKeepsTableInv(states, events, 1);
    t := Table(FreshNode(id8, [3]), EmptyBuckets());
    EmptyTableInv(t);
    OtherIdentity(t, t1);
  }

  /** The smallest such file ends behind the identifier. */
  lemma OtherIdentity(t: Table, held: Table)
    requires t.buckets == EmptyBuckets() && TableInv(held)
    requires BucketOf(held.self.id, t.self.id) == 3 && held.buckets[2].nodes != []
    ensures |FileOf(t)| >= ID_LENGTH && !TableInv(ReadTable(held, FileOf(t)[..ID_LENGTH]).value)
  {
    EmptyTableInv(t);
    assert forall g | 0 <= g < ID_BITS :: t.buckets[g] == EMPTY_BUCKET;
    assert TableStorable(t) && CountersFit(t);
    CutFileKeepsInvIff(t, held, ID_LENGTH);
    assert |BucketBytes(t.buckets[0])| > 0;
    assert Stop(t, ID_LENGTH) == 0;
  }

  lemma Distances(id0: KadId, id4: KadId, id8: KadId)
    requires Value(id0) == 0 && Value(id4) == 4 && Value(id8) == 8
    ensures BucketOf(id0, id4) == 2 && BucketOf(id0, id8) == 3
  {
    DistIsXor(id0, id4);
    DistIsXor(id0, id8);
    assert Xor(0, 4) == 4 && Xor(0, 8) == 8;
    assert HeightOf(4) == 2 && HeightOf(8) == 3;
  }
}
