/** A table written to `ktable.dat` at shutdown and read back at the next start. */
module TablePersistence {
  import opened Bits
  import opened KadId
  import opened KadNode
  import opened Sorting
  import opened KadBucket
  import opened Codec
  import opened TableFile
  import opened KadRoutingTable
  import opened TableRuns
  import opened FileLayout

  /** The counters of all nodes fit the C types they have. */
  ghost predicate CountersFit(t: Table) {
    forall b | b in t.buckets :: forall n | n in b.All() :: FitsTypes(n)
  }

  ghost predicate TableStorable(t: Table) {
    forall b | b in t.buckets :: BucketStorable(b)
  }

  function FileOf(t: Table): Bytes {
    TableBytes(t.self.id, t.buckets)
  }

  /** Reading gave back the own identifier and all 128 live and cached lists, in order, and left
      nothing of the file unread. */
  ghost predicate Restored(t: Table, r: Read<Bytes, Table>) {
    && r.status == Good && r.rest == []
    && r.value.self.id == t.self.id && r.value.buckets == t.buckets
  }

  lemma BucketsFit(t: Table)
    requires TableInv(t) && CountersFit(t)
    ensures forall b | b in t.buckets :: BucketFitsTypes(b)
  {
    forall b | b in t.buckets
      ensures BucketFitsTypes(b)
    {
      var h :| 0 <= h < |t.buckets| && t.buckets[h] == b;
      assert Inv(t.buckets[h]);
      assert forall n | n in b.nodes :: n in b.All();
      assert forall n | n in b.replacements :: n in b.All();
    }
  }

  /** A reachable table, written and read into any table, is restored if and only if every address
      in it has 1 to 511 bytes and no NUL. */
  lemma RestoredIffStorable(t: Table, held: Table)
    requires TableInv(t) && CountersFit(t) && held.WellFormed()
    ensures Restored(t, ReadTable(held, FileOf(t))) <==> TableStorable(t)
    ensures TableStorable(t) ==> TableInv(ReadTable(held, FileOf(t)).value)
  {
    var file, buckets := FileOf(t), BucketsBytes(t.buckets);
    BucketsFit(t);
    AppendParts(t.self.id, buckets);
    assert t.buckets[0..] == t.buckets && buckets + [] == buckets;
    BucketsRoundTrip(t.buckets, 0, held.buckets, []);
  }

  /** Any file laid out as that table, whoever wrote it, is read back as the table. */
  lemma LaidOutIsRead(t: Table, held: Table, file: Bytes)
    requires TableInv(t) && CountersFit(t) && TableStorable(t) && held.WellFormed()
    requires IsFile(file, t.self.id, t.buckets)
    ensures ReadTable(held, file) == Read(Good, Table(held.self.(id := t.self.id), t.buckets), [])
  {
    FileIff(file, t.self.id, t.buckets);
    RestoredIffStorable(t, held);
  }

  lemma CutBehindId(id: KadId, buckets: Bytes, k: nat)
    requires ID_LENGTH <= k <= |id + buckets|
    ensures (id + buckets)[..k][..ID_LENGTH] == id
    ensures (id + buckets)[..k][ID_LENGTH..] == buckets[..k - ID_LENGTH]
  {
  }

  lemma CutFileRejected(id: KadId, bs: seq<Bucket>, held: Table, k: nat)
    requires |held.buckets| == |bs| && forall b | b in bs :: BucketFitsTypes(b) && BucketStorable(b)
    ensures k < |TableBytes(id, bs)| ==> ReadTable(held, TableBytes(id, bs)[..k]).status == Bad
  {
    if ID_LENGTH <= k < |TableBytes(id, bs)| {
      CutBehindId(id, BucketsBytes(bs), k);
      PrefixRejected(bs, held.buckets, k - ID_LENGTH);
    }
  }

  /** Every strict prefix of the file of a storable table is rejected with -1. */
  lemma TruncatedFileRejected(t: Table, held: Table, k: nat)
    requires TableInv(t) && CountersFit(t) && held.WellFormed()
    ensures TableStorable(t) && k < |FileOf(t)| ==> ReadTable(held, FileOf(t)[..k]).status == Bad
  {
    if TableStorable(t) {
      BucketsFit(t);
      CutFileRejected(t.self.id, t.buckets, held, k);
    }
  }

  lemma BeginningMembers(a: seq<KadNode>, b: seq<KadNode>)
    requires a <= b
    ensures forall n | n in a :: n in b
    ensures SortedBy(b, Recency) ==> SortedBy(a, Recency)
    ensures DistinctIds(b) ==> DistinctIds(a)
  {
    assert forall i | 0 <= i < |a| :: a[i] == b[i];
  }

  lemma CutIsBeginning(b: Bucket, n: int)
    ensures CutShort(b, n).nodes <= b.nodes && CutShort(b, n).replacements <= b.replacements
    ensures CutShort(b, n).All() <= b.All()
    ensures CutShort(b, n).replacements != [] ==> CutShort(b, n).nodes == b.nodes
  {
  }

  lemma PartKeepsInv(self: KadId, whole: Bucket, b: Bucket, n: int, h: int)
    requires Inv(whole) && FiledUnder(self, whole, h) && b == CutShort(whole, n)
    ensures Inv(b) && FiledUnder(self, b, h)
  {
    CutIsBeginning(whole, n);
    BeginningMembers(b.All(), whole.All());
    BeginningMembers(b.nodes, whole.nodes);
    BeginningMembers(b.replacements, whole.replacements);
  }

  /** A file too short for the identifier overwrites the beginning of the one held, and nothing else. */
  lemma ShortFile(held: Table, file: Bytes)
    requires |file| < 16
    ensures var r := ReadTable(held, file);
            && r.status == Bad && r.value.buckets == held.buckets && r.value.self.address == held.self.address
            && forall k | 0 <= k < 16 :: r.value.self.id[k] == if k < |file| then file[k] else held.self.id[k]
  {
  }

  lemma EmptyTableInv(t: Table)
    requires t.buckets == EmptyBuckets()
    ensures TableInv(t)
  {
    forall h | 0 <= h < ID_BITS
      ensures Inv(t.buckets[h]) && FiledUnder(t.self.id, t.buckets[h], h)
    {
      assert t.buckets[h] == EMPTY_BUCKET;
    }
  }
}
