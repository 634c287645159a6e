/** `ktable.dat` byte by byte: where each field lies, and how long the file is. */
module FileLayout {
  import opened Bits
  import opened LittleEndian
  import opened Codec
  import opened Layout
  import opened KadId
  import opened KadNode
  import opened KadBucket
  import opened TableFile

  /** Length and bytes. */
  ghost predicate AddressAt(b: Bytes, o: nat, address: Bytes) {
    NumberAt(b, o, 2, |address|) && BytesAt(b, o + 2, address)
  }

  /** Time of last sight, failures. */
  ghost predicate CountersAt(b: Bytes, o: nat, n: KadNode) {
    NumberAt(b, o, 8, n.lastSeen) && NumberAt(b, o + 8, 4, n.stales)
  }

  /** Identifier, address, counters. */
  ghost predicate NodeAt(b: Bytes, o: nat, n: KadNode) {
    BytesAt(b, o, n.id) && AddressAt(b, o + 16, n.address) && CountersAt(b, o + 18 + |n.address|, n)
  }

  function NodeSize(n: KadNode): nat {
    30 + |n.address|
  }

  /** The number of nodes and the nodes. */
  ghost predicate ListAt(b: Bytes, o: nat, ns: seq<KadNode>) {
    NumberAt(b, o, 4, |ns|) && RunAt(NodeAt, NodeSize, b, o + 4, ns)
  }

  function ListSize(ns: seq<KadNode>): nat {
    4 + RunSize(NodeSize, ns)
  }

  /** The live list and the cache. */
  ghost predicate BucketAt(b: Bytes, o: nat, bucket: Bucket) {
    ListAt(b, o, bucket.nodes) && ListAt(b, o + ListSize(bucket.nodes), bucket.replacements)
  }

  function BucketSize(bucket: Bucket): nat {
    ListSize(bucket.nodes) + ListSize(bucket.replacements)
  }

  /** The identifier, then the buckets, and nothing more. */
  ghost predicate IsFile(b: Bytes, self: KadId, bs: seq<Bucket>) {
    && BytesAt(b, 0, self) && RunAt(BucketAt, BucketSize, b, 16, bs)
    && |b| == 16 + RunSize(BucketSize, bs)
  }

  lemma CountersIff(b: Bytes, o: nat, n: KadNode)
    ensures CountersAt(b, o, n) <==> BytesAt(b, o, SignedToLE(n.lastSeen, 8) + SignedToLE(n.stales, 4))
  {
    BytesParts(b, o, SignedToLE(n.lastSeen, 8), SignedToLE(n.stales, 4));
    SignedIff(b, o, 8, n.lastSeen);
    SignedIff(b, o + 8, 4, n.stales);
  }

  lemma AddressIff(b: Bytes, o: nat, address: Bytes, length: Bytes, rest: Bytes)
    requires |length| == 2 && length == ToLE(|address|, |length|)
    ensures BytesAt(b, o, length + (address + rest))
            <==> AddressAt(b, o, address) && BytesAt(b, o + 2 + |address|, rest)
  {
    BytesParts(b, o, length, address + rest);
    BytesParts(b, o + 2, address, rest);
    NumberIff(b, o, |length|, |address|);
  }

  lemma NodeIff(b: Bytes, o: nat, n: KadNode)
    ensures ItemIff(NodeAt, NodeSize, NodeBytes, b, o, n)
  {
    var length, counters := ToLE(|n.address|, 2), SignedToLE(n.lastSeen, 8) + SignedToLE(n.stales, 4);
    BytesParts(b, o, n.id, length + (n.address + counters));
    AddressIff(b, o + 16, n.address, length, counters);
    CountersIff(b, o + 18 + |n.address|, n);
  }

  lemma ListIff(b: Bytes, o: nat, ns: seq<KadNode>)
    ensures |ListBytes(ns)| == ListSize(ns)
    ensures ListAt(b, o, ns) <==> BytesAt(b, o, ListBytes(ns))
  {
    forall i: nat, n
      ensures ItemIff(NodeAt, NodeSize, NodeBytes, b, i, n)
    {
      NodeIff(b, i, n);
    }
    NumberIff(b, o, 4, |ns|);
    RunIff(NodeAt, NodeSize, NodeBytes, b, o + 4, ns);
    BytesParts(b, o, ToLE(|ns|, 4), WriteMany(NodeBytes, ns));
  }

  lemma BucketIff(b: Bytes, o: nat, bucket: Bucket)
    ensures ItemIff(BucketAt, BucketSize, BucketBytes, b, o, bucket)
  {
    ListIff(b, o, bucket.nodes);
    ListIff(b, o + ListSize(bucket.nodes), bucket.replacements);
    BytesParts(b, o, ListBytes(bucket.nodes), ListBytes(bucket.replacements));
  }

  lemma BucketsIff(b: Bytes, o: nat, bs: seq<Bucket>)
    ensures |BucketsBytes(bs)| == RunSize(BucketSize, bs)
    ensures RunAt(BucketAt, BucketSize, b, o, bs) <==> BytesAt(b, o, BucketsBytes(bs))
  {
    forall i: nat, bucket
      ensures ItemIff(BucketAt, BucketSize, BucketBytes, b, i, bucket)
    {
      BucketIff(b, i, bucket);
    }
    RunIff(BucketAt, BucketSize, BucketBytes, b, o, bs);
    BucketsAreMany(bs);
  }

  /** What `writeFile` writes is laid out so, and nothing else is. */
  lemma FileIff(b: Bytes, self: KadId, bs: seq<Bucket>)
    ensures b == TableBytes(self, bs) <==> IsFile(b, self, bs)
    ensures |TableBytes(self, bs)| == 16 + RunSize(BucketSize, bs)
  {
    BucketsIff(b, 16, bs);
    BytesParts(b, 0, self, BucketsBytes(bs));
  }

  // What is left of a bucket that is cut

  /** `part` are the nodes that lie wholly in the first `n` bytes of the list. */
  ghost predicate IsCutList(ns: seq<KadNode>, n: int, part: seq<KadNode>) {
    var size := RunSize(NodeSize, part);
    && part <= ns
    && (part != [] ==> 4 + size <= n)
    && (|part| < |ns| ==> n < 4 + RunSize(NodeSize, ns[..|part| + 1]))
  }

  lemma CutListMeans(ns: seq<KadNode>, n: int)
    ensures IsCutList(ns, n, CutList(ns, n))
  {
    var part := CutList(ns, n);
    if n >= 4 {
      WholeItemsMean(NodeBytes, ns, n - 4);
      RunWritten(part);
      if |part| < |ns| {
        RunWritten(ns[..|part| + 1]);
      }
    } else {
      assert part == [];
    }
  }

  lemma RunWritten(ns: seq<KadNode>)
    ensures |WriteMany(NodeBytes, ns)| == RunSize(NodeSize, ns)
  {
    ListIff([], 0, ns);
  }

  /** Of a bucket that is cut after `n` bytes the nodes are left that lie wholly in them: live ones only, if
      the cut is in the live list, otherwise all of these and a beginning of the cache. */
  lemma CutShortMeans(b: Bucket, n: int)
    ensures var part, live := CutShort(b, n), 4 + RunSize(NodeSize, b.nodes);
            if n < live then IsCutList(b.nodes, n, part.nodes) && part.replacements == []
            else part.nodes == b.nodes && IsCutList(b.replacements, n - live, part.replacements)
  {
    ListIff([], 0, b.nodes);
    CutListMeans(b.nodes, n);
    CutListMeans(b.replacements, n - 4 - RunSize(NodeSize, b.nodes));
  }

  /** All nodes of the buckets, live or cached. */
  function AllNodes(bs: seq<Bucket>): seq<KadNode> {
    if bs == [] then [] else bs[0].nodes + bs[0].replacements + AllNodes(bs[1..])
  }

  /** The file has 16 bytes, 8 for each bucket, and 30 for each node beside its address. */
  lemma FileSize(self: KadId, bs: seq<Bucket>)
    ensures |TableBytes(self, bs)| == 16 + 8 * |bs| + RunSize(NodeSize, AllNodes(bs))
  {
    FileIff(TableBytes(self, bs), self, bs);
    BucketsSize(bs);
  }

  lemma {:induction false} BucketsSize(bs: seq<Bucket>)
    ensures RunSize(BucketSize, bs) == 8 * |bs| + RunSize(NodeSize, AllNodes(bs))
  {
    if bs != [] {
      BucketsSize(bs[1..]);
      RunSizeAdds(NodeSize, bs[0].nodes, bs[0].replacements);
      RunSizeAdds(NodeSize, bs[0].nodes + bs[0].replacements, AllNodes(bs[1..]));
    }
  }
}
