/** What `readFile` makes of a file that `writeFile` wrote, whether or not the addresses in it can be held:
    accepted, rejected, or past the end of its address buffer. */
module FileVerdict {
  import opened Bits
  import opened LittleEndian
  import opened KadId
  import opened KadNode
  import opened KadBucket
  import opened Codec
  import opened TableFile
  import opened KadRoutingTable
  import opened TableRuns
  import opened TablePersistence

  /** The 16-bit length field holds up to here. */
  const LENGTH_LIMIT: nat := 65536

  // One node

  function Verdict(n: KadNode): Status {
    if n.address == [] then Bad else if |n.address| >= ADDRESS_BUFFER then Overrun else Good
  }

  /** A node as it is read back: the address up to its first NUL. */
  function Cut(n: KadNode): KadNode {
    n.(address := CString(n.address))
  }

  predicate Writable(n: KadNode) {
    FitsTypes(n) && |n.address| < LENGTH_LIMIT
  }

  lemma NodeRead(n: KadNode, rest: Bytes)
    requires Writable(n)
    ensures var r := ReadNode(NodeBytes(n) + rest);
            if Verdict(n) == Good then r == Read(Good, Cut(n), rest) else r.status == Verdict(n)
  {
    var after := SignedToLE(n.lastSeen, 8) + SignedToLE(n.stales, 4) + rest;
    var body := ToLE(|n.address|, 2) + (n.address + after);
    assert NodeBytes(n) + rest == n.id + body;
    AppendParts(n.id, body);
    AppendParts(ToLE(|n.address|, 2), n.address + after);
    LengthField(|n.address|);
    AppendParts(n.address, after);
    CountersRoundTrip(n, CString(n.address), rest);
  }

  // Runs of nodes

  /** The verdict on the first node that has one other than `Good`. */
  function FirstVerdict(ns: seq<KadNode>): Status {
    if ns == [] then Good else if Verdict(ns[0]) != Good then Verdict(ns[0]) else FirstVerdict(ns[1..])
  }

  function CutAll(ns: seq<KadNode>): seq<KadNode> {
    seq(|ns|, i requires 0 <= i < |ns| => Cut(ns[i]))
  }

  lemma {:induction false} FirstVerdictDecides(ns: seq<KadNode>, i: nat)
    requires i < |ns| && Verdict(ns[i]) != Good && forall j | 0 <= j < i :: Verdict(ns[j]) == Good
    ensures FirstVerdict(ns) == Verdict(ns[i])
  {
    if i > 0 {
      FirstVerdictDecides(ns[1..], i - 1);
    }
  }

  lemma {:induction false} FirstVerdictMeans(ns: seq<KadNode>)
    ensures FirstVerdict(ns) == Good <==> forall n | n in ns :: Verdict(n) == Good
    ensures (forall n | n in ns :: n.address != []) ==>
              (FirstVerdict(ns) == Overrun <==> exists n | n in ns :: |n.address| >= ADDRESS_BUFFER)
  {
    if ns != [] {
      assert ns == [ns[0]] + ns[1..];
      FirstVerdictMeans(ns[1..]);
    }
  }

  lemma {:induction false} FirstVerdictAppend(a: seq<KadNode>, b: seq<KadNode>)
    ensures FirstVerdict(a + b) == if FirstVerdict(a) != Good then FirstVerdict(a) else FirstVerdict(b)
  {
    if a == [] {
      assert a + b == b;
    } else {
      assert (a + b)[1..] == a[1..] + b;
      FirstVerdictAppend(a[1..], b);
    }
  }

  ghost predicate Judged(reader: Bytes -> Read<Bytes, KadNode>, writer: KadNode -> Bytes, n: KadNode, rest: Bytes) {
    var r := reader(writer(n) + rest);
    if Verdict(n) == Good then r == Read(Good, Cut(n), rest) else r.status == Verdict(n)
  }

  lemma {:induction false} RunRead(reader: Bytes -> Read<Bytes, KadNode>, writer: KadNode -> Bytes,
                                   ns: seq<KadNode>, read: seq<KadNode>, rest: Bytes)
    requires forall n, after | n in ns :: Judged(reader, writer, n, after)
    ensures var r := ReadMany(reader, |ns|, read, WriteMany(writer, ns) + rest);
            if FirstVerdict(ns) == Good then r == Read(Good, read + CutAll(ns), rest) else r.status == FirstVerdict(ns)
    decreases |ns|
  {
    if ns == [] {
      assert [] + rest == rest && read + CutAll(ns) == read;
    } else {
      var n, more := ns[0], ns[1..];
      WrittenFirst(writer, ns, rest);
      assert Judged(reader, writer, n, WriteMany(writer, more) + rest);
      if Verdict(n) == Good {
        RunRead(reader, writer, more, read + [Cut(n)], rest);
        assert read + CutAll(ns) == (read + [Cut(n)]) + CutAll(more);
      }
    }
  }

  lemma ListRead(ns: seq<KadNode>, rest: Bytes)
    requires |ns| < 0x8000_0000 && forall n | n in ns :: Writable(n)
    ensures var r := ReadList(ListBytes(ns) + rest);
            if FirstVerdict(ns) == Good then r == Read(Good, CutAll(ns), rest) else r.status == FirstVerdict(ns)
  {
    Associate(ToLE(|ns|, 4), WriteMany(NodeBytes, ns), rest);
    AppendParts(ToLE(|ns|, 4), WriteMany(NodeBytes, ns) + rest);
    CountField(|ns|);
    forall n, after | n in ns
      ensures Judged(ReadNode, NodeBytes, n, after)
    {
      NodeRead(n, after);
    }
    RunRead(ReadNode, NodeBytes, ns, [], rest);
    assert [] + CutAll(ns) == CutAll(ns);
  }

  // Buckets

  function CutBucket(b: Bucket): Bucket {
    Bucket(CutAll(b.nodes), CutAll(b.replacements))
  }

  ghost predicate BucketWritable(b: Bucket) {
    && |b.nodes| < 0x8000_0000 && |b.replacements| < 0x8000_0000
    && (forall n | n in b.nodes :: Writable(n))
    && (forall n | n in b.replacements :: Writable(n))
  }

  lemma BucketRead(b: Bucket, rest: Bytes)
    requires BucketWritable(b)
    ensures var r := ReadBucket(BucketBytes(b) + rest);
            if FirstVerdict(b.All()) == Good then r == Read(Good, CutBucket(b), rest)
            else r.status == FirstVerdict(b.All())
  {
    Associate(ListBytes(b.nodes), ListBytes(b.replacements), rest);
    ListRead(b.nodes, ListBytes(b.replacements) + rest);
    ListRead(b.replacements, rest);
    FirstVerdictAppend(b.nodes, b.replacements);
  }

  /** All nodes in the order in which they are written. */
  function FileOrder(bs: seq<Bucket>): seq<KadNode> {
    if bs == [] then [] else bs[0].All() + FileOrder(bs[1..])
  }

  lemma {:induction false} FileOrderHolds(bs: seq<Bucket>)
    ensures forall n :: n in FileOrder(bs) <==> exists b | b in bs :: n in b.All()
  {
    if bs != [] {
      FileOrderHolds(bs[1..]);
      assert bs == [bs[0]] + bs[1..];
    }
  }

  lemma {:induction false} BucketsRead(i: nat, bs: seq<Bucket>, held: seq<Bucket>, rest: Bytes)
    requires i <= |bs| == |held| && forall b | b in bs :: BucketWritable(b)
    ensures var r := ReadBuckets(i, held, BucketsBytes(bs[i..]) + rest);
            if FirstVerdict(FileOrder(bs[i..])) == Good then
              r.status == Good && r.rest == rest && forall g | i <= g < |bs| :: r.value[g] == CutBucket(bs[g])
            else r.status == FirstVerdict(FileOrder(bs[i..]))
    decreases |bs| - i
  {
    if i == |bs| {
      assert bs[i..] == [] && [] + rest == rest;
    } else {
      var b, after := bs[i], BucketsBytes(bs[i + 1..]) + rest;
      assert bs[i..][1..] == bs[i + 1..];
      Associate(BucketBytes(b), BucketsBytes(bs[i + 1..]), rest);
      BucketRead(b, after);
      FirstVerdictAppend(b.All(), FileOrder(bs[i + 1..]));
      if FirstVerdict(b.All()) == Good {
        var held' := held[i := CutBucket(b)];
        BucketsRead(i + 1, bs, held', rest);
        var r := ReadBuckets(i + 1, held', after);
        assert r.value[i] == r.value[..i + 1][i] == held'[..i + 1][i];
      }
    }
  }

  // Tables

  function NodesInOrder(t: Table): seq<KadNode> {
    FileOrder(t.buckets)
  }

  ghost predicate AddressesShort(t: Table) {
    forall b | b in t.buckets :: forall n | n in b.All() :: |n.address| < LENGTH_LIMIT
  }

  lemma BucketsWritable(t: Table)
    requires TableInv(t) && CountersFit(t) && AddressesShort(t)
    ensures forall b | b in t.buckets :: BucketWritable(b)
  {
    BucketsFit(t);
    forall b | b in t.buckets
      ensures BucketWritable(b)
    {
      assert BucketFitsTypes(b);
      assert forall n | n in b.nodes :: n in b.All();
      assert forall n | n in b.replacements :: n in b.All();
    }
  }

  /** The verdict on the file of a reachable table is that on the first node, in the order of the file,
      whose address is empty or has at least 512 bytes. When there is none the file is read to its end,
      and every address is cut at its first NUL. */
  lemma FirstNodeDecides(t: Table, held: Table)
    requires TableInv(t) && CountersFit(t) && held.WellFormed()
    ensures AddressesShort(t) ==>
              var r := ReadTable(held, FileOf(t));
              && r.status == FirstVerdict(NodesInOrder(t))
              && (r.status == Good ==>
                    && r.rest == [] && r.value.self.id == t.self.id
                    && forall g | 0 <= g < |t.buckets| :: r.value.buckets[g] == CutBucket(t.buckets[g]))
  {
    if AddressesShort(t) {
      BucketsWritable(t);
      FileRead(t.self.id, t.buckets, held);
    }
  }

  lemma FileRead(id: KadId, bs: seq<Bucket>, held: Table)
    requires |held.buckets| == |bs| && forall b | b in bs :: BucketWritable(b)
    ensures var r := ReadTable(held, TableBytes(id, bs));
            && r.status == FirstVerdict(FileOrder(bs))
            && (r.status == Good ==>
                  && r.rest == [] && r.value.self.id == id
                  && forall g | 0 <= g < |bs| :: r.value.buckets[g] == CutBucket(bs[g]))
  {
    var file := BucketsBytes(bs);
    AppendParts(id, file);
    assert bs[0..] == bs && file + [] == file;
    BucketsRead(0, bs, held.buckets, []);
  }

  ghost predicate HoldsNode(t: Table, n: KadNode) {
    exists b | b in t.buckets :: n in b.All()
  }

  lemma NodesAreHeld(t: Table)
    ensures forall n :: HoldsNode(t, n) <==> n in NodesInOrder(t)
  {
    FileOrderHolds(t.buckets);
  }

  /** The file is accepted exactly when every address has 1 to 511 bytes, whatever they are. */
  lemma AcceptedIff(t: Table, held: Table)
    requires TableInv(t) && CountersFit(t) && held.WellFormed()
    ensures AddressesShort(t) ==>
              (ReadTable(held, FileOf(t)).status == Good
               <==> forall n | HoldsNode(t, n) :: 1 <= |n.address| < ADDRESS_BUFFER)
  {
    if AddressesShort(t) {
      FirstNodeDecides(t, held);
      NodesAreHeld(t);
      FirstVerdictMeans(NodesInOrder(t));
    }
  }

  /** If no address is empty, reading the file leaves the buffer exactly when some address has 512 bytes
      or more. */
  lemma OverrunIff(t: Table, held: Table)
    requires TableInv(t) && CountersFit(t) && held.WellFormed()
    ensures AddressesShort(t) && (forall n | HoldsNode(t, n) :: n.address != []) ==>
              (ReadTable(held, FileOf(t)).status == Overrun
               <==> exists n | HoldsNode(t, n) :: |n.address| >= ADDRESS_BUFFER)
  {
    if AddressesShort(t) {
      FirstNodeDecides(t, held);
      NodesAreHeld(t);
      FirstVerdictMeans(NodesInOrder(t));
    }
  }

  /** The file is accepted and yet the table comes back altered, exactly when every address has 1 to 511
      bytes and some address contains a NUL. */
  lemma AlteredIff(t: Table, held: Table)
    requires TableInv(t) && CountersFit(t) && held.WellFormed()
    ensures AddressesShort(t) ==>
              var r := ReadTable(held, FileOf(t));
              (r.status == Good && !Restored(t, r)
               <==> (&& (forall n | HoldsNode(t, n) :: 1 <= |n.address| < ADDRESS_BUFFER)
                     && exists n | HoldsNode(t, n) :: 0 in n.address))
  {
    if AddressesShort(t) {
      AcceptedIff(t, held);
      RestoredIffStorable(t, held);
      StorableNodes(t);
    }
  }

  lemma StorableNodes(t: Table)
    ensures TableStorable(t) <==> forall n | HoldsNode(t, n) :: Storable(n)
  {
    if forall n | HoldsNode(t, n) :: Storable(n) {
      forall b | b in t.buckets
        ensures BucketStorable(b)
      {
        assert forall n | n in b.nodes :: n in b.All() && HoldsNode(t, n);
        assert forall n | n in b.replacements :: n in b.All() && HoldsNode(t, n);
      }
    }
  }
}
