/** The format of `ktable.dat`: what `writeFile` writes and how `readFile` takes it apart. */
module TableFile {
  import opened Bits
  import opened LittleEndian
  import opened KadId
  import opened KadNode
  import opened KadBucket
  import opened Codec

  // Writing

  /** Identifier, 16-bit address length, address, 64-bit `lastSeen`, 32-bit `stales`. The length
      field keeps the low 16 bits only; the address is written in full. */
  function NodeBytes(n: KadNode): Bytes {
    n.id + (ToLE(|n.address|, 2) + (n.address + (SignedToLE(n.lastSeen, 8) + SignedToLE(n.stales, 4))))
  }

  function ListBytes(ns: seq<KadNode>): Bytes {
    ToLE(|ns|, 4) + WriteMany(NodeBytes, ns)
  }

  function BucketBytes(b: Bucket): Bytes {
    ListBytes(b.nodes) + ListBytes(b.replacements)
  }

  function BucketsBytes(bs: seq<Bucket>): Bytes {
    if bs == [] then [] else BucketBytes(bs[0]) + BucketsBytes(bs[1..])
  }

  function TableBytes(self: KadId, bs: seq<Bucket>): Bytes {
    self + BucketsBytes(bs)
  }

  lemma {:induction false} BucketsBytesAppend(bs: seq<Bucket>, b: Bucket)
    ensures BucketsBytes(bs + [b]) == BucketsBytes(bs) + BucketBytes(b)
  {
    if bs == [] {
      assert [b][1..] == [];
      assert BucketBytes(b) + [] == [] + BucketBytes(b);
    } else {
      assert (bs + [b])[1..] == bs[1..] + [b];
      BucketsBytesAppend(bs[1..], b);
    }
  }

  /** The step of the loop over the buckets. */
  lemma NextBucketWritten(before: Bytes, bs: seq<Bucket>, i: nat)
    requires i < |bs|
    ensures (before + BucketsBytes(bs[..i])) + BucketBytes(bs[i]) == before + BucketsBytes(bs[..i + 1])
  {
    assert bs[..i + 1] == bs[..i] + [bs[i]];
    BucketsBytesAppend(bs[..i], bs[i]);
  }

  // Reading

  const ADDRESS_BUFFER: nat := 512

  /** `std::string(buf)`: the bytes before the first NUL. */
  function CString(s: Bytes): (r: Bytes)
    ensures r <= s && 0 !in r
    ensures |r| < |s| ==> s[|r|] == 0
  {
    if s == [] || s[0] == 0 then [] else [s[0]] + CString(s[1..])
  }

  /** The value of a read that did not produce a node. */
  function NoNode(): KadNode {
    FreshNode(seq(ID_LENGTH, _ => 0), [])
  }

  function ReadNode(file: Bytes): Read<Bytes, KadNode> {
    if |file| < 16 then Read(Bad, NoNode(), file) else
      ReadAddress(file[..16], file[16..])
  }

  function ReadAddress(id: KadId, file: Bytes): Read<Bytes, KadNode> {
    if |file| < 2 then Read(Bad, NoNode(), file) else
      var length, rest := FromLE(file[..2]), file[2..];
      if length == 0 then Read(Bad, NoNode(), rest)
      else if |rest| < length then Read(if |rest| > ADDRESS_BUFFER then Overrun else Bad, NoNode(), rest)
      else if length >= ADDRESS_BUFFER then Read(Overrun, NoNode(), rest)
      else ReadCounters(id, CString(rest[..length]), rest[length..])
  }

  function ReadCounters(id: KadId, address: Bytes, file: Bytes): Read<Bytes, KadNode> {
    if |file| < 12 then Read(Bad, NoNode(), file)
    else Read(Good, KadNode(id, address, SignedFromLE(file[..8]), SignedFromLE(file[8..12])), file[12..])
  }

  function ReadList(file: Bytes): Read<Bytes, seq<KadNode>> {
    if |file| < 4 then Read(Bad, [], file)
    else ReadMany(ReadNode, SignedFromLE(file[..4]), [], file[4..])
  }

  /** A count with its highest bit set is negative: the list is empty, and reading goes on behind it. */
  lemma NegativeCount(file: Bytes)
    requires |file| >= 4 && file[3] >= 0x80
    ensures ReadList(file) == Read(Good, [], file[4..])
  {
    TopBitIsSign(file[..4]);
  }

  function ReadBucket(file: Bytes): Read<Bytes, Bucket> {
    var live := ReadList(file);
    if live.status != Good then Read(live.status, Bucket(live.value, []), live.rest) else
      var cached := ReadList(live.rest);
      Read(cached.status, Bucket(live.value, cached.value), cached.rest)
  }

  /** Replaces the buckets from `i` on until the file ends or goes wrong. */
  function ReadBuckets(i: nat, bs: seq<Bucket>, file: Bytes): (r: Read<Bytes, seq<Bucket>>)
    requires i <= |bs|
    ensures |r.value| == |bs| && r.value[..i] == bs[..i]
    decreases |bs| - i
  {
    if i == |bs| then Read(Good, bs, file) else
      var b := ReadBucket(file);
      var bs' := bs[i := b.value];
      assert bs'[..i] == bs[..i];
      if b.status != Good then Read(b.status, bs', b.rest) else
        var r := ReadBuckets(i + 1, bs', b.rest);
        assert r.value[..i] == r.value[..i + 1][..i];
        r
  }

  // Round trip

  /** What the format can hold of a node's address. */
  predicate Storable(n: KadNode) {
    1 <= |n.address| < ADDRESS_BUFFER && 0 !in n.address
  }

  /** The counters fit the C types they have. */
  predicate FitsTypes(n: KadNode) {
    FitsSigned(n.lastSeen, 8) && FitsSigned(n.stales, 4)
  }

  lemma {:induction false} CStringOf(s: Bytes)
    ensures CString(s) == s <==> 0 !in s
    ensures |CString(s)| <= |s|
  {
    if s != [] {
      CStringOf(s[1..]);
      assert s == [s[0]] + s[1..];
      if s[0] == 0 {
        assert 0 in s;
      } else {
        assert CString(s) == [s[0]] + CString(s[1..]);
        assert CString(s)[1..] == CString(s[1..]);
      }
    }
  }

  lemma CountersRoundTrip(n: KadNode, address: Bytes, rest: Bytes)
    requires FitsTypes(n)
    ensures ReadCounters(n.id, address, SignedToLE(n.lastSeen, 8) + SignedToLE(n.stales, 4) + rest)
            == Read(Good, n.(address := address), rest)
  {
    var a, b := SignedToLE(n.lastSeen, 8), SignedToLE(n.stales, 4);
    var file := a + b + rest;
    assert file[..8] == a && file[8..12] == b && file[12..] == rest;
    SignedRoundTrip(n.lastSeen, 8);
    SignedRoundTrip(n.stales, 4);
  }

  lemma LengthField(n: nat)
    ensures FromLE(ToLE(n, 2)) == n % 65536
    ensures n < 65536 ==> FromLE(ToLE(n, 2)) == n
  {
    assert Pow2(8) == 256;
    Pow2Adds(8, 8);
    FromToLE(n, 2);
  }

  /** A node is read back as written exactly when its address has 1 to 511 bytes, none of them NUL. */
  lemma NodeRoundTrip(n: KadNode, rest: Bytes)
    requires FitsTypes(n)
    ensures Storable(n) ==> ReadNode(NodeBytes(n) + rest) == Read(Good, n, rest)
    ensures !Storable(n) ==>
              var r := ReadNode(NodeBytes(n) + rest);
              r.status == Good ==> r.value.address != n.address
  {
    var counters := SignedToLE(n.lastSeen, 8) + SignedToLE(n.stales, 4);
    var tail := n.address + (counters + rest);
    var body := ToLE(|n.address|, 2) + tail;
    assert NodeBytes(n) + rest == n.id + body;
    AppendParts(n.id, body);
    AppendParts(ToLE(|n.address|, 2), tail);
    LengthField(|n.address|);
    assert ReadNode(NodeBytes(n) + rest) == ReadAddress(n.id, body);
    AddressRoundTrip(n, tail, body, counters + rest);
    if Storable(n) {
      CountersRoundTrip(n, n.address, rest);
    }
  }

  lemma AddressRoundTrip(n: KadNode, tail: Bytes, body: Bytes, after: Bytes)
    requires tail == n.address + after && |body| >= 2 && body[2..] == tail
    requires FromLE(body[..2]) == |n.address| % 65536
    ensures Storable(n) ==> ReadAddress(n.id, body) == ReadCounters(n.id, n.address, after)
    ensures !Storable(n) ==>
              var r := ReadAddress(n.id, body);
              r.status == Good ==> r.value.address != n.address
  {
    var length := |n.address| % 65536;
    if length == |n.address| {
      AppendParts(n.address, after);
      CStringOf(n.address);
    } else if length <= |tail| {
      CStringOf(tail[..length]);
    }
  }

  ghost predicate AllStorable(ns: seq<KadNode>) {
    forall n | n in ns :: Storable(n)
  }

  ghost predicate AllFitsTypes(ns: seq<KadNode>) {
    forall n | n in ns :: FitsTypes(n)
  }

  /** The list counts fit in 31 bits and the counters in theirs. */
  ghost predicate ListFitsTypes(ns: seq<KadNode>) {
    |ns| < 0x8000_0000 && AllFitsTypes(ns)
  }

  predicate Differ(a: KadNode, b: KadNode) {
    a != b
  }

  function Whole(file: Bytes): Bytes {
    file
  }

  lemma ListRoundTrip(ns: seq<KadNode>, rest: Bytes)
    requires ListFitsTypes(ns)
    ensures AllStorable(ns) ==> ReadList(ListBytes(ns) + rest) == Read(Good, ns, rest)
    ensures !AllStorable(ns) ==>
              var r := ReadList(ListBytes(ns) + rest);
              r.status == Good ==> r.value != ns
  {
    var file := ListBytes(ns) + rest;
    assert file == ToLE(|ns|, 4) + (WriteMany(NodeBytes, ns) + rest);
    AppendParts(ToLE(|ns|, 4), WriteMany(NodeBytes, ns) + rest);
    CountField(|ns|);
    forall n, after | n in ns
      ensures ItemRoundTrips(ReadNode, Whole, NodeBytes, Storable(n), Differ, n, after)
    {
      NodeRoundTrip(n, after);
    }
    ManyRoundTrip(ReadNode, Whole, NodeBytes, Storable, Differ, ns, [], rest);
    assert [] + ns == ns;
  }

  lemma CountField(n: nat)
    requires n < 0x8000_0000
    ensures SignedFromLE(ToLE(n, 4)) == n
  {
    assert Pow2(8) == 256;
    Pow2Adds(8, 8);
    Pow2Adds(16, 16);
    assert Pow2(32) == 2 * Pow2(31);
    FitsRoundTrip(n, 4);
  }

  ghost predicate BucketStorable(b: Bucket) {
    AllStorable(b.nodes) && AllStorable(b.replacements)
  }

  ghost predicate BucketFitsTypes(b: Bucket) {
    ListFitsTypes(b.nodes) && ListFitsTypes(b.replacements)
  }

  lemma BucketRoundTrip(b: Bucket, rest: Bytes)
    requires BucketFitsTypes(b)
    ensures BucketStorable(b) ==> ReadBucket(BucketBytes(b) + rest) == Read(Good, b, rest)
    ensures !BucketStorable(b) ==>
              var r := ReadBucket(BucketBytes(b) + rest);
              r.status == Good ==> r.value != b
  {
    assert BucketBytes(b) + rest == ListBytes(b.nodes) + (ListBytes(b.replacements) + rest);
    ListRoundTrip(b.nodes, ListBytes(b.replacements) + rest);
    ListRoundTrip(b.replacements, rest);
  }

  /** Reading what was written, over any buckets held before, restores every bucket in order and
      consumes exactly what was written - if every address is storable, and only then. */
  lemma {:induction false} BucketsRoundTrip(bs: seq<Bucket>, i: nat, held: seq<Bucket>, rest: Bytes)
    requires i <= |bs| == |held| && held[..i] == bs[..i]
    requires forall b | b in bs :: BucketFitsTypes(b)
    ensures (forall b | b in bs[i..] :: BucketStorable(b)) ==>
              ReadBuckets(i, held, BucketsBytes(bs[i..]) + rest) == Read(Good, bs, rest)
    ensures !(forall b | b in bs[i..] :: BucketStorable(b)) ==>
              var r := ReadBuckets(i, held, BucketsBytes(bs[i..]) + rest);
              r.status == Good ==> r.value != bs
    decreases |bs| - i
  {
    if i == |bs| {
      assert held == held[..i] && bs == bs[..i] && bs[i..] == [];
      assert [] + rest == rest;
    } else {
      var b, after := bs[i], BucketsBytes(bs[i + 1..]) + rest;
      assert bs[i..][1..] == bs[i + 1..] && bs[i..] == [b] + bs[i + 1..];
      assert BucketsBytes(bs[i..]) + rest == BucketBytes(b) + after;
      BucketRoundTrip(b, after);
      var r := ReadBucket(BucketBytes(b) + after);
      var held' := held[i := r.value];
      if BucketStorable(b) {
        assert held'[..i + 1] == bs[..i + 1];
        BucketsRoundTrip(bs, i + 1, held', rest);
      } else if r.status == Good {
        var all := ReadBuckets(i + 1, held', r.rest);
        assert all.value[..i + 1][i] == held'[..i + 1][i];
      }
    }
  }

  // A truncated file is rejected

  lemma ReadCountersExtends(id: KadId, address: Bytes, more: Bytes, file: Bytes)
    ensures Extends((s: Bytes) => ReadCounters(id, address, s), file, more)
  {
    if |file| >= 12 {
      SliceOfAppend(file, more, 8);
      SliceOfAppend(file, more, 12);
      assert (file + more)[8..12] == file[8..12];
    }
  }

  lemma ReadAddressExtends(id: KadId, file: Bytes, more: Bytes)
    ensures Extends((s: Bytes) => ReadAddress(id, s), file, more)
  {
    if |file| >= 2 {
      SliceOfAppend(file, more, 2);
      var length, rest := FromLE(file[..2]), file[2..];
      if length <= |rest| {
        SliceOfAppend(rest, more, length);
        ReadCountersExtends(id, CString(rest[..length]), more, rest[length..]);
      }
    }
  }

  lemma ReadNodeExtends(file: Bytes, more: Bytes)
    ensures Extends(ReadNode, file, more)
  {
    if |file| >= 16 {
      SliceOfAppend(file, more, 16);
      ReadAddressExtends(file[..16], file[16..], more);
    }
  }

  lemma ReadListExtends(file: Bytes, more: Bytes)
    ensures Extends(ReadList, file, more)
  {
    if |file| >= 4 {
      SliceOfAppend(file, more, 4);
      forall part
        ensures Extends(ReadNode, part, more)
      {
        ReadNodeExtends(part, more);
      }
      ManyExtends(ReadNode, SignedFromLE(file[..4]), [], file[4..], more);
    }
  }

  lemma ReadBucketExtends(file: Bytes, more: Bytes)
    ensures Extends(ReadBucket, file, more)
  {
    ReadListExtends(file, more);
    var live := ReadList(file);
    if live.status == Good {
      ReadListExtends(live.rest, more);
    }
  }

  lemma {:induction false} ReadBucketsExtends(i: nat, bs: seq<Bucket>, file: Bytes, more: Bytes)
    requires i <= |bs|
    ensures Extends((s: Bytes) => ReadBuckets(i, bs, s), file, more)
    decreases |bs| - i
  {
    if i < |bs| {
      ReadBucketExtends(file, more);
      var b := ReadBucket(file);
      if b.status == Good {
        ReadBucketsExtends(i + 1, bs[i := b.value], b.rest, more);
      }
    }
  }

  // What a truncated file leaves behind

  /** What reading the first `n` bytes of a written list comes to. */
  function CutList(ns: seq<KadNode>, n: int): seq<KadNode> {
    ns[..WholeItems(NodeBytes, ns, n - 4)]
  }

  /** What reading the first `n` bytes of a written bucket comes to: the nodes that lie wholly in them. */
  function CutShort(b: Bucket, n: int): Bucket {
    var live := |ListBytes(b.nodes)|;
    if n < live then Bucket(CutList(b.nodes, n), []) else Bucket(b.nodes, CutList(b.replacements, n - live))
  }

  lemma CutNode(node: KadNode, n: nat)
    requires FitsTypes(node) && Storable(node) && n < |NodeBytes(node)|
    ensures ReadNode(NodeBytes(node)[..n]).status != Good
  {
    var all, none: Bytes := NodeBytes(node), [];
    var cut, more := all[..n], all[n..];
    assert cut + more == all && all + none == all;
    NodeRoundTrip(node, none);
    ReadNodeExtends(cut, more);
    assert |ReadNode(cut).rest + more| > 0;
  }

  lemma CutNodes(ns: seq<KadNode>, n: nat)
    requires AllFitsTypes(ns) && AllStorable(ns) && n < |WriteMany(NodeBytes, ns)|
    ensures var r := ReadMany(ReadNode, |ns|, [], WriteMany(NodeBytes, ns)[..n]);
            r.status != Good && r.value == ns[..WholeItems(NodeBytes, ns, n)]
  {
    forall node | node in ns
      ensures CutsFail(ReadNode, NodeBytes, node)
    {
      forall rest
        ensures ReadNode(NodeBytes(node) + rest) == Read(Good, node, rest)
      {
        NodeRoundTrip(node, rest);
      }
      forall m | 0 <= m < |NodeBytes(node)|
        ensures ReadNode(NodeBytes(node)[..m]).status != Good
      {
        CutNode(node, m);
      }
    }
    var none: seq<KadNode> := [];
    CutRun(ReadNode, NodeBytes, ns, none, n);
    assert none + ns[..WholeItems(NodeBytes, ns, n)] == ns[..WholeItems(NodeBytes, ns, n)];
  }

  lemma CutListRead(ns: seq<KadNode>, n: nat)
    requires ListFitsTypes(ns) && AllStorable(ns) && n < |ListBytes(ns)|
    ensures var r := ReadList(ListBytes(ns)[..n]); r.status != Good && r.value == CutList(ns, n)
  {
    if n >= 4 {
      var count, nodes := ToLE(|ns|, 4), WriteMany(NodeBytes, ns);
      CutAppend(count, nodes, n);
      AppendParts(count, nodes[..n - 4]);
      CountField(|ns|);
      CutNodes(ns, n - 4);
    }
  }

  /** A bucket that is cut short breaks off the reading. */
  lemma CutBucketBreaks(b: Bucket, n: nat)
    requires BucketFitsTypes(b) && BucketStorable(b) && n < |BucketBytes(b)|
    ensures var r := ReadBucket(BucketBytes(b)[..n]); r.status != Good && r.value == CutShort(b, n)
  {
    var live, cached := ListBytes(b.nodes), ListBytes(b.replacements);
    CutAppend(live, cached, n);
    if n < |live| {
      CutListRead(b.nodes, n);
    } else {
      ListRoundTrip(b.nodes, cached[..n - |live|]);
      CutListRead(b.replacements, n - |live|);
      BothListsRead(live, cached[..n - |live|], b.nodes);
    }
  }

  lemma BothListsRead(live: Bytes, rest: Bytes, nodes: seq<KadNode>)
    requires ReadList(live + rest) == Read(Good, nodes, rest)
    ensures ReadBucket(live + rest).status == ReadList(rest).status
    ensures ReadBucket(live + rest).value == Bucket(nodes, ReadList(rest).value)
  {
  }

  lemma BucketCutsTo(b: Bucket)
    requires BucketFitsTypes(b) && BucketStorable(b)
    ensures CutsTo(ReadBucket, BucketBytes, CutShort, b)
  {
    forall rest
      ensures ReadBucket(BucketBytes(b) + rest) == Read(Good, b, rest)
    {
      BucketRoundTrip(b, rest);
    }
    forall n | 0 <= n < |BucketBytes(b)|
      ensures ReadBucket(BucketBytes(b)[..n]).status != Good
      ensures ReadBucket(BucketBytes(b)[..n]).value == CutShort(b, n)
    {
      CutBucketBreaks(b, n);
    }
  }

  lemma {:induction false} BucketsAreMany(bs: seq<Bucket>)
    ensures BucketsBytes(bs) == WriteMany(BucketBytes, bs)
  {
    if bs != [] {
      BucketsAreMany(bs[1..]);
    }
  }

  lemma {:induction false} ReadBucketsReplace(i: nat, bs: seq<Bucket>, file: Bytes)
    requires i <= |bs|
    ensures ReadBuckets(i, bs, file).value == bs[..i] + ReplaceMany(ReadBucket, bs[i..], file).value
    decreases |bs| - i
  {
    if i < |bs| {
      var b := ReadBucket(file);
      var bs' := bs[i := b.value];
      assert bs[i..][1..] == bs[i + 1..] == bs'[i + 1..];
      assert bs'[..i + 1] == bs[..i] + [b.value];
      if b.status == Good {
        ReadBucketsReplace(i + 1, bs', b.rest);
      } else {
        assert bs' == bs'[..i + 1] + bs'[i + 1..];
      }
    }
  }

  /** What reading comes to when the file is cut after `n` bytes, wherever that is: the whole buckets, then
      one of which the whole nodes are left, then what was held. */
  lemma CutBuckets(bs: seq<Bucket>, held: seq<Bucket>, n: nat)
    requires |bs| == |held| && forall b | b in bs :: BucketFitsTypes(b) && BucketStorable(b)
    requires n <= |BucketsBytes(bs)|
    ensures ReadBuckets(0, held, BucketsBytes(bs)[..n]).value == CutReplaced(BucketBytes, CutShort, bs, held, n)
  {
    forall b | b in bs
      ensures CutsTo(ReadBucket, BucketBytes, CutShort, b)
    {
      BucketCutsTo(b);
    }
    BucketsAreMany(bs);
    CutReplace(ReadBucket, BucketBytes, CutShort, bs, held, n);
    ReadBucketsReplace(0, held, BucketsBytes(bs)[..n]);
    assert held[0..] == held && held[..0] == [];
  }

  /** Every strict prefix of a written file is rejected, and safely so. */
  lemma PrefixRejected(bs: seq<Bucket>, held: seq<Bucket>, k: nat)
    requires |held| == |bs| && k < |BucketsBytes(bs)|
    requires forall b | b in bs :: BucketFitsTypes(b) && BucketStorable(b)
    ensures ReadBuckets(0, held, BucketsBytes(bs)[..k]).status == Bad
  {
    var file := BucketsBytes(bs);
    var cut, more := file[..k], file[k..];
    assert cut + more == file && file + [] == file && bs[0..] == bs;
    BucketsRoundTrip(bs, 0, held, []);
    ReadBucketsExtends(0, held, cut, more);
    var r := ReadBuckets(0, held, cut);
    assert |r.rest + more| > 0;
  }
}
