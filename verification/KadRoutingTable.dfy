/** The routing table: 128 buckets, indexed by the height of the xor distance to `self`. */
module KadRoutingTable {
  import opened Bits
  import opened KadId
  import opened KadNode
  import opened Sorting
  import opened KadBucket
  import opened LittleEndian
  import opened Codec
  import opened TableFile

  /** The contents of a table. */
  datatype Table = Table(self: KadNode, buckets: seq<Bucket>) {
    ghost predicate WellFormed() {
      |buckets| == ID_BITS
    }
  }

  function EmptyBuckets(): seq<Bucket> {
    seq(ID_BITS, _ => EMPTY_BUCKET)
  }

  function WithAddress(t: Table, address: Bytes): Table {
    Table(t.self.(address := address), t.buckets)
  }

  // Specification of pushNode and removeNode

  predicate Refuses(t: Table, kn: KadNode) {
    t.self.id == kn.id || t.self.address == kn.address
  }

  ghost predicate OnlyBucketChanges(t: Table, h: int, t': Table) {
    && t'.self == t.self
    && |t'.buckets| == |t.buckets|
    && forall g | 0 <= g < |t.buckets| && g != h :: t'.buckets[g] == t.buckets[g]
  }

  function Home(t: Table, id: KadId): (h: nat)
    requires t.WellFormed() && t.self.id != id
    ensures h < |t.buckets| && h == BucketOf(t.self.id, id)
  {
    BucketRange(t.self.id, id);
    BucketOf(t.self.id, id)
  }

  ghost predicate TablePush(t: Table, kn: KadNode, now: int, t': Table)
    requires t.WellFormed()
  {
    if Refuses(t, kn) then t' == t
    else
      var h := Home(t, kn.id);
      OnlyBucketChanges(t, h, t') && PushStep(t.buckets[h], kn, now, t'.buckets[h])
  }

  ghost predicate TableRemove(t: Table, id: KadId, t': Table)
    requires t.WellFormed()
  {
    if t.self.id == id then t' == t
    else
      var h := Home(t, id);
      OnlyBucketChanges(t, h, t') && RemoveStep(t.buckets[h], id, t'.buckets[h])
  }

  // Specification of getClosestTo

  function LiveAt(buckets: seq<Bucket>, g: int): seq<KadNode> {
    if 0 <= g < |buckets| then buckets[g].nodes else []
  }

  /** The live nodes that a search from bucket `h` meets in its first `i` steps outward, in order:
      `h`, then `h - 1`, `h + 1`, `h - 2`, `h + 2` and so on. */
  function WalkTo(buckets: seq<Bucket>, h: nat, i: nat): seq<KadNode> {
    if i == 0 then LiveAt(buckets, h)
    else (WalkTo(buckets, h, i - 1) + LiveAt(buckets, h - i)) + LiveAt(buckets, h + i)
  }

  /** The whole search. */
  function Walk(t: Table, h: nat): seq<KadNode> {
    WalkTo(t.buckets, h, |t.buckets|)
  }

  /** The search stops at this many nodes: the comparison with `closest.size()` turns a negative
      `count` into a huge unsigned number. */
  function Limit(count: int): (limit: nat)
    requires -0x8000_0000 <= count < 0x8000_0000
  {
    if count < 0 then 0x1_0000_0000_0000_0000 + count else count
  }

  function Take<T>(s: seq<T>, limit: nat): seq<T> {
    if |s| <= limit then s else s[..limit]
  }

  function ByDistance(target: KadId): KadNode -> int {
    (n: KadNode) => Dist(n.id, target)
  }

  ghost predicate IsClosestAnswer(t: Table, target: KadId, count: int, r: seq<KadNode>)
    requires t.WellFormed() && -0x8000_0000 <= count < 0x8000_0000
  {
    if t.self.id == target then r == []
    else SortedPermutation(Take(Walk(t, Home(t, target)), Limit(count)), r, ByDistance(target))
  }

  // Specification of readFile

  /** The table after reading `file`: a failed read keeps what it had read until then. */
  function ReadTable(t: Table, file: Bytes): Read<Bytes, Table> {
    if |file| < ID_LENGTH then
      var id: KadId := file + t.self.id[|file|..];
      Read(Bad, Table(t.self.(id := id), t.buckets), [])
    else
      var r := ReadBuckets(0, t.buckets, file[ID_LENGTH..]);
      Read(r.status, Table(t.self.(id := file[..ID_LENGTH]), r.value), r.rest)
  }

  // The class

  class KadRoutingTable {
    var selfNode: KadNode
    const buckets: array<KadBucket>

    ghost predicate Valid()
      reads this, buckets
    {
      && buckets.Length == ID_BITS
      && forall i, j | 0 <= i < j < buckets.Length :: buckets[i] != buckets[j]
    }

    function State(): (t: Table)
      requires Valid()
      reads this, buckets, buckets[..]
      ensures t.WellFormed()
    {
      Table(selfNode, seq(ID_BITS, h requires 0 <= h < ID_BITS reads this, buckets, buckets[..] => buckets[h].State()))
    }

    /** `randomSelf` is the random identifier the source draws. */
    constructor (randomSelf: KadId)
      ensures Valid() && fresh(buckets) && fresh(buckets[..])
      ensures State() == Table(FreshNode(randomSelf, []), EmptyBuckets())
    {
      selfNode := FreshNode(randomSelf, []);
      var first := new KadBucket(0);
      var bs := new KadBucket[ID_BITS](_ => first);
      buckets := bs;
      new;
      for i := 0 to ID_BITS
        modifies bs
        invariant buckets == bs && bs.Length == ID_BITS
        invariant forall j | 0 <= j < i :: fresh(bs[j]) && bs[j].State() == EMPTY_BUCKET
        invariant forall j | 0 <= j < ID_BITS :: fresh(bs[j])
        invariant forall j, k | 0 <= j < k < i :: bs[j] != bs[k]
      {
        bs[i] := new KadBucket(i);
      }
    }

    method SetSelfNodeAddress(address: Bytes)
      requires Valid()
      modifies this
      ensures Valid() && State() == WithAddress(old(State()), address)
      ensures selfNode == old(selfNode).(address := address)
    {
      selfNode := selfNode.(address := address);
    }

    method IsFull() returns (full: bool)
      requires Valid()
      ensures full <==> forall b | b in State().buckets :: |b.nodes| == BUCKET_MAX
    {
      ghost var bs := State().buckets;
      for i := 0 to ID_BITS
        invariant forall j | 0 <= j < i :: |bs[j].nodes| == BUCKET_MAX
      {
        var bucketFull := buckets[i].IsFull();
        if !bucketFull {
          assert bs[i] in bs;
          return false;
        }
      }
      return true;
    }

    /** Scans the live lists of all 128 buckets. */
    method HasNode(kn: KadNode) returns (found: bool)
      requires Valid()
      ensures found <==> exists b | b in State().buckets :: b.IsLive(kn.id)
    {
      ghost var bs := State().buckets;
      for i := 0 to ID_BITS
        invariant forall j | 0 <= j < i :: !bs[j].IsLive(kn.id)
      {
        var here := buckets[i].HasNode(kn);
        if here {
          assert bs[i] in bs;
          return true;
        }
      }
      return false;
    }

    method PushNode(kn: KadNode, now: int) returns (found: bool)
      requires Valid()
      modifies buckets[..]
      ensures Valid() && TablePush(old(State()), kn, now, State())
      ensures found <==>
              !Refuses(old(State()), kn) && PushFinds(old(State()).buckets[Home(old(State()), kn.id)], kn)
      ensures kn.id == selfNode.id || kn.address == selfNode.address ==> !found && State() == old(State())
    {
      if selfNode.id == kn.id || selfNode.address == kn.address {
        return false;
      }
      var distance := Minus(selfNode.id, kn.id);
      BucketRange(selfNode.id, kn.id);
      var height := Height(distance);
      found := buckets[height].PushNode(kn, now);
    }

    method RemoveNode(id: KadId) returns (found: bool)
      requires Valid()
      modifies buckets[..]
      ensures Valid() && TableRemove(old(State()), id, State())
      ensures found <==> old(State()).self.id != id && old(State()).buckets[Home(old(State()), id)].IsLive(id)
    {
      if selfNode.id == id {
        return false;
      }
      var distance := Minus(selfNode.id, id);
      BucketRange(selfNode.id, id);
      var height := Height(distance);
      found := buckets[height].RemoveNode(id);
    }

    method GetKClosestTo(id: KadId) returns (closest: seq<KadNode>, size: int)
      requires Valid()
      ensures IsClosestAnswer(State(), id, 16, closest) && size == |closest|
    {
      closest, size := GetClosestTo(id, ID_LENGTH);
    }

    /** Copies live nodes bucket by bucket, outward from the target's bucket, until `count` are
        found, and sorts them by distance. `count` is a 32-bit `int`. */
    method GetClosestTo(id: KadId, count: int) returns (closest: seq<KadNode>, size: int)
      requires Valid() && -0x8000_0000 <= count < 0x8000_0000
      ensures IsClosestAnswer(State(), id, count, closest) && size == |closest|
    {
      closest := [];
      if selfNode.id == id {
        return closest, 0;
      }
      BucketRange(selfNode.id, id);
      var distance := Minus(selfNode.id, id);
      var height := Height(distance);
      closest := CopyOutward(State().buckets, height, Limit(count));
      closest := Sort(closest, ByDistance(id));
      size := |closest|;
    }

    /** The outer loop of `getClosestTo`, over the buckets as they are. */
    static method CopyOutward(bs: seq<Bucket>, height: nat, limit: nat) returns (closest: seq<KadNode>)
      requires height < |bs| == ID_BITS
      ensures closest == Take(WalkTo(bs, height, |bs|), limit)
    {
      assert [] + LiveAt(bs, height) == WalkTo(bs, height, 0);
      closest := CopyLive([], bs[height].nodes, limit, []);
      var i := 1;
      ghost var done := 0;
      while height - i >= 0 || height + i < ID_BITS
        invariant 1 <= i <= ID_BITS
        invariant done == i - 1 && closest == Take(WalkTo(bs, height, done), limit)
        decreases ID_BITS - i
      {
        closest := CopyBothSides(closest, bs, height, i, limit, done);
        done := i;
        i := i + 1;
      }
      WalkStops(bs, height, done);
    }

    /** One round of the outer loop: the bucket `i` below and the bucket `i` above. */
    static method CopyBothSides(found: seq<KadNode>, bs: seq<Bucket>, height: nat, i: nat, limit: nat,
                                ghost done: nat)
      returns (closest: seq<KadNode>)
      requires height < |bs| == ID_BITS && i == done + 1
      requires found == Take(WalkTo(bs, height, done), limit)
      ensures closest == Take(WalkTo(bs, height, i), limit)
    {
      closest := found;
      ghost var walk := WalkTo(bs, height, done);
      if height - i >= 0 {
        closest := CopyLive(closest, bs[height - i].nodes, limit, walk);
      } else {
        AppendNothing(walk);
      }
      walk := walk + LiveAt(bs, height - i);
      if height + i < ID_BITS {
        closest := CopyLive(closest, bs[height + i].nodes, limit, walk);
      } else {
        AppendNothing(walk);
      }
    }

    /** The inner loop of `getClosestTo`: what was `found` are the first nodes of `before`. */
    static method CopyLive(found: seq<KadNode>, nodes: seq<KadNode>, limit: nat, ghost before: seq<KadNode>)
      returns (closest: seq<KadNode>)
      requires found == Take(before, limit)
      ensures closest == Take(before + nodes, limit)
    {
      closest := found;
      var j := 0;
      while j < |nodes| && |closest| < limit
        invariant 0 <= j <= |nodes|
        invariant closest == Take(before + nodes[..j], limit)
        invariant |before| >= limit ==> j == 0
      {
        closest := closest + [nodes[j]];
        assert before + nodes[..j] + [nodes[j]] == before + nodes[..j + 1];
        j := j + 1;
      }
      assert before + nodes == (before + nodes[..j]) + nodes[j..];
    }

    /** `writeFile`; the result is the contents of the file. */
    method WriteFile() returns (file: Bytes)
      requires Valid()
      ensures file == TableBytes(State().self.id, State().buckets)
    {
      file := WriteBuckets(selfNode.id, State().buckets);
    }

    /** The loop of `writeFile` over the buckets as they are. */
    static method WriteBuckets(self: KadId, bs: seq<Bucket>) returns (file: Bytes)
      ensures file == TableBytes(self, bs)
    {
      file := self;
      assert self + [] == self;
      for i := 0 to |bs|
        invariant file == self + BucketsBytes(bs[..i])
      {
        file := WriteBucket(file, bs[i]);
        NextBucketWritten(self, bs, i);
      }
      assert bs[..|bs|] == bs;
    }

    static method WriteBucket(before: Bytes, b: Bucket) returns (file: Bytes)
      ensures file == before + BucketBytes(b)
    {
      file := before + ToLE(|b.nodes|, 4);
      file := WriteNodes(file, b.nodes);
      assert file == before + ListBytes(b.nodes);
      file := file + ToLE(|b.replacements|, 4);
      file := WriteNodes(file, b.replacements);
      assert file == (before + ListBytes(b.nodes)) + ListBytes(b.replacements);
    }

    static method WriteNodes(before: Bytes, ns: seq<KadNode>) returns (file: Bytes)
      ensures file == before + WriteMany(NodeBytes, ns)
    {
      file := before;
      assert before + [] == before;
      for j := 0 to |ns|
        invariant file == before + WriteMany(NodeBytes, ns[..j])
      {
        ghost var start := file;
        var kn := ns[j];
        file := file + kn.id;
        file := file + ToLE(|kn.address|, 2);
        file := file + kn.address;
        file := file + SignedToLE(kn.lastSeen, 8);
        file := file + SignedToLE(kn.stales, 4);
        assert file == start + NodeBytes(kn);
        WriteManyAppend(NodeBytes, ns[..j], kn);
        assert ns[..j + 1] == ns[..j] + [kn];
      }
      assert ns[..|ns|] == ns;
    }

    /** `readFile` of a file with these contents. The source must not be given one that overruns
        its address buffer. */
    method ReadFile(file: Bytes) returns (ret: int)
      requires Valid() && ReadTable(State(), file).status != Overrun
      modifies this, buckets
      ensures Valid()
      ensures State() == ReadTable(old(State()), file).value
      ensures ret == if ReadTable(old(State()), file).status == Good then 0 else -1
    {
      if |file| < ID_LENGTH {
        selfNode := selfNode.(id := file + selfNode.id[|file|..]);
        return -1;
      }
      ghost var held := State().buckets;
      ghost var now := held;
      selfNode := selfNode.(id := file[..ID_LENGTH]);
      var rest := file[ID_LENGTH..];
      for i := 0 to ID_BITS
        invariant Valid() && selfNode == old(selfNode).(id := file[..ID_LENGTH])
        invariant Holds(now)
        invariant ReadBuckets(0, held, file[ID_LENGTH..]) == ReadBuckets(i, now, rest)
      {
        var status;
        status, now, rest := ReplaceBucket(i, rest, now);
        if status != Good {
          HoldsIsState(now);
          return -1;
        }
      }
      HoldsIsState(now);
      return 0;
    }

    /** One round of `readFile`: a new bucket, filled from the file as far as it goes. */
    method ReplaceBucket(i: nat, file: Bytes, ghost held: seq<Bucket>)
      returns (status: Status, ghost now: seq<Bucket>, rest: Bytes)
      requires Valid() && i < ID_BITS && Holds(held)
      modifies buckets
      ensures Valid() && Holds(now)
      ensures var b := ReadBucket(file); status == b.status && rest == b.rest && now == held[i := b.value]
    {
      var buck := new KadBucket(i);
      status, buck.nodes, buck.replacementNodes, rest := ReadOneBucket(file);
      buckets[i] := buck;
      now := held[i := buck.State()];
    }

    ghost predicate Holds(bs: seq<Bucket>)
      requires buckets.Length == ID_BITS
      reads this, buckets, buckets[..]
    {
      |bs| == ID_BITS && forall j | 0 <= j < ID_BITS :: buckets[j].State() == bs[j]
    }

    lemma HoldsIsState(bs: seq<Bucket>)
      requires Valid() && Holds(bs)
      ensures State().buckets == bs
    {
    }

    static method ReadOneBucket(file: Bytes)
      returns (status: Status, nodes: seq<KadNode>, replacements: seq<KadNode>, rest: Bytes)
      ensures Read(status, Bucket(nodes, replacements), rest) == ReadBucket(file)
    {
      replacements := [];
      status, nodes, rest := ReadNodeList(file);
      if status == Good {
        status, replacements, rest := ReadNodeList(rest);
      }
    }

    /** A list as `readFile` reads it: a count and that many nodes. */
    static method ReadNodeList(file: Bytes) returns (status: Status, nodes: seq<KadNode>, rest: Bytes)
      ensures Read(status, nodes, rest) == ReadList(file)
    {
      if |file| < 4 {
        return Bad, [], file;
      }
      var nodesCount := SignedFromLE(file[..4]);
      status, nodes, rest := ReadLoop(ReadNode, nodesCount, file[4..]);
    }
  }

  lemma AppendNothing<T>(s: seq<T>)
    ensures s + [] == s
  {
  }

  /** Once both ends are reached, further steps add nothing. */
  lemma {:induction false} WalkStops(buckets: seq<Bucket>, h: nat, i: nat)
    requires h <= i <= |buckets| <= h + i + 1
    ensures WalkTo(buckets, h, |buckets|) == WalkTo(buckets, h, i)
    decreases |buckets| - i
  {
    if i < |buckets| {
      WalkStops(buckets, h, i + 1);
      AppendNothing(WalkTo(buckets, h, i));
    }
  }
}
