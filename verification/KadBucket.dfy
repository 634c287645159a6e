/** One bucket of the routing table: at most 20 live nodes and a replacement cache. */
module KadBucket {
  import opened KadId
  import opened KadNode
  import opened Sorting

  const BUCKET_MAX: nat := 20
  const STALES_THR: int := 5

  /** The contents of a bucket. */
  datatype Bucket = Bucket(nodes: seq<KadNode>, replacements: seq<KadNode>) {
    /** Every identifier held, live first. */
    function All(): seq<KadNode> {
      nodes + replacements
    }

    predicate IsLive(id: KadId) {
      Find(nodes, id) < |nodes|
    }

    predicate IsCached(id: KadId) {
      Find(replacements, id) < |replacements|
    }
  }

  const EMPTY_BUCKET := Bucket([], [])

  // Specification of pushNode and removeNode

  /** The node to evict: the first of those with the most failures, if they reach the threshold. */
  ghost predicate IsStalest(ns: seq<KadNode>, k: nat) {
    && k < |ns|
    && ns[k].stales >= STALES_THR
    && (forall j | 0 <= j < k :: ns[j].stales < ns[k].stales)
    && (forall j | k < j < |ns| :: ns[j].stales <= ns[k].stales)
  }

  /** Index of the stalest node, or `|ns|` when no node has reached the threshold. */
  function Stalest(ns: seq<KadNode>): (k: nat)
    ensures k <= |ns|
    ensures k < |ns| ==> IsStalest(ns, k)
    ensures k == |ns| ==> forall n | n in ns :: n.stales < STALES_THR
  {
    if ns == [] then 0
    else
      var init, last := ns[..|ns| - 1], ns[|ns| - 1];
      var k := Stalest(init);
      assert forall j | 0 <= j < |init| :: ns[j] == init[j];
      assert forall n | n in ns :: n in init || n == last;
      if last.stales >= STALES_THR && (k == |init| || last.stales > init[k].stales) then |init|
      else if k == |init| then |ns|
      else k
  }

  /** The bucket after a push, before it is sorted again. */
  function Pushed(b: Bucket, kn: KadNode, now: int): Bucket {
    var i := Find(b.nodes, kn.id);
    var stalest := Stalest(b.nodes);
    var c := Find(b.replacements, kn.id);
    if i < |b.nodes| then
      b.(nodes := b.nodes[i := b.nodes[i].SeenNow(now).ResetStales()])
    else if |b.nodes| < BUCKET_MAX then
      b.(nodes := b.nodes + [kn])
    else if stalest < |b.nodes| then
      b.(nodes := Without(b.nodes, stalest) + [kn])
    else if c < |b.replacements| then
      b.(replacements := b.replacements[c := b.replacements[c].SeenNow(now)])
    else if |b.replacements| < BUCKET_MAX then
      b.(replacements := b.replacements + [kn])
    else
      b.(replacements := b.replacements[..|b.replacements| - 1] + [kn])
  }

  /** What `pushNode` returns: the node was already held, live or (in a full bucket with nothing
      to evict) cached. */
  predicate PushFinds(b: Bucket, kn: KadNode) {
    || b.IsLive(kn.id)
    || (|b.nodes| >= BUCKET_MAX && Stalest(b.nodes) == |b.nodes| && b.IsCached(kn.id))
  }

  ghost predicate Reordered(b: Bucket, b': Bucket) {
    && SortedPermutation(b.nodes, b'.nodes, Recency)
    && SortedPermutation(b.replacements, b'.replacements, Recency)
  }

  ghost predicate PushStep(b: Bucket, kn: KadNode, now: int, b': Bucket) {
    Reordered(Pushed(b, kn, now), b')
  }

  /** The failed node `i` replaced by the most recently seen cached one. */
  function Promoted(b: Bucket, i: nat): Bucket
    requires i < |b.nodes| && b.replacements != []
  {
    Bucket(Without(b.nodes, i) + [b.replacements[0]], b.replacements[1..])
  }

  function Failed(b: Bucket, i: nat): Bucket
    requires i < |b.nodes|
  {
    b.(nodes := b.nodes[i := b.nodes[i].IncrementStales()])
  }

  ghost predicate RemoveStep(b: Bucket, id: KadId, b': Bucket) {
    var i := Find(b.nodes, id);
    if i == |b.nodes| then b' == b
    else if b.replacements == [] then b' == Failed(b, i)
    else Reordered(Promoted(b, i), b')
  }

  // The class

  class KadBucket {
    const height: int
    var nodes: seq<KadNode>
    var replacementNodes: seq<KadNode>

    constructor (height: int)
      ensures State() == EMPTY_BUCKET && this.height == height
    {
      this.height := height;
      nodes, replacementNodes := [], [];
    }

    function State(): Bucket
      reads this
    {
      Bucket(nodes, replacementNodes)
    }

    /** Only the live list is searched. */
    method HasNode(kn: KadNode) returns (found: bool)
      ensures found <==> State().IsLive(kn.id)
      ensures found <==> exists n | n in nodes :: n.id == kn.id
    {
      found := Find(nodes, kn.id) != |nodes|;
      if found {
        assert nodes[Find(nodes, kn.id)] in nodes;
      }
    }

    method IsFull() returns (full: bool)
      ensures full <==> |State().nodes| == BUCKET_MAX
    {
      full := |nodes| == BUCKET_MAX;
    }

    /** `pushNode`; `now` is the clock. */
    method PushNode(kn: KadNode, now: int) returns (found: bool)
      modifies this
      ensures PushStep(old(State()), kn, now, State())
      ensures found <==> PushFinds(old(State()), kn)
    {
      var ikn := Find(nodes, kn.id);
      found := ikn != |nodes|;
      if found {
        nodes := nodes[ikn := nodes[ikn].SeenNow(now).ResetStales()];
      } else if |nodes| < BUCKET_MAX {
        nodes := nodes + [kn];
      } else {
        var stalest := FindStalest();
        if stalest != |nodes| {
          nodes := Without(nodes, stalest);
          nodes := nodes + [kn];
        } else {
          ikn := Find(replacementNodes, kn.id);
          found := ikn != |replacementNodes|;
          if found {
            replacementNodes := replacementNodes[ikn := replacementNodes[ikn].SeenNow(now)];
          } else if |replacementNodes| < BUCKET_MAX {
            replacementNodes := replacementNodes + [kn];
          } else {
            replacementNodes := replacementNodes[..|replacementNodes| - 1];
            replacementNodes := replacementNodes + [kn];
          }
        }
      }
      Reorder();
    }

    /** The `staleMax` scan of `pushNode`. */
    method FindStalest() returns (stalest: nat)
      ensures stalest == Stalest(nodes)
    {
      var staleMax := 0;
      stalest := |nodes|;
      var it := 0;
      while it < |nodes|
        invariant 0 <= it <= |nodes|
        invariant stalest == if Stalest(nodes[..it]) == it then |nodes| else Stalest(nodes[..it])
        invariant staleMax == if stalest == |nodes| then 0 else nodes[stalest].stales
      {
        assert nodes[..it + 1][..it] == nodes[..it];
        if nodes[it].stales >= STALES_THR && nodes[it].stales > staleMax {
          staleMax := nodes[it].stales;
          stalest := it;
        }
        it := it + 1;
      }
      assert nodes[..it] == nodes;
    }

    method RemoveNode(id: KadId) returns (found: bool)
      modifies this
      ensures RemoveStep(old(State()), id, State())
      ensures found <==> old(State()).IsLive(id)
    {
      var ikn := Find(nodes, id);
      if ikn != |nodes| {
        if |replacementNodes| != 0 {
          nodes := Without(nodes, ikn);
          nodes := nodes + [replacementNodes[0]];
          replacementNodes := replacementNodes[1..];
          Reorder();
        } else {
          nodes := nodes[ikn := nodes[ikn].IncrementStales()];
        }
        return true;
      }
      return false;
    }

    method Reorder()
      modifies this
      ensures Reordered(old(State()), State())
    {
      nodes := Sort(nodes, Recency);
      replacementNodes := Sort(replacementNodes, Recency);
    }
  }

  // The invariant

  /** What pushes and removals keep before `reorder`. */
  ghost predicate Unsorted(b: Bucket) {
    && |b.nodes| <= BUCKET_MAX
    && |b.replacements| <= BUCKET_MAX
    && DistinctIds(b.All())
    && (forall n | n in b.replacements :: n.stales < STALES_THR)
    && (b.replacements != [] ==>
          |b.nodes| == BUCKET_MAX && forall n | n in b.nodes :: n.stales < STALES_THR)
  }

  ghost predicate Inv(b: Bucket) {
    Unsorted(b) && SortedBy(b.nodes, Recency) && SortedBy(b.replacements, Recency)
  }

  /** What the source demands of a pushed node: it carries fewer failures than the threshold, or
      it is a copy of a live node. */
  predicate Admissible(b: Bucket, kn: KadNode) {
    kn.stales < STALES_THR || b.IsLive(kn.id)
  }

  lemma DistinctPermutation(a: seq<KadNode>, b: seq<KadNode>)
    requires multiset(a) == multiset(b) && DistinctIds(a)
    ensures DistinctIds(b)
  {
    forall i, j | 0 <= i < j < |b|
      ensures b[i].id != b[j].id
    {
      var p, q := PermutationPair(a, b, i, j);
    }
  }

  lemma ReorderRestores(b: Bucket, b': Bucket)
    requires Unsorted(b) && Reordered(b, b')
    ensures Inv(b')
  {
    assert multiset(b.All()) == multiset(b'.All());
    DistinctPermutation(b.All(), b'.All());
    PermutationMembers(b.nodes, b'.nodes);
    PermutationMembers(b.replacements, b'.replacements);
  }

  // Sequences of nodes with distinct identifiers

  lemma AppendDistinct(ns: seq<KadNode>, kn: KadNode)
    requires DistinctIds(ns) && forall n | n in ns :: n.id != kn.id
    ensures DistinctIds(ns + [kn])
  {
  }

  lemma WithoutDistinct(ns: seq<KadNode>, k: nat)
    requires DistinctIds(ns) && k < |ns|
    ensures DistinctIds(Without(ns, k))
    ensures forall n | n in Without(ns, k) :: n in ns
  {
    var r := Without(ns, k);
    assert forall j | 0 <= j < |r| :: r[j] == ns[if j < k then j else j + 1];
  }

  lemma SameIdsDistinct(ns: seq<KadNode>, ms: seq<KadNode>)
    requires DistinctIds(ns) && |ms| == |ns|
    requires forall j | 0 <= j < |ns| :: ms[j].id == ns[j].id
    ensures DistinctIds(ms)
  {
  }

  lemma FindMissing(ns: seq<KadNode>, id: KadId)
    requires Find(ns, id) == |ns|
    ensures forall n | n in ns :: n.id != id
  {
  }

  lemma PushedKeeps(b: Bucket, kn: KadNode, now: int)
    requires Inv(b) && Admissible(b, kn)
    ensures Unsorted(Pushed(b, kn, now))
  {
    var i, k := Find(b.nodes, kn.id), Stalest(b.nodes);
    if i < |b.nodes| {
      SameIdsDistinct(b.All(), Pushed(b, kn, now).All());
    } else {
      FindMissing(b.nodes, kn.id);
      if |b.nodes| < BUCKET_MAX {
        assert b.All() == b.nodes && Pushed(b, kn, now).All() == b.nodes + [kn];
        AppendDistinct(b.nodes, kn);
      } else if k < |b.nodes| {
        assert b.nodes[k] in b.nodes && b.All() == b.nodes;
        WithoutDistinct(b.nodes, k);
        AppendDistinct(Without(b.nodes, k), kn);
        assert Pushed(b, kn, now).All() == Without(b.nodes, k) + [kn];
      } else {
        PushedCacheKeeps(b, kn, now);
      }
    }
  }

  lemma PushedCacheKeeps(b: Bucket, kn: KadNode, now: int)
    requires Inv(b) && kn.stales < STALES_THR && |b.nodes| == BUCKET_MAX
    requires Find(b.nodes, kn.id) == |b.nodes| == Stalest(b.nodes)
    ensures Unsorted(Pushed(b, kn, now))
  {
    var c, p := Find(b.replacements, kn.id), Pushed(b, kn, now);
    FindMissing(b.nodes, kn.id);
    if c < |b.replacements| {
      SameIdsDistinct(b.All(), p.All());
    } else {
      FindMissing(b.replacements, kn.id);
      if |b.replacements| < BUCKET_MAX {
        assert p.All() == b.All() + [kn];
        AppendDistinct(b.All(), kn);
      } else {
        var rest := Without(b.All(), |b.All()| - 1);
        assert p.All() == rest + [kn];
        WithoutDistinct(b.All(), |b.All()| - 1);
        AppendDistinct(rest, kn);
      }
    }
  }

  /** Every push keeps the bucket invariant. */
  lemma PushKeepsInv(b: Bucket, kn: KadNode, now: int, b': Bucket)
    requires Inv(b) && Admissible(b, kn) && PushStep(b, kn, now, b')
    ensures Inv(b')
  {
    PushedKeeps(b, kn, now);
    ReorderRestores(Pushed(b, kn, now), b');
  }

  lemma PromotedKeeps(b: Bucket, i: nat)
    requires Inv(b) && i < |b.nodes| && b.replacements != []
    ensures Unsorted(Promoted(b, i))
  {
    var p := Promoted(b, i);
    assert b.replacements == [b.replacements[0]] + b.replacements[1..];
    assert p.All() == Without(b.All(), i);
    WithoutDistinct(b.All(), i);
    WithoutDistinct(b.nodes, i) by {
      assert forall j | 0 <= j < |b.nodes| :: b.All()[j] == b.nodes[j];
    }
  }

  /** Every removal keeps the bucket invariant. */
  lemma RemoveKeepsInv(b: Bucket, id: KadId, b': Bucket)
    requires Inv(b) && RemoveStep(b, id, b')
    ensures Inv(b')
  {
    var i := Find(b.nodes, id);
    if i < |b.nodes| {
      if b.replacements == [] {
        assert forall j | 0 <= j < |b'.nodes| :: Recency(b'.nodes[j]) == Recency(b.nodes[j]);
        assert forall j | 0 <= j < |b'.All()| :: b'.All()[j].id == b.All()[j].id;
      } else {
        PromotedKeeps(b, i);
        ReorderRestores(Promoted(b, i), b');
      }
    }
  }

  // Where the nodes of a bucket come from

  lemma AllOfPermutation(b: Bucket, b': Bucket, n: KadNode)
    requires Reordered(b, b') && n in b'.All()
    ensures n in b.All()
  {
    PermutationMembers(b.nodes, b'.nodes);
    PermutationMembers(b.replacements, b'.replacements);
  }

  /** After a push every node held is the pushed one or was held before, perhaps seen just now. */
  lemma PushOrigin(b: Bucket, kn: KadNode, now: int, b': Bucket, n: KadNode) returns (m: KadNode)
    requires PushStep(b, kn, now, b') && n in b'.All()
    ensures m == kn == n || (m in b.All() && n.id == m.id && (n.lastSeen == m.lastSeen || n.lastSeen == now))
  {
    var p := Pushed(b, kn, now);
    AllOfPermutation(p, b', n);
    if n in p.nodes {
      m := ListOrigin(p.nodes, b.nodes, kn, now, n);
    } else {
      m := ListOrigin(p.replacements, b.replacements, kn, now, n);
    }
  }

  /** The same for one list changed in one of the four ways of `Pushed`. */
  lemma ListOrigin(p: seq<KadNode>, ns: seq<KadNode>, kn: KadNode, now: int, n: KadNode) returns (m: KadNode)
    requires n in p
    requires
      || p == ns || p == ns + [kn]
      || (exists i | 0 <= i < |ns| :: p == Without(ns, i) + [kn])
      || (|ns| > 0 && p == ns[..|ns| - 1] + [kn])
      || (exists i | 0 <= i < |ns| :: p == ns[i := ns[i].SeenNow(now)] || p == ns[i := ns[i].SeenNow(now).ResetStales()])
    ensures m == kn == n || (m in ns && n.id == m.id && (n.lastSeen == m.lastSeen || n.lastSeen == now))
  {
    if n == kn || n in ns {
      return n;
    }
    var i :| 0 <= i < |ns| && (p == ns[i := ns[i].SeenNow(now)] || p == ns[i := ns[i].SeenNow(now).ResetStales()]);
    assert ns[i] in ns;
    return ns[i];
  }

  /** After a removal every node held was held before, perhaps with one failure fewer. */
  lemma RemoveOrigin(b: Bucket, id: KadId, b': Bucket, n: KadNode) returns (m: KadNode)
    requires RemoveStep(b, id, b') && n in b'.All()
    ensures m in b.All() && (n == m || n == m.IncrementStales())
  {
    var i := Find(b.nodes, id);
    m := n;
    if i < |b.nodes| {
      if b.replacements == [] {
        if n !in b.nodes {
          m := b.nodes[i];
        }
      } else {
        AllOfPermutation(Promoted(b, i), b', n);
      }
    }
  }
}
