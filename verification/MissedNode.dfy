/** `getClosestTo` does not always return the nearest live nodes: tables reached by two pushes, and
    targets for which the single node returned is farther than the one left out. */
module MissedNode {
  import opened Bits
  import opened KadId
  import opened KadNode
  import opened Sorting
  import opened KadBucket
  import opened KadRoutingTable
  import opened TableRuns
  import opened ClosestNodes
  import opened FirstPushes

  /** The search reaches `far`'s bucket first, but the target's distance lacks the bit at it. Either
      both nodes lie below the target's bucket, where the search goes downward whatever the bits; or
      `far` lies above and `near` below. */
  ghost predicate Misleading(self: KadNode, near: KadNode, far: KadNode, target: KadId) {
    var h, g, f := BucketOf(self.id, target), BucketOf(self.id, near.id), BucketOf(self.id, far.id);
    && 0 <= h && 0 <= g < f && Rank(h, f) < Rank(h, g) && !HasBit(Dist(self.id, target), f)
    && near.stales < STALES_THR && far.stales < STALES_THR
    && self.address != near.address && self.address != far.address
  }

  /** The table after pushing `near` and then `far`. */
  ghost function TwoNodes(self: KadNode, near: KadNode, far: KadNode): Table
    requires 0 <= BucketOf(self.id, near.id) < BucketOf(self.id, far.id)
  {
    BucketRange(self.id, near.id);
    BucketRange(self.id, far.id);
    var one := EmptyBuckets()[BucketOf(self.id, near.id) := Holding(near)];
    Table(self, one[BucketOf(self.id, far.id) := Holding(far)])
  }

  lemma ReachedByTwoPushes(self: KadNode, near: KadNode, far: KadNode, target: KadId)
    returns (states: seq<Table>, events: seq<TableEvent>)
    requires Misleading(self, near, far, target)
    ensures IsRun(states, events) && events == [Push(near, 0), Push(far, 0)]
    ensures states[2] == TwoNodes(self, near, far)
  {
    BucketRange(self.id, near.id);
    BucketRange(self.id, far.id);
    var t0 := Table(self, EmptyBuckets());
    var t1 := Table(self, t0.buckets[Home(t0, near.id) := Holding(near)]);
    var t2 := TwoNodes(self, near, far);
    FirstPush(t0, near, 0, t1);
    FirstPush(t1, far, 0, t2);
    states := [t0, t1, t2];
    events := [Push(near, 0), Push(far, 0)];
  }

  lemma LiveNodes(self: KadNode, near: KadNode, far: KadNode, target: KadId)
    requires Misleading(self, near, far, target) && TableInv(TwoNodes(self, near, far))
    ensures forall n :: Live(TwoNodes(self, near, far), n) <==> n == near || n == far
  {
    var t, g, f := TwoNodes(self, near, far), BucketOf(self.id, near.id), BucketOf(self.id, far.id);
    BucketRange(self.id, near.id);
    BucketRange(self.id, far.id);
    assert t.buckets[g] == Holding(near) && t.buckets[f] == Holding(far);
    LiveIff(t, near);
    LiveIff(t, far);
    forall n | Live(t, n)
      ensures n == near || n == far
    {
      AllLiveBucket(t, ID_BITS, n);
      HeldByTwo(self, near, far, BucketIn(t, n), n);
    }
  }

  lemma HeldByTwo(self: KadNode, near: KadNode, far: KadNode, k: int, n: KadNode)
    requires 0 <= BucketOf(self.id, near.id) < BucketOf(self.id, far.id)
    requires n in LiveAt(TwoNodes(self, near, far).buckets, k)
    ensures n == near || n == far
  {
    BucketRange(self.id, near.id);
    BucketRange(self.id, far.id);
    assert EmptyBuckets()[k].nodes == [];
  }

  /** Asked for the one nearest node, such a table returns `far` and omits `near`, though `near` is
      closer to the target. */
  lemma NearerNodeOmitted(self: KadNode, near: KadNode, far: KadNode, target: KadId, r: seq<KadNode>)
    requires Misleading(self, near, far, target)
    requires Answers(TwoNodes(self, near, far), target, 1, r)
    ensures r == [far] && Live(TwoNodes(self, near, far), near) && near !in r
    ensures Dist(near.id, target) < Dist(far.id, target)
    ensures !IsNearest(TwoNodes(self, near, far), target, r)
  {
    BucketRange(self.id, target);
    BucketRange(self.id, near.id);
    BucketRange(self.id, far.id);
    BitDecides(self.id, near.id, far.id, target);
    LiveNodes(self, near, far, target);
    OnlyFarTaken(TwoNodes(self, near, far), target, near, far, r);
  }

  lemma OnlyFarTaken(t: Table, target: KadId, near: KadNode, far: KadNode, r: seq<KadNode>)
    requires Answers(t, target, 1, r) && near != far
    requires forall n :: Live(t, n) <==> n == near || n == far
    requires Rank(Home(t, target), BucketIn(t, far)) < Rank(Home(t, target), BucketIn(t, near))
    ensures r == [far]
  {
    WalkFacts(t, target);
    var w := Walk(t, Home(t, target));
    assert Live(t, near) && Live(t, far);
    assert forall n | n in w :: Live(t, n);
    FarComesFirst(t, Home(t, target), near, far, w);
    assert Take(w, 1) == [far];
    PermutationMembers([far], r);
    assert r[0] in r;
  }

  lemma FarComesFirst(t: Table, h: int, near: KadNode, far: KadNode, w: seq<KadNode>)
    requires SortedByRank(t, h, w) && near in w && far in w && near != far
    requires forall n | n in w :: n == near || n == far
    requires Rank(h, BucketIn(t, far)) < Rank(h, BucketIn(t, near))
    ensures |w| >= 2 && w[0] == far
  {
    var p :| 0 <= p < |w| && w[p] == near;
    var q :| 0 <= q < |w| && w[q] == far;
    assert w[0] in w;
  }

  // Such tables exist

  function Labelled(id: KadId, address: byte): KadNode {
    FreshNode(id, [address])
  }

  lemma SmallNumbers()
    ensures HeightOf(1) == 0 && HeightOf(4) == 2 && HeightOf(8) == 3
    ensures !Bit(4, 3) && !Bit(8, 2)
  {
  }

  lemma SmallXors()
    ensures Xor(0, 1) == 1 && Xor(0, 4) == 4 && Xor(0, 8) == 8 && Xor(1, 8) == 9 && Xor(4, 8) == 12
  {
  }

  /** The identifiers 0, 1, 4 and 8. */
  lemma SmallIds() returns (id0: KadId, id1: KadId, id4: KadId, id8: KadId)
    ensures Dist(id0, id1) == 1 && Dist(id0, id4) == 4 && Dist(id0, id8) == 8
    ensures Dist(id1, id8) == 9 && Dist(id4, id8) == 12
  {
    id0 := IdOf(0);
    id1 := IdOf(1);
    id4 := IdOf(4);
    id8 := IdOf(8);
    DistIsXor(id0, id1);
    DistIsXor(id0, id4);
    DistIsXor(id0, id8);
    DistIsXor(id1, id8);
    DistIsXor(id4, id8);
    SmallXors();
  }

  /** Nodes 1 and 8, on either side of target 4. */
  lemma MisleadingTablesExist() returns (self: KadNode, near: KadNode, far: KadNode, target: KadId)
    ensures Misleading(self, near, far, target)
    ensures BucketOf(self.id, near.id) < BucketOf(self.id, target) < BucketOf(self.id, far.id)
  {
    var id0, id1, id4, id8 := SmallIds();
    target := id4;
    self, near, far := MisleadingAt(id0, id1, id8, target);
  }

  /** Nodes 1 and 4, both below target 8: the search returns 4, at distance 12, and omits 1, at
      distance 9. */
  lemma MisleadingBelowTarget() returns (self: KadNode, near: KadNode, far: KadNode, target: KadId)
    ensures Misleading(self, near, far, target)
    ensures BucketOf(self.id, near.id) < BucketOf(self.id, far.id) < BucketOf(self.id, target)
    ensures Dist(near.id, target) == 9 && Dist(far.id, target) == 12
  {
    var id0, id1, id4, id8 := SmallIds();
    target := id8;
    self, near, far := MisleadingAt(id0, id1, id4, target);
  }

  lemma MisleadingAt(s: KadId, n: KadId, f: KadId, target: KadId)
    returns (self: KadNode, near: KadNode, far: KadNode)
    requires Dist(s, n) == 1
    requires (Dist(s, f) == 8 && Dist(s, target) == 4) || (Dist(s, f) == 4 && Dist(s, target) == 8)
    ensures self.id == s && near.id == n && far.id == f && Misleading(self, near, far, target)
    ensures BucketOf(s, n) == 0 && BucketOf(s, f) == HeightOf(Dist(s, f)) && BucketOf(s, target) == HeightOf(Dist(s, target))
    ensures HeightOf(4) == 2 && HeightOf(8) == 3
  {
    SmallNumbers();
    self, near, far := Labelled(s, 1), Labelled(n, 2), Labelled(f, 3);
  }
}
