/** What `getClosestTo` answers, measured against the true nearest live nodes. */
module ClosestNodes {
  import opened Bits
  import opened KadId
  import opened KadNode
  import opened Sorting
  import opened KadBucket
  import opened KadRoutingTable
  import opened TableRuns

  /** How soon the search from bucket `h` reaches bucket `g`: 0 for `h`, then 1 for `h - 1`, 2 for
      `h + 1`, 3 for `h - 2` and so on. */
  function Rank(h: int, g: int): int {
    if g > h then 2 * (g - h) else if g < h then 2 * (h - g) - 1 else 0
  }

  /** How many steps away. */
  function Away(h: int, g: int): nat {
    if g < h then h - g else g - h
  }

  function BucketIn(t: Table, n: KadNode): int {
    BucketOf(t.self.id, n.id)
  }

  // The metric seen from the target

  /** The height of a node's distance to the target, from its bucket and the target's: below `h`
      for a node of bucket `h`, exactly `h` for a lower bucket, exactly its own for a higher one. */
  lemma DistanceBand(self: KadId, id: KadId, target: KadId)
    requires self != target && self != id
    ensures var h, g := BucketOf(self, target), BucketOf(self, id);
            var d := BucketOf(id, target);
            if g == h then d < h else if g < h then d == h else d == g
  {
    BucketUltrametric(id, self, target);
    BucketRange(self, target);
  }

  /** Nodes of the target's bucket are nearer than all others; nodes of a higher bucket are farther
      than all nodes of lower ones. */
  lemma BandsOrder(self: KadId, a: KadId, b: KadId, target: KadId)
    requires self != target && self != a && self != b
    requires var h, g, f := BucketOf(self, target), BucketOf(self, a), BucketOf(self, b);
             g != f && (g == h || (f != h && f > h && g < f))
    ensures Dist(a, target) < Dist(b, target)
  {
    DistanceBand(self, a, target);
    DistanceBand(self, b, target);
    HeightOrders(Dist(a, target), Dist(b, target));
  }

  /** Whether the nodes of bucket `f` are nearer than those of bucket `g`, to a target at distance `d`
      from the node that keeps the table: one bit of `d` decides, that at the higher of the two indices.
      It is set at the target's own bucket and clear above it. */
  predicate BucketNearer(d: nat, f: int, g: int) {
    if f > g then HasBit(d, f) else !HasBit(d, g)
  }

  predicate HasBit(d: nat, k: int) {
    k >= 0 && Bit(d, k)
  }

  /** Between different buckets no distance to the target need be computed. */
  lemma BitDecides(self: KadId, a: KadId, b: KadId, target: KadId)
    requires BucketOf(self, a) != BucketOf(self, b)
    ensures Dist(a, target) != Dist(b, target)
    ensures Dist(b, target) < Dist(a, target)
            <==> BucketNearer(Dist(self, target), BucketOf(self, b), BucketOf(self, a))
  {
    var x, y, d := Dist(self, a), Dist(self, b), Dist(self, target);
    DistFrom(self, a, target);
    DistFrom(self, b, target);
    if BucketOf(self, a) < BucketOf(self, b) {
      XorReverses(x, y, d);
    } else {
      XorReverses(y, x, d);
    }
  }

  /** How the bit falls out at the target's own bucket and above. */
  lemma HomeBit(self: KadId, target: KadId, k: int)
    requires self != target && k >= BucketOf(self, target)
    ensures HasBit(Dist(self, target), k) <==> k == BucketOf(self, target)
  {
    BucketRange(self, target);
    TopBitOnly(Dist(self, target), k);
  }

  lemma DistFrom(self: KadId, a: KadId, target: KadId)
    ensures Dist(a, target) == Xor(Dist(self, a), Dist(self, target))
  {
    DistIsMetric(self, a, target);
    DistIsXor(a, target);
    DistIsXor(a, self);
    DistIsXor(self, target);
    XorChain(Value(a), Value(self), Value(target));
  }

  // The walk

  /** A measure of node lists, such as a length or a multiplicity, that adds up over parts. */
  ghost predicate Additive(f: seq<KadNode> -> int) {
    forall a, b {:trigger f(a + b)} :: f(a + b) == f(a) + f(b)
  }

  /** The measures of buckets `lo` to `hi`, both included. */
  function SumBetween(f: seq<KadNode> -> int, buckets: seq<Bucket>, lo: int, hi: int): int
    decreases hi - lo
  {
    if lo > hi then 0 else SumBetween(f, buckets, lo, hi - 1) + f(LiveAt(buckets, hi))
  }

  lemma {:induction false} SumGrowsDown(f: seq<KadNode> -> int, buckets: seq<Bucket>, lo: int, hi: int)
    requires lo <= hi
    ensures SumBetween(f, buckets, lo, hi) == f(LiveAt(buckets, lo)) + SumBetween(f, buckets, lo + 1, hi)
    decreases hi - lo
  {
    if lo < hi {
      SumGrowsDown(f, buckets, lo, hi - 1);
    }
  }

  lemma {:induction false} WalkIsBetween(f: seq<KadNode> -> int, buckets: seq<Bucket>, h: nat, i: nat, lo: int, hi: int)
    requires Additive(f) && lo == h - i && hi == h + i
    ensures f(WalkTo(buckets, h, i)) == SumBetween(f, buckets, lo, hi)
    decreases i
  {
    SumGrowsDown(f, buckets, lo, hi);
    if i > 0 {
      WalkIsBetween(f, buckets, h, i - 1, lo + 1, hi - 1);
    }
  }

  lemma {:induction false} BetweenIsAll(f: seq<KadNode> -> int, buckets: seq<Bucket>, lo: int, hi: int)
    requires Additive(f) && lo <= 0
    ensures SumBetween(f, buckets, lo, hi)
            == f(AllLive(buckets, if hi < 0 then 0 else if hi < |buckets| then hi + 1 else |buckets|))
    decreases hi - lo
  {
    var nothing: seq<KadNode> := [];
    assert nothing + nothing == nothing && f(nothing + nothing) == f(nothing) + f(nothing);
    if lo <= hi {
      BetweenIsAll(f, buckets, lo, hi - 1);
    }
  }

  /** The outward search visits each of the 128 buckets exactly once. */
  lemma WalkIsAllLive(t: Table, h: nat)
    requires t.WellFormed() && h < ID_BITS
    ensures multiset(Walk(t, h)) == multiset(AllLive(t.buckets, |t.buckets|))
  {
    var w := |t.buckets|;
    forall n
      ensures multiset(Walk(t, h))[n] == multiset(AllLive(t.buckets, w))[n]
    {
      var f := (s: seq<KadNode>) => multiset(s)[n];
      WalkIsBetween(f, t.buckets, h, w, h - w, h + w);
      BetweenIsAll(f, t.buckets, h - w, h + w);
      assert f(Walk(t, h)) == f(AllLive(t.buckets, w));
    }
  }

  lemma LiveAtBucket(t: Table, g: int, n: KadNode)
    requires TableInv(t) && n in LiveAt(t.buckets, g)
    ensures BucketIn(t, n) == g && 0 <= g < ID_BITS && n.id != t.self.id
  {
    assert n in t.buckets[g].All();
    BucketRange(t.self.id, n.id);
  }

  ghost predicate RankedUpTo(t: Table, h: int, s: seq<KadNode>, rank: int) {
    && SortedByRank(t, h, s)
    && forall n | n in s :: Rank(h, BucketIn(t, n)) <= rank
  }

  ghost predicate SortedByRank(t: Table, h: int, s: seq<KadNode>) {
    forall p, q | 0 <= p < q < |s| :: Rank(h, BucketIn(t, s[p])) <= Rank(h, BucketIn(t, s[q]))
  }

  /** One more step of the walk takes `p` from `j` to `j + 1`. */
  ghost predicate Inductive(p: (seq<KadNode>, nat) -> bool, buckets: seq<Bucket>, h: nat, s: seq<KadNode>, j: nat) {
    p(s, j) ==> p((s + LiveAt(buckets, h - (j + 1))) + LiveAt(buckets, h + (j + 1)), j + 1)
  }

  lemma {:induction false} WalkInduction(p: (seq<KadNode>, nat) -> bool, buckets: seq<Bucket>, h: nat, i: nat)
    requires p(LiveAt(buckets, h), 0)
    requires forall s, j :: Inductive(p, buckets, h, s, j)
    ensures p(WalkTo(buckets, h, i), i)
    decreases i
  {
    if i > 0 {
      WalkInduction(p, buckets, h, i - 1);
      assert Inductive(p, buckets, h, WalkTo(buckets, h, i - 1), i - 1);
    }
  }

  lemma RanksStep(t: Table, h: nat, s: seq<KadNode>, j: nat)
    requires TableInv(t) && RankedUpTo(t, h, s, 2 * j)
    ensures RankedUpTo(t, h, (s + LiveAt(t.buckets, h - (j + 1))) + LiveAt(t.buckets, h + (j + 1)), 2 * (j + 1))
  {
    RanksAppend(t, h, s, h - (j + 1), 2 * j, 2 * j + 1);
    RanksAppend(t, h, s + LiveAt(t.buckets, h - (j + 1)), h + (j + 1), 2 * j + 1, 2 * j + 2);
  }

  /** The walk meets buckets in the order of their rank. */
  lemma WalkByRank(t: Table, h: nat, i: nat)
    requires TableInv(t)
    ensures RankedUpTo(t, h, WalkTo(t.buckets, h, i), 2 * i)
  {
    var p := (s: seq<KadNode>, j: nat) => RankedUpTo(t, h, s, 2 * j);
    assert [] + LiveAt(t.buckets, h) == LiveAt(t.buckets, h);
    RanksAppend(t, h, [], h, 0, 0);
    forall s, j: nat
      ensures Inductive(p, t.buckets, h, s, j)
    {
      if p(s, j) {
        RanksStep(t, h, s, j);
      }
    }
    WalkInduction(p, t.buckets, h, i);
  }

  lemma RanksAppend(t: Table, h: int, a: seq<KadNode>, g: int, lower: int, rank: int)
    requires TableInv(t) && rank == Rank(h, g)
    requires lower <= rank && RankedUpTo(t, h, a, lower)
    ensures RankedUpTo(t, h, a + LiveAt(t.buckets, g), rank)
  {
    var b := LiveAt(t.buckets, g);
    forall n | n in b
      ensures Rank(h, BucketIn(t, n)) == rank
    {
      LiveAtBucket(t, g, n);
    }
  }

  // All live nodes

  lemma {:induction false} AllLiveDistinct(t: Table, k: nat)
    requires TableInv(t) && k <= ID_BITS
    ensures DistinctIds(AllLive(t.buckets, k))
    ensures forall n | n in AllLive(t.buckets, k) :: n.id != t.self.id && 0 <= BucketIn(t, n) < k
  {
    if k > 0 {
      AllLiveDistinct(t, k - 1);
      var a, b := AllLive(t.buckets, k - 1), t.buckets[k - 1].nodes;
      forall n | n in b
        ensures n.id != t.self.id && BucketIn(t, n) == k - 1
      {
        LiveAtBucket(t, k - 1, n);
      }
      assert DistinctIds(b) by {
        assert forall j | 0 <= j < |b| :: t.buckets[k - 1].All()[j] == b[j];
      }
      DisjointDistinct(a, b);
    }
  }

  lemma DisjointDistinct(a: seq<KadNode>, b: seq<KadNode>)
    requires DistinctIds(a) && DistinctIds(b)
    requires forall n, m | n in a && m in b :: n.id != m.id
    ensures DistinctIds(a + b)
  {
  }

  /** The live nodes in the order of the search are all live nodes, each once. */
  lemma WalkFacts(t: Table, target: KadId)
    requires TableInv(t) && t.self.id != target
    ensures var w := Walk(t, Home(t, target));
            && |w| == |AllLive(t.buckets, ID_BITS)|
            && DistinctIds(w)
            && SortedByRank(t, Home(t, target), w)
            && (forall n :: n in w <==> n in AllLive(t.buckets, ID_BITS))
            && (forall n | n in w :: n.id != t.self.id)
  {
    var h := Home(t, target);
    WalkIsAllLive(t, h);
    AllLiveDistinct(t, ID_BITS);
    DistinctPermutation(AllLive(t.buckets, ID_BITS), Walk(t, h));
    PermutationMembers(AllLive(t.buckets, ID_BITS), Walk(t, h));
    WalkByRank(t, h, |t.buckets|);
  }

  // The answer

  ghost predicate Answers(t: Table, target: KadId, count: int, r: seq<KadNode>) {
    && TableInv(t) && t.self.id != target
    && -0x8000_0000 <= count < 0x8000_0000
    && IsClosestAnswer(t, target, count, r)
  }

  ghost predicate Live(t: Table, n: KadNode)
    requires t.WellFormed()
  {
    n in AllLive(t.buckets, ID_BITS)
  }

  /** A node is live when it is in the live list of one of the 128 buckets. */
  lemma LiveIff(t: Table, n: KadNode)
    requires t.WellFormed()
    ensures Live(t, n) <==> exists g | 0 <= g < 128 :: n in t.buckets[g].nodes
  {
    AllLiveMembers(t.buckets, ID_BITS, n);
  }

  lemma {:induction false} AllLiveMembers(buckets: seq<Bucket>, k: nat, n: KadNode)
    requires k <= |buckets|
    ensures n in AllLive(buckets, k) <==> exists g | 0 <= g < k :: n in buckets[g].nodes
  {
    if k > 0 {
      AllLiveMembers(buckets, k - 1, n);
    }
  }

  /** A negative `count` is more than any table holds. */
  lemma LimitMeans(t: Table, count: int)
    requires TableInv(t) && -0x8000_0000 <= count < 0x8000_0000
    ensures if count < 0 then |AllLive(t.buckets, ID_BITS)| < Limit(count) else Limit(count) == count
  {
    TableCapacity(t);
  }

  /** The answer has as many nodes as were asked for, or all there are; a negative `count` asks for all.
      They are live, distinct, and in strictly increasing order of distance. */
  lemma AnswerIsFull(t: Table, target: KadId, count: int, r: seq<KadNode>)
    requires Answers(t, target, count, r)
    ensures var all := |AllLive(t.buckets, 128)|; |r| == if count < 0 || all <= count then all else count
    ensures forall n | n in r :: Live(t, n)
    ensures DistinctIds(r)
    ensures forall i, j | 0 <= i < j < |r| :: Dist(r[i].id, target) < Dist(r[j].id, target)
  {
    var w := Walk(t, Home(t, target));
    WalkFacts(t, target);
    LimitMeans(t, count);
    var taken := Take(w, Limit(count));
    PermutationMembers(taken, r);
    assert DistinctIds(taken);
    DistinctPermutation(taken, r);
    forall i, j | 0 <= i < j < |r|
      ensures Dist(r[i].id, target) < Dist(r[j].id, target)
    {
      assert ByDistance(target)(r[i]) <= ByDistance(target)(r[j]);
      DistIsMetric(target, r[i].id, r[j].id);
      DistIsMetric(r[i].id, target, target);
      DistIsMetric(r[j].id, target, target);
    }
  }

  /** A returned node was met no later than an omitted one: its bucket is no more steps away from the
      target's, and lower if it is as many. */
  lemma ReturnedWereMetFirst(t: Table, target: KadId, count: int, r: seq<KadNode>, near: KadNode, far: KadNode)
    requires Answers(t, target, count, r) && Live(t, near) && near !in r && far in r
    ensures var h := BucketOf(t.self.id, target);
            Rank(h, BucketIn(t, far)) <= Rank(h, BucketIn(t, near))
    ensures var h, f, g := BucketOf(t.self.id, target), BucketIn(t, far), BucketIn(t, near);
            Away(h, f) <= Away(h, g) && (Away(h, f) == Away(h, g) ==> f <= g)
    ensures near.id != t.self.id && far.id != t.self.id && near.id != far.id
  {
    var h := Home(t, target);
    var w := Walk(t, h);
    WalkFacts(t, target);
    var taken := Take(w, Limit(count));
    PermutationMembers(taken, r);
    var p, q := TakenComeFirst(w, Limit(count), near, far);
  }

  lemma TakenComeFirst(w: seq<KadNode>, limit: nat, near: KadNode, far: KadNode) returns (p: nat, q: nat)
    requires near in w && near !in Take(w, limit) && far in Take(w, limit)
    ensures p < limit <= q < |w| && w[p] == far && w[q] == near
  {
    var taken := Take(w, limit);
    p :| 0 <= p < |taken| && taken[p] == far;
    q :| 0 <= q < |w| && w[q] == near;
    assert forall k | 0 <= k < |taken| :: w[k] in taken;
  }

  /** Misses of the search are confined: an omitted live node that is nearer than a returned one
      shares that node's bucket, or lies in a bucket below the target's which the search reaches
      after the returned node's own (itself not the target's). */
  lemma MissesAreConfined(t: Table, target: KadId, count: int, r: seq<KadNode>, near: KadNode, far: KadNode)
    requires Answers(t, target, count, r) && Live(t, near) && near !in r && far in r
    requires Dist(near.id, target) < Dist(far.id, target)
    ensures var h, g, f := BucketOf(t.self.id, target), BucketIn(t, near), BucketIn(t, far);
            g == f || (g < h && f != h && Rank(h, f) < Rank(h, g))
  {
    var h, g, f := BucketOf(t.self.id, target), BucketIn(t, near), BucketIn(t, far);
    ReturnedWereMetFirst(t, target, count, r, near, far);
    if g != f && (g >= h || f == h) {
      BandsOrder(t.self.id, far.id, near.id, target);
    }
  }

  /** The nodes of the target's bucket come first in the answer. */
  lemma HomeNodesLead(t: Table, target: KadId, count: int, r: seq<KadNode>, i: nat, j: nat)
    requires Answers(t, target, count, r) && i < j < |r|
    requires BucketIn(t, r[j]) == BucketOf(t.self.id, target)
    ensures BucketIn(t, r[i]) == BucketOf(t.self.id, target)
  {
    AnswerIsFull(t, target, count, r);
    AllLiveDistinct(t, ID_BITS);
    assert Live(t, r[i]) && Live(t, r[j]);
    assert Dist(r[i].id, target) < Dist(r[j].id, target);
    if BucketIn(t, r[i]) != BucketOf(t.self.id, target) {
      BandsOrder(t.self.id, r[j].id, r[i].id, target);
    }
  }

  /** The list stands in `w` from `o` on. */
  ghost predicate StandsAt(ns: seq<KadNode>, w: seq<KadNode>, o: nat) {
    o + |ns| <= |w| && forall j | 0 <= j < |ns| :: w[o + j] == ns[j]
  }

  lemma StandsInParts(ns: seq<KadNode>, a: seq<KadNode>, b: seq<KadNode>, c: seq<KadNode>, o: nat)
    requires StandsAt(ns, a, o) || (o == |a| && ns == b) || (o == |a| + |b| && ns == c)
    ensures StandsAt(ns, (a + b) + c, o)
  {
  }

  lemma {:induction false} WalkHasList(buckets: seq<Bucket>, h: nat, i: nat, g: nat) returns (o: nat)
    requires g < |buckets| && h - i <= g <= h + i
    ensures StandsAt(buckets[g].nodes, WalkTo(buckets, h, i), o)
    decreases i
  {
    o := 0;
    if i > 0 {
      var before, below, above := WalkTo(buckets, h, i - 1), LiveAt(buckets, h - i), LiveAt(buckets, h + i);
      if g == h - i {
        o := |before|;
      } else if g == h + i {
        o := |before| + |below|;
      } else {
        o := WalkHasList(buckets, h, i - 1, g);
      }
      StandsInParts(buckets[g].nodes, before, below, above, o);
    }
  }

  /** Of each bucket the search takes a beginning of the live list, which has the most recently seen nodes
      first. */
  lemma BucketsGiveTheirFirst(t: Table, target: KadId, count: int, r: seq<KadNode>, g: nat, i: nat, j: nat)
    requires Answers(t, target, count, r) && g < 128
    requires i < j < |t.buckets[g].nodes| && t.buckets[g].nodes[j] in r
    ensures t.buckets[g].nodes[i] in r
    ensures t.buckets[g].nodes[i].lastSeen >= t.buckets[g].nodes[j].lastSeen
  {
    var h, ns := Home(t, target), t.buckets[g].nodes;
    var w := Walk(t, h);
    WalkFacts(t, target);
    var o := WalkHasList(t.buckets, h, |t.buckets|, g);
    var taken := Take(w, Limit(count));
    PermutationMembers(taken, r);
    var p :| 0 <= p < |taken| && taken[p] == ns[j];
    assert w[p].id == w[o + j].id;
    assert taken[o + i] == ns[i];
    assert Recency(ns[i]) <= Recency(ns[j]) by {
      assert Inv(t.buckets[g]);
    }
  }

  /** Which nodes are returned depends on the bucket of the target alone: two targets of one bucket get
      the same nodes, however far apart they lie within it. Only the order differs. */
  lemma SameBucketSameNodes(t: Table, a: KadId, b: KadId, count: int, r: seq<KadNode>, q: seq<KadNode>)
    requires t.WellFormed() && -0x8000_0000 <= count < 0x8000_0000
    requires BucketOf(t.self.id, a) == BucketOf(t.self.id, b)
    requires IsClosestAnswer(t, a, count, r) && IsClosestAnswer(t, b, count, q)
    ensures multiset(r) == multiset(q)
  {
    BucketRange(t.self.id, a);
    BucketRange(t.self.id, b);
  }

  /** No omitted live node is nearer than a returned one. */
  ghost predicate IsNearest(t: Table, target: KadId, r: seq<KadNode>)
    requires t.WellFormed()
  {
    forall near, far | Live(t, near) && near !in r && far in r ::
      Dist(far.id, target) < Dist(near.id, target)
  }

  /** Where the search for `limit` nodes stops, every bucket it has met is nearer than every other one
      it has not finished, by the bits of the target's distance. */
  ghost predicate BucketsPart(t: Table, target: KadId, limit: nat)
    requires t.WellFormed() && t.self.id != target
  {
    var w := Walk(t, Home(t, target));
    forall i, j | 0 <= i < limit <= j < |w| && BucketIn(t, w[i]) != BucketIn(t, w[j]) ::
      BucketNearer(Dist(t.self.id, target), BucketIn(t, w[i]), BucketIn(t, w[j]))
  }

  /** Of the one bucket that the stop splits, the nodes met are nearer than those left. Live lists are in
      order of recency, whatever the target, so here distances count. */
  ghost predicate SplitIsOrdered(t: Table, target: KadId, limit: nat)
    requires t.WellFormed() && t.self.id != target
  {
    var w := Walk(t, Home(t, target));
    forall i, j | 0 <= i < limit <= j < |w| && BucketIn(t, w[i]) == BucketIn(t, w[limit]) == BucketIn(t, w[j]) ::
      Dist(w[i].id, target) < Dist(w[j].id, target)
  }

  ghost predicate CutIsClean(t: Table, target: KadId, limit: nat)
    requires t.WellFormed() && t.self.id != target
  {
    BucketsPart(t, target, limit) && SplitIsOrdered(t, target, limit)
  }

  /** `getClosestTo` is only approximate; this is exactly when it is exact. */
  lemma NearestIffCutIsClean(t: Table, target: KadId, count: int, r: seq<KadNode>)
    requires Answers(t, target, count, r)
    ensures IsNearest(t, target, r) <==> count < 0 || CutIsClean(t, target, count)
  {
    LimitMeans(t, count);
    WalkFacts(t, target);
    if IsNearest(t, target, r) {
      NearestIsClean(t, target, count, r);
    }
    if CutIsClean(t, target, Limit(count)) {
      forall near, far | Live(t, near) && near !in r && far in r
        ensures Dist(far.id, target) < Dist(near.id, target)
      {
        CleanPair(t, target, count, r, near, far);
      }
    }
  }

  lemma NearestIsClean(t: Table, target: KadId, count: int, r: seq<KadNode>)
    requires Answers(t, target, count, r) && IsNearest(t, target, r)
    ensures CutIsClean(t, target, Limit(count))
  {
    var w, limit := Walk(t, Home(t, target)), Limit(count);
    forall i, j | 0 <= i < limit <= j < |w|
      ensures Dist(w[i].id, target) < Dist(w[j].id, target)
      ensures BucketIn(t, w[i]) != BucketIn(t, w[j]) ==>
                BucketNearer(Dist(t.self.id, target), BucketIn(t, w[i]), BucketIn(t, w[j]))
    {
      CutPair(t, target, count, r, i, j);
      if BucketIn(t, w[i]) != BucketIn(t, w[j]) {
        BitDecides(t.self.id, w[j].id, w[i].id, target);
      }
    }
  }

  lemma CleanPair(t: Table, target: KadId, count: int, r: seq<KadNode>, near: KadNode, far: KadNode)
    requires Answers(t, target, count, r) && CutIsClean(t, target, Limit(count))
    requires Live(t, near) && near !in r && far in r
    ensures Dist(far.id, target) < Dist(near.id, target)
  {
    var w, limit := Walk(t, Home(t, target)), Limit(count);
    WalkFacts(t, target);
    PermutationMembers(Take(w, limit), r);
    var p, q := TakenComeFirst(w, limit, near, far);
    if BucketIn(t, far) == BucketIn(t, near) {
      OnlyOneIsSplit(t, Home(t, target), w, p, limit, q);
    } else {
      BitDecides(t.self.id, near.id, far.id, target);
    }
  }

  /** A bucket met before the stop and after it is the one the stop splits. */
  lemma OnlyOneIsSplit(t: Table, h: int, w: seq<KadNode>, i: nat, limit: nat, j: nat)
    requires SortedByRank(t, h, w) && i < limit <= j < |w| && BucketIn(t, w[i]) == BucketIn(t, w[j])
    ensures BucketIn(t, w[limit]) == BucketIn(t, w[i])
  {
    assert Rank(h, BucketIn(t, w[i])) <= Rank(h, BucketIn(t, w[limit]));
    assert limit < j ==> Rank(h, BucketIn(t, w[limit])) <= Rank(h, BucketIn(t, w[j]));
    RankInjective(h, BucketIn(t, w[limit]), BucketIn(t, w[i]));
  }

  lemma RankInjective(h: int, g: int, f: int)
    ensures Rank(h, g) == Rank(h, f) ==> g == f
  {
  }

  lemma CutPair(t: Table, target: KadId, count: int, r: seq<KadNode>, i: nat, j: nat)
    requires Answers(t, target, count, r)
    requires i < Limit(count) <= j < |Walk(t, Home(t, target))|
    ensures var w := Walk(t, Home(t, target));
            Live(t, w[j]) && w[j] !in r && w[i] in r
  {
    var w := Walk(t, Home(t, target));
    WalkFacts(t, target);
    var taken := Take(w, Limit(count));
    PermutationMembers(taken, r);
    assert taken[i] in taken && w[j] in w;
    assert forall k | 0 <= k < |taken| :: taken[k] == w[k] && w[k].id != w[j].id;
  }

  /** The answer is certainly exact when the target's bucket holds exactly as many live nodes as
      asked for, or the whole table no more. */
  lemma ExactWhenCountFits(t: Table, target: KadId, count: int, r: seq<KadNode>)
    requires Answers(t, target, count, r)
    requires count < 0 || |t.buckets[Home(t, target)].nodes| == count || |AllLive(t.buckets, 128)| <= count
    ensures IsNearest(t, target, r)
  {
    LimitMeans(t, count);
    var h := Home(t, target);
    var w, limit := Walk(t, h), Limit(count);
    WalkFacts(t, target);
    var taken := Take(w, limit);
    PermutationMembers(taken, r);
    if |w| > limit {
      WalkStartsAtHome(t, h, |t.buckets|);
      forall near, far | Live(t, near) && near !in r && far in r
        ensures Dist(far.id, target) < Dist(near.id, target)
      {
        assert taken == t.buckets[h].nodes;
        assert far in LiveAt(t.buckets, h) && near !in LiveAt(t.buckets, h);
        LiveAtBucket(t, h, far);
        NotAtHome(t, h, near);
        BandsOrder(t.self.id, far.id, near.id, target);
      }
    }
  }

  lemma {:induction false} WalkStartsAtHome(t: Table, h: nat, i: nat)
    requires t.WellFormed() && h < ID_BITS
    ensures t.buckets[h].nodes <= WalkTo(t.buckets, h, i)
  {
    if i > 0 {
      WalkStartsAtHome(t, h, i - 1);
    }
  }

  lemma NotAtHome(t: Table, h: nat, n: KadNode)
    requires TableInv(t) && Live(t, n) && h < ID_BITS && n !in LiveAt(t.buckets, h)
    ensures BucketIn(t, n) != h && n.id != t.self.id
  {
    AllLiveDistinct(t, ID_BITS);
    AllLiveBucket(t, ID_BITS, n);
  }

  lemma {:induction false} AllLiveBucket(t: Table, k: nat, n: KadNode)
    requires TableInv(t) && k <= ID_BITS && n in AllLive(t.buckets, k)
    ensures n in LiveAt(t.buckets, BucketIn(t, n))
  {
    if n in t.buckets[k - 1].nodes {
      LiveAtBucket(t, k - 1, n);
    } else {
      AllLiveBucket(t, k - 1, n);
    }
  }
}
