/** Histories of one bucket: any sequence of pushes and removals from the empty bucket. */
module BucketRuns {
  import opened KadId
  import opened KadNode
  import opened Sorting
  import opened KadBucket
  import opened BucketSteps

  datatype Event = Push(kn: KadNode, now: int) | Remove(id: KadId)

  ghost predicate Step(b: Bucket, e: Event, b': Bucket) {
    match e
    case Push(kn, now) => PushStep(b, kn, now, b')
    case Remove(id) => RemoveStep(b, id, b')
  }

  ghost predicate Allowed(b: Bucket, e: Event) {
    e.Push? ==> Admissible(b, e.kn)
  }

  ghost predicate IsRun(states: seq<Bucket>, events: seq<Event>) {
    && |states| == |events| + 1
    && states[0] == EMPTY_BUCKET
    && forall k | 0 <= k < |events| ::
         Allowed(states[k], events[k]) && Step(states[k], events[k], states[k + 1])
  }

  /** In every reachable state: at most 20 live and 20 cached nodes, all identifiers distinct
      across both lists, both lists most recently seen first, and a cache only beside 20 live
      nodes none of which has reached the threshold. */
  lemma {:induction false} RunKeepsInv(states: seq<Bucket>, events: seq<Event>, k: nat)
    requires IsRun(states, events) && k <= |events|
    ensures Inv(states[k])
  {
    if k > 0 {
      RunKeepsInv(states, events, k - 1);
      match events[k - 1]
      case Push(kn, now) => PushKeepsInv(states[k - 1], kn, now, states[k]);
      case Remove(id) => RemoveKeepsInv(states[k - 1], id, states[k]);
    }
  }

  // Failure counters are a history of removals

  /** Pushes that tell the bucket no failures of their own: of a node without any, or of a copy of a live
      node, whose counter the push resets whatever the copy carries. */
  ghost predicate TellsNoFailures(b: Bucket, e: Event) {
    e.Push? ==> e.kn.stales == 0 || b.IsLive(e.kn.id)
  }

  ghost predicate NoFailuresTold(states: seq<Bucket>, events: seq<Event>)
    requires |states| == |events| + 1
  {
    forall k | 0 <= k < |events| :: TellsNoFailures(states[k], events[k])
  }

  /** The `removeNode` calls on `id` among the first `k` events, counted from the moment the node
      last became live or was last pushed again. */
  function Failures(states: seq<Bucket>, events: seq<Event>, k: nat, id: KadId): nat
    requires |states| == |events| + 1 && k <= |events|
    decreases k
  {
    if k == 0 || !states[k - 1].IsLive(id) then 0
    else match events[k - 1]
      case Push(kn, _) => if kn.id == id then 0 else Failures(states, events, k - 1, id)
      case Remove(failed) => (if failed == id then 1 else 0) + Failures(states, events, k - 1, id)
  }

  lemma FindMember(ns: seq<KadNode>, n: KadNode)
    requires DistinctIds(ns) && n in ns
    ensures Find(ns, n.id) < |ns| && ns[Find(ns, n.id)] == n
  {
    var j :| 0 <= j < |ns| && ns[j] == n;
  }

  /** Where the live nodes after a push come from. */
  lemma LiveAfterPush(b: Bucket, kn: KadNode, now: int, b': Bucket, n: KadNode)
    requires Inv(b) && PushStep(b, kn, now, b') && n in b'.nodes
    ensures if n.id != kn.id then n in b.nodes
            else if b.IsLive(kn.id) then n == b.nodes[Find(b.nodes, kn.id)].SeenNow(now).ResetStales()
            else n == kn
  {
    var p, i := Pushed(b, kn, now), Find(b.nodes, kn.id);
    PermutationMembers(p.nodes, b'.nodes);
    assert n in p.nodes;
    if i < |b.nodes| {
      var j :| 0 <= j < |p.nodes| && p.nodes[j] == n;
      assert j != i ==> n == b.nodes[j] && b.nodes[j].id != b.nodes[i].id by {
        assert b.All()[j] == b.nodes[j] && b.All()[i] == b.nodes[i];
      }
    } else {
      FindMissing(b.nodes, kn.id);
    }
  }

  /** Where the live nodes after a removal come from. */
  lemma LiveAfterRemove(b: Bucket, id: KadId, b': Bucket, n: KadNode)
    requires Inv(b) && RemoveStep(b, id, b') && n in b'.nodes
    ensures n.id != id ==> n in b.nodes || (n in b.replacements && !b.IsLive(n.id))
    ensures n.id == id ==> exists m | m in b.nodes :: m.id == id && n == m.IncrementStales()
  {
    var i := Find(b.nodes, id);
    if i == |b.nodes| {
      FindMissing(b.nodes, id);
    } else if b.replacements == [] {
      var j :| 0 <= j < |b'.nodes| && b'.nodes[j] == n;
      assert b.All() == b.nodes;
      assert b.nodes[i] in b.nodes;
    } else {
      PermutationMembers(Promoted(b, i).nodes, b'.nodes);
      assert n in Without(b.nodes, i) + [b.replacements[0]];
      assert forall j | 0 <= j < |b.nodes| :: b.All()[j] == b.nodes[j];
      assert b.All()[|b.nodes|] == b.replacements[0];
      if n in Without(b.nodes, i) {
        var j :| 0 <= j < |Without(b.nodes, i)| && Without(b.nodes, i)[j] == n;
        assert n == b.nodes[if j < i then j else j + 1];
      }
    }
  }

  lemma CachedStayUnfailed(b: Bucket, e: Event, b': Bucket)
    requires Inv(b) && Step(b, e, b') && TellsNoFailures(b, e)
    requires forall n | n in b.replacements :: n.stales == 0
    ensures forall n | n in b'.replacements :: n.stales == 0
  {
    match e
    case Push(kn, now) =>
      PermutationMembers(Pushed(b, kn, now).replacements, b'.replacements);
    case Remove(id) =>
      var i := Find(b.nodes, id);
      if i < |b.nodes| && b.replacements != [] {
        PermutationMembers(Promoted(b, i).replacements, b'.replacements);
      }
  }

  /** Over any run of such pushes and of removals, a live node's counter is exactly the number of removals asked
      for since it became live or was last pushed again, and cached nodes carry none. */
  lemma {:induction false} StalesCountFailures(states: seq<Bucket>, events: seq<Event>, k: nat)
    requires IsRun(states, events) && NoFailuresTold(states, events) && k <= |events|
    ensures forall n | n in states[k].nodes :: n.stales == Failures(states, events, k, n.id)
    ensures forall n | n in states[k].replacements :: n.stales == 0
  {
    if k > 0 {
      var b, e, b' := states[k - 1], events[k - 1], states[k];
      StalesCountFailures(states, events, k - 1);
      RunKeepsInv(states, events, k - 1);
      CachedStayUnfailed(b, e, b');
      forall n | n in b'.nodes
        ensures n.stales == Failures(states, events, k, n.id)
      {
        FailuresStep(states, events, k, n);
      }
    }
  }

  lemma FailuresStep(states: seq<Bucket>, events: seq<Event>, k: nat, n: KadNode)
    requires IsRun(states, events) && NoFailuresTold(states, events) && 0 < k <= |events|
    requires Inv(states[k - 1]) && n in states[k].nodes
    requires forall m | m in states[k - 1].nodes :: m.stales == Failures(states, events, k - 1, m.id)
    requires forall m | m in states[k - 1].replacements :: m.stales == 0
    ensures n.stales == Failures(states, events, k, n.id)
  {
    var b, e, b' := states[k - 1], events[k - 1], states[k];
    assert DistinctIds(b.nodes) by {
      assert forall j | 0 <= j < |b.nodes| :: b.All()[j] == b.nodes[j];
    }
    match e
    case Push(kn, now) =>
      LiveAfterPush(b, kn, now, b', n);
      if n.id != kn.id {
        FindMember(b.nodes, n);
      }
    case Remove(id) =>
      LiveAfterRemove(b, id, b', n);
      if n.id == id {
        var m :| m in b.nodes && m.id == id && n == m.IncrementStales();
        FindMember(b.nodes, m);
      } else if n in b.nodes {
        FindMember(b.nodes, n);
      }
  }

  // Who can lose a live place

  /** No step makes the live list shorter. */
  lemma LiveNeverShrinks(b: Bucket, e: Event, b': Bucket)
    requires Step(b, e, b')
    ensures |b'.nodes| >= |b.nodes|
  {
    match e
    case Push(kn, now) =>
      PermutationMembers(Pushed(b, kn, now).nodes, b'.nodes);
    case Remove(id) =>
      var i := Find(b.nodes, id);
      if i < |b.nodes| && b.replacements != [] {
        PermutationMembers(Promoted(b, i).nodes, b'.nodes);
      }
  }

  /** The two ways out of the live list: a removal of that very node while the cache has a
      substitute, or a push of an unknown node into a full bucket in which this node has reached
      the threshold and no live node has more failures. */
  ghost predicate MayLeave(b: Bucket, e: Event, n: KadNode) {
    match e
    case Remove(id) => n.id == id && b.replacements != []
    case Push(kn, _) =>
      && !b.IsLive(kn.id) && |b.nodes| == BUCKET_MAX
      && n.stales >= STALES_THR
      && forall m | m in b.nodes :: m.stales <= n.stales
  }

  /** Every live node that may not leave is still live after the step. */
  lemma EvictionIsEarned(b: Bucket, e: Event, b': Bucket, n: KadNode)
    requires Inv(b) && Step(b, e, b') && n in b.nodes && !b'.IsLive(n.id)
    ensures MayLeave(b, e, n)
  {
    FindMissing(b'.nodes, n.id);
    if !MayLeave(b, e, n) {
      match e
      case Push(kn, now) => PushKeepsOthers(b, kn, now, b', n);
      case Remove(id) => RemoveKeepsOthers(b, id, b', n);
    }
  }

  lemma PushedKeepsOthers(b: Bucket, kn: KadNode, now: int, n: KadNode) returns (m: KadNode)
    requires n in b.nodes && !MayLeave(b, Push(kn, now), n)
    requires |b.nodes| <= BUCKET_MAX
    ensures m in Pushed(b, kn, now).nodes && m.id == n.id
  {
    var p, k := Pushed(b, kn, now), Stalest(b.nodes);
    var j :| 0 <= j < |b.nodes| && b.nodes[j] == n;
    m := if b.IsLive(kn.id) || |b.nodes| < BUCKET_MAX || k == |b.nodes| then p.nodes[j]
         else p.nodes[if j < k then j else j - 1];
  }

  lemma PushKeepsOthers(b: Bucket, kn: KadNode, now: int, b': Bucket, n: KadNode)
    requires Inv(b) && PushStep(b, kn, now, b') && n in b.nodes
    requires !MayLeave(b, Push(kn, now), n)
    ensures exists m | m in b'.nodes :: m.id == n.id
  {
    var m := PushedKeepsOthers(b, kn, now, n);
    PermutationMembers(Pushed(b, kn, now).nodes, b'.nodes);
    assert m in b'.nodes;
  }

  lemma RemoveKeepsOthers(b: Bucket, id: KadId, b': Bucket, n: KadNode)
    requires Inv(b) && RemoveStep(b, id, b') && n in b.nodes
    requires !MayLeave(b, Remove(id), n)
    ensures exists m | m in b'.nodes :: m.id == n.id
  {
    var i := Find(b.nodes, id);
    var j :| 0 <= j < |b.nodes| && b.nodes[j] == n;
    if i == |b.nodes| || b.replacements == [] {
      assert b'.nodes[j] in b'.nodes && b'.nodes[j].id == n.id;
    } else {
      var p := Promoted(b, i);
      PermutationMembers(p.nodes, b'.nodes);
      assert p.nodes[if j < i then j else j - 1] in p.nodes;
    }
  }

  /** What the history says of a node that is live after `k` events and not after the next: it was
      removed while a substitute was cached, or an unknown node was pushed into the full bucket when
      this one had failed at least five times since it was last heard of, and no live node more often. */
  ghost predicate EarnedBy(states: seq<Bucket>, events: seq<Event>, k: nat, id: KadId)
    requires |states| == |events| + 1 && k < |events|
  {
    match events[k]
    case Remove(failed) => failed == id && states[k].replacements != []
    case Push(kn, _) =>
      && !states[k].IsLive(kn.id) && |states[k].nodes| == BUCKET_MAX
      && Failures(states, events, k, id) >= 5
      && forall m | m in states[k].nodes :: Failures(states, events, k, m.id) <= Failures(states, events, k, id)
  }

  /** Eviction safety over whole runs, in terms of the history alone. */
  lemma EvictionSafety(states: seq<Bucket>, events: seq<Event>, k: nat, id: KadId)
    requires IsRun(states, events) && NoFailuresTold(states, events) && k < |events|
    ensures |states[k + 1].nodes| >= |states[k].nodes|
    ensures states[k].IsLive(id) && !states[k + 1].IsLive(id) ==> EarnedBy(states, events, k, id)
  {
    var b := states[k];
    LiveNeverShrinks(b, events[k], states[k + 1]);
    if b.IsLive(id) && !states[k + 1].IsLive(id) {
      RunKeepsInv(states, events, k);
      StalesCountFailures(states, events, k);
      var n := b.nodes[Find(b.nodes, id)];
      assert n in b.nodes;
      EvictionIsEarned(b, events[k], states[k + 1], n);
    }
  }

  /** The substitute promoted by a removal is the most recently seen cached node. */
  lemma PromotionPicksMostRecent(b: Bucket, id: KadId, b': Bucket)
    requires Inv(b) && RemoveStep(b, id, b') && b.IsLive(id) && b.replacements != []
    ensures !b'.IsLive(id) && |b'.nodes| == BUCKET_MAX
    ensures b.replacements[0] in b'.nodes
    ensures forall m | m in b.replacements :: m.lastSeen <= b.replacements[0].lastSeen
    ensures multiset(b'.replacements) == multiset(b.replacements) - multiset{b.replacements[0]}
  {
    var i := Find(b.nodes, id);
    PermutationMembers(Promoted(b, i).nodes, b'.nodes);
    assert b.replacements == [b.replacements[0]] + b.replacements[1..];
    if b'.IsLive(id) {
      var n := b'.nodes[Find(b'.nodes, id)];
      LiveAfterRemove(b, id, b', n);
      assert n in Without(b.nodes, i) + [b.replacements[0]];
      NotInWithout(b, i, n);
    }
    forall m | m in b.replacements
      ensures m.lastSeen <= b.replacements[0].lastSeen
    {
      var j :| 0 <= j < |b.replacements| && b.replacements[j] == m;
      assert j > 0 ==> Recency(b.replacements[0]) <= Recency(b.replacements[j]);
    }
  }

  /** A push that finds no place among the live nodes leaves them alone. If the cache must make room, it
      gives up a node seen least recently. */
  lemma FullBucketCaches(b: Bucket, kn: KadNode, now: int, b': Bucket)
    requires Inv(b) && PushStep(b, kn, now, b')
    requires |b.nodes| == 20 && NoneStale(b.nodes) && Unknown(b.nodes, kn.id)
    ensures SameNodes(b.nodes, b'.nodes)
    ensures |b.replacements| == 20 && Unknown(b.replacements, kn.id) ==>
              exists i: nat | Exchanged(b.replacements, i, kn, b'.replacements) ::
                forall m | m in b.replacements :: b.replacements[i].lastSeen <= m.lastSeen
  {
    LastIsOldest(b.replacements);
    PushCaches(b, kn, now, b');
    if |b.replacements| == 20 && Unknown(b.replacements, kn.id) {
      assert Exchanged(b.replacements, 19, kn, b'.replacements);
    }
  }

  lemma LastIsOldest(ns: seq<KadNode>)
    requires SortedBy(ns, Recency)
    ensures forall m | m in ns :: ns[|ns| - 1].lastSeen <= m.lastSeen
  {
    forall m | m in ns
      ensures ns[|ns| - 1].lastSeen <= m.lastSeen
    {
      var j :| 0 <= j < |ns| && ns[j] == m;
      assert j < |ns| - 1 ==> Recency(ns[j]) <= Recency(ns[|ns| - 1]);
    }
  }

  lemma NotInWithout(b: Bucket, i: nat, n: KadNode)
    requires DistinctIds(b.All()) && i < |b.nodes| && b.replacements != []
    requires n in Without(b.nodes, i) + [b.replacements[0]]
    ensures n.id != b.nodes[i].id
  {
    assert b.All()[i] == b.nodes[i] && b.All()[|b.nodes|] == b.replacements[0];
    if n in Without(b.nodes, i) {
      var j :| 0 <= j < |Without(b.nodes, i)| && Without(b.nodes, i)[j] == n;
      assert n == b.All()[if j < i then j else j + 1];
    }
  }
}
