/** What the pass that ends a lookup leaves in the table, node by node, and what the lookup teaches it. */
module LookupRecords {
  import opened KadId
  import opened KadNode
  import opened Sorting
  import opened KadBucket
  import opened BucketSteps
  import BucketRuns
  import opened KadRoutingTable
  import opened TableRuns
  import opened TableSteps
  import opened ClosestNodes
  import opened NodesLookup
  import opened LookupRounds
  import opened NodesLookupTask

  // One node

  /** `m` is the live node of bucket `g` that has the identifier. */
  ghost predicate IsLiveAt(t: Table, g: nat, m: KadNode, id: KadId) {
    TableInv(t) && g < 128 && m in t.buckets[g].nodes && m.id == id
  }

  lemma PlaceOf(t: Table, g: nat, m: KadNode, id: KadId) returns (i: nat)
    requires IsLiveAt(t, g, m, id)
    ensures FirstOf(t.buckets[g].nodes, id, i) && t.buckets[g].nodes[i] == m
    ensures id != t.self.id && g == Home(t, id)
  {
    var b := t.buckets[g];
    assert Inv(b) && m in b.All();
    i :| 0 <= i < |b.nodes| && b.nodes[i] == m;
    assert forall j | 0 <= j < |b.nodes| :: b.All()[j] == b.nodes[j];
    BucketRange(t.self.id, id);
  }

  /** A live node that answered is seen at the time of its push; it keeps its address and has no failures. */
  lemma AnsweredIsSeen(states: seq<Table>, probed: seq<KadNode>, failed: set<KadId>, clock: nat -> nat, i: nat,
                       g: nat, m: KadNode)
    requires Records(states, probed, failed, clock) && i < |probed|
    requires probed[i].id !in failed && probed[i].address != states[i].self.address
    requires IsLiveAt(states[i], g, m, probed[i].id)
    ensures KadNode(m.id, m.address, clock(i), 0) in states[i + 1].buckets[g].nodes
  {
    var t, t', n := states[i], states[i + 1], probed[i];
    var p := PlaceOf(t, g, m, n.id);
    assert TableRuns.Step(t, Verdict(n, failed, clock(i)), t');
    PushRefreshes(t.buckets[g], n, clock(i), t'.buckets[g], p);
    InExchanged(t.buckets[g].nodes, p, KadNode(n.id, m.address, clock(i), 0), t'.buckets[g].nodes);
  }

  lemma InExchanged(before: seq<KadNode>, i: nat, n: KadNode, after: seq<KadNode>)
    requires Exchanged(before, i, n, after)
    ensures n in after && |after| == |before|
  {
    assert n in multiset(after);
    assert before[i] in multiset(before);
    assert |multiset(after)| == |multiset(before)|;
  }

  /** A live node whose query threw gives way to the first cached node; with an empty cache it stays, with
      one failure more. */
  lemma ThrownIsCounted(states: seq<Table>, probed: seq<KadNode>, failed: set<KadId>, clock: nat -> nat, i: nat,
                        g: nat, m: KadNode)
    requires Records(states, probed, failed, clock) && i < |probed| && probed[i].id in failed
    requires IsLiveAt(states[i], g, m, probed[i].id)
    ensures var cache, after := states[i].buckets[g].replacements, states[i + 1].buckets[g].nodes;
            if cache == [] then KadNode(m.id, m.address, m.lastSeen, m.stales + 1) in after
            else Unknown(after, m.id) && cache[0] in after
  {
    var t, t', n := states[i], states[i + 1], probed[i];
    var p := PlaceOf(t, g, m, n.id);
    var b, b' := t.buckets[g], t'.buckets[g];
    assert TableRuns.Step(t, Verdict(n, failed, clock(i)), t');
    if b.replacements == [] {
      RemoveCounts(b, n.id, b', p);
      assert b'.nodes[p] in b'.nodes;
    } else {
      RemovePromotes(b, n.id, b', p);
      InExchanged(b.nodes, p, b.replacements[0], b'.nodes);
      OthersStay(b, p, b'.nodes);
    }
  }

  lemma OthersStay(b: Bucket, p: nat, after: seq<KadNode>)
    requires Inv(b) && p < |b.nodes| && b.replacements != []
    requires Exchanged(b.nodes, p, b.replacements[0], after)
    ensures Unknown(after, b.nodes[p].id)
  {
    PutAt(b.nodes, p, b.replacements[0]);
    var put := Without(b.nodes, p) + [b.replacements[0]];
    PermutationMembers(put, after);
    forall n | n in after
      ensures n.id != b.nodes[p].id
    {
      assert n in put;
      BucketRuns.NotInWithout(b, p, n);
    }
  }

  // The count

  /** The probed nodes that did not fail and whose push returns false. */
  ghost function Counted(states: seq<Table>, probed: seq<KadNode>, failed: set<KadId>, n: nat): set<nat>
    requires n <= |probed| && n <= |states|
  {
    set i: nat | i < n && Counts(states[i], probed[i], failed)
  }

  lemma {:induction false} DiscoveriesMean(states: seq<Table>, probed: seq<KadNode>, failed: set<KadId>, n: nat)
    requires n <= |probed| && n <= |states|
    ensures Discoveries(states, probed, failed, n) == |Counted(states, probed, failed, n)|
    decreases n
  {
    if n == 0 {
      assert Counted(states, probed, failed, 0) == {};
    } else {
      DiscoveriesMean(states, probed, failed, n - 1);
      assert Counted(states, probed, failed, n)
          == Counted(states, probed, failed, n - 1)
             + if Counts(states[n - 1], probed[n - 1], failed) then {n - 1} else {};
    }
  }

  /** Which nodes count: those refused, and those neither live nor cached in a full bucket with nothing to
      evict. */
  lemma CountsIff(t: Table, n: KadNode, failed: set<KadId>, g: nat)
    requires TableInv(t) && g < 128 && n.id !in failed
    requires n.id != t.self.id ==> BelongsTo(t, n.id, g)
    ensures Counts(t, n, failed)
            <==> || n.id == t.self.id || n.address == t.self.address
                 || (Unknown(t.buckets[g].nodes, n.id)
                     && (|t.buckets[g].nodes| < 20 || !NoneStale(t.buckets[g].nodes) || Unknown(t.buckets[g].replacements, n.id)))
  {
    if n.id != t.self.id {
      HomeBelongs(t, n.id, g);
      PushFindsIff(t.buckets[g], n);
    }
  }

  /** A lookup asks three live nodes first, or all there are. */
  lemma LookupStarts(t: Table, target: KadId, net: Network, clock: nat -> nat, l: Lookup, t': Table)
    requires TableInv(t) && target != t.self.id && Looked(t, target, net, clock, l, t')
    ensures var all := |AllLive(t.buckets, 128)|; |l.closest| == if all <= 3 then all else 3
  {
    AnswerIsFull(t, target, 3, l.closest);
  }

  // What a lookup teaches

  /** Pushes of live nodes and removals leave every live list as long as it was. */
  lemma StepKeepsSizes(t: Table, e: TableEvent, t': Table, g: nat)
    requires TableInv(t) && TableRuns.Step(t, e, t') && g < 128
    requires e.Push? ==> LiveIn(t, e.kn.id)
    ensures |t'.buckets[g].nodes| == |t.buckets[g].nodes|
  {
    var b, b' := t.buckets[g], t'.buckets[g];
    match e
    case Push(kn, now) =>
      if !Refuses(t, kn) && Home(t, kn.id) == g {
        var i := Find(b.nodes, kn.id);
        PushRefreshes(b, kn, now, b', i);
        InExchanged(b.nodes, i, KadNode(kn.id, b.nodes[i].address, now, 0), b'.nodes);
      }
    case Remove(id) =>
      if t.self.id != id && Home(t, id) == g {
        RemoveKeepsSize(b, id, b');
      }
    case SetAddress(_) =>
  }

  lemma RemoveKeepsSize(b: Bucket, id: KadId, b': Bucket)
    requires RemoveStep(b, id, b')
    ensures |b'.nodes| == |b.nodes|
  {
    var i := Find(b.nodes, id);
    if i == |b.nodes| {
      NotFound(b.nodes, id);
    } else if b.replacements == [] {
      RemoveCounts(b, id, b', i);
    } else {
      RemovePromotes(b, id, b', i);
      InExchanged(b.nodes, i, b.replacements[0], b'.nodes);
    }
  }

  lemma SizesStay(states: seq<Table>, probed: seq<KadNode>, failed: set<KadId>, clock: nat -> nat, n: nat, g: nat)
    requires Records(states, probed, failed, clock) && n <= |probed| && g < 128
    requires TableInv(states[0]) && Timely(states[0])
    requires StrictlyRecent(probed) && forall m | m in probed :: Sound(states[0], m)
    requires forall i | 0 <= i < n :: probed[i].lastSeen != 0
    ensures |states[n].buckets[g].nodes| == |states[0].buckets[g].nodes|
  {
    for i := 0 to n
      invariant |states[i].buckets[g].nodes| == |states[0].buckets[g].nodes|
    {
      RecordsKeep(states, probed, failed, clock, i);
      var e := Verdict(probed[i], failed, clock(i));
      assert TableRuns.Step(states[i], e, states[i + 1]);
      assert probed[i].id !in failed ==> Sound(states[i], probed[i]);
      StepKeepsSizes(states[i], e, states[i + 1], g);
    }
  }

  /** The node of time 0 is recorded last. */
  lemma FreshComesLast(asked: seq<KadNode>, probed: seq<KadNode>, k: nat)
    requires FirstOfEach(asked, probed) && k < |asked| && asked[k].lastSeen == 0
    requires forall j | 0 <= j < k :: asked[j].lastSeen > 0
    requires forall n | n in asked :: n.lastSeen >= 0
    ensures probed != [] && probed[|probed| - 1] == asked[k]
    ensures forall i | 0 <= i < |probed| - 1 :: probed[i].lastSeen != 0
  {
    assert FirstOfTime(asked, asked[k]);
    var i :| 0 <= i < |probed| && probed[i] == asked[k];
    forall n | n in probed
      ensures n.lastSeen >= 0
    {
      assert FirstOfTime(asked, n);
    }
    FreshIsLast(probed, i);
  }

  /** A lookup that starts from nodes which have all been seen before and finds others learns the nearest
      node it found: if that one answers, and its bucket has room, it is live in the table afterwards. */
  lemma LookupLearns(t: Table, target: KadId, net: Network, clock: nat -> nat, l: Lookup, t': Table, g: nat)
    requires TableInv(t) && Timely(t) && Looked(t, target, net, clock, l, t')
    requires l.second != [] && forall n | n in l.closest :: n.lastSeen != 0
    requires l.second[0].id !in l.failed && BelongsTo(t, l.second[0].id, g)
    requires g < 128 && |t.buckets[g].nodes| < 20
    ensures IsLiveSomewhere(t', l.second[0].id)
    ensures exists found :: FoundFirst(t.self, l.closest, net, found) && NearestFound(found, target, l.second)
  {
    var found := RoundsMean(t.self, l.closest, target, net, l.second, l.probed, l.failed, l.rounds);
    LearnedIsLast(t, target, net, clock, l, t');
    LookedIsSound(t, target, net, clock, l, t');
    PassLearns(l.states, l.probed, l.failed, clock, l.second[0], g);
  }

  lemma LookedIsSound(t: Table, target: KadId, net: Network, clock: nat -> nat, l: Lookup, t': Table)
    requires TableInv(t) && Timely(t) && Looked(t, target, net, clock, l, t')
    ensures StrictlyRecent(l.probed) && forall n | n in l.probed :: Sound(t, n)
  {
    StartIsSound(t, target, l.closest);
    QueriedMeans(t.self, l.closest, target, net, l.second, l.probed, l.failed, l.rounds);
    ProbedAreSound(t, l.closest, t.self, l.probed);
  }

  /** The pass makes its last node live, if that one was discovered and its bucket has room. */
  lemma PassLearns(states: seq<Table>, probed: seq<KadNode>, failed: set<KadId>, clock: nat -> nat,
                   learned: KadNode, g: nat)
    requires Records(states, probed, failed, clock)
    requires TableInv(states[0]) && Timely(states[0])
    requires StrictlyRecent(probed) && forall n | n in probed :: Sound(states[0], n)
    requires probed != [] && probed[|probed| - 1] == learned
    requires forall i | 0 <= i < |probed| - 1 :: probed[i].lastSeen != 0
    requires Discovered(states[0].self, learned) && learned.id !in failed
    requires g < 128 && BelongsTo(states[0], learned.id, g) && |states[0].buckets[g].nodes| < 20
    ensures IsLiveSomewhere(states[|probed|], learned.id)
  {
    var last := |probed| - 1;
    SizesStay(states, probed, failed, clock, last, g);
    RecordsKeep(states, probed, failed, clock, last);
    assert TableRuns.Step(states[last], Verdict(probed[last], failed, clock(last)), states[last + 1]);
    LastIsPushed(states[last], learned, failed, clock(last), states[last + 1], g);
  }

  lemma LearnedIsLast(t: Table, target: KadId, net: Network, clock: nat -> nat, l: Lookup, t': Table)
    requires TableInv(t) && Timely(t) && Looked(t, target, net, clock, l, t')
    requires l.second != [] && forall n | n in l.closest :: n.lastSeen != 0
    ensures l.probed != [] && l.probed[|l.probed| - 1] == l.second[0]
    ensures Discovered(t.self, l.second[0])
    ensures forall i | 0 <= i < |l.probed| - 1 :: l.probed[i].lastSeen != 0
  {
    AskedMeans(t.self, l.closest, target, net, l.second, l.probed, l.failed, l.rounds);
    StartIsSound(t, target, l.closest);
    SecondIsDiscovered(t.self, l.closest, target, net, l.second);
    assert l.second[0] in l.second;
    FirstFreshIsLast(l.closest, l.second, l.probed);
  }

  lemma FirstFreshIsLast(closest: seq<KadNode>, second: seq<KadNode>, probed: seq<KadNode>)
    requires FirstOfEach(closest + second, probed) && second != []
    requires (forall n | n in closest :: n.lastSeen > 0) && forall n | n in second :: n.lastSeen == 0
    ensures probed != [] && probed[|probed| - 1] == second[0]
    ensures forall i | 0 <= i < |probed| - 1 :: probed[i].lastSeen != 0
  {
    var asked := closest + second;
    assert asked[|closest|] == second[0] && second[0] in second;
    assert forall j | 0 <= j < |closest| :: asked[j] in closest;
    FreshComesLast(asked, probed, |closest|);
  }

  lemma LastIsPushed(t: Table, n: KadNode, failed: set<KadId>, now: nat, t': Table, g: nat)
    requires TableInv(t) && t'.WellFormed() && TableRuns.Step(t, Verdict(n, failed, now), t')
    requires n.id !in failed && Discovered(t.self, n)
    requires g < 128 && BelongsTo(t, n.id, g) && |t.buckets[g].nodes| < 20
    ensures IsLiveSomewhere(t', n.id)
  {
    HomeBelongs(t, n.id, g);
    PushedIsLiveIff(t.buckets[g], n, now, t'.buckets[g]);
    var m :| m in t'.buckets[g].nodes && m.id == n.id;
  }
}
