/** The periodic lookup task: queries, then one locked pass that records the outcome in the table. */
module NodesLookupTask {
  import opened Bits
  import opened KadId
  import opened KadNode
  import opened Sorting
  import opened KadBucket
  import BucketRuns
  import opened KadRoutingTable
  import opened TableRuns
  import opened ClosestNodes
  import opened NodesLookup
  import opened Cardinality

  // What a step does to the identifiers of a table

  ghost predicate LiveIn(t: Table, id: KadId)
    requires t.WellFormed()
  {
    id != t.self.id && t.buckets[Home(t, id)].IsLive(id)
  }

  /** All identifiers the table holds, live or cached. */
  ghost function IdsIn(t: Table): set<KadId> {
    set b, id | b in t.buckets && id in Ids(b.All()) :: id
  }

  lemma PushIdsOf(b: Bucket, kn: KadNode, now: int, b': Bucket)
    requires PushStep(b, kn, now, b')
    ensures Ids(b'.All()) <= Ids(b.All()) + {kn.id}
  {
    forall n | n in b'.All()
      ensures n.id in Ids(b.All()) + {kn.id}
    {
      var m := PushOrigin(b, kn, now, b', n);
    }
  }

  lemma RemoveIdsOf(b: Bucket, id: KadId, b': Bucket)
    requires RemoveStep(b, id, b')
    ensures Ids(b'.All()) <= Ids(b.All())
  {
    forall n | n in b'.All()
      ensures n.id in Ids(b.All())
    {
      var m := RemoveOrigin(b, id, b', n);
    }
  }

  lemma OneBucketIds(t: Table, h: nat, t': Table, extra: set<KadId>)
    requires h < |t.buckets| && OnlyBucketChanges(t, h, t')
    requires Ids(t'.buckets[h].All()) <= Ids(t.buckets[h].All()) + extra
    ensures IdsIn(t') <= IdsIn(t) + extra
  {
    forall id | id in IdsIn(t')
      ensures id in IdsIn(t) + extra
    {
      var b' :| b' in t'.buckets && id in Ids(b'.All());
      var g :| 0 <= g < |t'.buckets| && t'.buckets[g] == b';
      assert t.buckets[g] in t.buckets;
    }
  }

  /** A step brings in no identifier but the pushed one. */
  lemma StepIds(t: Table, e: TableEvent, t': Table)
    requires t.WellFormed() && TableRuns.Step(t, e, t')
    ensures IdsIn(t') <= IdsIn(t) + if e.Push? then {e.kn.id} else {}
  {
    match e
    case Push(kn, now) =>
      if !Refuses(t, kn) {
        var h := Home(t, kn.id);
        PushIdsOf(t.buckets[h], kn, now, t'.buckets[h]);
        OneBucketIds(t, h, t', {kn.id});
      }
    case Remove(id) =>
      if t.self.id != id {
        var h := Home(t, id);
        RemoveIdsOf(t.buckets[h], id, t'.buckets[h]);
        OneBucketIds(t, h, t', {});
      }
    case SetAddress(_) =>
  }

  /** No time stamp is negative. */
  ghost predicate Timely(t: Table) {
    forall b | b in t.buckets :: forall n | n in b.All() :: n.lastSeen >= 0
  }

  /** Live nodes stay live through pushes of live nodes and removals of others. */
  lemma StepKeepsLive(t: Table, e: TableEvent, t': Table, id: KadId)
    requires TableInv(t) && TableRuns.Step(t, e, t') && LiveIn(t, id)
    requires match e
             case Push(kn, _) => Refuses(t, kn) || LiveIn(t, kn.id)
             case Remove(failed) => failed != id
             case SetAddress(_) => true
    ensures LiveIn(t', id)
  {
    var h := Home(t, id);
    var b, b' := t.buckets[h], t'.buckets[h];
    var n := b.nodes[Find(b.nodes, id)];
    assert n in b.nodes && Inv(b);
    match e
    case Push(kn, now) =>
      if !Refuses(t, kn) && Home(t, kn.id) == h && !b'.IsLive(id) {
        BucketRuns.EvictionIsEarned(b, BucketRuns.Push(kn, now), b', n);
      }
    case Remove(failed) =>
      if t.self.id != failed && Home(t, failed) == h && !b'.IsLive(id) {
        BucketRuns.EvictionIsEarned(b, BucketRuns.Remove(failed), b', n);
      }
    case SetAddress(_) =>
  }

  lemma BucketTimely(b: Bucket, e: BucketRuns.Event, b': Bucket)
    requires BucketRuns.Step(b, e, b') && forall n | n in b.All() :: n.lastSeen >= 0
    requires e.Push? ==> e.now >= 0 && e.kn.lastSeen >= 0
    ensures forall n | n in b'.All() :: n.lastSeen >= 0
  {
    forall n | n in b'.All()
      ensures n.lastSeen >= 0
    {
      match e
      case Push(kn, now) => var m := PushOrigin(b, kn, now, b', n);
      case Remove(id) => var m := RemoveOrigin(b, id, b', n);
    }
  }

  lemma StepKeepsTimely(t: Table, e: TableEvent, t': Table)
    requires t.WellFormed() && TableRuns.Step(t, e, t') && Timely(t)
    requires e.Push? ==> e.now >= 0 && e.kn.lastSeen >= 0
    ensures Timely(t')
  {
    match e
    case Push(kn, now) =>
      if !Refuses(t, kn) {
        var h := Home(t, kn.id);
        BucketTimely(t.buckets[h], BucketRuns.Push(kn, now), t'.buckets[h]);
        OneBucketTimely(t, h, t');
      }
    case Remove(id) =>
      if t.self.id != id {
        var h := Home(t, id);
        BucketTimely(t.buckets[h], BucketRuns.Remove(id), t'.buckets[h]);
        OneBucketTimely(t, h, t');
      }
    case SetAddress(_) =>
  }

  lemma OneBucketTimely(t: Table, h: nat, t': Table)
    requires h < |t.buckets| && OnlyBucketChanges(t, h, t') && Timely(t)
    requires forall n | n in t'.buckets[h].All() :: n.lastSeen >= 0
    ensures Timely(t')
  {
    forall b | b in t'.buckets
      ensures forall n | n in b.All() :: n.lastSeen >= 0
    {
      var g :| 0 <= g < |t'.buckets| && t'.buckets[g] == b;
      assert t.buckets[g] in t.buckets;
    }
  }

  // Recording the outcome

  /** A probed node the table can take whatever comes before it in the pass: still live and with a
      sane time stamp, or fresh. */
  ghost predicate Sound(t: Table, n: KadNode)
    requires t.WellFormed()
  {
    n.lastSeen >= 0 && (LiveIn(t, n.id) || (n.lastSeen == 0 && n.stales < STALES_THR))
  }

  /** What is still to be recorded from `i` on is sound. */
  ghost predicate RestSound(t: Table, probed: seq<KadNode>, i: nat, failed: set<KadId>)
    requires t.WellFormed()
  {
    forall j | i <= j < |probed| :: probed[j].id !in failed ==> Sound(t, probed[j])
  }

  /** It stays so, one step later. */
  lemma RestStaysSound(t: Table, e: TableEvent, t': Table, probed: seq<KadNode>, i: nat, failed: set<KadId>)
    requires TableInv(t) && TableRuns.Step(t, e, t') && StrictlyRecent(probed) && i < |probed|
    requires RestSound(t, probed, i, failed)
    requires t'.WellFormed()
    requires if probed[i].id in failed then e == Remove(probed[i].id)
             else e.Push? && e.kn == probed[i]
    ensures RestSound(t', probed, i + 1, failed)
  {
    forall j | i < j < |probed| && probed[j].id !in failed
      ensures Sound(t', probed[j])
    {
      assert probed[i].lastSeen > probed[j].lastSeen;
      if LiveIn(t, probed[j].id) {
        StepKeepsLive(t, e, t', probed[j].id);
      }
    }
  }

  /** What the pass does for one probed node. */
  function Verdict(n: KadNode, failed: set<KadId>, now: int): TableEvent {
    if n.id in failed then Remove(n.id) else TableRuns.Push(n, now)
  }

  lemma Follows(t: Table, now: nat, t': Table, probed: seq<KadNode>, i: nat, failed: set<KadId>)
    requires i < |probed| && TableInv(t) && TableRuns.Step(t, Verdict(probed[i], failed, now), t')
    requires Timely(t) && StrictlyRecent(probed) && RestSound(t, probed, i, failed)
    ensures TableInv(t') && Timely(t') && t'.self == t.self
    ensures IdsIn(t') <= IdsIn(t) + {probed[i].id}
    ensures RestSound(t', probed, i + 1, failed)
  {
    var e := Verdict(probed[i], failed, now);
    assert Allowed(t, e) by {
      if e.Push? {
        assert Sound(t, probed[i]);
      }
    }
    StepKeepsTableInv(t, e, t');
    StepKeepsTimely(t, e, t');
    StepIds(t, e, t');
    RestStaysSound(t, e, t', probed, i, failed);
  }

  /** The pass over `probed`: a removal for each node that failed, a push for each other, in order. */
  ghost predicate Records(states: seq<Table>, probed: seq<KadNode>, failed: set<KadId>, clock: nat -> nat) {
    && |states| == |probed| + 1
    && (forall i | 0 <= i < |states| :: states[i].WellFormed())
    && forall i | 0 <= i < |probed| :: TableRuns.Step(states[i], Verdict(probed[i], failed, clock(i)), states[i + 1])
  }

  /** The push of a node that was not held, or that the table refused, counts as a discovery. */
  ghost predicate Counts(t: Table, n: KadNode, failed: set<KadId>) {
    t.WellFormed() && n.id !in failed && (Refuses(t, n) || !PushFinds(t.buckets[Home(t, n.id)], n))
  }

  ghost function Discoveries(states: seq<Table>, probed: seq<KadNode>, failed: set<KadId>, i: nat): nat
    requires i <= |probed| && i <= |states|
  {
    if i == 0 then 0
    else Discoveries(states, probed, failed, i - 1) + if Counts(states[i - 1], probed[i - 1], failed) then 1 else 0
  }

  /** The second locked section of `doNodesLookup`. */
  method Record(table: KadRoutingTable, probed: seq<KadNode>, failed: set<KadId>, clock: nat -> nat)
    returns (nDiscovered: nat, ghost states: seq<Table>)
    requires table.Valid()
    modifies table.buckets[..]
    ensures table.Valid() && Records(states, probed, failed, clock)
    ensures states[0] == old(table.State()) && states[|probed|] == table.State()
    ensures nDiscovered == Discoveries(states, probed, failed, |probed|)
  {
    nDiscovered, states := 0, [table.State()];
    for i := 0 to |probed|
      invariant table.Valid()
      invariant Records(states, probed[..i], failed, clock)
      invariant states[0] == old(table.State()) && states[i] == table.State()
      invariant nDiscovered == Discoveries(states, probed[..i], failed, i)
    {
      var n := probed[i];
      var counted;
      counted := RecordNode(table, n, failed, clock(i));
      nDiscovered := nDiscovered + if counted then 1 else 0;
      RecordsNext(states, probed, failed, clock, i, table.State());
      DiscoveriesNext(states, probed, failed, i, table.State());
      states := states + [table.State()];
    }
    assert probed[..|probed|] == probed;
  }

  /** One round of the pass. */
  method RecordNode(table: KadRoutingTable, n: KadNode, failed: set<KadId>, now: int) returns (counted: bool)
    requires table.Valid()
    modifies table.buckets[..]
    ensures table.Valid() && TableRuns.Step(old(table.State()), Verdict(n, failed, now), table.State())
    ensures counted == Counts(old(table.State()), n, failed)
  {
    if n.id in failed {
      var removed := table.RemoveNode(n.id);
      counted := false;
    } else {
      var found := table.PushNode(n, now);
      counted := !found;
    }
  }

  lemma RecordsNext(states: seq<Table>, probed: seq<KadNode>, failed: set<KadId>, clock: nat -> nat, i: nat, t': Table)
    requires i < |probed| && Records(states, probed[..i], failed, clock)
    requires t'.WellFormed() && TableRuns.Step(states[i], Verdict(probed[i], failed, clock(i)), t')
    ensures Records(states + [t'], probed[..i + 1], failed, clock)
  {
    var after := states + [t'];
    forall j | 0 <= j < i + 1
      ensures TableRuns.Step(after[j], Verdict(probed[..i + 1][j], failed, clock(j)), after[j + 1])
    {
      if j < i {
        assert TableRuns.Step(states[j], Verdict(probed[..i][j], failed, clock(j)), states[j + 1]);
      }
    }
  }

  lemma DiscoveriesNext(states: seq<Table>, probed: seq<KadNode>, failed: set<KadId>, i: nat, t': Table)
    requires i < |probed| && |states| == i + 1
    ensures Discoveries(states + [t'], probed[..i + 1], failed, i + 1)
            == Discoveries(states, probed[..i], failed, i) + if Counts(states[i], probed[i], failed) then 1 else 0
  {
    SameDiscoveries(states, probed[..i], states + [t'], probed[..i + 1], failed, i);
  }

  lemma {:induction false} SameDiscoveries(states: seq<Table>, probed: seq<KadNode>, states': seq<Table>,
                                           probed': seq<KadNode>, failed: set<KadId>, i: nat)
    requires i <= |probed| && i <= |states| && states <= states' && probed <= probed'
    ensures Discoveries(states', probed', failed, i) == Discoveries(states, probed, failed, i)
  {
    if i > 0 {
      SameDiscoveries(states, probed, states', probed', failed, i - 1);
    }
  }

  /** What the pass from `t0` has kept when it comes to node `i`: the table invariant, the time stamps,
      `self`; no identifier came in but those of probed nodes, and the nodes still to be recorded are
      fit for it. */
  ghost predicate Kept(t0: Table, t: Table, probed: seq<KadNode>, i: nat, failed: set<KadId>) {
    && TableInv(t) && Timely(t) && t.self == t0.self
    && IdsIn(t) <= IdsIn(t0) + Ids(probed)
    && RestSound(t, probed, i, failed)
  }

  lemma StepKeeps(t0: Table, t: Table, now: nat, t': Table, probed: seq<KadNode>, i: nat, failed: set<KadId>)
    requires StrictlyRecent(probed) && i < |probed| && Kept(t0, t, probed, i, failed)
    requires TableRuns.Step(t, Verdict(probed[i], failed, now), t')
    ensures Kept(t0, t', probed, i + 1, failed)
  {
    Follows(t, now, t', probed, i, failed);
    assert probed[i] in probed;
  }

  ghost predicate KeptUpTo(states: seq<Table>, probed: seq<KadNode>, failed: set<KadId>, i: nat)
    requires i < |states|
  {
    Kept(states[0], states[i], probed, i, failed)
  }

  lemma RecordsStepKeeps(states: seq<Table>, probed: seq<KadNode>, failed: set<KadId>, clock: nat -> nat, i: nat)
    requires Records(states, probed, failed, clock) && StrictlyRecent(probed)
    requires i < |probed| && KeptUpTo(states, probed, failed, i)
    ensures KeptUpTo(states, probed, failed, i + 1)
  {
    var t, t' := states[i], states[i + 1];
    StepKeeps(states[0], t, clock(i), t', probed, i, failed);
  }

  /** The table may have changed since the queries were sent, as long as the nodes it named are still
      live. */
  lemma RecordsKeep(states: seq<Table>, probed: seq<KadNode>, failed: set<KadId>, clock: nat -> nat, i: nat)
    requires Records(states, probed, failed, clock) && i <= |probed|
    requires TableInv(states[0]) && Timely(states[0])
    requires StrictlyRecent(probed) && forall n | n in probed :: Sound(states[0], n)
    ensures KeptUpTo(states, probed, failed, i)
  {
    assert KeptUpTo(states, probed, failed, 0);
    for k := 0 to i
      invariant KeptUpTo(states, probed, failed, k)
    {
      RecordsStepKeeps(states, probed, failed, clock, k);
    }
  }

  lemma LiveDoesNotCount(t0: Table, t: Table, probed: seq<KadNode>, i: nat, failed: set<KadId>)
    requires i < |probed| && Kept(t0, t, probed, i, failed)
    requires probed[i].lastSeen > 0 && probed[i].address != t0.self.address
    ensures !Counts(t, probed[i], failed)
  {
    if probed[i].id !in failed {
      assert Sound(t, probed[i]);
    }
  }

  lemma SeenDoesNotCount(states: seq<Table>, probed: seq<KadNode>, failed: set<KadId>, clock: nat -> nat, i: nat)
    requires Records(states, probed, failed, clock) && i < |probed|
    requires TableInv(states[0]) && Timely(states[0])
    requires StrictlyRecent(probed) && forall n | n in probed :: Sound(states[0], n)
    requires probed[i].lastSeen > 0 && probed[i].address != states[0].self.address
    ensures !Counts(states[i], probed[i], failed)
  {
    RecordsKeep(states, probed, failed, clock, i);
    var t0, t := states[0], states[i];
    LiveDoesNotCount(t0, t, probed, i, failed);
  }

  lemma OnlyLastCounts(states: seq<Table>, probed: seq<KadNode>, failed: set<KadId>, clock: nat -> nat, i: nat)
    requires Records(states, probed, failed, clock) && i < |probed|
    requires TableInv(states[0]) && Timely(states[0])
    requires StrictlyRecent(probed) && forall n | n in probed :: Sound(states[0], n)
    requires probed[i].address != states[0].self.address
    ensures Counts(states[i], probed[i], failed) ==> i == |probed| - 1
  {
    var n := probed[i];
    assert n in probed && Sound(states[0], n);
    if n.lastSeen == 0 {
      FreshIsLast(probed, i);
    } else {
      SeenDoesNotCount(states, probed, failed, clock, i);
    }
  }

  /** Only the last of the probed nodes can count as discovered, unless one of them has the address
      of this node itself: the table refuses such a node, which counts as well. */
  lemma AtMostOneDiscovery(states: seq<Table>, probed: seq<KadNode>, failed: set<KadId>, clock: nat -> nat, i: nat)
    requires Records(states, probed, failed, clock) && i <= |probed|
    requires TableInv(states[0]) && Timely(states[0])
    requires StrictlyRecent(probed) && forall n | n in probed :: Sound(states[0], n)
    requires forall n | n in probed :: n.address != states[0].self.address
    ensures Discoveries(states, probed, failed, i) <= if i == |probed| then 1 else 0
  {
    for k := 0 to i
      invariant Discoveries(states, probed, failed, k) <= if k == |probed| then 1 else 0
    {
      assert probed[k] in probed;
      OnlyLastCounts(states, probed, failed, clock, k);
    }
  }

  /** A fresh node is recorded last. */
  lemma FreshIsLast(probed: seq<KadNode>, i: nat)
    requires StrictlyRecent(probed) && forall n | n in probed :: n.lastSeen >= 0
    requires i < |probed| && probed[i].lastSeen == 0
    ensures i == |probed| - 1
  {
    assert probed[|probed| - 1] in probed;
  }

  // The whole lookup

  lemma LiveNode(t: Table, n: KadNode)
    requires TableInv(t) && Live(t, n)
    ensures LiveIn(t, n.id)
    ensures Timely(t) ==> n.lastSeen >= 0
  {
    AllLiveDistinct(t, ID_BITS);
    AllLiveBucket(t, ID_BITS, n);
    var b := t.buckets[BucketIn(t, n)];
    assert n in b.nodes && n in b.All() && b in t.buckets;
    if !b.IsLive(n.id) {
      FindMissing(b.nodes, n.id);
    }
  }

  /** What the search for the first nodes to query answers. */
  lemma StartIsSound(t: Table, target: KadId, closest: seq<KadNode>)
    requires TableInv(t) && Timely(t) && IsClosestAnswer(t, target, ALPHA, closest)
    ensures |closest| <= ALPHA
    ensures forall n | n in closest :: LiveIn(t, n.id) && n.lastSeen >= 0
  {
    if target != t.self.id {
      AnswerIsFull(t, target, ALPHA, closest);
      forall n | n in closest
        ensures LiveIn(t, n.id) && n.lastSeen >= 0
      {
        LiveNode(t, n);
      }
    }
  }

  lemma LiveIsHeld(t: Table, id: KadId)
    requires t.WellFormed() && LiveIn(t, id)
    ensures id in IdsIn(t)
  {
    var b := t.buckets[Home(t, id)];
    var n := b.nodes[Find(b.nodes, id)];
    assert n in b.All() && n.id in Ids(b.All()) && b in t.buckets;
  }

  /** At most one identifier is new. */
  ghost predicate LearnsAtMostOne(t: Table, t': Table) {
    exists id: KadId :: IdsIn(t') <= IdsIn(t) + {id}
  }

  /** One lookup from beginning to end. */
  datatype Lookup = Lookup(closest: seq<KadNode>, second: seq<KadNode>, probed: seq<KadNode>, failed: set<KadId>,
                           rounds: nat, states: seq<Table>) {
    function Queries(): nat {
      |closest| + |second|
    }
  }

  /** `l` is a lookup of `target` that takes the table from `t` to `t'`: up to ALPHA nodes found by
      the table, the query phase from there, and the pass over what was probed. */
  ghost predicate Looked(t: Table, target: KadId, net: Network, clock: nat -> nat, l: Lookup, t': Table) {
    && t.WellFormed() && IsClosestAnswer(t, target, ALPHA, l.closest)
    && Queried(t.self, l.closest, target, net, l.second, l.probed, l.failed, l.rounds)
    && Records(l.states, l.probed, l.failed, clock)
    && l.states[0] == t && l.states[|l.probed|] == t'
  }

  lemma AnswerBound(t: Table, target: KadId, closest: seq<KadNode>)
    requires t.WellFormed() && IsClosestAnswer(t, target, ALPHA, closest)
    ensures |closest| <= ALPHA
  {
    if target != t.self.id {
      PermutationMembers(Take(Walk(t, Home(t, target)), ALPHA), closest);
    }
  }

  /** `doNodesLookup`, for arbitrary replies, failures and cutoff. */
  method DoNodesLookup(table: KadRoutingTable, target: KadId, net: Network, clock: nat -> nat)
    returns (nDiscovered: nat, ghost lookup: Lookup)
    requires table.Valid()
    modifies table.buckets[..]
    ensures table.Valid() && Looked(old(table.State()), target, net, clock, lookup, table.State())
    ensures nDiscovered == Discoveries(lookup.states, lookup.probed, lookup.failed, |lookup.probed|)
  {
    var closest, size := table.GetClosestTo(target, ALPHA);
    AnswerBound(table.State(), target, closest);
    var probed, failed, rounds, queries;
    ghost var second, states;
    probed, failed, rounds, queries, second := QueryPhase(table.selfNode, closest, target, net);
    nDiscovered, states := Record(table, probed, failed, clock);
    lookup := Lookup(closest, second, probed, failed, rounds, states);
  }

  /** What a lookup does to a reachable table: it keeps the table invariant, teaches the table at most
      one identifier, whatever the replies name, and ends within two rounds and six queries; looking
      for `self` does nothing. */
  lemma LookupMeans(t: Table, target: KadId, net: Network, clock: nat -> nat, l: Lookup, t': Table)
    requires TableInv(t) && Timely(t) && Looked(t, target, net, clock, l, t')
    ensures TableInv(t') && Timely(t') && t'.self == t.self
    ensures LearnsAtMostOne(t, t')
    ensures l.rounds <= 2 && l.Queries() <= 6
    ensures target == t.self.id ==> l.Queries() == 0 && t' == t
  {
    StartIsSound(t, target, l.closest);
    QueriedMeans(t.self, l.closest, target, net, l.second, l.probed, l.failed, l.rounds);
    ProbedAreSound(t, l.closest, t.self, l.probed);
    RecordsKeep(l.states, l.probed, l.failed, clock, |l.probed|);
    OneNewId(t, l.closest, l.probed, t.self, t');
  }

  lemma ProbedAreSound(t: Table, closest: seq<KadNode>, self: KadNode, probed: seq<KadNode>)
    requires t.WellFormed()
    requires forall n | n in closest :: LiveIn(t, n.id) && n.lastSeen >= 0
    requires forall n | n in probed :: n in closest || Discovered(self, n)
    ensures forall n | n in probed :: Sound(t, n)
  {
  }

  lemma OneNewId(t: Table, closest: seq<KadNode>, probed: seq<KadNode>, self: KadNode, t': Table)
    requires t.WellFormed() && StrictlyRecent(probed)
    requires forall n | n in closest :: LiveIn(t, n.id)
    requires forall n | n in probed :: n in closest || Discovered(self, n)
    requires IdsIn(t') <= IdsIn(t) + Ids(probed)
    ensures LearnsAtMostOne(t, t')
  {
    forall n | n in closest
      ensures n.id in IdsIn(t)
    {
      LiveIsHeld(t, n.id);
    }
    if learned :| learned in probed && learned !in closest {
      forall n | n in probed
        ensures n.id in IdsIn(t) + {learned.id}
      {
        if n !in closest {
          OneDiscovery(self, closest, probed, n, learned);
        }
      }
      assert IdsIn(t') <= IdsIn(t) + {learned.id};
    } else {
      assert IdsIn(t') <= IdsIn(t) + {self.id};
    }
  }

  /** `execute`: lookups of the targets one after the other, until it is stopped. */
  ghost predicate Executes(tables: seq<Table>, lookups: seq<Lookup>, targets: seq<KadId>,
                           net: nat -> Network, clock: nat -> nat -> nat) {
    && |tables| == |lookups| + 1 && |lookups| <= |targets|
    && forall i | 0 <= i < |lookups| :: Looked(tables[i], targets[i], net(i), clock(i), lookups[i], tables[i + 1])
  }

  /** `far` differs from `self` in the top `n` bits and no others. */
  ghost predicate LiesFar(self: KadId, far: KadId, n: nat)
    requires n <= ID_BITS
  {
    Dist(self, far) == Pow2(8 * |self|) - Pow2(8 * |self| - n)
  }

  /** The targets when the table is not full: 0 to 127 bits far from `self`. */
  ghost predicate SpreadFrom(self: KadId, targets: seq<KadId>) {
    && |targets| == ID_BITS && targets[0] == self
    && (forall i | 0 <= i < ID_BITS :: LiesFar(self, targets[i], i))
    && (forall i | 0 <= i < ID_BITS :: PopCount(Dist(self, targets[i])) == i)
    && (forall i | 0 < i < ID_BITS :: BucketOf(self, targets[i]) == 127)
  }

  lemma ExecutesNext(tables: seq<Table>, lookups: seq<Lookup>, targets: seq<KadId>,
                     net: nat -> Network, clock: nat -> nat -> nat, l: Lookup, t': Table)
    requires Executes(tables, lookups, targets, net, clock) && |lookups| < |targets|
    ensures Looked(tables[|lookups|], targets[|lookups|], net(|lookups|), clock(|lookups|), l, t') ==>
              Executes(tables + [t'], lookups + [l], targets, net, clock)
  {
  }

  /** It is not stopped before its `n`-th lookup. */
  ghost predicate RunsUntil(running: nat -> bool, n: nat) {
    forall i | 0 <= i < n :: running(i)
  }

  /** Lookups that find the table as another one found it start with the same nodes: all targets but the
      first lie in one bucket, so the search returns the same nodes for each. While replies bring nothing
      new, they all ask these. */
  lemma SameFirstQueries(tables: seq<Table>, lookups: seq<Lookup>, targets: seq<KadId>,
                         net: nat -> Network, clock: nat -> nat -> nat, i: nat, j: nat)
    requires Executes(tables, lookups, targets, net, clock)
    requires 0 < i < |lookups| && 0 < j < |lookups|
    ensures tables[i] == tables[j] && SpreadFrom(tables[i].self.id, targets) ==>
              multiset(lookups[i].closest) == multiset(lookups[j].closest)
  {
    if tables[i] == tables[j] && SpreadFrom(tables[i].self.id, targets) {
      assert Looked(tables[i], targets[i], net(i), clock(i), lookups[i], tables[i + 1]);
      assert Looked(tables[j], targets[j], net(j), clock(j), lookups[j], tables[j + 1]);
      SameBucketSameNodes(tables[i], targets[i], targets[j], ALPHA, lookups[i].closest, lookups[j].closest);
    }
  }

  lemma RunsNext(running: nat -> bool, n: nat)
    requires RunsUntil(running, n) && running(n)
    ensures RunsUntil(running, n + 1)
  {
  }

  ghost function TotalQueries(lookups: seq<Lookup>, n: nat): nat
    requires n <= |lookups|
  {
    if n == 0 then 0 else TotalQueries(lookups, n - 1) + lookups[n - 1].Queries()
  }

  /** `execute`, on a reachable table: which is never full, so the targets always come from
      `idNbitsFarFrom`. `running` tells after how many lookups it is stopped. */
  method Execute(table: KadRoutingTable, net: nat -> Network, clock: nat -> nat -> nat, running: nat -> bool)
    returns (ghost tables: seq<Table>, ghost lookups: seq<Lookup>, ghost targets: seq<KadId>)
    requires table.Valid() && TableInv(table.State())
    modifies table.buckets[..]
    ensures table.Valid() && SpreadFrom(table.selfNode.id, targets)
    ensures Executes(tables, lookups, targets, net, clock)
    ensures tables[0] == old(table.State()) && tables[|lookups|] == table.State()
    ensures RunsUntil(running, |lookups|)
    ensures |lookups| == ID_BITS || !running(|lookups|)
  {
    tables, lookups := [table.State()], [];
    var toLook: seq<KadId> := [];
    var full := table.IsFull();
    NeverFull(table.State());
    if full {
      assert false;
    } else {
      toLook := SpreadTargets(table.selfNode.id);
    }
    targets := toLook;
    var i := 0;
    while i < |toLook| && running(i)
      invariant 0 <= i <= |toLook| && |lookups| == i
      invariant table.Valid() && Executes(tables, lookups, toLook, net, clock)
      invariant tables[0] == old(table.State()) && tables[i] == table.State()
      invariant RunsUntil(running, i)
    {
      RunsNext(running, i);
      var nd;
      ghost var lookup;
      nd, lookup := DoNodesLookup(table, toLook[i], net(i), clock(i));
      ExecutesNext(tables, lookups, toLook, net, clock, lookup, table.State());
      tables, lookups := tables + [table.State()], lookups + [lookup];
      i := i + 1;
    }
  }

  /** What `n` lookups can have done, the first of them a lookup of `self`. */
  ghost predicate Bounded(tables: seq<Table>, lookups: seq<Lookup>, n: nat)
    requires n <= |lookups| < |tables|
  {
    var effective := if n == 0 then 0 else n - 1;
    && TableInv(tables[n]) && Timely(tables[n]) && tables[n].self == tables[0].self
    && TotalQueries(lookups, n) <= 6 * effective
    && |IdsIn(tables[n])| <= |IdsIn(tables[0])| + effective
  }

  lemma LookupKeepsBounds(tables: seq<Table>, lookups: seq<Lookup>, targets: seq<KadId>,
                          net: nat -> Network, clock: nat -> nat -> nat, n: nat)
    requires Executes(tables, lookups, targets, net, clock) && SpreadFrom(tables[0].self.id, targets)
    requires n < |lookups|
    ensures Bounded(tables, lookups, n) ==> Bounded(tables, lookups, n + 1)
  {
    if Bounded(tables, lookups, n) {
      var t, l, t' := tables[n], lookups[n], tables[n + 1];
      LookupMeans(t, targets[n], net(n), clock(n), l, t');
      if n > 0 {
        AtMostOneMore(t, t');
      }
    }
  }

  /** What one execution can do: the table invariant holds after each lookup; all lookups
      together send at most 762 queries and teach the table at most 127 identifiers. */
  lemma ExecutionMeans(tables: seq<Table>, lookups: seq<Lookup>, targets: seq<KadId>,
                       net: nat -> Network, clock: nat -> nat -> nat, n: nat)
    requires Executes(tables, lookups, targets, net, clock) && n <= |lookups|
    requires TableInv(tables[0]) && Timely(tables[0]) && SpreadFrom(tables[0].self.id, targets)
    ensures TableInv(tables[n]) && Timely(tables[n]) && tables[n].self == tables[0].self
    ensures TotalQueries(lookups, n) <= 6 * 127
    ensures |IdsIn(tables[n])| <= |IdsIn(tables[0])| + 127
  {
    for k := 0 to n
      invariant Bounded(tables, lookups, k)
    {
      LookupKeepsBounds(tables, lookups, targets, net, clock, k);
    }
  }

  method SpreadTarget(self: KadId, n: nat) returns (target: KadId)
    requires n < ID_BITS
    ensures LiesFar(self, target, n) && PopCount(Dist(self, target)) == n
    ensures if n == 0 then target == self else BucketOf(self, target) == 127
  {
    target := IdNbitsFarFrom(self, n);
    NbitsFarMeans(self, target, n);
  }

  method SpreadTargets(self: KadId) returns (toLook: seq<KadId>)
    ensures SpreadFrom(self, toLook)
  {
    toLook := [];
    for i := 0 to ID_BITS
      invariant |toLook| == i
      invariant i > 0 ==> toLook[0] == self
      invariant forall j | 0 <= j < i :: LiesFar(self, toLook[j], j)
      invariant forall j | 0 <= j < i :: PopCount(Dist(self, toLook[j])) == j
      invariant forall j | 0 < j < i :: BucketOf(self, toLook[j]) == 127
    {
      var target := SpreadTarget(self, i);
      toLook := toLook + [target];
    }
  }

  lemma AtMostOneMore(t: Table, t': Table)
    requires LearnsAtMostOne(t, t')
    ensures |IdsIn(t')| <= |IdsIn(t)| + 1
  {
    var id: KadId :| IdsIn(t') <= IdsIn(t) + {id};
    SubsetCardinality(IdsIn(t'), IdsIn(t) + {id});
  }
}
