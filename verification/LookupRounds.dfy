/** What the rounds of a lookup come to, query by query: which nodes are found, asked next, probed and
    counted as failed. */
module LookupRounds {
  import opened KadId
  import opened KadNode
  import opened NodesLookup

  // Found nodes

  /** No node of time 0 is probed when the reply to query `i` is looked at. */
  ghost predicate NoneFresh(before: seq<KadNode>, alpha: seq<KadNode>, i: nat)
    requires i < |alpha|
  {
    (forall n | n in before :: n.lastSeen != 0) && forall j | 0 <= j <= i :: alpha[j].lastSeen != 0
  }

  lemma SeenZeroIff(before: seq<KadNode>, alpha: seq<KadNode>, i: nat)
    requires StrictlyRecent(before) && i < |alpha|
    ensures HasSeenAt(Probed(before, alpha, i + 1), 0) <==> !NoneFresh(before, alpha, i)
  {
    ProbedRecords(before, alpha, i + 1);
    var probed, done := Probed(before, alpha, i + 1), alpha[..i + 1];
    assert forall j | 0 <= j <= i :: alpha[j] == done[j] && done[j] in done;
  }

  /** Pair `k` of the reply to query `i` is taken: it does not name this node, and no node of time 0 is
      probed yet. */
  ghost predicate Takes(self: KadNode, alpha: seq<KadNode>, round: nat, net: Network, before: seq<KadNode>,
                        i: nat, k: nat) {
    && i < |alpha| && net.outcome(round, i).Replied? && k < |net.outcome(round, i).nearest|
    && Names(self, net.outcome(round, i).nearest[k])
    && NoneFresh(before, alpha, i)
  }

  ghost predicate Earlier(p: (nat, nat), q: (nat, nat)) {
    p.0 < q.0 || (p.0 == q.0 && p.1 < q.1)
  }

  /** `found` are the nodes of the pairs at `places`, which are all that the first `n` queries take, in the
      order of the queries and of the pairs within a reply. */
  ghost predicate FoundAt(self: KadNode, alpha: seq<KadNode>, round: nat, net: Network, before: seq<KadNode>, n: nat,
                          places: seq<(nat, nat)>, found: seq<KadNode>) {
    && |found| == |places|
    && (forall i, j | 0 <= i < j < |places| :: Earlier(places[i], places[j]))
    && (forall p | p in places :: p.0 < n && Takes(self, alpha, round, net, before, p.0, p.1))
    && (forall j | 0 <= j < |places| :: IsPair(round, net, places[j], found[j]))
    && forall i: nat, k: nat | i < n && Takes(self, alpha, round, net, before, i, k) :: (i, k) in places
  }

  /** The node of time 0 without failures that a pair of a reply names. */
  ghost predicate IsPair(round: nat, net: Network, p: (nat, nat), n: KadNode) {
    && net.outcome(round, p.0).Replied? && p.1 < |net.outcome(round, p.0).nearest|
    && n == KadNode(net.outcome(round, p.0).nearest[p.1].0, net.outcome(round, p.0).nearest[p.1].1, 0, 0)
  }

  /** What query `i` adds: the nodes of the pairs at `more`, which are all that it takes. */
  ghost predicate GainedAt(self: KadNode, alpha: seq<KadNode>, round: nat, net: Network, before: seq<KadNode>, i: nat,
                           more: seq<(nat, nat)>, gained: seq<KadNode>) {
    && |gained| == |more|
    && (forall j, l | 0 <= j < l < |more| :: Earlier(more[j], more[l]))
    && (forall p | p in more :: p.0 == i && Takes(self, alpha, round, net, before, i, p.1))
    && (forall j | 0 <= j < |more| :: IsPair(round, net, more[j], gained[j]))
    && forall k: nat | Takes(self, alpha, round, net, before, i, k) :: (i, k) in more
  }

  lemma PlacesOfReply(self: KadNode, alpha: seq<KadNode>, round: nat, net: Network, before: seq<KadNode>, i: nat,
                      ks: seq<nat>, gained: seq<KadNode>) returns (more: seq<(nat, nat)>)
    requires i < |alpha| && NoneFresh(before, alpha, i) && net.outcome(round, i).Replied?
    requires Kept(self, net.outcome(round, i).nearest, ks, gained)
    ensures GainedAt(self, alpha, round, net, before, i, more, gained)
  {
    more := seq(|ks|, j requires 0 <= j < |ks| => (i, ks[j]));
    forall k: nat | Takes(self, alpha, round, net, before, i, k)
      ensures (i, k) in more
    {
      var j :| 0 <= j < |ks| && ks[j] == k;
      assert more[j] == (i, k);
    }
  }

  lemma GainedMeans(self: KadNode, alpha: seq<KadNode>, round: nat, net: Network, before: seq<KadNode>, i: nat)
    returns (more: seq<(nat, nat)>)
    requires StrictlyRecent(before) && i < |alpha|
    ensures GainedAt(self, alpha, round, net, before, i, more,
                     Gained(self, net.outcome(round, i), Probed(before, alpha, i + 1)))
  {
    SeenZeroIff(before, alpha, i);
    more := [];
    var outcome := net.outcome(round, i);
    if outcome.Replied? && NoneFresh(before, alpha, i) {
      var ks := AcceptableKeeps(self, outcome.nearest);
      more := PlacesOfReply(self, alpha, round, net, before, i, ks, Acceptable(self, outcome.nearest));
    }
  }

  lemma AddPlaces(self: KadNode, alpha: seq<KadNode>, round: nat, net: Network, before: seq<KadNode>, i: nat,
                  places: seq<(nat, nat)>, found: seq<KadNode>, more: seq<(nat, nat)>, gained: seq<KadNode>)
    requires FoundAt(self, alpha, round, net, before, i, places, found)
    requires GainedAt(self, alpha, round, net, before, i, more, gained)
    ensures FoundAt(self, alpha, round, net, before, i + 1, places + more, found + gained)
  {
    PlacesInOrder(places, more, i);
    PairsOfBoth(round, net, places, found, more, gained);
    forall a: nat, k: nat | a < i + 1 && Takes(self, alpha, round, net, before, a, k)
      ensures (a, k) in places + more
    {
      assert a < i ==> (a, k) in places;
    }
  }

  lemma PairsOfBoth(round: nat, net: Network, places: seq<(nat, nat)>, found: seq<KadNode>,
                    more: seq<(nat, nat)>, gained: seq<KadNode>)
    requires |found| == |places| && |gained| == |more|
    requires forall j | 0 <= j < |places| :: IsPair(round, net, places[j], found[j])
    requires forall j | 0 <= j < |more| :: IsPair(round, net, more[j], gained[j])
    ensures forall j | 0 <= j < |places + more| :: IsPair(round, net, (places + more)[j], (found + gained)[j])
  {
  }

  lemma PlacesInOrder(places: seq<(nat, nat)>, more: seq<(nat, nat)>, i: nat)
    requires forall j, l | 0 <= j < l < |places| :: Earlier(places[j], places[l])
    requires forall j, l | 0 <= j < l < |more| :: Earlier(more[j], more[l])
    requires (forall p | p in places :: p.0 < i) && forall p | p in more :: p.0 == i
    ensures forall j, l | 0 <= j < l < |places + more| :: Earlier((places + more)[j], (places + more)[l])
  {
    var all := places + more;
    forall j, l | 0 <= j < l < |all|
      ensures Earlier(all[j], all[l])
    {
      if j < |places| <= l {
        assert all[j] in places && all[l] in more;
      }
    }
  }

  /** A round finds exactly the nodes of the pairs it takes, in order and as often as they are named. */
  lemma {:induction false} FoundMeans(self: KadNode, alpha: seq<KadNode>, round: nat, net: Network,
                                      before: seq<KadNode>, n: nat) returns (places: seq<(nat, nat)>)
    requires StrictlyRecent(before) && n <= |alpha|
    ensures FoundAt(self, alpha, round, net, before, n, places, Found(self, alpha, round, net, before, n))
    decreases n
  {
    places := [];
    if n > 0 {
      places := FoundMeans(self, alpha, round, net, before, n - 1);
      var more := GainedMeans(self, alpha, round, net, before, n - 1);
      AddPlaces(self, alpha, round, net, before, n - 1, places, Found(self, alpha, round, net, before, n - 1),
                more, Gained(self, net.outcome(round, n - 1), Probed(before, alpha, n)));
      places := places + more;
    }
  }

  // Failed nodes

  /** The failed nodes are those whose query threw. */
  lemma {:induction false} FailingMeans(alpha: seq<KadNode>, round: nat, net: Network, n: nat, id: KadId)
    requires n <= |alpha|
    ensures id in Failing(alpha, round, net, n)
            <==> exists i | 0 <= i < n :: net.outcome(round, i).Threw? && alpha[i].id == id
    decreases n
  {
    if n > 0 {
      FailingMeans(alpha, round, net, n - 1, id);
    }
  }

  // Probed nodes

  /** `n` is the first node of its time. */
  ghost predicate FirstOfTime(asked: seq<KadNode>, n: KadNode) {
    exists i | 0 <= i < |asked| && asked[i] == n :: forall j | 0 <= j < i :: asked[j].lastSeen != n.lastSeen
  }

  /** `probed` holds the first node of each time among those asked. */
  ghost predicate FirstOfEach(asked: seq<KadNode>, probed: seq<KadNode>) {
    StrictlyRecent(probed) && forall n :: n in probed <==> FirstOfTime(asked, n)
  }

  lemma OneMoreAsked(asked: seq<KadNode>, next: KadNode, probed: seq<KadNode>)
    requires FirstOfEach(asked, probed)
    ensures FirstOfEach(asked + [next], InsertNode(probed, next))
  {
    var all, after := asked + [next], InsertNode(probed, next);
    InsertMeans(probed, next);
    TimeTaken(asked, probed, next.lastSeen);
    forall n
      ensures FirstOfTime(all, n) <==> n in after
    {
      OneMoreFirst(asked, next, n);
    }
  }

  /** Some node of this time is probed exactly when one was asked. */
  lemma TimeTaken(asked: seq<KadNode>, probed: seq<KadNode>, lastSeen: int)
    requires FirstOfEach(asked, probed)
    ensures HasSeenAt(probed, lastSeen) <==> HasSeenAt(asked, lastSeen)
  {
    if HasSeenAt(probed, lastSeen) {
      var n :| n in probed && n.lastSeen == lastSeen;
      assert FirstOfTime(asked, n);
      var i :| 0 <= i < |asked| && asked[i] == n;
      assert asked[i] in asked;
    }
    if HasSeenAt(asked, lastSeen) {
      var n :| n in asked && n.lastSeen == lastSeen;
      var i :| 0 <= i < |asked| && asked[i] == n;
      var m := EarliestOfTime(asked, i);
      assert m in probed;
    }
  }

  lemma {:induction false} EarliestOfTime(asked: seq<KadNode>, i: nat) returns (m: KadNode)
    requires i < |asked|
    ensures FirstOfTime(asked, m) && m.lastSeen == asked[i].lastSeen
    decreases i
  {
    if j: nat :| j < i && asked[j].lastSeen == asked[i].lastSeen {
      m := EarliestOfTime(asked, j);
    } else {
      m := asked[i];
    }
  }

  lemma OneMoreFirst(asked: seq<KadNode>, next: KadNode, n: KadNode)
    ensures FirstOfTime(asked + [next], n)
            <==> FirstOfTime(asked, n) || (n == next && !HasSeenAt(asked, next.lastSeen))
  {
    var all := asked + [next];
    assert all[|asked|] == next && forall i | 0 <= i < |asked| :: all[i] == asked[i] && asked[i] in asked;
    if FirstOfTime(all, n) {
      var i :| 0 <= i < |all| && all[i] == n && forall j | 0 <= j < i :: all[j].lastSeen != n.lastSeen;
      if i < |asked| {
        assert asked[i] == n && forall j | 0 <= j < i :: asked[j].lastSeen != n.lastSeen;
      } else {
        assert forall m | m in asked :: m.lastSeen != n.lastSeen;
      }
    }
    if FirstOfTime(asked, n) {
      var i :| 0 <= i < |asked| && asked[i] == n && forall j | 0 <= j < i :: asked[j].lastSeen != n.lastSeen;
      assert all[i] == n && forall j | 0 <= j < i :: all[j].lastSeen != n.lastSeen;
    } else if n == next && !HasSeenAt(asked, next.lastSeen) {
      assert all[|asked|] == n && forall j | 0 <= j < |asked| :: all[j].lastSeen != n.lastSeen;
    }
  }

  lemma {:induction false} ProbedMeans(asked: seq<KadNode>, before: seq<KadNode>, alpha: seq<KadNode>, n: nat)
    requires FirstOfEach(asked, before) && n <= |alpha|
    ensures FirstOfEach(asked + alpha[..n], Probed(before, alpha, n))
    decreases n
  {
    if n == 0 {
      assert asked + alpha[..0] == asked;
    } else {
      ProbedMeans(asked, before, alpha, n - 1);
      assert asked + alpha[..n] == (asked + alpha[..n - 1]) + [alpha[n - 1]];
      OneMoreAsked(asked + alpha[..n - 1], alpha[n - 1], Probed(before, alpha, n - 1));
    }
  }

  // The whole query phase

  /** `found` is what the first round finds. */
  ghost predicate FoundFirst(self: KadNode, closest: seq<KadNode>, net: Network, found: seq<KadNode>) {
    exists places :: FoundAt(self, closest, 0, net, [], |closest|, places, found)
  }

  /** Three of the found nodes, or all there are, nearest first and none of the others nearer. */
  ghost predicate NearestFound(found: seq<KadNode>, target: KadId, second: seq<KadNode>) {
    && |second| == (if |found| <= 3 then |found| else 3)
    && multiset(second) <= multiset(found)
    && (forall i, j | 0 <= i < j < |second| :: Dist(second[i].id, target) <= Dist(second[j].id, target))
    && forall n: KadNode, m: KadNode | n in second && m in multiset(found) - multiset(second) ::
         Dist(n.id, target) <= Dist(m.id, target)
  }

  /** There is a second round exactly when the first one found something before the cutoff; it asks the
      nearest nodes found. */
  lemma RoundsMean(self: KadNode, closest: seq<KadNode>, target: KadId, net: Network,
                   second: seq<KadNode>, probed: seq<KadNode>, failed: set<KadId>, rounds: nat) returns (found: seq<KadNode>)
    requires Queried(self, closest, target, net, second, probed, failed, rounds)
    ensures FoundFirst(self, closest, net, found)
    ensures rounds == if closest == [] then 0 else if found == [] || net.expired(1) then 1 else 2
    ensures if rounds == 2 then NearestFound(found, target, second) else second == []
  {
    found := Found(self, closest, 0, net, [], |closest|);
    var places := FoundMeans(self, closest, 0, net, [], |closest|);
    if rounds == 2 {
      NextAlphaMeans(found, target, second);
    }
  }

  /** In the end the first node of each time is probed, in the order of asking. */
  lemma AskedMeans(self: KadNode, closest: seq<KadNode>, target: KadId, net: Network,
                   second: seq<KadNode>, probed: seq<KadNode>, failed: set<KadId>, rounds: nat)
    requires Queried(self, closest, target, net, second, probed, failed, rounds)
    ensures FirstOfEach(closest + second, probed)
  {
    FirstProbed(closest);
    if rounds == 2 {
      AllProbed(closest, Probed([], closest, |closest|), second);
    } else {
      assert closest + second == closest;
    }
  }

  lemma FirstProbed(closest: seq<KadNode>)
    ensures FirstOfEach(closest, Probed([], closest, |closest|))
  {
    var none: seq<KadNode> := [];
    AllProbed(none, none, closest);
    assert none + closest == closest;
  }

  lemma AllProbed(asked: seq<KadNode>, before: seq<KadNode>, alpha: seq<KadNode>)
    requires FirstOfEach(asked, before)
    ensures FirstOfEach(asked + alpha, Probed(before, alpha, |alpha|))
  {
    ProbedMeans(asked, before, alpha, |alpha|);
    assert alpha[..|alpha|] == alpha;
  }

  /** The failed nodes are those whose query threw, in either round. */
  lemma ThrewMeans(self: KadNode, closest: seq<KadNode>, target: KadId, net: Network,
                   second: seq<KadNode>, probed: seq<KadNode>, failed: set<KadId>, rounds: nat, id: KadId)
    requires Queried(self, closest, target, net, second, probed, failed, rounds)
    ensures id in failed
            <==> || (exists i | 0 <= i < |closest| :: net.outcome(0, i).Threw? && closest[i].id == id)
                 || (exists i | 0 <= i < |second| :: net.outcome(1, i).Threw? && second[i].id == id)
  {
    FailingMeans(closest, 0, net, |closest|, id);
    FailingMeans(second, 1, net, |second|, id);
  }
}
