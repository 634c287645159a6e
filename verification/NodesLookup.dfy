/** The iterative node lookup. Replies, failures and the 60 second cutoff are arbitrary inputs. */
module NodesLookup {
  import opened Bits
  import opened KadId
  import opened KadNode
  import opened Sorting
  import opened KadRoutingTable

  const ALPHA: nat := 3

  /** What one queried node sends back, or an exception on the way. */
  datatype Outcome = Replied(nearest: seq<(KadId, Bytes)>) | Threw

  /** The outcome of the `i`-th query of a round, and whether the cutoff ends the lookup after it. */
  datatype Network = Network(outcome: (nat, nat) -> Outcome, expired: nat -> bool)

  // std::set<KadNode>, ordered by KadNode::operator<: nodes seen at the same time are the same

  ghost predicate StrictlyRecent(s: seq<KadNode>) {
    forall i, j | 0 <= i < j < |s| :: s[i].lastSeen > s[j].lastSeen
  }

  /** `find` succeeds for any node of equal `lastSeen`. */
  predicate HasSeenAt(s: seq<KadNode>, lastSeen: int) {
    exists n | n in s :: n.lastSeen == lastSeen
  }

  /** Where `insert` looks for a place: the first node that was not seen later. */
  function LowerBound(s: seq<KadNode>, lastSeen: int): (i: nat)
    ensures i <= |s|
    ensures forall j | 0 <= j < i :: s[j].lastSeen > lastSeen
    ensures i < |s| ==> s[i].lastSeen <= lastSeen
  {
    if s == [] || s[0].lastSeen <= lastSeen then 0 else 1 + LowerBound(s[1..], lastSeen)
  }

  /** `insert` into the ordered set. */
  function InsertNode(s: seq<KadNode>, n: KadNode): seq<KadNode> {
    var i := LowerBound(s, n.lastSeen);
    if i < |s| && s[i].lastSeen == n.lastSeen then s else Inserted(s, n, i)
  }

  /** The set keeps one node for each time: a second one seen at the same time is not inserted. */
  lemma InsertMeans(s: seq<KadNode>, n: KadNode)
    requires StrictlyRecent(s)
    ensures StrictlyRecent(InsertNode(s, n))
    ensures if HasSeenAt(s, n.lastSeen) then InsertNode(s, n) == s
            else forall m :: m in InsertNode(s, n) <==> m in s || m == n
  {
    var i := LowerBound(s, n.lastSeen);
    if i < |s| && s[i].lastSeen == n.lastSeen {
      assert s[i] in s;
    } else {
      InsertedAt(s, n, i);
      assert s == s[..i] + s[i..];
    }
  }

  lemma InsertedAt(s: seq<KadNode>, n: KadNode, i: nat)
    requires StrictlyRecent(s) && i <= |s|
    requires forall j | 0 <= j < i :: s[j].lastSeen > n.lastSeen
    requires i < |s| ==> s[i].lastSeen < n.lastSeen
    ensures StrictlyRecent(Inserted(s, n, i)) && !HasSeenAt(s, n.lastSeen)
  {
    var r := Inserted(s, n, i);
    assert forall j | 0 <= j < |r| :: r[j] == if j < i then s[j] else if j == i then n else s[j - 1];
    assert forall j | i <= j < |s| :: s[j].lastSeen < n.lastSeen;
  }

  // The query rounds

  /** A node built from a reply: never seen, no failures, not `self`. */
  predicate Discovered(self: KadNode, n: KadNode) {
    n == FreshNode(n.id, n.address) && n.id != self.id && n.address != self.address
  }

  /** The nodes a reply names, without `self`. */
  function Acceptable(self: KadNode, nearest: seq<(KadId, Bytes)>): (r: seq<KadNode>)
    ensures forall n | n in r :: Discovered(self, n)
  {
    if nearest == [] then []
    else
      var (id, address) := nearest[|nearest| - 1];
      Acceptable(self, nearest[..|nearest| - 1])
      + if self.id == id || self.address == address then [] else [FreshNode(id, address)]
  }

  /** A pair of a reply that does not name this node. */
  predicate Names(self: KadNode, p: (KadId, Bytes)) {
    p.0 != self.id && p.1 != self.address
  }

  /** `r` are the nodes of the pairs at `ks`, which are all that do not name this node, in their order. */
  ghost predicate Kept(self: KadNode, nearest: seq<(KadId, Bytes)>, ks: seq<nat>, r: seq<KadNode>) {
    && |r| == |ks|
    && (forall i, j | 0 <= i < j < |ks| :: ks[i] < ks[j])
    && (forall j | 0 <= j < |ks| :: ks[j] < |nearest| && Names(self, nearest[ks[j]]))
    && (forall j | 0 <= j < |ks| :: r[j] == KadNode(nearest[ks[j]].0, nearest[ks[j]].1, 0, 0))
    && forall k | 0 <= k < |nearest| && Names(self, nearest[k]) :: k in ks
  }

  lemma {:induction false} AcceptableKeeps(self: KadNode, nearest: seq<(KadId, Bytes)>) returns (ks: seq<nat>)
    ensures Kept(self, nearest, ks, Acceptable(self, nearest))
    decreases |nearest|
  {
    ks := [];
    if nearest != [] {
      var init, last := nearest[..|nearest| - 1], nearest[|nearest| - 1];
      ks := AcceptableKeeps(self, init);
      assert forall k | 0 <= k < |init| :: init[k] == nearest[k];
      if Names(self, last) {
        ks := ks + [|init|];
      }
    }
  }

  /** What the reply of one node adds to the discovered nodes: `find` misses a fresh node only while
      `probed` holds no node of `lastSeen` 0, so the reply is taken as a whole or not at all. */
  method Collect(self: KadNode, nearest: seq<(KadId, Bytes)>, probed: seq<KadNode>, before: seq<KadNode>)
    returns (discovered: seq<KadNode>)
    ensures discovered == before + if HasSeenAt(probed, 0) then [] else Acceptable(self, nearest)
    ensures (exists n | n in probed :: n.lastSeen == 0) ==> discovered == before
    ensures !(exists n | n in probed :: n.lastSeen == 0) ==>
              before <= discovered && exists ks :: Kept(self, nearest, ks, discovered[|before|..])
  {
    discovered := before;
    for k := 0 to |nearest|
      invariant discovered == before + if HasSeenAt(probed, 0) then [] else Acceptable(self, nearest[..k])
    {
      assert nearest[..k + 1][..k] == nearest[..k];
      var kn := FreshNode(nearest[k].0, nearest[k].1);
      if HasSeenAt(probed, kn.lastSeen) {
        continue;
      }
      if self.id == kn.id || self.address == kn.address {
        continue;
      }
      discovered := discovered + [kn];
    }
    assert nearest[..|nearest|] == nearest;
    ghost var ks := AcceptableKeeps(self, nearest);
    if !HasSeenAt(probed, 0) {
      assert discovered[|before|..] == Acceptable(self, nearest);
    }
  }

  /** What the outcome of one query adds. */
  function Gained(self: KadNode, outcome: Outcome, probed: seq<KadNode>): (r: seq<KadNode>)
    ensures forall n | n in r :: Discovered(self, n)
    ensures HasSeenAt(probed, 0) ==> r == []
  {
    if outcome.Threw? || HasSeenAt(probed, 0) then [] else Acceptable(self, outcome.nearest)
  }

  // One round: `alpha` is queried while `before` is already probed

  /** `probed` after the first `i` nodes. */
  function Probed(before: seq<KadNode>, alpha: seq<KadNode>, i: nat): seq<KadNode>
    requires i <= |alpha|
  {
    if i == 0 then before else InsertNode(Probed(before, alpha, i - 1), alpha[i - 1])
  }

  /** `discovered` after the replies of the first `i` nodes. */
  function Found(self: KadNode, alpha: seq<KadNode>, round: nat, net: Network, before: seq<KadNode>, i: nat): (r: seq<KadNode>)
    requires i <= |alpha|
    ensures forall n | n in r :: Discovered(self, n)
  {
    if i == 0 then []
    else
      Found(self, alpha, round, net, before, i - 1)
      + Gained(self, net.outcome(round, i - 1), Probed(before, alpha, i))
  }

  /** The identifiers of the first `i` nodes whose query threw. */
  function Failing(alpha: seq<KadNode>, round: nat, net: Network, i: nat): set<KadId>
    requires i <= |alpha|
  {
    if i == 0 then {}
    else Failing(alpha, round, net, i - 1) + if net.outcome(round, i - 1).Threw? then {alpha[i - 1].id} else {}
  }

  /** What is known of `probed` after the nodes of `alpha` were recorded beside those of `before`. */
  ghost predicate Recorded(before: seq<KadNode>, alpha: seq<KadNode>, probed: seq<KadNode>) {
    && StrictlyRecent(probed)
    && (forall n | n in before :: n in probed)
    && (forall n | n in probed :: n in before || n in alpha)
    && (forall n | n in alpha :: HasSeenAt(probed, n.lastSeen))
  }

  lemma RecordOne(before: seq<KadNode>, alpha: seq<KadNode>, i: nat, probed: seq<KadNode>)
    requires i < |alpha| && Recorded(before, alpha[..i], probed)
    ensures Recorded(before, alpha[..i + 1], InsertNode(probed, alpha[i]))
    ensures HasSeenAt(InsertNode(probed, alpha[i]), alpha[0].lastSeen)
  {
    var next, after := alpha[i], InsertNode(probed, alpha[i]);
    assert alpha[..i + 1] == alpha[..i] + [next];
    InsertMeans(probed, next);
    assert HasSeenAt(after, next.lastSeen) by {
      if !HasSeenAt(probed, next.lastSeen) {
        assert next in after;
      }
    }
    forall n | n in alpha[..i + 1]
      ensures HasSeenAt(after, n.lastSeen)
    {
      if n in alpha[..i] {
        SeenStays(probed, after, n.lastSeen);
      }
    }
    assert alpha[..i + 1][0] in alpha[..i + 1];
  }

  lemma SeenStays(s: seq<KadNode>, after: seq<KadNode>, lastSeen: int)
    requires HasSeenAt(s, lastSeen) && forall m | m in s :: m in after
    ensures HasSeenAt(after, lastSeen)
  {
  }

  lemma {:induction false} ProbedRecords(before: seq<KadNode>, alpha: seq<KadNode>, i: nat)
    requires StrictlyRecent(before) && i <= |alpha|
    ensures Recorded(before, alpha[..i], Probed(before, alpha, i))
    ensures i > 0 ==> HasSeenAt(Probed(before, alpha, i), alpha[0].lastSeen)
  {
    if i > 0 {
      ProbedRecords(before, alpha, i - 1);
      RecordOne(before, alpha, i - 1, Probed(before, alpha, i - 1));
    }
  }

  lemma FirstIsSeen(before: seq<KadNode>, alpha: seq<KadNode>, i: nat)
    requires StrictlyRecent(before) && 0 < i <= |alpha|
    ensures HasSeenAt(Probed(before, alpha, i), alpha[0].lastSeen)
  {
    ProbedRecords(before, alpha, i);
  }

  lemma NothingGained(self: KadNode, alpha: seq<KadNode>, outcome: Outcome, before: seq<KadNode>, i: nat)
    requires StrictlyRecent(before) && 0 < i <= |alpha| && alpha[0].lastSeen == 0
    ensures Gained(self, outcome, Probed(before, alpha, i)) == []
  {
    FirstIsSeen(before, alpha, i);
  }

  lemma FoundSame(self: KadNode, alpha: seq<KadNode>, round: nat, net: Network, before: seq<KadNode>, i: nat)
    requires i < |alpha| && Gained(self, net.outcome(round, i), Probed(before, alpha, i + 1)) == []
    ensures Found(self, alpha, round, net, before, i + 1) == Found(self, alpha, round, net, before, i)
  {
  }

  lemma FoundNoMore(self: KadNode, alpha: seq<KadNode>, round: nat, net: Network, before: seq<KadNode>, i: nat)
    requires StrictlyRecent(before) && i < |alpha| && alpha[0].lastSeen == 0
    ensures Found(self, alpha, round, net, before, i + 1) == Found(self, alpha, round, net, before, i)
  {
    NothingGained(self, alpha, net.outcome(round, i), before, i + 1);
    FoundSame(self, alpha, round, net, before, i);
  }

  /** A round that starts with a fresh node finds nothing: its replies all count as probed. */
  lemma FreshFindsNothing(self: KadNode, alpha: seq<KadNode>, round: nat, net: Network, before: seq<KadNode>)
    requires StrictlyRecent(before) && alpha != [] && alpha[0].lastSeen == 0
    ensures Found(self, alpha, round, net, before, |alpha|) == []
  {
    for i := 0 to |alpha|
      invariant Found(self, alpha, round, net, before, i) == []
    {
      FoundNoMore(self, alpha, round, net, before, i);
    }
  }

  /** What the round does with the outcome of one query. */
  method TakeOutcome(self: KadNode, node: KadNode, outcome: Outcome,
                     before: seq<KadNode>, failedBefore: set<KadId>, found: seq<KadNode>)
    returns (probed: seq<KadNode>, failed: set<KadId>, discovered: seq<KadNode>)
    ensures probed == InsertNode(before, node)
    ensures failed == failedBefore + if outcome.Threw? then {node.id} else {}
    ensures discovered == found + Gained(self, outcome, probed)
  {
    probed, failed, discovered := InsertNode(before, node), failedBefore, found;
    match outcome
    case Replied(nearest) =>
      discovered := Collect(self, nearest, probed, found);
    case Threw =>
      failed := failed + {node.id};
  }

  /** What is known after the first `i` nodes of a round. */
  ghost predicate RoundUpTo(self: KadNode, alpha: seq<KadNode>, round: nat, net: Network, before: seq<KadNode>,
                            failedBefore: set<KadId>, i: nat,
                            probed: seq<KadNode>, failed: set<KadId>, discovered: seq<KadNode>) {
    && i <= |alpha|
    && probed == Probed(before, alpha, i)
    && failed == failedBefore + Failing(alpha, round, net, i)
    && discovered == Found(self, alpha, round, net, before, i)
  }

  lemma RoundNext(self: KadNode, alpha: seq<KadNode>, round: nat, net: Network, before: seq<KadNode>,
                  failedBefore: set<KadId>, i: nat, probed: seq<KadNode>, failed: set<KadId>, discovered: seq<KadNode>)
    requires i < |alpha| && RoundUpTo(self, alpha, round, net, before, failedBefore, i, probed, failed, discovered)
    ensures var outcome, after := net.outcome(round, i), InsertNode(probed, alpha[i]);
            RoundUpTo(self, alpha, round, net, before, failedBefore, i + 1, after,
                      failed + if outcome.Threw? then {alpha[i].id} else {},
                      discovered + Gained(self, outcome, after))
  {
  }

  /** One round of the lookup loop. */
  method Round(self: KadNode, alpha: seq<KadNode>, round: nat, net: Network,
               before: seq<KadNode>, failedBefore: set<KadId>)
    returns (probed: seq<KadNode>, failed: set<KadId>, discovered: seq<KadNode>)
    ensures probed == Probed(before, alpha, |alpha|)
    ensures failed == failedBefore + Failing(alpha, round, net, |alpha|)
    ensures discovered == Found(self, alpha, round, net, before, |alpha|)
  {
    probed, failed, discovered := before, failedBefore, [];
    for i := 0 to |alpha|
      invariant RoundUpTo(self, alpha, round, net, before, failedBefore, i, probed, failed, discovered)
    {
      RoundNext(self, alpha, round, net, before, failedBefore, i, probed, failed, discovered);
      probed, failed, discovered := TakeOutcome(self, alpha[i], net.outcome(round, i), probed, failed, discovered);
    }
  }

  /** The next nodes to query: the first ALPHA of the discovered ones in some order of distance. */
  ghost predicate IsNextAlpha(discovered: seq<KadNode>, target: KadId, alpha: seq<KadNode>) {
    exists sorted :: SortedPermutation(discovered, sorted, ByDistance(target)) && alpha == Take(sorted, ALPHA)
  }

  method NextAlpha(discovered: seq<KadNode>, target: KadId) returns (alpha: seq<KadNode>)
    ensures IsNextAlpha(discovered, target, alpha)
    ensures |alpha| == if |discovered| <= 3 then |discovered| else 3
  {
    var sorted := Sort(discovered, ByDistance(target));
    PermutationMembers(discovered, sorted);
    alpha := [];
    var it := 0;
    while it < |sorted| && |alpha| < ALPHA
      invariant 0 <= it <= |sorted| && alpha == sorted[..it] && it <= ALPHA
    {
      alpha := alpha + [sorted[it]];
      it := it + 1;
    }
  }

  /** Three of the discovered nodes, or all there are; none left out is nearer than one taken. */
  lemma NextAlphaMeans(discovered: seq<KadNode>, target: KadId, alpha: seq<KadNode>)
    requires IsNextAlpha(discovered, target, alpha)
    ensures |alpha| == if |discovered| <= 3 then |discovered| else 3
    ensures forall n | n in alpha :: n in discovered
    ensures multiset(alpha) <= multiset(discovered)
    ensures forall i, j | 0 <= i < j < |alpha| :: Dist(alpha[i].id, target) <= Dist(alpha[j].id, target)
    ensures forall n: KadNode, m: KadNode | n in alpha && m in multiset(discovered) - multiset(alpha) ::
              Dist(n.id, target) <= Dist(m.id, target)
  {
    var sorted: seq<KadNode> :| SortedPermutation(discovered, sorted, ByDistance(target)) && alpha == Take(sorted, ALPHA);
    PermutationMembers(discovered, sorted);
    SplitOff(sorted, alpha);
    forall i, j | 0 <= i < j < |sorted|
      ensures Dist(sorted[i].id, target) <= Dist(sorted[j].id, target)
    {
      assert ByDistance(target)(sorted[i]) <= ByDistance(target)(sorted[j]);
    }
    forall n: KadNode, m: KadNode | n in alpha && m in multiset(discovered) - multiset(alpha)
      ensures Dist(n.id, target) <= Dist(m.id, target)
    {
      assert m in sorted[|alpha|..];
      var i :| 0 <= i < |alpha| && alpha[i] == n;
      var j :| |alpha| <= j < |sorted| && sorted[j] == m;
    }
  }

  lemma SplitOff(s: seq<KadNode>, begin: seq<KadNode>)
    requires begin <= s
    ensures multiset(s) == multiset(begin) + multiset(s[|begin|..])
  {
    assert s == begin + s[|begin|..];
  }

  // The query phase

  /** What the loop comes to: one round over `closest`; unless that is all, a second over the ALPHA
      nearest nodes it discovered; never a third. `second` is empty when there is no second round. */
  ghost predicate Queried(self: KadNode, closest: seq<KadNode>, target: KadId, net: Network,
                          second: seq<KadNode>, probed: seq<KadNode>, failed: set<KadId>, rounds: nat) {
    if closest == [] then rounds == 0 && second == [] && probed == [] && failed == {}
    else
      var probed1 := Probed([], closest, |closest|);
      var failed1 := Failing(closest, 0, net, |closest|);
      var found := Found(self, closest, 0, net, [], |closest|);
      if found == [] || net.expired(1) then rounds == 1 && second == [] && probed == probed1 && failed == failed1
      else
        && rounds == 2 && IsNextAlpha(found, target, second)
        && probed == Probed(probed1, second, |second|)
        && failed == failed1 + Failing(second, 1, net, |second|)
  }

  /** The loop of `doNodesLookup` between two rounds: `alpha` is to be queried next. */
  ghost predicate Underway(self: KadNode, closest: seq<KadNode>, target: KadId, net: Network, second: seq<KadNode>,
                           alpha: seq<KadNode>, probed: seq<KadNode>, failed: set<KadId>, rounds: nat) {
    if rounds == 0 then alpha == closest && second == [] && probed == [] && failed == {}
    else if rounds == 1 then
      var found := Found(self, closest, 0, net, [], |closest|);
      && closest != [] && second == [] && (alpha == [] <==> found == [])
      && IsNextAlpha(found, target, alpha)
      && probed == Probed([], closest, |closest|) && failed == Failing(closest, 0, net, |closest|)
    else alpha == [] && Queried(self, closest, target, net, second, probed, failed, rounds)
  }

  lemma PhaseEnds(self: KadNode, closest: seq<KadNode>, target: KadId, net: Network, second: seq<KadNode>,
                  alpha: seq<KadNode>, probed: seq<KadNode>, failed: set<KadId>, rounds: nat)
    requires Underway(self, closest, target, net, second, alpha, probed, failed, rounds)
    requires alpha == [] || (rounds > 0 && net.expired(rounds))
    ensures Queried(self, closest, target, net, second, probed, failed, rounds)
  {
  }

  /** The loop of `doNodesLookup`. For any replies and failures, with or without the cutoff, it ends
      within two rounds: everything discovered has `lastSeen` 0, and `probed` keeps one node per
      time, so what the second round discovers counts as probed already. */
  method QueryPhase(self: KadNode, closest: seq<KadNode>, target: KadId, net: Network)
    returns (probed: seq<KadNode>, failed: set<KadId>, rounds: nat, queries: nat, ghost second: seq<KadNode>)
    requires |closest| <= ALPHA
    ensures Queried(self, closest, target, net, second, probed, failed, rounds)
    ensures rounds <= 2 && queries == |closest| + |second| <= 2 * ALPHA
  {
    var alpha := closest;
    probed, failed, rounds, queries, second := [], {}, 0, 0, [];
    while alpha != []
      invariant rounds <= 2 && |alpha| <= ALPHA && |second| <= ALPHA
      invariant queries == if rounds == 0 then 0 else |closest| + |second|
      invariant Underway(self, closest, target, net, second, alpha, probed, failed, rounds)
      invariant rounds > 0 ==> !net.expired(rounds)
      decreases 2 - rounds
    {
      var discovered;
      if rounds == 1 {
        second := alpha;
        SecondRoundFindsNothing(self, closest, target, net, probed, second);
      }
      queries := queries + |alpha|;
      probed, failed, discovered := Round(self, alpha, rounds, net, probed, failed);
      rounds := rounds + 1;
      alpha := NextAlpha(discovered, target);
      if net.expired(rounds) {
        break;
      }
    }
    PhaseEnds(self, closest, target, net, second, alpha, probed, failed, rounds);
  }

  lemma SecondRoundFindsNothing(self: KadNode, closest: seq<KadNode>, target: KadId, net: Network,
                                probed: seq<KadNode>, second: seq<KadNode>)
    requires probed == Probed([], closest, |closest|) && second != []
    requires IsNextAlpha(Found(self, closest, 0, net, [], |closest|), target, second)
    ensures Found(self, second, 1, net, probed, |second|) == []
  {
    var found := Found(self, closest, 0, net, [], |closest|);
    NextAlphaMeans(found, target, second);
    assert second[0] in second;
    ProbedRecords([], closest, |closest|);
    FreshFindsNothing(self, second, 1, net, probed);
  }

  lemma RecordedTwice(self: KadNode, closest: seq<KadNode>, between: seq<KadNode>, second: seq<KadNode>, probed: seq<KadNode>)
    requires Recorded([], closest, between) && Recorded(between, second, probed)
    requires forall n | n in second :: Discovered(self, n)
    ensures StrictlyRecent(probed)
    ensures forall n | n in probed :: n in closest || Discovered(self, n)
    ensures forall n | n in closest + second :: HasSeenAt(probed, n.lastSeen)
  {
    forall n | n in closest
      ensures HasSeenAt(probed, n.lastSeen)
    {
      SeenStays(between, probed, n.lastSeen);
    }
  }

  lemma AllRecorded(before: seq<KadNode>, alpha: seq<KadNode>)
    requires StrictlyRecent(before)
    ensures Recorded(before, alpha, Probed(before, alpha, |alpha|))
  {
    assert alpha[..|alpha|] == alpha;
    ProbedRecords(before, alpha, |alpha|);
  }

  lemma SecondIsDiscovered(self: KadNode, closest: seq<KadNode>, target: KadId, net: Network, second: seq<KadNode>)
    requires IsNextAlpha(Found(self, closest, 0, net, [], |closest|), target, second)
    ensures |second| <= ALPHA && forall n | n in second :: Discovered(self, n)
  {
    NextAlphaMeans(Found(self, closest, 0, net, [], |closest|), target, second);
  }

  /** What is probed in the end: one node for each time at which a queried node was last seen, each
      of them from `closest` or discovered on the way. */
  lemma QueriedMeans(self: KadNode, closest: seq<KadNode>, target: KadId, net: Network,
                     second: seq<KadNode>, probed: seq<KadNode>, failed: set<KadId>, rounds: nat)
    requires Queried(self, closest, target, net, second, probed, failed, rounds)
    ensures |second| <= ALPHA && StrictlyRecent(probed)
    ensures forall n | n in probed :: n in closest || Discovered(self, n)
    ensures forall n | n in closest + second :: HasSeenAt(probed, n.lastSeen)
  {
    if closest != [] {
      var probed1 := Probed([], closest, |closest|);
      AllRecorded([], closest);
      if rounds == 2 {
        SecondIsDiscovered(self, closest, target, net, second);
        AllRecorded(probed1, second);
        RecordedTwice(self, closest, probed1, second, probed);
      }
    }
  }

  /** `probed` holds at most one node that was not among the `closest` it started from. */
  lemma OneDiscovery(self: KadNode, closest: seq<KadNode>, probed: seq<KadNode>, n: KadNode, m: KadNode)
    requires StrictlyRecent(probed)
    requires forall k | k in probed :: k in closest || Discovered(self, k)
    requires n in probed && m in probed && n !in closest && m !in closest
    ensures n == m
  {
    var i :| 0 <= i < |probed| && probed[i] == n;
    var j :| 0 <= j < |probed| && probed[j] == m;
  }
}
