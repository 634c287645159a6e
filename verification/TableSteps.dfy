/** What one push or removal does to the table, in terms of identifiers, addresses and distances. */
module TableSteps {
  import opened Bits
  import opened KadId
  import opened KadNode
  import opened Sorting
  import opened KadBucket
  import opened BucketSteps
  import opened KadRoutingTable
  import opened TableRuns

  /** Some live list of the table has the identifier. */
  ghost predicate IsLiveSomewhere(t: Table, id: KadId) {
    exists g, n | 0 <= g < |t.buckets| && n in t.buckets[g].nodes :: n.id == id
  }

  /** The distance of the identifier from `self` has its highest one at bit `g`. */
  ghost predicate BelongsTo(t: Table, id: KadId, g: nat) {
    Pow2(g) <= Xor(Value(t.self.id), Value(id)) < Pow2(g + 1)
  }

  lemma HomeBelongs(t: Table, id: KadId, g: nat)
    requires t.WellFormed() && id != t.self.id
    ensures BelongsTo(t, id, g) <==> g == Home(t, id)
  {
    DistIsXor(t.self.id, id);
    BucketRange(t.self.id, id);
    if BelongsTo(t, id, g) {
      HeightUnique(Dist(t.self.id, id), g);
    }
  }

  /** The own identifier and the own address are refused: nothing changes. */
  lemma PushRefused(t: Table, kn: KadNode, now: int, t': Table)
    requires t.WellFormed() && TablePush(t, kn, now, t')
    requires kn.id == t.self.id || kn.address == t.self.address
    ensures t' == t
  {
  }

  /** Any other node is pushed into the bucket of its distance, and into no other. */
  lemma PushGoesHome(t: Table, kn: KadNode, now: int, t': Table, g: nat)
    requires t.WellFormed() && TablePush(t, kn, now, t')
    requires kn.id != t.self.id && kn.address != t.self.address && g < 128
    ensures t'.self == t.self && |t'.buckets| == 128
    ensures if BelongsTo(t, kn.id, g) then PushStep(t.buckets[g], kn, now, t'.buckets[g])
            else t'.buckets[g] == t.buckets[g]
  {
    HomeBelongs(t, kn.id, g);
  }

  /** A removal works in the bucket of the distance, and in no other. */
  lemma RemoveGoesHome(t: Table, id: KadId, t': Table, g: nat)
    requires t.WellFormed() && TableRemove(t, id, t')
    requires id != t.self.id && g < 128
    ensures t'.self == t.self && |t'.buckets| == 128
    ensures if BelongsTo(t, id, g) then RemoveStep(t.buckets[g], id, t'.buckets[g])
            else t'.buckets[g] == t.buckets[g]
  {
    HomeBelongs(t, id, g);
  }

  /** Removing an identifier that is not live anywhere, be it cached, unknown or the own one, changes
      nothing at all. */
  lemma RemoveUnknown(t: Table, id: KadId, t': Table)
    requires t.WellFormed() && TableRemove(t, id, t') && !IsLiveSomewhere(t, id)
    ensures t' == t
  {
    if id != t.self.id {
      var h := Home(t, id);
      RemoveIgnores(t.buckets[h], id, t'.buckets[h]);
      assert t'.buckets == t.buckets;
    }
  }

  /** There is a place for the identifier among the live nodes of `b`: its own, a free one, or that of a
      node with 5 failures. */
  ghost predicate HasPlace(b: Bucket, id: KadId) {
    !Unknown(b.nodes, id) || |b.nodes| < 20 || !NoneStale(b.nodes)
  }

  /** After a push, an accepted node is live exactly when its bucket had a place for it. */
  lemma PushedIsLiveIff(b: Bucket, kn: KadNode, now: int, b': Bucket)
    requires PushStep(b, kn, now, b')
    ensures !Unknown(b'.nodes, kn.id) <==> HasPlace(b, kn.id)
    ensures HasPlace(b, kn.id) && Unknown(b.nodes, kn.id) ==> kn in b'.nodes
  {
    if !Unknown(b.nodes, kn.id) {
      var i := Find(b.nodes, kn.id);
      NotFound(b.nodes, kn.id);
      PushRefreshes(b, kn, now, b', i);
      var n := KadNode(kn.id, b.nodes[i].address, now, 0);
      assert n in multiset(b'.nodes);
      assert n in b'.nodes && n.id == kn.id;
    } else if |b.nodes| < 20 {
      PushFills(b, kn, now, b');
      assert kn in multiset(b'.nodes);
    } else if NoneStale(b.nodes) {
      PushCaches(b, kn, now, b');
      PermutationMembers(b.nodes, b'.nodes);
    } else {
      NothingToEvict(b.nodes);
      PushEvicts(b, kn, now, b', Stalest(b.nodes));
      assert kn in multiset(b'.nodes);
    }
  }

  lemma LiveSomewhereIff(t: Table, id: KadId)
    requires TableInv(t)
    ensures IsLiveSomewhere(t, id) <==> id != t.self.id && !Unknown(t.buckets[Home(t, id)].nodes, id)
  {
    forall g, n | 0 <= g < |t.buckets| && n in t.buckets[g].nodes && n.id == id
      ensures id != t.self.id && g == Home(t, id)
    {
      assert n in t.buckets[g].All();
      BucketRange(t.self.id, id);
    }
  }

  /** The same for the whole table, seen through its 128 live lists: after the push of an admissible node
      that is not refused, it is live somewhere exactly when the bucket of its distance had a place. */
  lemma PushedIsFoundIff(t: Table, kn: KadNode, now: int, t': Table, g: nat)
    requires TableInv(t) && TablePush(t, kn, now, t') && AdmissiblePush(t, kn)
    requires kn.id != t.self.id && kn.address != t.self.address
    requires g < 128 && BelongsTo(t, kn.id, g)
    ensures IsLiveSomewhere(t', kn.id) <==> HasPlace(t.buckets[g], kn.id)
  {
    HomeBelongs(t, kn.id, g);
    StepKeepsTableInv(t, Push(kn, now), t');
    PushedIsLiveIff(t.buckets[g], kn, now, t'.buckets[g]);
    LiveSomewhereIff(t', kn.id);
  }
}
