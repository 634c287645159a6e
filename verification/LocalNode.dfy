/** The answer of a node to a find-node request. */
module LocalNode {
  import opened Bits
  import opened KadId
  import opened KadNode
  import opened KadRoutingTable
  import opened TableRuns
  import opened ClosestNodes

  /** The map from identifier to address of these nodes, none of them lost to another of the same
      identifier. */
  ghost predicate MapsExactly(nearest: map<KadId, Bytes>, nodes: seq<KadNode>) {
    && nearest.Keys == Ids(nodes) && |nearest.Keys| == |nodes|
    && forall n | n in nodes :: HasAddress(nearest, n)
  }

  predicate HasAddress(nearest: map<KadId, Bytes>, n: KadNode) {
    n.id in nearest && nearest[n.id] == n.address
  }

  /** `findKClosestTo`: the nodes nearest to `id` as far as the table's search finds them: 16 of them, or
      all there are, and none for the own identifier. */
  method FindKClosestTo(table: KadRoutingTable, id: KadId) returns (nearest: map<KadId, Bytes>, size: int)
    requires table.Valid() && TableInv(table.State())
    ensures exists nodes ::
              IsClosestAnswer(table.State(), id, 16, nodes) && MapsExactly(nearest, nodes) && size == |nodes|
    ensures size == |nearest| == AnswerSize(table.State(), id)
  {
    var found, count := table.GetKClosestTo(id);
    AnswerDistinct(table.State(), id, found);
    nearest := Addresses(found);
    size := |found|;
  }

  function AnswerSize(t: Table, id: KadId): nat
    requires t.WellFormed()
  {
    var all := |AllLive(t.buckets, 128)|;
    if id == t.self.id then 0 else if all <= 16 then all else 16
  }

  /** The search for 16 nodes finds that many, none of them twice. */
  lemma AnswerDistinct(t: Table, id: KadId, r: seq<KadNode>)
    requires TableInv(t) && IsClosestAnswer(t, id, 16, r)
    ensures DistinctIds(r) && |r| == AnswerSize(t, id)
  {
    if id != t.self.id {
      AnswerIsFull(t, id, 16, r);
    }
  }

  /** The map of the first `i` nodes. */
  ghost predicate MapsFirst(nearest: map<KadId, Bytes>, nodes: seq<KadNode>, i: nat) {
    && i <= |nodes| && nearest.Keys == Ids(nodes[..i]) && |nearest.Keys| == i
    && forall j | 0 <= j < i :: HasAddress(nearest, nodes[j])
  }

  method Addresses(nodes: seq<KadNode>) returns (nearest: map<KadId, Bytes>)
    requires DistinctIds(nodes)
    ensures MapsExactly(nearest, nodes)
  {
    nearest := map[];
    for i := 0 to |nodes|
      invariant MapsFirst(nearest, nodes, i)
    {
      MapsOneMore(nearest, nodes, i);
      nearest := nearest[nodes[i].id := nodes[i].address];
    }
    assert nodes[..|nodes|] == nodes;
  }

  lemma MapsOneMore(nearest: map<KadId, Bytes>, nodes: seq<KadNode>, i: nat)
    requires DistinctIds(nodes) && i < |nodes| && MapsFirst(nearest, nodes, i)
    ensures MapsFirst(nearest[nodes[i].id := nodes[i].address], nodes, i + 1)
  {
    var after := nearest[nodes[i].id := nodes[i].address];
    NewId(nodes, i);
    KeysAfter(nearest, nodes[i].id, nodes[i].address);
    forall j | 0 <= j < i + 1
      ensures HasAddress(after, nodes[j])
    {
      if j < i {
        assert HasAddress(nearest, nodes[j]) && nodes[j].id != nodes[i].id;
      }
    }
  }

  lemma KeysAfter(nearest: map<KadId, Bytes>, id: KadId, address: Bytes)
    requires id !in nearest
    ensures nearest[id := address].Keys == nearest.Keys + {id}
    ensures |nearest[id := address].Keys| == |nearest.Keys| + 1
  {
    assert nearest[id := address].Keys == nearest.Keys + {id};
  }

  lemma NewId(ns: seq<KadNode>, i: nat)
    requires DistinctIds(ns) && i < |ns|
    ensures ns[i].id !in Ids(ns[..i])
    ensures Ids(ns[..i + 1]) == Ids(ns[..i]) + {ns[i].id}
  {
    assert ns[..i + 1] == ns[..i] + [ns[i]];
  }
}
