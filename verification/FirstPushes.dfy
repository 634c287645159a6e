/** Small tables: what the first pushes into empty buckets make. */
module FirstPushes {
  import opened Bits
  import opened KadId
  import opened KadNode
  import opened KadBucket
  import opened KadRoutingTable
  import opened TableRuns

  function Holding(n: KadNode): Bucket {
    Bucket([n], [])
  }

  lemma PushIntoEmpty(n: KadNode, now: int)
    ensures PushStep(EMPTY_BUCKET, n, now, Holding(n))
  {
    assert Pushed(EMPTY_BUCKET, n, now).nodes == [] + [n] == [n];
  }

  lemma FirstPush(t: Table, n: KadNode, now: int, t': Table)
    requires t.WellFormed() && !Refuses(t, n) && n.stales < STALES_THR
    requires t.buckets[Home(t, n.id)] == EMPTY_BUCKET
    requires t' == Table(t.self, t.buckets[Home(t, n.id) := Holding(n)])
    ensures TableRuns.Step(t, Push(n, now), t') && Allowed(t, Push(n, now)) && t'.WellFormed()
  {
    PushIntoEmpty(n, now);
  }

  /** The identifier of a small number. */
  lemma IdOf(v: byte) returns (id: KadId)
    ensures Value(id) == v
  {
    id := [v] + seq(15, _ => 0);
    ZeroTail(id[1..]);
  }
}
