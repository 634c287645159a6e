/** A known peer. `KadNode` objects are copied into and out of vectors, so a node is a value. */
module KadNode {
  import opened Bits
  import opened KadId

  datatype KadNode = KadNode(id: KadId, address: Bytes, lastSeen: int, stales: int) {
    function SeenNow(now: int): KadNode {
      this.(lastSeen := now)
    }

    function ResetStales(): KadNode {
      this.(stales := 0)
    }

    function IncrementStales(): KadNode {
      this.(stales := stales + 1)
    }
  }

  /** `KadNode(id, address)`: never seen, no failures. */
  function FreshNode(id: KadId, address: Bytes): KadNode {
    KadNode(id, address, 0, 0)
  }

  /** `operator<` sorts the most recently seen first. */
  function Recency(n: KadNode): int {
    -n.lastSeen
  }

  /** `std::find` under `operator==`, which compares identifiers only. */
  function Find(ns: seq<KadNode>, id: KadId): (i: nat)
    ensures i <= |ns|
    ensures i < |ns| ==> ns[i].id == id
    ensures forall j | 0 <= j < i :: ns[j].id != id
  {
    if ns == [] then 0 else if ns[0].id == id then 0 else 1 + Find(ns[1..], id)
  }

  ghost predicate DistinctIds(ns: seq<KadNode>) {
    forall i, j | 0 <= i < j < |ns| :: ns[i].id != ns[j].id
  }

  function Ids(ns: seq<KadNode>): set<KadId> {
    set n | n in ns :: n.id
  }
}
