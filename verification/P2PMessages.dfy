/** The messages of the peer-to-peer protocol. */
module P2PMessages {
  import opened Bits
  import opened LittleEndian
  import opened Codec
  import opened KadId
  import opened OrderedMap
  import opened SdsBytesBuf
  import opened SearchEntry

  type Peer = (KadId, Bytes)

  /** `std::map<KadId, ...>` is ordered by `KadId::operator<`. */
  function PeerKey(id: KadId): int {
    Value(id)
  }

  // Reading. `junk` stands for the bytes of an identifier that was never initialised.

  function ReadPeerAt(junk: KadId, t: Tail): Read<Tail, Peer> {
    var id := ReadBytesAt(junk, t);
    if id.status != Good || |id.value| != 16 then Read(id.status, (junk, []), t)
    else
      var s := ReadStringAt(id.rest);
      var peer: Peer := (id.value, s.value);
      Read(s.status, peer, s.rest)
  }

  function PeerReader(junk: KadId): Tail -> Read<Tail, Peer> {
    (t: Tail) => ReadPeerAt(junk, t)
  }

  function ReadNearestAt(junk: KadId, t: Tail): Read<Tail, seq<Peer>> {
    var n := ReadUintAt(4, t);
    if n.status != Good then Read(n.status, [], t) else ReadMany(PeerReader(junk), n.value, [], n.rest)
  }

  /** `SearchEntry()`: empty strings; the similarity hash of an empty title is zero. */
  function DefaultEntry(): Entry {
    Entry(seq(16, _ => 0), [], [], 0, map[])
  }

  function EntryReader(): Tail -> Read<Tail, Entry> {
    (t: Tail) => ReadEntryAt(DefaultEntry(), t)
  }

  function ReadResultsAt(t: Tail): Read<Tail, seq<Entry>> {
    var n := ReadUintAt(4, t);
    if n.status != Good then Read(n.status, [], t) else ReadMany(EntryReader(), n.value, [], n.rest)
  }

  function ReadReplyAt(junk: KadId, t: Tail): Read<Tail, (seq<Peer>, seq<Entry>)> {
    var peers := ReadNearestAt(junk, t);
    if peers.status != Good then Read(peers.status, ([], []), t)
    else
      var entries := ReadResultsAt(peers.rest);
      Read(entries.status, (peers.value, entries.value), entries.rest)
  }

  // Writing

  function PeerBytes(p: Peer): Bytes {
    p.0 + StringBytes(p.1)
  }

  ghost function NearestBytes(m: map<KadId, Bytes>): Bytes {
    ToLE(|m.Keys|, 4) + WriteMany(PeerBytes, PairsOf(m, PeerKey))
  }

  ghost function ResultsBytes(es: seq<Entry>): Bytes {
    ToLE(|es|, 4) + WriteMany(EntryBytes, es)
  }

  ghost function ReplyBytes(nearest: map<KadId, Bytes>, results: seq<Entry>): Bytes {
    NearestBytes(nearest) + ResultsBytes(results)
  }

  ghost predicate NearestSafe(m: map<KadId, Bytes>) {
    forall id | id in m :: WireSafe(m[id])
  }

  ghost predicate ResultsSafe(es: seq<Entry>) {
    forall e | e in es :: EntrySafe(e)
  }

  // Round trips

  predicate AddressSafe(p: Peer) {
    WireSafe(p.1)
  }

  lemma PeerRoundTrip(junk: KadId, p: Peer, rest: Bytes)
    ensures ItemRoundTrips(PeerReader(junk), At, PeerBytes, AddressSafe(p), WrongValue, p, rest)
  {
    Associate(p.0, StringBytes(p.1), rest);
    BytesRoundTrip(p.0, junk, StringBytes(p.1) + rest);
    StringRoundTrip(p.1, rest);
  }

  lemma PeersRoundTrip(junk: KadId, pairs: seq<Peer>, rest: Bytes)
    ensures var r := ReadMany(PeerReader(junk), |pairs|, [], Tail(WriteMany(PeerBytes, pairs) + rest));
            if (forall p | p in pairs :: AddressSafe(p)) then r == Read(Good, pairs, Tail(rest))
            else r.status == Good ==> SomeWrong(WrongValue, pairs, r.value)
  {
    forall p, after | p in pairs
      ensures ItemRoundTrips(PeerReader(junk), At, PeerBytes, AddressSafe(p), WrongValue, p, after)
    {
      PeerRoundTrip(junk, p, after);
    }
    var none: seq<Peer> := [];
    ManyRoundTrip(PeerReader(junk), At, PeerBytes, AddressSafe, WrongValue, pairs, none, rest);
    assert none + pairs == pairs;
    var r := ReadMany(PeerReader(junk), |pairs|, none, Tail(WriteMany(PeerBytes, pairs) + rest));
    assert r.value[|none|..] == r.value;
  }

  lemma AddressesSafeIff(m: map<KadId, Bytes>)
    ensures NearestSafe(m) <==> forall p | p in PairsOf(m, PeerKey) :: AddressSafe(p)
  {
    PairsBelong(m, PeerKey);
    if forall p | p in PairsOf(m, PeerKey) :: AddressSafe(p) {
      forall id | id in m
        ensures WireSafe(m[id])
      {
        assert AddressSafe((id, m[id]));
      }
    }
  }

  lemma Size32(n: nat)
    requires n < 0x1_0000_0000
    ensures n < Pow2(32)
  {
    assert Pow2(8) == 256;
    Pow2Adds(8, 8);
    Pow2Adds(16, 16);
  }

  lemma NearestRead(junk: KadId, m: map<KadId, Bytes>, rest: Bytes)
    requires |m.Keys| < 0x1_0000_0000
    ensures var pairs := PairsOf(m, PeerKey);
            ReadNearestAt(junk, Tail(NearestBytes(m) + rest))
            == ReadMany(PeerReader(junk), |pairs|, [], Tail(WriteMany(PeerBytes, pairs) + rest))
  {
    var pairs := PairsOf(m, PeerKey);
    Associate(ToLE(|m.Keys|, 4), WriteMany(PeerBytes, pairs), rest);
    Size32(|m.Keys|);
    PairsCount(m, PeerKey);
    UintRoundTrip(|m.Keys|, 4, WriteMany(PeerBytes, pairs) + rest);
  }

  /** The map of a `FindNodeReply`, read into a fresh reply, is the one written exactly when all
      addresses survive; and then the reading stops where the writing did. */
  lemma NearestRoundTrip(junk: KadId, m: map<KadId, Bytes>, rest: Bytes)
    requires |m.Keys| < 0x1_0000_0000
    ensures var r := ReadNearestAt(junk, Tail(NearestBytes(m) + rest));
            if NearestSafe(m) then r.status == Good && MapInto(map[], r.value) == m && r.rest == Tail(rest)
            else r.status == Good ==> MapInto(map[], r.value) != m
  {
    NearestRead(junk, m, rest);
    PeersRoundTrip(junk, PairsOf(m, PeerKey), rest);
    AddressesSafeIff(m);
    ReadPairsMean(m, PeerKey, ReadNearestAt(junk, Tail(NearestBytes(m) + rest)).value);
  }

  predicate Differ(a: Entry, b: Entry) {
    a != b
  }

  lemma ResultsRoundTrip(es: seq<Entry>, rest: Bytes)
    requires |es| < 0x1_0000_0000
    ensures var r := ReadResultsAt(Tail(ResultsBytes(es) + rest));
            if ResultsSafe(es) then r == Read(Good, es, Tail(rest)) else r.status == Good ==> r.value != es
  {
    Associate(ToLE(|es|, 4), WriteMany(EntryBytes, es), rest);
    Size32(|es|);
    UintRoundTrip(|es|, 4, WriteMany(EntryBytes, es) + rest);
    forall e, after | e in es
      ensures ItemRoundTrips(EntryReader(), At, EntryBytes, EntrySafe(e), Differ, e, after)
    {
      EntryRoundTrip(e, DefaultEntry(), after);
    }
    var none: seq<Entry> := [];
    ManyRoundTrip(EntryReader(), At, EntryBytes, EntrySafe, Differ, es, none, rest);
    assert none + es == es;
    var r := ReadMany(EntryReader(), |es|, none, Tail(WriteMany(EntryBytes, es) + rest));
    assert r.value[|none|..] == r.value;
  }

  /** A `FindResultsReply` read into a fresh object, with any bytes following, has the contents of the
      one written - and the reading stops exactly where the writing did - if and only if every string
      in it is nonempty and has no NUL after its first byte. */
  lemma ReplyRoundTrip(junk: KadId, nearest: map<KadId, Bytes>, results: seq<Entry>, rest: Bytes)
    requires |nearest.Keys| < 0x1_0000_0000 && |results| < 0x1_0000_0000
    ensures var r := ReadReplyAt(junk, Tail(ReplyBytes(nearest, results) + rest));
            (NearestSafe(nearest) && ResultsSafe(results))
            <==> (r.status == Good && MapInto(map[], r.value.0) == nearest && r.value.1 == results)
    ensures var r := ReadReplyAt(junk, Tail(ReplyBytes(nearest, results) + rest));
            NearestSafe(nearest) && ResultsSafe(results) ==> r.rest == Tail(rest)
  {
    Associate(NearestBytes(nearest), ResultsBytes(results), rest);
    NearestRoundTrip(junk, nearest, ResultsBytes(results) + rest);
    ResultsRoundTrip(results, rest);
  }

  // Results carry hashes, which do not travel

  /** A result as a reply holds it: the entry and its hash. */
  datatype Result = Result(entry: Entry, hash: Bytes)

  function Entries(rs: seq<Result>): seq<Entry> {
    seq(|rs|, i requires 0 <= i < |rs| => rs[i].entry)
  }

  /** The results that a reader makes of entries: it hashes each title anew. */
  function Hashed(sha256: Bytes -> Bytes, es: seq<Entry>): seq<Result> {
    seq(|es|, i requires 0 <= i < |es| => Result(es[i], sha256(es[i].title)))
  }

  lemma HashedAppend(sha256: Bytes -> Bytes, es: seq<Entry>, e: Entry)
    ensures Hashed(sha256, es + [e]) == Hashed(sha256, es) + [Result(e, sha256(e.title))]
  {
  }

  /** The results of a reply, hashes included, arrive as they were sent exactly when every hash is the
      SHA-256 of its title and every string of the entries survives the wire. */
  lemma HashesArrive(sha256: Bytes -> Bytes, results: seq<Result>, rest: Bytes)
    requires |results| < 0x1_0000_0000
    ensures var r := ReadResultsAt(Tail(ResultsBytes(Entries(results)) + rest));
            (r.status == Good && Hashed(sha256, r.value) == results)
            <==> ResultsSafe(Entries(results)) && forall x | x in results :: x.hash == sha256(x.entry.title)
  {
    ResultsRoundTrip(Entries(results), rest);
    var r := ReadResultsAt(Tail(ResultsBytes(Entries(results)) + rest));
    HashedEntries(sha256, results);
    if Hashed(sha256, r.value) == results {
      EntriesOfHashed(sha256, r.value);
    }
  }

  lemma EntriesOfHashed(sha256: Bytes -> Bytes, es: seq<Entry>)
    ensures Entries(Hashed(sha256, es)) == es
  {
  }

  lemma HashedEntries(sha256: Bytes -> Bytes, rs: seq<Result>)
    ensures Hashed(sha256, Entries(rs)) == rs <==> forall x | x in rs :: x.hash == sha256(x.entry.title)
  {
    var again := Hashed(sha256, Entries(rs));
    assert forall i | 0 <= i < |rs| :: again[i] == Result(rs[i].entry, sha256(rs[i].entry.title));
    if forall x | x in rs :: x.hash == sha256(x.entry.title) {
      assert forall i | 0 <= i < |rs| :: rs[i] in rs && again[i] == rs[i];
    }
  }

  // PingArgs

  datatype Ping = Ping(nonce: nat, id: KadId, address: Bytes)

  function PingBytes(p: Ping): Bytes {
    ToLE(p.nonce, 8) + StringBytes(p.address) + p.id
  }

  function ReadPingAt(held: KadId, t: Tail): Read<Tail, Ping> {
    var nonce := ReadUintAt(8, t);
    if nonce.status != Good then Read(nonce.status, Ping(0, held, []), t)
    else
      var address := ReadStringAt(nonce.rest);
      if address.status != Good then Read(address.status, Ping(0, held, []), t)
      else
        var id := ReadBytesAt(held, address.rest);
        if |id.value| != 16 then Read(Overrun, Ping(0, held, []), t)
        else Read(id.status, Ping(nonce.value, id.value, address.value), id.rest)
  }

  /** A ping request is read back exactly when its address survives the wire. */
  lemma PingRoundTrip(p: Ping, held: KadId, rest: Bytes)
    requires p.nonce < Pow2(64)
    ensures var r := ReadPingAt(held, Tail(PingBytes(p) + rest));
            (r.status == Good && r.value == p) <==> WireSafe(p.address)
    ensures WireSafe(p.address) ==> ReadPingAt(held, Tail(PingBytes(p) + rest)).rest == Tail(rest)
  {
    var afterAddress := p.id + rest;
    assert PingBytes(p) + rest == ToLE(p.nonce, 8) + (StringBytes(p.address) + afterAddress);
    UintRoundTrip(p.nonce, 8, StringBytes(p.address) + afterAddress);
    StringRoundTrip(p.address, afterAddress);
    BytesRoundTrip(p.id, held, rest);
  }

  lemma JoinedThree(before: Bytes, a: Bytes, b: Bytes, c: Bytes)
    ensures ((before + a) + b) + c == before + (a + b + c)
  {
  }

  // The classes

  class PingArgs {
    var nonce: nat
    var id: KadId
    var address: Bytes

    function Contents(): Ping
      reads this
    {
      Ping(nonce, id, address)
    }

    constructor (nonce: nat, id: KadId, address: Bytes)
      ensures Contents() == Ping(nonce, id, address)
    {
      this.nonce, this.id, this.address := nonce, id, address;
    }

    method Write(buf: SdsBytesBuf)
      requires buf.Appending() && nonce < Pow2(64)
      modifies buf, buf.buffer
      ensures buf.Appending() && (buf.buffer == old(buf.buffer) || fresh(buf.buffer))
      ensures buf.Contents() == old(buf.Contents()) + PingBytes(Contents())
    {
      ghost var before := buf.Contents();
      buf.WriteUint(nonce, 8);
      buf.WriteString(address);
      buf.WriteBytes(id);
      JoinedThree(before, ToLE(nonce, 8), StringBytes(address), id);
    }

    method Read(buf: SdsBytesBuf)
      requires buf.Valid() && ReadPingAt(id, buf.Left()).status == Good
      modifies this, buf`pos
      ensures buf.Valid() && buf.Contents() == old(buf.Contents())
      ensures Codec.Read(Good, Contents(), buf.Left()) == ReadPingAt(old(id), old(buf.Left()))
    {
      nonce := buf.ReadUint(8);
      address := buf.ReadString();
      id := buf.ReadBytes(id);
    }
  }

  /** `FindResultsReply`, with the `nearest` it inherits from `FindNodeReply`. */
  class FindResultsReply {
    const sha256: Bytes -> Bytes
    var nearest: map<KadId, Bytes>
    var results: seq<Result>

    constructor (sha256: Bytes -> Bytes)
      ensures nearest == map[] && results == [] && this.sha256 == sha256
    {
      this.sha256 := sha256;
      nearest, results := map[], [];
    }

    /** `FindNodeReply::write`. */
    method WriteNearest(buf: SdsBytesBuf)
      requires buf.Appending()
      modifies buf, buf.buffer
      ensures buf.Appending() && (buf.buffer == old(buf.buffer) || fresh(buf.buffer))
      ensures buf.Contents() == old(buf.Contents()) + NearestBytes(nearest)
    {
      ghost var before := buf.Contents();
      WriteCount(buf, |nearest.Keys|);
      ValuesDistinct();
      var pairs := Iterate(nearest, PeerKey);
      WritePeers(buf, pairs);
      Associate(before, ToLE(|nearest.Keys|, 4), WriteMany(PeerBytes, pairs));
    }

    /** `FindResultsReply::write`. */
    method Write(buf: SdsBytesBuf)
      requires buf.Appending()
      modifies buf, buf.buffer
      ensures buf.Appending() && (buf.buffer == old(buf.buffer) || fresh(buf.buffer))
      ensures buf.Contents() == old(buf.Contents()) + ReplyBytes(nearest, Entries(results))
    {
      ghost var before := buf.Contents();
      WriteNearest(buf);
      WriteResults(buf);
      Associate(before, NearestBytes(nearest), ResultsBytes(Entries(results)));
    }

    method WriteResults(buf: SdsBytesBuf)
      requires buf.Appending()
      modifies buf, buf.buffer
      ensures buf.Appending() && (buf.buffer == old(buf.buffer) || fresh(buf.buffer))
      ensures buf.Contents() == old(buf.Contents()) + ResultsBytes(Entries(results))
    {
      ghost var before := buf.Contents();
      WriteCount(buf, |results|);
      WriteEntries(buf, Entries(results), sha256);
      Associate(before, ToLE(|results|, 4), WriteMany(EntryBytes, Entries(results)));
    }

    /** `FindNodeReply::read`: what is read is added to what the reply holds. */
    method ReadNearest(buf: SdsBytesBuf, junk: KadId)
      requires buf.Valid() && ReadNearestAt(junk, buf.Left()).status == Good
      modifies `nearest, buf`pos
      ensures buf.Valid() && buf.Contents() == old(buf.Contents())
      ensures var r := ReadNearestAt(junk, old(buf.Left()));
              nearest == MapInto(old(nearest), r.value) && buf.Left() == r.rest
    {
      var size := buf.ReadUint(4);
      nearest := ReadPeers(buf, junk, size, nearest);
    }

    method ReadResults(buf: SdsBytesBuf)
      requires buf.Valid() && ReadResultsAt(buf.Left()).status == Good
      modifies `results, buf`pos
      ensures buf.Valid() && buf.Contents() == old(buf.Contents())
      ensures var r := ReadResultsAt(old(buf.Left()));
              results == old(results) + Hashed(sha256, r.value) && buf.Left() == r.rest
    {
      var size := buf.ReadUint(4);
      var read := ReadEntries(buf, size, sha256);
      results := results + read;
    }

    /** `FindResultsReply::read`. */
    method Read(buf: SdsBytesBuf, junk: KadId)
      requires buf.Valid() && ReadReplyAt(junk, buf.Left()).status == Good
      modifies this, buf`pos
      ensures buf.Valid() && buf.Contents() == old(buf.Contents())
      ensures var r := ReadReplyAt(junk, old(buf.Left()));
              && nearest == MapInto(old(nearest), r.value.0)
              && results == old(results) + Hashed(sha256, r.value.1)
              && buf.Left() == r.rest
    {
      ReadNearest(buf, junk);
      ReadResults(buf);
    }
  }

  // The loops

  lemma ValuesDistinct()
    ensures forall a: KadId, b: KadId :: PeerKey(a) == PeerKey(b) ==> a == b
  {
    forall a: KadId, b: KadId | PeerKey(a) == PeerKey(b)
      ensures a == b
    {
      ValueInjective(a, b);
    }
  }

  /** A size written as `uint32_t`. */
  method WriteCount(buf: SdsBytesBuf, n: nat)
    requires buf.Appending()
    modifies buf, buf.buffer
    ensures buf.Appending() && (buf.buffer == old(buf.buffer) || fresh(buf.buffer))
    ensures buf.Contents() == old(buf.Contents()) + ToLE(n, 4)
  {
    LowBytesOnly(n, 4);
    buf.WriteUint(n % Pow2(32), 4);
  }

  method WritePeers(buf: SdsBytesBuf, pairs: seq<Peer>)
    requires buf.Appending()
    modifies buf, buf.buffer
    ensures buf.Appending() && (buf.buffer == old(buf.buffer) || fresh(buf.buffer))
    ensures buf.Contents() == old(buf.Contents()) + WriteMany(PeerBytes, pairs)
  {
    ghost var before := buf.Contents();
    assert before + [] == before;
    for i := 0 to |pairs|
      invariant buf.Appending() && (buf.buffer == old(buf.buffer) || fresh(buf.buffer))
      invariant buf.Contents() == before + WriteMany(PeerBytes, pairs[..i])
    {
      WritePeer(buf, pairs[i]);
      NextWritten(PeerBytes, before, pairs, i);
    }
    assert pairs[..|pairs|] == pairs;
  }

  method WritePeer(buf: SdsBytesBuf, p: Peer)
    requires buf.Appending()
    modifies buf, buf.buffer
    ensures buf.Appending() && (buf.buffer == old(buf.buffer) || fresh(buf.buffer))
    ensures buf.Contents() == old(buf.Contents()) + PeerBytes(p)
  {
    ghost var before := buf.Contents();
    buf.WriteBytes(p.0);
    buf.WriteString(p.1);
    Associate(before, p.0, StringBytes(p.1));
  }

  method WriteEntries(buf: SdsBytesBuf, entries: seq<Entry>, sha256: Bytes -> Bytes)
    requires buf.Appending()
    modifies buf, buf.buffer
    ensures buf.Appending() && (buf.buffer == old(buf.buffer) || fresh(buf.buffer))
    ensures buf.Contents() == old(buf.Contents()) + WriteMany(EntryBytes, entries)
  {
    ghost var before := buf.Contents();
    assert before + [] == before;
    for i := 0 to |entries|
      invariant buf.Appending() && (buf.buffer == old(buf.buffer) || fresh(buf.buffer))
      invariant buf.Contents() == before + WriteMany(EntryBytes, entries[..i])
    {
      var e := entries[i];
      var se := new SearchEntry(sha256, e.simHash, e.title, e.url, e.kind, e.properties);
      se.Write(buf);
      NextWritten(EntryBytes, before, entries, i);
    }
    assert entries[..|entries|] == entries;
  }

  method ReadPeer(buf: SdsBytesBuf, junk: KadId) returns (id: KadId, addr: Bytes)
    requires buf.Valid() && ReadPeerAt(junk, buf.Left()).status == Good
    modifies buf`pos
    ensures buf.Valid() && buf.Contents() == old(buf.Contents())
    ensures Codec.Read(Good, (id, addr), buf.Left()) == ReadPeerAt(junk, old(buf.Left()))
  {
    id := buf.ReadBytes(junk);
    addr := buf.ReadString();
  }

  method ReadPeers(buf: SdsBytesBuf, junk: KadId, size: nat, held: map<KadId, Bytes>) returns (nearest: map<KadId, Bytes>)
    requires buf.Valid() && ReadMany(PeerReader(junk), size, [], buf.Left()).status == Good
    modifies buf`pos
    ensures buf.Valid() && buf.Contents() == old(buf.Contents())
    ensures var r := ReadMany(PeerReader(junk), size, [], old(buf.Left()));
            nearest == MapInto(held, r.value) && buf.Left() == r.rest
  {
    nearest := held;
    ghost var pairs: seq<Peer>, all := [], ReadMany(PeerReader(junk), size, [], buf.Left());
    for i := 0 to size
      invariant buf.Valid() && buf.Contents() == old(buf.Contents())
      invariant all == ReadMany(PeerReader(junk), size - i, pairs, buf.Left())
      invariant nearest == MapInto(held, pairs)
    {
      NextRead(PeerReader(junk), size - i, pairs, buf.Left());
      var id, addr := ReadPeer(buf, junk);
      MapIntoAppend(held, pairs, (id, addr));
      pairs := pairs + [(id, addr)];
      nearest := nearest[id := addr];
    }
  }

  method ReadEntries(buf: SdsBytesBuf, size: nat, sha256: Bytes -> Bytes) returns (results: seq<Result>)
    requires buf.Valid() && ReadMany(EntryReader(), size, [], buf.Left()).status == Good
    modifies buf`pos
    ensures buf.Valid() && buf.Contents() == old(buf.Contents())
    ensures var r := ReadMany(EntryReader(), size, [], old(buf.Left()));
            results == Hashed(sha256, r.value) && buf.Left() == r.rest
  {
    results := [];
    ghost var entries: seq<Entry>, all := [], ReadMany(EntryReader(), size, [], buf.Left());
    for i := 0 to size
      invariant buf.Valid() && buf.Contents() == old(buf.Contents())
      invariant all == ReadMany(EntryReader(), size - i, entries, buf.Left())
      invariant results == Hashed(sha256, entries)
    {
      NextRead(EntryReader(), size - i, entries, buf.Left());
      var result := ReadResult(buf, sha256);
      HashedAppend(sha256, entries, result.entry);
      entries := entries + [result.entry];
      results := results + [result];
    }
  }

  method ReadResult(buf: SdsBytesBuf, sha256: Bytes -> Bytes) returns (result: Result)
    requires buf.Valid() && EntryReader()(buf.Left()).status == Good
    modifies buf`pos
    ensures buf.Valid() && buf.Contents() == old(buf.Contents())
    ensures Codec.Read(Good, result.entry, buf.Left()) == EntryReader()(old(buf.Left()))
    ensures result.hash == sha256(result.entry.title)
  {
    var se := new SearchEntry(sha256, DefaultEntry().simHash, [], [], 0, map[]);
    se.Read(buf);
    result := Result(se.Value(), se.hash);
  }
}
