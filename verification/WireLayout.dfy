/** The messages byte by byte: where each field lies, for those who write them and those who read them. */
module WireLayout {
  import opened Bits
  import opened LittleEndian
  import opened Codec
  import opened Layout
  import opened KadId
  import opened OrderedMap
  import opened SdsBytesBuf
  import opened SearchEntry
  import opened P2PMessages

  // Properties

  /** Key, value and NUL. */
  ghost predicate PropertyAt(b: Bytes, o: nat, p: Property) {
    o < |b| && b[o] == p.0 && TextAt(b, o + 1, p.1)
  }

  function PropertySize(p: Property): nat {
    2 + |p.1|
  }

  lemma PropertyIff(b: Bytes, o: nat, p: Property)
    ensures ItemIff(PropertyAt, PropertySize, PropertyBytes, b, o, p)
  {
    BytesParts(b, o, [p.0], StringBytes(p.1));
    ByteIff(b, o, p.0);
    TextIff(b, o + 1, p.1);
  }

  /** The number of properties and the properties. */
  ghost predicate PropertiesAt(b: Bytes, o: nat, ps: seq<Property>) {
    NumberAt(b, o, 4, |ps|) && RunAt(PropertyAt, PropertySize, b, o + 4, ps)
  }

  function PropertiesForm(ps: seq<Property>): Bytes {
    ToLE(|ps|, 4) + WriteMany(PropertyBytes, ps)
  }

  lemma PropertiesIff(b: Bytes, o: nat, ps: seq<Property>)
    ensures |PropertiesForm(ps)| == 4 + RunSize(PropertySize, ps)
    ensures PropertiesAt(b, o, ps) <==> BytesAt(b, o, PropertiesForm(ps))
  {
    forall i: nat, p
      ensures ItemIff(PropertyAt, PropertySize, PropertyBytes, b, i, p)
    {
      PropertyIff(b, i, p);
    }
    NumberIff(b, o, 4, |ps|);
    RunIff(PropertyAt, PropertySize, PropertyBytes, b, o + 4, ps);
    BytesParts(b, o, ToLE(|ps|, 4), WriteMany(PropertyBytes, ps));
  }

  // Entries

  /** An entry with its properties in the order in which they travel. */
  datatype WireEntry = WireEntry(simHash: KadId, title: Bytes, url: Bytes, kind: byte, properties: seq<Property>)

  /** Similarity hash, title, url, kind. */
  ghost predicate HeadAt(b: Bytes, o: nat, w: WireEntry) {
    var t, u := |w.title|, |w.url|;
    && BytesAt(b, o, w.simHash)
    && TextAt(b, o + 16, w.title)
    && TextAt(b, o + 17 + t, w.url)
    && o + 18 + t + u < |b| && b[o + 18 + t + u] == w.kind
  }

  /** The head and the properties. */
  ghost predicate EntryAt(b: Bytes, o: nat, w: WireEntry) {
    HeadAt(b, o, w) && PropertiesAt(b, o + 19 + |w.title| + |w.url|, w.properties)
  }

  function EntrySize(w: WireEntry): nat {
    23 + |w.title| + |w.url| + RunSize(PropertySize, w.properties)
  }

  /** `w` is what travels of `e`: its fields, and its properties in the order of their keys. */
  ghost predicate Carries(w: WireEntry, e: Entry) {
    && w.simHash == e.simHash && w.title == e.title && w.url == e.url && w.kind == e.kind
    && PairsAre(w.properties, e.properties)
    && forall i, j | 0 <= i < j < |w.properties| :: w.properties[i].0 < w.properties[j].0
  }

  /** `e` is what is read of `w`: its fields, and for each key the last property that has it. */
  ghost predicate Delivers(w: WireEntry, e: Entry) {
    && w.simHash == e.simHash && w.title == e.title && w.url == e.url && w.kind == e.kind
    && LastWins(map[], w.properties, e.properties)
  }

  /** All strings of the entry survive the wire. */
  ghost predicate Safe(w: WireEntry) {
    && WireSafe(w.title) && WireSafe(w.url) && |w.properties| < 0x1_0000_0000
    && forall p | p in w.properties :: WireSafe(p.1)
  }

  function Head(w: WireEntry): Bytes {
    HeaderBytes(Entry(w.simHash, w.title, w.url, w.kind, map[]))
  }

  function Form(w: WireEntry): Bytes {
    Head(w) + PropertiesForm(w.properties)
  }

  lemma HeadIff(b: Bytes, o: nat, w: WireEntry)
    ensures |Head(w)| == 19 + |w.title| + |w.url|
    ensures HeadAt(b, o, w) <==> BytesAt(b, o, Head(w))
  {
    var x, y, z := w.simHash, StringBytes(w.title), StringBytes(w.url);
    BytesParts(b, o, x + y + z, [w.kind]);
    BytesParts(b, o, x + y, z);
    BytesParts(b, o, x, y);
    TextIff(b, o + 16, w.title);
    TextIff(b, o + 17 + |w.title|, w.url);
    ByteIff(b, o + 18 + |w.title| + |w.url|, w.kind);
  }

  lemma EntryIff(b: Bytes, o: nat, w: WireEntry)
    ensures ItemIff(EntryAt, EntrySize, Form, b, o, w)
  {
    HeadIff(b, o, w);
    PropertiesIff(b, o + 19 + |w.title| + |w.url|, w.properties);
    BytesParts(b, o, Head(w), PropertiesForm(w.properties));
  }

  ghost function WireOf(e: Entry): (w: WireEntry)
    ensures Carries(w, e) && Form(w) == EntryBytes(e)
  {
    PairsInOrder(e.properties, PropertyKey);
    PairsCount(e.properties, PropertyKey);
    WireEntry(e.simHash, e.title, e.url, e.kind, PairsOf(e.properties, PropertyKey))
  }

  /** What `SearchEntry::write` appends, field by field: nothing else, and nothing more. */
  lemma EntryWritten(e: Entry)
    ensures exists w :: Carries(w, e) && EntryAt(EntryBytes(e), 0, w) && |EntryBytes(e)| == EntrySize(w)
  {
    var w := WireOf(e);
    EntryIff(EntryBytes(e), 0, w);
  }

  ghost function Delivered(w: WireEntry): (e: Entry)
    ensures Delivers(w, e)
  {
    MapIntoMeans(map[], w.properties);
    Entry(w.simHash, w.title, w.url, w.kind, MapInto(map[], w.properties))
  }

  lemma FormRead(w: WireEntry, held: Entry, rest: Bytes)
    requires Safe(w)
    ensures ReadEntryAt(held, Tail(Form(w) + rest)) == Read(Good, Delivered(w), Tail(rest))
  {
    var number, properties := ToLE(|w.properties|, 4), WriteMany(PropertyBytes, w.properties);
    Associate(Head(w), PropertiesForm(w.properties), rest);
    Associate(number, properties, rest);
    HeadRoundTrip(Entry(w.simHash, w.title, w.url, w.kind, map[]), held.simHash, (number + properties) + rest);
    Size32(|w.properties|);
    UintRoundTrip(|w.properties|, 4, properties + rest);
    PairsRoundTrip(w.properties, rest);
  }

  /** What `SearchEntry::read` makes of any bytes laid out so, whatever it is read into and whatever
      follows. */
  lemma EntryRead(b: Bytes, o: nat, w: WireEntry, held: Entry)
    requires EntryAt(b, o, w) && Safe(w)
    ensures o + EntrySize(w) <= |b|
    ensures var r := ReadEntryAt(held, Tail(b[o..]));
            r.status == Good && Delivers(w, r.value) && r.rest == Tail(b[o + EntrySize(w)..])
  {
    EntryIff(b, o, w);
    TailAt(b, o, Form(w));
    FormRead(w, held, b[o + EntrySize(w)..]);
  }

  // Runs of entries

  lemma EntriesIff(b: Bytes, o: nat, ws: seq<WireEntry>)
    ensures |WriteMany(Form, ws)| == RunSize(EntrySize, ws)
    ensures RunAt(EntryAt, EntrySize, b, o, ws) <==> BytesAt(b, o, WriteMany(Form, ws))
  {
    forall i: nat, w
      ensures ItemIff(EntryAt, EntrySize, Form, b, i, w)
    {
      EntryIff(b, i, w);
    }
    RunIff(EntryAt, EntrySize, Form, b, o, ws);
  }

  ghost predicate AllCarry(ws: seq<WireEntry>, es: seq<Entry>) {
    |ws| == |es| && forall i | 0 <= i < |es| :: Carries(ws[i], es[i])
  }

  ghost predicate AllDeliver(ws: seq<WireEntry>, es: seq<Entry>) {
    |ws| == |es| && forall i | 0 <= i < |es| :: Delivers(ws[i], es[i])
  }

  lemma {:induction false} WiresOf(es: seq<Entry>) returns (ws: seq<WireEntry>)
    ensures AllCarry(ws, es) && WriteMany(Form, ws) == WriteMany(EntryBytes, es)
    decreases |es|
  {
    ws := [];
    if es != [] {
      var rest := WiresOf(es[1..]);
      ws := [WireOf(es[0])] + rest;
      assert ws[1..] == rest;
    }
  }

  lemma FormsRead(ws: seq<WireEntry>, read: seq<Entry>, rest: Bytes)
    requires forall w | w in ws :: Safe(w)
    ensures ReadMany(EntryReader(), |ws|, read, At(WriteMany(Form, ws) + rest))
            == Read(Good, read + Values(Delivered, ws), At(rest))
  {
    forall w, after | w in ws
      ensures EntryReader()(At(Form(w) + after)) == Read(Good, Delivered(w), At(after))
    {
      FormRead(w, DefaultEntry(), after);
    }
    RunReads(EntryReader(), At, Form, Delivered, ws, read, rest);
  }

  // Peers

  /** Identifier, address and NUL. */
  ghost predicate PeerAt(b: Bytes, o: nat, p: Peer) {
    BytesAt(b, o, p.0) && TextAt(b, o + 16, p.1)
  }

  function PeerSize(p: Peer): nat {
    17 + |p.1|
  }

  lemma PeerIff(b: Bytes, o: nat, p: Peer)
    ensures ItemIff(PeerAt, PeerSize, PeerBytes, b, o, p)
  {
    BytesParts(b, o, p.0, StringBytes(p.1));
    TextIff(b, o + 16, p.1);
  }

  lemma PeersIff(b: Bytes, o: nat, ps: seq<Peer>)
    ensures |WriteMany(PeerBytes, ps)| == RunSize(PeerSize, ps)
    ensures RunAt(PeerAt, PeerSize, b, o, ps) <==> BytesAt(b, o, WriteMany(PeerBytes, ps))
  {
    forall i: nat, p
      ensures ItemIff(PeerAt, PeerSize, PeerBytes, b, i, p)
    {
      PeerIff(b, i, p);
    }
    RunIff(PeerAt, PeerSize, PeerBytes, b, o, ps);
  }

  /** The peers of the map, in the order of the numbers their identifiers stand for. */
  ghost predicate PeersInOrder(ps: seq<Peer>, m: map<KadId, Bytes>) {
    PairsAre(ps, m) && forall i, j | 0 <= i < j < |ps| :: Value(ps[i].0) < Value(ps[j].0)
  }

  // Replies

  /** Number of peers, peers: a `FindNodeReply`. */
  ghost predicate NearestAt(b: Bytes, o: nat, ps: seq<Peer>) {
    NumberAt(b, o, 4, |ps|) && RunAt(PeerAt, PeerSize, b, o + 4, ps)
  }

  /** Number of results, results. */
  ghost predicate ResultsAt(b: Bytes, o: nat, ws: seq<WireEntry>) {
    NumberAt(b, o, 4, |ws|) && RunAt(EntryAt, EntrySize, b, o + 4, ws)
  }

  /** Both: a `FindResultsReply`. */
  ghost predicate ReplyAt(b: Bytes, o: nat, ps: seq<Peer>, ws: seq<WireEntry>) {
    NearestAt(b, o, ps) && ResultsAt(b, o + 4 + RunSize(PeerSize, ps), ws)
  }

  function ReplySize(ps: seq<Peer>, ws: seq<WireEntry>): nat {
    8 + RunSize(PeerSize, ps) + RunSize(EntrySize, ws)
  }

  function NearestForm(ps: seq<Peer>): Bytes {
    ToLE(|ps|, 4) + WriteMany(PeerBytes, ps)
  }

  function ResultsForm(ws: seq<WireEntry>): Bytes {
    ToLE(|ws|, 4) + WriteMany(Form, ws)
  }

  lemma NearestIff(b: Bytes, o: nat, ps: seq<Peer>)
    ensures |NearestForm(ps)| == 4 + RunSize(PeerSize, ps)
    ensures NearestAt(b, o, ps) <==> BytesAt(b, o, NearestForm(ps))
  {
    NumberIff(b, o, 4, |ps|);
    PeersIff(b, o + 4, ps);
    BytesParts(b, o, ToLE(|ps|, 4), WriteMany(PeerBytes, ps));
  }

  lemma ResultsIff(b: Bytes, o: nat, ws: seq<WireEntry>)
    ensures |ResultsForm(ws)| == 4 + RunSize(EntrySize, ws)
    ensures ResultsAt(b, o, ws) <==> BytesAt(b, o, ResultsForm(ws))
  {
    NumberIff(b, o, 4, |ws|);
    EntriesIff(b, o + 4, ws);
    BytesParts(b, o, ToLE(|ws|, 4), WriteMany(Form, ws));
  }

  lemma ReplyIff(b: Bytes, o: nat, ps: seq<Peer>, ws: seq<WireEntry>)
    ensures |NearestForm(ps) + ResultsForm(ws)| == ReplySize(ps, ws)
    ensures ReplyAt(b, o, ps, ws) <==> BytesAt(b, o, NearestForm(ps) + ResultsForm(ws))
  {
    NearestIff(b, o, ps);
    ResultsIff(b, o + 4 + RunSize(PeerSize, ps), ws);
    BytesParts(b, o, NearestForm(ps), ResultsForm(ws));
  }

  /** What `FindResultsReply::write` appends. The numbers are cut to 32 bits. */
  lemma ReplyWritten(nearest: map<KadId, Bytes>, results: seq<Entry>)
    ensures exists ps, ws | PeersInOrder(ps, nearest) && AllCarry(ws, results) ::
              var b := ReplyBytes(nearest, results); ReplyAt(b, 0, ps, ws) && |b| == ReplySize(ps, ws)
  {
    ValuesDistinct();
    PairsInOrder(nearest, PeerKey);
    PairsCount(nearest, PeerKey);
    var ps := PairsOf(nearest, PeerKey);
    var ws := WiresOf(results);
    ReplyIff(ReplyBytes(nearest, results), 0, ps, ws);
  }

  ghost predicate PeersSafe(ps: seq<Peer>) {
    |ps| < 0x1_0000_0000 && forall p | p in ps :: WireSafe(p.1)
  }

  ghost predicate EntriesSafe(ws: seq<WireEntry>) {
    |ws| < 0x1_0000_0000 && forall w | w in ws :: Safe(w)
  }

  lemma NearestFormRead(ps: seq<Peer>, rest: Bytes, junk: KadId)
    requires PeersSafe(ps)
    ensures ReadNearestAt(junk, Tail(NearestForm(ps) + rest)) == Read(Good, ps, Tail(rest))
  {
    var peers := WriteMany(PeerBytes, ps);
    Associate(ToLE(|ps|, 4), peers, rest);
    Size32(|ps|);
    UintRoundTrip(|ps|, 4, peers + rest);
    PeersRoundTrip(junk, ps, rest);
  }

  lemma ResultsFormRead(ws: seq<WireEntry>, rest: Bytes) returns (es: seq<Entry>)
    requires EntriesSafe(ws)
    ensures AllDeliver(ws, es)
    ensures ReadResultsAt(Tail(ResultsForm(ws) + rest)) == Read(Good, es, Tail(rest))
  {
    var entries := WriteMany(Form, ws);
    Associate(ToLE(|ws|, 4), entries, rest);
    Size32(|ws|);
    UintRoundTrip(|ws|, 4, entries + rest);
    var none: seq<Entry> := [];
    FormsRead(ws, none, rest);
    es := Values(Delivered, ws);
    assert none + es == es;
  }

  /** What `FindResultsReply::read` makes of any bytes laid out so: the peers and results one by one, and
      the cursor behind them. */
  lemma ReplyRead(b: Bytes, o: nat, ps: seq<Peer>, ws: seq<WireEntry>, junk: KadId) returns (es: seq<Entry>)
    requires ReplyAt(b, o, ps, ws) && PeersSafe(ps) && EntriesSafe(ws)
    ensures o + ReplySize(ps, ws) <= |b|
    ensures ReadReplyAt(junk, Tail(b[o..])) == Read(Good, (ps, es), Tail(b[o + ReplySize(ps, ws)..]))
    ensures AllDeliver(ws, es)
  {
    ReplyIff(b, o, ps, ws);
    TailAt(b, o, NearestForm(ps) + ResultsForm(ws));
    es := ReplyFormRead(ps, ws, b[o + ReplySize(ps, ws)..], junk);
  }

  lemma ReplyFormRead(ps: seq<Peer>, ws: seq<WireEntry>, rest: Bytes, junk: KadId) returns (es: seq<Entry>)
    requires PeersSafe(ps) && EntriesSafe(ws)
    ensures AllDeliver(ws, es)
    ensures ReadReplyAt(junk, Tail((NearestForm(ps) + ResultsForm(ws)) + rest)) == Read(Good, (ps, es), Tail(rest))
  {
    NearestFormRead(ps, ResultsForm(ws) + rest, junk);
    es := ResultsFormRead(ws, rest);
    BothRead(NearestForm(ps), ResultsForm(ws), rest, junk, ps, es);
  }

  lemma BothRead(x: Bytes, y: Bytes, rest: Bytes, junk: KadId, ps: seq<Peer>, es: seq<Entry>)
    requires ReadNearestAt(junk, Tail(x + (y + rest))) == Read(Good, ps, Tail(y + rest))
    requires ReadResultsAt(Tail(y + rest)) == Read(Good, es, Tail(rest))
    ensures ReadReplyAt(junk, Tail((x + y) + rest)) == Read(Good, (ps, es), Tail(rest))
  {
    Associate(x, y, rest);
  }

  // Pings

  /** Nonce, address, identifier. */
  ghost predicate PingAt(b: Bytes, o: nat, p: Ping) {
    && NumberAt(b, o, 8, p.nonce)
    && TextAt(b, o + 8, p.address)
    && BytesAt(b, o + 9 + |p.address|, p.id)
  }

  lemma PingIff(b: Bytes, o: nat, p: Ping)
    ensures |PingBytes(p)| == 25 + |p.address|
    ensures PingAt(b, o, p) <==> BytesAt(b, o, PingBytes(p))
  {
    var nonce, text := ToLE(p.nonce, 8), StringBytes(p.address);
    NumberIff(b, o, 8, p.nonce);
    TextIff(b, o + 8, p.address);
    BytesParts(b, o, nonce + text, p.id);
    BytesParts(b, o, nonce, text);
  }

  /** What `PingArgs::write` appends. */
  lemma PingWritten(p: Ping)
    ensures PingAt(PingBytes(p), 0, p) && |PingBytes(p)| == 25 + |p.address|
  {
    PingIff(PingBytes(p), 0, p);
  }

  /** What `PingArgs::read` makes of any bytes laid out so. */
  lemma PingRead(b: Bytes, o: nat, p: Ping, held: KadId)
    requires PingAt(b, o, p) && WireSafe(p.address) && p.nonce < Pow2(64)
    ensures ReadPingAt(held, Tail(b[o..])) == Read(Good, p, Tail(b[o + 25 + |p.address|..]))
  {
    PingIff(b, o, p);
    TailAt(b, o, PingBytes(p));
    PingRoundTrip(p, held, b[o + 25 + |p.address|..]);
  }
}
