/** A search result and its wire format. */
module SearchEntry {
  import opened Bits
  import opened LittleEndian
  import opened Cardinality
  import opened Codec
  import opened KadId
  import opened OrderedMap
  import opened SdsBytesBuf

  type Property = (byte, Bytes)

  /** What travels on the wire; the hash does not. */
  datatype Entry = Entry(simHash: KadId, title: Bytes, url: Bytes, kind: byte, properties: map<byte, Bytes>)

  function PropertyKey(k: byte): int {
    k
  }

  // Reading

  function ReadByteAt(t: Tail): Read<Tail, byte> {
    assert Pow2(8) == 256;
    var r := ReadUintAt(1, t);
    Read(r.status, r.value, r.rest)
  }

  function ReadPropertyAt(t: Tail): Read<Tail, Property> {
    var k := ReadByteAt(t);
    if k.status != Good then Read(k.status, (0, []), t)
    else
      var s := ReadStringAt(k.rest);
      Read(s.status, (k.value, s.value), s.rest)
  }

  function ReadPropertiesAt(t: Tail): Read<Tail, map<byte, Bytes>> {
    var n := ReadUintAt(4, t);
    if n.status != Good then Read(n.status, map[], t)
    else
      var ps := ReadMany(ReadPropertyAt, n.value, [], n.rest);
      Read(ps.status, MapInto(map[], ps.value), ps.rest)
  }

  function ReadTextsAt(t: Tail): Read<Tail, (Bytes, Bytes)> {
    var title := ReadStringAt(t);
    if title.status != Good then Read(title.status, ([], []), t)
    else
      var url := ReadStringAt(title.rest);
      Read(url.status, (title.value, url.value), url.rest)
  }

  /** The fields before the properties. */
  function ReadHeadAt(held: KadId, t: Tail): Read<Tail, Entry> {
    var none := Entry(held, [], [], 0, map[]);
    var id := ReadBytesAt(held, t);
    if id.status != Good || |id.value| != 16 then Read(Overrun, none, t)
    else
      var texts := ReadTextsAt(id.rest);
      if texts.status != Good then Read(texts.status, none, t)
      else
        var kind := ReadByteAt(texts.rest);
        Read(kind.status, Entry(id.value, texts.value.0, texts.value.1, kind.value, map[]), kind.rest)
  }

  /** `SearchEntry::read` into an entry that holds `held`. */
  function ReadEntryAt(held: Entry, t: Tail): Read<Tail, Entry> {
    var head := ReadHeadAt(held.simHash, t);
    if head.status != Good then Read(head.status, held, t)
    else
      var ps := ReadPropertiesAt(head.rest);
      Read(ps.status, head.value.(properties := ps.value), ps.rest)
  }

  // Writing

  function PropertyBytes(p: Property): Bytes {
    [p.0] + StringBytes(p.1)
  }

  ghost function PropertiesBytes(m: map<byte, Bytes>): Bytes {
    ToLE(|m.Keys|, 4) + WriteMany(PropertyBytes, PairsOf(m, PropertyKey))
  }

  function HeaderBytes(e: Entry): Bytes {
    e.simHash + StringBytes(e.title) + StringBytes(e.url) + [e.kind]
  }

  ghost function EntryBytes(e: Entry): Bytes {
    HeaderBytes(e) + PropertiesBytes(e.properties)
  }

  ghost predicate PropertiesSafe(m: map<byte, Bytes>) {
    forall k | k in m :: WireSafe(m[k])
  }

  /** Every string of the entry survives the wire. */
  ghost predicate EntrySafe(e: Entry) {
    WireSafe(e.title) && WireSafe(e.url) && PropertiesSafe(e.properties)
  }

  // Round trip

  lemma ByteRoundTrip(k: byte, rest: Bytes)
    ensures ReadByteAt(Tail([k] + rest)) == Read(Good, k, Tail(rest))
  {
    assert ([k] + rest)[..1] == [k] && ([k] + rest)[1..] == rest;
    var none: Bytes := [];
    assert [k][1..] == none && FromLE(none) == 0;
  }

  function At(b: Bytes): Tail {
    Tail(b)
  }

  lemma PropertyRoundTrip(p: Property, rest: Bytes)
    ensures ItemRoundTrips(ReadPropertyAt, At, PropertyBytes, WireSafe(p.1), WrongValue, p, rest)
  {
    assert PropertyBytes(p) + rest == [p.0] + (StringBytes(p.1) + rest);
    ByteRoundTrip(p.0, StringBytes(p.1) + rest);
    StringRoundTrip(p.1, rest);
  }

  lemma {:induction false} KeysBelow(s: set<byte>, n: nat)
    requires forall k | k in s :: k < n
    ensures |s| <= n
    decreases n
  {
    if n > 0 {
      if n <= 256 {
        var top: byte := n - 1;
        KeysBelow(s - {top}, n - 1);
        assert s <= (s - {top}) + {top};
        SubsetCardinality(s, (s - {top}) + {top});
      } else {
        KeysBelow(s, n - 1);
      }
    } else {
      assert s == {};
    }
  }

  predicate TextSafe(p: Property) {
    WireSafe(p.1)
  }

  lemma PairsSafeIff(m: map<byte, Bytes>)
    ensures PropertiesSafe(m) <==> forall p | p in PairsOf(m, PropertyKey) :: TextSafe(p)
  {
    PairsBelong(m, PropertyKey);
    if forall p | p in PairsOf(m, PropertyKey) :: TextSafe(p) {
      forall k | k in m
        ensures WireSafe(m[k])
      {
        assert TextSafe((k, m[k]));
      }
    }
  }

  lemma PropertiesRead(m: map<byte, Bytes>, rest: Bytes)
    ensures var pairs := PairsOf(m, PropertyKey);
            var read := ReadMany(ReadPropertyAt, |pairs|, [], Tail(WriteMany(PropertyBytes, pairs) + rest));
            ReadPropertiesAt(Tail(PropertiesBytes(m) + rest)) == Read(read.status, MapInto(map[], read.value), read.rest)
  {
    var pairs := PairsOf(m, PropertyKey);
    Associate(ToLE(|m.Keys|, 4), WriteMany(PropertyBytes, pairs), rest);
    KeysBelow(m.Keys, 256);
    CountFits(|m.Keys|);
    PairsCount(m, PropertyKey);
    UintRoundTrip(|m.Keys|, 4, WriteMany(PropertyBytes, pairs) + rest);
  }

  /** A property map is read back exactly when all its texts survive. */
  lemma PropertiesRoundTrip(m: map<byte, Bytes>, rest: Bytes)
    ensures var r := ReadPropertiesAt(Tail(PropertiesBytes(m) + rest));
            if PropertiesSafe(m) then r == Read(Good, m, Tail(rest)) else r.status == Good ==> r.value != m
  {
    var pairs := PairsOf(m, PropertyKey);
    PropertiesRead(m, rest);
    PairsRoundTrip(pairs, rest);
    PairsSafeIff(m);
    ReadPairsMean(m, PropertyKey, ReadMany(ReadPropertyAt, |pairs|, [], Tail(WriteMany(PropertyBytes, pairs) + rest)).value);
  }

  lemma PairsRoundTrip(pairs: seq<Property>, rest: Bytes)
    ensures var r := ReadMany(ReadPropertyAt, |pairs|, [], Tail(WriteMany(PropertyBytes, pairs) + rest));
            if (forall p | p in pairs :: TextSafe(p)) then r == Read(Good, pairs, Tail(rest))
            else r.status == Good ==> SomeWrong(WrongValue, pairs, r.value)
  {
    forall p, after | p in pairs
      ensures ItemRoundTrips(ReadPropertyAt, At, PropertyBytes, TextSafe(p), WrongValue, p, after)
    {
      PropertyRoundTrip(p, after);
    }
    var none: seq<Property> := [];
    ManyRoundTrip(ReadPropertyAt, At, PropertyBytes, TextSafe, WrongValue, pairs, none, rest);
    assert none + pairs == pairs;
    var r := ReadMany(ReadPropertyAt, |pairs|, none, Tail(WriteMany(PropertyBytes, pairs) + rest));
    assert r.value[|none|..] == r.value;
  }

  lemma CountFits(n: nat)
    requires n <= 256
    ensures n < Pow2(32)
  {
    assert Pow2(9) == 512;
    Pow2Grows(9, 32);
  }

  lemma TextsRoundTrip(title: Bytes, url: Bytes, after: Bytes)
    ensures var r := ReadTextsAt(Tail(StringBytes(title) + (StringBytes(url) + after)));
            if WireSafe(title) && WireSafe(url) then r == Read(Good, (title, url), Tail(after))
            else r.status == Good ==> r.value != (title, url)
  {
    StringRoundTrip(title, StringBytes(url) + after);
    StringRoundTrip(url, after);
  }

  lemma HeadRoundTrip(e: Entry, held: KadId, after: Bytes)
    ensures var r := ReadHeadAt(held, Tail(HeaderBytes(e) + after));
            if WireSafe(e.title) && WireSafe(e.url) then r == Read(Good, e.(properties := map[]), Tail(after))
            else r.status == Good ==> (r.value.title, r.value.url) != (e.title, e.url)
  {
    var afterUrl := [e.kind] + after;
    var afterId := StringBytes(e.title) + (StringBytes(e.url) + afterUrl);
    assert HeaderBytes(e) + after == e.simHash + afterId;
    BytesRoundTrip(e.simHash, held, afterId);
    TextsRoundTrip(e.title, e.url, afterUrl);
    ByteRoundTrip(e.kind, after);
  }

  /** An entry is read back, whatever it is read into and whatever follows, exactly when every string
      in it is nonempty and without NUL after its first byte. */
  lemma EntryRoundTrip(e: Entry, held: Entry, rest: Bytes)
    ensures var r := ReadEntryAt(held, Tail(EntryBytes(e) + rest));
            if EntrySafe(e) then r == Read(Good, e, Tail(rest)) else r.status == Good ==> r.value != e
  {
    Associate(HeaderBytes(e), PropertiesBytes(e.properties), rest);
    HeadRoundTrip(e, held.simHash, PropertiesBytes(e.properties) + rest);
    PropertiesRoundTrip(e.properties, rest);
  }

  // The class

  /** `SearchEntry`; `sha256` is SHA-256, any function of the title. */
  class SearchEntry {
    const sha256: Bytes -> Bytes
    var hash: Bytes
    var simHash: KadId
    var title: Bytes
    var url: Bytes
    var kind: byte
    var properties: map<byte, Bytes>

    function Value(): Entry
      reads this
    {
      Entry(simHash, title, url, kind, properties)
    }

    /** `simHash` is the similarity hash of the title. */
    constructor (sha256: Bytes -> Bytes, simHash: KadId, title: Bytes, url: Bytes, kind: byte, properties: map<byte, Bytes>)
      ensures Value() == Entry(simHash, title, url, kind, properties) && hash == sha256(title)
      ensures this.sha256 == sha256
    {
      this.sha256, this.simHash, this.title, this.url := sha256, simHash, title, url;
      this.kind, this.properties := kind, properties;
      hash := sha256(title);
    }

    /** Leaves the hash alone: it is one of the title only. */
    method AddProperty(idx: byte, value: Bytes)
      modifies `properties
      ensures properties == old(properties)[idx := value]
    {
      properties := properties[idx := value];
    }

    method ReHash()
      modifies `hash
      ensures hash == sha256(title)
    {
      hash := sha256(title);
    }

    method Write(buf: SdsBytesBuf)
      requires buf.Appending()
      modifies buf, buf.buffer
      ensures buf.Appending() && (buf.buffer == old(buf.buffer) || fresh(buf.buffer))
      ensures buf.Contents() == old(buf.Contents()) + EntryBytes(Value())
    {
      ghost var before := buf.Contents();
      WriteHeader(buf);
      WriteProperties(buf);
      Associate(before, HeaderBytes(Value()), PropertiesBytes(properties));
    }

    method WriteHeader(buf: SdsBytesBuf)
      requires buf.Appending()
      modifies buf, buf.buffer
      ensures buf.Appending() && (buf.buffer == old(buf.buffer) || fresh(buf.buffer))
      ensures buf.Contents() == old(buf.Contents()) + HeaderBytes(Value())
    {
      ghost var before := buf.Contents();
      buf.WriteBytes(simHash);
      buf.WriteString(title);
      buf.WriteString(url);
      WriteByte(buf, kind);
      Joined(before, simHash, StringBytes(title), StringBytes(url), [kind]);
    }

    /** The loop over the properties. */
    method WriteProperties(buf: SdsBytesBuf)
      requires buf.Appending()
      modifies buf, buf.buffer
      ensures buf.Appending() && (buf.buffer == old(buf.buffer) || fresh(buf.buffer))
      ensures buf.Contents() == old(buf.Contents()) + PropertiesBytes(properties)
    {
      ghost var before := buf.Contents();
      KeysBelow(properties.Keys, 256);
      CountFits(|properties.Keys|);
      buf.WriteUint(|properties.Keys|, 4);
      var pairs := Iterate(properties, PropertyKey);
      WritePairs(buf, pairs);
      Associate(before, ToLE(|properties.Keys|, 4), WriteMany(PropertyBytes, pairs));
    }

    static method WritePairs(buf: SdsBytesBuf, pairs: seq<Property>)
      requires buf.Appending()
      modifies buf, buf.buffer
      ensures buf.Appending() && (buf.buffer == old(buf.buffer) || fresh(buf.buffer))
      ensures buf.Contents() == old(buf.Contents()) + WriteMany(PropertyBytes, pairs)
    {
      ghost var before := buf.Contents();
      assert before + [] == before;
      for i := 0 to |pairs|
        invariant buf.Appending() && (buf.buffer == old(buf.buffer) || fresh(buf.buffer))
        invariant buf.Contents() == before + WriteMany(PropertyBytes, pairs[..i])
      {
        WriteProperty(buf, pairs[i]);
        NextWritten(PropertyBytes, before, pairs, i);
      }
      assert pairs[..|pairs|] == pairs;
    }

    static method WriteProperty(buf: SdsBytesBuf, p: Property)
      requires buf.Appending()
      modifies buf, buf.buffer
      ensures buf.Appending() && (buf.buffer == old(buf.buffer) || fresh(buf.buffer))
      ensures buf.Contents() == old(buf.Contents()) + PropertyBytes(p)
    {
      ghost var before := buf.Contents();
      WriteByte(buf, p.0);
      buf.WriteString(p.1);
      Associate(before, [p.0], StringBytes(p.1));
    }

    method Read(buf: SdsBytesBuf)
      requires buf.Valid() && ReadEntryAt(Value(), buf.Left()).status == Good
      modifies this, buf`pos
      ensures buf.Valid() && buf.Contents() == old(buf.Contents())
      ensures Codec.Read(Good, Value(), buf.Left()) == ReadEntryAt(old(Value()), old(buf.Left()))
      ensures hash == sha256(title)
    {
      ReadHead(buf);
      ReadProperties(buf);
      ReHash();
    }

    method ReadHead(buf: SdsBytesBuf)
      requires buf.Valid() && ReadHeadAt(simHash, buf.Left()).status == Good
      modifies `simHash, `title, `url, `kind, buf`pos
      ensures buf.Valid() && buf.Contents() == old(buf.Contents())
      ensures Codec.Read(Good, Entry(simHash, title, url, kind, map[]), buf.Left())
              == ReadHeadAt(old(simHash), old(buf.Left()))
    {
      simHash := buf.ReadBytes(simHash);
      ReadTexts(buf);
      kind := ReadByte(buf);
    }

    method ReadTexts(buf: SdsBytesBuf)
      requires buf.Valid() && ReadTextsAt(buf.Left()).status == Good
      modifies `title, `url, buf`pos
      ensures buf.Valid() && buf.Contents() == old(buf.Contents())
      ensures Codec.Read(Good, (title, url), buf.Left()) == ReadTextsAt(old(buf.Left()))
    {
      title := buf.ReadString();
      url := buf.ReadString();
    }

    method ReadProperties(buf: SdsBytesBuf)
      requires buf.Valid() && ReadPropertiesAt(buf.Left()).status == Good
      modifies `properties, buf`pos
      ensures buf.Valid() && buf.Contents() == old(buf.Contents())
      ensures Codec.Read(Good, properties, buf.Left()) == ReadPropertiesAt(old(buf.Left()))
    {
      var propsSize := buf.ReadUint(4);
      ghost var pairs;
      properties, pairs := ReadPairs(buf, propsSize);
    }
  }

  /** The loop over the properties. */
  method ReadPairs(buf: SdsBytesBuf, propsSize: nat) returns (properties: map<byte, Bytes>, ghost pairs: seq<Property>)
    requires buf.Valid() && ReadMany(ReadPropertyAt, propsSize, [], buf.Left()).status == Good
    modifies buf`pos
    ensures buf.Valid() && buf.Contents() == old(buf.Contents())
    ensures Codec.Read(Good, pairs, buf.Left()) == ReadMany(ReadPropertyAt, propsSize, [], old(buf.Left()))
    ensures properties == MapInto(map[], pairs)
  {
    properties, pairs := map[], [];
    ghost var all := ReadMany(ReadPropertyAt, propsSize, [], buf.Left());
    for i := 0 to propsSize
      invariant buf.Valid() && buf.Contents() == old(buf.Contents())
      invariant all == ReadMany(ReadPropertyAt, propsSize - i, pairs, buf.Left())
      invariant properties == MapInto(map[], pairs)
    {
      NextRead(ReadPropertyAt, propsSize - i, pairs, buf.Left());
      var k, s := ReadProperty(buf);
      MapIntoAppend(map[], pairs, (k, s));
      pairs := pairs + [(k, s)];
      properties := properties[k := s];
    }
  }

  method ReadProperty(buf: SdsBytesBuf) returns (k: byte, s: Bytes)
    requires buf.Valid() && ReadPropertyAt(buf.Left()).status == Good
    modifies buf`pos
    ensures buf.Valid() && buf.Contents() == old(buf.Contents())
    ensures Codec.Read(Good, (k, s), buf.Left()) == ReadPropertyAt(old(buf.Left()))
  {
    k := ReadByte(buf);
    s := buf.ReadString();
  }

  /** `writeUint8`. */
  method WriteByte(buf: SdsBytesBuf, k: byte)
    requires buf.Appending()
    modifies buf, buf.buffer
    ensures buf.Appending() && (buf.buffer == old(buf.buffer) || fresh(buf.buffer))
    ensures buf.Contents() == old(buf.Contents()) + [k]
  {
    OneByte(k);
    buf.WriteUint(k, 1);
  }

  /** `readUint8`. */
  method ReadByte(buf: SdsBytesBuf) returns (k: byte)
    requires buf.Valid() && buf.pos <= buf.bufferSize
    modifies buf`pos
    ensures buf.Valid() && buf.Contents() == old(buf.Contents())
    ensures Codec.Read(Good, k, buf.Left()) == ReadByteAt(old(buf.Left()))
  {
    assert Pow2(8) == 256;
    var n := buf.ReadUint(1);
    assert n == ReadUintAt(1, old(buf.Left())).value;
    k := n;
  }

  lemma Joined(before: Bytes, a: Bytes, b: Bytes, c: Bytes, d: Bytes)
    ensures before + a + b + c + d == before + (a + b + c + d)
  {
  }

  lemma OneByte(k: byte)
    ensures ToLE(k, 1) == [k] && k < Pow2(8 * 1)
  {
    assert Pow2(8) == 256;
    var none: Bytes := ToLE(k / 256, 0);
    assert ToLE(k, 1) == [k % 256] + none;
  }
}
