/** What becomes of a written reply that is cut short. */
module CutReplies {
  import opened Bits
  import opened LittleEndian
  import opened Codec
  import opened KadId
  import opened OrderedMap
  import opened SdsBytesBuf
  import opened SearchEntry
  import opened P2PMessages

  // Strings

  lemma {:induction false} NoNulToEnd(s: Bytes, len: nat)
    requires len <= |s| && forall j | 1 <= j < |s| :: s[j] != 0
    ensures StringLength(s, len) == |s|
    decreases |s| - len
  {
    if len < |s| {
      NoNulToEnd(s, len + 1);
    }
  }

  /** A string that breaks off before its NUL is read as far as it goes, and the cursor moves one past
      the end. */
  lemma CutString(s: Bytes)
    requires forall j | 1 <= j < |s| :: s[j] != 0
    ensures ReadStringAt(Tail(s)) == Read(Good, s, PastEnd)
  {
    NoNulToEnd(s, 0);
    assert s[..|s|] == s;
  }

  lemma BeginningSafe(s: Bytes, j: nat)
    requires WireSafe(s) && j <= |s|
    ensures forall i | 1 <= i < j :: s[..j][i] != 0
  {
    forall i | 1 <= i < j
      ensures s[..j][i] != 0
    {
      assert s[1..][i - 1] == s[..j][i] && s[1..][i - 1] in s[1..];
    }
  }

  // Runs of items

  /** Reading an item that is cut short either leaves the buffer or goes one past its end. */
  predicate EndsPast<T>(x: Read<Tail, T>) {
    x.status == Overrun || (x.status == Good && x.rest == PastEnd)
  }

  /** A run of items of which number `i` is cut short: it is read up to the end if that is the last one,
      and leaves the buffer if it is not. */
  lemma {:induction false} RunCut<T>(reader: Tail -> Read<Tail, T>, at: Bytes -> Tail, writer: T -> Bytes,
                                     wrong: (T, T) -> bool, xs: seq<T>, i: nat, read: seq<T>, cut: Bytes)
    requires i < |xs| && forall x, after | x in xs :: ItemRoundTrips(reader, at, writer, true, wrong, x, after)
    requires EndsPast(reader(at(cut))) && reader(PastEnd).status == Overrun
    ensures var r := ReadMany(reader, |xs|, read, at(WriteMany(writer, xs[..i]) + cut));
            var x := reader(at(cut));
            if i == |xs| - 1 && x.status == Good then r == Read(Good, (read + xs[..i]) + [x.value], PastEnd)
            else r.status == Overrun
    decreases |xs|
  {
    var none: Bytes := [];
    if i == 0 {
      assert WriteMany(writer, xs[..0]) == none && none + cut == cut && read + xs[..0] == read;
      if |xs| > 1 {
        PastEndOverruns(reader, |xs| - 1, read + [reader(at(cut)).value]);
      }
    } else {
      var x, more := xs[0], xs[1..];
      assert xs[..i][0] == x && xs[..i][1..] == more[..i - 1];
      WrittenFirst(writer, xs[..i], cut);
      assert ItemRoundTrips(reader, at, writer, true, wrong, x, WriteMany(writer, more[..i - 1]) + cut);
      RunCut(reader, at, writer, wrong, more, i - 1, read + [x], cut);
      assert (read + [x]) + more[..i - 1] == read + xs[..i];
    }
  }

  lemma PastEndOverruns<T>(reader: Tail -> Read<Tail, T>, count: nat, read: seq<T>)
    requires count > 0 && reader(PastEnd).status == Overrun
    ensures ReadMany(reader, count, read, PastEnd).status == Overrun
  {
  }

  // Peers

  lemma CutPeer(junk: KadId, p: Peer, j: nat)
    requires WireSafe(p.1) && j <= |p.1|
    ensures ReadPeerAt(junk, Tail(p.0 + p.1[..j])) == Read(Good, (p.0, p.1[..j]), PastEnd)
  {
    BytesRoundTrip(p.0, junk, p.1[..j]);
    BeginningSafe(p.1, j);
    CutString(p.1[..j]);
  }

  lemma CutPeers(junk: KadId, pairs: seq<Peer>, i: nat, j: nat)
    requires (forall p | p in pairs :: WireSafe(p.1)) && i < |pairs| && j <= |pairs[i].1|
    ensures var r := ReadMany(PeerReader(junk), |pairs|, [], Tail(WriteMany(PeerBytes, pairs[..i]) + (pairs[i].0 + pairs[i].1[..j])));
            r.status == Overrun || (r.status == Good && r.rest == PastEnd)
  {
    var p := pairs[i];
    assert p in pairs;
    CutPeer(junk, p, j);
    forall q, after | q in pairs
      ensures ItemRoundTrips(PeerReader(junk), At, PeerBytes, true, WrongValue, q, after)
    {
      assert WireSafe(q.1);
      PeerRoundTrip(junk, q, after);
    }
    RunCut(PeerReader(junk), At, PeerBytes, WrongValue, pairs, i, [], p.0 + p.1[..j]);
  }

  /** A reply cut inside the address of a peer overruns: the number of results is still to be read. */
  lemma CutInAddress(junk: KadId, nearest: map<KadId, Bytes>, i: nat, j: nat)
    requires |nearest.Keys| < 0x1_0000_0000 && NearestSafe(nearest)
    requires i < |PairsOf(nearest, PeerKey)| && j <= |PairsOf(nearest, PeerKey)[i].1|
    ensures var pairs := PairsOf(nearest, PeerKey);
            var cut := ToLE(|nearest.Keys|, 4) + (WriteMany(PeerBytes, pairs[..i]) + (pairs[i].0 + pairs[i].1[..j]));
            ReadReplyAt(junk, Tail(cut)).status == Overrun
  {
    var pairs := PairsOf(nearest, PeerKey);
    AddressesSafeIff(nearest);
    assert forall p | p in pairs :: AddressSafe(p);
    CutPeers(junk, pairs, i, j);
    CountedPeers(junk, nearest, WriteMany(PeerBytes, pairs[..i]) + (pairs[i].0 + pairs[i].1[..j]));
  }

  lemma CountedPeers(junk: KadId, nearest: map<KadId, Bytes>, rest: Bytes)
    requires |nearest.Keys| < 0x1_0000_0000
    ensures ReadNearestAt(junk, Tail(ToLE(|nearest.Keys|, 4) + rest))
            == ReadMany(PeerReader(junk), |PairsOf(nearest, PeerKey)|, [], Tail(rest))
  {
    PairsCount(nearest, PeerKey);
    Size32(|nearest.Keys|);
    UintRoundTrip(|nearest.Keys|, 4, rest);
  }

  // Numbers

  /** A reply cut inside its first number reads as an empty one. */
  lemma CutInFirstNumber(junk: KadId, cut: Bytes)
    requires |cut| < 4
    ensures ReadReplyAt(junk, Tail(cut)) == Read(Good, ([], []), Tail(cut))
  {
  }

  /** A reply cut inside the number of its results reads as one with all its peers and no results. */
  lemma CutInResultsNumber(junk: KadId, nearest: map<KadId, Bytes>, cut: Bytes)
    requires |nearest.Keys| < 0x1_0000_0000 && NearestSafe(nearest) && |cut| < 4
    ensures var r := ReadReplyAt(junk, Tail(NearestBytes(nearest) + cut));
            r.status == Good && MapInto(map[], r.value.0) == nearest && r.value.1 == []
  {
    NearestRoundTrip(junk, nearest, cut);
  }

  // Entries

  /** An entry cut inside its title or its url overruns. */
  lemma CutInTexts(e: Entry, held: Entry, j: nat)
    requires WireSafe(e.title) && WireSafe(e.url)
    ensures j <= |e.title| ==> ReadEntryAt(held, Tail(e.simHash + e.title[..j])).status == Overrun
    ensures j <= |e.url| ==> ReadEntryAt(held, Tail(e.simHash + (StringBytes(e.title) + e.url[..j]))).status == Overrun
  {
    if j <= |e.title| {
      BytesRoundTrip(e.simHash, held.simHash, e.title[..j]);
      BeginningSafe(e.title, j);
      CutString(e.title[..j]);
    }
    if j <= |e.url| {
      BytesRoundTrip(e.simHash, held.simHash, StringBytes(e.title) + e.url[..j]);
      StringRoundTrip(e.title, e.url[..j]);
      BeginningSafe(e.url, j);
      CutString(e.url[..j]);
    }
  }

  lemma CutProperty(p: Property, j: nat)
    requires WireSafe(p.1) && j <= |p.1|
    ensures ReadPropertyAt(Tail([p.0] + p.1[..j])) == Read(Good, (p.0, p.1[..j]), PastEnd)
  {
    ByteRoundTrip(p.0, p.1[..j]);
    BeginningSafe(p.1, j);
    CutString(p.1[..j]);
  }

  /** The bytes of properties up to the value of number `i`, of which `j` bytes are left. */
  ghost function PropertiesUpTo(m: map<byte, Bytes>, i: nat, j: nat): Bytes
    requires i < |PairsOf(m, PropertyKey)| && j <= |PairsOf(m, PropertyKey)[i].1|
  {
    var pairs := PairsOf(m, PropertyKey);
    ToLE(|m.Keys|, 4) + (WriteMany(PropertyBytes, pairs[..i]) + ([pairs[i].0] + pairs[i].1[..j]))
  }

  lemma CutPairs(pairs: seq<Property>, i: nat, j: nat)
    requires (forall p | p in pairs :: TextSafe(p)) && i < |pairs| && j <= |pairs[i].1|
    ensures var r := ReadMany(ReadPropertyAt, |pairs|, [], Tail(WriteMany(PropertyBytes, pairs[..i]) + ([pairs[i].0] + pairs[i].1[..j])));
            if i == |pairs| - 1 then r == Read(Good, pairs[..i] + [(pairs[i].0, pairs[i].1[..j])], PastEnd)
            else r.status == Overrun
  {
    var p := pairs[i];
    assert p in pairs && TextSafe(p);
    CutProperty(p, j);
    forall q, after | q in pairs
      ensures ItemRoundTrips(ReadPropertyAt, At, PropertyBytes, true, WrongValue, q, after)
    {
      assert TextSafe(q);
      PropertyRoundTrip(q, after);
    }
    var none: seq<Property> := [];
    RunCut(ReadPropertyAt, At, PropertyBytes, WrongValue, pairs, i, none, [p.0] + p.1[..j]);
    assert none + pairs[..i] == pairs[..i];
  }

  lemma CountedProperties(m: map<byte, Bytes>, rest: Bytes)
    ensures var read := ReadMany(ReadPropertyAt, |PairsOf(m, PropertyKey)|, [], Tail(rest));
            ReadPropertiesAt(Tail(ToLE(|m.Keys|, 4) + rest)) == Read(read.status, MapInto(map[], read.value), read.rest)
  {
    PairsCount(m, PropertyKey);
    KeysBelow(m.Keys, 256);
    CountFits(|m.Keys|);
    UintRoundTrip(|m.Keys|, 4, rest);
  }

  /** Properties cut inside the value of the last one are read with that value cut; cut inside any other
      they overrun. */
  lemma CutInProperty(m: map<byte, Bytes>, i: nat, j: nat)
    requires PropertiesSafe(m) && i < |PairsOf(m, PropertyKey)| && j <= |PairsOf(m, PropertyKey)[i].1|
    ensures var pairs := PairsOf(m, PropertyKey);
            var r := ReadPropertiesAt(Tail(PropertiesUpTo(m, i, j)));
            if i == |pairs| - 1 then r == Read(Good, m[pairs[i].0 := pairs[i].1[..j]], PastEnd) else r.status == Overrun
  {
    var pairs := PairsOf(m, PropertyKey);
    PairsSafeIff(m);
    CutPairs(pairs, i, j);
    CountedProperties(m, WriteMany(PropertyBytes, pairs[..i]) + ([pairs[i].0] + pairs[i].1[..j]));
    if i == |pairs| - 1 {
      LastPairCut(m, pairs, pairs[i].1[..j]);
    }
  }

  lemma LastPairCut(m: map<byte, Bytes>, pairs: seq<Property>, value: Bytes)
    requires pairs == PairsOf(m, PropertyKey) && pairs != []
    ensures var last := |pairs| - 1;
            MapInto(map[], pairs[..last] + [(pairs[last].0, value)]) == m[pairs[last].0 := value]
  {
    var last := |pairs| - 1;
    ReadPairsMean(m, PropertyKey, pairs);
    LastReplaced(pairs[..last], pairs[last].0, pairs[last].1, value);
    assert pairs == pairs[..last] + [(pairs[last].0, pairs[last].1)];
  }

  lemma LastReplaced(front: seq<Property>, key: byte, value: Bytes, value': Bytes)
    ensures MapInto(map[], front + [(key, value')]) == MapInto(map[], front + [(key, value)])[key := value']
  {
    MapIntoAppend(map[], front, (key, value));
    MapIntoAppend(map[], front, (key, value'));
  }

  /** An entry cut inside a property: read with the value cut if it is the last property, and past the end
      of the buffer if it is not. */
  lemma CutInEntry(e: Entry, held: Entry, i: nat, j: nat)
    requires EntrySafe(e) && i < |PairsOf(e.properties, PropertyKey)| && j <= |PairsOf(e.properties, PropertyKey)[i].1|
    ensures var pairs := PairsOf(e.properties, PropertyKey);
            var r := ReadEntryAt(held, Tail(HeaderBytes(e) + PropertiesUpTo(e.properties, i, j)));
            if i == |pairs| - 1 then
              r == Read(Good, e.(properties := e.properties[pairs[i].0 := pairs[i].1[..j]]), PastEnd)
            else r.status == Overrun
  {
    HeadRoundTrip(e, held.simHash, PropertiesUpTo(e.properties, i, j));
    CutInProperty(e.properties, i, j);
  }

  // Replies

  /** The bytes of a reply up to its entry `i`, of which `cut` is left. */
  ghost function ReplyUpTo(nearest: map<KadId, Bytes>, results: seq<Entry>, i: nat, cut: Bytes): Bytes
    requires i <= |results|
  {
    NearestBytes(nearest) + (ToLE(|results|, 4) + (WriteMany(EntryBytes, results[..i]) + cut))
  }

  /** A reply cut inside entry `i`, when the entry itself ends past the buffer so: it is read up to the end
      if that is the last entry and the entry was read, and leaves the buffer otherwise. */
  lemma CutInResults(junk: KadId, nearest: map<KadId, Bytes>, results: seq<Entry>, i: nat, cut: Bytes)
    requires |nearest.Keys| < 0x1_0000_0000 && |results| < 0x1_0000_0000
    requires NearestSafe(nearest) && ResultsSafe(results) && i < |results|
    requires EndsPast(ReadEntryAt(DefaultEntry(), Tail(cut)))
    ensures var x := ReadEntryAt(DefaultEntry(), Tail(cut));
            var r := ReadReplyAt(junk, Tail(ReplyUpTo(nearest, results, i, cut)));
            if i == |results| - 1 && x.status == Good then
              && r.status == Good && r.rest == PastEnd
              && MapInto(map[], r.value.0) == nearest && r.value.1 == results[..i] + [x.value]
            else r.status == Overrun
  {
    var entries := WriteMany(EntryBytes, results[..i]) + cut;
    NearestRoundTrip(junk, nearest, ToLE(|results|, 4) + entries);
    Size32(|results|);
    UintRoundTrip(|results|, 4, entries);
    forall e, after | e in results
      ensures ItemRoundTrips(EntryReader(), At, EntryBytes, true, Differ, e, after)
    {
      EntryRoundTrip(e, DefaultEntry(), after);
    }
    var none: seq<Entry> := [];
    assert none + results[..i] == results[..i];
    RunCut(EntryReader(), At, EntryBytes, Differ, results, i, none, cut);
  }

  /** So the last NUL of a reply that ends in a property can be missing: the whole contents are read all the
      same. */
  lemma LastNulMissing(junk: KadId, nearest: map<KadId, Bytes>, results: seq<Entry>)
    requires |nearest.Keys| < 0x1_0000_0000 && 0 < |results| < 0x1_0000_0000
    requires NearestSafe(nearest) && ResultsSafe(results) && results[|results| - 1].properties.Keys != {}
    ensures var bytes := ReplyBytes(nearest, results);
            var r := ReadReplyAt(junk, Tail(bytes[..|bytes| - 1]));
            && r.status == Good && r.rest == PastEnd
            && MapInto(map[], r.value.0) == nearest && r.value.1 == results
  {
    var i := |results| - 1;
    var e := results[i];
    assert e in results;
    var cut := EntryWithoutNul(e);
    LastEntryCut(junk, nearest, results, cut);
    ReplyButNul(nearest, results, cut);
  }

  lemma LastEntryCut(junk: KadId, nearest: map<KadId, Bytes>, results: seq<Entry>, cut: Bytes)
    requires |nearest.Keys| < 0x1_0000_0000 && 0 < |results| < 0x1_0000_0000
    requires NearestSafe(nearest) && ResultsSafe(results)
    requires ReadEntryAt(DefaultEntry(), Tail(cut)) == Read(Good, results[|results| - 1], PastEnd)
    ensures var r := ReadReplyAt(junk, Tail(ReplyUpTo(nearest, results, |results| - 1, cut)));
            && r.status == Good && r.rest == PastEnd
            && MapInto(map[], r.value.0) == nearest && r.value.1 == results
  {
    AllButLast(results);
    CutInResults(junk, nearest, results, |results| - 1, cut);
  }

  lemma AllButLast(results: seq<Entry>)
    requires results != []
    ensures results[..|results| - 1] + [results[|results| - 1]] == results
  {
  }

  /** An entry that ends in a property, without its last NUL. */
  lemma EntryWithoutNul(e: Entry) returns (cut: Bytes)
    requires EntrySafe(e) && e.properties.Keys != {}
    ensures EntryBytes(e) == cut + [0]
    ensures ReadEntryAt(DefaultEntry(), Tail(cut)) == Read(Good, e, PastEnd)
  {
    var pairs := PairsOf(e.properties, PropertyKey);
    EntryButNul(e);
    PairsBelong(e.properties, PropertyKey);
    var q := |pairs| - 1;
    var p := pairs[q];
    assert p in pairs;
    cut := HeaderBytes(e) + PropertiesUpTo(e.properties, q, |p.1|);
    CutInEntry(e, DefaultEntry(), q, |p.1|);
    assert p.1[..|p.1|] == p.1 && e.properties[p.0 := p.1] == e.properties;
  }

  lemma EntryButNul(e: Entry)
    requires e.properties.Keys != {}
    ensures |PairsOf(e.properties, PropertyKey)| > 0
    ensures var pairs := PairsOf(e.properties, PropertyKey);
            var q := |pairs| - 1;
            EntryBytes(e) == (HeaderBytes(e) + PropertiesUpTo(e.properties, q, |pairs[q].1|)) + [0]
  {
    var pairs := PairsOf(e.properties, PropertyKey);
    PairsCount(e.properties, PropertyKey);
    var q := |pairs| - 1;
    assert pairs == pairs[..q] + [pairs[q]];
    WriteManyAppend(PropertyBytes, pairs[..q], pairs[q]);
    assert pairs[q].1[..|pairs[q].1|] == pairs[q].1;
  }

  lemma ReplyButNul(nearest: map<KadId, Bytes>, results: seq<Entry>, cut: Bytes)
    requires results != [] && EntryBytes(results[|results| - 1]) == cut + [0]
    ensures var bytes := ReplyBytes(nearest, results);
            |bytes| > 0 && bytes[..|bytes| - 1] == ReplyUpTo(nearest, results, |results| - 1, cut)
  {
    var i := |results| - 1;
    assert results == results[..i] + [results[i]];
    WriteManyAppend(EntryBytes, results[..i], results[i]);
    var front := ReplyUpTo(nearest, results, i, cut);
    assert ReplyBytes(nearest, results) == front + [0];
  }
}
