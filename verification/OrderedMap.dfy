/** `std::map`: iteration in the order of the keys, and insertion of pairs as they are read. */
module OrderedMap {

  ghost predicate IsLeast<K>(s: set<K>, key: K -> int, k: K) {
    k in s && forall j | j in s :: key(k) <= key(j)
  }

  lemma {:induction false} HasLeast<K>(s: set<K>, key: K -> int)
    requires s != {}
    ensures exists k | k in s :: IsLeast(s, key, k)
    decreases |s|
  {
    var j :| j in s;
    if s - {j} == {} {
      assert forall i | i in s :: i == j || i in s - {j};
      assert IsLeast(s, key, j);
    } else {
      HasLeast(s - {j}, key);
      var l :| l in s - {j} && IsLeast(s - {j}, key, l);
      assert IsLeast(s, key, if key(j) <= key(l) then j else l);
    }
  }

  ghost function LeastKey<K>(s: set<K>, key: K -> int): (k: K)
    requires s != {}
    ensures IsLeast(s, key, k)
  {
    HasLeast(s, key);
    var k :| k in s && IsLeast(s, key, k);
    k
  }

  /** The pairs of a map in iteration order. */
  ghost function PairsOf<K, V>(m: map<K, V>, key: K -> int): (pairs: seq<(K, V)>)
    decreases |m.Keys|
  {
    if m.Keys == {} then []
    else
      var k := LeastKey(m.Keys, key);
      assert (m - {k}).Keys == m.Keys - {k};
      [(k, m[k])] + PairsOf(m - {k}, key)
  }

  /** Insertion of pairs one by one; a later pair replaces an earlier one of the same key. */
  function MapInto<K, V>(m: map<K, V>, pairs: seq<(K, V)>): map<K, V> {
    if pairs == [] then m
    else MapInto(m, pairs[..|pairs| - 1])[pairs[|pairs| - 1].0 := pairs[|pairs| - 1].1]
  }

  lemma MapIntoAppend<K, V>(m: map<K, V>, pairs: seq<(K, V)>, p: (K, V))
    ensures MapInto(m, pairs + [p]) == MapInto(m, pairs)[p.0 := p.1]
  {
    assert (pairs + [p])[..|pairs|] == pairs;
  }

  lemma {:induction false} MapIntoFirst<K, V>(m: map<K, V>, p: (K, V), rest: seq<(K, V)>)
    ensures MapInto(m, [p] + rest) == MapInto(m[p.0 := p.1], rest)
    decreases |rest|
  {
    if rest == [] {
      var none: seq<(K, V)> := [];
      assert [p] + rest == none + [p];
      MapIntoAppend(m, none, p);
    } else {
      var init, last := rest[..|rest| - 1], rest[|rest| - 1];
      assert [p] + rest == ([p] + init) + [last];
      MapIntoAppend(m, [p] + init, last);
      MapIntoFirst(m, p, init);
    }
  }

  lemma {:induction false} PairsCount<K, V>(m: map<K, V>, key: K -> int)
    ensures |PairsOf(m, key)| == |m.Keys|
    decreases |m.Keys|
  {
    if m.Keys != {} {
      var k := LeastKey(m.Keys, key);
      assert (m - {k}).Keys == m.Keys - {k};
      PairsCount(m - {k}, key);
    }
  }

  /** Iterating over a map and inserting into another adds all of it. */
  lemma {:induction false} PairsRebuild<K, V>(m: map<K, V>, key: K -> int, base: map<K, V>)
    ensures MapInto(base, PairsOf(m, key)) == base + m
    decreases |m.Keys|
  {
    if m.Keys == {} {
      assert base + m == base;
    } else {
      var k := LeastKey(m.Keys, key);
      var rest := m - {k};
      assert rest.Keys == m.Keys - {k};
      PairsRebuild(rest, key, base[k := m[k]]);
      MapIntoFirst(base, (k, m[k]), PairsOf(rest, key));
      MergeOne(base, m, k);
    }
  }

  lemma MergeOne<K, V>(base: map<K, V>, m: map<K, V>, k: K)
    requires k in m
    ensures base[k := m[k]] + (m - {k}) == base + m
  {
  }

  lemma {:induction false} PairsBelong<K, V>(m: map<K, V>, key: K -> int)
    ensures forall p | p in PairsOf(m, key) :: p.0 in m && m[p.0] == p.1
    ensures forall k | k in m :: (k, m[k]) in PairsOf(m, key)
    decreases |m.Keys|
  {
    if m.Keys != {} {
      var k := LeastKey(m.Keys, key);
      assert (m - {k}).Keys == m.Keys - {k};
      PairsBelong(m - {k}, key);
    }
  }

  /** Keys grow strictly along the pairs. */
  ghost predicate KeysGrow<K, V>(pairs: seq<(K, V)>, key: K -> int) {
    forall i, j | 0 <= i < j < |pairs| :: key(pairs[i].0) < key(pairs[j].0)
  }

  /** The pairs are those of the map. */
  ghost predicate PairsAre<K, V>(pairs: seq<(K, V)>, m: map<K, V>) {
    && (forall p | p in pairs :: p.0 in m && m[p.0] == p.1)
    && (forall k | k in m :: (k, m[k]) in pairs)
  }

  /** The order of iteration: keys that tell all elements apart grow strictly. */
  lemma {:induction false} PairsInOrder<K, V>(m: map<K, V>, key: K -> int)
    requires forall a, b | a in m && b in m :: key(a) == key(b) ==> a == b
    ensures KeysGrow(PairsOf(m, key), key) && PairsAre(PairsOf(m, key), m)
    decreases |m.Keys|
  {
    PairsBelong(m, key);
    if m.Keys != {} {
      var k := LeastKey(m.Keys, key);
      var rest := m - {k};
      assert rest.Keys == m.Keys - {k};
      PairsInOrder(rest, key);
      PairsBelong(rest, key);
      FirstIsLeast((k, m[k]), PairsOf(rest, key), key);
    }
  }

  lemma FirstIsLeast<K, V>(p: (K, V), rest: seq<(K, V)>, key: K -> int)
    requires KeysGrow(rest, key) && forall q | q in rest :: key(p.0) < key(q.0)
    ensures KeysGrow([p] + rest, key)
  {
  }

  /** What insertion makes of pairs read in any order, on top of `base`: the last pair of a key wins. */
  ghost predicate LastWins<K, V>(base: map<K, V>, pairs: seq<(K, V)>, m: map<K, V>) {
    && m.Keys == base.Keys + (set p | p in pairs :: p.0)
    && (forall k | k in base && (forall i | 0 <= i < |pairs| :: pairs[i].0 != k) :: m[k] == base[k])
    && (forall i | 0 <= i < |pairs| && (forall j | i < j < |pairs| :: pairs[j].0 != pairs[i].0) ::
          m[pairs[i].0] == pairs[i].1)
  }

  lemma {:induction false} MapIntoMeans<K, V>(base: map<K, V>, pairs: seq<(K, V)>)
    ensures LastWins(base, pairs, MapInto(base, pairs))
    decreases |pairs|
  {
    if pairs != [] {
      var init, last := pairs[..|pairs| - 1], pairs[|pairs| - 1];
      MapIntoMeans(base, init);
      OneMoreWins(base, init, last, MapInto(base, init));
      assert init + [last] == pairs;
    }
  }

  lemma OneMoreWins<K, V>(base: map<K, V>, init: seq<(K, V)>, last: (K, V), m: map<K, V>)
    requires LastWins(base, init, m)
    ensures LastWins(base, init + [last], m[last.0 := last.1])
  {
    KeysOfPairs(init, last);
    OthersStay(base, init, last, m);
    forall i | 0 <= i < |init + [last]| && (forall j | i < j < |init + [last]| :: (init + [last])[j].0 != (init + [last])[i].0)
      ensures m[last.0 := last.1][(init + [last])[i].0] == (init + [last])[i].1
    {
      if i < |init| {
        LastAmong(init, last, i);
      }
    }
  }

  lemma KeysOfPairs<K, V>(init: seq<(K, V)>, last: (K, V))
    ensures (set p | p in init + [last] :: p.0) == (set p | p in init :: p.0) + {last.0}
  {
  }

  lemma OthersStay<K, V>(base: map<K, V>, init: seq<(K, V)>, last: (K, V), m: map<K, V>)
    requires LastWins(base, init, m)
    ensures forall k | k in base && (forall i | 0 <= i < |init + [last]| :: (init + [last])[i].0 != k) ::
              m[last.0 := last.1][k] == base[k]
  {
    var pairs := init + [last];
    assert pairs[|init|] == last && forall i | 0 <= i < |init| :: pairs[i] == init[i];
    forall k | k in base && (forall i | 0 <= i < |pairs| :: pairs[i].0 != k)
      ensures m[last.0 := last.1][k] == base[k]
    {
      assert pairs[|init|].0 != k;
    }
  }

  lemma LastAmong<K, V>(init: seq<(K, V)>, last: (K, V), i: nat)
    requires i < |init| && forall j | i < j < |init + [last]| :: (init + [last])[j].0 != (init + [last])[i].0
    ensures last.0 != init[i].0 && forall j | i < j < |init| :: init[j].0 != init[i].0
  {
    var pairs := init + [last];
    assert pairs[|init|] == last && forall j | 0 <= j < |init| :: pairs[j] == init[j];
  }

  /** If as many pairs as the map has keys were inserted, each of them is still there. */
  lemma {:induction false} InsertedStay<K, V>(pairs: seq<(K, V)>, p: (K, V))
    requires p in pairs && |MapInto(map[], pairs).Keys| == |pairs|
    ensures var m := MapInto(map[], pairs); p.0 in m && m[p.0] == p.1
    decreases |pairs|
  {
    var init, last := pairs[..|pairs| - 1], pairs[|pairs| - 1];
    var before := MapInto(map[], init);
    KeysAtMost(init);
    assert pairs == init + [last];
    assert MapInto(map[], pairs).Keys == before.Keys + {last.0};
    if p in init {
      assert last.0 in before.Keys ==> before.Keys + {last.0} == before.Keys;
      InsertedStay(init, p);
    }
  }

  lemma {:induction false} KeysAtMost<K, V>(pairs: seq<(K, V)>)
    ensures |MapInto<K, V>(map[], pairs).Keys| <= |pairs|
  {
    if pairs != [] {
      var init, last := pairs[..|pairs| - 1], pairs[|pairs| - 1];
      KeysAtMost(init);
      assert MapInto(map[], pairs).Keys == MapInto(map[], init).Keys + {last.0};
    }
  }

  /** The same key with another value. */
  predicate WrongValue<K(==), V(==)>(a: (K, V), b: (K, V)) {
    a.0 == b.0 && a.1 != b.1
  }

  /** Reading one wrong value for a key shows in the map, whatever else was read. */
  lemma WrongPairShows<K, V>(m: map<K, V>, key: K -> int, read: seq<(K, V)>, i: nat)
    requires |read| == |PairsOf(m, key)| && i < |read| && WrongValue(PairsOf(m, key)[i], read[i])
    ensures MapInto(map[], read) != m
  {
    PairsCount(m, key);
    PairsBelong(m, key);
    var p := PairsOf(m, key)[i];
    assert p in PairsOf(m, key) && read[i] in read;
    if MapInto(map[], read) == m {
      InsertedStay(read, read[i]);
    }
  }

  /** What inserting pairs that were read comes to: the map, if they are its own; another map, if one
      of them has a wrong value. */
  lemma ReadPairsMean<K, V>(m: map<K, V>, key: K -> int, read: seq<(K, V)>)
    ensures read == PairsOf(m, key) ==> MapInto(map[], read) == m
    ensures |read| == |PairsOf(m, key)| && (exists i | 0 <= i < |read| :: WrongValue(PairsOf(m, key)[i], read[i])) ==>
              MapInto(map[], read) != m
  {
    if read == PairsOf(m, key) {
      PairsRebuild(m, key, map[]);
      assert map[] + m == m;
    }
    if |read| == |PairsOf(m, key)| && exists i | 0 <= i < |read| :: WrongValue(PairsOf(m, key)[i], read[i]) {
      var i :| 0 <= i < |read| && WrongValue(PairsOf(m, key)[i], read[i]);
      WrongPairShows(m, key, read, i);
    }
  }

  /** The iteration itself. */
  method Iterate<K(==), V>(m: map<K, V>, key: K -> int) returns (pairs: seq<(K, V)>)
    requires forall a, b | a in m && b in m :: key(a) == key(b) ==> a == b
    ensures pairs == PairsOf(m, key)
  {
    pairs := [];
    var left := m;
    while left.Keys != {}
      invariant left.Keys <= m.Keys
      invariant PairsOf(m, key) == pairs + PairsOf(left, key)
      decreases |left.Keys|
    {
      HasLeast(left.Keys, key);
      var k :| k in left.Keys && forall j | j in left.Keys :: key(k) <= key(j);
      assert k == LeastKey(left.Keys, key);
      assert (left - {k}).Keys == left.Keys - {k};
      pairs := pairs + [(k, left[k])];
      left := left - {k};
    }
  }
}
