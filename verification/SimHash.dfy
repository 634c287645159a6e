/** Similarity hashes: a weighted vote of token hashes, bit by bit, and the Hamming distance. */
module SimHash {
  import opened Bits
  import opened LittleEndian
  import opened KadId
  import opened Sorting
  import Fnv

  // Bits of an identifier

  /** `b & (0x80 >> j)`: positions run from the top bit. */
  predicate ByteBit(b: byte, j: nat)
    requires j < 8
  {
    Bit(b, 7 - j)
  }

  predicate BitAt(id: KadId, p: nat)
    requires p < 128
  {
    ByteBit(id[p / 8], p % 8)
  }

  lemma {:induction false} OrBit(a: nat, b: nat, k: nat)
    ensures Bit(Or(a, b), k) <==> Bit(a, k) || Bit(b, k)
    decreases k
  {
    var x := Or(a, b);
    if a == 0 && b == 0 {
      assert x == 0;
    } else {
      Halves(if a % 2 == 1 || b % 2 == 1 then 1 else 0, Or(a / 2, b / 2));
    }
    if k > 0 {
      assert x / 2 == Or(a / 2, b / 2);
      OrBit(a / 2, b / 2, k - 1);
    }
  }

  lemma {:induction false} Pow2Bit(m: nat, k: nat)
    ensures Bit(Pow2(m), k) <==> k == m
    decreases k
  {
    if m > 0 && k > 0 {
      Pow2Bit(m - 1, k - 1);
    } else if k > 0 {
      ZeroBit(k - 1);
    }
  }

  lemma {:induction false} ZeroBit(k: nat)
    ensures !Bit(0, k)
  {
    if k > 0 {
      ZeroBit(k - 1);
    }
  }

  /** The mask test of the vote. */
  lemma {:induction false} MaskTest(n: nat, m: nat)
    ensures And(n, Pow2(m)) == 0 <==> !Bit(n, m)
    decreases m
  {
    var x := And(n, Pow2(m));
    if m == 0 {
      assert x == (if n % 2 == 1 then 1 else 0) + 2 * And(n / 2, 0);
      AndZero(n / 2);
    } else {
      assert x == 2 * And(n / 2, Pow2(m - 1));
      MaskTest(n / 2, m - 1);
    }
  }

  lemma {:induction false} AndZero(n: nat)
    ensures And(n, 0) == 0
  {
    if n > 0 {
      AndZero(n / 2);
    }
  }

  lemma {:induction false} OrBound(a: nat, b: nat, k: nat)
    requires a < Pow2(k) && b < Pow2(k)
    ensures Or(a, b) < Pow2(k)
  {
    if k > 0 {
      OrBound(a / 2, b / 2, k - 1);
    }
  }

  /** Numbers below 2^k with the same low k bits are equal. */
  lemma {:induction false} SameBits(a: nat, b: nat, k: nat)
    requires a < Pow2(k) && b < Pow2(k)
    requires forall j | 0 <= j < k :: Bit(a, j) == Bit(b, j)
    ensures a == b
  {
    if k > 0 {
      forall j | 0 <= j < k - 1
        ensures Bit(a / 2, j) == Bit(b / 2, j)
      {
        assert Bit(a, j + 1) == Bit(b, j + 1);
      }
      SameBits(a / 2, b / 2, k - 1);
      assert Bit(a, 0) == Bit(b, 0);
    }
  }

  /** An identifier is determined by its 128 bits. */
  lemma SameBitsSameId(a: KadId, b: KadId)
    requires forall p: nat | p < 128 :: BitAt(a, p) == BitAt(b, p)
    ensures a == b
  {
    assert Pow2(8) == 256;
    forall i | 0 <= i < 16
      ensures a[i] == b[i]
    {
      forall k | 0 <= k < 8
        ensures Bit(a[i], k) == Bit(b[i], k)
      {
        var p := 8 * i + (7 - k);
        assert p / 8 == i && p % 8 == 7 - k;
        assert BitAt(a, p) == BitAt(b, p);
        assert ByteBit(a[i], 7 - k) == ByteBit(b[i], 7 - k);
      }
      SameBits(a[i], b[i], 8);
    }
  }

  // The vote

  /** An `int` stored in a signed `char`. */
  function ToChar(x: int): int {
    var m := x % 256;
    if m < 128 then m else m - 256
  }

  lemma CharSum(x: int, y: int)
    ensures ToChar(ToChar(x) + y) == ToChar(x + y)
  {
  }

  lemma FitsChar(x: int)
    requires -128 <= x <= 127
    ensures ToChar(x) == x
  {
  }

  type HashFunction = Bytes -> KadId

  function Sign(hash: HashFunction, token: Bytes, p: nat): int
    requires p < 128
  {
    if BitAt(hash(token), p) then 1 else -1
  }

  /** How many of the tokens have bit `p` set in their hash. */
  function Votes(hash: HashFunction, tokens: seq<Bytes>, p: nat): nat
    requires p < 128
  {
    if tokens == [] then 0
    else Votes(hash, tokens[..|tokens| - 1], p) + if BitAt(hash(tokens[|tokens| - 1]), p) then 1 else 0
  }

  /** The votes of the listed tokens, each weighted by its multiplicity in `m`. */
  function Weighted(sign: Bytes -> int, listed: seq<Bytes>, m: multiset<Bytes>): int {
    if listed == [] then 0
    else Weighted(sign, listed[..|listed| - 1], m) + sign(listed[|listed| - 1]) * m[listed[|listed| - 1]]
  }

  ghost predicate NoDuplicates(s: seq<Bytes>) {
    forall i, j | 0 <= i < j < |s| :: s[i] != s[j]
  }

  lemma {:induction false} WeightedAdd(sign: Bytes -> int, listed: seq<Bytes>, m: multiset<Bytes>, t: Bytes)
    requires NoDuplicates(listed)
    ensures Weighted(sign, listed, m + multiset{t}) == Weighted(sign, listed, m) + if t in listed then sign(t) else 0
  {
    if listed != [] {
      var init, last := listed[..|listed| - 1], listed[|listed| - 1];
      assert listed == init + [last];
      WeightedAdd(sign, init, m, t);
      var m' := m + multiset{t};
      if last == t {
        assert t !in init;
        assert m'[last] == m[last] + 1;
        assert sign(last) * (m[last] + 1) == sign(last) * m[last] + sign(last);
      } else {
        assert m'[last] == m[last];
      }
    }
  }

  lemma {:induction false} WeightedNothing(sign: Bytes -> int, listed: seq<Bytes>)
    ensures Weighted(sign, listed, multiset{}) == 0
  {
    if listed != [] {
      WeightedNothing(sign, listed[..|listed| - 1]);
    }
  }

  /** Deduplicating and weighting comes to the same as counting every occurrence. */
  lemma {:induction false} WeightedIsCount(hash: HashFunction, p: nat, listed: seq<Bytes>, tokens: seq<Bytes>)
    requires p < 128 && NoDuplicates(listed) && forall t | t in tokens :: t in listed
    ensures Weighted((t: Bytes) => Sign(hash, t, p), listed, multiset(tokens)) == 2 * Votes(hash, tokens, p) - |tokens|
    decreases |tokens|
  {
    var sign := (t: Bytes) => Sign(hash, t, p);
    if tokens == [] {
      WeightedNothing(sign, listed);
    } else {
      var init, last := tokens[..|tokens| - 1], tokens[|tokens| - 1];
      assert tokens == init + [last];
      WeightedIsCount(hash, p, listed, init);
      WeightedAdd(sign, listed, multiset(init), last);
      assert last in tokens;
      assert multiset(tokens) == multiset(init) + multiset{last};
    }
  }

  /** What `init` computes: bit `p` is set when the vote, kept in a `char`, is positive. */
  ghost predicate IsSimHash(hash: HashFunction, tokens: seq<Bytes>, id: KadId) {
    forall p: nat | p < 128 :: BitIsVote(hash, tokens, id, p)
  }

  predicate BitIsVote(hash: HashFunction, tokens: seq<Bytes>, id: KadId, p: nat)
    requires p < 128
  {
    BitAt(id, p) <==> ToChar(2 * Votes(hash, tokens, p) - |tokens|) > 0
  }

  /** The weights of the tokens: how often each occurs. */
  method CountTokens(tokens: seq<Bytes>) returns (weights: map<Bytes, int>)
    ensures forall t :: t in weights <==> t in tokens
    ensures forall t | t in weights :: weights[t] == multiset(tokens)[t]
  {
    weights := map[];
    for i := 0 to |tokens|
      invariant forall t :: t in weights <==> t in tokens[..i]
      invariant forall t | t in weights :: weights[t] == multiset(tokens[..i])[t]
    {
      assert tokens[..i + 1] == tokens[..i] + [tokens[i]];
      if tokens[i] !in weights {
        weights := weights[tokens[i] := 0];
      }
      weights := weights[tokens[i] := weights[tokens[i]] + 1];
    }
    assert tokens[..|tokens|] == tokens;
  }

  /** The keys of a map, in the order in which it is walked. */
  method Keys(weights: map<Bytes, int>) returns (keys: seq<Bytes>)
    ensures NoDuplicates(keys) && forall t :: t in keys <==> t in weights
  {
    keys := [];
    var left := weights.Keys;
    while left != {}
      invariant NoDuplicates(keys)
      invariant left <= weights.Keys
      invariant forall t :: t in keys <==> t in weights.Keys && t !in left
      decreases left
    {
      var t :| t in left;
      keys := keys + [t];
      left := left - {t};
    }
  }

  /** One token's vote, added to the 128 accumulators in place. */
  method AddVote(simWeights: array<int>, hash: KadId, weight: int)
    requires simWeights.Length == 128
    modifies simWeights
    ensures forall p: nat | p < 128 ::
              simWeights[p] == ToChar(old(simWeights[p]) + (if BitAt(hash, p) then 1 else -1) * weight)
  {
    for i := 0 to 16
      invariant forall p: nat | p < 8 * i ::
                  simWeights[p] == ToChar(old(simWeights[p]) + (if BitAt(hash, p) then 1 else -1) * weight)
      invariant forall p: nat | 8 * i <= p < 128 :: simWeights[p] == old(simWeights[p])
    {
      for j := 0 to 8
        invariant forall p: nat | p < 8 * i + j ::
                    simWeights[p] == ToChar(old(simWeights[p]) + (if BitAt(hash, p) then 1 else -1) * weight)
        invariant forall p: nat | 8 * i + j <= p < 128 :: simWeights[p] == old(simWeights[p])
      {
        MaskTest(hash[i], 7 - j);
        var no := (if And(hash[i], Pow2(7 - j)) == 0 then -1 else 1) * weight;
        assert (8 * i + j) / 8 == i && (8 * i + j) % 8 == j;
        simWeights[i * 8 + j] := ToChar(simWeights[i * 8 + j] + no);
      }
    }
  }

  /** The sign of each accumulator as a bit of the identifier. */
  method SignBits(simWeights: array<int>) returns (id: KadId)
    requires simWeights.Length == 128
    ensures forall p: nat | p < 128 :: BitAt(id, p) <==> simWeights[p] > 0
  {
    var bytes: array<byte> := new byte[16](_ => 0);
    for i := 0 to 16
      invariant forall k, j: nat | 0 <= k < i && j < 8 :: ByteBit(bytes[k], j) <==> simWeights[8 * k + j] > 0
    {
      var b := SignByte(simWeights[8 * i..8 * i + 8]);
      bytes[i] := b;
    }
    id := bytes[..];
    forall p: nat | p < 128
      ensures BitAt(id, p) <==> simWeights[p] > 0
    {
      var k, j := p / 8, p % 8;
      assert ByteBit(bytes[k], j) <==> simWeights[8 * k + j] > 0;
    }
  }

  method SignByte(weights: seq<int>) returns (b: byte)
    requires |weights| == 8
    ensures forall j: nat | j < 8 :: ByteBit(b, j) <==> weights[j] > 0
  {
    b := 0;
    NoBits();
    for j := 0 to 8
      invariant forall k: nat | k < j :: ByteBit(b, k) <==> weights[k] > 0
      invariant forall k: nat | j <= k < 8 :: !ByteBit(b, k)
    {
      if weights[j] > 0 {
        b := WithBit(b, j);
      }
    }
  }

  /** `b | (0x80 >> j)`. */
  function WithBit(b: byte, j: nat): (r: byte)
    requires j < 8
    ensures forall k: nat | k < 8 :: ByteBit(r, k) <==> ByteBit(b, k) || k == j
  {
    assert Pow2(8) == 256;
    Pow2Grows(8 - j, 8);
    OrBound(b, Pow2(7 - j), 8);
    var r: byte := Or(b, Pow2(7 - j));
    assert forall k: nat | k < 8 :: ByteBit(r, k) <==> ByteBit(b, k) || k == j by {
      forall k: nat | k < 8
        ensures ByteBit(r, k) <==> ByteBit(b, k) || k == j
      {
        OrBit(b, Pow2(7 - j), 7 - k);
        Pow2Bit(7 - j, 7 - k);
      }
    }
    r
  }

  lemma WeightedNext(hash: HashFunction, keys: seq<Bytes>, i: nat, m: multiset<Bytes>, p: nat, before: int, after: int)
    requires p < 128 && i < |keys|
    requires before == ToChar(Weighted((t: Bytes) => Sign(hash, t, p), keys[..i], m))
    requires after == ToChar(before + Sign(hash, keys[i], p) * m[keys[i]])
    ensures after == ToChar(Weighted((t: Bytes) => Sign(hash, t, p), keys[..i + 1], m))
  {
    assert keys[..i + 1][..i] == keys[..i];
    CharSum(Weighted((t: Bytes) => Sign(hash, t, p), keys[..i], m), Sign(hash, keys[i], p) * m[keys[i]]);
  }

  /** What the accumulators hold when the first `i` keys have voted. */
  ghost predicate Accumulated(hash: HashFunction, keys: seq<Bytes>, i: nat, m: multiset<Bytes>, weights: seq<int>) {
    && i <= |keys| && |weights| == 128
    && forall p: nat | p < 128 :: weights[p] == ToChar(Weighted((t: Bytes) => Sign(hash, t, p), keys[..i], m))
  }

  lemma AccumulatedNext(hash: HashFunction, keys: seq<Bytes>, i: nat, m: multiset<Bytes>, h: KadId,
                        before: seq<int>, after: seq<int>)
    requires Accumulated(hash, keys, i, m, before) && i < |keys| && h == hash(keys[i]) && |after| == 128
    requires forall p: nat | p < 128 ::
               after[p] == ToChar(before[p] + (if BitAt(h, p) then 1 else -1) * m[keys[i]])
    ensures Accumulated(hash, keys, i + 1, m, after)
  {
    forall p: nat | p < 128
      ensures after[p] == ToChar(Weighted((t: Bytes) => Sign(hash, t, p), keys[..i + 1], m))
    {
      WeightedNext(hash, keys, i, m, p, before[p], after[p]);
    }
  }

  lemma SignsAreHash(hash: HashFunction, tokens: seq<Bytes>, keys: seq<Bytes>, weights: seq<int>, id: KadId)
    requires NoDuplicates(keys) && (forall t | t in tokens :: t in keys)
    requires Accumulated(hash, keys, |keys|, multiset(tokens), weights)
    requires forall p: nat | p < 128 :: BitAt(id, p) <==> weights[p] > 0
    ensures IsSimHash(hash, tokens, id)
  {
    assert keys[..|keys|] == keys;
    forall p: nat | p < 128
      ensures BitIsVote(hash, tokens, id, p)
    {
      WeightedIsCount(hash, p, keys, tokens);
    }
  }

  /** The loop of `init` over the weighted tokens. */
  method CastVotes(hash: HashFunction, keys: seq<Bytes>, weights: map<Bytes, int>, ghost m: multiset<Bytes>)
    returns (simWeights: array<int>)
    requires forall t | t in keys :: t in weights && weights[t] == m[t]
    ensures fresh(simWeights) && Accumulated(hash, keys, |keys|, m, simWeights[..])
  {
    simWeights := new int[128](_ => 0);
    for i := 0 to |keys|
      invariant Accumulated(hash, keys, i, m, simWeights[..])
    {
      ghost var before := simWeights[..];
      var token := keys[i];
      var h := hash(token);
      AddVote(simWeights, h, weights[token]);
      AccumulatedNext(hash, keys, i, m, h, before, simWeights[..]);
    }
  }

  /** `SimHash::init`, for any hash function of tokens. */
  method Init(hash: HashFunction, tokens: seq<Bytes>) returns (id: KadId)
    ensures IsSimHash(hash, tokens, id)
  {
    var tokenMults := CountTokens(tokens);
    var keys := Keys(tokenMults);
    var simWeights := CastVotes(hash, keys, tokenMults, multiset(tokens));
    id := SignBits(simWeights);
    SignsAreHash(hash, tokens, keys, simWeights[..], id);
  }

  // What the vote means

  lemma {:induction false} VotesBound(hash: HashFunction, tokens: seq<Bytes>, p: nat)
    requires p < 128
    ensures Votes(hash, tokens, p) <= |tokens|
  {
    if tokens != [] {
      VotesBound(hash, tokens[..|tokens| - 1], p);
    }
  }

  /** Tokens that are not listed carry no weight. */
  lemma {:induction false} WeightedWithout(sign: Bytes -> int, listed: seq<Bytes>, m: multiset<Bytes>, t: Bytes)
    requires t !in listed
    ensures Weighted(sign, listed, m[t := 0]) == Weighted(sign, listed, m)
  {
    if listed != [] {
      assert listed[|listed| - 1] in listed;
      WeightedWithout(sign, listed[..|listed| - 1], m, t);
    }
  }

  /** Votes of distinct tokens, for or against, come to no more than there are occurrences. */
  lemma {:induction false} WeightedBound(hash: HashFunction, p: nat, listed: seq<Bytes>, m: multiset<Bytes>)
    requires p < 128 && NoDuplicates(listed)
    ensures -|m| <= Weighted((t: Bytes) => Sign(hash, t, p), listed, m) <= |m|
  {
    var sign := (t: Bytes) => Sign(hash, t, p);
    if listed != [] {
      var init, last := listed[..|listed| - 1], listed[|listed| - 1];
      var rest := m[last := 0];
      WeightedBound(hash, p, init, rest);
      WeightedWithout(sign, init, m, last);
      assert |rest| == |m| - m[last];
      var multiplicity: int := m[last];
      assert sign(last) * multiplicity in {multiplicity, -multiplicity};
    }
  }

  /** With at most 127 tokens no accumulator ever overflows: whichever keys have voted so far, the `char`
      holds their vote itself. */
  lemma NoOverflow(hash: HashFunction, tokens: seq<Bytes>, keys: seq<Bytes>, i: nat, p: nat)
    requires NoDuplicates(keys) && i <= |keys| && |tokens| <= 127 && p < 128
    ensures var w := Weighted((t: Bytes) => Sign(hash, t, p), keys[..i], multiset(tokens));
            -127 <= w <= 127 && ToChar(w) == w
  {
    WeightedBound(hash, p, keys[..i], multiset(tokens));
    FitsChar(Weighted((t: Bytes) => Sign(hash, t, p), keys[..i], multiset(tokens)));
  }

  /** So the accumulators of `init` hold the votes, after every key. */
  lemma AccumulatorsAreVotes(hash: HashFunction, tokens: seq<Bytes>, keys: seq<Bytes>, i: nat, weights: seq<int>)
    requires NoDuplicates(keys) && |tokens| <= 127
    requires Accumulated(hash, keys, i, multiset(tokens), weights)
    ensures forall p: nat | p < 128 ::
              weights[p] == Weighted((t: Bytes) => Sign(hash, t, p), keys[..i], multiset(tokens))
  {
    forall p: nat | p < 128
      ensures weights[p] == Weighted((t: Bytes) => Sign(hash, t, p), keys[..i], multiset(tokens))
    {
      NoOverflow(hash, tokens, keys, i, p);
    }
  }

  lemma BitOfVote(hash: HashFunction, tokens: seq<Bytes>, id: KadId, p: nat)
    requires IsSimHash(hash, tokens, id) && p < 128
    ensures BitAt(id, p) <==> ToChar(2 * Votes(hash, tokens, p) - |tokens|) > 0
  {
    assert BitIsVote(hash, tokens, id, p);
  }

  /** The mask test in the program's terms: positions run from the top bit of the first byte. */
  lemma BitAtIsQuotient(id: KadId, p: nat)
    requires p < 128
    ensures BitAt(id, p) <==> id[p / 8] / Pow2(7 - p % 8) % 2 == 1
  {
    BitIsQuotient(id[p / 8], 7 - p % 8);
  }

  /** The occurrences whose hash has bit `p`. */
  ghost function Voters(hash: HashFunction, tokens: seq<Bytes>, p: nat): set<nat>
    requires p < 128
  {
    set i: nat | i < |tokens| && hash(tokens[i])[p / 8] / Pow2(7 - p % 8) % 2 == 1
  }

  lemma {:induction false} VotesCount(hash: HashFunction, tokens: seq<Bytes>, p: nat)
    requires p < 128
    ensures Votes(hash, tokens, p) == |Voters(hash, tokens, p)|
  {
    if tokens == [] {
      assert Voters(hash, tokens, p) == {};
    } else {
      var last := |tokens| - 1;
      VotesCount(hash, tokens[..last], p);
      BitAtIsQuotient(hash(tokens[last]), p);
      assert Voters(hash, tokens, p)
          == Voters(hash, tokens[..last], p) + if BitAt(hash(tokens[last]), p) then {last} else {};
    }
  }

  /** What `init` makes of any number of tokens: bit `p` is set exactly when voters minus the others,
      modulo 256, lie from 1 to 127. */
  lemma BitIffResidue(hash: HashFunction, tokens: seq<Bytes>, id: KadId, p: nat)
    requires IsSimHash(hash, tokens, id) && p < 128
    ensures id[p / 8] / Pow2(7 - p % 8) % 2 == 1
            <==> 1 <= (2 * |Voters(hash, tokens, p)| - |tokens|) % 256 <= 127
  {
    BitAtIsQuotient(id, p);
    BitOfVote(hash, tokens, id, p);
    VotesCount(hash, tokens, p);
  }

  lemma MajorityFits(votes: nat, n: nat)
    requires votes <= n <= 127
    ensures ToChar(2 * votes - n) > 0 <==> 2 * votes > n
  {
    FitsChar(2 * votes - n);
  }

  /** With at most 127 tokens the identifier is the strict majority: a bit is set exactly when more than
      half of the token occurrences have it set. */
  lemma StrictMajority(hash: HashFunction, tokens: seq<Bytes>, id: KadId, p: nat)
    requires IsSimHash(hash, tokens, id) && |tokens| <= 127 && p < 128
    ensures BitAt(id, p) <==> 2 * Votes(hash, tokens, p) > |tokens|
  {
    BitOfVote(hash, tokens, id, p);
    VotesBound(hash, tokens, p);
    MajorityFits(Votes(hash, tokens, p), |tokens|);
  }

  lemma {:induction false} VotesOfOne(hash: HashFunction, token: Bytes, n: nat, p: nat)
    requires p < 128
    ensures Votes(hash, seq(n, _ => token), p) == if BitAt(hash(token), p) then n else 0
  {
    if n > 0 {
      var s := seq(n, _ => token);
      assert s[..n - 1] == seq(n - 1, _ => token);
      VotesOfOne(hash, token, n - 1, p);
    }
  }

  /** The bound of 127 is sharp, for whatever hash function the program has: as soon as two tokens differ
      in bit `p` of their hashes, some number of each makes `n` tokens of which more than half have the
      bit set, and the overflow loses it. */
  lemma MajorityLostBeyond(hash: HashFunction, yes: Bytes, no: Bytes, p: nat, n: nat) returns (tokens: seq<Bytes>)
    requires p < 128 && BitAt(hash(yes), p) && !BitAt(hash(no), p)
    requires n >= 128
    ensures |tokens| == n && (forall t | t in tokens :: t == yes || t == no)
    ensures 2 * Votes(hash, tokens, p) > n
    ensures forall id | IsSimHash(hash, tokens, id) :: !BitAt(id, p)
  {
    var k := (n + 129) / 2;
    var a, b := seq(k, _ => yes), seq(n - k, _ => no);
    tokens := a + b;
    VotesOfOne(hash, yes, k, p);
    VotesOfOne(hash, no, n - k, p);
    VotesAppend(hash, a, b, p);
    assert 2 * k - n in {128, 129};
    forall id | IsSimHash(hash, tokens, id)
      ensures !BitAt(id, p)
    {
      BitOfVote(hash, tokens, id, p);
    }
  }

  /** The overflow sets bits as well as losing them. When no token has the bit, it is set all the same for
      129 to 255 tokens; when all have it, it is lost for 128 to 256; and so on, every 256 tokens. */
  lemma UnanimousVote(hash: HashFunction, token: Bytes, n: nat, id: KadId, p: nat)
    requires p < 128 && IsSimHash(hash, seq(n, _ => token), id)
    ensures BitAt(id, p) <==> if BitAt(hash(token), p) then 1 <= n % 256 <= 127 else 129 <= n % 256 <= 255
  {
    BitOfVote(hash, seq(n, _ => token), id, p);
    VotesOfOne(hash, token, n, p);
    CharOfNegative(n);
  }

  lemma CharOfNegative(n: int)
    ensures ToChar(-n) > 0 <==> 129 <= n % 256 <= 255
    ensures ToChar(n) > 0 <==> 1 <= n % 256 <= 127
  {
    assert (-n) % 256 == (256 - n % 256) % 256;
  }

  /** Every run of `init` on `n` tokens decides bit `p` by strict majority. */
  ghost predicate MajorityDecides(hash: HashFunction, n: nat, p: nat)
    requires p < 128
  {
    forall tokens, id | |tokens| == n && IsSimHash(hash, tokens, id) ::
      BitAt(id, p) <==> 2 * Votes(hash, tokens, p) > n
  }

  /** The vote is a strict majority of `n` tokens, in a bit in which any two hashes differ, exactly when
      `n` is at most 127. */
  lemma MajorityIffAtMost127(hash: HashFunction, yes: Bytes, no: Bytes, p: nat, n: nat)
    requires p < 128 && BitAt(hash(yes), p) && !BitAt(hash(no), p)
    ensures MajorityDecides(hash, n, p) <==> n <= 127
  {
    if n <= 127 {
      forall tokens, id | |tokens| == n && IsSimHash(hash, tokens, id)
        ensures BitAt(id, p) <==> 2 * Votes(hash, tokens, p) > n
      {
        StrictMajority(hash, tokens, id, p);
      }
    } else {
      var tokens := MajorityLostBeyond(hash, yes, no, p, n);
      var id := SimHashExists(hash, tokens);
      assert !BitAt(id, p);
    }
  }

  // Two words whose hashes differ

  /** The hash of a token of even length, from `fnv128String`. */
  function FnvOf(token: Bytes): KadId {
    Fnv.Emit(Fnv.Fold(Fnv.BASIS, Fnv.EverySecond(token)))
  }

  /** It is what the program puts out. */
  lemma FnvOfIsProgram(token: Bytes)
    requires |token| % 2 == 0 && 0 !in token
    ensures Fnv.HasEvenNul(token + [0])
    ensures FnvOf(token) == Fnv.Emit(Fnv.Fold(Fnv.BASIS, Fnv.Hashed(token + [0])))
    ensures Fnv.IsHashOf(token + [0], FnvOf(token))
  {
    Fnv.EvenLengthHashesEverySecond(token);
    Fnv.ProgramHashes(token + [0]);
  }

  /** The first byte of limb 3 after one character. */
  lemma FirstByteOfLimb3(word: Bytes)
    requires |word| == 2 && word[1] < 0x80
    ensures FnvOf(word)[12] == (0x3B * Xor(0x8D, word[1])) % 256
  {
    var c := word[1];
    var none: Bytes := [];
    var s := Fnv.Step(Fnv.BASIS, c);
    assert Fnv.EverySecond(word) == [c] && [c][1..] == none;
    assert FnvOf(word) == Fnv.Emit(s) by {
      assert Fnv.Fold(Fnv.BASIS, [c]) == Fnv.Fold(s, none) == s;
    }
    Fnv.EmitParts(s);
    assert Fnv.Emit(s)[12..][0] == ToLE(s.t3, 4)[0] == s.t3 % 256;
    LowByteOfLimb3(c);
  }

  lemma LowByteOfLimb3(c: byte)
    requires c < 0x80
    ensures (Fnv.PRIME_X * Xor(0x6295C58D, c)) % Fnv.W64 % Fnv.W32 % 256 == (0x3B * Xor(0x8D, c)) % 256
  {
    var low, high := Xor(0x8D, c), 0x6295C5;
    XorSplitsByte(0x8D, high, c, 0);
    XorZero(high);
    Fnv.XorLowLimb(0x6295C58D, 0, 0x6295C58D, c);
    LowByteOfProduct(low, high);
  }

  lemma LowByteOfProduct(low: nat, high: nat)
    requires low + 256 * high < Fnv.W32
    ensures (Fnv.PRIME_X * (low + 256 * high)) % Fnv.W64 % Fnv.W32 % 256 == (0x3B * low) % 256
  {
    var x := Fnv.PRIME_X * (low + 256 * high);
    Fnv.NoWrap(x);
    assert x == 0x3B * low + 256 * (low + Fnv.PRIME_X * high);
    var more := low + Fnv.PRIME_X * high - 0x100_0000 * (x / Fnv.W32);
    assert x % Fnv.W32 == 256 * ((0x3B * low) / 256 + more) + (0x3B * low) % 256;
    ModUnique(x % Fnv.W32, 256, (0x3B * low) / 256 + more, (0x3B * low) % 256);
  }

  lemma SmallXors()
    ensures Xor(0x8D, 97) == 0xEC && Xor(0x8D, 98) == 0xEF
  {
    assert Xor(1, 0) == 1 && Xor(2, 1) == 3 && Xor(4, 3) == 7 && Xor(8, 6) == 14;
    assert Xor(17, 12) == 29 && Xor(35, 24) == 59;
    assert Xor(70, 48) == 118 && Xor(70, 49) == 119;
  }

  lemma SmallBit(b: byte)
    requires b == 0x64 || b == 0x15
    ensures Bit(b, 6) <==> b == 0x64
  {
    assert Bit(1, 0) && Bit(3, 1) && Bit(6, 2) && Bit(12, 3) && Bit(25, 4) && Bit(50, 5);
    assert !Bit(0, 0) && !Bit(0, 1) && !Bit(1, 2) && !Bit(2, 3) && !Bit(5, 4) && !Bit(10, 5);
  }

  lemma ByteOfWord(c: byte, b: byte)
    requires (c == 97 || c == 98) && b == (0x3B * Xor(0x8D, c)) % 256
    ensures Bit(b, 6) <==> c == 97
  {
    SmallXors();
    ProductByte(Xor(0x8D, c), b);
    SmallBit(b);
  }

  lemma ProductByte(x: nat, b: byte)
    requires (x == 0xEC || x == 0xEF) && b == (0x3B * x) % 256
    ensures b == if x == 0xEC then 0x64 else 0x15
  {
  }

  lemma BitOfByte(id: KadId)
    ensures BitAt(id, 97) <==> Bit(id[12], 6)
  {
    assert 97 / 8 == 12 && 97 % 8 == 1;
  }

  /** Bit 97 is set in the hash of a word like "aa" and not in that of one like "ab". */
  lemma WordsDiffer(word: Bytes)
    requires |word| == 2 && (word[1] == 97 || word[1] == 98)
    ensures BitAt(FnvOf(word), 97) <==> word[1] == 97
  {
    FirstByteOfLimb3(word);
    BitOfByte(FnvOf(word));
    ByteOfWord(word[1], FnvOf(word)[12]);
  }

  /** So with the program's own hash the majority is lost for any number of tokens above 127: two words
      such as "aa" and "ab" will do. */
  lemma FnvMajorityIffAtMost127(hash: HashFunction, aa: Bytes, ab: Bytes, n: nat)
    requires |aa| == |ab| == 2 && aa[1] == 97 && ab[1] == 98
    ensures hash(aa) == FnvOf(aa) && hash(ab) == FnvOf(ab) ==> (MajorityDecides(hash, n, 97) <==> n <= 127)
  {
    if hash(aa) == FnvOf(aa) && hash(ab) == FnvOf(ab) {
      WordsDiffer(aa);
      WordsDiffer(ab);
      MajorityIffAtMost127(hash, aa, ab, 97, n);
    }
  }

  /** The byte whose first `n` bits are the given ones from `at` on. */
  ghost function ByteWith(bits: nat -> bool, at: nat, n: nat): byte
    requires n <= 8
  {
    if n == 0 then 0
    else if bits(at + n - 1) then WithBit(ByteWith(bits, at, n - 1), n - 1)
    else ByteWith(bits, at, n - 1)
  }

  lemma {:induction false} ByteWithBits(bits: nat -> bool, at: nat, n: nat, k: nat)
    requires n <= 8 && k < 8
    ensures ByteBit(ByteWith(bits, at, n), k) <==> k < n && bits(at + k)
  {
    if n == 0 {
      NoBits();
    } else {
      ByteWithBits(bits, at, n - 1, k);
    }
  }

  lemma IdWithBits(bits: nat -> bool) returns (id: KadId)
    ensures forall p: nat | p < 128 :: BitAt(id, p) <==> bits(p)
  {
    id := seq(16, i requires 0 <= i < 16 => ByteWith(bits, 8 * i, 8));
    forall p: nat | p < 128
      ensures BitAt(id, p) <==> bits(p)
    {
      var i, j := p / 8, p % 8;
      assert id[i] == ByteWith(bits, 8 * i, 8) && p == 8 * i + j;
      ByteWithBits(bits, 8 * i, 8, j);
    }
  }

  lemma NoBits()
    ensures forall k: nat :: !Bit(0, k)
  {
    forall k: nat
      ensures !Bit(0, k)
    {
      ZeroBit(k);
    }
  }

  lemma SimHashExists(hash: HashFunction, tokens: seq<Bytes>) returns (id: KadId)
    ensures IsSimHash(hash, tokens, id)
  {
    id := IdWithBits((p: nat) => p < 128 && ToChar(2 * Votes(hash, tokens, p) - |tokens|) > 0);
  }

  lemma {:induction false} VotesAppend(hash: HashFunction, a: seq<Bytes>, b: seq<Bytes>, p: nat)
    requires p < 128
    ensures Votes(hash, a + b, p) == Votes(hash, a, p) + Votes(hash, b, p)
    decreases |b|
  {
    if b == [] {
      assert a + b == a;
    } else {
      assert (a + b)[..|a + b| - 1] == a + b[..|b| - 1];
      VotesAppend(hash, a, b[..|b| - 1], p);
    }
  }

  lemma {:induction false} VotesOfPermutation(hash: HashFunction, a: seq<Bytes>, b: seq<Bytes>, p: nat)
    requires p < 128 && multiset(a) == multiset(b)
    ensures Votes(hash, a, p) == Votes(hash, b, p) && |a| == |b|
    decreases |a|
  {
    PermutationMembers(a, b);
    if a != [] {
      var last := |a| - 1;
      assert a[last] in b;
      var i :| 0 <= i < |b| && b[i] == a[last];
      WithoutMeans(a, last);
      WithoutMeans(b, i);
      VotesOfPermutation(hash, Without(a, last), Without(b, i), p);
      VotesWithout(hash, a, last, p);
      VotesWithout(hash, b, i, p);
    }
  }

  lemma VotesWithout(hash: HashFunction, s: seq<Bytes>, i: nat, p: nat)
    requires p < 128 && i < |s|
    ensures Votes(hash, s, p) == Votes(hash, Without(s, i), p) + if BitAt(hash(s[i]), p) then 1 else 0
  {
    var before, after := s[..i], s[i + 1..];
    assert s == (before + [s[i]]) + after;
    VotesAppend(hash, before + [s[i]], after, p);
    assert (before + [s[i]])[..i] == before;
    VotesAppend(hash, before, after, p);
  }

  /** The order of the tokens does not matter, for any number of them. */
  lemma OrderDoesNotMatter(hash: HashFunction, a: seq<Bytes>, b: seq<Bytes>, x: KadId, y: KadId)
    requires multiset(a) == multiset(b) && IsSimHash(hash, a, x) && IsSimHash(hash, b, y)
    ensures x == y
  {
    forall p: nat | p < 128
      ensures BitAt(x, p) == BitAt(y, p)
    {
      VotesOfPermutation(hash, a, b, p);
      BitOfVote(hash, a, x, p);
      BitOfVote(hash, b, y, p);
    }
    SameBitsSameId(x, y);
  }

  // Distance

  lemma {:induction false} PopCountOfBytes(s: Bytes, b: byte)
    ensures PopCount(FromLE(s + [b])) == PopCount(FromLE(s)) + PopCount(b)
  {
    FromLEConcat(s, [b]);
    FromLEBound(s);
    assert [b][1..] == [] && FromLE([b]) == b;
    PopCountSplits(FromLE(s), b, 8 * |s|);
  }

  /** `SimHash::distance`: clears one set bit of the xor at a time and counts. */
  method Distance(a: KadId, b: KadId) returns (hamming: nat)
    ensures hamming == PopCount(Dist(a, b))
  {
    var ax := Minus(a, b);
    hamming := 0;
    for i := 0 to 16
      invariant hamming == PopCount(FromLE(ax[..i]))
    {
      var ones := CountOnes(ax[i]);
      hamming := hamming + ones;
      assert ax[..i + 1] == ax[..i] + [ax[i]];
      PopCountOfBytes(ax[..i], ax[i]);
    }
    assert ax[..16] == ax;
  }

  method CountOnes(b: byte) returns (ones: nat)
    ensures ones == PopCount(b)
  {
    var n: byte := b;
    ones := 0;
    while n != 0
      invariant PopCount(b) == ones + PopCount(n)
      decreases n
    {
      AndPredecessor(n);
      n := And(n, n - 1);
      ones := ones + 1;
    }
  }

  /** The positions at which two identifiers differ. */
  ghost function DifferingBits(a: KadId, b: KadId): set<nat> {
    set k: nat | k < 128 && Value(a) / Pow2(k) % 2 != Value(b) / Pow2(k) % 2
  }

  /** What `distance` counts. */
  lemma DistanceCounts(a: KadId, b: KadId)
    ensures PopCount(Dist(a, b)) == |DifferingBits(a, b)|
  {
    ValueBound(Minus(a, b));
    PopCountCounts(Dist(a, b), 128);
    DistIsXor(a, b);
    forall k: nat | k < 128
      ensures Bit(Dist(a, b), k) <==> Value(a) / Pow2(k) % 2 != Value(b) / Pow2(k) % 2
    {
      XorBit(Value(a), Value(b), k);
      BitIsQuotient(Value(a), k);
      BitIsQuotient(Value(b), k);
    }
    assert SetBits(Dist(a, b), 128) == DifferingBits(a, b);
  }

  /** The distance is a metric on identifiers. */
  lemma DistanceIsMetric(a: KadId, b: KadId, c: KadId)
    ensures PopCount(Dist(a, b)) == 0 <==> a == b
    ensures PopCount(Dist(a, b)) == PopCount(Dist(b, a))
    ensures PopCount(Dist(a, c)) <= PopCount(Dist(a, b)) + PopCount(Dist(b, c))
  {
    DistIsMetric(a, b, c);
    PopCountZero(Dist(a, b));
    DistIsXor(a, b);
    DistIsXor(b, c);
    DistIsXor(a, c);
    PopCountXorTriangle(Value(a), Value(b), Value(c));
  }
}
