/** 128-bit node identifiers under the xor metric. Byte 15 is the most significant. */
module KadId {
  import opened Bits
  import opened LittleEndian

  const ID_LENGTH: nat := 16
  const ID_BITS: nat := 128

  type KadId = s: Bytes | |s| == ID_LENGTH witness seq(ID_LENGTH, _ => 0)

  /** `operator-`: the bytewise xor of two identifiers. */
  function Minus(a: KadId, b: KadId): KadId {
    XorBytes(a, b)
  }

  function XorBytes(a: Bytes, b: Bytes): (r: Bytes)
    requires |a| == |b|
    ensures |r| == |a|
  {
    seq(|a|, i requires 0 <= i < |a| => XorByte(a[i], b[i]))
  }

  function XorByte(a: byte, b: byte): byte {
    XorSplitsByte(a, 0, b, 0);
    Xor(a, b)
  }

  /** The number an identifier stands for. */
  function Value(id: KadId): nat {
    FromLE(id)
  }

  /** The xor distance, as a number. */
  function Dist(a: KadId, b: KadId): nat {
    Value(Minus(a, b))
  }

  /** The bucket in which a node that keeps `self` files `id`, and -1 for `self` itself. */
  function BucketOf(self: KadId, id: KadId): int {
    HeightOf(Dist(self, id))
  }

  // Bytes and numbers

  lemma {:induction false} XorBytesValue(a: Bytes, b: Bytes)
    requires |a| == |b|
    ensures FromLE(XorBytes(a, b)) == Xor(FromLE(a), FromLE(b))
  {
    if a == [] {
      assert Xor(0, 0) == 0;
    } else {
      assert XorBytes(a, b)[1..] == XorBytes(a[1..], b[1..]);
      XorBytesValue(a[1..], b[1..]);
      XorSplitsByte(a[0], FromLE(a[1..]), b[0], FromLE(b[1..]));
    }
  }

  lemma DistIsXor(a: KadId, b: KadId)
    ensures Dist(a, b) == Xor(Value(a), Value(b))
  {
    XorBytesValue(a, b);
  }

  /** The bytes are the digits of the value, byte 15 the highest. */
  lemma ValueDigits(id: KadId)
    ensures forall k | 0 <= k < 16 :: id[k] == Value(id) / Pow2(8 * k) % 256
    ensures Value(id) < Pow2(128)
  {
    ValueIffDigits(id, Value(id));
    ValueBound(id);
  }

  lemma ValueBound(id: KadId)
    ensures Value(id) < Pow2(128)
  {
    FromLEBound(id);
  }

  lemma ValueInjective(a: KadId, b: KadId)
    ensures Value(a) == Value(b) <==> a == b
  {
    if Value(a) == Value(b) {
      FromLEInjective(a, b);
    }
  }

  // The metric

  lemma DistIsMetric(a: KadId, b: KadId, c: KadId)
    ensures Dist(a, b) == 0 <==> a == b
    ensures Dist(a, b) == Dist(b, a)
    ensures Dist(a, c) <= Dist(a, b) + Dist(b, c)
    ensures Dist(a, b) == Dist(a, c) ==> b == c
  {
    DistIsXor(a, b);
    DistIsXor(b, a);
    DistIsXor(a, c);
    DistIsXor(b, c);
    var x, y, z := Value(a), Value(b), Value(c);
    XorZeroMeansEqual(x, y);
    ValueInjective(a, b);
    XorCommutes(x, y);
    XorChain(x, y, z);
    XorAtMostSum(Xor(x, y), Xor(y, z));
    XorCancels(x, y);
    XorCancels(x, z);
    ValueInjective(b, c);
  }

  lemma XorChain(x: nat, y: nat, z: nat)
    ensures Xor(x, z) == Xor(Xor(x, y), Xor(y, z))
  {
    XorAssociates(x, y, Xor(y, z));
    XorCancels(y, z);
  }

  lemma {:induction false} XorAtMostSum(a: nat, b: nat)
    ensures Xor(a, b) <= a + b
    decreases a + b
  {
    if a != 0 || b != 0 {
      XorAtMostSum(a / 2, b / 2);
    }
  }

  /** Unidirectionality (section 2.1 of the Kademlia paper): from every identifier, exactly one
      identifier lies at each distance below 2^128. */
  lemma ExactlyOneAtEachDistance(a: KadId, d: nat) returns (b: KadId)
    requires d < Pow2(128)
    ensures Dist(a, b) == d
    ensures forall c: KadId :: Dist(a, c) == d ==> c == b
  {
    var delta: KadId := ToLE(d, 16);
    FitsRoundTrip(d, 16);
    b := Minus(a, delta);
    DistIsXor(a, delta);
    DistIsXor(a, b);
    XorCancels(Value(a), d);
    forall c: KadId | Dist(a, c) == d
      ensures c == b
    {
      DistIsMetric(a, c, b);
    }
  }

  /** The ultrametric law of the bucket index, for three distinct identifiers or not. */
  lemma BucketUltrametric(a: KadId, b: KadId, c: KadId)
    ensures BucketOf(a, b) == BucketOf(b, a)
    ensures BucketOf(a, b) < BucketOf(b, c) ==> BucketOf(a, c) == BucketOf(b, c)
    ensures BucketOf(a, b) > BucketOf(b, c) ==> BucketOf(a, c) == BucketOf(a, b)
    ensures BucketOf(a, b) == BucketOf(b, c) && a != b ==> BucketOf(a, c) < BucketOf(a, b)
  {
    DistIsMetric(a, b, c);
    DistIsXor(a, b);
    DistIsXor(b, c);
    DistIsXor(a, c);
    XorChain(Value(a), Value(b), Value(c));
    HeightOfXor(Dist(a, b), Dist(b, c));
  }

  lemma BucketRange(a: KadId, b: KadId)
    ensures -1 <= BucketOf(a, b) < 128
    ensures BucketOf(a, b) == -1 <==> a == b
    ensures a != b ==> Pow2(BucketOf(a, b)) <= Dist(a, b) < Pow2(BucketOf(a, b) + 1)
  {
    DistIsMetric(a, b, b);
    if a != b {
      HeightBounds(Dist(a, b));
      ValueBound(Minus(a, b));
      if BucketOf(a, b) >= 128 {
        Pow2Grows(128, BucketOf(a, b));
      }
    }
  }

  // KadId::height

  lemma {:induction false} HeightOfJoin(x: nat, v: nat, k: nat)
    requires v > 0
    ensures Join(x, v, k) > 0 && HeightOf(Join(x, v, k)) == k + HeightOf(v)
  {
    if k > 0 {
      Halves(x % 2, Join(x / 2, v, k - 1));
      HeightOfJoin(x / 2, v, k - 1);
    }
  }

  /** The height of a number is read off its last nonzero byte. */
  lemma {:induction false} HeightFromTopByte(s: Bytes, i: nat)
    requires i < |s| && s[i] != 0
    requires forall j | i < j < |s| :: s[j] == 0
    ensures FromLE(s) > 0 && HeightOf(FromLE(s)) == 8 * i + HeightOf(s[i])
  {
    if i == 0 {
      ZeroTail(s[1..]);
    } else {
      HeightFromTopByte(s[1..], i - 1);
      assert Pow2(8) == 256;
      JoinValue(s[0], FromLE(s[1..]), 8);
      HeightOfJoin(s[0], FromLE(s[1..]), 8);
    }
  }

  lemma {:induction false} ZeroTail(s: Bytes)
    requires forall j | 0 <= j < |s| :: s[j] == 0
    ensures FromLE(s) == 0
  {
    if s != [] {
      ZeroTail(s[1..]);
    }
  }

  /** The mask `0x80` tests the top bit of a byte. */
  lemma TopBit(n: byte)
    ensures And(n, 0x80) == 0 <==> n < 0x80
    ensures n > 0 ==> (HeightOf(n) == 7 <==> n >= 0x80) && 0 <= HeightOf(n) <= 7
  {
    AndPow2(n, 7);
    assert Pow2(7) == 128 && Pow2(8) == 256;
    if n > 0 {
      HeightBounds(n);
      var h := HeightOf(n);
      if h > 7 {
        Pow2Grows(8, h);
      } else if h < 7 {
        Pow2Grows(h + 1, 7);
      }
    }
  }

  lemma {:induction false} AndPow2(n: nat, k: nat)
    requires n < 2 * Pow2(k)
    ensures And(n, Pow2(k)) == 0 <==> n < Pow2(k)
  {
    if k == 0 {
      assert And(0, 0) == 0;
    } else {
      AndPow2(n / 2, k - 1);
      assert Pow2(k) / 2 == Pow2(k - 1);
    }
  }

  lemma DoubleHeight(n: nat)
    requires n > 0
    ensures HeightOf(2 * n) == HeightOf(n) + 1
  {
    Halves(0, n);
  }

  /** `KadId::height`: skips the zero bytes from the top, then shifts the top nonzero byte. An
      all-zero identifier has no height: the source would read before the array. */
  method Height(id: KadId) returns (d: int)
    requires Value(id) != 0
    ensures 0 <= d < ID_BITS
    ensures Pow2(d) <= Value(id) < Pow2(d + 1)
    ensures d == HeightOf(Value(id))
  {
    d := ID_BITS - 1;
    var i := ID_LENGTH - 1;
    while i >= 0 && id[i] == 0
      invariant -1 <= i < ID_LENGTH
      invariant d == 8 * i + 7
      invariant forall j | i < j < ID_LENGTH :: id[j] == 0
    {
      d := d - 8;
      i := i - 1;
    }
    assert i >= 0 by {
      if i < 0 {
        ZeroTail(id);
      }
    }
    HeightFromTopByte(id, i);
    var shifts := ShiftsToTop(id[i]);
    d := d - shifts;
    HeightBounds(Value(id));
  }

  /** The second loop of `height`: how often the top nonzero byte is shifted until its top bit
      is set. */
  method ShiftsToTop(top: byte) returns (shifts: nat)
    requires top != 0
    ensures shifts == 7 - HeightOf(top)
  {
    var n := top;
    shifts := 0;
    TopBit(n);
    while And(n, 0x80) == 0
      invariant n > 0 && shifts == HeightOf(n) - HeightOf(top)
      invariant HeightOf(n) <= 7
      decreases 7 - HeightOf(n)
    {
      TopBit(n);
      DoubleHeight(n);
      n := (n * 2) % 256;
      TopBit(n);
      shifts := shifts + 1;
    }
    TopBit(n);
  }

  // KadId::operator<

  lemma {:induction false} TopDifferenceDecides(a: Bytes, b: Bytes, i: nat)
    requires |a| == |b| && i < |a| && a[i] < b[i]
    requires forall j | i < j < |a| :: a[j] == b[j]
    ensures FromLE(a) < FromLE(b)
  {
    if i == 0 {
      assert a[1..] == b[1..];
    } else {
      TopDifferenceDecides(a[1..], b[1..], i - 1);
    }
  }

  /** `operator<` is the order of the numbers. On equal identifiers the source compares a byte
      before the array with itself; the meant result is false. */
  method LessThan(a: KadId, b: KadId) returns (less: bool)
    ensures less <==> Value(a) < Value(b)
  {
    var i := ID_LENGTH - 1;
    while i >= 0 && a[i] == b[i]
      invariant -1 <= i < ID_LENGTH
      invariant forall j | i < j < ID_LENGTH :: a[j] == b[j]
    {
      i := i - 1;
    }
    if i < 0 {
      assert a == b;
      return false;
    }
    less := a[i] < b[i];
    if less {
      TopDifferenceDecides(a, b, i);
    } else {
      TopDifferenceDecides(b, a, i);
    }
  }

  // KadId::idNbitsFarFrom

  lemma {:induction false} OnesValue(n: nat)
    ensures FromLE(seq(n, _ => 255)) == Pow2(8 * n) - 1
  {
    if n > 0 {
      var s: Bytes := seq(n, _ => 255);
      assert s[1..] == seq(n - 1, _ => 255);
      OnesValue(n - 1);
      Pow2Byte(n - 1);
    }
  }

  lemma OnesFrom(s: Bytes, k: nat)
    requires s != [] && k < 8 && s[0] == 256 - Pow2(k)
    requires forall j | 1 <= j < |s| :: s[j] == 255
    ensures FromLE(s) == Pow2(8 * |s|) - Pow2(k)
  {
    assert s[1..] == seq(|s| - 1, _ => 255);
    OnesValue(|s| - 1);
    Pow2Byte(|s| - 1);
  }

  lemma ScaledDifference(a: nat, b: nat, c: nat)
    ensures Pow2(a) * (Pow2(b) - Pow2(c)) == Pow2(a + b) - Pow2(a + c)
  {
    Pow2Adds(a, b);
    Pow2Adds(a, c);
  }

  /** Low zero bytes, one byte whose low `k` bits are clear, then bytes of ones. */
  lemma MaskValue(s: Bytes, i: nat, k: nat)
    requires i < |s| && k < 8
    requires forall j | 0 <= j < i :: s[j] == 0
    requires s[i] == 256 - Pow2(k)
    requires forall j | i < j < |s| :: s[j] == 255
    ensures FromLE(s) == Pow2(8 * |s|) - Pow2(8 * i + k)
  {
    var lo, hi := s[..i], s[i..];
    assert s == lo + hi;
    ZeroTail(lo);
    FromLEConcat(lo, hi);
    OnesFrom(hi, k);
    ScaledDifference(8 * i, 8 * |hi|, k);
    assert 8 * i + 8 * |hi| == 8 * |s|;
  }

  /** `0xff << k`, truncated to a byte. */
  lemma ShiftedOnes(k: nat)
    requires k < 8
    ensures Pow2(k) <= 128
    ensures (0xff * Pow2(k)) % 256 == 256 - Pow2(k)
  {
    assert Pow2(0) == 1 && Pow2(1) == 2 && Pow2(2) == 4 && Pow2(3) == 8;
    assert Pow2(4) == 16 && Pow2(5) == 32 && Pow2(6) == 64 && Pow2(7) == 128;
  }

  /** `s` has ones from bit `8 * i + k` upward and zeros below. */
  ghost predicate OnesFromBit(s: Bytes, i: nat, k: nat)
    requires k < 8
  {
    && (forall j | 0 <= j < |s| && j < i :: s[j] == 0)
    && (i < |s| ==> s[i] == 256 - Pow2(k))
    && (forall j | i < j < |s| :: s[j] == 255)
  }

  lemma OnesFromBitValue(s: KadId, i: nat, k: nat)
    requires k < 8 && OnesFromBit(s, i, k) && 8 * i + k <= 128
    ensures Value(s) == Pow2(128) - Pow2(8 * i + k)
  {
    if i < 16 {
      MaskValue(s, i, k);
    } else {
      ZeroTail(s);
    }
  }

  /** `idNbitsFarFrom`: the identifier at distance 2^128 - 2^(128-n). Values of `bdist` outside
      the range make the source index or shift out of bounds. */
  method IdNbitsFarFrom(id: KadId, bdist: nat) returns (far: KadId)
    requires bdist <= ID_BITS
    ensures Dist(id, far) == Pow2(128) - Pow2(128 - bdist)
  {
    var dIdx := ID_BITS - bdist;
    var ax := OnesMask(dIdx);
    OnesFromBitValue(ax, dIdx / 8, dIdx % 8);
    far := Minus(ax, id);
    MinusUndone(ax, id);
  }

  /** The loops of `idNbitsFarFrom`. */
  method OnesMask(dIdx: nat) returns (mask: KadId)
    requires dIdx <= ID_BITS
    ensures OnesFromBit(mask, dIdx / 8, dIdx % 8)
  {
    var ax: array<byte> := new byte[ID_LENGTH](_ => 0);
    var i := 0;
    while i < dIdx / 8
      invariant 0 <= i <= dIdx / 8
      invariant forall j | 0 <= j < i :: ax[j] == 0
    {
      ax[i] := 0;
      i := i + 1;
    }
    ghost var cut := i;
    if i < ID_LENGTH {
      ShiftedOnes((dIdx - i * 8) % 8);
      ax[i] := (0xff * Pow2((dIdx - i * 8) % 8)) % 256;
    }
    i := i + 1;
    while i < ID_LENGTH
      invariant cut < i
      invariant forall j | 0 <= j < cut && j < ID_LENGTH :: ax[j] == 0
      invariant cut < ID_LENGTH ==> ax[cut] == 256 - Pow2(dIdx % 8)
      invariant forall j | cut < j < i && j < ID_LENGTH :: ax[j] == 255
    {
      ax[i] := 0xff;
      i := i + 1;
    }
    mask := ax[..];
  }

  /** Subtracting twice gets back: the distance from `id` to `mask - id` is `mask`. */
  lemma MinusUndone(mask: KadId, id: KadId)
    ensures Dist(id, Minus(mask, id)) == Value(mask)
  {
    DistIsXor(mask, id);
    DistIsXor(id, Minus(mask, id));
    XorCommutes(Value(mask), Value(id));
    XorCancels(Value(id), Value(mask));
  }

  lemma {:induction false} PopCountOfOnes(n: nat)
    ensures PopCount(Pow2(n) - 1) == n
  {
    if n > 0 {
      PopCountOfOnes(n - 1);
      var s := Pow2(n) - 1;
      assert s == 1 + 2 * (Pow2(n - 1) - 1);
      PopCountStep(s);
    }
  }

  /** What the name promises: an identifier `n` steps out differs in exactly `n` bits, and every
      one but the identifier itself falls into the farthest bucket, 127. */
  lemma NbitsFarMeans(id: KadId, far: KadId, n: nat)
    requires n <= 128
    requires Dist(id, far) == Pow2(128) - Pow2(128 - n)
    ensures PopCount(Dist(id, far)) == n
    ensures n > 0 ==> BucketOf(id, far) == 127
    ensures n == 0 ==> far == id
  {
    HighOnes(Dist(id, far), n, 128);
    if n == 0 {
      DistIsMetric(id, far, far);
    }
  }

  lemma HighOnes(d: nat, n: nat, width: nat)
    requires n <= width && d == Pow2(width) - Pow2(width - n)
    ensures PopCount(d) == n
    ensures if n > 0 then HeightOf(d) == width - 1 else d == 0
  {
    OnesAbove(width - n, n);
    if n > 0 {
      Pow2Grows(width - n, width - 1);
      HeightUnique(d, width - 1);
    }
  }

  lemma OnesAbove(low: nat, n: nat)
    ensures Pow2(low + n) >= Pow2(low)
    ensures PopCount(Pow2(low + n) - Pow2(low)) == n
  {
    assert Pow2(0) == 1;
    ScaledDifference(low, n, 0);
    PopCountSplits(0, Pow2(n) - 1, low);
    PopCountOfOnes(n);
    Pow2Grows(low, low + n);
    assert PopCount(0) == 0;
  }
}
