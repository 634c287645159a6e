/** Fixed-width little-endian integers, as written by `htole16`/`htole32`/`htole64` and by
    `fwrite` of an integer on a little-endian host. */
module LittleEndian {
  import opened Bits

  /** The number whose least significant byte comes first. */
  function FromLE(s: Bytes): nat {
    if s == [] then 0 else s[0] + 256 * FromLE(s[1..])
  }

  /** The low `width` bytes of `n`. */
  function ToLE(n: nat, width: nat): (s: Bytes)
    ensures |s| == width
  {
    if width == 0 then [] else [n % 256] + ToLE(n / 256, width - 1)
  }

  lemma Pow2Byte(k: nat)
    ensures Pow2(8 * (k + 1)) == 256 * Pow2(8 * k)
  {
    assert Pow2(8) == 256;
    Pow2Adds(8, 8 * k);
  }

  lemma {:induction false} FromLEBound(s: Bytes)
    ensures FromLE(s) < Pow2(8 * |s|)
  {
    if s != [] {
      FromLEBound(s[1..]);
      Pow2Byte(|s| - 1);
    }
  }

  lemma LowByte(x: byte, n: nat)
    ensures (x + 256 * n) % 256 == x && (x + 256 * n) / 256 == n
  {
  }

  lemma {:induction false} ToFromLE(s: Bytes)
    ensures ToLE(FromLE(s), |s|) == s
  {
    if s != [] {
      ToFromLE(s[1..]);
      LowByte(s[0], FromLE(s[1..]));
    }
  }

  /** Encoding keeps exactly the low `8 * width` bits. */
  lemma {:induction false} FromToLE(n: nat, width: nat)
    ensures FromLE(ToLE(n, width)) == n % Pow2(8 * width)
  {
    if width > 0 {
      var s := ToLE(n, width);
      assert s[1..] == ToLE(n / 256, width - 1);
      FromToLE(n / 256, width - 1);
      Pow2Byte(width - 1);
      ModNested(n, 256, Pow2(8 * (width - 1)));
    }
  }

  /** Writing a number keeps its low bytes only, so reducing it first makes no difference. */
  lemma LowBytesOnly(n: nat, width: nat)
    ensures ToLE(n % Pow2(8 * width), width) == ToLE(n, width)
  {
    var p := Pow2(8 * width);
    FromToLE(n % p, width);
    FromToLE(n, width);
    ModUnique(n % p, p, 0, n % p);
    FromLEInjective(ToLE(n % p, width), ToLE(n, width));
  }

  lemma FitsRoundTrip(n: nat, width: nat)
    requires n < Pow2(8 * width)
    ensures FromLE(ToLE(n, width)) == n
  {
    FromToLE(n, width);
    ModUnique(n, Pow2(8 * width), 0, n);
  }

  lemma ModNested(n: nat, a: nat, b: nat)
    requires a > 0 && b > 0
    ensures a * b > 0 && n % (a * b) == n % a + a * ((n / a) % b)
  {
    var q, r := n / a / b, n % a + a * ((n / a) % b);
    assert n == a * (n / a) + n % a;
    assert n / a == b * q + (n / a) % b;
    assert a * (n / a) == a * (b * q) + a * ((n / a) % b);
    assert a * (b * q) == (a * b) * q;
    assert n == (a * b) * q + r;
    assert a * ((n / a) % b) <= a * (b - 1) by {
      MulMonotone(a, (n / a) % b, b - 1);
    }
    assert a * (b - 1) == a * b - a;
    ModUnique(n, a * b, q, r);
  }

  lemma MulMonotone(a: nat, x: int, y: int)
    requires x <= y
    ensures a * x <= a * y
  {
  }

  lemma MulGap(d: nat, x: int, y: int)
    requires x < y
    ensures d * x + d <= d * y
  {
    MulMonotone(d, x + 1, y);
    assert d * (x + 1) == d * x + d;
  }

  lemma ModUnique(n: int, d: nat, q: int, r: nat)
    requires d > 0 && r < d && n == d * q + r
    ensures n % d == r && n / d == q
  {
    var q', r' := n / d, n % d;
    assert n == d * q' + r';
    if q < q' {
      MulGap(d, q, q');
    } else if q' < q {
      MulGap(d, q', q);
    }
  }

  lemma FromLEInjective(a: Bytes, b: Bytes)
    requires |a| == |b| && FromLE(a) == FromLE(b)
    ensures a == b
  {
    ToFromLE(a);
    ToFromLE(b);
  }

  lemma {:induction false} FromLEConcat(a: Bytes, b: Bytes)
    ensures FromLE(a + b) == FromLE(a) + Pow2(8 * |a|) * FromLE(b)
  {
    if a == [] {
      assert a + b == b;
    } else {
      assert (a + b)[1..] == a[1..] + b;
      FromLEConcat(a[1..], b);
      Pow2Byte(|a| - 1);
      MulAssociates(256, Pow2(8 * (|a| - 1)), FromLE(b));
    }
  }

  // Two's complement, for the signed integers written by `fwrite`

  /** The signed number held by `width` bytes. */
  function SignedFromLE(s: Bytes): int
    requires |s| > 0
  {
    var n := FromLE(s);
    if n < Pow2(8 * |s| - 1) then n else n - Pow2(8 * |s|)
  }

  function SignedToLE(n: int, width: nat): (s: Bytes)
    ensures |s| == width
  {
    ToLE(n % Pow2(8 * width), width)
  }

  predicate FitsSigned(n: int, width: nat)
    requires width > 0
  {
    var half: int := Pow2(8 * width - 1);
    -half <= n < half
  }

  lemma SignedRoundTrip(n: int, width: nat)
    requires width > 0 && FitsSigned(n, width)
    ensures SignedFromLE(SignedToLE(n, width)) == n
  {
    var p := Pow2(8 * width);
    assert p == 2 * Pow2(8 * width - 1);
    FromToLE(n % p, width);
    if n < 0 {
      ModUnique(n, p, -1, n + p);
      ModUnique(n + p, p, 0, n + p);
    } else {
      ModUnique(n, p, 0, n);
    }
  }

  // Byte by byte

  /** Byte `k` is digit `k` of `n` to the base 256; of a negative number, in two's complement. */
  ghost predicate Digits(s: Bytes, n: int) {
    forall k | 0 <= k < |s| :: s[k] == n / Pow2(8 * k) % 256
  }

  lemma DivNested(n: int, a: nat, b: nat)
    requires a > 0 && b > 0
    ensures a * b > 0 && n / (a * b) == n / a / b
  {
    var q, r := n / a / b, n % a + a * ((n / a) % b);
    assert n / a == b * q + (n / a) % b;
    assert a * (n / a) == a * (b * q) + a * ((n / a) % b);
    assert a * (b * q) == (a * b) * q;
    MulMonotone(a, (n / a) % b, b - 1);
    assert a * (b - 1) == a * b - a;
    ModUnique(n, a * b, q, r);
  }

  /** A bit is the parity of a quotient. */
  lemma {:induction false} BitIsQuotient(n: nat, k: nat)
    ensures Bit(n, k) <==> n / Pow2(k) % 2 == 1
    decreases k
  {
    if k == 0 {
      assert Pow2(0) == 1;
    } else {
      BitIsQuotient(n / 2, k - 1);
      DivNested(n, 2, Pow2(k - 1));
    }
  }

  lemma {:induction false} DigitOfLE(n: nat, width: nat, k: nat)
    requires k < width
    ensures ToLE(n, width)[k] == n / Pow2(8 * k) % 256
  {
    if k == 0 {
      assert Pow2(0) == 1;
    } else {
      DigitOfLE(n / 256, width - 1, k - 1);
      Pow2Byte(k - 1);
      DivNested(n, 256, Pow2(8 * (k - 1)));
    }
  }

  lemma DigitsOfLE(n: nat, width: nat)
    ensures Digits(ToLE(n, width), n)
  {
    forall k | 0 <= k < width
      ensures ToLE(n, width)[k] == n / Pow2(8 * k) % 256
    {
      DigitOfLE(n, width, k);
    }
  }

  /** Higher digits do not show in the lower ones. */
  lemma DigitOfRest(n: int, width: nat, k: nat)
    requires k < width
    ensures (n % Pow2(8 * width)) / Pow2(8 * k) % 256 == n / Pow2(8 * k) % 256
  {
    PowerParts(width, k);
    QuotientOf(n, Pow2(8 * width));
    RestIsMultiple(n, Pow2(8 * k), Pow2(8 * (width - k - 1)), n % Pow2(8 * width), n / Pow2(8 * width));
  }

  lemma PowerParts(width: nat, k: nat)
    requires k < width
    ensures Pow2(8 * width) == Pow2(8 * k) * (256 * Pow2(8 * (width - k - 1)))
  {
    PowerSum(8 * k, 8 * (width - k), 8 * width);
    NextByte(width - k - 1, width - k);
  }

  lemma PowerSum(a: nat, b: nat, c: nat)
    requires c == a + b
    ensures Pow2(c) == Pow2(a) * Pow2(b)
  {
    Pow2Adds(a, b);
  }

  lemma NextByte(k: nat, next: nat)
    requires next == k + 1
    ensures Pow2(8 * next) == 256 * Pow2(8 * k)
  {
    Pow2Byte(k);
  }

  lemma QuotientOf(n: int, p: nat)
    requires p > 0
    ensures n == p * (n / p) + n % p
  {
  }

  lemma RestIsMultiple(n: int, p: nat, q: nat, m: nat, z: int)
    requires p > 0 && n == (p * (256 * q)) * z + m
    ensures m / p % 256 == n / p % 256
  {
    MulAssociates(p, 256 * q, z);
    MulAssociates(256, q, z);
    AddMultiple(m, p, 256 * (q * z));
    AddMultiple(m / p, 256, q * z);
  }

  lemma AddMultiple(m: int, p: nat, z: int)
    requires p > 0
    ensures (m + p * z) / p == m / p + z && (m + p * z) % p == m % p
  {
    var q, r := m / p, m % p;
    assert m == p * q + r;
    assert p * (q + z) == p * q + p * z;
    ModUnique(m + p * z, p, q + z, r);
  }

  /** The bytes that `fwrite` and the typed writes put out are the digits of the number, and nothing else is. */
  lemma SignedIffDigits(s: Bytes, n: int)
    ensures s == SignedToLE(n, |s|) <==> Digits(s, n)
  {
    var le := SignedToLE(n, |s|);
    DigitsOfLE(n % Pow2(8 * |s|), |s|);
    forall k | 0 <= k < |s|
      ensures le[k] == n / Pow2(8 * k) % 256
    {
      DigitOfRest(n, |s|, k);
    }
  }

  lemma UnsignedIffDigits(s: Bytes, n: nat)
    ensures s == ToLE(n, |s|) <==> Digits(s, n)
  {
    DigitsOfLE(n, |s|);
  }

  /** Bytes stand for the one number below 256^|s| that has them as digits. */
  lemma ValueIffDigits(s: Bytes, n: nat)
    ensures n == FromLE(s) <==> Digits(s, n) && n < Pow2(8 * |s|)
  {
    ToFromLE(s);
    FromLEBound(s);
    UnsignedIffDigits(s, n);
    if Digits(s, n) && n < Pow2(8 * |s|) {
      FitsRoundTrip(n, |s|);
    }
  }

  /** The highest bit is the sign. */
  lemma TopBitIsSign(s: Bytes)
    requires s != []
    ensures SignedFromLE(s) < 0 <==> s[|s| - 1] >= 0x80
  {
    var low, top := s[..|s| - 1], s[|s| - 1];
    assert s == low + [top] && [top][1..] == [] && FromLE([top]) == top;
    FromLEConcat(low, [top]);
    FromLEBound(low);
    FromLEBound(s);
    HalfPower(|low|, |s|);
    AgainstHalf(FromLE(low), Pow2(8 * |low|), top);
  }

  lemma HalfPower(k: nat, n: nat)
    requires n == k + 1
    ensures Pow2(8 * n - 1) == 128 * Pow2(8 * k)
  {
    assert Pow2(7) == 128;
    Pow2Adds(7, 8 * k);
  }

  lemma AgainstHalf(low: nat, p: nat, top: nat)
    requires low < p
    ensures low + p * top < 128 * p <==> top < 128
  {
    if top < 128 {
      MulGap(p, top, 128);
    } else {
      MulMonotone(p, 128, top);
    }
  }
}
