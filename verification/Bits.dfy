/** Bitwise arithmetic on naturals: the C++ operators `^`, `&` and bit tests on unsigned words,
    together with the height of a number (the position of its highest set bit). */
module Bits {

  /** An `unsigned char`. */
  type byte = x: int | 0 <= x < 256

  /** A `std::string`, or any other run of bytes. */
  type Bytes = seq<byte>

  function Pow2(k: nat): (p: nat)
    ensures p > 0
  {
    if k == 0 then 1 else 2 * Pow2(k - 1)
  }

  /** Bit `k` of `n`, counted from the least significant. */
  predicate Bit(n: nat, k: nat) {
    if k == 0 then n % 2 == 1 else Bit(n / 2, k - 1)
  }

  function Xor(a: nat, b: nat): nat
    decreases a + b
  {
    if a == 0 && b == 0 then 0 else (a + b) % 2 + 2 * Xor(a / 2, b / 2)
  }

  function And(a: nat, b: nat): nat
    decreases a + b
  {
    if a == 0 && b == 0 then 0
    else (if a % 2 == 1 && b % 2 == 1 then 1 else 0) + 2 * And(a / 2, b / 2)
  }

  function Or(a: nat, b: nat): nat
    decreases a + b
  {
    if a == 0 && b == 0 then 0
    else (if a % 2 == 1 || b % 2 == 1 then 1 else 0) + 2 * Or(a / 2, b / 2)
  }

  /** Position of the highest set bit, and -1 for zero. */
  function HeightOf(n: nat): (h: int)
    ensures h >= -1
    ensures h == -1 <==> n == 0
  {
    if n == 0 then -1 else 1 + HeightOf(n / 2)
  }

  /** Number of set bits. */
  function PopCount(n: nat): (c: nat) {
    if n == 0 then 0 else n % 2 + PopCount(n / 2)
  }

  // Laws of Xor

  lemma {:induction false} XorBit(a: nat, b: nat, k: nat)
    ensures Bit(Xor(a, b), k) <==> (Bit(a, k) != Bit(b, k))
    decreases k
  {
    XorStep(a, b);
    if k == 0 {
      ParityOfSum(a, b);
    } else {
      XorBit(a / 2, b / 2, k - 1);
    }
  }

  lemma {:induction false} ParityOfSum(a: nat, b: nat)
    ensures (a + b) % 2 == 1 <==> (a % 2 == 1) != (b % 2 == 1)
  {
  }

  lemma {:induction false} XorCommutes(a: nat, b: nat)
    ensures Xor(a, b) == Xor(b, a)
    decreases a + b
  {
    if a != 0 || b != 0 {
      XorCommutes(a / 2, b / 2);
    }
  }

  lemma {:induction false} XorAssociates(a: nat, b: nat, c: nat)
    ensures Xor(Xor(a, b), c) == Xor(a, Xor(b, c))
    decreases a + b + c
  {
    if a != 0 || b != 0 || c != 0 {
      XorAssociates(a / 2, b / 2, c / 2);
      XorStep(a, b);
      XorStep(b, c);
      var x, y := Xor(a, b), Xor(b, c);
      XorStep(x, c);
      XorStep(a, y);
      SumParity(a, b, c, x, y);
      SameHalves(Xor(x, c), Xor(a, y));
    }
  }

  lemma {:induction false} XorStep(a: nat, b: nat)
    ensures Xor(a, b) % 2 == (a + b) % 2
    ensures Xor(a, b) / 2 == Xor(a / 2, b / 2)
  {
    if a == 0 && b == 0 {
      assert Xor(0, 0) == 0;
    } else {
      Halves((a + b) % 2, Xor(a / 2, b / 2));
    }
  }

  lemma Halves(bit: nat, n: nat)
    requires bit < 2
    ensures (bit + 2 * n) % 2 == bit && (bit + 2 * n) / 2 == n
  {
  }

  lemma SameHalves(x: nat, y: nat)
    requires x % 2 == y % 2 && x / 2 == y / 2
    ensures x == y
  {
  }

  lemma SumParity(a: nat, b: nat, c: nat, x: nat, y: nat)
    requires x % 2 == (a + b) % 2 && y % 2 == (b + c) % 2
    ensures (x + c) % 2 == (a + y) % 2
  {
  }

  lemma {:induction false} XorZero(a: nat)
    ensures Xor(a, 0) == a && Xor(0, a) == a
  {
    if a != 0 {
      XorZero(a / 2);
    }
  }

  lemma {:induction false} XorSelf(a: nat)
    ensures Xor(a, a) == 0
  {
    if a != 0 {
      XorSelf(a / 2);
    }
  }

  lemma XorCancels(a: nat, b: nat)
    ensures Xor(a, Xor(a, b)) == b
    ensures Xor(Xor(b, a), a) == b
  {
    XorAssociates(a, a, b);
    XorAssociates(b, a, a);
    XorSelf(a);
    XorZero(b);
  }

  lemma XorZeroMeansEqual(a: nat, b: nat)
    ensures Xor(a, b) == 0 <==> a == b
  {
    XorSelf(a);
    if Xor(a, b) == 0 {
      XorCancels(a, b);
      XorZero(a);
    }
  }

  lemma {:induction false} XorBound(a: nat, b: nat, k: nat)
    requires a < Pow2(k) && b < Pow2(k)
    ensures Xor(a, b) < Pow2(k)
  {
    if k > 0 {
      XorBound(a / 2, b / 2, k - 1);
      XorStep(a, b);
    }
  }

  lemma SumOfParities(s: nat, t: nat, x: nat, y: nat)
    requires s % 2 == x % 2 && t % 2 == y % 2
    ensures (s + t) % 2 == (x + y) % 2
  {
  }

  /** The number with low `k` bits those of `x` and `a` above them. */
  function Join(x: nat, a: nat, k: nat): nat {
    if k == 0 then a else x % 2 + 2 * Join(x / 2, a, k - 1)
  }

  lemma {:induction false} JoinValue(x: nat, a: nat, k: nat)
    requires x < Pow2(k)
    ensures Join(x, a, k) == x + Pow2(k) * a
  {
    if k > 0 {
      JoinValue(x / 2, a, k - 1);
      MulAssociates(2, Pow2(k - 1), a);
    }
  }

  lemma {:induction false} JoinStep(x: nat, a: nat, k: nat)
    requires k > 0
    ensures Join(x, a, k) % 2 == x % 2 && Join(x, a, k) / 2 == Join(x / 2, a, k - 1)
  {
    Halves(x % 2, Join(x / 2, a, k - 1));
  }

  lemma {:induction false} XorJoin(x: nat, a: nat, y: nat, b: nat, k: nat)
    ensures Xor(Join(x, a, k), Join(y, b, k)) == Join(Xor(x, y), Xor(a, b), k)
  {
    if k > 0 {
      var s, t, z, c := Join(x, a, k), Join(y, b, k), Xor(x, y), Xor(a, b);
      JoinStep(x, a, k);
      JoinStep(y, b, k);
      JoinStep(z, c, k);
      XorJoin(x / 2, a, y / 2, b, k - 1);
      XorStep(s, t);
      XorStep(x, y);
      SumOfParities(s, t, x, y);
      SameHalves(Xor(s, t), Join(z, c, k));
    }
  }

  /** Xor works separately on the low `k` bits and on the rest. */
  lemma XorSplits(x: nat, a: nat, y: nat, b: nat, k: nat)
    requires x < Pow2(k) && y < Pow2(k)
    ensures Xor(x + Pow2(k) * a, y + Pow2(k) * b) == Xor(x, y) + Pow2(k) * Xor(a, b)
  {
    XorBound(x, y, k);
    JoinValue(x, a, k);
    JoinValue(y, b, k);
    JoinValue(Xor(x, y), Xor(a, b), k);
    XorJoin(x, a, y, b, k);
  }

  /** The same, one byte at a time. */
  lemma XorSplitsByte(x: byte, a: nat, y: byte, b: nat)
    ensures Xor(x, y) < 256
    ensures Xor(x + 256 * a, y + 256 * b) == Xor(x, y) + 256 * Xor(a, b)
  {
    assert Pow2(8) == 256;
    XorBound(x, y, 8);
    XorSplits(x, a, y, b, 8);
  }

  // Laws of Height: the xor metric is an ultrametric

  lemma {:induction false} HeightBounds(n: nat)
    requires n > 0
    ensures Pow2(HeightOf(n)) <= n < Pow2(HeightOf(n) + 1)
  {
    if n > 1 {
      HeightBounds(n / 2);
    } else {
      assert HeightOf(0) == -1;
    }
  }

  lemma {:induction false} HeightUnique(n: nat, h: nat)
    requires Pow2(h) <= n < Pow2(h + 1)
    ensures HeightOf(n) == h
  {
    if h == 0 {
      assert Pow2(1) == 2;
      assert HeightOf(0) == -1;
    } else {
      HeightUnique(n / 2, h - 1);
    }
  }

  lemma {:induction false} HeightOrders(a: nat, b: nat)
    ensures HeightOf(a) < HeightOf(b) ==> a < b
    decreases a + b
  {
    if a > 0 && b > 0 {
      HeightOrders(a / 2, b / 2);
    }
  }

  /** The height of a xor: no larger than either operand's, equal to the larger when they differ,
      and strictly smaller when two nonzero operands agree. */
  lemma {:induction false} HeightOfXor(a: nat, b: nat)
    ensures HeightOf(a) < HeightOf(b) ==> HeightOf(Xor(a, b)) == HeightOf(b)
    ensures HeightOf(b) < HeightOf(a) ==> HeightOf(Xor(a, b)) == HeightOf(a)
    ensures HeightOf(a) == HeightOf(b) && a > 0 ==> HeightOf(Xor(a, b)) < HeightOf(a)
    decreases a + b
  {
    XorZero(a);
    XorZero(b);
    if a > 0 && b > 0 {
      HeightOfXor(a / 2, b / 2);
      XorStep(a, b);
      XorZeroMeansEqual(a, b);
      XorZeroMeansEqual(a / 2, b / 2);
      if a / 2 == 0 && b / 2 == 0 {
        assert a == 1 && b == 1;
      }
    }
  }

  /** The bit at the height is set, and none above. */
  lemma {:induction false} TopBitOnly(n: nat, k: nat)
    requires k >= HeightOf(n)
    ensures Bit(n, k) <==> k == HeightOf(n)
    decreases k
  {
    if k > 0 {
      TopBitOnly(n / 2, k - 1);
    } else {
      assert HeightOf(0) == -1;
    }
  }

  /** Of two numbers of different heights, the higher one is brought below the other by a xor with `d`
      exactly when `d` has the bit at its height. */
  lemma {:induction false} XorReverses(x: nat, y: nat, d: nat)
    requires HeightOf(x) < HeightOf(y)
    ensures Xor(x, d) != Xor(y, d)
    ensures Xor(y, d) < Xor(x, d) <==> Bit(d, HeightOf(y))
    decreases y
  {
    XorStep(x, d);
    XorStep(y, d);
    if y == 1 {
      assert HeightOf(0) == -1 && x == 0;
    } else {
      XorReverses(x / 2, y / 2, d / 2);
    }
  }

  lemma {:induction false} Pow2Grows(a: nat, b: nat)
    requires a <= b
    ensures Pow2(a) <= Pow2(b)
    decreases b
  {
    if a < b {
      Pow2Grows(a, b - 1);
    }
  }

  lemma MulAssociates(x: int, y: int, z: int)
    ensures (x * y) * z == x * (y * z)
  {
  }

  lemma {:induction false} Pow2Adds(a: nat, b: nat)
    ensures Pow2(a + b) == Pow2(a) * Pow2(b)
  {
    if a > 0 {
      Pow2Adds(a - 1, b);
      MulAssociates(2, Pow2(a - 1), Pow2(b));
    }
  }

  // Laws of PopCount: the Hamming metric

  lemma {:induction false} PopCountXorTriangle(a: nat, b: nat, c: nat)
    ensures PopCount(Xor(a, c)) <= PopCount(Xor(a, b)) + PopCount(Xor(b, c))
    decreases a + b + c
  {
    if a != 0 || b != 0 || c != 0 {
      PopCountXorTriangle(a / 2, b / 2, c / 2);
      XorStep(a, b);
      XorStep(b, c);
      XorStep(a, c);
      var x, y, z := Xor(a, b), Xor(b, c), Xor(a, c);
      PopCountStep(x);
      PopCountStep(y);
      PopCountStep(z);
      ParityTriangle(a, b, c);
    } else {
      assert Xor(0, 0) == 0 && PopCount(0) == 0;
    }
  }

  lemma ParityTriangle(a: nat, b: nat, c: nat)
    ensures (a + c) % 2 <= (a + b) % 2 + (b + c) % 2
  {
  }

  lemma PopCountStep(n: nat)
    ensures PopCount(n) == n % 2 + PopCount(n / 2)
  {
  }

  lemma {:induction false} PopCountZero(n: nat)
    ensures PopCount(n) == 0 <==> n == 0
  {
    if n > 0 {
      PopCountZero(n / 2);
    }
  }

  lemma {:induction false} PopCountJoin(x: nat, a: nat, k: nat)
    requires x < Pow2(k)
    ensures PopCount(Join(x, a, k)) == PopCount(x) + PopCount(a)
  {
    if k > 0 {
      JoinStep(x, a, k);
      PopCountJoin(x / 2, a, k - 1);
      PopCountStep(Join(x, a, k));
      PopCountStep(x);
    }
  }

  lemma {:induction false} PopCountSplits(x: nat, a: nat, k: nat)
    requires x < Pow2(k)
    ensures PopCount(x + Pow2(k) * a) == PopCount(x) + PopCount(a)
  {
    PopCountJoin(x, a, k);
    JoinValue(x, a, k);
  }

  lemma {:induction false} JoinBit(x: nat, a: nat, k: nat, j: nat)
    ensures Bit(Join(x, a, k), j) <==> if j < k then Bit(x, j) else Bit(a, j - k)
    decreases k
  {
    if k > 0 {
      JoinStep(x, a, k);
      if j > 0 {
        JoinBit(x / 2, a, k - 1, j - 1);
      }
    }
  }

  /** The positions of the set bits below `w`. */
  ghost function SetBits(n: nat, w: nat): set<nat> {
    set k: nat | k < w && Bit(n, k)
  }

  lemma {:induction false} PopCountCounts(n: nat, w: nat)
    requires n < Pow2(w)
    ensures PopCount(n) == |SetBits(n, w)|
  {
    if w == 0 {
      assert SetBits(n, 0) == {};
    } else {
      var p := Pow2(w - 1);
      var b := if n < p then 0 else 1;
      var x := n - p * b;
      PopCountSplits(x, b, w - 1);
      PopCountCounts(x, w - 1);
      JoinValue(x, b, w - 1);
      forall k: nat | k < w
        ensures Bit(n, k) <==> if k < w - 1 then Bit(x, k) else b == 1
      {
        JoinBit(x, b, w - 1, k);
      }
      assert SetBits(n, w) == SetBits(x, w - 1) + if b == 1 then {w - 1} else {};
    }
  }

  /** `n & (n - 1)` clears exactly the lowest set bit. */
  lemma {:induction false} AndPredecessor(n: nat)
    requires n > 0
    ensures And(n, n - 1) < n
    ensures PopCount(And(n, n - 1)) == PopCount(n) - 1
  {
    var m := And(n, n - 1);
    assert m == 2 * And(n / 2, (n - 1) / 2);
    PopCountStep(m);
    PopCountStep(n);
    if n % 2 == 1 {
      assert (n - 1) / 2 == n / 2;
      AndSelf(n / 2);
    } else {
      assert (n - 1) / 2 == n / 2 - 1;
      AndPredecessor(n / 2);
    }
  }

  lemma {:induction false} AndSelf(n: nat)
    ensures And(n, n) == n
  {
    if n > 0 {
      AndSelf(n / 2);
    }
  }
}
