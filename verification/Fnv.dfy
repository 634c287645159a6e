/** `fnv128String`: a 128-bit hash computed in four 32-bit limbs kept in 64-bit words. */
module Fnv {
  import opened Bits
  import opened LittleEndian

  const PRIME_X: nat := 0x013B
  const P88: nat := 0x1_0000_0000_0000_0000_0000_00
  const W32: nat := 0x1_0000_0000
  const W64: nat := 0x1_0000_0000_0000_0000
  const W96: nat := 0x1_0000_0000_0000_0000_0000_0000
  const W128: nat := 0x1_0000_0000_0000_0000_0000_0000_0000_0000

  /** `temp`: four `uint64_t`. `t0` is the most significant limb. */
  datatype Limbs = Limbs(t0: nat, t1: nat, t2: nat, t3: nat)

  const BASIS := Limbs(0x6C62272E, 0x07BB0142, 0x62B82175, 0x6295C58D)

  // The program, with its 64-bit arithmetic

  /** `x << 24` in a `uint64_t`. */
  function Shift24(x: nat): nat {
    (x * 0x100_0000) % W64
  }

  /** A `char` widened to `uint64_t`; `char` is signed. */
  function Widen(c: byte): nat {
    if c < 0x80 then c else W64 - 0x100 + c
  }

  /** The loop body. */
  function Step(t: Limbs, c: byte): Limbs {
    var temp2_1, temp2_0 := Shift24(t.t3), Shift24(t.t2);
    var a3 := (PRIME_X * Xor(t.t3, Widen(c))) % W64;
    var a2 := (t.t2 * PRIME_X) % W64;
    var a1 := ((t.t1 * PRIME_X) % W64 + temp2_1) % W64;
    var a0 := ((t.t0 * PRIME_X) % W64 + temp2_0) % W64;
    var b2 := (a2 + a3 / W32) % W64;
    var b1 := (a1 + b2 / W32) % W64;
    var b0 := (a0 + b1 / W32) % W64;
    Limbs(b0, b1 % W32, b2 % W32, a3 % W32)
  }

  /** The characters that enter the hash. The loop tests one character and hashes the next, so it
      takes every second one, and stops at the first NUL at an even position. */
  function Hashed(memory: Bytes): Bytes {
    if |memory| < 2 || memory[0] == 0 then [] else [memory[1]] + Hashed(memory[2..])
  }

  function Fold(t: Limbs, cs: Bytes): Limbs
    decreases |cs|
  {
    if cs == [] then t else Fold(Step(t, cs[0]), cs[1..])
  }

  /** The output loop: the low 32 bits of each limb. */
  function Emit(t: Limbs): (out: Bytes)
    ensures |out| == 16
  {
    ToLE(t.t0, 4) + ToLE(t.t1, 4) + ToLE(t.t2, 4) + ToLE(t.t3, 4)
  }

  ghost predicate HasEvenNul(memory: Bytes) {
    exists k | 0 <= k < |memory| :: k % 2 == 0 && memory[k] == 0
  }

  /** `fnv128String` on the memory its argument points to. The source reads on until a NUL at an even
      position; for a string of odd length that lies beyond its end. */
  method Fnv128String(memory: Bytes) returns (out: Bytes)
    requires HasEvenNul(memory)
    ensures out == Emit(Fold(BASIS, Hashed(memory))) && IsHashOf(memory, out)
  {
    var temp := BASIS;
    var p := 0;
    ghost var pairs := 0;
    ghost var nul :| 0 <= nul < |memory| && nul % 2 == 0 && memory[nul] == 0;
    while memory[p] != 0
      invariant 0 <= pairs <= nul / 2 && p == 2 * pairs
      invariant Fold(temp, Hashed(memory[p..])) == Fold(BASIS, Hashed(memory))
      decreases nul / 2 - pairs
    {
      HashedNext(memory, p, temp);
      temp := Step(temp, memory[p + 1]);
      p := p + 2;
      pairs := pairs + 1;
    }
    assert Hashed(memory[p..]) == [];
    out := ToLE(temp.t0, 4) + ToLE(temp.t1, 4) + ToLE(temp.t2, 4) + ToLE(temp.t3, 4);
    ProgramHashes(memory);
  }

  lemma HashedNext(memory: Bytes, p: nat, t: Limbs)
    requires p + 1 < |memory| && memory[p] != 0
    ensures Fold(t, Hashed(memory[p..])) == Fold(Step(t, memory[p + 1]), Hashed(memory[p + 2..]))
  {
    var rest := memory[p..];
    assert rest[2..] == memory[p + 2..];
    assert Hashed(rest) == [memory[p + 1]] + Hashed(memory[p + 2..]);
    assert Hashed(rest)[1..] == Hashed(memory[p + 2..]);
  }

  // What it computes

  /** The limbs as one number of 128 bits; limb 0 counts with its low half only. */
  function Number(t: Limbs): nat {
    (t.t0 % W32) * W96 + t.t1 * W64 + t.t2 * W32 + t.t3
  }

  predicate Normal(t: Limbs) {
    t.t0 < W64 && t.t1 < W32 && t.t2 < W32 && t.t3 < W32
  }

  /** What a character flips in the lowest limb. From 0x80 on it is negative, and its sign is extended. */
  function Mask(c: byte): nat {
    if c < 0x80 then c else 0xFFFF_FF00 + c
  }

  /** What the bits above the limb, set by the sign, leave of the product in 64 bits. */
  function Excess(c: byte): nat {
    if c < 0x80 then 0 else W64 - PRIME_X * W32
  }

  /** One round on numbers: 2^88 multiplies the value before the xor. */
  function Round(v: nat, c: byte): nat {
    (PRIME_X * Xor(v, Mask(c)) + Excess(c) + P88 * v) % W128
  }

  lemma Pow2Of32()
    ensures Pow2(32) == W32
  {
    assert Pow2(8) == 256;
    Pow2Adds(8, 8);
    Pow2Adds(16, 16);
  }

  /** A character changes only the lowest limb. */
  lemma XorLowLimb(t3: nat, upper: nat, v: nat, c: nat)
    requires t3 < W32 && c < W32 && v == t3 + W32 * upper
    ensures Xor(t3, c) < W32
    ensures Xor(v, c) == Xor(t3, c) + W32 * upper
  {
    Pow2Of32();
    XorLow(t3, upper, c, W32, 32);
  }

  lemma XorLow(low: nat, upper: nat, c: nat, w: nat, k: nat)
    requires w == Pow2(k) && low < w && c < w
    ensures Xor(low, c) < w
    ensures Xor(low + w * upper, c) == Xor(low, c) + w * upper
  {
    XorBound(low, c, k);
    XorSplits(low, upper, c, 0, k);
    XorZero(upper);
    assert c + w * 0 == c;
  }

  lemma CarryBound(a: nat, k: nat)
    requires a < k * W32
    ensures a / W32 < k
  {
  }

  lemma NoWrap(x: nat)
    requires x < W64
    ensures x % W64 == x
  {
  }

  /** A widened character flips the bits of its mask, and all above the limb if it is negative. */
  lemma XorWidened(t3: nat, c: byte)
    requires t3 < W32
    ensures Xor(t3, Mask(c)) < W32
    ensures Xor(t3, Widen(c)) == Xor(t3, Mask(c)) + if c < 0x80 then 0 else W32 * (W32 - 1)
  {
    XorLowLimb(t3, 0, t3, Mask(c));
    if c >= 0x80 {
      Pow2Of32();
      XorSplits(t3, 0, Mask(c), W32 - 1, 32);
      XorZero(W32 - 1);
      assert t3 + W32 * 0 == t3 && Mask(c) + W32 * (W32 - 1) == Widen(c);
    }
  }

  lemma DropHigh(x: nat)
    requires x < W32
    ensures (PRIME_X * (x + W32 * (W32 - 1))) % W64 == PRIME_X * x + (W64 - PRIME_X * W32)
  {
    var r := PRIME_X * x + (W64 - PRIME_X * W32);
    ModUnique(PRIME_X * (x + W32 * (W32 - 1)), W64, PRIME_X - 1, r);
  }

  /** Limb 3: the product, in 64 bits. */
  lemma Limb3(t3: nat, c: byte)
    requires t3 < W32
    ensures (PRIME_X * Xor(t3, Widen(c))) % W64 == PRIME_X * Xor(t3, Mask(c)) + Excess(c)
    ensures (PRIME_X * Xor(t3, Mask(c)) + Excess(c)) / W32 < W32
  {
    XorWidened(t3, c);
    var x := Xor(t3, Mask(c));
    if c < 0x80 {
      NoWrap(PRIME_X * x);
    } else {
      DropHigh(x);
    }
    CarryBound(PRIME_X * x + Excess(c), W32);
  }

  /** Limb 2: the product and the carry fit in 64 bits. */
  lemma Limb2(t2: nat, carry: nat)
    requires t2 < W32 && carry < W32
    ensures ((t2 * PRIME_X) % W64 + carry) % W64 == PRIME_X * t2 + carry
    ensures (PRIME_X * t2 + carry) / W32 < PRIME_X + 1
  {
    NoWrap(t2 * PRIME_X);
    NoWrap(t2 * PRIME_X + carry);
    CarryBound(PRIME_X * t2 + carry, PRIME_X + 1);
  }

  /** Limb 1: the product, the shifted limb 3 and the carry fit in 64 bits. */
  lemma Limb1(t1: nat, t3: nat, carry: nat)
    requires t1 < W32 && t3 < W32 && carry < PRIME_X + 1
    ensures (((t1 * PRIME_X) % W64 + Shift24(t3)) % W64 + carry) % W64 == PRIME_X * t1 + 0x100_0000 * t3 + carry
  {
    NoWrap(t1 * PRIME_X);
    NoWrap(t3 * 0x100_0000);
    NoWrap(t1 * PRIME_X + t3 * 0x100_0000);
    NoWrap(t1 * PRIME_X + t3 * 0x100_0000 + carry);
  }

  /** Quotients and remainders of the four column sums, by 2^32. */
  datatype Columns = Columns(r3: nat, q3: nat, r2: nat, q2: nat, r1: nat, q1: nat, r0: nat, q0: nat)

  /** The column sums as the loop body takes them apart; `a3` is the product for limb 3. */
  function ColumnsOf(t: Limbs, a3: nat): Columns {
    var a2 := PRIME_X * t.t2 + a3 / W32;
    var a1 := PRIME_X * t.t1 + 0x100_0000 * t.t3 + a2 / W32;
    var a0 := PRIME_X * (t.t0 % W32) + 0x100_0000 * t.t2 + a1 / W32;
    Columns(a3 % W32, a3 / W32, a2 % W32, a2 / W32, a1 % W32, a1 / W32, a0 % W32, a0 / W32)
  }

  ghost predicate ColumnSums(t: Limbs, a3: nat, k: Columns) {
    && k.r3 < W32 && k.r2 < W32 && k.r1 < W32 && k.r0 < W32
    && a3 == k.r3 + W32 * k.q3
    && PRIME_X * t.t2 + k.q3 == k.r2 + W32 * k.q2
    && PRIME_X * t.t1 + 0x100_0000 * t.t3 + k.q2 == k.r1 + W32 * k.q1
    && PRIME_X * (t.t0 % W32) + 0x100_0000 * t.t2 + k.q1 == k.r0 + W32 * k.q0
  }

  lemma ColumnsAddUp(t: Limbs, a3: nat)
    ensures ColumnSums(t, a3, ColumnsOf(t, a3))
  {
  }

  function Product(t: Limbs, c: byte): nat {
    PRIME_X * Xor(t.t3, Mask(c)) + Excess(c)
  }

  /** The loop body computes one round of the number, carries and the unmasked limb included. */
  lemma StepIsRound(t: Limbs, c: byte)
    requires Normal(t)
    ensures Normal(Step(t, c)) && Number(Step(t, c)) == Round(Number(t), c)
  {
    var a3 := Product(t, c);
    var k := ColumnsOf(t, a3);
    ColumnsAddUp(t, a3);
    StepColumns(t, c, k);
    LimbsAreRound(t, c, Step(t, c), k);
  }

  /** Limbs that hold the remainders of the four columns hold the round. */
  lemma LimbsAreRound(t: Limbs, c: byte, s: Limbs, k: Columns)
    requires Normal(t) && ColumnSums(t, Product(t, c), k)
    requires s.t3 == k.r3 && s.t2 == k.r2 && s.t1 == k.r1
    requires s.t0 == (((t.t0 * PRIME_X) % W64 + Shift24(t.t2)) % W64 + k.q1) % W64
    ensures Normal(s) && Number(s) == Round(Number(t), c)
  {
    HighLimb(t, k.r0, k.q0, k.q1);
    ColumnsAreRound(t, c, Xor(t.t3, Mask(c)), k);
  }

  /** What the body leaves in the limbs; no reduction modulo 2^64 has any effect on the lower three. */
  lemma LowLimbs(t: Limbs, c: byte, a3: nat, a2: nat, a1: nat)
    requires Normal(t) && a3 == Product(t, c)
    requires a2 == PRIME_X * t.t2 + a3 / W32
    requires a1 == PRIME_X * t.t1 + 0x100_0000 * t.t3 + a2 / W32
    ensures Step(t, c)
            == Limbs((((t.t0 * PRIME_X) % W64 + Shift24(t.t2)) % W64 + a1 / W32) % W64, a1 % W32, a2 % W32, a3 % W32)
  {
    Limb3(t.t3, c);
    Limb2(t.t2, a3 / W32);
    Limb1(t.t1, t.t3, a2 / W32);
    StepOf(t, c, a3, a2, a1);
  }

  lemma ColumnParts(t: Limbs, a3: nat) returns (a2: nat, a1: nat)
    ensures a2 == PRIME_X * t.t2 + a3 / W32
    ensures a1 == PRIME_X * t.t1 + 0x100_0000 * t.t3 + a2 / W32
    ensures var k := ColumnsOf(t, a3);
            k.r3 == a3 % W32 && k.r2 == a2 % W32 && k.r1 == a1 % W32 && k.q1 == a1 / W32
  {
    a2 := PRIME_X * t.t2 + a3 / W32;
    a1 := PRIME_X * t.t1 + 0x100_0000 * t.t3 + a2 / W32;
  }

  lemma StepColumns(t: Limbs, c: byte, k: Columns)
    requires Normal(t) && k == ColumnsOf(t, Product(t, c))
    ensures Step(t, c) == Limbs((((t.t0 * PRIME_X) % W64 + Shift24(t.t2)) % W64 + k.q1) % W64, k.r1, k.r2, k.r3)
  {
    var a2, a1 := ColumnParts(t, Product(t, c));
    LowLimbs(t, c, Product(t, c), a2, a1);
  }

  /** The loop body, given the three sums that fit in 64 bits. */
  lemma StepOf(t: Limbs, c: byte, a3: nat, a2: nat, a1: nat)
    requires a3 == (PRIME_X * Xor(t.t3, Widen(c))) % W64
    requires a2 == ((t.t2 * PRIME_X) % W64 + a3 / W32) % W64
    requires a1 == (((t.t1 * PRIME_X) % W64 + Shift24(t.t3)) % W64 + a2 / W32) % W64
    ensures Step(t, c)
            == Limbs((((t.t0 * PRIME_X) % W64 + Shift24(t.t2)) % W64 + a1 / W32) % W64, a1 % W32, a2 % W32, a3 % W32)
  {
  }

  lemma HighLimb(t: Limbs, r0: nat, q0: nat, q1: nat)
    requires t.t2 < W32 && r0 < W32
    requires PRIME_X * (t.t0 % W32) + 0x100_0000 * t.t2 + q1 == r0 + W32 * q0
    ensures (((t.t0 * PRIME_X) % W64 + Shift24(t.t2)) % W64 + q1) % W64 % W32 == r0
  {
    NoWrap(t.t2 * 0x100_0000);
    TopLimb(t.t0, 0x100_0000 * t.t2, q1);
    ModUnique(r0 + W32 * q0, W32, q0, r0);
  }

  lemma XorNumber(t: Limbs, c: nat)
    requires Normal(t) && c < W32
    ensures Number(t) == t.t3 + W32 * (t.t2 + W32 * t.t1 + W64 * (t.t0 % W32))
    ensures Xor(Number(t), c) == Xor(t.t3, c) + W32 * (t.t2 + W32 * t.t1 + W64 * (t.t0 % W32))
  {
    XorLowLimb(t.t3, t.t2 + W32 * t.t1 + W64 * (t.t0 % W32), Number(t), c);
  }

  /** A round, with the xor done on limb 3 alone. */
  lemma RoundOf(t: Limbs, c: byte, xv: nat)
    requires Normal(t) && xv == Xor(t.t3, Mask(c)) + W32 * (t.t2 + W32 * t.t1 + W64 * (t.t0 % W32))
    ensures Round(Number(t), c) == (PRIME_X * xv + Excess(c) + P88 * Number(t)) % W128
  {
    XorNumber(t, Mask(c));
  }

  lemma ColumnsAreRound(t: Limbs, c: byte, x3: nat, k: Columns)
    requires Normal(t) && x3 == Xor(t.t3, Mask(c)) && ColumnSums(t, PRIME_X * x3 + Excess(c), k)
    ensures k.r0 * W96 + k.r1 * W64 + k.r2 * W32 + k.r3 == Round(Number(t), c)
  {
    var xv := x3 + W32 * (t.t2 + W32 * t.t1 + W64 * (t.t0 % W32));
    RoundOf(t, c, xv);
    SumOfColumns(xv, Number(t), x3, Excess(c), t, k);
  }

  lemma SumOfColumns(xv: nat, v: nat, x3: nat, more: nat, t: Limbs, k: Columns)
    requires ColumnSums(t, PRIME_X * x3 + more, k)
    requires v == t.t3 + W32 * (t.t2 + W32 * t.t1 + W64 * (t.t0 % W32))
    requires xv == x3 + W32 * (t.t2 + W32 * t.t1 + W64 * (t.t0 % W32))
    ensures k.r0 * W96 + k.r1 * W64 + k.r2 * W32 + k.r3 == (PRIME_X * xv + more + P88 * v) % W128
  {
    var r := k.r0 * W96 + k.r1 * W64 + k.r2 * W32 + k.r3;
    var q := k.q0 + 0x100_0000 * t.t1 + 0x100_0000_0000_0000 * (t.t0 % W32);
    assert PRIME_X * xv + more + P88 * v == W128 * q + r;
    ModUnique(PRIME_X * xv + more + P88 * v, W128, q, r);
  }

  /** The low half of limb 0 depends on its low half alone, whatever is reduced modulo 2^64. */
  lemma TopLimb(t0: nat, shifted: nat, carry: nat)
    requires shifted < W64
    ensures ((((t0 * PRIME_X) % W64 + shifted) % W64) + carry) % W64 % W32
            == (PRIME_X * (t0 % W32) + shifted + carry) % W32
  {
    var q := t0 / W32;
    assert t0 == t0 % W32 + W32 * q;
    var x := t0 * PRIME_X;
    var y := x % W64 + shifted;
    var z := y % W64 + carry;
    var r := z % W64;
    assert r == z - W64 * (z / W64) && y % W64 == y - W64 * (y / W64) && x % W64 == x - W64 * (x / W64);
    var k := PRIME_X * q - W32 * (x / W64) - W32 * (y / W64) - W32 * (z / W64);
    var s := PRIME_X * (t0 % W32) + shifted + carry;
    assert r == s + W32 * k;
    ModUnique(r, W32, s / W32 + k, s % W32);
  }

  /** The whole hash on numbers. */
  function FoldNumber(v: nat, cs: Bytes): nat
    decreases |cs|
  {
    if cs == [] then v else FoldNumber(Round(v, cs[0]), cs[1..])
  }

  /** On any input the limb program computes the hash of the hashed characters, round by round. */
  lemma {:induction false} FoldRefines(t: Limbs, cs: Bytes)
    requires Normal(t)
    ensures Normal(Fold(t, cs)) && Number(Fold(t, cs)) == FoldNumber(Number(t), cs)
    decreases |cs|
  {
    if cs != [] {
      StepIsRound(t, cs[0]);
      FoldRefines(Step(t, cs[0]), cs[1..]);
    }
  }

  /** The output loop lays a number out most significant limb first, each limb little-endian. */
  ghost predicate LaidOut(out: Bytes, v: nat) {
    && |out| == 16
    && Digits(out[..4], v / 0x1_0000_0000_0000_0000_0000_0000)
    && Digits(out[4..8], v / 0x1_0000_0000_0000_0000)
    && Digits(out[8..12], v / 0x1_0000_0000)
    && Digits(out[12..], v)
  }

  lemma SameLowBytes(a: nat, b: nat)
    requires a % W32 == b % W32
    ensures ToLE(a, 4) == ToLE(b, 4) && Digits(ToLE(a, 4), b)
  {
    Pow2Of32();
    FromToLE(a, 4);
    FromToLE(b, 4);
    FromLEInjective(ToLE(a, 4), ToLE(b, 4));
    DigitsOfLE(b, 4);
  }

  /** What each limb of a number is, in its low half. */
  lemma LimbsOfNumber(t: Limbs)
    requires Normal(t)
    ensures var v := Number(t);
            && t.t0 % W32 == (v / W96) % W32 && t.t1 % W32 == (v / W64) % W32
            && t.t2 % W32 == (v / W32) % W32 && t.t3 % W32 == v % W32
  {
    LimbsOf(Number(t), t.t0 % W32, t.t1, t.t2, t.t3);
  }

  lemma EmitNumber(t: Limbs)
    requires Normal(t)
    ensures LaidOut(Emit(t), Number(t))
  {
    LimbsOfNumber(t);
    EmitLimbs(t, Number(t), Number(t) / W96, Number(t) / W64, Number(t) / W32);
  }

  lemma EmitLimbs(t: Limbs, v: nat, v0: nat, v1: nat, v2: nat)
    requires v0 == v / W96 && v1 == v / W64 && v2 == v / W32
    requires t.t0 % W32 == v0 % W32 && t.t1 % W32 == v1 % W32 && t.t2 % W32 == v2 % W32 && t.t3 % W32 == v % W32
    ensures LaidOut(Emit(t), v)
  {
    SameLowBytes(t.t0, v0);
    SameLowBytes(t.t1, v1);
    SameLowBytes(t.t2, v2);
    SameLowBytes(t.t3, v);
    EmitLaidOut(t, v);
  }

  lemma EmitLaidOut(t: Limbs, v: nat)
    requires Digits(ToLE(t.t0, 4), v / W96) && Digits(ToLE(t.t1, 4), v / W64)
    requires Digits(ToLE(t.t2, 4), v / W32) && Digits(ToLE(t.t3, 4), v)
    ensures LaidOut(Emit(t), v)
  {
    EmitParts(t);
  }

  lemma EmitParts(t: Limbs)
    ensures var out := Emit(t);
            out[..4] == ToLE(t.t0, 4) && out[4..8] == ToLE(t.t1, 4) && out[8..12] == ToLE(t.t2, 4) && out[12..] == ToLE(t.t3, 4)
  {
  }

  // The hash as a run of numbers

  /** The values that the hash of `cs` goes through from `v` on: FNV-1a with the 128-bit prime, but with the
      multiplication by 2^88 ahead of the xor, and characters from 0x80 on widened with their sign. */
  ghost predicate HashRun(v: nat, vs: seq<nat>, cs: Bytes) {
    && |vs| == |cs| + 1 && vs[0] == v
    && forall i | 0 <= i < |cs| :: HashStep(vs[i], cs[i], vs[i + 1])
  }

  ghost predicate HashStep(v: nat, c: byte, v': nat) {
    var low := if c < 0x80 then 0x13B * Xor(v, c)
               else 0x13B * Xor(v, 0xFFFF_FF00 + c) + 0x1_0000_0000_0000_0000 - 0x13B * 0x1_0000_0000;
    v' == (low + 0x1_0000_0000_0000_0000_0000_00 * v) % 0x1_0000_0000_0000_0000_0000_0000_0000_0000
  }

  lemma {:induction false} FoldIsRun(v: nat, cs: Bytes) returns (vs: seq<nat>)
    ensures HashRun(v, vs, cs) && vs[|cs|] == FoldNumber(v, cs)
    decreases |cs|
  {
    if cs == [] {
      vs := [v];
    } else {
      var rest := FoldIsRun(Round(v, cs[0]), cs[1..]);
      vs := [v] + rest;
      assert HashStep(v, cs[0], rest[0]);
      forall i | 0 <= i < |cs|
        ensures HashStep(vs[i], cs[i], vs[i + 1])
      {
        if i > 0 {
          assert HashStep(rest[i - 1], cs[1..][i - 1], rest[i]);
        }
      }
    }
  }

  lemma BasisNumber()
    ensures Normal(BASIS) && Number(BASIS) == 0x6C62_272E_07BB_0142_62B8_2175_6295_C58D
  {
  }

  /** What `fnv128String` puts out for the characters `cs`: all 128 bits of the last value of the run that
      starts at the offset basis of FNV. */
  lemma HashIsRun(cs: Bytes) returns (vs: seq<nat>)
    ensures HashRun(0x6C62_272E_07BB_0142_62B8_2175_6295_C58D, vs, cs)
    ensures LaidOut(Emit(Fold(BASIS, cs)), vs[|cs|])
  {
    BasisNumber();
    FoldRefines(BASIS, cs);
    EmitNumber(Fold(BASIS, cs));
    vs := FoldIsRun(Number(BASIS), cs);
  }

  /** The first NUL at an even position of the memory. */
  ghost predicate FirstEvenNul(memory: Bytes, k: nat) {
    && 2 * k < |memory| && memory[2 * k] == 0
    && forall j | 0 <= j < k :: memory[2 * j] != 0
  }

  function OddPlaces(memory: Bytes, k: nat): Bytes
    requires 2 * k <= |memory|
  {
    seq(k, i requires 0 <= i < k => memory[2 * i + 1])
  }

  /** `out` is the hash of the characters at the odd positions before that NUL. */
  ghost predicate IsHashOf(memory: Bytes, out: Bytes) {
    exists k: nat, vs: seq<nat> | FirstEvenNul(memory, k) && |vs| == k + 1 ::
      HashRun(0x6C62_272E_07BB_0142_62B8_2175_6295_C58D, vs, OddPlaces(memory, k)) && LaidOut(out, vs[k])
  }

  lemma OddPlacesFirst(memory: Bytes, k: nat)
    requires 0 < k && 2 * k <= |memory|
    ensures OddPlaces(memory, k) == [memory[1]] + OddPlaces(memory[2..], k - 1)
  {
    var rest := memory[2..];
    assert forall i | 0 <= i < k - 1 :: OddPlaces(rest, k - 1)[i] == rest[2 * i + 1] == OddPlaces(memory, k)[i + 1];
  }

  lemma NulBehindFirst(memory: Bytes, k: nat)
    requires 0 < k && FirstEvenNul(memory, k)
    ensures memory[0] != 0 && FirstEvenNul(memory[2..], k - 1)
  {
    var rest := memory[2..];
    assert memory[2 * 0] != 0;
    assert forall j | 0 <= j < k - 1 :: rest[2 * j] == memory[2 * (j + 1)];
    assert rest[2 * (k - 1)] == memory[2 * k];
  }

  lemma {:induction false} HashedMeans(memory: Bytes, k: nat)
    requires FirstEvenNul(memory, k)
    ensures Hashed(memory) == OddPlaces(memory, k)
  {
    if k > 0 {
      NulBehindFirst(memory, k);
      HashedMeans(memory[2..], k - 1);
      OddPlacesFirst(memory, k);
    }
  }

  lemma {:induction false} FindEvenNul(memory: Bytes, m: nat) returns (k: nat)
    requires 2 * m < |memory| && memory[2 * m] == 0
    ensures FirstEvenNul(memory, k)
    decreases m
  {
    if j: nat :| j < m && memory[2 * j] == 0 {
      k := FindEvenNul(memory, j);
    } else {
      k := m;
    }
  }

  /** The program computes that hash of any memory it may be given. */
  lemma ProgramHashes(memory: Bytes)
    requires HasEvenNul(memory)
    ensures IsHashOf(memory, Emit(Fold(BASIS, Hashed(memory))))
  {
    var nul :| 0 <= nul < |memory| && nul % 2 == 0 && memory[nul] == 0;
    assert nul == 2 * (nul / 2);
    var k := FindEvenNul(memory, nul / 2);
    HashedMeans(memory, k);
    var vs := HashIsRun(OddPlaces(memory, k));
  }

  /** The number of four bytes. */
  function FourBytes(w: Bytes, o: nat): nat
    requires o + 4 <= |w|
  {
    var a: nat, b: nat, c: nat, d: nat := w[o], w[o + 1], w[o + 2], w[o + 3];
    a + 0x100 * (b + 0x100 * (c + 0x100 * d))
  }

  lemma FourDigits(n: nat, w: Bytes, o: nat)
    requires o + 4 <= |w| && n == FourBytes(w, o)
    ensures ToLE(n, 4) == w[o..o + 4]
  {
    FourOf(n, w[o], w[o + 1], w[o + 2], w[o + 3]);
  }

  lemma FourOf(n: nat, a: byte, b: byte, c: byte, d: byte)
    requires n == a + 0x100 * (b + 0x100 * (c + 0x100 * d))
    ensures ToLE(n, 4) == [a, b, c, d]
  {
    assert n / 256 == b + 0x100 * (c + 0x100 * d) && n / 256 / 256 == c + 0x100 * d && n / 256 / 256 / 256 == d;
    assert ToLE(d, 1) == [d] + ToLE(0, 0);
    assert ToLE(c + 0x100 * d, 2) == [c] + ToLE(d, 1);
  }

  lemma EmitsBytes(t: Limbs, out: Bytes)
    requires |out| == 16
    requires t == Limbs(FourBytes(out, 0), FourBytes(out, 4), FourBytes(out, 8), FourBytes(out, 12))
    ensures Emit(t) == out
  {
    FourDigits(t.t0, out, 0);
    FourDigits(t.t1, out, 4);
    FourDigits(t.t2, out, 8);
    FourDigits(t.t3, out, 12);
    assert out == out[0..4] + out[4..8] + out[8..12] + out[12..16];
  }

  /** The hash of the empty string. */
  lemma EmptyHash()
    ensures Emit(Fold(BASIS, Hashed([0])))
            == [0x2E, 0x27, 0x62, 0x6C, 0x42, 0x01, 0xBB, 0x07, 0x75, 0x21, 0xB8, 0x62, 0x8D, 0xC5, 0x95, 0x62]
  {
    EmitsBytes(BASIS, [0x2E, 0x27, 0x62, 0x6C, 0x42, 0x01, 0xBB, 0x07, 0x75, 0x21, 0xB8, 0x62, 0x8D, 0xC5, 0x95, 0x62]);
  }

  lemma LimbsOf(v: nat, top: nat, t1: nat, t2: nat, t3: nat)
    requires top < W32 && t1 < W32 && t2 < W32 && t3 < W32
    requires v == top * W96 + t1 * W64 + t2 * W32 + t3
    ensures (v / W96) % W32 == top && (v / W64) % W32 == t1 && (v / W32) % W32 == t2 && v % W32 == t3
  {
    ModUnique(v, W96, top, t1 * W64 + t2 * W32 + t3);
    ModUnique(v, W64, top * W32 + t1, t2 * W32 + t3);
    ModUnique(v, W32, top * W64 + t1 * W32 + t2, t3);
    ModUnique(top * W32 + t1, W32, top, t1);
    ModUnique(top * W64 + t1 * W32 + t2, W32, top * W32 + t1, t2);
  }

  // Strings

  function EverySecond(s: Bytes): Bytes {
    OddPlaces(s, |s| / 2)
  }

  /** For a C string of even length exactly every second character is hashed. */
  lemma EvenLengthHashesEverySecond(s: Bytes)
    requires |s| % 2 == 0 && 0 !in s
    ensures HasEvenNul(s + [0]) && Hashed(s + [0]) == EverySecond(s)
  {
    var memory, k := s + [0], |s| / 2;
    assert memory[2 * k] == 0;
    assert forall j | 0 <= j < k :: memory[2 * j] in s;
    HashedMeans(memory, k);
    assert OddPlaces(memory, k) == OddPlaces(s, k);
  }

  /** So strings of equal even length that agree at the odd positions always collide. */
  lemma EvenPositionsIgnored(s: Bytes, r: Bytes)
    requires |s| == |r| && forall i | 0 <= i < |s| && i % 2 == 1 :: s[i] == r[i]
    ensures EverySecond(s) == EverySecond(r)
  {
    forall i | 0 <= i < |s| / 2
      ensures s[2 * i + 1] == r[2 * i + 1]
    {
      assert (2 * i + 1) % 2 == 1;
    }
  }

  // Against FNV-1a

  /** One round of FNV-1a with the 128-bit prime 2^88 + 0x13B: xor first, then multiply. */
  function Fnv1aRound(v: nat, c: byte): nat {
    ((P88 + PRIME_X) * Xor(v, c)) % W128
  }

  lemma XorChangesLowByte(v: nat, c: byte)
    ensures -256 < Xor(v, c) - v < 256
  {
    var lo, hi := v % 256, v / 256;
    XorSplitsByte(lo, hi, c, 0);
    XorZero(hi);
  }

  lemma XorChangesUnlessNul(v: nat, c: byte)
    ensures Xor(v, c) == v <==> c == 0
  {
    XorZero(v);
    XorCancels(v, c);
    XorSelf(v);
  }

  /** The program shifts the limbs before the xor, so its round agrees with FNV-1a only on NUL. */
  lemma AgreesWithFnv1aOnlyOnNul(v: nat, c: byte)
    requires v < W128
    ensures Round(v, c) == Fnv1aRound(v, c) <==> c == 0
  {
    XorChangesLowByte(v, c);
    XorChangesUnlessNul(v, c);
    if Round(v, c) == Fnv1aRound(v, c) {
      XorChangesLowLimb(v, Mask(c));
      SameMultiple(Xor(v, Mask(c)), Xor(v, c), v, Excess(c));
    }
  }

  lemma XorChangesLowLimb(v: nat, mask: nat)
    requires mask < W32
    ensures v - W32 < Xor(v, mask) < v + W32
  {
    XorLowLimb(v % W32, v / W32, v, mask);
  }

  /** 2^88 times a difference of less than 2^40 is close to a multiple of 2^128 only if it is zero. */
  lemma SameMultiple(masked: nat, x: nat, v: nat, excess: nat)
    requires v - 256 < x < v + 256 && v - W32 < masked < v + W32
    requires excess == 0 || excess == W64 - PRIME_X * W32
    requires (PRIME_X * masked + excess + P88 * v) % W128 == ((P88 + PRIME_X) * x) % W128
    ensures x == v && excess == 0
  {
    var a, b := PRIME_X * masked + excess + P88 * v, (P88 + PRIME_X) * x;
    var k := b / W128 - a / W128;
    assert b - a == W128 * k;
    var m := x - v - 0x100_0000_0000 * k;
    assert P88 * m == PRIME_X * (masked - x) + excess;
    assert P88 * m < P88 && P88 * m + P88 > 0;
    SmallMultiple(m);
    assert x - v == 0x100_0000_0000 * k;
  }

  lemma SmallMultiple(m: int)
    requires P88 * m < P88 && P88 * m + P88 > 0
    ensures m == 0
  {
  }
}
