/**
  The CRC-32 of section 3.2.9 of IEEE 802.3, one bit at a time.

  `CrcLe` and `CrcBe` fix what every program of the CRC family has to compute.
 */
module CrcSpec {
  import opened Folds

  /** One division step, least significant bit first. */
  function StepLe(c: bv32): bv32 {
    (c >> 1) ^ (if c & 1 == 1 then 0xedb88320 else 0)
  }

  /** One division step, most significant bit first. */
  function StepBe(c: bv32): bv32 {
    (c << 1) ^ (if c & 0x8000_0000 != 0 then 0x04c11db7 else 0)
  }

  function StepsLe(c: bv32, n: nat): bv32 {
    Iterate(StepLe, c, n)
  }

  function StepsBe(c: bv32, n: nat): bv32 {
    Iterate(StepBe, c, n)
  }

  function Xor(x: bv32, y: bv32): bv32 {
    x ^ y
  }

  function Xor8(x: bv8, y: bv8): bv8 {
    x ^ y
  }

  function ByteLe(c: bv32, b: bv8): bv32 {
    StepsLe(Xor(c, b as bv32), 8)
  }

  function ByteBe(c: bv32, b: bv8): bv32 {
    StepsBe(Xor(c, (b as bv32) << 24), 8)
  }

  function CrcLe(seed: bv32, msg: seq<bv8>): bv32 {
    Fold(ByteLe, seed, msg)
  }

  function CrcBe(seed: bv32, msg: seq<bv8>): bv32 {
    Fold(ByteBe, seed, msg)
  }

  // ---------------------------------------------------------------- one step

  lemma XorZero(c: bv32)
    ensures Xor(c, 0) == c
  {}

  lemma XorAssoc(a: bv32, b: bv32, c: bv32)
    ensures Xor(Xor(a, b), c) == Xor(a, Xor(b, c))
  {}

  lemma XorCommutes(a: bv32, b: bv32)
    ensures Xor(a, b) == Xor(b, a)
  {}

  lemma LowBit(x: bv32)
    ensures x & 1 == 0 || x & 1 == 1
  {}

  lemma XorLow(x: bv32, y: bv32)
    ensures (x ^ y) & 1 == (x & 1) ^ (y & 1)
    ensures (x ^ y) >> 1 == (x >> 1) ^ (y >> 1)
  {}

  lemma XorSwap(a: bv32, b: bv32, p: bv32)
    ensures (a ^ p) ^ (b ^ p) == a ^ b
    ensures (a ^ p) ^ b == (a ^ b) ^ p
    ensures a ^ (b ^ p) == (a ^ b) ^ p
  {}

  lemma StepLeLinear(x: bv32, y: bv32)
    ensures StepLe(x ^ y) == StepLe(x) ^ StepLe(y)
  {
    LowBit(x);
    LowBit(y);
    XorLow(x, y);
    XorSwap(x >> 1, y >> 1, 0xedb88320);
    if x & 1 == 1 {
      if y & 1 == 1 {} else {}
    } else {
      if y & 1 == 1 {} else {}
    }
  }

  /** A division step loses nothing: it is a bijection on 32-bit states. */
  lemma StepLeInjective(x: bv32, y: bv32)
    requires StepLe(x) == StepLe(y)
    ensures x == y
  {}

  lemma StepLinear(x: bv32, y: bv32)
    ensures StepLe(Xor(x, y)) == Xor(StepLe(x), StepLe(y))
  {
    var z := x ^ y;
    assert Xor(x, y) == z;
    StepLeLinear(x, y);
  }

  lemma StepsLeLinear(x: bv32, y: bv32, n: nat)
    ensures StepsLe(Xor(x, y), n) == Xor(StepsLe(x, n), StepsLe(y, n))
  {
    forall u, v
      ensures StepLe(Xor(u, v)) == Xor(StepLe(u), StepLe(v))
    {
      StepLinear(u, v);
    }
    IterateLinear(StepLe, Xor, x, y, n);
  }

  lemma StepsLeInjective(x: bv32, y: bv32, n: nat)
    requires StepsLe(x, n) == StepsLe(y, n)
    ensures x == y
  {
    forall u, v | StepLe(u) == StepLe(v)
      ensures u == v
    {
      StepLeInjective(u, v);
    }
    IterateInjective(StepLe, x, y, n);
  }

  // ---------------------------------------------------------------- tables

  lemma ShiftClear2(x: bv32)
    requires x & 3 == 0
    ensures StepsLe(x, 2) == x >> 2
  {
    calc { Iterate(StepLe, x, 2); Iterate(StepLe, x >> 1, 1); x >> 2; }
  }

  lemma ShiftClear4(x: bv32)
    requires x & 15 == 0
    ensures StepsLe(x, 4) == x >> 4
  {
    calc {
      Iterate(StepLe, x, 4);
      Iterate(StepLe, x >> 1, 3);
      Iterate(StepLe, x >> 2, 2);
      Iterate(StepLe, x >> 3, 1);
      x >> 4;
    }
  }

  lemma ShiftClear8(x: bv32)
    requires x & 255 == 0
    ensures StepsLe(x, 8) == x >> 8
  {
    LowNibblesClear(x);
    ShiftClear4(x);
    ShiftClear4(x >> 4);
    IterateAdd(StepLe, x, 4, 4);
  }

  lemma LowNibblesClear(x: bv32)
    requires x & 255 == 0
    ensures x & 15 == 0 && (x >> 4) & 15 == 0 && (x >> 4) >> 4 == x >> 8
  {}

  lemma SplitLow(x: bv32)
    ensures x == Xor(x & 255, x & 0xffff_ff00) && (x & 0xffff_ff00) & 255 == 0 && (x & 0xffff_ff00) >> 8 == x >> 8
    ensures x == Xor(x & 15, x & 0xffff_fff0) && (x & 0xffff_fff0) & 15 == 0 && (x & 0xffff_fff0) >> 4 == x >> 4
    ensures x == Xor(x & 3, x & 0xffff_fffc) && (x & 0xffff_fffc) & 3 == 0 && (x & 0xffff_fffc) >> 2 == x >> 2
  {}

  /** Why a table works: the steps on the low byte and the shift of the rest do not interfere. */
  lemma TableStepLe8(x: bv32)
    ensures StepsLe(x, 8) == Xor(StepsLe(x & 255, 8), x >> 8)
  {
    SplitLow(x);
    ShiftClear8(x & 0xffff_ff00);
    StepsLeLinear(x & 255, x & 0xffff_ff00, 8);
  }

  lemma TableStepLe4(x: bv32)
    ensures StepsLe(x, 4) == Xor(StepsLe(x & 15, 4), x >> 4)
  {
    SplitLow(x);
    ShiftClear4(x & 0xffff_fff0);
    StepsLeLinear(x & 15, x & 0xffff_fff0, 4);
  }

  lemma TableStepLe2(x: bv32)
    ensures StepsLe(x, 2) == Xor(StepsLe(x & 3, 2), x >> 2)
  {
    SplitLow(x);
    ShiftClear2(x & 0xffff_fffc);
    StepsLeLinear(x & 3, x & 0xffff_fffc, 2);
  }

  // ------------------------------------------------------------- bit reversal

  /** The 32 bits of `x` in the opposite order. */
  function Rev32(x: bv32): bv32 {
    var a := ((x >> 1) & 0x5555_5555) | ((x & 0x5555_5555) << 1);
    var b := ((a >> 2) & 0x3333_3333) | ((a & 0x3333_3333) << 2);
    var c := ((b >> 4) & 0x0f0f_0f0f) | ((b & 0x0f0f_0f0f) << 4);
    var d := ((c >> 8) & 0x00ff_00ff) | ((c & 0x00ff_00ff) << 8);
    (d >> 16) | (d << 16)
  }

  /** The 8 bits of `x` in the opposite order. */
  function Rev8(x: bv8): bv8 {
    var a := ((x >> 1) & 0x55) | ((x & 0x55) << 1);
    var b := ((a >> 2) & 0x33) | ((a & 0x33) << 2);
    (b >> 4) | (b << 4)
  }

  lemma RevShift(x: bv32)
    ensures Rev32(x << 1) == Rev32(x) >> 1
  {}

  lemma RevXor(x: bv32, y: bv32)
    ensures Rev32(Xor(x, y)) == Xor(Rev32(x), Rev32(y))
  {}

  lemma RevPoly()
    ensures Rev32(0x04c11db7) == 0xedb88320 && Rev32(0) == 0 && Rev32(0xffff_ffff) == 0xffff_ffff
  {}

  lemma RevTop(x: bv32)
    ensures (x & 0x8000_0000 != 0) <==> (Rev32(x) & 1 == 1)
  {}

  lemma RevInvolution(x: bv32)
    ensures Rev32(Rev32(x)) == x
  {}

  lemma RevByte(b: bv8)
    ensures Rev32((b as bv32) << 24) == Rev8(b) as bv32
    ensures Rev8(Rev8(b)) == b
  {}

  lemma StepDualOne(x: bv32)
    requires x & 0x8000_0000 != 0
    ensures Rev32(StepBe(x)) == StepLe(Rev32(x))
  {
    RevPoly();
    RevTop(x);
    RevXor(x << 1, 0x04c11db7);
    RevShift(x);
  }

  lemma StepDualZero(x: bv32)
    requires x & 0x8000_0000 == 0
    ensures Rev32(StepBe(x)) == StepLe(Rev32(x))
  {
    RevTop(x);
    LowBit(Rev32(x));
    RevShift(x);
  }

  lemma StepDual(x: bv32)
    ensures Rev32(StepBe(x)) == StepLe(Rev32(x))
  {
    if x & 0x8000_0000 != 0 {
      StepDualOne(x);
    } else {
      StepDualZero(x);
    }
  }

  lemma StepsDual(x: bv32, n: nat)
    ensures Rev32(StepsBe(x, n)) == StepsLe(Rev32(x), n)
  {
    forall u
      ensures Rev32(StepBe(u)) == StepLe(Rev32(u))
    {
      StepDual(u);
    }
    IterateSimulation(StepBe, StepLe, Rev32, x, n);
  }

  lemma ByteDual(c: bv32, b: bv8)
    ensures Rev32(ByteBe(c, b)) == ByteLe(Rev32(c), Rev8(b))
  {
    StepsDual(Xor(c, (b as bv32) << 24), 8);
    RevXor(c, (b as bv32) << 24);
    RevByte(b);
  }

  // ------------------------------------------------------- big-endian tables

  lemma RevInjective(x: bv32, y: bv32)
    requires Rev32(x) == Rev32(y)
    ensures x == y
  {
    RevInvolution(x);
    RevInvolution(y);
  }

  lemma RevHigh8(x: bv32)
    ensures Rev32(x) & 255 == Rev32((x >> 24) << 24)
  {}

  lemma RevRest8(x: bv32)
    ensures Rev32(x) >> 8 == Rev32(x << 8)
  {}

  lemma RevHigh4(x: bv32)
    ensures Rev32(x) & 15 == Rev32((x >> 28) << 28)
  {}

  lemma RevRest4(x: bv32)
    ensures Rev32(x) >> 4 == Rev32(x << 4)
  {}

  lemma RevHigh2(x: bv32)
    ensures Rev32(x) & 3 == Rev32((x >> 30) << 30)
  {}

  lemma RevRest2(x: bv32)
    ensures Rev32(x) >> 2 == Rev32(x << 2)
  {}

  lemma TableStepBe8(x: bv32)
    ensures StepsBe(x, 8) == Xor(StepsBe((x >> 24) << 24, 8), x << 8)
  {
    RevHigh8(x);
    RevRest8(x);
    TableStepLe8(Rev32(x));
    TableStepBe(x, (x >> 24) << 24, x << 8, 8);
  }

  lemma TableStepBe4(x: bv32)
    ensures StepsBe(x, 4) == Xor(StepsBe((x >> 28) << 28, 4), x << 4)
  {
    RevHigh4(x);
    RevRest4(x);
    TableStepLe4(Rev32(x));
    TableStepBe(x, (x >> 28) << 28, x << 4, 4);
  }

  lemma TableStepBe2(x: bv32)
    ensures StepsBe(x, 2) == Xor(StepsBe((x >> 30) << 30, 2), x << 2)
  {
    RevHigh2(x);
    RevRest2(x);
    TableStepLe2(Rev32(x));
    TableStepBe(x, (x >> 30) << 30, x << 2, 2);
  }

  lemma TableStepBe(x: bv32, high: bv32, rest: bv32, n: nat)
    requires StepsLe(Rev32(x), n) == Xor(StepsLe(Rev32(high), n), Rev32(rest))
    ensures StepsBe(x, n) == Xor(StepsBe(high, n), rest)
  {
    StepsDual(x, n);
    StepsDual(high, n);
    RevXor(StepsBe(high, n), rest);
    RevInjective(StepsBe(x, n), Xor(StepsBe(high, n), rest));
  }
}
