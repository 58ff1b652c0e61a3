/** The programs of lib/crc32.c, which divide most significant bit first and reflect data and remainder. */
module Crc32Barr {
  import opened Folds
  import opened CrcSpec
  import opened CrcLaws
  import opened CrcBits
  import opened CrcDivision
  import opened Crc32Old

  // ---------------------------------------------------------------- reflect

  function Or(x: bv32, y: bv32): bv32 {
    x | y
  }

  function OneAt(k: nat): bv32
    requires k < 32
  {
    (1 as bv32) << k
  }

  /** The low m bits of d in the opposite order: moved to the top, then reversed as part of the whole word. */
  function Mirror(d: bv32, m: nat): bv32
    requires m <= 32
  {
    Rev32(Iterate(Double, d, 32 - m))
  }

  lemma OrAssoc(x: bv32, y: bv32, z: bv32)
    ensures Or(Or(x, y), z) == Or(x, Or(y, z))
  {}

  lemma OrZero(x: bv32)
    ensures Or(x, 0) == x && Or(0, x) == x
  {}

  lemma DoubleOr(x: bv32, y: bv32)
    ensures Double(Or(x, y)) == Or(Double(x), Double(y))
  {}

  lemma DoublesOr(x: bv32, y: bv32, k: nat)
    ensures Iterate(Double, Or(x, y), k) == Or(Iterate(Double, x, k), Iterate(Double, y, k))
  {
    forall u, v
      ensures Double(Or(u, v)) == Or(Double(u), Double(v))
    {
      DoubleOr(u, v);
    }
    IterateLinear(Double, Or, x, y, k);
  }

  lemma {:induction false} DoublesZero(k: nat)
    ensures Iterate(Double, 0, k) == 0
    decreases k
  {
    if k > 0 {
      DoublesZero(k - 1);
    }
  }

  lemma OneAtNext(k: nat)
    requires k < 31
    ensures OneAt(k + 1) == OneAt(k) << 1
  {
    var j := k as bv6;
    assert (k + 1) as bv6 == j + 1;
  }

  lemma OneAtBack(k: nat)
    requires k < 31
    ensures OneAt(k + 1) >> 1 == OneAt(k)
  {
    var j := k as bv6;
    assert (k + 1) as bv6 == j + 1;
  }

  lemma {:induction false} DoublesOne(k: nat)
    requires k < 32
    ensures Iterate(Double, 1, k) == OneAt(k)
    decreases k
  {
    if k > 0 {
      DoublesOne(k - 1);
      DoubleLast(1, k - 1);
      OneAtNext(k - 1);
    }
  }

  lemma {:induction false} RevOneAt(k: nat)
    requires k < 32
    ensures Rev32(OneAt(k)) == OneAt(31 - k)
    decreases k
  {
    if k == 0 {
      RevOne();
    } else {
      RevOneAt(k - 1);
      OneAtNext(k - 1);
      RevShift(OneAt(k - 1));
      OneAtBack(31 - k);
    }
  }

  lemma RevOne()
    ensures Rev32(OneAt(0)) == OneAt(31)
  {}

  lemma RevOr(x: bv32, y: bv32)
    ensures Rev32(Or(x, y)) == Or(Rev32(x), Rev32(y))
  {}

  lemma LowestApart(d: bv32)
    ensures d == Or(d & 1, (d >> 1) << 1)
  {}

  /** Reflecting m bits puts the lowest one on top and reflects the rest below it. */
  lemma MirrorLowest(d: bv32, m: nat)
    requires 1 <= m <= 32
    ensures d & 1 == 1 ==> Mirror(d, m) == Or(OneAt(m - 1), Mirror(d >> 1, m - 1))
    ensures d & 1 != 1 ==> Mirror(d, m) == Mirror(d >> 1, m - 1)
  {
    var k := 32 - m;
    var low, rest := Iterate(Double, d & 1, k), Iterate(Double, d >> 1, k + 1);
    LowestApart(d);
    DoublesOr(d & 1, (d >> 1) << 1, k);
    assert Iterate(Double, (d >> 1) << 1, k) == rest;
    RevOr(low, rest);
    LowBit(d);
    DoublesOne(k);
    DoublesZero(k);
    RevOneAt(k);
    RevPoly();
    OrZero(Rev32(rest));
  }

  lemma {:induction false} DoublesAway(x: bv32)
    ensures Mirror(x, 0) == 0
  {
    Drained(x);
    RevPoly();
  }

  /** reflect: the low nBits of the data in the opposite order, for any width up to 32. */
  method Reflect(input: bv32, nBits: nat) returns (reflection: bv32)
    requires nBits <= 32
    ensures reflection == Mirror(input, nBits)
  {
    reflection := 0;
    var data := input;
    var bit := 0;
    OrZero(Mirror(input, nBits));
    while bit < nBits
      invariant 0 <= bit <= nBits
      invariant Or(reflection, Mirror(data, nBits - bit)) == Mirror(input, nBits)
    {
      MirrorLowest(data, nBits - bit);
      if data & 1 == 1 {
        OrAssoc(reflection, OneAt(nBits - bit - 1), Mirror(data >> 1, nBits - bit - 1));
        reflection := Or(reflection, OneAt((nBits - 1) - bit));
      }
      data := data >> 1;
      bit := bit + 1;
    }
    DoublesAway(data);
    OrZero(reflection);
  }

  lemma MirrorWhole(x: bv32)
    ensures Mirror(x, 32) == Rev32(x)
  {}

  lemma MirrorByte(b: bv8)
    ensures Mirror(b as bv32, 8) == Rev8(b) as bv32
  {
    var x := b as bv32;
    IterateAdd(Double, x, 8, 16);
    DoubleEight(x, x << 8);
    IterateAdd(Double, x << 8, 8, 8);
    DoubleEight(x << 8, x << 16);
    DoubleEight(x << 16, x << 24);
    RevByte(b);
  }

  // ---------------------------------------------------------------- programs

  lemma StepBeTop(x: bv32)
    ensures x & 0x8000_0000 != 0 ==> StepBe(x) == (x << 1) ^ 0x04c11db7
    ensures x & 0x8000_0000 == 0 ==> StepBe(x) == x << 1
  {}

  /** The inner loop of crcInit and crcSlow: modulo-2 division, a bit at a time. */
  method DivideByte(dividend: bv32) returns (remainder: bv32)
    ensures remainder == StepsBe(dividend, 8)
  {
    remainder := dividend;
    var bit := 8;
    while bit > 0
      invariant 0 <= bit <= 8
      invariant Iterate(StepBe, remainder, bit) == StepsBe(dividend, 8)
    {
      StepBeTop(remainder);
      if remainder & 0x8000_0000 != 0 {
        remainder := (remainder << 1) ^ 0x04c11db7;
      } else {
        remainder := remainder << 1;
      }
      bit := bit - 1;
    }
  }

  /** crcSlow with the CRC-32 parameters of lib/include/lib_crc.h. */
  method CrcSlow(message: seq<bv8>) returns (r: bv32)
    ensures r == CrcLe(0xffff_ffff, message)
  {
    var remainder: bv32 := 0xffff_ffff;
    var byte := 0;
    ghost var reflected := RevBytes(message);
    while byte < |message|
      invariant 0 <= byte <= |message|
      invariant Fold(ByteBe, remainder, reflected[byte..]) == CrcBe(0xffff_ffff, reflected)
    {
      var data := ReflectData(message[byte]);
      FoldNext(ByteBe, remainder, reflected, byte);
      remainder := DivideByte(Xor(remainder, (data as bv32) << 24));
      byte := byte + 1;
    }
    assert reflected[byte..] == [];
    r := Reflect(remainder, 32);
    MirrorWhole(remainder);
    ReflectedRun(message);
    r := Xor(r, 0);
    XorZero(CrcLe(0xffff_ffff, message));
  }

  method ReflectData(b: bv8) returns (r: bv8)
    ensures r == Rev8(b)
  {
    var x := Reflect(b as bv32, 8);
    MirrorByte(b);
    NarrowByte(Rev8(b));
    r := (x & 0xff) as bv8;
  }

  lemma NarrowByte(b: bv8)
    ensures ((b as bv32) & 0xff) as bv8 == b
  {}

  /** Dividing reflected bytes from all ones and reflecting the remainder is the reflected CRC from all ones. */
  lemma ReflectedRun(message: seq<bv8>)
    ensures Rev32(CrcBe(0xffff_ffff, RevBytes(message))) == CrcLe(0xffff_ffff, message)
  {
    CrcDuality(0xffff_ffff, RevBytes(message));
    RevPoly();
    forall i | 0 <= i < |message|
      ensures RevBytes(RevBytes(message))[i] == message[i]
    {
      RevByte(message[i]);
    }
    assert RevBytes(RevBytes(message)) == message;
  }

  lemma FastStep(entry: bv32, remainder: bv32, data: bv8, index: bv8)
    requires index == data ^ ((remainder >> 24) as bv8)
    requires entry == StepsBe((index as bv32) << 24, 8)
    ensures Xor(entry, remainder << 8) == ByteBe(remainder, data)
  {
    FastIndex(remainder, data);
    TableStepBe8(Xor(remainder, (data as bv32) << 24));
  }

  lemma FastIndex(remainder: bv32, data: bv8)
    ensures ((data ^ ((remainder >> 24) as bv8)) as bv32) << 24 == (Xor(remainder, (data as bv32) << 24) >> 24) << 24
    ensures Xor(remainder, (data as bv32) << 24) << 8 == remainder << 8
  {}

  /** The state of lib/crc32.c: the table that crcInit fills and crcFast reads. */
  class Barr {
    const crcTable: array<bv32>

    ghost predicate Ready()
      reads crcTable
    {
      && crcTable.Length == 256
      && forall v: bv8 :: crcTable[Idx(v)] == StepsBe((v as bv32) << 24, 8)
    }

    constructor ()
      ensures crcTable.Length == 256 && fresh(crcTable)
    {
      crcTable := new bv32[256];
    }

    method CrcInit()
      requires crcTable.Length == 256
      modifies crcTable
      ensures Ready()
    {
      var dividend := 0;
      while dividend < 256
        invariant 0 <= dividend <= 256
        invariant forall v: bv8 :: Idx(v) < dividend ==> crcTable[Idx(v)] == StepsBe((v as bv32) << 24, 8)
      {
        var remainder := DivideByte(((dividend as bv8) as bv32) << 24);
        forall v: bv8 | Idx(v) == dividend
          ensures v == dividend as bv8
        {
          IndexIs(v, dividend);
        }
        crcTable[dividend] := remainder;
        dividend := dividend + 1;
      }
    }

    /** crcFast: correct once crcInit has run. */
    method CrcFast(message: seq<bv8>) returns (r: bv32)
      requires Ready()
      ensures r == CrcLe(0xffff_ffff, message)
    {
      var remainder: bv32 := 0xffff_ffff;
      var byte := 0;
      ghost var reflected := RevBytes(message);
      while byte < |message|
        invariant 0 <= byte <= |message|
        invariant Fold(ByteBe, remainder, reflected[byte..]) == CrcBe(0xffff_ffff, reflected)
      {
        var d := ReflectData(message[byte]);
        var data := d ^ ((remainder >> 24) as bv8);
        FoldNext(ByteBe, remainder, reflected, byte);
        FastStep(crcTable[Idx(data)], remainder, d, data);
        remainder := Xor(crcTable[Idx(data)], remainder << 8);
        byte := byte + 1;
      }
      assert reflected[byte..] == [];
      r := Reflect(remainder, 32);
      MirrorWhole(remainder);
      ReflectedRun(message);
      r := Xor(r, 0);
      XorZero(CrcLe(0xffff_ffff, message));
    }
  }
}
