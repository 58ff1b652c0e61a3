/**
  The laws of CRC-32, for every seed and every message. The repository's unit
  test samples the first four of them on random buffers of at most 64 bytes.
 */
module CrcLaws {
  import opened Folds
  import opened CrcSpec

  function XorBytes(a: seq<bv8>, b: seq<bv8>): seq<bv8>
    requires |a| == |b|
  {
    Zip(Xor8, a, b)
  }

  function RevBytes(msg: seq<bv8>): seq<bv8> {
    Map(Rev8, msg)
  }

  function LowByte(x: bv32): bv8 {
    (x & 0xff) as bv8
  }

  function TopByte(x: bv32): bv8 {
    (x >> 24) as bv8
  }

  function DropLow(x: bv32): bv32 {
    x >> 8
  }

  function DropTop(x: bv32): bv32 {
    x << 8
  }

  /** The four bytes of a word, least significant first. */
  function StoreLe(x: bv32): seq<bv8> {
    Emit(LowByte, DropLow, x, 4)
  }

  /** The four bytes of a word, most significant first. */
  function StoreBe(x: bv32): seq<bv8> {
    Emit(TopByte, DropTop, x, 4)
  }

  // ------------------------------------------------------------ homomorphism

  /** A CRC can be continued: the result for the first part is the seed for the second. */
  lemma CrcSplit(seed: bv32, a: seq<bv8>, b: seq<bv8>)
    ensures CrcLe(seed, a + b) == CrcLe(CrcLe(seed, a), b)
    ensures CrcBe(seed, a + b) == CrcBe(CrcBe(seed, a), b)
  {
    FoldSplit(ByteLe, seed, a, b);
    FoldSplit(ByteBe, seed, a, b);
  }

  lemma ByteLeLinear(x: bv32, y: bv32, a: bv8, b: bv8)
    ensures ByteLe(Xor(x, y), Xor8(a, b)) == Xor(ByteLe(x, a), ByteLe(y, b))
  {
    XorWiden(a, b);
    XorFour(x, y, a as bv32, b as bv32);
    StepsLeLinear(Xor(x, a as bv32), Xor(y, b as bv32), 8);
  }

  lemma CrcLeXor(s1: bv32, s2: bv32, a: seq<bv8>, b: seq<bv8>)
    requires |a| == |b|
    ensures CrcLe(Xor(s1, s2), XorBytes(a, b)) == Xor(CrcLe(s1, a), CrcLe(s2, b))
  {
    forall u, v, c, d
      ensures ByteLe(Xor(u, v), Xor8(c, d)) == Xor(ByteLe(u, c), ByteLe(v, d))
    {
      ByteLeLinear(u, v, c, d);
    }
    FoldLinear(ByteLe, Xor, Xor8, s1, s2, a, b);
  }

  // ----------------------------------------------------------------- duality

  /** Reversing the bits of the seed and of every byte turns one CRC into the reversal of the other. */
  lemma CrcDuality(seed: bv32, msg: seq<bv8>)
    ensures Rev32(CrcBe(seed, msg)) == CrcLe(Rev32(seed), RevBytes(msg))
  {
    forall u, b
      ensures Rev32(ByteBe(u, b)) == ByteLe(Rev32(u), Rev8(b))
    {
      ByteDual(u, b);
    }
    FoldSimulation(ByteBe, ByteLe, Rev32, Rev8, seed, msg);
  }

  /** The same law read from the little-endian side, as the unit test checks it. */
  lemma CrcDualityLe(seed: bv32, msg: seq<bv8>)
    ensures CrcLe(Rev32(seed), RevBytes(msg)) == Rev32(CrcBe(seed, msg))
    ensures CrcBe(seed, msg) == Rev32(CrcLe(Rev32(seed), RevBytes(msg)))
  {
    CrcDuality(seed, msg);
    RevInvolution(CrcBe(seed, msg));
  }

  lemma Rev8Xor(a: bv8, b: bv8)
    ensures Rev8(Xor8(a, b)) == Xor8(Rev8(a), Rev8(b))
  {}

  lemma RevBytesXor(a: seq<bv8>, b: seq<bv8>)
    requires |a| == |b|
    ensures RevBytes(XorBytes(a, b)) == XorBytes(RevBytes(a), RevBytes(b))
  {
    forall i | 0 <= i < |a|
      ensures RevBytes(XorBytes(a, b))[i] == XorBytes(RevBytes(a), RevBytes(b))[i]
    {
      Rev8Xor(a[i], b[i]);
    }
  }

  lemma CrcBeXor(s1: bv32, s2: bv32, a: seq<bv8>, b: seq<bv8>)
    requires |a| == |b|
    ensures CrcBe(Xor(s1, s2), XorBytes(a, b)) == Xor(CrcBe(s1, a), CrcBe(s2, b))
  {
    var c, d := CrcBe(s1, a), CrcBe(s2, b);
    calc {
      CrcBe(Xor(s1, s2), XorBytes(a, b));
      { CrcDualityLe(Xor(s1, s2), XorBytes(a, b)); }
      Rev32(CrcLe(Rev32(Xor(s1, s2)), RevBytes(XorBytes(a, b))));
      { RevXor(s1, s2); RevBytesXor(a, b); }
      Rev32(CrcLe(Xor(Rev32(s1), Rev32(s2)), XorBytes(RevBytes(a), RevBytes(b))));
      { CrcLeXor(Rev32(s1), Rev32(s2), RevBytes(a), RevBytes(b)); CrcDuality(s1, a); CrcDuality(s2, b); }
      Rev32(Xor(Rev32(c), Rev32(d)));
      { RevXor(c, d); RevInvolution(Xor(c, d)); }
      Xor(c, d);
    }
  }

  // ------------------------------------------------------------ cancellation

  lemma StoredLeCancels(c: bv32)
    ensures CrcLe(c, StoreLe(c)) == 0
  {
    forall u
      ensures ByteLe(u, LowByte(u)) == DropLow(u)
    {
      ByteLeCancels(u);
    }
    FoldEmit(ByteLe, LowByte, DropLow, c, 4);
    DropAllLow(c);
  }

  lemma StoredBeCancels(c: bv32)
    ensures CrcBe(c, StoreBe(c)) == 0
  {
    CrcDualityLe(c, StoreBe(c));
    EmitDual(c, 4);
    StoredLeCancels(Rev32(c));
    RevPoly();
  }

  /** Appending the CRC in its own byte order makes the CRC of the whole zero. */
  lemma CrcCancellation(seed: bv32, msg: seq<bv8>)
    ensures CrcLe(seed, msg + StoreLe(CrcLe(seed, msg))) == 0
    ensures CrcBe(seed, msg + StoreBe(CrcBe(seed, msg))) == 0
  {
    CrcSplit(seed, msg, StoreLe(CrcLe(seed, msg)));
    StoredLeCancels(CrcLe(seed, msg));
    CrcSplit(seed, msg, StoreBe(CrcBe(seed, msg)));
    StoredBeCancels(CrcBe(seed, msg));
  }

  // ------------------------------------------ facts about words and bytes

  lemma XorWiden(a: bv8, b: bv8)
    ensures Xor8(a, b) as bv32 == Xor(a as bv32, b as bv32)
  {}

  lemma XorFour(x: bv32, y: bv32, a: bv32, b: bv32)
    ensures Xor(Xor(x, y), Xor(a, b)) == Xor(Xor(x, a), Xor(y, b))
  {
    calc {
      Xor(Xor(x, y), Xor(a, b));
      { XorAssoc(x, y, Xor(a, b)); XorAssoc(y, a, b); XorCommutes(y, a); XorAssoc(a, y, b); }
      Xor(x, Xor(a, Xor(y, b)));
      { XorAssoc(x, a, Xor(y, b)); }
      Xor(Xor(x, a), Xor(y, b));
    }
  }

  lemma LowByteCancels(c: bv32)
    ensures Xor(c, ((c & 0xff) as bv8) as bv32) & 255 == 0
    ensures Xor(c, ((c & 0xff) as bv8) as bv32) >> 8 == c >> 8
  {}

  lemma ByteLeCancels(c: bv32)
    ensures ByteLe(c, (c & 0xff) as bv8) == c >> 8
  {
    LowByteCancels(c);
    ShiftClear8(Xor(c, ((c & 0xff) as bv8) as bv32));
  }

  lemma DropAllLow(c: bv32)
    ensures Iterate(DropLow, c, 4) == 0
  {
    calc {
      Iterate(DropLow, c, 4);
      Iterate(DropLow, c >> 8, 3);
      Iterate(DropLow, c >> 16, 2);
      Iterate(DropLow, c >> 24, 1);
      0;
    }
  }

  lemma TopIsLowReversed(c: bv32)
    ensures Rev8((c >> 24) as bv8) == (Rev32(c) & 0xff) as bv8
  {}

  lemma DropDual(c: bv32)
    ensures Rev32(c << 8) == Rev32(c) >> 8
  {}

  lemma {:induction false} EmitDual(c: bv32, n: nat)
    ensures RevBytes(Emit(TopByte, DropTop, c, n)) == Emit(LowByte, DropLow, Rev32(c), n)
    decreases n
  {
    if n > 0 {
      TopIsLowReversed(c);
      DropDual(c);
      EmitDual(DropTop(c), n - 1);
    }
  }
}
