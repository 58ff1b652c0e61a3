/** The programs of lib/crc32_old.c: one bit, two bits, four bits, one byte and one word at a time. */
module Crc32Old {
  import opened Folds
  import opened CrcSpec

  function Idx(v: bv8): (i: nat)
    ensures i < 256
  {
    v as int
  }

  lemma IndexIs(v: bv8, i: nat)
    requires i < 256 && Idx(v) == i
    ensures v == i as bv8
  {}

  /** Entry v of a k-bit little-endian table is the remainder after k steps from v. */
  ghost predicate TableLe(tab: seq<bv32>, k: nat) {
    forall v: bv8 :: Idx(v) < |tab| ==> tab[Idx(v)] == StepsLe(v as bv32, k)
  }

  /** The digit v in the top k bits of a word. */
  function Top(v: bv8, k: nat): bv32 {
    if k == 8 then (v as bv32) << 24 else if k == 4 then (v as bv32) << 28 else (v as bv32) << 30
  }

  /** Entry v of a k-bit big-endian table is the remainder after k steps from v in the top bits. */
  ghost predicate TableBe(tab: seq<bv32>, k: nat) {
    forall v: bv8 :: Idx(v) < |tab| ==> tab[Idx(v)] == StepsBe(Top(v, k), k)
  }

  // ------------------------------------------------------------ bit at a time

  method Crc32LeBit(seed: bv32, p: seq<bv8>) returns (crc: bv32)
    ensures crc == CrcLe(seed, p)
  {
    crc := seed;
    var i, len := 0, |p|;
    while len != 0
      invariant 0 <= i && 0 <= len && i + len == |p|
      invariant CrcLe(crc, p[i..]) == CrcLe(seed, p)
    {
      len := len - 1;
      ghost var c := crc;
      assert p[i..][1..] == p[i + 1..];
      crc := crc ^ (p[i] as bv32);
      i := i + 1;
      var j := 0;
      while j < 8
        invariant 0 <= j <= 8
        invariant StepsLe(crc, 8 - j) == ByteLe(c, p[i - 1])
      {
        crc := (crc >> 1) ^ (if crc & 1 == 1 then 0xedb88320 else 0);
        j := j + 1;
      }
    }
  }

  method Crc32BeBit(seed: bv32, p: seq<bv8>) returns (crc: bv32)
    ensures crc == CrcBe(seed, p)
  {
    crc := seed;
    var i, len := 0, |p|;
    while len != 0
      invariant 0 <= i && 0 <= len && i + len == |p|
      invariant CrcBe(crc, p[i..]) == CrcBe(seed, p)
    {
      len := len - 1;
      ghost var c := crc;
      assert p[i..][1..] == p[i + 1..];
      crc := crc ^ ((p[i] as bv32) << 24);
      i := i + 1;
      var j := 0;
      while j < 8
        invariant 0 <= j <= 8
        invariant StepsBe(crc, 8 - j) == ByteBe(c, p[i - 1])
      {
        crc := (crc << 1) ^ (if crc & 0x8000_0000 != 0 then 0x04c11db7 else 0);
        j := j + 1;
      }
    }
  }

  // ----------------------------------------------- four and two bits at a time

  lemma SmallIndex(v: bv8)
    ensures v < 16 ==> Idx(v) < 16
    ensures v < 4 ==> Idx(v) < 4
  {}

  lemma LowNibble(c: bv32)
    ensures (c & 15) as bv8 < 16 && ((c & 15) as bv8) as bv32 == c & 15
    ensures (c & 3) as bv8 < 4 && ((c & 3) as bv8) as bv32 == c & 3
    ensures ((c & 255) as bv8) as bv32 == c & 255
  {}

  lemma HighNibble(c: bv32)
    ensures (c >> 28) as bv8 < 16 && Top((c >> 28) as bv8, 4) == (c >> 28) << 28
    ensures (c >> 30) as bv8 < 4 && Top((c >> 30) as bv8, 2) == (c >> 30) << 30
    ensures Top((c >> 24) as bv8, 8) == (c >> 24) << 24
  {}

  lemma NibbleLe(tab: seq<bv32>, c: bv32)
    requires |tab| == 16 && TableLe(tab, 4)
    ensures Idx((c & 15) as bv8) < 16
    ensures Xor(c >> 4, tab[Idx((c & 15) as bv8)]) == StepsLe(c, 4)
  {
    LowNibble(c);
    SmallIndex((c & 15) as bv8);
    TableStepLe4(c);
    XorCommutes(StepsLe(c & 15, 4), c >> 4);
  }

  lemma PairLe(tab: seq<bv32>, c: bv32)
    requires |tab| == 4 && TableLe(tab, 2)
    ensures Idx((c & 3) as bv8) < 4
    ensures Xor(c >> 2, tab[Idx((c & 3) as bv8)]) == StepsLe(c, 2)
  {
    LowNibble(c);
    SmallIndex((c & 3) as bv8);
    TableStepLe2(c);
    XorCommutes(StepsLe(c & 3, 2), c >> 2);
  }

  lemma NibbleBe(tab: seq<bv32>, c: bv32)
    requires |tab| == 16 && TableBe(tab, 4)
    ensures Idx((c >> 28) as bv8) < 16
    ensures Xor(c << 4, tab[Idx((c >> 28) as bv8)]) == StepsBe(c, 4)
  {
    HighNibble(c);
    SmallIndex((c >> 28) as bv8);
    TableStepBe4(c);
    XorCommutes(StepsBe((c >> 28) << 28, 4), c << 4);
  }

  lemma PairBe(tab: seq<bv32>, c: bv32)
    requires |tab| == 4 && TableBe(tab, 2)
    ensures Idx((c >> 30) as bv8) < 4
    ensures Xor(c << 2, tab[Idx((c >> 30) as bv8)]) == StepsBe(c, 2)
  {
    HighNibble(c);
    SmallIndex((c >> 30) as bv8);
    TableStepBe2(c);
    XorCommutes(StepsBe((c >> 30) << 30, 2), c << 2);
  }

  /** The table steps of one byte. */
  method NibblesLe(tab: seq<bv32>, c: bv32) returns (r: bv32)
    requires |tab| == 16 && TableLe(tab, 4)
    ensures r == StepsLe(c, 8)
  {
    IterateAdd(StepLe, c, 4, 4);
    r := c;
    NibbleLe(tab, r);
    r := Xor(r >> 4, tab[Idx((r & 15) as bv8)]);
    NibbleLe(tab, r);
    r := Xor(r >> 4, tab[Idx((r & 15) as bv8)]);
  }

  method Crc32LeNibble(tab: seq<bv32>, seed: bv32, p: seq<bv8>) returns (crc: bv32)
    requires |tab| == 16 && TableLe(tab, 4)
    ensures crc == CrcLe(seed, p)
  {
    crc := seed;
    var i, len := 0, |p|;
    while len != 0
      invariant 0 <= i && 0 <= len && i + len == |p|
      invariant CrcLe(crc, p[i..]) == CrcLe(seed, p)
    {
      len := len - 1;
      assert p[i..][1..] == p[i + 1..];
      crc := Xor(crc, p[i] as bv32);
      i := i + 1;
      crc := NibblesLe(tab, crc);
    }
  }

  /** The table steps of one byte. */
  method PairsLe(tab: seq<bv32>, c: bv32) returns (r: bv32)
    requires |tab| == 4 && TableLe(tab, 2)
    ensures r == StepsLe(c, 8)
  {
    FourPairs(StepLe, c);
    r := c;
    PairLe(tab, r);
    r := Xor(r >> 2, tab[Idx((r & 3) as bv8)]);
    PairLe(tab, r);
    r := Xor(r >> 2, tab[Idx((r & 3) as bv8)]);
    PairLe(tab, r);
    r := Xor(r >> 2, tab[Idx((r & 3) as bv8)]);
    PairLe(tab, r);
    r := Xor(r >> 2, tab[Idx((r & 3) as bv8)]);
  }

  method Crc32LePair(tab: seq<bv32>, seed: bv32, p: seq<bv8>) returns (crc: bv32)
    requires |tab| == 4 && TableLe(tab, 2)
    ensures crc == CrcLe(seed, p)
  {
    crc := seed;
    var i, len := 0, |p|;
    while len != 0
      invariant 0 <= i && 0 <= len && i + len == |p|
      invariant CrcLe(crc, p[i..]) == CrcLe(seed, p)
    {
      len := len - 1;
      assert p[i..][1..] == p[i + 1..];
      crc := Xor(crc, p[i] as bv32);
      i := i + 1;
      crc := PairsLe(tab, crc);
    }
  }

  lemma FourPairs(f: bv32 -> bv32, c: bv32)
    ensures Iterate(f, c, 8) == Iterate(f, Iterate(f, Iterate(f, Iterate(f, c, 2), 2), 2), 2)
  {
    IterateAdd(f, c, 2, 2);
    IterateAdd(f, c, 4, 2);
    IterateAdd(f, c, 6, 2);
  }

  /** The table steps of one byte. */
  method NibblesBe(tab: seq<bv32>, c: bv32) returns (r: bv32)
    requires |tab| == 16 && TableBe(tab, 4)
    ensures r == StepsBe(c, 8)
  {
    IterateAdd(StepBe, c, 4, 4);
    r := c;
    NibbleBe(tab, r);
    r := Xor(r << 4, tab[Idx((r >> 28) as bv8)]);
    NibbleBe(tab, r);
    r := Xor(r << 4, tab[Idx((r >> 28) as bv8)]);
  }

  method Crc32BeNibble(tab: seq<bv32>, seed: bv32, p: seq<bv8>) returns (crc: bv32)
    requires |tab| == 16 && TableBe(tab, 4)
    ensures crc == CrcBe(seed, p)
  {
    crc := seed;
    var i, len := 0, |p|;
    while len != 0
      invariant 0 <= i && 0 <= len && i + len == |p|
      invariant CrcBe(crc, p[i..]) == CrcBe(seed, p)
    {
      len := len - 1;
      assert p[i..][1..] == p[i + 1..];
      crc := Xor(crc, (p[i] as bv32) << 24);
      i := i + 1;
      crc := NibblesBe(tab, crc);
    }
  }

  /** The table steps of one byte. */
  method PairsBe(tab: seq<bv32>, c: bv32) returns (r: bv32)
    requires |tab| == 4 && TableBe(tab, 2)
    ensures r == StepsBe(c, 8)
  {
    FourPairs(StepBe, c);
    r := c;
    PairBe(tab, r);
    r := Xor(r << 2, tab[Idx((r >> 30) as bv8)]);
    PairBe(tab, r);
    r := Xor(r << 2, tab[Idx((r >> 30) as bv8)]);
    PairBe(tab, r);
    r := Xor(r << 2, tab[Idx((r >> 30) as bv8)]);
    PairBe(tab, r);
    r := Xor(r << 2, tab[Idx((r >> 30) as bv8)]);
  }

  method Crc32BePair(tab: seq<bv32>, seed: bv32, p: seq<bv8>) returns (crc: bv32)
    requires |tab| == 4 && TableBe(tab, 2)
    ensures crc == CrcBe(seed, p)
  {
    crc := seed;
    var i, len := 0, |p|;
    while len != 0
      invariant 0 <= i && 0 <= len && i + len == |p|
      invariant CrcBe(crc, p[i..]) == CrcBe(seed, p)
    {
      len := len - 1;
      assert p[i..][1..] == p[i + 1..];
      crc := Xor(crc, (p[i] as bv32) << 24);
      i := i + 1;
      crc := PairsBe(tab, crc);
    }
  }
}
