/** The CRC read bit by bit, and the errors it always catches. */
module CrcBits {
  import opened Folds
  import opened CrcSpec
  import opened CrcLaws

  type Bits = seq<bool>

  /** The bits of a byte in the order a least-significant-bit-first line carries them. */
  function BitsOfLe(b: bv8): (r: Bits)
    ensures |r| == 8
  {
    [b & 1 != 0, b & 2 != 0, b & 4 != 0, b & 8 != 0, b & 16 != 0, b & 32 != 0, b & 64 != 0, b & 128 != 0]
  }

  /** The bits of a byte, most significant first. */
  function BitsOfBe(b: bv8): (r: Bits)
    ensures |r| == 8
  {
    [b & 128 != 0, b & 64 != 0, b & 32 != 0, b & 16 != 0, b & 8 != 0, b & 4 != 0, b & 2 != 0, b & 1 != 0]
  }

  function MessageBitsLe(msg: seq<bv8>): Bits {
    Spell(BitsOfLe, msg)
  }

  function MessageBitsBe(msg: seq<bv8>): Bits {
    Spell(BitsOfBe, msg)
  }

  function BitLe(bit: bool): bv32 {
    if bit then 1 else 0
  }

  /** Merge one line bit into the remainder and divide. */
  function BitStepLe(c: bv32, bit: bool): bv32 {
    StepLe(Xor(c, BitLe(bit)))
  }

  // ---------------------------------------- up to 32 line bits as one word

  function Push(bit: bool, p: bv32): bv32 {
    Xor(BitLe(bit), p << 1)
  }

  /** The line bits as one word, the first in the low end. */
  function Pack(w: Bits): bv32 {
    Gather(Push, 0, w)
  }

  function Double(x: bv32): bv32 {
    x << 1
  }

  /** No bit of the mask is set. */
  function Clear(p: bv32, m: bv32): bool {
    p & m == 0
  }

  /** `p` uses only the low n bits. */
  function Fits(n: nat, p: bv32): bool {
    Clear(p, Iterate(Double, 0xffff_ffff, n))
  }

  lemma {:induction false} DoubleLast(x: bv32, n: nat)
    ensures Iterate(Double, x, n + 1) == Double(Iterate(Double, x, n))
  {
    IterateAdd(Double, x, n, 1);
    assert Iterate(Double, Iterate(Double, x, n), 1) == Iterate(Double, Double(Iterate(Double, x, n)), 0);
  }

  lemma DoubleMany(x: bv32)
    ensures Iterate(Double, x, 4) == x << 4
  {
    calc {
      Iterate(Double, x, 4);
      Iterate(Double, x << 1, 3);
      Iterate(Double, x << 2, 2);
      Iterate(Double, x << 3, 1);
      x << 4;
    }
  }

  lemma DoubleAll()
    ensures Iterate(Double, 0xffff_ffff, 31) == 0x8000_0000
  {
    var m: bv32 := 0xffff_ffff;
    DoubleMany(m);
    DoubleMany(0xffff_fff0);
    IterateAdd(Double, m, 4, 4);
    DoubleMany(0xffff_ff00);
    IterateAdd(Double, m, 8, 4);
    DoubleMany(0xffff_f000);
    IterateAdd(Double, m, 12, 4);
    DoubleMany(0xffff_0000);
    IterateAdd(Double, m, 16, 4);
    DoubleMany(0xfff0_0000);
    IterateAdd(Double, m, 20, 4);
    DoubleMany(0xff00_0000);
    IterateAdd(Double, m, 24, 4);
    DoubleLast(m, 28);
    DoubleLast(m, 29);
    DoubleLast(m, 30);
  }

  lemma MaskShrinks(a: bv32, b: bv32)
    requires a & b == a
    ensures (a << 1) & (b << 1) == a << 1
  {}

  lemma {:induction false} DoubleShrinks(n: nat)
    ensures Iterate(Double, 0xffff_ffff, n + 1) & Iterate(Double, 0xffff_ffff, n) == Iterate(Double, 0xffff_ffff, n + 1)
    decreases n
  {
    DoubleLast(0xffff_ffff, n);
    if n > 0 {
      DoubleShrinks(n - 1);
      DoubleLast(0xffff_ffff, n - 1);
      MaskShrinks(Iterate(Double, 0xffff_ffff, n), Iterate(Double, 0xffff_ffff, n - 1));
    }
  }

  lemma TopKept(a: bv32, b: bv32)
    requires a & b == a && a & 0x8000_0000 == 0x8000_0000
    ensures b & 0x8000_0000 == 0x8000_0000
  {}

  lemma {:induction false} DoubleTop(n: nat)
    requires n <= 31
    ensures Iterate(Double, 0xffff_ffff, n) & 0x8000_0000 == 0x8000_0000
    decreases 31 - n
  {
    if n == 31 {
      DoubleAll();
    } else {
      DoubleTop(n + 1);
      DoubleShrinks(n);
      TopKept(Iterate(Double, 0xffff_ffff, n + 1), Iterate(Double, 0xffff_ffff, n));
    }
  }

  lemma ShiftMasked(p: bv32, m: bv32)
    requires Clear(p, m)
    ensures Clear(0 ^ (p << 1), m << 1) && Clear(1 ^ (p << 1), m << 1)
  {}

  lemma PushMasked(bit: bool, p: bv32, m: bv32)
    requires Clear(p, m)
    ensures Clear(Push(bit, p), Double(m))
  {
    ShiftMasked(p, m);
    if bit {} else {}
  }

  lemma PushFits(n: nat, bit: bool, p: bv32)
    requires Fits(n, p)
    ensures Fits(n + 1, Push(bit, p))
  {
    DoubleLast(0xffff_ffff, n);
    PushMasked(bit, p, Iterate(Double, 0xffff_ffff, n));
  }

  lemma TopClear(p: bv32, m: bv32)
    requires Clear(p, m) && m & 0x8000_0000 == 0x8000_0000
    ensures p & 0x8000_0000 == 0
  {}

  lemma FitsTop(n: nat, p: bv32)
    requires n <= 31 && Fits(n, p)
    ensures p & 0x8000_0000 == 0
  {
    DoubleTop(n);
    TopClear(p, Iterate(Double, 0xffff_ffff, n));
  }

  lemma StepShifted(p: bv32)
    requires p & 0x8000_0000 == 0
    ensures StepLe(p << 1) == p
  {}

  lemma MergePush(c: bv32, bit: bool, p: bv32)
    requires p & 0x8000_0000 == 0
    ensures StepLe(Xor(c, Push(bit, p))) == Xor(BitStepLe(c, bit), p)
  {
    XorAssoc(c, BitLe(bit), p << 1);
    StepLinear(Xor(c, BitLe(bit)), p << 1);
    StepShifted(p);
  }

  /** Feeding at most 32 bits one by one is merging them all first and then dividing. */
  lemma PackSteps(c: bv32, w: Bits)
    requires |w| <= 32
    ensures Fold(BitStepLe, c, w) == StepsLe(Xor(c, Pack(w)), |w|)
  {
    forall n: nat, d, p | Fits(n, p)
      ensures Fits(n + 1, Push(d, p))
    {
      PushFits(n, d, p);
    }
    forall u
      ensures Xor(u, 0) == u
    {
      XorZero(u);
    }
    forall n: nat, u, d, p | n < 32 && Fits(n, p)
      ensures StepLe(Xor(u, Push(d, p))) == Xor(BitStepLe(u, d), p)
    {
      FitsTop(n, p);
      MergePush(u, d, p);
    }
    MergeFirst(BitStepLe, StepLe, Xor, Push, 0, Fits, 32, c, w);
  }

  lemma PushInjective(d: bool, p: bv32, d': bool, p': bv32)
    requires p & 0x8000_0000 == 0 && p' & 0x8000_0000 == 0
    requires Push(d, p) == Push(d', p')
    ensures d == d' && p == p'
  {
    PushUndone(d, p);
    PushUndone(d', p');
  }

  function Odd(u: bv32): bool {
    u & 1 == 1
  }

  function Half(u: bv32): bv32 {
    u >> 1
  }

  lemma PushUndone(d: bool, p: bv32)
    requires p & 0x8000_0000 == 0
    ensures Odd(Push(d, p)) == d && Half(Push(d, p)) == p
  {
    if d {
      SetUndone(p);
    } else {
      ClearUndone(p);
    }
  }

  lemma SetUndone(p: bv32)
    requires p & 0x8000_0000 == 0
    ensures Odd(Push(true, p)) && Half(Push(true, p)) == p
  {}

  lemma ClearUndone(p: bv32)
    requires p & 0x8000_0000 == 0
    ensures !Odd(Push(false, p)) && Half(Push(false, p)) == p
  {}

  lemma PackInjective(v: Bits, w: Bits)
    requires |v| == |w| <= 32
    requires Pack(v) == Pack(w)
    ensures v == w
  {
    forall n: nat, d, p | Fits(n, p)
      ensures Fits(n + 1, Push(d, p))
    {
      PushFits(n, d, p);
    }
    forall n: nat, d, d', p, p' | n < 32 && Fits(n, p) && Fits(n, p') && Push(d, p) == Push(d', p')
      ensures d == d' && p == p'
    {
      FitsTop(n, p);
      FitsTop(n, p');
      PushInjective(d, p, d', p');
    }
    GatherInjective(Push, 0, Fits, 32, v, w);
  }

  lemma PushHigh(b: bv8)
    ensures Push(b & 16 != 0, Push(b & 32 != 0, Push(b & 64 != 0, Push(b & 128 != 0, 0)))) == (b >> 4) as bv32
  {}

  lemma PushLow(b: bv8, p: bv32)
    requires p == (b >> 4) as bv32
    ensures Push(b & 1 != 0, Push(b & 2 != 0, Push(b & 4 != 0, Push(b & 8 != 0, p)))) == b as bv32
  {}

  lemma PushAll(b: bv8)
    ensures Push(b & 1 != 0, Push(b & 2 != 0, Push(b & 4 != 0, Push(b & 8 != 0,
              Push(b & 16 != 0, Push(b & 32 != 0, Push(b & 64 != 0, Push(b & 128 != 0, 0)))))))) == b as bv32
  {
    PushHigh(b);
    PushLow(b, (b >> 4) as bv32);
  }

  lemma ByteLeBits(c: bv32, b: bv8)
    ensures ByteLe(c, b) == Fold(BitStepLe, c, BitsOfLe(b))
  {
    var w := BitsOfLe(b);
    PackSteps(c, w);
    GatherEight(Push, 0, w);
    PushAll(b);
  }

  /** The byte-wise CRC is the bit-wise one over the bits on the line. */
  lemma CrcLeBits(seed: bv32, msg: seq<bv8>)
    ensures CrcLe(seed, msg) == Fold(BitStepLe, seed, MessageBitsLe(msg))
  {
    forall u, b
      ensures ByteLe(u, b) == Fold(BitStepLe, u, BitsOfLe(b))
    {
      ByteLeBits(u, b);
    }
    FoldSpell(ByteLe, BitStepLe, BitsOfLe, seed, msg);
  }

  // ------------------------------------------------------------ burst errors

  lemma XorLeftInjective(c: bv32, x: bv32, y: bv32)
    requires Xor(c, x) == Xor(c, y)
    ensures x == y
  {}

  lemma BitStepInjective(u: bv32, v: bv32, bit: bool)
    requires BitStepLe(u, bit) == BitStepLe(v, bit)
    ensures u == v
  {
    StepLeInjective(Xor(u, BitLe(bit)), Xor(v, BitLe(bit)));
    XorCommutes(u, BitLe(bit));
    XorCommutes(v, BitLe(bit));
    XorLeftInjective(BitLe(bit), u, v);
  }

  /** From one state, different groups of at most 32 bits lead to different states. */
  lemma WindowInjective(c: bv32, v: Bits, w: Bits)
    requires |v| == |w| <= 32
    requires Fold(BitStepLe, c, v) == Fold(BitStepLe, c, w)
    ensures v == w
  {
    PackSteps(c, v);
    PackSteps(c, w);
    StepsLeInjective(Xor(c, Pack(v)), Xor(c, Pack(w)), |v|);
    XorLeftInjective(c, Pack(v), Pack(w));
    PackInjective(v, w);
  }

  /** The two bit sequences agree outside a window of 32 consecutive bits starting at p. */
  ghost predicate AgreeOutside(v: Bits, w: Bits, p: nat) {
    && |v| == |w|
    && forall i :: 0 <= i < |v| && !(p <= i < p + 32) ==> v[i] == w[i]
  }

  lemma SameTail(seed: bv32, v: Bits, w: Bits, post: Bits)
    requires Fold(BitStepLe, seed, v + post) == Fold(BitStepLe, seed, w + post)
    ensures Fold(BitStepLe, seed, v) == Fold(BitStepLe, seed, w)
  {
    FoldSplit(BitStepLe, seed, v, post);
    FoldSplit(BitStepLe, seed, w, post);
    forall x, y, bit | BitStepLe(x, bit) == BitStepLe(y, bit)
      ensures x == y
    {
      BitStepInjective(x, y, bit);
    }
    FoldInjective(BitStepLe, Fold(BitStepLe, seed, v), Fold(BitStepLe, seed, w), post);
  }

  lemma ThreeParts(v: Bits, lo: nat, hi: nat)
    requires lo <= hi <= |v|
    ensures v == (v[..lo] + v[lo..hi]) + v[hi..]
  {}

  lemma SameOutside(v: Bits, w: Bits, p: nat, lo: nat, hi: nat)
    requires AgreeOutside(v, w, p) && lo <= p && lo <= hi <= |v| && (hi == |v| || hi >= p + 32)
    ensures v[..lo] == w[..lo] && v[hi..] == w[hi..]
  {
    assert forall i :: 0 <= i < lo ==> v[..lo][i] == w[..lo][i];
    assert forall i :: 0 <= i < |v| - hi ==> v[hi..][i] == w[hi..][i];
  }

  lemma BurstBits(seed: bv32, v: Bits, w: Bits, p: nat)
    requires AgreeOutside(v, w, p)
    requires Fold(BitStepLe, seed, v) == Fold(BitStepLe, seed, w)
    ensures v == w
  {
    var lo := if p < |v| then p else |v|;
    var hi := if p + 32 < |v| then p + 32 else |v|;
    var pre, a, b, post := v[..lo], v[lo..hi], w[lo..hi], v[hi..];
    SameOutside(v, w, p, lo, hi);
    ThreeParts(v, lo, hi);
    ThreeParts(w, lo, hi);
    SameTail(seed, pre + a, pre + b, post);
    FoldSplit(BitStepLe, seed, pre, a);
    FoldSplit(BitStepLe, seed, pre, b);
    WindowInjective(Fold(BitStepLe, seed, pre), a, b);
  }

  lemma BitsDetermineByte(a: bv8, b: bv8)
    requires BitsOfLe(a) == BitsOfLe(b)
    ensures a == b
  {
    GatherEight(Push, 0, BitsOfLe(a));
    GatherEight(Push, 0, BitsOfLe(b));
    PushAll(a);
    PushAll(b);
    Narrow(a, b);
  }

  lemma Narrow(a: bv8, b: bv8)
    requires a as bv32 == b as bv32
    ensures a == b
  {}

  lemma {:induction false} BitsDetermineMessage(a: seq<bv8>, b: seq<bv8>)
    requires |a| == |b| && MessageBitsLe(a) == MessageBitsLe(b)
    ensures a == b
    decreases |a|
  {
    if a != [] {
      var u, v := MessageBitsLe(a), MessageBitsLe(b);
      assert u[..8] == BitsOfLe(a[0]) && v[..8] == BitsOfLe(b[0]);
      assert u[8..] == MessageBitsLe(a[1..]) && v[8..] == MessageBitsLe(b[1..]);
      BitsDetermineByte(a[0], b[0]);
      BitsDetermineMessage(a[1..], b[1..]);
      assert a == [a[0]] + a[1..] && b == [b[0]] + b[1..];
    }
  }

  /**
    Messages that differ only inside 32 consecutive bits on the line never
    share a CRC, whatever the seed, the position and the common rest.
   */
  lemma BurstDetectedLe(seed: bv32, a: seq<bv8>, b: seq<bv8>, p: nat)
    requires |a| == |b| && a != b
    requires AgreeOutside(MessageBitsLe(a), MessageBitsLe(b), p)
    ensures CrcLe(seed, a) != CrcLe(seed, b)
  {
    if CrcLe(seed, a) == CrcLe(seed, b) {
      CrcLeBits(seed, a);
      CrcLeBits(seed, b);
      BurstBits(seed, MessageBitsLe(a), MessageBitsLe(b), p);
      BitsDetermineMessage(a, b);
    }
  }

  lemma BitsOfReversed(b: bv8)
    ensures BitsOfLe(Rev8(b)) == BitsOfBe(b)
  {}

  lemma {:induction false} BitsOfReversedMessage(msg: seq<bv8>)
    ensures MessageBitsLe(RevBytes(msg)) == MessageBitsBe(msg)
    decreases |msg|
  {
    if msg != [] {
      BitsOfReversed(msg[0]);
      assert RevBytes(msg)[1..] == RevBytes(msg[1..]);
      BitsOfReversedMessage(msg[1..]);
    }
  }

  lemma BurstDetectedBe(seed: bv32, a: seq<bv8>, b: seq<bv8>, p: nat)
    requires |a| == |b| && a != b
    requires AgreeOutside(MessageBitsBe(a), MessageBitsBe(b), p)
    ensures CrcBe(seed, a) != CrcBe(seed, b)
  {
    CrcDuality(seed, a);
    CrcDuality(seed, b);
    BitsOfReversedMessage(a);
    BitsOfReversedMessage(b);
    var i :| 0 <= i < |a| && a[i] != b[i];
    RevByte(a[i]);
    RevByte(b[i]);
    assert RevBytes(a)[i] != RevBytes(b)[i];
    BurstDetectedLe(Rev32(seed), RevBytes(a), RevBytes(b), p);
  }
}
