/** In what sense the CRC is the remainder of dividing the message by the CRC polynomial. */
module CrcDivision {
  import opened Folds
  import opened CrcSpec
  import opened CrcLaws
  import opened CrcBits

  function Differ(x: bool, y: bool): bool {
    x != y
  }

  /** Subtraction of polynomials with coefficients modulo 2, highest power first. */
  function XorBits(a: Bits, b: Bits): (r: Bits)
    requires |a| == |b|
    ensures |r| == |a|
    ensures forall i :: 0 <= i < |a| ==> (r[i] <==> a[i] != b[i])
  {
    Zip(Differ, a, b)
  }

  function Zeros(n: nat): (r: Bits)
    ensures |r| == n && forall i :: 0 <= i < n ==> !r[i]
  {
    seq(n, _ => false)
  }

  function TopBit(x: bv32): bool {
    x & 0x8000_0000 != 0
  }

  /** The coefficients of a word, highest power first. */
  function WordBits(x: bv32): (r: Bits)
    ensures |r| == 32
  {
    EmitLength(TopBit, Double, x, 32);
    Emit(TopBit, Double, x, 32)
  }

  /** A generator polynomial of degree 32. */
  type Generator = g: Bits | |g| == 33 && g[0] witness [true] + seq(32, _ => false)

  /** x^32+x^26+x^23+x^22+x^16+x^12+x^11+x^10+x^8+x^7+x^5+x^4+x^2+x+1 */
  function Divisor(): Generator {
    [true] + WordBits(0x04c11db7)
  }

  /** What one quotient coefficient contributes in front of n lower ones. */
  function Leading(g: Generator, bit: bool, n: nat): (r: Bits)
    ensures |r| == n + 33
  {
    if bit then g + Zeros(n) else Zeros(n + 33)
  }

  /** The schoolbook product of a quotient and a generator. */
  function Product(g: Generator, q: Bits): (r: Bits)
    ensures |r| == |q| + 32
    decreases |q|
  {
    if q == [] then Zeros(32)
    else XorBits(Leading(g, q[0], |q| - 1), [false] + Product(g, q[1..]))
  }

  /** The message followed by 32 zeros, with the seed added to its first 32 coefficients. */
  function Dividend(seed: Bits, m: Bits): (r: Bits)
    requires |seed| == 32
    ensures |r| == |m| + 32
  {
    XorBits(seed + Zeros(|m|), m + Zeros(32))
  }

  function BitBe(bit: bool): bv32 {
    if bit then 0x8000_0000 else 0
  }

  function BitStepBe(c: bv32, bit: bool): bv32 {
    StepBe(Xor(c, BitBe(bit)))
  }

  // ----------------------------------------------------- one division step

  lemma TopBitXor(x: bv32, y: bv32)
    ensures TopBit(Xor(x, y)) == Differ(TopBit(x), TopBit(y))
  {
    TopBitsAdd(x, y);
  }

  lemma TopBitsAdd(x: bv32, y: bv32)
    ensures ((x ^ y) & 0x8000_0000 != 0) == ((x & 0x8000_0000 != 0) != (y & 0x8000_0000 != 0))
  {}

  lemma DoubleXor(x: bv32, y: bv32)
    ensures Double(Xor(x, y)) == Xor(Double(x), Double(y))
  {
    ShiftsAdd(x, y);
  }

  lemma ShiftsAdd(x: bv32, y: bv32)
    ensures (x ^ y) << 1 == (x << 1) ^ (y << 1)
  {}

  lemma WordBitsXor(x: bv32, y: bv32)
    ensures WordBits(Xor(x, y)) == XorBits(WordBits(x), WordBits(y))
  {
    forall u, v
      ensures TopBit(Xor(u, v)) == Differ(TopBit(u), TopBit(v))
    {
      TopBitXor(u, v);
    }
    forall u, v
      ensures Double(Xor(u, v)) == Xor(Double(u), Double(v))
    {
      DoubleXor(u, v);
    }
    EmitLinear(TopBit, Double, Xor, Differ, x, y, 32);
  }

  lemma DoubleEight(x: bv32, y: bv32)
    requires y == x << 8
    ensures Iterate(Double, x, 8) == y
  {
    calc {
      Iterate(Double, x, 8);
      Iterate(Double, x << 1, 7);
      Iterate(Double, x << 2, 6);
      Iterate(Double, x << 3, 5);
      Iterate(Double, x << 4, 4);
      { DoubleMany(x << 4); }
      y;
    }
  }

  lemma DoubleChain(x: bv32, m: nat, y: bv32, n: nat, z: bv32)
    requires Iterate(Double, x, m) == y && Iterate(Double, y, n) == z
    ensures Iterate(Double, x, m + n) == z
  {
    IterateAdd(Double, x, m, n);
  }

  lemma ShiftedOut(x: bv32)
    ensures (x << 8) << 8 == x << 16 && (x << 16) << 8 == x << 24 && (x << 24) << 8 == 0
  {}

  lemma Drained(x: bv32)
    ensures Iterate(Double, x, 32) == 0
  {
    ShiftedOut(x);
    DrainedBy(x, x << 8, x << 16, x << 24);
  }

  lemma DrainedBy(x: bv32, y1: bv32, y2: bv32, y3: bv32)
    requires y1 == x << 8 && y2 == y1 << 8 && y3 == y2 << 8 && y3 << 8 == 0
    ensures Iterate(Double, x, 32) == 0
  {
    DoubleEight(x, y1);
    DoubleEight(y1, y2);
    DoubleEight(y2, y3);
    DoubleEight(y3, 0);
    DoubleChain(x, 8, y1, 8, y2);
    DoubleChain(x, 16, y2, 8, y3);
    DoubleChain(x, 24, y3, 8, 0);
  }

  lemma WordBitsShift(x: bv32)
    ensures WordBits(x)[0] == TopBit(x)
    ensures WordBits(Double(x)) == WordBits(x)[1..] + [false]
  {
    assert WordBits(x)[1..] == Emit(TopBit, Double, Double(x), 31);
    EmitLast(TopBit, Double, Double(x), 31);
    assert Iterate(Double, x, 32) == Iterate(Double, Double(x), 31);
    Drained(x);
  }

  lemma {:induction false} ZeroBits(n: nat)
    ensures Emit(TopBit, Double, 0, n) == Zeros(n)
    decreases n
  {
    if n > 0 {
      ZeroBits(n - 1);
    }
  }

  lemma TopOnly()
    ensures WordBits(0x8000_0000) == [true] + Zeros(31)
  {
    ZeroBits(31);
  }

  lemma BitBits(bit: bool)
    ensures WordBits(BitBe(bit)) == [bit] + Zeros(31)
  {
    if bit {
      TopOnly();
    } else {
      ZeroBits(32);
    }
  }

  lemma StepBeOne(x: bv32)
    requires TopBit(x)
    ensures StepBe(x) == Xor(Double(x), 0x04c11db7)
  {}

  lemma StepBeZero(x: bv32)
    requires !TopBit(x)
    ensures StepBe(x) == Double(x)
  {
    XorZero(x << 1);
  }

  lemma StepBeBits(x: bv32)
    ensures WordBits(StepBe(x))
         == XorBits(WordBits(x)[1..] + [false], if WordBits(x)[0] then WordBits(0x04c11db7) else Zeros(32))
  {
    WordBitsShift(x);
    if TopBit(x) {
      StepBeOne(x);
      WordBitsXor(Double(x), 0x04c11db7);
    } else {
      StepBeZero(x);
    }
  }

  lemma DividendAt(w: Bits, m: Bits, i: nat)
    requires |w| == 32 && i < |m| + 32
    ensures Dividend(w, m)[i] == ((w + Zeros(|m|))[i] != (m + Zeros(32))[i])
  {}

  /** What the divisor contributes to a division step. */
  function Subtrahend(top: bool, poly: Bits, n: nat): (r: Bits)
    requires |poly| == 32
    ensures |r| == n + 33 && r[0] == top
    ensures forall i :: 0 <= i < n + 32 ==> r[i + 1] == (top && (poly + Zeros(n))[i])
  {
    if top then ([true] + poly) + Zeros(n) else Zeros(n + 33)
  }

  /** The coefficients of one division step, given those of the remainders before and after it. */
  lemma DivideOnceBits(w: Bits, x: Bits, next: Bits, poly: Bits, b: bool, m: Bits)
    requires |w| == |x| == |next| == |poly| == 32
    requires x == XorBits(w, [b] + Zeros(31))
    requires next == XorBits(x[1..] + [false], if x[0] then poly else Zeros(32))
    ensures Dividend(w, [b] + m)[0] == x[0]
    ensures Dividend(w, [b] + m) == XorBits(Subtrahend(x[0], poly, |m|), [false] + Dividend(next, m))
  {
    DividendAt(w, [b] + m, 0);
    forall i | 0 <= i < |m| + 32
      ensures Dividend(w, [b] + m)[i + 1] == (Subtrahend(x[0], poly, |m|)[i + 1] != Dividend(next, m)[i])
    {
      DividendAt(w, [b] + m, i + 1);
      DividendAt(next, m, i);
      DivideOnceAt(w, x, next, poly, b, m, i);
    }
    SameFromNext(Dividend(w, [b] + m), Subtrahend(x[0], poly, |m|), Dividend(next, m));
  }

  lemma SameFromNext(d: Bits, s: Bits, e: Bits)
    requires |d| == |s| == |e| + 1 && d[0] == s[0]
    requires forall i :: 0 <= i < |e| ==> d[i + 1] == (s[i + 1] != e[i])
    ensures d == XorBits(s, [false] + e)
  {
    var r := XorBits(s, [false] + e);
    forall i | 0 <= i < |d|
      ensures d[i] == r[i]
    {
      if i > 0 {
        assert d[(i - 1) + 1] == (s[(i - 1) + 1] != e[i - 1]);
      }
    }
  }

  lemma DivideOnceAt(w: Bits, x: Bits, next: Bits, poly: Bits, b: bool, m: Bits, i: nat)
    requires |w| == |x| == |next| == |poly| == 32 && i < |m| + 32
    requires x == XorBits(w, [b] + Zeros(31))
    requires next == XorBits(x[1..] + [false], if x[0] then poly else Zeros(32))
    ensures (w + Zeros(|m| + 1))[i + 1] != (([b] + m) + Zeros(32))[i + 1]
        <==> (x[0] && (poly + Zeros(|m|))[i]) != ((next + Zeros(|m|))[i] != (m + Zeros(32))[i])
  {
    if i < 31 {
      assert next[i] == (x[i + 1] != (x[0] && poly[i]));
      assert x[i + 1] == w[i + 1];
    } else if i == 31 {
      assert next[31] == (x[0] && poly[31]);
    } else {
    }
  }

  /** The same for a generator with these lower coefficients and a message with a first bit. */
  lemma DivideOnceBy(g: Generator, w: Bits, x: Bits, next: Bits, poly: Bits, m: Bits)
    requires |w| == |x| == |next| == |poly| == 32 && m != [] && g == [true] + poly
    requires x == XorBits(w, [m[0]] + Zeros(31))
    requires next == XorBits(x[1..] + [false], if x[0] then poly else Zeros(32))
    ensures Dividend(w, m) == XorBits(Leading(g, Dividend(w, m)[0], |m| - 1), [false] + Dividend(next, m[1..]))
  {
    assert [m[0]] + m[1..] == m;
    DivideOnceBits(w, x, next, poly, m[0], m[1..]);
  }

  /** Subtracting the divisor once, when the leading coefficient asks for it. */
  lemma DivideOnce(c: bv32, m: Bits)
    requires m != []
    ensures var d := Dividend(WordBits(c), m);
            d == XorBits(Leading(Divisor(), d[0], |m| - 1), [false] + Dividend(WordBits(BitStepBe(c, m[0])), m[1..]))
  {
    StepCoefficients(c, m[0]);
    DivideOnceBy(Divisor(), WordBits(c), WordBits(Xor(c, BitBe(m[0]))), WordBits(BitStepBe(c, m[0])), WordBits(0x04c11db7), m);
  }

  lemma StepCoefficients(c: bv32, b: bool)
    ensures WordBits(Xor(c, BitBe(b))) == XorBits(WordBits(c), [b] + Zeros(31))
    ensures var x := WordBits(Xor(c, BitBe(b)));
            WordBits(BitStepBe(c, b)) == XorBits(x[1..] + [false], if x[0] then WordBits(0x04c11db7) else Zeros(32))
  {
    WordBitsXor(c, BitBe(b));
    BitBits(b);
    StepBeBits(Xor(c, BitBe(b)));
  }

  // -------------------------------------------------------- the whole run

  /** The quotient the division builds. */
  function Quotient(c: bv32, m: Bits): (q: Bits)
    ensures |q| == |m|
    decreases |m|
  {
    if m == [] then [] else [Dividend(WordBits(c), m)[0]] + Quotient(BitStepBe(c, m[0]), m[1..])
  }

  lemma Regroup(x: Bits, p: Bits, w: Bits, n: nat)
    requires |w| == 32 && |p| == n + 32 && |x| == n + 33
    ensures XorBits(x, [false] + XorBits(p, Zeros(n) + w)) == XorBits(XorBits(x, [false] + p), Zeros(n + 1) + w)
  {
    var l, r := XorBits(x, [false] + XorBits(p, Zeros(n) + w)), XorBits(XorBits(x, [false] + p), Zeros(n + 1) + w);
    forall i | 0 <= i < n + 33
      ensures l[i] == r[i]
    {
    }
  }

  lemma {:induction false} Divide(c: bv32, m: Bits)
    ensures Dividend(WordBits(c), m) == XorBits(Product(Divisor(), Quotient(c, m)), Zeros(|m|) + WordBits(Fold(BitStepBe, c, m)))
    decreases |m|
  {
    if m != [] {
      var c' := BitStepBe(c, m[0]);
      DivideOnce(c, m);
      Divide(c', m[1..]);
      DivideMore(Divisor(), Dividend(WordBits(c), m), Quotient(c', m[1..]), Dividend(WordBits(c'), m[1..]),
                 WordBits(Fold(BitStepBe, c', m[1..])));
    }
  }

  lemma DivideMore(g: Generator, d: Bits, q: Bits, d': Bits, w: Bits)
    requires |w| == 32 && |d'| == |q| + 32 && |d| == |q| + 33
    requires d == XorBits(Leading(g, d[0], |q|), [false] + d')
    requires d' == XorBits(Product(g, q), Zeros(|q|) + w)
    ensures d == XorBits(Product(g, [d[0]] + q), Zeros(|q| + 1) + w)
  {
    assert ([d[0]] + q)[1..] == q;
    Regroup(Leading(g, d[0], |q|), Product(g, q), w, |q|);
  }

  /** Products that share their leading coefficients come from one quotient. */
  lemma {:induction false} ProductInjective(g: Generator, p: Bits, q: Bits)
    requires |p| == |q|
    requires forall i :: 0 <= i < |p| ==> Product(g, p)[i] == Product(g, q)[i]
    ensures p == q
    decreases |p|
  {
    if p != [] {
      ProductFirst(g, p);
      ProductFirst(g, q);
      forall i | 0 <= i < |p| - 1
        ensures Product(g, p[1..])[i] == Product(g, q[1..])[i]
      {
        assert Product(g, p)[i + 1] == Product(g, q)[i + 1];
        TailAgrees(g, p, q, i);
      }
      ProductInjective(g, p[1..], q[1..]);
    }
  }

  lemma TailAgrees(g: Generator, p: Bits, q: Bits, i: nat)
    requires |p| == |q| && p != [] && p[0] == q[0] && i + 1 < |p|
    requires Product(g, p)[i + 1] == Product(g, q)[i + 1]
    ensures Product(g, p[1..])[i] == Product(g, q[1..])[i]
  {
    ProductNext(g, p, i);
    ProductNext(g, q, i);
  }

  lemma ProductNext(g: Generator, q: Bits, i: nat)
    requires q != [] && i < |q| + 31
    ensures Product(g, q)[i + 1] == (Leading(g, q[0], |q| - 1)[i + 1] != Product(g, q[1..])[i])
  {
    assert ([false] + Product(g, q[1..]))[i + 1] == Product(g, q[1..])[i];
  }

  lemma ProductFirst(g: Generator, q: Bits)
    requires q != []
    ensures Product(g, q)[0] == q[0]
  {
    assert Leading(g, q[0], |q| - 1)[0] == q[0];
  }

  lemma BitStepDual(c: bv32, bit: bool)
    ensures Rev32(BitStepBe(c, bit)) == BitStepLe(Rev32(c), bit)
  {
    StepDual(Xor(c, BitBe(bit)));
    RevXor(c, BitBe(bit));
    RevBit(bit);
  }

  lemma RevBit(bit: bool)
    ensures Rev32(BitBe(bit)) == BitLe(bit)
  {
    if bit {} else {}
  }

  function Same(bit: bool): bool {
    bit
  }

  lemma CrcBeBits(seed: bv32, msg: seq<bv8>)
    ensures CrcBe(seed, msg) == Fold(BitStepBe, seed, MessageBitsBe(msg))
  {
    var w := MessageBitsBe(msg);
    var c := Fold(BitStepBe, seed, w);
    forall u, b
      ensures Rev32(BitStepBe(u, b)) == BitStepLe(Rev32(u), Same(b))
    {
      BitStepDual(u, b);
    }
    FoldSimulation(BitStepBe, BitStepLe, Rev32, Same, seed, w);
    assert Map(Same, w) == w;
    BitsOfReversedMessage(msg);
    CrcLeBits(Rev32(seed), RevBytes(msg));
    CrcDualityLe(seed, msg);
    RevInvolution(c);
  }

  lemma DoubledToZero(x: bv32)
    requires Double(x) == 0 && !TopBit(x)
    ensures x == 0
  {}

  lemma {:induction false} NoBits(x: bv32, n: nat)
    requires Emit(TopBit, Double, x, n) == Zeros(n)
    requires Iterate(Double, x, n) == 0
    ensures x == 0
    decreases n
  {
    if n > 0 {
      assert Emit(TopBit, Double, x, n)[1..] == Emit(TopBit, Double, Double(x), n - 1);
      assert Emit(TopBit, Double, x, n)[0] == TopBit(x);
      NoBits(Double(x), n - 1);
      DoubledToZero(x);
    }
  }

  lemma WordBitsInjective(x: bv32, y: bv32)
    requires WordBits(x) == WordBits(y)
    ensures x == y
  {
    WordBitsXor(x, y);
    assert XorBits(WordBits(x), WordBits(y)) == Zeros(32);
    Drained(Xor(x, y));
    NoBits(Xor(x, y), 32);
    XorEqual(x, y);
  }

  lemma XorEqual(x: bv32, y: bv32)
    requires Xor(x, y) == 0
    ensures x == y
  {}

  lemma SameRemainder(d: Bits, s: Bits, t: Bits)
    requires |s| == |t| == 32 <= |d|
    requires XorBits(d, Zeros(|d| - 32) + s) == XorBits(d, Zeros(|d| - 32) + t)
    ensures s == t
  {
    forall i | 0 <= i < 32
      ensures s[i] == t[i]
    {
      assert XorBits(d, Zeros(|d| - 32) + s)[|d| - 32 + i] == XorBits(d, Zeros(|d| - 32) + t)[|d| - 32 + i];
    }
  }

  lemma SameQuotient(g: Generator, d: Bits, p: Bits, s: bv32, q: Bits, t: bv32)
    requires |d| == |p| + 32 && |q| == |p|
    requires XorBits(d, Zeros(|p|) + WordBits(s)) == Product(g, p)
    requires XorBits(d, Zeros(|p|) + WordBits(t)) == Product(g, q)
    ensures s == t
  {
    ProductInjective(g, p, q);
    SameRemainder(d, WordBits(s), WordBits(t));
    WordBitsInjective(s, t);
  }

  lemma CancelTwice(d: Bits, p: Bits, r: Bits)
    requires |d| == |p| == |r|
    requires d == XorBits(p, r)
    ensures XorBits(d, r) == p
  {}

  /**
    The CRC is the remainder: subtracted from the seeded message followed by 32
    zeros it leaves a multiple of the divisor, and no other word does.
   */
  lemma CrcIsRemainder(seed: bv32, m: Bits, t: bv32)
    ensures t == Fold(BitStepBe, seed, m) <==>
              exists q: Bits :: |q| == |m| && XorBits(Dividend(WordBits(seed), m), Zeros(|m|) + WordBits(t)) == Product(Divisor(), q)
  {
    var c := Fold(BitStepBe, seed, m);
    var q0 := Quotient(seed, m);
    Divide(seed, m);
    CancelTwice(Dividend(WordBits(seed), m), Product(Divisor(), q0), Zeros(|m|) + WordBits(c));
    if q: Bits :| |q| == |m| && XorBits(Dividend(WordBits(seed), m), Zeros(|m|) + WordBits(t)) == Product(Divisor(), q) {
      SameQuotient(Divisor(), Dividend(WordBits(seed), m), q, t, q0, c);
    }
  }

  lemma PlainDividend(m: Bits, w: Bits)
    requires |w| == 32
    ensures XorBits(XorBits(Zeros(32) + Zeros(|m|), m + Zeros(32)), Zeros(|m|) + w) == m + w
  {}

  /** With a zero seed, a message is completed to a multiple of the divisor by its CRC and by nothing else. */
  lemma MessageWithCrcIsMultiple(msg: seq<bv8>, t: bv32)
    ensures t == CrcBe(0, msg) <==>
              exists q: Bits :: |q| == |MessageBitsBe(msg)| && MessageBitsBe(msg) + WordBits(t) == Product(Divisor(), q)
  {
    var m := MessageBitsBe(msg);
    CrcBeBits(0, msg);
    CrcIsRemainder(0, m, t);
    ZeroBits(32);
    PlainDividend(m, WordBits(t));
  }
}
