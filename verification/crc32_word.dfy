/**
  The word-at-a-time programs of lib/crc32_old.c: an aligning byte loop, a loop
  over aligned 32-bit loads, and a byte loop for the tail, on either host byte
  order; and which tables make them right.
 */
module Crc32Word {
  import opened Folds
  import opened CrcSpec
  import opened Crc32Old

  datatype Host = LittleEndian | BigEndian

  type Table = t: seq<bv32> | |t| == 256 witness seq(256, _ => 0)

  function Swap(x: bv32): bv32 {
    (x << 24) | ((x & 0xff00) << 8) | ((x >> 8) & 0xff00) | (x >> 24)
  }

  datatype Order = LsbFirst | MsbFirst

  /** The conversion between the CPU's words and the byte order of the CRC; it is its own inverse. */
  function View(o: Order, h: Host, x: bv32): bv32 {
    if o.LsbFirst? == h.LittleEndian? then x else Swap(x)
  }

  function Crc(o: Order, seed: bv32, p: seq<bv8>): bv32 {
    if o.LsbFirst? then CrcLe(seed, p) else CrcBe(seed, p)
  }

  function Entry(o: Order, v: bv8): bv32 {
    if o.LsbFirst? then StepsLe(v as bv32, 8) else StepsBe((v as bv32) << 24, 8)
  }

  /** Every entry is the remainder of its index, stored in the byte order of the CRC. */
  ghost predicate Converted(o: Order, h: Host, tab: Table) {
    forall v: bv8 :: tab[Idx(v)] == View(o, h, Entry(o, v))
  }

  function Index(h: Host, crc: bv32, x: bv8): bv8 {
    match h
    case LittleEndian => ((crc ^ (x as bv32)) & 255) as bv8
    case BigEndian => (((crc >> 24) ^ (x as bv32)) & 255) as bv8
  }

  function Shift(h: Host, crc: bv32): bv32 {
    match h
    case LittleEndian => crc >> 8
    case BigEndian => crc << 8
  }

  /** The macro DO_CRC, as each host compiles it. */
  function DoCrc(h: Host, tab: Table, crc: bv32, x: bv8): bv32 {
    Xor(tab[Idx(Index(h, crc, x))], Shift(h, crc))
  }

  function Native(h: Host, tab: Table): (bv32, bv8) -> bv32 {
    (c: bv32, b: bv8) => DoCrc(h, tab, c, b)
  }

  function Idle(h: Host, tab: Table): bv32 -> bv32 {
    (c: bv32) => DoCrc(h, tab, c, 0)
  }

  /** What a 32-bit load from an aligned address yields. */
  function LoadWord(h: Host, a: bv8, b: bv8, c: bv8, d: bv8): bv32 {
    match h
    case LittleEndian => (a as bv32) | ((b as bv32) << 8) | ((c as bv32) << 16) | ((d as bv32) << 24)
    case BigEndian => (d as bv32) | ((c as bv32) << 8) | ((b as bv32) << 16) | ((a as bv32) << 24)
  }

  // --------------------------------------------- one load is four byte steps

  /** The byte of a loaded word that DO_CRC consumes first. */
  function First(h: Host): bv32 -> bv8 {
    (w: bv32) => FirstByte(h, w)
  }

  function Next(h: Host): bv32 -> bv32 {
    (w: bv32) => Shift(h, w)
  }

  function FirstByte(h: Host, w: bv32): bv8 {
    match h
    case LittleEndian => (w & 255) as bv8
    case BigEndian => (w >> 24) as bv8
  }

  lemma AbsorbIndexLe(u: bv32, v: bv32)
    ensures (((u ^ v) ^ 0) & 255) as bv8 == ((u ^ (((v & 255) as bv8) as bv32)) & 255) as bv8
  {}

  lemma AbsorbIndexBe(u: bv32, v: bv32)
    ensures ((((u ^ v) >> 24) ^ 0) & 255) as bv8 == (((u >> 24) ^ (((v >> 24) as bv8) as bv32)) & 255) as bv8
  {}

  lemma AbsorbRight(u: bv32, v: bv32)
    ensures (u ^ v) >> 8 == (u >> 8) ^ (v >> 8)
  {}

  lemma AbsorbLeft(u: bv32, v: bv32)
    ensures (u ^ v) << 8 == (u << 8) ^ (v << 8)
  {}

  lemma AbsorbIndex(h: Host, u: bv32, v: bv32)
    ensures Index(h, Xor(u, v), 0) == Index(h, u, FirstByte(h, v))
  {
    if h.LittleEndian? {
      AbsorbIndexLe(u, v);
    } else {
      AbsorbIndexBe(u, v);
    }
  }

  lemma Absorb(h: Host, u: bv32, v: bv32)
    ensures Shift(h, Xor(u, v)) == Xor(Shift(h, u), Shift(h, v))
  {
    if h.LittleEndian? {
      AbsorbRight(u, v);
    } else {
      AbsorbLeft(u, v);
    }
  }

  lemma IdleStep(h: Host, tab: Table, u: bv32, v: bv32)
    ensures DoCrc(h, tab, Xor(u, v), 0) == Xor(DoCrc(h, tab, u, FirstByte(h, v)), Shift(h, v))
  {
    AbsorbIndex(h, u, v);
    Absorb(h, u, v);
    XorAssoc(tab[Idx(Index(h, u, FirstByte(h, v)))], Shift(h, u), Shift(h, v));
  }

  lemma LoadedLe(a: bv8, b: bv8, c: bv8, d: bv8, w: bv32)
    requires w == (a as bv32) | ((b as bv32) << 8) | ((c as bv32) << 16) | ((d as bv32) << 24)
    ensures (w & 255) as bv8 == a && ((w >> 8) & 255) as bv8 == b
    ensures (((w >> 8) >> 8) & 255) as bv8 == c && ((((w >> 8) >> 8) >> 8) & 255) as bv8 == d
    ensures (((w >> 8) >> 8) >> 8) >> 8 == 0
  {}

  lemma LoadedBe(a: bv8, b: bv8, c: bv8, d: bv8, w: bv32)
    requires w == (d as bv32) | ((c as bv32) << 8) | ((b as bv32) << 16) | ((a as bv32) << 24)
    ensures (w >> 24) as bv8 == a && ((w << 8) >> 24) as bv8 == b
    ensures (((w << 8) << 8) >> 24) as bv8 == c && ((((w << 8) << 8) << 8) >> 24) as bv8 == d
    ensures (((w << 8) << 8) << 8) << 8 == 0
  {}

  lemma LoadedBytes(h: Host, a: bv8, b: bv8, c: bv8, d: bv8)
    ensures Emit(First(h), Next(h), LoadWord(h, a, b, c, d), 4) == [a, b, c, d]
    ensures Iterate(Next(h), LoadWord(h, a, b, c, d), 4) == 0
  {
    var w := LoadWord(h, a, b, c, d);
    EmitFour(First(h), Next(h), w);
    match h
    case LittleEndian => LoadedLe(a, b, c, d, w);
    case BigEndian => LoadedBe(a, b, c, d, w);
  }

  /** For every table, merging a loaded word and idling four times is four byte steps on the bytes in memory. */
  lemma WordStep(h: Host, tab: Table, crc: bv32, a: bv8, b: bv8, c: bv8, d: bv8)
    ensures Iterate(Idle(h, tab), Xor(crc, LoadWord(h, a, b, c, d)), 4) == Fold(Native(h, tab), crc, [a, b, c, d])
  {
    var w := LoadWord(h, a, b, c, d);
    LoadedBytes(h, a, b, c, d);
    forall u, v
      ensures Idle(h, tab)(Xor(u, v)) == Xor(Native(h, tab)(u, First(h)(v)), Next(h)(v))
    {
      IdleStep(h, tab, u, v);
    }
    AbsorbWord(Idle(h, tab), Native(h, tab), Xor, First(h), Next(h), crc, w, 4);
    XorZero(Fold(Native(h, tab), crc, [a, b, c, d]));
  }

  // ------------------------------------------------------------- the program

  /** A load that the architecture allows: four bytes from a multiple of four. */
  method Load(h: Host, p: seq<bv8>, base: nat, b: nat) returns (w: bv32)
    requires b + 4 <= |p| && (base + b) % 4 == 0
    ensures w == LoadWord(h, p[b], p[b + 1], p[b + 2], p[b + 3])
  {
    w := LoadWord(h, p[b], p[b + 1], p[b + 2], p[b + 3]);
  }

  lemma FourIdle(h: Host, tab: Table, c: bv32)
    ensures Iterate(Idle(h, tab), c, 4)
         == DoCrc(h, tab, DoCrc(h, tab, DoCrc(h, tab, DoCrc(h, tab, c, 0), 0), 0), 0)
  {
    EmitFour(First(h), Idle(h, tab), c);
  }

  lemma FoldWord(h: Host, tab: Table, crc: bv32, p: seq<bv8>, b: nat)
    requires b + 4 <= |p|
    ensures Fold(Native(h, tab), crc, p[b..])
         == Fold(Native(h, tab),
                 DoCrc(h, tab, DoCrc(h, tab, DoCrc(h, tab, DoCrc(h, tab,
                   Xor(crc, LoadWord(h, p[b], p[b + 1], p[b + 2], p[b + 3])), 0), 0), 0), 0),
                 p[b + 4..])
  {
    WordStep(h, tab, crc, p[b], p[b + 1], p[b + 2], p[b + 3]);
    FourIdle(h, tab, Xor(crc, LoadWord(h, p[b], p[b + 1], p[b + 2], p[b + 3])));
    assert p[b..] == [p[b], p[b + 1], p[b + 2], p[b + 3]] + p[b + 4..];
    FoldSplit(Native(h, tab), crc, [p[b], p[b + 1], p[b + 2], p[b + 3]], p[b + 4..]);
  }

  /** The byte loop that aligns: it stops at a word boundary or at the end. */
  method AlignBytes(h: Host, tab: Table, seed: bv32, p: seq<bv8>, base: nat) returns (crc: bv32, b: nat)
    ensures b <= |p| && (b == |p| || (base + b) % 4 == 0)
    ensures Fold(Native(h, tab), crc, p[b..]) == Fold(Native(h, tab), seed, p)
  {
    crc := seed;
    var len := |p|;
    b := 0;
    assert p[0..] == p;
    if (base + b) % 4 != 0 && len != 0 {
      while true
        invariant 1 <= len && b + len == |p|
        invariant Fold(Native(h, tab), crc, p[b..]) == Fold(Native(h, tab), seed, p)
        decreases len
      {
        FoldNext(Native(h, tab), crc, p, b);
        crc := DoCrc(h, tab, crc, p[b]);
        b := b + 1;
        len := len - 1;
        if !(len != 0 && (base + b) % 4 != 0) {
          break;
        }
      }
    }
  }

  /** A byte step that is DO_CRC. */
  ghost predicate IsDoCrc(g: (bv32, bv8) -> bv32, h: Host, tab: Table) {
    forall c, x {:trigger DoCrc(h, tab, c, x)} :: g(c, x) == DoCrc(h, tab, c, x)
  }

  lemma NativeIsDoCrc(g: (bv32, bv8) -> bv32, h: Host, tab: Table, crc: bv32, p: seq<bv8>)
    requires IsDoCrc(g, h, tab)
    ensures Fold(g, crc, p) == Fold(Native(h, tab), crc, p)
  {
    forall c, x
      ensures g(c, x) == Native(h, tab)(c, x)
    {
      assert g(c, x) == DoCrc(h, tab, c, x);
    }
    FoldSame(g, Native(h, tab), crc, p);
  }

  /** Steps that agree everywhere fold alike. */
  lemma {:induction false} FoldSame<S, B>(f: (S, B) -> S, g: (S, B) -> S, s: S, msg: seq<B>)
    requires forall x, b :: f(x, b) == g(x, b)
    ensures Fold(f, s, msg) == Fold(g, s, msg)
    decreases |msg|
  {
    if msg != [] {
      FoldSame(f, g, f(s, msg[0]), msg[1..]);
    }
  }

  /** One word of the middle loop. */
  method OneWord(h: Host, tab: Table, crc0: bv32, p: seq<bv8>, base: nat, b: nat, ghost g: (bv32, bv8) -> bv32)
    returns (crc: bv32)
    requires b + 4 <= |p| && (base + b) % 4 == 0 && IsDoCrc(g, h, tab)
    ensures Fold(g, crc, p[b + 4..]) == Fold(g, crc0, p[b..])
  {
    var w := Load(h, p, base, b);
    FoldWord(h, tab, crc0, p, b);
    crc := Xor(crc0, w);
    crc := DoCrc(h, tab, crc, 0);
    crc := DoCrc(h, tab, crc, 0);
    crc := DoCrc(h, tab, crc, 0);
    crc := DoCrc(h, tab, crc, 0);
    NativeIsDoCrc(g, h, tab, crc0, p[b..]);
    NativeIsDoCrc(g, h, tab, crc, p[b + 4..]);
  }

  /** The loop over aligned words, entered with at least one of them left; `len` counts words. */
  method Words(h: Host, tab: Table, seed: bv32, p: seq<bv8>, base: nat, start: nat, ghost g: (bv32, bv8) -> bv32)
    returns (crc: bv32, b: nat)
    requires start + 4 <= |p| && (base + start) % 4 == 0 && IsDoCrc(g, h, tab)
    ensures |p| - b == (|p| - start) % 4
    ensures Fold(g, crc, p[b..]) == Fold(g, seed, p[start..])
  {
    crc := seed;
    var saveLen, len := (|p| - start) % 4, (|p| - start) / 4;
    InWords(|p| - start);
    var q := start - 4;
    while true
      invariant start - 4 <= q && (base + q) % 4 == 0
      invariant 1 <= len && q + 4 + 4 * len + saveLen == |p|
      invariant Fold(g, crc, p[q + 4..]) == Fold(g, seed, p[start..])
      decreases len
    {
      NextWord(base + q);
      q := q + 4;
      crc := OneWord(h, tab, crc, p, base, q, g);
      len := len - 1;
      if len == 0 {
        break;
      }
    }
    b := q + 4;
  }

  lemma InWords(n: nat)
    ensures n == 4 * (n / 4) + n % 4 && (n >= 4 ==> n / 4 >= 1)
  {}

  lemma NextWord(n: int)
    requires n % 4 == 0
    ensures (n + 4) % 4 == 0
  {}

  /** The byte loop for what is left. */
  method TailBytes(h: Host, tab: Table, seed: bv32, p: seq<bv8>, start: nat) returns (crc: bv32)
    requires start <= |p|
    ensures crc == Fold(Native(h, tab), seed, p[start..])
  {
    crc := seed;
    var b, len := start, |p| - start;
    if len != 0 {
      while true
        invariant start <= b && 1 <= len && b + len == |p|
        invariant Fold(Native(h, tab), crc, p[b..]) == Fold(Native(h, tab), seed, p[start..])
        decreases len
      {
        FoldNext(Native(h, tab), crc, p, b);
        crc := DoCrc(h, tab, crc, p[b]);
        b := b + 1;
        len := len - 1;
        if len == 0 {
          break;
        }
      }
    }
    assert p[b..] == [];
  }

  /** The three loops on a buffer at address `base`, for any table: they are the byte-wise fold of DO_CRC. */
  method WordCrc(h: Host, tab: Table, seed: bv32, p: seq<bv8>, base: nat) returns (crc: bv32)
    ensures crc == Fold(Native(h, tab), seed, p)
  {
    var b;
    crc, b := AlignBytes(h, tab, seed, p, base);
    if |p| - b >= 4 {
      crc, b := Words(h, tab, crc, p, base, b, Native(h, tab));
    }
    if |p| - b != 0 {
      crc := TailBytes(h, tab, crc, p, b);
    } else {
      assert p[b..] == [];
    }
  }

  // ---------------------------------------------------- what the table must hold

  lemma SwapInvolution(x: bv32)
    ensures Swap(Swap(x)) == x
  {}

  lemma SwapXor(x: bv32, y: bv32)
    ensures Swap(Xor(x, y)) == Xor(Swap(x), Swap(y))
  {}

  lemma ViewInvolution(o: Order, h: Host, x: bv32)
    ensures View(o, h, View(o, h, x)) == x
  {
    SwapInvolution(x);
  }

  lemma SwapShift(x: bv32)
    ensures Swap(x) << 8 == Swap(x >> 8) && Swap(x) >> 8 == Swap(x << 8)
  {}

  lemma SwapEnds(c: bv32, b: bv8)
    ensures (((Swap(c) >> 24) ^ (b as bv32)) & 255) as bv8 == ((c ^ (b as bv32)) & 255) as bv8
    ensures ((Swap(c) ^ (b as bv32)) & 255) as bv8 == (((c >> 24) ^ (b as bv32)) & 255) as bv8
  {}

  /** The table index names the digit that the byte step divides. */
  lemma IndexDigit(c: bv32, b: bv8)
    ensures (((c ^ (b as bv32)) & 255) as bv8) as bv32 == (c ^ (b as bv32)) & 255
    ensures (c ^ (b as bv32)) >> 8 == c >> 8
    ensures (((((c >> 24) ^ (b as bv32)) & 255) as bv8) as bv32) << 24 == ((c ^ ((b as bv32) << 24)) >> 24) << 24
    ensures (c ^ ((b as bv32) << 24)) << 8 == c << 8
  {}

  lemma PlainLe(c: bv32, b: bv8)
    ensures ByteLe(c, b) == Xor(Entry(LsbFirst, Index(LittleEndian, c, b)), Shift(LittleEndian, c))
  {
    IndexDigit(c, b);
    TableStepLe8(c ^ (b as bv32));
  }

  lemma PlainBe(c: bv32, b: bv8)
    ensures ByteBe(c, b) == Xor(Entry(MsbFirst, Index(BigEndian, c, b)), Shift(BigEndian, c))
  {
    IndexDigit(c, b);
    TableStepBe8(c ^ ((b as bv32) << 24));
  }

  lemma SwappedIndex(h: Host, c: bv32, b: bv8)
    ensures Index(BigEndian, Swap(c), b) == Index(LittleEndian, c, b)
    ensures Index(LittleEndian, Swap(c), b) == Index(BigEndian, c, b)
    ensures Shift(BigEndian, Swap(c)) == Swap(Shift(LittleEndian, c))
    ensures Shift(LittleEndian, Swap(c)) == Swap(Shift(BigEndian, c))
  {
    SwapEnds(c, b);
    SwapShift(c);
  }

  lemma NativeStepLe(h: Host, tab: Table, c: bv32, b: bv8)
    requires Converted(LsbFirst, h, tab)
    ensures DoCrc(h, tab, View(LsbFirst, h, c), b) == View(LsbFirst, h, ByteLe(c, b))
  {
    var i, s := Index(LittleEndian, c, b), Shift(LittleEndian, c);
    PlainLe(c, b);
    SwappedIndex(h, c, b);
    if h.BigEndian? {
      SwapXor(Entry(LsbFirst, i), s);
      assert tab[Idx(i)] == Swap(Entry(LsbFirst, i));
    }
  }

  lemma NativeStepBe(h: Host, tab: Table, c: bv32, b: bv8)
    requires Converted(MsbFirst, h, tab)
    ensures DoCrc(h, tab, View(MsbFirst, h, c), b) == View(MsbFirst, h, ByteBe(c, b))
  {
    var i, s := Index(BigEndian, c, b), Shift(BigEndian, c);
    PlainBe(c, b);
    SwappedIndex(h, c, b);
    if h.LittleEndian? {
      SwapXor(Entry(MsbFirst, i), s);
      assert tab[Idx(i)] == Swap(Entry(MsbFirst, i));
    }
  }

  function Same(b: bv8): bv8 {
    b
  }

  /** With a converted table, the native fold is the CRC seen through the byte-order conversion. */
  lemma NativeIsCrc(o: Order, h: Host, tab: Table, seed: bv32, p: seq<bv8>)
    requires Converted(o, h, tab)
    ensures Fold(Native(h, tab), View(o, h, seed), p) == View(o, h, Crc(o, seed, p))
  {
    var view := (c: bv32) => View(o, h, c);
    if o.LsbFirst? {
      forall u, b
        ensures view(ByteLe(u, b)) == Native(h, tab)(view(u), Same(b))
      {
        NativeStepLe(h, tab, u, b);
      }
      FoldSimulation(ByteLe, Native(h, tab), view, Same, seed, p);
    } else {
      forall u, b
        ensures view(ByteBe(u, b)) == Native(h, tab)(view(u), Same(b))
      {
        NativeStepBe(h, tab, u, b);
      }
      FoldSimulation(ByteBe, Native(h, tab), view, Same, seed, p);
    }
    assert Map(Same, p) == p;
  }

  /** crc32_le at 8 bits: converted in, the three loops, converted out. */
  method Crc32LeWord(h: Host, tab: Table, seed: bv32, p: seq<bv8>, base: nat) returns (r: bv32)
    requires Converted(LsbFirst, h, tab)
    ensures r == CrcLe(seed, p)
  {
    var crc := View(LsbFirst, h, seed);
    crc := WordCrc(h, tab, crc, p, base);
    NativeIsCrc(LsbFirst, h, tab, seed, p);
    ViewInvolution(LsbFirst, h, CrcLe(seed, p));
    r := View(LsbFirst, h, crc);
  }

  /** crc32_be at 8 bits. */
  method Crc32BeWord(h: Host, tab: Table, seed: bv32, p: seq<bv8>, base: nat) returns (r: bv32)
    requires Converted(MsbFirst, h, tab)
    ensures r == CrcBe(seed, p)
  {
    var crc := View(MsbFirst, h, seed);
    crc := WordCrc(h, tab, crc, p, base);
    NativeIsCrc(MsbFirst, h, tab, seed, p);
    ViewInvolution(MsbFirst, h, CrcBe(seed, p));
    r := View(MsbFirst, h, crc);
  }

  /** What the program returns with an arbitrary table. */
  function WordResult(o: Order, h: Host, tab: Table, seed: bv32, p: seq<bv8>): bv32 {
    View(o, h, Fold(Native(h, tab), View(o, h, seed), p))
  }

  lemma ZeroSeed(o: Order, h: Host, b: bv8)
    ensures View(o, h, 0) == 0 && Index(h, 0, b) == b && Shift(h, 0) == 0
  {}

  lemma OneByte(o: Order, h: Host, tab: Table, v: bv8)
    ensures WordResult(o, h, tab, 0, [v]) == View(o, h, tab[Idx(v)])
    ensures Crc(o, 0, [v]) == Entry(o, v)
  {
    ZeroSeed(o, h, v);
    XorZero(tab[Idx(v)]);
    FoldOne(Native(h, tab), 0, v);
    FoldOne(ByteLe, 0, v);
    FoldOne(ByteBe, 0, v);
    PlainLe(0, v);
    PlainBe(0, v);
    ZeroSeed(o, LittleEndian, v);
    ZeroSeed(o, BigEndian, v);
    XorZero(Entry(o, v));
  }

  /** The program computes the CRC of every message exactly when every table entry is converted. */
  lemma TableIsDecisive(o: Order, h: Host, tab: Table)
    ensures Converted(o, h, tab) <==> forall seed, p :: WordResult(o, h, tab, seed, p) == Crc(o, seed, p)
  {
    if Converted(o, h, tab) {
      forall seed, p
        ensures WordResult(o, h, tab, seed, p) == Crc(o, seed, p)
      {
        NativeIsCrc(o, h, tab, seed, p);
        ViewInvolution(o, h, Crc(o, seed, p));
      }
    }
    if forall seed, p :: WordResult(o, h, tab, seed, p) == Crc(o, seed, p) {
      forall v: bv8
        ensures tab[Idx(v)] == View(o, h, Entry(o, v))
      {
        OneByte(o, h, tab, v);
        assert WordResult(o, h, tab, 0, [v]) == Crc(o, 0, [v]);
        ViewInvolution(o, h, tab[Idx(v)]);
      }
    }
  }

  lemma EntryOne()
    ensures Entry(LsbFirst, 1) == 0x7707_3096
  {
    calc {
      Iterate(StepLe, 1, 8);
      Iterate(StepLe, 0xedb8_8320, 7);
      Iterate(StepLe, 0x76dc_4190, 6);
      Iterate(StepLe, 0x3b6e_20c8, 5);
      Iterate(StepLe, 0x1db7_1064, 4);
      Iterate(StepLe, 0x0edb_8832, 3);
      Iterate(StepLe, 0x076d_c419, 2);
      Iterate(StepLe, 0xee0e_612c, 1);
      0x7707_3096;
    }
  }

  /** The table as `tole` leaves it. */
  function PlainTable(): Table {
    seq(256, i requires 0 <= i < 256 => Entry(LsbFirst, i as bv8))
  }

  lemma PlainEntries(tab: Table)
    requires tab == PlainTable()
    ensures forall v: bv8 :: tab[Idx(v)] == Entry(LsbFirst, v)
  {
    forall v: bv8
      ensures tab[Idx(v)] == Entry(LsbFirst, v)
    {
      IndexIs(v, Idx(v));
    }
  }

  /**
    The fallback `tole` leaves the entries as they are. A table so built is
    right on a little-endian host and wrong on a big-endian one, where the
    message [1] already shows it.
   */
  lemma PlainTableNeedsLittleEndian(h: Host)
    ensures h.LittleEndian? <==> forall seed, p :: WordResult(LsbFirst, h, PlainTable(), seed, p) == CrcLe(seed, p)
    ensures h.BigEndian? ==> WordResult(LsbFirst, h, PlainTable(), 0, [1]) != CrcLe(0, [1])
  {
    var tab := PlainTable();
    PlainEntries(tab);
    TableIsDecisive(LsbFirst, h, tab);
    if h.BigEndian? {
      EntryOne();
      OneByte(LsbFirst, h, tab, 1);
      assert Swap(0x7707_3096) != 0x7707_3096;
    }
  }
}
