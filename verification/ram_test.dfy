/** The data-line test of boot/soc_landshark/dram_ram.c: walking ones and zeros over sampled words. */
module RamTest {
  const GRANULARITY := 4096
  /** Addresses are 32 bits wide. */
  const MODULUS := 0x1_0000_0000

  // ------------------------------------------------------------- data lines

  /** The number of a data line; the program counts in UINT32. */
  type Index = i: bv32 | i < 32

  /** 1 << i */
  function One(i: Index): bv32 { 1 << i }

  function Inverse(w: bv32): bv32 { !w }

  function Bit(w: bv32, i: Index): bool {
    (w >> i) & 1 == 1
  }

  lemma OneBit(i: Index, k: Index)
    ensures Bit(One(i), k) <==> i == k
  {}

  lemma InverseBit(w: bv32, k: Index)
    ensures Bit(Inverse(w), k) <==> !Bit(w, k)
  {}

  function Or(a: bv32, b: bv32): bv32 { a | b }

  lemma OrBit(a: bv32, b: bv32, k: Index)
    ensures Bit(Or(a, b), k) <==> Bit(a, k) || Bit(b, k)
    ensures !Bit(0, k)
  {}

  /** The word without its lowest n bits. */
  function High(w: bv32, n: bv32): bv32
    requires n <= 32
  {
    w >> n
  }

  function Halve(w: bv32): bv32 { w >> 1 }

  lemma HighMore(w: bv32, n: bv32)
    requires n < 32
    ensures High(w, n + 1) == Halve(High(w, n))
  {}

  lemma SameHalves(a: bv32, b: bv32)
    requires Halve(a) == Halve(b) && Bit(a, 0) == Bit(b, 0)
    ensures a == b
  {}

  lemma HighBit(w: bv32, n: Index)
    ensures Bit(High(w, n), 0) == Bit(w, n)
  {}

  lemma HighEnds(w: bv32)
    ensures High(w, 32) == 0 && High(w, 0) == w
  {}

  lemma {:induction false} SameHigh(a: bv32, b: bv32, n: bv32)
    requires n <= 32 && forall i: Index :: Bit(a, i) == Bit(b, i)
    ensures High(a, n) == High(b, n)
    decreases 32 - n
  {
    if n == 32 {
      HighEnds(a);
      HighEnds(b);
    } else {
      SameHigh(a, b, n + 1);
      HighMore(a, n);
      HighMore(b, n);
      HighBit(a, n);
      HighBit(b, n);
      SameHalves(High(a, n), High(b, n));
    }
  }

  /** Words with the same bits are the same. */
  lemma SameBits(a: bv32, b: bv32)
    requires forall i: Index :: Bit(a, i) == Bit(b, i)
    ensures a == b
  {
    SameHigh(a, b, 0);
    HighEnds(a);
    HighEnds(b);
  }

  /** The word whose lowest n lines read as `lines` says. */
  function Assemble(lines: Index -> bool, n: bv32): bv32
    requires n <= 32
    decreases n
  {
    if n == 0 then 0 else Or(Assemble(lines, n - 1), if lines(n - 1) then One(n - 1) else 0)
  }

  lemma {:induction false} AssembledBit(lines: Index -> bool, n: bv32, k: Index)
    requires n <= 32
    ensures Bit(Assemble(lines, n), k) <==> k < n && lines(k)
    decreases n
  {
    if n == 0 {
      OrBit(0, 0, k);
    } else {
      AssembledBit(lines, n - 1, k);
      OneBit(n - 1, k);
      OrBit(0, 0, k);
      OrBit(Assemble(lines, n - 1), if lines(n - 1) then One(n - 1) else 0, k);
    }
  }

  // ----------------------------------------------------------------- faults

  /** A data line of a word: sound, stuck, or reading as a wired combination of the lines that were written. */
  datatype Line = Sound | Stuck(high: bool) | WiredOr(lines: set<Index>) | WiredAnd(lines: set<Index>)

  /** What line i reads after w was written. */
  predicate Reads(line: Line, i: Index, w: bv32) {
    match line
    case Sound => Bit(w, i)
    case Stuck(high) => high
    case WiredOr(lines) => exists k :: k in lines && Bit(w, k)
    case WiredAnd(lines) => forall k :: k in lines ==> Bit(w, k)
  }

  /** Line i reads back whatever was written. */
  ghost predicate FaultFree(line: Line, i: Index) {
    forall w: bv32 :: Reads(line, i, w) == Bit(w, i)
  }

  /** Line i reads back the two patterns for line k. */
  ghost predicate PassesAt(line: Line, i: Index, k: Index) {
    Reads(line, i, One(k)) == Bit(One(k), i) && Reads(line, i, Inverse(One(k))) == Bit(Inverse(One(k)), i)
  }

  /** The walking patterns find every fault of a line. */
  lemma LineSoundIff(line: Line, i: Index)
    ensures FaultFree(line, i) <==> forall k: Index :: PassesAt(line, i, k)
  {
    if forall k: Index :: PassesAt(line, i, k) {
      assert PassesAt(line, i, i);
      Patterns(i, i);
      match line
      case Sound =>
      case Stuck(high) =>
      case WiredOr(lines) => OrIsSingle(lines, i);
      case WiredAnd(lines) => AndIsSingle(lines, i);
    }
  }

  lemma Patterns(k: Index, i: Index)
    ensures Bit(One(k), i) <==> k == i
    ensures Bit(Inverse(One(k)), i) <==> k != i
  {
    OneBit(k, i);
    InverseBit(One(k), i);
  }

  lemma OrIsSingle(lines: set<Index>, i: Index)
    requires forall k: Index :: PassesAt(WiredOr(lines), i, k)
    ensures forall k: Index :: k in lines <==> k == i
    ensures FaultFree(WiredOr(lines), i)
  {
    forall k: Index
      ensures k in lines <==> k == i
    {
      assert PassesAt(WiredOr(lines), i, k);
      Patterns(k, i);
      forall j: Index ensures Bit(One(k), j) <==> k == j { Patterns(k, j); }
      Patterns(k, k);
    }
    forall w: bv32
      ensures Reads(WiredOr(lines), i, w) == Bit(w, i)
    {
      assert i in lines;
    }
  }

  lemma AndIsSingle(lines: set<Index>, i: Index)
    requires forall k: Index :: PassesAt(WiredAnd(lines), i, k)
    ensures forall k: Index :: k in lines <==> k == i
    ensures FaultFree(WiredAnd(lines), i)
  {
    forall k: Index
      ensures k in lines <==> k == i
    {
      assert PassesAt(WiredAnd(lines), i, k);
      Patterns(k, i);
      forall j: Index ensures Bit(Inverse(One(k)), j) <==> k != j { Patterns(k, j); }
      Patterns(k, k);
    }
    forall w: bv32
      ensures Reads(WiredAnd(lines), i, w) == Bit(w, i)
    {
      assert i in lines;
    }
  }

  // ------------------------------------------------------------------ words

  /** What the lines of the word at an address read after w was written. */
  function Levels(line: (nat, Index) -> Line, a: nat, w: bv32): Index -> bool {
    (i: Index) => Reads(line(a, i), i, w)
  }

  function ReadBack(line: (nat, Index) -> Line, a: nat, w: bv32): bv32 {
    Assemble(Levels(line, a, w), 32)
  }

  lemma ReadBackIff(line: (nat, Index) -> Line, a: nat, w: bv32)
    ensures ReadBack(line, a, w) == w <==> forall i: Index :: Levels(line, a, w)(i) == Bit(w, i)
  {
    AssembledIff(Levels(line, a, w), w);
  }

  lemma AssembledIff(lines: Index -> bool, w: bv32)
    ensures Assemble(lines, 32) == w <==> forall i: Index :: lines(i) == Bit(w, i)
  {
    forall i: Index
      ensures Bit(Assemble(lines, 32), i) == lines(i)
    {
      AssembledBit(lines, 32, i);
    }
    if forall i: Index :: lines(i) == Bit(w, i) {
      SameBits(Assemble(lines, 32), w);
    }
  }

  ghost predicate SoundWord(line: (nat, Index) -> Line, a: nat) {
    forall i: Index :: FaultFree(line(a, i), i)
  }

  ghost predicate WordPasses(line: (nat, Index) -> Line, a: nat, k: Index) {
    ReadBack(line, a, One(k)) == One(k) && ReadBack(line, a, Inverse(One(k))) == Inverse(One(k))
  }

  lemma WordPassesIff(line: (nat, Index) -> Line, a: nat, k: Index)
    ensures WordPasses(line, a, k) <==> forall i: Index :: PassesAt(line(a, i), i, k)
  {
    ReadBackIff(line, a, One(k));
    ReadBackIff(line, a, Inverse(One(k)));
    if WordPasses(line, a, k) {
      forall i: Index
        ensures PassesAt(line(a, i), i, k)
      {
        assert Levels(line, a, One(k))(i) == Bit(One(k), i);
        assert Levels(line, a, Inverse(One(k)))(i) == Bit(Inverse(One(k)), i);
      }
    }
    if forall i: Index :: PassesAt(line(a, i), i, k) {
      forall i: Index
        ensures Levels(line, a, One(k))(i) == Bit(One(k), i)
        ensures Levels(line, a, Inverse(One(k)))(i) == Bit(Inverse(One(k)), i)
      {
        assert PassesAt(line(a, i), i, k);
      }
    }
  }

  /** The walking patterns find every fault of a word. */
  lemma SoundWordIff(line: (nat, Index) -> Line, a: nat)
    ensures SoundWord(line, a) <==> forall k: Index :: WordPasses(line, a, k)
  {
    if SoundWord(line, a) {
      forall k: Index
        ensures WordPasses(line, a, k)
      {
        WordPassesIff(line, a, k);
        forall i: Index
          ensures PassesAt(line(a, i), i, k)
        {
          LineSoundIff(line(a, i), i);
        }
      }
    }
    if forall k: Index :: WordPasses(line, a, k) {
      forall i: Index
        ensures FaultFree(line(a, i), i)
      {
        forall k: Index
          ensures PassesAt(line(a, i), i, k)
        {
          assert WordPasses(line, a, k);
          WordPassesIff(line, a, k);
        }
        LineSoundIff(line(a, i), i);
      }
    }
  }

  // ---------------------------------------------------------- sampled words

  /** The addresses a pass visits from p on: p in any case, and then as long as the next one is below `end`. */
  function Samples(p: nat, end: nat): (s: seq<nat>)
    requires p < MODULUS && end < MODULUS && p % GRANULARITY == end % GRANULARITY
    decreases if p < end then end - p else MODULUS + 1
  {
    var next := (p + GRANULARITY) % MODULUS;
    [p] + if next < end then Samples(next, end) else []
  }

  function End(start: nat, counter: nat): nat {
    (start + GRANULARITY * counter) % MODULUS
  }

  /** A 32-bit start address, and the counter that some 32-bit size gives. */
  ghost predicate Range(start: nat, counter: nat) {
    start < MODULUS && counter < MODULUS / GRANULARITY
  }

  lemma EndAligned(start: nat, counter: nat)
    ensures End(start, counter) % GRANULARITY == start % GRANULARITY
  {
    var x := start + GRANULARITY * counter;
    assert x == End(start, counter) + MODULUS * (x / MODULUS);
    assert MODULUS == GRANULARITY * 0x10_0000;
  }

  /** The sampled words of a range. */
  function Sampled(start: nat, counter: nat): seq<nat>
    requires Range(start, counter)
  {
    EndAligned(start, counter);
    Samples(start, End(start, counter))
  }

  /** Below the end the addresses simply go up. */
  lemma {:induction false} SamplesGoUp(p: nat, end: nat)
    requires p < end < MODULUS && p % GRANULARITY == end % GRANULARITY
    ensures |Samples(p, end)| == (end - p) / GRANULARITY
    ensures forall j :: 0 <= j < |Samples(p, end)| ==> Samples(p, end)[j] == p + GRANULARITY * j
    decreases end - p
  {
    var next := p + GRANULARITY;
    StepBelow(p, end);
    if next < end {
      SamplesGoUp(next, end);
      assert Samples(p, end) == [p] + Samples(next, end);
    } else {
      assert Samples(p, end) == [p];
    }
  }

  /** A step below the end does not go beyond it. */
  lemma StepBelow(p: nat, end: nat)
    requires p < end < MODULUS && p % GRANULARITY == end % GRANULARITY
    ensures p + GRANULARITY <= end && (p + GRANULARITY) % MODULUS == p + GRANULARITY
    ensures (p + GRANULARITY) % GRANULARITY == end % GRANULARITY
    ensures (end - p) / GRANULARITY == (end - (p + GRANULARITY)) / GRANULARITY + 1
  {
    var m, n := p / GRANULARITY, end / GRANULARITY;
    assert p == GRANULARITY * m + p % GRANULARITY && end == GRANULARITY * n + end % GRANULARITY;
    assert n >= m + 1;
  }

  lemma WhereItEnds(start: nat, counter: nat)
    requires Range(start, counter)
    ensures var top := start + GRANULARITY * counter; End(start, counter) == if top < MODULUS then top else top - MODULUS
  {}

  /**
    How many words are sampled: all of the range's, but a single one when the
    range reaches the top of the address space, unless its first page is the
    last there. An empty range gives a single word too, and in that last page
    one in each page of the whole address space.
   */
  function SampleCount(start: nat, counter: nat): nat {
    if counter == 0 then if start + 4096 < 0x1_0000_0000 then 1 else 0x10_0000
    else if start + 4096 < 0x1_0000_0000 <= start + 4096 * counter then 1
    else counter
  }

  /** The end, seen from the address after the first. */
  lemma WhereItGoes(start: nat, counter: nat, next: nat, end: nat)
    requires Range(start, counter) && next == (start + GRANULARITY) % MODULUS && end == End(start, counter)
    ensures if SampleCount(start, counter) == 1 then next >= end
            else next < end && end == next + GRANULARITY * (SampleCount(start, counter) - 1)
  {
    WhereItEnds(start, counter);
    if start + GRANULARITY < MODULUS {
      assert next == start + GRANULARITY;
    } else {
      assert next == start + GRANULARITY - MODULUS;
    }
  }

  lemma SampledCount(start: nat, counter: nat)
    requires Range(start, counter)
    ensures |Sampled(start, counter)| == SampleCount(start, counter)
    ensures forall j :: 0 <= j < |Sampled(start, counter)| ==> Sampled(start, counter)[j] == (start + 4096 * j) % 0x1_0000_0000
  {
    EndAligned(start, counter);
    var end := End(start, counter);
    var next := (start + GRANULARITY) % MODULUS;
    WhereItGoes(start, counter, next, end);
    if next < end {
      AlignedNext(start, end);
      SamplesGoUp(next, end);
      assert Samples(start, end) == [start] + Samples(next, end);
      forall j | 1 <= j < |Samples(start, end)|
        ensures Samples(start, end)[j] == (start + GRANULARITY * j) % MODULUS
      {
        assert Samples(start, end)[j] == next + GRANULARITY * (j - 1);
        Wrapped(start, next, j);
      }
    }
  }

  lemma AlignedNext(p: nat, end: nat)
    requires p % GRANULARITY == end % GRANULARITY
    ensures (p + GRANULARITY) % MODULUS % GRANULARITY == end % GRANULARITY
  {
    EndAligned(p, 1);
  }

  lemma Wrapped(start: nat, next: nat, j: nat)
    requires start < MODULUS && j >= 1 && next == (start + GRANULARITY) % MODULUS && next + GRANULARITY * (j - 1) < MODULUS
    ensures next + GRANULARITY * (j - 1) == (start + GRANULARITY * j) % MODULUS
  {
    if start + GRANULARITY < MODULUS {
      assert next == start + GRANULARITY;
    } else {
      assert next == start + GRANULARITY - MODULUS;
    }
  }

  /** Every sampled word reads back the pattern. */
  ghost predicate Passes(line: (nat, Index) -> Line, all: seq<nat>, w: bv32) {
    forall a :: a in all ==> ReadBack(line, a, w) == w
  }

  /** Both patterns for line k. */
  ghost predicate PassesBoth(line: (nat, Index) -> Line, all: seq<nat>, k: Index) {
    Passes(line, all, One(k)) && Passes(line, all, Inverse(One(k)))
  }

  ghost predicate AllSound(line: (nat, Index) -> Line, all: seq<nat>) {
    forall a :: a in all ==> SoundWord(line, a)
  }

  /** The test is complete: all patterns pass exactly if every line of every sampled word is free of faults. */
  lemma PatternsAreComplete(line: (nat, Index) -> Line, all: seq<nat>)
    ensures AllSound(line, all) <==> forall k: Index :: PassesBoth(line, all, k)
  {
    if AllSound(line, all) {
      forall k: Index
        ensures PassesBoth(line, all, k)
      {
        forall a | a in all
          ensures WordPasses(line, a, k)
        {
          SoundWordIff(line, a);
        }
      }
    }
    if forall k: Index :: PassesBoth(line, all, k) {
      forall a | a in all
        ensures SoundWord(line, a)
      {
        forall k: Index
          ensures WordPasses(line, a, k)
        {
          assert PassesBoth(line, all, k);
        }
        SoundWordIff(line, a);
      }
    }
  }

  // ------------------------------------------------------------- the program

  /** Memory: what was last written to each word, and the state of the lines it is read through. */
  class Ram {
    const line: (nat, Index) -> Line
    var cells: map<nat, bv32>

    constructor (line: (nat, Index) -> Line)
      ensures this.line == line
    {
      this.line := line;
      cells := map[];
    }

    method Write(a: nat, w: bv32)
      modifies this
      ensures cells == old(cells)[a := w]
    {
      cells := cells[a := w];
    }

    method Read(a: nat) returns (w: bv32)
      requires a in cells
      ensures w == ReadBack(line, a, cells[a])
    {
      w := ReadBack(line, a, cells[a]);
    }
  }

  /** Cells that differ at most at these addresses. */
  ghost predicate SameBut(before: map<nat, bv32>, after: map<nat, bv32>, all: seq<nat>) {
    forall a :: a !in all ==> (a in after <==> a in before) && (a in after ==> after[a] == before[a])
  }

  ghost predicate Hold(cells: map<nat, bv32>, all: seq<nat>, w: bv32) {
    forall a :: a in all ==> a in cells && cells[a] == w
  }

  /** A pass over the sampled words after `done`: it goes on at p, or it is over. */
  ghost predicate Visiting(all: seq<nat>, done: seq<nat>, p: nat, end: nat, more: bool) {
    if more then p < MODULUS && end < MODULUS && p % GRANULARITY == end % GRANULARITY && all == done + Samples(p, end)
    else all == done
  }

  lemma VisitNext(all: seq<nat>, done: seq<nat>, p: nat, end: nat)
    requires Visiting(all, done, p, end, true)
    ensures var next := (p + GRANULARITY) % MODULUS; Visiting(all, done + [p], next, end, next < end)
    ensures var next := (p + GRANULARITY) % MODULUS; next < end ==> Left(next, end) < Left(p, end)
    ensures p in all
  {
    AlignedNext(p, end);
    LessLeft(p, (p + GRANULARITY) % MODULUS, end);
    OneSample(p, (p + GRANULARITY) % MODULUS, end, done);
  }

  lemma LessLeft(p: nat, next: nat, end: nat)
    requires p < MODULUS && end < MODULUS && p % GRANULARITY == end % GRANULARITY && next == (p + GRANULARITY) % MODULUS
    ensures next < end ==> Left(next, end) < Left(p, end)
  {
    if p < end {
      StepBelow(p, end);
    }
  }

  lemma OneSample(p: nat, next: nat, end: nat, done: seq<nat>)
    requires p < MODULUS && end < MODULUS && p % GRANULARITY == end % GRANULARITY && next == (p + GRANULARITY) % MODULUS
    requires next % GRANULARITY == end % GRANULARITY
    ensures done + Samples(p, end) == (done + [p]) + if next < end then Samples(next, end) else []
    ensures p in Samples(p, end)
  {
    assert Samples(p, end)[0] == p;
  }

  /** What is left of a pass. */
  function Left(p: nat, end: nat): nat {
    if p < end then end - p else MODULUS + 1
  }

  /** The first loop: write the pattern. */
  method WritePattern(ram: Ram, start: nat, counter: nat, pattern: bv32)
    requires Range(start, counter)
    modifies ram
    ensures Hold(ram.cells, Sampled(start, counter), pattern)
    ensures SameBut(old(ram.cells), ram.cells, Sampled(start, counter))
  {
    EndAligned(start, counter);
    var end := End(start, counter);
    ghost var all := Sampled(start, counter);
    ghost var done: seq<nat> := [];
    var p: nat, more := start, true;
    while more
      invariant Visiting(all, done, p, end, more)
      invariant Hold(ram.cells, done, pattern) && SameBut(old(ram.cells), ram.cells, done)
      decreases more, Left(p, end)
    {
      VisitNext(all, done, p, end);
      ram.Write(p, pattern);
      done := done + [p];
      p := (p + GRANULARITY) % MODULUS;
      more := p < end;
    }
  }

  /** The second loop: read it back. */
  method ReadPattern(ram: Ram, start: nat, counter: nat, pattern: bv32) returns (rc: int)
    requires Range(start, counter) && Hold(ram.cells, Sampled(start, counter), pattern)
    ensures rc == if Passes(ram.line, Sampled(start, counter), pattern) then 0 else 1
  {
    EndAligned(start, counter);
    var end := End(start, counter);
    ghost var all := Sampled(start, counter);
    ghost var done: seq<nat> := [];
    var p: nat, more := start, true;
    while more
      invariant Visiting(all, done, p, end, more) && Passes(ram.line, done, pattern)
      decreases more, Left(p, end)
    {
      VisitNext(all, done, p, end);
      var seen := ram.Read(p);
      if seen != pattern {
        return 1;
      }
      done := done + [p];
      p := (p + GRANULARITY) % MODULUS;
      more := p < end;
    }
    rc := 0;
  }

  /** ram_pattern_verify, with its granularity of 4096 bytes */
  method RamPatternVerify(ram: Ram, start: nat, counter: nat, pattern: bv32) returns (rc: int)
    requires Range(start, counter)
    modifies ram
    ensures rc == if Passes(ram.line, Sampled(start, counter), pattern) then 0 else 1
    ensures Hold(ram.cells, Sampled(start, counter), pattern)
    ensures SameBut(old(ram.cells), ram.cells, Sampled(start, counter))
  {
    WritePattern(ram, start, counter, pattern);
    rc := ReadPattern(ram, start, counter, pattern);
  }

  /** The lines below i pass. */
  ghost predicate PassesBelow(line: (nat, Index) -> Line, all: seq<nat>, i: bv32) {
    forall k: Index :: k < i ==> PassesBoth(line, all, k)
  }

  lemma PassesNext(line: (nat, Index) -> Line, all: seq<nat>, i: Index)
    requires PassesBelow(line, all, i) && PassesBoth(line, all, i)
    ensures PassesBelow(line, all, i + 1)
  {
    forall k: Index | k < i + 1
      ensures PassesBoth(line, all, k)
    {
      BelowNext(k, i);
    }
  }

  lemma BelowNext(k: bv32, i: bv32)
    requires i < 32 && k < i + 1
    ensures k < i || k == i
  {}

  /** Line k is the first to fail: on the pattern itself (1) or on its inverse (2). */
  ghost predicate FailsFirst(line: (nat, Index) -> Line, all: seq<nat>, k: Index, rc: int) {
    && PassesBelow(line, all, k)
    && (rc == 1 ==> !Passes(line, all, One(k)))
    && (rc == 2 ==> Passes(line, all, One(k)) && !Passes(line, all, Inverse(One(k))))
  }

  /** Why the test returned. */
  ghost predicate Outcome(line: (nat, Index) -> Line, all: seq<nat>, rc: int) {
    if rc == 0 then PassesBelow(line, all, 32) else rc in {1, 2} && exists k: Index :: FailsFirst(line, all, k, rc)
  }

  /** One pass of the loop over the lines. */
  method TestLine(ram: Ram, start: nat, counter: nat, i: Index) returns (rc: int)
    requires Range(start, counter) && PassesBelow(ram.line, Sampled(start, counter), i)
    modifies ram
    ensures rc in {0, 1, 2}
    ensures rc == 0 ==> PassesBoth(ram.line, Sampled(start, counter), i)
    ensures rc != 0 ==> FailsFirst(ram.line, Sampled(start, counter), i, rc)
    ensures SameBut(old(ram.cells), ram.cells, Sampled(start, counter))
  {
    var r := RamPatternVerify(ram, start, counter, One(i));
    if r != 0 {
      return 1;
    }
    r := RamPatternVerify(ram, start, counter, Inverse(One(i)));
    if r != 0 {
      return 2;
    }
    return 0;
  }

  /**
    ram_verify_bitflip: it returns 0 exactly if every line of every sampled word
    is free of faults, and changes sampled words only.
   */
  method RamVerifyBitflip(ram: Ram, start: nat, size: nat) returns (rc: int)
    requires start < 0x1_0000_0000 && size < 0x1_0000_0000
    modifies ram
    ensures rc == 0 <==> AllSound(ram.line, Sampled(start, size / 4096))
    ensures Outcome(ram.line, Sampled(start, size / 4096), rc)
    ensures SameBut(old(ram.cells), ram.cells, Sampled(start, size / 4096))
  {
    rc := TestLines(ram, start, size / GRANULARITY);
    ghost var all := Sampled(start, size / GRANULARITY);
    PatternsAreComplete(ram.line, all);
    if rc != 0 {
      ghost var k: Index :| FailsFirst(ram.line, all, k, rc);
      assert !PassesBoth(ram.line, all, k);
    }
  }

  method TestLines(ram: Ram, start: nat, counter: nat) returns (rc: int)
    requires Range(start, counter)
    modifies ram
    ensures Outcome(ram.line, Sampled(start, counter), rc)
    ensures SameBut(old(ram.cells), ram.cells, Sampled(start, counter))
  {
    var i: bv32 := 0;
    while i < 32
      invariant i <= 32 && PassesBelow(ram.line, Sampled(start, counter), i)
      invariant SameBut(old(ram.cells), ram.cells, Sampled(start, counter))
      decreases 32 - i
    {
      rc := TestLine(ram, start, counter, i);
      if rc != 0 {
        return;
      }
      PassesNext(ram.line, Sampled(start, counter), i);
      i := i + 1;
    }
    rc := 0;
  }
}
