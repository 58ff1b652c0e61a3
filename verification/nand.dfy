/** The NAND geometry and page reads of devices/nand/dev_nand.c. */
module Nand {
  import opened ByteOrder

  /**
    The chip as the boot code sees it: which of the two geometries the straps
    select, what a page read at a controller address returns, and the checks
    that stay opaque: bad-block marks, the spare-area test for erased pages,
    and error correction by section.
   */
  datatype Chip = Chip(
    fourK: bool,
    page: nat -> seq<bv8>,
    badBlock: nat -> bool,
    spareErased: nat -> bool,
    ecc: (nat, nat) -> int)
  {
    /** nand_init */
    function PageSize(): nat { if fourK then 0x1000 else 0x800 }
    function BlockSize(): nat { if fourK then 0x80000 else 0x20000 }
    function PageShift(): nat { if fourK then 13 else 12 }
    function Base(): nat { if fourK then 0x80000 else 0x20000 }
    function MaxOffset(): nat { if fourK then 0x3FF40000 else 0x1FF40000 }
    function PagesPerBlock(): nat { if fourK then 128 else 64 }
    function Sections(): nat { if fourK then 8 else 4 }

    /** Pages of a block that carry data: all but the two header pages. */
    function DataPages(): nat { PagesPerBlock() - 2 }

    /** The logical block that page k of an image belongs to, and the page's place in it. */
    function BlockOf(k: nat): nat {
      Geometry();
      k / DataPages()
    }

    function PlaceOf(k: nat): nat {
      Geometry();
      k % DataPages()
    }

    ghost predicate Valid() {
      forall a :: |page(a)| == PageSize()
    }

    /** The controller address of the page at a data offset, as every caller computes it. */
    function Address(off: nat): nat {
      off / Pow2(PageShift() - 1) * Pow2(PageShift())
    }

    /** The page at a data offset. */
    function PageAt(off: nat): seq<bv8> {
      page(Address(off))
    }

    lemma Geometry()
      ensures PagesPerBlock() == BlockSize() / PageSize() && Sections() == PageSize() / 512
      ensures Pow2(PageShift() - 1) == PageSize() && Pow2(PageShift()) == 2 * PageSize()
      ensures Base() % BlockSize() == 0 && BlockSize() == PagesPerBlock() * PageSize()
      ensures Base() + BlockSize() <= MaxOffset() < 0x4000_0000
      ensures PageSize() == (if fourK then 4096 else 2048) && PagesPerBlock() == (if fourK then 128 else 64)
    {
      PowersUpTo13();
    }

    /** The blocks that lie between the start of the UBI partition and the end of the scanned range. */
    lemma ScannedBlocks(i: nat)
      ensures Base() + i * BlockSize() < MaxOffset() <==> i < if fourK then 2046 else 4089
      ensures Base() == BlockSize()
    {}

    /** For a page-aligned offset the controller address is twice the offset. */
    lemma AddressIsDouble(off: nat)
      requires off % PageSize() == 0
      ensures Address(off) == 2 * off
    {
      Geometry();
      var n := off / PageSize();
      assert off == n * PageSize();
    }
  }

  lemma PowersUpTo13()
    ensures Pow2(11) == 0x800 && Pow2(12) == 0x1000 && Pow2(13) == 0x2000
  {}

  predicate AllAre(s: seq<bv8>, patt: bv8) {
    forall i :: 0 <= i < |s| ==> s[i] == patt
  }

  /** check_pattern: only the given byte in `size` bytes of the buffer. */
  method CheckPattern(buf: array<bv8>, from: nat, patt: bv8, size: nat) returns (only: bool)
    requires from + size <= buf.Length
    ensures only <==> AllAre(buf[from..from + size], patt)
  {
    var i := 0;
    while i < size
      invariant 0 <= i <= size
      invariant AllAre(buf[from..from + i], patt)
    {
      if buf[from + i] != patt {
        assert buf[from..from + size][i] != patt;
        return false;
      }
      assert buf[from..from + i + 1] == buf[from..from + i] + [patt];
      i := i + 1;
    }
    return true;
  }

  /** A page of nothing but 0xFF. */
  predicate Blank(page: seq<bv8>) {
    AllAre(page, 0xff)
  }

  /** A length in whole words. */
  function WordsUp(len: nat): (r: nat)
    ensures r % 4 == 0 && len <= r < len + 4
  {
    (len + 3) / 4 * 4
  }

  /** read_nand_page: from a controller address to `dest`, in words, the last of which may go beyond `len`. */
  method ReadNandPage(chip: Chip, mem: array<bv8>, dest: nat, src: nat, len: nat)
    requires chip.Valid() && WordsUp(len) <= chip.PageSize() && dest + WordsUp(len) <= mem.Length
    modifies mem
    ensures mem[..] == old(mem[..dest]) + chip.page(src)[..WordsUp(len)] + old(mem[dest + WordsUp(len)..])
  {
    var data := chip.page(src);
    ghost var before := mem[..];
    ghost var end := WordsUp(len);
    var i: nat := 0;
    WordFits(i, len, end);
    while i < len
      invariant WordBoundary(i, len, end)
      invariant Spliced(mem[..], before, data, dest, i)
    {
      NextWord(mem, dest, data, i, before);
      i := i + 4;
      WordFits(i, len, end);
    }
  }

  /** A step of a loop that goes up to `end` in words. */
  ghost predicate WordBoundary(i: nat, len: nat, end: nat) {
    i % 4 == 0 && (if i < len then i + 4 <= end else i == end)
  }

  lemma WordFits(i: nat, len: nat, end: nat)
    requires i % 4 == 0 && i <= end == WordsUp(len)
    ensures WordBoundary(i, len, end)
  {}

  /** One pass of the loop. */
  method NextWord(mem: array<bv8>, dest: nat, data: seq<bv8>, i: nat, ghost before: seq<bv8>)
    requires Spliced(mem[..], before, data, dest, i) && dest + i + 4 <= |before| && i + 4 <= |data|
    modifies mem
    ensures Spliced(mem[..], before, data, dest, i + 4)
  {
    SplicedWord(before, data, dest, i);
    CopyWord(mem, dest + i, data, i);
  }

  /** Memory with the first i bytes of the data at dest. */
  ghost predicate Spliced(m: seq<bv8>, before: seq<bv8>, data: seq<bv8>, dest: nat, i: nat) {
    dest + i <= |before| && i <= |data| && m == before[..dest] + data[..i] + before[dest + i..]
  }

  lemma SplicedWord(before: seq<bv8>, data: seq<bv8>, dest: nat, i: nat)
    requires dest + i + 4 <= |before| && i + 4 <= |data|
    ensures forall m :: Spliced(m, before, data, dest, i) ==>
              Spliced(m[..dest + i] + data[i..i + 4] + m[dest + i + 4..], before, data, dest, i + 4)
  {}

  /** One word from the controller's data window. */
  method CopyWord(mem: array<bv8>, at: nat, data: seq<bv8>, i: nat)
    requires at + 4 <= mem.Length && i + 4 <= |data|
    modifies mem
    ensures mem[..] == old(mem[..at]) + data[i..i + 4] + old(mem[at + 4..])
  {
    mem[at] := data[i];
    mem[at + 1] := data[i + 1];
    mem[at + 2] := data[i + 2];
    mem[at + 3] := data[i + 3];
  }
}
