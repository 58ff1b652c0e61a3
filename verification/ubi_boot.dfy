/** readmapTable of devices/nand/dev_nand.c: assembling the image from the table. */
module UbiBoot {
  import opened ByteOrder
  import opened Nand
  import opened UbiScan

  // ------------------------------------------------------------ the image

  /** Blocks read: up to the first zero entry after entry 0, which is read in any case. */
  function Blocks(table: seq<nat>, from: nat): (n: nat)
    requires from <= |table|
    ensures from <= n <= |table|
    ensures forall i :: from <= i < n ==> table[i] != 0
    ensures n == |table| || table[n] == 0
    decreases |table| - from
  {
    if from < |table| && table[from] != 0 then Blocks(table, from + 1) else from
  }

  predicate IsTable(table: seq<nat>) {
    |table| == TABLE_SIZE
  }

  /** The data offset of page k of the image. */
  function PageOffset(chip: Chip, table: seq<nat>, k: nat): nat
    requires chip.BlockOf(k) < |table|
  {
    table[chip.BlockOf(k)] + chip.PlaceOf(k) * chip.PageSize()
  }

  /** An erased page, as far as the check of this geometry can tell. */
  predicate EndsImage(chip: Chip, off: nat) {
    if chip.fourK then Blank(chip.PageAt(off)) else chip.spareErased(off)
  }

  predicate Uncorrectable(chip: Chip, off: nat) {
    exists s :: 0 <= s < chip.Sections() && chip.ecc(chip.Address(off), s) < 0
  }

  /** How the read ends, and how many pages of the image are good. */
  datatype Load = Load(rc: int, pages: nat)

  function Total(chip: Chip, table: seq<nat>): nat
    requires IsTable(table)
  {
    Blocks(table, 1) * chip.DataPages()
  }

  /** Page i of the data of block b of the image. */
  lemma PageIndex(chip: Chip, b: nat, i: nat)
    requires i < chip.DataPages()
    ensures chip.BlockOf(b * chip.DataPages() + i) == b && chip.PlaceOf(b * chip.DataPages() + i) == i
  {
    DivModUnique(b * chip.DataPages() + i, chip.DataPages(), b, i);
  }

  lemma BlockOfPage(chip: Chip, blocks: nat, k: nat)
    requires k < blocks * chip.DataPages()
    ensures chip.BlockOf(k) < blocks
  {
    chip.Geometry();
    Quotient(chip.DataPages(), blocks, k);
  }

  lemma Quotient(n: nat, blocks: nat, k: nat)
    requires n > 0 && k < blocks * n
    ensures k / n < blocks
  {
    if k / n >= blocks {
      MulGrows(n, blocks, k / n);
    }
  }

  lemma MulGrows(n: nat, a: nat, b: nat)
    requires a <= b
    ensures a * n <= b * n
  {}

  function LoadFrom(chip: Chip, table: seq<nat>, k: nat): Load
    requires IsTable(table)
    decreases Total(chip, table) - k
  {
    if k >= Total(chip, table) then Load(0, k)
    else
      BlockOfPage(chip, Blocks(table, 1), k);
      var off := PageOffset(chip, table, k);
      if EndsImage(chip, off) then Load(1, k)
      else if Uncorrectable(chip, off) then Load(-1, k)
      else LoadFrom(chip, table, k + 1)
  }

  /** The first k pages of the image, one after the other. */
  function Image(chip: Chip, table: seq<nat>, k: nat): seq<bv8>
    requires IsTable(table) && k <= Total(chip, table)
  {
    if k == 0 then []
    else
      BlockOfPage(chip, Blocks(table, 1), k - 1);
      Image(chip, table, k - 1) + chip.PageAt(PageOffset(chip, table, k - 1))
  }

  lemma {:induction false} ImageLength(chip: Chip, table: seq<nat>, k: nat)
    requires chip.Valid() && IsTable(table) && k <= Total(chip, table)
    ensures |Image(chip, table, k)| == k * chip.PageSize()
    decreases k
  {
    if k > 0 {
      ImageLength(chip, table, k - 1);
      NextBytes(k - 1, chip.PageSize());
    }
  }

  lemma ImageNext(chip: Chip, table: seq<nat>, k: nat)
    requires IsTable(table) && k < Total(chip, table)
    ensures chip.BlockOf(k) < |table|
    ensures Image(chip, table, k + 1) == Image(chip, table, k) + chip.PageAt(PageOffset(chip, table, k))
  {
    BlockOfPage(chip, Blocks(table, 1), k);
  }

  /** Page j of the image is page 2 + j mod (pages per block - 2) of the block mapped for j div (pages per block - 2). */
  lemma {:induction false} ImagePage(chip: Chip, table: seq<nat>, k: nat, j: nat)
    requires chip.Valid() && IsTable(table) && j < k <= Total(chip, table)
    ensures chip.BlockOf(j) < |table|
    ensures j * chip.PageSize() <= (j + 1) * chip.PageSize() <= |Image(chip, table, k)|
    ensures Image(chip, table, k)[j * chip.PageSize()..(j + 1) * chip.PageSize()]
         == chip.PageAt(PageOffset(chip, table, j))
    decreases k
  {
    BlockOfPage(chip, Blocks(table, 1), j);
    ImageLength(chip, table, k - 1);
    ImageNext(chip, table, k - 1);
    AppendPage(Image(chip, table, k - 1), chip.PageAt(PageOffset(chip, table, k - 1)), chip.PageSize(), k - 1, j);
    if j < k - 1 {
      ImagePage(chip, table, k - 1, j);
    }
  }

  /** Pages of a sequence that grows by a page. */
  lemma AppendPage(s: seq<bv8>, page: seq<bv8>, size: nat, n: nat, j: nat)
    requires |s| == n * size && |page| == size && j <= n
    ensures j * size <= (j + 1) * size <= |s + page|
    ensures j < n ==> (j + 1) * size <= |s|
    ensures (s + page)[j * size..(j + 1) * size] == if j < n then s[j * size..(j + 1) * size] else page
  {
    MulGrows(size, j, j + 1);
    MulGrows(size, j + 1, n + 1);
    NextBytes(n, size);
    if j < n {
      MulGrows(size, j + 1, n);
    }
  }

  // ------------------------------------ where the read ends, by what the chip returns

  /** A page is erased: all its bytes are 0xFF, or the spare area says so. */
  ghost predicate ErasedAt(chip: Chip, off: nat) {
    if chip.fourK then forall i :: 0 <= i < |chip.page(chip.Address(off))| ==> chip.page(chip.Address(off))[i] == 0xff
    else chip.spareErased(off)
  }

  /** One of its 8 or 4 sections is beyond correction. */
  ghost predicate BrokenAt(chip: Chip, off: nat) {
    exists s :: 0 <= s < (if chip.fourK then 8 else 4) && chip.ecc(chip.Address(off), s) < 0
  }

  ghost predicate ErasedPage(chip: Chip, table: seq<nat>, k: nat)
    requires chip.BlockOf(k) < |table|
  {
    ErasedAt(chip, PageOffset(chip, table, k))
  }

  ghost predicate BrokenPage(chip: Chip, table: seq<nat>, k: nat)
    requires chip.BlockOf(k) < |table|
  {
    BrokenAt(chip, PageOffset(chip, table, k))
  }

  ghost predicate GoodPage(chip: Chip, table: seq<nat>, k: nat)
    requires IsTable(table) && k < Total(chip, table)
  {
    BlockOfPage(chip, Blocks(table, 1), k);
    !ErasedPage(chip, table, k) && !BrokenPage(chip, table, k)
  }

  ghost predicate StopsErased(chip: Chip, table: seq<nat>, k: nat)
    requires IsTable(table) && k <= Total(chip, table)
  {
    k < Total(chip, table) && (BlockOfPage(chip, Blocks(table, 1), k); ErasedPage(chip, table, k))
  }

  lemma PageTests(chip: Chip, off: nat)
    ensures EndsImage(chip, off) <==> ErasedAt(chip, off)
    ensures Uncorrectable(chip, off) <==> BrokenAt(chip, off)
  {}

  /**
    Where the read stops: all pages before `pages` are good, and the return code
    is 0 exactly at the map's end, 1 exactly at an erased page, and negative
    exactly at a page that is not erased but beyond correction.
   */
  lemma {:induction false} LoadStops(chip: Chip, table: seq<nat>, k: nat)
    requires IsTable(table) && k <= Total(chip, table)
    ensures k <= LoadFrom(chip, table, k).pages <= Total(chip, table)
    ensures forall j :: k <= j < LoadFrom(chip, table, k).pages ==> GoodPage(chip, table, j)
    ensures LoadFrom(chip, table, k).pages < Total(chip, table) ==> !GoodPage(chip, table, LoadFrom(chip, table, k).pages)
    ensures LoadFrom(chip, table, k).rc == 0 <==> LoadFrom(chip, table, k).pages == Total(chip, table)
    ensures LoadFrom(chip, table, k).rc == 1 <==> StopsErased(chip, table, LoadFrom(chip, table, k).pages)
    ensures LoadFrom(chip, table, k).rc in {-1, 0, 1}
    decreases Total(chip, table) - k
  {
    if k < Total(chip, table) {
      NextPage(chip, table, k);
      PageTests(chip, PageOffset(chip, table, k));
      if GoodPage(chip, table, k) {
        LoadStops(chip, table, k + 1);
      }
    }
  }

  /** The read ends before page n with this return code: 0 behind the last page, 1 at an erased page, -1 at a broken one. */
  ghost predicate Ends(chip: Chip, table: seq<nat>, n: nat, rc: int)
    requires IsTable(table)
  {
    && n <= Total(chip, table)
    && (forall k :: 0 <= k < n ==> GoodPage(chip, table, k))
    && (n < Total(chip, table) ==> !GoodPage(chip, table, n))
    && rc == (if n == Total(chip, table) then 0 else if StopsErased(chip, table, n) then 1 else -1)
  }

  lemma LoadIff(chip: Chip, table: seq<nat>, n: nat, rc: int)
    requires IsTable(table)
    ensures LoadFrom(chip, table, 0) == Load(rc, n) <==> Ends(chip, table, n, rc)
  {
    LoadStops(chip, table, 0);
  }

  /** The read never looks behind the table: an entry after entry 0 is zero, or a page ends it before. */
  ghost predicate Stays(chip: Chip, table: seq<nat>)
    requires IsTable(table)
  {
    Blocks(table, 1) < TABLE_SIZE || LoadFrom(chip, table, 0).rc != 0
  }

  /** It does look behind it exactly when entries 1 to 19 are all filled and every page of the 20 blocks is good. */
  lemma StaysIff(chip: Chip, table: seq<nat>)
    requires IsTable(table)
    ensures Stays(chip, table) <==>
              !((forall i :: 1 <= i < TABLE_SIZE ==> table[i] != 0)
                && forall k :: 0 <= k < Total(chip, table) ==> GoodPage(chip, table, k))
  {
    LoadStops(chip, table, 0);
    var load := LoadFrom(chip, table, 0);
    if load.pages < Total(chip, table) {
      assert !GoodPage(chip, table, load.pages);
    }
  }

  // ------------------------------------------------------------- the program

  datatype PageResult = Good | Erased | BadPage

  /** Error correction over the sections of a page; it stops at the first that fails. */
  method CorrectPage(chip: Chip, off: nat) returns (failed: bool)
    ensures failed == Uncorrectable(chip, off)
  {
    var section := 0;
    while section < chip.Sections()
      invariant 0 <= section <= chip.Sections()
      invariant forall s :: 0 <= s < section ==> chip.ecc(chip.Address(off), s) >= 0
    {
      if chip.ecc(chip.Address(off), section) < 0 {
        return true;
      }
      section := section + 1;
    }
    return false;
  }

  /** Read one page to its place in memory and check it. */
  method ReadPage(chip: Chip, mem: array<bv8>, bytes: nat, off: nat) returns (r: PageResult)
    requires chip.Valid() && bytes + chip.PageSize() <= mem.Length
    modifies mem
    ensures mem[..bytes] == old(mem[..bytes])
    ensures mem[bytes..bytes + chip.PageSize()] == chip.PageAt(off)
    ensures r == if EndsImage(chip, off) then Erased else if Uncorrectable(chip, off) then BadPage else Good
    ensures r == if ErasedAt(chip, off) then Erased else if BrokenAt(chip, off) then BadPage else Good
  {
    PageTests(chip, off);
    ReadNandPage(chip, mem, bytes, chip.Address(off), chip.PageSize());
    assert mem[bytes..bytes + chip.PageSize()] == chip.PageAt(off);
    var erased;
    if !chip.fourK {
      erased := chip.spareErased(off);
    } else {
      erased := CheckPattern(mem, bytes, 0xff, chip.PageSize());
    }
    if erased {
      return Erased;
    }
    var failed := CorrectPage(chip, off);
    r := if failed then BadPage else Good;
  }

  lemma NextPage(chip: Chip, table: seq<nat>, k: nat)
    requires IsTable(table) && k < Total(chip, table)
    ensures chip.BlockOf(k) < |table|
    ensures var off := PageOffset(chip, table, k);
      && LoadFrom(chip, table, k)
         == (if EndsImage(chip, off) then Load(1, k) else if Uncorrectable(chip, off) then Load(-1, k) else LoadFrom(chip, table, k + 1))
  {
    BlockOfPage(chip, Blocks(table, 1), k);
  }

  lemma NextBytes(k: nat, n: nat)
    ensures k * n + n == (k + 1) * n
  {}

  /** What the read goes by: the pages of the map, and for each page how the read goes on and the image before it. */
  datatype Plan = Plan(total: nat, loads: nat -> Load, images: nat -> seq<bv8>)

  ghost predicate PlanFor(plan: Plan, chip: Chip, t: seq<nat>) {
    && IsTable(t)
    && plan.total == Total(chip, t)
    && (forall k: nat {:trigger LoadAt(chip, t, k)} :: plan.loads(k) == LoadAt(chip, t, k))
    && (forall k: nat {:trigger ImageAt(chip, t, k)} :: plan.images(k) == ImageAt(chip, t, k))
  }

  function LoadAt(chip: Chip, t: seq<nat>, k: nat): Load
    requires IsTable(t)
  {
    LoadFrom(chip, t, k)
  }

  function ImageAt(chip: Chip, t: seq<nat>, k: nat): seq<bv8>
    requires IsTable(t)
  {
    if k <= Total(chip, t) then Image(chip, t, k) else []
  }

  lemma PlanMeans(plan: Plan, chip: Chip, t: seq<nat>, k: nat)
    requires PlanFor(plan, chip, t) && k <= plan.total
    ensures plan.loads(k) == LoadFrom(chip, t, k) && plan.images(k) == Image(chip, t, k)
  {
    assert plan.loads(k) == LoadAt(chip, t, k) && plan.images(k) == ImageAt(chip, t, k);
  }

  /** The table is fixed, and memory has room for all it describes. */
  ghost predicate Reading(b: BootState, t: seq<nat>, plan: Plan, mem: array<bv8>)
    reads b.maptable
  {
    && b.chip.Valid()
    && b.maptable[..] == t
    && PlanFor(plan, b.chip, t)
    && |plan.images(plan.total)| <= mem.Length
  }

  /** Memory starts with the first k pages of the image. */
  ghost predicate Holds(plan: Plan, mem: array<bv8>, k: nat)
    reads mem
  {
    k <= plan.total && |plan.images(k)| <= mem.Length && mem[..|plan.images(k)|] == plan.images(k)
  }

  /** The state before page k: the pages before it are in memory, `bytes` is the matching offset, and the read goes on from there. */
  ghost predicate AtPage(plan: Plan, mem: array<bv8>, load: Load, bytes: nat, k: nat)
    reads mem
  {
    Holds(plan, mem, k) && bytes == |plan.images(k)| && plan.loads(k) == load
  }

  /** The page the read is at, and what it means for the rest. */
  lemma PlanPage(plan: Plan, chip: Chip, t: seq<nat>, k: nat, length: nat)
    requires chip.Valid() && PlanFor(plan, chip, t) && k < plan.total && |plan.images(plan.total)| <= length
    ensures chip.BlockOf(k) < |t| && |plan.images(k)| + chip.PageSize() <= length
    ensures var off := PageOffset(chip, t, k);
      && plan.images(k + 1) == plan.images(k) + chip.PageAt(off)
      && plan.loads(k)
         == (if EndsImage(chip, off) then Load(1, k) else if Uncorrectable(chip, off) then Load(-1, k) else plan.loads(k + 1))
  {
    NextPage(chip, t, k);
    ImageNext(chip, t, k);
    PlanMeans(plan, chip, t, k);
    PlanMeans(plan, chip, t, k + 1);
    PlanMeans(plan, chip, t, plan.total);
    ImageLength(chip, t, k);
    ImageLength(chip, t, plan.total);
    NextBytes(k, chip.PageSize());
    MulGrows(chip.PageSize(), k + 1, plan.total);
  }

  /** One pass of the inner loop: page i of logical block `index`. */
  method ReadImagePage(b: BootState, mem: array<bv8>, index: nat, i: nat, bytes: nat,
                       ghost t: seq<nat>, ghost plan: Plan, ghost load: Load, ghost k: nat)
    returns (r: PageResult)
    requires Reading(b, t, plan, mem) && AtPage(plan, mem, load, bytes, k) && k < plan.total
    requires i < b.chip.DataPages() && index < TABLE_SIZE && k == index * b.chip.DataPages() + i
    modifies mem
    ensures b.maptable[..] == t
    ensures r.Good? ==> AtPage(plan, mem, load, bytes + b.chip.PageSize(), k + 1)
    ensures !r.Good? ==> load == Load(if r.Erased? then 1 else -1, k) && Holds(plan, mem, k)
  {
    PlanPage(plan, b.chip, t, k, mem.Length);
    PageIndex(b.chip, index, i);
    r := ReadPage(b.chip, mem, bytes, b.maptable[index] + i * b.chip.PageSize());
    Extends(mem[..], plan.images(k), b.chip.PageAt(PageOffset(b.chip, t, k)));
  }

  lemma Extends(m: seq<bv8>, image: seq<bv8>, page: seq<bv8>)
    requires |image| + |page| <= |m| && m[..|image|] == image && m[|image|..|image| + |page|] == page
    ensures m[..|image + page|] == image + page
  {
    assert m[..|image| + |page|] == m[..|image|] + m[|image|..|image| + |page|];
  }

  lemma PageCount(n: nat, blocks: nat, index: nat)
    requires index < blocks
    ensures index * n + n == (index + 1) * n <= blocks * n
  {
    MulGrows(n, index + 1, blocks);
    NextBytes(index, n);
  }

  /** The inner loop: the data pages of one block, from page `start` of the image. */
  method ReadBlock(b: BootState, mem: array<bv8>, index: nat, from: nat,
                   ghost t: seq<nat>, ghost plan: Plan, ghost load: Load, ghost start: nat)
    returns (r: PageResult, bytes: nat)
    requires Reading(b, t, plan, mem) && AtPage(plan, mem, load, from, start)
    requires index < TABLE_SIZE && start == index * b.chip.DataPages() && start + b.chip.DataPages() <= plan.total
    modifies mem
    ensures b.maptable[..] == t
    ensures r.Good? ==> AtPage(plan, mem, load, bytes, start + b.chip.DataPages())
    ensures !r.Good? ==> load.rc == (if r.Erased? then 1 else -1) && Holds(plan, mem, load.pages)
  {
    bytes := from;
    var i: nat := 0;
    ghost var k: nat := start;
    while i < b.chip.DataPages()
      invariant i <= b.chip.DataPages() && k == start + i && AtPage(plan, mem, load, bytes, k)
      invariant b.maptable[..] == t
    {
      r := ReadImagePage(b, mem, index, i, bytes, t, plan, load, k);
      if !r.Good? {
        return;
      }
      bytes := bytes + b.chip.PageSize();
      i, k := i + 1, k + 1;
    }
    r := Good;
  }

  /**
    readmapTable: block after block until a zero entry. The return code is 0 at
    the end of the map, 1 at an erased page and -1 at a page beyond correction,
    and memory starts with the image up to there.
   */
  method ReadMapTable(b: BootState, mem: array<bv8>) returns (rc: int)
    requires b.chip.Valid() && IsTable(b.maptable[..]) && Stays(b.chip, b.maptable[..])
    requires |Image(b.chip, b.maptable[..], Total(b.chip, b.maptable[..]))| <= mem.Length
    modifies mem
    ensures rc == LoadFrom(b.chip, b.maptable[..], 0).rc
    ensures InMemory(b.chip, b.maptable[..], mem[..], LoadFrom(b.chip, b.maptable[..], 0).pages)
    ensures exists n :: Ends(b.chip, b.maptable[..], n, rc) && InMemory(b.chip, b.maptable[..], mem[..], n)
  {
    ghost var t := b.maptable[..];
    ghost var plan := PlanOf(b.chip, t);
    ghost var load := LoadFrom(b.chip, t, 0);
    LoadStops(b.chip, t, 0);
    PlanMeans(plan, b.chip, t, 0);
    PlanMeans(plan, b.chip, t, load.pages);
    PlanMeans(plan, b.chip, t, plan.total);
    LoadIff(b.chip, t, load.pages, load.rc);
    rc := ReadBlocks(b, mem, t, plan, load);
    assert mem[..][..|Image(b.chip, t, load.pages)|] == Image(b.chip, t, load.pages);
  }

  /** Memory starts with the first k pages of the image. */
  ghost predicate InMemory(chip: Chip, t: seq<nat>, m: seq<bv8>, k: nat) {
    IsTable(t) && k <= Total(chip, t) && Image(chip, t, k) <= m
  }

  function PlanOf(chip: Chip, t: seq<nat>): (plan: Plan)
    requires IsTable(t)
    ensures PlanFor(plan, chip, t)
  {
    Plan(Total(chip, t), (k: nat) => LoadAt(chip, t, k), (k: nat) => ImageAt(chip, t, k))
  }

  /** The outer loop. */
  method ReadBlocks(b: BootState, mem: array<bv8>, ghost t: seq<nat>, ghost plan: Plan, ghost load: Load) returns (rc: int)
    requires Reading(b, t, plan, mem) && Stays(b.chip, t) && load == plan.loads(0)
    modifies mem
    ensures rc == load.rc && Holds(plan, mem, load.pages)
  {
    var bytes: nat, index: nat, r := 0, 0, Good;
    ghost var k: nat := 0;
    AtStart(b.chip, t, plan, mem);
    var more := true;
    while more
      invariant index <= Blocks(t, 1) && (more <==> index < Blocks(t, 1))
      invariant k == index * b.chip.DataPages() && AtPage(plan, mem, load, bytes, k) && b.maptable[..] == t
      decreases Blocks(t, 1) - index, more
    {
      r, bytes, more, k := ReadNextBlock(b, mem, index, bytes, t, plan, load, k);
      if !r.Good? {
        return if r.Erased? then 1 else -1;
      }
      index := index + 1;
    }
    AtEnd(plan, b.chip, t, k);
    rc := 0;
  }

  /** One pass of the outer loop, and whether there is another. */
  method ReadNextBlock(b: BootState, mem: array<bv8>, index: nat, from: nat,
                       ghost t: seq<nat>, ghost plan: Plan, ghost load: Load, ghost start: nat)
    returns (r: PageResult, bytes: nat, more: bool, ghost k: nat)
    requires Reading(b, t, plan, mem) && Stays(b.chip, t) && load == plan.loads(0)
    requires index < Blocks(t, 1) && start == index * b.chip.DataPages() && AtPage(plan, mem, load, from, start)
    modifies mem
    ensures b.maptable[..] == t
    ensures r.Good? ==> k == (index + 1) * b.chip.DataPages() && AtPage(plan, mem, load, bytes, k)
    ensures r.Good? ==> index + 1 <= Blocks(t, 1) && (more <==> index + 1 < Blocks(t, 1))
    ensures !r.Good? ==> load.rc == (if r.Erased? then 1 else -1) && Holds(plan, mem, load.pages)
  {
    more, k := false, start + b.chip.DataPages();
    BlockFits(b.chip, t, index);
    r, bytes := ReadBlock(b, mem, index, from, t, plan, load, start);
    if r.Good? {
      EntryExists(plan, b.chip, t, index, k);
      more := b.maptable[index + 1] != 0;
    }
  }

  lemma BlockFits(chip: Chip, t: seq<nat>, index: nat)
    requires IsTable(t) && index < Blocks(t, 1)
    ensures index * chip.DataPages() + chip.DataPages() == (index + 1) * chip.DataPages() <= Total(chip, t)
  {
    PageCount(chip.DataPages(), Blocks(t, 1), index);
  }

  lemma AtStart(chip: Chip, t: seq<nat>, plan: Plan, mem: array<bv8>)
    requires PlanFor(plan, chip, t)
    ensures AtPage(plan, mem, plan.loads(0), 0, 0)
  {
    PlanMeans(plan, chip, t, 0);
    assert Image(chip, t, 0) == [] == mem[..0];
  }

  /** Behind the last block the read is over, with return code 0. */
  lemma AtEnd(plan: Plan, chip: Chip, t: seq<nat>, k: nat)
    requires PlanFor(plan, chip, t) && k == Blocks(t, 1) * chip.DataPages()
    ensures k == plan.total && plan.loads(k) == Load(0, k)
  {
    PlanMeans(plan, chip, t, k);
  }

  /** After a good block there is another entry to look at. */
  lemma EntryExists(plan: Plan, chip: Chip, t: seq<nat>, index: nat, k: nat)
    requires PlanFor(plan, chip, t) && Stays(chip, t) && plan.loads(k) == plan.loads(0)
    requires index < Blocks(t, 1) && k == (index + 1) * chip.DataPages()
    ensures index + 1 < TABLE_SIZE && (t[index + 1] != 0 <==> index + 1 < Blocks(t, 1))
  {
    if index + 1 == Blocks(t, 1) {
      AtEnd(plan, chip, t, k);
      PlanMeans(plan, chip, t, 0);
    }
  }
}
