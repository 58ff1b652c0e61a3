/** read_uboot of devices/nand/dev_nand.c: booting from the primary volume, or else from the backup. */
module UbiFailover {
  import opened Folds
  import opened ByteOrder
  import opened Nand
  import opened UbiScan
  import opened UbiLaws
  import opened UbiBoot

  /** What the layout scan finds for one of the two volumes; the scan itself stays opaque. */
  datatype Layout = NoLayout | Layout(vol: nat, reserved: nat)

  /** One try at a volume: the stage that failed, or the table and the pages in memory. */
  datatype Attempt = LayoutFailed | ScanFailed | ReadFailed | Loaded(table: seq<nat>, pages: nat)

  function VolumeTable(chip: Chip, vol: nat, reserved: nat): seq<nat>
    requires InRange(VolumeScan(chip, vol, reserved).hits)
  {
    Table(chip, VolumeScan(chip, vol, reserved).hits)
  }

  /** Neither the scan nor the read of this volume goes beyond the table. */
  ghost predicate Fits(chip: Chip, layout: Layout) {
    layout.Layout? ==>
      && InRange(VolumeScan(chip, layout.vol, layout.reserved).hits)
      && (VolumeScan(chip, layout.vol, layout.reserved).rc >= 0 ==>
            Stays(chip, VolumeTable(chip, layout.vol, layout.reserved)))
  }

  ghost function Try(chip: Chip, layout: Layout): Attempt
    requires Fits(chip, layout)
  {
    match layout
    case NoLayout => LayoutFailed
    case Layout(vol, reserved) =>
      if VolumeScan(chip, vol, reserved).rc < 0 then ScanFailed
      else LoadedFrom(chip, VolumeTable(chip, vol, reserved))
  }

  ghost function LoadedFrom(chip: Chip, table: seq<nat>): Attempt
    requires IsTable(table)
  {
    if LoadFrom(chip, table, 0).rc < 0 then ReadFailed else Loaded(table, LoadFrom(chip, table, 0).pages)
  }

  // ------------------------------------------------- staying within the table

  /** Entries 1 to 19 are all filled exactly when the scan has found each of these numbers. */
  lemma FullIff(chip: Chip, hits: seq<Hit>)
    requires InRange(hits)
    ensures Blocks(Table(chip, hits), 1) == TABLE_SIZE <==> forall l :: 1 <= l < TABLE_SIZE ==> l in Lnums(hits)
  {
    var t := Table(chip, hits);
    forall l: nat | 1 <= l < TABLE_SIZE
      ensures t[l] != 0 <==> l in Lnums(hits)
    {
      TableEntry(chip, hits, l);
    }
    if Blocks(t, 1) < TABLE_SIZE {
      assert t[Blocks(t, 1)] == 0;
    }
  }

  /** With at most 18 blocks reserved and numbers in range, a zero entry is always left. */
  lemma ReservedTerminates(chip: Chip, vol: nat, reserved: nat)
    requires InRange(VolumeScan(chip, vol, reserved).hits) && reserved <= 18
    ensures Blocks(VolumeTable(chip, vol, reserved), 1) < TABLE_SIZE && Fits(chip, Layout(vol, reserved))
  {
    var hits := VolumeScan(chip, vol, reserved).hits;
    ScanIsPrefix(Verdicts(chip, vol), chip, chip.Base(), reserved);
    FullIff(chip, hits);
    if Blocks(VolumeTable(chip, vol, reserved), 1) == TABLE_SIZE {
      LnumsSize(hits);
      Pigeons(Lnums(hits), TABLE_SIZE);
      assert false;
    }
  }

  lemma Pigeons(s: set<nat>, n: nat)
    requires n >= 1 && forall l :: 1 <= l < n ==> l in s
    ensures |s| >= n - 1
  {
    UpToSize(n);
    var upper := UpTo(n) - {0};
    assert upper + {0} == UpTo(n);
    SubsetSize(upper, s);
  }

  // -------------------------------------------------------- what is loaded

  /** Offset of page 2 + i of the block that the scan has found for the logical number l. */
  ghost predicate OfVolume(chip: Chip, vol: nat, reserved: nat, l: nat, i: nat, offset: nat) {
    exists h :: Mapped(chip, vol, reserved, l, h) && offset == h.off + (2 + i) * chip.PageSize()
  }

  /** Some block that the scan found carries this number. */
  ghost predicate Found(chip: Chip, vol: nat, reserved: nat, l: nat) {
    exists h :: h in VolumeScan(chip, vol, reserved).hits && h.lnum == l
  }

  lemma FoundIff(chip: Chip, vol: nat, reserved: nat, l: nat)
    requires InRange(VolumeScan(chip, vol, reserved).hits) && l < TABLE_SIZE
    ensures Found(chip, vol, reserved, l) <==> VolumeTable(chip, vol, reserved)[l] != 0
  {
    var hits := VolumeScan(chip, vol, reserved).hits;
    TableEntry(chip, hits, l);
    if Found(chip, vol, reserved, l) {
      var h :| h in hits && h.lnum == l;
      var i :| 0 <= i < |hits| && hits[i] == h;
    }
    if VolumeTable(chip, vol, reserved)[l] != 0 {
      var i :| 0 <= i < |hits| && hits[i].lnum == l;
      assert hits[i] in hits;
    }
  }

  /** In terms of the flash: one of the volume's first blocks, before any damaged one, carries the number. */
  lemma FoundOnFlash(chip: Chip, vol: nat, reserved: nat, l: nat)
    ensures Found(chip, vol, reserved, l) <==>
              exists h :: h in Cropped(Members(Verdicts(chip, vol), chip, chip.Base()), Wanted(reserved)) && h.lnum == l
  {
    ScanIsPrefix(Verdicts(chip, vol), chip, chip.Base(), reserved);
  }

  /** The offset of page i of a mapped block. */
  lemma MappedOffset(chip: Chip, vol: nat, reserved: nat, h: Hit, l: nat, i: nat, entry: nat)
    requires Mapped(chip, vol, reserved, l, h) && entry == h.off + 2 * chip.PageSize()
    ensures OfVolume(chip, vol, reserved, l, i, entry + i * chip.PageSize())
  {
    Spread(i, chip.PageSize());
  }

  lemma Spread(i: nat, n: nat)
    ensures (2 + i) * n == 2 * n + i * n
  {}

  /**
    Page k of the image is page 2 + k mod (pages per block - 2) of a block of
    the volume with the number k div (pages per block - 2) exactly when the scan
    has found a block with that number.
   */
  lemma PageOfVolumeIff(chip: Chip, vol: nat, reserved: nat, k: nat, l: nat, i: nat)
    requires InRange(VolumeScan(chip, vol, reserved).hits)
    requires l == chip.BlockOf(k) < TABLE_SIZE && i == chip.PlaceOf(k)
    ensures OfVolume(chip, vol, reserved, l, i, PageOffset(chip, VolumeTable(chip, vol, reserved), k)) <==> Found(chip, vol, reserved, l)
  {
    var t := VolumeTable(chip, vol, reserved);
    FoundIff(chip, vol, reserved, l);
    if t[l] != 0 {
      var h := MapIsSound(chip, vol, reserved, l);
      MappedOffset(chip, vol, reserved, h, l, i, t[l]);
    } else {
      Spread(i, chip.PageSize());
    }
  }

  /**
    The loaded pages are all of the volume exactly when the scan has found a
    block with number 0. The read takes entry 0 whatever it holds: without such
    a block it is zero, and the pages come from the start of the flash.
   */
  lemma LoadedFromVolumeIff(chip: Chip, vol: nat, reserved: nat, table: seq<nat>, pages: nat)
    requires InRange(VolumeScan(chip, vol, reserved).hits) && table == VolumeTable(chip, vol, reserved)
    requires 0 < pages <= Total(chip, table)
    ensures forall k :: 0 <= k < pages ==> chip.BlockOf(k) < TABLE_SIZE
    ensures (forall k :: 0 <= k < pages ==>
              OfVolume(chip, vol, reserved, chip.BlockOf(k), chip.PlaceOf(k), PageOffset(chip, table, k)))
       <==> Found(chip, vol, reserved, 0)
  {
    forall k: nat | k < pages
      ensures chip.BlockOf(k) < TABLE_SIZE
      ensures chip.BlockOf(k) >= 1 || Found(chip, vol, reserved, 0) ==>
                OfVolume(chip, vol, reserved, chip.BlockOf(k), chip.PlaceOf(k), PageOffset(chip, table, k))
    {
      EveryOther(chip, vol, reserved, table, k);
    }
    FirstPage(chip, vol, reserved);
  }

  lemma EveryOther(chip: Chip, vol: nat, reserved: nat, table: seq<nat>, k: nat)
    requires InRange(VolumeScan(chip, vol, reserved).hits) && table == VolumeTable(chip, vol, reserved)
    requires k < Total(chip, table)
    ensures chip.BlockOf(k) < TABLE_SIZE
    ensures chip.BlockOf(k) >= 1 || Found(chip, vol, reserved, 0) ==>
              OfVolume(chip, vol, reserved, chip.BlockOf(k), chip.PlaceOf(k), PageOffset(chip, table, k))
  {
    var l := chip.BlockOf(k);
    BlockOfPage(chip, Blocks(table, 1), k);
    PageOfVolumeIff(chip, vol, reserved, k, l, chip.PlaceOf(k));
    FoundIff(chip, vol, reserved, l);
  }

  lemma FirstPage(chip: Chip, vol: nat, reserved: nat)
    requires InRange(VolumeScan(chip, vol, reserved).hits)
    ensures chip.BlockOf(0) == 0 && chip.PlaceOf(0) == 0
    ensures OfVolume(chip, vol, reserved, 0, 0, PageOffset(chip, VolumeTable(chip, vol, reserved), 0)) <==> Found(chip, vol, reserved, 0)
  {
    PageOfVolumeIff(chip, vol, reserved, 0, 0, 0);
  }

  /** What a try that loads has loaded: good pages of the blocks of that volume's scan, up to the map's end or an erased page. */
  lemma LoadedMeans(chip: Chip, vol: nat, reserved: nat, table: seq<nat>, pages: nat)
    requires Fits(chip, Layout(vol, reserved)) && Try(chip, Layout(vol, reserved)) == Loaded(table, pages)
    ensures InRange(VolumeScan(chip, vol, reserved).hits) && VolumeScan(chip, vol, reserved).rc >= 0
    ensures table == VolumeTable(chip, vol, reserved) && pages <= Total(chip, table)
    ensures forall k :: 0 <= k < pages ==> GoodPage(chip, table, k)
    ensures pages < Total(chip, table) ==> StopsErased(chip, table, pages)
  {
    LoadStops(chip, table, 0);
  }

  /** Enough blocks of the volume come before its first damaged one; if none are reserved, one, or no damaged one. */
  ghost predicate Enough(chip: Chip, vol: nat, reserved: nat) {
    var judge := Verdicts(chip, vol);
    if reserved == 0 then Members(judge, chip, chip.Base()) != [] || FirstDamaged(judge, chip, chip.Base()) >= chip.MaxOffset()
    else |Members(judge, chip, chip.Base())| >= reserved
  }

  /**
    When a volume boots, by what is on the flash: its layout is found, enough of
    its blocks are there, and its image does not end at a page beyond correction.
   */
  ghost predicate Boots(chip: Chip, layout: Layout)
    requires Fits(chip, layout)
  {
    && layout.Layout?
    && Enough(chip, layout.vol, layout.reserved)
    && !exists n :: Ends(chip, VolumeTable(chip, layout.vol, layout.reserved), n, -1)
  }

  /** A try loads exactly then, and up to the first erased page or the end of the map. */
  lemma LoadsIff(chip: Chip, layout: Layout, table: seq<nat>, pages: nat)
    requires Fits(chip, layout)
    ensures Try(chip, layout).Loaded? <==> Boots(chip, layout)
    ensures Try(chip, layout) == Loaded(table, pages) <==>
              && Boots(chip, layout) && table == VolumeTable(chip, layout.vol, layout.reserved)
              && (Ends(chip, table, pages, 0) || Ends(chip, table, pages, 1))
  {
    if layout.Layout? {
      var t := VolumeTable(chip, layout.vol, layout.reserved);
      ScanIsPrefix(Verdicts(chip, layout.vol), chip, chip.Base(), layout.reserved);
      ReadFailsIff(chip, t);
      LoadIff(chip, t, pages, 0);
      LoadIff(chip, t, pages, 1);
      LoadStops(chip, t, 0);
    }
  }

  lemma ReadFailsIff(chip: Chip, table: seq<nat>)
    requires IsTable(table)
    ensures LoadFrom(chip, table, 0).rc < 0 <==> exists n :: Ends(chip, table, n, -1)
  {
    LoadStops(chip, table, 0);
    LoadIff(chip, table, LoadFrom(chip, table, 0).pages, -1);
    if n: nat :| Ends(chip, table, n, -1) {
      LoadIff(chip, table, n, -1);
    }
  }

  /**
    The image is the volume's reserved blocks, all of them in order, exactly when
    the numbers that the scan found are distinct and below the reserved count.
   */
  lemma WholeVolume(chip: Chip, vol: nat, reserved: nat)
    requires 1 <= reserved && InRange(VolumeScan(chip, vol, reserved).hits) && VolumeScan(chip, vol, reserved).rc == 0
    ensures Blocks(VolumeTable(chip, vol, reserved), 1) == reserved && Found(chip, vol, reserved, 0)
       <==> Distinct(VolumeScan(chip, vol, reserved).hits)
            && forall h :: h in VolumeScan(chip, vol, reserved).hits ==> h.lnum < reserved
    ensures Blocks(VolumeTable(chip, vol, reserved), 1) == reserved ==>
              Total(chip, VolumeTable(chip, vol, reserved)) == reserved * chip.DataPages()
  {
    FoundAll(Verdicts(chip, vol), chip, chip.Base(), reserved);
    FoundIff(chip, vol, reserved, 0);
    FilledIsWhole(chip, VolumeScan(chip, vol, reserved).hits);
  }

  lemma FilledIsWhole(chip: Chip, hits: seq<Hit>)
    requires InRange(hits) && hits != []
    ensures Blocks(Table(chip, hits), 1) == |hits| && Table(chip, hits)[0] != 0
       <==> Distinct(hits) && forall h :: h in hits ==> h.lnum < |hits|
  {
    var t := Table(chip, hits);
    CompleteIff(chip, hits);
    if Blocks(t, 1) == |hits| && t[0] != 0 {
      assert Filled(t, |hits|);
    }
    if Filled(t, |hits|) {
      NoneBehind(chip, hits);
    }
  }

  /** Numbers below n leave entry n zero, if there is one. */
  lemma NoneBehind(chip: Chip, hits: seq<Hit>)
    requires InRange(hits) && hits != [] && Filled(Table(chip, hits), |hits|)
    ensures Blocks(Table(chip, hits), 1) == |hits| && Table(chip, hits)[0] != 0
  {
    CompleteIff(chip, hits);
    if |hits| < TABLE_SIZE {
      TableEntry(chip, hits, |hits|);
    }
  }

  // ------------------------------------------------------------ in memory

  /** Page j of memory. */
  ghost predicate PageIs(chip: Chip, m: seq<bv8>, j: nat, page: seq<bv8>) {
    && j * chip.PageSize() <= (j + 1) * chip.PageSize() <= |m|
    && m[j * chip.PageSize()..(j + 1) * chip.PageSize()] == page
  }

  /** Page j of memory is page 2 + i of the block that the scan has found for the logical number l. */
  ghost predicate FromVolume(chip: Chip, vol: nat, reserved: nat, l: nat, i: nat, m: seq<bv8>, j: nat) {
    exists h ::
      && Mapped(chip, vol, reserved, l, h)
      && PageIs(chip, m, j, chip.page(2 * (h.off + (2 + i) * chip.PageSize())))
  }

  /**
    Memory after a boot: page j comes from the volume's block with number
    j div (pages per block - 2), except that without a block of number 0 the
    first pages are those at the start of the flash, outside the UBI partition.
   */
  ghost predicate Booted(chip: Chip, vol: nat, reserved: nat, m: seq<bv8>, j: nat)
  {
    if j >= chip.DataPages() || Found(chip, vol, reserved, 0)
    then FromVolume(chip, vol, reserved, chip.BlockOf(j), chip.PlaceOf(j), m, j)
    else PageIs(chip, m, j, chip.page(2 * (j * chip.PageSize())))
  }

  lemma AlignedOffset(chip: Chip, off: nat, i: nat)
    requires off % chip.BlockSize() == 0
    ensures chip.PageAt(off + i * chip.PageSize()) == chip.page(2 * (off + i * chip.PageSize()))
  {
    if chip.fourK {
      PageAligned4K(off, i);
    } else {
      PageAligned2K(off, i);
    }
    chip.AddressIsDouble(off + i * chip.PageSize());
  }

  lemma PageAligned4K(off: nat, i: nat)
    requires off % 0x80000 == 0
    ensures (off + i * 0x1000) % 0x1000 == 0
  {
    var q := off / 0x80000;
    assert off == 0x80000 * q;
    DivModUnique(off + i * 0x1000, 0x1000, 0x80 * q + i, 0);
  }

  lemma PageAligned2K(off: nat, i: nat)
    requires off % 0x20000 == 0
    ensures (off + i * 0x800) % 0x800 == 0
  {
    var q := off / 0x20000;
    assert off == 0x20000 * q;
    DivModUnique(off + i * 0x800, 0x800, 0x40 * q + i, 0);
  }

  lemma PageOfImage(chip: Chip, table: seq<nat>, pages: nat, m: seq<bv8>, j: nat)
    requires chip.Valid() && InMemory(chip, table, m, pages) && j < pages
    ensures chip.BlockOf(j) < Blocks(table, 1)
    ensures PageIs(chip, m, j, chip.PageAt(PageOffset(chip, table, j)))
  {
    ImagePage(chip, table, pages, j);
    BlockOfPage(chip, Blocks(table, 1), j);
    Within(m, Image(chip, table, pages), j * chip.PageSize(), (j + 1) * chip.PageSize());
  }

  lemma Within(m: seq<bv8>, image: seq<bv8>, a: nat, b: nat)
    requires a <= b <= |image| <= |m| && m[..|image|] == image
    ensures m[a..b] == image[a..b]
  {
    assert m[..|image|][a..b] == m[a..b];
  }

  /** What holds of every page once the image of a volume's table is in memory. */
  lemma BootedPage(chip: Chip, vol: nat, reserved: nat, table: seq<nat>, m: seq<bv8>, j: nat)
    requires InRange(VolumeScan(chip, vol, reserved).hits) && table == VolumeTable(chip, vol, reserved)
    requires chip.BlockOf(j) < Blocks(table, 1)
    requires PageIs(chip, m, j, chip.PageAt(PageOffset(chip, table, j)))
    ensures Booted(chip, vol, reserved, m, j)
  {
    var l, i := chip.BlockOf(j), chip.PlaceOf(j);
    FoundIff(chip, vol, reserved, l);
    if table[l] != 0 {
      ImagePageOfVolume(chip, vol, reserved, table, m, j, l, i);
    } else {
      SmallIndex(chip, j);
      UnmappedPage(chip, table, m, j);
    }
    BootedCases(chip, vol, reserved, m, j, l, i);
  }

  lemma BootedCases(chip: Chip, vol: nat, reserved: nat, m: seq<bv8>, j: nat, l: nat, i: nat)
    requires l == chip.BlockOf(j) && i == chip.PlaceOf(j)
    requires l >= 1 || Found(chip, vol, reserved, 0) ==> FromVolume(chip, vol, reserved, l, i, m, j)
    requires !(l >= 1 || Found(chip, vol, reserved, 0)) ==> PageIs(chip, m, j, chip.page(2 * (j * chip.PageSize())))
    ensures Booted(chip, vol, reserved, m, j)
  {
    SmallIndex(chip, j);
  }

  lemma ImagePageOfVolume(chip: Chip, vol: nat, reserved: nat, table: seq<nat>, m: seq<bv8>, j: nat, l: nat, i: nat)
    requires InRange(VolumeScan(chip, vol, reserved).hits) && table == VolumeTable(chip, vol, reserved)
    requires l == chip.BlockOf(j) < TABLE_SIZE && i == chip.PlaceOf(j)
    requires Found(chip, vol, reserved, l) && PageIs(chip, m, j, chip.PageAt(PageOffset(chip, table, j)))
    ensures FromVolume(chip, vol, reserved, l, i, m, j)
  {
    PageOfVolumeIff(chip, vol, reserved, j, l, i);
    MappedPage(chip, vol, reserved, l, i, PageOffset(chip, table, j), m, j);
  }

  lemma UnmappedPage(chip: Chip, table: seq<nat>, m: seq<bv8>, j: nat)
    requires 0 <= j < chip.DataPages() && table != [] && table[0] == 0 && chip.BlockOf(j) < |table|
    requires PageIs(chip, m, j, chip.PageAt(PageOffset(chip, table, j)))
    ensures PageIs(chip, m, j, chip.page(2 * (j * chip.PageSize())))
  {
    SmallIndex(chip, j);
    AlignedOffset(chip, 0, j);
  }

  lemma MappedPage(chip: Chip, vol: nat, reserved: nat, l: nat, i: nat, offset: nat, m: seq<bv8>, j: nat)
    requires OfVolume(chip, vol, reserved, l, i, offset) && PageIs(chip, m, j, chip.PageAt(offset))
    ensures FromVolume(chip, vol, reserved, l, i, m, j)
  {
    var h :| Mapped(chip, vol, reserved, l, h) && offset == h.off + (2 + i) * chip.PageSize();
    MappedAt(chip, vol, reserved, h, l, i, h.off + (2 + i) * chip.PageSize(), m, j);
  }

  lemma MappedAt(chip: Chip, vol: nat, reserved: nat, h: Hit, l: nat, i: nat, offset: nat, m: seq<bv8>, j: nat)
    requires Mapped(chip, vol, reserved, l, h) && offset == h.off + (2 + i) * chip.PageSize()
    requires PageIs(chip, m, j, chip.PageAt(offset))
    ensures FromVolume(chip, vol, reserved, l, i, m, j)
  {
    AlignedOffset(chip, h.off, 2 + i);
  }

  lemma SmallIndex(chip: Chip, j: nat)
    ensures chip.BlockOf(j) == 0 <==> j < chip.DataPages()
    ensures j < chip.DataPages() ==> chip.PlaceOf(j) == j
  {
    chip.Geometry();
  }

  // ------------------------------------------------------------- the program

  /** What read_uboot does about a volume, in order. */
  datatype Event =
    | LookingUp(n: nat)
    | GivenUp(n: nat)
    | Booting(n: nat)

  /** The try has loaded its pages, and memory starts with them. */
  ghost predicate Has(chip: Chip, mem: array<bv8>, layout: Layout)
    requires Fits(chip, layout)
    reads mem
  {
    && Try(chip, layout).Loaded? && layout.Layout?
    && forall j :: 0 <= j < Try(chip, layout).pages ==> Booted(chip, layout.vol, layout.reserved, mem[..], j)
  }

  /** One pass of the loop over the volumes. */
  method TryVolume(b: BootState, mem: array<bv8>, layout: Layout) returns (ok: bool)
    requires b.Valid() && mem != b.ddr && Fits(b.chip, layout)
    requires mem.Length >= TABLE_SIZE * b.chip.BlockSize()
    modifies b`reserved, b.ddr, b.maptable, mem
    ensures b.Valid() && ok == Try(b.chip, layout).Loaded? == Boots(b.chip, layout)
    ensures ok ==> Has(b.chip, mem, layout)
  {
    LoadsIff(b.chip, layout, [], 0);
    match layout
    case NoLayout => return false;
    case Layout(vol, reserved) =>
      b.reserved := reserved;
      var found := b.ScanVid(vol);
      if found < 0 {
        return false;
      }
      ok := LoadVolume(b, mem, vol, reserved);
  }

  /** The map read for a volume that has been scanned. */
  method LoadVolume(b: BootState, mem: array<bv8>, vol: nat, reserved: nat) returns (ok: bool)
    requires b.Valid() && Fits(b.chip, Layout(vol, reserved)) && VolumeScan(b.chip, vol, reserved).rc >= 0
    requires b.maptable[..] == VolumeTable(b.chip, vol, reserved)
    requires mem.Length >= TABLE_SIZE * b.chip.BlockSize()
    modifies mem
    ensures ok == Try(b.chip, Layout(vol, reserved)).Loaded?
    ensures ok ==> Has(b.chip, mem, Layout(vol, reserved))
  {
    ghost var t := b.maptable[..];
    ghost var load := LoadFrom(b.chip, t, 0);
    Room(b.chip, t, mem.Length);
    var rc := ReadMapTable(b, mem);
    ok := rc >= 0;
    forall j: nat | j < load.pages
      ensures Booted(b.chip, vol, reserved, mem[..], j)
    {
      PageOfImage(b.chip, t, load.pages, mem[..], j);
      BootedPage(b.chip, vol, reserved, t, mem[..], j);
    }
  }

  lemma Room(chip: Chip, table: seq<nat>, length: nat)
    requires chip.Valid() && IsTable(table) && length >= TABLE_SIZE * chip.BlockSize()
    ensures |Image(chip, table, Total(chip, table))| <= length
  {
    ImageLength(chip, table, Total(chip, table));
    chip.Geometry();
    MulGrows(chip.DataPages(), Blocks(table, 1), TABLE_SIZE);
    MulGrows(chip.PageSize(), Total(chip, table), TABLE_SIZE * chip.PagesPerBlock());
  }

  /**
    read_uboot: first the primary volume, then, if some stage of it failed, the
    backup. It returns 0 exactly when one of them loaded; memory then holds the
    pages of that volume's table, which are the volume's own if its scan found a
    block with number 0.
   */
  method ReadUboot(b: BootState, mem: array<bv8>, layouts: seq<Layout>) returns (rc: int, log: seq<Event>)
    requires b.Valid() && mem != b.ddr && |layouts| == 2
    requires Fits(b.chip, layouts[0]) && (!Boots(b.chip, layouts[0]) ==> Fits(b.chip, layouts[1]))
    requires mem.Length >= TABLE_SIZE * b.chip.BlockSize()
    modifies b`reserved, b.ddr, b.maptable, b.crc.crcTable, mem
    ensures b.Valid()
    ensures rc == if Boots(b.chip, layouts[0]) || Boots(b.chip, layouts[1]) then 0 else -1
    ensures LookingUp(0) in log && (LookingUp(1) in log <==> !Boots(b.chip, layouts[0]))
    ensures Booting(0) in log <==> Boots(b.chip, layouts[0])
    ensures Booting(1) in log <==> !Boots(b.chip, layouts[0]) && Boots(b.chip, layouts[1])
    ensures Booting(0) in log ==> Has(b.chip, mem, layouts[0])
    ensures Booting(1) in log ==> !Boots(b.chip, layouts[0]) && Has(b.chip, mem, layouts[1])
  {
    b.crc.CrcInit();
    log := [];
    var volume := 0;
    while volume < 2
      invariant 0 <= volume <= 2 && b.Valid()
      invariant volume > 0 ==> log == [LookingUp(0), GivenUp(0)] && !Boots(b.chip, layouts[0])
      invariant volume == 0 ==> log == []
      invariant volume < 2
    {
      log := log + [LookingUp(volume)];
      var ok := TryVolume(b, mem, layouts[volume]);
      if ok {
        log := log + [Booting(volume)];
        return 0, log;
      }
      log := log + [GivenUp(volume)];
      if volume == 1 {
        return -1, log;
      }
      volume := volume + 1;
    }
  }
}
