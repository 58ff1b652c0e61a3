/** scanvid of devices/nand/dev_nand.c: from volume headers to the table of blocks. */
module UbiScan {
  import opened CrcSpec
  import opened ByteOrder
  import opened Crc32Barr
  import opened Nand

  const VID_HDR_MAGIC: bv32 := 0x5542_4921
  const VID_HDR_SIZE_CRC := 60
  const TABLE_SIZE := 20

  /** What the scan makes of one block: not of the volume, of it with a logical number, or of it but damaged. */
  datatype Verdict = Skipped | Member(lnum: nat) | Damaged

  /** The volume identifier header in the second page of a block. */
  function HeaderPage(chip: Chip, off: nat): seq<bv8> {
    chip.PageAt(off + chip.PageSize())
  }

  /** The result of error correction on one section of the header page. */
  function HeaderEcc(chip: Chip, off: nat, section: nat): int {
    chip.ecc(chip.Address(off + chip.PageSize()), section)
  }

  /** Magic number, volume, and checksum of the header page. */
  predicate HasMagic(p: seq<bv8>) {
    |p| >= 64 && WordAt(p, 0) == VID_HDR_MAGIC
  }

  function VolumeOf(p: seq<bv8>): nat
    requires |p| >= 64
  {
    CountAt(p, 8)
  }

  function LnumOf(p: seq<bv8>): nat
    requires |p| >= 64
  {
    CountAt(p, 12)
  }

  predicate HeaderCrcOk(p: seq<bv8>)
    requires |p| >= 64
  {
    CrcLe(0xffff_ffff, p[..VID_HDR_SIZE_CRC]) == WordAt(p, VID_HDR_SIZE_CRC)
  }

  /** Bad, or erased as far as the check of this geometry can tell. */
  predicate Unused(chip: Chip, off: nat) {
    chip.badBlock(off) || (if chip.fourK then Blank(HeaderPage(chip, off)) else chip.spareErased(off))
  }

  /** What the header says, given the error correction of its first and last section. */
  function JudgeHeader(p: seq<bv8>, vol: nat, first: int, last: int): Verdict {
    if first < 0 || !HasMagic(p) || VolumeOf(p) != vol then Skipped
    else if HeaderCrcOk(p) && last >= 0 then Member(LnumOf(p))
    else Damaged
  }

  function Judge(chip: Chip, vol: nat, off: nat): Verdict {
    if Unused(chip, off) then Skipped
    else JudgeHeader(HeaderPage(chip, off), vol, HeaderEcc(chip, off, 0), HeaderEcc(chip, off, chip.Sections() - 1))
  }

  lemma JudgeHeld(chip: Chip, vol: nat, off: nat, p: seq<bv8>, v: Verdict)
    requires !Unused(chip, off) && p == HeaderPage(chip, off)
    requires v == JudgeHeader(p, vol, HeaderEcc(chip, off, 0), HeaderEcc(chip, off, chip.Sections() - 1))
    ensures v == Judge(chip, vol, off)
  {}

  /** A block of the volume, in the order of the scan. */
  datatype Hit = Hit(off: nat, lnum: nat)

  datatype Scan = Scan(rc: int, hits: seq<Hit>)

  /** The scan from block offset `off` on, when `need` more blocks are reserved for the volume. */
  function Visit(judge: nat -> Verdict, chip: Chip, off: nat, need: nat): Scan
    decreases chip.MaxOffset() - off
  {
    if off >= chip.MaxOffset() then Scan(if need > 0 then -1 else 0, [])
    else
      match judge(off)
      case Skipped => Visit(judge, chip, off + chip.BlockSize(), need)
      case Damaged => Scan(-1, [])
      case Member(l) =>
        if need <= 1 then Scan(0, [Hit(off, l)])
        else
          var rest := Visit(judge, chip, off + chip.BlockSize(), need - 1);
          Scan(rest.rc, [Hit(off, l)] + rest.hits)
  }

  /** After `hits`, with `need` blocks still to find at block offset `off`, the whole scan is going to be `all`. */
  ghost predicate Underway(judge: nat -> Verdict, chip: Chip, off: nat, need: nat, hits: seq<Hit>, all: Scan) {
    all == Scan(Visit(judge, chip, off, need).rc, hits + Visit(judge, chip, off, need).hits)
  }

  lemma PassBlock(judge: nat -> Verdict, chip: Chip, off: nat, need: nat, hits: seq<Hit>, all: Scan)
    requires off < chip.MaxOffset() && Underway(judge, chip, off, need, hits, all) && InRange(all.hits)
    ensures judge(off).Skipped? ==> Underway(judge, chip, off + chip.BlockSize(), need, hits, all)
    ensures judge(off).Damaged? ==> all == Scan(-1, hits)
    ensures judge(off).Member? && need <= 1 ==> all == Scan(0, hits + [Hit(off, judge(off).lnum)])
    ensures judge(off).Member? && need > 1 ==>
              Underway(judge, chip, off + chip.BlockSize(), need - 1, hits + [Hit(off, judge(off).lnum)], all)
    ensures judge(off).Member? ==> judge(off).lnum < TABLE_SIZE
  {
    match judge(off)
    case Skipped => {}
    case Damaged => assert hits + [] == hits;
    case Member(l) =>
      assert all.hits[|hits|] == Hit(off, l);
      if need > 1 {
        var rest := Visit(judge, chip, off + chip.BlockSize(), need - 1);
        assert hits + ([Hit(off, l)] + rest.hits) == (hits + [Hit(off, l)]) + rest.hits;
      }
  }

  /** The verdicts on the blocks of a chip. */
  function Verdicts(chip: Chip, vol: nat): nat -> Verdict {
    (off: nat) => Judge(chip, vol, off)
  }

  ghost predicate Knows(judge: nat -> Verdict, chip: Chip, vol: nat) {
    forall off: nat {:trigger Judge(chip, vol, off)} :: judge(off) == Judge(chip, vol, off)
  }

  /** The whole scan for a volume. */
  function VolumeScan(chip: Chip, vol: nat, reserved: nat): Scan {
    Visit(Verdicts(chip, vol), chip, chip.Base(), reserved)
  }

  /** Where the data of a block starts. */
  function DataOffset(chip: Chip, h: Hit): nat {
    h.off + chip.PageSize() * 2
  }

  /** The table has an entry for each of these blocks. */
  ghost predicate InRange(hits: seq<Hit>) {
    forall i :: 0 <= i < |hits| ==> hits[i].lnum < TABLE_SIZE
  }

  /** The table after the hits, starting from all zeros: a later block replaces an earlier one. */
  function Table(chip: Chip, hits: seq<Hit>): (t: seq<nat>)
    requires InRange(hits)
    ensures |t| == TABLE_SIZE
    decreases |hits|
  {
    if hits == [] then seq(TABLE_SIZE, _ => 0)
    else
      var last := hits[|hits| - 1];
      Table(chip, hits[..|hits| - 1])[last.lnum := DataOffset(chip, last)]
  }

  // ------------------------------------------------------------- the program

  /** The static state of the boot code: page buffer, block table, reserved count and CRC table. */
  class BootState {
    const chip: Chip
    const ddr: array<bv8>
    const maptable: array<nat>
    const crc: Barr
    var reserved: nat

    ghost predicate Valid()
      reads this, crc.crcTable
    {
      && chip.Valid()
      && ddr.Length == chip.PageSize()
      && maptable.Length == TABLE_SIZE
      && crc.Ready()
    }

    constructor (chip: Chip)
      requires chip.Valid()
      ensures Valid() && this.chip == chip && fresh(ddr) && fresh(maptable) && fresh(crc) && fresh(crc.crcTable)
    {
      this.chip := chip;
      ddr := new bv8[chip.PageSize()];
      maptable := new nat[TABLE_SIZE](_ => 0);
      var b := new Barr();
      crc := b;
      reserved := 0;
      new;
      crc.CrcInit();
    }

    /** Skip bad and erased blocks; otherwise bring the header page into the buffer. */
    method LoadHeader(off: nat) returns (unused: bool)
      requires Valid()
      modifies ddr
      ensures unused == Unused(chip, off)
      ensures !unused ==> ddr[..] == HeaderPage(chip, off)
    {
      if chip.badBlock(off) {
        return true;
      }
      if !chip.fourK {
        if chip.spareErased(off) {
          return true;
        }
        LoadPage(chip.Address(off + chip.PageSize()));
        return false;
      }
      LoadPage(chip.Address(off + chip.PageSize()));
      unused := CheckPattern(ddr, 0, 0xff, chip.PageSize());
      assert ddr[0..chip.PageSize()] == ddr[..];
    }

    method LoadPage(address: nat)
      requires Valid()
      modifies ddr
      ensures ddr[..] == chip.page(address)
    {
      ReadNandPage(chip, ddr, 0, address, chip.PageSize());
      assert ddr[..] == chip.page(address);
    }

    /** Error correction of the sections after the first; only the last result is kept. */
    method LastEcc(off: nat, first: int) returns (errs: int)
      requires first == HeaderEcc(chip, off, 0)
      ensures errs == HeaderEcc(chip, off, chip.Sections() - 1)
    {
      chip.Geometry();
      errs := first;
      var section := 1;
      while section < chip.Sections()
        invariant 1 <= section <= chip.Sections()
        invariant errs == HeaderEcc(chip, off, section - 1)
      {
        errs := HeaderEcc(chip, off, section);
        section := section + 1;
      }
    }

    /** The decision on a header page in the buffer. */
    method DecideHeader(vol: nat, off: nat, p: seq<bv8>) returns (v: Verdict)
      requires Valid() && |p| >= 64
      ensures v == JudgeHeader(p, vol, HeaderEcc(chip, off, 0), HeaderEcc(chip, off, chip.Sections() - 1))
    {
      var first := HeaderEcc(chip, off, 0);
      if first < 0 {
        return Skipped;
      }
      if WordAt(p, 0) != VID_HDR_MAGIC {
        return Skipped;
      }
      var errs := LastEcc(off, first);
      if VolumeOf(p) != vol {
        return Skipped;
      }
      var sum := crc.CrcFast(p[..VID_HDR_SIZE_CRC]);
      if sum == WordAt(p, VID_HDR_SIZE_CRC) && errs >= 0 {
        return Member(LnumOf(p));
      }
      return Damaged;
    }

    /** What the scan decides for one block. */
    method JudgeBlock(vol: nat, off: nat) returns (v: Verdict)
      requires Valid()
      modifies ddr
      ensures v == Judge(chip, vol, off)
    {
      var unused := LoadHeader(off);
      if unused {
        v := Skipped;
      } else {
        var p := ddr[..];
        v := DecideHeader(vol, off, p);
        JudgeHeld(chip, vol, off, p, v);
      }
    }

    /** scanvid: clear the table, then fill it block by block until enough blocks are found. */
    method ScanVid(vol: nat) returns (rc: int)
      requires Valid() && InRange(VolumeScan(chip, vol, reserved).hits)
      modifies ddr, maptable
      ensures Valid() && Scanned(VolumeScan(chip, vol, reserved), rc)
    {
      ClearTable();
      rc := ScanBlocks(vol, Verdicts(chip, vol));
    }

    /** The return code and the table are those of the scan. */
    ghost predicate Scanned(s: Scan, rc: int)
      reads maptable
    {
      rc == s.rc && InTable(s.hits)
    }

    /** Before the block at `off`: the hits so far are in the table, and more are needed, unless none are reserved. */
    ghost predicate AtBlock(judge: nat -> Verdict, off: nat, hits: seq<Hit>, all: Scan)
      reads this, maptable
    {
      && InTable(hits) && InRange(all.hits)
      && (hits != [] ==> |hits| < reserved)
      && Underway(judge, chip, off, reserved - |hits|, hits, all)
    }

    method ScanBlocks(vol: nat, ghost judge: nat -> Verdict) returns (rc: int)
      requires Valid() && Knows(judge, chip, vol) && InRange(Visit(judge, chip, chip.Base(), reserved).hits)
      requires maptable[..] == Table(chip, [])
      modifies ddr, maptable
      ensures Valid() && Scanned(Visit(judge, chip, chip.Base(), reserved), rc)
    {
      var off: nat := chip.Base();
      var found: nat := 0;
      ghost var hits: seq<Hit> := [];
      ghost var all := Visit(judge, chip, off, reserved);
      assert [] + all.hits == all.hits;
      while off < chip.MaxOffset()
        invariant found == |hits| && AtBlock(judge, off, hits, all)
        decreases chip.MaxOffset() - off
      {
        var v;
        v, hits := ScanBlock(vol, off, judge, hits, all);
        if v.Damaged? {
          return -1;
        }
        if v.Member? {
          found := found + 1;
          if found >= reserved {
            return 0;
          }
        }
        off := off + chip.BlockSize();
      }
      assert hits + [] == hits;
      rc := if found < reserved then -1 else 0;
    }

    /** One pass of the loop: the scan ends at a damaged block or with the last block needed, or goes on. */
    method ScanBlock(vol: nat, off: nat, ghost judge: nat -> Verdict, ghost hits: seq<Hit>, ghost all: Scan)
      returns (v: Verdict, ghost more: seq<Hit>)
      requires Valid() && Knows(judge, chip, vol) && off < chip.MaxOffset() && AtBlock(judge, off, hits, all)
      modifies ddr, maptable
      ensures |more| == if v.Member? then |hits| + 1 else |hits|
      ensures v.Damaged? ==> Scanned(all, -1)
      ensures v.Member? && |more| >= reserved ==> Scanned(all, 0)
      ensures v.Skipped? || (v.Member? && |more| < reserved) ==> AtBlock(judge, off + chip.BlockSize(), more, all)
    {
      PassBlock(judge, chip, off, reserved - |hits|, hits, all);
      v := VisitBlock(vol, off, judge, hits);
      more := if v.Member? then hits + [Hit(off, v.lnum)] else hits;
    }

    method ClearTable()
      requires Valid()
      modifies maptable
      ensures Valid() && maptable[..] == Table(chip, [])
    {
      var index := 0;
      while index < TABLE_SIZE
        invariant 0 <= index <= TABLE_SIZE
        invariant forall i :: 0 <= i < index ==> maptable[i] == 0
      {
        maptable[index] := 0;
        index := index + 1;
      }
    }

    /** The table holds exactly these blocks. */
    ghost predicate InTable(hits: seq<Hit>)
      reads maptable
    {
      InRange(hits) && maptable[..] == Table(chip, hits)
    }

    method Consult(vol: nat, off: nat, ghost judge: nat -> Verdict) returns (v: Verdict)
      requires Valid() && Knows(judge, chip, vol)
      modifies ddr
      ensures v == judge(off)
    {
      v := JudgeBlock(vol, off);
    }

    /** Judge one block and enter it in the table if it is one of the volume's. */
    method VisitBlock(vol: nat, off: nat, ghost judge: nat -> Verdict, ghost hits: seq<Hit>) returns (v: Verdict)
      requires Valid() && Knows(judge, chip, vol) && InTable(hits)
      requires judge(off).Member? ==> judge(off).lnum < TABLE_SIZE
      modifies ddr, maptable
      ensures v == judge(off)
      ensures InTable(if v.Member? then hits + [Hit(off, v.lnum)] else hits)
    {
      v := Consult(vol, off, judge);
      if v.Member? {
        maptable[v.lnum] := off + chip.PageSize() * 2;
        TableMore(chip, hits, Hit(off, v.lnum));
      }
    }
  }

  lemma TableMore(chip: Chip, hits: seq<Hit>, h: Hit)
    requires h.lnum < TABLE_SIZE && InRange(hits)
    ensures Table(chip, hits + [h]) == Table(chip, hits)[h.lnum := DataOffset(chip, h)]
  {
    assert (hits + [h])[..|hits|] == hits;
  }
}
