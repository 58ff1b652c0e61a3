/** What the block table says after a scan, and when it is complete. */
module UbiLaws {
  import opened CrcSpec
  import opened ByteOrder
  import opened Folds
  import opened Nand
  import opened UbiScan

  // ------------------------------------- the verdict, by the bytes on the flash

  /** Bytes a to a + 3 of a page as a number, most significant first. */
  function NumberAt(p: seq<bv8>, a: nat): nat
    requires a + 4 <= |p|
  {
    (p[a] as int) * 0x100_0000 + (p[a + 1] as int) * 0x1_0000 + (p[a + 2] as int) * 0x100 + (p[a + 3] as int)
  }

  /** The block is bad or erased, or its second page cannot be read, is no volume header or is one of another volume. */
  ghost predicate PassedOver(chip: Chip, vol: nat, off: nat)
    requires chip.Valid()
  {
    var a := 2 * (off + chip.PageSize());
    var p := chip.page(a);
    || chip.badBlock(off)
    || (if chip.fourK then forall i :: 0 <= i < |p| ==> p[i] == 0xff else chip.spareErased(off))
    || chip.ecc(a, 0) < 0
    || p[..4] != [0x55, 0x42, 0x49, 0x21]
    || NumberAt(p, 8) != vol
  }

  /** The last four bytes of the header are the CRC of the 60 before, and its last section is within correction. */
  ghost predicate Undamaged(chip: Chip, off: nat)
    requires chip.Valid()
  {
    var a := 2 * (off + chip.PageSize());
    var p := chip.page(a);
    CrcLe(0xffff_ffff, p[..60]) == WordBe(p[60], p[61], p[62], p[63]) && chip.ecc(a, if chip.fourK then 7 else 3) >= 0
  }

  /** What the scan makes of a block. */
  lemma VerdictIff(chip: Chip, vol: nat, off: nat)
    requires chip.Valid() && off % chip.PageSize() == 0
    ensures Judge(chip, vol, off)
         == if PassedOver(chip, vol, off) then Skipped
            else if Undamaged(chip, off) then Member(NumberAt(chip.page(2 * (off + chip.PageSize())), 12))
            else Damaged
  {
    NextPage(chip, off);
    var p := HeaderPage(chip, off);
    MagicBytes(p[0], p[1], p[2], p[3]);
    assert p[..4] == [p[0], p[1], p[2], p[3]];
    NumberIsCount(p, 8);
    NumberIsCount(p, 12);
    VerdictByParts(chip, vol, off, p);
  }

  lemma VerdictByParts(chip: Chip, vol: nat, off: nat, p: seq<bv8>)
    requires chip.Valid() && p == HeaderPage(chip, off) == chip.page(2 * (off + chip.PageSize()))
    requires chip.Address(off + chip.PageSize()) == 2 * (off + chip.PageSize())
    requires HasMagic(p) <==> p[..4] == [0x55, 0x42, 0x49, 0x21]
    requires VolumeOf(p) == NumberAt(p, 8) && LnumOf(p) == NumberAt(p, 12)
    ensures Judge(chip, vol, off)
         == if PassedOver(chip, vol, off) then Skipped else if Undamaged(chip, off) then Member(NumberAt(p, 12)) else Damaged
  {}

  lemma NextPage(chip: Chip, off: nat)
    requires off % chip.PageSize() == 0
    ensures chip.Address(off + chip.PageSize()) == 2 * (off + chip.PageSize())
  {
    chip.AddressIsDouble(off + chip.PageSize());
  }

  lemma MagicBytes(a: bv8, b: bv8, c: bv8, d: bv8)
    ensures WordBe(a, b, c, d) == VID_HDR_MAGIC <==> a == 0x55 && b == 0x42 && c == 0x49 && d == 0x21
  {}

  lemma NumberIsCount(p: seq<bv8>, a: nat)
    requires a + 4 <= |p|
    ensures CountAt(p, a) == NumberAt(p, a)
  {}

  // ---------------------------------------------------- what the flash holds

  /** The volume's blocks from `off` on, in order, up to the first damaged one. */
  function Members(judge: nat -> Verdict, chip: Chip, off: nat): seq<Hit>
    decreases chip.MaxOffset() - off
  {
    if off >= chip.MaxOffset() then []
    else
      match judge(off)
      case Skipped => Members(judge, chip, off + chip.BlockSize())
      case Damaged => []
      case Member(l) => [Hit(off, l)] + Members(judge, chip, off + chip.BlockSize())
  }

  /** Where the first damaged block of the volume is, or else the end of what is scanned. */
  function FirstDamaged(judge: nat -> Verdict, chip: Chip, off: nat): (d: nat)
    ensures off <= d && (d < chip.MaxOffset() ==> judge(d).Damaged?)
    decreases chip.MaxOffset() - off
  {
    if off >= chip.MaxOffset() || judge(off).Damaged? then off else FirstDamaged(judge, chip, off + chip.BlockSize())
  }

  /** The blocks of the flash, counted from `off`. */
  function BlockAt(chip: Chip, off: nat, n: nat): nat {
    off + n * chip.BlockSize()
  }

  lemma NextBlock(chip: Chip, off: nat, n: nat)
    ensures n >= 1 ==> BlockAt(chip, off + chip.BlockSize(), n - 1) == BlockAt(chip, off, n)
    ensures n >= 1 ==> BlockAt(chip, off, n) >= off + chip.BlockSize()
  {}

  /** A hit whose block lies below `d` and is the volume's, under that number. */
  ghost predicate MemberHit(judge: nat -> Verdict, chip: Chip, from: nat, h: Hit) {
    from <= h.off < chip.MaxOffset() && h.off % chip.BlockSize() == from % chip.BlockSize() && judge(h.off) == Member(h.lnum)
  }

  lemma NextOffset(chip: Chip, off: nat)
    ensures (off + chip.BlockSize()) % chip.BlockSize() == off % chip.BlockSize()
  {}

  /** Nothing else is listed, and blocks are listed in increasing order. */
  lemma {:induction false} MembersAreSound(judge: nat -> Verdict, chip: Chip, off: nat, h: Hit)
    requires h in Members(judge, chip, off)
    ensures MemberHit(judge, chip, off, h) && h.off < FirstDamaged(judge, chip, off)
    decreases chip.MaxOffset() - off
  {
    NextOffset(chip, off);
    if h != Hit(off, h.lnum) || judge(off) != Member(h.lnum) {
      MembersAreSound(judge, chip, off + chip.BlockSize(), h);
    } else {
      assert FirstDamaged(judge, chip, off) >= off + chip.BlockSize();
    }
  }

  /** No block of the volume before the first damaged one is passed over. */
  lemma {:induction false} MembersAreComplete(judge: nat -> Verdict, chip: Chip, off: nat, n: nat)
    requires BlockAt(chip, off, n) < FirstDamaged(judge, chip, off) && BlockAt(chip, off, n) < chip.MaxOffset()
    requires judge(BlockAt(chip, off, n)).Member?
    ensures Hit(BlockAt(chip, off, n), judge(BlockAt(chip, off, n)).lnum) in Members(judge, chip, off)
    decreases n
  {
    if n > 0 {
      NextBlock(chip, off, n);
      MembersAreComplete(judge, chip, off + chip.BlockSize(), n - 1);
    }
  }

  lemma {:induction false} MembersIncrease(judge: nat -> Verdict, chip: Chip, off: nat, i: nat, j: nat)
    requires i < j < |Members(judge, chip, off)|
    ensures Members(judge, chip, off)[i].off < Members(judge, chip, off)[j].off
    decreases chip.MaxOffset() - off
  {
    var next := off + chip.BlockSize();
    match judge(off)
    case Skipped => MembersIncrease(judge, chip, next, i, j);
    case Damaged =>
    case Member(l) =>
      if i == 0 {
        MembersAreSound(judge, chip, next, Members(judge, chip, next)[j - 1]);
      } else {
        MembersIncrease(judge, chip, next, i - 1, j - 1);
      }
  }

  // ----------------------------------------------------- what the scan finds

  /** The scan takes one block even when none are reserved. */
  function Wanted(need: nat): nat {
    if need == 0 then 1 else need
  }

  /**
    The scan against the flash: it finds the volume's blocks in order, up to the
    reserved number of them or the first damaged one, and succeeds exactly when
    enough of them come before that, or none are reserved and none is damaged.
   */
  lemma {:induction false} ScanIsPrefix(judge: nat -> Verdict, chip: Chip, off: nat, need: nat)
    ensures Visit(judge, chip, off, need).hits == Cropped(Members(judge, chip, off), Wanted(need))
    ensures Visit(judge, chip, off, need).rc == 0 <==>
              |Members(judge, chip, off)| >= Wanted(need)
              || (need == 0 && FirstDamaged(judge, chip, off) >= chip.MaxOffset())
    ensures Visit(judge, chip, off, need).rc in {-1, 0}
    decreases chip.MaxOffset() - off
  {
    if off < chip.MaxOffset() {
      var next := off + chip.BlockSize();
      match judge(off)
      case Skipped => ScanIsPrefix(judge, chip, next, need);
      case Damaged =>
      case Member(l) =>
        if need > 1 {
          ScanIsPrefix(judge, chip, next, need - 1);
        } else {
          assert ([Hit(off, l)] + Members(judge, chip, next))[..1] == [Hit(off, l)];
        }
    }
  }

  /** A scan that succeeds with blocks reserved has found exactly that many. */
  lemma FoundAll(judge: nat -> Verdict, chip: Chip, off: nat, need: nat)
    requires need >= 1 && Visit(judge, chip, off, need).rc == 0
    ensures |Visit(judge, chip, off, need).hits| == need
  {
    ScanIsPrefix(judge, chip, off, need);
  }

  /** Every hit is a member block within the scanned range, and later hits lie further on. */
  lemma HitsAreMembers(judge: nat -> Verdict, chip: Chip, off: nat, need: nat)
    ensures forall h :: h in Visit(judge, chip, off, need).hits ==> MemberHit(judge, chip, off, h)
    ensures forall i, j :: 0 <= i < j < |Visit(judge, chip, off, need).hits| ==>
              Visit(judge, chip, off, need).hits[i].off < Visit(judge, chip, off, need).hits[j].off
  {
    ScanIsPrefix(judge, chip, off, need);
    var all := Members(judge, chip, off);
    forall h | h in Visit(judge, chip, off, need).hits
      ensures MemberHit(judge, chip, off, h)
    {
      assert h in all;
      MembersAreSound(judge, chip, off, h);
    }
    forall i, j | 0 <= i < j < |Visit(judge, chip, off, need).hits|
      ensures Visit(judge, chip, off, need).hits[i].off < Visit(judge, chip, off, need).hits[j].off
    {
      MembersIncrease(judge, chip, off, i, j);
    }
  }

  /** The scan passes over no block of the volume that lies before its last hit. */
  lemma NothingPassedOver(judge: nat -> Verdict, chip: Chip, off: nat, need: nat, n: nat)
    requires var hits := Visit(judge, chip, off, need).hits;
      hits != [] && BlockAt(chip, off, n) <= hits[|hits| - 1].off && judge(BlockAt(chip, off, n)).Member?
    ensures Hit(BlockAt(chip, off, n), judge(BlockAt(chip, off, n)).lnum) in Visit(judge, chip, off, need).hits
  {
    var hits := Visit(judge, chip, off, need).hits;
    var all := Members(judge, chip, off);
    ScanIsPrefix(judge, chip, off, need);
    MembersAreSound(judge, chip, off, all[|hits| - 1]);
    MembersAreComplete(judge, chip, off, n);
    var h := Hit(BlockAt(chip, off, n), judge(BlockAt(chip, off, n)).lnum);
    var i :| 0 <= i < |all| && all[i] == h;
    if i >= |hits| {
      MembersIncrease(judge, chip, off, |hits| - 1, i);
      assert false;
    }
    assert hits[i] == h;
  }

  /** An entry is the data offset of the last hit with its logical number, or zero if there is none. */
  lemma {:induction false} TableEntry(chip: Chip, hits: seq<Hit>, l: nat)
    requires InRange(hits) && l < TABLE_SIZE
    ensures Table(chip, hits)[l] != 0 <==> exists i :: 0 <= i < |hits| && hits[i].lnum == l
    ensures Table(chip, hits)[l] != 0 ==>
              exists i :: 0 <= i < |hits| && hits[i].lnum == l && Table(chip, hits)[l] == DataOffset(chip, hits[i])
                       && forall j :: i < j < |hits| ==> hits[j].lnum != l
    decreases |hits|
  {
    if hits != [] {
      var n := |hits| - 1;
      var before := hits[..n];
      TableEntry(chip, before, l);
      if hits[n].lnum == l {
        assert hits[n].lnum == l && Table(chip, hits)[l] == DataOffset(chip, hits[n]);
      } else if Table(chip, before)[l] != 0 {
        var i :| 0 <= i < |before| && before[i].lnum == l && Table(chip, before)[l] == DataOffset(chip, before[i])
                 && forall j :: i < j < |before| ==> before[j].lnum != l;
        assert hits[i].lnum == l;
        assert forall j :: i < j < |hits| ==> hits[j].lnum != l;
      } else {
        forall i | 0 <= i < |hits|
          ensures hits[i].lnum != l
        {
          if i < n {
            assert before[i].lnum != l;
          }
        }
      }
    }
  }

  /** A good block whose header has the right magic number, volume, logical number and checksum, read without error. */
  ghost predicate HoldsBlock(chip: Chip, vol: nat, off: nat, l: nat) {
    var p := HeaderPage(chip, off);
    && !chip.badBlock(off)
    && HasMagic(p) && VolumeOf(p) == vol && LnumOf(p) == l && HeaderCrcOk(p)
    && HeaderEcc(chip, off, 0) >= 0 && HeaderEcc(chip, off, chip.Sections() - 1) >= 0
  }

  lemma MemberMeans(chip: Chip, vol: nat, off: nat, l: nat)
    requires Judge(chip, vol, off) == Member(l)
    ensures HoldsBlock(chip, vol, off, l)
  {}

  /**
    The block that the table has for a logical number: of those that the scan
    found with this number the last; it lies in the scanned range.
   */
  ghost predicate Mapped(chip: Chip, vol: nat, reserved: nat, l: nat, h: Hit) {
    && h in VolumeScan(chip, vol, reserved).hits && h.lnum == l
    && (forall g :: g in VolumeScan(chip, vol, reserved).hits && g.lnum == l ==> g.off <= h.off)
    && chip.Base() <= h.off < chip.MaxOffset() && h.off % chip.BlockSize() == 0
    && HoldsBlock(chip, vol, h.off, l)
  }

  /**
    Soundness: after a scan, a nonzero entry for a logical block is the data
    offset, two pages into the block, of a good block of the volume whose header
    carries that logical number; it is the last such block the scan met.
   */
  lemma MapIsSound(chip: Chip, vol: nat, reserved: nat, l: nat) returns (h: Hit)
    requires InRange(VolumeScan(chip, vol, reserved).hits) && l < TABLE_SIZE
    requires Table(chip, VolumeScan(chip, vol, reserved).hits)[l] != 0
    ensures Mapped(chip, vol, reserved, l, h)
    ensures Table(chip, VolumeScan(chip, vol, reserved).hits)[l] == h.off + 2 * chip.PageSize()
  {
    var hits := VolumeScan(chip, vol, reserved).hits;
    TableEntry(chip, hits, l);
    var i :| 0 <= i < |hits| && hits[i].lnum == l && Table(chip, hits)[l] == DataOffset(chip, hits[i])
             && forall j :: i < j < |hits| ==> hits[j].lnum != l;
    h := hits[i];
    LastIsMapped(chip, vol, reserved, hits, l, i);
  }

  lemma LastIsMapped(chip: Chip, vol: nat, reserved: nat, hits: seq<Hit>, l: nat, i: nat)
    requires hits == VolumeScan(chip, vol, reserved).hits
    requires i < |hits| && hits[i].lnum == l && forall j :: i < j < |hits| ==> hits[j].lnum != l
    ensures Mapped(chip, vol, reserved, l, hits[i])
  {
    chip.Geometry();
    HitsAreMembers(Verdicts(chip, vol), chip, chip.Base(), reserved);
    assert MemberHit(Verdicts(chip, vol), chip, chip.Base(), hits[i]);
    MemberMeans(chip, vol, hits[i].off, l);
    forall g | g in hits && g.lnum == l
      ensures g.off <= hits[i].off
    {
      var j :| 0 <= j < |hits| && hits[j] == g;
      assert j <= i;
    }
  }

  // ------------------------------------------------------------- completeness

  function Lnums(hits: seq<Hit>): set<nat> {
    set i | 0 <= i < |hits| :: hits[i].lnum
  }

  ghost predicate Distinct(hits: seq<Hit>) {
    forall i, j :: 0 <= i < j < |hits| ==> hits[i].lnum != hits[j].lnum
  }

  /** The numbers below n. */
  function UpTo(n: nat): (s: set<nat>)
    ensures forall i :: i in s <==> 0 <= i < n
  {
    if n == 0 then {} else UpTo(n - 1) + {n - 1}
  }

  lemma {:induction false} UpToSize(n: nat)
    ensures |UpTo(n)| == n
    decreases n
  {
    if n > 0 {
      UpToSize(n - 1);
    }
  }

  lemma SubsetSize(a: set<nat>, b: set<nat>)
    requires a <= b
    ensures |a| <= |b| && (|a| == |b| ==> a == b)
  {
    assert b == a + (b - a);
    assert |b| == |a| + |b - a|;
  }

  lemma LnumsMore(before: seq<Hit>, h: Hit)
    ensures Lnums(before + [h]) == Lnums(before) + {h.lnum}
    ensures Distinct(before + [h]) <==> Distinct(before) && h.lnum !in Lnums(before)
  {
    var hits := before + [h];
    assert hits[|before|] == h && forall i :: 0 <= i < |before| ==> hits[i] == before[i];
    forall l | l in Lnums(before)
      ensures l in Lnums(hits)
    {
      var i :| 0 <= i < |before| && before[i].lnum == l;
      assert hits[i].lnum == l;
    }
    assert h.lnum == hits[|before|].lnum && h.lnum in Lnums(hits);
    if Distinct(hits) {
      assert forall i :: 0 <= i < |before| ==> hits[i].lnum != h.lnum;
    }
  }

  /** There are as many logical numbers as hits exactly when none repeats. */
  lemma {:induction false} LnumsSize(hits: seq<Hit>)
    ensures |Lnums(hits)| <= |hits|
    ensures |Lnums(hits)| == |hits| <==> Distinct(hits)
    decreases |hits|
  {
    if hits == [] {
      assert Lnums(hits) == {};
    } else {
      var n := |hits| - 1;
      LnumsSize(hits[..n]);
      assert hits == hits[..n] + [hits[n]];
      LnumsMore(hits[..n], hits[n]);
      OneMore(Lnums(hits[..n]), hits[n].lnum);
    }
  }

  lemma OneMore(s: set<nat>, x: nat)
    ensures |s + {x}| == if x in s then |s| else |s| + 1
  {
    if x in s {
      assert s + {x} == s;
    }
  }

  /** The table has an entry for each of the first n logical blocks. */
  ghost predicate Filled(t: seq<nat>, n: nat) {
    n <= |t| && forall l :: 0 <= l < n ==> t[l] != 0
  }

  lemma FilledMeans(chip: Chip, hits: seq<Hit>, n: nat)
    requires InRange(hits) && n <= TABLE_SIZE
    ensures Filled(Table(chip, hits), n) <==> UpTo(n) <= Lnums(hits)
  {
    forall l: nat | l < n
      ensures Table(chip, hits)[l] != 0 <==> l in Lnums(hits)
    {
      TableEntry(chip, hits, l);
    }
    if UpTo(n) <= Lnums(hits) {
      forall l: nat | l < n
        ensures Table(chip, hits)[l] != 0
      {
        assert l in UpTo(n);
      }
    }
  }

  /**
    Completeness: a table made from as many blocks as are reserved has an entry
    for each of the reserved logical blocks exactly when the numbers in their
    headers are pairwise distinct and below the reserved count.
   */
  lemma CompleteIff(chip: Chip, hits: seq<Hit>)
    requires InRange(hits)
    ensures Filled(Table(chip, hits), |hits|) <==>
              Distinct(hits) && forall i :: 0 <= i < |hits| ==> hits[i].lnum < |hits|
  {
    var n := |hits|;
    var s := Lnums(hits);
    UpToSize(n);
    UpToSize(TABLE_SIZE);
    LnumsSize(hits);
    assert s <= UpTo(TABLE_SIZE);
    SubsetSize(s, UpTo(TABLE_SIZE));
    if n <= TABLE_SIZE {
      FilledMeans(chip, hits, n);
      if UpTo(n) <= s {
        SubsetSize(UpTo(n), s);
        assert forall i :: 0 <= i < n ==> hits[i].lnum in s;
      }
      if Distinct(hits) && forall i :: 0 <= i < n ==> hits[i].lnum < n {
        assert s <= UpTo(n);
        SubsetSize(s, UpTo(n));
      }
    }
  }

  /**
    In terms of the flash, for at least one block reserved: the scan succeeds
    and the table has an entry for each reserved logical block exactly when
    enough blocks of the volume come before its first damaged one, and the first
    of them carry distinct numbers below the reserved count.
   */
  lemma ScanCompleteIff(chip: Chip, vol: nat, reserved: nat)
    requires reserved >= 1 && InRange(VolumeScan(chip, vol, reserved).hits)
    ensures var all := Members(Verdicts(chip, vol), chip, chip.Base());
      VolumeScan(chip, vol, reserved).rc == 0 && Filled(Table(chip, VolumeScan(chip, vol, reserved).hits), reserved)
      <==> |all| >= reserved && Distinct(all[..reserved]) && forall h :: h in all[..reserved] ==> h.lnum < reserved
  {
    var all := Members(Verdicts(chip, vol), chip, chip.Base());
    var hits := VolumeScan(chip, vol, reserved).hits;
    ScanIsPrefix(Verdicts(chip, vol), chip, chip.Base(), reserved);
    if |all| >= reserved {
      assert hits == all[..reserved];
      CompleteIff(chip, hits);
    }
  }
}
