/**
  Flashes made of blocks of chosen kinds: what a scan finds on them, that every
  list of numbers is on one, and the ones on which the boot path goes wrong.
 */
module UbiFlash {
  import opened Folds
  import opened CrcSpec
  import opened CrcLaws
  import opened ByteOrder
  import opened Nand
  import opened UbiScan
  import opened UbiLaws
  import opened UbiBoot
  import opened UbiFailover

  const PAGE := 0x1000
  const BLOCK := 0x80000
  /** The blocks that a scan covers on a flash with 4 KB pages. */
  const BLOCKS := 2046

  function Zeroes(n: nat): (r: seq<bv8>)
    ensures |r| == n
  {
    seq(n, _ => 0)
  }

  /** The part of a volume header that its checksum covers. */
  function HeaderFields(vol: nat, l: nat): (h: seq<bv8>)
    ensures |h| == VID_HDR_SIZE_CRC
  {
    StoreBeBytes(VID_HDR_MAGIC);
    StoreBe(VID_HDR_MAGIC) + Zeroes(4) + CountBytes(vol) + CountBytes(l) + Zeroes(44)
  }

  /** A volume header at the start of a page, with this checksum. */
  function HeaderWith(vol: nat, l: nat, sum: bv32, size: nat): (p: seq<bv8>)
    requires size >= 64
    ensures |p| == size
  {
    StoreBeBytes(sum);
    HeaderFields(vol, l) + StoreBe(sum) + Zeroes(size - 64)
  }

  function HeaderOf(vol: nat, l: nat, size: nat): (p: seq<bv8>)
    requires size >= 64
    ensures |p| == size
  {
    HeaderWith(vol, l, CrcLe(0xffff_ffff, HeaderFields(vol, l)), size)
  }

  lemma FieldsOf(m: seq<bv8>, a: seq<bv8>, v: seq<bv8>, l: seq<bv8>, b: seq<bv8>, s: seq<bv8>, c: seq<bv8>, p: seq<bv8>)
    requires |m| == |a| == |v| == |l| == |s| == 4 && |b| == 44
    requires p == (m + a + v + l + b) + s + c
    ensures |p| >= 64 && p[0..4] == m && p[8..12] == v && p[12..16] == l && p[60..64] == s && p[..60] == m + a + v + l + b
  {}

  lemma SmallCount(p: seq<bv8>, i: nat, n: nat)
    requires i + 4 <= |p| && p[i..i + 4] == CountBytes(n) && n < 0x1_0000_0000
    ensures CountAt(p, i) == n
  {
    StoredCount(p, i, n);
    NoWrap(n, CountAt(p, i));
  }

  lemma NoWrap(n: nat, c: nat)
    requires c == n % 0x1_0000_0000 && n < 0x1_0000_0000
    ensures c == n
  {}

  lemma FieldsRead(p: seq<bv8>, vol: nat, l: nat, magic: seq<bv8>, v: seq<bv8>, n: seq<bv8>)
    requires vol < 0x1_0000_0000 && l < 0x1_0000_0000 && |p| >= 64
    requires p[0..4] == magic && p[8..12] == v && p[12..16] == n
    requires magic == StoreBe(VID_HDR_MAGIC) && v == CountBytes(vol) && n == CountBytes(l)
    ensures WordAt(p, 0) == VID_HDR_MAGIC && CountAt(p, 8) == vol && CountAt(p, 12) == l
  {
    StoredWord(p, 0, VID_HDR_MAGIC);
    SmallCount(p, 8, vol);
    SmallCount(p, 12, l);
  }

  /** The header reads as what it was made from, and its checksum is right if it is the CRC. */
  lemma HeaderReads(vol: nat, l: nat, sum: bv32, size: nat)
    requires vol < 0x1_0000_0000 && l < 0x1_0000_0000 && size >= 64
    ensures var p := HeaderWith(vol, l, sum, size);
      && HasMagic(p) && VolumeOf(p) == vol && LnumOf(p) == l
      && (HeaderCrcOk(p) <==> sum == CrcLe(0xffff_ffff, HeaderFields(vol, l)))
  {
    var p := HeaderWith(vol, l, sum, size);
    HeaderParts(vol, l, sum, size, p);
    FieldsRead(p, vol, l, StoreBe(VID_HDR_MAGIC), CountBytes(vol), CountBytes(l));
    StoredWord(p, 60, sum);
  }

  lemma HeaderParts(vol: nat, l: nat, sum: bv32, size: nat, p: seq<bv8>)
    requires size >= 64 && p == HeaderWith(vol, l, sum, size)
    ensures |p| >= 64 && p[0..4] == StoreBe(VID_HDR_MAGIC) && p[8..12] == CountBytes(vol) && p[12..16] == CountBytes(l)
    ensures p[60..64] == StoreBe(sum) && p[..60] == HeaderFields(vol, l)
  {
    StoreBeBytes(VID_HDR_MAGIC);
    StoreBeBytes(sum);
    FieldsOf(StoreBe(VID_HDR_MAGIC), Zeroes(4), CountBytes(vol), CountBytes(l), Zeroes(44), StoreBe(sum), Zeroes(size - 64), p);
  }

  lemma MagicIsNotBlank(p: seq<bv8>)
    requires HasMagic(p)
    ensures !Blank(p)
  {
    var first := p[0];
    MagicByte(first, p[1], p[2], p[3]);
  }

  lemma MagicByte(a: bv8, b: bv8, c: bv8, d: bv8)
    requires WordBe(a, b, c, d) == VID_HDR_MAGIC
    ensures a != 0xff
  {}

  // ---------------------------------------------------- blocks of every kind

  /**
    What a block can be: marked bad, erased, without a header, of another
    volume, of the volume with its number, the same but not readable, or the
    same but damaged, in its checksum or beyond correction.
   */
  datatype Kind =
    | Bad
    | Erased
    | Empty
    | Foreign(vol: nat, l: nat)
    | Unreadable(l: nat)
    | Own(l: nat)
    | Spoiled(l: nat)
    | Worn(l: nat)

  /** Numbers fit their fields, and another volume is another. */
  predicate WellFormed(vol: nat, k: Kind) {
    match k
    case Bad => true
    case Erased => true
    case Empty => true
    case Foreign(v, l) => v != vol && v < 0x1_0000_0000 && l < 0x1_0000_0000
    case Unreadable(l) => l < 0x1_0000_0000
    case Own(l) => l < 0x1_0000_0000
    case Spoiled(l) => l < 0x1_0000_0000
    case Worn(l) => l < 0x1_0000_0000
  }

  function PageBytes(fourK: bool): nat { if fourK then PAGE else 0x800 }
  function BlockBytes(fourK: bool): nat { if fourK then BLOCK else 0x20000 }
  /** The blocks that a scan covers. */
  function Covered(fourK: bool): nat { if fourK then BLOCKS else 4089 }

  /** Blocks behind the listed ones are empty. */
  function KindAt(kinds: seq<Kind>, i: nat): Kind {
    if i < |kinds| then kinds[i] else Empty
  }

  function HeaderPageOf(vol: nat, k: Kind, size: nat): (p: seq<bv8>)
    requires size >= 64
    ensures |p| == size
  {
    match k
    case Bad => Zeroes(size)
    case Erased => seq(size, _ => 0xff)
    case Empty => Zeroes(size)
    case Foreign(v, l) => HeaderOf(v, l, size)
    case Unreadable(l) => HeaderOf(vol, l, size)
    case Own(l) => HeaderOf(vol, l, size)
    case Spoiled(l) => HeaderWith(vol, l, Xor(CrcLe(0xffff_ffff, HeaderFields(vol, l)), 1), size)
    case Worn(l) => HeaderOf(vol, l, size)
  }

  /** The page at a controller address; block i of the list starts at offset (i + 1) blocks. */
  function FlashPage(fourK: bool, vol: nat, kinds: seq<Kind>, a: nat): (p: seq<bv8>)
    ensures |p| == PageBytes(fourK)
  {
    var n := a / (2 * BlockBytes(fourK));
    if IsHeader(fourK, a) then HeaderPageOf(vol, KindAt(kinds, n - 1), PageBytes(fourK)) else Zeroes(PageBytes(fourK))
  }

  /** The second page of a block. */
  predicate IsHeader(fourK: bool, a: nat) {
    a % (2 * BlockBytes(fourK)) == 2 * PageBytes(fourK) && a / (2 * BlockBytes(fourK)) >= 1
  }

  function FlashEcc(fourK: bool, kinds: seq<Kind>, a: nat, s: nat): int {
    var n := a / (2 * BlockBytes(fourK));
    if IsHeader(fourK, a) && KindAt(kinds, n - 1).Unreadable? && s == 0 then -1
    else if IsHeader(fourK, a) && KindAt(kinds, n - 1).Worn? && s == (if fourK then 7 else 3) then -1
    else 0
  }

  /** The kind of the block that starts at an offset. */
  function BlockKind(fourK: bool, kinds: seq<Kind>, off: nat): Kind {
    var n := off / BlockBytes(fourK);
    if off % BlockBytes(fourK) == 0 && n >= 1 then KindAt(kinds, n - 1) else Empty
  }

  function Flash(fourK: bool, vol: nat, kinds: seq<Kind>): Chip {
    Chip(fourK,
         (a: nat) => FlashPage(fourK, vol, kinds, a),
         (off: nat) => BlockKind(fourK, kinds, off).Bad?,
         (off: nat) => BlockKind(fourK, kinds, off).Erased?,
         (a: nat, s: nat) => FlashEcc(fourK, kinds, a, s))
  }

  lemma FlashIsValid(fourK: bool, vol: nat, kinds: seq<Kind>)
    ensures Flash(fourK, vol, kinds).Valid()
  {}

  /** Where block i is. */
  function OffsetOf(fourK: bool, i: nat): nat {
    (i + 1) * BlockBytes(fourK)
  }

  lemma HeaderAddress(chip: Chip, i: nat, a: nat)
    requires a == chip.Address(OffsetOf(chip.fourK, i) + chip.PageSize())
    ensures IsHeader(chip.fourK, a) && a / (2 * BlockBytes(chip.fourK)) == i + 1
    ensures OffsetOf(chip.fourK, i) % BlockBytes(chip.fourK) == 0 && OffsetOf(chip.fourK, i) / BlockBytes(chip.fourK) == i + 1
  {
    var b, p, n := BlockBytes(chip.fourK), PageBytes(chip.fourK), i + 1;
    PageBoundary(chip.fourK, n);
    chip.AddressIsDouble(n * b + p);
    TwiceAsFar(n, b, p);
    SplitBy(2 * b, n, 2 * p);
    SplitBy(b, n, 0);
  }

  lemma TwiceAsFar(n: nat, b: nat, p: nat)
    ensures 2 * (n * b + p) == (2 * b) * n + 2 * p
  {}

  lemma SplitBy(m: nat, n: nat, r: nat)
    requires r < m
    ensures (m * n + r) / m == n && (m * n + r) % m == r
  {
    DivModUnique(m * n + r, m, n, r);
  }

  lemma PageBoundary(fourK: bool, n: nat)
    ensures (n * BlockBytes(fourK) + PageBytes(fourK)) % PageBytes(fourK) == 0
  {
    if fourK {
      SplitBy(0x1000, 0x80 * n + 1, 0);
    } else {
      SplitBy(0x800, 0x40 * n + 1, 0);
    }
  }

  /** What the chip shows of block i. */
  lemma FlashShows(fourK: bool, vol: nat, kinds: seq<Kind>, i: nat)
    ensures var chip, off, k := Flash(fourK, vol, kinds), OffsetOf(fourK, i), KindAt(kinds, i);
      && chip.badBlock(off) == k.Bad? && chip.spareErased(off) == k.Erased?
      && HeaderPage(chip, off) == HeaderPageOf(vol, k, PageBytes(fourK))
      && (HeaderEcc(chip, off, 0) < 0 <==> k.Unreadable?)
      && (HeaderEcc(chip, off, chip.Sections() - 1) < 0 <==> k.Worn?)
  {
    var chip := Flash(fourK, vol, kinds);
    var a := chip.Address(OffsetOf(fourK, i) + chip.PageSize());
    HeaderAddress(chip, i, a);
    FlashAt(fourK, vol, kinds, i, a, OffsetOf(fourK, i));
  }

  lemma FlashAt(fourK: bool, vol: nat, kinds: seq<Kind>, i: nat, a: nat, off: nat)
    requires IsHeader(fourK, a) && a / (2 * BlockBytes(fourK)) == i + 1
    requires off % BlockBytes(fourK) == 0 && off / BlockBytes(fourK) == i + 1
    ensures FlashPage(fourK, vol, kinds, a) == HeaderPageOf(vol, KindAt(kinds, i), PageBytes(fourK))
    ensures BlockKind(fourK, kinds, off) == KindAt(kinds, i)
    ensures FlashEcc(fourK, kinds, a, 0) < 0 <==> KindAt(kinds, i).Unreadable?
    ensures FlashEcc(fourK, kinds, a, if fourK then 7 else 3) < 0 <==> KindAt(kinds, i).Worn?
  {}

  /** What a scan makes of a block of a kind. */
  function VerdictOf(k: Kind): Verdict {
    match k
    case Bad => Skipped
    case Erased => Skipped
    case Empty => Skipped
    case Foreign(v, l) => Skipped
    case Unreadable(l) => Skipped
    case Own(l) => Member(l)
    case Spoiled(l) => Damaged
    case Worn(l) => Damaged
  }

  lemma FlashJudges(fourK: bool, vol: nat, kinds: seq<Kind>, i: nat)
    requires vol < 0x1_0000_0000 && WellFormed(vol, KindAt(kinds, i))
    ensures Judge(Flash(fourK, vol, kinds), vol, OffsetOf(fourK, i)) == VerdictOf(KindAt(kinds, i))
  {
    FlashShows(fourK, vol, kinds, i);
    KindJudged(Flash(fourK, vol, kinds), vol, OffsetOf(fourK, i), KindAt(kinds, i), PageBytes(fourK));
  }

  lemma KindJudged(chip: Chip, vol: nat, off: nat, k: Kind, size: nat)
    requires vol < 0x1_0000_0000 && WellFormed(vol, k) && size >= 64
    requires chip.badBlock(off) == k.Bad? && chip.spareErased(off) == k.Erased?
    requires HeaderPage(chip, off) == HeaderPageOf(vol, k, size)
    requires HeaderEcc(chip, off, 0) < 0 <==> k.Unreadable?
    requires HeaderEcc(chip, off, chip.Sections() - 1) < 0 <==> k.Worn?
    ensures Judge(chip, vol, off) == VerdictOf(k)
  {
    var p := HeaderPageOf(vol, k, size);
    KindPage(vol, k, size, p);
    if !k.Bad? && !k.Erased? {
      JudgeHeld(chip, vol, off, p, JudgeHeader(p, vol, HeaderEcc(chip, off, 0), HeaderEcc(chip, off, chip.Sections() - 1)));
    }
  }

  /** What the header page of a kind says. */
  lemma KindPage(vol: nat, k: Kind, size: nat, p: seq<bv8>)
    requires vol < 0x1_0000_0000 && WellFormed(vol, k) && size >= 64 && p == HeaderPageOf(vol, k, size)
    ensures k.Erased? <==> Blank(p)
    ensures k.Empty? ==> !HasMagic(p)
    ensures k.Foreign? ==> HasMagic(p) && VolumeOf(p) == k.vol
    ensures k.Unreadable? || k.Own? || k.Spoiled? || k.Worn? ==> HasMagic(p) && VolumeOf(p) == vol && LnumOf(p) == k.l
    ensures k.Own? || k.Worn? ==> HeaderCrcOk(p)
    ensures k.Spoiled? ==> !HeaderCrcOk(p)
  {
    match k
    case Bad => ZeroesAreNothing(p, size);
    case Erased =>
    case Empty => ZeroesAreNothing(p, size);
    case Foreign(v, l) => { HeaderReads(v, l, CrcLe(0xffff_ffff, HeaderFields(v, l)), size); MagicIsNotBlank(p); }
    case Unreadable(l) => { HeaderReads(vol, l, CrcLe(0xffff_ffff, HeaderFields(vol, l)), size); MagicIsNotBlank(p); }
    case Own(l) => { HeaderReads(vol, l, CrcLe(0xffff_ffff, HeaderFields(vol, l)), size); MagicIsNotBlank(p); }
    case Worn(l) => { HeaderReads(vol, l, CrcLe(0xffff_ffff, HeaderFields(vol, l)), size); MagicIsNotBlank(p); }
    case Spoiled(l) => {
      var sum := CrcLe(0xffff_ffff, HeaderFields(vol, l));
      HeaderReads(vol, l, Xor(sum, 1), size);
      Changed(sum);
      MagicIsNotBlank(p);
    }
  }

  lemma Changed(x: bv32)
    ensures Xor(x, 1) != x
  {}

  lemma ZeroesAreNothing(p: seq<bv8>, size: nat)
    requires size >= 64 && p == Zeroes(size)
    ensures !Blank(p) && !HasMagic(p)
  {
    assert p[0] == 0 && p[1] == 0 && p[2] == 0 && p[3] == 0;
    ZeroWord();
  }

  lemma ZeroWord()
    ensures WordBe(0, 0, 0, 0) != VID_HDR_MAGIC
  {}

  // ----------------------------------------------------- what the scan finds

  /** The volume's good headers from block i on, up to the first damaged one. */
  function GoodHeaders(fourK: bool, kinds: seq<Kind>, i: nat): seq<Hit>
    requires i <= |kinds|
    decreases |kinds| - i
  {
    if i == |kinds| then []
    else if kinds[i].Spoiled? || kinds[i].Worn? then []
    else (if kinds[i].Own? then [Hit(OffsetOf(fourK, i), kinds[i].l)] else []) + GoodHeaders(fourK, kinds, i + 1)
  }

  predicate NoneDamaged(kinds: seq<Kind>, i: nat) {
    forall j :: i <= j < |kinds| ==> !kinds[j].Spoiled? && !kinds[j].Worn?
  }

  /** The verdicts are those of the kinds. */
  ghost predicate Follows(judge: nat -> Verdict, fourK: bool, kinds: seq<Kind>) {
    forall i: nat {:trigger OffsetOf(fourK, i)} :: judge(OffsetOf(fourK, i)) == VerdictOf(KindAt(kinds, i))
  }

  lemma NextOffsetOf(chip: Chip, i: nat)
    ensures OffsetOf(chip.fourK, i) + chip.BlockSize() == OffsetOf(chip.fourK, i + 1)
    ensures OffsetOf(chip.fourK, i) < chip.MaxOffset() <==> i < Covered(chip.fourK)
    ensures OffsetOf(chip.fourK, 0) == chip.Base()
  {}

  lemma {:induction false} MembersOfFlash(judge: nat -> Verdict, chip: Chip, kinds: seq<Kind>, i: nat)
    requires Follows(judge, chip.fourK, kinds) && i <= |kinds| <= Covered(chip.fourK)
    ensures Members(judge, chip, OffsetOf(chip.fourK, i)) == GoodHeaders(chip.fourK, kinds, i)
    ensures FirstDamaged(judge, chip, OffsetOf(chip.fourK, i)) >= chip.MaxOffset() <==> NoneDamaged(kinds, i)
    decreases |kinds| - i
  {
    NextOffsetOf(chip, i);
    if i == |kinds| {
      NothingBehind(judge, chip, kinds, i);
    } else {
      assert judge(OffsetOf(chip.fourK, i)) == VerdictOf(kinds[i]);
      MembersOfFlash(judge, chip, kinds, i + 1);
    }
  }

  lemma {:induction false} NothingBehind(judge: nat -> Verdict, chip: Chip, kinds: seq<Kind>, i: nat)
    requires Follows(judge, chip.fourK, kinds) && |kinds| <= i <= Covered(chip.fourK)
    ensures Members(judge, chip, OffsetOf(chip.fourK, i)) == []
    ensures FirstDamaged(judge, chip, OffsetOf(chip.fourK, i)) >= chip.MaxOffset()
    decreases Covered(chip.fourK) - i
  {
    NextOffsetOf(chip, i);
    if i < Covered(chip.fourK) {
      assert judge(OffsetOf(chip.fourK, i)) == Skipped;
      NothingBehind(judge, chip, kinds, i + 1);
    }
  }

  lemma VerdictIs(chip: Chip, vol: nat, off: nat)
    ensures Verdicts(chip, vol)(off) == Judge(chip, vol, off)
  {}

  /**
    On a flash with blocks of any kinds the scan finds the volume's good headers
    in order, up to the reserved number or the first damaged one, and passes over
    everything else; it fails exactly if it comes to a damaged one or the end
    before there are enough.
   */
  lemma FlashScan(fourK: bool, vol: nat, kinds: seq<Kind>, reserved: nat)
    requires vol < 0x1_0000_0000 && |kinds| <= Covered(fourK) && forall i :: 0 <= i < |kinds| ==> WellFormed(vol, kinds[i])
    ensures var scan, good := VolumeScan(Flash(fourK, vol, kinds), vol, reserved), GoodHeaders(fourK, kinds, 0);
      && Flash(fourK, vol, kinds).Valid()
      && scan.hits == Cropped(good, if reserved == 0 then 1 else reserved)
      && scan.rc == (if reserved == 0 then if good != [] || NoneDamaged(kinds, 0) then 0 else -1
                     else if |good| >= reserved then 0 else -1)
  {
    var chip := Flash(fourK, vol, kinds);
    FlashIsValid(fourK, vol, kinds);
    FlashFollows(fourK, vol, kinds);
    MembersOfFlash(Verdicts(chip, vol), chip, kinds, 0);
    NextOffsetOf(chip, 0);
    ScanIsPrefix(Verdicts(chip, vol), chip, chip.Base(), reserved);
  }

  lemma FlashFollows(fourK: bool, vol: nat, kinds: seq<Kind>)
    requires vol < 0x1_0000_0000 && forall i :: 0 <= i < |kinds| ==> WellFormed(vol, kinds[i])
    ensures Follows(Verdicts(Flash(fourK, vol, kinds), vol), fourK, kinds)
  {
    forall i: nat
      ensures Verdicts(Flash(fourK, vol, kinds), vol)(OffsetOf(fourK, i)) == VerdictOf(KindAt(kinds, i))
    {
      FlashJudges(fourK, vol, kinds, i);
      VerdictIs(Flash(fourK, vol, kinds), vol, OffsetOf(fourK, i));
    }
  }

  // --------------------------------------------------- flashes without faults

  function Owns(nums: seq<nat>): (kinds: seq<Kind>)
    ensures |kinds| == |nums| && forall i :: 0 <= i < |nums| ==> kinds[i] == Own(nums[i])
  {
    seq(|nums|, i requires 0 <= i < |nums| => Own(nums[i]))
  }

  /** A flash of 4 KB pages without faults whose first blocks have these numbers in their headers; all else is zeros. */
  function Made(vol: nat, nums: seq<nat>): Chip {
    Flash(true, vol, Owns(nums))
  }

  function MadeHits(nums: seq<nat>, i: nat): (h: seq<Hit>)
    requires i <= |nums|
    ensures |h| == |nums| - i
    ensures forall j :: 0 <= j < |h| ==> h[j] == Hit((i + j + 1) * BLOCK, nums[i + j])
  {
    seq(|nums| - i, j requires 0 <= j < |nums| - i => Hit((i + j + 1) * BLOCK, nums[i + j]))
  }

  lemma {:induction false} OwnsAreGood(nums: seq<nat>, i: nat)
    requires i <= |nums|
    ensures GoodHeaders(true, Owns(nums), i) == MadeHits(nums, i)
    decreases |nums| - i
  {
    if i < |nums| {
      OwnsAreGood(nums, i + 1);
      assert MadeHits(nums, i) == [Hit(OffsetOf(true, i), nums[i])] + MadeHits(nums, i + 1);
    }
  }

  /** Every list of numbers is the result of a scan that succeeds. */
  lemma EveryListIsFound(vol: nat, nums: seq<nat>)
    requires vol < 0x1_0000_0000 && 1 <= |nums| <= BLOCKS && forall i :: 0 <= i < |nums| ==> nums[i] < 0x1_0000_0000
    ensures Made(vol, nums).Valid()
    ensures VolumeScan(Made(vol, nums), vol, |nums|) == Scan(0, MadeHits(nums, 0))
  {
    FlashScan(true, vol, Owns(nums), |nums|);
    OwnsAreGood(nums, 0);
  }

  ghost predicate DistinctNumbers(nums: seq<nat>) {
    forall i, j :: 0 <= i < j < |nums| ==> nums[i] != nums[j]
  }

  /** The table of such a scan is filled exactly when the numbers are distinct and below their count. */
  lemma ListFillsIff(vol: nat, nums: seq<nat>)
    requires vol < 0x1_0000_0000 && 1 <= |nums| <= BLOCKS && forall i :: 0 <= i < |nums| ==> nums[i] < TABLE_SIZE
    ensures var scan := VolumeScan(Made(vol, nums), vol, |nums|);
      && Made(vol, nums).Valid() && scan.rc == 0 && InRange(scan.hits)
      && (Filled(Table(Made(vol, nums), scan.hits), |nums|) <==>
            DistinctNumbers(nums) && forall i :: 0 <= i < |nums| ==> nums[i] < |nums|)
  {
    EveryListIsFound(vol, nums);
    FilledHits(Made(vol, nums), nums, MadeHits(nums, 0));
  }

  lemma FilledHits(chip: Chip, nums: seq<nat>, hits: seq<Hit>)
    requires InRange(hits) && |hits| == |nums| && forall i :: 0 <= i < |nums| ==> hits[i].lnum == nums[i]
    ensures Filled(Table(chip, hits), |nums|) <==> DistinctNumbers(nums) && forall i :: 0 <= i < |nums| ==> nums[i] < |nums|
  {
    CompleteIff(chip, hits);
    assert forall i :: 0 <= i < |nums| ==> hits[i].lnum == nums[i];
    if DistinctNumbers(nums) {
      assert Distinct(hits);
    }
    if Distinct(hits) {
      forall i, j | 0 <= i < j < |nums|
        ensures nums[i] != nums[j]
      {
        assert hits[i].lnum != hits[j].lnum;
      }
    }
  }

  /** A repeated logical number is counted twice: on this flash the scan succeeds, and logical block 1 has no entry. */
  lemma RepeatedNumberLeavesGap()
    ensures var chip := Made(1, [0, 0]);
      && chip.Valid()
      && VolumeScan(chip, 1, 2).rc == 0 && InRange(VolumeScan(chip, 1, 2).hits)
      && !Filled(Table(chip, VolumeScan(chip, 1, 2).hits), 2)
  {
    var nums: seq<nat> := [0, 0];
    ListFillsIff(1, nums);
    assert nums[0] == nums[1];
  }

  // ------------------------------------ flashes on which the boot path goes wrong

  /** Every page of a made flash reads as good: none is blank, and none needs correction. */
  lemma NeverBlank(vol: nat, nums: seq<nat>, a: nat)
    requires vol < 0x1_0000_0000 && forall i :: 0 <= i < |nums| ==> nums[i] < 0x1_0000_0000
    ensures !Blank(FlashPage(true, vol, Owns(nums), a))
  {
    if IsHeader(true, a) {
      OwnIsNotBlank(vol, nums, a / (2 * BlockBytes(true)) - 1);
    } else {
      ZeroesAreNothing(FlashPage(true, vol, Owns(nums), a), PAGE);
    }
  }

  lemma OwnIsNotBlank(vol: nat, nums: seq<nat>, i: nat)
    requires vol < 0x1_0000_0000 && forall i :: 0 <= i < |nums| ==> nums[i] < 0x1_0000_0000
    ensures !Blank(HeaderPageOf(vol, KindAt(Owns(nums), i), PageBytes(true)))
  {
    var k := KindAt(Owns(nums), i);
    KindPage(vol, k, PageBytes(true), HeaderPageOf(vol, k, PageBytes(true)));
  }

  lemma MadePageIsGood(vol: nat, nums: seq<nat>, table: seq<nat>, k: nat)
    requires vol < 0x1_0000_0000 && (forall i :: 0 <= i < |nums| ==> nums[i] < 0x1_0000_0000)
    requires IsTable(table) && k < Total(Made(vol, nums), table)
    ensures GoodPage(Made(vol, nums), table, k)
  {
    var chip := Made(vol, nums);
    BlockOfPage(chip, Blocks(table, 1), k);
    var a := chip.Address(PageOffset(chip, table, k));
    NeverBlank(vol, nums, a);
    NotErased(chip, table, k, FlashPage(true, vol, Owns(nums), a));
  }

  lemma NotErased(chip: Chip, table: seq<nat>, k: nat, p: seq<bv8>)
    requires chip.fourK && chip.BlockOf(k) < |table|
    requires chip.page(chip.Address(PageOffset(chip, table, k))) == p && !Blank(p)
    ensures !ErasedPage(chip, table, k)
  {
    var i :| 0 <= i < |p| && p[i] != 0xff;
  }

  /** So the read goes to the end of the map. */
  lemma MadeLoads(vol: nat, nums: seq<nat>, table: seq<nat>)
    requires vol < 0x1_0000_0000 && (forall i :: 0 <= i < |nums| ==> nums[i] < 0x1_0000_0000) && IsTable(table)
    ensures LoadFrom(Made(vol, nums), table, 0) == Load(0, Total(Made(vol, nums), table))
  {
    var chip := Made(vol, nums);
    forall k: nat | k < Total(chip, table)
      ensures GoodPage(chip, table, k)
    {
      MadePageIsGood(vol, nums, table, k);
    }
    LoadIff(chip, table, Total(chip, table), 0);
  }

  // ------------------------------------------------ no block with number 0

  /** Entry 0 of the table is zero: the pages read for it are those at the start of the flash. */
  lemma UnmappedOffsets(chip: Chip, table: seq<nat>, k: nat)
    requires IsTable(table) && table[0] == 0 && k < chip.DataPages()
    ensures chip.BlockOf(k) == 0 && PageOffset(chip, table, k) == k * chip.PageSize() < chip.Base()
  {
    SmallIndex(chip, k);
  }

  /** Page k of the image is taken from in front of the UBI partition, and is no page of the volume. */
  ghost predicate Stray(chip: Chip, k: nat)
    requires InRange(VolumeScan(chip, 1, 1).hits)
  {
    && chip.BlockOf(k) == 0
    && PageOffset(chip, VolumeTable(chip, 1, 1), k) == k * PAGE < chip.Base()
    && forall l, i :: !OfVolume(chip, 1, 1, l, i, k * PAGE)
  }

  /**
    On a flash whose one block of the volume has number 5, everything succeeds,
    and the 126 pages that are loaded come from the start of the flash, in front
    of the UBI partition; none is a page of the volume.
   */
  lemma StrayImage()
    ensures var chip := Made(1, [5]);
      && chip.Valid() && VolumeScan(chip, 1, 1) == Scan(0, [Hit(BLOCK, 5)]) && Fits(chip, Layout(1, 1))
      && Boots(chip, Layout(1, 1)) && Try(chip, Layout(1, 1)) == Loaded(VolumeTable(chip, 1, 1), 126)
      && !Found(chip, 1, 1, 0)
      && forall k :: 0 <= k < 126 ==> Stray(chip, k)
  {
    var nums: seq<nat> := [5];
    var chip := Made(1, nums);
    EveryListIsFound(1, nums);
    assert MadeHits(nums, 0) == [Hit(BLOCK, 5)];
    StrayTable(chip, VolumeScan(chip, 1, 1).hits);
    MadeLoads(1, nums, VolumeTable(chip, 1, 1));
    LoadsIff(chip, Layout(1, 1), VolumeTable(chip, 1, 1), 126);
    forall k: nat | k < 126
      ensures Stray(chip, k)
    {
      UnmappedOffsets(chip, VolumeTable(chip, 1, 1), k);
    }
  }

  lemma StrayTable(chip: Chip, hits: seq<Hit>)
    requires hits == [Hit(BLOCK, 5)] && chip.fourK
    ensures Table(chip, hits)[0] == 0 && Table(chip, hits)[1] == 0
    ensures Blocks(Table(chip, hits), 1) == 1 && Total(chip, Table(chip, hits)) == 126
  {
    TableEntry(chip, hits, 0);
    TableEntry(chip, hits, 1);
  }

  // ------------------------------------------------ nineteen blocks and more

  /** Numbers 1 to 19, over and over. */
  function Rounds(n: nat): (nums: seq<nat>)
    ensures |nums| == n && forall i :: 0 <= i < n ==> nums[i] == 1 + i % 19
  {
    seq(n, i requires 0 <= i < n => 1 + i % 19)
  }

  /** With these numbers on the flash the scan succeeds and the read runs off the end of the table. */
  lemma RunsOff(reserved: nat)
    requires 19 <= reserved <= BLOCKS
    ensures var chip := Made(1, Rounds(reserved));
      && chip.Valid() && VolumeScan(chip, 1, reserved).rc == 0 && InRange(VolumeScan(chip, 1, reserved).hits)
      && !Stays(chip, VolumeTable(chip, 1, reserved))
  {
    var nums := Rounds(reserved);
    var chip := Made(1, nums);
    EveryListIsFound(1, nums);
    var hits := MadeHits(nums, 0);
    assert forall i :: 0 <= i < |hits| ==> hits[i].lnum == 1 + i % 19;
    AllNumbers(chip, hits);
    MadeLoads(1, nums, Table(chip, hits));
  }

  lemma AllNumbers(chip: Chip, hits: seq<Hit>)
    requires |hits| >= 19 && forall i :: 0 <= i < |hits| ==> hits[i].lnum == 1 + i % 19
    ensures InRange(hits) && Blocks(Table(chip, hits), 1) == TABLE_SIZE
  {
    forall l: nat | 1 <= l < TABLE_SIZE
      ensures l in Lnums(hits)
    {
      assert hits[l - 1].lnum == l;
    }
    FullIff(chip, hits);
  }

  /** Reserving at most 18 blocks is what keeps the read within the table on every flash that keeps the scan within it. */
  lemma ReservedIff(reserved: nat)
    requires reserved <= BLOCKS
    ensures reserved <= 18 <==>
              forall chip: Chip, vol: nat :: InRange(VolumeScan(chip, vol, reserved).hits) ==> Fits(chip, Layout(vol, reserved))
  {
    if reserved <= 18 {
      forall chip: Chip, vol: nat | InRange(VolumeScan(chip, vol, reserved).hits)
        ensures Fits(chip, Layout(vol, reserved))
      {
        ReservedTerminates(chip, vol, reserved);
      }
    } else {
      RunsOff(reserved);
      var chip := Made(1, Rounds(reserved));
      assert InRange(VolumeScan(chip, 1, reserved).hits) && !Fits(chip, Layout(1, reserved));
    }
  }
}
