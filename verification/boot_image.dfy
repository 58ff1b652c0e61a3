/** tools/src/bh/bhdr.c: the header in front of a boot image, and the image as written. */
module BootImage {
  import opened Folds
  import opened CrcSpec
  import opened CrcLaws
  import opened Crc32Old
  import opened ByteOrder

  const NAND_MAGIC: bv32 := 0x4c42_4348
  const SPI_BOOT_SIG: bv8 := 0x4d
  const ONES: bv32 := 0xffff_ffff

  // ------------------------------------------------------ what an image is

  /** The program as it is written: zeros up to the next multiple of four. */
  function Padded(file: seq<bv8>): (r: seq<bv8>)
    ensures |r| % 4 == 0 && |file| <= |r| < |file| + 4 && file <= r
    ensures forall i :: |file| <= i < |r| ==> r[i] == 0
    decreases (4 - |file| % 4) % 4
  {
    if |file| % 4 == 0 then file else Padded(file + [0])
  }

  /** The fields that the NAND header checksum covers. */
  function NandFields(file: seq<bv8>, t0: bv32, t1: bv32): seq<bv8> {
    CountBytes((|file| + 27) / 4) + StoreBe(t0) + StoreBe(t1) + StoreBe(CrcLe(ONES, Padded(file)))
  }

  function NandImage(file: seq<bv8>, t0: bv32, t1: bv32): seq<bv8> {
    StoreBe(NAND_MAGIC) + NandFields(file, t0, t1) + StoreBe(CrcLe(ONES, NandFields(file, t0, t1))) + Padded(file)
  }

  /** The fields that the SPI header checksum covers. */
  function SpiFields(file: seq<bv8>, load: bv32): seq<bv8> {
    [SPI_BOOT_SIG] + CountBytes(|file|)[1..] + StoreBe(load) + StoreBe(CrcLe(ONES, Padded(file)))
  }

  function SpiImage(file: seq<bv8>, load: bv32): seq<bv8> {
    SpiFields(file, load) + StoreBe(CrcLe(ONES, SpiFields(file, load))) + Padded(file)
  }

  // ------------------------------------------------------------------- files

  /** A file open for reading. How many bytes a read delivers is up to the system. */
  class InFile {
    const data: seq<bv8>
    var pos: nat

    constructor (d: seq<bv8>)
      ensures data == d && pos == 0
    {
      data := d;
      pos := 0;
    }

    method Fread(buf: array<bv8>) returns (bytes: nat)
      requires pos <= |data| && buf.Length == 256
      modifies this, buf
      ensures pos == old(pos) + bytes <= |data| && bytes <= 256
      ensures bytes == 0 <==> old(pos) == |data|
      ensures buf[..bytes] == data[old(pos)..pos]
    {
      if pos == |data| {
        bytes := 0;
      } else {
        bytes :| 0 < bytes <= 256 && pos + bytes <= |data|;
        for i := 0 to bytes
          invariant pos == old(pos)
          invariant buf[..i] == data[pos..pos + i]
        {
          buf[i] := data[pos + i];
        }
        pos := pos + bytes;
      }
    }
  }

  /** A file open for writing. A write may come out short. */
  class OutFile {
    var data: seq<bv8>
    ghost var short: bool

    constructor ()
      ensures data == [] && !short
    {
      data := [];
      short := false;
    }

    method Fwrite(bytes: seq<bv8>) returns (n: nat)
      modifies this
      ensures n <= |bytes| && data == old(data) + bytes[..n]
      ensures short == (old(short) || n < |bytes|)
    {
      n :| 0 <= n <= |bytes|;
      short := short || n < |bytes|;
      data := data + bytes[..n];
    }
  }

  // ------------------------------------------------------------ the program

  /** The global CRC state and the header union of the control block. */
  class Builder {
    var crc32: bv32
    const crc32table: array<bv32>
    const hdr: array<bv8>
    var nand: bool

    ghost predicate Valid()
      reads this
    {
      crc32table.Length == 256 && hdr.Length == 24
    }

    ghost predicate TableReady()
      reads this, crc32table
    {
      Valid() && TableLe(crc32table[..], 8)
    }

    /** The NAND part of parse_cmd_line: magic number and timing values. */
    constructor Nand(t0: bv32, t1: bv32)
      ensures Valid() && nand && fresh(crc32table) && fresh(hdr)
      ensures hdr[..4] == StoreBe(NAND_MAGIC) && hdr[8..16] == StoreBe(t0) + StoreBe(t1)
    {
      crc32 := 0;
      crc32table := new bv32[256];
      hdr := new bv8[24];
      nand := true;
      new;
      StoreWordBe(NAND_MAGIC, hdr, 0);
      StoreWordBe(t0, hdr, 8);
      StoreWordBe(t1, hdr, 12);
      assert hdr[..4] == hdr[0..4];
      JoinWords(hdr[..], 8);
    }

    /** The SPI part of parse_cmd_line: signature and load address. */
    constructor Spi(load: bv32)
      ensures Valid() && !nand && fresh(crc32table) && fresh(hdr)
      ensures hdr[..1] == [SPI_BOOT_SIG] && hdr[4..8] == StoreBe(load)
    {
      crc32 := 0;
      crc32table := new bv32[256];
      hdr := new bv8[24];
      nand := false;
      new;
      hdr[0] := SPI_BOOT_SIG;
      StoreWordBe(load, hdr, 4);
    }

    method InitCrcTable()
      requires Valid()
      modifies crc32table
      ensures TableReady()
    {
      var i := 0;
      while i < 256
        invariant 0 <= i <= 256
        invariant forall v: bv8 :: Idx(v) < i ==> crc32table[Idx(v)] == StepsLe(v as bv32, 8)
      {
        var crc := EightSteps((i as bv8) as bv32);
        forall v: bv8 | Idx(v) == i
          ensures v == i as bv8
        {
          IndexIs(v, i);
        }
        crc32table[i] := crc;
        i := i + 1;
      }
    }

    method UpdateCrc32(data: bv8)
      requires TableReady()
      modifies this`crc32
      ensures crc32 == ByteLe(old(crc32), data)
    {
      UpdateStep(crc32table[..], crc32, data);
      crc32 := Updated(crc32table[..], crc32, data);
    }

    method UpdateWord(off: nat)
      requires TableReady() && off + 4 <= 24
      modifies this`crc32
      ensures crc32 == Fold(ByteLe, old(crc32), hdr[off..off + 4])
    {
      FoldFour(ByteLe, crc32, hdr[off], hdr[off + 1], hdr[off + 2], hdr[off + 3]);
      assert hdr[off..off + 4] == [hdr[off], hdr[off + 1], hdr[off + 2], hdr[off + 3]];
      UpdateCrc32(hdr[off]);
      UpdateCrc32(hdr[off + 1]);
      UpdateCrc32(hdr[off + 2]);
      UpdateCrc32(hdr[off + 3]);
    }

    /** The length field: words of header and program, or bytes of program. */
    method GetBinaryFileLength(size: nat)
      requires Valid()
      modifies hdr
      ensures nand ==> hdr[..] == old(hdr[..4]) + CountBytes((size + 27) / 4) + old(hdr[8..])
      ensures !nand ==> hdr[..] == old(hdr[..1]) + CountBytes(size)[1..] + old(hdr[4..])
    {
      if nand {
        var len := (size + 24 + 3) / 4;
        hdr[4] := LowByteOf(len / 0x100_0000);
        hdr[5] := LowByteOf(len / 0x1_0000);
        hdr[6] := LowByteOf(len / 0x100);
        hdr[7] := LowByteOf(len);
      } else {
        hdr[1] := LowByteOf(size / 0x1_0000);
        hdr[2] := LowByteOf(size / 0x100);
        hdr[3] := LowByteOf(size);
      }
    }

    /** The bytes of one read, after those in `before`. */
    method UpdateChunk(buf: array<bv8>, bytes: nat, ghost before: seq<bv8>)
      requires TableReady() && bytes <= buf.Length
      requires crc32 == CrcLe(ONES, before)
      modifies this`crc32
      ensures crc32 == CrcLe(ONES, before + buf[..bytes])
    {
      FoldSplit(ByteLe, ONES, before, buf[..bytes]);
      for i := 0 to bytes
        invariant crc32 == Fold(ByteLe, old(crc32), buf[..i])
      {
        FoldLast(ByteLe, old(crc32), buf[..i], buf[i]);
        assert buf[..i] + [buf[i]] == buf[..i + 1];
        UpdateCrc32(buf[i]);
      }
    }

    /** `bytesRead` bytes of the file are in the checksum and the next `bytes` are in the buffer. */
    ghost predicate Reading(f: InFile, buf: array<bv8>, bytesRead: nat, bytes: nat)
      reads f, buf
    {
      && buf.Length == 256
      && f.pos == bytesRead + bytes <= |f.data| && bytes <= 256
      && (bytes == 0 ==> f.pos == |f.data|)
      && buf[..bytes] == f.data[bytesRead..f.pos]
    }

    /** One round of the read loop. */
    method FeedChunk(f: InFile, buf: array<bv8>, bytesRead: nat, bytes: nat) returns (next: nat)
      requires TableReady() && buf != hdr && Reading(f, buf, bytesRead, bytes) && bytes > 0
      requires crc32 == CrcLe(ONES, f.data[..bytesRead])
      modifies this`crc32, f, buf
      ensures Reading(f, buf, bytesRead + bytes, next)
      ensures crc32 == CrcLe(ONES, f.data[..bytesRead + bytes])
    {
      assert f.data[..bytesRead] + buf[..bytes] == f.data[..bytesRead + bytes];
      UpdateChunk(buf, bytes, f.data[..bytesRead]);
      next := f.Fread(buf);
    }

    /** The checksum of the program, however the reads cut it up. */
    method FileCrc(f: InFile) returns (bytesRead: nat)
      requires TableReady() && f.pos == 0
      modifies this`crc32, f
      ensures bytesRead == |f.data| && crc32 == CrcLe(ONES, f.data)
    {
      var buf := new bv8[256];
      crc32 := ONES;
      bytesRead := 0;
      var bytes: nat := f.Fread(buf);
      while bytes > 0
        invariant fresh(buf) && Reading(f, buf, bytesRead, bytes)
        invariant crc32 == CrcLe(ONES, f.data[..bytesRead])
        decreases |f.data| - bytesRead
      {
        var next: nat := FeedChunk(f, buf, bytesRead, bytes);
        bytesRead := bytesRead + bytes;
        bytes := next;
      }
      assert f.data[..bytesRead] == f.data;
    }

    /** One byte of padding. */
    method FeedZero(ghost file: seq<bv8>)
      requires TableReady()
      requires crc32 == CrcLe(ONES, file)
      modifies this`crc32
      ensures crc32 == CrcLe(ONES, file + [0])
    {
      FoldLast(ByteLe, ONES, file, 0);
      UpdateCrc32(0);
    }

    /** The program checksum, over the bytes read and the zeros that will pad them. */
    method ProgramCrc(f: InFile)
      requires TableReady() && f.pos == 0
      modifies this`crc32, f
      ensures crc32 == CrcLe(ONES, Padded(f.data))
    {
      var bytesRead: nat := FileCrc(f);
      ghost var padded := f.data;
      while bytesRead % 4 != 0
        invariant bytesRead == |padded| && Padded(padded) == Padded(f.data)
        invariant crc32 == CrcLe(ONES, padded)
        decreases |Padded(f.data)| - bytesRead
      {
        FeedZero(padded);
        padded := padded + [0];
        bytesRead := bytesRead + 1;
      }
    }

    method DoCrc32ProgramData(f: InFile)
      requires TableReady() && f.pos == 0
      modifies this`crc32, hdr, f
      ensures nand ==> hdr[..] == old(hdr[..16]) + StoreBe(CrcLe(ONES, Padded(f.data))) + old(hdr[20..])
      ensures !nand ==> hdr[..] == old(hdr[..8]) + StoreBe(CrcLe(ONES, Padded(f.data))) + old(hdr[12..])
    {
      ProgramCrc(f);
      StoreWordBe(crc32, hdr, if nand then 16 else 8);
    }

    /** The checksum of the header fields, stored after them. */
    method DoCrc32Hdr()
      requires TableReady()
      modifies this`crc32, hdr
      ensures nand ==> hdr[..] == old(hdr[..20]) + StoreBe(CrcLe(ONES, old(hdr[4..20])))
      ensures !nand ==> hdr[..] == old(hdr[..12]) + StoreBe(CrcLe(ONES, old(hdr[..12]))) + old(hdr[16..])
    {
      HeaderCrc();
      StoreWordBe(crc32, hdr, if nand then 20 else 12);
    }

    /** The checksum of the fields in front of where it is stored. */
    method HeaderCrc()
      requires TableReady()
      modifies this`crc32
      ensures crc32 == CrcLe(ONES, if nand then hdr[4..20] else hdr[..12])
    {
      crc32 := ONES;
      if nand {
        UpdateFourWords();
      } else {
        UpdateThreeWords();
      }
    }

    method UpdateFourWords()
      requires TableReady() && crc32 == ONES
      modifies this`crc32
      ensures crc32 == CrcLe(ONES, hdr[4..20])
    {
      UpdateWord(4);
      UpdateWord(8);
      UpdateWord(12);
      UpdateWord(16);
      FourWords(hdr[..], 4);
      assert hdr[4..20] == hdr[..][4..20];
    }

    method UpdateThreeWords()
      requires TableReady() && crc32 == ONES
      modifies this`crc32
      ensures crc32 == CrcLe(ONES, hdr[..12])
    {
      UpdateWord(0);
      UpdateWord(4);
      UpdateWord(8);
      ThreeWords(hdr[..]);
      assert hdr[..12] == hdr[..][..12];
    }

    /** The header, then the program in whatever chunks it is read, then the padding. */
    method WriteOutputFile(fps: InFile, fpd: OutFile) returns (rc: int)
      requires Valid() && fps.pos == 0 && fpd.data == [] && !fpd.short
      modifies fps, fpd
      ensures rc == if fpd.short then -1 else 0
      ensures rc == 0 ==> fpd.data == hdr[..HeaderSize()] + Padded(fps.data)
    {
      var n := fpd.Fwrite(hdr[..HeaderSize()]);
      if n != HeaderSize() {
        return -1;
      }
      rc := AppendFile(fps, fpd);
      if rc == 0 {
        rc := AppendPadding(|fps.data|, fpd, hdr[..HeaderSize()], fps.data);
      }
    }

    function HeaderSize(): (n: nat)
      reads this
    {
      if nand then 24 else 16
    }
  }

  lemma JoinWords(h: seq<bv8>, i: nat)
    requires i + 8 <= |h|
    ensures h[i..i + 8] == h[i..i + 4] + h[i + 4..i + 8]
  {}

  lemma NextWord(seed: bv32, h: seq<bv8>, from: nat, to: nat)
    requires from <= to && to + 4 <= |h|
    ensures Fold(ByteLe, Fold(ByteLe, seed, h[from..to]), h[to..to + 4]) == Fold(ByteLe, seed, h[from..to + 4])
  {
    FoldSplit(ByteLe, seed, h[from..to], h[to..to + 4]);
    assert h[from..to] + h[to..to + 4] == h[from..to + 4];
  }

  lemma ThreeWords(h: seq<bv8>)
    requires |h| >= 12
    ensures Fold(ByteLe, Fold(ByteLe, Fold(ByteLe, ONES, h[0..4]), h[4..8]), h[8..12]) == CrcLe(ONES, h[..12])
  {
    NextWord(ONES, h, 0, 4);
    NextWord(ONES, h, 0, 8);
    assert h[..12] == h[0..12];
  }

  lemma FourWords(h: seq<bv8>, at: nat)
    requires |h| >= at + 16
    ensures Fold(ByteLe, Fold(ByteLe, Fold(ByteLe, Fold(ByteLe, ONES, h[at..at + 4]), h[at + 4..at + 8]), h[at + 8..at + 12]), h[at + 12..at + 16])
         == CrcLe(ONES, h[at..at + 16])
  {
    NextWord(ONES, h, at, at + 4);
    NextWord(ONES, h, at, at + 8);
    NextWord(ONES, h, at, at + 12);
  }

  /** Append the program in whatever chunks it is read. */
  method AppendFile(fps: InFile, fpd: OutFile) returns (rc: int)
    requires fps.pos == 0 && !fpd.short
    modifies fps, fpd
    ensures rc == if fpd.short then -1 else 0
    ensures rc == 0 ==> fpd.data == old(fpd.data) + fps.data
  {
    var buf := new bv8[256];
    var bytesWritten: nat := 0;
    var bytes: nat := fps.Fread(buf);
    while bytes > 0
      invariant fps.pos == bytesWritten + bytes <= |fps.data| && bytes <= 256
      invariant bytes == 0 ==> fps.pos == |fps.data|
      invariant buf[..bytes] == fps.data[bytesWritten..fps.pos]
      invariant !fpd.short && fpd.data == old(fpd.data) + fps.data[..bytesWritten]
      decreases |fps.data| - bytesWritten
    {
      var n := fpd.Fwrite(buf[..bytes]);
      if n != bytes {
        return -1;
      }
      assert fps.data[..bytesWritten + bytes] == fps.data[..bytesWritten] + buf[..bytes];
      bytesWritten := bytesWritten + bytes;
      bytes := fps.Fread(buf);
    }
    assert fps.data[..bytesWritten] == fps.data;
    return 0;
  }

  /** Append zeros until the program, which follows `head`, fills whole words. */
  method AppendPadding(length: nat, fpd: OutFile, ghost head: seq<bv8>, ghost file: seq<bv8>) returns (rc: int)
    requires !fpd.short && fpd.data == head + file && length == |file|
    modifies fpd
    ensures rc == if fpd.short then -1 else 0
    ensures rc == 0 ==> fpd.data == head + Padded(file)
  {
    var bytesWritten := length;
    ghost var padded := file;
    while bytesWritten % 4 != 0
      invariant bytesWritten == |padded| && Padded(padded) == Padded(file)
      invariant !fpd.short && fpd.data == head + padded
      decreases |Padded(file)| - bytesWritten
    {
      var n := fpd.Fwrite([0]);
      if n != 1 {
        return -1;
      }
      padded := padded + [0];
      bytesWritten := bytesWritten + 1;
    }
    return 0;
  }

  /** The NAND header as its four writers leave it. */
  lemma AssembleNand(h0: seq<bv8>, h1: seq<bv8>, h2: seq<bv8>, h3: seq<bv8>,
                     magic: seq<bv8>, len: seq<bv8>, a: seq<bv8>, b: seq<bv8>, pcrc: seq<bv8>, hcrc: seq<bv8>)
    requires |h0| == 24 && |magic| == |len| == |a| == |b| == |pcrc| == |hcrc| == 4
    requires h0[..4] == magic && h0[8..16] == a + b
    requires h1 == h0[..4] + len + h0[8..]
    requires h2 == h1[..16] + pcrc + h1[20..]
    requires h3 == h2[..20] + hcrc
    ensures h2[4..20] == len + a + b + pcrc
    ensures h3 == magic + (len + a + b + pcrc) + hcrc
  {
    assert h1 == magic + len + (a + b) + h0[16..];
    assert h2 == magic + len + (a + b) + pcrc + h0[20..];
  }

  lemma AssembleSpi(h0: seq<bv8>, h1: seq<bv8>, h2: seq<bv8>, h3: seq<bv8>,
                    sig: seq<bv8>, len: seq<bv8>, load: seq<bv8>, pcrc: seq<bv8>, hcrc: seq<bv8>)
    requires |h0| == 24 && |sig| == 1 && |len| == 3 && |load| == |pcrc| == |hcrc| == 4
    requires h0[..1] == sig && h0[4..8] == load
    requires h1 == h0[..1] + len + h0[4..]
    requires h2 == h1[..8] + pcrc + h1[12..]
    requires h3 == h2[..12] + hcrc + h2[16..]
    ensures h2[..12] == sig + len + load + pcrc
    ensures h3[..16] == sig + len + load + pcrc + hcrc
  {
    assert h1 == sig + len + load + h0[8..];
    assert h2 == sig + len + load + pcrc + h0[12..];
  }

  /** The stages of main that fill in a NAND header. */
  method FillNand(cb: Builder, file: seq<bv8>, ghost t0: bv32, ghost t1: bv32)
    requires cb.Valid() && cb.nand
    requires cb.hdr[..4] == StoreBe(NAND_MAGIC) && cb.hdr[8..16] == StoreBe(t0) + StoreBe(t1)
    modifies cb`crc32, cb.crc32table, cb.hdr
    ensures cb.hdr[..] + Padded(file) == NandImage(file, t0, t1)
  {
    ghost var h0 := cb.hdr[..];
    cb.InitCrcTable();
    cb.GetBinaryFileLength(|file|);
    ghost var h1 := cb.hdr[..];
    var f := new InFile(file);
    cb.DoCrc32ProgramData(f);
    ghost var h2 := cb.hdr[..];
    cb.DoCrc32Hdr();
    ghost var p, h := CrcLe(ONES, Padded(file)), CrcLe(ONES, h2[4..20]);
    WordLengths(NAND_MAGIC, t0, t1, p, h);
    AssembleNand(h0, h1, h2, cb.hdr[..], StoreBe(NAND_MAGIC), CountBytes((|file| + 27) / 4),
                 StoreBe(t0), StoreBe(t1), StoreBe(p), StoreBe(h));
  }

  /** The stages of main that fill in an SPI header. */
  method FillSpi(cb: Builder, file: seq<bv8>, ghost load: bv32)
    requires cb.Valid() && !cb.nand
    requires cb.hdr[..1] == [SPI_BOOT_SIG] && cb.hdr[4..8] == StoreBe(load)
    modifies cb`crc32, cb.crc32table, cb.hdr
    ensures cb.hdr[..16] + Padded(file) == SpiImage(file, load)
  {
    ghost var h0 := cb.hdr[..];
    cb.InitCrcTable();
    cb.GetBinaryFileLength(|file|);
    ghost var h1 := cb.hdr[..];
    var f := new InFile(file);
    cb.DoCrc32ProgramData(f);
    ghost var h2 := cb.hdr[..];
    cb.DoCrc32Hdr();
    ghost var p, h := CrcLe(ONES, Padded(file)), CrcLe(ONES, h2[..12]);
    WordLengths(load, load, load, p, h);
    AssembleSpi(h0, h1, h2, cb.hdr[..], [SPI_BOOT_SIG], CountBytes(|file|)[1..], StoreBe(load), StoreBe(p), StoreBe(h));
    assert cb.hdr[..16] == cb.hdr[..][..16];
  }

  /** main for a NAND image: whatever the chunks, a run without a short write leaves exactly this image. */
  method BuildNand(file: seq<bv8>, t0: bv32, t1: bv32, fpd: OutFile) returns (rc: int)
    requires fpd.data == [] && !fpd.short
    modifies fpd
    ensures rc == if fpd.short then -1 else 0
    ensures rc == 0 ==> fpd.data == NandImage(file, t0, t1)
  {
    var cb := new Builder.Nand(t0, t1);
    FillNand(cb, file, t0, t1);
    assert cb.hdr[..24] == cb.hdr[..];
    var f := new InFile(file);
    rc := cb.WriteOutputFile(f, fpd);
  }

  method BuildSpi(file: seq<bv8>, load: bv32, fpd: OutFile) returns (rc: int)
    requires fpd.data == [] && !fpd.short
    modifies fpd
    ensures rc == if fpd.short then -1 else 0
    ensures rc == 0 ==> fpd.data == SpiImage(file, load)
  {
    var cb := new Builder.Spi(load);
    FillSpi(cb, file, load);
    var f := new InFile(file);
    rc := cb.WriteOutputFile(f, fpd);
  }

  lemma WordLengths(a: bv32, b: bv32, c: bv32, d: bv32, e: bv32)
    ensures |StoreBe(a)| == |StoreBe(b)| == |StoreBe(c)| == |StoreBe(d)| == |StoreBe(e)| == 4
  {
    WordRoundTrip(a);
    WordRoundTrip(b);
    WordRoundTrip(c);
    WordRoundTrip(d);
    WordRoundTrip(e);
  }

  /** The table entry that the next byte selects. */
  function Slot(c: bv32, data: bv8): bv8 {
    (((data as bv32) ^ c) & 0xff) as bv8
  }

  function Updated(tab: seq<bv32>, c: bv32, data: bv8): bv32
    requires |tab| == 256
  {
    Xor(c >> 8, tab[Idx(Slot(c, data))])
  }

  lemma UpdateStep(tab: seq<bv32>, c: bv32, data: bv8)
    requires |tab| == 256 && TableLe(tab, 8)
    ensures Updated(tab, c, data) == ByteLe(c, data)
  {
    var x := Xor(c, data as bv32);
    UpdateIndex(c, data);
    TableStepLe8(x);
    XorCommutes(c >> 8, StepsLe(x & 255, 8));
  }

  lemma UpdateIndex(c: bv32, data: bv8)
    ensures Slot(c, data) as bv32 == (c ^ (data as bv32)) & 255
    ensures (c ^ (data as bv32)) >> 8 == c >> 8
  {}

  /** The inner loop of init_crc_table. */
  method EightSteps(dividend: bv32) returns (crc: bv32)
    ensures crc == StepsLe(dividend, 8)
  {
    crc := dividend;
    var j := 8;
    while j > 0
      invariant 0 <= j <= 8
      invariant Iterate(StepLe, crc, j) == StepsLe(dividend, 8)
    {
      StepLeBranch(crc);
      if crc & 1 != 0 {
        crc := (crc >> 1) ^ 0xedb88320;
      } else {
        crc := crc >> 1;
      }
      j := j - 1;
    }
  }

  lemma StepLeBranch(x: bv32)
    ensures x & 1 != 0 ==> StepLe(x) == (x >> 1) ^ 0xedb88320
    ensures x & 1 == 0 ==> StepLe(x) == x >> 1
  {
    LowBit(x);
    XorZero(x >> 1);
  }
}
