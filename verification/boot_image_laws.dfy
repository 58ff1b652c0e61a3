/** What a reader of a boot image can rely on. */
module BootImageLaws {
  import opened CrcSpec
  import opened CrcLaws
  import opened CrcBits
  import opened ByteOrder
  import opened BootImage

  /** What print_header reports about an image file. */
  datatype Printed = Unreadable | Spi(length: nat) | Nand(timing0: bv32, timing1: bv32, length: nat) | NotRecognised

  function PrintHeader(out: seq<bv8>): Printed {
    if |out| < 24 then Unreadable
    else if out[0] == SPI_BOOT_SIG then Spi(CountValue(0, out[1], out[2], out[3]))
    else if WordAt(out, 0) == NAND_MAGIC then
      Nand(WordAt(out, 8), WordAt(out, 12), CountAt(out, 4) * 4 % 0x1_0000_0000)
    else NotRecognised
  }

  lemma SixWords(m: seq<bv8>, a: seq<bv8>, b: seq<bv8>, c: seq<bv8>, d: seq<bv8>, e: seq<bv8>, rest: seq<bv8>, out: seq<bv8>)
    requires |m| == |a| == |b| == |c| == |d| == |e| == 4
    requires out == m + (a + b + c + d) + e + rest
    ensures |out| == 24 + |rest|
    ensures out[0..4] == m && out[4..8] == a && out[8..12] == b && out[12..16] == c
    ensures out[16..20] == d && out[4..20] == a + b + c + d && out[20..24] == e && out[24..] == rest
  {}

  /** Where the fields of a NAND image lie. */
  ghost predicate NandLaid(file: seq<bv8>, t0: bv32, t1: bv32, out: seq<bv8>) {
    && |out| == 24 + |Padded(file)|
    && out[0..4] == StoreBe(NAND_MAGIC)
    && out[4..8] == CountBytes((|file| + 27) / 4)
    && out[8..12] == StoreBe(t0) && out[12..16] == StoreBe(t1)
    && out[16..20] == StoreBe(CrcLe(ONES, out[24..]))
    && out[20..24] == StoreBe(CrcLe(ONES, out[4..20]))
    && out[24..] == Padded(file)
  }

  lemma NandLayout(file: seq<bv8>, t0: bv32, t1: bv32)
    ensures NandLaid(file, t0, t1, NandImage(file, t0, t1))
  {
    WordLengths(NAND_MAGIC, t0, t1, CrcLe(ONES, Padded(file)), CrcLe(ONES, NandFields(file, t0, t1)));
    SixWords(StoreBe(NAND_MAGIC), CountBytes((|file| + 27) / 4), StoreBe(t0), StoreBe(t1),
             StoreBe(CrcLe(ONES, Padded(file))), StoreBe(CrcLe(ONES, NandFields(file, t0, t1))), Padded(file),
             NandImage(file, t0, t1));
  }

  lemma NandWords(file: seq<bv8>, t0: bv32, t1: bv32, out: seq<bv8>)
    requires NandLaid(file, t0, t1, out)
    ensures WordAt(out, 0) == NAND_MAGIC && WordAt(out, 8) == t0 && WordAt(out, 12) == t1
    ensures WordAt(out, 16) == CrcLe(ONES, out[24..]) && WordAt(out, 20) == CrcLe(ONES, out[4..20])
  {
    StoredWord(out, 0, NAND_MAGIC);
    StoredWord(out, 8, t0);
    StoredWord(out, 12, t1);
    StoredWord(out, 16, CrcLe(ONES, out[24..]));
    StoredWord(out, 20, CrcLe(ONES, out[4..20]));
  }

  /** Header and padded program fill exactly the words that get_binary_file_length counts. */
  lemma WordsOfImage(file: seq<bv8>)
    ensures 24 + |Padded(file)| == 4 * ((|file| + 27) / 4)
  {
    WordCount(|file|, |Padded(file)|);
  }

  lemma WordCount(length: nat, padded: nat)
    requires padded % 4 == 0 && length <= padded < length + 4
    ensures 24 + padded == 4 * ((length + 27) / 4)
  {
    var m := padded / 4;
    assert padded == 4 * m;
    DivModUnique(length + 27, 4, m + 6, length + 27 - 4 * (m + 6));
  }

  lemma TruncatedCount(n: nat)
    ensures 4 * (n % 0x1_0000_0000) == 4 * n <==> n < 0x1_0000_0000
  {}

  lemma NandLength(file: seq<bv8>, t0: bv32, t1: bv32, out: seq<bv8>)
    requires NandLaid(file, t0, t1, out)
    ensures |out| % 4 == 0 && CountAt(out, 4) == |out| / 4 % 0x1_0000_0000
    ensures 4 * CountAt(out, 4) == |out| <==> |out| / 4 < 0x1_0000_0000
  {
    var n := (|file| + 27) / 4;
    WordsOfImage(file);
    assert |out| == 4 * n && |out| / 4 == n;
    StoredCount(out, 4, n);
    TruncatedCount(n);
  }

  /**
    A NAND image agrees with its own header: its length, modulo 2^32 words, is
    the stored length; the stored checksums are those of the bytes they are
    stored with; and the timing values and the program read back.
   */
  lemma NandImageConsistent(file: seq<bv8>, t0: bv32, t1: bv32)
    ensures var out := NandImage(file, t0, t1);
      && |out| >= 24 && |out| % 4 == 0
      && CountAt(out, 4) == |out| / 4 % 0x1_0000_0000
      && (4 * CountAt(out, 4) == |out| <==> |out| / 4 < 0x1_0000_0000)
      && WordAt(out, 0) == 0x4c42_4348 && WordAt(out, 8) == t0 && WordAt(out, 12) == t1
      && WordAt(out, 16) == CrcLe(0xffff_ffff, out[24..])
      && WordAt(out, 20) == CrcLe(0xffff_ffff, out[4..20])
      && FileThenZeros(out[24..], file)
  {
    NandLayout(file, t0, t1);
    NandWords(file, t0, t1, NandImage(file, t0, t1));
    NandLength(file, t0, t1, NandImage(file, t0, t1));
  }

  /** The file and as few zeros as make whole words. */
  ghost predicate FileThenZeros(out: seq<bv8>, file: seq<bv8>) {
    && |out| % 4 == 0 && |file| <= |out| < |file| + 4 && out[..|file|] == file
    && forall i :: |file| <= i < |out| ==> out[i] == 0
  }

  /** A payload changed only within 32 consecutive bits no longer matches the stored checksum. */
  lemma PayloadBurstDetected(file: seq<bv8>, t0: bv32, t1: bv32, payload: seq<bv8>, p: nat)
    requires |payload| == |Padded(file)| && payload != Padded(file)
    requires AgreeOutside(MessageBitsLe(Padded(file)), MessageBitsLe(payload), p)
    ensures |NandImage(file, t0, t1)| >= 24
    ensures CrcLe(0xffff_ffff, payload) != WordAt(NandImage(file, t0, t1), 16)
  {
    NandLayout(file, t0, t1);
    NandWords(file, t0, t1, NandImage(file, t0, t1));
    BurstDetectedLe(ONES, Padded(file), payload, p);
  }

  lemma TimesFour(n: nat)
    ensures n % 0x1_0000_0000 * 4 % 0x1_0000_0000 == 4 * n % 0x1_0000_0000
  {
    var q := n / 0x1_0000_0000;
    assert n == n % 0x1_0000_0000 + 0x1_0000_0000 * q;
    Residue(4 * n, n % 0x1_0000_0000 * 4, 4 * q);
  }

  lemma MagicIsNotSpi(out: seq<bv8>)
    requires |out| >= 4 && out[0..4] == StoreBe(NAND_MAGIC)
    ensures out[0] != SPI_BOOT_SIG
  {
    StoreBeBytes(NAND_MAGIC);
    assert out[0..4][0] == out[0];
  }

  /** print_header recovers what a NAND image was built from; the length it prints is the file's, modulo 2^32 bytes. */
  lemma NandPrinted(file: seq<bv8>, t0: bv32, t1: bv32)
    ensures PrintHeader(NandImage(file, t0, t1)) == Nand(t0, t1, |NandImage(file, t0, t1)| % 0x1_0000_0000)
  {
    NandLayout(file, t0, t1);
    NandDecoded(file, t0, t1, NandImage(file, t0, t1));
  }

  lemma NandDecoded(file: seq<bv8>, t0: bv32, t1: bv32, out: seq<bv8>)
    requires NandLaid(file, t0, t1, out)
    ensures PrintHeader(out) == Nand(t0, t1, |out| % 0x1_0000_0000)
  {
    NandWords(file, t0, t1, out);
    NandLength(file, t0, t1, out);
    MagicIsNotSpi(out);
    TimesFour(|out| / 4);
  }

  /** Where the fields of an SPI image lie. */
  ghost predicate SpiLaid(file: seq<bv8>, load: bv32, out: seq<bv8>) {
    && |out| == 16 + |Padded(file)|
    && out[0] == SPI_BOOT_SIG && out[1..4] == CountBytes(|file|)[1..]
    && out[4..8] == StoreBe(load) && out[8..12] == StoreBe(CrcLe(ONES, out[16..]))
    && out[12..16] == StoreBe(CrcLe(ONES, out[..12]))
    && out[16..] == Padded(file)
  }

  lemma SpiLayout(file: seq<bv8>, load: bv32)
    ensures SpiLaid(file, load, SpiImage(file, load))
  {
    WordLengths(load, load, load, CrcLe(ONES, Padded(file)), CrcLe(ONES, SpiFields(file, load)));
    SpiParts(CountBytes(|file|)[1..], StoreBe(load), StoreBe(CrcLe(ONES, Padded(file))),
             StoreBe(CrcLe(ONES, SpiFields(file, load))), Padded(file), SpiImage(file, load));
  }

  lemma SpiWords(file: seq<bv8>, load: bv32, out: seq<bv8>)
    requires SpiLaid(file, load, out)
    ensures WordAt(out, 4) == load
    ensures WordAt(out, 8) == CrcLe(ONES, out[16..]) && WordAt(out, 12) == CrcLe(ONES, out[..12])
    ensures CountValue(0, out[1], out[2], out[3]) == |file| % 0x100_0000
  {
    StoredWord(out, 4, load);
    StoredWord(out, 8, CrcLe(ONES, out[16..]));
    StoredWord(out, 12, CrcLe(ONES, out[..12]));
    CountRoundTrip(|file|);
    assert out[1..4] == [out[1], out[2], out[3]];
  }

  lemma SpiParts(n: seq<bv8>, a: seq<bv8>, b: seq<bv8>, c: seq<bv8>, rest: seq<bv8>, out: seq<bv8>)
    requires |n| == 3 && |a| == |b| == |c| == 4
    requires out == ([SPI_BOOT_SIG] + n + a + b) + c + rest
    ensures |out| == 16 + |rest| && out[0] == SPI_BOOT_SIG && out[1..4] == n && out[4..8] == a && out[8..12] == b
    ensures out[..12] == [SPI_BOOT_SIG] + n + a + b && out[12..16] == c && out[16..] == rest
  {}

  lemma SpiDecoded(file: seq<bv8>, load: bv32, out: seq<bv8>)
    requires SpiLaid(file, load, out)
    ensures PrintHeader(out) == if |file| >= 5 then Spi(|file| % 0x100_0000) else Unreadable
  {
    SpiWords(file, load, out);
    PaddedLength(file);
    if |file| >= 5 {
      assert |out| >= 24;
    } else {
      assert |out| < 24;
    }
  }

  lemma PaddedLength(file: seq<bv8>)
    ensures |Padded(file)| >= 8 <==> |file| >= 5
  {}

  lemma SpiProgram(file: seq<bv8>, out: seq<bv8>)
    requires |out| == 16 + |Padded(file)| && out[16..] == Padded(file)
    ensures |out| % 4 == 0 && |file| <= |out| - 16 < |file| + 4 && file <= out[16..]
  {
    WholeWords(|Padded(file)|);
  }

  lemma WholeWords(n: nat)
    requires n % 4 == 0
    ensures (16 + n) % 4 == 0
  {}

  lemma SmallLength(n: nat)
    ensures n % 0x100_0000 == n <==> n < 0x100_0000
  {}

  /**
    print_header reads as many bytes as the larger header has. It reports an SPI
    image, with its length modulo 2^24, exactly when the program has at least
    five bytes; a shorter image it cannot read at all.
   */
  lemma SpiPrinted(file: seq<bv8>, load: bv32)
    ensures PrintHeader(SpiImage(file, load)) == if |file| >= 5 then Spi(|file| % 0x100_0000) else Unreadable
    ensures PrintHeader(SpiImage(file, load)) == Spi(|file|) <==> 5 <= |file| < 0x100_0000
  {
    SpiLayout(file, load);
    SpiDecoded(file, load, SpiImage(file, load));
    SmallLength(|file|);
  }

  /** The checksums and the load address of an SPI image belong to the bytes they are stored with. */
  lemma SpiImageConsistent(file: seq<bv8>, load: bv32)
    ensures var out := SpiImage(file, load);
      && |out| >= 16 && |out| % 4 == 0
      && out[0] == 0x4d && CountValue(0, out[1], out[2], out[3]) == |file| % 0x100_0000 && WordAt(out, 4) == load
      && WordAt(out, 8) == CrcLe(0xffff_ffff, out[16..]) && WordAt(out, 12) == CrcLe(0xffff_ffff, out[..12])
      && FileThenZeros(out[16..], file)
  {
    SpiLayout(file, load);
    SpiWords(file, load, SpiImage(file, load));
    SpiProgram(file, SpiImage(file, load));
  }
}
