# A verified model of the boot loader's algorithms

This project models the parts of the MIPS boot loader that compute something,
and proves what they compute:

- **CRC-32** (`lib/crc32_old.c`, `lib/crc32.c`, the copy in `tools/src/bh/bhdr.c`).
  The repository has many programs for one function, the frame check sequence
  of section 3.2.9 of IEEE 802.3. The bit loops, the four
  nibble and pair table loops, the word loop for either byte order of the host,
  the reflected byte-table loop of the image builder and the two non-reflected
  Barr loops are each written as loops, and each is proved to return `CrcLe` or `CrcBe`,
  the fold of the one-bit step. About these two functions the project
  proves splitting, linearity, cancellation, bit-reversal duality, the
  detection of every burst of up to 32 bits, and that the big-endian CRC is the
  remainder of polynomial division: it is the only 32-bit value for which
  message and CRC together are a multiple of the generator, as the tutorial in
  the source says.
- **The XMODEM receiver** (`loader/xmodem.c`). The program is proved against an
  automaton over bytes and timeouts, for every input. The automaton is then
  composed with a stop-and-wait sender and a line that works in rounds. The
  condition on the line under which the two ends stay in step in every state of a
  run is exact. Delivery holds over every run of detectable faults, a wrong
  block number included, in which enough rounds get through, and is carried
  back to the program itself (`Download`).
- **The UBI boot path** (`devices/nand/dev_nand.c`): scanning volume headers into
  the block table, assembling the image from it, falling back to the backup
  volume.
- **The boot-image builder** (`tools/src/bh/bhdr.c`): header fields, padding,
  checksums and length agree over the four functions that produce them, and
  with the function that prints them.
- **Smaller pieces**: the data-line test of `boot/soc_landshark/dram_ram.c`, the
  number printers of `boot/soc_landshark/uart_ram.c`, and two that are compiled
  out, the tick counter of `boot/soc_landshark/timer_ram.c` and the command-line
  splitter of `loader/bootm.c`.

Every CRC program is tied to the same two functions, so results about those hold
of all of them: the scan of volume headers uses the Barr table, the image
builder its own reflected table, and burst detection applies to both.

## Layout

| files | contents |
|---|---|
| `folds.dfy` | iterating a step and folding a message, over any state |
| `crc_spec.dfy`, `crc_laws.dfy`, `crc_bits.dfy`, `crc_division.dfy` | the CRC, its algebra, bursts, polynomial division |
| `crc32_old.dfy`, `crc32_word.dfy`, `crc32_test.dfy`, `crc32_barr.dfy`, `check_value.dfy` | the CRC programs and the unit test |
| `byte_order.dfy`, `boot_image.dfy`, `boot_image_laws.dfy` | the image builder |
| `xmodem.dfy`, `xmodem_link.dfy` | the receiver; sender and line |
| `nand.dfy`, `ubi_scan.dfy`, `ubi_laws.dfy`, `ubi_boot.dfy`, `ubi_failover.dfy` | the UBI boot path |
| `ubi_flash.dfy` | flashes made of chosen blocks, and the ones on which the boot path goes wrong |
| `command_line.dfy`, `linux_params.dfy`, `timer.dfy`, `ram_test.dfy`, `uart_print.dfy` | the smaller pieces |

## Properties that hold only under a condition

Each of these is stated with its exact condition.

- The word loop with the table of the header file as it stands returns the CRC
  if and only if the host is little-endian: the fallback for `tole` converts
  nothing (`PlainTableNeedsLittleEndian`). With any table the loop is right if
  and only if every entry is in the host's byte order (`TableIsDecisive`).
- `print_header` always reads the larger header, so it shows the length of an SPI
  image if and only if the file has at least 5 bytes and fewer than 2^24
  (`SpiPrinted`). The length field of a NAND image is the image's length if and
  only if the image has fewer than 2^32 words (`NandLength`).
- `scanvid` counts blocks, not logical numbers: it succeeds with the first entries
  of the table filled if and only if enough blocks of the volume come before its
  first damaged one and the first of them carry pairwise distinct numbers below
  the reserved count (`ScanCompleteIff`). On a flash with the numbers 0 and 0 it
  succeeds and leaves a gap (`RepeatedNumberLeavesGap`); every list of numbers
  is on some flash (`EveryListIsFound`).
- The image is all of the volume's reserved blocks if and only if the numbers found
  are distinct and below the reserved count (`WholeVolume`).
- `readmapTable` reads for entry 0 whatever it holds. The pages that `read_uboot`
  loads are all pages of the volume if and only if the scan has found a block with
  number 0 (`LoadedFromVolumeIff`, and `ReadUboot` for what is in memory). On a flash
  whose one block has number 5 every stage succeeds, and the 126 loaded pages are
  those at the start of the flash, outside the UBI partition (`StrayImage`).
- `readmapTable` looks behind the end of its table if and only if entries 1 to 19
  are all filled and every page is good (`StaysIff`); reserving at most 18 blocks
  rules that out on every flash, and no larger number up to the 2046 blocks of a
  flash with 4 KB pages does (`ReservedIff`, `RunsOff`).
- `ram_pattern_verify` visits one word in each 4096 bytes of the range, except
  where `SampledCount` says: of a range that reaches the top of the address
  space it visits a single word.
- For a period of at most 2^31 + 1 cycles and a call less than 2^32 - 1 cycles
  after the next tick was due, `get_timer` counts right if and only if the call
  comes less than 0x7fffffff cycles after it (`RightIff`). For a period below 2^32
  no call before the next tick is due, however early, counts it if and only if
  the period is at most 2^31 + 1 (`LongestPeriod`).
- The XMODEM sender and receiver stay in step in every state of a run if and only
  if the line is sound (`EndToEndIff`): a packet that passes complement and sum
  with the expected number is the next block, one with the number before it is
  acknowledged to the sender only when the current block has arrived, and an EOT
  is seen only when it was sent. A packet is given up if and only if it fails its
  checks or its number is neither of these two (`GivenUpIff`). A wrong payload that
  passes the checks with the expected number is stored (`UndetectedErrorIsStored`).

Where the code and its comments differ, the model follows the code. The check
value in `lib/include/lib_crc.h`, which no code uses, belongs to a final exclusive
or of all ones and not to the parameters beside it (`CheckValueNeedsFinalXor`). In
`xmodem_load` a timeout inside a packet sets the state for an immediate NAK, but
the checks that follow compare the timeout value with the checksum, fail, and
send the receiver to purge the line first. The clearing of pending input at the
start calls the read routine with a zero timeout, which is over before a
character can be read.

## Model

| member | source | states |
|---|---|---|
| Crc32Old.Crc32LeBit | lib/crc32_old.c:73-82 | the little-endian bit loop returns the fold of the one-bit step, for every seed and message |
| Crc32Old.Crc32BeBit | lib/crc32_old.c:170-181 | the same for the big-endian bit loop |
| Crc32Old.Crc32LeNibble | lib/crc32_old.c:134-140 | two steps with a 16-entry table of four-bit steps give the bitwise result |
| Crc32Old.Crc32LePair | lib/crc32_old.c:141-149 | four steps with a 4-entry table of two-bit steps give the bitwise result |
| Crc32Old.Crc32BeNibble | lib/crc32_old.c:233-239 | the same, most significant nibble first |
| Crc32Old.Crc32BePair | lib/crc32_old.c:240-248 | the same, most significant pair first |
| Crc32Word.WordStep | lib/crc32_old.c:111-117 | exclusive-oring a 32-bit word and stepping four times is four byte steps, on either host byte order |
| Crc32Word.AlignBytes | lib/crc32_old.c:98-105 | the first loop stops at a word boundary or the end, and what is left completes the run |
| Crc32Word.Words | lib/crc32_old.c:106-120 | the word loop leaves fewer than four bytes, and they complete the run |
| Crc32Word.TailBytes | lib/crc32_old.c:121-128 | the last loop completes the run |
| Crc32Word.WordCrc | lib/crc32_old.c:98-128 | the three loops together are the byte-table run, for every start address, seed and length |
| Crc32Word.NativeIsCrc | lib/crc32_old.c:91-97 | with a table in host order, the byte-table run on the converted seed is the converted CRC |
| Crc32Word.Crc32LeWord | lib/crc32_old.c:85-130 | the whole word-at-a-time `crc32_le` is the bitwise CRC for both host byte orders |
| Crc32Word.Crc32BeWord | lib/crc32_old.c:184-229 | the same for `crc32_be` |
| Crc32Word.TableIsDecisive | lib/crc32_old.c:85-130 | the result is right for all inputs if and only if each table entry is the converted CRC of its byte |
| Crc32Word.PlainTableNeedsLittleEndian | lib/crc32_old.c:38-40 | the unconverted table is right if and only if the host is little-endian; a one-byte message shows the difference |
| CrcLaws.CrcSplit | lib/crc32_old.c:450-455 | the CRC of two parts is the CRC of the second seeded with that of the first, at every split |
| CrcLaws.CrcLeXor | lib/crc32_old.c:501-510 | the little-endian CRC of an exclusive or of messages and seeds is the exclusive or of the CRCs |
| CrcLaws.CrcBeXor | lib/crc32_old.c:501-510 | the same, big-endian |
| CrcLaws.CrcDuality | lib/crc32_old.c:457-468 | bit-reversing seed and bytes turns the big-endian CRC into the reversal of the little-endian one |
| CrcLaws.CrcDualityLe | lib/crc32_old.c:457-468 | the same, solved for either side |
| CrcLaws.CrcCancellation | lib/crc32_old.c:432-448 | a message followed by its CRC has CRC zero, in both byte orders, for every seed and length |
| CrcLaws.StoredBeCancels | lib/crc32_old.c:424-430 | the bytes of `store_be`, from its own value as seed, give zero |
| CrcLaws.StoredLeCancels | lib/crc32_old.c:414-422 | the same for `store_le` |
| CrcBits.CrcLeBits | lib/crc32_old.c:324-329 | the little-endian CRC is the run of the bit-at-a-time loop over the message's bits |
| CrcBits.WindowInjective | lib/crc32_old.c:73-82 | up to 32 bits from one state are determined by the state they lead to |
| CrcBits.PackSteps | lib/crc32_old.c:352-353 | up to 32 bits can be merged at once and stepped afterwards |
| CrcBits.BurstDetectedLe | lib/crc32_old.c:73-82 | messages that differ only inside 32 consecutive bits, anywhere, have different little-endian CRCs |
| CrcBits.BurstDetectedBe | lib/crc32_old.c:170-181 | the same, big-endian |
| CrcDivision.CrcBeBits | lib/crc32_old.c:319-323 | the big-endian CRC is the run of the tutorial's rearranged bit loop |
| CrcDivision.Divide | lib/crc32_old.c:286-302 | the bit loop is long division: dividend = generator times quotient plus remainder, over bits |
| CrcDivision.ProductInjective | lib/crc32_old.c:273-276 | a multiple of the generator has one quotient, because the top bit of the divisor is set |
| CrcDivision.CrcIsRemainder | lib/crc32_old.c:286-297 | a 32-bit value is the state after a message if and only if it differs from the seeded dividend by a multiple of the generator |
| CrcDivision.MessageWithCrcIsMultiple | lib/crc32_old.c:259-265 | message and value together are a multiple of the polynomial if and only if the value is the CRC |
| Crc32UnitTest.ByteReverse | lib/crc32_old.c:400-406 | the buffer's first bytes are bit-reversed in place, the rest is untouched |
| Crc32UnitTest.CountSplitFailures | lib/crc32_old.c:450-455 | the split loop finds no failure at any of its positions |
| Crc32UnitTest.StepLaws | lib/crc32_old.c:432-437 | cancellation before and after reversal, and the CRC of the reversed buffer |
| Crc32UnitTest.TestStep | lib/crc32_old.c:438-482 | with the word-at-a-time CRC, every check of the test step passes for every seed, buffer and length; it returns the CRC of the reversed buffer and leaves the reversed buffer behind |
| Crc32UnitTest.XorBuffers | lib/crc32_old.c:501-502 | the third buffer is the exclusive or of the other two |
| Crc32UnitTest.XorOfSteps | lib/crc32_old.c:506-510 | the result of a test step on an exclusive or is the exclusive or of the results |
| Crc32UnitTest.TestLength | lib/crc32_old.c:496-511 | every check of one pass of the main loop passes, for every length, seeds and buffers |
| Crc32Barr.Reflect | lib/crc32.c:58-82 | the loop returns the low bits in reverse order |
| Crc32Barr.MirrorByte | lib/crc32.c:58-82 | over 8 bits that is byte reversal |
| Crc32Barr.DivideByte | lib/crc32.c:117-130 | the inner loop is eight big-endian steps |
| Crc32Barr.CrcSlow | lib/crc32.c:97-138 | reflected data, non-reflected division and reflected remainder return the little-endian CRC seeded with all ones |
| Crc32Barr.ReflectedRun | lib/crc32.c:97-138 | the reflection identity behind it |
| Crc32Barr.Barr.CrcInit | lib/crc32.c:158-199 | the table holds eight big-endian steps of each byte |
| Crc32Barr.Barr.CrcFast | lib/crc32.c:214-235 | with that table, the same CRC as `crcSlow` and as `crc32_le` from all ones |
| CheckValue.CheckValueNeedsFinalXor | lib/include/lib_crc.h:57-65 | the check string gives the stated check value with a final exclusive or of all ones and with no other |
| ByteOrder.CountRoundTrip | tools/src/bh/bhdr.c:220-230 | a count stored byte by byte reads back modulo 2^32, and modulo 2^24 without its first byte |
| ByteOrder.WordRoundTrip | tools/src/bh/bhdr.c:279-289 | a word stored most significant byte first reads back |
| ByteOrder.FirstIsHighest | tools/src/bh/bhdr.c:279-289 | words and counts are stored and read with the most significant byte first |
| BootImage.Builder.InitCrcTable | tools/src/bh/bhdr.c:88-104 | the table holds eight little-endian steps of each byte |
| BootImage.Builder.UpdateCrc32 | tools/src/bh/bhdr.c:106-109 | one update is one byte of the bitwise CRC |
| BootImage.Builder.GetBinaryFileLength | tools/src/bh/bhdr.c:212-232 | the length field: words of header and padded file for NAND, the low 24 bits of the size for SPI, and no other field |
| BootImage.Builder.FileCrc | tools/src/bh/bhdr.c:258-266 | the CRC of the file, however reads are chunked |
| BootImage.Builder.ProgramCrc | tools/src/bh/bhdr.c:258-275 | the CRC of the file padded with zeros to whole words |
| BootImage.Builder.DoCrc32ProgramData | tools/src/bh/bhdr.c:244-292 | that CRC in the program CRC field of either header, and no other field changed |
| BootImage.Builder.DoCrc32Hdr | tools/src/bh/bhdr.c:294-343 | the CRC of the header's covered bytes in the header CRC field, and no other field changed |
| BootImage.Builder.WriteOutputFile | tools/src/bh/bhdr.c:355-418 | header and padded file are written, or a short write is reported |
| BootImage.BuildNand | tools/src/bh/bhdr.c:212-418 | the steps together write the NAND image of the file |
| BootImage.BuildSpi | tools/src/bh/bhdr.c:212-418 | the steps together write the SPI image of the file |
| BootImageLaws.NandLength | tools/src/bh/bhdr.c:220-225 | the length field times four is the file length if and only if there are fewer than 2^32 words |
| BootImageLaws.NandImageConsistent | tools/src/bh/bhdr.c:212-418 | a NAND image has its magic number, length and timings; both CRCs start from all ones and cover the bytes after the header and bytes 4 to 19; the file follows, and zeros up to a whole word |
| BootImageLaws.NandPrinted | tools/src/bh/bhdr.c:446-458 | printing the header of a NAND image shows its timings and its length modulo 2^32 |
| BootImageLaws.SpiImageConsistent | tools/src/bh/bhdr.c:212-418 | the same for an SPI image: signature, length modulo 2^24, load address, both CRCs from all ones, and the padded file |
| BootImageLaws.SpiPrinted | tools/src/bh/bhdr.c:433-445 | printing shows the file's length if and only if it is between 5 bytes and 2^24 |
| BootImageLaws.PayloadBurstDetected | tools/src/bh/bhdr.c:279-283 | a payload damaged within 32 consecutive bits no longer matches the stored program CRC |
| Xmodem.ComplementMeans | loader/xmodem.c:138 | the exclusive-or test on the block number's complement, in arithmetic |
| Xmodem.ChecksIff | loader/xmodem.c:120-138 | a packet checks out if and only if its two numbers are inverses bit by bit and the sum of its 128 data bytes, modulo 256, is the last byte |
| Xmodem.Answers | loader/xmodem.c:90-112 | what each character means while waiting and while purging, and what is answered, by their codes |
| Xmodem.PacketOutcome | loader/xmodem.c:136-163 | the 131st byte of a packet: stored and acknowledged, acknowledged, or given up |
| Xmodem.SilentAtFirst | loader/xmodem.c:84-177 | before the line first pauses nothing is stored or answered, whatever is on it; the pause brings a NAK |
| Xmodem.StepKeeps | loader/xmodem.c:89-184 | one event keeps the block number in step with memory, and stores a whole payload or nothing |
| Xmodem.RunKeeps | loader/xmodem.c:89-184 | so does every run from any consistent state; memory grows by the stored payloads in order |
| Xmodem.RunFromStart | loader/xmodem.c:84-184 | from the start, memory is 128 bytes per stored packet, and the expected number is one more modulo 256 |
| Xmodem.RunReplies | loader/xmodem.c:89-184 | over every run only ACK and NAK are sent, exactly one for each entry to waiting or to the end, and an ACK for every payload stored |
| Xmodem.Gathering | loader/xmodem.c:116-134 | up to 130 bytes after SOH are only gathered |
| Xmodem.CutShort | loader/xmodem.c:117-142 | a packet cut short at any position is neither stored nor acknowledged; the next pause brings a NAK |
| Xmodem.StorePayload | loader/xmodem.c:149-152 | the copy loop appends the 128 payload bytes |
| Xmodem.ReceiveBytes | loader/xmodem.c:116-134 | the packet loop gathers buffer and checksum as the automaton does, or ends at a timeout |
| Xmodem.PurgeLine | loader/xmodem.c:165-175 | the purge loop swallows bytes up to a pause |
| Xmodem.HandlePacket | loader/xmodem.c:136-163 | a complete packet is stored, acknowledged as a repetition, or given up, as the automaton says |
| Xmodem.XmodemLoad | loader/xmodem.c:63-184 | on every input the program sends the automaton's replies, leaves its memory, and returns its length exactly when it finishes |
| XmodemLink.EventSafeIff | loader/xmodem.c:89-184 | one event keeps memory a prefix of the file, and a heard ACK a sign that the current block has arrived, if and only if it is sound |
| XmodemLink.LineSafeIff | loader/xmodem.c:89-184 | the same for all that the receiver sees in a round, state by state |
| XmodemLink.RunSafeIff | loader/xmodem.c:84-184 | the same for every state of a sequence of rounds, with answers lost or heard |
| XmodemLink.RunSafe | loader/xmodem.c:84-184 | after any sequence of sound rounds the two ends are together |
| XmodemLink.EndToEndIff | loader/xmodem.c:84-184 | from the start, every reached state is in step if and only if the lines are sound |
| XmodemLink.EndToEnd | loader/xmodem.c:84-184 | after sound rounds memory is a prefix of the blocks, the sender is at its end or one behind, and at the end memory is the whole file |
| XmodemLink.GivenUpIff | loader/xmodem.c:136-160 | a packet is given up without an answer if and only if it fails its checks or is out of sequence, and acknowledged otherwise |
| XmodemLink.FaultRound | loader/xmodem.c:89-184 | after loss, truncation with or without other damage, a failed check, a number out of sequence or noise, and a pause, the receiver is waiting again, and the round is acknowledged exactly if nothing went wrong |
| XmodemLink.TrialProgress | loader/xmodem.c:89-184 | no such round loses ground, and one that gets through both ways gains a block |
| XmodemLink.Delivers | loader/xmodem.c:84-184 | with one more good round than blocks, the file is in memory and the receiver has finished |
| XmodemLink.DeliversFromStart | loader/xmodem.c:63-184 | the same from power-up, with any noise before the first pause, which brings the first NAK |
| XmodemLink.TraceIsRun | loader/xmodem.c:84-184 | the rounds laid end to end are one run of the receiver |
| XmodemLink.Download | loader/xmodem.c:63-184 | the program itself, on the input of such a run behind any noise and a pause, returns the file's length with the file in memory |
| XmodemLink.UndetectedErrorIsStored | loader/xmodem.c:136-154 | a wrong payload that passes the checks is stored and acknowledged |
| Nand.Chip.Geometry | devices/nand/dev_nand.c:58-84 | page sizes, pages per block, sections, shifts and offsets of both geometries fit together |
| Nand.Chip.ScannedBlocks | devices/nand/dev_nand.c:510 | the scan covers 2046 blocks of a flash with 4 KB pages and 4089 of one with 2 KB pages |
| Nand.Chip.AddressIsDouble | devices/nand/dev_nand.c:525-526 | the controller address of a page-aligned offset is twice the offset |
| Nand.CheckPattern | devices/nand/dev_nand.c:249-258 | 1 if and only if the buffer holds nothing but the pattern |
| Nand.ReadNandPage | devices/nand/dev_nand.c:96-115 | the bytes at the address arrive at the destination in whole words, for any length up to a page, and nothing else changes |
| UbiScan.BootState.JudgeBlock | devices/nand/dev_nand.c:512-588 | what the scan decides for one block: of the volume with a number, not of it, or damaged |
| UbiScan.BootState.DecideHeader | devices/nand/dev_nand.c:541-588 | the decision on a header: error correction, magic number, volume, checksum by the Barr CRC |
| UbiScan.BootState.LastEcc | devices/nand/dev_nand.c:553-566 | only the correction result of the last section survives the loop |
| UbiLaws.VerdictIff | devices/nand/dev_nand.c:512-588 | for every block, by the bytes and checks of the chip: passed over if bad, erased, unreadable, without the magic number or of another volume; else of the volume with the number in its header if CRC and last section are good, and damaged if not |
| UbiScan.BootState.ScanBlock | devices/nand/dev_nand.c:510-589 | one block: entered in the table if it is of the volume, and the end of the scan if it is damaged or the last one needed |
| UbiScan.BootState.ScanVid | devices/nand/dev_nand.c:494-599 | return code and table are those of the scan from the base offset, from a cleared table |
| UbiLaws.MembersAreSound | devices/nand/dev_nand.c:510-588 | the blocks listed for a flash are the volume's and lie before its first damaged one |
| UbiLaws.MembersAreComplete | devices/nand/dev_nand.c:510-588 | every block of the volume before the first damaged one is listed |
| UbiLaws.ScanIsPrefix | devices/nand/dev_nand.c:494-599 | the scan finds these blocks in order up to the reserved number, and returns 0 exactly if there are enough of them, or none are reserved and none is damaged |
| UbiLaws.NothingPassedOver | devices/nand/dev_nand.c:510-588 | no block of the volume before the last one found is missed |
| UbiLaws.FoundAll | devices/nand/dev_nand.c:575-581 | a scan that succeeds has found exactly the reserved number of blocks |
| UbiLaws.HitsAreMembers | devices/nand/dev_nand.c:510-588 | each of them is a member block at a block boundary, in increasing order |
| UbiLaws.TableEntry | devices/nand/dev_nand.c:507-575 | an entry is the data offset of the last block with its number, and zero if and only if there is none |
| UbiLaws.MapIsSound | devices/nand/dev_nand.c:494-599 | a nonzero entry is block offset plus two pages of the last block found with that number: a good block in the scanned range whose header has the magic number, the volume, the number and a matching CRC |
| UbiLaws.LnumsSize | devices/nand/dev_nand.c:575 | as many numbers as blocks if and only if none repeats |
| UbiLaws.CompleteIff | devices/nand/dev_nand.c:575-581 | the table is filled up to the count if and only if the numbers are distinct and below it |
| UbiLaws.ScanCompleteIff | devices/nand/dev_nand.c:494-599 | the scan succeeds with a full table if and only if the flash has enough blocks before the first damaged one, the first of them with distinct numbers below the count |
| UbiFlash.HeaderReads | devices/nand/dev_nand.c:550-573 | a header made from volume, number and checksum reads as them, and its checksum is right if and only if it is the CRC |
| UbiFlash.FlashJudges | devices/nand/dev_nand.c:512-588 | the verdict on a block of each kind, on both geometries |
| UbiFlash.FlashScan | devices/nand/dev_nand.c:494-599 | on every flash made of bad, erased, empty, foreign, unreadable, good and damaged blocks the scan finds the volume's good headers up to the first damaged one, passes over all others, and fails exactly if there are too few |
| UbiFlash.EveryListIsFound | devices/nand/dev_nand.c:494-599 | for every list of up to 2046 numbers, as many as a scan covers blocks of 4 KB pages, there is a flash on which the scan succeeds with just that list |
| UbiFlash.ListFillsIff | devices/nand/dev_nand.c:494-599 | the scan of that flash fills the table if and only if the list is distinct and below its length |
| UbiFlash.RepeatedNumberLeavesGap | devices/nand/dev_nand.c:575-581 | on the flash with the numbers 0 and 0 the scan for two blocks succeeds and entry 1 is empty |
| UbiBoot.ImagePage | devices/nand/dev_nand.c:626-677 | page k of the image is page 2 + k mod (pages per block - 2) of the block mapped for k div (pages per block - 2) |
| UbiBoot.ImageLength | devices/nand/dev_nand.c:675 | the offset of page k is k pages |
| UbiBoot.LoadStops | devices/nand/dev_nand.c:628-681 | the read returns 0 exactly at the map's end, 1 exactly at an erased page, negative exactly at a page beyond correction, and all pages before are good |
| UbiBoot.LoadIff | devices/nand/dev_nand.c:628-681 | the read ends before page n with a return code if and only if all pages before are good by what the chip returns, and page n is erased (1), beyond correction (-1) or behind the last (0) |
| UbiBoot.StaysIff | devices/nand/dev_nand.c:678 | the loop looks behind the table if and only if entries 1 to 19 are filled and all pages are good |
| UbiBoot.ReadPage | devices/nand/dev_nand.c:631-674 | one page to its place; erased if all its bytes are 0xFF on 4 KB pages, or the spare area says so on 2 KB pages; else bad if one of its sections cannot be corrected |
| UbiBoot.ReadBlock | devices/nand/dev_nand.c:629-676 | the inner loop keeps memory, `bytes` and the read's outcome in step |
| UbiBoot.ReadMapTable | devices/nand/dev_nand.c:610-681 | the return code is that of the page where the read ends, by what the chip returns, and memory starts with the pages before it |
| UbiFailover.FullIff | devices/nand/dev_nand.c:575-678 | entries 1 to 19 are all filled if and only if the scan has found each of these numbers |
| UbiFailover.ReservedTerminates | devices/nand/dev_nand.c:678 | with at most 18 reserved blocks the loop over the table always meets a zero entry |
| UbiFlash.RunsOff | devices/nand/dev_nand.c:678 | for every larger number up to 2046 there is a flash on which the scan succeeds and the loop looks behind the table |
| UbiFlash.ReservedIff | devices/nand/dev_nand.c:678 | so 18 is the most, up to 2046, for which no flash leads there |
| UbiFailover.FoundOnFlash | devices/nand/dev_nand.c:494-599 | a number is found if and only if one of the volume's first blocks, as many as are reserved and before any damaged one, carries it |
| UbiFailover.PageOfVolumeIff | devices/nand/dev_nand.c:626-641 | page k of the image is page 2 + k mod (pages per block - 2) of the last block that the scan found with number k div (pages per block - 2) if and only if it found that number |
| UbiFailover.LoadedFromVolumeIff | devices/nand/dev_nand.c:696-761 | all loaded pages are the volume's if and only if the scan found number 0 |
| UbiFlash.UnmappedOffsets | devices/nand/dev_nand.c:626-641 | without number 0 the first pages are read from the start of the flash, in front of the UBI partition |
| UbiFlash.StrayImage | devices/nand/dev_nand.c:696-761 | on a flash with the number 5 alone every stage succeeds and no loaded page is of the volume |
| UbiFailover.LoadedMeans | devices/nand/dev_nand.c:696-761 | a volume that loads gives good pages only, of its own scan, up to the end of the map or an erased page |
| UbiFailover.LoadsIff | devices/nand/dev_nand.c:706-757 | a volume loads if and only if its layout is found, enough of its blocks come before its first damaged one, and its image does not end at a page beyond correction; it loads up to the first erased page or the end of the map |
| UbiFailover.WholeVolume | devices/nand/dev_nand.c:575-678 | the map covers exactly the volume's reserved blocks, number 0 included, if and only if the numbers found are distinct and below the reserved count |
| UbiFailover.BootedPage | devices/nand/dev_nand.c:629-676 | what page j of memory is: a page of the volume, or without number 0, among the first, a page at the start of the flash |
| UbiFailover.TryVolume | devices/nand/dev_nand.c:706-757 | one volume loads exactly under that condition; then every loaded page in memory is as above |
| UbiFailover.ReadUboot | devices/nand/dev_nand.c:696-761 | 0 exactly if primary or backup can be loaded in that sense; the backup is tried exactly when the primary cannot; each loaded page in memory is then one of the volume booted from, except the first ones where its scan found no number 0 |
| CommandLine.SplitIff | loader/bootm.c:120-150 | the split is the one list of arguments that, joined with blanks, gives the line back up to one last blank and is cut exactly at the blanks outside quotes |
| CommandLine.UnbrokenMeans | loader/bootm.c:124-134 | an argument is not split further exactly if each blank in it has an odd number of double quotes before it |
| CommandLine.QuotedBlanksStay | loader/bootm.c:120-150 | an example with a quoted blank |
| CommandLine.ChainSpells | loader/bootm.c:120-150 | the same condition, argument by argument |
| CommandLine.ArgsChain | loader/bootm.c:120-150 | only the split satisfies it, from any position that an argument starts at |
| LinuxParams.FindEnd | loader/bootm.c:121-138 | the pointer-hopping loop ends, at the first blank with an even number of quotes before it or at the end of the line |
| LinuxParams.Params.NextArg | loader/bootm.c:121-150 | one argument is copied, terminated and entered in the table, and the position moves past its blank |
| LinuxParams.Params.SplitLine | loader/bootm.c:120-150 | the first 255 arguments of the split are passed |
| LinuxParams.PassedMeans | loader/bootm.c:120 | no arguments without a line, and the first 255 of more |
| LinuxParams.Params.LinuxParamsInit | loader/bootm.c:109-156 | arguments packed behind the pointer table, and an empty environment behind them at a multiple of 16 |
| LinuxParams.Params.LinuxEnvSet | loader/bootm.c:158-175 | name=value is appended while fewer than 255 are there, with a null pointer behind, and the arguments are kept |
| LinuxParams.PackedReads | loader/bootm.c:140-144 | each packed string reads back from its address |
| LinuxParams.PointerReads | loader/bootm.c:140-145 | what is read at a table's pointer is the string that was put there |
| LinuxParams.ArgsTerminable | loader/bootm.c:140-142 | no argument of a C line holds a terminator |
| Timer.CatchUp | boot/soc_landshark/timer_ram.c:93-97 | the loop counts the periods that have passed and leaves the compare register at the next tick |
| Timer.RightIff | boot/soc_landshark/timer_ram.c:93-97 | short of a full wrap, the count is right if and only if the call is not too late |
| Timer.LongestPeriod | boot/soc_landshark/timer_ram.c:93 | no call from the last tick up to the next counts it early if and only if the period is at most 2^31 + 1 |
| Timer.CallCounts | boot/soc_landshark/timer_ram.c:83-100 | a call at most 2^31 - 1 cycles after the one before leaves the clock counting from the start |
| Timer.RunCounts | boot/soc_landshark/timer_ram.c:83-111 | over every run of such calls, across any number of wraps, no tick is lost or counted twice |
| Timer.TickTimer.TimerInit | boot/soc_landshark/timer_ram.c:62-81 | zero ticks, the next one a period away |
| Timer.TickTimer.SetTimer | boot/soc_landshark/timer_ram.c:102-111 | the given count, the next tick a period away, across a wrap of the counter |
| Timer.TickTimer.GetTimer | boot/soc_landshark/timer_ram.c:83-100 | returns b + floor((t - t0) / P) - base modulo 2^32 |
| RamTest.LineSoundIff | boot/soc_landshark/dram_ram.c:724-748 | a line that is stuck or reads as a wired combination passes all walking patterns if and only if it reads back everything |
| RamTest.SoundWordIff | boot/soc_landshark/dram_ram.c:724-748 | the same for a word |
| RamTest.PatternsAreComplete | boot/soc_landshark/dram_ram.c:715-751 | the same for all sampled words |
| RamTest.SampledCount | boot/soc_landshark/dram_ram.c:503-576 | how many words are sampled, and where, including ranges that wrap |
| RamTest.WritePattern | boot/soc_landshark/dram_ram.c:553-558 | the pattern is in every sampled word and nothing else changes |
| RamTest.ReadPattern | boot/soc_landshark/dram_ram.c:559-576 | 0 exactly if every sampled word reads back the pattern |
| RamTest.RamPatternVerify | boot/soc_landshark/dram_ram.c:500-582 | both loops together |
| RamTest.RamVerifyBitflip | boot/soc_landshark/dram_ram.c:715-751 | 0 exactly if every line of every sampled word is free of faults; otherwise the first failing line and pattern decide between 1 and 2; only sampled words change |
| UartPrint.CPutDec | boot/soc_landshark/uart_ram.c:125-142 | both loops end, stay inside the ten-place buffer, and print the decimal form |
| UartPrint.DecimalIff | boot/soc_landshark/uart_ram.c:125-142 | that form is the one string of digits without leading zero that reads as the number |
| UartPrint.WordLength | boot/soc_landshark/uart_ram.c:127 | a 32-bit number has at most ten digits |
| UartPrint.DigitIs | boot/soc_landshark/uart_ram.c:68-69 | digits are 0 to 9 and upper-case A to F |
| UartPrint.CPutHex16 | boot/soc_landshark/uart_ram.c:86-101 | the four hexadecimal digits, highest first |
| UartPrint.Hex16RoundTrip | boot/soc_landshark/uart_ram.c:86-101 | they read back as the number, and no other four digits do |

## Left out

- `scanlayoutv` (`devices/nand/dev_nand.c:355-483`): its result for each of the two volumes is a parameter. It does not reset the volume number between layout copies, so a statement about it would hold for the first copy only.
- Error correction, bad-block marks and the spare-area test for erased pages: functions of the chip that stay opaque. Correction changes the page in place; here a page is what the chip returned.
- UbiScan.BootState.ScanVid: requires that the blocks which the scan finds carry numbers below 20, the size of the table; the code writes past its table for larger ones.
- UbiBoot.ReadMapTable: requires that the read stays within the table (`StaysIff` says when) and room in memory for the whole map; behind the table the code reads whatever lies there.
- UbiFailover.TryVolume, UbiFailover.ReadUboot: require both of these of each volume that is tried.
- UbiFailover.ReadUboot: says nothing of memory behind the loaded pages, which may keep pages of a try that failed.
- UBI sequence numbers: the boot code does not use them.
- Xmodem.XmodemLoad: runs over a finite trace of bytes and timeouts and is still running when the trace ends; it requires as much memory as the trace has bytes, where the code has no bound. The length of timeouts is not part of the model.
- BootImage.BuildNand, BootImage.BuildSpi: option parsing and failures to open or stat a file; a file is a sequence of bytes read in chunks of any size up to 256, and a write may fall short at any point. A word is 32 bits, as on the target; a host with a wider `unsigned long` is not modelled.
- BootImageLaws.NandPrinted: the length is the unsigned value; the code prints it with a signed conversion.
- Crc32Word.Crc32LeWord: the table is any table whose entries are CRCs of single bytes in host order; the literals of the table header are not compared with it.
- LinuxParams.Params.LinuxParamsInit: addresses are unbounded numbers within one memory, and pointer tables are arrays of addresses beside it with their space set aside.
- Timer.TickTimer.GetTimer: the period is fixed; the code can change it between calls on one chip family.
- RamTest.RamVerifyBitflip: 32-bit accesses with the granularity of 4096 bytes that this function uses. Faults are per word; a write that disturbs another word is not modelled, and neither are the random-pattern variant and the detection code that calls it.
- Register writes, PLL and DDR set-up, UART transmission, delays, assembly, the NOR driver and the board files: their meaning lies in the hardware.
