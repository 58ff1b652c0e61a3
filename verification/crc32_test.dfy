/** The unit test at the end of lib/crc32_old.c, and why it can never report a failure. */
module Crc32UnitTest {
  import opened Folds
  import opened CrcSpec
  import opened ByteOrder
  import opened CrcLaws
  import opened Crc32Word

  /** bytereverse: the bits of each of the first len bytes, in place. */
  method ByteReverse(buf: array<bv8>, len: nat)
    requires len <= buf.Length
    modifies buf
    ensures buf[..] == RevBytes(old(buf[..len])) + old(buf[len..])
  {
    var i, n := 0, len;
    while n != 0
      invariant 0 <= i && 0 <= n && i + n == len
      invariant forall k :: 0 <= k < i ==> buf[k] == Rev8(old(buf[k]))
      invariant forall k :: i <= k < buf.Length ==> buf[k] == old(buf[k])
    {
      n := n - 1;
      buf[i] := Rev8(buf[i]);
      i := i + 1;
    }
    assert buf[..len] == RevBytes(old(buf[..len]));
    assert buf[len..] == old(buf[len..]);
  }

  /** The CRC of a message and its stored CRC is zero however the run is cut in two. */
  lemma CutAnywhere(o: Order, seed: bv32, msg: seq<bv8>, i: nat)
    requires i <= |msg|
    ensures Crc(o, Crc(o, seed, msg[..i]), msg[i..]) == Crc(o, seed, msg)
  {
    CrcSplit(seed, msg[..i], msg[i..]);
    assert msg[..i] + msg[i..] == msg;
  }

  /** One direction of the test: count the cuts whose CRC is not zero. */
  method CountSplitFailures(h: Host, o: Order, tab: Table, seed: bv32, buf: seq<bv8>, base: nat) returns (failures: int)
    requires Converted(o, h, tab)
    requires Crc(o, seed, buf) == 0
    ensures failures == 0
  {
    failures := 0;
    var i := 0;
    while i <= |buf|
      invariant i <= |buf| + 1 && failures == 0
    {
      var crc2 := Crc32(h, o, tab, seed, buf[..i], base);
      crc2 := Crc32(h, o, tab, crc2, buf[i..], base + i);
      CutAnywhere(o, seed, buf, i);
      if crc2 != 0 {
        failures := failures + 1;
      }
      i := i + 1;
    }
  }

  method Crc32(h: Host, o: Order, tab: Table, seed: bv32, p: seq<bv8>, base: nat) returns (crc: bv32)
    requires Converted(o, h, tab)
    ensures crc == Crc(o, seed, p)
  {
    if o.LsbFirst? {
      crc := Crc32LeWord(h, tab, seed, p, base);
    } else {
      crc := Crc32BeWord(h, tab, seed, p, base);
    }
  }

  /** What the checks of one test step rely on, for the message m and its stored CRC. */
  lemma StepLaws(init: bv32, m: seq<bv8>)
    ensures var full := m + StoreBe(CrcBe(init, m));
            && CrcBe(init, full) == 0
            && CrcLe(Rev32(init), RevBytes(full)) == 0
            && RevBytes(full)[..|m|] == RevBytes(m)
            && CrcLe(Rev32(init), RevBytes(m)) == Rev32(CrcBe(init, m))
  {
    var full := m + StoreBe(CrcBe(init, m));
    CrcCancellation(init, m);
    CrcDuality(init, full);
    CrcDuality(init, m);
    RevPoly();
    assert RevBytes(full)[..|m|] == RevBytes(m);
  }

  /** test_step: every one of its checks passes, for every seed, buffer, length and table alignment. */
  method TestStep(h: Host, le: Table, be: Table, init: bv32, buf: array<bv8>, len: nat, base: nat)
    returns (crc: bv32, failures: int)
    requires Converted(LsbFirst, h, le) && Converted(MsbFirst, h, be)
    requires len + 4 <= buf.Length
    modifies buf
    ensures failures == 0
    ensures crc == CrcLe(Rev32(init), RevBytes(old(buf[..len])))
    ensures buf[..len + 4] == RevBytes(old(buf[..len]) + StoreBe(CrcBe(init, old(buf[..len]))))
    ensures buf[len + 4..] == old(buf[len + 4..])
  {
    failures := 0;
    ghost var m := buf[..len];
    StepLaws(init, m);
    EmitLength(TopByte, DropTop, CrcBe(init, m), 4);
    var crc1 := Crc32(h, MsbFirst, be, init, buf[..len], base);
    StoreWordBe(crc1, buf, len);
    ghost var full := m + StoreBe(crc1);
    assert buf[..len + 4] == full;
    var crc2 := Crc32(h, MsbFirst, be, init, buf[..len + 4], base);
    if crc2 != 0 {
      failures := failures + 1;
    }
    var f := CountSplitFailures(h, MsbFirst, be, init, buf[..len + 4], base);
    failures := failures + f;

    ByteReverse(buf, len + 4);
    assert buf[..len + 4] == RevBytes(full);
    assert buf[..len] == RevBytes(full)[..len];
    var init' := Rev32(init);
    crc2 := Rev32(crc1);
    RevInvolution(crc1);
    if crc1 != Rev32(crc2) {
      failures := failures + 1;
    }
    crc1 := Crc32(h, LsbFirst, le, init', buf[..len], base);
    if crc1 != crc2 {
      failures := failures + 1;
    }
    crc2 := Crc32(h, LsbFirst, le, init', buf[..len + 4], base);
    if crc2 != 0 {
      failures := failures + 1;
    }
    f := CountSplitFailures(h, LsbFirst, le, init', buf[..len + 4], base);
    failures := failures + f;
    crc := crc1;
  }

  /** The results of test steps on two buffers and on their exclusive or. */
  lemma XorOfSteps(s1: bv32, s2: bv32, a: seq<bv8>, b: seq<bv8>)
    requires |a| == |b|
    ensures CrcLe(Rev32(Xor(s1, s2)), RevBytes(XorBytes(a, b)))
         == Xor(CrcLe(Rev32(s1), RevBytes(a)), CrcLe(Rev32(s2), RevBytes(b)))
  {
    RevXor(s1, s2);
    RevBytesXor(a, b);
    CrcLeXor(Rev32(s1), Rev32(s2), RevBytes(a), RevBytes(b));
  }

  /** The loop that combines two buffers. */
  method XorBuffers(buf1: array<bv8>, buf2: array<bv8>, buf3: array<bv8>, len: nat)
    requires len <= buf1.Length && len <= buf2.Length && len <= buf3.Length
    requires buf3 != buf1 && buf3 != buf2
    modifies buf3
    ensures buf3[..len] == XorBytes(buf1[..len], buf2[..len])
  {
    var j := 0;
    while j < len
      invariant 0 <= j <= len
      invariant forall k :: 0 <= k < j ==> buf3[k] == Xor8(buf1[k], buf2[k])
    {
      buf3[j] := Xor8(buf1[j], buf2[j]);
      j := j + 1;
    }
  }

  /** One pass of the main loop, for one length: three test steps and the check that their results combine. */
  method TestLength(h: Host, le: Table, be: Table, init1: bv32, init2: bv32,
                    buf1: array<bv8>, buf2: array<bv8>, buf3: array<bv8>, len: nat, base: nat)
    returns (failures: int)
    requires Converted(LsbFirst, h, le) && Converted(MsbFirst, h, be)
    requires len + 4 <= buf1.Length && len + 4 <= buf2.Length && len + 4 <= buf3.Length
    requires buf1 != buf2 && buf1 != buf3 && buf2 != buf3
    modifies buf1, buf2, buf3
    ensures failures == 0
  {
    XorBuffers(buf1, buf2, buf3, len);
    XorOfSteps(init1, init2, buf1[..len], buf2[..len]);
    var crc1, f1 := TestStep(h, le, be, init1, buf1, len, base);
    var crc2, f2 := TestStep(h, le, be, init2, buf2, len, base);
    var crc3, f3 := TestStep(h, le, be, Xor(init1, init2), buf3, len, base);
    failures := f1 + f2 + f3;
    if crc3 != Xor(crc1, crc2) {
      failures := failures + 1;
    }
  }
}
