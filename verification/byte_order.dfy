/** Words and counts stored byte by byte, most significant byte first. */
module ByteOrder {
  import opened Folds
  import opened CrcLaws
  import opened Crc32Old

  lemma StoreBeBytes(x: bv32)
    ensures StoreBe(x)
         == [(x >> 24) as bv8, ((x >> 16) & 0xff) as bv8, ((x >> 8) & 0xff) as bv8, (x & 0xff) as bv8]
  {
    EmitFour(TopByte, DropTop, x);
    StoreBeByte(x);
  }

  lemma StoreBeByte(x: bv32)
    ensures ((x << 8) >> 24) as bv8 == ((x >> 16) & 0xff) as bv8
    ensures (((x << 8) << 8) >> 24) as bv8 == ((x >> 8) & 0xff) as bv8
    ensures ((((x << 8) << 8) << 8) >> 24) as bv8 == (x & 0xff) as bv8
  {}

  /** The word that four bytes spell, most significant first. */
  function WordBe(a: bv8, b: bv8, c: bv8, d: bv8): bv32 {
    ((a as bv32) << 24) | ((b as bv32) << 16) | ((c as bv32) << 8) | (d as bv32)
  }

  lemma WordBeBytes(x: bv32)
    ensures WordBe((x >> 24) as bv8, ((x >> 16) & 0xff) as bv8, ((x >> 8) & 0xff) as bv8, (x & 0xff) as bv8) == x
  {}

  lemma WordRoundTrip(x: bv32)
    ensures |StoreBe(x)| == 4
    ensures WordBe(StoreBe(x)[0], StoreBe(x)[1], StoreBe(x)[2], StoreBe(x)[3]) == x
  {
    StoreBeBytes(x);
    WordBeBytes(x);
  }

  /** The word at offset n, written in place. */
  method StoreWordBe(x: bv32, buf: array<bv8>, n: nat)
    requires n + 4 <= buf.Length
    modifies buf
    ensures buf[..] == old(buf[..n]) + StoreBe(x) + old(buf[n + 4..])
    ensures buf[n..n + 4] == StoreBe(x)
    ensures forall i :: 0 <= i < n || n + 4 <= i < buf.Length ==> buf[i] == old(buf[i])
  {
    buf[n] := (x >> 24) as bv8;
    buf[n + 1] := ((x >> 16) & 0xff) as bv8;
    buf[n + 2] := ((x >> 8) & 0xff) as bv8;
    buf[n + 3] := (x & 0xff) as bv8;
    StoreBeBytes(x);
  }

  /** A count truncated to one byte. */
  function LowByteOf(n: nat): bv8 {
    (n % 256) as bv8
  }

  lemma LowByteValue(n: nat)
    ensures Idx(LowByteOf(n)) == n % 256
  {
    SmallByte(n % 256);
  }

  lemma SmallByte(i: int)
    requires 0 <= i < 256
    ensures (i as bv8) as int == i
  {
    if i < 16 {} else if i < 32 {} else if i < 64 {} else if i < 128 {} else {}
  }

  function CountBytes(n: nat): (r: seq<bv8>)
    ensures |r| == 4
  {
    [LowByteOf(n / 0x100_0000), LowByteOf(n / 0x1_0000), LowByteOf(n / 0x100), LowByteOf(n)]
  }

  function CountValue(a: bv8, b: bv8, c: bv8, d: bv8): nat {
    Idx(a) * 0x100_0000 + Idx(b) * 0x1_0000 + Idx(c) * 0x100 + Idx(d)
  }

  lemma OneDigit(n: nat, unit: nat, k: nat, d: nat, r: nat)
    requires unit > 0 && n == unit * (256 * k + d) + r && d < 256 && r < unit
    ensures n / unit == 256 * k + d && n / unit % 256 == d
    ensures n % (256 * unit) == d * unit + r
  {
    Distribute(unit, k, d);
    DigitBelow(unit, d, r);
    DivModUnique(n, unit, 256 * k + d, r);
    DivModUnique(n, 256 * unit, k, d * unit + r);
  }

  lemma Distribute(u: nat, k: nat, d: nat)
    ensures u * (256 * k + d) == (256 * u) * k + d * u
  {}

  lemma DigitBelow(u: nat, d: nat, r: nat)
    requires d < 256 && r < u
    ensures d * u + r < 256 * u
  {
    if d < 255 {
      Apart(u, d, 255);
    }
  }

  lemma DivModUnique(n: nat, m: nat, q: nat, r: nat)
    requires m > 0 && n == m * q + r && r < m
    ensures n / m == q && n % m == r
  {
    QuotientUnique(m, q, r, n / m, n % m);
  }

  function Pow2(n: nat): (r: nat)
    ensures r > 0
  {
    if n == 0 then 1 else 2 * Pow2(n - 1)
  }

  lemma Residue(a: int, b: int, n: int)
    requires a == b + 0x1_0000_0000 * n
    ensures a % 0x1_0000_0000 == b % 0x1_0000_0000
  {}

  lemma QuotientUnique(m: nat, q: nat, r: nat, q': nat, r': nat)
    requires r < m && r' < m && m * q + r == m * q' + r'
    ensures q == q' && r == r'
  {
    if q < q' {
      Apart(m, q, q');
    } else if q' < q {
      Apart(m, q', q);
    }
  }

  lemma {:induction false} Apart(m: nat, q: nat, q': nat)
    requires q < q'
    ensures m * q + m <= m * q'
    decreases q'
  {
    MulNext(m, q' - 1);
    if q + 1 < q' {
      Apart(m, q, q' - 1);
    }
  }

  lemma MulNext(m: nat, q: nat)
    ensures m * (q + 1) == m * q + m
  {}

  /** One more byte of a count: the digit above `unit` and what lies below it. */
  lemma NextDigit(n: nat, unit: nat)
    requires unit > 0
    ensures (n / unit % 256) * unit + n % unit == n % (256 * unit)
  {
    OneDigit(n, unit, n / unit / 256, n / unit % 256, n % unit);
  }

  lemma DigitSum(n: nat)
    ensures (n / 0x1_0000 % 256) * 0x1_0000 + (n / 0x100 % 256) * 0x100 + n % 256 == n % 0x100_0000
    ensures (n / 0x100_0000 % 256) * 0x100_0000 + n % 0x100_0000 == n % 0x1_0000_0000
  {
    NextDigit(n, 0x100);
    NextDigit(n, 0x1_0000);
    NextDigit(n, 0x100_0000);
  }

  /** A stored count reads back modulo 2^32, or modulo 2^24 without its first byte. */
  lemma CountRoundTrip(n: nat)
    ensures var s := CountBytes(n);
            CountValue(s[0], s[1], s[2], s[3]) == n % 0x1_0000_0000
            && CountValue(0, s[1], s[2], s[3]) == n % 0x100_0000
  {
    LowByteValue(n / 0x100_0000);
    LowByteValue(n / 0x1_0000);
    LowByteValue(n / 0x100);
    LowByteValue(n);
    DigitSum(n);
    ZeroIndex();
  }

  /** The most significant byte comes first. */
  lemma FirstIsHighest()
    ensures StoreBe(0x0102_0304) == [1, 2, 3, 4] && WordBe(1, 2, 3, 4) == 0x0102_0304
    ensures CountBytes(0x0102_0304) == [1, 2, 3, 4] && CountValue(1, 2, 3, 4) == 0x0102_0304
  {
    StoreBeBytes(0x0102_0304);
    assert 0x0102_0304 / 0x100_0000 == 1 && 0x0102_0304 / 0x1_0000 % 256 == 2 && 0x0102_0304 / 0x100 % 256 == 3;
  }

  lemma ZeroIndex()
    ensures Idx(0) == 0
  {}

  function WordAt(s: seq<bv8>, i: nat): bv32
    requires i + 4 <= |s|
  {
    WordBe(s[i], s[i + 1], s[i + 2], s[i + 3])
  }

  function CountAt(s: seq<bv8>, i: nat): nat
    requires i + 4 <= |s|
  {
    CountValue(s[i], s[i + 1], s[i + 2], s[i + 3])
  }

  lemma StoredWord(s: seq<bv8>, i: nat, x: bv32)
    requires i + 4 <= |s| && s[i..i + 4] == StoreBe(x)
    ensures WordAt(s, i) == x
  {
    WordRoundTrip(x);
    assert s[i..i + 4] == [s[i], s[i + 1], s[i + 2], s[i + 3]];
  }

  lemma StoredCount(s: seq<bv8>, i: nat, n: nat)
    requires i + 4 <= |s| && s[i..i + 4] == CountBytes(n)
    ensures CountAt(s, i) == n % 0x1_0000_0000
  {
    CountRoundTrip(n);
    assert s[i..i + 4] == [s[i], s[i + 1], s[i + 2], s[i + 3]];
  }
}
