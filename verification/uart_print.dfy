/** c_put_dec and c_put_hex16 of boot/soc_landshark/uart_ram.c: printing numbers without a library. */
module UartPrint {
  import opened ByteOrder

  /** UINT32 and UINT16 */
  const WORD := 0x1_0000_0000
  const HALF := 0x1_0000

  /** The character of a digit: '0' to '9', then 'A' to 'F'. */
  function Digit(n: nat): (c: char)
    requires n < 16
    ensures n < 10 ==> '0' <= c <= '9'
    ensures n >= 10 ==> 'A' <= c <= 'F'
  {
    if n < 10 then (0x30 + n) as char else (0x37 + n) as char
  }

  lemma DigitIs(n: nat)
    requires n < 16
    ensures Digit(n) == "0123456789ABCDEF"[n] && DigitValue("0123456789ABCDEF"[n]) == n
  {}

  /** The digit that a character stands for. */
  function DigitValue(c: char): nat {
    if '0' <= c <= '9' then (c - '0') as nat
    else if 'A' <= c <= 'F' then (c - 'A') as nat + 10
    else 0
  }

  predicate IsDigit(c: char, radix: nat) {
    ('0' <= c <= '9' || 'A' <= c <= 'F') && DigitValue(c) < radix
  }

  lemma DigitRoundTrip(n: nat, c: char)
    requires n < 16
    ensures DigitValue(Digit(n)) == n
    ensures IsDigit(c, 16) && DigitValue(c) == n ==> c == Digit(n)
  {}

  /** What a reader makes of a string of digits. */
  function Value(s: string, radix: nat): nat {
    if s == [] then 0 else Value(s[..|s| - 1], radix) * radix + DigitValue(s[|s| - 1])
  }

  lemma ValueMore(s: string, c: char, radix: nat)
    ensures Value(s + [c], radix) == Value(s, radix) * radix + DigitValue(c)
  {
    assert (s + [c])[..|s|] == s;
  }

  // ---------------------------------------------------------------- decimal

  function Decimal(d: nat): string {
    if d < 10 then [Digit(d)] else Decimal(d / 10) + [Digit(d % 10)]
  }

  /** A decimal number as it is written: digits, and no leading zero except in 0 itself. */
  ghost predicate Numeral(s: string) {
    && s != []
    && (forall i :: 0 <= i < |s| ==> IsDigit(s[i], 10))
    && (s[0] == '0' ==> |s| == 1)
  }

  lemma {:induction false} DecimalReads(d: nat)
    ensures Value(Decimal(d), 10) == d
    decreases d
  {
    if d < 10 {
      DigitRoundTrip(d, '0');
      OneDigit(Digit(d), 10);
    } else {
      DecimalReads(d / 10);
      DigitRoundTrip(d % 10, '0');
      ValueMore(Decimal(d / 10), Digit(d % 10), 10);
    }
  }

  lemma OneDigit(c: char, radix: nat)
    ensures Value([c], radix) == DigitValue(c)
  {
    ValueMore([], c, radix);
    assert [] + [c] == [c];
  }

  lemma {:induction false} DecimalIsNumeral(d: nat)
    ensures Numeral(Decimal(d))
    ensures d > 0 ==> Decimal(d)[0] != '0'
    decreases d
  {
    if d >= 10 {
      DecimalIsNumeral(d / 10);
    }
  }

  lemma {:induction false} NumeralIsPositive(s: string)
    requires s != [] && IsDigit(s[0], 10) && s[0] != '0'
    ensures Value(s, 10) > 0
    decreases |s|
  {
    if |s| > 1 {
      NumeralIsPositive(s[..|s| - 1]);
    }
  }

  /** A numeral is the decimal form of its value, so `Decimal(d)` is the one numeral that reads as d. */
  lemma {:induction false} NumeralIsDecimal(s: string)
    requires Numeral(s)
    ensures s == Decimal(Value(s, 10))
    decreases |s|
  {
    var n := |s| - 1;
    var before, c := s[..n], s[n];
    assert s == before + [c] && IsDigit(c, 10);
    DigitRoundTrip(DigitValue(c), c);
    if n > 0 {
      assert before[0] == s[0];
      NumeralIsPositive(before);
      NumeralIsDecimal(before);
      assert Value(s, 10) / 10 == Value(before, 10);
    } else {
      assert Value(before, 10) == 0;
    }
  }

  lemma {:induction false} DecimalLength(d: nat, bound: nat, n: nat)
    requires 1 <= n && d < bound && bound == Pow10(n)
    ensures 1 <= |Decimal(d)| <= n
    decreases n
  {
    if n > 1 {
      if d >= 10 {
        DecimalLength(d / 10, Pow10(n - 1), n - 1);
      }
    }
  }

  function Pow10(n: nat): nat {
    if n == 0 then 1 else 10 * Pow10(n - 1)
  }

  /** A 32-bit number has at most ten digits. */
  lemma WordLength(d: nat)
    requires d < 0x1_0000_0000
    ensures 1 <= |Decimal(d)| <= 10
  {
    assert Pow10(5) == 100000;
    assert Pow10(10) == 10_000_000_000;
    DecimalLength(d, Pow10(10), 10);
  }

  /** The digits in the buffer, highest place first. */
  function Shown(digits: seq<nat>): string
    requires forall i :: 0 <= i < |digits| ==> digits[i] < 10
  {
    if digits == [] then [] else [Digit(digits[|digits| - 1])] + Shown(digits[..|digits| - 1])
  }

  lemma ShownMore(digits: seq<nat>, d: nat)
    requires d < 10 && forall i :: 0 <= i < |digits| ==> digits[i] < 10
    ensures Shown(digits + [d]) == [Digit(d)] + Shown(digits)
  {
    assert (digits + [d])[..|digits|] == digits;
  }

  /** The first i digits are in the buffer, and the rest of the number is d. */
  ghost predicate Collected(d0: nat, d: nat, buffer: array<nat>, i: nat)
    reads buffer
  {
    && buffer.Length == 10
    && i + |Decimal(d)| <= 10
    && (forall j :: 0 <= j < i ==> buffer[j] < 10)
    && Decimal(d0) == Decimal(d) + Shown(buffer[..i])
  }

  lemma NextPlace(d0: nat, d: nat, buffer: array<nat>, i: nat)
    requires d < 10 || d / 10 > 0
    requires Collected(d0, d, buffer, i) && i < 10 && buffer[i] == d % 10
    ensures d / 10 > 0 ==> Collected(d0, d / 10, buffer, i + 1)
    ensures d / 10 == 0 ==> Decimal(d0) == Shown(buffer[..i + 1])
  {
    assert buffer[..i + 1] == buffer[..i] + [buffer[i]];
    ShownMore(buffer[..i], buffer[i]);
  }

  /** c_put_dec: collect the digits in a ten-place buffer, then send them highest place first. */
  method CPutDec(value: nat) returns (out: string)
    requires value < 0x1_0000_0000
    ensures out == Decimal(value)
  {
    var buffer := new nat[10];
    var i := CollectDigits(buffer, value);
    out := ShowDigits(buffer, i);
  }

  /** The first loop: the digits, lowest place first; the highest is entry i. */
  method CollectDigits(buffer: array<nat>, value: nat) returns (i: nat)
    requires value < WORD && buffer.Length == 10
    modifies buffer
    ensures i < 10 && (forall j :: 0 <= j <= i ==> buffer[j] < 10)
    ensures Decimal(value) == Shown(buffer[..i + 1])
  {
    var d := value;
    i := 0;
    WordLength(d);
    assert buffer[..0] == [];
    while true
      invariant i < 10 && Collected(value, d, buffer, i)
      decreases d
    {
      buffer[i] := d % 10;
      assert Collected(value, d, buffer, i);
      NextPlace(value, d, buffer, i);
      d := d / 10;
      if d > 0 {
        i := i + 1;
        PutAgain(value, d, buffer, i);
      } else {
        break;
      }
    }
  }

  /** The next digit is entered once here, and again at the start of the next pass. */
  method PutAgain(value: nat, d: nat, buffer: array<nat>, i: nat)
    requires Collected(value, d, buffer, i) && i < 10
    modifies buffer
    ensures Collected(value, d, buffer, i)
  {
    buffer[i] := d % 10;
    assert buffer[..i] == old(buffer[..i]);
  }

  /** The second loop: from entry i down to entry 0. */
  method ShowDigits(buffer: array<nat>, last: nat) returns (out: string)
    requires last < buffer.Length && forall j :: 0 <= j <= last ==> buffer[j] < 10
    ensures out == Shown(buffer[..last + 1])
  {
    out := [];
    var i: int := last;
    var more := true;
    while more
      invariant -1 <= i <= last && (more <==> i >= 0)
      invariant Shown(buffer[..last + 1]) == out + Shown(buffer[..i + 1])
      decreases i
    {
      assert buffer[..i + 1] == buffer[..i] + [buffer[i]];
      ShownMore(buffer[..i], buffer[i]);
      out := out + [Digit(buffer[i])];
      more := i > 0;
      i := i - 1;
    }
  }

  // ------------------------------------------------------------ hexadecimal

  /** The last n hexadecimal digits. */
  function Hex(u: nat, n: nat): (s: string)
    ensures |s| == n
    decreases n
  {
    if n == 0 then [] else Hex(u / 16, n - 1) + [Digit(u % 16)]
  }

  function Pow16(n: nat): nat {
    if n == 0 then 1 else 16 * Pow16(n - 1)
  }

  /** They read back as the number modulo 16 to the n. */
  lemma {:induction false} HexReads(u: nat, n: nat)
    requires u < Pow16(n)
    ensures Value(Hex(u, n), 16) == u
    ensures forall i :: 0 <= i < n ==> IsDigit(Hex(u, n)[i], 16)
    decreases n
  {
    if n > 0 {
      HexReads(u / 16, n - 1);
      ValueMore(Hex(u / 16, n - 1), Digit(u % 16), 16);
      DigitRoundTrip(u % 16, '0');
    }
  }

  /** No other digits of that length do. */
  lemma {:induction false} HexUnique(s: string)
    requires forall i :: 0 <= i < |s| ==> IsDigit(s[i], 16)
    ensures s == Hex(Value(s, 16), |s|)
    decreases |s|
  {
    if s != [] {
      var n := |s| - 1;
      HexUnique(s[..n]);
      assert IsDigit(s[n], 16);
      DigitRoundTrip(DigitValue(s[n]), s[n]);
      assert Value(s, 16) / 16 == Value(s[..n], 16);
      assert s == s[..n] + [s[n]];
    }
  }

  /** u >> i */
  function Shr(u: nat, i: nat): nat
    decreases i
  {
    if i == 0 then u else Shr(u / 2, i - 1)
  }

  lemma {:induction false} ShrOneMore(u: nat, i: nat)
    ensures Shr(u, i + 1) == Shr(u, i) / 2
    decreases i
  {
    if i > 0 {
      ShrOneMore(u / 2, i - 1);
    }
  }

  lemma {:induction false} ShrAll(u: nat, i: nat)
    requires u < Pow2(i)
    ensures Shr(u, i) == 0
    decreases i
  {
    if i > 0 {
      ShrAll(u / 2, i - 1);
    }
  }

  lemma NextHexDigit(u: nat, i: nat, n: nat)
    ensures Hex(Shr(u, i + 4), n) + [Digit(Shr(u, i) % 16)] == Hex(Shr(u, i), n + 1)
  {
    ShrOneMore(u, i);
    ShrOneMore(u, i + 1);
    ShrOneMore(u, i + 2);
    ShrOneMore(u, i + 3);
  }

  lemma SixteenBits(u: nat)
    requires u < HALF
    ensures Shr(u, 16) == 0
  {
    assert Pow2(8) == 0x100;
    assert Pow2(12) == 0x1000;
    assert Pow2(16) == 0x1_0000;
    ShrAll(u, 16);
  }

  /** c_put_hex16: four digits, highest place first. */
  method CPutHex16(u: nat) returns (out: string)
    requires u < 0x1_0000
    ensures out == Hex(u, 4)
  {
    out := [];
    var i: nat, more := 16, true;
    SixteenBits(u);
    ghost var n: nat := 0;
    while more
      invariant i + 4 * n == 16 && (more <==> n < 4)
      invariant out == Hex(Shr(u, i), n)
      decreases i
    {
      i := i - 4;
      NextHexDigit(u, i, n);
      n := n + 1;
      out := out + [Digit(Shr(u, i) % 16)];
      more := i != 0;
    }
  }

  /** What is printed is four digits that read back as the number; nothing else of four digits does. */
  lemma Hex16RoundTrip(u: nat, s: string)
    requires u < 0x1_0000
    ensures Value(Hex(u, 4), 16) == u
    ensures |s| == 4 && (forall i :: 0 <= i < |s| ==> IsDigit(s[i], 16)) && Value(s, 16) == u ==> s == Hex(u, 4)
  {
    assert Pow16(4) == 0x10000;
    HexReads(u, 4);
    if |s| == 4 && forall i :: 0 <= i < |s| ==> IsDigit(s[i], 16) {
      HexUnique(s);
    }
  }

  /** What c_put_dec prints is the one numeral that reads back as the number. */
  lemma DecimalIff(d: nat, s: string)
    ensures s == Decimal(d) <==> Numeral(s) && Value(s, 10) == d
  {
    DecimalReads(d);
    DecimalIsNumeral(d);
    if Numeral(s) {
      NumeralIsDecimal(s);
    }
  }
}
