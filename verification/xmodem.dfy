/** The XMODEM receiver of loader/xmodem.c, event by event and as the program that runs it. */
module Xmodem {
  import opened ByteOrder

  type Byte = b: int | 0 <= b < 256

  const SOH: Byte := 1
  const EOT: Byte := 4
  const ACK: Byte := 6
  const NAK: Byte := 21
  const RX_BUF_SIZE := 130
  const PAYLOAD := 128

  /** What one call of c_get_char_timout yields. */
  datatype Event = Got(b: Byte) | Timeout

  // ------------------------------------------------------------- the receiver

  /** Where the receiver stands between two calls for a character. */
  datatype Phase =
    | WaitForNewPacket
    | ReceivePacket(got: seq<Byte>)
    | Purge
    | Finished

  datatype Receiver = Receiver(phase: Phase, expected: Byte, mem: seq<Byte>)

  const INITIAL := Receiver(Purge, 1, [])

  function Sum(s: seq<Byte>): (r: Byte)
    decreases |s|
  {
    if s == [] then 0 else (Sum(s[..|s| - 1]) + s[|s| - 1]) % 256
  }

  /** The 131 bytes after SOH check out: complemented block number and checksum. */
  predicate Checks(got: seq<Byte>, sum: Byte)
    requires |got| == RX_BUF_SIZE
  {
    sum == Sum(got[2..]) && got[1] == 255 - got[0]
  }

  lemma ComplementBits(x: bv8, y: bv8)
    ensures x ^ y == 0xff <==> y == 0xff - x
  {}

  lemma Flip(x: bv8)
    ensures (0xff - x) as int == 255 - (x as int)
  {}

  /** The complement test on the bits. */
  lemma ComplementMeans(a: Byte, b: Byte)
    ensures (a as bv8) ^ (b as bv8) == 0xff <==> b == 255 - a
  {
    ComplementBits(a as bv8, b as bv8);
    Flip(a as bv8);
    SmallByte(a);
    SmallByte(b);
  }

  function Next(b: Byte): Byte {
    (b + 1) % 256
  }

  function Previous(b: Byte): Byte {
    (b + 255) % 256
  }

  /** A whole packet is in: store it, acknowledge a repetition, or give it up. */
  function Conclude(r: Receiver, got: seq<Byte>, sum: Byte): (Receiver, seq<Byte>)
    requires |got| == RX_BUF_SIZE
  {
    if !Checks(got, sum) then (r.(phase := Purge), [])
    else if got[0] == r.expected then (Receiver(WaitForNewPacket, Next(got[0]), r.mem + got[2..]), [ACK])
    else if got[0] == Previous(r.expected) then (r.(phase := WaitForNewPacket), [ACK])
    else (r.(phase := Purge), [])
  }

  /** One event: the new state and the characters sent. */
  function Step(r: Receiver, e: Event): (Receiver, seq<Byte>) {
    match r.phase
    case WaitForNewPacket =>
      if e.Timeout? then (r, [NAK])
      else if e.b == SOH then (r.(phase := ReceivePacket([])), [])
      else if e.b == EOT then (r.(phase := Finished), [ACK])
      else (r.(phase := Purge), [])
    case ReceivePacket(got) =>
      if e.Timeout? then (r.(phase := Purge), [])
      else if |got| != RX_BUF_SIZE then (r.(phase := ReceivePacket(got + [e.b])), [])
      else Conclude(r, got, e.b)
    case Purge =>
      if e.Timeout? then (r.(phase := WaitForNewPacket), [NAK]) else (r, [])
    case Finished => (r, [])
  }

  function After(r: Receiver, es: seq<Event>): Receiver
    decreases |es|
  {
    if es == [] then r else After(Step(r, es[0]).0, es[1..])
  }

  function Replies(r: Receiver, es: seq<Event>): seq<Byte>
    decreases |es|
  {
    if es == [] then [] else Step(r, es[0]).1 + Replies(Step(r, es[0]).0, es[1..])
  }

  lemma {:induction false} RunSplit(r: Receiver, a: seq<Event>, b: seq<Event>)
    ensures After(r, a + b) == After(After(r, a), b)
    ensures Replies(r, a + b) == Replies(r, a) + Replies(After(r, a), b)
    decreases |a|
  {
    if a == [] {
      assert a + b == b;
    } else {
      assert (a + b)[1..] == a[1..] + b;
      RunSplit(Step(r, a[0]).0, a[1..], b);
    }
  }

  // -------------------------------------------------- invariants of every run

  ghost predicate Consistent(r: Receiver) {
    && |r.mem| % PAYLOAD == 0
    && r.expected == (|r.mem| / PAYLOAD + 1) % 256
    && (r.phase.ReceivePacket? ==> |r.phase.got| <= RX_BUF_SIZE)
  }

  /** The payload that this event makes the receiver store, if any. */
  function Stored(r: Receiver, e: Event): seq<Byte> {
    if r.phase.ReceivePacket? && e.Got? && |r.phase.got| == RX_BUF_SIZE
       && Checks(r.phase.got, e.b) && r.phase.got[0] == r.expected
    then r.phase.got[2..] else []
  }

  /** The payloads stored during a run, in order. */
  function StoredIn(r: Receiver, es: seq<Event>): seq<seq<Byte>>
    decreases |es|
  {
    if es == [] then []
    else (if Stored(r, es[0]) == [] then [] else [Stored(r, es[0])]) + StoredIn(Step(r, es[0]).0, es[1..])
  }

  function Concat(bs: seq<seq<Byte>>): seq<Byte>
    decreases |bs|
  {
    if bs == [] then [] else bs[0] + Concat(bs[1..])
  }

  lemma StepKeeps(r: Receiver, e: Event)
    requires Consistent(r)
    ensures Consistent(Step(r, e).0)
    ensures Step(r, e).0.mem == r.mem + Stored(r, e)
    ensures |Stored(r, e)| == 0 || |Stored(r, e)| == PAYLOAD
  {
    OneBlockMore(|r.mem|);
    assert r.mem + [] == r.mem;
  }

  lemma OneBlockMore(n: nat)
    requires n % PAYLOAD == 0
    ensures (n + PAYLOAD) % PAYLOAD == 0 && (n + PAYLOAD) / PAYLOAD == n / PAYLOAD + 1
    ensures ((n / PAYLOAD + 1) % 256 + 1) % 256 == ((n + PAYLOAD) / PAYLOAD + 1) % 256
  {}

  /** Every run keeps the block number in step with memory, and memory is the payloads stored so far. */
  lemma {:induction false} RunKeeps(r: Receiver, es: seq<Event>)
    requires Consistent(r)
    ensures Consistent(After(r, es))
    ensures After(r, es).mem == r.mem + Concat(StoredIn(r, es))
    ensures |After(r, es).mem| == |r.mem| + PAYLOAD * |StoredIn(r, es)|
    decreases |es|
  {
    if es != [] {
      StepKeeps(r, es[0]);
      RunKeeps(Step(r, es[0]).0, es[1..]);
      var first, rest := Stored(r, es[0]), StoredIn(Step(r, es[0]).0, es[1..]);
      assert (r.mem + first) + Concat(rest) == r.mem + (first + Concat(rest));
      if first == [] {
        assert StoredIn(r, es) == rest;
        assert first + Concat(rest) == Concat(rest);
      } else {
        assert StoredIn(r, es)[1..] == rest;
      }
    } else {
      assert r.mem + [] == r.mem;
    }
  }

  /** From power-up on: 128 bytes for each stored packet, and the block number that follows. */
  lemma RunFromStart(es: seq<Event>)
    ensures var r, n := After(INITIAL, es), |StoredIn(INITIAL, es)|;
      && r.mem == Concat(StoredIn(INITIAL, es))
      && |r.mem| == 128 * n
      && r.expected == (n + 1) % 256
  {
    RunKeeps(INITIAL, es);
  }

  /** The receiver answers, with one ACK or one NAK, exactly when it goes back to waiting or finishes. */
  lemma StepReplies(r: Receiver, e: Event)
    requires !r.phase.Finished?
    ensures var (next, out) := Step(r, e);
      if next.phase.WaitForNewPacket? || next.phase.Finished? then out == [ACK] || out == [NAK] else out == []
  {}

  /** How often a run enters waiting, or finishes. */
  function Entries(r: Receiver, es: seq<Event>): nat
    decreases |es|
  {
    if es == [] then 0
    else
      var next := Step(r, es[0]).0;
      (if !r.phase.Finished? && (next.phase.WaitForNewPacket? || next.phase.Finished?) then 1 else 0) + Entries(next, es[1..])
  }

  function Count(s: seq<Byte>, c: Byte): nat
    decreases |s|
  {
    if s == [] then 0 else (if s[0] == c then 1 else 0) + Count(s[1..], c)
  }

  /**
    Over every run the receiver sends ACK and NAK only, one for each entry, and
    at least one ACK for each payload it has stored.
   */
  lemma {:induction false} RunReplies(r: Receiver, es: seq<Event>)
    ensures |Replies(r, es)| == Entries(r, es) == Count(Replies(r, es), ACK) + Count(Replies(r, es), NAK)
    ensures Count(Replies(r, es), ACK) >= |StoredIn(r, es)|
    decreases |es|
  {
    if es != [] {
      var (next, out) := Step(r, es[0]);
      if !r.phase.Finished? {
        StepReplies(r, es[0]);
      }
      RunReplies(next, es[1..]);
      var rest := Replies(next, es[1..]);
      if out != [] {
        assert (out + rest)[1..] == rest;
      } else {
        assert out + rest == rest;
      }
    }
  }

  function Bytes(bs: seq<Byte>): (r: seq<Event>)
    ensures |r| == |bs|
  {
    seq(|bs|, i requires 0 <= i < |bs| => Got(bs[i]))
  }

  /** A packet in progress only gathers bytes. */
  lemma {:induction false} Gathering(r: Receiver, got: seq<Byte>, bs: seq<Byte>)
    requires r.phase == ReceivePacket(got) && |got| + |bs| <= RX_BUF_SIZE
    ensures After(r, Bytes(bs)) == r.(phase := ReceivePacket(got + bs))
    ensures Replies(r, Bytes(bs)) == []
    decreases |bs|
  {
    if bs == [] {
      assert got + bs == got;
    } else {
      assert Bytes(bs)[1..] == Bytes(bs[1..]);
      assert got + bs == got + [bs[0]] + bs[1..];
      Gathering(r.(phase := ReceivePacket(got + [bs[0]])), got + [bs[0]], bs[1..]);
    }
  }

  /** Until the line first pauses nothing is stored or answered; then the receiver asks for the first packet. */
  lemma {:induction false} SilentAtFirst(bs: seq<Byte>)
    ensures After(INITIAL, Bytes(bs)) == INITIAL && Replies(INITIAL, Bytes(bs)) == []
    ensures After(INITIAL, Bytes(bs) + [Timeout]) == Receiver(WaitForNewPacket, 1, [])
    ensures Replies(INITIAL, Bytes(bs) + [Timeout]) == [21]
    decreases |bs|
  {
    if bs == [] {
      assert Bytes(bs) + [Timeout] == [Timeout];
      assert [Timeout][1..] == [];
    } else {
      assert Bytes(bs)[1..] == Bytes(bs[1..]);
      assert (Bytes(bs) + [Timeout])[1..] == Bytes(bs[1..]) + [Timeout];
      SilentAtFirst(bs[1..]);
    }
  }

  /** The characters of the protocol: what starts a packet, what ends the file, and the answers. */
  lemma Answers(r: Receiver, b: Byte)
    ensures r.phase.WaitForNewPacket? ==>
              && Step(r, Got(1)) == (r.(phase := ReceivePacket([])), [])
              && Step(r, Got(4)) == (r.(phase := Finished), [6])
              && (b != 1 && b != 4 ==> Step(r, Got(b)) == (r.(phase := Purge), []))
              && Step(r, Timeout) == (r, [21])
    ensures r.phase.Purge? ==>
              Step(r, Got(b)) == (r, []) && Step(r, Timeout) == (r.(phase := WaitForNewPacket), [21])
  {}

  function Total(s: seq<Byte>): nat {
    if s == [] then 0 else s[0] + Total(s[1..])
  }

  lemma {:induction false} TotalLast(s: seq<Byte>, b: Byte)
    ensures Total(s + [b]) == Total(s) + b
    decreases |s|
  {
    if s == [] {
      assert (s + [b])[1..] == [];
    } else {
      assert (s + [b])[1..] == s[1..] + [b];
      TotalLast(s[1..], b);
    }
  }

  lemma {:induction false} SumIsTotal(s: seq<Byte>)
    ensures Sum(s) == Total(s) % 256
    decreases |s|
  {
    if s != [] {
      var before, b := s[..|s| - 1], s[|s| - 1];
      SumIsTotal(before);
      TotalLast(before, b);
      assert before + [b] == s;
      ModPlus(Total(before), b);
    }
  }

  lemma ModPlus(a: nat, b: nat)
    ensures (a % 256 + b) % 256 == (a + b) % 256
  {}

  /** A packet checks out if its second number is the inverse of the first, and the sum of its 128 data bytes is the last one. */
  lemma ChecksIff(got: seq<Byte>, sum: Byte)
    requires |got| == 130
    ensures Checks(got, sum) <==> (got[0] as bv8) ^ (got[1] as bv8) == 0xff && sum == Total(got[2..]) % 256
  {
    ComplementMeans(got[0], got[1]);
    SumIsTotal(got[2..]);
  }

  /** A packet that checks out with the expected number is stored and acknowledged, with the number before acknowledged only. */
  lemma PacketOutcome(r: Receiver, got: seq<Byte>, sum: Byte)
    requires |got| == 130 && r.phase == ReceivePacket(got)
    ensures var ok := (got[0] as bv8) ^ (got[1] as bv8) == 0xff && sum == Total(got[2..]) % 256;
      Step(r, Got(sum))
      == if ok && got[0] == r.expected then (Receiver(WaitForNewPacket, (r.expected + 1) % 256, r.mem + got[2..]), [6])
         else if ok && got[0] == (r.expected + 255) % 256 then (r.(phase := WaitForNewPacket), [6])
         else (r.(phase := Purge), [])
  {
    ChecksIff(got, sum);
  }

  /** A packet cut short at any of its 131 positions is neither stored nor acknowledged; the next pause brings a NAK. */
  lemma CutShort(r: Receiver, bs: seq<Byte>)
    requires r.phase.WaitForNewPacket? && |bs| <= 130
    ensures var line := Bytes([SOH] + bs) + [Timeout];
      && After(r, line) == r.(phase := Purge) && Replies(r, line) == []
      && After(r, line + [Timeout]) == r && Replies(r, line + [Timeout]) == [NAK]
  {
    var line := Bytes([SOH] + bs);
    assert line[1..] == Bytes(bs);
    var r1 := r.(phase := ReceivePacket([]));
    Gathering(r1, [], bs);
    assert [] + bs == bs;
    RunSplit(r, line, [Timeout]);
    RunSplit(r, line + [Timeout], [Timeout]);
  }

  // ------------------------------------------------------------- the program

  /** The serial line: a finite trace of what the calls for a character will yield, and what was sent. */
  class Uart {
    const input: seq<Event>
    var pos: nat
    var output: seq<Byte>

    constructor (trace: seq<Event>)
      ensures input == trace && pos == 0 && output == []
    {
      input := trace;
      pos := 0;
      output := [];
    }

    ghost predicate Valid()
      reads this
    {
      pos <= |input|
    }

    method GetChar() returns (e: Event)
      requires Valid() && pos < |input|
      modifies this`pos
      ensures Valid() && pos == old(pos) + 1 && e == input[old(pos)]
    {
      e := input[pos];
      pos := pos + 1;
    }

    method PutChar(c: Byte)
      modifies this`output
      ensures output == old(output) + [c]
    {
      output := output + [c];
    }
  }

  datatype State = WaitState | ReceiveState | PurgeState | SendNakState

  /** How a run over a finite trace ends: the download finished, or the trace did. */
  datatype Outcome = Returned(memIndex: nat) | StillRunning

  /** The phase that a loop head stands for; the NAK of SendNakState is still to be sent. */
  function PhaseOf(s: State): Phase {
    match s
    case WaitState => WaitForNewPacket
    case ReceiveState => ReceivePacket([])
    case PurgeState => Purge
    case SendNakState => WaitForNewPacket
  }

  function Unsent(s: State): seq<Byte> {
    if s.SendNakState? then [NAK] else []
  }

  lemma {:induction false} FinishedStays(r: Receiver, es: seq<Event>)
    requires r.phase.Finished?
    ensures After(r, es) == r && Replies(r, es) == []
    decreases |es|
  {
    if es != [] {
      FinishedStays(r, es[1..]);
    }
  }

  /** What is left of the run, from receiver r at position pos with the given output, completes the run from start. */
  ghost predicate OnTrack(uart: Uart, r: Receiver, sent: seq<Byte>)
    reads uart
  {
    && uart.Valid()
    && After(r, uart.input[uart.pos..]) == After(INITIAL, uart.input)
    && sent + Replies(r, uart.input[uart.pos..]) == Replies(INITIAL, uart.input)
  }

  /** One event further along the run. */
  lemma Advance(input: seq<Event>, pos: nat, r: Receiver, sent: seq<Byte>)
    requires pos < |input|
    ensures var (next, out) := Step(r, input[pos]);
      && After(r, input[pos..]) == After(next, input[pos + 1..])
      && sent + Replies(r, input[pos..]) == (sent + out) + Replies(next, input[pos + 1..])
  {
    assert input[pos..][1..] == input[pos + 1..];
  }

  lemma SumLast(s: seq<Byte>, b: Byte)
    ensures Sum(s + [b]) == (Sum(s) + b) % 256
  {
    assert (s + [b])[..|s|] == s;
  }

  /**
    The packet loop: up to 131 bytes after SOH into the receive buffer, the last
    one only into `ch`. `ended` says that the trace ran out in the middle.
   */
  method ReceiveBytes(uart: Uart, rxBuf: array<Byte>, ghost r: Receiver, ghost sent: seq<Byte>)
    returns (ended: bool, ch: Event, crc: Byte, ghost got: seq<Byte>)
    requires OnTrack(uart, r, sent) && r.phase == ReceivePacket([])
    requires rxBuf.Length == RX_BUF_SIZE
    modifies uart`pos, rxBuf
    ensures old(uart.pos) <= uart.pos
    ensures ended ==> uart.pos == |uart.input| && OnTrack(uart, r.(phase := ReceivePacket(got)), sent)
    ensures !ended ==> uart.pos > old(uart.pos)
    ensures !ended && ch.Timeout? ==> OnTrack(uart, r.(phase := Purge), sent)
    ensures !ended && ch.Got? ==>
              uart.pos == old(uart.pos) + RX_BUF_SIZE + 1 && Complete(uart, rxBuf, r, sent, ch, crc)
  {
    ended, ch, crc, got := false, Timeout, 0, [];
    var i := 0;
    while i < RX_BUF_SIZE + 1
      invariant 0 <= i <= RX_BUF_SIZE + 1 && uart.pos == old(uart.pos) + i
      invariant i <= RX_BUF_SIZE ==> Gathered(uart, rxBuf, r, sent, i, crc, got)
      invariant i == RX_BUF_SIZE + 1 ==> ch.Got? && Complete(uart, rxBuf, r, sent, ch, crc)
    {
      if uart.pos == |uart.input| {
        ended := true;
        return;
      }
      ch, crc, got := ReceiveByte(uart, rxBuf, r, sent, i, crc, got);
      if ch.Timeout? {
        return;
      }
      i := i + 1;
    }
  }

  /** The state of the packet loop when i bytes are in the buffer. */
  ghost predicate Gathered(uart: Uart, rxBuf: array<Byte>, r: Receiver, sent: seq<Byte>, i: nat, crc: Byte, got: seq<Byte>)
    reads uart, rxBuf
  {
    && i <= rxBuf.Length == RX_BUF_SIZE
    && got == rxBuf[..i]
    && crc == (if i > 2 then Sum(rxBuf[2..i]) else 0)
    && OnTrack(uart, r.(phase := ReceivePacket(got)), sent)
  }

  /** All 131 bytes are in: the buffer is full and `ch` is the received checksum. */
  ghost predicate Complete(uart: Uart, rxBuf: array<Byte>, r: Receiver, sent: seq<Byte>, ch: Event, crc: Byte)
    reads uart, rxBuf
  {
    && rxBuf.Length == RX_BUF_SIZE && ch.Got?
    && crc == Sum(rxBuf[2..])
    && OnTrack(uart, Conclude(r, rxBuf[..], ch.b).0, sent + Conclude(r, rxBuf[..], ch.b).1)
  }

  /** One pass of the packet loop. */
  method ReceiveByte(uart: Uart, rxBuf: array<Byte>, ghost r: Receiver, ghost sent: seq<Byte>,
                     i: nat, crc0: Byte, ghost got0: seq<Byte>)
    returns (ch: Event, crc: Byte, ghost got: seq<Byte>)
    requires i <= RX_BUF_SIZE && Gathered(uart, rxBuf, r, sent, i, crc0, got0) && uart.pos < |uart.input|
    modifies uart`pos, rxBuf
    ensures uart.pos == old(uart.pos) + 1
    ensures ch.Timeout? ==> OnTrack(uart, r.(phase := Purge), sent)
    ensures ch.Got? && i < RX_BUF_SIZE ==> Gathered(uart, rxBuf, r, sent, i + 1, crc, got)
    ensures ch.Got? && i == RX_BUF_SIZE ==> Complete(uart, rxBuf, r, sent, ch, crc)
  {
    crc, got := crc0, got0;
    Advance(uart.input, uart.pos, r.(phase := ReceivePacket(got)), sent);
    ch := uart.GetChar();
    assert sent + [] == sent;
    if ch.Got? {
      if i < RX_BUF_SIZE {
        crc := StoreByte(rxBuf, i, ch.b, crc);
        got := got + [ch.b];
      } else {
        assert rxBuf[..i] == rxBuf[..] && rxBuf[2..i] == rxBuf[2..];
      }
    }
  }

  method StoreByte(rxBuf: array<Byte>, i: nat, b: Byte, crc0: Byte) returns (crc: Byte)
    requires i < rxBuf.Length == RX_BUF_SIZE
    requires crc0 == if i > 2 then Sum(rxBuf[2..i]) else 0
    modifies rxBuf
    ensures rxBuf[..i + 1] == old(rxBuf[..i]) + [b]
    ensures crc == if i + 1 > 2 then Sum(rxBuf[2..i + 1]) else 0
  {
    crc := crc0;
    RunningSum(rxBuf[..], i, b);
    rxBuf[i] := b;
    assert rxBuf[..] == old(rxBuf[..])[i := b];
    if i > 1 {
      crc := (crc + b) % 256;
    }
  }

  /** The sum so far when byte i comes in. */
  lemma RunningSum(buf: seq<Byte>, i: nat, b: Byte)
    requires i < |buf|
    ensures buf[i := b][..i + 1] == buf[..i] + [b]
    ensures i > 1 ==> Sum(buf[i := b][2..i + 1]) == (Sum(buf[2..i]) + b) % 256
    ensures i == 2 ==> Sum(buf[2..i]) == 0
  {
    if i > 1 {
      SumLast(buf[2..i], b);
      assert buf[2..i] + [b] == buf[i := b][2..i + 1];
    }
  }

  /** The purge loop: swallow characters until the sender pauses. */
  method PurgeLine(uart: Uart, ghost r: Receiver, ghost sent: seq<Byte>) returns (ended: bool)
    requires OnTrack(uart, r, sent) && r.phase == Purge
    modifies uart`pos
    ensures old(uart.pos) <= uart.pos
    ensures ended ==> After(INITIAL, uart.input) == r && sent == Replies(INITIAL, uart.input)
    ensures !ended ==> uart.pos > old(uart.pos)
    ensures !ended ==> OnTrack(uart, r.(phase := WaitForNewPacket), sent + [NAK])
  {
    while true
      invariant old(uart.pos) <= uart.pos && OnTrack(uart, r, sent)
      decreases |uart.input| - uart.pos
    {
      if uart.pos == |uart.input| {
        return true;
      }
      Advance(uart.input, uart.pos, r, sent);
      var ch := uart.GetChar();
      if ch.Timeout? {
        return false;
      }
    }
  }

  /** The copy loop: the 128 payload bytes to the end of what is in memory. */
  method StorePayload(rxBuf: array<Byte>, pmem: array<Byte>, memIndex: nat) returns (newIndex: nat)
    requires rxBuf.Length == RX_BUF_SIZE && rxBuf != pmem && memIndex + PAYLOAD <= pmem.Length
    modifies pmem
    ensures newIndex == memIndex + PAYLOAD
    ensures pmem[..newIndex] == old(pmem[..memIndex]) + rxBuf[2..]
  {
    newIndex := memIndex;
    var i := 2;
    while i < RX_BUF_SIZE
      invariant 2 <= i <= RX_BUF_SIZE && newIndex == memIndex + i - 2
      invariant pmem[..newIndex] == old(pmem[..memIndex]) + rxBuf[2..i]
    {
      pmem[newIndex] := rxBuf[i];
      newIndex := newIndex + 1;
      i := i + 1;
    }
    assert rxBuf[2..i] == rxBuf[2..];
  }

  /** Validate and act on a complete packet; `state` is the next loop-head state. */
  method HandlePacket(uart: Uart, rxBuf: array<Byte>, ch: Event, crc: Byte, pmem: array<Byte>, memIndex: nat, expected: Byte,
                      ghost r: Receiver, ghost sent: seq<Byte>)
    returns (state: State, newIndex: nat, newExpected: Byte)
    requires rxBuf.Length == RX_BUF_SIZE && rxBuf != pmem
    requires memIndex <= pmem.Length && (ch.Got? ==> memIndex + PAYLOAD <= pmem.Length)
    requires r == Receiver(ReceivePacket([]), expected, pmem[..memIndex]) && uart.output == sent
    requires ch.Timeout? ==> OnTrack(uart, r.(phase := Purge), sent)
    requires ch.Got? ==> Complete(uart, rxBuf, r, sent, ch, crc)
    modifies uart`output, pmem
    ensures newIndex <= pmem.Length && newIndex <= memIndex + PAYLOAD
    ensures newIndex > memIndex ==> ch.Got?
    ensures OnTrack(uart, Receiver(PhaseOf(state), newExpected, pmem[..newIndex]), uart.output + Unsent(state))
    ensures !state.SendNakState? && !state.ReceiveState?
  {
    newIndex, newExpected := memIndex, expected;
    assert rxBuf[..][2..] == rxBuf[2..];
    assert sent + [] == sent;
    var blkNum := rxBuf[0];
    ComplementMeans(blkNum, rxBuf[1]);
    if ch.Timeout? || crc != ch.b || (blkNum as bv8) ^ (rxBuf[1] as bv8) != 0xff {
      state := PurgeState;
      assert uart.output + Unsent(state) == sent;
      return;
    }
    if blkNum == expected {
      newIndex := StorePayload(rxBuf, pmem, memIndex);
      uart.PutChar(ACK);
      newExpected := Next(blkNum);
    } else if blkNum == Previous(expected) {
      uart.PutChar(ACK);
    } else {
      state := PurgeState;
      assert uart.output + Unsent(state) == sent;
      return;
    }
    state := WaitState;
    assert uart.output + Unsent(state) == sent + [ACK];
  }

  /** The whole of the packet state: gather, validate, act. */
  method ReceivePacketState(uart: Uart, rxBuf: array<Byte>, pmem: array<Byte>, memIndex: nat, expected: Byte,
                            ghost r: Receiver, ghost sent: seq<Byte>)
    returns (ended: bool, state: State, newIndex: nat, newExpected: Byte)
    requires rxBuf.Length == RX_BUF_SIZE && rxBuf != pmem
    requires memIndex <= uart.pos && |uart.input| <= pmem.Length
    requires OnTrack(uart, r, sent)
    requires r == Receiver(ReceivePacket([]), expected, pmem[..memIndex]) && uart.output == sent
    modifies uart, rxBuf, pmem
    ensures old(uart.pos) <= uart.pos && newIndex <= uart.pos <= |uart.input|
    ensures ended ==> Over(uart, pmem, newIndex)
    ensures !ended ==> uart.pos > old(uart.pos)
    ensures !ended ==> OnTrack(uart, Receiver(PhaseOf(state), newExpected, pmem[..newIndex]), uart.output + Unsent(state))
  {
    var ch, crc;
    ghost var got;
    ended, ch, crc, got := ReceiveBytes(uart, rxBuf, r, sent);
    if ended {
      state, newIndex, newExpected := ReceiveState, memIndex, expected;
    } else {
      state, newIndex, newExpected := HandlePacket(uart, rxBuf, ch, crc, pmem, memIndex, expected, r, sent);
    }
  }

  /** The trace is used up before the download finished. */
  ghost predicate Over(uart: Uart, pmem: array<Byte>, memIndex: nat)
    reads uart, pmem
  {
    && memIndex <= pmem.Length
    && uart.output == Replies(INITIAL, uart.input)
    && !After(INITIAL, uart.input).phase.Finished?
    && After(INITIAL, uart.input).mem == pmem[..memIndex]
  }

  /** Both ways to the NAK end here. */
  method SendNak(uart: Uart, ghost r: Receiver, ghost sent: seq<Byte>) returns (state: State)
    requires r.phase == WaitForNewPacket && uart.output == sent && OnTrack(uart, r, sent + [NAK])
    modifies uart`output
    ensures state == WaitState && OnTrack(uart, r, uart.output + Unsent(state))
  {
    uart.PutChar(NAK);
    state := WaitState;
    assert uart.output + [] == sent + [NAK];
  }

  /** Waiting for the start of a packet or the end of the file. */
  method AwaitPacket(uart: Uart, ghost r: Receiver, ghost sent: seq<Byte>)
    returns (ended: bool, finished: bool, state: State)
    requires r.phase == WaitForNewPacket && uart.output == sent && OnTrack(uart, r, sent)
    modifies uart
    ensures old(uart.pos) <= uart.pos
    ensures ended ==> After(INITIAL, uart.input) == r && uart.output == Replies(INITIAL, uart.input)
    ensures !ended ==> uart.pos > old(uart.pos)
    ensures !ended && finished ==>
              After(INITIAL, uart.input) == r.(phase := Finished) && uart.output == Replies(INITIAL, uart.input)
    ensures !ended && !finished ==> OnTrack(uart, r.(phase := PhaseOf(state)), uart.output + Unsent(state))
  {
    ended, finished, state := false, false, WaitState;
    if uart.pos == |uart.input| {
      ended := true;
      return;
    }
    Advance(uart.input, uart.pos, r, sent);
    var ch := uart.GetChar();
    if ch.Timeout? {
      state := SendNakState;
    } else if ch.b == SOH {
      state := ReceiveState;
    } else if ch.b == EOT {
      uart.PutChar(ACK);
      FinishedStays(r.(phase := Finished), uart.input[uart.pos..]);
      finished := true;
    } else {
      state := PurgeState;
    }
    assert uart.output + Unsent(state) == sent + Step(r, ch).1;
  }

  /**
    xmodem_load. On every trace it sends exactly the replies of the receiver,
    leaves exactly its memory, and returns exactly when the receiver finishes,
    with the number of bytes stored.
   */
  method XmodemLoad(uart: Uart, pmem: array<Byte>) returns (result: Outcome)
    requires uart.pos == 0 && uart.output == [] && pmem.Length >= |uart.input|
    modifies uart, pmem
    ensures uart.output == Replies(INITIAL, uart.input)
    ensures result.Returned? <==> After(INITIAL, uart.input).phase.Finished?
    ensures result.Returned? ==> result.memIndex == |After(INITIAL, uart.input).mem|
    ensures |After(INITIAL, uart.input).mem| <= pmem.Length
    ensures pmem[..|After(INITIAL, uart.input).mem|] == After(INITIAL, uart.input).mem
  {
    var state := PurgeState;
    var expected: Byte := 1;
    var memIndex := 0;
    var rxBuf := new Byte[RX_BUF_SIZE];
    assert uart.input[0..] == uart.input;
    assert pmem[..0] == [];
    while true
      invariant fresh(rxBuf) && rxBuf.Length == RX_BUF_SIZE
      invariant 0 <= memIndex <= uart.pos <= |uart.input|
      invariant OnTrack(uart, Receiver(PhaseOf(state), expected, pmem[..memIndex]), uart.output + Unsent(state))
      decreases |uart.input| - uart.pos, if state.SendNakState? then 1 else 0
    {
      ghost var r := Receiver(PhaseOf(state), expected, pmem[..memIndex]);
      ghost var sent := uart.output;
      assert sent + [] == sent;
      match state
      case WaitState => {
        var ended, finished;
        ended, finished, state := AwaitPacket(uart, r, sent);
        if ended {
          return StillRunning;
        }
        if finished {
          return Returned(memIndex);
        }
      }
      case ReceiveState => {
        var ended;
        ended, state, memIndex, expected := ReceivePacketState(uart, rxBuf, pmem, memIndex, expected, r, sent);
        if ended {
          return StillRunning;
        }
      }
      case PurgeState => {
        var ended := PurgeLine(uart, r, sent);
        if ended {
          return StillRunning;
        }
        state := SendNak(uart, r.(phase := WaitForNewPacket), sent);
      }
      case SendNakState => {
        state := SendNak(uart, r, sent);
      }
    }
  }
}
