/** The receiver together with a stop-and-wait sender and a lossy line that works in rounds. */
module XmodemLink {
  import opened Xmodem

  type Block = b: seq<Byte> | |b| == PAYLOAD witness seq(PAYLOAD, _ => 0)

  /** The number that the sender gives to its i-th block, counting from 0. */
  function Number(i: nat): Byte {
    (i + 1) % 256
  }

  /** The 131 bytes after SOH of the i-th packet, without the checksum. */
  function Body(blocks: seq<Block>, i: nat): (r: seq<Byte>)
    requires i < |blocks|
    ensures |r| == RX_BUF_SIZE
  {
    [Number(i), 255 - Number(i)] + blocks[i]
  }

  /** What the sender puts on the line when `sent` blocks have been acknowledged. */
  function Wire(blocks: seq<Block>, sent: nat): seq<Byte>
    requires sent <= |blocks|
  {
    if sent < |blocks| then [SOH] + Body(blocks, sent) + [Sum(blocks[sent])] else [EOT]
  }

  // ------------------------------------------------------------ sound lines

  /** The payloads in memory. */
  function StoredBlocks(r: Receiver): nat {
    |r.mem| / PAYLOAD
  }

  /** The event completes a packet that passes the complement and the sum. */
  predicate Completes(r: Receiver, e: Event) {
    r.phase.ReceivePacket? && e.Got? && |r.phase.got| == RX_BUF_SIZE && Checks(r.phase.got, e.b)
  }

  /**
    What a line may do to the bytes, given the receiver it does it to. A packet
    that passes its checks and has the expected number is the block that comes
    next; one with the number before, if it is acknowledged to the sender, comes
    when the current block is in memory already; and an EOT is seen as such only
    when the sender is sending it. Everything else the line may do: a packet
    with any other number, in particular, is given up.
   */
  predicate SoundEvent(blocks: seq<Block>, sent: nat, heard: bool, r: Receiver, e: Event) {
    var n := StoredBlocks(r);
    && (Completes(r, e) && r.phase.got[0] == r.expected ==>
          n == sent && n < |blocks| && r.phase.got[2..] == blocks[n])
    && (Completes(r, e) && r.phase.got[0] == Previous(r.expected) && heard ==> n == sent + 1 || sent == |blocks|)
    && (r.phase.WaitForNewPacket? && e == Got(EOT) ==> sent == |blocks|)
  }

  predicate Sound(blocks: seq<Block>, sent: nat, heard: bool, r: Receiver, line: seq<Event>)
    decreases |line|
  {
    line == [] || (SoundEvent(blocks, sent, heard, r, line[0]) && Sound(blocks, sent, heard, Step(r, line[0]).0, line[1..]))
  }

  /** One round: what the receiver sees, and whether the sender hears the answers. */
  datatype Round = Round(line: seq<Event>, heard: bool)

  datatype System = System(receiver: Receiver, sent: nat)

  function Play(blocks: seq<Block>, s: System, round: Round): System {
    System(After(s.receiver, round.line),
           if round.heard && ACK in Replies(s.receiver, round.line) && s.sent < |blocks| then s.sent + 1 else s.sent)
  }

  function PlayAll(blocks: seq<Block>, s: System, rounds: seq<Round>): System
    decreases |rounds|
  {
    if rounds == [] then s else PlayAll(blocks, Play(blocks, s, rounds[0]), rounds[1..])
  }

  predicate SoundRounds(blocks: seq<Block>, s: System, rounds: seq<Round>)
    decreases |rounds|
  {
    rounds == [] ||
    (Sound(blocks, s.sent, rounds[0].heard, s.receiver, rounds[0].line) && SoundRounds(blocks, Play(blocks, s, rounds[0]), rounds[1..]))
  }

  const START := System(INITIAL, 0)

  // ---------------------------------------------------------------- safety

  /** Memory is the first n blocks, and the sender is at block n or one behind. */
  ghost predicate Synchronised(blocks: seq<Block>, s: System, n: nat) {
    && n <= |blocks| && s.sent <= n <= s.sent + 1
    && s.receiver.mem == Concat(blocks[..n])
    && s.receiver.expected == (n + 1) % 256
    && (s.receiver.phase.Finished? ==> s.sent == |blocks|)
    && (s.receiver.phase.ReceivePacket? ==> |s.receiver.phase.got| <= RX_BUF_SIZE)
  }

  lemma {:induction false} ConcatLength(bs: seq<Block>)
    ensures |Concat(bs)| == PAYLOAD * |bs|
    decreases |bs|
  {
    if bs != [] {
      ConcatLength(bs[1..]);
    }
  }

  lemma {:induction false} ConcatLast(bs: seq<Block>, b: Block)
    ensures Concat(bs + [b]) == Concat(bs) + b
    decreases |bs|
  {
    if bs == [] {
      assert (bs + [b])[1..] == [];
    } else {
      assert (bs + [b])[1..] == bs[1..] + [b];
      ConcatLast(bs[1..], b);
    }
  }

  /** Consecutive block numbers differ, and so do those of a block and its successor's successor. */
  lemma NumbersApart(n: nat)
    ensures Number(n) == (n + 1) % 256 && Next(Number(n)) == Number(n + 1)
    ensures Previous(Number(n + 1)) == Number(n) && Number(n) != Number(n + 1)
  {}

  lemma StoredAre(blocks: seq<Block>, s: System, n: nat)
    requires Synchronised(blocks, s, n)
    ensures StoredBlocks(s.receiver) == n && |s.receiver.mem| == PAYLOAD * n
  {
    ConcatLength(blocks[..n]);
  }

  /** The two ends are together, and an ACK that the sender has heard means that the current block, or the EOT, has arrived. */
  ghost predicate InStep(blocks: seq<Block>, s: System, heard: bool, replies: seq<Byte>) {
    && Synchronised(blocks, s, StoredBlocks(s.receiver))
    && (heard && ACK in replies ==> StoredBlocks(s.receiver) == s.sent + 1 || s.sent == |blocks|)
  }

  /** Storing a payload keeps memory a prefix of the file exactly if it is the next block. */
  lemma StoreIff(blocks: seq<Block>, mem: seq<Byte>, n: nat, payload: Block)
    requires n <= |blocks| && mem == Concat(blocks[..n])
    ensures |mem + payload| / PAYLOAD == n + 1
    ensures n < |blocks| && payload == blocks[n] <==> n + 1 <= |blocks| && mem + payload == Concat(blocks[..n + 1])
  {
    ConcatLength(blocks[..n]);
    if n < |blocks| {
      ConcatLast(blocks[..n], blocks[n]);
      assert blocks[..n] + [blocks[n]] == blocks[..n + 1];
      SameTail(mem, payload, blocks[n]);
    }
  }

  lemma SameTail(a: seq<Byte>, b: seq<Byte>, c: seq<Byte>)
    ensures a + b == a + c <==> b == c
  {
    if a + b == a + c {
      assert b == (a + b)[|a|..] == (a + c)[|a|..] == c;
    }
  }

  /** One event keeps the two ends in step if and only if it is sound; it never takes a block back. */
  lemma EventSafeIff(blocks: seq<Block>, s: System, n: nat, heard: bool, e: Event)
    requires Synchronised(blocks, s, n)
    ensures StoredBlocks(Step(s.receiver, e).0) >= n
    ensures InStep(blocks, System(Step(s.receiver, e).0, s.sent), heard, Step(s.receiver, e).1)
       <==> SoundEvent(blocks, s.sent, heard, s.receiver, e)
  {
    var r := s.receiver;
    StoredAre(blocks, s, n);
    NumbersApart(n);
    if Completes(r, e) {
      PacketSafeIff(blocks, s, n, heard, e);
    }
  }

  lemma PacketSafeIff(blocks: seq<Block>, s: System, n: nat, heard: bool, e: Event)
    requires Synchronised(blocks, s, n) && Completes(s.receiver, e)
    ensures StoredBlocks(Step(s.receiver, e).0) >= n
    ensures InStep(blocks, System(Step(s.receiver, e).0, s.sent), heard, Step(s.receiver, e).1)
       <==> SoundEvent(blocks, s.sent, heard, s.receiver, e)
  {
    var r := s.receiver;
    StoredAre(blocks, s, n);
    NumbersApart(n);
    if r.phase.got[0] == r.expected {
      StoreIff(blocks, r.mem, n, r.phase.got[2..]);
    }
  }

  /** The state after the first k events of a line, and what has been sent by then, are in step. */
  ghost predicate InStepAt(blocks: seq<Block>, s: System, heard: bool, line: seq<Event>, k: nat)
    requires k <= |line|
  {
    InStep(blocks, System(After(s.receiver, line[..k]), s.sent), heard, Replies(s.receiver, line[..k]))
  }

  lemma FirstEvent(r: Receiver, line: seq<Event>, k: nat)
    requires 1 <= k <= |line|
    ensures After(r, line[..k]) == After(Step(r, line[0]).0, line[1..][..k - 1])
    ensures Replies(r, line[..k]) == Step(r, line[0]).1 + Replies(Step(r, line[0]).0, line[1..][..k - 1])
  {
    assert line[..k][1..] == line[1..][..k - 1];
  }

  /** A line keeps the two ends in step all along if and only if it is sound. */
  lemma {:induction false} LineSafeIff(blocks: seq<Block>, s: System, n: nat, heard: bool, line: seq<Event>)
    requires Synchronised(blocks, s, n)
    ensures (forall k :: 0 <= k <= |line| ==> InStepAt(blocks, s, heard, line, k))
       <==> Sound(blocks, s.sent, heard, s.receiver, line)
    decreases |line|
  {
    StoredAre(blocks, s, n);
    assert InStepAt(blocks, s, heard, line, 0);
    if line != [] {
      var next := System(Step(s.receiver, line[0]).0, s.sent);
      EventSafeIff(blocks, s, n, heard, line[0]);
      FirstOnly(blocks, s, heard, line);
      if SoundEvent(blocks, s.sent, heard, s.receiver, line[0]) {
        LineSafeIff(blocks, next, StoredBlocks(next.receiver), heard, line[1..]);
        forall k | 1 <= k <= |line|
          ensures InStepAt(blocks, s, heard, line, k) ==> InStepAt(blocks, next, heard, line[1..], k - 1)
        {
          FirstEvent(s.receiver, line, k);
        }
        if Sound(blocks, s.sent, heard, next.receiver, line[1..]) {
          forall k | 1 <= k <= |line|
            ensures InStepAt(blocks, s, heard, line, k)
          {
            OneLonger(blocks, s, n, heard, line, k);
          }
        } else {
          var j :| 0 <= j <= |line[1..]| && !InStepAt(blocks, next, heard, line[1..], j);
          assert !InStepAt(blocks, s, heard, line, j + 1);
        }
      } else {
        assert !InStepAt(blocks, s, heard, line, 1);
      }
    }
  }

  lemma FirstOnly(blocks: seq<Block>, s: System, heard: bool, line: seq<Event>)
    requires line != []
    ensures InStepAt(blocks, s, heard, line, 1)
       <==> InStep(blocks, System(Step(s.receiver, line[0]).0, s.sent), heard, Step(s.receiver, line[0]).1)
  {
    FirstEvent(s.receiver, line, 1);
    var out := Step(s.receiver, line[0]).1;
    assert out + [] == out;
  }

  /** What holds after the first event and from there on holds from the start. */
  lemma OneLonger(blocks: seq<Block>, s: System, n: nat, heard: bool, line: seq<Event>, k: nat)
    requires 1 <= k <= |line| && Synchronised(blocks, s, n)
    requires var next := System(Step(s.receiver, line[0]).0, s.sent);
      && InStep(blocks, next, heard, Step(s.receiver, line[0]).1)
      && InStepAt(blocks, next, heard, line[1..], k - 1)
    ensures InStepAt(blocks, s, heard, line, k)
  {
    var next := Step(s.receiver, line[0]).0;
    FirstEvent(s.receiver, line, k);
    NoneTakenBack(next, line[1..][..k - 1]);
  }

  lemma {:induction false} NoneTakenBack(r: Receiver, line: seq<Event>)
    ensures StoredBlocks(After(r, line)) >= StoredBlocks(r)
    decreases |line|
  {
    if line != [] {
      NoneTakenBack(Step(r, line[0]).0, line[1..]);
    }
  }

  /** A round on a sound line, with what the sender makes of the answers, keeps the two ends together. */
  lemma RoundSafe(blocks: seq<Block>, s: System, n: nat, round: Round) returns (m: nat)
    requires Synchronised(blocks, s, n) && Sound(blocks, s.sent, round.heard, s.receiver, round.line)
    ensures m == StoredBlocks(Play(blocks, s, round).receiver) && Synchronised(blocks, Play(blocks, s, round), m)
  {
    LineSafeIff(blocks, s, n, round.heard, round.line);
    assert InStepAt(blocks, s, round.heard, round.line, |round.line|);
    assert round.line[..|round.line|] == round.line;
    m := StoredBlocks(After(s.receiver, round.line));
  }

  /** In round i, the state after its first k events. */
  ghost predicate Reached(blocks: seq<Block>, s: System, rounds: seq<Round>, i: nat, k: nat)
    requires i < |rounds| && k <= |rounds[i].line|
  {
    InStepAt(blocks, PlayAll(blocks, s, rounds[..i]), rounds[i].heard, rounds[i].line, k)
  }

  ghost predicate AlwaysInStep(blocks: seq<Block>, s: System, rounds: seq<Round>) {
    forall i, k :: 0 <= i < |rounds| && 0 <= k <= |rounds[i].line| ==> Reached(blocks, s, rounds, i, k)
  }

  lemma LaterRound(blocks: seq<Block>, s: System, rounds: seq<Round>, i: nat, k: nat)
    requires 1 <= i < |rounds| && k <= |rounds[i].line|
    ensures Reached(blocks, s, rounds, i, k) <==> Reached(blocks, Play(blocks, s, rounds[0]), rounds[1..], i - 1, k)
  {
    assert rounds[..i][1..] == rounds[1..][..i - 1];
  }

  /** A run keeps the two ends in step in every state it reaches if and only if its lines are sound. */
  lemma {:induction false} RunSafeIff(blocks: seq<Block>, s: System, n: nat, rounds: seq<Round>)
    requires Synchronised(blocks, s, n)
    ensures AlwaysInStep(blocks, s, rounds) <==> SoundRounds(blocks, s, rounds)
    decreases |rounds|
  {
    if rounds != [] {
      var first, rest := rounds[0], rounds[1..];
      LineSafeIff(blocks, s, n, first.heard, first.line);
      assert forall k :: 0 <= k <= |first.line| ==>
               (Reached(blocks, s, rounds, 0, k) <==> InStepAt(blocks, s, first.heard, first.line, k));
      if Sound(blocks, s.sent, first.heard, s.receiver, first.line) {
        var m := RoundSafe(blocks, s, n, first);
        RunSafeIff(blocks, Play(blocks, s, first), m, rest);
        ShiftRounds(blocks, s, rounds);
      }
    }
  }

  lemma ShiftRounds(blocks: seq<Block>, s: System, rounds: seq<Round>)
    requires rounds != []
    ensures AlwaysInStep(blocks, s, rounds) <==>
              && (forall k :: 0 <= k <= |rounds[0].line| ==> Reached(blocks, s, rounds, 0, k))
              && AlwaysInStep(blocks, Play(blocks, s, rounds[0]), rounds[1..])
  {
    var next, rest := Play(blocks, s, rounds[0]), rounds[1..];
    forall i, k | 1 <= i < |rounds| && 0 <= k <= |rounds[i].line|
      ensures Reached(blocks, s, rounds, i, k) <==> Reached(blocks, next, rest, i - 1, k)
    {
      LaterRound(blocks, s, rounds, i, k);
    }
    if AlwaysInStep(blocks, s, rounds) {
      forall i, k | 0 <= i < |rest| && 0 <= k <= |rest[i].line|
        ensures Reached(blocks, next, rest, i, k)
      {
        assert Reached(blocks, s, rounds, i + 1, k);
      }
    }
  }

  lemma {:induction false} RunSafe(blocks: seq<Block>, s: System, n: nat, rounds: seq<Round>) returns (m: nat)
    requires Synchronised(blocks, s, n) && SoundRounds(blocks, s, rounds)
    ensures Synchronised(blocks, PlayAll(blocks, s, rounds), m)
    decreases |rounds|
  {
    m := n;
    if rounds != [] {
      m := RoundSafe(blocks, s, n, rounds[0]);
      m := RunSafe(blocks, Play(blocks, s, rounds[0]), m, rounds[1..]);
    }
  }

  /** From the start: every state of a run is in step if and only if its lines are sound. */
  lemma EndToEndIff(blocks: seq<Block>, rounds: seq<Round>)
    ensures AlwaysInStep(blocks, START, rounds) <==> SoundRounds(blocks, START, rounds)
  {
    assert blocks[..0] == [];
    RunSafeIff(blocks, START, 0, rounds);
  }

  /**
    Safety: whatever a sound line does, in any number of rounds, memory holds a
    prefix of the blocks and the sender is at the end of it or one behind; when
    the receiver has finished, memory is the whole file.
   */
  lemma EndToEnd(blocks: seq<Block>, rounds: seq<Round>)
    requires SoundRounds(blocks, START, rounds)
    ensures var s := PlayAll(blocks, START, rounds);
      && |s.receiver.mem| % PAYLOAD == 0
      && |s.receiver.mem| / PAYLOAD <= |blocks|
      && s.receiver.mem == Concat(blocks[..|s.receiver.mem| / PAYLOAD])
      && s.sent <= |s.receiver.mem| / PAYLOAD <= s.sent + 1
      && (s.receiver.phase.Finished? ==> s.receiver.mem == Concat(blocks))
  {
    assert blocks[..0] == [];
    var m := RunSafe(blocks, START, 0, rounds);
    ConcatLength(blocks[..m]);
    assert blocks[..|blocks|] == blocks;
  }

  // ------------------------------------------------- the faults of a real line

  datatype Fault =
    | Intact
    | Lost
    | Cut(length: nat)
    | Short(body: seq<Byte>)
    | Garbled(body: seq<Byte>, sum: Byte, rest: seq<Byte>)
    | Noise(first: Byte, rest: seq<Byte>)

  /** A number that is neither expected nor the one before. */
  predicate OutOfSequence(expected: Byte, number: Byte) {
    number != expected && number != Previous(expected)
  }

  /**
    A short packet may hold anything; a garbled one that is not short fails its
    checks or is out of sequence for the receiver;
    noise does not start like a packet or an end of file.
   */
  predicate Detectable(blocks: seq<Block>, sent: nat, expected: Byte, f: Fault)
    requires sent <= |blocks|
  {
    match f
    case Intact => true
    case Lost => true
    case Cut(k) => k < |Wire(blocks, sent)|
    case Short(body) => |body| <= RX_BUF_SIZE
    case Garbled(body, sum, rest) => |body| == RX_BUF_SIZE && (!Checks(body, sum) || OutOfSequence(expected, body[0]))
    case Noise(first, rest) => first != SOH && first != EOT
  }

  function Delivered(blocks: seq<Block>, sent: nat, f: Fault): seq<Byte>
    requires sent <= |blocks| && (f.Cut? ==> f.length < |Wire(blocks, sent)|)
  {
    match f
    case Intact => Wire(blocks, sent)
    case Lost => []
    case Cut(k) => Wire(blocks, sent)[..k]
    case Short(body) => [SOH] + body
    case Garbled(body, sum, rest) => [SOH] + body + [sum] + rest
    case Noise(first, rest) => [first] + rest
  }

  function Pauses(n: nat): (r: seq<Event>)
    ensures |r| == n
  {
    seq(n, _ => Timeout)
  }

  lemma {:induction false} SoundSplit(blocks: seq<Block>, sent: nat, heard: bool, r: Receiver, a: seq<Event>, b: seq<Event>)
    ensures Sound(blocks, sent, heard, r, a + b) <==> Sound(blocks, sent, heard, r, a) && Sound(blocks, sent, heard, After(r, a), b)
    decreases |a|
  {
    if a == [] {
      assert a + b == b;
    } else {
      assert (a + b)[1..] == a[1..] + b;
      SoundSplit(blocks, sent, heard, Step(r, a[0]).0, a[1..], b);
    }
  }

  /** Two pauses bring any unfinished receiver back to waiting, without an ACK. */
  lemma {:induction false} Pausing(blocks: seq<Block>, sent: nat, heard: bool, r: Receiver, n: nat)
    requires n >= 2 || (n >= 1 && r.phase.Purge?) || r.phase.WaitForNewPacket?
    requires !r.phase.Finished?
    ensures Sound(blocks, sent, heard, r, Pauses(n))
    ensures After(r, Pauses(n)) == r.(phase := WaitForNewPacket)
    ensures ACK !in Replies(r, Pauses(n))
    decreases n
  {
    if n > 0 {
      assert Pauses(n)[1..] == Pauses(n - 1);
      Pausing(blocks, sent, heard, Step(r, Timeout).0, n - 1);
    }
  }

  lemma {:induction false} PausingFinished(blocks: seq<Block>, sent: nat, heard: bool, r: Receiver, line: seq<Event>)
    requires r.phase.Finished?
    ensures Sound(blocks, sent, heard, r, line) && After(r, line) == r && Replies(r, line) == []
    decreases |line|
  {
    if line != [] {
      PausingFinished(blocks, sent, heard, r, line[1..]);
    }
  }

  lemma {:induction false} Purging(blocks: seq<Block>, sent: nat, heard: bool, r: Receiver, bs: seq<Byte>)
    requires r.phase.Purge?
    ensures Sound(blocks, sent, heard, r, Bytes(bs)) && After(r, Bytes(bs)) == r && Replies(r, Bytes(bs)) == []
    decreases |bs|
  {
    if bs != [] {
      assert Bytes(bs)[1..] == Bytes(bs[1..]);
      Purging(blocks, sent, heard, r, bs[1..]);
    }
  }

  /** While a packet is being gathered nothing can complete. */
  lemma {:induction false} GatheringSound(blocks: seq<Block>, sent: nat, heard: bool, r: Receiver, got: seq<Byte>, bs: seq<Byte>)
    requires r.phase == ReceivePacket(got) && |got| + |bs| <= RX_BUF_SIZE
    ensures Sound(blocks, sent, heard, r, Bytes(bs))
    decreases |bs|
  {
    if bs != [] {
      assert Bytes(bs)[1..] == Bytes(bs[1..]);
      GatheringSound(blocks, sent, heard, r.(phase := ReceivePacket(got + [bs[0]])), got + [bs[0]], bs[1..]);
    }
  }

  lemma BytesAppend(a: seq<Byte>, b: seq<Byte>)
    ensures Bytes(a + b) == Bytes(a) + Bytes(b)
  {}

  /** SOH and at most 130 bytes: the receiver is in the packet. */
  lemma StartOfPacket(blocks: seq<Block>, sent: nat, heard: bool, r: Receiver, bs: seq<Byte>)
    requires r.phase.WaitForNewPacket? && |bs| <= RX_BUF_SIZE
    ensures Sound(blocks, sent, heard, r, Bytes([SOH] + bs))
    ensures After(r, Bytes([SOH] + bs)) == r.(phase := ReceivePacket(bs))
    ensures Replies(r, Bytes([SOH] + bs)) == []
  {
    var r1 := r.(phase := ReceivePacket([]));
    assert Bytes([SOH] + bs)[1..] == Bytes(bs);
    GatheringSound(blocks, sent, heard, r1, [], bs);
    Gathering(r1, [], bs);
    assert [] + bs == bs;
  }

  /** SOH, 130 bytes and a checksum. */
  lemma WholePacket(blocks: seq<Block>, sent: nat, heard: bool, r: Receiver, body: seq<Byte>, sum: Byte)
    requires r.phase.WaitForNewPacket? && |body| == RX_BUF_SIZE
    requires SoundEvent(blocks, sent, heard, r.(phase := ReceivePacket(body)), Got(sum))
    ensures Sound(blocks, sent, heard, r, Bytes([SOH] + body + [sum]))
    ensures After(r, Bytes([SOH] + body + [sum])) == Conclude(r, body, sum).0
    ensures Replies(r, Bytes([SOH] + body + [sum])) == Conclude(r, body, sum).1
  {
    var r1 := r.(phase := ReceivePacket(body));
    StartOfPacket(blocks, sent, heard, r, body);
    BytesAppend([SOH] + body, [sum]);
    RunSplit(r, Bytes([SOH] + body), Bytes([sum]));
    SoundSplit(blocks, sent, heard, r, Bytes([SOH] + body), Bytes([sum]));
    OneEvent(blocks, sent, heard, r1, Got(sum));
    assert Bytes([sum]) == [Got(sum)];
  }

  lemma OneEvent(blocks: seq<Block>, sent: nat, heard: bool, r: Receiver, e: Event)
    ensures After(r, [e]) == Step(r, e).0 && Replies(r, [e]) == Step(r, e).1
    ensures Sound(blocks, sent, heard, r, [e]) <==> SoundEvent(blocks, sent, heard, r, e)
  {
    assert [e][1..] == [];
  }

  // ------------------------------------------------------------- one fault

  /** The receiver expects the block after those it has, and has as many as the sender knows of, or one more. */
  ghost predicate Near(blocks: seq<Block>, sent: nat, r: Receiver) {
    var n := StoredBlocks(r);
    n <= |blocks| && sent <= n <= sent + 1 && r.expected == Number(n)
  }

  /** What a fault does before the line falls silent. */
  lemma FaultBytes(blocks: seq<Block>, sent: nat, heard: bool, r: Receiver, f: Fault)
    requires sent <= |blocks| && Detectable(blocks, sent, r.expected, f)
    requires r.phase.WaitForNewPacket? && Near(blocks, sent, r)
    ensures var line := Bytes(Delivered(blocks, sent, f));
      && Sound(blocks, sent, heard, r, line)
      && (if f.Intact? then ACK in Replies(r, line) else ACK !in Replies(r, line))
      && (After(r, line).phase.Finished? <==> f.Intact? && sent == |blocks|)
  {
    match f
    case Intact => IntactBytes(blocks, sent, heard, r);
    case Lost => {}
    case Cut(k) => CutBytes(blocks, sent, heard, r, k);
    case Short(body) => StartOfPacket(blocks, sent, heard, r, body);
    case Garbled(body, sum, rest) => GarbledBytes(blocks, sent, heard, r, body, sum, rest);
    case Noise(first, rest) => {
      assert Bytes([first] + rest)[1..] == Bytes(rest);
      Purging(blocks, sent, heard, r.(phase := Purge), rest);
    }
  }

  lemma IntactBytes(blocks: seq<Block>, sent: nat, heard: bool, r: Receiver)
    requires sent <= |blocks| && r.phase.WaitForNewPacket? && Near(blocks, sent, r)
    ensures var line := Bytes(Wire(blocks, sent));
      && Sound(blocks, sent, heard, r, line) && Replies(r, line) == [ACK]
      && (After(r, line).phase.Finished? <==> sent == |blocks|)
      && !After(r, line).phase.ReceivePacket? && !After(r, line).phase.Purge?
  {
    if sent < |blocks| {
      var body, sum := Body(blocks, sent), Sum(blocks[sent]);
      assert body[0] == Number(sent) && body[2..] == blocks[sent];
      NumbersApart(sent);
      WholePacket(blocks, sent, heard, r, body, sum);
    } else {
      assert Bytes([EOT]) == [Got(EOT)];
      OneEvent(blocks, sent, heard, r, Got(EOT));
    }
  }

  lemma PrefixOfPacket(body: seq<Byte>, sum: Byte, k: nat)
    requires 1 <= k <= |body| + 1
    ensures ([SOH] + body + [sum])[..k] == [SOH] + body[..k - 1]
  {}

  lemma CutBytes(blocks: seq<Block>, sent: nat, heard: bool, r: Receiver, k: nat)
    requires sent <= |blocks| && k < |Wire(blocks, sent)| && r.phase.WaitForNewPacket?
    ensures var line := Bytes(Wire(blocks, sent)[..k]);
      && Sound(blocks, sent, heard, r, line) && Replies(r, line) == [] && !After(r, line).phase.Finished?
  {
    if k == 0 {
      assert Wire(blocks, sent)[..k] == [];
    } else {
      PrefixOfPacket(Body(blocks, sent), Sum(blocks[sent]), k);
      StartOfPacket(blocks, sent, heard, r, Body(blocks, sent)[..k - 1]);
    }
  }

  lemma GarbledBytes(blocks: seq<Block>, sent: nat, heard: bool, r: Receiver, body: seq<Byte>, sum: Byte, rest: seq<Byte>)
    requires r.phase.WaitForNewPacket? && |body| == RX_BUF_SIZE && (!Checks(body, sum) || OutOfSequence(r.expected, body[0]))
    ensures var line := Bytes([SOH] + body + [sum] + rest);
      && Sound(blocks, sent, heard, r, line) && Replies(r, line) == [] && After(r, line).phase.Purge?
  {
    var packet := [SOH] + body + [sum];
    WholePacket(blocks, sent, heard, r, body, sum);
    BytesAppend(packet, rest);
    RunSplit(r, Bytes(packet), Bytes(rest));
    SoundSplit(blocks, sent, heard, r, Bytes(packet), Bytes(rest));
    Purging(blocks, sent, heard, r.(phase := Purge), rest);
  }

  /** The line of a round: what the fault leaves of the packet, then at least two pauses. */
  function LineOf(blocks: seq<Block>, sent: nat, f: Fault, pauses: nat): seq<Event>
    requires sent <= |blocks| && (f.Cut? ==> f.length < |Wire(blocks, sent)|)
  {
    Bytes(Delivered(blocks, sent, f)) + Pauses(pauses)
  }

  /** A round with a real fault is sound, leaves the receiver waiting, and is acknowledged exactly when the line is intact. */
  lemma FaultRound(blocks: seq<Block>, sent: nat, heard: bool, r: Receiver, f: Fault, pauses: nat)
    requires sent <= |blocks| && Detectable(blocks, sent, r.expected, f) && pauses >= 2
    requires r.phase.WaitForNewPacket? && Near(blocks, sent, r)
    ensures var line := LineOf(blocks, sent, f, pauses);
      && Sound(blocks, sent, heard, r, line)
      && (ACK in Replies(r, line) <==> f.Intact?)
      && (if f.Intact? && sent == |blocks| then After(r, line).phase.Finished? else After(r, line).phase.WaitForNewPacket?)
  {
    var bs := Bytes(Delivered(blocks, sent, f));
    var r1 := After(r, bs);
    FaultBytes(blocks, sent, heard, r, f);
    RunSplit(r, bs, Pauses(pauses));
    SoundSplit(blocks, sent, heard, r, bs, Pauses(pauses));
    if r1.phase.Finished? {
      PausingFinished(blocks, sent, heard, r1, Pauses(pauses));
    } else {
      Pausing(blocks, sent, heard, r1, pauses);
    }
  }

  // -------------------------------------------------------------- delivery

  /** A round of a real line: its fault, how long it is silent afterwards, and whether the answer gets through. */
  datatype Trial = Trial(fault: Fault, pauses: nat, heard: bool)

  /** Every fault is one the receiver can detect, given where the sender then is. */
  predicate DetectableTrials(blocks: seq<Block>, s: System, ts: seq<Trial>)
    decreases |ts|
  {
    ts == [] ||
    (s.sent <= |blocks| && ts[0].pauses >= 2 && Detectable(blocks, s.sent, s.receiver.expected, ts[0].fault)
     && DetectableTrials(blocks, PlayTrial(blocks, s, ts[0]), ts[1..]))
  }

  function PlayTrial(blocks: seq<Block>, s: System, t: Trial): System
    requires s.sent <= |blocks| && Detectable(blocks, s.sent, s.receiver.expected, t.fault)
  {
    Play(blocks, s, Round(LineOf(blocks, s.sent, t.fault, t.pauses), t.heard))
  }

  function PlayTrials(blocks: seq<Block>, s: System, ts: seq<Trial>): System
    requires DetectableTrials(blocks, s, ts)
    decreases |ts|
  {
    if ts == [] then s else PlayTrials(blocks, PlayTrial(blocks, s, ts[0]), ts[1..])
  }

  /** Rounds in which packet and answer both get through. */
  function GoodRounds(ts: seq<Trial>): nat
    decreases |ts|
  {
    if ts == [] then 0
    else (if ts[0].fault.Intact? && ts[0].heard then 1 else 0) + GoodRounds(ts[1..])
  }

  /** The rounds still needed: one for each block to be acknowledged and one for the EOT. */
  function Remaining(blocks: seq<Block>, s: System): int {
    if s.receiver.phase.Finished? then 0 else |blocks| - s.sent + 1
  }

  ghost predicate Settled(blocks: seq<Block>, s: System) {
    && (exists n :: Synchronised(blocks, s, n))
    && (s.receiver.phase.WaitForNewPacket? || s.receiver.phase.Finished?)
  }

  lemma TrialFinished(blocks: seq<Block>, s: System, t: Trial)
    requires s.receiver.phase.Finished? && s.sent == |blocks| && Detectable(blocks, s.sent, s.receiver.expected, t.fault)
    ensures PlayTrial(blocks, s, t) == s
  {
    PausingFinished(blocks, s.sent, t.heard, s.receiver, LineOf(blocks, s.sent, t.fault, t.pauses));
  }

  lemma TrialWaiting(blocks: seq<Block>, s: System, n: nat, t: Trial)
    requires Synchronised(blocks, s, n) && s.receiver.phase.WaitForNewPacket?
    requires t.pauses >= 2 && Detectable(blocks, s.sent, s.receiver.expected, t.fault)
    ensures var s' := PlayTrial(blocks, s, t);
      && Settled(blocks, s')
      && s'.sent == (if t.heard && t.fault.Intact? && s.sent < |blocks| then s.sent + 1 else s.sent)
      && (t.fault.Intact? && s.sent == |blocks| <==> s'.receiver.phase.Finished?)
  {
    var line := LineOf(blocks, s.sent, t.fault, t.pauses);
    StoredAre(blocks, s, n);
    FaultRound(blocks, s.sent, t.heard, s.receiver, t.fault, t.pauses);
    var m := RoundSafe(blocks, s, n, Round(line, t.heard));
    assert Synchronised(blocks, PlayTrial(blocks, s, t), m);
  }

  lemma TrialProgress(blocks: seq<Block>, s: System, t: Trial)
    requires Settled(blocks, s)
    requires s.sent <= |blocks| && t.pauses >= 2 && Detectable(blocks, s.sent, s.receiver.expected, t.fault)
    ensures var s' := PlayTrial(blocks, s, t);
      && Settled(blocks, s')
      && Remaining(blocks, s') <= Remaining(blocks, s)
      && (t.fault.Intact? && t.heard && Remaining(blocks, s) > 0 ==> Remaining(blocks, s') < Remaining(blocks, s))
  {
    var n :| Synchronised(blocks, s, n);
    if s.receiver.phase.Finished? {
      TrialFinished(blocks, s, t);
    } else {
      TrialWaiting(blocks, s, n, t);
    }
  }

  /**
    Delivery: from a waiting receiver, any run of rounds with detectable faults
    in which packet and answer both get through once more often than there are
    blocks leaves the whole file in memory and the receiver finished. Rounds
    with faults in between only cost time.
   */
  lemma {:induction false} Delivers(blocks: seq<Block>, s: System, ts: seq<Trial>)
    requires Settled(blocks, s) && DetectableTrials(blocks, s, ts)
    requires GoodRounds(ts) >= Remaining(blocks, s)
    ensures var s' := PlayTrials(blocks, s, ts);
      s'.receiver.phase.Finished? && s'.receiver.mem == Concat(blocks)
    decreases |ts|
  {
    if ts == [] {
      var n :| Synchronised(blocks, s, n);
      assert blocks[..|blocks|] == blocks;
    } else {
      TrialProgress(blocks, s, ts[0]);
      Delivers(blocks, PlayTrial(blocks, s, ts[0]), ts[1..]);
    }
  }

  /** The first block has been asked for. */
  const READY := System(Receiver(WaitForNewPacket, 1, []), 0)

  /** Whatever is on the line at first, the first pause brings a NAK. */
  lemma FirstPause(blocks: seq<Block>, noise: seq<Byte>)
    ensures Replies(INITIAL, Bytes(noise) + [Timeout]) == [NAK]
    ensures Play(blocks, START, Round(Bytes(noise) + [Timeout], false)) == READY && Settled(blocks, READY)
  {
    SilentAtFirst(noise);
    assert blocks[..0] == [];
    assert Synchronised(blocks, READY, 0);
  }

  /** After power-up, any noise and one pause the receiver has asked for the first block, and delivery is under way. */
  lemma DeliversFromStart(blocks: seq<Block>, noise: seq<Byte>, ts: seq<Trial>)
    requires DetectableTrials(blocks, READY, ts) && GoodRounds(ts) > |blocks|
    ensures Replies(INITIAL, Bytes(noise) + [Timeout]) == [NAK]
    ensures Play(blocks, START, Round(Bytes(noise) + [Timeout], false)) == READY
    ensures var s := PlayTrials(blocks, READY, ts); s.receiver.phase.Finished? && s.receiver.mem == Concat(blocks)
  {
    FirstPause(blocks, noise);
    Delivers(blocks, READY, ts);
  }

  /** Everything the receiver sees during the trials. */
  function Trace(blocks: seq<Block>, s: System, ts: seq<Trial>): seq<Event>
    requires DetectableTrials(blocks, s, ts)
    decreases |ts|
  {
    if ts == [] then []
    else LineOf(blocks, s.sent, ts[0].fault, ts[0].pauses) + Trace(blocks, PlayTrial(blocks, s, ts[0]), ts[1..])
  }

  lemma {:induction false} TraceIsRun(blocks: seq<Block>, s: System, ts: seq<Trial>)
    requires DetectableTrials(blocks, s, ts)
    ensures After(s.receiver, Trace(blocks, s, ts)) == PlayTrials(blocks, s, ts).receiver
    decreases |ts|
  {
    if ts != [] {
      var line := LineOf(blocks, s.sent, ts[0].fault, ts[0].pauses);
      RunSplit(s.receiver, line, Trace(blocks, PlayTrial(blocks, s, ts[0]), ts[1..]));
      TraceIsRun(blocks, PlayTrial(blocks, s, ts[0]), ts[1..]);
    }
  }

  /** The program on such a line: it returns the length of the file, with the file at the start of memory. */
  method Download(blocks: seq<Block>, ghost noise: seq<Byte>, ghost ts: seq<Trial>, uart: Uart, pmem: array<Byte>)
    returns (result: Outcome)
    requires DetectableTrials(blocks, READY, ts) && GoodRounds(ts) > |blocks|
    requires uart.input == Bytes(noise) + [Timeout] + Trace(blocks, READY, ts)
    requires uart.pos == 0 && uart.output == [] && pmem.Length >= |uart.input|
    modifies uart, pmem
    ensures result == Returned(128 * |blocks|)
    ensures 128 * |blocks| <= pmem.Length && pmem[..128 * |blocks|] == Concat(blocks)
  {
    DeliversFromStart(blocks, noise, ts);
    TraceIsRun(blocks, READY, ts);
    RunSplit(INITIAL, Bytes(noise) + [Timeout], Trace(blocks, READY, ts));
    ConcatLength(blocks);
    result := XmodemLoad(uart, pmem);
  }

  /** A packet is given up, without an answer, if and only if it fails its checks or is out of sequence. */
  lemma GivenUpIff(r: Receiver, body: seq<Byte>, sum: Byte)
    requires r.phase.WaitForNewPacket? && |body| == RX_BUF_SIZE
    ensures var line := Bytes([SOH] + body + [sum]);
      && (After(r, line) == r.(phase := Purge) && Replies(r, line) == [] <==> !Checks(body, sum) || OutOfSequence(r.expected, body[0]))
      && (Replies(r, line) == [ACK] <==> Checks(body, sum) && !OutOfSequence(r.expected, body[0]))
  {
    var r1 := r.(phase := ReceivePacket(body));
    StartOfPacket([], 0, false, r, body);
    BytesAppend([SOH] + body, [sum]);
    RunSplit(r, Bytes([SOH] + body), Bytes([sum]));
    OneEvent([], 0, false, r1, Got(sum));
    assert Bytes([sum]) == [Got(sum)];
  }

  /** The hypothesis on the line is needed: one packet altered into another that checks out ends up in memory. */
  lemma UndetectedErrorIsStored(r: Receiver, wrong: Block)
    requires r.phase.WaitForNewPacket?
    ensures var line := Bytes([SOH] + ([r.expected, 255 - r.expected] + wrong) + [Sum(wrong)]);
      Replies(r, line) == [ACK] && After(r, line).mem == r.mem + wrong
  {
    var body := [r.expected, 255 - r.expected] + wrong;
    assert body[2..] == wrong;
    var r1 := r.(phase := ReceivePacket(body));
    StartOfPacket([], 0, false, r, body);
    BytesAppend([SOH] + body, [Sum(wrong)]);
    RunSplit(r, Bytes([SOH] + body), Bytes([Sum(wrong)]));
    OneEvent([], 0, false, r1, Got(Sum(wrong)));
    assert Bytes([Sum(wrong)]) == [Got(Sum(wrong))];
  }
}
