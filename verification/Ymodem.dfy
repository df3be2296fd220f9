/**
 * Stage 1's YMODEM receiver (src/ymrecv.c): packets of 128 or 1024 bytes
 * regrouped into 4 KB blocks, block 0 written last of all.
 */
module Ymodem {
  import opened Limbs

  const BLOCK: nat := 4096                   // YMR_BLOCK
  const RETRIES: nat := 10

  const ERR_YMODEM_TRANSFER: int := -123
  const ERR_YMODEM_SOURCE: int := -124
  const NO_SENDER: int := 2

  /** What the line brings while data is awaited. A packet is one that read_packet takes. */
  datatype Event =
    | Eot
    | Cancel(confirmed: bool)
    | Quiet                                  // nothing in time, or a NAK
    | Noise
    | Damaged
    | Packet(blk: u8, data: Data)

  type Data = d: seq<u8> | |d| == 128 || |d| == 1024 witness seq(128, _ => 0)

  datatype Write = Write(block: nat, data: seq<u8>)

  /** What the receiver puts on the line. */
  datatype Reply = Crc | Ack | Nak | Can

  // ---- what a complete file's writes are ---------------------------------------------------

  /** Blocks 1 to n - 1 of a, in order. */
  function Written(a: seq<u8>, n: nat): seq<Write>
    requires n * BLOCK <= |a|
  {
    if n <= 1 then [] else Written(a, n - 1) + [Write(n - 1, a[(n - 1) * BLOCK..n * BLOCK])]
  }

  lemma {:induction false} WrittenSame(a: seq<u8>, b: seq<u8>, n: nat)
    requires n * BLOCK <= |a| <= |b| && a == b[..|a|]
    ensures Written(b, n) == Written(a, n)
  {
    if n <= 1 {
    } else {
      WrittenSame(a, b, n - 1);
      assert a[(n - 1) * BLOCK..n * BLOCK] == b[(n - 1) * BLOCK..n * BLOCK];
    }
  }

  /** A file all of whose blocks are written, each once, block 0 last. */
  function WholeFile(a: seq<u8>): seq<Write>
    requires |a| >= BLOCK && |a| % BLOCK == 0
  {
    Written(a, |a| / BLOCK) + [Write(0, a[..BLOCK])]
  }

  predicate NoBlock0(w: seq<Write>) {
    forall k :: 0 <= k < |w| ==> w[k].block != 0
  }

  lemma {:induction false} WrittenNoBlock0(a: seq<u8>, n: nat)
    requires n * BLOCK <= |a|
    ensures NoBlock0(Written(a, n))
  {
    if n <= 1 {
    } else {
      WrittenNoBlock0(a, n - 1);
    }
  }

  // ---- what the sender does -----------------------------------------------------------------

  function Join(packets: seq<seq<u8>>): seq<u8> {
    if packets == [] then [] else Join(packets[..|packets| - 1]) + packets[|packets| - 1]
  }

  /** The first n bytes, or all there are. */
  function UpTo(a: seq<u8>, n: nat): seq<u8> {
    if |a| <= n then a else a[..n]
  }

  /**
   * truth[k] is the true number of the packet that event k is (if it is one): it
   * repeats the one before or is the next, as many times as ACKs are lost. The
   * line shows only its low byte. Packet 0 is the header.
   */
  ghost predicate Faithful(input: seq<Event>, truth: seq<nat>, packets: seq<seq<u8>>, last: nat) {
    && |truth| == |input|
    && (input == [] ||
        (if input[0].Packet? then
           && (truth[0] == last || truth[0] == last + 1) && input[0].blk == truth[0] % 0x100
           && (truth[0] == 0 || (truth[0] <= |packets| && input[0].data == packets[truth[0] - 1]))
           && Faithful(input[1..], truth[1..], packets, truth[0])
         else Faithful(input[1..], truth[1..], packets, last)))
  }

  /**
   * The line brings every packet before the sender ends, which nobody cancels,
   * with fewer than ten faults in a row that bring nothing new.
   */
  ghost predicate Delivered(input: seq<Event>, truth: seq<nat>, packets: seq<seq<u8>>, length: nat, last: nat, faults: nat) {
    && |truth| == |input| > 0 && last <= |packets|
    && match input[0]
       case Eot => |Join(packets[..last])| >= length
       case Cancel(confirmed) => !confirmed && Delivered(input[1..], truth[1..], packets, length, last, faults)
       case Noise => Delivered(input[1..], truth[1..], packets, length, last, faults)
       case Quiet => faults + 1 < RETRIES && Delivered(input[1..], truth[1..], packets, length, last, faults + 1)
       case Damaged => faults + 1 < RETRIES && Delivered(input[1..], truth[1..], packets, length, last, faults + 1)
       case Packet(_, _) =>
         Delivered(input[1..], truth[1..], packets, length, truth[0], if truth[0] == last then faults else 0)
  }

  /** An undisturbed transfer from packet k on: each packet once, then the end. */
  function Clean(packets: seq<Data>, k: nat): seq<Event>
    requires k <= |packets|
    decreases |packets| - k
  {
    if k == |packets| then [Eot, Eot] else [Packet((k + 1) % 0x100, packets[k])] + Clean(packets, k + 1)
  }

  function Numbers(packets: seq<Data>, k: nat): seq<nat>
    requires k <= |packets|
    decreases |packets| - k
  {
    if k == |packets| then [0, 0] else [k + 1] + Numbers(packets, k + 1)
  }

  /** It is a faithful sender's, and delivers a file that its packets hold. */
  lemma {:induction false} CleanDelivers(packets: seq<Data>, k: nat, length: nat)
    requires k <= |packets| && length <= |Join(packets)|
    ensures Faithful(Clean(packets, k), Numbers(packets, k), packets, k)
    ensures Delivered(Clean(packets, k), Numbers(packets, k), packets, length, k, 0)
    decreases |packets| - k
  {
    if k < |packets| {
      CleanDelivers(packets, k + 1, length);
      assert Clean(packets, k)[1..] == Clean(packets, k + 1) && Numbers(packets, k)[1..] == Numbers(packets, k + 1);
    } else {
      assert packets[..k] == packets;
      assert Faithful([Eot], [0], packets, k) by { assert Faithful([], [], packets, k) && [Eot][1..] == [] && [0][1..] == []; }
      assert [Eot, Eot][1..] == [Eot] && [0, 0][1..] == [0];
    }
  }

  // ---- a sender that waits for its replies ----------------------------------------------------

  /** What an event that does not end the transfer is answered with. */
  function Answer(e: Event): seq<Reply> {
    match e
    case Packet(_, _) => [Ack]
    case Quiet => [Nak]
    case Damaged => [Nak]
    case _ => []
  }

  function Put(sent: seq<Reply>, r: Reply): seq<Reply> {
    sent + [r]
  }

  function Answers(es: seq<Event>): seq<Reply> {
    if es == [] then [] else Answers(es[..|es| - 1]) + Answer(es[|es| - 1])
  }

  /** The first n events; after the last of them the line is quiet. */
  function Brought(input: seq<Event>, n: nat): (es: seq<Event>)
    ensures |es| == n
  {
    seq(n, k requires 0 <= k < n => if k < |input| then input[k] else Quiet)
  }

  /** What becomes of a packet on the line, and whether the sender hears the answer. */
  datatype Fate = Lost | Broken | Arrived
  datatype Turn = Turn(fate: Fate, heard: bool)

  function Arrives(turn: Turn, header: Data, packets: seq<Data>, k: nat): Event
    requires k <= |packets|
  {
    match turn.fate
    case Lost => Quiet
    case Broken => Damaged
    case Arrived => Packet(k % 0x100, if k == 0 then header else packets[k - 1])
  }

  /** The packet sent after packet k: the next if an ACK of this one is heard, else the same again. */
  function NextSent(turn: Turn, e: Event, k: nat): nat {
    if turn.heard && Answer(e) == [Ack] then k + 1 else k
  }

  /** What the line brings from a sender about to send packet k (0 is the header), and which packets those are. */
  function Line(header: Data, packets: seq<Data>, turns: seq<Turn>, k: nat): (line: (seq<Event>, seq<nat>))
    requires k <= |packets| + 1
    ensures |line.0| == |line.1|
    decreases |turns|
  {
    if k > |packets| then ([Eot, Eot], [0, 0])
    else if turns == [] then ([], [])
    else
      var e := Arrives(turns[0], header, packets, k);
      var rest := Line(header, packets, turns[1..], NextSent(turns[0], e, k));
      ([e] + rest.0, [k] + rest.1)
  }

  /**
   * Whatever the line loses or damages, of the packets or of the answers, a sender
   * that goes on only when it hears an ACK is a faithful one.
   */
  lemma {:induction false} WaitingIsFaithful(header: Data, packets: seq<Data>, turns: seq<Turn>, k: nat, last: nat)
    requires (k == last || k == last + 1) && k <= |packets| + 1
    ensures Faithful(Line(header, packets, turns, k).0, Line(header, packets, turns, k).1, packets, last)
    decreases |turns|
  {
    var line := Line(header, packets, turns, k);
    if k > |packets| {
      EndIsFaithful(packets, last);
    } else if turns != [] {
      var e := Arrives(turns[0], header, packets, k);
      var next := NextSent(turns[0], e, k);
      var rest := Line(header, packets, turns[1..], next);
      assert line.0[1..] == rest.0 && line.1[1..] == rest.1;
      WaitingIsFaithful(header, packets, turns[1..], next, if e.Packet? then k else last);
    }
  }

  lemma {:induction false} EndIsFaithful(packets: seq<seq<u8>>, last: nat)
    ensures Faithful([Eot, Eot], [0, 0], packets, last)
  {
    assert [Eot, Eot][1..] == [Eot] && [0, 0][1..] == [0] && [Eot][1..] == [] && [0][1..] == [];
    assert Faithful([], [], packets, last) && Faithful([Eot], [0], packets, last);
  }

  /** Every packet gets through in these turns, with fewer than ten faults in a row that bring nothing new. */
  predicate GetsThrough(packets: nat, turns: seq<Turn>, k: nat, last: nat, faults: nat)
    decreases |turns|
  {
    if k > packets then true
    else if turns == [] then false
    else if turns[0].fate.Arrived? then
      GetsThrough(packets, turns[1..], if turns[0].heard then k + 1 else k, k, if k == last then faults else 0)
    else faults + 1 < RETRIES && GetsThrough(packets, turns[1..], k, last, faults + 1)
  }

  /** Then the line delivers the file. */
  lemma {:induction false} WaitingDelivers(header: Data, packets: seq<Data>, turns: seq<Turn>, k: nat, last: nat, length: nat, faults: nat)
    requires (k == last || k == last + 1) && k <= |packets| + 1 && last <= |packets| && length <= |Join(packets)|
    requires GetsThrough(|packets|, turns, k, last, faults)
    ensures Delivered(Line(header, packets, turns, k).0, Line(header, packets, turns, k).1, packets, length, last, faults)
    decreases |turns|
  {
    var line := Line(header, packets, turns, k);
    if k > |packets| {
      assert packets[..last] == packets;
    } else {
      var e := Arrives(turns[0], header, packets, k);
      var next := NextSent(turns[0], e, k);
      var rest := Line(header, packets, turns[1..], next);
      assert line.0[1..] == rest.0 && line.1[1..] == rest.1;
      if e.Packet? {
        WaitingDelivers(header, packets, turns[1..], next, k, length, if k == last then faults else 0);
      } else {
        WaitingDelivers(header, packets, turns[1..], next, last, length, faults + 1);
      }
    }
  }

  /** The file so far, when `got` packets of a faithful sender's have been taken. */
  ghost predicate Received(a: seq<u8>, packets: seq<seq<u8>>, taken: nat, length: nat) {
    taken <= |packets| && a == UpTo(Join(packets[..taken]), length)
  }

  lemma {:induction false} OneMorePacket(a: seq<u8>, packets: seq<seq<u8>>, taken: nat, length: nat)
    requires Received(a, packets, taken, length) && taken < |packets|
    ensures Received(UpTo(a + packets[taken], length), packets, taken + 1, length)
  {
    assert packets[..taken + 1][..taken] == packets[..taken];
    var j, d := Join(packets[..taken]), packets[taken];
    assert Join(packets[..taken + 1]) == j + d;
    if |j| > length {
      assert UpTo(j + d, length) == j[..length];
    }
  }

  /** What was received is the start of what was sent. */
  lemma {:induction false} StartOfAll(packets: seq<seq<u8>>, taken: nat)
    requires taken <= |packets|
    ensures Join(packets[..taken]) <= Join(packets)
  {
    if taken < |packets| {
      var less := packets[..|packets| - 1];
      StartOfAll(less, taken);
      assert less[..taken] == packets[..taken];
    } else {
      assert packets[..taken] == packets;
    }
  }

  // ---- the receiver -----------------------------------------------------------------------------

  class Receiver {
    const reliable: bool               // no write fails
    const blocks: nat                  // room
    const magic: seq<u8>               // what the file must start with
    const block0: array<u8>
    const work: array<u8>
    var input: seq<Event>
    var log: seq<Write>                // the writes that succeeded
    var replies: seq<Reply>            // what was put on the line

    ghost predicate Ready() {
      block0.Length == BLOCK && work.Length == BLOCK && block0 != work && |magic| <= 128
    }

    /** The buffers, when a has been received. */
    ghost predicate Holding(a: seq<u8>)
      reads block0, work
    {
      Ready() && Holds(block0[..], work[..], a)
    }

    method Next() returns (e: Event)
      modifies `input
      ensures old(input) == [] ==> e == Quiet && input == []
      ensures old(input) != [] ==> e == old(input)[0] && input == old(input)[1..]
    {
      if input == [] {
        return Quiet;
      }
      e, input := input[0], input[1..];
    }

    method WriteBlock(b: nat, buf: array<u8>) returns (err: int)
      modifies `log
      ensures log == if err == 0 then old(log) + [Write(b, buf[..])] else old(log)
      ensures reliable ==> err == 0
    {
      err := *;
      if reliable {
        err := 0;
      }
      if err == 0 {
        log := log + [Write(b, buf[..])];
      }
    }

    /** One byte of the file; a block but the first is written once whole. */
    method Take(x: u8, ghost a: seq<u8>, got: nat) returns (err: int)
      requires Holding(a) && got == |a|
      modifies block0, work, `log
      ensures err == 0 ==> Holding(a + [x])
      ensures reliable ==> err == 0
      ensures if err == 0 && got % BLOCK == BLOCK - 1 && got >= BLOCK
              then log == old(log) + [Write(got / BLOCK, (a + [x])[got / BLOCK * BLOCK..])] else log == old(log)
    {
      hide Holds;
      var b, at := got / BLOCK, got % BLOCK;
      NextByte(got);
      HoldsMore(block0[..], work[..], a, x);
      err := 0;
      if b == 0 {
        block0[at] := x;
      } else {
        work[at] := x;
      }
      assert Holds(block0[..], work[..], a + [x]);
      if at == BLOCK - 1 && b != 0 {
        LastOfBlock(old(block0[..]), old(work[..]), a, x);
        err := WriteBlock(b, work);
      }
    }

    /** The loop over a packet's bytes, up to the file's length. */
    method TakePacket(data: seq<u8>, length: nat, had: nat, ghost a: seq<u8>) returns (err: int, got: nat)
      requires Holding(a) && had == |a| <= length && log == Written(a, |a| / BLOCK)
      modifies block0, work, `log
      ensures NoBlock0(log)
      ensures err == 0 ==> Holding(UpTo(a + data, length)) && got == |UpTo(a + data, length)| <= length
      ensures err == 0 ==> log == Written(UpTo(a + data, length), got / BLOCK)
      ensures reliable ==> err == 0
    {
      hide Written, Holding;
      got := had;
      var i := 0;
      assert a + data[..0] == a;
      WrittenNoBlock0(a, |a| / BLOCK);
      err := 0;
      while i < |data| && got < length
        invariant 0 <= i <= |data| && got == |a| + i <= length && err == 0
        invariant Holding(a + data[..i]) && log == Written(a + data[..i], got / BLOCK) && NoBlock0(log)
      {
        ghost var now := a + data[..i];
        assert now + [data[i]] == a + data[..i + 1];
        err := Take(data[i], now, got);
        if err != 0 {
          return;
        }
        LogStep(now, data[i], got);
        i, got := i + 1, got + 1;
        WrittenNoBlock0(a + data[..i], got / BLOCK);
      }
      assert UpTo(a + data, length) == a + data[..i];
    }

    /** memcmp of block 0's buffer with the magic. */
    method StartsRight(ghost a: seq<u8>, got: nat) returns (b: bool)
      requires Holding(a) && got == |a| >= |magic|
      ensures b <==> magic <= a
    {
      b := block0[..|magic|] == magic;
      assert block0[..|magic|] == a[..|magic|] by {
        if |a| < BLOCK { assert block0[..|magic|] == block0[..|a|][..|magic|]; }
        else { assert block0[..|magic|] == block0[..][..|magic|]; }
      }
    }

    lemma {:induction false} StartHolding(length: nat)
      requires Ready() && log == [] && length >= BLOCK
      ensures Current([], 0, length, 0, 1)
    {}

    /**
     * ymr_receive, once packet 0 has said r and length. a is the file's bytes as
     * taken. A success has written it whole, block 0 last; a failure, whatever
     * else it wrote, not block 0. From a faithful sender they are its bytes,
     * and the transfer succeeds exactly when the line delivers the file.
     */
    method Receive(r: int, length: int, ghost truth: seq<nat>, ghost packets: seq<seq<u8>>)
      returns (err: int, size: nat, ghost a: seq<u8>)
      requires Ready() && log == []
      modifies block0, work, `log, `input, `replies
      ensures if err == 0
              then size == length == |a| > 0 && |a| % BLOCK == 0 && size / BLOCK <= blocks && magic <= a && log == WholeFile(a)
              else NoBlock0(log)
      ensures err != 0 ==> size == 0
      ensures if r == NO_SENDER || r == 0 then err == ERR_YMODEM_TRANSFER
              else if r < 0 then err == r
              else if length <= 0 || length % BLOCK != 0 || length / BLOCK > blocks then err == ERR_YMODEM_SOURCE
              else reliable ==> err == 0 || err == ERR_YMODEM_SOURCE || err == ERR_YMODEM_TRANSFER
      ensures err == 0 ==> old(replies) <= replies && Answered(old(input), replies[|old(replies)|..], 0)
      ensures err != 0 && r > 0 && r != NO_SENDER ==>
                || (replies != [] && replies[|replies| - 1] == Can)
                || (old(replies) <= replies && Answered(old(input), replies[|old(replies)|..], err))
      ensures err == 0 && Faithful(old(input), truth, packets, 0) ==> size <= |Join(packets)| && a == Join(packets)[..size]
      ensures reliable && Faithful(old(input), truth, packets, 0) ==>
                (err == 0 <==> r > 0 && r != NO_SENDER && length > 0 && length % BLOCK == 0 && length / BLOCK <= blocks
                               && Delivered(old(input), truth, packets, length, 0, 0) && magic <= Join(packets))
    {
      size, a := 0, [];
      if r == NO_SENDER || r == 0 {
        return ERR_YMODEM_TRANSFER, size, a;
      }
      if r < 0 {
        return r, size, a;
      }
      if length <= 0 || length % BLOCK != 0 || length / BLOCK > blocks {
        replies := replies + [Can];
        return ERR_YMODEM_SOURCE, size, a;
      }
      var sent;
      err, sent, a := ReceiveData(length, truth, packets);
      assert (replies + sent)[|replies|..] == sent;
      replies := replies + sent;
      if err != 0 {
        return;
      }
      WrittenNoBlock0(a, length / BLOCK);
      assert block0[..] == a[..BLOCK];
      err := WriteBlock(0, block0);
      if err == 0 {
        size := length;
      } else {
        replies := replies + [Can];
      }
    }

    /** The loop that takes the data. */
    method ReceiveData(length: nat, ghost truth: seq<nat>, ghost packets: seq<seq<u8>>)
      returns (err: int, sent: seq<Reply>, ghost a: seq<u8>)
      requires Ready() && log == [] && length > 0 && length % BLOCK == 0
      modifies block0, work, `log, `input
      ensures Answered(old(input), sent, err)
      ensures reliable ==> err == 0 || err == ERR_YMODEM_SOURCE || err == ERR_YMODEM_TRANSFER
      ensures NoBlock0(log)
      ensures err == 0 ==> Holding(a) && |a| == length && magic <= a && log == Written(a, length / BLOCK)
      ensures err == 0 && Faithful(old(input), truth, packets, 0) ==> length <= |Join(packets)| && a == Join(packets)[..length]
      ensures reliable && Faithful(old(input), truth, packets, 0) ==>
                (err == 0 <==> Delivered(old(input), truth, packets, length, 0, 0) && magic <= Join(packets))
    {
      hide Tracking, Faulty, Complete, Current, Written, Holding, UpTo, Join, NoBlock0, Faithful, Delivered, Received;
      hide AnsweredSoFar, AnsweredAfter, Answered, Heard, Answer, Answers, Brought, Put;
      a := [];
      ghost var rest, taken := truth, 0;
      ghost var faithful, delivered := Faithful(input, truth, packets, 0), Delivered(input, truth, packets, length, 0, 0);
      StartHolding(length);
      if faithful {
        StartTracking(input, truth, packets, length);
      }
      ghost var all := input;
      sent := [Crc];
      ghost var n := 0;
      var got: nat, expected: u8, errors := 0, 1, 0;
      NothingBrought(all);
      while true
        invariant Current(a, got, length, taken, expected) && errors < RETRIES
        invariant faithful ==> Tracking(input, rest, packets, taken, errors, length, a, delivered)
        invariant AnsweredSoFar(all, input, sent, n)
        decreases |input|, RETRIES - errors
      {
        ghost var was := input;
        var c := Next();
        ghost var t := taken;
        CurrentIs(a, got, length, taken, expected);
        if faithful {
          Track(was, rest, packets, taken, errors, length, a, delivered, magic);
          if was != [] {
            t, rest := rest[0], rest[1..];
          }
        }
        NowHeard(all, was, sent, n, c);
        ghost var left, said := input, sent;
        match c {
          case Eot =>
            if got < length {
              err, sent := ERR_YMODEM_SOURCE, Put(sent, Can);
              BrokenOff(all, left, said, n, c, sent, err);
              return;
            }
            sent := Put(sent, Nak);                    // once, then the ACK
            var again := Next();
            if again == Eot {
              sent := Put(sent, Ack);
            }
            EndAnswered(all, left, said, n, again, sent);
            return 0, sent, a;
          case Cancel(confirmed) =>
            if confirmed {
              BrokenOff(all, left, said, n, c, sent, ERR_YMODEM_TRANSFER);
              return ERR_YMODEM_TRANSFER, sent, a;
            }
            Unanswered(all, left, sent, n, c);
          case Noise =>
            Unanswered(all, left, sent, n, c);
          case Quiet | Damaged =>
            errors := errors + 1;
            if errors >= RETRIES {
              err, sent := ERR_YMODEM_SOURCE, Put(sent, Can);
              BrokenOff(all, left, said, n, c, sent, err);
              return;
            }
            sent := Put(sent, Nak);
            AnsweredNak(all, left, said, n, c);
          case Packet(blk, data) =>
            var awaited;
            err, got, awaited, a := OnPacket(blk, data, length, got, expected, taken, a);
            if err != 0 {
              sent := Put(sent, Can);
              BrokenOff(all, left, said, n, c, sent, err);
              return;
            }
            sent := Put(sent, Ack);
            AnsweredAck(all, left, said, n, c);
            if awaited {
              errors, expected, taken := 0, (expected + 1) % 0x100, taken + 1;
            }
        }
        n := n + 1;
      }
    }

    /** Between packets: what has been taken is in the buffers and in the blocks written. */
    ghost predicate Current(a: seq<u8>, got: nat, length: nat, taken: nat, expected: u8)
      reads `log, block0, work
    {
      && Ready() && Holding(a) && got == |a| <= length && BLOCK <= length && log == Written(a, got / BLOCK) && NoBlock0(log)
      && expected == (taken + 1) % 0x100 && (if taken == 0 then a == [] else magic <= a)
    }

    lemma {:induction false} CurrentIs(a: seq<u8>, got: nat, length: nat, taken: nat, expected: u8)
      requires Current(a, got, length, taken, expected)
      ensures got == |a| <= length && NoBlock0(log) && expected == (taken + 1) % 0x100
      ensures got == length ==> Holding(a) && magic <= a && log == Written(a, length / BLOCK)
    {}

    /** A packet's number: the last one's again, the one awaited, or out of order. */
    method OnPacket(blk: u8, data: Data, length: nat, had: nat, expected: u8, ghost taken: nat, ghost a: seq<u8>)
      returns (err: int, got: nat, awaited: bool, ghost a': seq<u8>)
      requires Current(a, had, length, taken, expected)
      modifies block0, work, `log
      ensures NoBlock0(log) && (awaited <==> blk == expected)
      ensures err == 0 ==> a' == if awaited then UpTo(a + data, length) else a
      ensures err == 0 ==> if awaited then Current(a', got, length, taken + 1, (expected + 1) % 0x100)
                           else blk == taken % 0x100 && Current(a', got, length, taken, expected)
      ensures blk == taken % 0x100 ==> err == 0
      ensures reliable && awaited ==> (err == 0 <==> (taken == 0 ==> magic <= UpTo(data, length)))
      ensures reliable ==> err == 0 || err == ERR_YMODEM_SOURCE
    {
      hide Written, Holding, UpTo, NoBlock0, Ready;
      err, got, awaited, a' := 0, had, false, a;
      NumberBefore(taken, expected);
      if blk != (expected + 0xFF) % 0x100 {
        awaited := blk == expected;
        if blk != expected {
          return ERR_YMODEM_SOURCE, got, awaited, a;
        }
        err, got, a' := Accept(data, length, had, expected == 1, taken, a);
      }
    }

    /** The packet awaited: its bytes taken, and the file's start checked with the first of them. */
    method Accept(data: Data, length: nat, had: nat, check: bool, ghost taken: nat, ghost a: seq<u8>)
      returns (err: int, got: nat, ghost a': seq<u8>)
      requires Ready() && Holding(a) && had == |a| <= length && log == Written(a, |a| / BLOCK) && length >= BLOCK
      requires if taken == 0 then a == [] && check else magic <= a
      modifies block0, work, `log
      ensures NoBlock0(log)
      ensures err == 0 ==> a' == UpTo(a + data, length) && Holding(a') && got == |a'| <= length
      ensures err == 0 ==> log == Written(a', got / BLOCK) && magic <= a'
      ensures reliable ==> (err == 0 <==> (taken == 0 ==> magic <= UpTo(data, length)))
      ensures reliable ==> err == 0 || err == ERR_YMODEM_SOURCE
    {
      hide Written, Holding;
      err, got := TakePacket(data, length, had, a);
      a' := UpTo(a + data, length);
      if err != 0 {
        return;
      }
      assert a <= a';
      assert taken == 0 ==> a + data == data;
      MagicStays(a, a', magic, taken);
      if check {
        var starts := StartsRight(a', got);
        if !starts {
          err := ERR_YMODEM_SOURCE;
        }
      }
    }
  }

  /** The events before number n, which ended the transfer, were answered one by one, and that one as it should be. */
  predicate AnsweredAfter(input: seq<Event>, sent: seq<Reply>, err: int, n: nat) {
    var es := Brought(input, n + 2);
    && (err == 0 ==> es[n].Eot?) && (es[n] == Cancel(true) ==> err == ERR_YMODEM_TRANSFER)
    && sent == [Crc] + Answers(Brought(input, n))
               + if err == 0 then (if es[n + 1].Eot? then [Nak, Ack] else [Nak])
                 else if es[n] == Cancel(true) then [] else [Can]
  }

  ghost predicate Answered(input: seq<Event>, sent: seq<Reply>, err: int) {
    exists n: nat :: AnsweredAfter(input, sent, err, n)
  }

  predicate AnsweredSoFar(input: seq<Event>, left: seq<Event>, sent: seq<Reply>, n: nat) {
    && left == (if n <= |input| then input[n..] else [])
    && sent == [Crc] + Answers(Brought(input, n))
  }

  lemma {:induction false} NothingBrought(input: seq<Event>)
    ensures AnsweredSoFar(input, input, [Crc], 0)
  {}

  /** Event n is c, and is not answered yet. */
  predicate Heard(input: seq<Event>, left: seq<Event>, sent: seq<Reply>, n: nat, c: Event) {
    && left == (if n + 1 <= |input| then input[n + 1..] else [])
    && sent == [Crc] + Answers(Brought(input, n)) && c == if n < |input| then input[n] else Quiet
  }

  lemma {:induction false} NowHeard(input: seq<Event>, was: seq<Event>, sent: seq<Reply>, n: nat, c: Event)
    requires AnsweredSoFar(input, was, sent, n) && c == if was == [] then Quiet else was[0]
    ensures Heard(input, if was == [] then [] else was[1..], sent, n, c)
  {}

  lemma {:induction false} OneAnswered(input: seq<Event>, left: seq<Event>, sent: seq<Reply>, n: nat, c: Event)
    requires Heard(input, left, sent, n, c)
    ensures AnsweredSoFar(input, left, sent + Answer(c), n + 1)
  {
    assert Brought(input, n + 1)[..n] == Brought(input, n);
    assert Answers(Brought(input, n + 1)) == Answers(Brought(input, n)) + Answer(c);
  }

  lemma {:induction false} AnsweredAck(input: seq<Event>, left: seq<Event>, sent: seq<Reply>, n: nat, c: Event)
    requires Heard(input, left, sent, n, c) && c.Packet?
    ensures AnsweredSoFar(input, left, Put(sent, Ack), n + 1)
  {
    OneAnswered(input, left, sent, n, c);
  }

  lemma {:induction false} AnsweredNak(input: seq<Event>, left: seq<Event>, sent: seq<Reply>, n: nat, c: Event)
    requires Heard(input, left, sent, n, c) && (c.Quiet? || c.Damaged?)
    ensures AnsweredSoFar(input, left, Put(sent, Nak), n + 1)
  {
    OneAnswered(input, left, sent, n, c);
  }

  lemma {:induction false} Unanswered(input: seq<Event>, left: seq<Event>, sent: seq<Reply>, n: nat, c: Event)
    requires Heard(input, left, sent, n, c) && (c.Noise? || c.Cancel?)
    ensures AnsweredSoFar(input, left, sent, n + 1)
  {
    OneAnswered(input, left, sent, n, c);
    assert sent + [] == sent;
  }

  lemma {:induction false} BrokenOff(input: seq<Event>, left: seq<Event>, sent: seq<Reply>, n: nat, c: Event, more: seq<Reply>, err: int)
    requires Heard(input, left, sent, n, c) && err != 0 && (c == Cancel(true) ==> err == ERR_YMODEM_TRANSFER)
    requires more == if c == Cancel(true) then sent else Put(sent, Can)
    ensures Answered(input, more, err)
  {
    assert sent + [] == sent;
    assert AnsweredAfter(input, more, err, n);
  }

  lemma {:induction false} EndAnswered(input: seq<Event>, left: seq<Event>, sent: seq<Reply>, n: nat, again: Event, more: seq<Reply>)
    requires Heard(input, left, sent, n, Eot) && again == if left == [] then Quiet else left[0]
    requires more == if again == Eot then Put(Put(sent, Nak), Ack) else Put(sent, Nak)
    ensures Answered(input, more, 0)
  {
    assert sent + [Nak, Ack] == sent + [Nak] + [Ack];
    assert AnsweredAfter(input, more, 0, n);
  }

  lemma {:induction false} NumberBefore(taken: nat, expected: u8)
    requires expected == (taken + 1) % 0x100
    ensures (expected + 0xFF) % 0x100 == taken % 0x100 && expected != taken % 0x100
    ensures (expected + 1) % 0x100 == (taken + 2) % 0x100
    ensures expected == 1 <==> taken % 0x100 == 0
  {}

  /** Later packets only add to what starts as it should. */
  lemma {:induction false} MagicStays(before: seq<u8>, a: seq<u8>, magic: seq<u8>, taken: nat)
    requires before <= a
    ensures taken > 0 && magic <= before ==> magic <= a
  {}

  /** Where a faithful sender is, and whether what is to come delivers the file. */
  ghost predicate Tracking(input: seq<Event>, truth: seq<nat>, packets: seq<seq<u8>>, taken: nat, errors: nat,
                           length: nat, a: seq<u8>, delivered: bool) {
    && Faithful(input, truth, packets, taken) && Received(a, packets, taken, length)
    && (delivered <==> Delivered(input, truth, packets, length, taken, errors))
  }

  lemma {:induction false} StartTracking(input: seq<Event>, truth: seq<nat>, packets: seq<seq<u8>>, length: nat)
    requires Faithful(input, truth, packets, 0)
    ensures Tracking(input, truth, packets, 0, 0, length, [], Delivered(input, truth, packets, length, 0, 0))
  {}

  /** What an event of a faithful sender's means for what is to come. */
  lemma {:induction false} Track(input: seq<Event>, truth: seq<nat>, packets: seq<seq<u8>>, taken: nat, errors: nat,
                                 length: nat, a: seq<u8>, delivered: bool, magic: seq<u8>)
    requires Tracking(input, truth, packets, taken, errors, length, a, delivered) && |magic| <= 128 <= length
    ensures |truth| == |input| && taken <= |packets|
    ensures input == [] ==> Faulty([], truth, packets, taken, errors, length, a, delivered)
    ensures input != [] ==>
              match input[0]
              case Eot => (delivered <==> |a| >= length) && (|a| == length ==> Complete(packets, length, a, magic))
              case Cancel(confirmed) =>
                if confirmed then !delivered else Tracking(input[1..], truth[1..], packets, taken, errors, length, a, delivered)
              case Noise => Tracking(input[1..], truth[1..], packets, taken, errors, length, a, delivered)
              case Quiet => Faulty(input[1..], truth[1..], packets, taken, errors, length, a, delivered)
              case Damaged => Faulty(input[1..], truth[1..], packets, taken, errors, length, a, delivered)
              case Packet(blk, data) =>
                if truth[0] == taken then
                  blk == taken % 0x100 && Tracking(input[1..], truth[1..], packets, taken, errors, length, a, delivered)
                else
                  && blk == (taken + 1) % 0x100
                  && (taken == 0 ==> (magic <= Join(packets) <==> magic <= UpTo(data, length)))
                  && Tracking(input[1..], truth[1..], packets, taken + 1, 0, length, UpTo(a + data, length), delivered)
  {
    StartOfAll(packets, taken);
    if input != [] && input[0].Packet? && truth[0] == taken + 1 {
      OneMorePacket(a, packets, taken, length);
      if taken == 0 { FirstPacket(packets, magic, length); }
    }
  }

  ghost predicate Faulty(input: seq<Event>, truth: seq<nat>, packets: seq<seq<u8>>, taken: nat, errors: nat,
                         length: nat, a: seq<u8>, delivered: bool) {
    if errors + 1 < RETRIES then Tracking(input, truth, packets, taken, errors + 1, length, a, delivered) else !delivered
  }

  ghost predicate Complete(packets: seq<seq<u8>>, length: nat, a: seq<u8>, magic: seq<u8>) {
    length <= |Join(packets)| && a == Join(packets)[..length] && (magic <= a ==> magic <= Join(packets))
  }

  lemma {:induction false} FirstPacket(packets: seq<seq<u8>>, magic: seq<u8>, length: nat)
    requires |packets| > 0 && |magic| <= |packets[0]| && |magic| <= length
    ensures magic <= Join(packets) <==> magic <= UpTo(packets[0], length)
  {
    StartOfAll(packets, 1);
    assert packets[..1][..0] == [] && Join(packets[..1]) == [] + packets[0] == packets[0];
    assert packets[0] == Join(packets)[..|packets[0]|];
  }

  /** What the two buffers hold when a has been received. */
  predicate Holds(b0: seq<u8>, w: seq<u8>, a: seq<u8>) {
    && |b0| == |w| == BLOCK
    && (if |a| < BLOCK then b0[..|a|] == a else b0 == a[..BLOCK])
    && (|a| >= BLOCK ==> w[..|a| % BLOCK] == a[|a| / BLOCK * BLOCK..])
  }

  lemma {:induction false} HoldsMore(b0: seq<u8>, w: seq<u8>, a: seq<u8>, x: u8)
    requires Holds(b0, w, a)
    ensures if |a| < BLOCK then Holds(b0[|a| % BLOCK := x], w, a + [x]) else Holds(b0, w[|a| % BLOCK := x], a + [x])
  {
    var got, at, a' := |a|, |a| % BLOCK, a + [x];
    NextByte(got);
    if got < BLOCK {
      assert b0[at := x][..at + 1] == a';
    } else {
      assert w[at := x][..at + 1] == a[got / BLOCK * BLOCK..] + [x] == a'[got / BLOCK * BLOCK..];
      assert a'[..BLOCK] == a[..BLOCK];
    }
  }

  lemma {:induction false} LastOfBlock(b0: seq<u8>, w: seq<u8>, a: seq<u8>, x: u8)
    requires Holds(b0, w, a) && |a| >= BLOCK && |a| % BLOCK == BLOCK - 1
    ensures w[BLOCK - 1 := x] == (a + [x])[|a| / BLOCK * BLOCK..]
  {
    assert w[BLOCK - 1 := x] == w[..BLOCK - 1] + [x];
  }

  lemma {:induction false} NextByte(got: nat)
    ensures if got % BLOCK == BLOCK - 1 then (got + 1) / BLOCK == got / BLOCK + 1 && (got + 1) % BLOCK == 0
            else (got + 1) / BLOCK == got / BLOCK && (got + 1) % BLOCK == got % BLOCK + 1
    ensures got == got / BLOCK * BLOCK + got % BLOCK
  {}

  /** A block is added to what is written when its last byte comes. */
  lemma {:induction false} LogStep(a: seq<u8>, x: u8, got: nat)
    requires got == |a|
    ensures Written(a + [x], (got + 1) / BLOCK) ==
            if got % BLOCK == BLOCK - 1 && got >= BLOCK
            then Written(a, got / BLOCK) + [Write(got / BLOCK, (a + [x])[got / BLOCK * BLOCK..])]
            else Written(a, got / BLOCK)
  {
    NextByte(got);
    var b := got / BLOCK;
    WrittenSame(a, a + [x], b);
    if got % BLOCK == BLOCK - 1 {
      assert (a + [x])[b * BLOCK..(b + 1) * BLOCK] == (a + [x])[b * BLOCK..];
    }
  }
}
