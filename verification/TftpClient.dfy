/** The client side of a transfer (udp/lib/Client.cpp; sections 4 and 6 of RFC 1350). */
module TftpClient {
  import opened Packets
  import opened TftpServer

  /** A datagram as the client receives it: the sender's port and what its bytes parse to. */
  datatype Arrival = Arrival(port: U16, body: ParseResult)

  datatype Outgoing = Outgoing(port: U16, packet: Packet)

  /** Running until the loop is left, normally or by an exception. */
  datatype Status = Running | Completed | Failed

  // ----- TClient::Read -----

  /** The locals of Read: blockID is a size_t, so it is not reduced modulo 65536. */
  datatype ReadClient = ReadClient(
    serverPort: U16, blockID: nat, output: string, sent: seq<Outgoing>, status: Status)

  function ReadStart(mainPort: U16, filename: string, mode: TransferMode): ReadClient {
    ReadClient(0, 1, "", [Outgoing(mainPort, Request(READ, filename, mode))], Running)
  }

  function ReadReceive(c: ReadClient, a: Arrival): (r: ReadClient)
    ensures c.sent <= r.sent
  {
    if !c.status.Running? then c
    else
      match a.body
      case Malformed(_, message) =>
        c.(sent := c.sent + [Outgoing(a.port, MakeError(ILLEGAL_OPCODE, message))], status := Failed)
      case Parsed(p) =>
        if c.serverPort != 0 && c.serverPort != a.port then
          c.(sent := c.sent + [Outgoing(a.port, MakeError(UNKNOWN_TRANSFER_ID, ""))])
        else
          ReadAccept(c.(serverPort := a.port), p)
  }

  /** A packet from the port that the client is locked onto. */
  function ReadAccept(c: ReadClient, p: Packet): ReadClient {
    match p
    case Error(_, _) => c.(status := Failed)
    case Request(_, _, _) => ReadRefuse(c)
    case Ack(_) => ReadRefuse(c)
    case Data(id, data) =>
      if id != c.blockID then c
      else
        ReadClient(c.serverPort, c.blockID + 1, c.output + data,
                   c.sent + [Outgoing(c.serverPort, Ack(c.blockID % 65536))],
                   if |data| < BLOCK then Completed else Running)
  }

  function ReadRefuse(c: ReadClient): ReadClient {
    c.(sent := c.sent + [Outgoing(c.serverPort, MakeError(ILLEGAL_OPCODE, ""))], status := Failed)
  }

  function ReadAll(c: ReadClient, arrivals: seq<Arrival>): ReadClient
    decreases |arrivals|
  {
    if arrivals == [] then c else ReadAll(ReadReceive(c, arrivals[0]), arrivals[1..])
  }

  /** What a poll that runs out of packets does to a client still in its loop. */
  function TimedOut(s: Status): Status { if s.Running? then Failed else s }

  /** Read against the datagrams that will arrive, in order; when they run out the poll times out. */
  method Read(mainPort: U16, filename: string, arrivals: seq<Arrival>) returns (c: ReadClient)
    ensures var end := ReadAll(ReadStart(mainPort, filename, OCTET), arrivals);
            c == end.(status := TimedOut(end.status))
    ensures c.status.Completed? || c.status.Failed?
  {
    var serverPort: U16 := 0;
    var end := false;
    var to := "";
    var sent := [Outgoing(mainPort, Request(READ, filename, OCTET))];
    var blockID: nat := 1;
    ghost var last := ReadAll(ReadStart(mainPort, filename, OCTET), arrivals);
    var i := 0;
    while !end
      invariant i <= |arrivals|
      invariant
        var now := ReadClient(serverPort, blockID, to, sent, if end then Completed else Running);
        ReadAll(now, arrivals[i..]) == last
      decreases |arrivals| - i, !end
    {
      if i == |arrivals| {
        return ReadClient(serverPort, blockID, to, sent, Failed);
      }
      var packet := arrivals[i];
      ghost var now := ReadClient(serverPort, blockID, to, sent, Running);
      assert arrivals[i..][1..] == arrivals[i + 1..];
      i := i + 1;
      if packet.body.Malformed? {
        sent := sent + [Outgoing(packet.port, MakeError(ILLEGAL_OPCODE, packet.body.message))];
        StoppedReading(ReadReceive(now, packet), arrivals[i..]);
        return ReadClient(serverPort, blockID, to, sent, Failed);
      }
      if serverPort == 0 {
        serverPort := packet.port;
      } else if serverPort != packet.port {
        sent := sent + [Outgoing(packet.port, MakeError(UNKNOWN_TRANSFER_ID, ""))];
        continue;
      }
      match packet.body.packet {
        case Error(_, _) =>
          StoppedReading(ReadReceive(now, packet), arrivals[i..]);
          return ReadClient(serverPort, blockID, to, sent, Failed);
        case Request(_, _, _) =>
          sent := sent + [Outgoing(serverPort, MakeError(ILLEGAL_OPCODE, ""))];
          StoppedReading(ReadReceive(now, packet), arrivals[i..]);
          return ReadClient(serverPort, blockID, to, sent, Failed);
        case Ack(_) =>
          sent := sent + [Outgoing(serverPort, MakeError(ILLEGAL_OPCODE, ""))];
          StoppedReading(ReadReceive(now, packet), arrivals[i..]);
          return ReadClient(serverPort, blockID, to, sent, Failed);
        case Data(id, data) =>
          if id != blockID {
            // Duplicate
            continue;
          }
          end := |data| < BLOCK;
          to := to + data;
          sent := sent + [Outgoing(serverPort, Ack(blockID % 65536))];
          blockID := blockID + 1;
      }
    }
    c := ReadClient(serverPort, blockID, to, sent, Completed);
    StoppedReading(c, arrivals[i..]);
  }

  /** A client that has left its loop takes no more packets. */
  lemma {:induction false} StoppedReading(c: ReadClient, arrivals: seq<Arrival>)
    requires !c.status.Running?
    ensures ReadAll(c, arrivals) == c
    decreases |arrivals|
  {
    if arrivals != [] {
      StoppedReading(c, arrivals[1..]);
    }
  }

  /** What ends a download too early, with error 4 to its sender where the packet is not an error itself,
      and what does not disturb it: other blocks, and other ports, which get error 5. */
  lemma ReadingStops(c: ReadClient, a: Arrival)
    requires c.status.Running?
    ensures var c' := ReadReceive(c, a);
      var here := c.serverPort == 0 || c.serverPort == a.port;
      && c'.output[..|c.output|] == c.output && c.sent <= c'.sent
      && (a.body.Malformed? ==>
            c' == c.(status := Failed, sent := c.sent + [Outgoing(a.port, MakeError(4, a.body.message))]))
      && (a.body.Parsed? && !here ==> c' == c.(sent := c.sent + [Outgoing(a.port, MakeError(5, ""))]))
      && (a.body.Parsed? && here ==>
            var locked := c.(serverPort := a.port);
            match a.body.packet
            case Error(_, _) => c' == locked.(status := Failed)
            case Data(id, _) => id != c.blockID ==> c' == locked
            case _ => c' == locked.(status := Failed, sent := c.sent + [Outgoing(a.port, MakeError(4, ""))]))
  {
    hide DefaultErrorMessage;
  }

  /** Whatever arrives, the size_t counter never passes 65536: no 16-bit number matches it there. */
  lemma {:induction false} ReadCounterBound(c: ReadClient, arrivals: seq<Arrival>)
    requires c.blockID <= 65536
    ensures ReadAll(c, arrivals).blockID <= 65536
    decreases |arrivals|
  {
    if arrivals != [] {
      ReadCounterBound(ReadReceive(c, arrivals[0]), arrivals[1..]);
    }
  }

  // ----- TClient::Write -----

  /** The locals of Write; waiting tells the first acknowledgement apart from the others. */
  datatype WriteClient = WriteClient(
    data: string, cursor: nat, end: bool, blockID: U16, transferID: U16, waiting: bool,
    sent: seq<Outgoing>, status: Status)

  predicate ValidWriter(c: WriteClient) { c.cursor <= |c.data| }

  function WriteStart(mainPort: U16, filename: string, mode: TransferMode, data: string): WriteClient {
    WriteClient(data, 0, false, 0, 0, true, [Outgoing(mainPort, Request(WRITE, filename, mode))], Running)
  }

  /** Read up to 512 bytes and send them; a short read sets the stream's eof flag. */
  function SendBlock(c: WriteClient): WriteClient
    requires ValidWriter(c)
  {
    var stop := if c.cursor + BLOCK < |c.data| then c.cursor + BLOCK else |c.data|;
    c.(cursor := stop, end := stop - c.cursor < BLOCK, waiting := false,
       sent := c.sent + [Outgoing(c.transferID, Data(c.blockID, c.data[c.cursor..stop]))])
  }

  function WriteFail(c: WriteClient, port: U16, message: string): WriteClient {
    c.(sent := c.sent + [Outgoing(port, MakeError(ILLEGAL_OPCODE, message))], status := Failed)
  }

  function WriteReceive(c: WriteClient, a: Arrival): (r: WriteClient)
    requires ValidWriter(c)
    ensures ValidWriter(r)
  {
    if !c.status.Running? then c
    else if c.waiting then
      match a.body
      case Malformed(_, message) => WriteFail(c, a.port, message)
      case Parsed(Error(_, _)) => c.(transferID := a.port, status := Failed)
      case Parsed(Request(_, _, _)) => WriteFail(c.(transferID := a.port), a.port, "")
      case Parsed(Data(_, _)) => WriteFail(c.(transferID := a.port), a.port, "")
      case Parsed(Ack(id)) =>
        if id != 0 then WriteFail(c.(transferID := a.port), a.port, "Unexpected BlockID")
        else SendBlock(c.(transferID := a.port, blockID := 1))
    else
      match a.body
      case Malformed(_, message) => WriteFail(c, c.transferID, message)
      case Parsed(Error(_, _)) => c.(status := Failed)
      case Parsed(Request(_, _, _)) => WriteFail(c, c.transferID, "")
      case Parsed(Data(_, _)) => WriteFail(c, c.transferID, "")
      case Parsed(Ack(id)) =>
        if id != c.blockID then c
        else AfterAck(c)
  }

  /** The outstanding block has been acknowledged: count on, and stop or send the next one. */
  function AfterAck(c: WriteClient): (r: WriteClient)
    requires ValidWriter(c)
    ensures ValidWriter(r)
  {
    var next := c.(blockID := (c.blockID + 1) % 65536);
    if c.end then next.(status := Completed) else SendBlock(next)
  }

  function WriteAll(c: WriteClient, arrivals: seq<Arrival>): WriteClient
    requires ValidWriter(c)
    decreases |arrivals|
  {
    if arrivals == [] then c else WriteAll(WriteReceive(c, arrivals[0]), arrivals[1..])
  }

  lemma {:induction false} StoppedWriting(c: WriteClient, arrivals: seq<Arrival>)
    requires ValidWriter(c) && !c.status.Running?
    ensures WriteAll(c, arrivals) == c
    decreases |arrivals|
  {
    if arrivals != [] {
      StoppedWriting(c, arrivals[1..]);
    }
  }

  lemma WriteNext(c: WriteClient, arrivals: seq<Arrival>, i: nat)
    requires ValidWriter(c) && i < |arrivals|
    ensures WriteAll(c, arrivals[i..]) == WriteAll(WriteReceive(c, arrivals[i]), arrivals[i + 1..])
  {
    assert arrivals[i..][1..] == arrivals[i + 1..];
  }

  lemma NoneLeft(c: WriteClient, arrivals: seq<Arrival>)
    requires ValidWriter(c)
    ensures WriteAll(c, arrivals[|arrivals|..]) == c
  {}

  /** What ends an upload too early: an error, and, with error 4, everything that is no acknowledgement
      and a first one that is not for block 0. Later ones for other blocks do not disturb it. */
  lemma WritingStops(c: WriteClient, a: Arrival)
    requires ValidWriter(c) && c.status.Running?
    ensures var c' := WriteReceive(c, a);
      var to := if c.waiting then a.port else c.transferID;
      match a.body
      case Malformed(_, message) =>
        c' == c.(status := Failed, sent := c.sent + [Outgoing(to, MakeError(4, message))])
      case Parsed(Error(_, _)) => c' == c.(transferID := to, status := Failed)
      case Parsed(Ack(id)) =>
        && (c.waiting && id != 0 ==>
              c' == c.(transferID := to, status := Failed,
                       sent := c.sent + [Outgoing(to, MakeError(4, "Unexpected BlockID"))]))
        && (!c.waiting && id != c.blockID ==> c' == c)
      case Parsed(_) =>
        c' == c.(transferID := to, status := Failed, sent := c.sent + [Outgoing(to, MakeError(4, ""))])
  {
    hide DefaultErrorMessage, SendBlock;
  }

  /** The wait for the first acknowledgement, which fixes the transfer identifier. */
  method AwaitFirstAck(c: WriteClient, ack: Arrival) returns (transferID: U16, sent: seq<Outgoing>, ok: bool)
    requires ValidWriter(c) && c.status.Running? && c.waiting
    ensures ok ==> WriteReceive(c, ack) == SendBlock(c.(transferID := transferID, sent := sent, blockID := 1))
    ensures !ok ==> WriteReceive(c, ack) == c.(transferID := transferID, sent := sent, status := Failed)
  {
    transferID, sent, ok := c.transferID, c.sent, false;
    if ack.body.Malformed? {
      sent := sent + [Outgoing(ack.port, MakeError(ILLEGAL_OPCODE, ack.body.message))];
      return;
    }
    transferID := ack.port;
    match ack.body.packet {
      case Error(_, _) =>
      case Request(_, _, _) =>
        sent := sent + [Outgoing(transferID, MakeError(ILLEGAL_OPCODE, ""))];
      case Data(_, _) =>
        sent := sent + [Outgoing(transferID, MakeError(ILLEGAL_OPCODE, ""))];
      case Ack(id) =>
        if id != 0 {
          sent := sent + [Outgoing(transferID, MakeError(ILLEGAL_OPCODE, "Unexpected BlockID"))];
        } else {
          ok := true;
        }
    }
  }

  /** The inner loop: wait until the outstanding block is acknowledged. The result r is where an
      exception leaves the client. */
  method AwaitAck(c: WriteClient, arrivals: seq<Arrival>, start: nat)
    returns (i: nat, receivedAck: bool, r: WriteClient)
    requires ValidWriter(c) && c.status.Running? && !c.waiting && start <= |arrivals|
    ensures start <= i <= |arrivals|
    ensures receivedAck ==> start < i && WriteAll(c, arrivals[start..]) == WriteAll(AfterAck(c), arrivals[i..])
    ensures !receivedAck ==>
      var end := WriteAll(c, arrivals[start..]);
      r == end.(status := TimedOut(end.status))
  {
    hide WriteAll, AfterAck;
    i, receivedAck, r := start, false, c;
    while !receivedAck
      invariant start <= i <= |arrivals| && (receivedAck ==> start < i)
      invariant WriteAll(c, arrivals[start..]) ==
                WriteAll(if receivedAck then AfterAck(c) else c, arrivals[i..])
      decreases |arrivals| - i, !receivedAck
    {
      if i == |arrivals| {
        NoneLeft(c, arrivals);
        return i, false, c.(status := Failed);
      }
      var ack := arrivals[i];
      WriteNext(c, arrivals, i);
      i := i + 1;
      var sent := c.sent;
      if ack.body.Malformed? {
        sent := sent + [Outgoing(c.transferID, MakeError(ILLEGAL_OPCODE, ack.body.message))];
        r := c.(sent := sent, status := Failed);
        StoppedWriting(r, arrivals[i..]);
        return;
      }
      match ack.body.packet {
        case Error(_, _) =>
          r := c.(status := Failed);
          StoppedWriting(r, arrivals[i..]);
          return;
        case Request(_, _, _) =>
          sent := sent + [Outgoing(c.transferID, MakeError(ILLEGAL_OPCODE, ""))];
          r := c.(sent := sent, status := Failed);
          StoppedWriting(r, arrivals[i..]);
          return;
        case Data(_, _) =>
          sent := sent + [Outgoing(c.transferID, MakeError(ILLEGAL_OPCODE, ""))];
          r := c.(sent := sent, status := Failed);
          StoppedWriting(r, arrivals[i..]);
          return;
        case Ack(id) =>
          receivedAck := true;
          if id != c.blockID {
            receivedAck := false;
          }
      }
    }
  }

  /** Write against the datagrams that will arrive, in order; when they run out the poll times out. */
  method Write(mainPort: U16, filename: string, data: string, arrivals: seq<Arrival>) returns (c: WriteClient)
    ensures var end := WriteAll(WriteStart(mainPort, filename, OCTET, data), arrivals);
            c == end.(status := TimedOut(end.status))
    ensures c.status.Completed? || c.status.Failed?
  {
    hide WriteAll, WriteReceive;
    c := WriteStart(mainPort, filename, OCTET, data);
    ghost var last := WriteAll(c, arrivals);
    assert arrivals[0..] == arrivals;
    if arrivals == [] {
      NoneLeft(c, arrivals);
      return c.(status := Failed);
    }
    WriteNext(c, arrivals, 0);
    var transferID, sent, ok := AwaitFirstAck(c, arrivals[0]);
    if !ok {
      c := c.(transferID := transferID, sent := sent, status := Failed);
      StoppedWriting(c, arrivals[1..]);
      return;
    }
    var i := 1;
    var cursor: nat := 0;
    var end := false;
    var blockID: U16 := 1;
    while !end
      invariant 1 <= i <= |arrivals| && cursor <= |data|
      invariant
        var now := WriteClient(data, cursor, end, blockID, transferID, false, sent, Running);
        last == WriteAll(if end then now.(status := Completed) else SendBlock(now), arrivals[i..])
      decreases |arrivals| - i, !end
    {
      var stop := if cursor + BLOCK < |data| then cursor + BLOCK else |data|;
      var block := data[cursor..stop];
      if |block| < BLOCK {
        end := true;
      }
      cursor := stop;
      sent := sent + [Outgoing(transferID, Data(blockID, block))];

      var receivedAck;
      c := WriteClient(data, cursor, end, blockID, transferID, false, sent, Running);
      i, receivedAck, c := AwaitAck(c, arrivals, i);
      if !receivedAck {
        return;
      }

      blockID := (blockID + 1) % 65536;
    }
    c := WriteClient(data, cursor, true, blockID, transferID, false, sent, Completed);
    StoppedWriting(c, arrivals[i..]);
  }
}
