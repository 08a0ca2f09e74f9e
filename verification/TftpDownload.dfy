/** A download as a two-party protocol: one client in TClient::Read, any number of server sessions
    opened by copies of its request, and a network that loses, duplicates and reorders. */
module TftpDownload {
  import opened Common
  import opened Packets
  import opened TftpServer
  import opened TftpClient
  import opened TftpFraming
  import opened TftpNetwork
  import NetAscii

  datatype Params = Params(wire: Wire, mainPort: U16, filename: string, mode: TransferMode, files: Files)

  function TheRequest(p: Params): Packet { Request(READ, p.filename, p.mode) }

  /** The request reaches the server as it was sent. */
  predicate ValidParams(p: Params) {
    p.mainPort != 0 && RequestFits(p.wire, TheRequest(p))
  }

  /** What the transfer is about: the file, encoded in netascii mode. */
  function Target(p: Params): string { Payload(p.mode, FileOrEmpty(p.files, p.filename)) }

  function Blocks(p: Params): nat { TotalBlocks(p.mode, Target(p)) }

  /** A session on its own port, with every packet it ever sent. */
  datatype Conn = Conn(session: ReadSession, alive: bool, outbox: seq<Packet>)

  datatype State = State(client: ReadClient, conns: map<U16, Conn>)

  datatype Step =
    | Open(port: U16)                 // a copy of the request arrives; the server picks a port not bound before
    | ToClient(port: U16, index: nat) // a copy of a packet of that session arrives
    | ToServer(index: nat)            // a copy of a packet of the client arrives at its addressee
    | SessionTimeout(port: U16)
    | ClientTimeout

  predicate ValidState(s: State) {
    && s.client.sent != []
    && forall port :: port in s.conns ==> ValidSource(s.conns[port].session.source)
  }

  function Start(p: Params): State {
    State(ReadStart(p.mainPort, p.filename, p.mode), map[])
  }

  function OutOf(sent: Option<Packet>): seq<Packet> {
    if sent.Some? then [sent.value] else []
  }

  function Opened(p: Params): (c: Conn)
    ensures ValidSource(c.session.source)
  {
    match Arrives(p.wire, TheRequest(p))
    case Parsed(Request(READ, filename, mode)) =>
      var r := ReadHandle(p.files, OpenRead(mode, FileOrEmpty(p.files, filename)), Request(READ, filename, mode));
      Conn(r.session, r.alive, OutOf(r.sent))
    case _ => Conn(OpenRead(p.mode, ""), false, [])
  }

  function Answered(p: Params, c: Conn, packet: Packet): (c': Conn)
    requires ValidSource(c.session.source)
    ensures ValidSource(c'.session.source)
  {
    hide Arrives, ReadHandlePacket;
    if !c.alive then c
    else
      var r := ReadHandlePacket(p.files, c.session, Arrives(p.wire, packet));
      Conn(r.session, r.alive, c.outbox + OutOf(r.sent))
  }

  /** A step that is not possible changes nothing. */
  function Apply(p: Params, s: State, step: Step): (s': State)
    requires ValidState(s)
    ensures ValidState(s')
  {
    hide Arrives, ReadReceive, Opened, Answered;
    match step
    case Open(port) =>
      if port == 0 || port == p.mainPort || port in s.conns then s
      else s.(conns := s.conns[port := Opened(p)])
    case ToClient(port, i) =>
      if port in s.conns && i < |s.conns[port].outbox| then
        s.(client := ReadReceive(s.client, Arrival(port, Arrives(p.wire, s.conns[port].outbox[i]))))
      else s
    case ToServer(i) =>
      if i < |s.client.sent| && s.client.sent[i].port in s.conns then
        var o := s.client.sent[i];
        s.(conns := s.conns[o.port := Answered(p, s.conns[o.port], o.packet)])
      else s
    case SessionTimeout(port) =>
      if port in s.conns then s.(conns := s.conns[port := s.conns[port].(alive := false)]) else s
    case ClientTimeout => s.(client := s.client.(status := TimedOut(s.client.status)))
  }

  function Run(p: Params, steps: seq<Step>): (s: State)
    ensures ValidState(s)
  {
    if steps == [] then Start(p)
    else Apply(p, Run(p, steps[..|steps| - 1]), steps[|steps| - 1])
  }

  // ----- the invariant -----

  /** Data packet number k, counted from 1: on the wire only its number modulo 65536 is left. */
  function DataPacket(p: Params, k: nat): Packet
    requires k >= 1
  {
    Data(k % 65536, BlockAt(Target(p), k))
  }

  function SessionAt(p: Params, n: nat): ReadSession {
    ReadSession(SourceAt(p.mode, Target(p), n), n % 65536)
  }

  /** A session has sent blocks 1 to n, each once, and while alive its fields say so. */
  predicate ConnInv(p: Params, c: Conn) {
    if p.filename !in p.files then
      !c.alive && forall i :: 0 <= i < |c.outbox| ==> c.outbox[i] == MakeError(FILE_NOT_FOUND, "")
    else
      && |c.outbox| <= Blocks(p)
      && (forall i :: 0 <= i < |c.outbox| ==> c.outbox[i] == DataPacket(p, i + 1))
      && (c.alive ==> |c.outbox| >= 1 && c.session == SessionAt(p, |c.outbox|))
  }

  /** The client acknowledges only blocks it has, and only to the port it is locked onto. */
  predicate SentInv(c: ReadClient, o: Outgoing) {
    match o.packet
    case Ack(id) => c.serverPort != 0 && o.port == c.serverPort && 1 <= id < c.blockID
    case _ => o.packet == MakeError(UNKNOWN_TRANSFER_ID, "")
  }

  function AckCount(sent: seq<Outgoing>): nat {
    if sent == [] then 0
    else AckCount(sent[..|sent| - 1]) + (if sent[|sent| - 1].packet.Ack? then 1 else 0)
  }

  predicate ClientInv(p: Params, c: ReadClient) {
    && 1 <= c.blockID <= Limit(p.wire) + 1
    && c.output == Cut(Target(p), c.blockID - 1)
    && (c.serverPort == 0 ==> c.blockID == 1)
    && c.sent != [] && c.sent[0] == Outgoing(p.mainPort, TheRequest(p))
    && (forall i :: 1 <= i < |c.sent| ==> SentInv(c, c.sent[i]))
    && AckCount(c.sent) == c.blockID - 1
    && (c.status.Running? && p.filename in p.files && EndsShort(p.mode, Target(p)) ==> c.blockID <= Blocks(p))
    && (c.status.Completed? ==>
          && p.filename in p.files && EndsShort(p.mode, Target(p))
          && c.blockID - 1 == Blocks(p) && c.output == Target(p))
  }

  /** The locked session is at the client's block or one behind; the others have sent one block. */
  predicate PortInv(s: State, port: U16)
    requires port in s.conns
  {
    var n := |s.conns[port].outbox|;
    if port == s.client.serverPort then s.client.blockID - 1 <= n <= s.client.blockID else n <= 1
  }

  predicate Inv(p: Params, s: State) {
    && ValidState(s)
    && ClientInv(p, s.client)
    && 0 !in s.conns && p.mainPort !in s.conns
    && (s.client.serverPort != 0 ==> s.client.serverPort in s.conns)
    && forall port :: port in s.conns ==> ConnInv(p, s.conns[port]) && PortInv(s, port)
  }

  lemma OpenedInv(p: Params)
    requires ValidParams(p)
    ensures ConnInv(p, Opened(p)) && |Opened(p).outbox| <= 1
    ensures p.filename in p.files && Blocks(p) >= 1 ==>
      Opened(p) == Conn(SessionAt(p, 1), true, [DataPacket(p, 1)])
  {
    hide Arrives, ReadAdvance, BlockAt, SourceAt, TotalBlocks, Payload;
    RequestArrives(p.wire, TheRequest(p));
    if p.filename in p.files {
      FirstBlock(p);
    }
  }

  lemma FirstBlock(p: Params)
    requires p.filename in p.files
    ensures var r := ReadAdvance(OpenRead(p.mode, p.files[p.filename]), 0);
      if Blocks(p) == 0 then !r.alive && r.sent == None
      else r == ReadReply(SessionAt(p, 1), true, Some(DataPacket(p, 1)))
  {
    var x := Target(p);
    assert OpenRead(p.mode, p.files[p.filename]).source == SourceAt(p.mode, x, 0);
    SourceSteps(p.mode, x, 0);
  }

  /** An acknowledgement makes a session send its next block exactly when it names the last one. */
  lemma AckAnswered(p: Params, c: Conn, id: U16, next: nat)
    requires p.filename in p.files && ConnInv(p, c) && ValidSource(c.session.source)
    requires 1 <= id < next <= Limit(p.wire) + 1 && |c.outbox| <= next
    ensures var c' := Answered(p, c, Ack(id));
      && ConnInv(p, c') && |c.outbox| <= |c'.outbox| <= next
      && (c.alive && id == |c.outbox| ==>
            c' == if id < Blocks(p) then Conn(SessionAt(p, id + 1), true, c.outbox + [DataPacket(p, id + 1)])
                  else Conn(c.session.(blockID := (id + 1) % 65536), false, c.outbox))
  {
    hide Arrives, BlockAt, SourceAt, TotalBlocks, Payload, NextBlock, OnWire, AtEof;
    AckArrives(p.wire, id);
    LimitIsSharp(p.wire, id);
    if c.alive {
      SourceSteps(p.mode, Target(p), |c.outbox|);
    }
  }

  lemma ErrorAnswered(p: Params, c: Conn)
    requires ConnInv(p, c) && ValidSource(c.session.source)
    ensures var c' := Answered(p, c, MakeError(UNKNOWN_TRANSFER_ID, ""));
      ConnInv(p, c') && c'.outbox == c.outbox
  {
    hide Arrives;
    ErrorArrives(p.wire, UNKNOWN_TRANSFER_ID);
  }

  lemma ToServerInv(p: Params, s: State, i: nat)
    requires Inv(p, s)
    ensures Inv(p, Apply(p, s, ToServer(i)))
  {
    hide Arrives;
    var c := s.client;
    if i < |c.sent| && c.sent[i].port in s.conns {
      var o := c.sent[i];
      assert i != 0;
      assert SentInv(c, o);
      if o.packet.Ack? {
        if p.filename in p.files {
          AckAnswered(p, s.conns[o.port], o.packet.blockID, c.blockID);
        }
      } else {
        ErrorAnswered(p, s.conns[o.port]);
      }
    }
  }

  lemma AckCountSnoc(sent: seq<Outgoing>, o: Outgoing)
    ensures AckCount(sent + [o]) == AckCount(sent) + (if o.packet.Ack? then 1 else 0)
  {
    assert (sent + [o])[..|sent|] == sent;
  }

  /** The block that the client accepts is the one it waits for. */
  lemma DataAccepted(p: Params, c: Conn, b: nat, i: nat)
    requires p.filename in p.files && ConnInv(p, c)
    requires i < |c.outbox| <= b && 1 <= b <= Limit(p.wire) + 1
    ensures var r := Arrives(p.wire, c.outbox[i]);
      && r.Parsed? && r.packet.Data?
      && (r.packet.blockID as int == b ==>
            b <= Limit(p.wire) && i + 1 == b && r.packet.data == BlockAt(Target(p), b))
      && (i + 1 == b <= Limit(p.wire) ==> r.packet.blockID as int == b)
  {
    hide Arrives, BlockAt, TotalBlocks, Target, EndsShort, OnWire, Cut;
    var k := i + 1;
    ShortBlock(p.mode, Target(p), k);
    DataArrives(p.wire, k % 65536, BlockAt(Target(p), k));
    LimitIsSharp(p.wire, k % 65536);
  }

  /** Appending to what was sent keeps the older entries right. */
  lemma SentGrows(p: Params, c: ReadClient, c': ReadClient)
    requires ClientInv(p, c) && c.blockID <= c'.blockID
    requires c.serverPort == 0 || c'.serverPort == c.serverPort
    requires c'.sent == c.sent || (|c'.sent| == |c.sent| + 1 && c'.sent[..|c.sent|] == c.sent
                                   && SentInv(c', c'.sent[|c.sent|]))
    ensures c'.sent[0] == c.sent[0] && forall i :: 1 <= i < |c'.sent| ==> SentInv(c', c'.sent[i])
    ensures AckCount(c'.sent) == AckCount(c.sent) +
              (if c'.sent != c.sent && c'.sent[|c.sent|].packet.Ack? then 1 else 0)
  {
    forall i | 1 <= i < |c'.sent| ensures SentInv(c', c'.sent[i]) {
      if i < |c.sent| {
        assert c'.sent[i] == c.sent[i];
        assert SentInv(c, c.sent[i]);
      }
    }
    if c'.sent != c.sent {
      assert c'.sent == c.sent + [c'.sent[|c.sent|]];
      AckCountSnoc(c.sent, c'.sent[|c.sent|]);
    }
  }

  lemma BlockAccepted(p: Params, c: ReadClient, data: string)
    requires ClientInv(p, c) && c.status.Running? && c.serverPort != 0
    requires p.filename in p.files && c.blockID <= Blocks(p) && c.blockID <= Limit(p.wire)
    requires data == BlockAt(Target(p), c.blockID)
    ensures var c' := ReadAccept(c, Data(c.blockID, data));
      && ClientInv(p, c') && c'.blockID == c.blockID + 1 && c'.serverPort == c.serverPort
      && c'.sent == c.sent + [Outgoing(c.serverPort, Ack(c.blockID))]
      && (c'.status == if c.blockID == Blocks(p) && EndsShort(p.mode, Target(p)) then Completed else Running)
  {
    hide Arrives, BlockAt, Cut, TotalBlocks, EndsShort, AckCount, Target;
    var c' := ReadAccept(c, Data(c.blockID, data));
    assert c'.sent[..|c.sent|] == c.sent;
    SentGrows(p, c, c');
    CutExtends(Target(p), c.blockID);
    ShortBlock(p.mode, Target(p), c.blockID);
  }

  /** A packet from another port is refused and changes nothing else. */
  lemma ReceiveForeign(p: Params, c: ReadClient, port: U16, packet: Packet)
    requires ClientInv(p, c) && c.status.Running? && c.serverPort != 0 && c.serverPort != port
    ensures var c' := ReadReceive(c, Arrival(port, Parsed(packet)));
      ClientInv(p, c') && c'.serverPort == c.serverPort && c'.blockID == c.blockID
  {
    var c' := ReadReceive(c, Arrival(port, Parsed(packet)));
    assert c'.sent[..|c.sent|] == c.sent;
    SentGrows(p, c, c');
  }

  lemma Locks(p: Params, c: ReadClient, port: U16)
    requires ClientInv(p, c) && c.status.Running? && (c.serverPort == 0 || c.serverPort == port)
    ensures ClientInv(p, c.(serverPort := port)) && ClientInv(p, c.(serverPort := port, status := Failed))
  {
    SentGrows(p, c, c.(serverPort := port));
    SentGrows(p, c, c.(serverPort := port, status := Failed));
  }

  lemma ReceiveData(p: Params, c: ReadClient, port: U16, id: U16, data: string)
    requires ClientInv(p, c) && c.status.Running? && port != 0 && (c.serverPort == 0 || c.serverPort == port)
    requires id as int == c.blockID ==>
      && p.filename in p.files && c.blockID <= Blocks(p) && c.blockID <= Limit(p.wire)
      && data == BlockAt(Target(p), c.blockID)
    ensures var c' := ReadReceive(c, Arrival(port, Parsed(Data(id, data))));
      && ClientInv(p, c') && c'.serverPort == port
      && c'.blockID == (if id as int == c.blockID then c.blockID + 1 else c.blockID)
  {
    Locks(p, c, port);
    if id as int == c.blockID {
      BlockAccepted(p, c.(serverPort := port), data);
    }
  }

  lemma ToClientInv(p: Params, s: State, port: U16, i: nat)
    requires Inv(p, s)
    ensures Inv(p, Apply(p, s, ToClient(port, i)))
  {
    hide Arrives, ClientInv, BlockAt, Target, ReadReceive;
    var c := s.client;
    if port in s.conns && i < |s.conns[port].outbox| {
      var arrived := Arrives(p.wire, s.conns[port].outbox[i]);
      if c.status.Running? {
        Received(p, s, port, i, arrived);
      } else {
        NotListening(c, Arrival(port, arrived));
      }
    }
  }

  lemma NotListening(c: ReadClient, a: Arrival)
    requires !c.status.Running?
    ensures ReadReceive(c, a) == c
  {}

  lemma Received(p: Params, s: State, port: U16, i: nat, arrived: ParseResult)
    requires Inv(p, s) && s.client.status.Running?
    requires port in s.conns && i < |s.conns[port].outbox| && arrived == Arrives(p.wire, s.conns[port].outbox[i])
    ensures Inv(p, s.(client := ReadReceive(s.client, Arrival(port, arrived))))
  {
    hide Arrives, BlockAt, Target, ReadAccept;
    var c := s.client;
    var conn := s.conns[port];
    assert ConnInv(p, conn) && PortInv(s, port) && ClientInv(p, c);
    var c' := ReadReceive(c, Arrival(port, arrived));
    if p.filename in p.files {
      assert c.serverPort == 0 || c.serverPort == port ==> |conn.outbox| <= c.blockID;
      ArrivedData(p, conn, i);
      if c.serverPort != 0 && c.serverPort != port {
        ReceiveForeign(p, c, port, arrived.packet);
      } else {
        DataAccepted(p, conn, c.blockID, i);
        ReceiveData(p, c, port, arrived.packet.blockID, arrived.packet.data);
      }
    } else {
      ErrorArrives(p.wire, FILE_NOT_FOUND);
      if c.serverPort != 0 && c.serverPort != port {
        ReceiveForeign(p, c, port, arrived.packet);
      } else {
        Locks(p, c, port);
        ErrorStops(c, port, arrived.packet);
      }
    }
    PortsAfter(p, s, c', port);
  }

  lemma ErrorStops(c: ReadClient, port: U16, e: Packet)
    requires e.Error? && c.status.Running? && (c.serverPort == 0 || c.serverPort == port)
    ensures ReadReceive(c, Arrival(port, Parsed(e))) == c.(serverPort := port, status := Failed)
  {}

  lemma ArrivedData(p: Params, c: Conn, i: nat)
    requires p.filename in p.files && ConnInv(p, c) && i < |c.outbox|
    ensures var r := Arrives(p.wire, c.outbox[i]); r.Parsed? && r.packet.Data?
  {
    hide Arrives;
    ShortBlock(p.mode, Target(p), i + 1);
    DataArrives(p.wire, (i + 1) % 65536, BlockAt(Target(p), i + 1));
  }

  lemma PortsAfter(p: Params, s: State, c': ReadClient, port: U16)
    requires Inv(p, s) && ClientInv(p, c') && port in s.conns
    requires c'.serverPort == (if s.client.serverPort == 0 then port else s.client.serverPort)
    requires c'.blockID == s.client.blockID || (c'.serverPort == port
               && c'.blockID == s.client.blockID + 1 && |s.conns[port].outbox| >= s.client.blockID)
    ensures Inv(p, s.(client := c'))
  {
    var s' := s.(client := c');
    forall q | q in s'.conns ensures ConnInv(p, s'.conns[q]) && PortInv(s', q) {
      assert PortInv(s, q) && ConnInv(p, s.conns[q]);
    }
  }

  lemma OpenInv(p: Params, s: State, port: U16)
    requires ValidParams(p) && Inv(p, s)
    ensures Inv(p, Apply(p, s, Open(port)))
  {
    hide Arrives;
    var s' := Apply(p, s, Open(port));
    OpenedInv(p);
    forall q | q in s'.conns ensures ConnInv(p, s'.conns[q]) && PortInv(s', q) {
      assert q in s.conns ==> ConnInv(p, s.conns[q]) && PortInv(s, q);
    }
  }

  lemma TimeoutInv(p: Params, s: State, step: Step)
    requires Inv(p, s) && (step.SessionTimeout? || step.ClientTimeout?)
    ensures Inv(p, Apply(p, s, step))
  {
    hide Arrives;
    var s' := Apply(p, s, step);
    forall q | q in s'.conns ensures ConnInv(p, s'.conns[q]) && PortInv(s', q) {
      assert ConnInv(p, s.conns[q]) && PortInv(s, q);
    }
    if step.ClientTimeout? {
      SentGrows(p, s.client, s'.client);
    }
  }

  lemma {:induction false} InvHolds(p: Params, steps: seq<Step>)
    requires ValidParams(p)
    ensures Inv(p, Run(p, steps))
  {
    hide Arrives;
    if steps == [] {
      assert AckCount(Start(p).client.sent) == 0 by {
        AckCountSnoc([], Start(p).client.sent[0]);
        assert [] + [Start(p).client.sent[0]] == Start(p).client.sent;
      }
    } else {
      var before := steps[..|steps| - 1];
      InvHolds(p, before);
      var s := Run(p, before);
      match steps[|steps| - 1]
      case Open(port) => OpenInv(p, s, port);
      case ToClient(port, i) => ToClientInv(p, s, port, i);
      case ToServer(i) => ToServerInv(p, s, i);
      case SessionTimeout(port) => TimeoutInv(p, s, SessionTimeout(port));
      case ClientTimeout => TimeoutInv(p, s, ClientTimeout);
    }
  }

  // ----- main results -----

  /** Safety, at every file length and for every loss, duplication and reordering: what Read has
      written is a whole-block prefix of the file, or of its encoding in netascii mode; leaving the loop
      means it is all of it, which in netascii mode decodes to the file. */
  lemma {:induction false} DownloadSafety(p: Params, steps: seq<Step>)
    requires ValidParams(p)
    ensures var c := Run(p, steps).client;
      && (p.filename in p.files ==>
            var x := if p.mode.OCTET? then p.files[p.filename] else NetAscii.Encode(p.files[p.filename]);
            exists k :: 0 <= k <= Limit(p.wire) && c.output == Cut(x, k))
      && (p.filename !in p.files ==> c.output == "")
      && (c.status.Completed? ==>
            && p.filename in p.files
            && (p.mode.OCTET? ==> c.output == p.files[p.filename])
            && (p.mode.NETASCII? ==>
                  NetAscii.Canonical(c.output) && NetAscii.Decode(c.output) == p.files[p.filename]))
  {
    hide Arrives, Run, NetAscii.Canonical;
    InvHolds(p, steps);
    var c := Run(p, steps).client;
    assert c.output == Cut(Target(p), c.blockID - 1);
    if p.filename in p.files {
      NetAscii.DecodeEncode(p.files[p.filename]);
      NetAscii.EncodeIsCanonical(p.files[p.filename]);
    } else {
      NothingToCut(p, c.blockID - 1);
    }
  }

  lemma NothingToCut(p: Params, k: nat)
    requires p.filename !in p.files
    ensures Cut(Target(p), k) == ""
  {}

  /** A copy of the request opens another session, but only the session that the client is locked
      onto is ever acknowledged; the others send their first block and nothing more. */
  lemma {:induction false} OneSessionServed(p: Params, steps: seq<Step>)
    requires ValidParams(p)
    ensures var s := Run(p, steps);
      && (forall i :: 0 <= i < |s.client.sent| && s.client.sent[i].packet.Ack? ==>
            s.client.serverPort != 0 && s.client.sent[i].port == s.client.serverPort)
      && (forall q :: q in s.conns && q != s.client.serverPort ==> |s.conns[q].outbox| <= 1)
  {
    hide Arrives, Run, ConnInv, Target, AckCount, Blocks, Cut;
    InvHolds(p, steps);
    var s := Run(p, steps);
    forall i | 0 <= i < |s.client.sent| && s.client.sent[i].packet.Ack?
      ensures s.client.serverPort != 0 && s.client.sent[i].port == s.client.serverPort
    {
      assert i >= 1 && SentInv(s.client, s.client.sent[i]);
    }
    forall q | q in s.conns && q != s.client.serverPort ensures |s.conns[q].outbox| <= 1 {
      assert PortInv(s, q);
    }
  }

  /** No amplification: however often packets are duplicated, no session sends a block twice, and
      the client sends one acknowledgement for each block it has written. */
  lemma {:induction false} NoAmplification(p: Params, steps: seq<Step>)
    requires ValidParams(p) && p.filename in p.files
    ensures var s := Run(p, steps);
      && (forall q :: q in s.conns ==>
            && |s.conns[q].outbox| <= Blocks(p)
            && forall i :: 0 <= i < |s.conns[q].outbox| ==> s.conns[q].outbox[i] == DataPacket(p, i + 1))
      && AckCount(s.client.sent) == s.client.blockID - 1 <= Blocks(p)
  {
    hide Arrives;
    InvHolds(p, steps);
    var s := Run(p, steps);
    forall q | q in s.conns
      ensures |s.conns[q].outbox| <= Blocks(p)
      ensures forall i :: 0 <= i < |s.conns[q].outbox| ==> s.conns[q].outbox[i] == DataPacket(p, i + 1)
    {
      assert ConnInv(p, s.conns[q]);
    }
    if s.client.serverPort != 0 {
      assert ConnInv(p, s.conns[s.client.serverPort]) && PortInv(s, s.client.serverPort);
    }
  }

  // ----- in-order delivery -----

  /** Open one session, then k times: deliver the next block, deliver its acknowledgement. */
  function Exchanges(port: U16, k: nat): seq<Step> {
    if k == 0 then [Open(port)]
    else Exchanges(port, k - 1) + [ToClient(port, k - 1)] + [ToServer(k)]
  }

  lemma RunSnoc(p: Params, steps: seq<Step>, step: Step)
    ensures Run(p, steps + [step]) == Apply(p, Run(p, steps), step)
  {
    assert (steps + [step])[..|steps|] == steps;
  }

  /** The state after k exchanges on one port. */
  predicate InOrder(p: Params, s: State, port: U16, k: nat) {
    && Inv(p, s) && port in s.conns
    && (k == 0 || s.client.serverPort == port)
    && (k == 0 ==> s.client.serverPort == 0)
    && s.client.blockID == k + 1 && |s.client.sent| == k + 1
    && (s.client.status == if k == Blocks(p) && EndsShort(p.mode, Target(p)) then Completed else Running)
    && |s.conns[port].outbox| == (if k < Blocks(p) then k + 1 else k)
    && (s.conns[port].alive <==> k < Blocks(p))
  }

  lemma {:induction false} InOrderRun(p: Params, port: U16, k: nat)
    requires ValidParams(p) && p.filename in p.files && port != 0 && port != p.mainPort
    requires 1 <= Blocks(p) <= Limit(p.wire) && k <= Blocks(p)
    ensures InOrder(p, Run(p, Exchanges(port, k)), port, k)
  {
    hide Apply, InOrder, Run;
    if k == 0 {
      FirstExchange(p, port);
    } else {
      var before := Exchanges(port, k - 1);
      InOrderRun(p, port, k - 1);
      RunSnoc(p, before, ToClient(port, k - 1));
      RunSnoc(p, before + [ToClient(port, k - 1)], ToServer(k));
      OneExchange(p, Run(p, before), port, k);
    }
  }

  lemma FirstExchange(p: Params, port: U16)
    requires ValidParams(p) && p.filename in p.files && port != 0 && port != p.mainPort
    requires 1 <= Blocks(p) <= Limit(p.wire)
    ensures InOrder(p, Run(p, [Open(port)]), port, 0)
  {
    hide Arrives, Opened, ClientInv, ConnInv;
    InvHolds(p, [Open(port)]);
    RunSnoc(p, [], Open(port));
    assert [] + [Open(port)] == [Open(port)];
    OpenedInv(p);
  }

  /** The block that the client waits for arrives and is acknowledged. */
  lemma BlockDelivered(p: Params, s: State, port: U16, k: nat)
    requires p.filename in p.files && 1 <= k <= Blocks(p) <= Limit(p.wire)
    requires Inv(p, s) && s.client.status.Running? && s.client.blockID == k && port in s.conns
    requires (s.client.serverPort == 0 || s.client.serverPort == port) && |s.conns[port].outbox| == k
    ensures var s' := Apply(p, s, ToClient(port, k - 1));
      && Inv(p, s') && s'.conns == s.conns
      && s'.client.serverPort == port && s'.client.blockID == k + 1
      && s'.client.sent == s.client.sent + [Outgoing(port, Ack(k))]
      && (s'.client.status == if k == Blocks(p) && EndsShort(p.mode, Target(p)) then Completed else Running)
  {
    hide Arrives, BlockAt, TotalBlocks, AckCount, EndsShort, Cut, Target, ReadRefuse, Limit;
    var conn := s.conns[port];
    assert ConnInv(p, conn);
    DataAccepted(p, conn, k, k - 1);
    var locked := s.client.(serverPort := port);
    SentGrows(p, s.client, locked);
    assert ClientInv(p, locked);
    BlockAccepted(p, locked, BlockAt(Target(p), k));
    ToClientInv(p, s, port, k - 1);
  }

  lemma OneExchange(p: Params, s: State, port: U16, k: nat)
    requires p.filename in p.files && 1 <= k <= Blocks(p) <= Limit(p.wire)
    requires InOrder(p, s, port, k - 1)
    ensures InOrder(p, Apply(p, Apply(p, s, ToClient(port, k - 1)), ToServer(k)), port, k)
  {
    hide Arrives;
    BlockDelivered(p, s, port, k);
    var mid := Apply(p, s, ToClient(port, k - 1));
    ToServerInv(p, mid, k);
    assert ConnInv(p, s.conns[port]);
    AckAnswered(p, s.conns[port], k, k + 1);
  }

  /** With reliable in-order delivery both sides finish after exactly one exchange per block. */
  lemma {:induction false} InOrderCompletes(p: Params, port: U16)
    requires ValidParams(p) && p.filename in p.files && port != 0 && port != p.mainPort
    requires EndsShort(p.mode, Target(p)) && Blocks(p) <= Limit(p.wire)
    ensures |Exchanges(port, Blocks(p))| == 2 * Blocks(p) + 1
    ensures var s := Run(p, Exchanges(port, Blocks(p)));
      && s.client.status.Completed? && s.client.output == Target(p)
      && port in s.conns && !s.conns[port].alive
      && |s.conns[port].outbox| == Blocks(p) && AckCount(s.client.sent) == Blocks(p)
  {
    hide Arrives, Run, Exchanges, AckCount;
    InOrderRun(p, port, Blocks(p));
    ExchangesLength(port, Blocks(p));
  }

  lemma {:induction false} ExchangesLength(port: U16, k: nat)
    ensures |Exchanges(port, k)| == 2 * k + 1
  {
    if k > 0 {
      ExchangesLength(port, k - 1);
    }
  }

  /** Exactly which downloads can complete. As the code is written the limit is 15 blocks; with the
      numbers repaired it is 65535, past which the size_t counter matches no 16-bit number. */
  lemma DownloadCompletesIff(p: Params)
    requires ValidParams(p)
    ensures (exists steps :: Run(p, steps).client.status.Completed?) <==>
            p.filename in p.files && EndsShort(p.mode, Target(p)) && Blocks(p) <= Limit(p.wire)
  {
    hide Arrives;
    if steps :| Run(p, steps).client.status.Completed? {
      InvHolds(p, steps);
    }
    if p.filename in p.files && EndsShort(p.mode, Target(p)) && Blocks(p) <= Limit(p.wire) {
      var port: U16 := if p.mainPort == 1 then 2 else 1;
      InOrderCompletes(p, port);
    }
  }

  /** In netascii mode the encoded file must not end on a whole block. */
  lemma NetAsciiDownloadLimit(p: Params)
    requires ValidParams(p) && p.mode.NETASCII? && p.filename in p.files
    ensures (exists steps :: Run(p, steps).client.status.Completed?) <==>
            var x := NetAscii.Encode(p.files[p.filename]); |x| % 512 != 0 && |x| <= 512 * Limit(p.wire)
  {
    hide Arrives, Run, Limit;
    DownloadCompletesIff(p);
  }

  /** The same in bytes, for the octet mode that the client asks for. */
  lemma OctetDownloadLimit(p: Params)
    requires ValidParams(p) && p.mode.OCTET? && p.filename in p.files
    ensures (exists steps :: Run(p, steps).client.status.Completed?) <==>
            |p.files[p.filename]| < 512 * Limit(p.wire)
  {
    hide Arrives;
    DownloadCompletesIff(p);
  }
}
