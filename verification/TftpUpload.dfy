/** An upload as a two-party protocol: one client in TClient::Write, one server session, and a
    network that loses, duplicates and reorders. Here both counters are 16 bits wide. */
module TftpUpload {
  import opened Common
  import opened Packets
  import opened TftpServer
  import opened TftpClient
  import opened TftpFraming
  import opened TftpNetwork
  import NetAscii

  /** The mode is a parameter: the client of this program asks for octet, others may ask for netascii
      and send data that is encoded already. */
  datatype Params = Params(
    wire: Wire, mainPort: U16, port: U16, filename: string, mode: TransferMode, data: string)

  /** The one server session, with every packet it ever sent. */
  datatype Conn = Conn(session: WriteSession, alive: bool, outbox: seq<Packet>)

  datatype State = State(client: WriteClient, conn: Option<Conn>)

  datatype Step =
    | Open                   // the write request arrives and opens the session
    | ToClient(index: nat)   // a copy of a packet of the session arrives
    | ToServer(index: nat)   // a copy of a packet of the client arrives
    | SessionTimeout
    | ClientTimeout

  predicate ValidState(s: State) { ValidWriter(s.client) && s.client.sent != [] }

  function Start(p: Params): State {
    State(WriteStart(p.mainPort, p.filename, p.mode, p.data), None)
  }

  function TheRequest(p: Params): Packet { Request(WRITE, p.filename, p.mode) }

  /** The request reaches the server as it was sent. */
  predicate ValidParams(p: Params) {
    p.port != p.mainPort && RequestFits(p.wire, TheRequest(p))
  }

  function Opened(p: Params): Conn {
    match Arrives(p.wire, TheRequest(p))
    case Parsed(Request(WRITE, filename, mode)) =>
      var r := WriteHandle(OpenWrite(mode), Request(WRITE, filename, mode));
      Conn(r.session, r.alive, if r.sent.Some? then [r.sent.value] else [])
    case _ => Conn(OpenWrite(p.mode), false, [])
  }

  function Answered(p: Params, c: Conn, packet: Packet): Conn {
    if !c.alive then c
    else
      var r := WriteHandlePacket(c.session, Arrives(p.wire, packet));
      Conn(r.session, r.alive, c.outbox + if r.sent.Some? then [r.sent.value] else [])
  }

  /** A step that is not possible changes nothing. */
  function Apply(p: Params, s: State, step: Step): (s': State)
    requires ValidState(s)
    ensures ValidState(s')
  {
    match step
    case Open => if s.conn == None then s.(conn := Some(Opened(p))) else s
    case ToClient(i) =>
      if s.conn.Some? && i < |s.conn.value.outbox| then
        s.(client := WriteReceive(s.client, Arrival(p.port, Arrives(p.wire, s.conn.value.outbox[i]))))
      else s
    case ToServer(i) =>
      if s.conn.Some? && i < |s.client.sent| && s.client.sent[i].port == p.port then
        s.(conn := Some(Answered(p, s.conn.value, s.client.sent[i].packet)))
      else s
    case SessionTimeout => if s.conn.Some? then s.(conn := Some(s.conn.value.(alive := false))) else s
    case ClientTimeout => s.(client := s.client.(status := TimedOut(s.client.status)))
  }

  function Run(p: Params, steps: seq<Step>): (s: State)
    ensures ValidState(s)
  {
    if steps == [] then Start(p)
    else Apply(p, Run(p, steps[..|steps| - 1]), steps[|steps| - 1])
  }

  /** What the session has appended so far. */
  function Received(s: State): string { if s.conn.Some? then s.conn.value.session.received else "" }

  // ----- the invariant -----

  function Blocks(p: Params): nat { TotalBlocks(OCTET, p.data) }

  /** The inputs on which 16-bit numbers do their work: either both sides stall before the counters
      wrap around, or the input is too short for them to. */
  predicate NoWrap(p: Params) { p.wire.Corrected? ==> Blocks(p) <= 65535 }

  /** Data packet number k, counted from 1. */
  function DataPacket(p: Params, k: nat): Packet
    requires k >= 1
  {
    Data(k % 65536, BlockAt(p.data, k))
  }

  /** The client after sending c blocks: every field but the status follows from c. */
  predicate ClientInv(p: Params, w: WriteClient, c: nat) {
    && w.data == p.data && |w.sent| == c + 1
    && w.sent[0] == Outgoing(p.mainPort, TheRequest(p))
    && c <= Blocks(p)
    && (forall i :: 1 <= i <= c ==> w.sent[i] == Outgoing(p.port, DataPacket(p, i)))
    && (w.waiting <==> c == 0)
    && (c == 0 ==> w.cursor == 0)
    && (c >= 1 ==> w.transferID == p.port && w.cursor == Min(BLOCK * c, |p.data|) && (w.end <==> c == Blocks(p)))
    && (w.status.Running? && c >= 1 ==> w.blockID == c % 65536)
    && (w.status.Completed? ==> c == Blocks(p))
  }

  /** The session that expects block m next (0: the request): it has appended blocks 1 to m - 1 and
      acknowledged 0 to m - 1, each once. */
  predicate ConnInv(p: Params, c: Conn, m: nat) {
    && 1 <= m <= Blocks(p) + 1 && |c.outbox| == m <= Limit(p.wire) + 1
    && (forall i :: 0 <= i < m ==> c.outbox[i] == Ack(i % 65536))
    && c.session.mode == p.mode && c.session.received == Cut(p.data, m - 1)
    && (c.alive ==> m <= Blocks(p) && c.session.blockID == m % 65536)
  }

  function Sent(s: State): nat { if s.client.sent == [] then 0 else |s.client.sent| - 1 }

  function Expected(s: State): nat { if s.conn.Some? then |s.conn.value.outbox| else 0 }

  /** The session expects the client's current block or the next one. */
  predicate Inv(p: Params, s: State) {
    && ClientInv(p, s.client, Sent(s)) && Sent(s) <= Limit(p.wire) + 1
    && (s.conn.Some? ==> ConnInv(p, s.conn.value, Expected(s)))
    && Sent(s) <= Expected(s) <= Sent(s) + 1
    && (s.conn == None ==> Sent(s) == 0)
    && (s.client.status.Completed? ==> Expected(s) == Sent(s) + 1)
  }

  lemma OpenedInv(p: Params)
    requires ValidParams(p)
    ensures ConnInv(p, Opened(p), 1) && Opened(p).alive && Opened(p).outbox == [Ack(0)]
  {
    hide Arrives, RequestFits, Limit;
    RequestArrives(p.wire, TheRequest(p));
    assert Cut(p.data, 0) == "";
  }

  /** The session takes the block it waits for, and ends after the short one. */
  lemma BlockTaken(p: Params, c: Conn, m: nat)
    requires ConnInv(p, c, m) && c.alive && m <= Limit(p.wire)
    ensures var c' := Answered(p, c, DataPacket(p, m));
      ConnInv(p, c', m + 1) && (c'.alive <==> m < Blocks(p))
  {
    hide Arrives, BlockAt, Cut, TotalBlocks, OnWire;
    ShortBlock(OCTET, p.data, m);
    DataArrives(p.wire, m, BlockAt(p.data, m));
    LimitIsSharp(p.wire, m);
    CutExtends(p.data, m);
  }

  /** Any other block is a duplicate, as long as the counters have not wrapped. */
  lemma BlockIgnored(p: Params, c: Conn, m: nat, i: nat)
    requires ConnInv(p, c, m) && NoWrap(p)
    requires 1 <= i <= Blocks(p) && i <= Limit(p.wire) + 1 && (i != m || m > Limit(p.wire))
    ensures Answered(p, c, DataPacket(p, i)) == c
  {
    hide Arrives, BlockAt, Cut, TotalBlocks, OnWire, RequestFits;
    if c.alive {
      ShortBlock(OCTET, p.data, i);
      DataArrives(p.wire, i, BlockAt(p.data, i));
      LimitIsSharp(p.wire, i);
      assert c.outbox + [] == c.outbox;
    }
  }

  lemma ToServerInv(p: Params, s: State, i: nat)
    requires ValidParams(p) && NoWrap(p) && ValidState(s) && Inv(p, s)
    ensures Inv(p, Apply(p, s, ToServer(i)))
  {
    hide Arrives, Answered;
    if s.conn.Some? && i < |s.client.sent| && s.client.sent[i].port == p.port {
      var c := s.conn.value;
      var m := Expected(s);
      assert i >= 1 && s.client.sent[i] == Outgoing(p.port, DataPacket(p, i));
      if i == m && m <= Limit(p.wire) && c.alive {
        BlockTaken(p, c, m);
      } else if c.alive {
        BlockIgnored(p, c, m, i);
      } else {
        NotAlive(p, c, s.client.sent[i].packet);
      }
    }
  }

  lemma NotAlive(p: Params, c: Conn, packet: Packet)
    requires !c.alive
    ensures Answered(p, c, packet) == c
  {}

  /** The next block goes out. */
  lemma BlockSent(p: Params, w: WriteClient, c: nat)
    requires ValidWriter(w) && c < Blocks(p) && |w.sent| == c + 1 && w.data == p.data
    requires w.cursor == Min(BLOCK * c, |p.data|) && w.transferID == p.port && w.blockID == (c + 1) % 65536
    requires w.sent[0] == Outgoing(p.mainPort, TheRequest(p)) && w.status.Running?
    requires forall i :: 1 <= i <= c ==> w.sent[i] == Outgoing(p.port, DataPacket(p, i))
    ensures ClientInv(p, SendBlock(w), c + 1) && SendBlock(w).status.Running?
  {
    assert BLOCK * (c + 1) == BLOCK * c + BLOCK;
  }

  /** The acknowledgement the client waits for. */
  lemma AckTaken(p: Params, w: WriteClient, c: nat, id: U16)
    requires ValidWriter(w) && ClientInv(p, w, c) && w.status.Running? && id as int == c % 65536
    ensures var w' := WriteReceive(w, Arrival(p.port, Parsed(Ack(id))));
      && ClientInv(p, w', if c < Blocks(p) then c + 1 else c)
      && w'.status == (if c < Blocks(p) then Running else Completed)
  {
    if c == 0 {
      BlockSent(p, w.(transferID := p.port, blockID := 1), 0);
    } else if c < Blocks(p) {
      BlockSent(p, w.(blockID := (w.blockID + 1) % 65536), c);
    }
  }

  lemma AckIgnored(p: Params, w: WriteClient, c: nat, id: U16)
    requires ValidWriter(w) && ClientInv(p, w, c) && (!w.status.Running? || (c >= 1 && id as int != c % 65536))
    ensures WriteReceive(w, Arrival(p.port, Parsed(Ack(id)))) == w
  {}

  lemma ToClientInv(p: Params, s: State, i: nat)
    requires NoWrap(p) && ValidState(s) && Inv(p, s)
    ensures Inv(p, Apply(p, s, ToClient(i)))
  {
    hide Arrives, ClientInv, WriteReceive;
    if s.conn.Some? && i < |s.conn.value.outbox| {
      var c := Sent(s);
      assert s.conn.value.outbox[i] == Ack(i % 65536);
      AckArrives(p.wire, i % 65536);
      LimitIsSharp(p.wire, i % 65536);
      SentAt(p, s);
      if s.client.status.Running? && i == c {
        AckTaken(p, s.client, c, i);
        SentAt(p, Apply(p, s, ToClient(i)));
      } else {
        AckIgnored(p, s.client, c, i);
      }
    }
  }

  lemma SentAt(p: Params, s: State)
    requires ValidState(s)
    ensures forall c: nat :: ClientInv(p, s.client, c) ==> Sent(s) == c <= Blocks(p) && |s.client.sent| == c + 1
  {}

  lemma OpenInv(p: Params, s: State)
    requires ValidParams(p) && ValidState(s) && Inv(p, s)
    ensures Inv(p, Apply(p, s, Open))
  {
    hide Arrives, Opened, ClientInv;
    OpenedInv(p);
  }

  lemma TimeoutInv(p: Params, s: State, step: Step)
    requires ValidState(s) && Inv(p, s) && (step.SessionTimeout? || step.ClientTimeout?)
    ensures Inv(p, Apply(p, s, step))
  {
    hide Arrives;
  }

  lemma StartInv(p: Params)
    ensures Inv(p, Start(p))
  {}

  lemma {:induction false} InvHolds(p: Params, steps: seq<Step>)
    requires ValidParams(p) && NoWrap(p)
    ensures Inv(p, Run(p, steps))
  {
    hide Apply, ClientInv, ConnInv;
    if steps == [] {
      StartInv(p);
    } else {
      var before := steps[..|steps| - 1];
      InvHolds(p, before);
      var s := Run(p, before);
      match steps[|steps| - 1]
      case Open => OpenInv(p, s);
      case ToClient(i) => ToClientInv(p, s, i);
      case ToServer(i) => ToServerInv(p, s, i);
      case SessionTimeout => TimeoutInv(p, s, SessionTimeout);
      case ClientTimeout => TimeoutInv(p, s, ClientTimeout);
    }
  }

  // ----- safety -----

  /** In every run without wrap-around the session's output is a whole-block prefix of the input;
      once Write returns normally it is the input and the session is over. So is the file that it
      leaves; in netascii mode that is what the input decodes to. */
  lemma {:induction false} UploadSafety(p: Params, steps: seq<Step>)
    requires ValidParams(p) && NoWrap(p)
    ensures var s := Run(p, steps);
      && (exists k :: 0 <= k <= Blocks(p) && Received(s) == Cut(p.data, k))
      && (s.client.status.Completed? ==>
            s.conn.Some? && !s.conn.value.alive && Received(s) == p.data
            && (p.mode.OCTET? ==> FileWritten(s.conn.value.session) == p.data)
            && (p.mode.NETASCII? ==> FileWritten(s.conn.value.session) == NetAscii.Decode(p.data)))
      && (s.conn.Some? && p.mode.OCTET? ==> FileWritten(s.conn.value.session) == Received(s))
  {
    InvHolds(p, steps);
    var s := Run(p, steps);
    var k := if s.conn.Some? then Expected(s) - 1 else 0;
    assert Received(s) == Cut(p.data, k);
    if s.client.status.Completed? {
      ShortBlock(OCTET, p.data, Blocks(p));
    }
  }

  /** A netascii upload recovers the file, because its blocks are joined before they are decoded. */
  lemma {:induction false} NetAsciiUpload(p: Params, file: string, steps: seq<Step>)
    requires ValidParams(p) && NoWrap(p) && p.mode.NETASCII? && p.data == NetAscii.Encode(file)
    ensures var s := Run(p, steps);
      s.client.status.Completed? ==> s.conn.Some? && FileWritten(s.conn.value.session) == file
  {
    InvHolds(p, steps);
    UploadSafety(p, steps);
    NetAscii.DecodeEncode(file);
  }

  // ----- in-order delivery -----

  /** Open the session, deliver its first acknowledgement, then k times: a block, its acknowledgement. */
  function Exchanges(k: nat): seq<Step> {
    if k == 0 then [Open] + [ToClient(0)]
    else Exchanges(k - 1) + [ToServer(k)] + [ToClient(k)]
  }

  lemma RunSnoc(p: Params, steps: seq<Step>, step: Step)
    ensures Run(p, steps + [step]) == Apply(p, Run(p, steps), step)
  {
    assert (steps + [step])[..|steps|] == steps;
  }

  predicate InOrder(p: Params, s: State, k: nat) {
    && ValidState(s) && s.conn.Some? && ConnInv(p, s.conn.value, k + 1)
    && (s.conn.value.alive <==> k < Blocks(p))
    && ClientInv(p, s.client, if k < Blocks(p) then k + 1 else k)
    && s.client.status == (if k < Blocks(p) then Running else Completed)
  }

  lemma {:induction false} InOrderRun(p: Params, k: nat)
    requires ValidParams(p) && k <= Blocks(p) && k <= Limit(p.wire)
    ensures InOrder(p, Run(p, Exchanges(k)), k)
  {
    hide Apply, InOrder, Run;
    if k == 0 {
      FirstExchange(p);
    } else {
      var before := Exchanges(k - 1);
      InOrderRun(p, k - 1);
      RunSnoc(p, before, ToServer(k));
      RunSnoc(p, before + [ToServer(k)], ToClient(k));
      OneExchange(p, Run(p, before), k);
    }
  }

  lemma FirstExchange(p: Params)
    requires ValidParams(p)
    ensures InOrder(p, Run(p, Exchanges(0)), 0)
  {
    hide Arrives, WriteReceive, ConnInv, Opened;
    RunSnoc(p, [], Open);
    RunSnoc(p, [Open], ToClient(0));
    assert [] + [Open] == [Open];
    OpenedInv(p);
    AckArrives(p.wire, 0);
    LimitIsSharp(p.wire, 0);
    AckTaken(p, Start(p).client, 0, 0);
  }

  lemma OneExchange(p: Params, s: State, k: nat)
    requires ValidParams(p) && 1 <= k <= Blocks(p) && k <= Limit(p.wire) && InOrder(p, s, k - 1)
    ensures InOrder(p, Apply(p, Apply(p, s, ToServer(k)), ToClient(k)), k)
  {
    hide Arrives, WriteReceive, Answered;
    BlockTaken(p, s.conn.value, k);
    assert s.client.sent[k] == Outgoing(p.port, DataPacket(p, k));
    var mid := Apply(p, s, ToServer(k));
    assert mid.conn.value.outbox[k] == Ack(k % 65536);
    AckArrives(p.wire, k);
    LimitIsSharp(p.wire, k);
    AckTaken(p, s.client, k, k);
  }

  // ----- wrap-around -----

  /** After the 65535th exchange the old acknowledgements match again: deliver k of them. */
  function Stale(k: nat): seq<Step> {
    if k == 0 then Exchanges(65535) else Stale(k - 1) + [ToClient((k - 1) % 65536)]
  }

  /** The client runs to its end on them, while the session hears nothing. */
  predicate AfterStale(p: Params, s: State, k: nat) {
    && ValidState(s) && s.conn.Some? && ConnInv(p, s.conn.value, 65536) && s.conn.value.alive
    && ClientInv(p, s.client, Min(65536 + k, Blocks(p)))
    && s.client.status == (if 65535 + k < Blocks(p) then Running else Completed)
  }

  lemma {:induction false} StaleRun(p: Params, k: nat)
    requires ValidParams(p) && p.wire.Corrected? && Blocks(p) > 65535 && k <= Blocks(p) - 65535
    ensures AfterStale(p, Run(p, Stale(k)), k)
  {
    hide Apply, AfterStale, Run;
    if k == 0 {
      InOrderRun(p, 65535);
      StaleStart(p, Run(p, Stale(0)));
    } else {
      StaleRun(p, k - 1);
      RunSnoc(p, Stale(k - 1), ToClient((k - 1) % 65536));
      StaleStep(p, Run(p, Stale(k - 1)), k);
    }
  }

  lemma StaleStart(p: Params, s: State)
    requires InOrder(p, s, 65535) && Blocks(p) > 65535
    ensures AfterStale(p, s, 0)
  {}

  lemma StaleStep(p: Params, s: State, k: nat)
    requires p.wire.Corrected? && 1 <= k <= Blocks(p) - 65535 && AfterStale(p, s, k - 1)
    ensures AfterStale(p, Apply(p, s, ToClient((k - 1) % 65536)), k)
  {
    hide Arrives, WriteReceive, ClientInv, ConnInv;
    var id := (k - 1) % 65536;
    OldAck(p, s.conn.value, id);
    AckArrives(p.wire, id);
    LimitIsSharp(p.wire, id);
    AckTaken(p, s.client, 65535 + k, id);
  }

  lemma OldAck(p: Params, c: Conn, id: U16)
    requires ConnInv(p, c, 65536)
    ensures |c.outbox| == 65536 && c.outbox[id] == Ack(id)
  {}

  /** A session that has acknowledged 65535 blocks accepts block 1 a second time. */
  lemma BlockOneAgain(p: Params, s: State)
    requires ValidParams(p) && p.wire.Corrected? && Blocks(p) == 65536 && ValidState(s)
    requires s.conn.Some? && ConnInv(p, s.conn.value, 65536) && s.conn.value.alive && ClientInv(p, s.client, 65536)
    ensures var t := Apply(p, Apply(p, s, ToServer(65536)), ToServer(1));
      t.client == s.client && |Received(t)| > |p.data| && t.conn.Some? && t.conn.value.session.mode == p.mode
  {
    hide Arrives, ClientInv, BlockAt, Cut;
    Addressed(p, s.client);
    var c := s.conn.value;
    ShortBlock(OCTET, p.data, 65536);
    CutExtends(p.data, 65536);
    DataArrives(p.wire, 0, BlockAt(p.data, 65536));
    LimitIsSharp(p.wire, 0);
    var mid := Apply(p, s, ToServer(65536));
    assert mid.conn.value.session == WriteSession(p.mode, p.data, 1) && mid.conn.value.alive;
    ShortBlock(OCTET, p.data, 1);
    DataArrives(p.wire, 1, BlockAt(p.data, 1));
    LimitIsSharp(p.wire, 1);
  }

  lemma Addressed(p: Params, w: WriteClient)
    requires ClientInv(p, w, 65536)
    ensures |w.sent| == 65537
    ensures w.sent[65536] == Outgoing(p.port, DataPacket(p, 65536)) && w.sent[1] == Outgoing(p.port, DataPacket(p, 1))
  {}

  lemma {:induction false} WrapAroundLosesData(p: Params) returns (steps: seq<Step>)
    requires ValidParams(p) && p.wire.Corrected? && Blocks(p) >= 65536
    ensures var s := Run(p, steps); s.client.status.Completed? && s.conn.Some? && Received(s) != p.data
    ensures p.mode.OCTET? ==> FileWritten(Run(p, steps).conn.value.session) != p.data
  {
    hide Apply, ClientInv;
    var k := Blocks(p) - 65535;
    steps := Stale(k);
    StaleRun(p, k);
    var s := Run(p, steps);
    assert Received(s) == Cut(p.data, 65535);
    if |p.data| == BLOCK * 65535 {
      BlockOneAgain(p, s);
      RunSnoc(p, steps, ToServer(65536));
      RunSnoc(p, steps + [ToServer(65536)], ToServer(1));
      steps := steps + [ToServer(65536)] + [ToServer(1)];
    }
  }

  /** The session has been opened, and the file that it leaves on the server is this one. */
  predicate LeavesFile(s: State, file: string) {
    s.conn.Some? && FileWritten(s.conn.value.session) == file
  }

  /** The exact domain of upload safety. With the numbers repaired it is the inputs of at most 65535
      blocks; as the code is written a longer upload stalls, so what completes is right. */
  lemma UploadSafeIff(p: Params)
    requires ValidParams(p)
    ensures (forall steps :: Run(p, steps).client.status.Completed? ==> Received(Run(p, steps)) == p.data)
            <==> NoWrap(p)
    ensures p.mode.OCTET? ==>
      ((forall steps :: Run(p, steps).client.status.Completed? ==> LeavesFile(Run(p, steps), p.data))
       <==> (p.wire.Corrected? ==> |p.data| < 65535 * 512))
  {
    hide Run;
    assert NoWrap(p) <==> (p.wire.Corrected? ==> |p.data| < 65535 * 512);
    if NoWrap(p) {
      forall steps | Run(p, steps).client.status.Completed?
        ensures Received(Run(p, steps)) == p.data
        ensures p.mode.OCTET? ==> LeavesFile(Run(p, steps), p.data)
      {
        UploadSafety(p, steps);
      }
    } else {
      var steps := WrapAroundLosesData(p);
      assert p.mode.OCTET? ==> !LeavesFile(Run(p, steps), p.data);
    }
  }

  /** Exactly which uploads can complete. */
  lemma UploadCompletesIff(p: Params)
    requires ValidParams(p)
    ensures (exists steps :: Run(p, steps).client.status.Completed?) <==>
            p.wire.Corrected? || Blocks(p) <= Limit(p.wire)
  {
    hide Run;
    if !p.wire.Corrected? {
      if steps :| Run(p, steps).client.status.Completed? {
        InvHolds(p, steps);
      }
    }
    if Blocks(p) <= Limit(p.wire) {
      InOrderRun(p, Blocks(p));
      assert Run(p, Exchanges(Blocks(p))).client.status.Completed?;
    } else if p.wire.Corrected? {
      var steps := WrapAroundLosesData(p);
    }
  }
}
