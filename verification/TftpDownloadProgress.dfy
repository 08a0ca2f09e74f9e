/** No deadlock: from every reachable state in which the client is still waiting, a download can be
    brought to its end, whatever has been lost, duplicated or reordered before, exactly while its
    session has not died with blocks still to send. */
module TftpDownloadProgress {
  import opened Packets
  import opened TftpClient
  import opened TftpFraming
  import opened TftpNetwork
  import opened TftpDownload

  /** The client has acknowledged every block it has. */
  ghost predicate Acked(c: ReadClient) {
    forall k: U16 :: 1 <= k < c.blockID ==> Outgoing(c.serverPort, Ack(k)) in c.sent
  }

  lemma AckedKept(c: ReadClient, a: Arrival)
    requires Acked(c) && (c.serverPort == 0 ==> c.blockID == 1)
    ensures Acked(ReadReceive(c, a))
  {
    var c' := ReadReceive(c, a);
    assert c.sent <= c'.sent;
    forall k: U16 | 1 <= k < c'.blockID ensures Outgoing(c'.serverPort, Ack(k)) in c'.sent {
      if k < c.blockID {
        assert Outgoing(c.serverPort, Ack(k)) in c.sent;
      } else {
        assert c'.sent[|c.sent|] == Outgoing(c'.serverPort, Ack(k));
      }
    }
  }

  lemma {:induction false} AlwaysAcked(p: Params, steps: seq<Step>)
    requires ValidParams(p)
    ensures Acked(Run(p, steps).client)
    decreases |steps|
  {
    hide Arrives, ReadReceive, Opened, Answered, Inv;
    if steps != [] {
      var before := steps[..|steps| - 1];
      AlwaysAcked(p, before);
      InvHolds(p, before);
      StartsAtOne(p, Run(p, before));
      var s := Run(p, before);
      match steps[|steps| - 1]
      case ToClient(port, i) =>
        if port in s.conns && i < |s.conns[port].outbox| {
          AckedKept(s.client, Arrival(port, Arrives(p.wire, s.conns[port].outbox[i])));
        }
      case _ =>
    }
  }

  lemma StartsAtOne(p: Params, s: State)
    requires Inv(p, s)
    ensures s.client.serverPort == 0 ==> s.client.blockID == 1
  {}

  /** A session that can still bring the transfer to its end: it lives, or has sent every block. */
  predicate Hopeful(p: Params, c: Conn) { c.alive || |c.outbox| == Blocks(p) }

  predicate Completable(p: Params) {
    p.filename in p.files && EndsShort(p.mode, Target(p)) && Blocks(p) <= Limit(p.wire)
  }

  /** One step forward: deliver the block that is under way, or else the acknowledgement that is. */
  lemma NextStep(p: Params, steps: seq<Step>, port: U16) returns (step: Step)
    requires ValidParams(p) && Completable(p)
    requires var s := Run(p, steps);
      && s.client.status.Running? && (s.client.serverPort == 0 || s.client.serverPort == port)
      && port in s.conns && Hopeful(p, s.conns[port])
    ensures var s, t := Run(p, steps), Run(p, steps + [step]);
      && (t.client.status.Running? || t.client.status.Completed?) && t.client.serverPort in {0, port}
      && port in t.conns && Hopeful(p, t.conns[port])
      && s.client.blockID <= Blocks(p)
      && t.client.blockID + |t.conns[port].outbox| == s.client.blockID + |s.conns[port].outbox| + 1
      && (t.client.status.Running? ==> t.client.blockID <= Blocks(p)) && |t.conns[port].outbox| <= Blocks(p)
  {
    hide Arrives, Run, ClientInv, ConnInv, Apply;
    InvHolds(p, steps);
    AlwaysAcked(p, steps);
    var s := Run(p, steps);
    var b, n := s.client.blockID, |s.conns[port].outbox|;
    Bounds(p, s, port);
    if n == b {
      step := ToClient(port, b - 1);
      BlockDelivered(p, s, port, b);
    } else {
      var i := AckUnderWay(s.client, b - 1);
      step := ToServer(i);
      NextBlockSent(p, s, port, i);
    }
    RunSnoc(p, steps, step);
  }

  lemma Bounds(p: Params, s: State, port: U16)
    requires Inv(p, s) && Completable(p) && s.client.status.Running? && port in s.conns
    requires (s.client.serverPort == 0 || s.client.serverPort == port) && Hopeful(p, s.conns[port])
    ensures 1 <= s.client.blockID <= Blocks(p) && |s.conns[port].outbox| <= Blocks(p)
    ensures s.client.blockID - 1 <= |s.conns[port].outbox| <= s.client.blockID
    ensures |s.conns[port].outbox| == s.client.blockID - 1 ==>
      s.client.blockID >= 2 && s.client.serverPort == port && s.conns[port].alive
  {
    assert ConnInv(p, s.conns[port]) && PortInv(s, port);
  }

  lemma AtMostBlocks(p: Params, s: State, port: U16)
    requires Inv(p, s) && Completable(p) && port in s.conns
    ensures |s.conns[port].outbox| <= Blocks(p)
  {
    assert ConnInv(p, s.conns[port]);
  }

  lemma AckUnderWay(c: ReadClient, k: U16) returns (i: nat)
    requires Acked(c) && 1 <= k < c.blockID
    ensures i < |c.sent| && c.sent[i] == Outgoing(c.serverPort, Ack(k))
  {
    assert Outgoing(c.serverPort, Ack(k)) in c.sent;
    i :| i < |c.sent| && c.sent[i] == Outgoing(c.serverPort, Ack(k));
  }

  lemma NextBlockSent(p: Params, s: State, port: U16, i: nat)
    requires Inv(p, s) && Completable(p) && port in s.conns && s.conns[port].alive
    requires var n := |s.conns[port].outbox|;
      && 1 <= n < Blocks(p) && s.client.blockID == n + 1
      && i < |s.client.sent| && s.client.sent[i] == Outgoing(port, Ack(n))
    ensures var t := Apply(p, s, ToServer(i)); var n := |s.conns[port].outbox|;
      && t.client == s.client && port in t.conns && t.conns[port].alive && |t.conns[port].outbox| == n + 1
  {
    hide Arrives, ClientInv, Answered, BlockAt, SourceAt;
    assert ConnInv(p, s.conns[port]);
    AckAnswered(p, s.conns[port], |s.conns[port].outbox|, s.client.blockID);
  }

  /** Step by step to the end. */
  lemma {:induction false} Finish(p: Params, steps: seq<Step>, port: U16) returns (more: seq<Step>)
    requires ValidParams(p) && Completable(p)
    requires var s := Run(p, steps);
      && s.client.status.Running? && (s.client.serverPort == 0 || s.client.serverPort == port)
      && port in s.conns && Hopeful(p, s.conns[port])
      && s.client.blockID <= Blocks(p) && |s.conns[port].outbox| <= Blocks(p)
    ensures Run(p, steps + more).client.status.Completed?
    decreases 2 * Blocks(p) - Run(p, steps).client.blockID - |Run(p, steps).conns[port].outbox|
  {
    hide Run;
    var step := NextStep(p, steps, port);
    if Run(p, steps + [step]).client.status.Completed? {
      more := [step];
    } else {
      var rest := Finish(p, steps + [step], port);
      more := [step] + rest;
      assert steps + [step] + rest == steps + more;
    }
  }

  /** Without a session yet, a copy of the request opens one on any free port. */
  lemma OpensHopeful(p: Params, steps: seq<Step>, port: U16)
    requires ValidParams(p) && Completable(p) && port != 0 && port != p.mainPort && port !in Run(p, steps).conns
    ensures var t := Run(p, steps + [Open(port)]);
      t.client == Run(p, steps).client && port in t.conns && Hopeful(p, t.conns[port])
  {
    hide Arrives, Opened;
    RunSnoc(p, steps, Open(port));
    OpenedInv(p);
  }

  /** Exactly when a download that has locked onto its session can still complete. */
  lemma LockedCompletesIff(p: Params, steps: seq<Step>)
    requires ValidParams(p) && Completable(p)
    requires Run(p, steps).client.status.Running? && Run(p, steps).client.serverPort != 0
    ensures var s := Run(p, steps);
      && s.client.serverPort in s.conns
      && ((exists more :: Run(p, steps + more).client.status.Completed?) <==> Hopeful(p, s.conns[s.client.serverPort]))
  {
    hide Run, ClientInv, ConnInv;
    InvHolds(p, steps);
    var s := Run(p, steps);
    var port := s.client.serverPort;
    if Hopeful(p, s.conns[port]) {
      Bounds(p, s, port);
      var more := Finish(p, steps, port);
    } else {
      AtMostBlocks(p, s, port);
      forall more ensures !Run(p, steps + more).client.status.Completed? {
        NeverCompletes(p, steps, more);
      }
    }
  }

  /** A port that a copy of the request can open a session on, or that has a session which still can
      bring the transfer to its end. */
  predicate Usable(p: Params, s: State, port: U16) {
    port != 0 && port != p.mainPort && (port !in s.conns || Hopeful(p, s.conns[port]))
  }

  lemma FinishOn(p: Params, steps: seq<Step>, port: U16) returns (more: seq<Step>)
    requires ValidParams(p) && Completable(p) && Usable(p, Run(p, steps), port)
    requires Run(p, steps).client.status.Running? && Run(p, steps).client.serverPort == 0
    ensures Run(p, steps + more).client.status.Completed?
  {
    hide Run, ClientInv, ConnInv;
    var first := if port in Run(p, steps).conns then [] else [Open(port)];
    if first == [] {
      assert steps + first == steps;
    } else {
      OpensHopeful(p, steps, port);
    }
    InvHolds(p, steps + first);
    Bounds(p, Run(p, steps + first), port);
    var rest := Finish(p, steps + first, port);
    assert steps + first + rest == steps + (first + rest);
    more := first + rest;
  }

  /** Exactly when a download that has no session yet can still complete. */
  lemma UnlockedCompletesIff(p: Params, steps: seq<Step>)
    requires ValidParams(p) && Completable(p)
    requires Run(p, steps).client.status.Running? && Run(p, steps).client.serverPort == 0
    ensures (exists more :: Run(p, steps + more).client.status.Completed?) <==>
            (exists port: U16 :: Usable(p, Run(p, steps), port))
  {
    hide Run, Usable;
    if port: U16 :| Usable(p, Run(p, steps), port) {
      var more := FinishOn(p, steps, port);
    } else {
      forall more ensures !Run(p, steps + more).client.status.Completed? {
        NoneUsable(p, steps, more);
      }
    }
  }

  lemma StaysUnusable(p: Params, s: State, step: Step, port: U16)
    requires ValidState(s) && !Usable(p, s, port)
    ensures !Usable(p, Apply(p, s, step), port)
  {
    hide Arrives, ReadReceive, Opened;
  }

  lemma {:induction false} NoneUsable(p: Params, steps: seq<Step>, more: seq<Step>)
    requires ValidParams(p) && Completable(p)
    requires forall port: U16 :: !Usable(p, Run(p, steps), port)
    ensures !Run(p, steps + more).client.status.Completed?
    ensures forall port: U16 :: !Usable(p, Run(p, steps + more), port)
    decreases |more|
  {
    hide Run, Usable, Inv;
    InvHolds(p, steps + more);
    if more == [] {
      assert steps + more == steps;
    } else {
      var init, step := more[..|more| - 1], more[|more| - 1];
      NoneUsable(p, steps, init);
      assert steps + more == steps + init + [step];
      RunSnoc(p, steps + init, step);
      forall port: U16 ensures !Usable(p, Run(p, steps + more), port) {
        StaysUnusable(p, Run(p, steps + init), step, port);
      }
    }
    UnusableIsNotComplete(p, Run(p, steps + more));
  }

  lemma UnusableIsNotComplete(p: Params, s: State)
    requires Inv(p, s) && Completable(p) && !Usable(p, s, s.client.serverPort)
    ensures !s.client.status.Completed?
  {
    hide ReadReceive, Arrives;
    if s.client.serverPort != 0 {
      AtMostBlocks(p, s, s.client.serverPort);
      assert PortInv(s, s.client.serverPort);
    }
  }

  /** A locked client whose session has died too early is there for good. */
  predicate Dead(p: Params, s: State, port: U16) {
    && port != 0 && s.client.serverPort == port && port in s.conns
    && !s.conns[port].alive && |s.conns[port].outbox| < Blocks(p)
  }

  lemma DeadStaysDead(p: Params, s: State, step: Step, port: U16)
    requires ValidState(s) && Dead(p, s, port)
    ensures Dead(p, Apply(p, s, step), port)
  {
    hide Arrives, ReadAccept, Opened;
    match step
    case ToClient(from, i) => PortKept(p, s, from, i);
    case _ =>
  }

  lemma PortKept(p: Params, s: State, from: U16, i: nat)
    requires ValidState(s) && s.client.serverPort != 0
    ensures Apply(p, s, ToClient(from, i)).client.serverPort == s.client.serverPort
  {
    hide Arrives;
  }

  lemma {:induction false} NeverCompletes(p: Params, steps: seq<Step>, more: seq<Step>)
    requires ValidParams(p) && Completable(p)
    requires var s := Run(p, steps); s.client.serverPort in s.conns && Dead(p, s, s.client.serverPort)
    ensures !Run(p, steps + more).client.status.Completed?
    ensures Dead(p, Run(p, steps + more), Run(p, steps).client.serverPort)
    decreases |more|
  {
    hide Run, Dead, Inv;
    var port := Run(p, steps).client.serverPort;
    InvHolds(p, steps + more);
    if more == [] {
      assert steps + more == steps;
    } else {
      var init, step := more[..|more| - 1], more[|more| - 1];
      NeverCompletes(p, steps, init);
      assert steps + more == steps + init + [step];
      RunSnoc(p, steps + init, step);
      DeadStaysDead(p, Run(p, steps + init), step, port);
    }
    DeadIsNotComplete(p, Run(p, steps + more), port);
  }

  lemma DeadIsNotComplete(p: Params, s: State, port: U16)
    requires Inv(p, s) && Completable(p) && Dead(p, s, port)
    ensures !s.client.status.Completed?
  {
    assert PortInv(s, port);
  }
}
