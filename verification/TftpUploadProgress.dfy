/** No deadlock: from every reachable state in which the client is still waiting, an upload can be
    brought to its end, whatever has been lost, duplicated or reordered before, exactly while its
    session has not died with blocks still to take. */
module TftpUploadProgress {
  import opened Common
  import opened Packets
  import opened TftpClient
  import opened TftpNetwork
  import opened TftpUpload

  /** The session has not been opened yet, or lives, or has taken every block. */
  predicate Hopeful(p: Params, s: State) {
    s.conn == None || s.conn.value.alive || |s.conn.value.outbox| == Blocks(p) + 1
  }

  lemma WithinLimit(p: Params)
    requires Blocks(p) <= Limit(p.wire)
    ensures NoWrap(p)
  {}

  /** Open the session, deliver the acknowledgement that is under way, or else the block that is. */
  lemma NextStep(p: Params, s: State) returns (step: Step)
    requires ValidParams(p) && Blocks(p) <= Limit(p.wire) && ValidState(s) && Inv(p, s)
    requires s.client.status.Running? && Hopeful(p, s)
    ensures var t := Apply(p, s, step);
      && (t.client.status.Running? || t.client.status.Completed?) && Hopeful(p, t)
      && (t.client.status.Running? ==> Sent(t) + Expected(t) == Sent(s) + Expected(s) + 1)
  {
    hide Arrives, Opened, Answered, WriteReceive;
    WithinLimit(p);
    var c, m := Sent(s), Expected(s);
    if s.conn == None {
      step := Open;
      OpenedInv(p);
    } else if m == c + 1 {
      step := ToClient(c);
      assert s.conn.value.outbox[c] == Ack(c % 65536);
      AckArrives(p.wire, c);
      LimitIsSharp(p.wire, c);
      AckTaken(p, s.client, c, c);
    } else {
      step := ToServer(c);
      assert s.client.sent[c] == Outgoing(p.port, DataPacket(p, c));
      BlockTaken(p, s.conn.value, c);
    }
  }

  lemma {:induction false} Finish(p: Params, steps: seq<Step>) returns (more: seq<Step>)
    requires ValidParams(p) && Blocks(p) <= Limit(p.wire)
    requires Run(p, steps).client.status.Running? && Hopeful(p, Run(p, steps))
    ensures Run(p, steps + more).client.status.Completed?
    decreases 2 * Blocks(p) + 1 - Sent(Run(p, steps)) - Expected(Run(p, steps))
  {
    hide Run, Apply, Hopeful, Inv, Blocks, Sent, Expected, Limit, NoWrap;
    WithinLimit(p);
    InvHolds(p, steps);
    InvBounds(p, Run(p, steps));
    var step := NextStep(p, Run(p, steps));
    RunSnoc(p, steps, step);
    if Run(p, steps + [step]).client.status.Completed? {
      more := [step];
    } else {
      InvHolds(p, steps + [step]);
      InvBounds(p, Run(p, steps + [step]));
      var rest := Finish(p, steps + [step]);
      more := [step] + rest;
      assert steps + [step] + rest == steps + more;
    }
  }

  lemma InvBounds(p: Params, s: State)
    requires ValidState(s) && Inv(p, s)
    ensures Sent(s) <= Blocks(p) && Expected(s) <= Blocks(p) + 1
  {}

  /** Exactly when an upload within the limit can still complete. */
  lemma {:induction false} CompletesIff(p: Params, steps: seq<Step>)
    requires ValidParams(p) && Blocks(p) <= Limit(p.wire) && Run(p, steps).client.status.Running?
    ensures (exists more :: Run(p, steps + more).client.status.Completed?) <==> Hopeful(p, Run(p, steps))
  {
    hide Run, Hopeful;
    if Hopeful(p, Run(p, steps)) {
      var more := Finish(p, steps);
    } else {
      forall more ensures !Run(p, steps + more).client.status.Completed? {
        NeverCompletes(p, steps, more);
      }
    }
  }

  lemma DeadStaysDead(p: Params, s: State, step: Step)
    requires ValidState(s) && !Hopeful(p, s)
    ensures !Hopeful(p, Apply(p, s, step))
  {
    hide Arrives, WriteReceive, Opened;
  }

  lemma {:induction false} NeverCompletes(p: Params, steps: seq<Step>, more: seq<Step>)
    requires ValidParams(p) && Blocks(p) <= Limit(p.wire) && !Hopeful(p, Run(p, steps))
    ensures !Run(p, steps + more).client.status.Completed? && !Hopeful(p, Run(p, steps + more))
    decreases |more|
  {
    hide Run, Hopeful, Inv;
    WithinLimit(p);
    InvHolds(p, steps + more);
    if more == [] {
      assert steps + more == steps;
    } else {
      var init, step := more[..|more| - 1], more[|more| - 1];
      NeverCompletes(p, steps, init);
      assert steps + more == steps + init + [step];
      RunSnoc(p, steps + init, step);
      DeadStaysDead(p, Run(p, steps + init), step);
    }
    DeadIsNotComplete(p, Run(p, steps + more));
  }

  lemma DeadIsNotComplete(p: Params, s: State)
    requires ValidState(s) && Inv(p, s) && !Hopeful(p, s)
    ensures !s.client.status.Completed?
  {}
}
