/** The chat server (tcp/lib/Server.cpp): three parallel vectors and one log for everybody. */
module ChatServer {
  import opened Common
  import opened ChatSocket
  import opened ChatMessage
  import opened ChatPoll

  /** What the author wrote: a message without its time stamp. */
  datatype Line = Line(author: string, text: string)

  function Lines(ms: seq<Message>): seq<Line> {
    if ms == [] then [] else [Line(ms[0].author, ms[0].text)] + Lines(ms[1..])
  }

  lemma {:induction false} LinesAre(ms: seq<Message>, i: nat)
    requires i < |ms|
    ensures |Lines(ms)| == |ms| && Lines(ms)[i] == Line(ms[i].author, ms[i].text)
    decreases |ms|
  {
    if |ms| > 1 {
      LinesAre(ms[1..], if i > 0 then i - 1 else 0);
    }
  }

  /** What one sender contributed to the log. */
  ghost function Contributed(senders: seq<Socket>, ms: seq<Message>, s: Socket): seq<Line>
    requires |senders| == |ms|
    decreases |ms|
  {
    if ms == [] then []
    else
      var k := |ms| - 1;
      Contributed(senders[..k], ms[..k], s) + (if senders[k] == s then [Line(ms[k].author, ms[k].text)] else [])
  }

  lemma ContributedSnoc(senders: seq<Socket>, ms: seq<Message>, sender: Socket, m: Message, s: Socket)
    requires |senders| == |ms|
    ensures Contributed(senders + [sender], ms + [m], s) ==
            Contributed(senders, ms, s) + (if sender == s then [Line(m.author, m.text)] else [])
  {
    assert (senders + [sender])[..|ms|] == senders && (ms + [m])[..|ms|] == ms;
  }

  lemma {:induction false} NothingContributed(senders: seq<Socket>, ms: seq<Message>, s: Socket)
    requires |senders| == |ms| && s !in senders
    ensures Contributed(senders, ms, s) == []
    decreases |ms|
  {
    if ms != [] {
      NothingContributed(senders[..|ms| - 1], ms[..|ms| - 1], s);
    }
  }

  predicate ToldPrefix(told: string, ms: seq<Message>) {
    exists k :: 0 <= k <= |ms| && told == WireAll(ms[..k])
  }

  lemma ToldAll(ms: seq<Message>)
    ensures ToldPrefix(WireAll(ms), ms)
  {
    assert ms[..|ms|] == ms;
  }

  lemma ToldPrefixGrows(told: string, ms: seq<Message>, m: Message)
    requires ToldPrefix(told, ms)
    ensures ToldPrefix(told, ms + [m])
  {
    var k :| 0 <= k <= |ms| && told == WireAll(ms[..k]);
    assert (ms + [m])[..k] == ms[..k];
  }

  lemma WireAllSnoc(ms: seq<Message>, m: Message)
    ensures WireAll(ms + [m]) == WireAll(ms) + Wire(m)
  {
    assert (ms + [m])[..|ms|] == ms;
  }

  /** Entry i + 1 of the poll list, socket i and wrapper i belong to the same client; entry 0 is the
      accepting socket; no descriptor occurs twice. */
  ghost predicate Aligned(acceptingFD: int, polls: seq<PollFD>, sockets: seq<Socket>, wrappers: seq<SocketWrapper>) {
    && |polls| == |sockets| + 1 && |wrappers| == |sockets|
    && polls[0].fd == acceptingFD
    && (forall i :: 0 <= i < |sockets| ==> wrappers[i].socket == sockets[i] && polls[i + 1].fd == sockets[i].fd)
    && (forall i, j :: 0 <= i < j < |polls| ==> polls[i].fd != polls[j].fd)
  }

  lemma RemovalKeepsAligned(acceptingFD: int, polls: seq<PollFD>, sockets: seq<Socket>,
                            wrappers: seq<SocketWrapper>, i: nat)
    requires Aligned(acceptingFD, polls, sockets, wrappers) && 1 <= i < |polls|
    ensures Aligned(acceptingFD, SwapPop(polls, i), SwapPop(sockets, i - 1), SwapPop(wrappers, i - 1))
  {}

  /** Exactly the one client goes. */
  lemma RemovalMembers(acceptingFD: int, polls: seq<PollFD>, sockets: seq<Socket>,
                       wrappers: seq<SocketWrapper>, i: nat)
    requires Aligned(acceptingFD, polls, sockets, wrappers) && i < |sockets|
    ensures sockets[i] !in SwapPop(sockets, i)
    ensures forall s :: s in SwapPop(sockets, i) ==> s in sockets
    ensures forall s :: s in sockets && s != sockets[i] ==> s in SwapPop(sockets, i)
  {
    forall s | s in sockets && s != sockets[i] ensures s in SwapPop(sockets, i) {
      var j :| 0 <= j < |sockets| && sockets[j] == s;
      assert SwapPop(sockets, i)[if j == |sockets| - 1 then i else j] == s;
    }
  }

  /** What a client said so far, and the messages still to come from it, are together everything it
      ever sends: nothing is lost, repeated or reordered. */
  ghost predicate HeardUpTo(senders: seq<Socket>, ms: seq<Message>, s: Socket, stream: string)
    requires |senders| == |ms|
  {
    && Lines(ReadAll(s.script).messages) == Contributed(senders, ms, s) + Lines(ReadAll(stream).messages)
    && OutcomeOf(ReadAll(s.script).end) == OutcomeOf(ReadAll(stream).end)
  }

  /** The log holds every message of the client; end is how the server's last read from it ended. */
  ghost predicate AllHeard(senders: seq<Socket>, ms: seq<Message>, s: Socket, end: Outcome)
    requires |senders| == |ms|
  {
    Lines(ReadAll(s.script).messages) == Contributed(senders, ms, s) && OutcomeOf(ReadAll(s.script).end) == end
  }

  lemma NothingHeard(senders: seq<Socket>, ms: seq<Message>, s: Socket)
    requires |senders| == |ms| && s !in senders
    ensures HeardUpTo(senders, ms, s, s.script)
  {
    hide ReadAll, Lines, Contributed;
    NothingContributed(senders, ms, s);
    assert [] + Lines(ReadAll(s.script).messages) == Lines(ReadAll(s.script).messages);
  }

  lemma HeardToTheEnd(senders: seq<Socket>, ms: seq<Message>, s: Socket, stream: string)
    requires |senders| == |ms| && HeardUpTo(senders, ms, s, stream) && !ParseMessage(stream).Got?
    ensures AllHeard(senders, ms, s, OutcomeOf(ParseMessage(stream)))
  {}

  lemma HeardNext(senders: seq<Socket>, ms: seq<Message>, s: Socket, stream: string, time: Time)
    requires |senders| == |ms| && HeardUpTo(senders, ms, s, stream) && ParseMessage(stream).Got?
    ensures var m := ParseMessage(stream).message.(accepted := time);
      Sendable(m) && HeardUpTo(senders + [s], ms + [m], s, ParseMessage(stream).rest)
  {
    hide ParseMessage, Contributed;
    GotIsSendable(stream);
    var m := ParseMessage(stream).message;
    var rest := ReadAll(ParseMessage(stream).rest).messages;
    assert ([m] + rest)[1..] == rest;
    ContributedSnoc(senders, ms, s, m.(accepted := time), s);
  }

  lemma HeardFromAnother(senders: seq<Socket>, ms: seq<Message>, s: Socket, stream: string, sender: Socket, m: Message)
    requires |senders| == |ms| && sender != s
    ensures HeardUpTo(senders, ms, s, stream) ==> HeardUpTo(senders + [sender], ms + [m], s, stream)
    ensures AllHeard(senders, ms, s, Returned(None)) ==> AllHeard(senders + [sender], ms + [m], s, Returned(None))
  {
    hide ReadAll, Contributed, Lines;
    ContributedSnoc(senders, ms, sender, m, s);
  }

  ghost predicate Hears(senders: seq<Socket>, ms: seq<Message>, w: SocketWrapper)
    requires |senders| == |ms|
    reads w, w.socket`incoming
  {
    w.Valid() && HeardUpTo(senders, ms, w.socket, w.Remaining())
  }

  /** Every connected client has been sent the whole log, every departed one a prefix of it. */
  ghost predicate AllTold(sockets: seq<Socket>, departed: set<Socket>, ms: seq<Message>)
    reads sockets`accepted, departed`accepted
  {
    && (forall s :: s in sockets ==> s.accepted == WireAll(ms))
    && (forall s :: s in departed ==> s !in sockets && ToldPrefix(s.accepted, ms))
    && (forall m :: m in ms ==> Sendable(m))
  }

  /** Every client has been heard up to what is still to come from it, every departed one to the end;
      but this says nothing of client k. */
  ghost predicate AllListenedBut(sockets: seq<Socket>, wrappers: seq<SocketWrapper>, departed: set<Socket>,
                                 senders: seq<Socket>, ms: seq<Message>, k: int)
    reads wrappers, (set w | w in wrappers :: w.socket)`incoming
  {
    && |senders| == |ms|
    && (forall i :: 0 <= i < |wrappers| && i != k ==> Hears(senders, ms, wrappers[i]))
    && (forall s :: s in departed ==> AllHeard(senders, ms, s, Returned(None)))
    && (forall s :: s in senders ==> s in sockets || s in departed)
  }

  lemma RemovalKeepsTold(acceptingFD: int, polls: seq<PollFD>, sockets: seq<Socket>, wrappers: seq<SocketWrapper>,
                         departed: set<Socket>, ms: seq<Message>, k: nat)
    requires Aligned(acceptingFD, polls, sockets, wrappers) && k < |sockets|
    requires AllTold(sockets, departed, ms)
    ensures AllTold(SwapPop(sockets, k), departed + {sockets[k]}, ms) && sockets[k] !in departed
  {
    hide WireAll, Sendable, ToldPrefix;
    ToldAll(ms);
    RemovalMembers(acceptingFD, polls, sockets, wrappers, k);
  }

  lemma RemovalKeepsListened(acceptingFD: int, polls: seq<PollFD>, sockets: seq<Socket>, wrappers: seq<SocketWrapper>,
                             departed: set<Socket>, senders: seq<Socket>, ms: seq<Message>, k: nat)
    requires Aligned(acceptingFD, polls, sockets, wrappers) && k < |sockets|
    requires AllListenedBut(sockets, wrappers, departed, senders, ms, k) && AllHeard(senders, ms, sockets[k], Returned(None))
    ensures AllListenedBut(SwapPop(sockets, k), SwapPop(wrappers, k), departed + {sockets[k]}, senders, ms, -1)
  {
    hide HeardUpTo, AllHeard;
    RemovalMembers(acceptingFD, polls, sockets, wrappers, k);
  }

  /** What the server would read next from a client. */
  ghost function Pending(w: SocketWrapper): ReadResult
    reads w, w.socket`incoming
  {
    if w.Valid() then ParseMessage(w.Remaining()) else Endless
  }

  ghost function NextReads(ws: seq<SocketWrapper>): (r: seq<ReadResult>)
    reads ws, (set w | w in ws :: w.socket)`incoming
    ensures |r| == |ws| && forall j :: 0 <= j < |ws| ==> r[j] == Pending(ws[j])
    decreases |ws|
  {
    if ws == [] then [] else NextReads(ws[..|ws| - 1]) + [Pending(ws[|ws| - 1])]
  }

  /** One turn of the server's loop: the answer of poll, and a connection that may be waiting. */
  datatype Round = Round(ready: seq<bool>, fd: int, script: string, patience: nat)

  /** TServer::TImpl. The ghost fields remember who sent each logged message, who has left, and, when
      the server does not come back from a client's message, which client (else -1). */
  class ChatServer {
    const acceptingFD: int
    var pollFDs: seq<PollFD>
    var clientSockets: seq<Socket>
    var clientWrappers: seq<SocketWrapper>
    var messages: seq<Message>
    ghost var senders: seq<Socket>
    ghost var departed: set<Socket>
    ghost var stuckOn: int

    ghost predicate Told()
      reads `clientSockets, `messages, `departed, clientSockets`accepted, departed`accepted
    {
      AllTold(clientSockets, departed, messages)
    }

    ghost predicate ListenedBut(k: int)
      reads `clientSockets, `clientWrappers, `messages, `senders, `departed
      reads clientWrappers, (set w | w in clientWrappers :: w.socket)`incoming
    {
      AllListenedBut(clientSockets, clientWrappers, departed, senders, messages, k)
    }

    ghost predicate Valid()
      reads this, clientSockets`accepted, departed`accepted
      reads clientWrappers, (set w | w in clientWrappers :: w.socket)`incoming
    {
      && Aligned(acceptingFD, pollFDs, clientSockets, clientWrappers)
      && Told() && ListenedBut(stuckOn)
      && (stuckOn != -1 ==> 0 <= stuckOn < |clientSockets| && |senders| == |messages|
                            && (AllHeard(senders, messages, clientSockets[stuckOn], Stuck)
                                || AllHeard(senders, messages, clientSockets[stuckOn], Unguarded)))
    }

    ghost predicate Running()
      reads this, clientSockets`accepted, departed`accepted
      reads clientWrappers, (set w | w in clientWrappers :: w.socket)`incoming
    {
      Valid() && stuckOn == -1
    }

    /** From the clients of the entries from i on nothing has been read since nexts was written down. */
    ghost predicate Ahead(i: int, nexts: seq<ReadResult>)
      reads `clientWrappers, clientWrappers, (set w | w in clientWrappers :: w.socket)`incoming
    {
      forall j :: i - 1 <= j < |clientWrappers| && 0 <= j < |nexts| ==> Pending(clientWrappers[j]) == nexts[j]
    }

    constructor (acceptingFD: int)
      ensures Running() && clientSockets == [] && messages == [] && departed == {} && senders == []
      ensures pollFDs == [PollFD(acceptingFD, false)]
    {
      this.acceptingFD := acceptingFD;
      this.pollFDs := [PollFD(acceptingFD, false)];
      this.clientSockets := [];
      this.clientWrappers := [];
      this.messages := [];
      this.senders := [];
      this.departed := {};
      this.stuckOn := -1;
    }

    method Connect(fd: int, script: string, patience: nat)
      requires Aligned(acceptingFD, pollFDs, clientSockets, clientWrappers) && ListenedBut(-1)
      requires forall j :: 0 <= j < |pollFDs| ==> pollFDs[j].fd != fd
      modifies this`pollFDs, this`clientSockets, this`clientWrappers
      ensures Aligned(acceptingFD, pollFDs, clientSockets, clientWrappers) && ListenedBut(-1)
      ensures pollFDs == old(pollFDs) + [PollFD(fd, false)]
      ensures clientSockets != [] && clientSockets[..|clientSockets| - 1] == old(clientSockets)
      ensures var s := clientSockets[|clientSockets| - 1]; fresh(s) && s.script == script && s.accepted == ""
      ensures clientWrappers != [] && clientWrappers[..|clientWrappers| - 1] == old(clientWrappers)
      ensures var w := clientWrappers[|clientWrappers| - 1]; fresh(w) && w.Valid() && w.Remaining() == script
      ensures clientWrappers[|clientWrappers| - 1].socket == clientSockets[|clientSockets| - 1]
    {
      hide ReadAll, Lines, Contributed, HeardUpTo, AllHeard;
      pollFDs := pollFDs + [PollFD(fd, false)];
      var socket := new Socket(fd, script, patience);
      var wrapper := new SocketWrapper(socket);
      clientSockets := clientSockets + [socket];
      clientWrappers := clientWrappers + [wrapper];
      NothingHeard(senders, messages, socket);
      assert wrapper.Remaining() == script;
      assert Hears(senders, messages, wrapper);
    }

    /** A new connection: whatever was said before is sent to it at once. */
    method AcceptClient(fd: int, script: string, patience: nat)
      requires Running() && forall j :: 0 <= j < |pollFDs| ==> pollFDs[j].fd != fd
      modifies this`pollFDs, this`clientSockets, this`clientWrappers
      ensures Running() && pollFDs == old(pollFDs) + [PollFD(fd, false)]
      ensures clientSockets != [] && clientSockets[..|clientSockets| - 1] == old(clientSockets)
      ensures var s := clientSockets[|clientSockets| - 1]; fresh(s) && s.script == script
      ensures messages == old(messages) && departed == old(departed)
      ensures clientWrappers != [] && clientWrappers[..|clientWrappers| - 1] == old(clientWrappers)
      ensures var w := clientWrappers[|clientWrappers| - 1]; fresh(w) && w.Valid() && w.Remaining() == script
    {
      hide WireAll, ReadAll, AllListenedBut, AllHeard, ToldPrefix, Sendable, Aligned;
      Connect(fd, script, patience);
      ghost var socket := clientSockets[|clientSockets| - 1];
      assert clientSockets == old(clientSockets) + [socket];
      SerializeAll(messages, clientWrappers[|clientWrappers| - 1]);
    }

    method Broadcast(m: Message)
      requires Aligned(acceptingFD, pollFDs, clientSockets, clientWrappers)
      modifies clientSockets`accepted, clientSockets`patience
      ensures forall s :: s in clientSockets ==> s.accepted == old(s.accepted) + Wire(m)
    {
      for k := 0 to |clientWrappers|
        invariant forall j :: 0 <= j < k ==> clientSockets[j].accepted == old(clientSockets[j].accepted) + Wire(m)
        invariant forall j :: k <= j < |clientSockets| ==> clientSockets[j].accepted == old(clientSockets[j].accepted)
      {
        Serialize(m, clientWrappers[k]);
      }
    }

    /** Logging the message m that client k has said. */
    method Record(k: nat, m: Message)
      requires Aligned(acceptingFD, pollFDs, clientSockets, clientWrappers) && ListenedBut(k)
      requires k < |clientWrappers| && clientWrappers[k].Valid()
      requires HeardUpTo(senders + [clientSockets[k]], messages + [m], clientSockets[k], clientWrappers[k].Remaining())
      requires forall d :: d in departed ==> d !in clientSockets
      modifies this`messages, this`senders
      ensures ListenedBut(-1) && messages == old(messages) + [m]
    {
      hide HeardUpTo, AllHeard;
      ghost var s := clientSockets[k];
      forall j | 0 <= j < |clientWrappers| && j != k
        ensures HeardUpTo(senders + [s], messages + [m], clientWrappers[j].socket, clientWrappers[j].Remaining())
      {
        assert pollFDs[j + 1].fd != pollFDs[k + 1].fd;
        assert Hears(senders, messages, clientWrappers[j]);
        HeardFromAnother(senders, messages, clientWrappers[j].socket, clientWrappers[j].Remaining(), s, m);
      }
      forall d | d in departed ensures AllHeard(senders + [s], messages + [m], d, Returned(None)) {
        HeardFromAnother(senders, messages, d, "", s, m);
      }
      messages := messages + [m];
      senders := senders + [s];
    }

    /** Telling everybody before logging. */
    method Publish(k: nat, m: Message)
      requires Aligned(acceptingFD, pollFDs, clientSockets, clientWrappers) && Told() && ListenedBut(k)
      requires stuckOn == -1 && k < |clientWrappers| && Sendable(m) && clientWrappers[k].Valid()
      requires HeardUpTo(senders + [clientSockets[k]], messages + [m], clientSockets[k], clientWrappers[k].Remaining())
      modifies this`messages, this`senders, clientSockets`accepted, clientSockets`patience
      ensures Running() && messages == old(messages) + [m]
    {
      hide WireAll, Wire, ToldPrefix, Sendable, HeardUpTo, AllListenedBut, Aligned;
      Broadcast(m);
      forall d | d in departed ensures ToldPrefix(d.accepted, messages + [m]) {
        ToldPrefixGrows(d.accepted, messages, m);
      }
      WireAllSnoc(messages, m);
      Record(k, m);
    }

    /** Client k has said all and goes. */
    method Remove(k: nat)
      requires Aligned(acceptingFD, pollFDs, clientSockets, clientWrappers) && Told() && ListenedBut(k)
      requires stuckOn == -1 && k < |clientWrappers| && AllHeard(senders, messages, clientSockets[k], Returned(None))
      modifies this`pollFDs, this`clientSockets, this`clientWrappers, this`departed
      ensures Running() && departed == old(departed) + {old(clientSockets[k])} && |departed| == |old(departed)| + 1
      ensures pollFDs == SwapPop(old(pollFDs), k + 1) && clientSockets == SwapPop(old(clientSockets), k)
      ensures clientWrappers == SwapPop(old(clientWrappers), k)
    {
      hide AllTold, AllListenedBut, AllHeard;
      RemovalKeepsAligned(acceptingFD, pollFDs, clientSockets, clientWrappers, k + 1);
      RemovalKeepsTold(acceptingFD, pollFDs, clientSockets, clientWrappers, departed, messages, k);
      RemovalKeepsListened(acceptingFD, pollFDs, clientSockets, clientWrappers, departed, senders, messages, k);
      departed := departed + {clientSockets[k]};
      clientWrappers := SwapPop(clientWrappers, k);
      clientSockets := SwapPop(clientSockets, k);
      pollFDs := SwapPop(pollFDs, k + 1);
    }

    lemma EntryOf(k: nat)
      requires Running() && k + 1 < |pollFDs|
      ensures k < |clientWrappers| && |clientSockets| == |clientWrappers|
      ensures clientWrappers[k].socket == clientSockets[k]
    {}

    /** Reading the next message of client k touches nobody else. */
    method ReadFrom(k: nat) returns (r: Outcome, ghost s: Socket, ghost stream: string)
      requires Running() && k < |clientWrappers|
      modifies clientWrappers[k], clientWrappers[k].socket`incoming
      ensures Aligned(acceptingFD, pollFDs, clientSockets, clientWrappers) && Told() && ListenedBut(k)
      ensures |clientSockets| == |clientWrappers| == |pollFDs| - 1 && |senders| == |messages|
      ensures s == clientSockets[k] && stream == old(clientWrappers[k].Remaining())
      ensures HeardUpTo(senders, messages, s, stream)
      ensures r == OutcomeOf(ParseMessage(stream)) == OutcomeOf(old(Pending(clientWrappers[k])))
      ensures clientWrappers[k].Valid() && (r.Returned? ==> clientWrappers[k].Remaining() == ParseMessage(stream).rest)
      ensures forall j :: 0 <= j < |clientWrappers| && j != k ==>
        Pending(clientWrappers[j]) == old(Pending(clientWrappers[j]))
    {
      hide AllTold, Sendable, ParseMessage, HeardUpTo, AllHeard;
      s, stream := clientSockets[k], clientWrappers[k].Remaining();
      assert Hears(senders, messages, clientWrappers[k]);
      forall j | 0 <= j < |clientWrappers| && j != k
        ensures clientWrappers[j] != clientWrappers[k] && clientWrappers[j].socket != clientWrappers[k].socket
      {
        assert pollFDs[j + 1].fd != pollFDs[k + 1].fd;
      }
      r := ReadMessage(clientWrappers[k]);
      forall j | 0 <= j < |clientWrappers| && j != k ensures Hears(senders, messages, clientWrappers[j]) {
        assert pollFDs[j + 1].fd != pollFDs[k + 1].fd;
      }
    }

    /** One message of a client, or its farewell; or the server does not come back. Whatever the
        client sends, the outcome is that of ReadMessage on its stream. */
    method AcceptMessage(i: nat, time: Time) returns (r: Outcome)
      requires Running() && 1 <= i < |pollFDs|
      modifies this, clientSockets, clientWrappers
      ensures Valid() && r == OutcomeOf(ParseMessage(old(clientWrappers[i - 1].Remaining())))
      ensures r == OutcomeOf(old(Pending(clientWrappers[i - 1])))
      ensures stuckOn == if r.Returned? then -1 else i - 1
      ensures if r.Returned? && r.message.Some?
              then messages == old(messages) + [r.message.value.(accepted := time)] else messages == old(messages)
      ensures if r == Returned(None)
              then && departed == old(departed) + {old(clientSockets[i - 1])} && |departed| == |old(departed)| + 1
                   && pollFDs == SwapPop(old(pollFDs), i)
                   && clientSockets == SwapPop(old(clientSockets), i - 1)
                   && clientWrappers == SwapPop(old(clientWrappers), i - 1)
              else && departed == old(departed) && pollFDs == old(pollFDs)
                   && clientSockets == old(clientSockets) && clientWrappers == old(clientWrappers)
      ensures forall j :: 0 <= j < old(|clientWrappers|) && j != i - 1 ==>
        Pending(old(clientWrappers[j])) == old(Pending(clientWrappers[j]))
    {
      hide AllTold, AllListenedBut, Sendable, ParseMessage, HeardUpTo, AllHeard, Aligned, Pending, SwapPop;
      var sockId := i - 1;
      EntryOf(sockId);
      ghost var s, stream;
      r, s, stream := ReadFrom(sockId);
      if !r.Returned? {
        HeardToTheEnd(senders, messages, s, stream);
        stuckOn := sockId;
        return;
      }
      if r.message == None {
        // Bye!
        HeardToTheEnd(senders, messages, s, stream);
        Remove(sockId);
        return;
      }
      var message := r.message.value.(accepted := time);
      HeardNext(senders, messages, s, stream, time);
      Publish(sockId, message);
    }

    /** The entry i is ready: a new connection for the accepting socket, else a message. A client that
        is served leaves exactly if its stream is closed next, and keeps the server exactly if what comes
        next is no message either; otherwise it says one. */
    method Serve(i: nat, fd: int, script: string, patience: nat, ghost nexts: seq<ReadResult>)
      returns (running: bool)
      requires Running() && i < |pollFDs| && i <= |nexts| && Ahead(i, nexts)
      requires i == 0 ==> |nexts| <= |clientWrappers|
      requires i == 0 ==> forall j :: 0 <= j < |pollFDs| ==> pollFDs[j].fd != fd
      modifies this, clientSockets, clientWrappers
      ensures Valid() && (running <==> stuckOn == -1) && old(messages) <= messages && old(departed) <= departed
      ensures Reshaped(old(pollFDs), i, fd, pollFDs, |departed| != |old(departed)|)
      ensures i >= 1 ==>
        && (|departed| != |old(departed)| <==> nexts[i - 1].Closed?)
        && (running <==> nexts[i - 1].Closed? || nexts[i - 1].Got?)
      ensures i == 0 ==> departed == old(departed)
      ensures running ==> Ahead(i + 1, nexts)
      ensures |messages| + |departed| == old(|messages| + |departed|) + (if i >= 1 && running then 1 else 0)
      ensures i == 0 ==> running
      ensures |old(departed)| <= |departed| <= |old(departed)| + 1
      ensures |departed| == |old(departed)| ==> departed == old(departed)
      ensures forall j :: 0 <= j < |clientSockets| ==> clientSockets[j] in old(clientSockets) || fresh(clientSockets[j])
      ensures forall j :: 0 <= j < |clientWrappers| ==> clientWrappers[j] in old(clientWrappers) || fresh(clientWrappers[j])
    {
      hide ReadAll, ParseMessage, AllTold, AllListenedBut, AllHeard, SwapPop;
      ghost var ws := clientWrappers;
      if pollFDs[i].fd == acceptingFD {
        AcceptClient(fd, script, patience);
        running := true;
        forall j | 0 <= j < |clientWrappers| && j < |nexts| ensures Pending(clientWrappers[j]) == nexts[j] {
          assert clientWrappers[j] == ws[j];
        }
      } else {
        var time: Time := *;
        var r := AcceptMessage(i, time);
        running := r.Returned?;
        forall j | i <= j < |clientWrappers| && j < |nexts| ensures Pending(clientWrappers[j]) == nexts[j] {
          assert clientWrappers[j] == ws[j];
        }
      }
    }

    lemma NothingReadYet()
      requires Running()
      ensures |NextReads(clientWrappers)| + 1 == |pollFDs| && Ahead(0, NextReads(clientWrappers))
    {
      hide AllTold, AllListenedBut, AllHeard;
    }

    /** poll: it only says who is ready. */
    method Poll(ready: seq<bool>, ghost fd: int)
      requires Running() && |ready| == |pollFDs|
      requires forall j :: 0 <= j < |pollFDs| ==> pollFDs[j].fd != fd
      modifies this`pollFDs
      ensures Running() && pollFDs == Polled(old(pollFDs), ready) && |pollFDs| == |ready|
      ensures pollFDs != [] && pollFDs[0].ready == ready[0]
      ensures DistinctFDs(Listed(pollFDs, fd)) && forall j :: 0 <= j < |pollFDs| ==> pollFDs[j].fd != fd
    {
      hide AllTold, AllListenedBut, AllHeard;
      pollFDs := Polled(pollFDs, ready);
      ListedDistinct(pollFDs, fd);
    }

    lemma Entries()
      requires Valid()
      ensures |pollFDs| == |clientWrappers| + 1 && DistinctFDs(pollFDs)
    {
      hide AllTold, AllListenedBut, AllHeard;
    }

    lemma AheadLater(i: nat, nexts: seq<ReadResult>)
      requires Ahead(i, nexts)
      ensures Ahead(i + 1, nexts)
    {}

    /** One turn of the index loop. */
    method Look(i: nat, fd: int, script: string, patience: nat, ghost start: seq<PollFD>, ghost left: nat,
                ghost handled: seq<int>, ghost nexts: seq<ReadResult>)
      returns (running: bool, ghost handled': seq<int>)
      requires Running() && i < |pollFDs| && left <= |departed|
      requires i == 0 ==> forall j :: 0 <= j < |pollFDs| ==> pollFDs[j].fd != fd
      requires Progress(start, fd, pollFDs, i, handled, |departed| - left)
      requires Seen(start, fd, nexts, i, |departed| - left, true) && |start| == |nexts| + 1 && Ahead(i, nexts)
      modifies this, clientSockets, clientWrappers
      ensures Valid() && (running <==> stuckOn == -1) && old(messages) <= messages && old(departed) <= departed
      ensures |old(departed)| <= |departed| && (|departed| == |old(departed)| ==> departed == old(departed))
      ensures pollFDs != [] && Progress(start, fd, pollFDs, i + 1, handled', |departed| - left)
      ensures Seen(start, fd, nexts, i + 1, |departed| - left, running) && (running ==> Ahead(i + 1, nexts))
      ensures |messages| + |departed| - |handled'| == old(|messages| + |departed|) - |handled|
                - (if i == 0 && old(pollFDs[i].ready) then 1 else 0) - (if running then 0 else 1)
      ensures i == 0 ==> running
      ensures forall j :: 0 <= j < |clientSockets| ==> clientSockets[j] in old(clientSockets) || fresh(clientSockets[j])
      ensures forall j :: 0 <= j < |clientWrappers| ==> clientWrappers[j] in old(clientWrappers) || fresh(clientWrappers[j])
    {
      hide AllTold, AllListenedBut, AllHeard, Progress, Reshaped, Seen, Listed, Aligned, DistinctFDs, Ahead, Pending;
      Entries();
      AheadLater(i, nexts);
      ProgressAt(start, fd, pollFDs, i, handled, |departed| - left);
      ghost var polls, gone := pollFDs, |departed| - left;
      handled' := handled;
      running := true;
      if pollFDs[i].ready {
        running := Serve(i, fd, script, patience, nexts);
        Entries();
        ProgressServes(start, fd, polls, i, handled, gone, pollFDs, |departed| != left + gone);
        handled' := handled + [polls[i].fd];
      } else {
        ProgressSkips(start, fd, polls, i, handled, gone);
      }
      SeenNext(start, fd, nexts, i, gone, |departed| - left, running);
    }

    /** One turn of Run: poll says who is ready, the index loop looks at the entries while the list
        grows, shrinks and is shuffled. What the clients are about to say when the pass begins decides it
        all: a ready entry is handled exactly if it is reached, and the server comes back exactly if no
        client that is reached keeps it. Entries are handled once, in order, up to the entry looked.
        When the loop ends the others are the last ones of the list, each moved into the slot of a
        client that had left: they are passed over. */
    method Pass(ready: seq<bool>, fd: int, script: string, patience: nat)
      returns (running: bool, ghost handled: seq<int>, ghost looked: nat)
      requires Running() && |ready| == |pollFDs|
      requires forall j :: 0 <= j < |pollFDs| ==> pollFDs[j].fd != fd
      modifies this, clientSockets, clientWrappers
      ensures Valid() && (running <==> stuckOn == -1) && old(messages) <= messages && old(departed) <= departed
      ensures Exact(Polled(old(pollFDs), ready), fd, old(NextReads(clientWrappers)), handled, running)
      ensures |departed| == |old(departed)| + Leavers(Polled(old(pollFDs), ready), old(NextReads(clientWrappers)), looked)
      ensures Handled(Polled(old(pollFDs), ready), fd, looked, handled)
      ensures running ==> PassedOver(Listed(Polled(old(pollFDs), ready), fd), pollFDs, looked)
      ensures running && departed == old(departed) ==> handled == ReadyFDs(Polled(old(pollFDs), ready))
      ensures |pollFDs| + |departed| == |Listed(Polled(old(pollFDs), ready), fd)| + |old(departed)|
      ensures |messages| + |departed| == old(|messages| + |departed|) + |handled|
                - (if looked > 0 && ready[0] then 1 else 0) - (if running then 0 else 1)
      ensures forall j :: 0 <= j < |clientSockets| ==> clientSockets[j] in old(clientSockets) || fresh(clientSockets[j])
      ensures forall j :: 0 <= j < |clientWrappers| ==> clientWrappers[j] in old(clientWrappers) || fresh(clientWrappers[j])
    {
      hide ReadAll, AllTold, AllListenedBut, AllHeard, Progress, ReadyFDs, Reshaped, PassedOver, Handled, Listed, Aligned, Polled, DistinctFDs, Seen, Exact, Leavers, Ahead, NextReads, Pending, AllHeard;
      ghost var nexts := NextReads(clientWrappers);
      NothingReadYet();
      Poll(ready, fd);
      ghost var start, left := pollFDs, |departed|;
      SeenStarts(start, fd, nexts);
      handled := [];
      running := true;
      var i := 0;
      ProgressStarts(start, fd);
      while i < |pollFDs| && running
        invariant Valid() && (running <==> stuckOn == -1) && old(messages) <= messages && old(departed) <= departed
        invariant forall j :: 0 <= j < |clientSockets| ==> clientSockets[j] in old(clientSockets) || fresh(clientSockets[j])
        invariant forall j :: 0 <= j < |clientWrappers| ==> clientWrappers[j] in old(clientWrappers) || fresh(clientWrappers[j])
        invariant pollFDs != [] && (i == 0 ==> pollFDs == start && running)
        invariant left <= |departed| && (|departed| == left ==> departed == old(departed))
        invariant Progress(start, fd, pollFDs, i, handled, |departed| - left)
        invariant Seen(start, fd, nexts, i, |departed| - left, running) && (running ==> Ahead(i, nexts))
        invariant |messages| + |departed| == old(|messages| + |departed|) + |handled|
                    - (if i > 0 && ready[0] then 1 else 0) - (if running then 0 else 1)
        decreases |start| + 1 - i
      {
        ProgressBound(start, fd, pollFDs, i, handled, |departed| - left);
        running, handled := Look(i, fd, script, patience, start, left, handled, nexts);
        i := i + 1;
      }
      looked := i;
      ProgressDone(start, fd, pollFDs, i, handled, |departed| - left);
      SeenIsExact(start, fd, nexts, i, handled, |departed| - left, running);
      HandledAll(start, fd, looked, handled);
    }

    /** Run: any number of turns, with any readiness, any new connections and any input on them. A
        round that cannot occur is passed over; a server that does not come back takes no more turns. */
    method Run(rounds: seq<Round>) returns (running: bool)
      requires Running()
      modifies this, clientSockets, clientWrappers
      ensures Valid() && (running <==> stuckOn == -1) && old(messages) <= messages && old(departed) <= departed
    {
      hide AllTold, AllListenedBut, AllHeard, Aligned;
      running := true;
      var n := 0;
      while n < |rounds| && running
        invariant Valid() && (running <==> stuckOn == -1) && old(messages) <= messages && old(departed) <= departed
        invariant forall j :: 0 <= j < |clientSockets| ==> clientSockets[j] in old(clientSockets) || fresh(clientSockets[j])
        invariant forall j :: 0 <= j < |clientWrappers| ==> clientWrappers[j] in old(clientWrappers) || fresh(clientWrappers[j])
      {
        var r := rounds[n];
        if |r.ready| == |pollFDs| && forall j :: 0 <= j < |pollFDs| ==> pollFDs[j].fd != r.fd {
          ghost var handled, looked;
          running, handled, looked := Pass(r.ready, r.fd, r.script, r.patience);
        }
        n := n + 1;
      }
    }

    /** A peer that connects and closes anywhere inside a message stops the server for good. */
    method ClosingPeer(m: Message, k: nat, fd: int, patience: nat, time: Time) returns (r: Outcome)
      requires Running() && forall j :: 0 <= j < |pollFDs| ==> pollFDs[j].fd != fd
      requires Sendable(m) && 1 <= k < |Wire(m)|
      modifies this, clientSockets, clientWrappers
      ensures Valid() && r == Stuck && clientSockets != [] && stuckOn == |clientSockets| - 1
      ensures clientSockets[stuckOn].fd == fd && messages == old(messages)
    {
      hide AllTold, AllListenedBut, AllHeard, ParseMessage, Wire, ReadAll;
      AcceptClient(fd, Wire(m)[..k], patience);
      ClosedInside(m, k);
      ghost var last := |clientSockets| - 1;
      assert clientSockets == old(clientSockets) + [clientSockets[last]];
      assert clientWrappers == old(clientWrappers) + [clientWrappers[last]];
      r := AcceptMessage(|pollFDs| - 1, time);
    }

    /** A connected client that decodes what it was sent gets the log, to the last byte. */
    lemma ConnectedClientsAgree(s: Socket)
      requires Valid() && s in clientSockets
      ensures ReadAll(s.accepted) == Conversation(messages, Closed(""))
    {
      hide ReadAll, WireAll, Sendable, AllListenedBut;
      StreamRoundTripIff(messages);
    }

    /** A departed client got a prefix of it. */
    lemma DepartedClientsAgree(s: Socket)
      requires Valid() && s in departed
      ensures exists k :: 0 <= k <= |messages| && ReadAll(s.accepted) == Conversation(messages[..k], Closed(""))
    {
      hide ReadAll, WireAll, Sendable, AllListenedBut;
      var k :| 0 <= k <= |messages| && s.accepted == WireAll(messages[..k]);
      StreamRoundTripIff(messages[..k]);
    }

    /** The log holds what each client said, in its order and without loss: for a connected one all but
        the messages still to be read, for a departed one all of it, and also for the one on which the
        server has stopped. */
    lemma LogIsFaithful(s: Socket)
      requires Valid() && (s in clientSockets || s in departed)
      ensures |senders| == |messages| && Contributed(senders, messages, s) <= Lines(ReadAll(s.script).messages)
      ensures s in departed ==> Contributed(senders, messages, s) == Lines(ReadAll(s.script).messages)
      ensures s in departed ==> ReadAll(s.script).end.Closed?
      ensures stuckOn >= 0 && s == clientSockets[stuckOn] ==>
        && Contributed(senders, messages, s) == Lines(ReadAll(s.script).messages)
        && (ReadAll(s.script).end.Endless? || ReadAll(s.script).end.Malformed?)
    {
      hide ReadAll, Contributed, Lines, AllTold;
      if s in clientSockets {
        var k :| 0 <= k < |clientSockets| && clientSockets[k] == s;
        if k != stuckOn {
          assert Hears(senders, messages, clientWrappers[k]);
        }
      }
    }
  }

  method TwoClients() returns (server: ChatServer)
    ensures fresh(server) && server.Running() && server.pollFDs == [PollFD(3, false), PollFD(4, false), PollFD(5, false)]
    ensures fresh(server.clientSockets) && fresh(server.clientWrappers) && server.departed == {}
    ensures |NextReads(server.clientWrappers)| == 2
    ensures NextReads(server.clientWrappers)[0].Closed? && NextReads(server.clientWrappers)[1].Closed?
  {
    hide AllTold, AllListenedBut, AllHeard, ParseMessage;
    server := new ChatServer(3);
    server.AcceptClient(4, "", 0);
    ghost var w := server.clientWrappers[0];
    server.AcceptClient(5, "", 0);
    assert server.clientWrappers[0] == w;
    EmptyCloses();
  }

  /** A run in which somebody ready is passed over. Two clients have closed, and poll finds both ready.
      The client of entry 1 leaves, and the last entry takes its slot: then the loop is at 2, the length
      of the list, and over. */
  method OneIsPassedOver() returns (server: ChatServer, running: bool, ghost handled: seq<int>)
    ensures server.Running() && running && handled == [4]
    ensures server.pollFDs == [PollFD(3, false), PollFD(5, true)]
  {
    hide ChatServer.Valid, Aligned, NextReads, Exact, Handled, PassedOver, Leavers, Listed, DistinctFDs, Polled, ReadyFDs;
    server := TwoClients();
    ghost var nexts, polls := NextReads(server.clientWrappers), server.pollFDs;
    ghost var start := [PollFD(3, false), PollFD(4, true), PollFD(5, true)];
    var ready := [false, true, true];
    BothReady(polls, ready);
    ghost var looked;
    running, handled, looked := server.Pass(ready, 6, "", 0);
    OneSkip(start, nexts, handled, running, looked, server.pollFDs);
  }

  lemma BothReady(polls: seq<PollFD>, ready: seq<bool>)
    requires polls == [PollFD(3, false), PollFD(4, false), PollFD(5, false)] && ready == [false, true, true]
    ensures Polled(polls, ready) == [PollFD(3, false), PollFD(4, true), PollFD(5, true)]
    ensures forall j :: 0 <= j < |polls| ==> polls[j].fd != 6
  {}

  lemma OneSkip(start: seq<PollFD>, nexts: seq<ReadResult>, handled: seq<int>, running: bool, looked: nat,
                polls: seq<PollFD>)
    requires start == [PollFD(3, false), PollFD(4, true), PollFD(5, true)]
    requires |nexts| == 2 && nexts[0].Closed? && nexts[1].Closed?
    requires Exact(start, 6, nexts, handled, running) && Handled(start, 6, looked, handled)
    requires running ==> PassedOver(Listed(start, 6), polls, looked)
    ensures running && handled == [4] && polls == [PollFD(3, false), PollFD(5, true)]
  {
    hide PassedOver, ReadyFDs, NoRepeats;
    assert Listed(start, 6) == start;
    assert Leavers(start, nexts, 1) == 0 && Leavers(start, nexts, 2) == 1;
    assert Reached(start, 6, nexts, 1) && !Reached(start, 6, nexts, 2);
    assert looked == 2;
    assert start[..0] == [] && start[..1][..0] == [];
    ReadyFDsNext(start, 0);
    ReadyFDsNext(start, 1);
    NoneReady();
    OneTakesSlot(start, polls);
  }

  lemma NoneReady()
    ensures ReadyFDs([]) == []
  {}

  lemma OneTakesSlot(start: seq<PollFD>, polls: seq<PollFD>)
    requires start == [PollFD(3, false), PollFD(4, true), PollFD(5, true)] && PassedOver(start, polls, 2)
    ensures polls == [PollFD(3, false), PollFD(5, true)]
  {
    assert TakesSlot(start, polls, 2, 2);
  }
}
