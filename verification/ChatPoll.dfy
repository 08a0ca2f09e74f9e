/** The index loop over the poll list (tcp/lib/Server.cpp, lines 51-68), apart from what is served: the
    list grows, shrinks and is shuffled while the loop runs. */
module ChatPoll {
  import opened ChatMessage

  datatype PollFD = PollFD(fd: int, ready: bool)

  /** std::swap with the last element, then pop_back. */
  function SwapPop<T>(s: seq<T>, i: nat): (r: seq<T>)
    requires i < |s|
    ensures |r| == |s| - 1
    ensures forall j :: 0 <= j < |r| ==> r[j] == if j == i then s[|s| - 1] else s[j]
  {
    s[i := s[|s| - 1]][..|s| - 1]
  }

  function Polled(polls: seq<PollFD>, ready: seq<bool>): seq<PollFD>
    requires |ready| == |polls|
  {
    seq(|polls|, i requires 0 <= i < |polls| => PollFD(polls[i].fd, ready[i]))
  }

  /** The ready descriptors in order. */
  function ReadyFDs(polls: seq<PollFD>): seq<int> {
    if polls == [] then []
    else
      var k := |polls| - 1;
      ReadyFDs(polls[..k]) + (if polls[k].ready then [polls[k].fd] else [])
  }

  lemma ReadyFDsNext(polls: seq<PollFD>, i: nat)
    requires i < |polls|
    ensures ReadyFDs(polls[..i + 1]) == ReadyFDs(polls[..i]) + (if polls[i].ready then [polls[i].fd] else [])
  {
    assert polls[..i + 1][..i] == polls[..i];
  }

  predicate NoRepeats(s: seq<int>) { forall i, j :: 0 <= i < j < |s| ==> s[i] != s[j] }

  predicate DistinctFDs(polls: seq<PollFD>) {
    forall i, j :: 0 <= i < j < |polls| ==> polls[i].fd != polls[j].fd
  }

  lemma {:induction false} ReadyFDsAre(polls: seq<PollFD>)
    requires DistinctFDs(polls)
    ensures NoRepeats(ReadyFDs(polls))
    ensures forall fd :: fd in ReadyFDs(polls) <==> PollFD(fd, true) in polls
    decreases |polls|
  {
    if polls != [] {
      var k := |polls| - 1;
      ReadyFDsAre(polls[..k]);
      assert polls == polls[..k] + [polls[k]];
    }
  }

  lemma ReadyFDsOfMore(polls: seq<PollFD>, fd: int)
    ensures ReadyFDs(polls + [PollFD(fd, false)]) == ReadyFDs(polls)
  {
    assert (polls + [PollFD(fd, false)])[..|polls|] == polls;
  }

  /** How the poll list changes while entry i is served. */
  predicate Reshaped(polls: seq<PollFD>, i: nat, fd: int, polls': seq<PollFD>, gone: bool)
    requires i < |polls|
  {
    if gone then i >= 1 && polls' == SwapPop(polls, i)
    else polls' == if i == 0 then polls + [PollFD(fd, false)] else polls
  }

  /** The poll list of a pass: a connection that is accepted, always first, joins it at the end. */
  function Listed(start: seq<PollFD>, fd: int): seq<PollFD> {
    if start != [] && start[0].ready then start + [PollFD(fd, false)] else start
  }

  /** Entry j has been moved into the slot of a ready client that has left, and that had been passed. */
  predicate TakesSlot(all: seq<PollFD>, polls: seq<PollFD>, i: nat, j: nat)
    requires j < |all|
  {
    exists slot :: 1 <= slot < i && slot < j && slot < |polls| && polls[slot] == all[j]
                   && all[slot].ready && all[slot] !in polls
  }

  /** The index loop at i: the first i entries have been looked at and their ready ones handled; the
      others are in their places, but for those that have taken the slots of clients that left. */
  predicate Progress(start: seq<PollFD>, fd: int, polls: seq<PollFD>, i: nat, handled: seq<int>, gone: nat) {
    var all := Listed(start, fd);
    if i == 0 then polls == start && handled == [] && gone == 0
    else
      && |polls| + gone == |all| && i <= |all| && handled == ReadyFDs(all[..i])
      && polls != [] && polls[0] == all[0]
      && (i <= |polls| || (i == |polls| + 1 && all[|polls|].ready && all[|polls|] !in polls))
      && (forall j :: i <= j < |polls| ==> polls[j] == all[j])
      && (forall j :: i <= j < |all| && |polls| <= j ==> TakesSlot(all, polls, i, j))
  }

  lemma ProgressStarts(start: seq<PollFD>, fd: int)
    ensures Progress(start, fd, start, 0, [], 0)
  {}

  lemma ProgressSkips(start: seq<PollFD>, fd: int, polls: seq<PollFD>, i: nat, handled: seq<int>, gone: nat)
    requires Progress(start, fd, polls, i, handled, gone) && i < |polls| && !polls[i].ready
    ensures Progress(start, fd, polls, i + 1, handled, gone)
  {
    var all := Listed(start, fd);
    ReadyFDsNext(all, i);
    assert all[..0] == [];
    var next := i + 1;
    forall j | next <= j < |all| && |polls| <= j ensures TakesSlot(all, polls, next, j) {
      assert TakesSlot(all, polls, i, j);
    }
  }

  lemma ProgressServes(start: seq<PollFD>, fd: int, polls: seq<PollFD>, i: nat, handled: seq<int>, gone: nat,
                       polls': seq<PollFD>, leaves: bool)
    requires Progress(start, fd, polls, i, handled, gone) && i < |polls| && polls[i].ready && DistinctFDs(polls)
    requires Reshaped(polls, i, fd, polls', leaves)
    ensures Progress(start, fd, polls', i + 1, handled + [polls[i].fd], if leaves then gone + 1 else gone)
  {
    var all := Listed(start, fd);
    ReadyFDsNext(all, i);
    assert all[..0] == [];
    var next := i + 1;
    forall j | next <= j < |all| && |polls'| <= j ensures TakesSlot(all, polls', next, j) {
      if j < |polls| {
        assert polls'[i] == all[j];
      } else {
        assert TakesSlot(all, polls, i, j);
        var slot :| 1 <= slot < i && slot < j && slot < |polls| && polls[slot] == all[j]
                    && all[slot].ready && all[slot] !in polls;
        assert polls'[slot] == all[j];
      }
    }
  }

  /** Where a ready entry of the list is found. */
  lemma ProgressAt(start: seq<PollFD>, fd: int, polls: seq<PollFD>, i: nat, handled: seq<int>, gone: nat)
    requires Progress(start, fd, polls, i, handled, gone) && i < |polls|
    ensures i + gone < |Listed(start, fd)|
    ensures polls[i].ready ==> i < |start|
    ensures i < |start| ==> polls[i] == start[i]
    ensures i == 0 ==> polls == start
  {}

  lemma ProgressBound(start: seq<PollFD>, fd: int, polls: seq<PollFD>, i: nat, handled: seq<int>, gone: nat)
    requires Progress(start, fd, polls, i, handled, gone)
    ensures |polls| <= |start| + 1
  {}

  /** At the end all entries have been looked at but the last few, as many as ready clients have left
      before the last slot. */
  predicate PassedOver(all: seq<PollFD>, polls: seq<PollFD>, looked: nat) {
    && 1 <= |polls| <= looked <= |all| && polls[0] == all[0]
    && (looked == |polls| || (looked == |polls| + 1 && all[|polls|].ready && all[|polls|] !in polls))
    && forall j :: looked <= j < |all| ==> TakesSlot(all, polls, looked, j)
  }

  /** Exactly the ready descriptors among those looked at are handled. */
  predicate Handled(start: seq<PollFD>, fd: int, looked: nat, handled: seq<int>) {
    var all := Listed(start, fd);
    && looked <= |all| && handled == ReadyFDs(all[..looked]) && NoRepeats(handled)
    && (forall h :: h in handled ==> PollFD(h, true) in start)
    && (forall j :: 0 <= j < |all| && all[j].ready ==> (all[j].fd in handled <==> j < looked))
    && (looked == |all| ==> handled == ReadyFDs(start))
  }

  lemma HandledAre(start: seq<PollFD>, fd: int, looked: nat)
    requires looked <= |Listed(start, fd)| && DistinctFDs(Listed(start, fd))
    ensures Handled(start, fd, looked, ReadyFDs(Listed(start, fd)[..looked]))
  {
    var all := Listed(start, fd);
    ReadyFDsAre(all[..looked]);
    ReadyFDsOfMore(start, fd);
    assert all[..|all|] == all;
    forall j | 0 <= j < |all| && all[j].ready ensures all[j].fd in ReadyFDs(all[..looked]) <==> j < looked {
      if j < looked {
        assert all[..looked][j] == PollFD(all[j].fd, true);
      }
    }
  }

  lemma HandledAll(start: seq<PollFD>, fd: int, looked: nat, handled: seq<int>)
    requires Handled(start, fd, looked, handled)
    ensures looked == |Listed(start, fd)| ==> handled == ReadyFDs(start)
  {}

  lemma ListedDistinct(start: seq<PollFD>, fd: int)
    requires DistinctFDs(start) && forall j :: 0 <= j < |start| ==> start[j].fd != fd
    ensures DistinctFDs(Listed(start, fd))
  {}

  /** Where the loop has stopped. */
  lemma ProgressDone(start: seq<PollFD>, fd: int, polls: seq<PollFD>, i: nat, handled: seq<int>, gone: nat)
    requires Progress(start, fd, polls, i, handled, gone) && DistinctFDs(Listed(start, fd)) && i > 0
    ensures Handled(start, fd, i, handled) && |polls| + gone == |Listed(start, fd)|
    ensures i >= |polls| >= 1 ==> PassedOver(Listed(start, fd), polls, i)
    ensures i >= |polls| && gone == 0 ==> i == |Listed(start, fd)|
  {
    hide ReadyFDs, DistinctFDs;
    HandledAre(start, fd, i);
  }

  // ----- exactly who is handled, told from what the clients are about to say -----

  /** The clients that leave among the first i entries: those that are ready and have closed. */
  function Leavers(start: seq<PollFD>, nexts: seq<ReadResult>, i: nat): nat {
    if i <= 1 then 0
    else Leavers(start, nexts, i - 1) + (if Says(start, nexts, i - 1) && nexts[i - 2].Closed? then 1 else 0)
  }

  /** Entry j is a ready client; nexts[j - 1] is the next thing to be read from it. */
  predicate Says(start: seq<PollFD>, nexts: seq<ReadResult>, j: nat) {
    1 <= j < |start| && j <= |nexts| && start[j].ready
  }

  /** Entry j is a ready client from whose message the server does not come back. */
  predicate Stops(start: seq<PollFD>, nexts: seq<ReadResult>, j: nat) {
    Says(start, nexts, j) && (nexts[j - 1].Endless? || nexts[j - 1].Malformed?)
  }

  /** The loop gets to entry j: nobody before it keeps the server, and it is not among the last entries,
      one for each client that leaves before it. */
  predicate Reached(start: seq<PollFD>, fd: int, nexts: seq<ReadResult>, j: nat) {
    j + Leavers(start, nexts, j) < |Listed(start, fd)| && forall k :: 0 <= k < j ==> !Stops(start, nexts, k)
  }

  lemma {:induction false} LeaversGrow(start: seq<PollFD>, nexts: seq<ReadResult>, i: nat, j: nat)
    requires i <= j
    ensures Leavers(start, nexts, i) <= Leavers(start, nexts, j)
    decreases j
  {
    if i < j {
      LeaversGrow(start, nexts, i, j - 1);
    }
  }

  /** The index loop before entry i, or after the entry from which the server did not come back. */
  predicate Seen(start: seq<PollFD>, fd: int, nexts: seq<ReadResult>, i: nat, gone: nat, running: bool) {
    && gone == Leavers(start, nexts, i)
    && (forall j :: 0 <= j < i ==> Reached(start, fd, nexts, j))
    && (if running then forall k :: 0 <= k < i ==> !Stops(start, nexts, k) else i > 0 && Stops(start, nexts, i - 1))
  }

  lemma SeenStarts(start: seq<PollFD>, fd: int, nexts: seq<ReadResult>)
    ensures Seen(start, fd, nexts, 0, 0, true)
  {}

  lemma SeenNext(start: seq<PollFD>, fd: int, nexts: seq<ReadResult>, i: nat, gone: nat, gone': nat, running': bool)
    requires Seen(start, fd, nexts, i, gone, true) && i + gone < |Listed(start, fd)|
    requires gone' == gone + if Says(start, nexts, i) && nexts[i - 1].Closed? then 1 else 0
    requires running' <==> !Stops(start, nexts, i)
    ensures Seen(start, fd, nexts, i + 1, gone', running')
  {}

  /** Exactly the ready entries that are reached are handled, and the server comes back exactly when no
      entry that stops it is. */
  predicate Exact(start: seq<PollFD>, fd: int, nexts: seq<ReadResult>, handled: seq<int>, running: bool) {
    var all := Listed(start, fd);
    && (forall j :: 0 <= j < |all| && all[j].ready ==> (all[j].fd in handled <==> Reached(start, fd, nexts, j)))
    && (running <==> forall j :: 0 <= j < |all| && Reached(start, fd, nexts, j) ==> !Stops(start, nexts, j))
  }

  lemma SeenAll(start: seq<PollFD>, fd: int, nexts: seq<ReadResult>, i: nat, gone: nat, running: bool)
    requires Seen(start, fd, nexts, i, gone, running) && (running ==> i + gone >= |Listed(start, fd)|)
    ensures forall j :: 0 <= j ==> (j < i <==> Reached(start, fd, nexts, j))
  {
    forall j | j >= i ensures !Reached(start, fd, nexts, j) {
      LeaversGrow(start, nexts, i, j);
    }
  }

  lemma SeenIsExact(start: seq<PollFD>, fd: int, nexts: seq<ReadResult>, i: nat, handled: seq<int>, gone: nat,
                    running: bool)
    requires Seen(start, fd, nexts, i, gone, running) && Handled(start, fd, i, handled)
    requires running ==> i + gone >= |Listed(start, fd)|
    ensures Exact(start, fd, nexts, handled, running) && gone == Leavers(start, nexts, i)
  {
    hide Reached, Leavers, ReadyFDs, NoRepeats;
    SeenAll(start, fd, nexts, i, gone, running);
  }
}
