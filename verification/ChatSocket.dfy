/** Sockets and the buffered wrapper around them (tcp/lib/Socket.cpp, tcp/lib/Socket.h). */
module ChatSocket {
  import opened Common

  const BUF_SIZE := 256

  /** A connection: the bytes that will still arrive, and the bytes accepted so far. It hands out and
      takes as much as it likes at a time; patience bounds how often it may take nothing. script is
      everything its peer ever sends. */
  class Socket {
    const fd: int
    ghost const script: string
    var incoming: string
    var accepted: string
    var patience: nat

    constructor (fd: int, incoming: string, patience: nat)
      ensures this.fd == fd && this.incoming == incoming && this.accepted == "" && this.patience == patience
      ensures this.script == incoming
    {
      this.fd := fd;
      this.script := incoming;
      this.incoming := incoming;
      this.accepted := "";
      this.patience := patience;
    }

    /** At least one byte unless the stream has ended. */
    method Read(len: nat) returns (data: string)
      requires len >= 1
      modifies this`incoming
      ensures old(incoming) == data + incoming && |data| <= len
      ensures old(incoming) != "" ==> data != ""
    {
      if incoming == "" {
        return "";
      }
      var k :| 1 <= k <= len && k <= |incoming|;
      data := incoming[..k];
      incoming := incoming[k..];
    }

    method Write(data: string) returns (written: nat)
      requires data != ""
      modifies this`accepted, this`patience
      ensures written <= |data| && accepted == old(accepted) + data[..written]
      ensures patience <= old(patience) && (written == 0 ==> patience < old(patience))
    {
      if patience > 0 {
        if * {
          patience := patience - 1;
          return 0;
        }
      }
      written :| 1 <= written <= |data|;
      accepted := accepted + data[..written];
    }
  }

  // ----- reading from a plain stream -----

  /** Where the delimiter first stands in s, or |s|. */
  function FirstIndex(s: string, delimiter: char): (k: nat)
    ensures k <= |s| && (k < |s| ==> s[k] == delimiter)
    ensures forall i :: 0 <= i < k ==> s[i] != delimiter
  {
    if s == "" || s[0] == delimiter then 0 else 1 + FirstIndex(s[1..], delimiter)
  }

  lemma FirstIndexIs(s: string, delimiter: char, k: nat)
    requires k <= |s| && (k < |s| ==> s[k] == delimiter)
    requires forall i :: 0 <= i < k ==> s[i] != delimiter
    ensures FirstIndex(s, delimiter) == k
  {}

  /** The text up to the delimiter, or everything when there is none. */
  function UntilText(s: string, delimiter: char): string { s[..FirstIndex(s, delimiter)] }

  function UntilRest(s: string, delimiter: char): string {
    var k := FirstIndex(s, delimiter);
    if k < |s| then s[k + 1..] else ""
  }

  lemma UntilConcat(a: string, delimiter: char, rest: string)
    requires forall i :: 0 <= i < |a| ==> a[i] != delimiter
    ensures UntilText(a + [delimiter] + rest, delimiter) == a
    ensures UntilRest(a + [delimiter] + rest, delimiter) == rest
  {
    FirstIndexIs(a + [delimiter] + rest, delimiter, |a|);
  }

  /** Taking k bytes of the buffer moves them from what remains to what has been read. */
  lemma Taken(all: string, ret: string, buffer: string, start: nat, k: nat, incoming: string)
    requires start + k <= |buffer| && all == ret + (buffer[start..] + incoming)
    ensures all == (ret + buffer[start..start + k]) + (buffer[start + k..] + incoming)
  {
    assert buffer[start..] == buffer[start..start + k] + buffer[start + k..];
  }

  lemma Prefix(all: string, ret: string, rest: string)
    requires all == ret + rest
    ensures ret == all[..|ret|] && rest == all[|ret|..]
  {}

  lemma Found(all: string, ret: string, buffer: string, start: nat, it: nat, incoming: string)
    requires start <= it < |buffer| && buffer[it] !in ret && buffer[it] !in buffer[start..it]
    requires all == ret + (buffer[start..] + incoming)
    ensures UntilText(all, buffer[it]) == ret + buffer[start..it]
    ensures UntilRest(all, buffer[it]) == buffer[it + 1..] + incoming
  {
    var text := ret + buffer[start..it];
    assert buffer[start..] == buffer[start..it] + [buffer[it]] + buffer[it + 1..];
    assert all == text + [buffer[it]] + (buffer[it + 1..] + incoming);
    UntilConcat(text, buffer[it], buffer[it + 1..] + incoming);
  }

  lemma NotFound(all: string, ret: string, incoming: string, delimiter: char)
    requires delimiter !in ret && incoming == "" && all == ret + incoming
    ensures UntilText(all, delimiter) == ret && UntilRest(all, delimiter) == ""
  {
    assert all == ret;
    FirstIndexIs(all, delimiter, |all|);
  }

  // ----- the loop of ReadN -----

  /** Between two turns: what has been read, how much is still wanted, what the socket will deliver. */
  datatype Loop = Loop(ret: string, left: nat, incoming: string)

  /** A read delivers something until the stream has ended, and nothing from then on. */
  predicate CanRead(incoming: string, k: nat) {
    k <= |incoming| && k <= BUF_SIZE - 1 && (k == 0 ==> incoming == "")
  }

  /** Before the first turn: what is buffered already comes first. */
  function LoopStart(n: nat, buffered: string, incoming: string): Loop {
    var toCopy := Min(n, |buffered|);
    Loop(buffered[..toCopy], n - toCopy, incoming)
  }

  /** One turn with a read of k bytes. */
  function Turn(l: Loop, k: nat): Loop
    requires k <= |l.incoming|
  {
    var toCopy := Min(k, l.left);
    Loop(l.ret + l.incoming[..toCopy], l.left - toCopy, l.incoming[k..])
  }

  /** The loop can take these turns, one for each read, of these sizes. */
  predicate Goes(l: Loop, sizes: seq<nat>)
    decreases |sizes|
  {
    sizes != [] ==> l.left > 0 && CanRead(l.incoming, sizes[0]) && Goes(Turn(l, sizes[0]), sizes[1..])
  }

  function Turns(l: Loop, sizes: seq<nat>): Loop
    requires Goes(l, sizes)
    decreases |sizes|
  {
    if sizes == [] then l else Turns(Turn(l, sizes[0]), sizes[1..])
  }

  lemma TurnTakes(got: string, wanted: nat, piece: string, rest: string)
    ensures var toCopy := Min(|piece|, wanted);
      Turn(Loop(got, wanted, piece + rest), |piece|) == Loop(got + piece[..toCopy], wanted - toCopy, rest)
  {
    assert (piece + rest)[|piece|..] == rest;
    assert (piece + rest)[..Min(|piece|, wanted)] == piece[..Min(|piece|, wanted)];
  }

  lemma NoTurns(l: Loop)
    ensures Goes(l, []) && Turns(l, []) == l
  {}

  lemma {:induction false} TurnsSnoc(l: Loop, sizes: seq<nat>, k: nat)
    requires Goes(l, sizes) && Turns(l, sizes).left > 0 && CanRead(Turns(l, sizes).incoming, k)
    ensures Goes(l, sizes + [k]) && Turns(l, sizes + [k]) == Turn(Turns(l, sizes), k)
    decreases |sizes|
  {
    var all := sizes + [k];
    if sizes == [] {
      assert all[1..] == [];
    } else {
      assert all[0] == sizes[0] && all[1..] == sizes[1..] + [k];
      TurnsSnoc(Turn(l, sizes[0]), sizes[1..], k);
    }
  }

  /** Past the end of the stream no sequence of reads ends the loop. */
  lemma {:induction false} NeverEnds(l: Loop, sizes: seq<nat>)
    requires l.left > |l.incoming| && Goes(l, sizes)
    ensures Turns(l, sizes).left > |Turns(l, sizes).incoming|
    decreases |sizes|
  {
    if sizes != [] {
      NeverEnds(Turn(l, sizes[0]), sizes[1..]);
    }
  }

  /** And it does not get stuck: it goes on for any number of turns. */
  lemma {:induction false} GoesOn(l: Loop, turns: nat) returns (sizes: seq<nat>)
    requires l.left > |l.incoming|
    ensures |sizes| == turns && Goes(l, sizes)
    decreases turns
  {
    if turns == 0 {
      sizes := [];
    } else {
      var k := Min(1, |l.incoming|);
      var more := GoesOn(Turn(l, k), turns - 1);
      sizes := [k] + more;
      assert sizes[1..] == more;
    }
  }

  /** With enough to come every sequence of reads leads to the end, one turn for a byte at most. */
  lemma {:induction false} AlwaysEnds(l: Loop, sizes: seq<nat>)
    requires l.left <= |l.incoming| && Goes(l, sizes)
    ensures |sizes| + Turns(l, sizes).left <= l.left
    ensures Turns(l, sizes).left <= |Turns(l, sizes).incoming|
    decreases |sizes|
  {
    if sizes != [] {
      AlwaysEnds(Turn(l, sizes[0]), sizes[1..]);
    }
  }

  lemma {:induction false} ByteByByte(l: Loop) returns (sizes: seq<nat>)
    requires l.left <= |l.incoming|
    ensures Goes(l, sizes) && Turns(l, sizes).left == 0
    decreases l.left
  {
    if l.left == 0 {
      sizes := [];
    } else {
      var more := ByteByByte(Turn(l, 1));
      sizes := [1] + more;
      assert sizes[1..] == more;
    }
  }

  predicate EndsWithin(l: Loop, sizes: seq<nat>) { Goes(l, sizes) && Turns(l, sizes).left == 0 }

  ghost predicate CanTake(l: Loop, turns: nat) { exists sizes :: |sizes| == turns && Goes(l, sizes) }

  /** Exactly when the loop ends. Some reads end it if and only if the bytes wanted will come; then
      all do, at the latest after as many turns as bytes are wanted. Otherwise none do, and there are
      runs of every length. */
  lemma ReadNEndsIff(n: nat, buffered: string, incoming: string)
    ensures var l := LoopStart(n, buffered, incoming);
      && ((exists sizes :: EndsWithin(l, sizes)) <==> n <= |buffered + incoming|)
      && (n <= |buffered + incoming| ==> forall sizes :: Goes(l, sizes) && |sizes| >= l.left ==> EndsWithin(l, sizes))
      && (n > |buffered + incoming| ==>
            (forall sizes :: !EndsWithin(l, sizes)) && forall turns: nat :: CanTake(l, turns))
  {
    hide Goes, Turns;
    var l := LoopStart(n, buffered, incoming);
    if n <= |buffered + incoming| {
      var sizes := ByteByByte(l);
      assert EndsWithin(l, sizes);
      forall sizes | Goes(l, sizes) && |sizes| >= l.left ensures EndsWithin(l, sizes) {
        AlwaysEnds(l, sizes);
      }
    } else {
      forall sizes ensures !EndsWithin(l, sizes) {
        if Goes(l, sizes) {
          NeverEnds(l, sizes);
        }
      }
      forall turns: nat ensures CanTake(l, turns) {
        var sizes := GoesOn(l, turns);
      }
    }
  }

  /** TSocketWrapper. */
  class SocketWrapper {
    const socket: Socket
    var buffer: string
    var bStart: nat

    ghost predicate Valid()
      reads this
    {
      bStart <= |buffer|
    }

    /** What is still to be read: the rest of the buffer, then what the socket will deliver. */
    ghost function Remaining(): string
      requires Valid()
      reads this, socket`incoming
    {
      buffer[bStart..] + socket.incoming
    }

    constructor (socket: Socket)
      ensures this.socket == socket && Valid() && Remaining() == socket.incoming
    {
      this.socket := socket;
      this.buffer := "";
      this.bStart := 0;
    }

    method ReadBuf()
      modifies this, socket`incoming
      ensures Valid() && bStart == 0
      ensures buffer + socket.incoming == old(socket.incoming) && |buffer| <= BUF_SIZE - 1
      ensures old(socket.incoming) != "" ==> buffer != ""
    {
      bStart := 0;
      buffer := socket.Read(BUF_SIZE - 1);
    }

    /** The first n bytes, by any turns of the loop that the socket's reads make. Where a read
        delivers nothing the next turn finds the loop as it was, and ended is false: by ReadNEndsIff
        it never ends. */
    method ReadN(n: nat) returns (ended: bool, ret: string, ghost sizes: seq<nat>)
      requires Valid()
      modifies this, socket`incoming
      ensures Valid()
      ensures ended <==> n <= |old(Remaining())|
      ensures ended ==> ret == old(Remaining())[..n] && Remaining() == old(Remaining())[n..]
      ensures !ended ==> ret == old(Remaining()) && Remaining() == ""
      ensures var l := LoopStart(n, old(buffer[bStart..]), old(socket.incoming));
              Goes(l, sizes) && Turns(l, sizes) == Loop(ret, n - |ret|, socket.incoming)
    {
      hide Goes, Turns;
      ghost var all, l := Remaining(), LoopStart(n, buffer[bStart..], socket.incoming);
      sizes := [];
      NoTurns(l);
      var left: int;
      ret, left := TakeBuffered(n);
      ended := true;
      while left > 0 && ended
        invariant Valid() && 0 <= left && |ret| + left == n
        invariant all == ret + (buffer[bStart..] + socket.incoming)
        invariant left > 0 ==> bStart == |buffer|
        invariant ended || (left > 0 && socket.incoming == "")
        invariant Goes(l, sizes) && Turns(l, sizes) == Loop(ret, left, socket.incoming)
        decreases left, ended
      {
        ghost var k;
        ret, left, k := Refill(ret, left, all);
        TurnsSnoc(l, sizes, k);
        sizes := sizes + [k];
        ended := buffer != "";
      }
      Prefix(all, ret, buffer[bStart..] + socket.incoming);
    }

    method TakeBuffered(n: nat) returns (ret: string, left: int)
      requires Valid()
      modifies this`bStart
      ensures Valid() && 0 <= left && (left > 0 ==> bStart == |buffer|)
      ensures Loop(ret, left, socket.incoming) == LoopStart(n, old(buffer[bStart..]), socket.incoming)
      ensures |ret| + left == n && old(Remaining()) == ret + (buffer[bStart..] + socket.incoming)
    {
      ret, left := "", n;
      var bufLen := |buffer| - bStart;
      if bufLen > 0 {
        var toCopy := Min(bufLen, left);
        Taken(Remaining(), "", buffer, bStart, toCopy, socket.incoming);
        ret := buffer[bStart..bStart + toCopy];
        assert "" + ret == ret && buffer[bStart..][..toCopy] == ret;
        bStart := bStart + toCopy;
        left := left - toCopy;
      }
    }

    /** The body of the loop. */
    method Refill(got: string, wanted: nat, ghost all: string) returns (ret: string, left: int, ghost k: nat)
      requires Valid() && wanted > 0 && bStart == |buffer| && all == got + (buffer[bStart..] + socket.incoming)
      modifies this, socket`incoming
      ensures Valid() && 0 <= left && (left > 0 ==> bStart == |buffer|)
      ensures |ret| + left == |got| + wanted && all == ret + (buffer[bStart..] + socket.incoming)
      ensures CanRead(old(socket.incoming), k)
      ensures Loop(ret, left, socket.incoming) == Turn(Loop(got, wanted, old(socket.incoming)), k)
      ensures if buffer == "" then left == wanted && socket.incoming == "" else left < wanted
    {
      hide Turn;
      assert buffer[bStart..] + socket.incoming == socket.incoming;
      ghost var stream := socket.incoming;
      ReadBuf();
      k := |buffer|;
      assert buffer[0..] == buffer;
      var toCopy := Min(|buffer|, wanted);
      Taken(all, got, buffer, 0, toCopy, socket.incoming);
      TurnTakes(got, wanted, buffer, socket.incoming);
      ret := got + buffer[..toCopy];
      left := wanted - toCopy;
      bStart := bStart + toCopy;
    }

    method ReadUntil(delimiter: char) returns (ret: string)
      requires Valid()
      modifies this, socket`incoming
      ensures Valid()
      ensures ret == UntilText(old(Remaining()), delimiter)
      ensures Remaining() == UntilRest(old(Remaining()), delimiter)
    {
      hide UntilText, UntilRest;
      ghost var all := Remaining();
      ret := "";
      assert all == ret + (buffer[bStart..] + socket.incoming);
      var it := FindFrom(delimiter);
      while it == |buffer|
        invariant Valid() && bStart <= it <= |buffer| && (it < |buffer| ==> buffer[it] == delimiter)
        invariant delimiter !in buffer[bStart..it] && delimiter !in ret
        invariant all == ret + (buffer[bStart..] + socket.incoming)
        decreases |socket.incoming|, |buffer| - it
      {
        Taken(all, ret, buffer, bStart, |buffer| - bStart, socket.incoming);
        assert buffer[bStart..it] == buffer[bStart..];
        ret := ret + buffer[bStart..];
        assert all == ret + socket.incoming;
        ReadBuf();
        assert buffer[0..] == buffer;
        if buffer == "" {
          NotFound(all, ret, socket.incoming, delimiter);
          return;
        }
        it := FindFrom(delimiter);
      }
      Found(all, ret, buffer, bStart, it, socket.incoming);
      ret := ret + buffer[bStart..it];
      bStart := it + 1;
    }

    /** std::find from bStart to the end of the buffer. */
    method FindFrom(delimiter: char) returns (it: nat)
      requires Valid()
      ensures bStart <= it <= |buffer| && (it < |buffer| ==> buffer[it] == delimiter)
      ensures delimiter !in buffer[bStart..it]
    {
      it := bStart;
      while it < |buffer| && buffer[it] != delimiter
        invariant bStart <= it <= |buffer|
        invariant forall i :: bStart <= i < it ==> buffer[i] != delimiter
      {
        it := it + 1;
      }
    }

    method Write(data: string)
      modifies socket`accepted, socket`patience
      ensures socket.accepted == old(socket.accepted) + data
    {
      var written := 0;
      assert data[..0] == "";
      while written < |data|
        invariant 0 <= written <= |data|
        invariant socket.accepted == old(socket.accepted) + data[..written]
        decreases |data| - written, socket.patience
      {
        var n := socket.Write(data[written..]);
        assert data[..written] + data[written..][..n] == data[..written + n];
        written := written + n;
      }
      assert data[..|data|] == data;
    }

    method HasCachedInput() returns (r: bool)
      requires Valid()
      ensures r <==> Remaining() != socket.incoming
    {
      r := bStart < |buffer|;
      assert |Remaining()| == |buffer| - bStart + |socket.incoming|;
      if !r {
        assert Remaining() == socket.incoming;
      }
    }

    /** One call; ended is false for a ReadN whose loop never ends. */
    method Perform(op: Op) returns (ended: bool, r: string)
      requires Valid()
      modifies this, socket`incoming
      ensures Valid() && (ended <==> Ends(old(Remaining()), op))
      ensures ended ==> r == OpResult(old(Remaining()), op) && Remaining() == OpRest(old(Remaining()), op)
    {
      match op {
        case ReadN(n) =>
          ghost var sizes;
          ended, r, sizes := ReadN(n);
        case ReadUntil(d) =>
          ended := true;
          r := ReadUntil(d);
      }
    }

    /** Any calls at all give what the same calls give on the plain stream, however the socket cuts
        it into pieces, up to the first one that never returns. */
    method Replay(ops: seq<Op>) returns (results: seq<string>)
      requires Valid()
      modifies this, socket`incoming
      ensures Valid()
      ensures results == PlainResults(old(Remaining()), ops)
      ensures |results| == |ops| ==> Remaining() == PlainRest(old(Remaining()), ops)
    {
      hide OpResult, OpRest, Ends;
      results := [];
      ghost var all := Remaining();
      assert ops[0..] == ops;
      for k := 0 to |ops|
        invariant Valid() && |results| == k
        invariant PlainResults(all, ops) == results + PlainResults(Remaining(), ops[k..])
        invariant PlainRest(all, ops) == PlainRest(Remaining(), ops[k..])
      {
        assert ops[k..][1..] == ops[k + 1..];
        var ended, r := Perform(ops[k]);
        if !ended {
          return;
        }
        results := results + [r];
      }
    }
  }

  datatype Op = ReadN(n: nat) | ReadUntil(delimiter: char)

  predicate Ends(stream: string, op: Op) { op.ReadN? ==> op.n <= |stream| }

  function OpResult(stream: string, op: Op): string
    requires Ends(stream, op)
  {
    match op
    case ReadN(n) => stream[..n]
    case ReadUntil(d) => UntilText(stream, d)
  }

  function OpRest(stream: string, op: Op): string
    requires Ends(stream, op)
  {
    match op
    case ReadN(n) => stream[n..]
    case ReadUntil(d) => UntilRest(stream, d)
  }

  /** The results of the calls that return. */
  function PlainResults(stream: string, ops: seq<Op>): (r: seq<string>)
    ensures |r| <= |ops|
    decreases |ops|
  {
    if ops == [] || !Ends(stream, ops[0]) then []
    else [OpResult(stream, ops[0])] + PlainResults(OpRest(stream, ops[0]), ops[1..])
  }

  function PlainRest(stream: string, ops: seq<Op>): string
    decreases |ops|
  {
    if ops == [] || !Ends(stream, ops[0]) then stream else PlainRest(OpRest(stream, ops[0]), ops[1..])
  }
}
