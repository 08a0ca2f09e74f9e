/** Messages on the wire (tcp/lib/Message.cpp): a length, the author, a time stamp, the text. */
module ChatMessage {
  import opened Common
  import opened Numbers
  import opened ChatSocket

  /** std::time_t. */
  type Time = t: int | TIME_MIN <= t <= TIME_MAX

  datatype Message = Message(author: string, accepted: Time, text: string)

  function Wire(m: Message): string {
    ToString(|m.text| + 1) + "\n" + m.author + "\n" + ToString(m.accepted) + "\n" + m.text + "\n"
  }

  /** The author fits on a line and the length in an int. */
  predicate Sendable(m: Message) {
    '\n' !in m.author && |m.text| + 1 <= INT_MAX
  }

  /** Closed: an empty line, or the end of the stream. Endless: the text is longer than what follows
      the stamp, so that the loop of ReadN never ends. Malformed: what the code does not guard against,
      a length below 1 (an exception, or the last character of an empty text dropped) or a number that
      was left unset. */
  datatype ReadResult = Closed(rest: string) | Got(message: Message, rest: string) | Endless | Malformed

  /** What follows the line of the length, the line of the author, and the line of the stamp. */
  function AfterLine(stream: string): string { UntilRest(stream, '\n') }

  function TextOn(stream: string): string { AfterLine(AfterLine(AfterLine(stream))) }

  function ParseMessage(stream: string): ReadResult {
    var start, s1 := UntilText(stream, '\n'), AfterLine(stream);
    if start == "" then Closed(s1)
    else
      var length := FromStream(start, INT_MIN, INT_MAX);
      var author, s2 := UntilText(s1, '\n'), AfterLine(s1);
      var accepted := FromStream(UntilText(s2, '\n'), TIME_MIN, TIME_MAX);
      var s3 := AfterLine(s2);
      if length == None || length.value < 1 then Malformed
      else if length.value > |s3| then Endless
      else if accepted == None then Malformed
      else Got(Message(author, accepted.value, s3[..length.value - 1]), s3[length.value..])
  }

  /** For a positive length the reader never returns exactly when the length exceeds what follows the
      stamp: then, and only then, no sequence of socket reads ends the loop for the text. */
  lemma EndlessIff(stream: string, n: nat)
    requires UntilText(stream, '\n') != "" && n >= 1
    requires FromStream(UntilText(stream, '\n'), INT_MIN, INT_MAX) == Some(n)
    ensures ParseMessage(stream).Endless? <==> n > |TextOn(stream)|
    ensures forall buffered, incoming :: buffered + incoming == TextOn(stream) ==>
      (ParseMessage(stream).Endless? <==> forall sizes :: !EndsWithin(LoopStart(n, buffered, incoming), sizes))
  {
    hide FromStream, UntilText, UntilRest, EndsWithin, LoopStart;
    forall buffered, incoming | buffered + incoming == TextOn(stream)
      ensures ParseMessage(stream).Endless? <==> forall sizes :: !EndsWithin(LoopStart(n, buffered, incoming), sizes)
    {
      ReadNEndsIff(n, buffered, incoming);
    }
  }

  lemma UntilShrinks(s: string, d: char)
    ensures |UntilRest(s, d)| <= |s| && d !in UntilText(s, d)
  {}

  /** Whatever was read can be sent on. */
  lemma GotIsSendable(stream: string)
    requires ParseMessage(stream).Got?
    ensures Sendable(ParseMessage(stream).message)
    ensures |ParseMessage(stream).rest| < |stream|
  {
    hide FromStream, UntilText, UntilRest;
    UntilShrinks(stream, '\n');
    UntilShrinks(AfterLine(stream), '\n');
    UntilShrinks(AfterLine(AfterLine(stream)), '\n');
  }

  // ----- one message -----

  lemma NumberLine(n: int, rest: string)
    ensures UntilText(ToString(n) + "\n" + rest, '\n') == ToString(n) != ""
    ensures UntilRest(ToString(n) + "\n" + rest, '\n') == rest
  {
    ToStringStart(n);
    UntilConcat(ToString(n), '\n', rest);
  }

  /** A wire image line by line. */
  lemma WireLines(m: Message, rest: string)
    ensures Wire(m) + rest == ToString(|m.text| + 1) + "\n" + AfterLength(m, rest)
    ensures AfterLength(m, rest) == m.author + "\n" + AfterAuthor(m, rest)
  {}

  function AfterLength(m: Message, rest: string): string {
    m.author + "\n" + AfterAuthor(m, rest)
  }

  function AfterAuthor(m: Message, rest: string): string {
    ToString(m.accepted) + "\n" + (m.text + "\n" + rest)
  }

  lemma ParseWire(m: Message, rest: string)
    requires Sendable(m)
    ensures ParseMessage(Wire(m) + rest) == Got(m, rest)
  {
    hide FromStream, UntilText, UntilRest, ToString, Wire, AfterAuthor, AfterLength;
    WireLines(m, rest);
    var n := |m.text| + 1;
    NumberLine(n, AfterLength(m, rest));
    FromStreamToString(n, INT_MIN, INT_MAX);
    UntilConcat(m.author, '\n', AfterAuthor(m, rest));
    StampLine(m, rest);
    var s3 := m.text + "\n" + rest;
    assert s3[..n - 1] == m.text && s3[n..] == rest;
  }

  lemma StampLine(m: Message, rest: string)
    ensures UntilText(AfterAuthor(m, rest), '\n') == ToString(m.accepted)
    ensures UntilRest(AfterAuthor(m, rest), '\n') == m.text + "\n" + rest
    ensures FromStream(ToString(m.accepted), TIME_MIN, TIME_MAX) == Some(m.accepted)
  {
    hide FromStream, UntilText, UntilRest, ToString;
    NumberLine(m.accepted, m.text + "\n" + rest);
    FromStreamToString(m.accepted, TIME_MIN, TIME_MAX);
  }

  /** The exact domain of the round trip. */
  lemma MessageRoundTripIff(m: Message, rest: string)
    ensures ParseMessage(Wire(m) + rest) == Got(m, rest) <==> Sendable(m)
  {
    hide ParseMessage, Wire;
    if Sendable(m) {
      ParseWire(m, rest);
    } else if ParseMessage(Wire(m) + rest).Got? {
      GotIsSendable(Wire(m) + rest);
    }
  }

  // ----- a stream of messages -----

  function WireAll(ms: seq<Message>): string {
    if ms == [] then "" else WireAll(ms[..|ms| - 1]) + Wire(ms[|ms| - 1])
  }

  /** The messages of a stream, and what ends them: the first result that is no message. */
  datatype Conversation = Conversation(messages: seq<Message>, end: ReadResult)

  function ReadAll(stream: string): (c: Conversation)
    ensures !c.end.Got?
    decreases |stream|
  {
    match ParseMessage(stream)
    case Got(m, rest) =>
      GotIsSendable(stream);
      var more := ReadAll(rest);
      Conversation([m] + more.messages, more.end)
    case end => Conversation([], end)
  }

  lemma {:induction false} WireAllFirst(ms: seq<Message>)
    requires ms != []
    ensures WireAll(ms) == Wire(ms[0]) + WireAll(ms[1..])
    decreases |ms|
  {
    hide Wire;
    var front := ms[..|ms| - 1];
    if front == [] {
      assert WireAll(front) == "" && WireAll(ms[1..]) == "";
    } else {
      WireAllFirst(front);
      var tail := ms[1..];
      assert front[1..] == tail[..|tail| - 1] && tail[|tail| - 1] == ms[|ms| - 1];
    }
  }

  /** Any list of messages survives the stream, which is consumed to the last byte, exactly when each
      of them is sendable. */
  lemma {:induction false} StreamRoundTripIff(ms: seq<Message>)
    ensures ReadAll(WireAll(ms)) == Conversation(ms, Closed("")) <==> forall m :: m in ms ==> Sendable(m)
    decreases |ms|
  {
    hide ParseMessage, Wire, Sendable;
    if ms == [] {
      EmptyCloses();
    } else {
      var rest := WireAll(ms[1..]);
      WireAllFirst(ms);
      if Sendable(ms[0]) {
        ParseWire(ms[0], rest);
        StreamRoundTripIff(ms[1..]);
        assert [ms[0]] + ms[1..] == ms;
      } else {
        FirstReadIsSendable(WireAll(ms));
      }
    }
  }

  lemma EmptyCloses()
    ensures ParseMessage("") == Closed("")
  {}

  lemma FirstReadIsSendable(stream: string)
    ensures ReadAll(stream).messages != [] ==> Sendable(ReadAll(stream).messages[0])
  {
    hide ParseMessage, Sendable;
    if ParseMessage(stream).Got? {
      GotIsSendable(stream);
    }
  }

  // ----- a stream that closes too early -----

  /** Cutting a text short leaves nothing after its first line, or as much less. */
  lemma CutRest(s: string, k: nat)
    requires k <= |s|
    ensures AfterLine(s[..k]) == "" ||
            (|s| - k <= |AfterLine(s)| && AfterLine(s[..k]) == AfterLine(s)[..|AfterLine(s)| - (|s| - k)])
  {
    var i := FirstIndex(s, '\n');
    if i < k {
      FirstIndexIs(s[..k], '\n', i);
    } else {
      FirstIndexIs(s[..k], '\n', k);
    }
  }

  /** Two lines follow the first, then the text and its newline. */
  lemma CutTwice(m: Message, k: nat)
    requires Sendable(m) && k < |AfterLength(m, "")|
    ensures |AfterLine(AfterLine(AfterLength(m, "")[..k]))| <= |m.text|
  {
    hide UntilRest, UntilText, ToString, FromStream;
    var s := AfterLength(m, "");
    UntilConcat(m.author, '\n', AfterAuthor(m, ""));
    StampLine(m, "");
    CutRest(s, k);
    NothingAfterNothing();
    if AfterLine(s[..k]) != "" {
      CutRest(AfterAuthor(m, ""), |AfterAuthor(m, "")| - (|s| - k));
    }
  }

  lemma NothingAfterNothing()
    ensures AfterLine("") == ""
  {}

  /** A peer that closes anywhere inside a message, be it inside the text or before, leaves the reader
      in a loop that never ends. */
  lemma ClosedInside(m: Message, k: nat)
    requires Sendable(m) && 1 <= k < |Wire(m)|
    ensures ParseMessage(Wire(m)[..k]) == Endless
  {
    hide UntilRest, UntilText, ToString, FromStream, Wire, AfterLength, AfterAuthor;
    var n := |m.text| + 1;
    var line := ToString(n);
    WireLines(m, "");
    assert Wire(m) + "" == Wire(m);
    if k <= |line| {
      assert Wire(m)[..k] == line[..k];
      ClosedInsideLength(n, k);
    } else {
      var rest := AfterLength(m, "")[..k - |line| - 1];
      assert Wire(m)[..k] == line + "\n" + rest;
      NumberLine(n, rest);
      FromStreamToString(n, INT_MIN, INT_MAX);
      CutTwice(m, k - |line| - 1);
    }
  }

  lemma ClosedInsideLength(n: nat, k: nat)
    requires 1 <= n <= INT_MAX && 1 <= k <= |ToString(n)|
    ensures ParseMessage(ToString(n)[..k]) == Endless
  {
    hide UntilRest, UntilText, Dec, FromStream;
    var j := DecPrefix(n, k);
    var s := ToString(n)[..k];
    assert s == ToString(j);
    ToStringStart(j);
    OneLineOnly(s);
    NothingAfterNothing();
    FromStreamToString(j, INT_MIN, INT_MAX);
  }

  lemma OneLineOnly(s: string)
    requires '\n' !in s
    ensures UntilText(s, '\n') == s && AfterLine(s) == ""
  {
    FirstIndexIs(s, '\n', |s|);
  }

  lemma {:induction false} ReadOn(ms: seq<Message>, rest: string)
    requires forall m :: m in ms ==> Sendable(m)
    ensures ReadAll(WireAll(ms) + rest) == After(ms, ReadAll(rest))
    decreases |ms|
  {
    hide ParseMessage, Wire, Sendable;
    if ms == [] {
      assert WireAll(ms) + rest == rest && ms + ReadAll(rest).messages == ReadAll(rest).messages;
    } else {
      WireAllFirst(ms);
      var more := WireAll(ms[1..]) + rest;
      assert WireAll(ms) + rest == Wire(ms[0]) + more;
      ParseWire(ms[0], more);
      ReadOn(ms[1..], rest);
      assert [ms[0]] + (ms[1..] + ReadAll(rest).messages) == ms + ReadAll(rest).messages;
    }
  }

  /** The messages before it are read all the same. */
  lemma {:induction false} ClosedInsideStream(ms: seq<Message>, m: Message, k: nat)
    requires (forall x :: x in ms ==> Sendable(x)) && Sendable(m) && 1 <= k < |Wire(m)|
    ensures ReadAll(WireAll(ms) + Wire(m)[..k]) == Conversation(ms, Endless)
  {
    hide ParseMessage, Wire, WireAll;
    ReadOn(ms, Wire(m)[..k]);
    ClosedInside(m, k);
    assert ms + [] == ms;
  }

  /** For one, a peer that closes after "Hel" of "Hello!". */
  lemma ClosedInsideText()
    ensures ParseMessage("7\nAlice\n0\nHel") == Endless
  {
    hide ParseMessage;
    var m := Message("Alice", 0, "Hello!");
    assert ToString(7) == "7" && ToString(0) == "0";
    assert Wire(m) == "7\nAlice\n0\nHello!\n";
    assert Wire(m)[..13] == "7\nAlice\n0\nHel";
    ClosedInside(m, 13);
  }

  // ----- the operations -----

  /** TMessage::Serialize: four writes. */
  method Serialize(m: Message, w: SocketWrapper)
    modifies w.socket`accepted, w.socket`patience
    ensures w.socket.accepted == old(w.socket.accepted) + Wire(m)
  {
    hide ToString;
    w.Write(ToString(|m.text| + 1) + "\n");
    w.Write(m.author + "\n");
    w.Write(ToString(m.accepted) + "\n");
    w.Write(m.text + "\n");
  }

  /** Returned: with a message, or None when the connection is closed. Stuck: never. Unguarded: where
      the code throws or its behaviour is undefined. */
  datatype Outcome = Returned(message: Option<Message>) | Stuck | Unguarded

  function OutcomeOf(r: ReadResult): Outcome {
    match r
    case Closed(_) => Returned(None)
    case Got(m, _) => Returned(Some(m))
    case Endless => Stuck
    case Malformed => Unguarded
  }

  /** ReadMessage does what the plain stream says, for every stream. */
  method ReadMessage(w: SocketWrapper) returns (r: Outcome)
    requires w.Valid()
    modifies w, w.socket`incoming
    ensures w.Valid() && r == OutcomeOf(ParseMessage(old(w.Remaining())))
    ensures r.Returned? ==> w.Remaining() == ParseMessage(old(w.Remaining())).rest
    ensures r == Stuck <==> ParseMessage(old(w.Remaining())).Endless?
    ensures r == Unguarded <==> ParseMessage(old(w.Remaining())).Malformed?
    ensures r.Returned? && r.message.Some? ==> ParseMessage(old(w.Remaining())) == Got(r.message.value, w.Remaining())
  {
    hide FromStream, UntilText, UntilRest, Goes, Turns, LoopStart;
    var start := w.ReadUntil('\n');
    if start == "" {
      return Returned(None);
    }
    var textLength := FromStream(start, INT_MIN, INT_MAX);
    var author := w.ReadUntil('\n');
    var stamp := w.ReadUntil('\n');
    var accepted := FromStream(stamp, TIME_MIN, TIME_MAX);
    if textLength == None || textLength.value < 1 {
      return Unguarded;
    }
    ghost var s3, sizes := w.Remaining(), [];
    var ended, text;
    ended, text, sizes := w.ReadN(textLength.value);
    assert ended ==> text[..|text| - 1] == s3[..textLength.value - 1];
    if !ended {
      return Stuck;
    }
    if accepted == None {
      return Unguarded;
    }
    r := Returned(Some(Message(author, accepted.value, text[..|text| - 1])));
  }

  function After(ms: seq<Message>, c: Conversation): Conversation {
    Conversation(ms + c.messages, c.end)
  }

  /** TClient::OnServerRead: read and show messages while some input is buffered. It returns true when
      end is None and false when the connection is closed; the other ends are those of ReadMessage. */
  method OnServerRead(w: SocketWrapper) returns (end: Option<Outcome>, shown: seq<Message>)
    requires w.Valid()
    modifies w, w.socket`incoming
    ensures w.Valid() && (end == None ==> |w.Remaining()| < old(|w.Remaining()|))
    ensures end == None ==> ReadAll(old(w.Remaining())) == After(shown, ReadAll(w.Remaining()))
    ensures end.Some? ==> shown == ReadAll(old(w.Remaining())).messages
                          && end.value == OutcomeOf(ReadAll(old(w.Remaining())).end)
    ensures end == Some(Returned(None)) ==> ReadAll(old(w.Remaining())).end == Closed(w.Remaining())
  {
    hide ParseMessage;
    shown := [];
    var more := true;
    while more
      invariant w.Valid()
      invariant ReadAll(old(w.Remaining())) == After(shown, ReadAll(w.Remaining()))
      invariant if more then |w.Remaining()| <= old(|w.Remaining()|) else |w.Remaining()| < old(|w.Remaining()|)
      decreases |w.Remaining()|, more
    {
      ghost var stream := w.Remaining();
      NextOrEnd(shown, stream);
      var m := ReadMessage(w);
      if !m.Returned? || m.message == None {
        return Some(m), shown;
      }
      shown := shown + [m.message.value];
      more := w.HasCachedInput();
    }
    end := None;
  }

  lemma NextOrEnd(shown: seq<Message>, stream: string)
    ensures match ParseMessage(stream)
      case Got(m, rest) => |rest| < |stream| && After(shown, ReadAll(stream)) == After(shown + [m], ReadAll(rest))
      case end => ReadAll(stream) == Conversation([], end)
  {
    hide ParseMessage;
    if ParseMessage(stream).Got? {
      GotIsSendable(stream);
      var more := ReadAll(ParseMessage(stream).rest).messages;
      assert shown + ([ParseMessage(stream).message] + more) == shown + [ParseMessage(stream).message] + more;
    }
  }

  /** The client application's loop. Whatever the pieces in which the socket delivers the stream, and
      so whatever OnServerRead finds buffered, exactly the messages of the plain stream are shown. */
  method ShowConversation(w: SocketWrapper) returns (end: Outcome, shown: seq<Message>)
    requires w.Valid()
    modifies w, w.socket`incoming
    ensures w.Valid()
    ensures shown == ReadAll(old(w.Remaining())).messages
    ensures end == OutcomeOf(ReadAll(old(w.Remaining())).end)
    ensures end.Returned? ==> ReadAll(old(w.Remaining())).end == Closed(w.Remaining())
  {
    hide ParseMessage, ReadAll;
    shown := [];
    while true
      invariant w.Valid()
      invariant ReadAll(old(w.Remaining())) == After(shown, ReadAll(w.Remaining()))
      decreases |w.Remaining()|
    {
      var last, ms := OnServerRead(w);
      shown := shown + ms;
      if last.Some? {
        return last.value, shown;
      }
    }
  }

  /** Messages written through partial writes, one after another. */
  method SerializeAll(ms: seq<Message>, w: SocketWrapper)
    modifies w.socket`accepted, w.socket`patience
    ensures w.socket.accepted == old(w.socket.accepted) + WireAll(ms)
  {
    hide Wire;
    for k := 0 to |ms|
      invariant w.socket.accepted == old(w.socket.accepted) + WireAll(ms[..k])
    {
      Serialize(ms[k], w);
      assert ms[..k + 1][..k] == ms[..k];
    }
    assert ms[..|ms|] == ms;
  }
}
