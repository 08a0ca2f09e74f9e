/** The request and response pipeline of a proxy session (individual/lib/Session.cpp, lines 100-171). */
module Session {
  import opened Common
  import opened Http
  import opened HttpMachine
  import opened HttpRoundTrip
  import opened HttpNormalForm
  import opened Numbers
  import opened Compress
  import opened Database

  /** What is asked of the origin: the request without its Accept-Encoding. */
  function Forwarded(request: Message): Message {
    request.(headers := Removed(request.headers, ACCEPT_ENCODING))
  }

  /** The response as this client gets it. */
  function ForClient(gz: string -> string, request: Message, response: Message): Message {
    if CompressionSupported(request) then Compressed(gz, response) else response
  }

  /** The bytes the fresh path sends for a response. */
  function Delivered(gz: string -> string, request: Message, response: Message): string {
    Serialize(ForClient(gz, request, response))
  }

  function URL(request: Message): string { request.line.second }

  /** TSession, between the two parsers and the sockets. */
  class ProxySession {
    const database: ResponseDatabase
    const clientRequest: Message
    var request: string
    var response: string

    constructor (database: ResponseDatabase, clientRequest: Message)
      ensures this.database == database && this.clientRequest == clientRequest
    {
      this.database := database;
      this.clientRequest := clientRequest;
      request := "";
      response := "";
    }

    /** hit: the cache has answered; otherwise the request goes out. */
    method WriteForeign(gz: string -> string, now: int) returns (hit: bool)
      requires database.Valid() && NotBefore(database.history, now)
      modifies this, database
      ensures database.Valid() && database.history == old(database.history) + [Asked(URL(clientRequest), now)]
      ensures request == Serialize(Forwarded(clientRequest))
      ensures var cached := Fresh(old(database.history), URL(clientRequest), now);
        && (hit <==> cached.Some?)
        && (hit ==> response == Delivered(gz, clientRequest, cached.value))
        && (!hit ==> response == old(response))
    {
      hide Serialize, Compressed, Agrees;
      var headers := new HttpHeaders(clientRequest.headers);
      headers.Remove(ACCEPT_ENCODING);
      request := Serialize(clientRequest.(headers := headers.headers));
      var cached := database.ServeCached(URL(clientRequest), now);
      if cached == None {
        return false;
      }
      Answer(gz, cached.value);
      return true;
    }

    /** Compress for this client if it asked for that, and serialize. */
    method Answer(gz: string -> string, m: Message)
      modifies this`response
      ensures response == Delivered(gz, clientRequest, m)
    {
      hide Serialize, Compressed;
      var sent := new HttpResponse(m);
      var asked := new HttpResponse(clientRequest);
      var supported := asked.ListsDirective(ACCEPT_ENCODING, GZIP);
      if supported {
        sent.Compress(gz);
      }
      response := Serialize(Message(sent.line, sent.headers.headers, sent.data));
    }

    /** The origin's answer has been parsed: send it, and store it uncompressed. */
    method ReadForeign(gz: string -> string, answer: Message, now: int)
      requires database.Valid() && CacheDuration(answer).Seconds?
      modifies this, database
      ensures database.Valid()
      ensures database.history == old(database.history) + [Stored(URL(clientRequest), answer, now)]
      ensures response == Delivered(gz, clientRequest, answer) && request == old(request)
    {
      hide Serialize, Compressed, Agrees;
      Answer(gz, answer);
      database.CacheResponse(URL(clientRequest), answer, now);
    }
  }

  // ----- all sessions together -----

  /** One event loop runs many sessions over one database. Ask: a session has read its request, and
      looks it up. Answer: at some later moment the origin has answered the session of that number. */
  datatype Action = Ask(request: Message, now: int) | Answer(session: nat, now: int)

  /** The requests of the sessions, by number. */
  function Requests(actions: seq<Action>): seq<Message> {
    if actions == [] then []
    else
      var k := |actions| - 1;
      Requests(actions[..k]) + (if actions[k].Ask? then [actions[k].request] else [])
  }

  /** The request that an action is about; None for the answer to a session that there is not. */
  function RequestOf(before: seq<Action>, a: Action): Option<Message> {
    match a
    case Ask(request, _) => Some(request)
    case Answer(k, _) => if k < |Requests(before)| then Some(Requests(before)[k]) else None
  }

  function EventsOf(origin: Message -> Message, actions: seq<Action>): seq<Event> {
    if actions == [] then []
    else
      var before, a := actions[..|actions| - 1], actions[|actions| - 1];
      EventsOf(origin, before) + NewEvents(origin, RequestOf(before, a), a)
  }

  /** What an action does to the database. */
  function NewEvents(origin: Message -> Message, request: Option<Message>, a: Action): seq<Event> {
    match request
    case None => []
    case Some(r) => [if a.Ask? then Asked(URL(r), a.now) else Stored(URL(r), origin(r), a.now)]
  }

  /** What is cached under a URL is the origin's answer to some request for it. */
  lemma {:induction false} OnlyOriginsAnswers(origin: Message -> Message, actions: seq<Action>, url: string)
    ensures match LastStored(EventsOf(origin, actions), url)
            case None => true
            case Some(e) => exists r :: URL(r) == url && e.response == origin(r)
    decreases |actions|
  {
    hide CacheDuration, LastStored, Requests, URL;
    if actions == [] {
      NothingStored(url);
    } else {
      var before, a := actions[..|actions| - 1], actions[|actions| - 1];
      var events := EventsOf(origin, before);
      OnlyOriginsAnswers(origin, before, url);
      match RequestOf(before, a)
      case None => assert events + [] == events;
      case Some(r) =>
        LastStoredSnoc(events, if a.Ask? then Asked(URL(r), a.now) else Stored(URL(r), origin(r), a.now), url);
    }
  }

  lemma NothingStored(url: string)
    ensures LastStored([], url) == None
  {}

  lemma {:induction false} EventsNotBefore(origin: Message -> Message, actions: seq<Action>, now: int)
    requires forall a :: a in actions ==> a.now <= now
    ensures NotBefore(EventsOf(origin, actions), now)
    decreases |actions|
  {
    hide Requests;
    if actions != [] {
      EventsNotBefore(origin, actions[..|actions| - 1], now);
    }
  }

  /** The bytes an action sends to its client, if any. */
  function Sent(gz: string -> string, origin: Message -> Message, before: seq<Action>, a: Action): Option<string> {
    match RequestOf(before, a)
    case None => None
    case Some(r) =>
      if a.Answer? then Some(Delivered(gz, r, origin(r)))
      else
        match Fresh(EventsOf(origin, before), URL(r), a.now)
        case None => None
        case Some(m) => Some(Delivered(gz, r, m))
  }

  /** They are those of the fresh path. */
  predicate Transparent(gz: string -> string, origin: Message -> Message, request: Option<Message>, sent: Option<string>) {
    sent.Some? ==> request.Some? && sent.value == Delivered(gz, request.value, origin(request.value))
  }

  /** The origin answers requests alike whose URL, the second field of the request line, is the same. */
  ghost predicate AnswersByURL(origin: Message -> Message) {
    forall r: Message, s: Message :: r.line.second == s.line.second ==> origin(r) == origin(s)
  }

  /** Transparency: with an origin whose answer depends on the URL alone, whatever has happened before
      and however sessions interleave, the bytes a client is sent are those of the fresh path. */
  lemma CacheIsTransparent(gz: string -> string, origin: Message -> Message, before: seq<Action>, a: Action)
    requires AnswersByURL(origin)
    ensures Transparent(gz, origin, RequestOf(before, a), Sent(gz, origin, before, a))
  {
    hide Delivered, EventsOf, Requests;
    var r := RequestOf(before, a);
    if r.Some? {
      OnlyOriginsAnswers(origin, before, URL(r.value));
      SameURL(origin, r.value);
    }
  }

  lemma SameURL(origin: Message -> Message, r: Message)
    requires AnswersByURL(origin)
    ensures forall s :: URL(s) == URL(r) ==> origin(s) == origin(r)
  {}

  lemma RequestsSnoc(before: seq<Action>, a: Action)
    ensures Requests(before + [a]) == Requests(before) + (if a.Ask? then [a.request] else [])
  {
    assert (before + [a])[..|before|] == before;
  }

  lemma EventsSnoc(origin: Message -> Message, before: seq<Action>, a: Action)
    ensures EventsOf(origin, before + [a]) == EventsOf(origin, before) + NewEvents(origin, RequestOf(before, a), a)
  {
    assert (before + [a])[..|before|] == before;
  }

  /** The session objects stand for the requests so far. */
  predicate Stand(sessions: seq<ProxySession>, database: ResponseDatabase, before: seq<Action>) {
    && |sessions| == |Requests(before)|
    && forall k :: 0 <= k < |sessions| ==>
         sessions[k].clientRequest == Requests(before)[k] && sessions[k].database == database
  }

  predicate Readable(origin: Message -> Message, request: Option<Message>) {
    request.Some? ==> CacheDuration(origin(request.value)).Seconds?
  }

  method Act(gz: string -> string, origin: Message -> Message, database: ResponseDatabase,
             sessions: seq<ProxySession>, ghost before: seq<Action>, a: Action)
    returns (bytes: Option<string>, sessions': seq<ProxySession>)
    requires database.Valid() && database.history == EventsOf(origin, before) && NotBefore(database.history, a.now)
    requires Stand(sessions, database, before) && (a.Answer? ==> Readable(origin, RequestOf(before, a)))
    modifies database, sessions
    ensures database.Valid() && database.history == EventsOf(origin, before + [a])
    ensures Stand(sessions', database, before + [a])
    ensures forall k :: 0 <= k < |sessions'| ==> sessions'[k] in sessions || fresh(sessions'[k])
    ensures bytes == Sent(gz, origin, before, a)
  {
    hide CacheDuration, LastStored, Delivered, Agrees, EventsOf, Requests;
    bytes, sessions' := None, sessions;
    EventsSnoc(origin, before, a);
    RequestsSnoc(before, a);
    match a {
      case Ask(request, now) =>
        var session := new ProxySession(database, request);
        sessions' := sessions + [session];
        var hit := session.WriteForeign(gz, now);
        if hit {
          bytes := Some(session.response);
        }
      case Answer(k, now) =>
        if k < |sessions| {
          sessions[k].ReadForeign(gz, origin(sessions[k].clientRequest), now);
          bytes := Some(sessions[k].response);
        }
    }
  }

  /** The sessions as objects that share one database: any interleaving of them sends exactly these
      bytes, and so none but those of the fresh path. */
  method RunSessions(gz: string -> string, origin: Message -> Message, actions: seq<Action>)
    returns (sent: seq<Option<string>>)
    requires AnswersByURL(origin) && forall i, j :: 0 <= i < j < |actions| ==> actions[i].now <= actions[j].now
    requires forall i :: 0 <= i < |actions| && actions[i].Answer? ==>
      Readable(origin, RequestOf(actions[..i], actions[i]))
    ensures |sent| == |actions|
    ensures forall i :: 0 <= i < |actions| ==>
      && sent[i] == Sent(gz, origin, actions[..i], actions[i])
      && Transparent(gz, origin, RequestOf(actions[..i], actions[i]), sent[i])
  {
    hide Readable, Transparent, Agrees, EventsOf, Requests, RequestOf, Stand, Sent;
    var database := new ResponseDatabase();
    var sessions: seq<ProxySession> := [];
    sent := [];
    NothingYet(origin, sessions, database);
    for i := 0 to |actions|
      invariant database.Valid() && database.history == EventsOf(origin, actions[..i])
      invariant forall k :: 0 <= k < |sessions| ==> fresh(sessions[k])
      invariant Stand(sessions, database, actions[..i]) && |sent| == i
      invariant forall k :: 0 <= k < i ==> sent[k] == Sent(gz, origin, actions[..k], actions[k])
      invariant forall k :: 0 <= k < i ==> Transparent(gz, origin, RequestOf(actions[..k], actions[k]), sent[k])
    {
      assert actions[..i + 1] == actions[..i] + [actions[i]];
      EventsNotBefore(origin, actions[..i], actions[i].now);
      CacheIsTransparent(gz, origin, actions[..i], actions[i]);
      var bytes;
      bytes, sessions := Act(gz, origin, database, sessions, actions[..i], actions[i]);
      sent := sent + [bytes];
    }
  }

  lemma NothingYet(origin: Message -> Message, sessions: seq<ProxySession>, database: ResponseDatabase)
    requires sessions == []
    ensures EventsOf(origin, []) == [] && Stand(sessions, database, [])
  {}

  /** Only the Accept-Encoding headers are taken from a request, all of them, and nothing else changes. */
  lemma ForwardedLacksOnly(line: StartLine, a: seq<Header>, v: string, b: seq<Header>, data: string)
    ensures Forwarded(Message(line, a + [Header("Accept-Encoding", v)] + b, data)) == Forwarded(Message(line, a + b, data))
    ensures Lacks(a, "Accept-Encoding") ==> Forwarded(Message(line, a, data)) == Message(line, a, data)
  {
    RemovedAt(a, Header("Accept-Encoding", v), b);
    if Lacks(a, "Accept-Encoding") {
      RemovedOthers(a, "Accept-Encoding");
    }
  }

  /** Exactly the clients whose first Accept-Encoding lists "gzip" get the response compressed, and
      exactly a response whose first Content-Encoding lists it is sent as it is. */
  lemma GzipForThoseWhoAsk(gz: string -> string, request: Message, response: Message)
    ensures ForClient(gz, request, response) ==
      if FirstListed(request.headers, "Accept-Encoding", "gzip") && !FirstListed(response.headers, "Content-Encoding", "gzip")
      then Message(response.line, ForClient(gz, request, response).headers, gz(response.data)) else response
  {
    ListsIff(request.headers, "Accept-Encoding", "gzip");
    ListsIff(response.headers, "Content-Encoding", "gzip");
  }

  /** A well-formed request is forwarded as one: the origin parses it back without Accept-Encoding
      and otherwise unchanged. */
  lemma ForwardedParses(request: Message)
    requires WellFormed(REQUEST, request)
    ensures var f := Feed(Start(REQUEST, false), Serialize(Forwarded(request)));
      && f.result.Parsed? && f.rest == "" && ParsedMessage(f.p) == Forwarded(request)
      && FirstValue(ParsedMessage(f.p).headers, ACCEPT_ENCODING) == None
  {
    hide Feed, Serialize, WellFormedHeaders, WellFormedLine, Removed, FirstValue, DataLength, ParsedMessage;
    RemovedWellFormed(request.headers, ACCEPT_ENCODING);
    DataLengthRemoved(request.headers, ACCEPT_ENCODING);
    FirstValueRemoved(request.headers, ACCEPT_ENCODING, ACCEPT_ENCODING);
    ParseSerialize(REQUEST, false, Forwarded(request));
  }

  /** From the origin's bytes to the client: what the client parses is what the proxy parsed,
      compressed if the client asked for that, exactly when the body sent is at most an int long. */
  lemma {:induction false} EndToEnd(gz: string -> string, request: Message, stream: string)
    ensures var f := Feed(Start(RESPONSE, false), stream);
      var sent := ForClient(gz, request, ParsedMessage(f.p));
      var g := Feed(Start(RESPONSE, false), Delivered(gz, request, ParsedMessage(f.p)));
      f.result.Parsed? ==>
        (g.result.Parsed? && g.rest == "" && ParsedMessage(g.p) == sent <==> |sent.data| <= INT_MAX)
  {
    hide Feed, Serialize, WellFormed, ParsedMessage, Headlike, IsCompressed;
    var f := Feed(Start(RESPONSE, false), stream);
    if f.result.Parsed? {
      var m := ParsedMessage(f.p);
      OutputIsWellFormed(RESPONSE, false, stream);
      NormalForm(RESPONSE, false, stream);
      CompressedWellFormedIff(gz, m);
      RoundTripIff(RESPONSE, false, ForClient(gz, request, m));
    }
  }
}
