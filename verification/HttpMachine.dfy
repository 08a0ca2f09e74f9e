/** The incremental message parsers as state machines (individual/lib/HTTP.cpp, lines 317-662).
    THttpRequestParser and THttpResponseParser share one description: kind tells them apart. */
module HttpMachine {
  import opened Numbers
  import opened Http
  import opened HttpScan

  // ----- request lines and status lines -----

  datatype LineField = FIRST | SECOND | THIRD

  datatype LineP = LineP(field: LineField, first: Until, second: Until, third: Until)

  function LineStart(): LineP { LineP(FIRST, Until(" ", ""), Until(" ", ""), Until(CRLF, "")) }

  datatype LineStepped = LineStepped(l: LineP, done: bool)

  function LineStep(l: LineP, c: char): LineStepped {
    match l.field
    case FIRST =>
      var r := UntilStep(l.first, c);
      LineStepped(l.(first := r.u, field := if r.done then SECOND else FIRST), false)
    case SECOND =>
      var r := UntilStep(l.second, c);
      LineStepped(l.(second := r.u, field := if r.done then THIRD else SECOND), false)
    case THIRD =>
      var r := UntilStep(l.third, c);
      LineStepped(l.(third := r.u), r.done)
  }

  function LineOf(l: LineP): StartLine { StartLine(l.first.parsed, l.second.parsed, l.third.parsed) }

  // ----- headers -----

  /** Everything up to the first ": " is the key; without one the whole line is, and the value is empty. */
  function ParseHeader(line: string): Header {
    var f := FeedUntil(Until(": ", ""), line);
    Header(f.u.parsed, f.rest)
  }

  method ReadHeader(line: string) returns (h: Header)
    ensures h == ParseHeader(line)
  {
    var key := new UntilParser(": ");
    var i := 0;
    var parsed := false;
    while i < |line| && !parsed
      invariant i <= |line|
      invariant FeedUntil(Until(": ", ""), line) ==
                if parsed then UntilFed(key.View(), true, line[i..]) else FeedUntil(key.View(), line[i..])
    {
      assert line[i..][1..] == line[i + 1..];
      parsed := key.Consume(line[i]);
      i := i + 1;
    }
    h := Header(key.parsed, line[i..]);
  }

  datatype HeadersP = HeadersP(line: Until, parsed: seq<Header>)

  function HeadersStart(): HeadersP { HeadersP(Until(CRLF, ""), []) }

  datatype HeadersStepped = HeadersStepped(h: HeadersP, done: bool)

  function HeadersStep(h: HeadersP, c: char): HeadersStepped {
    var r := UntilStep(h.line, c);
    if !r.done then HeadersStepped(h.(line := r.u), false)
    else if r.u.parsed == "" then HeadersStepped(h.(line := r.u), true)
    else HeadersStepped(HeadersP(Until(CRLF, ""), h.parsed + [ParseHeader(r.u.parsed)]), false)
  }

  // ----- what the headers say about the body -----

  /** The last Content-Length counts; one that is no number, or out of range, counts as 0. */
  function DataLength(hs: seq<Header>): int {
    if hs == [] then 0
    else if hs[|hs| - 1].key == CONTENT_LENGTH then
      match FromChars(hs[|hs| - 1].value, 10) case Some(n) => n case None => 0
    else DataLength(hs[..|hs| - 1])
  }

  method ComputeDataLength(hs: seq<Header>) returns (dataLength: int)
    ensures dataLength == DataLength(hs)
  {
    dataLength := 0;
    for i := 0 to |hs|
      invariant dataLength == DataLength(hs[..i])
    {
      assert hs[..i + 1][..i] == hs[..i];
      if hs[i].key == CONTENT_LENGTH {
        var n := FromChars(hs[i].value, 10);
        dataLength := if n.Some? then n.value else 0;
      }
    }
    assert hs[..|hs|] == hs;
  }

  predicate IsChunked(hs: seq<Header>) {
    match FirstValue(hs, TRANSFER_ENCODING)
    case None => false
    case Some(v) => "chunked" in Directives(v)
  }

  /** A message is chunked exactly when the first Transfer-Encoding lists "chunked": when that word is a
      maximal run of its value. */
  lemma ChunkedIff(hs: seq<Header>)
    ensures IsChunked(hs) <==>
            match FirstValue(hs, "Transfer-Encoding")
            case None => false
            case Some(v) => HasRun(v, "chunked")
  {
    match FirstValue(hs, "Transfer-Encoding")
    case None =>
    case Some(v) => DirectivesAreRuns(v, "chunked");
  }

  /** The last Content-Length decides, whatever other headers stand around it. */
  lemma {:induction false} LastLengthCounts(a: seq<Header>, v: string, b: seq<Header>)
    requires Lacks(b, "Content-Length")
    ensures DataLength(a + [Header("Content-Length", v)] + b) ==
            match FromChars(v, 10) case Some(n) => n case None => 0
    decreases |b|
  {
    hide FromChars;
    var all := a + [Header("Content-Length", v)] + b;
    if b == [] {
      assert all == a + [Header("Content-Length", v)];
    } else {
      var init := b[..|b| - 1];
      assert all[..|all| - 1] == a + [Header("Content-Length", v)] + init;
      assert all[|all| - 1] == b[|b| - 1];
      LastLengthCounts(a, v, init);
    }
  }

  lemma {:induction false} NoLength(hs: seq<Header>)
    requires Lacks(hs, "Content-Length")
    ensures DataLength(hs) == 0
    decreases |hs|
  {
    if hs != [] {
      NoLength(hs[..|hs| - 1]);
    }
  }

  /** A line is split at its first ": "; without one all of it is the key. */
  lemma HeaderLine(key: string, value: string)
    requires Free(": ", key)
    ensures ParseHeader(key + ": " + value) == Header(key, value)
    ensures ParseHeader(key) == Header(key, "")
  {
    hide Free;
    assert "" + key == key;
    UntilFinds(": ", "", key, value);
    NotFree(": ");
    UntilFound(Until(": ", ""), key);
    var f := FeedUntil(Until(": ", ""), key);
    if f.done {
      DelimiterInside(": ", key, f.u.parsed, f.rest);
    }
  }

  lemma NotFree(d: string)
    requires d != ""
    ensures Free(d, "")
  {
    forall i ensures !OccursAt("", d, i) {}
  }

  lemma DelimiterInside(d: string, t: string, a: string, b: string)
    requires "" + t == a + d + b
    ensures !Free(d, t)
  {
    assert "" + t == t;
    forall j | 0 <= j < |d| ensures t[|a| + j] == d[j] {
      assert (a + d + b)[|a| + j] == d[j];
    }
    assert OccursAt(t, d, |a|);
  }

  // ----- whole messages -----

  datatype Kind = REQUEST | RESPONSE

  datatype State = LINE | HEADERS | DATA | CHUNK_LENGTH | CHUNK_DATA

  /** Broken: reserving a negative size has thrown, or a chunk length that is no number (or too large
      to add 2 to) would be read. */
  datatype Result = Await | Parsed | Broken

  /** trim is false in the code as it is written; true describes a parser that drops the two bytes
      that end each chunk. */
  datatype MessageP = MessageP(
    kind: Kind, trim: bool, state: State, line: LineP, headers: HeadersP, data: Counted,
    chunked: bool, chunkLength: Until, chunk: Counted, chunkedData: string)

  function Start(kind: Kind, trim: bool): MessageP {
    MessageP(kind, trim, LINE, LineStart(), HeadersStart(), Counted(0, ""),
             false, Until(CRLF, ""), Counted(0, ""), "")
  }

  datatype Stepped = Stepped(p: MessageP, result: Result)

  function Step(p: MessageP, c: char): Stepped {
    match p.state
    case LINE =>
      var r := LineStep(p.line, c);
      Stepped(p.(line := r.l, state := if r.done then HEADERS else LINE), Await)
    case HEADERS =>
      var r := HeadersStep(p.headers, c);
      if r.done then AfterHeaders(p.(headers := r.h)) else Stepped(p.(headers := r.h), Await)
    case DATA =>
      var r := CountedStep(p.data, c);
      Stepped(p.(data := r.c), if r.done then Parsed else Await)
    case CHUNK_LENGTH =>
      var r := UntilStep(p.chunkLength, c);
      if r.done then AfterChunkLength(p.(chunkLength := r.u)) else Stepped(p.(chunkLength := r.u), Await)
    case CHUNK_DATA =>
      var r := CountedStep(p.chunk, c);
      if !r.done then Stepped(p.(chunk := r.c), Await)
      else Stepped(p.(chunk := r.c, state := CHUNK_LENGTH,
                      chunkedData := p.chunkedData + ChunkText(p.trim, r.c.parsed)), Await)
  }

  function ChunkText(trim: bool, parsed: string): string {
    if trim && |parsed| >= 2 then parsed[..|parsed| - 2] else parsed
  }

  function AfterHeaders(p: MessageP): Stepped {
    var n := DataLength(p.headers.parsed);
    var chunked := p.kind.RESPONSE? && IsChunked(p.headers.parsed);
    if chunked then Stepped(p.(state := CHUNK_LENGTH, chunked := true), Await)
    else if n == 0 then Stepped(p, Parsed)
    else Stepped(p.(state := DATA, data := Counted(n, "")), if n < 0 then Broken else Await)
  }

  function AfterChunkLength(p: MessageP): Stepped {
    match FromChars(p.chunkLength.parsed, 16)
    case None => Stepped(p, Broken)
    case Some(n) =>
      if n == 0 then Stepped(p, Parsed)
      else if n + 2 > INT_MAX then Stepped(p, Broken)
      else Stepped(p.(state := CHUNK_DATA, chunk := Counted(n + 2, ""), chunkLength := Until(p.chunkLength.delimiter, "")),
                   if n + 2 < 0 then Broken else Await)
  }

  /** The object handed out. A chunked body is declared with its length instead. */
  function ParsedMessage(p: MessageP): Message {
    var hs := p.headers.parsed;
    if p.chunked then
      Message(LineOf(p.line),
              Removed(Updated(hs, Header(CONTENT_LENGTH, ToString(|p.chunkedData|))), TRANSFER_ENCODING),
              p.chunkedData)
    else Message(LineOf(p.line), hs, p.data.parsed)
  }

  datatype Fed = Fed(p: MessageP, result: Result, rest: string)

  /** Bytes are consumed one at a time until the parser stops awaiting. */
  function Feed(p: MessageP, s: string): Fed
    decreases |s|
  {
    if s == "" then Fed(p, Await, "")
    else
      var r := Step(p, s[0]);
      if r.result.Await? then Feed(r.p, s[1..]) else Fed(r.p, r.result, s[1..])
  }

  /** It does not matter how the stream is cut into buffers. */
  lemma {:induction false} FeedInPieces(p: MessageP, a: string, b: string)
    ensures Feed(p, a + b) ==
            var f := Feed(p, a);
            if f.result.Await? then Feed(f.p, b) else Fed(f.p, f.result, f.rest + b)
    decreases |a|
  {
    if a == "" {
      assert a + b == b;
    } else {
      assert (a + b)[1..] == a[1..] + b;
      FeedInPieces(Step(p, a[0]).p, a[1..], b);
    }
  }

  /** A parser that stops exactly at the end of its input awaits on every proper prefix of it. */
  lemma AwaitsBefore(p: MessageP, s: string, k: nat)
    requires Feed(p, s).rest == "" && !Feed(p, s).result.Await? && k < |s|
    ensures Feed(p, s[..k]).result.Await?
  {
    assert s == s[..k] + s[k..];
    FeedInPieces(p, s[..k], s[k..]);
  }
}
